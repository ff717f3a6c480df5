/**
What the operations of VirtualMemory leave alone, and whose doing every change is: resident pages, limits, windows.
*/
module MemoryFrames {
  import opened Wrappers
  import opened PageTables
  import opened VirtualMemory

  /** r is what is left of ws, in the same order. */
  predicate InOrder(r: seq<Window>, ws: seq<Window>)
    decreases |ws|
  {
    r == [] || (ws != [] && ((r[0] == ws[0] && InOrder(r[1..], ws[1..])) || InOrder(r, ws[1..])))
  }

  lemma {:induction false} InOrderSelf(ws: seq<Window>)
    ensures InOrder(ws, ws)
  {
    if ws != [] { InOrderSelf(ws[1..]); }
  }

  lemma {:induction false} InOrderTransitive(a: seq<Window>, b: seq<Window>, c: seq<Window>)
    requires InOrder(a, b) && InOrder(b, c)
    ensures InOrder(a, c)
    decreases |b| + |c|
  {
    if a != [] {
      if b[0] == c[0] && InOrder(b[1..], c[1..]) {
        if a[0] == b[0] && InOrder(a[1..], b[1..]) {
          InOrderTransitive(a[1..], b[1..], c[1..]);
        } else {
          InOrderTransitive(a, b[1..], c[1..]);
        }
      } else {
        InOrderTransitive(a, b, c[1..]);
      }
    }
  }

  lemma {:induction false} WithoutInOrder(ws: seq<Window>, w: Window)
    ensures InOrder(Without(ws, w), ws)
  {
    if ws != [] {
      WithoutInOrder(ws[1..], w);
      var rest := Without(ws[1..], w);
      if ws[0] == w { assert [] + rest == rest; } else { assert ([ws[0]] + rest)[1..] == rest; }
    }
  }

  lemma {:induction false} OthersInOrder(ws: seq<Window>, o: nat)
    ensures InOrder(Others(ws, o), ws)
  {
    if ws != [] {
      OthersInOrder(ws[1..], o);
      var rest := Others(ws[1..], o);
      if ws[0].obj == o { assert [] + rest == rest; } else { assert ([ws[0]] + rest)[1..] == rest; }
    }
  }

  lemma {:induction false} WithoutAllInOrder(from: seq<Window>, ws: seq<Window>, o: nat)
    ensures InOrder(WithoutAll(from, ws, o), from)
    decreases |ws|
  {
    if ws == [] {
      InOrderSelf(from);
    } else {
      var next := if ws[0].obj == o then Without(from, ws[0]) else from;
      WithoutAllInOrder(next, ws[1..], o);
      if ws[0].obj == o { WithoutInOrder(from, ws[0]); } else { InOrderSelf(from); }
      InOrderTransitive(WithoutAll(next, ws[1..], o), next, from);
    }
  }

  lemma {:induction false} CutInOrder(ws: seq<Window>, k: nat)
    requires k < |ws|
    ensures InOrder(ws[..k] + ws[k + 1..], ws)
  {
    var r := ws[..k] + ws[k + 1..];
    if k == 0 {
      InOrderSelf(ws[1..]);
      assert r == ws[1..];
    } else {
      CutInOrder(ws[1..], k - 1);
      assert r[0] == ws[0] && r[1..] == ws[1..][..k - 1] + ws[1..][k..];
    }
  }

  // ---- One operation at a time -------------------------------------------------------------------

  /** The objects and spaces are the same ones, and every object has the pages and the limit it had. */
  ghost predicate PagesKept(s: System, s': System) {
    && s'.objects.Keys == s.objects.Keys && s'.spaces.Keys == s.spaces.Keys
    && forall o :: o in s.objects ==> s'.objects[o].pages == s.objects[o].pages && s'.objects[o].maxPages == s.objects[o].maxPages
  }

  /** Objects other than o and spaces other than m are untouched. */
  ghost predicate Elsewhere(s: System, s': System, o: nat, m: nat) {
    && (forall q :: q in s.objects && q in s'.objects && q != o ==> s'.objects[q] == s.objects[q])
    && (forall n :: n in s.spaces && n in s'.spaces && n != m ==> s'.spaces[n] == s.spaces[n])
  }

  /** Removing a window takes that window out of its two lists, and nothing else. */
  lemma RemoveFrame(s: System, m: nat, k: nat)
    requires Inv(s) && m in s.spaces && k < |s.spaces[m].windows| && Remove(s, m, k).Some?
    ensures var s', w := Remove(s, m, k).value, s.spaces[m].windows[k];
            && w.obj in s.objects && PagesKept(s, s') && Elsewhere(s, s', w.obj, m)
            && (forall u :: u in s'.spaces[m].windows <==> u in s.spaces[m].windows && u != w)
            && (forall u :: u in s'.objects[w.obj].windows <==> u in s.objects[w.obj].windows && u != w)
            && InOrder(s'.spaces[m].windows, s.spaces[m].windows)
            && InOrder(s'.objects[w.obj].windows, s.objects[w.obj].windows)
  {
    var w := s.spaces[m].windows[k];
    assert LinkedToObject(s.objects, m, w);
    RestHas(s.spaces[m].windows, k);
    forall u ensures u in Without(s.objects[w.obj].windows, w) <==> u in s.objects[w.obj].windows && u != w {
      WithoutHas(s.objects[w.obj].windows, w, u);
    }
    CutInOrder(s.spaces[m].windows, k);
    WithoutInOrder(s.objects[w.obj].windows, w);
    hide Drain, InOrder, Without;
  }

  /** Removing an object from a space takes its windows there out of the two lists, and nothing else. Its pages stay. */
  lemma RemoveObjectFrame(s: System, m: nat, o: nat)
    requires Inv(s) && m in s.spaces && o in s.objects && RemoveObject(s, m, o).Some?
    ensures var s' := RemoveObject(s, m, o).value;
            && PagesKept(s, s') && Elsewhere(s, s', o, m)
            && (forall u :: u in s'.spaces[m].windows <==> u in s.spaces[m].windows && u.obj != o)
            && (forall u :: u in s'.objects[o].windows <==> u in s.objects[o].windows && u.space != m)
            && InOrder(s'.spaces[m].windows, s.spaces[m].windows)
            && InOrder(s'.objects[o].windows, s.objects[o].windows)
  {
    hide Linked, Agree, ObjectsOk, WindowsOk, DrainAll, Others, WithoutAll, InOrder, PagesKept, Elsewhere;
    var ws, from := s.spaces[m].windows, s.objects[o].windows;
    var s' := RemoveObject(s, m, o).value;
    RemovedElsewhere(s, m, o, s'.spaces[m].tables);
    forall u ensures (u in Others(ws, o) <==> u in ws && u.obj != o)
                     && (u in WithoutAll(from, ws, o) <==> u in from && u.space != m) {
      ObjectWindows(s, m, o, u);
    }
    OthersInOrder(ws, o);
    WithoutAllInOrder(from, ws, o);
  }

  lemma RemovedElsewhere(s: System, m: nat, o: nat, t: Tables)
    requires m in s.spaces && o in s.objects
    ensures var s' := RemovedObject(s, m, o, t); PagesKept(s, s') && Elsewhere(s, s', o, m)
  {
  }

  lemma ObjectWindows(s: System, m: nat, o: nat, u: Window)
    requires Inv(s) && m in s.spaces && o in s.objects
    ensures var ws, from := s.spaces[m].windows, s.objects[o].windows;
            && (u in Others(ws, o) <==> u in ws && u.obj != o)
            && (u in WithoutAll(from, ws, o) <==> u in from && u.space != m)
  {
    var ws, from := s.spaces[m].windows, s.objects[o].windows;
    OthersHas(ws, o, u);
    WithoutAllHas(from, ws, o, u);
    if u in from { assert LinkedToSpace(s.spaces, o, u); }
    if u in ws { assert LinkedToObject(s.objects, m, u); }
    hide Others, WithoutAll, Agree, ObjectsOk, WindowsOk;
  }

  /** Adding a window puts it at the front of its two lists, and changes nothing else but the tables of its space. */
  lemma AddFrame(s: System, w: Window)
    requires Linked(s) && w.obj in s.objects && Fits(s.spaces, w)
    ensures var s' := AddObject(s, w);
            && PagesKept(s, s') && Elsewhere(s, s', w.obj, w.space)
            && s'.spaces[w.space].windows == [w] + s.spaces[w.space].windows
            && s'.objects[w.obj].windows == [w] + s.objects[w.obj].windows
  {
    hide Fill;
  }

  /** Generating a page adds that page to that object, if it lies below the limit and is not there, and changes no list of
      windows and no other object. */
  lemma GenerateFrame(s: System, o: nat, p: nat, frame: int)
    requires Inv(s) && o in s.objects
    ensures var s' := Generate(s, o, p, frame);
            var x, y := s.objects[o], s'.objects[o];
            var adds := p < x.maxPages && Lookup(x.pages, p) == None;
            && s'.objects.Keys == s.objects.Keys && s'.spaces.Keys == s.spaces.Keys
            && (forall q :: q in s.objects && q != o ==> s'.objects[q] == s.objects[q])
            && (forall m :: m in s.spaces ==> s'.spaces[m].windows == s.spaces[m].windows)
            && y.maxPages == x.maxPages && y.windows == x.windows
            && (forall q :: Lookup(y.pages, q) == if adds && q == p then Some(frame) else Lookup(x.pages, q))
            && |y.pages| == |x.pages| + (if adds then 1 else 0)
            && (!adds ==> s' == s)
  {
    var x := s.objects[o];
    ResidentIsPlace(x.pages, p);
    if p < x.maxPages && Lookup(x.pages, p) == None {
      forall q ensures Lookup(Added(x.pages, p, frame), q) == if q == p then Some(frame) else Lookup(x.pages, q) {
        AddedKeeps(x.pages, p, frame, x.maxPages, q);
      }
    }
    hide Lookup, ShowAll;
  }

  // ---- Whole runs -----------------------------------------------------------------------------------

  /** The page a `generate` or a fault is about, if the operation is one. */
  ghost function Asked(s: System, op: Op): Option<(nat, nat, int)>
    requires Linked(s) && Legal(s, op)
  {
    match op
    case Generating(o, p, frame) => Some((o, p, frame))
    case Fault(m, v, frame) =>
      var ws := s.spaces[m].windows;
      var k := FirstWindow(ws, v);
      if k == |ws| then None else Some((ws[k].obj, ws[k].PageOf(v) % ADDRESS_PAGES, frame))
    case _ => None
  }

  ghost predicate ObjectKept(s: System, s': System, o: nat)
    requires o in s.objects
  {
    && o in s'.objects && s'.objects[o].maxPages == s.objects[o].maxPages
    && forall p, frame :: Lookup(s.objects[o].pages, p) == Some(frame) ==> Lookup(s'.objects[o].pages, p) == Some(frame)
  }

  /** Through any operation an object stays, with its limit and all its pages; a page it has afterwards and had not before is
      the one just asked for, in the frame just generated. */
  lemma DoKeepsPages(s: System, op: Op, o: nat, p: int)
    requires Inv(s) && Legal(s, op) && o in s.objects
    ensures var s' := Do(s, op);
            && ObjectKept(s, s', o)
            && (Lookup(s'.objects[o].pages, p).Some? && Lookup(s.objects[o].pages, p) == None ==>
                  Asked(s, op) == Some((o, p, Lookup(s'.objects[o].pages, p).value)))
  {
    match op
    case NewObject(q, maxPages) => KeptSame(s, Do(s, op), o);
    case NewSpace(m) => KeptSame(s, Do(s, op), o);
    case Add(w) => AddFrame(s, w); KeptSame(s, AddObject(s, w), o);
    case Generating(q, r, frame) => GenerateKeepsPages(s, q, r, frame, o, p);
    case Fault(m, v, frame) =>
      var ws := s.spaces[m].windows;
      var k := FirstWindow(ws, v);
      if k < |ws| {
        assert LinkedToObject(s.objects, m, ws[k]);
        GenerateKeepsPages(s, ws[k].obj, ws[k].PageOf(v) % ADDRESS_PAGES, frame, o, p);
      } else {
        KeptSame(s, s, o);
      }
    case Removing(m, k) => RemoveKeepsExactlyWhen(s, m, k); RemoveFrame(s, m, k); KeptSame(s, Remove(s, m, k).value, o);
    case RemovingObject(m, q) =>
      RemoveObjectKeepsExactlyWhen(s, m, q);
      RemoveObjectFrame(s, m, q);
      KeptSame(s, RemoveObject(s, m, q).value, o);
  }

  lemma KeptSame(s: System, s': System, o: nat)
    requires o in s.objects && o in s'.objects
    requires s'.objects[o].pages == s.objects[o].pages && s'.objects[o].maxPages == s.objects[o].maxPages
    ensures ObjectKept(s, s', o)
  {
  }

  lemma GenerateKeepsPages(s: System, q: nat, r: nat, frame: int, o: nat, p: int)
    requires Inv(s) && q in s.objects && o in s.objects
    ensures var s' := Generate(s, q, r, frame);
            && ObjectKept(s, s', o)
            && (Lookup(s'.objects[o].pages, p).Some? && Lookup(s.objects[o].pages, p) == None ==>
                  q == o && r == p && Lookup(s'.objects[o].pages, p) == Some(frame))
  {
    GenerateFrame(s, q, r, frame);
    hide Generate, Lookup;
  }

  /** A resident page stays resident in its frame through every operation of every run. */
  lemma {:induction false} PageStays(states: seq<System>, ops: seq<Op>, i: nat, n: nat, o: nat, p: int, frame: int)
    requires IsRun(states, ops) && i <= n < |states| && o in states[i].objects
    requires Lookup(states[i].objects[o].pages, p) == Some(frame)
    ensures o in states[n].objects && Lookup(states[n].objects[o].pages, p) == Some(frame)
    ensures states[n].objects[o].maxPages == states[i].objects[o].maxPages
  {
    if i < n {
      PageStays(states, ops, i, n - 1, o, p, frame);
      InvThroughout(states, ops, n - 1);
      assert Legal(states[n - 1], ops[n - 1]) && states[n] == Do(states[n - 1], ops[n - 1]);
      DoKeepsPages(states[n - 1], ops[n - 1], o, p);
    }
  }

  /** A page becomes resident only by being asked for, in the frame that was generated then. */
  lemma PageAppears(states: seq<System>, ops: seq<Op>, n: nat, o: nat, p: int)
    requires IsRun(states, ops) && n < |ops| && o in states[n].objects && Lookup(states[n].objects[o].pages, p) == None
    ensures o in states[n + 1].objects && Linked(states[n]) && Legal(states[n], ops[n])
    ensures var now := Lookup(states[n + 1].objects[o].pages, p);
            now.Some? ==> Asked(states[n], ops[n]) == Some((o, p, now.value))
  {
    InvThroughout(states, ops, n);
    assert Linked(states[n]) && Legal(states[n], ops[n]) && states[n + 1] == Do(states[n], ops[n]);
    DoKeepsPages(states[n], ops[n], o, p);
  }

  /** Objects and spaces come into being empty, by their own operations, and do not go away. */
  lemma NewAreEmpty(states: seq<System>, ops: seq<Op>, n: nat, x: nat)
    requires IsRun(states, ops) && n < |ops|
    ensures x in states[n + 1].objects <==> x in states[n].objects || (ops[n].NewObject? && ops[n].id == x)
    ensures x in states[n + 1].objects && x !in states[n].objects ==>
              states[n + 1].objects[x].pages == [] && states[n + 1].objects[x].windows == []
              && states[n + 1].objects[x].maxPages == ops[n].maxPages
    ensures x in states[n + 1].spaces <==> x in states[n].spaces || ops[n] == NewSpace(x)
    ensures x in states[n + 1].spaces && x !in states[n].spaces ==>
              states[n + 1].spaces[x].windows == [] && states[n + 1].spaces[x].tables == map[]
  {
    InvThroughout(states, ops, n);
    var s, op := states[n], ops[n];
    assert Linked(s) && Legal(s, op) && states[n + 1] == Do(s, op);
    if !op.NewObject? && !op.NewSpace? { SameKeys(s, op); }
    hide Generate, ResolveFault, Remove, RemoveObject, AddObject;
  }

  lemma SameKeys(s: System, op: Op)
    requires Inv(s) && Legal(s, op) && !op.NewObject? && !op.NewSpace?
    ensures Do(s, op).objects.Keys == s.objects.Keys && Do(s, op).spaces.Keys == s.spaces.Keys
  {
    match op
    case Add(w) => AddFrame(s, w);
    case Generating(o, p, frame) => GenerateFrame(s, o, p, frame);
    case Fault(m, v, frame) =>
      var ws := s.spaces[m].windows;
      var k := FirstWindow(ws, v);
      if k < |ws| {
        assert LinkedToObject(s.objects, m, ws[k]);
        GenerateFrame(s, ws[k].obj, ws[k].PageOf(v) % ADDRESS_PAGES, frame);
      }
    case Removing(m, k) => RemoveKeepsExactlyWhen(s, m, k); RemoveFrame(s, m, k);
    case RemovingObject(m, o) => RemoveObjectKeepsExactlyWhen(s, m, o); RemoveObjectFrame(s, m, o);
  }

  /** A window is listed in a space from when it is added until it, or its object, is removed from that space. */
  lemma WindowsChange(states: seq<System>, ops: seq<Op>, n: nat, m: nat, w: Window)
    requires IsRun(states, ops) && n < |ops| && m in states[n].spaces
    ensures m in states[n + 1].spaces
    ensures w in states[n + 1].spaces[m].windows <==>
              || (ops[n] == Add(w) && w.space == m)
              || (w in states[n].spaces[m].windows
                  && !(ops[n].Removing? && ops[n].id == m && ops[n].k < |states[n].spaces[m].windows|
                       && states[n].spaces[m].windows[ops[n].k] == w)
                  && !(ops[n].RemovingObject? && ops[n].id == m && ops[n].which == w.obj))
  {
    InvThroughout(states, ops, n);
    var s, op := states[n], ops[n];
    assert Linked(s) && Legal(s, op) && states[n + 1] == Do(s, op);
    match op
    case NewObject(o, maxPages) =>
    case NewSpace(x) =>
    case Add(u) => AddFrame(s, u);
    case Generating(o, p, frame) => GenerateFrame(s, o, p, frame);
    case Fault(x, v, frame) =>
      var ws := s.spaces[x].windows;
      var k := FirstWindow(ws, v);
      if k < |ws| {
        assert LinkedToObject(s.objects, x, ws[k]);
        GenerateFrame(s, ws[k].obj, ws[k].PageOf(v) % ADDRESS_PAGES, frame);
      }
    case Removing(x, k) => RemoveKeepsExactlyWhen(s, x, k); RemoveFrame(s, x, k);
    case RemovingObject(x, o) => RemoveObjectKeepsExactlyWhen(s, x, o); RemoveObjectFrame(s, x, o);
  }
}
