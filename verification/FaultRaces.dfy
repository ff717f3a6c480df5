/**
Two CPUs that fault on the same object at the same time. `Object::generate` of src/mem/object.cpp takes no lock, so both
can finish their search before either links its new page.

The search leaves each of them with two pointers into the list, `prev` and `next`. Linking makes `next` the successor of
the new page and the new page the successor of `prev`, whatever has come between them since. Table updates of different
pages do not touch each other, so only the order of the two links matters, and here the first CPU links first.
*/
module FaultRaces {
  import opened Wrappers
  import opened PageTables
  import opened VirtualMemory
  import opened MemoryMishaps

  function Spliced(l: seq<Resident>, k: nat, x: Resident): seq<Resident>
    requires k <= |l|
  {
    l[..k] + [x] + l[k..]
  }

  /** Both have searched l, and stand at i and at j; the first links a, then the second links b. In the same place the
      second goes from the old `prev` to the old `next`, and a is in the list no more. */
  function Raced(l: seq<Resident>, i: nat, a: Resident, j: nat, b: Resident): seq<Resident>
    requires i <= |l| && j <= |l|
  {
    if i == j then Spliced(l, j, b)
    else Spliced(Spliced(l, i, a), if j < i then j else j + 1, b)
  }

  /** One after the other. */
  function InTurn(l: seq<Resident>, p: nat, f: int, q: nat, g: int): seq<Resident> {
    if q == p then Added(l, p, f) else Added(Added(l, p, f), q, g)
  }

  lemma PlaceAfter(l: seq<Resident>, p: nat, f: int, q: nat)
    requires Sorted(l) && Place(l, p) != Place(l, q)
    ensures Place(Added(l, p, f), q) == if Place(l, q) < Place(l, p) then Place(l, q) else Place(l, q) + 1
  {
    var i, j, r := Place(l, p), Place(l, q), Added(l, p, f);
    var k := if j < i then j else j + 1;
    assert j < i ==> l[j].page < p;
    assert i < j ==> p <= l[i].page < q;
    hide Place;
    forall n | 0 <= n < |r| ensures if n < k then r[n].page < q else n == k ==> r[n].page >= q {
      SplicedAt(l, i, Resident(p, f), n);
    }
    PlaceUnique(r, q, k);
  }

  lemma SplicedAt(l: seq<Resident>, i: nat, x: Resident, n: nat)
    requires i <= |l| && n <= |l|
    ensures |Spliced(l, i, x)| == |l| + 1
    ensures Spliced(l, i, x)[n] == if n < i then l[n] else if n == i then x else l[n - 1]
  {
  }

  /** Nothing is lost exactly when the two pages belong in different places of the list. */
  lemma RaceIsHarmlessExactlyWhen(l: seq<Resident>, p: nat, f: int, q: nat, g: int)
    requires Sorted(l) && f != g
    ensures Raced(l, Place(l, p), Resident(p, f), Place(l, q), Resident(q, g)) == InTurn(l, p, f, q, g)
       <==> Place(l, p) != Place(l, q)
  {
    var i, j := Place(l, p), Place(l, q);
    if i != j {
      PlaceAfter(l, p, f, q);
    } else {
      assert Spliced(l, j, Resident(q, g))[j] == Resident(q, g) && Added(l, p, f)[i] == Resident(p, f);
    }
  }

  /** What the list then says. */
  lemma RacedLookup(l: seq<Resident>, p: nat, f: int, q: nat, g: int, max: nat, x: int)
    requires Sorted(l) && Below(l, max) && p < max && q < max && Lookup(l, p) == None && Lookup(l, q) == None && f != g
    ensures var r := Raced(l, Place(l, p), Resident(p, f), Place(l, q), Resident(q, g));
            Lookup(r, x) == if x == q then Some(g) else if x == p && Place(l, p) != Place(l, q) then Some(f) else Lookup(l, x)
  {
    if Place(l, p) == Place(l, q) {
      assert Raced(l, Place(l, p), Resident(p, f), Place(l, q), Resident(q, g)) == Added(l, q, g);
      AddedKeeps(l, q, g, max, x);
    } else {
      RaceIsHarmlessExactlyWhen(l, p, f, q, g);
      AddedKeeps(l, p, f, max, q);
      AddedKeeps(l, p, f, max, x);
      AddedKeeps(Added(l, p, f), q, g, max, x);
    }
  }

  // ---- The tables ---------------------------------------------------------------------------

  /** After both faults: one list, and tables that both have updated, the second CPU's update last or first. */
  function RacedSystem(s: System, o: nat, a: Resident, b: Resident, secondLast: bool): System
    requires Linked(s) && o in s.objects
  {
    var obj := s.objects[o];
    var x, y := if secondLast then a else b, if secondLast then b else a;
    assert forall w :: w in obj.windows ==> LinkedToSpace(s.spaces, o, w);
    System(s.objects[o := obj.(pages := Raced(obj.pages, Place(obj.pages, a.page), a, Place(obj.pages, b.page), b))],
           ShowAll(ShowAll(s.spaces, obj.windows, x), obj.windows, y))
  }

  lemma ShowsExactly(s: System, o: nat, m: nat, w: Window, v: int, p: int)
    requires Inv(s) && o in s.objects && m in s.spaces && w in s.spaces[m].windows && w.Has(v)
    ensures SomeShows(s.objects[o].windows, m, v, p) <==> w.obj == o && w.PageOf(v) == p
  {
    var ws := s.objects[o].windows;
    if w.obj == o && w.PageOf(v) == p {
      assert LinkedToObject(s.objects, m, w) && ShowsPage(w, m, v, p);
    } else if u :| u in ws && ShowsPage(u, m, v, p) {
      assert LinkedToSpace(s.spaces, o, u);
      SameWindow(s.spaces[m].windows, u, w, v);
      assert false;
    }
  }

  /** An entry after both updates, one after the other. */
  lemma BothShown(s: System, o: nat, x: Resident, y: Resident, m: nat, v: int)
    requires Inv(s) && o in s.objects && x.page < ADDRESS_PAGES && y.page < ADDRESS_PAGES
    requires m in s.spaces && 0 <= v < USER_PAGES && AllFit(s.spaces, s.objects[o].windows)
    ensures var ws := s.objects[o].windows;
            Entry(ShowAll(ShowAll(s.spaces, ws, x), ws, y)[m].tables, v)
            == if SomeShows(ws, m, v, y.page) then Some(y.frame)
               else if SomeShows(ws, m, v, x.page) then Some(x.frame) else Entry(s.spaces[m].tables, v)
  {
    var ws := s.objects[o].windows;
    forall w | w in ws ensures NoWrap(w) { assert LinkedToSpace(s.spaces, o, w); }
    ShowAllIsExact(s.spaces, ws, x, m, v);
    ShowAllIsExact(ShowAll(s.spaces, ws, x), ws, y, m, v);
  }

  lemma RacedLinked(s: System, o: nat, a: Resident, b: Resident, secondLast: bool)
    requires Inv(s) && o in s.objects
    ensures Linked(RacedSystem(s, o, a, b, secondLast)) && AllFit(s.spaces, s.objects[o].windows)
  {
    var s' := RacedSystem(s, o, a, b, secondLast);
    assert forall w :: w in s.objects[o].windows ==> LinkedToSpace(s.spaces, o, w);
    forall m, w | m in s'.spaces && w in s'.spaces[m].windows ensures LinkedToObject(s'.objects, m, w) {
      assert LinkedToObject(s.objects, m, w);
    }
    forall n, w | n in s'.objects && w in s'.objects[n].windows ensures LinkedToSpace(s'.spaces, n, w) {
      assert LinkedToSpace(s.spaces, n, w);
    }
  }

  /** What makes the race harmless. */
  predicate Harmless(s: System, o: nat, a: Resident, b: Resident, secondLast: bool)
    requires o in s.objects
  {
    var l := s.objects[o].pages;
    Place(l, a.page) != Place(l, b.page) || (a.page == b.page && secondLast)
  }

  predicate Racing(s: System, o: nat, a: Resident, b: Resident)
    requires o in s.objects
  {
    var obj := s.objects[o];
    && a.page < obj.maxPages && b.page < obj.maxPages && a.frame != b.frame
    && Lookup(obj.pages, a.page) == None && Lookup(obj.pages, b.page) == None
  }

  lemma RacedShown(s: System, o: nat, a: Resident, b: Resident, secondLast: bool, m: nat, w: Window, v: int)
    requires Inv(s) && o in s.objects && Racing(s, o, a, b) && m in s.spaces && w in s.spaces[m].windows && w.Has(v)
    requires Linked(RacedSystem(s, o, a, b, secondLast)) && w in RacedSystem(s, o, a, b, secondLast).spaces[m].windows
    ensures Harmless(s, o, a, b, secondLast) ==> Shown(RacedSystem(s, o, a, b, secondLast), m, w, v)
    ensures !Harmless(s, o, a, b, secondLast) && w.obj == o && w.PageOf(v) == a.page ==>
              !Shown(RacedSystem(s, o, a, b, secondLast), m, w, v)
  {
    WindowFits(s, m, w);
    RacedLinked(s, o, a, b, secondLast);
    var x, y := if secondLast then a else b, if secondLast then b else a;
    BothShown(s, o, x, y, m, v);
    ShowsExactly(s, o, m, w, v, a.page);
    ShowsExactly(s, o, m, w, v, b.page);
    assert Shown(s, m, w, v);
    var obj := s.objects[o];
    RacedLookup(obj.pages, a.page, a.frame, b.page, b.frame, obj.maxPages, w.PageOf(v));
  }

  /** Two CPUs fault on pages that are not resident, and one of them in a window that shows its page. Tables and list agree
      afterwards exactly when the pages belong in different places of the list, or the pages are the same and the CPU that
      linked last updated the tables last. */
  lemma RaceAgreesExactlyWhen(s: System, o: nat, a: Resident, b: Resident, secondLast: bool, m: nat, w: Window, v: int)
    requires Inv(s) && o in s.objects && Racing(s, o, a, b)
    requires m in s.spaces && w in s.spaces[m].windows && w.obj == o && w.Has(v) && w.PageOf(v) == a.page
    ensures var s' := RacedSystem(s, o, a, b, secondLast);
            Linked(s') && (Agree(s') <==> Harmless(s, o, a, b, secondLast))
  {
    var s' := RacedSystem(s, o, a, b, secondLast);
    RacedLinked(s, o, a, b, secondLast);
    assert forall n :: n in s'.spaces ==> s'.spaces[n].windows == s.spaces[n].windows;
    if Harmless(s, o, a, b, secondLast) {
      forall n, u, x | n in s'.spaces && u in s'.spaces[n].windows && u.Has(x) ensures Shown(s', n, u, x) {
        RacedShown(s, o, a, b, secondLast, n, u, x);
      }
      forall n, x | n in s'.spaces && 0 <= x < USER_PAGES && Bare(s'.spaces[n].windows, x)
        ensures Entry(s'.spaces[n].tables, x) == None
      {
        BareStaysBare(s, o, a, b, secondLast, n, x);
      }
    } else {
      RacedShown(s, o, a, b, secondLast, m, w, v);
    }
  }

  lemma BareStaysBare(s: System, o: nat, a: Resident, b: Resident, secondLast: bool, m: nat, v: int)
    requires Inv(s) && o in s.objects && Racing(s, o, a, b)
    requires m in s.spaces && 0 <= v < USER_PAGES && Bare(s.spaces[m].windows, v)
    requires Linked(RacedSystem(s, o, a, b, secondLast))
    ensures Entry(RacedSystem(s, o, a, b, secondLast).spaces[m].tables, v) == None
  {
    RacedLinked(s, o, a, b, secondLast);
    var ws := s.objects[o].windows;
    assert forall u :: u in ws ==> LinkedToSpace(s.spaces, o, u);
    assert forall p :: !SomeShows(ws, m, v, p);
    BothShown(s, o, if secondLast then a else b, if secondLast then b else a, m, v);
  }

  /** Two windows side by side on an object of which nothing is resident yet, and both CPUs fault: whoever updates the tables
      last, the page linked first is mapped and the object does not have it. */
  lemma FirstFaultsRace(secondLast: bool)
    ensures Reachable(SIDE_BY_SIDE) && Inv(SIDE_BY_SIDE)
    ensures var s := RacedSystem(SIDE_BY_SIDE, 0, FIRST, Resident(1, 0x2000), secondLast); Linked(s) && !Agree(s)
  {
    SideBySideReachable();
    assert [RIGHT, LEFT][1] == LEFT;
    RaceAgreesExactlyWhen(SIDE_BY_SIDE, 0, FIRST, Resident(1, 0x2000), secondLast, 0, LEFT, 2);
  }
}
