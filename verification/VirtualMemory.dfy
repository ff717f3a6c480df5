/**
Demand-paged objects and the address spaces that show them: src/mem/object.cpp and the object half of src/mem/vm.cpp.

An object keeps the sorted list of its resident pages. An `ObjectInMap` shows a range of the object in a window of an
address space, and the page tables of that space cache the object's list. The page tables must agree with the list
after every operation.

Offsets, bases and sizes are page aligned and counted in pages. `generate` is always asked for one page.
*/
module VirtualMemory {
  import opened Wrappers
  import opened PageTables

  const ADDRESS_SPACE: int := 0x1_0000_0000
  const ADDRESS_PAGES: int := 0x100000    // the same, in pages

  /** `object::ObjectInMap`. Lists hold pointers to these; `id` stands for the pointer, so that two windows alike in
      everything else are still two. */
  datatype Window = Window(obj: nat, space: nat, base: nat, offset: nat, pages: nat, id: nat) {
    predicate Has(v: int) { base <= v < base + pages }
    /** The page of the object that page v of the address space shows. */
    function PageOf(v: int): int { v - base + offset }
  }

  /** `object::PageEntry`: a page of the object and the frame it is in. */
  datatype Resident = Resident(page: nat, frame: int)

  datatype Object = Object(pages: seq<Resident>, maxPages: nat, windows: seq<Window>)

  datatype Space = Space(tables: Tables, windows: seq<Window>)

  type Objects = map<nat, Object>
  type Spaces = map<nat, Space>

  datatype System = System(objects: Objects, spaces: Spaces)

  // ---- The resident list --------------------------------------------------------------

  function Lookup(l: seq<Resident>, p: int): Option<int> {
    if l == [] then None else if l[0].page == p then Some(l[0].frame) else Lookup(l[1..], p)
  }

  predicate Sorted(l: seq<Resident>) {
    forall i, j :: 0 <= i < j < |l| ==> l[i].page < l[j].page
  }

  predicate Below(l: seq<Resident>, max: nat) {
    forall i :: 0 <= i < |l| ==> l[i].page < max
  }

  /** Where the search of `generate` stops. */
  function Place(l: seq<Resident>, p: int): (k: nat)
    ensures k <= |l|
    ensures forall i :: 0 <= i < k ==> l[i].page < p
    ensures k < |l| ==> l[k].page >= p
  {
    if l == [] || l[0].page >= p then 0 else 1 + Place(l[1..], p)
  }

  lemma {:induction false} PlaceUnique(l: seq<Resident>, p: int, k: nat)
    requires k <= |l| && (forall i :: 0 <= i < k ==> l[i].page < p) && (k < |l| ==> l[k].page >= p)
    ensures k == Place(l, p)
  {
    if l != [] && l[0].page < p { PlaceUnique(l[1..], p, k - 1); }
  }

  function Added(l: seq<Resident>, p: nat, frame: int): seq<Resident> {
    var k := Place(l, p);
    l[..k] + [Resident(p, frame)] + l[k..]
  }

  lemma {:induction false} LookupAt(l: seq<Resident>, k: nat)
    requires Sorted(l) && k < |l|
    ensures Lookup(l, l[k].page) == Some(l[k].frame)
  {
    if k > 0 { assert l[0].page < l[k].page; LookupAt(l[1..], k - 1); }
  }

  lemma {:induction false} LookupFinds(l: seq<Resident>, p: int) returns (k: nat)
    requires Lookup(l, p).Some?
    ensures k < |l| && l[k].page == p && Lookup(l, p) == Some(l[k].frame)
  {
    if l[0].page == p { k := 0; } else { var j := LookupFinds(l[1..], p); k := j + 1; }
  }

  lemma {:induction false} LookupAdded(l: seq<Resident>, k: nat, p: nat, frame: int, q: int)
    requires k <= |l| && Lookup(l, p) == None
    ensures Lookup(l[..k] + [Resident(p, frame)] + l[k..], q) == if q == p then Some(frame) else Lookup(l, q)
  {
    var m := l[..k] + [Resident(p, frame)] + l[k..];
    if k == 0 {
      assert m[1..] == l;
    } else {
      assert m[1..] == l[1..][..k - 1] + [Resident(p, frame)] + l[1..][k - 1..];
      LookupAdded(l[1..], k - 1, p, frame, q);
    }
  }

  /** Resident exactly when the search stops at it. */
  lemma ResidentIsPlace(l: seq<Resident>, p: nat)
    requires Sorted(l)
    ensures var k := Place(l, p); Lookup(l, p).Some? <==> k < |l| && l[k].page == p
  {
    var k := Place(l, p);
    if k < |l| && l[k].page == p { LookupAt(l, k); }
    if Lookup(l, p).Some? { var j := LookupFinds(l, p); assert j >= k; }
  }

  lemma AddedKeeps(l: seq<Resident>, p: nat, frame: int, max: nat, q: int)
    requires Sorted(l) && Below(l, max) && p < max && Lookup(l, p) == None
    ensures Sorted(Added(l, p, frame)) && Below(Added(l, p, frame), max)
    ensures Lookup(Added(l, p, frame), q) == if q == p then Some(frame) else Lookup(l, q)
  {
    ResidentIsPlace(l, p);
    var k := Place(l, p);
    hide Lookup, Place;
    LookupAdded(l, k, p, frame, q);
    var r := Added(l, p, frame);
    assert r == l[..k] + [Resident(p, frame)] + l[k..];
    forall i | 0 <= i < |r| ensures r[i].page < max && (i < k ==> r[i].page < p) && (i > k ==> r[i].page > p) {
      assert i < k ==> r[i] == l[i];
      assert i > k ==> r[i] == l[i - 1] && (i - 1 > k ==> l[k].page < l[i - 1].page);
    }
  }

  // ---- Operations -----------------------------------------------------------------------

  /** `oim->base + offset - oim->offset`: the addition is done in 32 bits before the 64-bit subtraction. */
  function Target(w: Window, p: nat): int {
    (w.base + p) % ADDRESS_PAGES - w.offset
  }

  /** One `insert` call of `generate` and `add_object_in_map`. */
  function Show(t: Tables, w: Window, x: Resident): (r: Tables)
    requires Shaped(t) && w.base + w.pages <= USER_PAGES
    ensures Shaped(r)
  {
    Insert(t, Target(w, x.page) * PAGE_SIZE, [x.frame], w.base * PAGE_SIZE, (w.base + w.pages) * PAGE_SIZE)
  }

  ghost predicate SpacesShaped(spaces: Spaces) {
    forall m :: m in spaces ==> Shaped(spaces[m].tables)
  }

  predicate Fits(spaces: Spaces, w: Window) {
    w.space in spaces && w.base + w.pages <= USER_PAGES
  }

  predicate AllFit(spaces: Spaces, ws: seq<Window>) {
    forall w :: w in ws ==> Fits(spaces, w)
  }

  /** The table update of `generate`: every window of the object, in list order. */
  function ShowAll(spaces: Spaces, ws: seq<Window>, x: Resident): (r: Spaces)
    requires SpacesShaped(spaces) && AllFit(spaces, ws)
    ensures SpacesShaped(r) && r.Keys == spaces.Keys
    ensures forall m :: m in r ==> r[m].windows == spaces[m].windows
    decreases |ws|
  {
    if ws == [] then spaces
    else
      var w := ws[0];
      var m := w.space;
      assert Fits(spaces, w) && forall u :: u in ws[1..] ==> u in ws;
      ShowAll(spaces[m := spaces[m].(tables := Show(spaces[m].tables, w, x))], ws[1..], x)
  }

  /** The fill of `add_object_in_map`: every resident page, in list order. */
  function Fill(t: Tables, w: Window, l: seq<Resident>): (r: Tables)
    requires Shaped(t) && w.base + w.pages <= USER_PAGES
    ensures Shaped(r)
    decreases |l|
  {
    if l == [] then t else Fill(Show(t, w, l[0]), w, l[1..])
  }

  /** The clearing of `remove_object_in_map`: every resident page of the object, inside the window or not. None is a store
      through a table that does not exist. */
  function Drain(t: Tables, w: Window, l: seq<Resident>): (r: Option<Tables>)
    requires Shaped(t)
    ensures r.Some? ==> Shaped(r.value) && r.value.Keys == t.Keys
    decreases |l|
  {
    if l == [] then Some(t)
    else
      match Clear(t, Target(w, l[0].page))
      case None => None
      case Some(t') => Drain(t', w, l[1..])
  }

  /** `Object::generate` of one page; `frame` is what `do_generate` returns when it is called. */
  function Generate(s: System, o: nat, p: nat, frame: int): System
    requires Linked(s) && o in s.objects
  {
    var obj := s.objects[o];
    var k := Place(obj.pages, p);
    if p >= obj.maxPages || (k < |obj.pages| && obj.pages[k].page == p) then s
    else System(s.objects[o := obj.(pages := Added(obj.pages, p, frame))],
                ShowAll(s.spaces, obj.windows, Resident(p, frame)))
  }

  /** `Map::add_object` */
  function AddObject(s: System, w: Window): System
    requires Linked(s) && w.obj in s.objects && Fits(s.spaces, w)
  {
    var obj, space := s.objects[w.obj], s.spaces[w.space];
    System(s.objects[w.obj := obj.(windows := [w] + obj.windows)],
           s.spaces[w.space := Space(Fill(space.tables, w, obj.pages), [w] + space.windows)])
  }

  /** The first window with the page, or the number of windows. */
  function FirstWindow(ws: seq<Window>, v: int): (k: nat)
    ensures k <= |ws| && (k < |ws| ==> ws[k].Has(v))
    ensures forall i :: 0 <= i < k ==> !ws[i].Has(v)
  {
    if ws == [] || ws[0].Has(v) then 0 else 1 + FirstWindow(ws[1..], v)
  }

  /** `Map::resolve_fault` at a byte of page v. The offset into the object is cut to 32 bits when it is passed on. */
  function ResolveFault(s: System, m: nat, v: nat, frame: int): (System, bool)
    requires Linked(s) && m in s.spaces
  {
    var ws := s.spaces[m].windows;
    var k := FirstWindow(ws, v);
    assert k < |ws| ==> LinkedToObject(s.objects, m, ws[k]);
    if k < |ws| then (Generate(s, ws[k].obj, ws[k].PageOf(v) % ADDRESS_PAGES, frame), true) else (s, false)
  }

  function Without(ws: seq<Window>, w: Window): seq<Window> {
    if ws == [] then [] else (if ws[0] == w then [] else [ws[0]]) + Without(ws[1..], w)
  }

  lemma {:induction false} WithoutHas(ws: seq<Window>, w: Window, x: Window)
    ensures x in Without(ws, w) <==> x in ws && x != w
  {
    if ws != [] { WithoutHas(ws[1..], w, x); }
  }

  /** The system without the k-th window of a space, with these tables. */
  function Removed(s: System, m: nat, k: nat, t: Tables): System
    requires Linked(s) && m in s.spaces && k < |s.spaces[m].windows|
  {
    var space := s.spaces[m];
    var w := space.windows[k];
    assert LinkedToObject(s.objects, m, w);
    var obj := s.objects[w.obj];
    System(s.objects[w.obj := obj.(windows := Without(obj.windows, w))],
           s.spaces[m := Space(t, space.windows[..k] + space.windows[k + 1..])])
  }

  /** Erasing the k-th window of a space, and with it the `ObjectInMap`. None is a fault of the kernel. */
  function Remove(s: System, m: nat, k: nat): Option<System>
    requires Linked(s) && m in s.spaces && k < |s.spaces[m].windows|
  {
    var w := s.spaces[m].windows[k];
    assert LinkedToObject(s.objects, m, w);
    match Drain(s.spaces[m].tables, w, s.objects[w.obj].pages)
    case None => None
    case Some(t) => Some(Removed(s, m, k, t))
  }

  // ---- The invariant ------------------------------------------------------------------------

  predicate Disjoint(a: Window, b: Window) {
    a.base + a.pages <= b.base || b.base + b.pages <= a.base || a.pages == 0 || b.pages == 0
  }

  /** No window is listed twice, and none lies over another. */
  predicate AllDisjoint(ws: seq<Window>) {
    forall i, j :: 0 <= i < j < |ws| ==> ws[i] != ws[j] && Disjoint(ws[i], ws[j])
  }

  /** The last page of the window, counted through the object, is still a 32-bit address. */
  predicate NoWrap(w: Window) {
    w.base + w.offset + w.pages <= ADDRESS_PAGES
  }

  predicate LinkedToObject(objects: Objects, m: nat, w: Window) {
    w.space == m && w.obj in objects && w in objects[w.obj].windows
  }

  predicate LinkedToSpace(spaces: Spaces, o: nat, w: Window) {
    w.obj == o && Fits(spaces, w) && w in spaces[w.space].windows
  }

  /** Both lists name the same windows. */
  ghost predicate Linked(s: System) {
    && SpacesShaped(s.spaces)
    && (forall m, w :: m in s.spaces && w in s.spaces[m].windows ==> LinkedToObject(s.objects, m, w))
    && (forall o, w :: o in s.objects && w in s.objects[o].windows ==> LinkedToSpace(s.spaces, o, w))
  }

  ghost predicate ObjectsOk(s: System) {
    forall o :: o in s.objects ==>
      var x := s.objects[o]; Sorted(x.pages) && Below(x.pages, x.maxPages) && x.maxPages < ADDRESS_PAGES
  }

  ghost predicate WindowsOk(s: System) {
    forall m :: m in s.spaces ==>
      AllDisjoint(s.spaces[m].windows) && (forall w :: w in s.spaces[m].windows ==> NoWrap(w))
  }

  /** The object page behind a window page is what the tables say it is. */
  ghost predicate Shown(s: System, m: nat, w: Window, v: int)
    requires Linked(s) && m in s.spaces && w in s.spaces[m].windows && w.Has(v)
  {
    Entry(s.spaces[m].tables, v) == Lookup(s.objects[w.obj].pages, w.PageOf(v))
  }

  predicate Bare(ws: seq<Window>, v: int) {
    forall w :: w in ws ==> !w.Has(v)
  }

  /** In every window the tables hold exactly the resident pages; outside all windows they hold nothing. */
  ghost predicate Agree(s: System)
    requires Linked(s)
  {
    && (forall m, w, v :: m in s.spaces && w in s.spaces[m].windows && w.Has(v) ==> Shown(s, m, w, v))
    && (forall m, v :: m in s.spaces && 0 <= v < USER_PAGES && Bare(s.spaces[m].windows, v) ==>
          Entry(s.spaces[m].tables, v) == None)
  }

  ghost predicate Inv(s: System) {
    Linked(s) && ObjectsOk(s) && WindowsOk(s) && Agree(s)
  }

  lemma SameWindow(ws: seq<Window>, a: Window, b: Window, v: int)
    requires AllDisjoint(ws) && a in ws && b in ws && a.Has(v) && b.Has(v)
    ensures a == b
  {
    var i :| 0 <= i < |ws| && ws[i] == a;
    var j :| 0 <= j < |ws| && ws[j] == b;
  }

  // ---- Generating a page ----------------------------------------------------------------------

  /** A page of the object is written where the window shows it, or nowhere. */
  lemma ShowIsExact(t: Tables, w: Window, x: Resident, v: int)
    requires Shaped(t) && w.base + w.pages <= USER_PAGES && NoWrap(w) && x.page < ADDRESS_PAGES && 0 <= v < USER_PAGES
    ensures Entry(Show(t, w, x), v) == if w.Has(v) && w.PageOf(v) == x.page then Some(x.frame) else Entry(t, v)
  {
    var addr := Target(w, x.page) * PAGE_SIZE;
    if addr >= 0 {
      InsertedIsFlat(t, addr, [x.frame], w.base * PAGE_SIZE, (w.base + w.pages) * PAGE_SIZE, v);
    }
  }

  /** Without the bound on the window: a page inside the window is mapped exactly when the 32-bit sum of the window's base
      and the page's place in the object does not overflow. */
  lemma ShownExactlyWhenNoOverflow(t: Tables, w: Window, x: Resident, v: int)
    requires Shaped(t) && w.base + w.pages <= USER_PAGES && x.page < ADDRESS_PAGES
    requires w.Has(v) && w.PageOf(v) == x.page && Entry(t, v) == None
    ensures Entry(Show(t, w, x), v) == Some(x.frame) <==> w.base + x.page < ADDRESS_PAGES
  {
    var addr := Target(w, x.page) * PAGE_SIZE;
    if addr >= 0 {
      InsertedIsFlat(t, addr, [x.frame], w.base * PAGE_SIZE, (w.base + w.pages) * PAGE_SIZE, v);
    }
  }

  predicate ShowsPage(w: Window, m: nat, v: int, p: int) {
    w.space == m && w.Has(v) && w.PageOf(v) == p
  }

  predicate SomeShows(ws: seq<Window>, m: nat, v: int, p: int) {
    exists w :: w in ws && ShowsPage(w, m, v, p)
  }

  lemma SomeShowsFirst(ws: seq<Window>, m: nat, v: int, p: int)
    requires ws != []
    ensures SomeShows(ws, m, v, p) <==> ShowsPage(ws[0], m, v, p) || SomeShows(ws[1..], m, v, p)
  {
    var u := ws[0];
    assert u in ws && forall w :: w in ws[1..] ==> w in ws;
    if w :| w in ws && ShowsPage(w, m, v, p) { assert w == u || w in ws[1..]; }
  }

  lemma {:induction false} ShowAllIsExact(spaces: Spaces, ws: seq<Window>, x: Resident, m: nat, v: int)
    requires SpacesShaped(spaces) && AllFit(spaces, ws) && (forall w :: w in ws ==> NoWrap(w))
    requires x.page < ADDRESS_PAGES && m in spaces && 0 <= v < USER_PAGES
    ensures Entry(ShowAll(spaces, ws, x)[m].tables, v)
         == if SomeShows(ws, m, v, x.page) then Some(x.frame) else Entry(spaces[m].tables, v)
    decreases |ws|
  {
    if ws != [] {
      var u := ws[0];
      var n := u.space;
      assert Fits(spaces, u) && u in ws && forall w :: w in ws[1..] ==> w in ws;
      var spaces' := spaces[n := spaces[n].(tables := Show(spaces[n].tables, u, x))];
      ShowIsExact(spaces[n].tables, u, x, v);
      SomeShowsFirst(ws, m, v, x.page);
      ShowAllIsExact(spaces', ws[1..], x, m, v);
      hide SomeShows, Show;
    }
  }

  /** The new page appears in every window that shows it, in every address space, and nothing else changes. */
  lemma GenerateShows(s: System, o: nat, p: nat, frame: int, m: nat, w: Window, v: int)
    requires Inv(s) && o in s.objects && p < s.objects[o].maxPages && Lookup(s.objects[o].pages, p) == None
    requires m in s.spaces && w in s.spaces[m].windows && w.Has(v)
    ensures var spaces' := ShowAll(s.spaces, s.objects[o].windows, Resident(p, frame));
            Entry(spaces'[m].tables, v)
            == if w.obj == o && w.PageOf(v) == p then Some(frame) else Entry(s.spaces[m].tables, v)
  {
    var ws := s.objects[o].windows;
    ShowAllIsExact(s.spaces, ws, Resident(p, frame), m, v);
    if w.obj == o && w.PageOf(v) == p {
      assert w in ws && ShowsPage(w, m, v, p) && SomeShows(ws, m, v, p);
    } else if u :| u in ws && ShowsPage(u, m, v, p) {
      SameWindow(s.spaces[m].windows, u, w, v);
      assert false;
    }
  }

  lemma GenerateAgrees(s: System, o: nat, p: nat, frame: int)
    requires Inv(s) && o in s.objects && p < s.objects[o].maxPages && Lookup(s.objects[o].pages, p) == None
    ensures var s' := System(s.objects[o := s.objects[o].(pages := Added(s.objects[o].pages, p, frame))],
                             ShowAll(s.spaces, s.objects[o].windows, Resident(p, frame)));
            Linked(s') && Agree(s')
  {
    var obj := s.objects[o];
    var s' := System(s.objects[o := obj.(pages := Added(obj.pages, p, frame))],
                     ShowAll(s.spaces, obj.windows, Resident(p, frame)));
    assert forall q :: q in s'.objects ==> q in s.objects && s'.objects[q].windows == s.objects[q].windows;
    forall m, w, v | m in s'.spaces && w in s'.spaces[m].windows && w.Has(v) ensures Shown(s', m, w, v) {
      assert Shown(s, m, w, v);
      GenerateShows(s, o, p, frame, m, w, v);
      AddedKeeps(obj.pages, p, frame, obj.maxPages, w.PageOf(v));
    }
    forall m, v | m in s'.spaces && 0 <= v < USER_PAGES && Bare(s'.spaces[m].windows, v)
      ensures Entry(s'.spaces[m].tables, v) == None
    {
      assert Bare(s.spaces[m].windows, v);
      ShowAllIsExact(s.spaces, obj.windows, Resident(p, frame), m, v);
    }
  }

  lemma GenerateKeeps(s: System, o: nat, p: nat, frame: int)
    requires Inv(s) && o in s.objects
    ensures Inv(Generate(s, o, p, frame))
  {
    var obj := s.objects[o];
    ResidentIsPlace(obj.pages, p);
    if p < obj.maxPages && Lookup(obj.pages, p) == None {
      GenerateAgrees(s, o, p, frame);
      AddedKeeps(obj.pages, p, frame, obj.maxPages, p);
    }
  }

  // ---- Adding a window ----------------------------------------------------------------------------

  lemma {:induction false} FillIsExact(t: Tables, w: Window, l: seq<Resident>, v: int)
    requires Shaped(t) && w.base + w.pages <= USER_PAGES && NoWrap(w) && 0 <= v < USER_PAGES
    requires Sorted(l) && Below(l, ADDRESS_PAGES)
    ensures Entry(Fill(t, w, l), v)
         == if w.Has(v) && Lookup(l, w.PageOf(v)).Some? then Lookup(l, w.PageOf(v)) else Entry(t, v)
    decreases |l|
  {
    if l != [] {
      ShowIsExact(t, w, l[0], v);
      FillIsExact(Show(t, w, l[0]), w, l[1..], v);
      assert Lookup(l[1..], l[0].page) == None by {
        if Lookup(l[1..], l[0].page).Some? { var k := LookupFinds(l[1..], l[0].page); assert false; }
      }
    }
  }

  /** What `add_object` leaves to its caller: a window clear of the others, whose addresses are 32-bit. Its
      `ObjectInMap` is a new one. */
  ghost predicate CanAdd(s: System, w: Window) {
    && w.obj in s.objects && Fits(s.spaces, w) && NoWrap(w)
    && (forall u :: u in s.spaces[w.space].windows ==> w != u && Disjoint(w, u))
  }

  lemma AddKeepsLinks(s: System, w: Window)
    requires Inv(s) && w.obj in s.objects && Fits(s.spaces, w)
    ensures var s' := AddObject(s, w); Linked(s') && ObjectsOk(s')
  {
    var s' := AddObject(s, w);
    forall m, u | m in s'.spaces && u in s'.spaces[m].windows ensures LinkedToObject(s'.objects, m, u) {
      assert u == w || LinkedToObject(s.objects, m, u);
    }
    forall o, u | o in s'.objects && u in s'.objects[o].windows ensures LinkedToSpace(s'.spaces, o, u) {
      assert u == w || LinkedToSpace(s.spaces, o, u);
    }
    assert forall o :: o in s'.objects ==> o in s.objects && s'.objects[o].pages == s.objects[o].pages
                                           && s'.objects[o].maxPages == s.objects[o].maxPages;
  }

  /** Two windows show the same at a page. */
  ghost predicate SameThere(s: System, w: Window, u: Window, v: int)
    requires w.obj in s.objects && u.obj in s.objects
  {
    Lookup(s.objects[w.obj].pages, w.PageOf(v)) == Lookup(s.objects[u.obj].pages, u.PageOf(v))
  }

  /** Where the new window lies over another one, both show the same. */
  ghost predicate SameWhereShared(s: System, w: Window)
    requires Linked(s) && w.obj in s.objects && w.space in s.spaces
  {
    forall u, v :: u in s.spaces[w.space].windows && u.Has(v) && w.Has(v) ==>
      (assert LinkedToObject(s.objects, w.space, u); SameThere(s, w, u, v))
  }

  lemma AddedShown(s: System, w: Window, u: Window, v: int)
    requires Inv(s) && w.obj in s.objects && Fits(s.spaces, w) && NoWrap(w) && u in s.spaces[w.space].windows && u.Has(v)
    requires Linked(AddObject(s, w)) && u.obj in s.objects
    ensures var s' := AddObject(s, w);
            && u in s'.spaces[w.space].windows && w in s'.spaces[w.space].windows
            && (!w.Has(v) ==> Shown(s', w.space, u, v))
            && (w.Has(v) ==> (Shown(s', w.space, u, v) && Shown(s', w.space, w, v) <==> SameThere(s, w, u, v)))
  {
    assert LinkedToObject(s.objects, w.space, u) && Shown(s, w.space, u, v);
    FillIsExact(s.spaces[w.space].tables, w, s.objects[w.obj].pages, v);
  }

  lemma AddedAlone(s: System, w: Window, v: int)
    requires Inv(s) && w.obj in s.objects && Fits(s.spaces, w) && NoWrap(w) && 0 <= v < USER_PAGES
    requires Linked(AddObject(s, w)) && Bare(s.spaces[w.space].windows, v)
    ensures var s' := AddObject(s, w);
            && w in s'.spaces[w.space].windows && (w.Has(v) ==> Shown(s', w.space, w, v))
            && (!w.Has(v) ==> Entry(s'.spaces[w.space].tables, v) == None)
  {
    FillIsExact(s.spaces[w.space].tables, w, s.objects[w.obj].pages, v);
  }

  /** Adding a window keeps tables and objects in agreement exactly when wherever it lies over another window of that
      address space both show the same. `add_object` does not look. */
  lemma AddAgreesExactlyWhen(s: System, w: Window)
    requires Inv(s) && w.obj in s.objects && Fits(s.spaces, w) && NoWrap(w)
    ensures Linked(AddObject(s, w)) && (Agree(AddObject(s, w)) <==> SameWhereShared(s, w))
  {
    AddKeepsLinks(s, w);
    if SameWhereShared(s, w) {
      AddAgrees(s, w);
    } else {
      var u, v :| u in s.spaces[w.space].windows && u.Has(v) && w.Has(v)
                  && (assert LinkedToObject(s.objects, w.space, u); !SameThere(s, w, u, v));
      AddedShown(s, w, u, v);
    }
  }

  lemma AddAgrees(s: System, w: Window)
    requires Inv(s) && w.obj in s.objects && Fits(s.spaces, w) && NoWrap(w) && Linked(AddObject(s, w))
    requires SameWhereShared(s, w)
    ensures Agree(AddObject(s, w))
  {
    var s', ws := AddObject(s, w), s.spaces[w.space].windows;
    assert s'.spaces[w.space].windows == [w] + ws;
    forall m, u, v | m in s'.spaces && u in s'.spaces[m].windows && u.Has(v) ensures Shown(s', m, u, v) {
      if m != w.space {
        assert Shown(s, m, u, v);
      } else if u in ws {
        assert LinkedToObject(s.objects, m, u);
        AddedShown(s, w, u, v);
      } else if Bare(ws, v) {
        AddedAlone(s, w, v);
      } else {
        var x :| x in ws && x.Has(v);
        assert LinkedToObject(s.objects, m, x);
        AddedShown(s, w, x, v);
      }
    }
    forall m, v | m in s'.spaces && 0 <= v < USER_PAGES && Bare(s'.spaces[m].windows, v)
      ensures Entry(s'.spaces[m].tables, v) == None
    {
      if m == w.space {
        assert w in [w] + ws && forall u :: u in ws ==> u in [w] + ws;
        AddedAlone(s, w, v);
      }
    }
  }

  lemma AddDisjoint(ws: seq<Window>, w: Window)
    requires AllDisjoint(ws) && forall u :: u in ws ==> w != u && Disjoint(w, u)
    ensures AllDisjoint([w] + ws)
  {
    var r := [w] + ws;
    forall i, j | 0 <= i < j < |r| ensures r[i] != r[j] && Disjoint(r[i], r[j]) {
      assert r[j] == ws[j - 1] && ws[j - 1] in ws && (i > 0 ==> r[i] == ws[i - 1]);
    }
  }

  lemma AddKeeps(s: System, w: Window)
    requires Inv(s) && CanAdd(s, w)
    ensures Inv(AddObject(s, w))
  {
    var s' := AddObject(s, w);
    AddKeepsLinks(s, w);
    assert WindowsOk(s') by {
      AddDisjoint(s.spaces[w.space].windows, w);
    }
    assert SameWhereShared(s, w);
    AddAgrees(s, w);
  }

  // ---- Faults ----------------------------------------------------------------------------------------

  /** A fault in a window generates the page of the object that the window shows there. */
  lemma FaultGenerates(s: System, m: nat, w: Window, v: nat, frame: int)
    requires Inv(s) && m in s.spaces && w in s.spaces[m].windows && w.Has(v)
    ensures w.obj in s.objects && ResolveFault(s, m, v, frame) == (Generate(s, w.obj, w.PageOf(v), frame), true)
  {
    var ws := s.spaces[m].windows;
    var k := FirstWindow(ws, v);
    assert k < |ws| by { assert k == |ws| ==> Bare(ws, v); }
    SameWindow(ws, ws[k], w, v);
    assert LinkedToObject(s.objects, m, w) && NoWrap(w);
    assert w.PageOf(v) % ADDRESS_PAGES == w.PageOf(v);
  }

  /** A fault on an unmapped page of a window, below the object's limit: the fault is resolved, the page is mapped to the
      frame that was generated for it, the object has exactly that page more, and it did not have it before. */
  lemma FaultMapsExactlyOnePage(s: System, m: nat, w: Window, v: nat, frame: int, o: nat, q: nat)
    requires Inv(s) && m in s.spaces && w in s.spaces[m].windows && w.Has(v)
    requires Entry(s.spaces[m].tables, v) == None && w.PageOf(v) < s.objects[w.obj].maxPages && o in s.objects
    ensures var (s', ok) := ResolveFault(s, m, v, frame);
            var p := w.PageOf(v);
            && ok && Inv(s') && s'.objects.Keys == s.objects.Keys && s'.spaces.Keys == s.spaces.Keys
            && Lookup(s.objects[w.obj].pages, p) == None
            && Entry(s'.spaces[m].tables, v) == Some(frame)
            && |s'.objects[w.obj].pages| == |s.objects[w.obj].pages| + 1
            && Lookup(s'.objects[o].pages, q) == (if o == w.obj && q == p then Some(frame) else Lookup(s.objects[o].pages, q))
            && Sorted(s'.objects[w.obj].pages) && Below(s'.objects[w.obj].pages, s.objects[w.obj].maxPages)
  {
    FaultGenerates(s, m, w, v, frame);
    hide ResolveFault;
    var p := w.PageOf(v);
    var obj := s.objects[w.obj];
    assert Shown(s, m, w, v);
    ResidentIsPlace(obj.pages, p);
    GenerateKeeps(s, w.obj, p, frame);
    AddedKeeps(obj.pages, p, frame, obj.maxPages, q);
    GenerateShows(s, w.obj, p, frame, m, w, v);
  }

  /** When the fault is not resolved there was no window; when the page lies beyond the object's limit the call reports
      success and changes nothing. */
  lemma FaultElsewhereChangesNothing(s: System, m: nat, v: nat, frame: int)
    requires Inv(s) && m in s.spaces
    ensures ResolveFault(s, m, v, frame).1 <==> !Bare(s.spaces[m].windows, v)
    ensures (forall w :: w in s.spaces[m].windows && w.Has(v) ==>
               w.PageOf(v) >= s.objects[w.obj].maxPages || Entry(s.spaces[m].tables, v).Some?)
            ==> ResolveFault(s, m, v, frame).0 == s
  {
    var ws := s.spaces[m].windows;
    var k := FirstWindow(ws, v);
    if k < |ws| {
      var w := ws[k];
      FaultGenerates(s, m, w, v, frame);
      assert Shown(s, m, w, v);
      hide ResolveFault, FirstWindow;
      ResidentIsPlace(s.objects[w.obj].pages, w.PageOf(v));
    } else {
      forall w | w in ws ensures !w.Has(v) {}
    }
  }

  // ---- Removing a window --------------------------------------------------------------------------------

  /** Some resident page of the object would be cleared at v. */
  predicate Hits(w: Window, l: seq<Resident>, v: int) {
    exists x :: x in l && Target(w, x.page) == v
  }

  lemma {:induction false} DrainIsExact(t: Tables, w: Window, l: seq<Resident>, v: int)
    requires Shaped(t) && 0 <= v < USER_PAGES && Drain(t, w, l).Some?
    ensures Entry(Drain(t, w, l).value, v) == if Hits(w, l, v) then None else Entry(t, v)
    decreases |l|
  {
    if l != [] {
      DrainIsExact(Clear(t, Target(w, l[0].page)).value, w, l[1..], v);
      if x :| x in l && Target(w, x.page) == v { assert x == l[0] || x in l[1..]; }
    }
  }

  /** Every resident page of the object, wherever it is cleared, has a table there. */
  predicate Drainable(t: Tables, w: Window, l: seq<Resident>) {
    forall i :: 0 <= i < |l| ==> HasPlace(t, Target(w, l[i].page))
  }

  lemma {:induction false} DrainFaultsExactlyWhen(t: Tables, w: Window, l: seq<Resident>)
    requires Shaped(t)
    ensures Drain(t, w, l).Some? <==> Drainable(t, w, l)
    decreases |l|
  {
    if l != [] {
      assert Drainable(t, w, l) ==> HasPlace(t, Target(w, l[0].page));
      if HasPlace(t, Target(w, l[0].page)) {
        var t', r := Clear(t, Target(w, l[0].page)).value, l[1..];
        DrainFaultsExactlyWhen(t', w, r);
        SamePlaces(t, t', w, r);
        assert Drainable(t, w, l) <==> Drainable(t, w, r) by {
          assert forall i :: 0 < i < |l| ==> l[i] == r[i - 1];
        }
      }
    }
  }

  lemma SamePlaces(t: Tables, t': Tables, w: Window, l: seq<Resident>)
    requires t.Keys == t'.Keys
    ensures Drainable(t, w, l) <==> Drainable(t', w, l)
  {
    forall v ensures HasPlace(t, v) <==> HasPlace(t', v) {
      assert v / ENTRIES in t.Keys <==> v / ENTRIES in t'.Keys;
    }
  }

  /** No resident page of the object is cleared over a mapping that belongs to another window. */
  ghost predicate RemovalStaysInside(s: System, m: nat, k: nat)
    requires Linked(s) && m in s.spaces && k < |s.spaces[m].windows|
  {
    var w := s.spaces[m].windows[k];
    assert LinkedToObject(s.objects, m, w);
    forall v :: 0 <= v < USER_PAGES && !w.Has(v) && Hits(w, s.objects[w.obj].pages, v) ==>
      Entry(s.spaces[m].tables, v) == None
  }

  /** What a caller has to see to: every resident page of the object is cleared in a table that exists, and outside the
      window over nothing. */
  ghost predicate CanRemove(s: System, m: nat, k: nat)
    requires Linked(s) && m in s.spaces && k < |s.spaces[m].windows|
  {
    var w := s.spaces[m].windows[k];
    assert LinkedToObject(s.objects, m, w);
    Drainable(s.spaces[m].tables, w, s.objects[w.obj].pages) && RemovalStaysInside(s, m, k)
  }

  lemma RestHas(ws: seq<Window>, k: nat)
    requires AllDisjoint(ws) && k < |ws|
    ensures forall u :: u in ws[..k] + ws[k + 1..] <==> u in ws && u != ws[k]
  {
    var rest := ws[..k] + ws[k + 1..];
    forall u ensures u in rest <==> u in ws && u != ws[k] {
      if u in ws && u != ws[k] {
        var i :| 0 <= i < |ws| && ws[i] == u;
        assert i < k ==> rest[i] == u;
        assert i > k ==> rest[i - 1] == u;
      }
    }
  }

  lemma RestDisjoint(ws: seq<Window>, k: nat)
    requires AllDisjoint(ws) && k < |ws|
    ensures AllDisjoint(ws[..k] + ws[k + 1..])
  {
    var rest := ws[..k] + ws[k + 1..];
    forall i, j | 0 <= i < j < |rest| ensures rest[i] != rest[j] && Disjoint(rest[i], rest[j]) {
      assert rest[i] == ws[if i < k then i else i + 1] && rest[j] == ws[if j < k then j else j + 1];
    }
  }

  lemma RemoveKeepsLinks(s: System, m: nat, k: nat, t: Tables)
    requires Inv(s) && m in s.spaces && k < |s.spaces[m].windows| && Shaped(t)
    ensures var s' := Removed(s, m, k, t); Linked(s') && ObjectsOk(s') && WindowsOk(s')
    ensures forall u :: u in Removed(s, m, k, t).spaces[m].windows <==>
              u in s.spaces[m].windows && u != s.spaces[m].windows[k]
  {
    var ws := s.spaces[m].windows;
    var w := ws[k];
    var s' := Removed(s, m, k, t);
    assert LinkedToObject(s.objects, m, w);
    RestHas(ws, k);
    RestDisjoint(ws, k);
    hide Agree, AllDisjoint;
    forall n, u | n in s'.spaces && u in s'.spaces[n].windows ensures LinkedToObject(s'.objects, n, u) {
      assert LinkedToObject(s.objects, n, u);
      WithoutHas(s.objects[w.obj].windows, w, u);
    }
    forall o, u | o in s'.objects && u in s'.objects[o].windows ensures LinkedToSpace(s'.spaces, o, u) {
      WithoutHas(s.objects[w.obj].windows, w, u);
      assert LinkedToSpace(s.spaces, o, u);
    }
    assert forall o :: o in s'.objects ==> o in s.objects && s'.objects[o].pages == s.objects[o].pages
                                           && s'.objects[o].maxPages == s.objects[o].maxPages;
  }

  /** A window's pages lie below the kernel. */
  lemma WindowFits(s: System, m: nat, w: Window)
    requires Linked(s) && m in s.spaces && w in s.spaces[m].windows
    ensures w.obj in s.objects && w.base + w.pages <= USER_PAGES
  {
    assert LinkedToObject(s.objects, m, w);
    assert LinkedToSpace(s.spaces, w.obj, w);
  }

  /** Every page the window shows is emptied. */
  lemma WindowDrained(s: System, m: nat, k: nat, v: int)
    requires Inv(s) && m in s.spaces && k < |s.spaces[m].windows| && s.spaces[m].windows[k].Has(v)
    requires Remove(s, m, k).Some?
    ensures 0 <= v < USER_PAGES && m in Remove(s, m, k).value.spaces
    ensures Shaped(Remove(s, m, k).value.spaces[m].tables)
    ensures Entry(Remove(s, m, k).value.spaces[m].tables, v) == None
  {
    var w := s.spaces[m].windows[k];
    WindowFits(s, m, w);
    assert NoWrap(w) && Shown(s, m, w, v);
    var t, l := s.spaces[m].tables, s.objects[w.obj].pages;
    hide Inv, Lookup, Drain;
    DrainIsExact(t, w, l, v);
    if Lookup(l, w.PageOf(v)).Some? {
      var i := LookupFinds(l, w.PageOf(v));
      assert l[i] in l && Target(w, l[i].page) == v;
    }
  }

  lemma RemoveShows(s: System, m: nat, k: nat, n: nat, u: Window, v: int)
    requires Inv(s) && m in s.spaces && k < |s.spaces[m].windows|
    requires Remove(s, m, k).Some? && RemovalStaysInside(s, m, k)
    requires n in s.spaces && u in s.spaces[n].windows && u.Has(v) && (n == m ==> u != s.spaces[m].windows[k])
    ensures 0 <= v < USER_PAGES && Shaped(Remove(s, m, k).value.spaces[n].tables)
    ensures Entry(Remove(s, m, k).value.spaces[n].tables, v) == Entry(s.spaces[n].tables, v)
  {
    WindowFits(s, n, u);
    if n == m {
      var w := s.spaces[m].windows[k];
      WindowFits(s, m, w);
      DrainIsExact(s.spaces[m].tables, w, s.objects[w.obj].pages, v);
      if w.Has(v) { SameWindow(s.spaces[m].windows, u, w, v); assert false; }
    }
  }

  lemma RemoveBares(s: System, m: nat, k: nat, v: int)
    requires Inv(s) && m in s.spaces && k < |s.spaces[m].windows| && Remove(s, m, k).Some? && 0 <= v < USER_PAGES
    requires forall u :: u in s.spaces[m].windows && u != s.spaces[m].windows[k] ==> !u.Has(v)
    ensures Entry(Remove(s, m, k).value.spaces[m].tables, v) == None
  {
    var w := s.spaces[m].windows[k];
    if w.Has(v) {
      WindowDrained(s, m, k, v);
    } else {
      assert Bare(s.spaces[m].windows, v);
      WindowFits(s, m, w);
      DrainIsExact(s.spaces[m].tables, w, s.objects[w.obj].pages, v);
    }
  }

  lemma RemoveAgrees(s: System, m: nat, k: nat)
    requires Inv(s) && m in s.spaces && k < |s.spaces[m].windows|
    requires Remove(s, m, k).Some? && RemovalStaysInside(s, m, k)
    ensures Inv(Remove(s, m, k).value)
  {
    var s' := Remove(s, m, k).value;
    RemoveKeepsLinks(s, m, k, s'.spaces[m].tables);
    hide Drain, ObjectsOk, WindowsOk, Lookup;
    forall n, u, v | n in s'.spaces && u in s'.spaces[n].windows && u.Has(v) ensures Shown(s', n, u, v) {
      assert Shown(s, n, u, v);
      RemoveShows(s, m, k, n, u, v);
    }
    forall n, v | n in s'.spaces && 0 <= v < USER_PAGES && Bare(s'.spaces[n].windows, v)
      ensures Entry(s'.spaces[n].tables, v) == None
    {
      if n == m { RemoveBares(s, m, k, v); } else { assert Bare(s.spaces[n].windows, v); }
    }
  }

  /** Removing a window goes through and keeps the tables and the objects in agreement exactly when every resident page of
      the object is cleared in a table that exists and none is cleared over a page of another window:
      `remove_object_in_map` clears all resident pages of the object, not only those inside the window. */
  lemma RemoveKeepsExactlyWhen(s: System, m: nat, k: nat)
    requires Inv(s) && m in s.spaces && k < |s.spaces[m].windows|
    ensures Remove(s, m, k).Some? && Inv(Remove(s, m, k).value) <==> CanRemove(s, m, k)
  {
    var w := s.spaces[m].windows[k];
    WindowFits(s, m, w);
    var t, l := s.spaces[m].tables, s.objects[w.obj].pages;
    DrainFaultsExactlyWhen(t, w, l);
    if CanRemove(s, m, k) {
      RemoveAgrees(s, m, k);
    } else if Remove(s, m, k).Some? {
      var s' := Remove(s, m, k).value;
      RemoveKeepsLinks(s, m, k, s'.spaces[m].tables);
      var v :| 0 <= v < USER_PAGES && !w.Has(v) && Hits(w, l, v) && Entry(t, v) != None;
      assert !Bare(s.spaces[m].windows, v);
      var u :| u in s.spaces[m].windows && u.Has(v);
      assert Shown(s, m, u, v);
      DrainIsExact(t, w, l, v);
      assert u in s'.spaces[m].windows && !(Linked(s') && Shown(s', m, u, v));
    }
  }

  /** Where an entry is present there is a table. */
  lemma ShownHasPlace(s: System, m: nat, w: Window, x: Resident)
    requires Inv(s) && m in s.spaces && w in s.spaces[m].windows && w.obj in s.objects
    requires x in s.objects[w.obj].pages && w.offset <= x.page < w.offset + w.pages
    ensures w.Has(Target(w, x.page)) && HasPlace(s.spaces[m].tables, Target(w, x.page))
  {
    WindowFits(s, m, w);
    var v, l := Target(w, x.page), s.objects[w.obj].pages;
    assert NoWrap(w) && v == w.base + x.page - w.offset;
    assert Shown(s, m, w, v);
    var i :| 0 <= i < |l| && l[i] == x;
    LookupAt(l, i);
  }

  /** A window that shows all resident pages of its object can always be removed. */
  lemma WholeWindowRemoves(s: System, m: nat, k: nat)
    requires Inv(s) && m in s.spaces && k < |s.spaces[m].windows|
    requires var w := s.spaces[m].windows[k];
             assert LinkedToObject(s.objects, m, w);
             forall x :: x in s.objects[w.obj].pages ==> w.offset <= x.page < w.offset + w.pages
    ensures CanRemove(s, m, k) && Remove(s, m, k).Some? && Inv(Remove(s, m, k).value)
  {
    var w := s.spaces[m].windows[k];
    WindowFits(s, m, w);
    var t, l := s.spaces[m].tables, s.objects[w.obj].pages;
    forall x | x in l ensures w.Has(Target(w, x.page)) && HasPlace(t, Target(w, x.page)) {
      ShownHasPlace(s, m, w, x);
    }
    assert forall i :: 0 <= i < |l| ==> l[i] in l;
    RemoveKeepsExactlyWhen(s, m, k);
  }

  // ---- Removing an object from an address space ------------------------------------------------------------

  function Others(ws: seq<Window>, o: nat): seq<Window> {
    if ws == [] then [] else (if ws[0].obj == o then [] else [ws[0]]) + Others(ws[1..], o)
  }

  lemma {:induction false} OthersHas(ws: seq<Window>, o: nat, w: Window)
    ensures w in Others(ws, o) <==> w in ws && w.obj != o
  {
    if ws != [] { OthersHas(ws[1..], o, w); }
  }

  lemma {:induction false} OthersDisjoint(ws: seq<Window>, o: nat)
    requires AllDisjoint(ws)
    ensures AllDisjoint(Others(ws, o))
  {
    if ws != [] {
      OthersDisjoint(ws[1..], o);
      var r := Others(ws[1..], o);
      forall j | 0 <= j < |r| ensures ws[0] != r[j] && Disjoint(ws[0], r[j]) {
        assert r[j] in r;
        OthersHas(ws[1..], o, r[j]);
        var i :| 0 <= i < |ws[1..]| && ws[1..][i] == r[j];
        assert ws[i + 1] == r[j];
      }
    }
  }

  /** The clearing done for every window of the object. */
  function DrainAll(t: Tables, ws: seq<Window>, o: nat, l: seq<Resident>): (r: Option<Tables>)
    requires Shaped(t)
    ensures r.Some? ==> Shaped(r.value) && r.value.Keys == t.Keys
    decreases |ws|
  {
    if ws == [] then Some(t)
    else if ws[0].obj != o then DrainAll(t, ws[1..], o, l)
    else
      match Drain(t, ws[0], l)
      case None => None
      case Some(t') => DrainAll(t', ws[1..], o, l)
  }

  predicate AllDrainable(t: Tables, ws: seq<Window>, o: nat, l: seq<Resident>) {
    forall i :: 0 <= i < |ws| && ws[i].obj == o ==> Drainable(t, ws[i], l)
  }

  lemma {:induction false} DrainAllFaultsExactlyWhen(t: Tables, ws: seq<Window>, o: nat, l: seq<Resident>)
    requires Shaped(t)
    ensures DrainAll(t, ws, o, l).Some? <==> AllDrainable(t, ws, o, l)
    decreases |ws|
  {
    if ws != [] {
      var rest := ws[1..];
      assert AllDrainable(t, ws, o, l) <==> (ws[0].obj == o ==> Drainable(t, ws[0], l)) && AllDrainable(t, rest, o, l) by {
        assert forall i :: 0 < i < |ws| ==> ws[i] == rest[i - 1];
        assert forall i :: 0 <= i < |rest| ==> rest[i] == ws[i + 1];
      }
      if ws[0].obj != o {
        DrainAllFaultsExactlyWhen(t, rest, o, l);
      } else {
        DrainFaultsExactlyWhen(t, ws[0], l);
        if Drain(t, ws[0], l).Some? {
          var t' := Drain(t, ws[0], l).value;
          DrainAllFaultsExactlyWhen(t', rest, o, l);
          forall i | 0 <= i < |rest| ensures Drainable(t, rest[i], l) <==> Drainable(t', rest[i], l) {
            SamePlaces(t, t', rest[i], l);
          }
        }
      }
    }
  }

  function WithoutAll(from: seq<Window>, ws: seq<Window>, o: nat): seq<Window>
    decreases |ws|
  {
    if ws == [] then from else WithoutAll(if ws[0].obj == o then Without(from, ws[0]) else from, ws[1..], o)
  }

  lemma {:induction false} WithoutAllHas(from: seq<Window>, ws: seq<Window>, o: nat, w: Window)
    ensures w in WithoutAll(from, ws, o) <==> w in from && !(w in ws && w.obj == o)
    decreases |ws|
  {
    if ws != [] {
      WithoutHas(from, ws[0], w);
      WithoutAllHas(if ws[0].obj == o then Without(from, ws[0]) else from, ws[1..], o, w);
    }
  }

  /** The system without the object's windows in a space, with these tables. */
  function RemovedObject(s: System, m: nat, o: nat, t: Tables): System
    requires m in s.spaces && o in s.objects
  {
    var obj, space := s.objects[o], s.spaces[m];
    System(s.objects[o := obj.(windows := WithoutAll(obj.windows, space.windows, o))],
           s.spaces[m := Space(t, Others(space.windows, o))])
  }

  /** `Map::remove_object`: every window of the object in this address space. None is a fault of the kernel. */
  function RemoveObject(s: System, m: nat, o: nat): Option<System>
    requires Linked(s) && m in s.spaces && o in s.objects
  {
    match DrainAll(s.spaces[m].tables, s.spaces[m].windows, o, s.objects[o].pages)
    case None => None
    case Some(t) => Some(RemovedObject(s, m, o, t))
  }

  predicate HitsAny(ws: seq<Window>, o: nat, l: seq<Resident>, v: int) {
    exists w :: w in ws && w.obj == o && Hits(w, l, v)
  }

  lemma {:induction false} DrainAllIsExact(t: Tables, ws: seq<Window>, o: nat, l: seq<Resident>, v: int)
    requires Shaped(t) && 0 <= v < USER_PAGES && DrainAll(t, ws, o, l).Some?
    ensures Entry(DrainAll(t, ws, o, l).value, v) == if HitsAny(ws, o, l, v) then None else Entry(t, v)
    decreases |ws|
  {
    if ws != [] {
      var u := ws[0];
      if u.obj == o {
        DrainIsExact(t, u, l, v);
        DrainAllIsExact(Drain(t, u, l).value, ws[1..], o, l, v);
      } else {
        DrainAllIsExact(t, ws[1..], o, l, v);
      }
      if w :| w in ws && w.obj == o && Hits(w, l, v) { assert w == u || w in ws[1..]; }
    }
  }

  /** No mapping that belongs to another object is cleared. */
  ghost predicate RemovalSparesOthers(s: System, m: nat, o: nat)
    requires Linked(s) && m in s.spaces && o in s.objects
  {
    forall u, v ::
      (u in s.spaces[m].windows && u.obj != o && u.Has(v)
       && HitsAny(s.spaces[m].windows, o, s.objects[o].pages, v)) ==> Entry(s.spaces[m].tables, v) == None
  }

  ghost predicate CanRemoveObject(s: System, m: nat, o: nat)
    requires Linked(s) && m in s.spaces && o in s.objects
  {
    AllDrainable(s.spaces[m].tables, s.spaces[m].windows, o, s.objects[o].pages) && RemovalSparesOthers(s, m, o)
  }

  lemma RemoveObjectLinks(s: System, m: nat, o: nat, t: Tables)
    requires Inv(s) && m in s.spaces && o in s.objects && Shaped(t)
    ensures var s' := RemovedObject(s, m, o, t); Linked(s') && ObjectsOk(s') && WindowsOk(s')
  {
    var s' := RemovedObject(s, m, o, t);
    hide Agree;
    forall n, u | n in s'.spaces && u in s'.spaces[n].windows ensures LinkedToObject(s'.objects, n, u) {
      OthersHas(s.spaces[m].windows, o, u);
      WithoutAllHas(s.objects[o].windows, s.spaces[m].windows, o, u);
      assert LinkedToObject(s.objects, n, u);
      assert n != m && u in s.spaces[m].windows ==> LinkedToObject(s.objects, m, u);
    }
    forall q, u | q in s'.objects && u in s'.objects[q].windows ensures LinkedToSpace(s'.spaces, q, u) {
      OthersHas(s.spaces[m].windows, o, u);
      WithoutAllHas(s.objects[o].windows, s.spaces[m].windows, o, u);
      assert LinkedToSpace(s.spaces, q, u);
    }
    forall u | u in s'.spaces[m].windows ensures NoWrap(u) { OthersHas(s.spaces[m].windows, o, u); }
    OthersDisjoint(s.spaces[m].windows, o);
    assert forall q :: q in s'.objects ==> q in s.objects && s'.objects[q].pages == s.objects[q].pages
                                           && s'.objects[q].maxPages == s.objects[q].maxPages;
  }

  /** A page of one of the object's windows is empty afterwards. */
  lemma ObjectDrained(s: System, m: nat, o: nat, w: Window, v: int)
    requires Inv(s) && m in s.spaces && o in s.objects && w in s.spaces[m].windows && w.obj == o && w.Has(v)
    requires RemoveObject(s, m, o).Some?
    ensures 0 <= v < USER_PAGES && m in RemoveObject(s, m, o).value.spaces
    ensures Shaped(RemoveObject(s, m, o).value.spaces[m].tables)
    ensures Entry(RemoveObject(s, m, o).value.spaces[m].tables, v) == None
  {
    var l := s.objects[o].pages;
    WindowFits(s, m, w);
    assert NoWrap(w) && Shown(s, m, w, v);
    hide Inv, Lookup, DrainAll;
    DrainAllIsExact(s.spaces[m].tables, s.spaces[m].windows, o, l, v);
    if Lookup(l, w.PageOf(v)).Some? {
      var i := LookupFinds(l, w.PageOf(v));
      assert l[i] in l && Target(w, l[i].page) == v;
      assert Hits(w, l, v);
    }
  }

  lemma RemoveObjectAgrees(s: System, m: nat, o: nat)
    requires Inv(s) && m in s.spaces && o in s.objects && RemoveObject(s, m, o).Some? && RemovalSparesOthers(s, m, o)
    ensures Inv(RemoveObject(s, m, o).value)
  {
    var s' := RemoveObject(s, m, o).value;
    RemoveObjectLinks(s, m, o, s'.spaces[m].tables);
    hide DrainAll, ObjectsOk, WindowsOk, Lookup;
    var ws, l := s.spaces[m].windows, s.objects[o].pages;
    forall n, u, v | n in s'.spaces && u in s'.spaces[n].windows && u.Has(v) ensures Shown(s', n, u, v) {
      OthersHas(ws, o, u);
      assert Shown(s, n, u, v);
      WindowFits(s, n, u);
      if n == m { DrainAllIsExact(s.spaces[m].tables, ws, o, l, v); }
    }
    forall n, v | n in s'.spaces && 0 <= v < USER_PAGES && Bare(s'.spaces[n].windows, v)
      ensures Entry(s'.spaces[n].tables, v) == None
    {
      if n != m {
        assert Bare(s.spaces[n].windows, v);
      } else if w :| w in ws && w.Has(v) {
        OthersHas(ws, o, w);
        assert w.obj == o;
        ObjectDrained(s, m, o, w, v);
      } else {
        assert Bare(ws, v);
        DrainAllIsExact(s.spaces[m].tables, ws, o, l, v);
      }
    }
  }

  /** Removing an object from an address space goes through and keeps tables and objects in agreement exactly when every
      page it clears has a table and none of them is mapped by another object; windows of the same object may clear each
      other's pages, since all of them go. */
  lemma RemoveObjectKeepsExactlyWhen(s: System, m: nat, o: nat)
    requires Inv(s) && m in s.spaces && o in s.objects
    ensures RemoveObject(s, m, o).Some? && Inv(RemoveObject(s, m, o).value) <==> CanRemoveObject(s, m, o)
  {
    var t, ws, l := s.spaces[m].tables, s.spaces[m].windows, s.objects[o].pages;
    DrainAllFaultsExactlyWhen(t, ws, o, l);
    if CanRemoveObject(s, m, o) {
      RemoveObjectAgrees(s, m, o);
    } else if RemoveObject(s, m, o).Some? {
      var s' := RemoveObject(s, m, o).value;
      RemoveObjectLinks(s, m, o, s'.spaces[m].tables);
      var u, v :| u in ws && u.obj != o && u.Has(v) && HitsAny(ws, o, l, v) && Entry(t, v) != None;
      assert Shown(s, m, u, v);
      OthersHas(ws, o, u);
      DrainAllIsExact(t, ws, o, l, v);
      assert u in s'.spaces[m].windows && !(Linked(s') && Shown(s', m, u, v));
    }
  }

  // ---- Whole runs -------------------------------------------------------------------------------------------

  datatype Op =
    | NewObject(id: nat, maxPages: nat)
    | NewSpace(id: nat)
    | Add(w: Window)
    | Generating(id: nat, page: nat, frame: int)
    | Fault(id: nat, v: nat, frame: int)
    | Removing(id: nat, k: nat)
    | RemovingObject(id: nat, which: nat)

  ghost predicate Legal(s: System, op: Op)
    requires Linked(s)
  {
    match op
    case NewObject(o, maxPages) => o !in s.objects && maxPages < ADDRESS_PAGES
    case NewSpace(m) => m !in s.spaces
    case Add(w) => CanAdd(s, w)
    case Generating(o, _, _) => o in s.objects
    case Fault(m, _, _) => m in s.spaces
    case Removing(m, k) => m in s.spaces && k < |s.spaces[m].windows| && CanRemove(s, m, k)
    case RemovingObject(m, o) => m in s.spaces && o in s.objects && CanRemoveObject(s, m, o)
  }

  ghost function Do(s: System, op: Op): System
    requires Linked(s) && Legal(s, op)
  {
    match op
    case NewObject(o, maxPages) => s.(objects := s.objects[o := Object([], maxPages, [])])
    case NewSpace(m) => s.(spaces := s.spaces[m := Space(map[], [])])
    case Add(w) => AddObject(s, w)
    case Generating(o, p, frame) => Generate(s, o, p, frame)
    case Fault(m, v, frame) => ResolveFault(s, m, v, frame).0
    case Removing(m, k) => (match Remove(s, m, k) case None => s case Some(s') => s')
    case RemovingObject(m, o) => (match RemoveObject(s, m, o) case None => s case Some(s') => s')
  }

  lemma NewObjectKeeps(s: System, o: nat, maxPages: nat)
    requires Inv(s) && o !in s.objects && maxPages < ADDRESS_PAGES
    ensures Inv(s.(objects := s.objects[o := Object([], maxPages, [])]))
  {
    var s' := s.(objects := s.objects[o := Object([], maxPages, [])]);
    forall m, w | m in s'.spaces && w in s'.spaces[m].windows ensures LinkedToObject(s'.objects, m, w) {
      assert LinkedToObject(s.objects, m, w);
    }
    forall m, w, v | m in s'.spaces && w in s'.spaces[m].windows && w.Has(v) ensures Shown(s', m, w, v) {
      assert Shown(s, m, w, v);
    }
  }

  lemma NewSpaceKeeps(s: System, m: nat)
    requires Inv(s) && m !in s.spaces
    ensures Inv(s.(spaces := s.spaces[m := Space(map[], [])]))
  {
    var s' := s.(spaces := s.spaces[m := Space(map[], [])]);
    forall o, w | o in s'.objects && w in s'.objects[o].windows ensures LinkedToSpace(s'.spaces, o, w) {
      assert LinkedToSpace(s.spaces, o, w);
    }
    forall n, w, v | n in s'.spaces && w in s'.spaces[n].windows && w.Has(v) ensures Shown(s', n, w, v) {
      assert Shown(s, n, w, v);
    }
  }

  lemma DoKeeps(s: System, op: Op)
    requires Inv(s) && Legal(s, op)
    ensures Inv(Do(s, op))
  {
    hide ObjectsOk, WindowsOk, Agree;
    match op
    case NewObject(o, maxPages) => NewObjectKeeps(s, o, maxPages);
    case NewSpace(m) => NewSpaceKeeps(s, m);
    case Add(w) => AddKeeps(s, w);
    case Generating(o, p, frame) => GenerateKeeps(s, o, p, frame);
    case Fault(m, v, frame) =>
      var ws := s.spaces[m].windows;
      var k := FirstWindow(ws, v);
      assert k < |ws| ==> LinkedToObject(s.objects, m, ws[k]);
      if k < |ws| { GenerateKeeps(s, ws[k].obj, ws[k].PageOf(v) % ADDRESS_PAGES, frame); }
    case Removing(m, k) => RemoveKeepsExactlyWhen(s, m, k);
    case RemovingObject(m, o) => RemoveObjectKeepsExactlyWhen(s, m, o);
  }

  /** A run of the memory system: each state follows from the one before. */
  ghost predicate IsRun(states: seq<System>, ops: seq<Op>) {
    && |states| == |ops| + 1 && states[0] == System(map[], map[])
    && forall i :: 0 <= i < |ops| ==>
         Linked(states[i]) && Legal(states[i], ops[i]) && states[i + 1] == Do(states[i], ops[i])
  }

  lemma NothingYet()
    ensures Inv(System(map[], map[]))
  {
  }

  lemma {:induction false} InvThroughout(states: seq<System>, ops: seq<Op>, i: nat)
    requires IsRun(states, ops) && i < |states|
    ensures Inv(states[i])
  {
    hide Inv, Do, Legal, Linked;
    if i > 0 {
      InvThroughout(states, ops, i - 1);
      assert Legal(states[i - 1], ops[i - 1]);
      DoKeeps(states[i - 1], ops[i - 1]);
    } else {
      NothingYet();
    }
  }

  /** At every moment of every run, in every window of every address space: the two-level table has an entry at a page
      exactly when the object has that page resident, and it names that page's frame. */
  lemma TablesAgreeWithObjects(states: seq<System>, ops: seq<Op>, i: nat, m: nat, w: Window, v: int, frame: int)
    requires IsRun(states, ops) && i < |states|
    requires m in states[i].spaces && w in states[i].spaces[m].windows && w.Has(v)
    ensures Linked(states[i]) && 0 <= v < USER_PAGES
    ensures Entry(states[i].spaces[m].tables, v) == Some(frame)
       <==> Resident(w.PageOf(v), frame) in states[i].objects[w.obj].pages
  {
    InvThroughout(states, ops, i);
    var l := states[i].objects[w.obj].pages;
    assert Shown(states[i], m, w, v);
    if Lookup(l, w.PageOf(v)) == Some(frame) { var k := LookupFinds(l, w.PageOf(v)); }
    if Resident(w.PageOf(v), frame) in l {
      var k :| 0 <= k < |l| && l[k] == Resident(w.PageOf(v), frame);
      LookupAt(l, k);
    }
  }
}
