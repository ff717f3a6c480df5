/**
The kernel virtual address allocator of src/mem/page.cpp: `kinstall_append` maps pages at the end of the kernel's
address space, `kuninstall` leaves a hole behind, and `kinstall` fills a hole before it appends.

Addresses are counted in pages. A chain is meant to be laid run by run, one after
the other. `kinstall_append` and `kuninstall` do that; the loop with which `kinstall` fills a hole takes every run to be
as long as the first.
*/
module KernelSlots {
  import opened Wrappers
  import opened Intervals

  const PAGE_SIZE: int := 4096
  const NULL_PAGE: int := 0          // what `kinstall_append` returns when the first run is empty
  const LAST_PAGE: int := 0xFFFFF    // TOTAL_VM_SIZE - PAGE_SIZE, in pages

  /** `holes` is the `empty_slot` list, `top` the `virtual_pointer`, and `table` the kernel page tables: a page that is
      not in the map has a zero entry. */
  datatype Space = Space(holes: seq<Interval>, top: int, table: map<int, int>)

  /** Mapping consecutive pages from `at` to consecutive frames, last page first. */
  function Mapped(table: map<int, int>, at: int, frame: int, pages: nat): (r: map<int, int>)
    ensures forall v :: v in r <==> v in table || at <= v < at + pages
    ensures forall v :: v in r && at <= v < at + pages ==> r[v] == frame + (v - at) * PAGE_SIZE
    ensures forall v :: v in r && !(at <= v < at + pages) ==> r[v] == table[v]
  {
    if pages == 0 then table
    else Mapped(table, at, frame, pages - 1)[at + pages - 1 := frame + (pages - 1) * PAGE_SIZE]
  }

  lemma MappedNothing(table: map<int, int>, at: int, frame: int)
    ensures Mapped(table, at, frame, 0) == table
  {
  }

  lemma MappedOneMore(table: map<int, int>, at: int, frame: int, pages: nat)
    ensures Mapped(table, at, frame, pages + 1) == Mapped(table, at, frame, pages)[at + pages := frame + pages * PAGE_SIZE]
  {
  }

  function Unmapped(table: map<int, int>, at: int, pages: nat): (r: map<int, int>)
    ensures forall v :: v in r <==> v in table && !(at <= v < at + pages)
    ensures forall v :: v in r ==> r[v] == table[v]
  {
    if pages == 0 then table else Unmapped(table, at, pages - 1) - {at + pages - 1}
  }

  /** The first hole that is large enough. */
  function FirstHole(l: seq<Interval>, pages: int): (k: nat)
    ensures k <= |l|
    ensures forall i :: 0 <= i < k ==> l[i].size < pages
    ensures k < |l| ==> l[k].size >= pages
  {
    if l == [] || l[0].size >= pages then 0 else 1 + FirstHole(l[1..], pages)
  }

  lemma FirstHoleUnique(l: seq<Interval>, pages: int, k: nat)
    requires k <= |l| && (forall i :: 0 <= i < k ==> l[i].size < pages) && (k < |l| ==> l[k].size >= pages)
    ensures k == FirstHole(l, pages)
  {
  }

  datatype Installed = Installed(at: int, space: Space)

  /** None is the panic "Ran out of kernel virtual address space!" */
  function Append(s: Space, frame: int, pages: nat): Option<Installed> {
    if pages == 0 then Some(Installed(NULL_PAGE, s))
    else if s.top + pages > LAST_PAGE then None
    else Some(Installed(s.top, s.(top := s.top + pages, table := Mapped(s.table, s.top, frame, pages))))
  }

  function Uninstall(s: Space, at: int, pages: nat): Space {
    s.(holes := Insert(s.holes, Interval(at, pages)), table := Unmapped(s.table, at, pages))
  }

  /** One `Page` of a chain. */
  datatype Run = Run(frame: int, pages: nat)

  predicate NoneEmpty(chain: seq<Run>) {
    forall i :: 0 <= i < |chain| ==> chain[i].pages > 0
  }

  function Pages(chain: seq<Run>): nat {
    if chain == [] then 0 else chain[0].pages + Pages(chain[1..])
  }

  /** Every run at its place, each one where the one before ended. */
  function MappedChain(table: map<int, int>, at: int, chain: seq<Run>): map<int, int>
    decreases |chain|
  {
    if chain == [] then table
    else MappedChain(Mapped(table, at, chain[0].frame, chain[0].pages), at + chain[0].pages, chain[1..])
  }

  /** The chain as the loop of `kinstall` reads it: its inner loop is bounded by the length of the first run. */
  function Evened(chain: seq<Run>, pages: nat): (r: seq<Run>)
    ensures |r| == |chain| && forall i :: 0 <= i < |r| ==> r[i] == Run(chain[i].frame, pages)
  {
    seq(|chain|, i requires 0 <= i < |chain| => Run(chain[i].frame, pages))
  }

  /** `kinstall` */
  function Install(s: Space, chain: seq<Run>): Option<Installed>
    requires chain != []
  {
    var k := FirstHole(s.holes, Pages(chain));
    if k < |s.holes| then
      var at := s.holes[k].base;
      Some(Installed(at, s.(holes := Carve(s.holes, k, Pages(chain)),
                            table := MappedChain(s.table, at, Evened(chain, chain[0].pages)))))
    else AppendChain(s, chain)
  }

  /** `kinstall_append` of a chain: each run where the one before ended. */
  function AppendChain(s: Space, chain: seq<Run>): Option<Installed>
    requires chain != []
    decreases |chain|
  {
    match Append(s, chain[0].frame, chain[0].pages)
    case None => None
    case Some(first) =>
      if |chain| == 1 then Some(first)
      else
        match AppendChain(first.space, chain[1..])
        case None => None
        case Some(rest) => Some(Installed(first.at, rest.space))
  }

  /** `kuninstall` of a chain. */
  function UninstallChain(s: Space, at: int, chain: seq<Run>): Space
    decreases |chain|
  {
    if chain == [] then s
    else UninstallChain(Uninstall(s, at, chain[0].pages), at + chain[0].pages, chain[1..])
  }

  // ---- The invariant --------------------------------------------------------------

  /** Everything installed and not yet uninstalled: where, to which frames. */
  type Installs = map<Interval, int>

  predicate HolesOk(s: Space, bottom: int) {
    && Gapped(s.holes) && Positive(s.holes)
    && forall i :: 0 <= i < |s.holes| ==> bottom <= s.holes[i].base && s.holes[i].End() <= s.top
  }

  ghost predicate InstallOk(s: Space, bottom: int, x: Interval, frame: int) {
    && x.size > 0 && bottom <= x.base && x.End() <= s.top
    && AllApart(s.holes, x)
    && (forall v :: x.Has(v) ==> v in s.table && s.table[v] == frame + (v - x.base) * PAGE_SIZE)
  }

  predicate Agrees(s: Space, bottom: int) {
    forall v :: bottom <= v < s.top ==> (v in s.table <==> !Covers(s.holes, v))
  }

  ghost predicate Consistent(s: Space, bottom: int, live: Installs) {
    && bottom <= s.top && HolesOk(s, bottom) && Agrees(s, bottom)
    && (forall x :: x in live ==> InstallOk(s, bottom, x, live[x]))
    && (forall x, y :: x in live && y in live && x != y ==> Apart(x, y))
  }

  // ---- Installing -----------------------------------------------------------------

  lemma AppendKeeps(s: Space, bottom: int, live: Installs, frame: int, pages: nat)
    requires Consistent(s, bottom, live) && pages > 0 && Append(s, frame, pages).Some?
    ensures var r := Append(s, frame, pages).value;
            var x := Interval(r.at, pages);
            x !in live && Consistent(r.space, bottom, live[x := frame])
  {
    var r := Append(s, frame, pages).value;
    var x := Interval(r.at, pages);
    forall y | y in live ensures InstallOk(r.space, bottom, y, live[y]) && Apart(x, y) {
      assert InstallOk(s, bottom, y, live[y]);
    }
    forall i | 0 <= i < |s.holes| ensures Apart(s.holes[i], x) {
    }
    forall v | bottom <= v < r.space.top ensures v in r.space.table <==> !Covers(s.holes, v) {
      if v >= s.top { ApartNotCovered(s.holes, x, v); }
    }
    assert InstallOk(r.space, bottom, x, frame);
  }

  lemma FillHoles(s: Space, bottom: int, pages: nat, k: nat)
    requires HolesOk(s, bottom) && k < |s.holes| && 0 < pages <= s.holes[k].size
    ensures HolesOk(s.(holes := Carve(s.holes, k, pages)), bottom)
  {
    CarveGapped(s.holes, k, pages);
    var c := Carve(s.holes, k, pages);
    forall i | 0 <= i < |c| ensures c[i].size > 0 && bottom <= c[i].base && c[i].End() <= s.top {
      assert c[i] == s.holes[i] || (i == k && pages < s.holes[k].size) || (i >= k && c[i] == s.holes[i + 1]);
    }
  }

  lemma FillAgrees(s: Space, bottom: int, frame: int, pages: nat, k: nat)
    requires HolesOk(s, bottom) && Agrees(s, bottom) && k < |s.holes| && 0 < pages <= s.holes[k].size
    ensures Agrees(s.(holes := Carve(s.holes, k, pages), table := Mapped(s.table, s.holes[k].base, frame, pages)), bottom)
  {
    var x := Interval(s.holes[k].base, pages);
    var c, table := Carve(s.holes, k, pages), Mapped(s.table, x.base, frame, pages);
    forall v | bottom <= v < s.top ensures v in table <==> !Covers(c, v) {
      CarveCovers(s.holes, k, pages, v);
    }
  }

  /** What is left to say once the new run has been shown apart from the others. */
  lemma ConsistentWith(s: Space, bottom: int, live: Installs, x: Interval, frame: int)
    requires bottom <= s.top && HolesOk(s, bottom) && Agrees(s, bottom) && InstallOk(s, bottom, x, frame)
    requires forall y :: y in live ==> InstallOk(s, bottom, y, live[y]) && Apart(x, y)
    requires forall y, z :: y in live && z in live && y != z ==> Apart(y, z)
    ensures x !in live && Consistent(s, bottom, live[x := frame])
  {
    hide HolesOk, Agrees, InstallOk;
  }

  lemma FillElsewhere(s: Space, bottom: int, frame: int, pages: nat, k: nat, y: Interval, other: int)
    requires HolesOk(s, bottom) && k < |s.holes| && 0 < pages <= s.holes[k].size && InstallOk(s, bottom, y, other)
    ensures var x := Interval(s.holes[k].base, pages);
            var s' := s.(holes := Carve(s.holes, k, pages), table := Mapped(s.table, x.base, frame, pages));
            InstallOk(s', bottom, y, other) && Apart(x, y)
  {
    CarveApart(s.holes, k, pages, y);
  }

  lemma FillHere(s: Space, bottom: int, frame: int, pages: nat, k: nat)
    requires HolesOk(s, bottom) && k < |s.holes| && 0 < pages <= s.holes[k].size
    ensures var x := Interval(s.holes[k].base, pages);
            var s' := s.(holes := Carve(s.holes, k, pages), table := Mapped(s.table, x.base, frame, pages));
            InstallOk(s', bottom, x, frame)
  {
    CarvedIsApart(s.holes, k, pages);
  }

  lemma FillKeeps(s: Space, bottom: int, live: Installs, frame: int, pages: nat, k: nat)
    requires Consistent(s, bottom, live) && k < |s.holes| && 0 < pages <= s.holes[k].size
    ensures var x := Interval(s.holes[k].base, pages);
            var s' := s.(holes := Carve(s.holes, k, pages), table := Mapped(s.table, x.base, frame, pages));
            x !in live && Consistent(s', bottom, live[x := frame])
  {
    hide Agrees, InstallOk, Carve, Mapped, Gapped;
    var x := Interval(s.holes[k].base, pages);
    var s' := s.(holes := Carve(s.holes, k, pages), table := Mapped(s.table, x.base, frame, pages));
    FillHoles(s, bottom, pages, k);
    FillAgrees(s, bottom, frame, pages, k);
    forall y | y in live ensures InstallOk(s', bottom, y, live[y]) && Apart(x, y) {
      assert InstallOk(s, bottom, y, live[y]);
      FillElsewhere(s, bottom, frame, pages, k, y, live[y]);
    }
    FillHere(s, bottom, frame, pages, k);
    ConsistentWith(s', bottom, live, x, frame);
  }

  // ---- Uninstalling ---------------------------------------------------------------

  predicate WithinBounds(l: seq<Interval>, bottom: int, top: int) {
    forall i :: 0 <= i < |l| ==> bottom <= l[i].base && l[i].End() <= top
  }

  lemma JoinWithin(a: Interval, r: seq<Interval>, bottom: int, top: int)
    requires bottom <= a.base && a.End() <= top && WithinBounds(r, bottom, top)
    ensures WithinBounds(Join(a, r), bottom, top)
  {
    var j := Join(a, r);
    forall i | 0 <= i < |j| ensures bottom <= j[i].base && j[i].End() <= top {
      if i > 0 { if |j| == |r| { assert j[i] == r[i]; } else { assert j[i] == r[i - 1]; } }
    }
  }

  lemma {:induction false} InsertWithin(l: seq<Interval>, x: Interval, bottom: int, top: int)
    requires Gapped(l) && WithinBounds(l, bottom, top) && bottom <= x.base && x.End() <= top
    ensures WithinBounds(Insert(l, x), bottom, top)
  {
    hide Insert, Join;
    if l == [] || l[0].base >= x.base {
      InsertFront(l, x);
      JoinWithin(x, l, bottom, top);
    } else {
      InsertLater(l, x);
      InsertWithin(l[1..], x, bottom, top);
      JoinWithin(l[0], Insert(l[1..], x), bottom, top);
    }
  }

  lemma UninstallKeeps(s: Space, bottom: int, live: Installs, x: Interval)
    requires Consistent(s, bottom, live) && x in live
    ensures Consistent(Uninstall(s, x.base, x.size), bottom, live - {x})
  {
    var s' := Uninstall(s, x.base, x.size);
    assert InstallOk(s, bottom, x, live[x]);
    assert Interval(x.base, x.size) == x;
    InsertGapped(s.holes, x);
    InsertPositive(s.holes, x);
    InsertWithin(s.holes, x, bottom, s.top);
    forall v | bottom <= v < s'.top ensures v in s'.table <==> !Covers(s'.holes, v) {
      InsertCovers(s.holes, x, v);
    }
    forall y | y in live - {x} ensures InstallOk(s', bottom, y, live[y]) {
      assert InstallOk(s, bottom, y, live[y]) && Apart(x, y);
      InsertApart(s.holes, x, y);
    }
  }

  // ---- Chains -------------------------------------------------------------------------

  /** Where the runs of a chain are meant to be. */
  function Places(at: int, chain: seq<Run>): Installs
    decreases |chain|
  {
    if chain == [] then map[]
    else Places(at + chain[0].pages, chain[1..])[Interval(at, chain[0].pages) := chain[0].frame]
  }

  lemma {:induction false} PlacesFrom(at: int, chain: seq<Run>, x: Interval)
    requires NoneEmpty(chain) && x in Places(at, chain)
    ensures x.base >= at
    decreases |chain|
  {
    if x != Interval(at, chain[0].pages) { PlacesFrom(at + chain[0].pages, chain[1..], x); }
  }

  predicate Disjoint(a: Installs, b: Installs) { a.Keys !! b.Keys }

  lemma PlacesApart(at: int, chain: seq<Run>)
    requires chain != [] && NoneEmpty(chain)
    ensures Interval(at, chain[0].pages) !in Places(at + chain[0].pages, chain[1..])
  {
    var x, at' := Interval(at, chain[0].pages), at + chain[0].pages;
    if x in Places(at', chain[1..]) { PlacesFrom(at', chain[1..], x); }
  }

  /** Adding a chain is adding its first run and then the rest. */
  lemma PlacesAdd(live: Installs, at: int, chain: seq<Run>)
    requires chain != [] && NoneEmpty(chain)
    ensures var x, rest := Interval(at, chain[0].pages), Places(at + chain[0].pages, chain[1..]);
            && live + Places(at, chain) == live[x := chain[0].frame] + rest
            && (x !in live && Disjoint(live[x := chain[0].frame], rest) ==> Disjoint(live, Places(at, chain)))
  {
    PlacesApart(at, chain);
  }

  /** And so is taking it away. */
  lemma PlacesTake(live: Installs, at: int, chain: seq<Run>)
    requires chain != [] && NoneEmpty(chain) && Places(at, chain).Keys <= live.Keys
    ensures var x, rest := Interval(at, chain[0].pages), Places(at + chain[0].pages, chain[1..]);
            && x in live && rest.Keys <= (live - {x}).Keys
            && live - Places(at, chain).Keys == (live - {x}) - rest.Keys
  {
    PlacesApart(at, chain);
    assert Interval(at, chain[0].pages) in Places(at, chain).Keys;
  }

  /** A chain at the end: every run at its place, behind the one before, and nothing else disturbed. */
  lemma {:induction false} AppendChainKeeps(s: Space, bottom: int, live: Installs, chain: seq<Run>)
    requires Consistent(s, bottom, live) && chain != [] && NoneEmpty(chain) && AppendChain(s, chain).Some?
    ensures var r := AppendChain(s, chain).value;
            && r.at == s.top && Disjoint(live, Places(s.top, chain))
            && Consistent(r.space, bottom, live + Places(s.top, chain))
    decreases |chain|
  {
    hide *;
    var run := chain[0];
    var x := Interval(s.top, run.pages);
    NoneEmptyRest(chain);
    AppendChainStep(s, chain);
    AppendKeeps(s, bottom, live, run.frame, run.pages);
    if |chain| == 1 {
      assert chain == [run];
      LastPlace(live, s.top, run);
    } else {
      var first := Append(s, run.frame, run.pages).value;
      PlacesAdd(live, s.top, chain);
      AppendChainKeeps(first.space, bottom, live[x := run.frame], chain[1..]);
    }
  }

  lemma AppendChainStep(s: Space, chain: seq<Run>)
    requires chain != [] && AppendChain(s, chain).Some?
    ensures Append(s, chain[0].frame, chain[0].pages).Some?
    ensures var first := Append(s, chain[0].frame, chain[0].pages).value;
            && first.space.top == s.top + chain[0].pages && (chain[0].pages > 0 ==> first.at == s.top)
            && if |chain| == 1 then AppendChain(s, chain) == Some(first)
               else
                 && AppendChain(first.space, chain[1..]).Some?
                 && AppendChain(s, chain) == Some(Installed(first.at, AppendChain(first.space, chain[1..]).value.space))
  {
    hide Mapped;
  }

  lemma CarveTwice(l: seq<Interval>, k: nat, a: nat, b: nat)
    requires k < |l| && 0 < a && 0 < b && a + b <= l[k].size
    ensures var c := Carve(l, k, a);
            && |c| == |l| && c[k] == Interval(l[k].base + a, l[k].size - a) && Carve(c, k, b) == Carve(l, k, a + b)
  {
    var c := Carve(l, k, a);
    if a + b == l[k].size { assert c[..k] == l[..k] && c[k + 1..] == l[k + 1..]; }
  }

  lemma {:induction false} PagesPositive(chain: seq<Run>)
    requires chain != [] && NoneEmpty(chain)
    ensures Pages(chain) > 0
  {
    if |chain| > 1 { PagesPositive(chain[1..]); }
  }

  function Filled(s: Space, k: nat, chain: seq<Run>): Space
    requires k < |s.holes|
  {
    s.(holes := Carve(s.holes, k, Pages(chain)), table := MappedChain(s.table, s.holes[k].base, chain))
  }

  function FilledOne(s: Space, k: nat, run: Run): Space
    requires k < |s.holes|
  {
    s.(holes := Carve(s.holes, k, run.pages), table := Mapped(s.table, s.holes[k].base, run.frame, run.pages))
  }

  lemma FilledStep(s: Space, k: nat, chain: seq<Run>)
    requires |chain| > 1 && NoneEmpty(chain) && k < |s.holes| && Pages(chain) <= s.holes[k].size
    ensures 0 < chain[0].pages <= s.holes[k].size
    ensures var s1, rest := FilledOne(s, k, chain[0]), chain[1..];
            && k < |s1.holes| && s1.holes[k].base == s.holes[k].base + chain[0].pages
            && Pages(rest) <= s1.holes[k].size && Filled(s1, k, rest) == Filled(s, k, chain)
  {
    hide Carve, Mapped;
    PagesPositive(chain[1..]);
    CarveTwice(s.holes, k, chain[0].pages, Pages(chain[1..]));
  }

  /** A chain in a hole, laid as it is meant to be. */
  lemma {:induction false} FillChainKeeps(s: Space, bottom: int, live: Installs, k: nat, chain: seq<Run>)
    requires Consistent(s, bottom, live) && chain != [] && NoneEmpty(chain)
    requires k < |s.holes| && Pages(chain) <= s.holes[k].size
    ensures Disjoint(live, Places(s.holes[k].base, chain))
    ensures Consistent(Filled(s, k, chain), bottom, live + Places(s.holes[k].base, chain))
    decreases |chain|
  {
    hide *;
    if |chain| == 1 {
      assert chain == [chain[0]];
      FillLast(s, bottom, live, k, chain[0]);
    } else {
      var run, at := chain[0], s.holes[k].base;
      NoneEmptyRest(chain);
      FilledStep(s, k, chain);
      FillOneKeeps(s, bottom, live, k, run);
      FillChainKeeps(FilledOne(s, k, run), bottom, live[Interval(at, run.pages) := run.frame], k, chain[1..]);
      PlacesAdd(live, at, chain);
    }
  }

  lemma FillLast(s: Space, bottom: int, live: Installs, k: nat, run: Run)
    requires Consistent(s, bottom, live) && NoneEmpty([run]) && k < |s.holes| && Pages([run]) <= s.holes[k].size
    ensures Disjoint(live, Places(s.holes[k].base, [run]))
    ensures Consistent(Filled(s, k, [run]), bottom, live + Places(s.holes[k].base, [run]))
  {
    hide *;
    FilledLast(s, k, run);
    LastPlace(live, s.holes[k].base, run);
    FillOneKeeps(s, bottom, live, k, run);
  }

  lemma FilledLast(s: Space, k: nat, run: Run)
    requires k < |s.holes| && NoneEmpty([run])
    ensures Filled(s, k, [run]) == FilledOne(s, k, run) && Pages([run]) == run.pages > 0
  {
    OnePlace(s.table, s.holes[k].base, run);
    hide Mapped, MappedChain, Carve, Pages;
    assert [run][0].pages > 0;
  }

  lemma LastPlace(live: Installs, at: int, run: Run)
    ensures var x := Interval(at, run.pages);
            live + Places(at, [run]) == live[x := run.frame] && (x !in live ==> Disjoint(live, Places(at, [run])))
  {
    OnePlace(map[], at, run);
    hide Mapped, MappedChain, Places;
  }

  lemma OnePlace(table: map<int, int>, at: int, run: Run)
    ensures Pages([run]) == run.pages && Places(at, [run]) == map[Interval(at, run.pages) := run.frame]
    ensures MappedChain(table, at, [run]) == Mapped(table, at, run.frame, run.pages)
  {
    hide Mapped;
    assert [run][1..] == [];
    var t := Mapped(table, at, run.frame, run.pages);
    assert MappedChain(t, at + run.pages, []) == t;
  }

  lemma NoneEmptyRest(chain: seq<Run>)
    requires chain != [] && NoneEmpty(chain)
    ensures chain[0].pages > 0 && NoneEmpty(chain[1..])
  {
  }

  lemma FillOneKeeps(s: Space, bottom: int, live: Installs, k: nat, run: Run)
    requires Consistent(s, bottom, live) && k < |s.holes| && 0 < run.pages <= s.holes[k].size
    ensures var x := Interval(s.holes[k].base, run.pages);
            x !in live && Consistent(FilledOne(s, k, run), bottom, live[x := run.frame])
  {
    hide Consistent, Carve, Mapped;
    FillKeeps(s, bottom, live, run.frame, run.pages, k);
  }

  predicate Uniform(chain: seq<Run>)
    requires chain != []
  {
    forall i :: 0 <= i < |chain| ==> chain[i].pages == chain[0].pages
  }

  /** Installing keeps everything already installed in place and puts the new runs where nothing is, provided that a chain
      that goes into a hole has runs of one length. */
  lemma InstallKeeps(s: Space, bottom: int, live: Installs, chain: seq<Run>)
    requires Consistent(s, bottom, live) && chain != [] && NoneEmpty(chain) && Install(s, chain).Some?
    requires FirstHole(s.holes, Pages(chain)) < |s.holes| ==> Uniform(chain)
    ensures var r := Install(s, chain).value;
            Disjoint(live, Places(r.at, chain)) && Consistent(r.space, bottom, live + Places(r.at, chain))
  {
    var k := FirstHole(s.holes, Pages(chain));
    hide Consistent, Disjoint;
    if k < |s.holes| {
      assert Evened(chain, chain[0].pages) == chain;
      FillChainKeeps(s, bottom, live, k, chain);
    } else {
      AppendChainKeeps(s, bottom, live, chain);
    }
  }

  /** A hole that is large enough is used, the first one in the list, and the address space does not grow; only when there is
      none are the pages put at its end. */
  lemma HolesAreReused(s: Space, chain: seq<Run>, k: nat)
    requires chain != [] && NoneEmpty(chain) && k < |s.holes| && s.holes[k].size >= Pages(chain)
    ensures Install(s, chain).Some?
    ensures var r := Install(s, chain).value;
            && r.space.top == s.top
            && exists j :: 0 <= j <= k && r.at == s.holes[j].base && s.holes[j].size >= Pages(chain)
                           && forall i :: 0 <= i < j ==> s.holes[i].size < Pages(chain)
  {
    var j := FirstHole(s.holes, Pages(chain));
    hide FirstHole;
    assert j <= k && Install(s, chain).value.at == s.holes[j].base;
  }

  lemma ElseAppended(s: Space, chain: seq<Run>)
    requires chain != [] && NoneEmpty(chain) && forall i :: 0 <= i < |s.holes| ==> s.holes[i].size < Pages(chain)
    ensures Install(s, chain) == AppendChain(s, chain)
    ensures Install(s, chain).Some? <==> s.top + Pages(chain) <= LAST_PAGE
    ensures Install(s, chain).Some? ==>
              var r := Install(s, chain).value;
              r.at == s.top && r.space.top == s.top + Pages(chain) && r.space.holes == s.holes
  {
    var j := FirstHole(s.holes, Pages(chain));
    hide FirstHole;
    AppendFitsExactlyWhen(s, chain);
  }

  /** Appending fails exactly when the end of the address space would be passed. */
  lemma {:induction false} AppendFitsExactlyWhen(s: Space, chain: seq<Run>)
    requires chain != [] && NoneEmpty(chain)
    ensures AppendChain(s, chain).Some? <==> s.top + Pages(chain) <= LAST_PAGE
    ensures AppendChain(s, chain).Some? ==>
              var r := AppendChain(s, chain).value;
              r.at == s.top && r.space.top == s.top + Pages(chain) && r.space.holes == s.holes
    decreases |chain|
  {
    hide Mapped;
    NoneEmptyRest(chain);
    if |chain| == 1 {
      assert chain[1..] == [] && Pages(chain) == chain[0].pages;
    } else {
      PagesPositive(chain[1..]);
      if s.top + chain[0].pages <= LAST_PAGE {
        AppendFitsExactlyWhen(Append(s, chain[0].frame, chain[0].pages).value.space, chain[1..]);
      }
    }
  }

  // ---- When the hole is filled with the right entries ----------------------------------

  lemma MappedChainStep(table: map<int, int>, at: int, chain: seq<Run>)
    ensures chain == [] ==> Pages(chain) == 0 && MappedChain(table, at, chain) == table
    ensures chain != [] ==>
              && Pages(chain) == chain[0].pages + Pages(chain[1..])
              && MappedChain(table, at, chain)
                 == MappedChain(Mapped(table, at, chain[0].frame, chain[0].pages), at + chain[0].pages, chain[1..])
  {
    hide Mapped;
  }

  /** What laying a chain does to the table, page by page. */
  lemma {:induction false} MappedChainIs(table: map<int, int>, at: int, chain: seq<Run>, v: int)
    ensures var r := MappedChain(table, at, chain);
            && (v in r <==> v in table || at <= v < at + Pages(chain))
            && (v in r && !(at <= v < at + Pages(chain)) ==> v in table && r[v] == table[v])
    decreases |chain|
  {
    hide *;
    MappedChainStep(table, at, chain);
    if chain != [] {
      MappedChainIs(Mapped(table, at, chain[0].frame, chain[0].pages), at + chain[0].pages, chain[1..], v);
    }
  }

  lemma {:induction false} MappedChainLast(table: map<int, int>, at: int, chain: seq<Run>, last: Run)
    ensures Pages(chain + [last]) == Pages(chain) + last.pages
    ensures MappedChain(table, at, chain + [last])
         == Mapped(MappedChain(table, at, chain), at + Pages(chain), last.frame, last.pages)
    decreases |chain|
  {
    hide *;
    var all := chain + [last];
    MappedChainStep(table, at, chain);
    if chain == [] {
      assert all == [last];
      OnePlace(table, at, last);
    } else {
      var run := chain[0];
      assert all[0] == run && all[1..] == chain[1..] + [last];
      MappedChainStep(table, at, all);
      MappedChainLast(Mapped(table, at, run.frame, run.pages), at + run.pages, chain[1..], last);
      assert at + run.pages + Pages(chain[1..]) == at + Pages(chain);
    }
  }

  predicate SameFrames(c: seq<Run>, d: seq<Run>) {
    |c| == |d| && forall i :: 0 <= i < |c| ==> c[i].frame == d[i].frame
  }

  /** Two readings of a chain that give the same table read it the same way: they end at the same page, so the last run is
      as long in both, and so on backwards. */
  lemma {:induction false} SameTableSameChain(at: int, c: seq<Run>, d: seq<Run>)
    requires SameFrames(c, d) && NoneEmpty(c) && NoneEmpty(d) && MappedChain(map[], at, c) == MappedChain(map[], at, d)
    ensures c == d
    decreases |c|
  {
    if c != [] {
      var n := |c| - 1;
      assert c == c[..n] + [c[n]] && d == d[..n] + [d[n]];
      hide MappedChain;
      SameLast(at, c[..n], c[n], d[..n], d[n]);
      SameTableSameChain(at, c[..n], d[..n]);
    }
  }

  lemma SameLast(at: int, c: seq<Run>, x: Run, d: seq<Run>, y: Run)
    requires x.frame == y.frame && x.pages > 0 && y.pages > 0 && NoneEmpty(c) && NoneEmpty(d)
    requires MappedChain(map[], at, c + [x]) == MappedChain(map[], at, d + [y])
    ensures x == y && MappedChain(map[], at, c) == MappedChain(map[], at, d)
  {
    SameLastRun(at, c, x, d, y);
    hide MappedChain, Mapped;
    MappedChainLast(map[], at, c, x);
    MappedChainLast(map[], at, d, y);
    SameBefore(at, c, d, x);
  }

  lemma SameLastRun(at: int, c: seq<Run>, x: Run, d: seq<Run>, y: Run)
    requires x.frame == y.frame && x.pages > 0 && y.pages > 0 && NoneEmpty(c) && NoneEmpty(d)
    requires MappedChain(map[], at, c + [x]) == MappedChain(map[], at, d + [y])
    ensures x == y && Pages(c) == Pages(d)
  {
    var a, b := c + [x], d + [y];
    assert NoneEmpty(a) && NoneEmpty(b);
    hide MappedChain, Pages, NoneEmpty;
    SameEnd(at, a, b);
    LastEntry(at, c, x);
    LastEntry(at, d, y);
  }

  lemma SameBefore(at: int, c: seq<Run>, d: seq<Run>, x: Run)
    requires Pages(c) == Pages(d)
    requires Mapped(MappedChain(map[], at, c), at + Pages(c), x.frame, x.pages)
          == Mapped(MappedChain(map[], at, d), at + Pages(d), x.frame, x.pages)
    ensures MappedChain(map[], at, c) == MappedChain(map[], at, d)
  {
    hide MappedChain, Mapped, Pages;
    var t, u := MappedChain(map[], at, c), MappedChain(map[], at, d);
    forall v ensures (v in t <==> v in u) && (v in t ==> v < at + Pages(c)) {
      MappedChainIs(map[], at, c, v);
      MappedChainIs(map[], at, d, v);
    }
    SameFront(t, u, at + Pages(c), x);
  }

  lemma SameEnd(at: int, c: seq<Run>, d: seq<Run>)
    requires c != [] && d != [] && NoneEmpty(c) && NoneEmpty(d) && MappedChain(map[], at, c) == MappedChain(map[], at, d)
    ensures Pages(c) == Pages(d)
  {
    PagesPositive(c);
    PagesPositive(d);
    MappedChainIs(map[], at, c, at + Pages(c) - 1);
    MappedChainIs(map[], at, d, at + Pages(c) - 1);
    MappedChainIs(map[], at, c, at + Pages(d) - 1);
    MappedChainIs(map[], at, d, at + Pages(d) - 1);
  }

  lemma LastEntry(at: int, chain: seq<Run>, last: Run)
    requires last.pages > 0
    ensures var r, v := MappedChain(map[], at, chain + [last]), at + Pages(chain + [last]) - 1;
            && Pages(chain + [last]) == Pages(chain) + last.pages
            && v in r && r[v] == last.frame + (last.pages - 1) * PAGE_SIZE
  {
    MappedChainLast(map[], at, chain, last);
  }

  lemma SameFront(t: map<int, int>, u: map<int, int>, end: int, x: Run)
    requires forall v :: v in t <==> v in u
    requires forall v :: v in t ==> v < end
    requires Mapped(t, end, x.frame, x.pages) == Mapped(u, end, x.frame, x.pages)
    ensures t == u
  {
    forall v | v in t ensures t[v] == u[v] {
      assert v in Mapped(t, end, x.frame, x.pages);
    }
  }

  /** Whatever the table, the loop of `kinstall` lays the chain as it is meant to be. */
  ghost predicate FillsRight(at: int, chain: seq<Run>)
    requires chain != []
  {
    forall table :: MappedChain(table, at, Evened(chain, chain[0].pages)) == MappedChain(table, at, chain)
  }

  /** It does exactly for chains whose runs are of one length. */
  lemma FillIsRightExactlyWhen(at: int, chain: seq<Run>)
    requires chain != [] && NoneEmpty(chain)
    ensures FillsRight(at, chain) <==> Uniform(chain)
  {
    var even := Evened(chain, chain[0].pages);
    if Uniform(chain) {
      assert even == chain;
    } else if FillsRight(at, chain) {
      hide MappedChain;
      assert MappedChain(map[], at, even) == MappedChain(map[], at, chain);
      SameTableSameChain(at, even, chain);
    }
  }

  // ---- Uninstalling a chain ---------------------------------------------------------------

  lemma ChainStep(s: Space, at: int, chain: seq<Run>)
    requires chain != []
    ensures UninstallChain(s, at, chain)
         == UninstallChain(Uninstall(s, at, chain[0].pages), at + chain[0].pages, chain[1..])
  {
    hide Uninstall;
  }

  /** Uninstalling a chain takes away exactly its runs. */
  lemma {:induction false} UninstallChainKeeps(s: Space, bottom: int, live: Installs, at: int, chain: seq<Run>)
    requires Consistent(s, bottom, live) && NoneEmpty(chain) && Places(at, chain).Keys <= live.Keys
    ensures Consistent(UninstallChain(s, at, chain), bottom, live - Places(at, chain).Keys)
    decreases |chain|
  {
    hide *;
    if chain == [] {
      TakeNothing(s, live, at);
    } else {
      var x := Interval(at, chain[0].pages);
      NoneEmptyRest(chain);
      PlacesTake(live, at, chain);
      ChainStep(s, at, chain);
      UninstallKeeps(s, bottom, live, x);
      UninstallChainKeeps(Uninstall(s, at, chain[0].pages), bottom, live - {x}, at + chain[0].pages, chain[1..]);
    }
  }

  lemma TakeNothing(s: Space, live: Installs, at: int)
    ensures live - Places(at, []).Keys == live && UninstallChain(s, at, []) == s
  {
  }

  lemma {:induction false} UninstallChainTable(s: Space, at: int, chain: seq<Run>, v: int)
    ensures var u := UninstallChain(s, at, chain);
            && u.top == s.top && (v in u.table <==> v in s.table && !(at <= v < at + Pages(chain)))
            && (v in u.table ==> u.table[v] == s.table[v])
    decreases |chain|
  {
    hide Insert;
    if chain != [] { UninstallChainTable(Uninstall(s, at, chain[0].pages), at + chain[0].pages, chain[1..], v); }
  }

  // ---- Round trip and whole runs -----------------------------------------------------

  /** Holes are what the table leaves out: two consistent states with one table and one end have the same holes. */
  lemma HolesFromTable(s: Space, u: Space, bottom: int, live: Installs, others: Installs)
    requires Consistent(s, bottom, live) && Consistent(u, bottom, others) && s.top == u.top && s.table == u.table
    ensures s.holes == u.holes
  {
    forall v ensures Covers(s.holes, v) <==> Covers(u.holes, v) {
      CoveredWithin(s.holes, bottom, s.top, v);
      CoveredWithin(u.holes, bottom, u.top, v);
    }
    hide Covers;
    Canonical(s.holes, u.holes);
  }

  lemma {:induction false} CoveredWithin(l: seq<Interval>, bottom: int, top: int, v: int)
    requires WithinBounds(l, bottom, top)
    ensures Covers(l, v) ==> bottom <= v < top
  {
    if l != [] { CoveredWithin(l[1..], bottom, top, v); }
  }

  /** Where the loop of `kinstall` stores beyond the pages of the chain, the entries were there before. */
  predicate NothingBeyond(s: Space, at: int, chain: seq<Run>)
    requires chain != []
  {
    var stored := MappedChain(s.table, at, Evened(chain, chain[0].pages));
    forall v :: at + Pages(chain) <= v < at + Pages(Evened(chain, chain[0].pages)) ==>
      v in s.table && v in stored && stored[v] == s.table[v]
  }

  /** Uninstalling what was just put into a hole restores the holes always, and the table exactly when the loop that filled the
      hole changed nothing beyond the pages of the chain. */
  lemma UninstallUndoesFillExactlyWhen(s: Space, bottom: int, live: Installs, chain: seq<Run>)
    requires Consistent(s, bottom, live) && chain != [] && NoneEmpty(chain)
    requires FirstHole(s.holes, Pages(chain)) < |s.holes|
    ensures var r := Install(s, chain).value;
            var u := UninstallChain(r.space, r.at, chain);
            && u.holes == s.holes && u.top == s.top && (u == s <==> NothingBeyond(s, r.at, chain))
  {
    var k := FirstHole(s.holes, Pages(chain));
    var at, r := s.holes[k].base, Install(s, chain).value;
    var even := Evened(chain, chain[0].pages);
    var f, u := Filled(s, k, chain), UninstallChain(r.space, at, chain);
    assert r == Installed(at, f.(table := MappedChain(s.table, at, even)));
    assert HolesOk(s, bottom) && Agrees(s, bottom);
    FillChainKeeps(s, bottom, live, k, chain);
    FilledBack(s, bottom, live, k, chain);
    SameHoles(f, r.space, at, chain);
    hide Consistent, FirstHole, Evened, Pages, Install;
    UninstallChainTable(r.space, at, chain, 0);
    forall v ensures EntryBack(s, at, chain, even, u, v) { RestoredAt(s, bottom, k, r.space, chain, even, u, v); }
    hide UninstallChain, MappedChain, HolesOk, Agrees, Filled;
    BackExactlyWhen(s, at, chain, even, u);
    assert u == Space(u.holes, u.top, u.table) && s == Space(s.holes, s.top, s.table);
  }

  lemma BackExactlyWhen(s: Space, at: int, chain: seq<Run>, even: seq<Run>, u: Space)
    requires chain != [] && even == Evened(chain, chain[0].pages) && forall v :: EntryBack(s, at, chain, even, u, v)
    ensures u.table == s.table <==> NothingBeyond(s, at, chain)
  {
    hide MappedChain, Pages, Evened;
    if NothingBeyond(s, at, chain) {
      forall v ensures (v in u.table <==> v in s.table) && (v in s.table ==> u.table[v] == s.table[v]) {
        assert EntryBack(s, at, chain, even, u, v);
      }
      assert u.table == s.table;
    }
    if u.table == s.table {
      forall v | at + Pages(chain) <= v < at + Pages(even)
        ensures v in s.table && v in MappedChain(s.table, at, even) && MappedChain(s.table, at, even)[v] == s.table[v]
      {
        assert EntryBack(s, at, chain, even, u, v);
      }
    }
  }

  /** After filling and uninstalling, the entry of a page is what it was, or, beyond the chain, what was stored there. */
  predicate EntryBack(s: Space, at: int, chain: seq<Run>, even: seq<Run>, u: Space, v: int) {
    var stored := MappedChain(s.table, at, even);
    if at + Pages(chain) <= v < at + Pages(even) then v in u.table && v in stored && u.table[v] == stored[v]
    else (v in u.table <==> v in s.table) && (v in u.table ==> u.table[v] == s.table[v])
  }

  lemma RestoredAt(s: Space, bottom: int, k: nat, s': Space, chain: seq<Run>, even: seq<Run>, u: Space, v: int)
    requires HolesOk(s, bottom) && Agrees(s, bottom) && k < |s.holes| && Pages(chain) <= s.holes[k].size
    requires s'.table == MappedChain(s.table, s.holes[k].base, even) && u == UninstallChain(s', s.holes[k].base, chain)
    ensures EntryBack(s, s.holes[k].base, chain, even, u, v)
  {
    var at := s.holes[k].base;
    MappedChainIs(s.table, at, even, v);
    UninstallChainTable(s', at, chain, v);
    if at <= v < at + Pages(chain) { CoversAt(s.holes, k, v); }
    hide MappedChain, UninstallChain, Pages;
  }

  /** The holes a sequence of uninstalls leaves do not depend on the table. */
  lemma {:induction false} SameHoles(s: Space, s': Space, at: int, chain: seq<Run>)
    requires s.holes == s'.holes
    ensures UninstallChain(s, at, chain).holes == UninstallChain(s', at, chain).holes
    decreases |chain|
  {
    hide Insert;
    if chain != [] {
      SameHoles(Uninstall(s, at, chain[0].pages), Uninstall(s', at, chain[0].pages), at + chain[0].pages, chain[1..]);
    }
  }

  /** For runs of one length there is nothing beyond. */
  lemma UniformStaysInside(s: Space, at: int, chain: seq<Run>)
    requires chain != [] && Uniform(chain)
    ensures NothingBeyond(s, at, chain)
  {
    assert Evened(chain, chain[0].pages) == chain;
  }

  /** Uninstalling a chain of runs of one length that was just put into a hole restores the holes and the table. */
  lemma UninstallUndoesFill(s: Space, bottom: int, live: Installs, chain: seq<Run>)
    requires Consistent(s, bottom, live) && chain != [] && NoneEmpty(chain) && Uniform(chain)
    requires FirstHole(s.holes, Pages(chain)) < |s.holes|
    ensures var r := Install(s, chain).value; UninstallChain(r.space, r.at, chain) == s
  {
    UniformStaysInside(s, Install(s, chain).value.at, chain);
    hide Consistent, UninstallChain, NothingBeyond;
    UninstallUndoesFillExactlyWhen(s, bottom, live, chain);
  }

  lemma FilledBack(s: Space, bottom: int, live: Installs, k: nat, chain: seq<Run>)
    requires k < |s.holes| && NoneEmpty(chain) && Pages(chain) <= s.holes[k].size
    requires Consistent(s, bottom, live) && Consistent(Filled(s, k, chain), bottom, live + Places(s.holes[k].base, chain))
    ensures UninstallChain(Filled(s, k, chain), s.holes[k].base, chain) == s
  {
    var at, f := s.holes[k].base, Filled(s, k, chain);
    var u := UninstallChain(f, at, chain);
    TableRestored(s, bottom, k, f, chain);
    UninstallChainTable(f, at, chain, 0);
    hide Consistent, Places, UninstallChain;
    UninstallChainKeeps(f, bottom, live + Places(at, chain), at, chain);
    HolesFromTable(s, u, bottom, live, (live + Places(at, chain)) - Places(at, chain).Keys);
  }

  lemma TableRestored(s: Space, bottom: int, k: nat, s': Space, chain: seq<Run>)
    requires HolesOk(s, bottom) && Agrees(s, bottom) && k < |s.holes| && Pages(chain) <= s.holes[k].size
    requires s'.table == MappedChain(s.table, s.holes[k].base, chain)
    ensures UninstallChain(s', s.holes[k].base, chain).table == s.table
  {
    var at := s.holes[k].base;
    var u := UninstallChain(s', at, chain);
    forall v ensures (v in u.table <==> v in s.table) && (v in s.table ==> u.table[v] == s.table[v]) {
      MappedChainIs(s.table, at, chain, v);
      UninstallChainTable(s', at, chain, v);
      if at <= v < at + Pages(chain) { CoversAt(s.holes, k, v); }
    }
  }

  datatype Op = DoAppend(chain: seq<Run>) | DoInstall(chain: seq<Run>) | DoUninstall(at: int, chain: seq<Run>)

  datatype Kernel = Kernel(space: Space, live: Installs)

  /** Runs are not empty; what goes into a hole has runs of one length; what is uninstalled was installed there. */
  predicate Legal(k: Kernel, op: Op) {
    NoneEmpty(op.chain) &&
    match op
    case DoAppend(chain) => chain != []
    case DoInstall(chain) => chain != [] && (FirstHole(k.space.holes, Pages(chain)) < |k.space.holes| ==> Uniform(chain))
    case DoUninstall(at, chain) => Places(at, chain).Keys <= k.live.Keys
  }

  /** Running out of address space stops the machine, so the state stays as it is. */
  function Do(k: Kernel, op: Op): Kernel
    requires Legal(k, op)
  {
    if op.DoUninstall? then Kernel(UninstallChain(k.space, op.at, op.chain), k.live - Places(op.at, op.chain).Keys)
    else
      var r := if op.DoAppend? then AppendChain(k.space, op.chain) else Install(k.space, op.chain);
      match r
      case None => k
      case Some(i) => Kernel(i.space, k.live + Places(i.at, op.chain))
  }

  predicate LegalRun(k: Kernel, ops: seq<Op>)
    decreases |ops|
  {
    ops == [] || (Legal(k, ops[0]) && LegalRun(Do(k, ops[0]), ops[1..]))
  }

  function After(k: Kernel, ops: seq<Op>): Kernel
    requires LegalRun(k, ops)
    decreases |ops|
  {
    if ops == [] then k else After(Do(k, ops[0]), ops[1..])
  }

  lemma DoKeeps(k: Kernel, bottom: int, op: Op)
    requires Consistent(k.space, bottom, k.live) && Legal(k, op)
    ensures Consistent(Do(k, op).space, bottom, Do(k, op).live)
  {
    hide Consistent, AppendChain, Install, UninstallChain, Places;
    match op
    case DoAppend(chain) =>
      if AppendChain(k.space, chain).Some? { AppendChainKeeps(k.space, bottom, k.live, chain); }
    case DoInstall(chain) =>
      if Install(k.space, chain).Some? { InstallKeeps(k.space, bottom, k.live, chain); }
    case DoUninstall(at, chain) => UninstallChainKeeps(k.space, bottom, k.live, at, chain);
  }

  lemma {:induction false} ConsistentAfter(k: Kernel, bottom: int, ops: seq<Op>)
    requires Consistent(k.space, bottom, k.live) && LegalRun(k, ops)
    ensures Consistent(After(k, ops).space, bottom, After(k, ops).live)
    decreases |ops|
  {
    hide Consistent, Do;
    if ops != [] {
      DoKeeps(k, bottom, ops[0]);
      ConsistentAfter(Do(k, ops[0]), bottom, ops[1..]);
    }
  }

  /** From boot, whatever is installed and uninstalled: between the end of the boot tables and the virtual pointer a page
      has an entry exactly when it lies in no hole; holes are sorted and coalesced; live installs never overlap, and
      each one translates page by page to the frames it was installed with. */
  lemma HolesAreExactlyTheGaps(bottom: int, boot: map<int, int>, ops: seq<Op>, v: int, x: Interval, y: Interval)
    requires LegalRun(Kernel(Space([], bottom, boot), map[]), ops)
    ensures var k := After(Kernel(Space([], bottom, boot), map[]), ops);
            && Gapped(k.space.holes) && Positive(k.space.holes)
            && (bottom <= v < k.space.top ==> (v in k.space.table <==> !Covers(k.space.holes, v)))
            && (x in k.live && y in k.live && x != y ==> Apart(x, y))
            && (x in k.live && x.Has(v) ==> v in k.space.table && k.space.table[v] == k.live[x] + (v - x.base) * PAGE_SIZE)
  {
    var k := Kernel(Space([], bottom, boot), map[]);
    assert Consistent(k.space, bottom, k.live);
    ConsistentAfter(k, bottom, ops);
    if x in After(k, ops).live { assert InstallOk(After(k, ops).space, bottom, x, After(k, ops).live[x]); }
  }

  // ---- A chain that overwrites its neighbour ------------------------------------------------

  const BOTTOM: int := 0xC0400
  const GONE := Run(0x400000, 3)
  const KEPT := Run(0x500000, 1)
  const UNEVEN := [Run(0x600000, 2), Run(0x700000, 1)]
  const SETUP := [DoAppend([GONE]), DoAppend([KEPT]), DoUninstall(BOTTOM, [GONE])]

  lemma OneRun(s: Space, run: Run, at: int)
    ensures Pages([run]) == run.pages && Places(at, [run]) == map[Interval(at, run.pages) := run.frame]
    ensures AppendChain(s, [run]) == Append(s, run.frame, run.pages)
    ensures UninstallChain(s, at, [run]) == Uninstall(s, at, run.pages)
  {
    assert [run][1..] == [];
    assert UninstallChain(Uninstall(s, at, run.pages), at + run.pages, []) == Uninstall(s, at, run.pages);
  }

  lemma AppendOne(k: Kernel, run: Run)
    requires run.pages > 0 && k.space.top + run.pages <= LAST_PAGE
    ensures var s := k.space;
            && Legal(k, DoAppend([run]))
            && Do(k, DoAppend([run])) == Kernel(Space(s.holes, s.top + run.pages, Mapped(s.table, s.top, run.frame, run.pages)),
                                                k.live + map[Interval(s.top, run.pages) := run.frame])
  {
    OneRun(k.space, run, k.space.top);
  }

  lemma ThreeSteps(k: Kernel, a: Op, b: Op, c: Op)
    requires Legal(k, a) && Legal(Do(k, a), b) && Legal(Do(Do(k, a), b), c)
    ensures LegalRun(k, [a, b, c]) && After(k, [a, b, c]) == Do(Do(Do(k, a), b), c)
  {
    hide Legal, Do;
    var k1, k2, k3 := Do(k, a), Do(Do(k, a), b), Do(Do(Do(k, a), b), c);
    assert LegalRun(k3, []) && After(k3, []) == k3;
    FirstStep(k2, c, []);
    FirstStep(k1, b, [c]);
    FirstStep(k, a, [b, c]);
    assert [c] + [] == [c] && [b] + [c] == [b, c] && [a] + [b, c] == [a, b, c];
  }

  lemma FirstStep(k: Kernel, op: Op, ops: seq<Op>)
    requires Legal(k, op) && LegalRun(Do(k, op), ops)
    ensures LegalRun(k, [op] + ops) && After(k, [op] + ops) == After(Do(k, op), ops)
  {
    hide Legal, Do;
    assert ([op] + ops)[1..] == ops;
  }

  lemma AppendTwo()
    ensures var k := Kernel(Space([], BOTTOM, map[]), map[]);
            && Legal(k, DoAppend([GONE])) && Legal(Do(k, DoAppend([GONE])), DoAppend([KEPT]))
            && var k2 := Do(Do(k, DoAppend([GONE])), DoAppend([KEPT]));
               && k2.space.holes == [] && k2.live == map[Interval(BOTTOM, 3) := 0x400000, Interval(BOTTOM + 3, 1) := 0x500000]
               && BOTTOM + 3 in k2.space.table && k2.space.table[BOTTOM + 3] == 0x500000
  {
    var k0 := Kernel(Space([], BOTTOM, map[]), map[]);
    hide Do, Legal;
    AppendOne(k0, GONE);
    AppendOne(Do(k0, DoAppend([GONE])), KEPT);
  }

  lemma UninstallGone(k: Kernel)
    requires k.space.holes == []
    requires k.live == map[Interval(BOTTOM, 3) := 0x400000, Interval(BOTTOM + 3, 1) := 0x500000]
    requires BOTTOM + 3 in k.space.table && k.space.table[BOTTOM + 3] == 0x500000
    ensures Legal(k, DoUninstall(BOTTOM, [GONE]))
    ensures var s := Do(k, DoUninstall(BOTTOM, [GONE]));
            && s.space.holes == [Interval(BOTTOM, 3)] && s.live == map[Interval(BOTTOM + 3, 1) := 0x500000]
            && BOTTOM + 3 in s.space.table && s.space.table[BOTTOM + 3] == 0x500000
  {
    OneRun(k.space, GONE, BOTTOM);
    hide UninstallChain, Places;
    assert Insert([], Interval(BOTTOM, 3)) == [Interval(BOTTOM, 3)];
  }

  lemma SetupRuns()
    ensures var k := Kernel(Space([], BOTTOM, map[]), map[]);
            && LegalRun(k, SETUP)
            && var s := After(k, SETUP);
               && s.space.holes == [Interval(BOTTOM, 3)] && s.live == map[Interval(BOTTOM + 3, 1) := 0x500000]
               && BOTTOM + 3 in s.space.table && s.space.table[BOTTOM + 3] == 0x500000
  {
    hide Do, Legal, LegalRun, After;
    var k := Kernel(Space([], BOTTOM, map[]), map[]);
    AppendTwo();
    UninstallGone(Do(Do(k, DoAppend([GONE])), DoAppend([KEPT])));
    ThreeSteps(k, DoAppend([GONE]), DoAppend([KEPT]), DoUninstall(BOTTOM, [GONE]));
  }

  /** Two pages and one page into a hole of three: the code stores four entries, and the fourth takes the place of the page
      installed next to the hole. */
  lemma UnevenChainOverwrites()
    ensures var k := Kernel(Space([], BOTTOM, map[]), map[]);
            && LegalRun(k, SETUP)
            && var s := After(k, SETUP);
               && s.live == map[Interval(BOTTOM + 3, 1) := 0x500000]
               && BOTTOM + 3 in s.space.table && s.space.table[BOTTOM + 3] == 0x500000
               && Install(s.space, UNEVEN).Some?
               && var r := Install(s.space, UNEVEN).value;
                  r.at == BOTTOM && BOTTOM + 3 in r.space.table && r.space.table[BOTTOM + 3] == 0x701000
  {
    SetupRuns();
    hide LegalRun, After;
    UnevenStores(After(Kernel(Space([], BOTTOM, map[]), map[]), SETUP).space);
  }

  lemma UnevenStores(s: Space)
    requires s.holes == [Interval(BOTTOM, 3)]
    ensures Install(s, UNEVEN).Some?
    ensures var r := Install(s, UNEVEN).value;
            && r.at == BOTTOM && BOTTOM + 3 in r.space.table && r.space.table[BOTTOM + 3] == 0x701000
            && r.space.table == MappedChain(s.table, BOTTOM, Evened(UNEVEN, 2))
            && Pages(UNEVEN) == 3 && Pages(Evened(UNEVEN, 2)) == 4 && FirstHole(s.holes, 3) == 0
  {
    assert UNEVEN[1..] == [UNEVEN[1]] && [UNEVEN[1]][1..] == [] && Pages(UNEVEN) == 3;
    assert FirstHole(s.holes, 3) == 0;
    var even := Evened(UNEVEN, 2);
    assert even[1..] == [Run(0x700000, 2)] && [Run(0x700000, 2)][1..] == [];
    var t := Mapped(s.table, BOTTOM, 0x600000, 2);
    assert MappedChain(s.table, BOTTOM, even) == MappedChain(t, BOTTOM + 2, [Run(0x700000, 2)]);
    assert MappedChain(t, BOTTOM + 2, [Run(0x700000, 2)]) == Mapped(t, BOTTOM + 2, 0x700000, 2);
  }

  /** Uninstalling that chain again does not bring the neighbour's entry back. */
  lemma UnevenChainStays()
    ensures var k := Kernel(Space([], BOTTOM, map[]), map[]);
            && LegalRun(k, SETUP)
            && var s := After(k, SETUP).space;
               && Install(s, UNEVEN).Some?
               && var r := Install(s, UNEVEN).value;
                  UninstallChain(r.space, r.at, UNEVEN) != s
  {
    hide Legal, Do, UninstallChain, MappedChain;
    var k := Kernel(Space([], BOTTOM, map[]), map[]);
    SetupRuns();
    assert Consistent(k.space, BOTTOM, k.live);
    ConsistentAfter(k, BOTTOM, SETUP);
    hide Consistent, LegalRun, After;
    UnevenStaysIn(After(k, SETUP).space, After(k, SETUP).live);
  }

  lemma UnevenStaysIn(s: Space, live: Installs)
    requires Consistent(s, BOTTOM, live) && s.holes == [Interval(BOTTOM, 3)]
    requires BOTTOM + 3 in s.table && s.table[BOTTOM + 3] == 0x500000
    ensures Install(s, UNEVEN).Some?
    ensures var r := Install(s, UNEVEN).value; UninstallChain(r.space, r.at, UNEVEN) != s
  {
    hide Consistent, UninstallChain, MappedChain, Install, Pages, FirstHole;
    UnevenStores(s);
    assert !NothingBeyond(s, BOTTOM, UNEVEN);
    UninstallUndoesFillExactlyWhen(s, BOTTOM, live, UNEVEN);
  }

  // ---- The code ---------------------------------------------------------------------

  class Mapper {
    var holes: seq<Interval>      // empty_slot and its successors
    var top: int                  // virtual_pointer
    var table: map<int, int>      // nonzero entries of the kernel page tables

    ghost function State(): Space
      reads this
    {
      Space(holes, top, table)
    }

    /** Fill table entries one at a time. */
    method WriteEntries(at: int, frame: int, pages: nat)
      modifies this`table
      ensures table == Mapped(old(table), at, frame, pages)
    {
      var i := 0;
      while i < pages
        invariant i <= pages && table == Mapped(old(table), at, frame, i)
      {
        table := table[at + i := frame + i * PAGE_SIZE];
        i := i + 1;
      }
    }

    method StoreNext(entry: int)
      modifies this`table, this`top
      ensures table == old(table)[old(top) := entry] && top == old(top) + 1
    {
      table := table[top := entry];
      top := top + 1;
    }

    method StoreEntry(frame: int, i: nat, ghost table0: map<int, int>, ghost top0: int)
      requires top == top0 + i && table == Mapped(table0, top0, frame, i)
      modifies this`table, this`top
      ensures top == top0 + i + 1 && table == Mapped(table0, top0, frame, i + 1)
    {
      MappedOneMore(table0, top0, frame, i);
      hide Mapped;
      StoreNext(frame + i * PAGE_SIZE);
    }

    /** The loop of `kinstall_append`; false is its panic. */
    method AppendEntries(frame: int, pages: nat) returns (ok: bool)
      modifies this`table, this`top
      ensures ok <==> pages == 0 || old(top) + pages <= LAST_PAGE
      ensures ok ==> top == old(top) + pages && table == Mapped(old(table), old(top), frame, pages)
    {
      var i := 0;
      MappedNothing(table, top, frame);
      hide Mapped;
      while i < pages
        invariant i <= pages && top == old(top) + i && (top <= LAST_PAGE || i == 0)
        invariant table == Mapped(old(table), old(top), frame, i)
      {
        if top >= LAST_PAGE { return false; }
        StoreEntry(frame, i, old(table), old(top));
        i := i + 1;
      }
      ok := true;
    }

    /** `kinstall_append` of a chain. */
    method KinstallAppend(chain: seq<Run>) returns (at: Option<int>)
      requires chain != []
      modifies this`table, this`top
      ensures match AppendChain(old(State()), chain)
              case None => at == None
              case Some(r) => at == Some(r.at) && State() == r.space
      decreases |chain|
    {
      var first := if chain[0].pages == 0 then NULL_PAGE else top;
      var ok := AppendEntries(chain[0].frame, chain[0].pages);
      if !ok { return None; }
      if |chain| > 1 {
        var rest := KinstallAppend(chain[1..]);
        if rest == None { return None; }
      }
      at := Some(first);
    }

    /** `Page::count` */
    method Count(chain: seq<Run>) returns (sum: nat)
      ensures sum == Pages(chain)
    {
      sum := 0;
      var n := 0;
      assert chain[0..] == chain;
      while n < |chain|
        invariant n <= |chain| && sum + Pages(chain[n..]) == Pages(chain)
      {
        sum := sum + chain[n].pages;
        assert chain[n..][1..] == chain[n + 1..];
        n := n + 1;
      }
    }

    /** The two loops with which `kinstall` fills a hole; the inner one is bounded by the first run. */
    method FillEntries(at: int, chain: seq<Run>)
      requires chain != []
      modifies this`table
      ensures table == MappedChain(old(table), at, Evened(chain, chain[0].pages))
    {
      var pages := chain[0].pages;
      ghost var even := Evened(chain, pages);
      var n, entry := 0, at;
      assert even[0..] == even;
      hide Mapped;
      while n < |chain|
        invariant n <= |chain|
        invariant MappedChain(table, entry, even[n..]) == MappedChain(old(table), at, even)
      {
        assert even[n..][0] == Run(chain[n].frame, pages) && even[n..][1..] == even[n + 1..];
        WriteEntries(entry, chain[n].frame, pages);
        entry := entry + pages;
        n := n + 1;
      }
    }

    /** `kinstall` */
    method Kinstall(chain: seq<Run>) returns (at: Option<int>)
      requires chain != []
      modifies this
      ensures match Install(old(State()), chain)
              case None => at == None
              case Some(r) => at == Some(r.at) && State() == r.space
    {
      var total := Count(chain);
      var k := 0;
      while k < |holes| && holes[k].size < total
        invariant k <= |holes| && State() == old(State())
        invariant forall i :: 0 <= i < k ==> holes[i].size < total
      {
        k := k + 1;
      }
      FirstHoleUnique(holes, total, k);
      hide FirstHole, MappedChain, Evened, AppendChain;
      if k < |holes| {
        var base := holes[k].base;
        if holes[k].size == total {
          holes := holes[..k] + holes[k + 1..];
        } else {
          holes := holes[k := Interval(base + total, holes[k].size - total)];
        }
        FillEntries(base, chain);
        at := Some(base);
      } else {
        at := KinstallAppend(chain);
      }
    }

    /** `_merge_free_slots` */
    method MergeFreeSlots(k: nat)
      requires k < |holes|
      modifies this`holes
      ensures holes == MergeAt(old(holes), k) && k < |holes|
    {
      if k + 1 < |holes| && holes[k].base + holes[k].size == holes[k + 1].base {
        holes := holes[..k] + [Interval(holes[k].base, holes[k].size + holes[k + 1].size)] + holes[k + 2..];
      }
    }

    /** Unmap the pages of a run. */
    method ClearEntries(at: int, pages: nat)
      modifies this`table
      ensures table == Unmapped(old(table), at, pages)
    {
      var i := 0;
      while i < pages
        invariant i <= pages && table == Unmapped(old(table), at, i)
      {
        table := table - {at + i};
        i := i + 1;
      }
    }

    /** Walk to the place of a new slot and link it in. */
    method LinkSlot(x: Interval) returns (p: nat)
      modifies this`holes
      ensures p == Position(old(holes), x.base) && holes == old(holes)[..p] + [x] + old(holes)[p..]
    {
      p := 0;
      while p < |holes| && holes[p].base < x.base
        invariant p <= |holes| && holes == old(holes)
        invariant forall i :: 0 <= i < p ==> holes[i].base < x.base
      {
        p := p + 1;
      }
      PositionUnique(holes, x.base, p);
      holes := holes[..p] + [x] + holes[p..];
    }

    /** `kuninstall` of one run. */
    method UninstallRun(at: int, pages: nat)
      modifies this
      ensures State() == Uninstall(old(State()), at, pages)
    {
      hide Unmapped, MergeAt, Position;
      var p := LinkSlot(Interval(at, pages));
      ClearEntries(at, pages);
      MergeFreeSlots(p);
      if p > 0 { MergeFreeSlots(p - 1); }
    }

    /** `kuninstall` of a chain; the empty chain is the null page. */
    method Kuninstall(at: int, chain: seq<Run>)
      modifies this
      ensures State() == UninstallChain(old(State()), at, chain)
      decreases |chain|
    {
      hide Uninstall;
      if chain == [] { return; }
      UninstallRun(at, chain[0].pages);
      Kuninstall(at + chain[0].pages, chain[1..]);
    }
  }
}
