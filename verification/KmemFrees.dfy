/**
When the heap of src/mem/kmem.cpp forgets what was done to it: when the order of two frees matters, and when freeing a block
undoes its allocation. Both fail because a free that finds no spare list node takes one out of free memory.
*/
module KmemFrees {
  import opened Intervals
  import opened Kmem

  // ---- Inserting next to free memory, or away from it ------------------------------------------

  /** Some range ends where x begins, or begins where x ends. */
  predicate Touching(l: seq<Interval>, x: Interval) {
    exists i :: 0 <= i < |l| && (l[i].End() == x.base || x.End() == l[i].base)
  }

  function Linked(l: seq<Interval>, x: Interval): seq<Interval> {
    l[..Position(l, x.base)] + [x] + l[Position(l, x.base)..]
  }

  /** Away from all other ranges x stays a range of its own. */
  lemma InsertAway(l: seq<Interval>, x: Interval)
    requires !Touching(l, x)
    ensures Insert(l, x) == Linked(l, x)
  {
    var p, m := Position(l, x.base), Linked(l, x);
    assert m[p] == x && (p + 1 < |m| ==> m[p + 1] == l[p]) && (p > 0 ==> m[p - 1] == l[p - 1]);
    assert MergeAt(m, p) == m;
  }

  lemma MergeSize(l: seq<Interval>, k: nat)
    requires k < |l|
    ensures var m := MergeAt(l, k);
            && |m| == (if k + 1 < |l| && l[k].End() == l[k + 1].base then |l| - 1 else |l|)
            && m[k].base == l[k].base && m[..k] == l[..k]
  {
  }

  /** Next to another range x adds none. */
  lemma InsertBeside(l: seq<Interval>, x: Interval)
    requires Gapped(l) && Positive(l) && AllApart(l, x) && x.size > 0 && Touching(l, x)
    ensures |Insert(l, x)| <= |l|
  {
    var p, m := Position(l, x.base), Linked(l, x);
    var i :| 0 <= i < |l| && (l[i].End() == x.base || x.End() == l[i].base);
    TouchesNeighbour(l, x, p, i);
    assert m[p] == x && (p + 1 < |m| ==> m[p + 1] == l[p]) && (p > 0 ==> m[p - 1] == l[p - 1]);
    var m' := MergeAt(m, p);
    assert Insert(l, x) == if p > 0 then MergeAt(m', p - 1) else m';
    hide *;
    MergeSize(m, p);
    if p > 0 {
      assert m'[p - 1] == m'[..p][p - 1] && m[p - 1] == m[..p][p - 1];
      MergeSize(m', p - 1);
    }
  }

  lemma TouchesNeighbour(l: seq<Interval>, x: Interval, p: nat, i: nat)
    requires Gapped(l) && Positive(l) && AllApart(l, x) && x.size > 0 && p == Position(l, x.base) && i < |l|
    requires l[i].End() == x.base || x.End() == l[i].base
    ensures if l[i].End() == x.base then i + 1 == p else i == p
  {
    assert l[i].size > 0;
    if i > p { Ordered(l, p, i); }
    if i + 1 < p { Ordered(l, i, p - 1); }
    assert p < |l| ==> Apart(l[p], x) && l[p].size > 0;
    assert p > 0 ==> Apart(l[p - 1], x) && l[p - 1].size > 0;
    hide Gapped, Position;
  }

  // ---- First fit --------------------------------------------------------------------------------

  function FitIn(l: seq<Interval>, need: int): (k: nat)
    ensures k <= |l|
    ensures forall i :: 0 <= i < k ==> l[i].size < need
    ensures k < |l| ==> l[k].size >= need
  {
    if l == [] || l[0].size >= need then 0 else 1 + FitIn(l[1..], need)
  }

  lemma FitInIs(f: seq<Node>, need: int)
    ensures FirstFit(f, need) == FitIn(Regions(f), need)
  {
    var j, k := FirstFit(f, need), FitIn(Regions(f), need);
    hide FirstFit, FitIn;
    assert !(j < k) && !(k < j);
  }

  /** The first range that fits lies below x, or x is too small. */
  predicate FitsBelow(l: seq<Interval>, x: Interval, need: int) {
    var k := FitIn(l, need);
    k < |l| && (x.size < need || l[k].base < x.base)
  }

  /** What the search finds once x is a range of its own. */
  lemma FitWith(l: seq<Interval>, x: Interval, need: int)
    requires Gapped(l) && AllApart(l, x)
    ensures var m, k := Linked(l, x), FitIn(Linked(l, x), need);
            && (k < |m| <==> FitIn(l, need) < |l| || x.size >= need)
            && (k < |m| ==> m[k] == if FitsBelow(l, x, need) then l[FitIn(l, need)] else x)
  {
    var p, m, k := Position(l, x.base), Linked(l, x), FitIn(l, need);
    assert k < |l| ==> Apart(l[k], x);
    assert k < |l| && k > p ==> l[p].base < l[k].base by { if k < |l| && k > p { Ordered(l, p, k); } }
    assert k < |l| ==> (l[k].base < x.base <==> k < p);
    FitMoves(l, x, p, need);
    hide FitIn, Position, Gapped, AllApart;
    LinkedAt(l, x, FitIn(m, need));
  }

  lemma {:induction false} FitMoves(l: seq<Interval>, x: Interval, p: nat, need: int)
    requires p <= |l|
    ensures var k := FitIn(l, need);
            FitIn(l[..p] + [x] + l[p..], need) == if x.size >= need && p <= k then p else if k < p then k else k + 1
  {
    var m := l[..p] + [x] + l[p..];
    if p == 0 {
      assert m == [x] + l && m[1..] == l;
    } else {
      assert m[0] == l[0] && m[1..] == l[1..][..p - 1] + [x] + l[1..][p - 1..];
      FitMoves(l[1..], x, p - 1, need);
    }
  }

  lemma LinkedAt(l: seq<Interval>, x: Interval, i: nat)
    ensures var p, m := Position(l, x.base), Linked(l, x);
            |m| == |l| + 1 && (i <= |l| ==> m[i] == if i < p then l[i] else if i == p then x else l[i - 1])
  {
  }

  // ---- Spare nodes --------------------------------------------------------------------------------

  const NODE_NEED: int := PAGE_STRUCT + HEADER    // what a list node takes up, header included

  lemma NeededNode()
    ensures Needed(NODE) == NODE_NEED
  {
  }

  predicate Touches(h: Heap, a: int)
    requires a in h.blocks
  {
    Touching(Regions(h.free), Extent(h, a))
  }

  lemma BlockFacts(h: Heap, a: int)
    requires Valid(h) && a in h.blocks
    ensures var l := Regions(h.free);
            Gapped(l) && Positive(l) && AllApart(l, Extent(h, a)) && Extent(h, a).size > 0
  {
    AllPositive(h);
    assert BlockOk(h, a) && AllApart(Regions(h.free), Extent(h, a));
  }

  /** A free keeps the number of nodes. Next to free memory it gives a node back for the one it takes; away from free memory
      it does not. */
  lemma SparesAfter(h: Heap, a: int)
    requires Valid(h) && a in h.blocks && h.spare != []
    ensures var g := Release(h, a);
            && (Touches(h, a) ==> |g.spare| >= |h.spare|)
            && (!Touches(h, a) ==> |g.spare| == |h.spare| - 1 && Regions(g.free) == Linked(Regions(h.free), Extent(h, a)))
  {
    var g, l, x := Release(h, a), Regions(h.free), Extent(h, a);
    BlockFacts(h, a);
    ReleaseFreed(h, a);
    NodeTotal(h);
    NodeTotal(g);
    hide Release, Valid, Insert, Structs, Regions;
    if Touches(h, a) { InsertBeside(l, x); } else { InsertAway(l, x); }
  }

  lemma NodeTotal(h: Heap)
    ensures |Structs(h)| == |Regions(h.free)| + |h.spare|
  {
  }

  /** The heap once `kfree` has found or made a spare node; as it is when there is no memory for one. */
  function Stocked(h: Heap): Heap {
    var k := FirstFit(h.free, NODE_NEED);
    if h.spare != [] || k == |h.free| then h
    else
      var g := Grant(h, k, NODE_NEED);
      g.(spare := [h.free[k].region.base + HEADER] + g.spare)
  }

  lemma AllocateNode(h: Heap)
    ensures var k := FirstFit(h.free, NODE_NEED);
            Allocate(h, Needed(NODE), true, [])
            == if k < |h.free| then Granted(Grant(h, k, NODE_NEED), h.free[k].region.base, []) else NoMemory
  {
    NeededNode();
  }

  lemma StockedOk(h: Heap)
    requires Valid(h) && (h.spare != [] || FirstFit(h.free, NODE_NEED) < |h.free|)
    ensures var s := Stocked(h); Valid(s) && s.spare != [] && forall b :: Freeable(h, b) ==> Freeable(s, b)
  {
    hide Valid, Grant, Structs, FirstFit;
    if h.spare == [] {
      var k := FirstFit(h.free, NODE_NEED);
      FitAt(h.free, k);
      GrantOk(h, k, NODE_NEED);
      StockOk(h, Grant(h, k, NODE_NEED), h.free[k].region.base);
    }
  }

  lemma FitAt(f: seq<Node>, k: nat)
    requires k == FirstFit(f, NODE_NEED) < |f|
    ensures NODE_NEED <= f[k].region.size && NODE_NEED % 4 == 0
  {
    hide FirstFit;
  }

  lemma StockOk(h: Heap, g: Heap, block: int)
    requires GrantedOk(h, NODE_NEED, g, block)
    ensures var s := g.(spare := [block + HEADER] + g.spare);
            Valid(s) && s.spare != [] && forall b :: Freeable(h, b) ==> Freeable(s, b)
  {
    hide Valid, Structs, Preserves;
    StockKeeps(g, block);
    StockedKeeps(h, g, block);
  }

  lemma FreeUnfolds(h: Heap, a: int)
    requires a in h.blocks && (h.spare != [] || FirstFit(h.free, NODE_NEED) < |h.free|)
    ensures var s := Stocked(h);
            a in s.blocks && s.spare != [] && Free(h, a, []) == Free(s, a, []) == Granted(Release(s, a), a, [])
  {
    AllocateNode(h);
    hide Release, Allocate;
  }

  /** Without growth, making a node first and freeing then is what `kfree` does. */
  lemma FreeStocks(h: Heap, a: int)
    requires Valid(h) && Freeable(h, a) && Free(h, a, []).Granted?
    ensures h.spare != [] || FirstFit(h.free, NODE_NEED) < |h.free|
    ensures var s := Stocked(h);
            && Valid(s) && s.spare != [] && (forall b :: Freeable(h, b) ==> Freeable(s, b))
            && Free(h, a, []) == Free(s, a, []) == Granted(Release(s, a), a, [])
  {
    AllocateNode(h);
    assert h.spare != [] || FirstFit(h.free, NODE_NEED) < |h.free|;
    hide *;
    StockedOk(h);
    assert Freeable(h, a) ==> a in h.blocks by { BlockOfFreeable(h, a); }
    FreeUnfolds(h, a);
  }

  lemma BlockOfFreeable(h: Heap, a: int)
    requires Freeable(h, a)
    ensures a in h.blocks
  {
  }

  lemma StockedKeeps(h: Heap, g: Heap, block: int)
    requires GrantedOk(h, NODE_NEED, g, block)
    ensures var s := g.(spare := [block + HEADER] + g.spare);
            Structs(s) == Structs(g) + multiset{block + HEADER} ==> forall b :: Freeable(h, b) ==> Freeable(s, b)
  {
    hide Valid, Structs;
  }

  lemma FreeTwo(h: Heap, a: int, b: int, supplies: seq<Supply>)
    requires a in h.blocks
    ensures FreeAll(h, [a, b], supplies)
         == match Free(h, a, supplies)
            case Granted(g, _, rest) => FreeAll(g, [b], rest)
            case other => other
  {
    assert [a, b][1..] == [b];
  }

  lemma FreeOne(h: Heap, b: int, supplies: seq<Supply>)
    requires b in h.blocks
    ensures FreeAll(h, [b], supplies)
         == match Free(h, b, supplies)
            case Granted(g, _, rest) => Granted(g, 0, rest)
            case other => other
  {
    assert [b][1..] == [];
  }

  /** Two frees may as well start from the stocked heap. */
  lemma TwoFromStocked(h: Heap, a: int, b: int)
    requires Valid(h) && Freeable(h, a) && Freeable(h, b) && FreeAll(h, [a, b], []).Granted?
    ensures var s := Stocked(h);
            && Valid(s) && s.spare != [] && Freeable(s, a) && Freeable(s, b)
            && FreeAll(s, [a, b], []) == FreeAll(h, [a, b], [])
  {
    hide Valid, Free, FreeAll, Stocked, Release;
    FreeTwo(h, a, b, []);
    FreeStocks(h, a);
    FreeTwo(Stocked(h), a, b, []);
  }

  // ---- The second of two frees makes its own node ---------------------------------------------------

  /** What the second free leaves when it has cut its node out of n. */
  ghost predicate NodeCutFrom(h: Heap, a: int, b: int, n: Interval, f: Heap)
    requires a in h.blocks && b in h.blocks
  {
    && n.size >= NODE_NEED && RegionsOk(f)
    && (forall y :: Covers(Regions(f.free), y) <==>
          ((Covers(Regions(h.free), y) || Extent(h, a).Has(y)) && !n.Has(y)) || Extent(h, b).Has(y))
    && f.blocks == (h.blocks - {a})[n.base := n.size - HEADER] - {b}
    && f.used == h.used - Extent(h, a).size - Extent(h, b).size + n.size
  }

  /** Where the node is cut: the first fit among the free regions and the block freed first. */
  function CutPlace(h: Heap, a: int): Interval
    requires a in h.blocks
  {
    var l, x := Regions(h.free), Extent(h, a);
    var r := if FitsBelow(l, x, NODE_NEED) then l[FitIn(l, NODE_NEED)] else x;
    Interval(r.base, Taken(r.size, NODE_NEED))
  }

  /** The last free, with a node cut out of region k of g. */
  lemma FreeCutting(g: Heap, b: int, k: nat, f: Heap)
    requires Valid(g) && Freeable(g, b) && g.spare == [] && k == FirstFit(g.free, NODE_NEED)
    requires Free(g, b, []) == Granted(f, b, [])
    ensures k < |g.free| && Valid(f) && b in g.blocks
    ensures var r := g.free[k].region;
            var n := Interval(r.base, Taken(r.size, NODE_NEED));
            && n.size >= NODE_NEED && n.base != b
            && (forall y :: Covers(Regions(f.free), y) <==> (Covers(Regions(g.free), y) && !n.Has(y)) || Extent(g, b).Has(y))
            && f.blocks == g.blocks[n.base := n.size - HEADER] - {b}
            && f.used == g.used - Extent(g, b).size + n.size
  {
    FreeStocks(g, b);
    var s := Stocked(g);
    var r := g.free[k].region;
    var n := Interval(r.base, Taken(r.size, NODE_NEED));
    StockedIs(g, k);
    BlockOfFreeable(g, b);
    assert Extent(s, b) == Extent(g, b);
    ReleaseFreed(s, b);
    FreedKeeps(s, b, f);
    BlockFacts(s, b);
    ValidGapped(g);
    hide *;
    forall y ensures Covers(Regions(f.free), y) <==> (Covers(Regions(g.free), y) && !n.Has(y)) || Extent(g, b).Has(y) {
      CutCovers(g, s, b, k, n, f, y);
    }
  }

  lemma ValidGapped(g: Heap)
    requires Valid(g)
    ensures Gapped(Regions(g.free))
  {
  }

  lemma CutCovers(g: Heap, s: Heap, b: int, k: nat, n: Interval, f: Heap, y: int)
    requires k < |g.free| && n.base == g.free[k].region.base && 0 <= n.size <= g.free[k].region.size
    requires Gapped(Regions(g.free)) && Regions(s.free) == Carve(Regions(g.free), k, n.size)
    requires b in g.blocks && b in s.blocks && Extent(s, b) == Extent(g, b) && Freed(s, b, f)
    requires Gapped(Regions(s.free)) && Extent(s, b).size > 0 && AllApart(Regions(s.free), Extent(s, b))
    ensures Covers(Regions(f.free), y) <==> (Covers(Regions(g.free), y) && !n.Has(y)) || Extent(g, b).Has(y)
  {
    hide Insert, Carve, Covers, Gapped, AllApart;
    InsertCovers(Regions(s.free), Extent(s, b), y);
    CarveCovers(Regions(g.free), k, n.size, y);
  }

  lemma StockedIs(g: Heap, k: nat)
    requires Valid(g) && g.spare == [] && k == FirstFit(g.free, NODE_NEED) < |g.free|
    ensures var r, s := g.free[k].region, Stocked(g);
            var n := Interval(r.base, Taken(r.size, NODE_NEED));
            && NODE_NEED <= n.size <= r.size && n.base !in g.blocks
            && s.blocks == g.blocks[n.base := n.size - HEADER] && s.used == g.used + n.size
            && Regions(s.free) == Carve(Regions(g.free), k, n.size)
  {
    hide Valid, Carve, Regions, FirstFit;
    FitAt(g.free, k);
    GrantKeeps(g, k, NODE_NEED);
    GrantRegions(g, k, NODE_NEED);
  }

  /** The block freed first stays away from free memory and takes the only spare node: the second free cuts its own out of the
      first fit. */
  lemma SecondCuts(h: Heap, a: int, b: int, f: Heap)
    requires Valid(h) && Freeable(h, a) && Freeable(h, b) && a != b && |h.spare| == 1 && !Touches(h, a)
    requires FreeAll(h, [a, b], []) == Granted(f, 0, [])
    ensures NodeCutFrom(h, a, b, CutPlace(h, a), f)
    ensures FitsBelow(Regions(h.free), Extent(h, a), NODE_NEED) || Extent(h, a).size >= NODE_NEED
  {
    hide *;
    BlockOfFreeable(h, a);
    var g := Release(h, a);
    AfterFirst(h, a, b, f);
    FreeStocks(g, b);
    var k := FirstFit(g.free, NODE_NEED);
    FreeCutting(g, b, k, f);
    BlockFacts(h, a);
    CutWhere(h, a, g, k);
    ValidRegions(f);
    FreedCovers(h, a, b, g, CutPlace(h, a), f);
  }

  lemma AfterFirst(h: Heap, a: int, b: int, f: Heap)
    requires Valid(h) && Freeable(h, a) && Freeable(h, b) && a != b && |h.spare| == 1 && !Touches(h, a)
    requires FreeAll(h, [a, b], []) == Granted(f, 0, [])
    ensures var g := Release(h, a);
            && a in h.blocks && b in h.blocks && Freed(h, a, g) && Valid(g) && g.spare == []
            && Freeable(g, b) && b in g.blocks && Extent(g, b) == Extent(h, b)
            && Regions(g.free) == Linked(Regions(h.free), Extent(h, a)) && Free(g, b, []) == Granted(f, b, [])
  {
    var g := Release(h, a);
    BlockOfFreeable(h, a);
    BlockOfFreeable(h, b);
    SparesAfter(h, a);
    ReleaseFreed(h, a);
    FreedKeeps(h, a, g);
    StillFreeable(h, a, b, g);
    BlockOfFreeable(g, b);
    FreeTwo(h, a, b, []);
    assert Free(h, a, []) == Granted(g, a, []);
    hide *;
    FreeOne(g, b, []);
    GrantedFree(g, b);
  }

  lemma GrantedFree(g: Heap, b: int)
    requires Valid(g) && Freeable(g, b) && b in g.blocks
    ensures Free(g, b, []).Granted? ==> Free(g, b, []) == Granted(Free(g, b, []).heap, b, [])
  {
    if Free(g, b, []).Granted? { FreeStocks(g, b); }
  }

  lemma CutWhere(h: Heap, a: int, g: Heap, k: nat)
    requires a in h.blocks && k == FirstFit(g.free, NODE_NEED) < |g.free|
    requires Gapped(Regions(h.free)) && AllApart(Regions(h.free), Extent(h, a))
    requires Regions(g.free) == Linked(Regions(h.free), Extent(h, a))
    ensures var r := g.free[k].region; CutPlace(h, a) == Interval(r.base, Taken(r.size, NODE_NEED))
    ensures FitsBelow(Regions(h.free), Extent(h, a), NODE_NEED) || Extent(h, a).size >= NODE_NEED
  {
    hide Gapped, AllApart, Linked, FirstFit, FitIn;
    FitInIs(g.free, NODE_NEED);
    FitWith(Regions(h.free), Extent(h, a), NODE_NEED);
    assert g.free[k].region == Regions(g.free)[k];
  }

  lemma ValidRegions(f: Heap)
    requires Valid(f)
    ensures RegionsOk(f)
  {
  }

  lemma StillFreeable(h: Heap, a: int, b: int, g: Heap)
    requires Freeable(h, a) && Freeable(h, b) && a != b && Freed(h, a, g)
    ensures Freeable(g, b) && Extent(g, b) == Extent(h, b)
  {
    hide Structs, Insert, Regions;
  }

  lemma FreedCovers(h: Heap, a: int, b: int, g: Heap, n: Interval, f: Heap)
    requires a in h.blocks && b in h.blocks && a != b && Freed(h, a, g) && b in g.blocks && Extent(g, b) == Extent(h, b)
    requires Gapped(Regions(h.free)) && Extent(h, a).size > 0 && AllApart(Regions(h.free), Extent(h, a)) && RegionsOk(f)
    requires n.size >= NODE_NEED
    requires forall y :: Covers(Regions(f.free), y) <==> (Covers(Regions(g.free), y) && !n.Has(y)) || Extent(g, b).Has(y)
    requires f.blocks == g.blocks[n.base := n.size - HEADER] - {b} && f.used == g.used - Extent(g, b).size + n.size
    ensures NodeCutFrom(h, a, b, n, f)
  {
    hide Insert, Gapped, Structs, Regions, RegionsOk, Covers;
    forall y ensures Covers(Regions(f.free), y) <==>
          ((Covers(Regions(h.free), y) || Extent(h, a).Has(y)) && !n.Has(y)) || Extent(h, b).Has(y) {
      InsertCovers(Regions(h.free), Extent(h, a), y);
    }
  }

  // ---- When two frees commute ---------------------------------------------------------------------------

  /** In a heap with a spare node: another one; or both blocks lie next to free memory and give a node back; or neither does,
      and the first fit for a node lies below both blocks, unless they are too small for one. */
  predicate OrderDoesNotMatter(h: Heap, a: int, b: int)
    requires a in h.blocks && b in h.blocks
  {
    var l := Regions(h.free);
    || |h.spare| >= 2
    || (Touches(h, a) && Touches(h, b))
    || (!Touches(h, a) && !Touches(h, b) && FitsBelow(l, Extent(h, a), NODE_NEED) && FitsBelow(l, Extent(h, b), NODE_NEED))
  }

  lemma TwoReleasable(h: Heap, a: int, b: int)
    requires Valid(h) && Freeable(h, a) && Freeable(h, b) && a != b && h.spare != [] && (|h.spare| >= 2 || Touches(h, a))
    ensures Releasable(h, [a, b])
  {
    hide *;
    BlockOfFreeable(h, a);
    var g := Release(h, a);
    SparesAfter(h, a);
    ReleaseFreed(h, a);
    StillFreeable(h, a, b, g);
    BlockOfFreeable(g, b);
    LastOfTwo(h, a, b);
  }

  lemma LastOfTwo(h: Heap, a: int, b: int)
    requires Freeable(h, a) && Freeable(h, b) && a != b && a in h.blocks && h.spare != []
    requires Release(h, a).spare != [] && b in Release(h, a).blocks
    ensures Releasable(h, [a, b])
  {
    hide Release, Structs;
    var g := Release(h, a);
    assert [a, b][1..] == [b] && [b][1..] == [];
    assert SparesLast(Release(g, b), []);
    assert SparesLast(g, [b]);
  }

  lemma BothReleasable(h: Heap, a: int, b: int, f: Heap, g: Heap)
    requires Valid(h) && Releasable(h, [a, b]) && Releasable(h, [b, a])
    requires FreeAll(h, [a, b], []) == Granted(f, 0, []) && FreeAll(h, [b, a], []) == Granted(g, 0, [])
    ensures SameHeap(f, g)
  {
    hide *;
    assert forall x :: x in [a, b] <==> x in [b, a];
    FreeOrderIrrelevant(h, [a, b], [b, a], []);
  }

  lemma UsedAfter(h: Heap, a: int, b: int, f: Heap)
    requires Releasable(h, [a, b]) && FreeAll(h, [a, b], []) == Granted(f, 0, [])
    ensures a in h.blocks && b in h.blocks && f.used == h.used - Extent(h, a).size - Extent(h, b).size
  {
    hide Release, FreeAll, Free;
    var g := Release(h, a);
    FirstOfTwo(h, a, b);
    ReleaseFreed(h, a);
    ReleaseFreed(g, b);
    StillFreeable(h, a, b, g);
    FreeTwo(h, a, b, []);
    FreeOne(g, b, []);
    FreeSpare(h, a);
    FreeSpare(g, b);
    hide Structs, Regions, Insert;
  }

  lemma FirstOfTwo(h: Heap, a: int, b: int)
    requires Releasable(h, [a, b])
    ensures Freeable(h, a) && Freeable(h, b) && a != b && a in h.blocks && b in h.blocks && h.spare != []
    ensures b in Release(h, a).blocks && Release(h, a).spare != []
  {
    hide Release, Structs;
    assert [a, b][0] == a && [a, b][1] == b && [a, b][1..] == [b] && [b][0] == b;
    assert Freeable(h, [a, b][0]) && Freeable(h, [a, b][1]);
    assert SparesLast(Release(h, a), [b]);
  }

  lemma FreeSpare(h: Heap, a: int)
    requires a in h.blocks && h.spare != []
    ensures Free(h, a, []) == Granted(Release(h, a), a, [])
  {
  }

  /** One block next to free memory and the other not: the order decides whether a node is cut. */
  lemma OneTouches(h: Heap, a: int, b: int, f: Heap, g: Heap)
    requires Valid(h) && Freeable(h, a) && Freeable(h, b) && a != b && |h.spare| == 1 && Touches(h, a) && !Touches(h, b)
    requires FreeAll(h, [a, b], []) == Granted(f, 0, []) && FreeAll(h, [b, a], []) == Granted(g, 0, [])
    ensures f.used != g.used
  {
    hide *;
    BlockOfFreeable(h, a);
    BlockOfFreeable(h, b);
    TwoReleasable(h, a, b);
    UsedAfter(h, a, b, f);
    SecondCuts(h, b, a, g);
    UsedOfCut(h, b, a, CutPlace(h, b), g);
  }

  lemma UsedOfCut(h: Heap, a: int, b: int, n: Interval, f: Heap)
    requires a in h.blocks && b in h.blocks && NodeCutFrom(h, a, b, n, f)
    ensures f.used == h.used - Extent(h, a).size - Extent(h, b).size + n.size && n.size > 0
  {
  }

  /** Both cut their node below the two blocks. */
  lemma SameCut(h: Heap, a: int, b: int, n: Interval, f: Heap, g: Heap)
    requires Valid(h) && a in h.blocks && b in h.blocks && a != b
    requires NodeCutFrom(h, a, b, n, f) && NodeCutFrom(h, b, a, n, g) && InRegion(h, n)
    ensures SameHeap(f, g)
  {
    RegionApart(h, n, a);
    RegionApart(h, n, b);
    hide Valid, Regions, Covers, RegionsOk;
    forall y ensures Covers(Regions(f.free), y) <==> Covers(Regions(g.free), y) {
      assert n.Has(y) ==> !Extent(h, a).Has(y) && !Extent(h, b).Has(y);
    }
    FreeListIsCanonical(f, g);
    assert f.blocks == g.blocks;
  }

  predicate InRegion(h: Heap, n: Interval) {
    exists k :: 0 <= k < |h.free| && n.base == Regions(h.free)[k].base && 0 < n.size <= Regions(h.free)[k].size
  }

  lemma RegionApart(h: Heap, n: Interval, a: int)
    requires Valid(h) && a in h.blocks && InRegion(h, n)
    ensures n.base != a && (n.End() <= a || Extent(h, a).End() <= n.base)
  {
    var k :| 0 <= k < |h.free| && n.base == Regions(h.free)[k].base && 0 < n.size <= Regions(h.free)[k].size;
    BlockFacts(h, a);
    assert Apart(Regions(h.free)[k], Extent(h, a));
  }

  /** A node cut out of the block freed first is missing there, and in the other order that memory is free. */
  lemma OtherCut(h: Heap, a: int, b: int, n: Interval, m: Interval, f: Heap, g: Heap)
    requires Valid(h) && a in h.blocks && b in h.blocks && a != b && n.base == a
    requires NodeCutFrom(h, a, b, n, f) && NodeCutFrom(h, b, a, m, g)
    ensures Regions(f.free) != Regions(g.free)
  {
    BlockFacts(h, a);
    BlockFacts(h, b);
    assert Apart(Extent(h, a), Extent(h, b)) && Extent(h, a).Has(a) && n.Has(a);
    assert !Covers(Regions(f.free), a) && Covers(Regions(g.free), a);
  }

  lemma CutBelow(h: Heap, a: int, b: int)
    requires Valid(h) && a in h.blocks && b in h.blocks
    requires FitsBelow(Regions(h.free), Extent(h, a), NODE_NEED) && FitsBelow(Regions(h.free), Extent(h, b), NODE_NEED)
    ensures CutPlace(h, a) == CutPlace(h, b) && InRegion(h, CutPlace(h, a))
  {
    var l := Regions(h.free);
    var k := FitIn(l, NODE_NEED);
    assert CutPlace(h, a) == Interval(l[k].base, Taken(l[k].size, NODE_NEED));
  }

  lemma CutHere(h: Heap, a: int)
    requires a in h.blocks && !FitsBelow(Regions(h.free), Extent(h, a), NODE_NEED)
    ensures CutPlace(h, a).base == a
  {
  }

  lemma NeitherTouches(h: Heap, a: int, b: int, f: Heap, g: Heap)
    requires Valid(h) && Freeable(h, a) && Freeable(h, b) && a != b && |h.spare| == 1 && !Touches(h, a) && !Touches(h, b)
    requires FreeAll(h, [a, b], []) == Granted(f, 0, []) && FreeAll(h, [b, a], []) == Granted(g, 0, [])
    ensures SameHeap(f, g) <==>
              FitsBelow(Regions(h.free), Extent(h, a), NODE_NEED) && FitsBelow(Regions(h.free), Extent(h, b), NODE_NEED)
  {
    hide NodeCutFrom, CutPlace, FitsBelow, Valid, Freeable, FreeAll, Touches, InRegion;
    BlockOfFreeable(h, a);
    BlockOfFreeable(h, b);
    SecondCuts(h, a, b, f);
    SecondCuts(h, b, a, g);
    var n, m := CutPlace(h, a), CutPlace(h, b);
    if !FitsBelow(Regions(h.free), Extent(h, a), NODE_NEED) {
      CutHere(h, a);
      OtherCut(h, a, b, n, m, f, g);
    } else if !FitsBelow(Regions(h.free), Extent(h, b), NODE_NEED) {
      CutHere(h, b);
      OtherCut(h, b, a, m, n, g, f);
    } else {
      CutBelow(h, a, b);
      SameCut(h, a, b, n, f, g);
    }
  }

  lemma StockedFreesCommute(h: Heap, a: int, b: int, f: Heap, g: Heap)
    requires Valid(h) && Freeable(h, a) && Freeable(h, b) && a != b && h.spare != []
    requires FreeAll(h, [a, b], []) == Granted(f, 0, []) && FreeAll(h, [b, a], []) == Granted(g, 0, [])
    ensures a in h.blocks && b in h.blocks && (SameHeap(f, g) <==> OrderDoesNotMatter(h, a, b))
  {
    hide FitsBelow, Valid, Freeable, FreeAll, Touches, Releasable;
    BlockOfFreeable(h, a);
    BlockOfFreeable(h, b);
    if |h.spare| >= 2 || (Touches(h, a) && Touches(h, b)) {
      TwoReleasable(h, a, b);
      TwoReleasable(h, b, a);
      BothReleasable(h, a, b, f, g);
    } else if Touches(h, a) {
      OneTouches(h, a, b, f, g);
    } else if Touches(h, b) {
      OneTouches(h, b, a, g, f);
    } else {
      NeitherTouches(h, a, b, f, g);
    }
  }

  lemma {:induction false} NothingLeft(h: Heap, order: seq<int>)
    requires Valid(h) && Batch(h, order) && FreeAll(h, order, []).Granted?
    ensures FreeAll(h, order, []) == Granted(FreeAll(h, order, []).heap, 0, [])
    decreases |order|
  {
    if order != [] {
      var a, rest := order[0], order[1..];
      assert Freeable(h, a);
      FreeStocks(h, a);
      var s := Stocked(h);
      var g := Release(s, a);
      ReleaseFreed(s, a);
      FreedKeeps(s, a, g);
      assert Batch(s, order);
      BatchNext(s, order);
      assert FreeAll(h, order, []) == FreeAll(g, rest, []);
      NothingLeft(g, rest);
    }
  }

  /** Two frees that need no growth leave the same heap in either order exactly when, once the first has its spare node, the
      condition above holds. */
  lemma FreesCommuteExactlyWhen(h: Heap, a: int, b: int)
    requires Valid(h) && Freeable(h, a) && Freeable(h, b) && a != b
    requires FreeAll(h, [a, b], []).Granted? && FreeAll(h, [b, a], []).Granted?
    ensures a in Stocked(h).blocks && b in Stocked(h).blocks
    ensures SameHeap(FreeAll(h, [a, b], []).heap, FreeAll(h, [b, a], []).heap) <==> OrderDoesNotMatter(Stocked(h), a, b)
  {
    hide Valid, Freeable, FreeAll, OrderDoesNotMatter, SameHeap, Stocked;
    TwoFromStocked(h, a, b);
    TwoFromStocked(h, b, a);
    assert Batch(Stocked(h), [a, b]) && Batch(Stocked(h), [b, a]);
    NothingLeft(Stocked(h), [a, b]);
    NothingLeft(Stocked(h), [b, a]);
    StockedFreesCommute(Stocked(h), a, b, FreeAll(h, [a, b], []).heap, FreeAll(h, [b, a], []).heap);
  }

  // ---- When freeing undoes an allocation -----------------------------------------------------------------

  /** What is in use or free, taken together. */
  function Budget(h: Heap): int { h.used + Total(Regions(h.free)) }

  lemma BudgetIs(h: Heap)
    requires Valid(h)
    ensures Budget(h) == h.total - (HEADER + NODE) * |h.anchors| - h.lost
  {
  }

  lemma GrantBudget(h: Heap, k: nat, need: int)
    requires Valid(h) && k < |h.free| && need % 4 == 0 && NODE_NEED <= need <= h.free[k].region.size
    ensures var g := Grant(h, k, need); Valid(g) && Budget(g) == Budget(h) && g.used >= h.used + need
  {
    GrantKeeps(h, k, need);
    BudgetIs(h);
    BudgetIs(Grant(h, k, need));
    hide Valid, Budget;
  }

  /** Growth adds to it, unless its pages are lost. */
  lemma GrowBudget(h: Heap, need: int, walked: bool, s: Supply)
    requires Valid(h) && need >= 0
    requires s.newStruct ==> FirstFit(h.free, PAGE_STRUCT + HEADER) < |h.free|
    requires walked ==> FirstFit(h.free, need) == |h.free|
    ensures var g := Grow(h, need, walked, s);
            && Valid(g) && Budget(g) >= Budget(h) && g.used >= h.used
            && (!(TailReaches(h, walked, s) && TailUsedUp(h, s)) ==> Budget(g) > Budget(h))
  {
    var g := Grow(h, need, walked, s);
    GrowKeeps(h, need, walked, s);
    BudgetIs(h);
    BudgetIs(g);
    PreparedSizes(h, s);
    PagesNeededEnough(h, need, walked, s);
    AttachedCounts(Prepared(h, s), PagesNeeded(h, need, walked, s) * PAGE_SIZE, Loc(h, s),
                   TailReaches(h, walked, s), TailUsedUp(h, s));
    hide Valid, Budget, Prepared, PagesNeeded, TailReaches, TailUsedUp, Attach, Loc;
    SameAnchors(h, s);
  }

  lemma SameAnchors(h: Heap, s: Supply)
    requires s.newStruct ==> FirstFit(h.free, PAGE_STRUCT + HEADER) < |h.free|
    ensures Prepared(h, s).anchors == h.anchors && Prepared(h, s).lost == h.lost
    ensures h.free != [] && !TailUsedUp(h, s) ==> Prepared(h, s).free != []
  {
  }

  lemma AttachedCounts(g: Heap, bytes: int, loc: int, reaches: bool, usedUp: bool)
    requires bytes >= MINIMUM_PAGES * PAGE_SIZE
    ensures var f := Attach(g, bytes, loc, reaches, usedUp);
            && f.total == g.total + bytes && f.used == g.used && |f.anchors| <= |g.anchors| + 1
            && (if !reaches then f.lost == g.lost
                else if usedUp || g.free == [] then f.lost == g.lost + bytes && f.anchors == g.anchors
                else f.lost == g.lost && f.anchors == g.anchors)
  {
  }

  /** An allocation takes at least what was asked for out of what is free; if it grew the heap, there is more than before. */
  lemma {:induction false} AllocateBudget(h: Heap, need: int, reserved: bool, supplies: seq<Supply>)
    requires Valid(h) && need % 4 == 0 && need >= NODE_NEED && Allocate(h, need, reserved, supplies).Granted?
    ensures var g := Allocate(h, need, reserved, supplies).heap;
            && g.used >= h.used + need && Budget(g) >= Budget(h)
            && (!((reserved || !Low(h, need)) && FirstFit(h.free, need) < |h.free|) ==> Budget(g) > Budget(h))
    decreases |supplies|
  {
    var walked := reserved || !Low(h, need);
    var k := FirstFit(h.free, need);
    hide Valid, Budget, Grow, Grant, FirstFit, TailReaches, TailUsedUp, Low;
    if walked && k < |h.free| {
      NeedFits(h, need, k);
      GrantBudget(h, k, need);
    } else {
      var s := supplies[0];
      var g := Grow(h, need, walked, s);
      GrowBudget(h, need, walked, s);
      AllocateBudget(g, need, reserved, supplies[1..]);
      if TailReaches(h, walked, s) && TailUsedUp(h, s) {
        Walked(h, walked, s);
        AfterLoss(h, need, s, s);
      }
    }
  }

  lemma Walked(h: Heap, walked: bool, s: Supply)
    requires TailReaches(h, walked, s)
    ensures walked && TailReaches(h, true, s)
  {
  }

  lemma NeedFits(h: Heap, need: int, k: nat)
    requires k == FirstFit(h.free, need) < |h.free|
    ensures need <= h.free[k].region.size
  {
    hide FirstFit;
  }

  lemma ReleaseBudget(h: Heap, a: int)
    requires Valid(h) && Freeable(h, a) && h.spare != []
    ensures var g := Release(h, a); Valid(g) && Budget(g) == Budget(h) && g.used == h.used - Extent(h, a).size
  {
    ReleaseFreed(h, a);
    FreedKeeps(h, a, Release(h, a));
    BudgetIs(h);
    BudgetIs(Release(h, a));
    hide Valid, Budget, Release;
  }

  /** A free keeps it, or adds to it when it grows the heap; and it gives back less than the block when it has to make a node. */
  lemma FreeBudget(h: Heap, a: int, supplies: seq<Supply>)
    requires Valid(h) && Freeable(h, a) && Free(h, a, supplies).Granted?
    ensures var g := Free(h, a, supplies).heap;
            && Budget(g) >= Budget(h) && a in h.blocks
            && (h.spare == [] ==> g.used >= h.used - Extent(h, a).size + NODE_NEED)
  {
    hide Valid, Freeable, Free, Allocate, Release, Budget, GrantedOk, Needed;
    BlockOfFreeable(h, a);
    FreeIs(h, a, supplies);
    if h.spare != [] {
      ReleaseBudget(h, a);
    } else {
      NeededNode();
      NodeWords();
      AllocateKeeps(h, Needed(NODE), true, supplies);
      AllocateBudget(h, Needed(NODE), true, supplies);
      var out := Allocate(h, Needed(NODE), true, supplies);
      FreeMade(h, a, out.heap, out.block);
    }
  }

  lemma NodeWords()
    ensures NODE_NEED % 4 == 0 && NODE_NEED >= PAGE_STRUCT + HEADER
  {
  }

  lemma FreeIs(h: Heap, a: int, supplies: seq<Supply>)
    requires a in h.blocks && Free(h, a, supplies).Granted?
    ensures h.spare != [] ==> Free(h, a, supplies).heap == Release(h, a)
    ensures h.spare == [] ==>
              var out := Allocate(h, Needed(NODE), true, supplies);
              && out.Granted? && a in out.heap.blocks
              && Free(h, a, supplies).heap == Release(out.heap.(spare := [out.block + HEADER] + out.heap.spare), a)
  {
    hide Release, Allocate, Needed;
  }

  lemma FreeMade(h: Heap, a: int, g: Heap, block: int)
    requires Freeable(h, a) && GrantedOk(h, NODE_NEED, g, block)
    ensures var s := g.(spare := [block + HEADER] + g.spare);
            && a in h.blocks && a in s.blocks && Budget(Release(s, a)) == Budget(g)
            && Release(s, a).used == g.used - Extent(h, a).size
  {
    var s := g.(spare := [block + HEADER] + g.spare);
    StockOk(h, g, block);
    BlockOfFreeable(h, a);
    assert a in s.blocks && Extent(s, a) == Extent(h, a);
    assert Budget(s) == Budget(g);
    hide Valid, Budget, Release, Structs;
    ReleaseBudget(s, a);
  }

  /** The request is served without growth, and a node is spare afterwards: one was before, or a whole region goes with its
      node. */
  predicate LeavesNoTrace(h: Heap, need: int, reserved: bool) {
    var k := FirstFit(h.free, need);
    && (reserved || !Low(h, need)) && k < |h.free|
    && (h.spare != [] || need + HEADER >= h.free[k].region.size)
  }

  /** `kfree(kmalloc(n))`, when both succeed, restores the free regions and the count exactly then. */
  lemma FreeUndoesMallocExactlyWhen(h: Heap, size: nat, reserved: bool, supplies: seq<Supply>)
    requires Valid(h) && 0 < size <= 0xFFFF_FFF4 && Allocate(h, Needed(size), reserved, supplies).Granted?
    requires var out := Allocate(h, Needed(size), reserved, supplies);
             out.block in out.heap.blocks ==> Free(out.heap, out.block, out.rest).Granted?
    ensures var out := Allocate(h, Needed(size), reserved, supplies);
            && out.block in out.heap.blocks
            && var back := Free(out.heap, out.block, out.rest).heap;
               Regions(back.free) == Regions(h.free) && back.used == h.used <==> LeavesNoTrace(h, Needed(size), reserved)
  {
    var need := Needed(size);
    var out := Allocate(h, need, reserved, supplies);
    var k := FirstFit(h.free, need);
    NeededShape(size);
    AllocateKeeps(h, need, reserved, supplies);
    assert Valid(out.heap) && Freeable(out.heap, out.block);
    if LeavesNoTrace(h, need, reserved) {
      hide Valid, Free, Allocate, Structs;
      FreeUndoesMalloc(h, size, reserved, supplies);
    } else {
      AllocateBudget(h, need, reserved, supplies);
      FreeBudget(out.heap, out.block, out.rest);
      if (reserved || !Low(h, need)) && k < |h.free| {
        assert out.heap == Grant(h, k, need) && out.heap.spare == [];
        CutUsed(h, k, need);
      }
      hide Valid, Free, Allocate, Structs;
    }
  }

  /** What a block cut off a region counts for. */
  lemma CutUsed(h: Heap, k: nat, need: int)
    requires k < |h.free| && need + HEADER < h.free[k].region.size
    ensures var g, a := Grant(h, k, need), h.free[k].region.base;
            a in g.blocks && g.spare == h.spare && g.used - Extent(g, a).size == h.used
  {
  }
}
