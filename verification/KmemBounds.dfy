/**
What the heap of src/mem/kmem.cpp hands out, from where, when it grows and by how much: bounds in the caller's terms, stated
without the branches of the code.
*/
module KmemBounds {
  import opened Intervals
  import opened Kmem

  const RESERVE: int := 0x2000    // the two pages that ordinary requests must leave

  // ---- The size of a block -----------------------------------------------------------------------

  /** What is looked for is a header and the least number of whole words that holds the request and a page struct. */
  lemma RequestIsLeast(size: nat, other: int)
    requires 0 < size <= 0xFFFF_FFF4
    ensures var room := Needed(size) - HEADER;
            && room % 4 == 0 && room >= size && room >= PAGE_STRUCT
            && (other % 4 == 0 && other >= size && other >= PAGE_STRUCT ==> other >= room)
  {
    NeededShape(size);
    RequestFits(size);
    var r := if size % 4 != 0 then size + 4 - size % 4 else size;
    assert r % WORD == r && Rounded(size) == if r < PAGE_STRUCT then PAGE_STRUCT else r;
    hide Rounded, Needed;
    if other % 4 == 0 && other >= size { NextWord(size, other); }
  }

  lemma NextWord(size: nat, other: int)
    requires other % 4 == 0 && other >= size
    ensures other >= if size % 4 != 0 then size + 4 - size % 4 else size
  {
    var p, q := other / 4, size / 4;
    assert other == 4 * p && size == 4 * q + size % 4;
  }

  /** Room for the request besides the reserve. */
  predicate Leaves(h: Heap, need: int) { h.total >= RESERVE && h.used + need <= h.total - RESERVE }

  predicate SomeFits(h: Heap, need: int) {
    exists i :: 0 <= i < |h.free| && h.free[i].region.size >= need
  }

  lemma FitExists(h: Heap, need: int)
    ensures FirstFit(h.free, need) < |h.free| <==> SomeFits(h, need)
  {
    var k := FirstFit(h.free, need);
    hide FirstFit;
  }

  lemma LowIs(h: Heap, need: int)
    ensures Low(h, need) <==> !Leaves(h, need)
  {
  }

  /** The heap does not grow exactly when some free region is large enough, and the request is from the reserve or leaves it
      alone. */
  lemma GrowsExactlyWhen(h: Heap, need: int, reserved: bool, supplies: seq<Supply>)
    requires Allocate(h, need, reserved, supplies).Granted?
    ensures Allocate(h, need, reserved, supplies).rest == supplies <==> (reserved || Leaves(h, need)) && SomeFits(h, need)
  {
    FitExists(h, need);
    LowIs(h, need);
    hide Low, SomeFits, Leaves, FirstFit;
    if supplies != [] && !((reserved || !Low(h, need)) && FirstFit(h.free, need) < |h.free|) {
      RestIsShorter(Grow(h, need, reserved || !Low(h, need), supplies[0]), need, reserved, supplies[1..]);
    }
  }

  lemma {:induction false} RestIsShorter(h: Heap, need: int, reserved: bool, supplies: seq<Supply>)
    requires Allocate(h, need, reserved, supplies).Granted?
    ensures |Allocate(h, need, reserved, supplies).rest| <= |supplies|
    decreases |supplies|
  {
    hide Low, FirstFit, Grant, Attach, Prepared;
    if !((reserved || !Low(h, need)) && FirstFit(h.free, need) < |h.free|) {
      RestIsShorter(Grow(h, need, reserved || !Low(h, need), supplies[0]), need, reserved, supplies[1..]);
    }
  }

  /** So such a request is served, and takes nothing from the page layer. */
  lemma ServedWithoutGrowth(h: Heap, need: int, reserved: bool, supplies: seq<Supply>)
    requires (reserved || Leaves(h, need)) && SomeFits(h, need)
    ensures var out := Allocate(h, need, reserved, supplies);
            out.Granted? && out.rest == supplies && out.heap.total == h.total && out.heap.end == h.end
  {
    FitExists(h, need);
    LowIs(h, need);
    hide Low, SomeFits, Leaves, FirstFit;
  }

  /** Then the block is the front of the lowest region that is large enough: all of that region if what the request leaves of
      it could not hold more than a header, and otherwise just what is needed. */
  lemma BlockIsLowestFit(h: Heap, need: int, reserved: bool, supplies: seq<Supply>)
    requires (reserved || Leaves(h, need)) && SomeFits(h, need)
    ensures var out := Allocate(h, need, reserved, supplies);
            out.Granted? && exists k ::
              0 <= k < |h.free| && h.free[k].region.base == out.block && h.free[k].region.size >= need
              && (forall i :: 0 <= i < k ==> h.free[i].region.size < need)
              && out.block in out.heap.blocks
              && out.heap.blocks[out.block] + HEADER
              == if h.free[k].region.size > need + HEADER then need else h.free[k].region.size
  {
    FitExists(h, need);
    LowIs(h, need);
    var k := FirstFit(h.free, need);
    hide Low, SomeFits, Leaves, FirstFit;
    assert h.free[k].region.base == Allocate(h, need, reserved, supplies).block;
  }

  // ---- Free regions are worth keeping ----------------------------------------------------------------

  /** Every free region holds more than a header. */
  predicate NoSlivers(f: seq<Node>) {
    forall i :: 0 <= i < |f| ==> f[i].region.size > HEADER
  }

  lemma GrantNoSlivers(h: Heap, k: nat, need: int)
    requires NoSlivers(h.free) && k < |h.free| && h.free[k].region.size >= need
    ensures NoSlivers(Grant(h, k, need).free)
  {
  }

  lemma GrowNoSlivers(h: Heap, need: int, walked: bool, s: Supply)
    requires NoSlivers(h.free) && need >= 0 && (walked ==> FirstFit(h.free, need) == |h.free|)
    requires s.newStruct ==> FirstFit(h.free, PAGE_STRUCT + HEADER) < |h.free|
    ensures NoSlivers(Grow(h, need, walked, s).free)
  {
    PagesNeededEnough(h, need, walked, s);
    if s.newStruct { GrantNoSlivers(h, FirstFit(h.free, PAGE_STRUCT + HEADER), PAGE_STRUCT + HEADER); }
    var g, bytes := Prepared(h, s), PagesNeeded(h, need, walked, s) * PAGE_SIZE;
    assert NoSlivers(g.free);
    hide Prepared, PagesNeeded, FirstFit;
  }

  lemma {:induction false} AllocateNoSlivers(h: Heap, need: int, reserved: bool, supplies: seq<Supply>)
    requires NoSlivers(h.free) && need >= 0
    ensures var out := Allocate(h, need, reserved, supplies); out.Granted? ==> NoSlivers(out.heap.free)
    decreases |supplies|
  {
    var walked, k := reserved || !Low(h, need), FirstFit(h.free, need);
    if walked && k < |h.free| {
      GrantNoSlivers(h, k, need);
    } else if supplies != [] && !(supplies[0].newStruct && FirstFit(h.free, PAGE_STRUCT + HEADER) == |h.free|) {
      GrowNoSlivers(h, need, walked, supplies[0]);
      hide NoSlivers, Grow, Low, FirstFit;
      AllocateNoSlivers(Grow(h, need, walked, supplies[0]), need, reserved, supplies[1..]);
    }
  }

  lemma MergeNoSlivers(l: Lists, k: nat)
    requires NoSlivers(l.free)
    ensures NoSlivers(MergeNode(l, k).free)
  {
  }

  lemma ReleaseNoSlivers(h: Heap, a: int)
    requires NoSlivers(h.free) && a in h.blocks && h.spare != [] && h.blocks[a] > 0
    ensures NoSlivers(Release(h, a).free)
  {
    var x := Node(h.spare[0], Interval(a, h.blocks[a] + HEADER));
    var p := Position(Regions(h.free), x.region.base);
    var l := Lists(h.free[..p] + [x] + h.free[p..], h.spare[1..]);
    assert NoSlivers(l.free);
    MergeNoSlivers(l, p);
    if p > 0 { MergeNoSlivers(MergeNode(l, p), p - 1); }
    hide NoSlivers, MergeNode;
  }

  lemma BlocksPositive(h: Heap, a: int)
    requires Valid(h) && a in h.blocks
    ensures h.blocks[a] > 0
  {
    assert BlockOk(h, a);
  }

  lemma ReserveNoSlivers(h: Heap, need: int, g: Heap, block: int, a: int)
    requires GrantedOk(h, need, g, block) && NoSlivers(g.free) && a in g.blocks
    ensures NoSlivers(Release(g.(spare := [block + HEADER] + g.spare), a).free)
  {
    hide Valid, NoSlivers, Release, Preserves, Structs;
    BlocksPositive(g, a);
    ReleaseNoSlivers(g.(spare := [block + HEADER] + g.spare), a);
  }

  lemma NodeRequest()
    ensures Needed(NODE) % 4 == 0 && Needed(NODE) >= PAGE_STRUCT + HEADER
  {
    NeededShape(NODE);
  }

  lemma FreeNoSlivers(h: Heap, a: int, supplies: seq<Supply>)
    requires Valid(h) && NoSlivers(h.free) && a in h.blocks
    ensures var out := Free(h, a, supplies); out.Granted? ==> NoSlivers(out.heap.free)
  {
    hide Valid, NoSlivers, Allocate, Release, Needed, GrantedOk;
    if h.spare != [] {
      BlocksPositive(h, a);
      ReleaseNoSlivers(h, a);
    } else {
      NodeRequest();
      AllocateNoSlivers(h, Needed(NODE), true, supplies);
      var out := Allocate(h, Needed(NODE), true, supplies);
      if out.Granted? && a in out.heap.blocks {
        AllocateKeeps(h, Needed(NODE), true, supplies);
        ReserveNoSlivers(h, Needed(NODE), out.heap, out.block, a);
      }
    }
  }

  lemma DoNoSlivers(h: Heap, op: Op)
    requires Valid(h) && NoSlivers(h.free) && Legal(h, op)
    ensures NoSlivers(Do(h, op).free)
  {
    hide Valid, NoSlivers, Allocate, Free, Needed;
    match op
    case Malloc(size, reserved, supplies) => AllocateNoSlivers(h, Needed(size), reserved, supplies);
    case Kfree(a, supplies) => FreeNoSlivers(h, a, supplies);
  }

  lemma {:induction false} AfterNoSlivers(h: Heap, ops: seq<Op>)
    requires Valid(h) && NoSlivers(h.free) && LegalRun(h, ops)
    ensures NoSlivers(After(h, ops).free)
    decreases |ops|
  {
    if ops != [] {
      DoNoSlivers(h, ops[0]);
      DoKeeps(h, ops[0]);
      AfterNoSlivers(Do(h, ops[0]), ops[1..]);
    }
  }

  /** From boot, after any sequence of allocations and frees, no free region is too small for a header and a byte. */
  lemma NoSliversThroughout(base: int, ops: seq<Op>, k: nat)
    requires base % PAGE_SIZE == 0 && LegalRun(Initial(base), ops) && k < |After(Initial(base), ops).free|
    ensures After(Initial(base), ops).free[k].region.size > HEADER
  {
    InitialValid(base);
    AfterNoSlivers(Initial(base), ops);
  }

  // ---- The reserve -----------------------------------------------------------------------------------

  /** A block takes up what was needed, and at most a header's worth more. And an ordinary request leaves the last two pages of
      the heap, give or take that. */
  lemma {:induction false} ReserveIsLeft(h: Heap, need: int, reserved: bool, supplies: seq<Supply>)
    requires Allocate(h, need, reserved, supplies).Granted? && need >= HEADER
    ensures var out := Allocate(h, need, reserved, supplies);
            && out.block in out.heap.blocks
            && need <= out.heap.blocks[out.block] + HEADER <= need + HEADER
            && (!reserved ==> out.heap.total >= RESERVE && out.heap.used <= out.heap.total - RESERVE + HEADER)
    decreases |supplies|
  {
    LowIs(h, need);
    var k := FirstFit(h.free, need);
    if (reserved || !Low(h, need)) && k < |h.free| {
      GrantTakes(h, k, need);
      hide Grant, FirstFit;
    } else {
      hide Low, Leaves, Attach, Prepared, FirstFit, Grant;
      ReserveIsLeft(Grow(h, need, reserved || !Low(h, need), supplies[0]), need, reserved, supplies[1..]);
    }
  }

  lemma GrantTakes(h: Heap, k: nat, need: int)
    requires k == FirstFit(h.free, need) < |h.free|
    ensures var g, a := Grant(h, k, need), h.free[k].region.base;
            && a in g.blocks && need <= g.blocks[a] + HEADER <= need + HEADER
            && g.used == h.used + g.blocks[a] + HEADER && g.total == h.total
  {
    hide FirstFit;
  }

  // ---- Growth ------------------------------------------------------------------------------------------

  /** What the last region contributes when the new pages join it. */
  function Room(h: Heap, walked: bool, s: Supply): int {
    if walked && h.free != [] && h.free[|h.free| - 1].region.End() == Loc(h, s) then h.free[|h.free| - 1].region.size else 0
  }

  /** Growth adds the whole pages that the request, a page struct and a node fill besides that room, and two. */
  lemma GrowthIsBounded(h: Heap, need: int, walked: bool, s: Supply)
    requires Valid(h) && 0 <= need && need + PAGE_STRUCT + NODE < WORD
    requires s.newStruct ==> FirstFit(h.free, PAGE_STRUCT + HEADER) < |h.free|
    requires walked ==> FirstFit(h.free, need) == |h.free|
    ensures var added, wanted := Grow(h, need, walked, s).total - h.total, need - Room(h, walked, s) + PAGE_STRUCT + NODE;
            added % PAGE_SIZE == 0 && added >= RESERVE && wanted + RESERVE - PAGE_SIZE < added <= wanted + RESERVE
  {
    LastPositive(h);
    TailTooSmall(h, need, walked, s);
    GrowTotal(h, need, walked, s);
    var sum := need + PAGE_STRUCT + NODE - Room(h, walked, s);
    assert 0 <= sum <= need + PAGE_STRUCT + NODE;
    PagesExactly(h, need, walked, s, sum);
    hide Valid, PagesNeeded, Grow, Room, FirstFit;
    WholePages(sum);
  }

  lemma PagesExactly(h: Heap, need: int, walked: bool, s: Supply, sum: int)
    requires sum == need + PAGE_STRUCT + NODE - Room(h, walked, s) && 0 <= sum < WORD
    ensures PagesNeeded(h, need, walked, s) == sum / PAGE_SIZE + MINIMUM_PAGES
  {
    assert sum % WORD == sum;
  }

  /** The new pages get a region of their own unless the search was made and ended at a last region that reaches them. Then
      they join it, or are lost when the page struct has used it up. */
  lemma GrowthJoinsExactlyWhen(h: Heap, need: int, walked: bool, s: Supply)
    requires s.newStruct ==> FirstFit(h.free, PAGE_STRUCT + HEADER) < |h.free|
    ensures |Grow(h, need, walked, s).free| == |Prepared(h, s).free| + 1
       <==> !(walked && h.free != [] && h.free[|h.free| - 1].region.End() == Loc(h, s))
  {
    hide Prepared, PagesNeeded;
  }

  lemma LastPositive(h: Heap)
    requires Valid(h)
    ensures h.free != [] ==> h.free[|h.free| - 1].region.size > 0
  {
    if h.free != [] { assert RegionOk(h, h.free[|h.free| - 1].region); }
  }

  lemma TailTooSmall(h: Heap, need: int, walked: bool, s: Supply)
    requires walked ==> FirstFit(h.free, need) == |h.free|
    ensures TailReaches(h, walked, s) ==> h.free != [] && h.free[|h.free| - 1].region.size < need
  {
    hide FirstFit;
  }

  lemma WholePages(sum: int)
    requires sum >= 0
    ensures var added := (sum / PAGE_SIZE + MINIMUM_PAGES) * PAGE_SIZE;
            added % PAGE_SIZE == 0 && RESERVE <= added && sum + RESERVE - PAGE_SIZE < added <= sum + RESERVE
  {
    var q := sum / PAGE_SIZE;
    assert (q + MINIMUM_PAGES) * PAGE_SIZE == PAGE_SIZE * (q + MINIMUM_PAGES);
  }

  /** Which bytes of the new pages become free: none when they are lost, all when they lengthen the last region, and all but
      the first twenty when they get a node of their own. */
  predicate NewlyFree(loc: int, bytes: int, reaches: bool, lost: bool, y: int) {
    !lost && (if reaches then loc else loc + HEADER + NODE) <= y < loc + bytes
  }

  lemma {:induction false} CoversMore(l: seq<Interval>, x: Interval, y: int)
    ensures Covers(l + [x], y) <==> Covers(l, y) || x.Has(y)
  {
    if l == [] {
      assert l + [x] == [x] && [x][1..] == [];
    } else {
      assert (l + [x])[0] == l[0] && (l + [x])[1..] == l[1..] + [x];
      CoversMore(l[1..], x, y);
    }
  }

  /** Growth leaves every free byte free, and frees exactly those bytes of the new pages. */
  lemma AttachFrees(g: Heap, bytes: int, loc: int, reaches: bool, usedUp: bool, y: int)
    requires bytes > HEADER + NODE
    requires reaches && !usedUp && g.free != [] ==>
               g.free[|g.free| - 1].region.size >= 0 && g.free[|g.free| - 1].region.End() == loc
    ensures Covers(Regions(Attach(g, bytes, loc, reaches, usedUp).free), y)
       <==> Covers(Regions(g.free), y) || NewlyFree(loc, bytes, reaches, reaches && (usedUp || g.free == []), y)
  {
    var f, l := Attach(g, bytes, loc, reaches, usedUp), Regions(g.free);
    if !reaches {
      var x := Interval(loc + HEADER + NODE, bytes - HEADER - NODE);
      assert Regions(f.free) == l + [x];
      CoversMore(l, x, y);
    } else if !usedUp && g.free != [] {
      var n := |l| - 1;
      var r := l[n];
      var x := Interval(r.base, r.size + bytes);
      assert l == l[..n] + [r] && Regions(f.free) == l[..n] + [x];
      CoversMore(l[..n], r, y);
      CoversMore(l[..n], x, y);
    }
  }

  /** Growth, the struct it may have to allocate for the pages included. */
  lemma GrowthFrees(h: Heap, need: int, walked: bool, s: Supply, y: int)
    requires Valid(h) && need >= 0
    requires s.newStruct ==> FirstFit(h.free, PAGE_STRUCT + HEADER) < |h.free|
    requires walked ==> FirstFit(h.free, need) == |h.free|
    ensures var g := Grow(h, need, walked, s);
            Covers(Regions(g.free), y) <==>
              || (Covers(Regions(h.free), y) && !StructTakes(h, s).Has(y))
              || NewlyFree(Loc(h, s), g.total - h.total, TailReaches(h, walked, s), g.lost > h.lost, y)
  {
    var p, bytes, loc := Prepared(h, s), PagesNeeded(h, need, walked, s) * PAGE_SIZE, Loc(h, s);
    PagesNeededEnough(h, need, walked, s);
    PreparedKeeps(h, s);
    PreparedSizes(h, s);
    GrowthLosesExactlyWhen(h, need, walked, s);
    LastPositive(p);
    StructTaken(h, s, y);
    NotLost(h, walked, s);
    hide Valid, PagesNeeded, Prepared, Covers;
    AttachFrees(p, bytes, loc, TailReaches(h, walked, s), TailUsedUp(h, s), y);
    GrowTotal(h, need, walked, s);
  }

  lemma NotLost(h: Heap, walked: bool, s: Supply)
    requires Valid(h) && (s.newStruct ==> FirstFit(h.free, PAGE_STRUCT + HEADER) < |h.free|)
    ensures TailReaches(h, walked, s) && !TailUsedUp(h, s) ==>
              var p := Prepared(h, s);
              p.free != [] && p.free[|p.free| - 1].region.End() == Loc(h, s)
  {
    hide Valid, TailUsedUp, Prepared, FirstFit;
    if TailReaches(h, walked, s) && !TailUsedUp(h, s) { PreparedKeeps(h, s); }
  }

  lemma GrowTotal(h: Heap, need: int, walked: bool, s: Supply)
    requires s.newStruct ==> FirstFit(h.free, PAGE_STRUCT + HEADER) < |h.free|
    ensures Grow(h, need, walked, s).total == h.total + PagesNeeded(h, need, walked, s) * PAGE_SIZE
  {
    PreparedSizes(h, s);
  }

  /** The bytes the page struct of new pages takes: the front of the lowest region that can hold one. */
  function StructTakes(h: Heap, s: Supply): Interval
    requires s.newStruct ==> FirstFit(h.free, PAGE_STRUCT + HEADER) < |h.free|
  {
    if !s.newStruct then Interval(0, 0)
    else
      var r := h.free[FirstFit(h.free, PAGE_STRUCT + HEADER)].region;
      Interval(r.base, Taken(r.size, PAGE_STRUCT + HEADER))
  }

  lemma StructTaken(h: Heap, s: Supply, y: int)
    requires Valid(h) && (s.newStruct ==> FirstFit(h.free, PAGE_STRUCT + HEADER) < |h.free|)
    ensures Covers(Regions(Prepared(h, s).free), y) <==> Covers(Regions(h.free), y) && !StructTakes(h, s).Has(y)
  {
    if s.newStruct {
      var k, need := FirstFit(h.free, PAGE_STRUCT + HEADER), PAGE_STRUCT + HEADER;
      GrantRegions(h, k, need);
      hide FirstFit, Covers, Carve, Regions;
      CarveCovers(Regions(h.free), k, Taken(h.free[k].region.size, need), y);
    }
  }
}
