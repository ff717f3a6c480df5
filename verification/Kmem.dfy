/**
The kernel heap of src/mem/kmem.cpp: first fit with splitting, coalescing frees, recycled free-list nodes
and growth by whole pages. A `Heap` is the allocator's globals plus what its headers say is allocated.
*/
module Kmem {
  import opened Intervals

  const HEADER: int := 8         // sizeof(kmem_header_t), sentinel included
  const NODE: int := 12          // sizeof(kmem_free_t)
  const PAGE_STRUCT: int := 20   // sizeof(page::Page)
  const PAGE_SIZE: int := 4096
  const MINIMUM_PAGES: int := 2
  const WORD: int := 0x1_0000_0000

  /** A free-list node: the address it is stored at, and the free region it describes. */
  datatype Node = Node(at: int, region: Interval)

  /** `blocks` maps the header address of every allocated block to its payload size. `anchors` are the blocks that
      growth writes at the start of a new region to hold its node; they are never counted in `used`.
      `lost` counts bytes added to `total` that no list describes. */
  datatype Heap = Heap(free: seq<Node>, spare: seq<int>, blocks: map<int, int>, anchors: set<int>,
                       used: int, total: int, end: int, lost: int)

  function Regions(f: seq<Node>): (r: seq<Interval>)
    ensures |r| == |f| && forall i :: 0 <= i < |f| ==> r[i] == f[i].region
  {
    seq(|f|, i requires 0 <= i < |f| => f[i].region)
  }

  function Addresses(f: seq<Node>): (r: seq<int>)
    ensures |r| == |f| && forall i :: 0 <= i < |f| ==> r[i] == f[i].at
  {
    seq(|f|, i requires 0 <= i < |f| => f[i].at)
  }

  // ---- Requests -------------------------------------------------------------

  /** Round up to a word, and to the size of a page struct; `size_t` is 32 bits wide. */
  function Rounded(size: nat): nat {
    var r := if size % 4 != 0 then (size + 4 - size % 4) % WORD else size;
    if r < PAGE_STRUCT then PAGE_STRUCT else r
  }

  function Needed(size: nat): nat { (Rounded(size) + HEADER) % WORD }

  /** The request arithmetic is right for exactly the sizes up to 0xFFFFFFF4; above that it wraps and the
      block granted would be smaller than the request. */
  lemma RequestFits(size: nat)
    requires 0 < size < WORD
    ensures Rounded(size) >= size && Needed(size) == Rounded(size) + HEADER <==> size <= 0xFFFF_FFF4
  {
  }

  lemma NeededShape(size: nat)
    requires 0 < size <= 0xFFFF_FFF4
    ensures Needed(size) % 4 == 0 && Needed(size) >= PAGE_STRUCT + HEADER && Needed(size) >= size + HEADER
  {
    var r := if size % 4 != 0 then size + 4 - size % 4 else size;
    assert r % 4 == 0 && size <= r <= 0xFFFF_FFF4;
    assert r % WORD == r && Rounded(size) == if r < PAGE_STRUCT then PAGE_STRUCT else r;
    var n := Rounded(size);
    hide Rounded;
    assert n + HEADER < WORD && (n + HEADER) % WORD == n + HEADER;
  }

  // ---- Allocation -----------------------------------------------------------

  function FirstFit(f: seq<Node>, need: int): (k: nat)
    ensures k <= |f|
    ensures forall i :: 0 <= i < k ==> f[i].region.size < need
    ensures k < |f| ==> f[k].region.size >= need
  {
    if f == [] || f[0].region.size >= need then 0 else 1 + FirstFit(f[1..], need)
  }

  /** What a region of this size gives up: all of it when the rest could not even hold a header. */
  function Taken(size: int, need: int): int {
    if need + HEADER >= size then size else need
  }

  function Grant(h: Heap, k: nat, need: int): Heap
    requires k < |h.free|
  {
    var r := h.free[k].region;
    var n := Taken(r.size, need);
    var h' := h.(blocks := h.blocks[r.base := n - HEADER], used := h.used + n);
    if n == r.size then h'.(free := h.free[..k] + h.free[k + 1..], spare := [h.free[k].at] + h.spare)
    else h'.(free := h.free[k := Node(h.free[k].at, Interval(r.base + n, r.size - n))])
  }

  /** Ordinary requests must leave the reserve untouched. */
  predicate Low(h: Heap, need: int) {
    h.total < MINIMUM_PAGES * PAGE_SIZE || h.used + need > h.total - MINIMUM_PAGES * PAGE_SIZE
  }

  /** What the page layer answers a request for pages: how many pages others have installed since the heap last grew,
      whether the struct of the first run has to be allocated, and whether there are several runs. The first run goes where
      `virtual_pointer`, and so `map.memory_end`, then is. */
  datatype Supply = Supply(gap: nat, newStruct: bool, several: bool)

  function Loc(h: Heap, s: Supply): int { h.end + s.gap * PAGE_SIZE }

  /** The search ended at a last region that reaches the place where new pages go. */
  predicate TailReaches(h: Heap, walked: bool, s: Supply) {
    walked && h.free != [] && h.free[|h.free| - 1].region.End() == Loc(h, s)
  }

  function PagesNeeded(h: Heap, need: int, walked: bool, s: Supply): int {
    var room := if TailReaches(h, walked, s) then h.free[|h.free| - 1].region.size else 0;
    (need + PAGE_STRUCT + NODE - room) % WORD / PAGE_SIZE + MINIMUM_PAGES
  }

  /** New pages that no list describes. */
  function Stretched(g: Heap, bytes: int, loc: int): Heap {
    g.(total := g.total + bytes, end := loc + bytes, lost := g.lost + bytes)
  }

  /** New pages right after the last region: it gets longer. */
  function Lengthened(g: Heap, bytes: int, loc: int): Heap
    requires g.free != []
  {
    var last := |g.free| - 1;
    var r := g.free[last].region;
    g.(total := g.total + bytes, end := loc + bytes,
       free := g.free[last := Node(g.free[last].at, Interval(r.base, r.size + bytes))])
  }

  /** New pages on their own: their first bytes hold the node that describes the rest. */
  function Anchored(g: Heap, bytes: int, loc: int): Heap {
    g.(total := g.total + bytes, end := loc + bytes,
       free := g.free + [Node(loc + HEADER, Interval(loc + HEADER + NODE, bytes - HEADER - NODE))],
       blocks := g.blocks[loc := NODE], anchors := g.anchors + {loc})
  }

  /** Attaching new pages, depending on whether `prev` reaches them and on whether its region is still in the list. */
  function Attach(g: Heap, bytes: int, loc: int, reaches: bool, usedUp: bool): Heap {
    if !reaches then Anchored(g, bytes, loc)
    else if usedUp || g.free == [] then Stretched(g, bytes, loc)
    else Lengthened(g, bytes, loc)
  }

  /** The heap after growth's own allocation of a page struct. */
  function Prepared(h: Heap, s: Supply): Heap
    requires s.newStruct ==> FirstFit(h.free, PAGE_STRUCT + HEADER) < |h.free|
  {
    if s.newStruct then Grant(h, FirstFit(h.free, PAGE_STRUCT + HEADER), PAGE_STRUCT + HEADER) else h
  }

  /** Growth. `walked` says the search loop ran, so that `prev` is the last node rather than null. The page struct is
      allocated from the reserve first, which can use up the very node `prev` points at. */
  function Grow(h: Heap, need: int, walked: bool, s: Supply): Heap
    requires s.newStruct ==> FirstFit(h.free, PAGE_STRUCT + HEADER) < |h.free|
  {
    Attach(Prepared(h, s), PagesNeeded(h, need, walked, s) * PAGE_SIZE, Loc(h, s),
           TailReaches(h, walked, s), TailUsedUp(h, s))
  }

  /** The page struct takes the whole of the last region. */
  predicate TailUsedUp(h: Heap, s: Supply) {
    && h.free != []
    && s.newStruct && FirstFit(h.free, PAGE_STRUCT + HEADER) == |h.free| - 1
    && Taken(h.free[|h.free| - 1].region.size, PAGE_STRUCT + HEADER) == h.free[|h.free| - 1].region.size
  }

  /** `NoMemory`: the page layer has nothing left. `NoReserve`: growth needs a page struct and no region can hold one,
      so growth would call itself without end. `Stuck`: the pages come in several runs; growth runs under `kmem::mutex`, and
      `kinstall_append` locks that mutex for every run after the first, so it waits for itself. `block` is the header's
      address; callers get the address after it. */
  datatype Outcome = Granted(heap: Heap, block: int, rest: seq<Supply>) | NoMemory | NoReserve | Stuck

  function Allocate(h: Heap, need: int, reserved: bool, supplies: seq<Supply>): Outcome
    decreases |supplies|
  {
    var walked := reserved || !Low(h, need);
    var k := FirstFit(h.free, need);
    if walked && k < |h.free| then Granted(Grant(h, k, need), h.free[k].region.base, supplies)
    else if supplies == [] then NoMemory
    else if supplies[0].newStruct && FirstFit(h.free, PAGE_STRUCT + HEADER) == |h.free| then NoReserve
    else if supplies[0].several then Stuck
    else Allocate(Grow(h, need, walked, supplies[0]), need, reserved, supplies[1..])
  }

  // ---- Freeing --------------------------------------------------------------

  datatype Lists = Lists(free: seq<Node>, spare: seq<int>)

  /** `_merge_free` on the k-th node: the node that disappears is kept for reuse. */
  function MergeNode(l: Lists, k: nat): Lists {
    if k + 1 < |l.free| && l.free[k].region.End() == l.free[k + 1].region.base then
      var joined := Interval(l.free[k].region.base, l.free[k].region.size + l.free[k + 1].region.size);
      Lists(l.free[..k] + [Node(l.free[k].at, joined)] + l.free[k + 2..], [l.free[k + 1].at] + l.spare)
    else l
  }

  function InsertNode(l: Lists, x: Node): Lists {
    var p := Position(Regions(l.free), x.region.base);
    var l' := MergeNode(Lists(l.free[..p] + [x] + l.free[p..], l.spare), p);
    if p > 0 then MergeNode(l', p - 1) else l'
  }

  /** Freeing the block whose header is at a, using the spare node at the front of the spare list. */
  function Release(h: Heap, a: int): Heap
    requires a in h.blocks && h.spare != []
  {
    var size := h.blocks[a] + HEADER;
    var l := InsertNode(Lists(h.free, h.spare[1..]), Node(h.spare[0], Interval(a, size)));
    h.(free := l.free, spare := l.spare, blocks := h.blocks - {a}, used := h.used - size)
  }

  /** `kfree_nolock`: take a spare node, or allocate one from the reserve. */
  function Free(h: Heap, a: int, supplies: seq<Supply>): Outcome
    requires a in h.blocks
  {
    if h.spare != [] then Granted(Release(h, a), a, supplies)
    else
      match Allocate(h, Needed(NODE), true, supplies)
      case Granted(g, block, rest) =>
        if a in g.blocks then Granted(Release(g.(spare := [block + HEADER] + g.spare), a), a, rest) else NoMemory
      case other => other
  }

  // ---- The invariant --------------------------------------------------------

  /** The bytes of a block, header included. */
  function Extent(h: Heap, a: int): Interval
    requires a in h.blocks
  {
    Interval(a, h.blocks[a] + HEADER)
  }

  ghost function Pick(m: map<int, int>): (k: int)
    requires m != map[]
    ensures k in m
  {
    assert (forall k :: k !in m) ==> m == map[];
    var k :| k in m;
    k
  }

  /** Bytes taken by a collection of blocks, headers included. */
  ghost function Sum(m: map<int, int>): int {
    if m == map[] then 0 else m[Pick(m)] + HEADER + Sum(m - {Pick(m)})
  }

  function Structs(h: Heap): multiset<int> {
    multiset(Addresses(h.free)) + multiset(h.spare)
  }

  predicate RegionOk(h: Heap, r: Interval) {
    r.base % 4 == 0 && r.size % 4 == 0 && r.size > 0 && r.End() <= h.end
  }

  predicate BlockOk(h: Heap, a: int)
    requires a in h.blocks
  {
    a % 4 == 0 && h.blocks[a] % 4 == 0 && h.blocks[a] >= NODE && Extent(h, a).End() <= h.end
  }

  predicate RegionsOk(h: Heap) {
    Gapped(Regions(h.free)) && forall i :: 0 <= i < |h.free| ==> RegionOk(h, h.free[i].region)
  }

  predicate BlocksOk(h: Heap) {
    && (forall a :: a in h.blocks ==> BlockOk(h, a))
    && (forall a :: a in h.blocks ==> AllApart(Regions(h.free), Extent(h, a)))
    && (forall a, b :: a in h.blocks && b in h.blocks && a != b ==> Apart(Extent(h, a), Extent(h, b)))
  }

  /** Every node, in use or spare, sits at the payload of its own allocated block, and no node is on both lists. */
  predicate NodesOk(h: Heap) {
    forall x :: x in Structs(h) ==> Structs(h)[x] == 1 && x - HEADER in h.blocks
  }

  ghost predicate CountsOk(h: Heap) {
    && (forall a :: a in h.anchors ==> a in h.blocks && h.blocks[a] == NODE && a + HEADER in Structs(h))
    && h.used == Sum(h.blocks - h.anchors)
    && h.used + Total(Regions(h.free)) + (HEADER + NODE) * |h.anchors| + h.lost == h.total
    && h.lost >= 0
  }

  ghost predicate Valid(h: Heap) {
    h.end % 4 == 0 && RegionsOk(h) && BlocksOk(h) && NodesOk(h) && CountsOk(h)
  }

  // ---- Sums -----------------------------------------------------------------

  lemma TakeOut(m: map<int, int>, k: int, v: int, j: int)
    requires k !in m && j in m
    ensures m[k := v] - {j} == (m - {j})[k := v] && (m - {j})[j := m[j]] == m && |m - {j}| < |m|
  {
    assert m.Keys == (m - {j}).Keys + {j};
  }

  lemma {:induction false} SumAdd(m: map<int, int>, k: int, v: int)
    requires k !in m
    ensures Sum(m[k := v]) == Sum(m) + v + HEADER
    decreases |m|
  {
    var m' := m[k := v];
    assert k in m';
    var j := Pick(m');
    assert Sum(m') == m'[j] + HEADER + Sum(m' - {j});
    hide Sum, Pick;
    if j == k {
      assert m' - {k} == m;
    } else {
      TakeOut(m, k, v, j);
      SumAdd(m - {j}, k, v);
      SumAdd(m - {j}, j, m[j]);
    }
  }

  lemma SumDrop(m: map<int, int>, k: int)
    requires k in m
    ensures Sum(m - {k}) == Sum(m) - m[k] - HEADER
  {
    SumAdd(m - {k}, k, m[k]);
    assert (m - {k})[k := m[k]] == m;
  }

  lemma Words(a: int, b: int)
    requires a % 4 == 0 && b % 4 == 0
    ensures (a + b) % 4 == 0 && (a - b) % 4 == 0
  {
  }

  // ---- Granting a region keeps the invariant ----------------------------------

  lemma GrantRegions(h: Heap, k: nat, need: int)
    requires k < |h.free|
    ensures Regions(Grant(h, k, need).free) == Carve(Regions(h.free), k, Taken(h.free[k].region.size, need))
  {
    var g, l, n := Grant(h, k, need), Regions(h.free), Taken(h.free[k].region.size, need);
    var m := Regions(g.free);
    hide Regions, Taken;
    if n == l[k].size {
      assert forall i :: 0 <= i < |m| ==> m[i] == l[if i < k then i else i + 1];
    } else {
      assert forall i :: 0 <= i < |m| ==> m[i] == if i == k then Interval(l[k].base + n, l[k].size - n) else l[i];
    }
  }

  lemma GrantStructs(h: Heap, k: nat, need: int)
    requires k < |h.free|
    ensures Structs(Grant(h, k, need)) == Structs(h)
  {
    var g := Grant(h, k, need);
    var ats := Addresses(h.free);
    assert ats == ats[..k] + [ats[k]] + ats[k + 1..];
    if Taken(h.free[k].region.size, need) == h.free[k].region.size {
      assert Addresses(g.free) == ats[..k] + ats[k + 1..];
    } else {
      assert Addresses(g.free) == ats;
    }
  }

  lemma GrantRegionsOk(h: Heap, k: nat, need: int)
    requires RegionsOk(h) && k < |h.free|
    requires need % 4 == 0 && 0 < need <= h.free[k].region.size
    ensures RegionsOk(Grant(h, k, need))
  {
    var g := Grant(h, k, need);
    var r := h.free[k].region;
    var n := Taken(r.size, need);
    assert RegionOk(h, r);
    GrantRegions(h, k, need);
    CarveGapped(Regions(h.free), k, n);
    Words(r.base, n);
    Words(r.size, n);
    hide Gapped, Carve, Regions;
    forall i | 0 <= i < |g.free| ensures RegionOk(g, g.free[i].region) {
      var j := if n == r.size && i >= k then i + 1 else i;
      assert RegionOk(h, h.free[j].region);
    }
  }

  lemma GrantBlocksOk(h: Heap, k: nat, need: int)
    requires RegionsOk(h) && BlocksOk(h) && k < |h.free|
    requires need % 4 == 0 && PAGE_STRUCT + HEADER <= need <= h.free[k].region.size
    ensures h.free[k].region.base !in h.blocks
    ensures BlocksOk(Grant(h, k, need))
  {
    var g := Grant(h, k, need);
    var r := h.free[k].region;
    var n := Taken(r.size, need);
    var l := Regions(h.free);
    assert RegionOk(h, r);
    GrantRegions(h, k, need);
    forall a | a in h.blocks
      ensures a != r.base && Apart(Extent(h, a), Interval(r.base, n)) && AllApart(Carve(l, k, n), Extent(h, a))
    {
      assert BlockOk(h, a) && AllApart(l, Extent(h, a));
      CarveApart(l, k, n, Extent(h, a));
    }
    assert Positive(l) by {
      forall i | 0 <= i < |l| ensures l[i].size > 0 { assert RegionOk(h, h.free[i].region); }
    }
    CarvedIsApart(l, k, n);
    hide Gapped, Carve, Positive, RegionsOk;
    assert Extent(g, r.base) == Interval(r.base, n);
    forall a | a in g.blocks ensures BlockOk(g, a) && AllApart(Regions(g.free), Extent(g, a)) {
      if a != r.base { assert BlockOk(h, a) && Extent(g, a) == Extent(h, a); }
    }
    forall a, b | a in g.blocks && b in g.blocks && a != b ensures Apart(Extent(g, a), Extent(g, b)) {
      if a != r.base && b != r.base {
        assert Extent(g, a) == Extent(h, a) && Extent(g, b) == Extent(h, b);
      } else if a != r.base {
        assert Extent(g, a) == Extent(h, a);
      } else {
        assert Extent(g, b) == Extent(h, b);
      }
    }
  }

  lemma GrantKeeps(h: Heap, k: nat, need: int)
    requires Valid(h) && k < |h.free|
    requires need % 4 == 0 && PAGE_STRUCT + HEADER <= need <= h.free[k].region.size
    ensures Valid(Grant(h, k, need))
    ensures h.free[k].region.base !in h.blocks
  {
    GrantRegionsOk(h, k, need);
    GrantBlocksOk(h, k, need);
    GrantStructs(h, k, need);
    GrantCounts(h, k, need);
  }

  lemma GrantCounts(h: Heap, k: nat, need: int)
    requires CountsOk(h) && k < |h.free| && h.free[k].region.base !in h.blocks
    ensures CountsOk(Grant(h, k, need))
  {
    var g := Grant(h, k, need);
    var r := h.free[k].region;
    var n := Taken(r.size, need);
    GrantRegions(h, k, need);
    GrantStructs(h, k, need);
    CarveTotal(Regions(h.free), k, n);
    hide Sum, Total, Gapped, Carve;
    assert r.base !in h.anchors;
    assert g.blocks - g.anchors == (h.blocks - h.anchors)[r.base := n - HEADER];
    SumAdd(h.blocks - h.anchors, r.base, n - HEADER);
  }

  // ---- Growth keeps the invariant ---------------------------------------------

  lemma StretchKeeps(g: Heap, bytes: int, loc: int)
    requires Valid(g) && loc >= g.end && loc % 4 == 0 && bytes >= 0 && bytes % 4 == 0
    ensures Valid(Stretched(g, bytes, loc))
  {
    var s := Stretched(g, bytes, loc);
    Words(loc, bytes);
    hide Sum, Total, Gapped, Regions, Addresses, AllApart;
    assert RegionsOk(s) by {
      forall i | 0 <= i < |s.free| ensures RegionOk(s, s.free[i].region) {
        assert RegionOk(g, g.free[i].region);
      }
    }
    assert BlocksOk(s) by { StretchBlocks(g, bytes, loc); }
    assert Structs(s) == Structs(g);
    hide Structs;
    assert NodesOk(s) && CountsOk(s);
  }

  lemma StretchBlocks(g: Heap, bytes: int, loc: int)
    requires BlocksOk(g) && loc >= g.end && bytes >= 0
    ensures BlocksOk(Stretched(g, bytes, loc))
  {
    var s := Stretched(g, bytes, loc);
    hide Regions, AllApart;
    forall a | a in s.blocks ensures BlockOk(s, a) && AllApart(Regions(s.free), Extent(s, a)) {
      assert BlockOk(g, a) && Extent(g, a) == Extent(s, a);
    }
    forall a, b | a in s.blocks && b in s.blocks && a != b ensures Apart(Extent(s, a), Extent(s, b)) {
      assert Apart(Extent(g, a), Extent(g, b));
    }
  }

  lemma LengthenRegions(g: Heap, bytes: int, loc: int)
    requires RegionsOk(g) && loc >= g.end && bytes >= 0 && bytes % 4 == 0
    requires g.free != [] && g.free[|g.free| - 1].region.End() == loc
    ensures RegionsOk(Lengthened(g, bytes, loc))
    ensures Total(Regions(Lengthened(g, bytes, loc).free)) == Total(Regions(g.free)) + bytes
  {
    var last := |g.free| - 1;
    var r := g.free[last].region;
    var s := Lengthened(g, bytes, loc);
    ExtendLast(Regions(g.free), bytes);
    assert Regions(s.free) == Regions(g.free)[last := Interval(r.base, r.size + bytes)];
    assert RegionOk(g, r);
    Words(r.size, bytes);
    hide Gapped, Total, Regions;
    forall i | 0 <= i < |s.free| ensures RegionOk(s, s.free[i].region) {
      assert RegionOk(g, g.free[i].region);
    }
  }

  lemma LengthenBlocks(g: Heap, bytes: int, loc: int)
    requires BlocksOk(g) && loc >= g.end && bytes >= 0
    requires g.free != [] && g.free[|g.free| - 1].region.End() == loc
    ensures BlocksOk(Lengthened(g, bytes, loc))
  {
    var s := Lengthened(g, bytes, loc);
    forall a | a in s.blocks ensures BlockOk(s, a) && AllApart(Regions(s.free), Extent(s, a)) {
      assert BlockOk(g, a) && Extent(g, a) == Extent(s, a);
      forall i | 0 <= i < |s.free| ensures Apart(Regions(s.free)[i], Extent(s, a)) {
        assert Apart(Regions(g.free)[i], Extent(g, a));
      }
    }
    forall a, b | a in s.blocks && b in s.blocks && a != b ensures Apart(Extent(s, a), Extent(s, b)) {
      assert Apart(Extent(g, a), Extent(g, b));
    }
  }

  lemma LengthenKeeps(g: Heap, bytes: int, loc: int)
    requires Valid(g) && loc >= g.end && bytes >= 0 && bytes % 4 == 0
    requires g.free != [] && g.free[|g.free| - 1].region.End() == loc
    ensures Valid(Lengthened(g, bytes, loc))
  {
    assert RegionOk(g, g.free[|g.free| - 1].region);
    hide Sum, Total, Gapped, Regions, RegionsOk, BlocksOk;
    var s := Lengthened(g, bytes, loc);
    LengthenRegions(g, bytes, loc);
    LengthenBlocks(g, bytes, loc);
    assert Structs(s) == Structs(g) by { assert Addresses(s.free) == Addresses(g.free); }
    LengthenCounts(g, s, bytes);
    EndAligned(g.free[|g.free| - 1].region, bytes);
    assert s.end == loc + bytes;
    hide Structs, Lengthened, NodesOk, CountsOk;
  }

  lemma LengthenCounts(g: Heap, s: Heap, bytes: int)
    requires NodesOk(g) && CountsOk(g) && Structs(s) == Structs(g) && s.blocks == g.blocks && s.anchors == g.anchors
    requires s.used == g.used && s.lost == g.lost && s.total == g.total + bytes
    requires Total(Regions(s.free)) == Total(Regions(g.free)) + bytes
    ensures NodesOk(s) && CountsOk(s)
  {
    hide Structs, Total, Regions, Sum;
  }

  lemma EndAligned(r: Interval, bytes: int)
    requires r.base % 4 == 0 && r.size % 4 == 0 && bytes % 4 == 0
    ensures (r.End() + bytes) % 4 == 0
  {
    Words(r.base, r.size);
    Words(r.End(), bytes);
  }

  lemma AnchorRegions(g: Heap, bytes: int, loc: int)
    requires RegionsOk(g) && loc >= g.end && loc % 4 == 0 && bytes % 4 == 0 && bytes > HEADER + NODE
    ensures RegionsOk(Anchored(g, bytes, loc))
    ensures Total(Regions(Anchored(g, bytes, loc).free)) == Total(Regions(g.free)) + bytes - HEADER - NODE
  {
    var s := Anchored(g, bytes, loc);
    var x := Interval(loc + HEADER + NODE, bytes - HEADER - NODE);
    assert Regions(s.free) == Regions(g.free) + [x];
    if g.free != [] { assert RegionOk(g, g.free[|g.free| - 1].region); }
    AppendGapped(Regions(g.free), x);
    hide Gapped, Total, Regions;
    assert RegionOk(s, x);
    forall i | 0 <= i < |s.free| ensures RegionOk(s, s.free[i].region) {
      if i < |g.free| { assert RegionOk(g, g.free[i].region); }
    }
  }

  /** The anchor lies above everything there was. */
  lemma AnchorApart(g: Heap, bytes: int, loc: int, a: int)
    requires RegionsOk(g) && BlocksOk(g) && loc >= g.end && bytes > HEADER + NODE && a in Anchored(g, bytes, loc).blocks
    ensures var s := Anchored(g, bytes, loc); AllApart(Regions(s.free), Extent(s, a))
  {
    hide Gapped;
    var s := Anchored(g, bytes, loc);
    if a != loc { assert BlockOk(g, a) && Extent(g, a) == Extent(s, a); }
    forall i | 0 <= i < |s.free| ensures Apart(Regions(s.free)[i], Extent(s, a)) {
      if i < |g.free| {
        assert RegionOk(g, g.free[i].region);
        if a != loc { assert Apart(Regions(g.free)[i], Extent(g, a)); }
      }
    }
  }

  lemma AnchorBlocks(g: Heap, bytes: int, loc: int)
    requires RegionsOk(g) && BlocksOk(g) && loc >= g.end && loc % 4 == 0 && bytes % 4 == 0 && bytes > HEADER + NODE
    ensures loc !in g.blocks
    ensures RegionsOk(Anchored(g, bytes, loc)) && BlocksOk(Anchored(g, bytes, loc))
    ensures Total(Regions(Anchored(g, bytes, loc).free)) == Total(Regions(g.free)) + bytes - HEADER - NODE
  {
    hide Gapped, Total, Regions, RegionsOk;
    var s := Anchored(g, bytes, loc);
    AnchorRegions(g, bytes, loc);
    forall a | a in g.blocks ensures a != loc && Extent(g, a) == Extent(s, a) && Extent(g, a).End() <= g.end {
      assert BlockOk(g, a);
    }
    forall a | a in s.blocks ensures BlockOk(s, a) && AllApart(Regions(s.free), Extent(s, a)) {
      if a != loc { assert BlockOk(g, a); }
      AnchorApart(g, bytes, loc, a);
    }
    forall a, b | a in s.blocks && b in s.blocks && a != b ensures Apart(Extent(s, a), Extent(s, b)) {
      if a != loc && b != loc { assert Apart(Extent(g, a), Extent(g, b)); }
    }
  }

  lemma AnchorStructs(g: Heap, bytes: int, loc: int)
    requires NodesOk(g) && loc !in g.blocks
    ensures Structs(Anchored(g, bytes, loc)) == Structs(g) + multiset{loc + HEADER}
    ensures NodesOk(Anchored(g, bytes, loc))
  {
    var s, x := Anchored(g, bytes, loc), loc + HEADER;
    assert Addresses(s.free) == Addresses(g.free) + [x];
    assert x !in Structs(g) by { assert x - HEADER == loc; }
    assert Structs(s) == Structs(g) + multiset{x} by {
      NewNode(Addresses(g.free), g.spare, x);
      hide Addresses;
    }
    assert s.blocks == g.blocks[loc := NODE];
    hide Structs, Anchored;
    forall y | y in Structs(s) ensures Structs(s)[y] == 1 && y - HEADER in s.blocks {
      if y != x { assert y in Structs(g); }
    }
  }

  lemma NewNode(ats: seq<int>, spare: seq<int>, x: int)
    ensures multiset(ats + [x]) + multiset(spare) == multiset(ats) + multiset(spare) + multiset{x}
  {
  }

  lemma AnchorUncounted(blocks: map<int, int>, anchors: set<int>, loc: int)
    requires loc !in blocks
    ensures blocks[loc := NODE] - (anchors + {loc}) == blocks - anchors
  {
  }

  lemma AnchorListed(g: Heap, s: Heap, loc: int)
    requires CountsOk(g) && loc !in g.blocks && s.blocks == g.blocks[loc := NODE] && s.anchors == g.anchors + {loc}
    requires Structs(s) == Structs(g) + multiset{loc + HEADER}
    ensures |s.anchors| == |g.anchors| + 1
    ensures forall a :: a in s.anchors ==> a in s.blocks && s.blocks[a] == NODE && a + HEADER in Structs(s)
  {
    hide Structs, Sum, Total, Regions;
    assert loc !in g.anchors;
    forall a | a in s.anchors ensures a in s.blocks && s.blocks[a] == NODE && a + HEADER in Structs(s) {
      if a != loc { assert a in g.anchors && a + HEADER in Structs(g); }
    }
  }

  lemma AnchorCounts(g: Heap, bytes: int, loc: int)
    requires NodesOk(g) && CountsOk(g) && loc !in g.blocks
    requires Total(Regions(Anchored(g, bytes, loc).free)) == Total(Regions(g.free)) + bytes - HEADER - NODE
    ensures CountsOk(Anchored(g, bytes, loc))
  {
    hide Sum, Total, Regions, Structs, NodesOk;
    var s := Anchored(g, bytes, loc);
    AnchorStructs(g, bytes, loc);
    AnchorListed(g, s, loc);
    AnchorUncounted(g.blocks, g.anchors, loc);
  }

  lemma AnchorKeeps(g: Heap, bytes: int, loc: int)
    requires Valid(g) && loc >= g.end && loc % 4 == 0 && bytes % 4 == 0 && bytes > HEADER + NODE
    ensures Valid(Anchored(g, bytes, loc))
  {
    hide RegionsOk, BlocksOk, NodesOk, CountsOk, Structs, Total, Regions;
    AnchorBlocks(g, bytes, loc);
    AnchorStructs(g, bytes, loc);
    AnchorCounts(g, bytes, loc);
    var s := Anchored(g, bytes, loc);
    assert s.end == loc + bytes;
    hide Anchored;
    Words(loc, bytes);
  }

  /** At least the minimum; and enough, unless the 32-bit sum wraps. */
  lemma PagesNeededEnough(h: Heap, need: int, walked: bool, s: Supply)
    requires need >= 0 && (walked ==> FirstFit(h.free, need) == |h.free|)
    ensures PagesNeeded(h, need, walked, s) * PAGE_SIZE >= MINIMUM_PAGES * PAGE_SIZE
    ensures PagesNeeded(h, need, walked, s) * PAGE_SIZE % 4 == 0
    ensures var room := if TailReaches(h, walked, s) then h.free[|h.free| - 1].region.size else 0;
            need + PAGE_STRUCT + NODE < WORD && room >= 0 ==>
              PagesNeeded(h, need, walked, s) * PAGE_SIZE >= need - room + PAGE_SIZE + HEADER + NODE
  {
    var room := if TailReaches(h, walked, s) then h.free[|h.free| - 1].region.size else 0;
    var sum := need + PAGE_STRUCT + NODE - room;
    assert sum >= 0;
    PagesOf(sum % WORD);
    if 0 <= sum < WORD { assert sum % WORD == sum; }
  }

  lemma PagesOf(sum: int)
    requires sum >= 0
    ensures (sum / PAGE_SIZE + MINIMUM_PAGES) * PAGE_SIZE >= sum + PAGE_SIZE + 1
    ensures (sum / PAGE_SIZE + MINIMUM_PAGES) * PAGE_SIZE >= MINIMUM_PAGES * PAGE_SIZE
    ensures (sum / PAGE_SIZE + MINIMUM_PAGES) * PAGE_SIZE % 4 == 0
  {
    var q := sum / PAGE_SIZE;
    assert (q + MINIMUM_PAGES) * PAGE_SIZE == 4 * (1024 * (q + MINIMUM_PAGES));
  }

  /** Allocating the page struct moves the last region's end only by using the region up. */
  lemma LastAfterGrant(h: Heap, k: nat, need: int)
    requires k < |h.free| && 0 < need <= h.free[k].region.size
    requires !(k == |h.free| - 1 && Taken(h.free[k].region.size, need) == h.free[k].region.size)
    ensures var g := Grant(h, k, need);
            g.free != [] && g.free[|g.free| - 1].region.End() == h.free[|h.free| - 1].region.End()
  {
  }

  lemma PreparedKeeps(h: Heap, s: Supply)
    requires Valid(h)
    requires s.newStruct ==> FirstFit(h.free, PAGE_STRUCT + HEADER) < |h.free|
    ensures Valid(Prepared(h, s)) && Prepared(h, s).end == h.end
    ensures h.free != [] && !TailUsedUp(h, s) ==>
              var g := Prepared(h, s);
              g.free != [] && g.free[|g.free| - 1].region.End() == h.free[|h.free| - 1].region.End()
  {
    if s.newStruct {
      var k := FirstFit(h.free, PAGE_STRUCT + HEADER);
      assert Grant(h, k, PAGE_STRUCT + HEADER).end == h.end;
      hide Valid, Grant, Taken;
      GrantKeeps(h, k, PAGE_STRUCT + HEADER);
      if h.free != [] && !TailUsedUp(h, s) { LastAfterGrant(h, k, PAGE_STRUCT + HEADER); }
    }
  }

  lemma AttachKeeps(g: Heap, bytes: int, loc: int, reaches: bool, usedUp: bool)
    requires Valid(g) && loc >= g.end && loc % 4 == 0 && bytes >= MINIMUM_PAGES * PAGE_SIZE && bytes % 4 == 0
    requires reaches && !usedUp && g.free != [] ==> g.free[|g.free| - 1].region.End() == loc
    ensures Valid(Attach(g, bytes, loc, reaches, usedUp))
  {
    if !reaches {
      AnchorKeeps(g, bytes, loc);
    } else if usedUp || g.free == [] {
      StretchKeeps(g, bytes, loc);
    } else {
      LengthenKeeps(g, bytes, loc);
    }
  }

  lemma LocOk(h: Heap, s: Supply)
    requires Valid(h)
    ensures Loc(h, s) >= h.end && Loc(h, s) % 4 == 0
  {
  }

  lemma GrowKeeps(h: Heap, need: int, walked: bool, s: Supply)
    requires Valid(h) && need >= 0
    requires s.newStruct ==> FirstFit(h.free, PAGE_STRUCT + HEADER) < |h.free|
    requires walked ==> FirstFit(h.free, need) == |h.free|
    ensures Valid(Grow(h, need, walked, s))
  {
    var g, bytes, loc := Prepared(h, s), PagesNeeded(h, need, walked, s) * PAGE_SIZE, Loc(h, s);
    var reaches, usedUp := TailReaches(h, walked, s), TailUsedUp(h, s);
    assert bytes >= MINIMUM_PAGES * PAGE_SIZE && bytes % 4 == 0 by {
      PagesNeededEnough(h, need, walked, s);
    }
    assert loc >= h.end && loc % 4 == 0 by {
      LocOk(h, s);
    }
    PreparedKeeps(h, s);
    AttachKeeps(g, bytes, loc, reaches, usedUp);
    assert Grow(h, need, walked, s) == Attach(g, bytes, loc, reaches, usedUp);
  }

  /** Nothing already allocated moves or changes size, and new nodes only appear in new blocks. */
  predicate Preserves(h: Heap, g: Heap) {
    && (forall a :: a in h.blocks ==> a in g.blocks && g.blocks[a] == h.blocks[a])
    && (forall x :: x in Structs(g) ==> x in Structs(h) || x - HEADER !in h.blocks)
  }

  lemma GrantPreserves(h: Heap, k: nat, need: int)
    requires Valid(h) && k < |h.free|
    requires need % 4 == 0 && PAGE_STRUCT + HEADER <= need <= h.free[k].region.size
    ensures Preserves(h, Grant(h, k, need))
    ensures h.free[k].region.base + HEADER !in Structs(Grant(h, k, need))
  {
    GrantBlocksOk(h, k, need);
    GrantStructs(h, k, need);
  }

  lemma SamePreserves(g: Heap, f: Heap)
    requires f.blocks == g.blocks && Structs(f) == Structs(g)
    ensures Preserves(g, f)
  {
  }

  lemma OneMorePreserves(g: Heap, f: Heap, loc: int)
    requires loc !in g.blocks && f.blocks == g.blocks[loc := NODE] && Structs(f) == Structs(g) + multiset{loc + HEADER}
    ensures Preserves(g, f)
  {
    hide Structs;
    forall x | x in Structs(f) ensures x in Structs(g) || x - HEADER !in g.blocks {
      if x !in Structs(g) { assert x == loc + HEADER; }
    }
  }

  lemma AttachPreserves(g: Heap, bytes: int, loc: int, reaches: bool, usedUp: bool)
    requires Valid(g) && loc >= g.end && loc % 4 == 0 && bytes >= MINIMUM_PAGES * PAGE_SIZE && bytes % 4 == 0
    ensures Preserves(g, Attach(g, bytes, loc, reaches, usedUp))
  {
    hide RegionsOk, BlocksOk, NodesOk, CountsOk, Preserves;
    var f := Attach(g, bytes, loc, reaches, usedUp);
    if !reaches {
      AnchorBlocks(g, bytes, loc);
      AnchorStructs(g, bytes, loc);
      OneMorePreserves(g, f, loc);
    } else if usedUp || g.free == [] {
      SamePreserves(g, f);
    } else {
      assert Addresses(f.free) == Addresses(g.free);
      SamePreserves(g, f);
    }
  }

  lemma PreservesTransitive(h: Heap, g: Heap, f: Heap)
    requires Preserves(h, g) && Preserves(g, f)
    ensures Preserves(h, f)
  {
  }

  lemma GrowPreserves(h: Heap, need: int, walked: bool, s: Supply)
    requires Valid(h) && need >= 0
    requires s.newStruct ==> FirstFit(h.free, PAGE_STRUCT + HEADER) < |h.free|
    requires walked ==> FirstFit(h.free, need) == |h.free|
    ensures Preserves(h, Grow(h, need, walked, s))
  {
    var g, bytes, loc := Prepared(h, s), PagesNeeded(h, need, walked, s) * PAGE_SIZE, Loc(h, s);
    var reaches, usedUp := TailReaches(h, walked, s), TailUsedUp(h, s);
    assert Grow(h, need, walked, s) == Attach(g, bytes, loc, reaches, usedUp);
    PreparedPreserves(h, s);
    hide Valid, Preserves, Attach, Grow, Prepared, TailReaches, TailUsedUp;
    PagesNeededEnough(h, need, walked, s);
    LocOk(h, s);
    PreparedKeeps(h, s);
    hide PagesNeeded, Loc;
    AttachPreserves(g, bytes, loc, reaches, usedUp);
    PreservesTransitive(h, g, Attach(g, bytes, loc, reaches, usedUp));
  }

  lemma PreparedPreserves(h: Heap, s: Supply)
    requires Valid(h) && (s.newStruct ==> FirstFit(h.free, PAGE_STRUCT + HEADER) < |h.free|)
    ensures Preserves(h, Prepared(h, s))
  {
    hide Valid, Preserves, Grant;
    if s.newStruct { GrantPreserves(h, FirstFit(h.free, PAGE_STRUCT + HEADER), PAGE_STRUCT + HEADER); } else { SamePreserves(h, h); }
  }

  /** What a successful allocation promises. */
  ghost predicate GrantedOk(h: Heap, need: int, g: Heap, a: int) {
    && Valid(g) && Preserves(h, g)
    && a % 4 == 0 && a !in h.blocks
    && a in g.blocks && g.blocks[a] >= need - HEADER
    && a + HEADER !in Structs(g)
  }

  lemma GrantBlock(h: Heap, k: nat, need: int)
    requires k < |h.free| && need <= h.free[k].region.size
    ensures var a, g := h.free[k].region.base, Grant(h, k, need); a in g.blocks && g.blocks[a] >= need - HEADER
  {
  }

  lemma FreeAligned(h: Heap, k: nat)
    requires Valid(h) && k < |h.free|
    ensures h.free[k].region.base % 4 == 0
  {
    hide BlocksOk, NodesOk, CountsOk, Gapped;
    assert RegionOk(h, h.free[k].region);
  }

  lemma GrantOk(h: Heap, k: nat, need: int)
    requires Valid(h) && k < |h.free|
    requires need % 4 == 0 && PAGE_STRUCT + HEADER <= need <= h.free[k].region.size
    ensures GrantedOk(h, need, Grant(h, k, need), h.free[k].region.base)
  {
    hide Valid, Preserves, Structs, Grant;
    GrantBlock(h, k, need);
    FreeAligned(h, k);
    GrantKeeps(h, k, need);
    GrantPreserves(h, k, need);
  }

  lemma GrantedThrough(h: Heap, g: Heap, need: int, f: Heap, a: int)
    requires Preserves(h, g) && GrantedOk(g, need, f, a)
    ensures GrantedOk(h, need, f, a)
  {
    PreservesTransitive(h, g, f);
    assert a in h.blocks ==> a in g.blocks;
    hide Valid, Structs;
  }

  /** An allocation that succeeds hands out a new, aligned, large enough block and keeps everything else. */
  lemma {:induction false} AllocateKeeps(h: Heap, need: int, reserved: bool, supplies: seq<Supply>)
    requires Valid(h) && need % 4 == 0 && need >= PAGE_STRUCT + HEADER
    ensures var out := Allocate(h, need, reserved, supplies); out.Granted? ==> GrantedOk(h, need, out.heap, out.block)
    decreases |supplies|
  {
    hide Valid, GrantedOk, Preserves, Grow, Grant;
    var walked := reserved || !Low(h, need);
    var k := FirstFit(h.free, need);
    if walked && k < |h.free| {
      GrantOk(h, k, need);
    } else if supplies != [] && !(supplies[0].newStruct && FirstFit(h.free, PAGE_STRUCT + HEADER) == |h.free|) {
      var g := Grow(h, need, walked, supplies[0]);
      GrowKeeps(h, need, walked, supplies[0]);
      AllocateKeeps(g, need, reserved, supplies[1..]);
      var out := Allocate(g, need, reserved, supplies[1..]);
      if out.Granted? {
        GrowPreserves(h, need, walked, supplies[0]);
        GrantedThrough(h, g, need, out.heap, out.block);
      }
    }
  }

  // ---- Freeing keeps the invariant --------------------------------------------

  lemma MergeNodeRegions(l: Lists, k: nat)
    ensures Regions(MergeNode(l, k).free) == MergeAt(Regions(l.free), k)
  {
  }

  lemma InsertNodeRegions(l: Lists, x: Node)
    ensures Regions(InsertNode(l, x).free) == Insert(Regions(l.free), x.region)
  {
    var r := Regions(l.free);
    var p := Position(r, x.region.base);
    var linked := Lists(l.free[..p] + [x] + l.free[p..], l.spare);
    assert Regions(linked.free) == r[..p] + [x.region] + r[p..];
    MergeNodeRegions(linked, p);
    if p > 0 { MergeNodeRegions(MergeNode(linked, p), p - 1); }
  }

  function Nodes(l: Lists): multiset<int> {
    multiset(Addresses(l.free)) + multiset(l.spare)
  }

  /** Merging moves a node from the free list to the spare list; none is lost or invented. */
  lemma MergeNodeNodes(l: Lists, k: nat)
    ensures Nodes(MergeNode(l, k)) == Nodes(l)
  {
    var m := MergeNode(l, k);
    if k + 1 < |l.free| && l.free[k].region.End() == l.free[k + 1].region.base {
      var a := Addresses(l.free);
      assert Addresses(m.free) == a[..k + 1] + a[k + 2..];
      assert a == a[..k + 1] + [a[k + 1]] + a[k + 2..];
    }
  }

  lemma NodesLinked(l: Lists, linked: Lists, a: seq<int>, p: nat, x: Node)
    requires a == Addresses(l.free) && p <= |a| && linked.spare == l.spare
    requires Addresses(linked.free) == a[..p] + [x.at] + a[p..]
    ensures Nodes(linked) == Nodes(l) + multiset{x.at}
  {
    hide Addresses;
    assert a == a[..p] + a[p..];
  }

  lemma InsertNodeNodes(l: Lists, x: Node)
    ensures Nodes(InsertNode(l, x)) == Nodes(l) + multiset{x.at}
  {
    hide Nodes, MergeNode, Regions;
    var p := Position(Regions(l.free), x.region.base);
    var a := Addresses(l.free);
    var linked := Lists(l.free[..p] + [x] + l.free[p..], l.spare);
    assert Addresses(linked.free) == a[..p] + [x.at] + a[p..];
    assert a == a[..p] + a[p..];
    assert Nodes(linked) == Nodes(l) + multiset{x.at} by { NodesLinked(l, linked, a, p, x); }
    MergeNodeNodes(linked, p);
    if p > 0 { MergeNodeNodes(MergeNode(linked, p), p - 1); }
  }

  predicate AllRegionsOk(h: Heap, l: seq<Interval>) {
    forall i :: 0 <= i < |l| ==> RegionOk(h, l[i])
  }

  lemma JoinRegionsOk(h: Heap, a: Interval, r: seq<Interval>)
    requires RegionOk(h, a) && AllRegionsOk(h, r)
    ensures AllRegionsOk(h, Join(a, r))
  {
    var j := Join(a, r);
    if r != [] && a.End() == r[0].base {
      assert RegionOk(h, r[0]);
      Words(a.size, r[0].size);
      assert RegionOk(h, j[0]);
      forall i | 0 <= i < |j| ensures RegionOk(h, j[i]) {
        if i > 0 { assert j[i] == r[i]; }
      }
    } else {
      forall i | 0 <= i < |j| ensures RegionOk(h, j[i]) {
        if i > 0 { assert j[i] == r[i - 1]; }
      }
    }
  }

  lemma {:induction false} InsertRegionsOk(h: Heap, l: seq<Interval>, x: Interval)
    requires Gapped(l) && AllRegionsOk(h, l) && RegionOk(h, x)
    ensures AllRegionsOk(h, Insert(l, x))
  {
    if l == [] || l[0].base >= x.base {
      InsertFront(l, x);
      JoinRegionsOk(h, x, l);
    } else {
      InsertLater(l, x);
      InsertRegionsOk(h, l[1..], x);
      JoinRegionsOk(h, l[0], Insert(l[1..], x));
    }
  }

  /** A block its owner may free: one that holds no list node. */
  predicate Freeable(h: Heap, a: int) { a in h.blocks && a + HEADER !in Structs(h) }

  /** The heap after freeing a block, described without mentioning how the lists were relinked. */
  predicate Freed(h: Heap, a: int, g: Heap)
    requires a in h.blocks
  {
    && Regions(g.free) == Insert(Regions(h.free), Extent(h, a))
    && Structs(g) == Structs(h) && |g.spare| >= |h.spare| - 1
    && g.blocks == h.blocks - {a} && g.anchors == h.anchors
    && g.used == h.used - h.blocks[a] - HEADER && g.total == h.total && g.end == h.end && g.lost == h.lost
  }

  lemma ReleaseFreed(h: Heap, a: int)
    requires a in h.blocks && h.spare != []
    ensures Freed(h, a, Release(h, a))
  {
    var l := Lists(h.free, h.spare[1..]);
    var x := Node(h.spare[0], Interval(a, h.blocks[a] + HEADER));
    assert h.spare == [h.spare[0]] + h.spare[1..];
    assert |InsertNode(l, x).spare| >= |l.spare|;
    hide InsertNode, Insert, Regions, Addresses;
    InsertNodeNodes(l, x);
    InsertNodeRegions(l, x);
  }

  lemma ExtentOk(h: Heap, a: int)
    requires a in h.blocks && BlockOk(h, a)
    ensures RegionOk(h, Extent(h, a))
  {
    Words(h.blocks[a], HEADER);
  }

  lemma FreedRegions(h: Heap, a: int, g: Heap)
    requires RegionsOk(h) && BlocksOk(h) && a in h.blocks && Freed(h, a, g)
    ensures RegionsOk(g)
  {
    var l, x := Regions(h.free), Extent(h, a);
    assert BlockOk(h, a) && AllApart(l, x);
    ExtentOk(h, a);
    hide BlocksOk, Insert, Gapped, Regions;
    InsertGapped(l, x);
    InsertRegionsOk(h, l, x);
    forall i | 0 <= i < |g.free| ensures RegionOk(g, g.free[i].region) {
      assert RegionOk(h, Insert(l, x)[i]);
    }
  }

  lemma FreedBlocks(h: Heap, a: int, g: Heap)
    requires RegionsOk(h) && BlocksOk(h) && a in h.blocks && Freed(h, a, g)
    ensures BlocksOk(g)
  {
    var l, x := Regions(h.free), Extent(h, a);
    assert BlockOk(h, a) && AllApart(l, x);
    forall b | b in g.blocks ensures BlockOk(g, b) && AllApart(Regions(g.free), Extent(g, b)) {
      assert BlockOk(h, b) && Extent(h, b) == Extent(g, b) && AllApart(l, Extent(h, b));
      InsertApart(l, x, Extent(h, b));
    }
    forall b, c | b in g.blocks && c in g.blocks && b != c ensures Apart(Extent(g, b), Extent(g, c)) {
      assert Apart(Extent(h, b), Extent(h, c));
    }
  }

  lemma FreedCounts(h: Heap, a: int, g: Heap)
    requires RegionsOk(h) && CountsOk(h) && Freeable(h, a) && Freed(h, a, g)
    ensures CountsOk(g)
  {
    assert a !in h.anchors;
    assert Total(Regions(g.free)) == Total(Regions(h.free)) + h.blocks[a] + HEADER by {
      InsertTotal(Regions(h.free), Extent(h, a));
    }
    assert g.used == Sum(g.blocks - g.anchors) by {
      assert g.blocks - g.anchors == (h.blocks - h.anchors) - {a};
      SumDrop(h.blocks - h.anchors, a);
    }
  }

  lemma FreedKeeps(h: Heap, a: int, g: Heap)
    requires Valid(h) && Freeable(h, a) && Freed(h, a, g)
    ensures Valid(g)
  {
    assert RegionsOk(g) by { FreedRegions(h, a, g); }
    assert BlocksOk(g) by { FreedBlocks(h, a, g); }
    assert CountsOk(g) by { FreedCounts(h, a, g); }
  }

  /** Adding a freshly allocated node to the spare list. */
  lemma StockKeeps(g: Heap, block: int)
    requires Valid(g) && block in g.blocks && block + HEADER !in Structs(g)
    ensures Valid(g.(spare := [block + HEADER] + g.spare))
    ensures Structs(g.(spare := [block + HEADER] + g.spare)) == Structs(g) + multiset{block + HEADER}
  {
    hide Sum, Total, Gapped, Regions, Addresses;
    var s := g.(spare := [block + HEADER] + g.spare);
    assert Structs(s) == Structs(g) + multiset{block + HEADER};
    forall a | a in s.blocks ensures BlockOk(s, a) && AllApart(Regions(s.free), Extent(s, a)) {
      assert BlockOk(g, a) && Extent(g, a) == Extent(s, a);
    }
    forall a, b | a in s.blocks && b in s.blocks && a != b ensures Apart(Extent(s, a), Extent(s, b)) {
      assert Apart(Extent(g, a), Extent(g, b));
    }
    forall i | 0 <= i < |s.free| ensures RegionOk(s, s.free[i].region) {
      assert RegionOk(g, g.free[i].region);
    }
  }

  lemma FreeWithNewNode(h: Heap, a: int, g: Heap, block: int)
    requires Freeable(h, a) && GrantedOk(h, Needed(NODE), g, block)
    ensures a in g.blocks
    ensures var f := Release(g.(spare := [block + HEADER] + g.spare), a); Valid(f) && a !in f.blocks
  {
    var s := g.(spare := [block + HEADER] + g.spare);
    assert a in g.blocks && a != block && a + HEADER !in Structs(g);
    StockKeeps(g, block);
    assert Freeable(s, a);
    ReleaseFreed(s, a);
    FreedKeeps(s, a, Release(s, a));
  }

  /** Freeing keeps the heap valid, whether or not a node had to be allocated for it first. */
  lemma FreeKeeps(h: Heap, a: int, supplies: seq<Supply>)
    requires Valid(h) && Freeable(h, a)
    ensures var out := Free(h, a, supplies); out.Granted? ==> Valid(out.heap) && a !in out.heap.blocks
  {
    hide Valid, GrantedOk, InsertNode, Insert, Structs, Regions, Allocate;
    if h.spare != [] {
      var g := Release(h, a);
      assert Freed(h, a, g) by { ReleaseFreed(h, a); }
      FreedKeeps(h, a, g);
    } else {
      var out := Allocate(h, Needed(NODE), true, supplies);
      if out.Granted? {
        assert GrantedOk(h, Needed(NODE), out.heap, out.block) by { AllocateKeeps(h, Needed(NODE), true, supplies); }
        FreeWithNewNode(h, a, out.heap, out.block);
      }
    }
  }

  // ---- Canonical form and round trips -------------------------------------------

  /** Two heaps with the same free bytes have the same free list. */
  lemma FreeListIsCanonical(h: Heap, g: Heap)
    requires RegionsOk(h) && RegionsOk(g)
    requires forall y :: Covers(Regions(h.free), y) <==> Covers(Regions(g.free), y)
    ensures Regions(h.free) == Regions(g.free)
  {
    AllPositive(h);
    AllPositive(g);
    Canonical(Regions(h.free), Regions(g.free));
  }

  lemma AllPositive(h: Heap)
    requires RegionsOk(h)
    ensures Positive(Regions(h.free))
  {
    forall i | 0 <= i < |h.free| ensures Regions(h.free)[i].size > 0 {
      assert RegionOk(h, h.free[i].region);
    }
  }

  lemma RoundTripCovers(h: Heap, k: nat, need: int, f: Heap, y: int)
    requires RegionsOk(h) && BlocksOk(h) && k < |h.free|
    requires need % 4 == 0 && PAGE_STRUCT + HEADER <= need <= h.free[k].region.size
    requires Freed(Grant(h, k, need), h.free[k].region.base, f)
    ensures Covers(Regions(f.free), y) <==> Covers(Regions(h.free), y)
  {
    var r := h.free[k].region;
    var a, n, g := r.base, Taken(r.size, need), Grant(h, k, need);
    GrantRegionsOk(h, k, need);
    GrantBlocksOk(h, k, need);
    assert Extent(g, a) == Interval(a, n);
    assert AllApart(Regions(g.free), Extent(g, a));
    InsertCovers(Regions(g.free), Extent(g, a), y);
    GrantRegions(h, k, need);
    CarveCovers(Regions(h.free), k, n, y);
    if Interval(a, n).Has(y) { CoversAt(Regions(h.free), k, y); }
  }

  /** Allocating without growth and then freeing, in any way that frees exactly that block, restores the regions, the
      blocks, the nodes and the counters. */
  lemma RoundTrip(h: Heap, k: nat, need: int, f: Heap)
    requires RegionsOk(h) && BlocksOk(h) && k < |h.free|
    requires need % 4 == 0 && PAGE_STRUCT + HEADER <= need <= h.free[k].region.size
    requires Freed(Grant(h, k, need), h.free[k].region.base, f)
    ensures Regions(f.free) == Regions(h.free) && f.blocks == h.blocks && Structs(f) == Structs(h)
    ensures f.used == h.used && f.total == h.total && f.lost == h.lost
  {
    var a, g := h.free[k].region.base, Grant(h, k, need);
    assert RegionsOk(f) && a !in h.blocks by {
      GrantRegionsOk(h, k, need);
      GrantBlocksOk(h, k, need);
      FreedRegions(g, a, f);
    }
    forall y ensures Covers(Regions(f.free), y) <==> Covers(Regions(h.free), y) {
      RoundTripCovers(h, k, need, f, y);
    }
    FreeListIsCanonical(f, h);
    assert f.blocks == h.blocks;
    GrantStructs(h, k, need);
  }

  /** `kfree(kmalloc(n))` without growth changes nothing but which node describes which region. A spare node has to be
      there beforehand only when the allocation does not itself leave one. */
  lemma FreeUndoesMalloc(h: Heap, size: nat, reserved: bool, supplies: seq<Supply>)
    requires Valid(h) && 0 < size <= 0xFFFF_FFF4
    requires reserved || !Low(h, Needed(size))
    requires var k := FirstFit(h.free, Needed(size));
             k < |h.free| && (h.spare != [] || Needed(size) + HEADER >= h.free[k].region.size)
    ensures var out := Allocate(h, Needed(size), reserved, supplies);
            && out.Granted? && out.rest == supplies && out.block in out.heap.blocks
            && var back := Free(out.heap, out.block, supplies);
               && back.Granted? && back.rest == supplies
               && Regions(back.heap.free) == Regions(h.free) && back.heap.blocks == h.blocks
               && Structs(back.heap) == Structs(h) && back.heap.used == h.used && back.heap.total == h.total
  {
    var need := Needed(size);
    NeededShape(size);
    var k := FirstFit(h.free, need);
    var g := Grant(h, k, need);
    assert g.spare != [];
    ReleaseFreed(g, h.free[k].region.base);
    RoundTrip(h, k, need, Release(g, h.free[k].region.base));
  }

  /** Distinct blocks that their owners may free. */
  predicate Batch(h: Heap, order: seq<int>) {
    && (forall i :: 0 <= i < |order| ==> Freeable(h, order[i]))
    && (forall i, j :: 0 <= i < j < |order| ==> order[i] != order[j])
  }

  /** Every free of the batch finds a spare node when its turn comes. */
  predicate SparesLast(h: Heap, order: seq<int>)
    decreases |order|
  {
    order == [] || (order[0] in h.blocks && h.spare != [] && SparesLast(Release(h, order[0]), order[1..]))
  }

  predicate Releasable(h: Heap, order: seq<int>) { Batch(h, order) && SparesLast(h, order) }

  lemma BatchNext(h: Heap, order: seq<int>)
    requires Batch(h, order) && order != [] && h.spare != []
    ensures order[0] in h.blocks && Batch(Release(h, order[0]), order[1..])
  {
    assert Freeable(h, order[0]);
    ReleaseFreed(h, order[0]);
    var g := Release(h, order[0]);
    forall i | 0 <= i < |order| - 1 ensures Freeable(g, order[1..][i]) {
      assert Freeable(h, order[i + 1]);
    }
  }

  lemma ReleasableNext(h: Heap, order: seq<int>)
    requires Releasable(h, order) && order != []
    ensures order[0] in h.blocks && h.spare != []
    ensures Releasable(Release(h, order[0]), order[1..])
  {
    BatchNext(h, order);
  }

  /** As many spare nodes as blocks are enough; merging hands nodes back, so fewer can be enough too. */
  lemma {:induction false} EnoughSpares(h: Heap, order: seq<int>)
    requires Batch(h, order) && |h.spare| >= |order|
    ensures Releasable(h, order)
    decreases |order|
  {
    if order != [] {
      BatchNext(h, order);
      ReleaseFreed(h, order[0]);
      EnoughSpares(Release(h, order[0]), order[1..]);
    }
  }

  function ReleaseAll(h: Heap, order: seq<int>): Heap
    requires Releasable(h, order)
    decreases |order|
  {
    if order == [] then h
    else
      ReleasableNext(h, order);
      ReleaseAll(Release(h, order[0]), order[1..])
  }

  /** A run of `kfree`. */
  function FreeAll(h: Heap, order: seq<int>, supplies: seq<Supply>): Outcome
    decreases |order|
  {
    if order == [] then Granted(h, 0, supplies)
    else if order[0] !in h.blocks then NoMemory
    else
      match Free(h, order[0], supplies)
      case Granted(g, _, rest) => FreeAll(g, order[1..], rest)
      case other => other
  }

  lemma {:induction false} FreeAllReleases(h: Heap, order: seq<int>, supplies: seq<Supply>)
    requires Releasable(h, order)
    ensures FreeAll(h, order, supplies) == Granted(ReleaseAll(h, order), 0, supplies)
    decreases |order|
  {
    if order != [] {
      ReleasableNext(h, order);
      FreeAllReleases(Release(h, order[0]), order[1..], supplies);
    }
  }

  predicate FreedByte(h: Heap, order: seq<int>, y: int) {
    exists i :: 0 <= i < |order| && order[i] in h.blocks && Extent(h, order[i]).Has(y)
  }

  lemma FreedByteStep(h: Heap, order: seq<int>, y: int)
    requires Releasable(h, order) && order != [] && order[0] in h.blocks
    ensures FreedByte(h, order, y) <==> Extent(h, order[0]).Has(y) || FreedByte(Release(h, order[0]), order[1..], y)
  {
    var g := Release(h, order[0]);
    if FreedByte(h, order, y) && !Extent(h, order[0]).Has(y) {
      var i :| 0 <= i < |order| && order[i] in h.blocks && Extent(h, order[i]).Has(y);
      assert order[1..][i - 1] == order[i] && Extent(g, order[i]) == Extent(h, order[i]);
    }
    if FreedByte(g, order[1..], y) {
      var i :| 0 <= i < |order[1..]| && order[1..][i] in g.blocks && Extent(g, order[1..][i]).Has(y);
      assert order[i + 1] == order[1..][i] && Extent(g, order[i + 1]) == Extent(h, order[i + 1]);
    }
  }

  /** What freeing a batch does to the set of free bytes, whatever order it is done in. */
  lemma {:induction false} ReleaseAllFrees(h: Heap, order: seq<int>, y: int)
    requires Valid(h) && Releasable(h, order)
    ensures Valid(ReleaseAll(h, order))
    ensures Covers(Regions(ReleaseAll(h, order).free), y) <==> Covers(Regions(h.free), y) || FreedByte(h, order, y)
    decreases |order|
  {
    if order != [] {
      var a := order[0];
      assert Freeable(h, a);
      ReleaseFreed(h, a);
      FreedKeeps(h, a, Release(h, a));
      assert BlockOk(h, a) && AllApart(Regions(h.free), Extent(h, a));
      InsertCovers(Regions(h.free), Extent(h, a), y);
      ReleasableNext(h, order);
      ReleaseAllFrees(Release(h, a), order[1..], y);
      FreedByteStep(h, order, y);
    }
  }

  function Members(order: seq<int>): set<int> { set a | a in order }

  lemma MembersStep(m: map<int, int>, order: seq<int>)
    requires order != []
    ensures m - Members(order) == m - {order[0]} - Members(order[1..])
  {
    assert order == [order[0]] + order[1..];
    assert Members(order) == {order[0]} + Members(order[1..]);
  }

  lemma {:induction false} ReleaseAllBlocks(h: Heap, order: seq<int>)
    requires Releasable(h, order)
    ensures ReleaseAll(h, order).blocks == h.blocks - Members(order)
    ensures ReleaseAll(h, order).anchors == h.anchors
    decreases |order|
  {
    if order != [] {
      assert Freeable(h, order[0]);
      var g, rest := Release(h, order[0]), order[1..];
      assert Releasable(g, rest) by { ReleasableNext(h, order); }
      ReleaseAllBlocks(g, rest);
      MembersStep(h.blocks, order);
    }
  }

  /** The same free regions, the same blocks, the same count; which node describes which region may differ. */
  predicate SameHeap(g: Heap, f: Heap) {
    Regions(g.free) == Regions(f.free) && g.blocks == f.blocks && g.used == f.used
  }

  /** Freeing the same blocks in any two orders leaves the same heap, as long as every free finds a spare node. */
  lemma FreeOrderIrrelevant(h: Heap, order: seq<int>, other: seq<int>, supplies: seq<Supply>)
    requires Valid(h) && Releasable(h, order) && Releasable(h, other)
    requires forall a :: a in order <==> a in other
    ensures var x, y := FreeAll(h, order, supplies), FreeAll(h, other, supplies);
            x.Granted? && y.Granted? && x.rest == supplies && y.rest == supplies && SameHeap(x.heap, y.heap)
  {
    FreeAllReleases(h, order, supplies);
    FreeAllReleases(h, other, supplies);
    var g, f := ReleaseAll(h, order), ReleaseAll(h, other);
    hide FreeAll;
    assert RegionsOk(g) && RegionsOk(f) && g.used == Sum(g.blocks - g.anchors) && f.used == Sum(f.blocks - f.anchors) by {
      ReleaseAllFrees(h, order, 0);
      ReleaseAllFrees(h, other, 0);
    }
    forall y ensures Covers(Regions(g.free), y) <==> Covers(Regions(f.free), y) {
      assert FreedByte(h, order, y) <==> FreedByte(h, other, y) by { SameFreedBytes(h, order, other, y); }
      ReleaseAllFrees(h, order, y);
      ReleaseAllFrees(h, other, y);
    }
    FreeListIsCanonical(g, f);
    ReleaseAllBlocks(h, order);
    ReleaseAllBlocks(h, other);
    assert Members(order) == Members(other);
  }

  lemma SameFreedBytes(h: Heap, order: seq<int>, other: seq<int>, y: int)
    requires forall a :: a in order <==> a in other
    ensures FreedByte(h, order, y) <==> FreedByte(h, other, y)
  {
    if FreedByte(h, order, y) {
      var i :| 0 <= i < |order| && order[i] in h.blocks && Extent(h, order[i]).Has(y);
      assert order[i] in other;
    }
    if FreedByte(h, other, y) {
      var i :| 0 <= i < |other| && other[i] in h.blocks && Extent(h, other[i]).Has(y);
      assert other[i] in order;
    }
  }

  // ---- Growth is enough, and what it can lose -------------------------------------

  lemma FitsAt(f: seq<Node>, need: int, i: nat)
    requires i < |f| && f[i].region.size >= need
    ensures FirstFit(f, need) < |f|
  {
  }

  /** New pages end up in no list exactly when the search ended at a last region reaching them and the page struct
      then took the whole of that region. */
  lemma GrowthLosesExactlyWhen(h: Heap, need: int, walked: bool, s: Supply)
    requires Valid(h) && need >= 0
    requires s.newStruct ==> FirstFit(h.free, PAGE_STRUCT + HEADER) < |h.free|
    requires walked ==> FirstFit(h.free, need) == |h.free|
    ensures Grow(h, need, walked, s).lost > h.lost <==> TailReaches(h, walked, s) && TailUsedUp(h, s)
    ensures !(TailReaches(h, walked, s) && TailUsedUp(h, s)) ==> Grow(h, need, walked, s).lost == h.lost
  {
    PagesNeededEnough(h, need, walked, s);
    PreparedKeeps(h, s);
  }

  lemma PreparedSizes(h: Heap, s: Supply)
    requires s.newStruct ==> FirstFit(h.free, PAGE_STRUCT + HEADER) < |h.free|
    ensures h.used <= Prepared(h, s).used <= h.used + PAGE_STRUCT + 2 * HEADER
    ensures Prepared(h, s).total == h.total && Prepared(h, s).end == h.end
    ensures h.free != [] && !TailUsedUp(h, s) ==>
              var g := Prepared(h, s);
              g.free != [] && g.free[|g.free| - 1].region.size >= h.free[|h.free| - 1].region.size - PAGE_STRUCT - HEADER
  {
  }

  predicate LastSized(h: Heap) { h.free != [] ==> h.free[|h.free| - 1].region.size >= 0 }

  /** Unless the new pages were lost, the request fits after growth. */
  lemma GrowFits(h: Heap, need: int, walked: bool, s: Supply)
    requires 0 <= need && need + PAGE_STRUCT + NODE < WORD && LastSized(h)
    requires s.newStruct ==> FirstFit(h.free, PAGE_STRUCT + HEADER) < |h.free|
    requires walked ==> FirstFit(h.free, need) == |h.free|
    requires !(TailReaches(h, walked, s) && TailUsedUp(h, s))
    ensures FirstFit(Grow(h, need, walked, s).free, need) < |Grow(h, need, walked, s).free|
  {
    var g := Grow(h, need, walked, s);
    PagesNeededEnough(h, need, walked, s);
    PreparedSizes(h, s);
    assert g.free != [];
    FitsAt(g.free, need, |g.free| - 1);
  }

  lemma GrowSizes(h: Heap, need: int, walked: bool, s: Supply)
    requires 0 <= need && need + PAGE_STRUCT + NODE < WORD && LastSized(h)
    requires s.newStruct ==> FirstFit(h.free, PAGE_STRUCT + HEADER) < |h.free|
    requires walked ==> FirstFit(h.free, need) == |h.free|
    ensures var g := Grow(h, need, walked, s);
            && g.used <= h.used + PAGE_STRUCT + 2 * HEADER
            && g.total >= h.total + MINIMUM_PAGES * PAGE_SIZE
            && (!TailReaches(h, walked, s) ==> g.total >= h.total + need + PAGE_SIZE)
  {
    PagesNeededEnough(h, need, walked, s);
    PreparedSizes(h, s);
  }

  lemma UsedWithinTotal(h: Heap)
    requires Valid(h)
    ensures h.used <= h.total
  {
    TotalNonnegative(Regions(h.free));
  }

  predicate CanGrow(h: Heap, supplies: seq<Supply>) {
    && supplies != [] && !(supplies[0].newStruct && FirstFit(h.free, PAGE_STRUCT + HEADER) == |h.free|)
    && !supplies[0].several
  }

  /** After one growth that lost its pages, the list ends below the place where the next ones go. */
  lemma AfterLoss(h: Heap, need: int, s: Supply, s': Supply)
    requires Valid(h) && need >= 0 && FirstFit(h.free, need) == |h.free|
    requires s.newStruct ==> FirstFit(h.free, PAGE_STRUCT + HEADER) < |h.free|
    requires TailReaches(h, true, s) && TailUsedUp(h, s)
    ensures var g := Grow(h, need, true, s);
            FirstFit(g.free, need) == |g.free| && !TailReaches(g, true, s')
  {
    var g := Grow(h, need, true, s);
    PagesNeededEnough(h, need, true, s);
    var last := |h.free| - 1;
    assert g.free == h.free[..last];
    if g.free != [] { assert RegionOk(h, h.free[last - 1].region); }
  }

  /** One more run is enough once the pool has a page to spare, unless its pages could be lost. */
  lemma OneRunSuffices(g: Heap, need: int, reserved: bool, supplies: seq<Supply>)
    requires 0 <= need && need + PAGE_STRUCT + NODE < WORD && LastSized(g) && supplies != []
    requires var walked := reserved || !Low(g, need);
             || (walked && FirstFit(g.free, need) < |g.free|)
             || !TailReaches(g, walked, supplies[0])
    requires g.used + PAGE_STRUCT + 2 * HEADER + PAGE_SIZE <= g.total && g.total >= MINIMUM_PAGES * PAGE_SIZE
    ensures !Allocate(g, need, reserved, supplies).NoMemory?
  {
    var walked := reserved || !Low(g, need);
    if !(walked && FirstFit(g.free, need) < |g.free|) && CanGrow(g, supplies) {
      GrowSizes(g, need, walked, supplies[0]);
      GrowFits(g, need, walked, supplies[0]);
    }
  }

  /** Two runs from the page layer are always enough to satisfy a request, up to where the page count wraps. */
  lemma TwoRunsSuffice(h: Heap, need: int, reserved: bool, supplies: seq<Supply>)
    requires Valid(h) && 0 <= need && need + PAGE_STRUCT + NODE < WORD && |supplies| >= 2
    requires h.total >= 0
    ensures !Allocate(h, need, reserved, supplies).NoMemory?
  {
    var walked := reserved || !Low(h, need);
    var s, s' := supplies[0], supplies[1];
    if !(walked && FirstFit(h.free, need) < |h.free|) && CanGrow(h, supplies) {
      var g := Grow(h, need, walked, s);
      assert LastSized(h) by { if h.free != [] { assert RegionOk(h, h.free[|h.free| - 1].region); } }
      assert h.used <= h.total by { UsedWithinTotal(h); }
      GrowSizes(h, need, walked, s);
      if TailReaches(h, walked, s) && TailUsedUp(h, s) {
        AfterLoss(h, need, s, s');
      } else {
        GrowFits(h, need, walked, s);
      }
      assert LastSized(g) by {
        GrowKeeps(h, need, walked, s);
        if g.free != [] { assert RegionOk(g, g.free[|g.free| - 1].region); }
      }
      OneRunSuffices(g, need, reserved, supplies[1..]);
    }
  }

  // ---- Set-up and whole runs ----------------------------------------------------------

  /** The heap `init` lays out in its first page: a page struct, the first node, and the rest free. */
  function Initial(base: int): Heap {
    Heap([Node(base + 36, Interval(base + 48, PAGE_SIZE - 48))], [], map[base := PAGE_STRUCT, base + 28 := NODE], {},
         48, PAGE_SIZE, base + PAGE_SIZE, 0)
  }

  lemma InitialSum(base: int)
    ensures Sum(map[base := PAGE_STRUCT, base + 28 := NODE]) == 48
  {
    assert Sum(map[]) == 0;
    hide Sum;
    SumAdd(map[], base, PAGE_STRUCT);
    SumAdd(map[base := PAGE_STRUCT], base + 28, NODE);
    assert map[base := PAGE_STRUCT, base + 28 := NODE] == map[][base := PAGE_STRUCT][base + 28 := NODE];
  }

  lemma OneRegion(x: Interval)
    requires x.size >= 0
    ensures Gapped([x]) && Total([x]) == x.size
  {
    assert [x][1..] == [];
  }

  lemma InitialRegions(base: int)
    requires base % 4 == 0
    ensures RegionsOk(Initial(base)) && Total(Regions(Initial(base).free)) == PAGE_SIZE - 48
  {
    var x := Interval(base + 48, PAGE_SIZE - 48);
    OneRegion(x);
    hide Gapped, Total;
    assert Regions(Initial(base).free) == [x];
    assert RegionOk(Initial(base), x);
  }

  lemma InitialBlocks(base: int)
    requires base % 4 == 0
    ensures BlocksOk(Initial(base))
  {
    hide Regions;
    var h := Initial(base);
    assert Regions(h.free) == [Interval(base + 48, PAGE_SIZE - 48)];
    forall a | a in h.blocks ensures (a == base || a == base + 28) && BlockOk(h, a) && AllApart(Regions(h.free), Extent(h, a)) {
    }
  }

  lemma InitialNodes(base: int)
    ensures Structs(Initial(base)) == multiset{base + 36} && NodesOk(Initial(base))
  {
    assert Addresses(Initial(base).free) == [base + 36];
  }

  lemma PageAligned(base: int)
    requires base % PAGE_SIZE == 0
    ensures base % 4 == 0
  {
    var q := base / PAGE_SIZE;
    assert base == 4 * (1024 * q);
  }

  lemma InitialValid(base: int)
    requires base % PAGE_SIZE == 0
    ensures Valid(Initial(base))
  {
    var h := Initial(base);
    PageAligned(base);
    InitialRegions(base);
    InitialSum(base);
    InitialNodes(base);
    InitialBlocks(base);
    hide Sum, Total, Regions, Structs, RegionsOk, NodesOk, BlocksOk;
    assert h.blocks - h.anchors == h.blocks;
  }

  datatype Op = Malloc(size: nat, reserved: bool, supplies: seq<Supply>) | Kfree(a: int, supplies: seq<Supply>)

  /** Requests whose arithmetic fits 32 bits; frees of blocks that were handed out. */
  predicate Legal(h: Heap, op: Op) {
    match op
    case Malloc(size, _, _) => size <= 0xFFFF_FFF4
    case Kfree(a, _) => Freeable(h, a)
  }

  /** A request that cannot be met stops the machine, so the heap stays as it is. */
  function Do(h: Heap, op: Op): Heap
    requires Legal(h, op)
  {
    var out :=
      match op
      case Malloc(size, reserved, supplies) =>
        if size == 0 then Granted(h, 0, supplies) else Allocate(h, Needed(size), reserved, supplies)
      case Kfree(a, supplies) => Free(h, a, supplies);
    if out.Granted? then out.heap else h
  }

  lemma DoKeeps(h: Heap, op: Op)
    requires Valid(h) && Legal(h, op)
    ensures Valid(Do(h, op))
  {
    match op
    case Malloc(size, reserved, supplies) =>
      if size > 0 {
        NeededShape(size);
        AllocateKeeps(h, Needed(size), reserved, supplies);
      }
    case Kfree(a, supplies) => FreeKeeps(h, a, supplies);
  }

  predicate LegalRun(h: Heap, ops: seq<Op>)
    decreases |ops|
  {
    ops == [] || (Legal(h, ops[0]) && LegalRun(Do(h, ops[0]), ops[1..]))
  }

  function After(h: Heap, ops: seq<Op>): Heap
    requires LegalRun(h, ops)
    decreases |ops|
  {
    if ops == [] then h else After(Do(h, ops[0]), ops[1..])
  }

  lemma {:induction false} AfterKeeps(h: Heap, ops: seq<Op>)
    requires Valid(h) && LegalRun(h, ops)
    ensures Valid(After(h, ops))
    decreases |ops|
  {
    if ops != [] {
      DoKeeps(h, ops[0]);
      AfterKeeps(Do(h, ops[0]), ops[1..]);
    }
  }

  /** From boot, after any sequence of allocations and frees: free regions are sorted with gaps, blocks are disjoint
      from each other and from them, no node is shared, and every byte of the heap is accounted for. */
  lemma HeapAlwaysConsistent(base: int, ops: seq<Op>)
    requires base % PAGE_SIZE == 0 && LegalRun(Initial(base), ops)
    ensures var h := After(Initial(base), ops);
            && Gapped(Regions(h.free))
            && (forall a, b :: a in h.blocks && b in h.blocks && a != b ==> Apart(Extent(h, a), Extent(h, b)))
            && (forall a :: a in h.blocks ==> AllApart(Regions(h.free), Extent(h, a)))
            && (forall x :: x in Structs(h) ==> Structs(h)[x] == 1 && x - HEADER in h.blocks)
            && h.used == Sum(h.blocks - h.anchors)
            && h.used + Total(Regions(h.free)) + (HEADER + NODE) * |h.anchors| + h.lost == h.total
            && h.used + Total(Regions(h.free)) <= h.total
  {
    InitialValid(base);
    AfterKeeps(Initial(base), ops);
  }

  /** A block new to g: word-aligned payload, large enough, apart from every other block and from all free memory. */
  predicate FreshBlock(h: Heap, size: int, g: Heap, block: int) {
    && (block + HEADER) % 4 == 0
    && block !in h.blocks && block in g.blocks && g.blocks[block] >= size
    && AllApart(Regions(g.free), Extent(g, block))
    && (forall a :: a in h.blocks ==>
          a in g.blocks && g.blocks[a] == h.blocks[a] && Apart(Extent(g, a), Extent(g, block)))
  }

  lemma GrantedIsFresh(h: Heap, need: int, g: Heap, block: int)
    requires GrantedOk(h, need, g, block)
    ensures FreshBlock(h, need - HEADER, g, block)
  {
    hide RegionsOk, NodesOk, CountsOk, Structs, Regions;
    assert AllApart(Regions(g.free), Extent(g, block));
    forall a | a in h.blocks
      ensures a in g.blocks && g.blocks[a] == h.blocks[a] && Apart(Extent(g, a), Extent(g, block))
    {
    }
  }

  /** What a caller of `kmalloc` gets. */
  lemma MallocGrants(h: Heap, size: nat, reserved: bool, supplies: seq<Supply>)
    requires Valid(h) && 0 < size <= 0xFFFF_FFF4
    ensures var out := Allocate(h, Needed(size), reserved, supplies);
            out.Granted? ==> FreshBlock(h, size, out.heap, out.block)
  {
    var need := Needed(size);
    NeededShape(size);
    var out := Allocate(h, need, reserved, supplies);
    if out.Granted? {
      AllocateKeeps(h, need, reserved, supplies);
      GrantedIsFresh(h, need, out.heap, out.block);
    }
  }
}
