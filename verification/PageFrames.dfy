/**
The physical page allocator of src/mem/page.cpp: `alloc` collects a chain of runs from the front of the free list and
then from the memory map, `free` puts a chain back run by run with coalescing, `split` cuts a chain in two.

A run is an interval of bytes whose length is a whole number of pages; a chain (`Page` linked by `next`) is a
sequence of runs. A run can be empty: that is what is left of a memory region shorter than a page.
*/
module PageFrames {
  import opened Wrappers
  import opened Intervals

  const PAGE_SIZE: int := 4096
  const UINT32_MAX: int := 0xFFFF_FFFF

  /** One entry of the multiboot memory map; `usable` is type 1. */
  datatype Region = Region(base: int, length: int, usable: bool) {
    function Extent(): Interval { Interval(base, length) }
  }

  /** `free` is `page_free_head` and its successors, `pointer` is `allocation_pointer`, and `regions` runs from
      `current_map` to the end of the table. */
  datatype Memory = Memory(free: seq<Interval>, pointer: int, regions: seq<Region>)

  // ---- Allocation -------------------------------------------------------------

  function SkipUnusable(rs: seq<Region>): (r: seq<Region>)
    ensures |r| <= |rs| && (r != [] ==> r[0].usable)
  {
    if rs == [] || rs[0].usable then rs else SkipUnusable(rs[1..])
  }

  predicate Current(m: Memory) {
    m.regions != [] && m.pointer < m.regions[0].Extent().End()
  }

  /** A run and what is left after taking it; None is one of the two "Ran out of ... memory" panics. */
  datatype Taken = Taken(run: Interval, rest: Memory)

  function PageFloor(size: int): int { size / PAGE_SIZE * PAGE_SIZE }

  function Later(rs: seq<Region>): seq<Region>
    requires rs != []
  {
    SkipUnusable(rs[1..])
  }

  /** On to the next usable region. */
  function Advance(m: Memory): Option<Memory>
    requires m.regions != []
  {
    var next := Later(m.regions);
    if next == [] || next[0].base > UINT32_MAX then None else Some(m.(pointer := next[0].base, regions := next))
  }

  /** How much of a request the current region can give. */
  function Available(m: Memory, bytes: int): int
    requires Current(m)
  {
    var end := m.regions[0].Extent().End();
    if m.pointer + bytes >= end then end - m.pointer else bytes
  }

  /** `alloc_nokmalloc`: bump the pointer, moving on to the next usable region when this one is used up. */
  function Bump(m: Memory, bytes: int): Option<Taken>
    requires Current(m)
  {
    var size := Available(m, bytes);
    var run := Interval(m.pointer, PageFloor(size));
    if m.pointer + size < m.regions[0].Extent().End() then Some(Taken(run, m.(pointer := m.pointer + size)))
    else
      match Advance(m)
      case None => None
      case Some(m') => Some(Taken(run, m'))
  }

  /** The first run of a chain: from the head of the free list if there is one. */
  function TakeRun(m: Memory, bytes: int): Option<Taken>
    requires Current(m)
  {
    if m.free == [] then Bump(m, bytes)
    else
      var n := if m.free[0].size > bytes then bytes else m.free[0].size;
      Some(Taken(Interval(m.free[0].base, n), m.(free := Carve(m.free, 0, n))))
  }

  datatype Allocation = Allocation(chain: seq<Interval>, rest: Memory)

  /** Well enough formed for `alloc` to make progress. */
  predicate Usable(m: Memory) {
    && Current(m) && WholePages(m.free)
    && (forall i :: 0 <= i < |m.regions| ==> m.regions[i].length > 0)
  }

  lemma CarveHead(l: seq<Interval>, n: int)
    requires l != [] && WholePages(l) && 0 <= n <= l[0].size && n % PAGE_SIZE == 0
    ensures WholePages(Carve(l, 0, n))
    ensures n == l[0].size ==> |Carve(l, 0, n)| < |l|
  {
    PagesMinus(l[0].size, n);
  }

  /** A whole number of pages, or nothing and one region fewer. */
  predicate Progress(m: Memory, bytes: int, t: Taken) {
    && Usable(t.rest) && 0 <= t.run.size <= bytes && t.run.size % PAGE_SIZE == 0
    && (t.run.size == 0 ==>
          || |t.rest.free| < |m.free|
          || (t.rest.free == m.free && |t.rest.regions| < |m.regions|))
  }

  lemma PageFloorOk(size: int)
    requires size >= 0
    ensures 0 <= PageFloor(size) <= size && PageFloor(size) % PAGE_SIZE == 0
    ensures size % PAGE_SIZE == 0 ==> PageFloor(size) == size
  {
  }

  /** m' is m at the start of a later region. */
  predicate MovesOn(m: Memory, m': Memory) {
    && Usable(m') && m'.free == m.free && |m'.regions| < |m.regions| && m'.pointer == m'.regions[0].base
    && forall i :: 0 <= i < |m'.regions| ==> m'.regions[i] == m.regions[|m.regions| - |m'.regions| + i]
  }

  lemma {:induction false} SkipIsSuffix(rs: seq<Region>, i: nat)
    requires i < |SkipUnusable(rs)|
    ensures SkipUnusable(rs)[i] == rs[|rs| - |SkipUnusable(rs)| + i]
  {
    if !rs[0].usable { SkipIsSuffix(rs[1..], i); }
  }

  lemma LaterIsSuffix(rs: seq<Region>)
    requires rs != []
    ensures var next := Later(rs); |next| < |rs| && forall i :: 0 <= i < |next| ==> next[i] == rs[|rs| - |next| + i]
  {
    var next := Later(rs);
    forall i | 0 <= i < |next| ensures next[i] == rs[|rs| - |next| + i] {
      SkipIsSuffix(rs[1..], i);
    }
  }

  lemma UsableLater(m: Memory, m': Memory)
    requires Usable(m) && m'.free == m.free && m'.regions != [] && |m'.regions| <= |m.regions|
    requires m'.pointer == m'.regions[0].base
    requires forall i :: 0 <= i < |m'.regions| ==> m'.regions[i] == m.regions[|m.regions| - |m'.regions| + i]
    ensures Usable(m')
  {
    forall i | 0 <= i < |m'.regions| ensures m'.regions[i].length > 0 {
      assert m'.regions[i] == m.regions[|m.regions| - |m'.regions| + i];
    }
  }

  lemma AdvanceOk(m: Memory)
    requires Usable(m)
    ensures Advance(m).Some? ==> MovesOn(m, Advance(m).value)
  {
    assert m.regions != [];
    hide Usable, Later;
    LaterIsSuffix(m.regions);
    if Advance(m).Some? { UsableLater(m, Advance(m).value); }
  }

  lemma BumpProgress(m: Memory, bytes: int)
    requires Usable(m) && bytes > 0 && bytes % PAGE_SIZE == 0
    ensures Bump(m, bytes).Some? ==> Progress(m, bytes, Bump(m, bytes).value)
  {
    PageFloorOk(Available(m, bytes));
    AdvanceOk(m);
  }

  lemma TakeRunProgress(m: Memory, bytes: int)
    requires Usable(m) && bytes > 0 && bytes % PAGE_SIZE == 0
    ensures TakeRun(m, bytes).Some? ==> Progress(m, bytes, TakeRun(m, bytes).value)
  {
    if m.free == [] {
      BumpProgress(m, bytes);
    } else {
      CarveHead(m.free, if m.free[0].size > bytes then bytes else m.free[0].size);
    }
  }

  lemma PagesMinus(a: int, b: int)
    requires a % PAGE_SIZE == 0 && b % PAGE_SIZE == 0
    ensures (a - b) % PAGE_SIZE == 0
  {
    var p, q := a / PAGE_SIZE, b / PAGE_SIZE;
    assert a - b == PAGE_SIZE * (p - q);
  }

  /** `alloc`: terminates because each run shrinks the request, the free list or the list of regions. */
  function Alloc(m: Memory, bytes: nat): Option<Allocation>
    requires Usable(m) && bytes % PAGE_SIZE == 0
    decreases bytes, |m.free|, |m.regions|
  {
    if bytes == 0 then Some(Allocation([], m))
    else
      TakeRunProgress(m, bytes);
      match TakeRun(m, bytes)
      case None => None
      case Some(Taken(run, rest)) =>
        if run.size == bytes then Some(Allocation([run], rest))
        else
          PagesMinus(bytes, run.size);
          match Alloc(rest, bytes - run.size)
          case None => None
          case Some(Allocation(chain, end)) => Some(Allocation([run] + chain, end))
  }

  // ---- Freeing and splitting ----------------------------------------------------

  /** `free`: the tail of the chain first, then this run. */
  function FreeChain(l: seq<Interval>, chain: seq<Interval>): seq<Interval> {
    if chain == [] then l else Insert(FreeChain(l, chain[1..]), chain[0])
  }

  datatype Halves = Halves(first: seq<Interval>, second: seq<Interval>)

  /** `Page::split` after `bytes` bytes of the chain. */
  function Split(chain: seq<Interval>, bytes: int): Halves
    requires 0 <= bytes <= Total(chain) && chain != []
  {
    var r := chain[0];
    if bytes > r.size then
      var h := Split(chain[1..], bytes - r.size);
      Halves([r] + h.first, h.second)
    else
      Halves([Interval(r.base, bytes)], [Interval(r.base + bytes, r.size - bytes)] + chain[1..])
  }

  /** The address at which `split` starts its second chain. */
  function CutAddress(chain: seq<Interval>, bytes: int): int
    requires 0 <= bytes <= Total(chain) && chain != []
  {
    if bytes > chain[0].size then CutAddress(chain[1..], bytes - chain[0].size) else chain[0].base + bytes
  }

  /** The run that `split` cuts. */
  function CutRun(chain: seq<Interval>, bytes: int): (r: Interval)
    requires 0 <= bytes <= Total(chain) && chain != []
    ensures r in chain
  {
    if bytes > chain[0].size then CutRun(chain[1..], bytes - chain[0].size) else chain[0]
  }

  /** The pages of a chain, in order, by physical address. */
  function Pages(chain: seq<Interval>): seq<int> {
    if chain == [] then [] else RunPages(chain[0]) + Pages(chain[1..])
  }

  function RunPages(r: Interval): seq<int>
    decreases r.size
  {
    if r.size < PAGE_SIZE then [] else [r.base] + RunPages(Interval(r.base + PAGE_SIZE, r.size - PAGE_SIZE))
  }

  predicate WholePages(chain: seq<Interval>) {
    forall i :: 0 <= i < |chain| ==> chain[i].size >= 0 && chain[i].size % PAGE_SIZE == 0
  }

  lemma {:induction false} RunPagesLength(r: Interval)
    requires r.size >= 0 && r.size % PAGE_SIZE == 0
    ensures |RunPages(r)| * PAGE_SIZE == r.size
    decreases r.size
  {
    if r.size >= PAGE_SIZE { RunPagesLength(Interval(r.base + PAGE_SIZE, r.size - PAGE_SIZE)); }
  }

  lemma {:induction false} RunPagesCut(r: Interval, bytes: int)
    requires 0 <= bytes <= r.size && bytes % PAGE_SIZE == 0
    ensures RunPages(r) == RunPages(Interval(r.base, bytes)) + RunPages(Interval(r.base + bytes, r.size - bytes))
    decreases r.size
  {
    if bytes == 0 {
      assert RunPages(Interval(r.base, 0)) == [];
    } else {
      var tail, n := Interval(r.base + PAGE_SIZE, r.size - PAGE_SIZE), bytes - PAGE_SIZE;
      assert bytes >= PAGE_SIZE && n % PAGE_SIZE == 0;
      RunPagesCut(tail, n);
      assert RunPages(r) == [r.base] + RunPages(tail);
      assert RunPages(Interval(r.base, bytes)) == [r.base] + RunPages(Interval(tail.base, n));
      assert Interval(tail.base + n, tail.size - n) == Interval(r.base + bytes, r.size - bytes);
      hide RunPages;
      RegroupPages([r.base], RunPages(Interval(tail.base, n)), RunPages(Interval(r.base + bytes, r.size - bytes)));
    }
  }

  lemma RegroupPages(a: seq<int>, b: seq<int>, c: seq<int>)
    ensures a + (b + c) == a + b + c
  {
  }

  lemma PagesCons(r: Interval, chain: seq<Interval>)
    ensures Pages([r] + chain) == RunPages(r) + Pages(chain)
  {
    assert ([r] + chain)[1..] == chain;
  }

  lemma SplitHereCutsPages(r: Interval, tail: seq<Interval>, bytes: int)
    requires 0 <= bytes <= r.size && bytes % PAGE_SIZE == 0
    ensures var a, b := Interval(r.base, bytes), Interval(r.base + bytes, r.size - bytes);
            Pages([a]) + Pages([b] + tail) == Pages([r] + tail) && |Pages([a])| * PAGE_SIZE == bytes
  {
    var a, b := Interval(r.base, bytes), Interval(r.base + bytes, r.size - bytes);
    RunPagesCut(r, bytes);
    RunPagesLength(a);
    PagesCons(a, []);
    assert [a] + [] == [a];
    PagesCons(b, tail);
    PagesCons(r, tail);
    assert Pages([]) == [] && RunPages(a) + [] == RunPages(a);
    hide Pages, RunPages;
    RegroupPages(RunPages(a), RunPages(b), Pages(tail));
  }

  /** `split(n)` cuts the chain's page sequence into its first n pages and the rest. */
  lemma {:induction false} SplitCutsPages(chain: seq<Interval>, bytes: int)
    requires chain != [] && WholePages(chain) && 0 <= bytes <= Total(chain) && bytes % PAGE_SIZE == 0
    ensures var h := Split(chain, bytes);
            && Pages(h.first) + Pages(h.second) == Pages(chain)
            && |Pages(h.first)| * PAGE_SIZE == bytes
  {
    var r, tail := chain[0], chain[1..];
    assert chain == [r] + tail;
    if bytes > r.size {
      PagesMinus(bytes, r.size);
      assert WholePages(tail) by { assert forall i :: 0 <= i < |tail| ==> tail[i] == chain[i + 1]; }
      var t := Split(tail, bytes - r.size);
      SplitCutsPages(tail, bytes - r.size);
      RunPagesLength(r);
      PagesCons(r, t.first);
      PagesCons(r, tail);
      assert Split(chain, bytes) == Halves([r] + t.first, t.second);
      hide Pages, RunPages, Split, Total, WholePages;
      RegroupPages(RunPages(r), Pages(t.first), Pages(t.second));
    } else {
      SplitHereCutsPages(r, tail, bytes);
    }
  }

  // ---- The code ---------------------------------------------------------------------

  class PageAllocator {
    var free: seq<Interval>       // page_free_head and its successors
    var pointer: int              // allocation_pointer
    var regions: seq<Region>      // current_map onwards

    ghost function State(): Memory
      reads this
    {
      Memory(free, pointer, regions)
    }

    constructor (table: seq<Region>, start: int)
      requires table != [] && table[0].base <= start < table[0].Extent().End()
      ensures State() == Memory([], start, table)
    {
      free, pointer, regions := [], start, table;
    }

    /** Step to the next usable region of the memory map; false is a panic. */
    method NextRegion() returns (found: bool)
      requires regions != []
      modifies this`pointer, this`regions
      ensures found == Advance(old(State())).Some?
      ensures found ==> State() == Advance(old(State())).value
    {
      ghost var tail := regions[1..];
      regions := regions[1..];
      while regions != [] && !regions[0].usable
        invariant SkipUnusable(regions) == SkipUnusable(tail)
        decreases |regions|
      {
        regions := regions[1..];
      }
      if regions == [] || regions[0].base > UINT32_MAX { return false; }
      pointer := regions[0].base;
      found := true;
    }

    /** `alloc_nokmalloc` */
    method AllocNoKmalloc(bytes: int) returns (run: Option<Interval>)
      requires Current(State())
      modifies this`pointer, this`regions
      ensures match Bump(old(State()), bytes)
              case None => run == None
              case Some(t) => run == Some(t.run) && State() == t.rest
    {
      var end := regions[0].base + regions[0].length;
      var size := bytes;
      if pointer + size >= end { size := end - pointer; }
      var base := pointer;
      if base + size == end {
        var found := NextRegion();
        if !found { return None; }
      } else {
        pointer := base + size;
      }
      run := Some(Interval(base, size / PAGE_SIZE * PAGE_SIZE));
    }

    /** `alloc` */
    method Allocate(bytes: nat) returns (chain: Option<seq<Interval>>)
      requires Usable(State()) && bytes % PAGE_SIZE == 0
      modifies this
      ensures match Alloc(old(State()), bytes)
              case None => chain == None
              case Some(a) => chain == Some(a.chain) && State() == a.rest
      decreases bytes, |free|, |regions|
    {
      if bytes == 0 { return Some([]); }
      ghost var m := State();
      TakeRunProgress(m, bytes);
      var run;
      if free != [] {
        var head := free[0];
        if head.size > bytes {
          run := Interval(head.base, bytes);
          free := free[0 := Interval(head.base + bytes, head.size - bytes)];
        } else {
          run := head;
          free := free[1..];
        }
        assert State() == TakeRun(m, bytes).value.rest;
      } else {
        var bumped := AllocNoKmalloc(bytes);
        if bumped == None { return None; }
        run := bumped.value;
      }
      if run.size < bytes {
        PagesMinus(bytes, run.size);
        var rest := Allocate(bytes - run.size);
        if rest == None { return None; }
        chain := Some([run] + rest.value);
      } else {
        chain := Some([run]);
      }
    }

    /** `_merge_free` */
    method MergeFree(k: nat)
      requires k < |free|
      modifies this`free
      ensures free == MergeAt(old(free), k)
    {
      if k + 1 < |free| && free[k].base + free[k].size == free[k + 1].base {
        var joined := Interval(free[k].base, free[k].size + free[k + 1].size);
        free := free[..k] + [joined] + free[k + 2..];
      }
    }

    /** The body of `free` for one run: walk to its place, link it in, merge both ways. */
    method LinkIn(x: Interval)
      modifies this`free
      ensures free == Insert(old(free), x)
    {
      var p := 0;
      while p < |free| && free[p].base < x.base
        invariant p <= |free| && free == old(free)
        invariant forall i :: 0 <= i < p ==> free[i].base < x.base
      {
        p := p + 1;
      }
      PositionUnique(free, x.base, p);
      free := free[..p] + [x] + free[p..];
      MergeFree(p);
      if p > 0 { MergeFree(p - 1); }
    }

    /** `free` */
    method Free(chain: seq<Interval>)
      modifies this`free
      ensures free == FreeChain(old(free), chain)
      decreases |chain|
    {
      if chain == [] { return; }
      Free(chain[1..]);
      LinkIn(chain[0]);
    }

    /** `Page::count`, in bytes */
    static method Count(chain: seq<Interval>) returns (sum: int)
      ensures sum == Total(chain)
    {
      sum := 0;
      var n := 0;
      assert chain[0..] == chain;
      while n < |chain|
        invariant n <= |chain| && sum + Total(chain[n..]) == Total(chain)
      {
        sum := sum + chain[n].size;
        assert chain[n..][1..] == chain[n + 1..];
        n := n + 1;
      }
    }
  }
}
