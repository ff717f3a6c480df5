/**
Inputs on which the heap of src/mem/kmem.cpp does not do what one would like: a request that wraps, and a run of ordinary
requests from boot after which growth adds pages that no list describes.
*/
module KmemMishaps {
  import opened Intervals
  import opened Kmem
  import opened KmemFrees

  /** Three bytes short of 4 GiB: the size rounds to zero, and 28 bytes are looked for. */
  lemma RequestWraps()
    ensures Rounded(0xFFFF_FFFD) == PAGE_STRUCT && Needed(0xFFFF_FFFD) == PAGE_STRUCT + HEADER
  {
  }

  // ---- Runs -------------------------------------------------------------------------------

  ghost predicate Reached(base: int, ops: seq<Op>, h: Heap) {
    base % PAGE_SIZE == 0 && LegalRun(Initial(base), ops) && After(Initial(base), ops) == h && Valid(h)
  }

  lemma {:induction false} RunAppend(h: Heap, ops: seq<Op>, op: Op)
    requires LegalRun(h, ops) && Legal(After(h, ops), op)
    ensures LegalRun(h, ops + [op]) && After(h, ops + [op]) == Do(After(h, ops), op)
    decreases |ops|
  {
    if ops == [] {
      assert [] + [op] == [op] && [op][1..] == [];
      assert LegalRun(Do(h, op), []);
    } else {
      assert (ops + [op])[1..] == ops[1..] + [op];
      RunAppend(Do(h, ops[0]), ops[1..], op);
    }
  }

  lemma ReachOneMore(base: int, ops: seq<Op>, h: Heap, op: Op)
    requires Reached(base, ops, h) && Legal(h, op)
    ensures Reached(base, ops + [op], Do(h, op))
  {
    RunAppend(Initial(base), ops, op);
    DoKeeps(h, op);
  }

  // ---- A heap of fragments ------------------------------------------------------------------

  const FRAGMENT: int := 24    // too small for a page struct and its header

  function Tail(h: Heap, n: nat): Interval
    requires |h.free| == n + 1
  {
    h.free[n].region
  }

  /** n fragments and one region that reaches the end of the heap; all other bytes but the one anchor are in use. */
  predicate Fragmented(h: Heap, n: nat) {
    && |h.free| == n + 1 && (forall i :: 0 <= i < n ==> h.free[i].region.size == FRAGMENT)
    && Tail(h, n).End() == h.end && h.total >= MINIMUM_PAGES * PAGE_SIZE
    && h.used == h.total - (HEADER + NODE) - FRAGMENT * n - Tail(h, n).size
  }

  lemma {:induction false} FitAfter(f: seq<Node>, n: nat, need: int)
    requires n < |f| && (forall i :: 0 <= i < n ==> f[i].region.size < need) && f[n].region.size >= need
    ensures FirstFit(f, need) == n
  {
    if n > 0 { FitAfter(f[1..], n - 1, need); }
  }

  /** What cutting the front off the tail leaves. */
  lemma GrantTail(h: Heap, n: nat, need: int)
    requires Fragmented(h, n) && 0 < need && need + HEADER < Tail(h, n).size
    ensures var g := Grant(h, n, need);
            && Fragmented(g, n) && Tail(g, n) == Interval(Tail(h, n).base + need, Tail(h, n).size - need)
            && g.spare == h.spare && g.free[..n] == h.free[..n]
            && g.blocks == h.blocks[Tail(h, n).base := need - HEADER] && g.total == h.total && g.end == h.end
  {
    var g := Grant(h, n, need);
    assert Taken(Tail(h, n).size, need) == need;
    assert forall i :: 0 <= i < n ==> g.free[i] == h.free[i];
  }

  lemma AllocateTail(h: Heap, n: nat, need: int, reserved: bool)
    requires Fragmented(h, n) && FRAGMENT < need <= Tail(h, n).size
    requires reserved || need + MINIMUM_PAGES * PAGE_SIZE <= HEADER + NODE + FRAGMENT * n + Tail(h, n).size
    ensures Allocate(h, need, reserved, []) == Granted(Grant(h, n, need), Tail(h, n).base, [])
  {
    FitAfter(h.free, n, need);
    hide FirstFit;
    assert reserved || !Low(h, need);
  }

  lemma NeededExactly(size: nat)
    requires size % 4 == 0 && PAGE_STRUCT <= size <= 0xFFFF_FFF0
    ensures Needed(size) == size + HEADER
  {
  }

  /** A request that the tail can serve is cut off its front. */
  lemma CutTail(h: Heap, n: nat, size: nat, reserved: bool)
    requires Valid(h) && Fragmented(h, n) && size % 4 == 0 && PAGE_STRUCT <= size <= 0xFFFF_FFF0
    requires size + 2 * HEADER < Tail(h, n).size
    requires reserved || size + HEADER + MINIMUM_PAGES * PAGE_SIZE <= HEADER + NODE + FRAGMENT * n + Tail(h, n).size
    ensures var g := Grant(h, n, size + HEADER);
            && Do(h, Malloc(size, reserved, [])) == g && Valid(g) && Fragmented(g, n)
            && Tail(g, n) == Interval(Tail(h, n).base + size + HEADER, Tail(h, n).size - size - HEADER)
            && g.spare == h.spare && Structs(g) == Structs(h) && g.free[..n] == h.free[..n]
            && g.blocks == h.blocks[Tail(h, n).base := size]
            && Tail(h, n).base !in h.blocks && Tail(h, n).base + HEADER !in Structs(h)
  {
    var need := size + HEADER;
    hide Valid, Structs, Grant, Allocate, Needed;
    NeededExactly(size);
    AllocateTail(h, n, need, reserved);
    assert Do(h, Malloc(size, reserved, [])) == Grant(h, n, need);
    GrantTail(h, n, need);
    hide Fragmented, Do;
    assert need - HEADER == size;
    KeepsTail(h, n, need);
  }

  lemma KeepsTail(h: Heap, n: nat, need: int)
    requires Valid(h) && |h.free| == n + 1 && need % 4 == 0 && PAGE_STRUCT + HEADER <= need <= Tail(h, n).size
    ensures var g := Grant(h, n, need);
            && Valid(g) && Structs(g) == Structs(h)
            && Tail(h, n).base !in h.blocks && Tail(h, n).base + HEADER !in Structs(h)
  {
    hide Valid, Structs, Grant;
    GrantKeeps(h, n, need);
    GrantStructs(h, n, need);
    GrantPreserves(h, n, need);
  }

  // ---- One more fragment ----------------------------------------------------------------------------

  /** A block of 52 bytes just below what is left of the tail. */
  predicate Pending(h: Heap, n: nat, a: int) {
    && Fragmented(h, n) && a in h.blocks && h.blocks[a] == 44 && a + 52 < Tail(h, n).base
    && (forall i :: 0 <= i < n ==> h.free[i].region.End() < a)
  }

  lemma PositionOfPending(h: Heap, n: nat, a: int)
    requires Pending(h, n, a)
    ensures Position(Regions(h.free), a) == n
  {
    var l := Regions(h.free);
    assert forall i :: 0 <= i < n ==> l[i].base < a by {
      forall i | 0 <= i < n ensures l[i].base < a { assert h.free[i].region.End() < a; }
    }
    PositionUnique(l, a, n);
  }

  /** Freeing it puts it into the list between the fragments and the tail. */
  lemma ReleasePending(h: Heap, n: nat, a: int)
    requires Pending(h, n, a) && h.spare != []
    ensures var g := Release(h, a);
            && g.free == h.free[..n] + [Node(h.spare[0], Interval(a, 52))] + h.free[n..]
            && g.used == h.used - 52 && g.total == h.total && g.end == h.end
  {
    PositionOfPending(h, n, a);
    var x := Node(h.spare[0], Interval(a, 52));
    var linked := h.free[..n] + [x] + h.free[n..];
    assert linked[n] == x && linked[n + 1] == h.free[n];
    if n > 0 { assert linked[n - 1] == h.free[n - 1] && h.free[n - 1].region.End() < a; }
  }

  /** What is left of it after a page struct is a fragment. */
  lemma CutPending(h: Heap, n: nat, x: Node, a: int, g: Heap)
    requires Fragmented(h, n) && x.region == Interval(a, 52)
    requires g.free == h.free[..n] + [x] + h.free[n..] && g.used == h.used - 52 && g.total == h.total && g.end == h.end
    ensures var f := Do(g, Malloc(PAGE_STRUCT, true, [])); Fragmented(f, n + 1) && Tail(f, n + 1) == Tail(h, n)
  {
    assert g.free[n] == x && g.free[n + 1] == h.free[n];
    assert forall i :: 0 <= i < n ==> g.free[i] == h.free[i];
    assert Needed(PAGE_STRUCT) == 28;
    FitAfter(g.free, n, 28);
    var f := Grant(g, n, 28);
    assert f.free == g.free[n := Node(x.at, Interval(a + 28, FRAGMENT))];
  }

  /** Make a block of 52 bytes and one behind it. */
  lemma MakePending(h: Heap, n: nat)
    requires Valid(h) && Fragmented(h, n) && Tail(h, n).size >= 8400
    ensures var a := Tail(h, n).base;
            var h1 := Do(h, Malloc(44, false, []));
            var h2 := Do(h1, Malloc(PAGE_STRUCT, true, []));
            && Valid(h2) && Pending(h2, n, a) && Freeable(h2, a) && Tail(h2, n).size == Tail(h, n).size - 80
  {
    var a := Tail(h, n).base;
    CutTail(h, n, 44, false);
    var h1 := Do(h, Malloc(44, false, []));
    CutTail(h1, n, PAGE_STRUCT, true);
    var h2 := Do(h1, Malloc(PAGE_STRUCT, true, []));
    forall i | 0 <= i < n ensures h2.free[i].region.End() < a {
      assert h2.free[i] == h2.free[..n][i] == h1.free[..n][i] == h.free[..n][i] == h.free[i];
      Ordered(Regions(h.free), i, n);
    }
  }

  /** Cutting the tail and stocking a node leaves the block where it was. */
  lemma StillPending(h: Heap, n: nat, a: int, node: int) returns (k: Heap)
    requires Pending(h, n, a) && Tail(h, n).size >= 200 && Tail(h, n).base !in h.blocks
    ensures k == Grant(h, n, 28).(spare := [node] + Grant(h, n, 28).spare)
    ensures k.spare != [] && Pending(k, n, a) && Tail(k, n).size == Tail(h, n).size - 28
  {
    GrantTail(h, n, 28);
    var c := Grant(h, n, 28);
    hide Grant;
    k := c.(spare := [node] + c.spare);
    assert k.blocks[a] == h.blocks[a];
    forall i | 0 <= i < n ensures k.free[i].region.End() < a {
      assert k.free[i] == c.free[..n][i] == h.free[..n][i] == h.free[i];
    }
  }

  /** With no spare node at hand, one is allocated from the tail. */
  lemma StockNode(h: Heap, n: nat, a: int) returns (k: Heap)
    requires Valid(h) && Pending(h, n, a) && h.spare == [] && Tail(h, n).size >= 200
    ensures k.spare != [] && Pending(k, n, a) && Tail(k, n).size == Tail(h, n).size - 28
    ensures Free(h, a, []) == Granted(Release(k, a), a, [])
  {
    hide Allocate, Grant, Release, Needed, Valid, Structs;
    var block := Tail(h, n).base;
    NodeNeeds();
    AllocateTail(h, n, 28, true);
    KeepsTail(h, n, 28);
    k := StillPending(h, n, a, block + HEADER);
    assert a in k.blocks && k.blocks == Grant(h, n, 28).blocks;
    hide Pending, Fragmented;
  }

  lemma NodeNeeds()
    ensures Needed(NODE) == 28
  {
  }

  /** Free it; if there is no spare node, one is allocated from the tail first. */
  lemma FreePending(h: Heap, n: nat, a: int) returns (k: Heap, x: Node)
    requires Valid(h) && Pending(h, n, a) && Freeable(h, a) && Tail(h, n).size >= 200
    ensures var g := Do(h, Kfree(a, []));
            && Fragmented(k, n) && x.region == Interval(a, 52) && Tail(h, n).size - 28 <= Tail(k, n).size <= Tail(h, n).size
            && g.free == k.free[..n] + [x] + k.free[n..] && g.used == k.used - 52 && g.total == k.total && g.end == k.end
  {
    if h.spare != [] { k := h; } else { k := StockNode(h, n, a); }
    hide Valid, Release, Allocate;
    x := Node(k.spare[0], Interval(a, 52));
    ReleasePending(k, n, a);
  }

  lemma OneMoreFragment(base: int, ops: seq<Op>, h: Heap, n: nat) returns (ops': seq<Op>, h': Heap)
    requires Reached(base, ops, h) && Fragmented(h, n) && Tail(h, n).size >= 8400
    ensures Reached(base, ops', h') && Fragmented(h', n + 1)
    ensures Tail(h, n).size - 108 <= Tail(h', n + 1).size <= Tail(h, n).size
  {
    var a := Tail(h, n).base;
    MakePending(h, n);
    var h1 := Do(h, Malloc(44, false, []));
    ReachOneMore(base, ops, h, Malloc(44, false, []));
    var h2 := Do(h1, Malloc(PAGE_STRUCT, true, []));
    ReachOneMore(base, ops + [Malloc(44, false, [])], h1, Malloc(PAGE_STRUCT, true, []));
    var ops2 := ops + [Malloc(44, false, [])] + [Malloc(PAGE_STRUCT, true, [])];
    var k, x := FreePending(h2, n, a);
    var h3 := Do(h2, Kfree(a, []));
    ReachOneMore(base, ops2, h2, Kfree(a, []));
    CutPending(k, n, x, a, h3);
    h' := Do(h3, Malloc(PAGE_STRUCT, true, []));
    ReachOneMore(base, ops2 + [Kfree(a, [])], h3, Malloc(PAGE_STRUCT, true, []));
    ops' := ops2 + [Kfree(a, [])] + [Malloc(PAGE_STRUCT, true, [])];
  }

  // ---- From boot ---------------------------------------------------------------------------------------

  /** The heap after a large block has been allocated and freed and the first page filled up. */
  lemma LongTail(base: int) returns (ops: seq<Op>, h: Heap)
    requires base % PAGE_SIZE == 0
    ensures Reached(base, ops, h) && Fragmented(h, 0) && Tail(h, 0).size == 85996 && h.lost == 0
  {
    var h0 := Initial(base);
    InitialValid(base);
    ops := [];
    assert Reached(base, ops, h0);
    var big := Malloc(80000, false, [Supply(0, false, false)]);
    var h1 := FirstGrowth(base);
    ReachOneMore(base, ops, h0, big);
    ops := ops + [big];
    var a := base + 4116;
    var h2 := GiveBack(base, h1);
    ReachOneMore(base, ops, h1, Kfree(a, []));
    ops := ops + [Kfree(a, [])];
    h := FillFirstPage(base, h2);
    ReachOneMore(base, ops, h2, Malloc(4012, false, []));
    ops := ops + [Malloc(4012, false, [])];
  }

  lemma FirstGrowth(base: int) returns (h: Heap)
    requires base % PAGE_SIZE == 0
    ensures h == Do(Initial(base), Malloc(80000, false, [Supply(0, false, false)]))
    ensures h.free == [Node(base + 36, Interval(base + 48, 4048)), Node(base + 4104, Interval(base + 84124, 5988))]
    ensures h.spare == [] && h.used == 80056 && h.total == 90112 && h.end == base + 90112 && h.lost == 0
    ensures base + 4116 in h.blocks && h.blocks[base + 4116] == 80000
  {
    var h0 := Initial(base);
    var s := Supply(0, false, false);
    assert Needed(80000) == 80008;
    var g := Grow(h0, 80008, false, s);
    assert PagesNeeded(h0, 80008, false, s) == 21;
    assert g.free == [Node(base + 36, Interval(base + 48, 4048)), Node(base + 4104, Interval(base + 4116, 85996))];
    FitAfter(g.free, 1, 80008);
    h := Grant(g, 1, 80008);
    assert Allocate(g, 80008, false, []) == Granted(h, base + 4116, []);
    assert [s][1..] == [];
    assert Low(h0, 80008) && Allocate(h0, 80008, false, [s]) == Allocate(g, 80008, false, []);
  }

  lemma GiveBack(base: int, h: Heap) returns (g: Heap)
    requires base % PAGE_SIZE == 0 && h == Do(Initial(base), Malloc(80000, false, [Supply(0, false, false)])) && Valid(h)
    requires h.free == [Node(base + 36, Interval(base + 48, 4048)), Node(base + 4104, Interval(base + 84124, 5988))]
    requires h.spare == [] && h.used == 80056 && h.total == 90112 && h.end == base + 90112 && h.lost == 0
    requires base + 4116 in h.blocks && h.blocks[base + 4116] == 80000
    ensures Freeable(h, base + 4116) && g == Do(h, Kfree(base + 4116, []))
    ensures |g.free| == 2 && g.free[0].region == Interval(base + 76, 4020) && g.free[1].region == Interval(base + 4116, 85996)
    ensures g.used == 76 && g.total == 90112 && g.end == base + 90112 && g.lost == 0
  {
    hide Valid;
    var a := base + 4116;
    assert Freeable(h, a) by {
      assert Addresses(h.free) == [base + 36, base + 4104];
      assert Structs(h) == multiset{base + 36, base + 4104};
    }
    var c := NodeFromFirst(base, h);
    var k := c.(spare := [base + 56]);
    assert [base + 56] + c.spare == [base + 56];
    g := Release(k, a);
    hide Release, Allocate, Structs;
    assert Free(h, a, []) == Granted(g, a, []);
    ReleaseBig(base, k);
  }

  lemma NodeFromFirst(base: int, h: Heap) returns (c: Heap)
    requires h.free == [Node(base + 36, Interval(base + 48, 4048)), Node(base + 4104, Interval(base + 84124, 5988))]
    ensures Needed(NODE) == 28 && Allocate(h, 28, true, []) == Granted(c, base + 48, [])
    ensures c == Grant(h, 0, 28) && c.spare == h.spare && c.blocks == h.blocks[base + 48 := PAGE_STRUCT]
    ensures c.free == [Node(base + 36, Interval(base + 76, 4020)), Node(base + 4104, Interval(base + 84124, 5988))]
    ensures c.used == h.used + 28 && c.total == h.total && c.end == h.end && c.lost == h.lost
  {
    FitAfter(h.free, 0, 28);
    c := Grant(h, 0, 28);
    assert c.free == h.free[0 := Node(base + 36, Interval(base + 76, 4020))];
  }

  lemma ReleaseBig(base: int, k: Heap)
    requires k.free == [Node(base + 36, Interval(base + 76, 4020)), Node(base + 4104, Interval(base + 84124, 5988))]
    requires k.spare == [base + 56] && base + 4116 in k.blocks && k.blocks[base + 4116] == 80000
    ensures var g := Release(k, base + 4116);
            && g.free == [Node(base + 36, Interval(base + 76, 4020)), Node(base + 56, Interval(base + 4116, 85996))]
            && g.used == k.used - 80008 && g.total == k.total && g.end == k.end && g.lost == k.lost
  {
    var a := base + 4116;
    var l := Regions(k.free);
    assert l == [Interval(base + 76, 4020), Interval(base + 84124, 5988)];
    PositionUnique(l, a, 1);
    var x := Node(base + 56, Interval(a, 80008));
    var linked := k.free[..1] + [x] + k.free[1..];
    assert linked == [k.free[0], x, k.free[1]];
    var merged := MergeNode(Lists(linked, []), 1);
    assert merged.free == [k.free[0], Node(base + 56, Interval(a, 85996))];
    assert MergeNode(merged, 0) == merged;
    assert k.spare[1..] == [];
  }

  lemma FillFirstPage(base: int, h: Heap) returns (g: Heap)
    requires |h.free| == 2 && h.free[0].region == Interval(base + 76, 4020) && h.free[1].region == Interval(base + 4116, 85996)
    requires h.used == 76 && h.total == 90112 && h.end == base + 90112 && h.lost == 0
    ensures g == Do(h, Malloc(4012, false, [])) && Fragmented(g, 0) && Tail(g, 0).size == 85996 && g.lost == 0
  {
    assert Needed(4012) == 4020;
    FitAfter(h.free, 0, 4020);
    g := Grant(h, 0, 4020);
    assert g.free == [h.free[1]];
    assert Allocate(h, 4020, false, []) == Granted(g, base + 76, []);
  }

  lemma {:induction false} Fragments(base: int, n: nat) returns (ops: seq<Op>, h: Heap)
    requires base % PAGE_SIZE == 0 && n <= 345
    ensures Reached(base, ops, h) && Fragmented(h, n) && 85996 - 108 * n <= Tail(h, n).size <= 85996
  {
    if n == 0 {
      ops, h := LongTail(base);
    } else {
      ops, h := Fragments(base, n - 1);
      ops, h := OneMoreFragment(base, ops, h, n - 1);
    }
  }

  /** From boot, by ordinary requests, page structs and frees: a heap with more than two pages free, all in pieces of 24
      bytes but the last, which is 28 bytes long. A request for 32 bytes is not held back for the reserve, finds nothing,
      and grows the heap by two pages; the page struct for them takes the last region, and nothing describes them. */
  lemma LosingGrowth(base: int) returns (ops: seq<Op>, h: Heap)
    requires base % PAGE_SIZE == 0
    ensures Reached(base, ops, h) && !Low(h, Needed(32)) && FirstFit(h.free, Needed(32)) == |h.free|
    ensures FirstFit(h.free, PAGE_STRUCT + HEADER) < |h.free|
    ensures Grow(h, Needed(32), true, Supply(0, true, false)).lost == h.lost + 2 * PAGE_SIZE
  {
    var n := 345;
    ops, h := Fragments(base, n);
    var size := Tail(h, n).size - 36;
    assert RegionOk(h, h.free[n].region) && size % 4 == 0 by { Words(Tail(h, n).size, 36); }
    CutTail(h, n, size, false);
    ReachOneMore(base, ops, h, Malloc(size, false, []));
    ops := ops + [Malloc(size, false, [])];
    h := Do(h, Malloc(size, false, []));
    LastPiece(h, n);
  }

  lemma LastPiece(h: Heap, n: nat)
    requires Fragmented(h, n) && n == 345 && Tail(h, n).size == 28
    ensures !Low(h, Needed(32)) && FirstFit(h.free, Needed(32)) == |h.free| && FirstFit(h.free, PAGE_STRUCT + HEADER) == n
    ensures Grow(h, Needed(32), true, Supply(0, true, false)).lost == h.lost + 2 * PAGE_SIZE
  {
    assert Needed(32) == 40;
    FitAfter(h.free, n, 28);
    var s := Supply(0, true, false);
    assert FirstFit(h.free, 40) == |h.free|;
    assert TailReaches(h, true, s) && TailUsedUp(h, s) && PagesNeeded(h, 40, true, s) == 2;
  }

  // ---- Frees that leave a node behind ---------------------------------------------------------------------

  /** A request for 20 bytes, cut off the front of the only region. */
  lemma CutSmall(h: Heap, at: int, c: int, size: int)
    requires h.free == [Node(at, Interval(c, size))] && size > 36
    ensures var g := h.(free := [Node(at, Interval(c + 28, size - 28))], blocks := h.blocks[c := 20], used := h.used + 28);
            && Allocate(h, Needed(20), true, []) == Granted(g, c, [])
            && Legal(h, Malloc(20, true, [])) && Do(h, Malloc(20, true, [])) == g
  {
    var g := h.(free := [Node(at, Interval(c + 28, size - 28))], blocks := h.blocks[c := 20], used := h.used + 28);
    NeededExactly(20);
    assert FirstFit(h.free, 28) == 0;
    assert Grant(h, 0, 28) == g by { hide FirstFit, Needed; }
    hide FirstFit, Grant, Needed;
  }

  /** After n requests for 20 bytes from boot. */
  function Cuts(base: int, n: nat): Heap {
    if n == 0 then Initial(base)
    else
      var h := Cuts(base, n - 1);
      var c := base + 48 + 28 * (n - 1);
      h.(free := [Node(base + 36, Interval(c + 28, PAGE_SIZE - 48 - 28 * n))], blocks := h.blocks[c := 20], used := h.used + 28)
  }

  function Requests(n: nat): seq<Op> { seq(n, i => Malloc(20, true, [])) }

  lemma {:induction false} CutsReached(base: int, n: nat)
    requires base % PAGE_SIZE == 0 && n <= 100
    ensures Reached(base, Requests(n), Cuts(base, n))
    ensures Cuts(base, n).free == [Node(base + 36, Interval(base + 48 + 28 * n, PAGE_SIZE - 48 - 28 * n))]
    ensures Cuts(base, n).spare == []
  {
    hide Cuts, Requests, Reached, Do, Allocate, Legal;
    if n == 0 {
      NoCuts(base);
    } else {
      var h := Cuts(base, n - 1);
      CutsReached(base, n - 1);
      CutsStep(base, n);
      CutSmall(h, base + 36, base + 48 + 28 * (n - 1), PAGE_SIZE - 48 - 28 * (n - 1));
      ReachOneMore(base, Requests(n - 1), h, Malloc(20, true, []));
    }
  }

  lemma NoCuts(base: int)
    requires base % PAGE_SIZE == 0
    ensures Reached(base, Requests(0), Cuts(base, 0)) && Cuts(base, 0).spare == []
    ensures Cuts(base, 0).free == [Node(base + 36, Interval(base + 48, PAGE_SIZE - 48))]
  {
    InitialValid(base);
    assert LegalRun(Initial(base), []) && Requests(0) == [];
  }

  lemma CutsStep(base: int, n: nat)
    requires n > 0
    ensures var h, c := Cuts(base, n - 1), base + 48 + 28 * (n - 1);
            Cuts(base, n) == h.(free := [Node(base + 36, Interval(c + 28, PAGE_SIZE - 48 - 28 * n))],
                                blocks := h.blocks[c := 20], used := h.used + 28)
    ensures Requests(n) == Requests(n - 1) + [Malloc(20, true, [])]
  {
  }

  /** Two frees in a row succeed when the first leaves room for the second's node. */
  lemma TwoSucceed(h: Heap, a: int, b: int)
    requires Valid(h) && Freeable(h, a) && Freeable(h, b) && a != b && |h.spare| == 1
    requires !Touches(h, a) && FirstFit(h.free, NODE_NEED) < |h.free|
    ensures FreeAll(h, [a, b], []).Granted?
  {
    hide *;
    BlockOfFreeable(h, a);
    BlockOfFreeable(h, b);
    OneSpare(h.spare);
    var g := Release(h, a);
    SparesAfter(h, a);
    ReleaseFreed(h, a);
    FreedKeeps(h, a, g);
    StillFreeable(h, a, b, g);
    BlockOfFreeable(g, b);
    BlockFacts(h, a);
    FitInIs(h.free, NODE_NEED);
    FitInIs(g.free, NODE_NEED);
    FitWith(Regions(h.free), Extent(h, a), NODE_NEED);
    FreeUnfolds(g, b);
    FreeSpare(h, a);
    FreeTwo(h, a, b, []);
    FreeOne(g, b, []);
    FreeAllGranted(h, a, b, g);
  }

  lemma OneSpare(s: seq<int>)
    requires |s| == 1
    ensures s != []
  {
  }

  lemma FreeAllGranted(h: Heap, a: int, b: int, g: Heap)
    requires a in h.blocks && b in g.blocks && Free(h, a, []) == Granted(g, a, []) && Free(g, b, []).Granted?
    ensures FreeAll(h, [a, b], []).Granted?
  {
    FreeTwo(h, a, b, []);
    FreeOne(g, b, []);
    hide Free, FreeAll;
  }

  lemma FourBlocks(base: int)
    ensures var h := Cuts(base, 4);
            h.blocks == map[base := PAGE_STRUCT, base + 28 := NODE, base + 48 := 20, base + 76 := 20, base + 104 := 20, base + 132 := 20]
  {
    assert Cuts(base, 1).blocks == map[base := PAGE_STRUCT, base + 28 := NODE, base + 48 := 20];
    assert Cuts(base, 2).blocks == Cuts(base, 1).blocks[base + 76 := 20];
    assert Cuts(base, 3).blocks == Cuts(base, 2).blocks[base + 104 := 20];
  }

  lemma OneNode(h: Heap, at: int, x: Interval)
    requires h.free == [Node(at, x)] && h.spare == []
    ensures Structs(h) == multiset{at} && Regions(h.free) == [x]
  {
    assert Addresses(h.free) == [at];
  }

  /** The heap of four blocks once a free has made its node: one spare node, and the region behind the node's block. */
  lemma FourStocked(base: int)
    requires base % PAGE_SIZE == 0
    ensures var h, s := Cuts(base, 4), Stocked(Cuts(base, 4));
            && Freeable(h, base + 48) && Freeable(h, base + 104) && FirstFit(h.free, NODE_NEED) < |h.free|
            && |s.spare| == 1 && Regions(s.free) == [Interval(base + 188, PAGE_SIZE - 188)]
            && base + 48 in s.blocks && s.blocks[base + 48] == 20 && base + 104 in s.blocks && s.blocks[base + 104] == 20
  {
    var h := Cuts(base, 4);
    CutsReached(base, 4);
    FourBlocks(base);
    OneNode(h, base + 36, h.free[0].region);
    hide Cuts, Structs;
    assert FirstFit(h.free, NODE_NEED) == 0;
    assert Grant(h, 0, NODE_NEED).free == [Node(base + 36, Interval(base + 188, PAGE_SIZE - 188))];
  }

  /** Four blocks of 20 bytes from boot; freeing the first and then the third leaves another free list than freeing the third
      and then the first: the second free takes its node out of the block freed before it. */
  lemma FreeOrderMatters(base: int)
    requires base % PAGE_SIZE == 0
    ensures Reached(base, Requests(4), Cuts(base, 4))
    ensures var h, a, b := Cuts(base, 4), base + 48, base + 104;
            && Freeable(h, a) && Freeable(h, b) && FreeAll(h, [a, b], []).Granted? && FreeAll(h, [b, a], []).Granted?
            && !SameHeap(FreeAll(h, [a, b], []).heap, FreeAll(h, [b, a], []).heap)
  {
    var h, a, b := Cuts(base, 4), base + 48, base + 104;
    var s := Stocked(h);
    CutsReached(base, 4);
    FourStocked(base);
    assert Extent(s, a) == Interval(a, 28) && Extent(s, b) == Interval(b, 28);
    assert !Touches(s, a) && !Touches(s, b) && FitIn(Regions(s.free), NODE_NEED) == 0;
    assert !FitsBelow(Regions(s.free), Extent(s, a), NODE_NEED);
    assert Valid(h);
    FitInIs(s.free, NODE_NEED);
    hide Valid, Reached, Cuts, FreeAll, Stocked, Touches, FitsBelow, SameHeap, Freeable;
    StockedOk(h);
    TwoSucceed(s, a, b);
    TwoSucceed(s, b, a);
    StockedGranted(h, a, b);
    StockedGranted(h, b, a);
    FreesCommuteExactlyWhen(h, a, b);
  }

  /** What the stocked heap can do the heap itself can. */
  lemma StockedGranted(h: Heap, a: int, b: int)
    requires Freeable(h, a) && FirstFit(h.free, NODE_NEED) < |h.free| && FreeAll(Stocked(h), [a, b], []).Granted?
    ensures FreeAll(h, [a, b], []).Granted?
  {
    hide *;
    BlockOfFreeable(h, a);
    FreeUnfolds(h, a);
    FreeTwo(h, a, b, []);
    FreeTwo(Stocked(h), a, b, []);
  }

  /** One block of 20 bytes from boot, freed again: the node made for that is still in use. */
  lemma FreeLeavesNode(base: int)
    requires base % PAGE_SIZE == 0
    ensures var h := Initial(base);
            Reached(base, [], h) && Allocate(h, Needed(20), true, []).Granted?
            && var out := Allocate(h, Needed(20), true, []);
               out.block in out.heap.blocks && Free(out.heap, out.block, []).Granted?
               && !(Regions(Free(out.heap, out.block, []).heap.free) == Regions(h.free)
                    && Free(out.heap, out.block, []).heap.used == h.used)
  {
    var h := Initial(base);
    CutsReached(base, 0);
    assert Requests(0) == [];
    CutSmall(h, base + 36, base + 48, PAGE_SIZE - 48);
    var out := Allocate(h, Needed(20), true, []);
    assert FirstFit(out.heap.free, NODE_NEED) == 0 && FirstFit(h.free, Needed(20)) == 0;
    NeededExactly(20);
    assert !LeavesNoTrace(h, Needed(20), true);
    hide Valid, Allocate, Free, Release, Initial, Reached;
    FreeUnfolds(out.heap, out.block);
    FreeUndoesMallocExactlyWhen(h, 20, true, []);
  }
}
