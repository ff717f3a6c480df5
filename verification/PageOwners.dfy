/**
Who has which physical memory, over whole runs of `alloc`, `free` and `split` of src/mem/page.cpp.

Ownership is counted byte by byte: how many times a byte is in memory never handed out, in the free list, and in the
chains held by callers. Every operation conserves or lowers that number, whatever is split where. What a split can
disturb is the order of the free list, because a cut at the edge of a run leaves an empty run behind.
*/
module PageOwners {
  import opened Wrappers
  import opened Intervals
  import opened PageFrames

  /** The allocator and the chains its callers hold. */
  datatype Phys = Phys(m: Memory, chains: seq<seq<Interval>>)

  // ---- Counting owners ---------------------------------------------------------------

  function One(r: Interval, y: int): nat { if r.Has(y) then 1 else 0 }

  function Count(l: seq<Interval>, y: int): nat {
    if l == [] then 0 else One(l[0], y) + Count(l[1..], y)
  }

  lemma {:induction false} CountAppend(a: seq<Interval>, b: seq<Interval>, y: int)
    ensures Count(a + b, y) == Count(a, y) + Count(b, y)
  {
    if a == [] {
      assert a + b == b;
    } else {
      assert (a + b)[1..] == a[1..] + b;
      CountAppend(a[1..], b, y);
    }
  }

  lemma CountOne(r: Interval, y: int)
    ensures Count([r], y) == One(r, y)
  {
    assert [r][1..] == [];
  }

  lemma {:induction false} CountAt(l: seq<Interval>, i: nat, y: int)
    requires i < |l|
    ensures Count(l, y) >= One(l[i], y)
  {
    if i > 0 { CountAt(l[1..], i - 1, y); }
  }

  lemma {:induction false} CountFinds(l: seq<Interval>, y: int) returns (i: nat)
    requires Count(l, y) > 0
    ensures i < |l| && l[i].Has(y)
  {
    if l[0].Has(y) { i := 0; } else { var j := CountFinds(l[1..], y); i := j + 1; }
  }

  /** All runs of all chains. */
  function Flat(cs: seq<seq<Interval>>): seq<Interval> {
    if cs == [] then [] else cs[0] + Flat(cs[1..])
  }

  lemma {:induction false} FlatAppend(a: seq<seq<Interval>>, b: seq<seq<Interval>>)
    ensures Flat(a + b) == Flat(a) + Flat(b)
  {
    if a == [] {
      assert a + b == b;
    } else {
      assert (a + b)[1..] == a[1..] + b;
      FlatAppend(a[1..], b);
      assert a[0] + (Flat(a[1..]) + Flat(b)) == a[0] + Flat(a[1..]) + Flat(b);
    }
  }

  function Extents(rs: seq<Region>): seq<Interval> {
    if rs == [] then [] else [rs[0].Extent()] + Extents(rs[1..])
  }

  /** What is left of the current region. */
  function Rest(m: Memory): Interval
    requires Current(m)
  {
    Interval(m.pointer, m.regions[0].Extent().End() - m.pointer)
  }

  /** Memory never handed out yet. */
  function Untouched(m: Memory): seq<Interval>
    requires Current(m)
  {
    [Rest(m)] + Extents(m.regions[1..])
  }

  /** Times a byte is free or in use. */
  function Held(s: Phys, y: int): nat {
    Count(s.m.free, y) + Count(Flat(s.chains), y)
  }

  function Owners(s: Phys, y: int): nat
    requires Current(s.m)
  {
    Count(Untouched(s.m), y) + Held(s, y)
  }

  predicate WellFormed(s: Phys) {
    Usable(s.m) && forall i :: 0 <= i < |s.chains| ==> WholePages(s.chains[i])
  }

  /** No byte has two owners. */
  ghost predicate Exclusive(s: Phys) {
    WellFormed(s) && forall y :: Owners(s, y) <= 1
  }

  // ---- Allocating ----------------------------------------------------------------------

  lemma CarveHeadCount(l: seq<Interval>, n: int, y: int)
    requires l != [] && 0 <= n <= l[0].size
    ensures One(Interval(l[0].base, n), y) + Count(Carve(l, 0, n), y) == Count(l, y)
  {
    var c := Carve(l, 0, n);
    if n == l[0].size {
      assert c == l[1..];
    } else {
      assert c[1..] == l[1..];
    }
  }

  lemma {:induction false} SkipCount(rs: seq<Region>, y: int)
    ensures Count(Extents(SkipUnusable(rs)), y) <= Count(Extents(rs), y)
  {
    if rs != [] && !rs[0].usable {
      SkipCount(rs[1..], y);
      assert Extents(rs)[1..] == Extents(rs[1..]);
    }
  }

  lemma UntouchedSplits(m: Memory, y: int)
    requires Current(m)
    ensures Count(Untouched(m), y) == One(Rest(m), y) + Count(Extents(m.regions[1..]), y)
  {
    assert Untouched(m)[1..] == Extents(m.regions[1..]);
  }

  lemma AdvanceCount(m: Memory, y: int)
    requires Usable(m) && Advance(m).Some?
    ensures Current(Advance(m).value) && Count(Untouched(Advance(m).value), y) <= Count(Extents(m.regions[1..]), y)
  {
    AdvanceOk(m);
    var m' := Advance(m).value;
    SkipCount(m.regions[1..], y);
    assert m'.regions == SkipUnusable(m.regions[1..]);
    assert Rest(m') == m'.regions[0].Extent();
    assert Untouched(m') == Extents(m'.regions);
  }

  /** A run comes out of the free list or out of untouched memory, and nothing is added. */
  lemma TakeRunCount(m: Memory, bytes: int, y: int)
    requires Usable(m) && bytes > 0 && bytes % PAGE_SIZE == 0 && TakeRun(m, bytes).Some?
    ensures var t := TakeRun(m, bytes).value;
            && Usable(t.rest)
            && One(t.run, y) + Count(t.rest.free, y) + Count(Untouched(t.rest), y) <= Count(m.free, y) + Count(Untouched(m), y)
  {
    TakeRunProgress(m, bytes);
    var t := TakeRun(m, bytes).value;
    if m.free != [] {
      CarveHeadCount(m.free, t.run.size, y);
      assert Untouched(t.rest) == Untouched(m);
    } else {
      var size := Available(m, bytes);
      PageFloorOk(size);
      UntouchedSplits(m, y);
      if m.pointer + size < m.regions[0].Extent().End() {
        UntouchedSplits(t.rest, y);
      } else {
        AdvanceCount(m, y);
      }
    }
  }

  lemma {:induction false} AllocCount(m: Memory, bytes: nat, y: int)
    requires Usable(m) && bytes % PAGE_SIZE == 0 && Alloc(m, bytes).Some?
    ensures var a := Alloc(m, bytes).value;
            && Usable(a.rest)
            && Count(a.chain, y) + Count(a.rest.free, y) + Count(Untouched(a.rest), y)
               <= Count(m.free, y) + Count(Untouched(m), y)
    decreases bytes, |m.free|, |m.regions|
  {
    if bytes > 0 {
      TakeRunProgress(m, bytes);
      TakeRunCount(m, bytes, y);
      var t := TakeRun(m, bytes).value;
      CountOne(t.run, y);
      if t.run.size < bytes {
        PagesMinus(bytes, t.run.size);
        AllocCount(t.rest, bytes - t.run.size, y);
        CountAppend([t.run], Alloc(t.rest, bytes - t.run.size).value.chain, y);
      }
    }
  }

  /** `alloc` returns exactly the bytes asked for, in whole pages. */
  lemma {:induction false} AllocTotal(m: Memory, bytes: nat)
    requires Usable(m) && bytes % PAGE_SIZE == 0 && Alloc(m, bytes).Some?
    ensures var a := Alloc(m, bytes).value; Total(a.chain) == bytes && WholePages(a.chain)
    decreases bytes, |m.free|, |m.regions|
  {
    if bytes > 0 {
      TakeRunProgress(m, bytes);
      var t := TakeRun(m, bytes).value;
      if t.run.size == bytes {
        assert [t.run][1..] == [];
      } else {
        PagesMinus(bytes, t.run.size);
        AllocTotal(t.rest, bytes - t.run.size);
        var chain := Alloc(t.rest, bytes - t.run.size).value.chain;
        assert ([t.run] + chain)[1..] == chain;
      }
    }
  }

  // ---- Freeing ---------------------------------------------------------------------------

  lemma MergeCount(l: seq<Interval>, k: nat, y: int)
    requires WholePages(l)
    ensures Count(MergeAt(l, k), y) == Count(l, y) && WholePages(MergeAt(l, k))
  {
    if k + 1 < |l| && l[k].End() == l[k + 1].base {
      var a, b := l[k], l[k + 1];
      var joined := Interval(a.base, a.size + b.size);
      var front, back := l[..k], l[k + 2..];
      assert l == front + ([a] + ([b] + back));
      assert MergeAt(l, k) == front + ([joined] + back);
      PagesPlus(a.size, b.size);
      assert WholePages(MergeAt(l, k)) by { MergedPages(front, joined, back); }
      CountAppend(front, [a] + ([b] + back), y);
      CountAppend([a], [b] + back, y);
      CountAppend([b], back, y);
      CountAppend(front, [joined] + back, y);
      CountAppend([joined], back, y);
      CountOne(a, y);
      CountOne(b, y);
      CountOne(joined, y);
    }
  }

  lemma PagesPlus(a: int, b: int)
    requires a % PAGE_SIZE == 0 && b % PAGE_SIZE == 0
    ensures (a + b) % PAGE_SIZE == 0
  {
    var p, q := a / PAGE_SIZE, b / PAGE_SIZE;
    assert a + b == PAGE_SIZE * (p + q);
  }

  lemma MergedPages(front: seq<Interval>, r: Interval, back: seq<Interval>)
    requires WholePages(front) && WholePages(back) && WholePages([r])
    ensures WholePages(front + ([r] + back))
  {
    assert [r][0] == r;
  }

  /** Freeing a run adds exactly its bytes, whatever the order of the list. */
  lemma InsertCount(l: seq<Interval>, x: Interval, y: int)
    requires WholePages(l) && WholePages([x])
    ensures Count(Insert(l, x), y) == Count(l, y) + One(x, y) && WholePages(Insert(l, x))
  {
    var p := Position(l, x.base);
    var front, back := l[..p], l[p..];
    var linked := front + [x] + back;
    assert l == front + back && linked == front + ([x] + back);
    CountAppend(front, back, y);
    CountAppend(front, [x] + back, y);
    CountAppend([x], back, y);
    CountOne(x, y);
    MergedPages(front, x, back);
    MergeCount(linked, p, y);
    if p > 0 { MergeCount(MergeAt(linked, p), p - 1, y); }
  }

  lemma {:induction false} FreeChainCount(l: seq<Interval>, chain: seq<Interval>, y: int)
    requires WholePages(l) && WholePages(chain)
    ensures Count(FreeChain(l, chain), y) == Count(l, y) + Count(chain, y) && WholePages(FreeChain(l, chain))
    decreases |chain|
  {
    if chain != [] {
      FreeChainCount(l, chain[1..], y);
      assert WholePages([chain[0]]) by { assert [chain[0]][0] == chain[0]; }
      InsertCount(FreeChain(l, chain[1..]), chain[0], y);
    }
  }

  // ---- Splitting ----------------------------------------------------------------------------

  lemma {:induction false} CutInside(chain: seq<Interval>, bytes: int)
    requires chain != [] && WholePages(chain) && 0 <= bytes <= Total(chain) && bytes % PAGE_SIZE == 0
    ensures var r, c := CutRun(chain, bytes), CutAddress(chain, bytes);
            r.base <= c <= r.End() && (c - r.base) % PAGE_SIZE == 0 && (r.End() - c) % PAGE_SIZE == 0
  {
    if bytes > chain[0].size {
      PagesMinus(bytes, chain[0].size);
      CutInside(chain[1..], bytes - chain[0].size);
    } else {
      PagesMinus(chain[0].size, bytes);
    }
  }

  function Before(r: Interval, c: int): Interval { Interval(r.base, c - r.base) }

  function From(r: Interval, c: int): Interval { Interval(c, r.End() - c) }

  /** The two halves: the runs before the cut and its first piece, the second piece and the runs after it. */
  lemma {:induction false} SplitShape(chain: seq<Interval>, bytes: int) returns (front: seq<Interval>, back: seq<Interval>)
    requires chain != [] && WholePages(chain) && 0 <= bytes <= Total(chain)
    ensures var r, c, h := CutRun(chain, bytes), CutAddress(chain, bytes), Split(chain, bytes);
            && chain == front + [r] + back
            && h.first == front + [Before(r, c)] && h.second == [From(r, c)] + back
            && (bytes == 0 ==> front == [])
            && (bytes > 0 ==> c > r.base)
  {
    var r0 := chain[0];
    assert chain == [r0] + chain[1..];
    if bytes > r0.size {
      var tail, n := chain[1..], bytes - r0.size;
      assert WholePages(tail) by { assert forall i :: 0 <= i < |tail| ==> tail[i] == chain[i + 1]; }
      assert Total(chain) == r0.size + Total(tail) && tail != [];
      var f, b := SplitShape(tail, n);
      front, back := [r0] + f, b;
      var h, g := Split(chain, bytes), Split(tail, n);
      assert h == Halves([r0] + g.first, g.second);
      var r, c := CutRun(tail, n), CutAddress(tail, n);
      assert CutRun(chain, bytes) == r && CutAddress(chain, bytes) == c;
      hide Split, Total, WholePages, CutRun, CutAddress;
      Regroup([r0], f, [r], b);
      RegroupThree([r0], f, [Before(r, c)]);
    } else {
      front, back := [], chain[1..];
      assert [] + [r0] + back == chain && [] + [Before(r0, r0.base + bytes)] == [Before(r0, r0.base + bytes)];
    }
  }

  lemma RegroupThree(a: seq<Interval>, b: seq<Interval>, c: seq<Interval>)
    ensures a + (b + c) == a + b + c
  {
  }

  lemma PiecesCount(front: seq<Interval>, r: Interval, back: seq<Interval>, c: int, y: int)
    requires r.base <= c <= r.End()
    ensures Count(front + [Before(r, c)], y) + Count([From(r, c)] + back, y) == Count(front + [r] + back, y)
  {
    hide Count;
    CountAppend(front + [r], back, y);
    CountAppend(front, [r], y);
    CountAppend(front, [Before(r, c)], y);
    CountAppend([From(r, c)], back, y);
    CountOne(r, y);
    CountOne(Before(r, c), y);
    CountOne(From(r, c), y);
  }

  lemma PiecesPages(front: seq<Interval>, r: Interval, back: seq<Interval>, c: int)
    requires WholePages(front + [r] + back) && r.base <= c <= r.End()
    requires (c - r.base) % PAGE_SIZE == 0 && (r.End() - c) % PAGE_SIZE == 0
    ensures WholePages(front + [Before(r, c)]) && WholePages([From(r, c)] + back)
  {
    var chain := front + [r] + back;
    assert forall i :: 0 <= i < |front| ==> front[i] == chain[i];
    assert forall i :: 0 <= i < |back| ==> back[i] == chain[|front| + 1 + i];
  }

  /** Splitting gives no byte a second owner and takes none away, wherever the cut is. */
  lemma SplitCount(chain: seq<Interval>, bytes: int, y: int)
    requires chain != [] && WholePages(chain) && 0 <= bytes <= Total(chain) && bytes % PAGE_SIZE == 0
    ensures var h := Split(chain, bytes);
            && WholePages(h.first) && WholePages(h.second) && Count(h.first, y) + Count(h.second, y) == Count(chain, y)
  {
    hide Count, Split, WholePages, Total;
    var r, c := CutRun(chain, bytes), CutAddress(chain, bytes);
    CutInside(chain, bytes);
    var front, back := SplitShape(chain, bytes);
    PiecesCount(front, r, back, c, y);
    PiecesPages(front, r, back, c);
  }

  // ---- Whole runs --------------------------------------------------------------------------------

  datatype Op = DoAlloc(bytes: nat) | DoFree(i: nat) | DoSplit(i: nat, bytes: nat)

  /** Requests in whole pages; frees and splits of chains somebody holds, cut no further than their end. */
  predicate Legal(s: Phys, op: Op) {
    WellFormed(s) &&
    match op
    case DoAlloc(bytes) => bytes % PAGE_SIZE == 0
    case DoFree(i) => i < |s.chains|
    case DoSplit(i, bytes) => i < |s.chains| && s.chains[i] != [] && bytes <= Total(s.chains[i]) && bytes % PAGE_SIZE == 0
  }

  /** Running out of memory stops the machine, so the state stays as it is. */
  function Do(s: Phys, op: Op): Phys
    requires Legal(s, op)
  {
    match op
    case DoAlloc(bytes) =>
      (match Alloc(s.m, bytes)
       case None => s
       case Some(a) => Phys(a.rest, s.chains + [a.chain]))
    case DoFree(i) => Phys(s.m.(free := FreeChain(s.m.free, s.chains[i])), s.chains[..i] + s.chains[i + 1..])
    case DoSplit(i, bytes) =>
      var h := Split(s.chains[i], bytes);
      Phys(s.m, s.chains[..i] + [h.first, h.second] + s.chains[i + 1..])
  }

  lemma ChainOut(cs: seq<seq<Interval>>, i: nat, y: int)
    requires i < |cs|
    ensures Count(Flat(cs), y) == Count(cs[i], y) + Count(Flat(cs[..i] + cs[i + 1..]), y)
  {
    var a, b := cs[..i], cs[i + 1..];
    assert cs == a + ([cs[i]] + b);
    FlatAppend(a, [cs[i]] + b);
    FlatAppend(a, b);
    assert ([cs[i]] + b)[1..] == b;
    CountAppend(Flat(a), cs[i] + Flat(b), y);
    CountAppend(cs[i], Flat(b), y);
    CountAppend(Flat(a), Flat(b), y);
  }

  lemma ChainsIn(a: seq<seq<Interval>>, x: seq<Interval>, z: seq<Interval>, b: seq<seq<Interval>>, y: int)
    ensures Count(Flat(a + [x, z] + b), y) == Count(Flat(a + b), y) + Count(x, y) + Count(z, y)
  {
    hide Count, Flat;
    var cs, ds := a + [x, z] + b, a + ([z] + b);
    assert cs[|a|] == x && cs[..|a|] == a && cs[|a| + 1..] == [z] + b;
    assert ds[|a|] == z && ds[..|a|] == a && ds[|a| + 1..] == b;
    ChainOut(cs, |a|, y);
    ChainOut(ds, |a|, y);
  }

  lemma FlatOne(chain: seq<Interval>)
    ensures Flat([chain]) == chain
  {
    assert [chain][1..] == [];
    assert chain + [] == chain;
  }

  lemma AllocOwners(s: Phys, bytes: nat, y: int)
    requires Legal(s, DoAlloc(bytes))
    ensures WellFormed(Do(s, DoAlloc(bytes))) && Owners(Do(s, DoAlloc(bytes)), y) <= Owners(s, y)
  {
    if Alloc(s.m, bytes).Some? {
      var a := Alloc(s.m, bytes).value;
      AllocCount(s.m, bytes, y);
      AllocTotal(s.m, bytes);
      hide Count, Flat, Alloc, Usable, Untouched;
      FlatAppend(s.chains, [a.chain]);
      FlatOne(a.chain);
      CountAppend(Flat(s.chains), a.chain, y);
    }
  }

  lemma FreeWellFormed(s: Phys, i: nat)
    requires Legal(s, DoFree(i))
    ensures WellFormed(Do(s, DoFree(i)))
  {
    FreeChainCount(s.m.free, s.chains[i], 0);
    hide Count, FreeChain, WholePages;
    var cs := s.chains[..i] + s.chains[i + 1..];
    forall k | 0 <= k < |cs| ensures WholePages(cs[k]) {
      assert cs[k] == s.chains[if k < i then k else k + 1];
    }
  }

  lemma FreeOwners(s: Phys, i: nat, y: int)
    requires Legal(s, DoFree(i))
    ensures WellFormed(Do(s, DoFree(i))) && Owners(Do(s, DoFree(i)), y) == Owners(s, y)
  {
    FreeWellFormed(s, i);
    FreeChainCount(s.m.free, s.chains[i], y);
    assert Untouched(Do(s, DoFree(i)).m) == Untouched(s.m);
    hide Count, Flat, FreeChain, WellFormed, Untouched;
    ChainOut(s.chains, i, y);
  }

  /** No operation gives any byte an owner more than it had. */
  lemma DoOwners(s: Phys, op: Op, y: int)
    requires Legal(s, op)
    ensures WellFormed(Do(s, op)) && Owners(Do(s, op), y) <= Owners(s, y)
  {
    match op
    case DoAlloc(bytes) => AllocOwners(s, bytes, y);
    case DoFree(i) => FreeOwners(s, i, y);
    case DoSplit(i, bytes) => SplitOwners(s, i, bytes, y);
  }

  lemma SplitOwners(s: Phys, i: nat, bytes: nat, y: int)
    requires Legal(s, DoSplit(i, bytes))
    ensures WellFormed(Do(s, DoSplit(i, bytes))) && Held(Do(s, DoSplit(i, bytes)), y) == Held(s, y)
  {
    var h := Split(s.chains[i], bytes);
    var a, b := s.chains[..i], s.chains[i + 1..];
    assert Do(s, DoSplit(i, bytes)) == Phys(s.m, a + [h.first, h.second] + b);
    SplitCount(s.chains[i], bytes, y);
    hide Split, Do, Count, Flat, Usable, WholePages;
    ChainOut(s.chains, i, y);
    ChainsIn(a, h.first, h.second, b, y);
    SplitWellFormed(s, i, h);
  }

  lemma SplitWellFormed(s: Phys, i: nat, h: Halves)
    requires WellFormed(s) && i < |s.chains| && WholePages(h.first) && WholePages(h.second)
    ensures WellFormed(Phys(s.m, s.chains[..i] + [h.first, h.second] + s.chains[i + 1..]))
  {
    hide WholePages, Usable;
    var cs := s.chains[..i] + [h.first, h.second] + s.chains[i + 1..];
    forall k | 0 <= k < |cs| ensures WholePages(cs[k]) {
      assert k < i ==> cs[k] == s.chains[k];
      assert k > i + 1 ==> cs[k] == s.chains[k - 1];
    }
  }

  predicate LegalRun(s: Phys, ops: seq<Op>)
    decreases |ops|
  {
    ops == [] || (Legal(s, ops[0]) && LegalRun(Do(s, ops[0]), ops[1..]))
  }

  function After(s: Phys, ops: seq<Op>): Phys
    requires LegalRun(s, ops)
    decreases |ops|
  {
    if ops == [] then s else After(Do(s, ops[0]), ops[1..])
  }

  /** After any sequence of allocations, frees and splits, wherever the splits cut: no byte of physical memory is both
      free and in use, in use twice, or free twice. */
  lemma {:induction false} NoPageHasTwoOwners(s: Phys, ops: seq<Op>, y: int)
    requires Exclusive(s) && LegalRun(s, ops)
    ensures var s' := After(s, ops);
            Exclusive(s') && Count(Untouched(s'.m), y) + Count(s'.m.free, y) + Count(Flat(s'.chains), y) <= 1
    decreases |ops|
  {
    if ops == [] {
      assert Owners(s, y) <= 1;
    } else {
      var s1 := Do(s, ops[0]);
      forall z ensures WellFormed(s1) && Owners(s1, z) <= 1 {
        DoOwners(s, ops[0], z);
        assert Owners(s, z) <= 1;
      }
      assert Exclusive(s1) by { assert WellFormed(s1) by { DoOwners(s, ops[0], 0); } }
      NoPageHasTwoOwners(s1, ops[1..], y);
    }
  }

  // ---- Order of the free list ------------------------------------------------------------------------

  /** Times a byte is in memory nobody has had yet, free, or in use, the runs in use taken together. */
  function Weight(extra: seq<Interval>, free: seq<Interval>, held: seq<Interval>, y: int): nat {
    Count(extra, y) + Count(free, y) + Count(held, y)
  }

  /** An empty run, and nobody has the byte it stands at. */
  predicate Alone(extra: seq<Interval>, free: seq<Interval>, held: seq<Interval>, e: Interval) {
    e.size == 0 ==> Weight(extra, free, held, e.base) == 0
  }

  // What `alloc` can still hand out.

  /** Whole pages of the current region and of every usable region after it. The last region that can be reached is never
      used up: the request that would do it moves on to a region that is not there. */
  function Still(m: Memory): seq<Interval>
    requires Usable(m)
    decreases |m.regions|
  {
    AdvanceOk(m);
    [Interval(m.pointer, Room(m))] + match Advance(m) case None => [] case Some(m') => Still(m')
  }

  /** How much of the current region. */
  function Room(m: Memory): int
    requires Current(m)
  {
    PageFloor(if Advance(m).Some? then Rest(m).size else Rest(m).size - 1)
  }

  function StillLater(m: Memory, y: int): nat
    requires Usable(m)
  {
    AdvanceOk(m);
    match Advance(m) case None => 0 case Some(m') => Count(Still(m'), y)
  }

  lemma StillSplits(m: Memory, y: int)
    requires Usable(m)
    ensures 0 <= Room(m) <= Rest(m).size && Room(m) % PAGE_SIZE == 0
    ensures Count(Still(m), y) == One(Interval(m.pointer, Room(m)), y) + StillLater(m, y)
  {
    AdvanceOk(m);
    PageFloorOk(Rest(m).size);
    PageFloorOk(Rest(m).size - 1);
    assert Still(m)[1..] == match Advance(m) case None => [] case Some(m') => Still(m');
  }

  lemma {:induction false} StillUntouched(m: Memory, y: int)
    requires Usable(m)
    ensures Count(Still(m), y) <= Count(Untouched(m), y)
    decreases |m.regions|
  {
    AdvanceOk(m);
    UntouchedSplits(m, y);
    StillSplits(m, y);
    hide Still, Room;
    if Advance(m).Some? {
      AdvanceCount(m, y);
      StillUntouched(Advance(m).value, y);
    }
  }

  lemma {:induction false} StillWithout(m: Memory, free: seq<Interval>)
    requires Usable(m) && WholePages(free)
    ensures Usable(m.(free := free)) && Still(m.(free := free)) == Still(m)
    decreases |m.regions|
  {
    AdvanceOk(m);
    if Advance(m).Some? { StillWithout(Advance(m).value, free); }
  }

  lemma FloorMinus(size: int, bytes: int)
    requires bytes % PAGE_SIZE == 0
    ensures PageFloor(size - bytes) == PageFloor(size) - bytes
  {
    var q, n := size / PAGE_SIZE, bytes / PAGE_SIZE;
    assert size - bytes == PAGE_SIZE * (q - n) + size % PAGE_SIZE;
  }

  /** Bumping the pointer takes the run out of what is left. */
  lemma BumpStill(m: Memory, bytes: int, y: int)
    requires Usable(m) && bytes > 0 && bytes % PAGE_SIZE == 0 && Bump(m, bytes).Some?
    ensures var t := Bump(m, bytes).value; Usable(t.rest) && One(t.run, y) + Count(Still(t.rest), y) == Count(Still(m), y)
  {
    BumpProgress(m, bytes);
    AdvanceOk(m);
    StillSplits(m, y);
    var t, size := Bump(m, bytes).value, Rest(m).size;
    if m.pointer + bytes < m.regions[0].Extent().End() {
      BumpInside(m, bytes, y);
    } else {
      assert t.run == Interval(m.pointer, Room(m)) && Advance(m) == Some(t.rest);
    }
  }

  lemma BumpInside(m: Memory, bytes: int, y: int)
    requires Usable(m) && bytes > 0 && bytes % PAGE_SIZE == 0 && m.pointer + bytes < m.regions[0].Extent().End()
    ensures var t := Taken(Interval(m.pointer, bytes), m.(pointer := m.pointer + bytes));
            && Bump(m, bytes) == Some(t) && Usable(t.rest)
            && One(t.run, y) + Count(Still(t.rest), y) == Count(Still(m), y)
  {
    var m' := m.(pointer := m.pointer + bytes);
    PageFloorOk(bytes);
    FloorMinus(Rest(m).size, bytes);
    FloorMinus(Rest(m).size - 1, bytes);
    assert Advance(m') == Advance(m) && Room(m') == Room(m) - bytes;
    hide Still, Room, PageFloor;
    StillSplits(m, y);
    StillSplits(m', y);
  }

  lemma TakeRunStill(m: Memory, bytes: int, y: int)
    requires Usable(m) && bytes > 0 && bytes % PAGE_SIZE == 0 && TakeRun(m, bytes).Some?
    ensures var t := TakeRun(m, bytes).value;
            && Usable(t.rest)
            && One(t.run, y) + Count(t.rest.free, y) + Count(Still(t.rest), y) == Count(m.free, y) + Count(Still(m), y)
  {
    TakeRunProgress(m, bytes);
    var t := TakeRun(m, bytes).value;
    if m.free != [] {
      CarveHeadCount(m.free, t.run.size, y);
      StillWithout(m, t.rest.free);
    } else {
      BumpStill(m, bytes, y);
    }
  }

  /** The free list in order and coalesced, no byte twice, and empty runs where they cannot get in the way. */
  ghost predicate Tidy(extra: seq<Interval>, free: seq<Interval>, held: seq<Interval>) {
    && Gapped(free) && WholePages(free) && WholePages(held)
    && (forall y :: Weight(extra, free, held, y) <= 1)
    && (forall e :: e in free ==> Alone(extra, free, held, e))
    && (forall e :: e in held ==> Alone(extra, free, held, e))
  }

  /** No byte has two owners, and an empty run is nowhere where somebody has the byte or may still be given it. */
  ghost predicate InOrder(m: Memory, held: seq<Interval>) {
    Usable(m) && (forall y :: Weight(Untouched(m), m.free, held, y) <= 1) && Tidy(Still(m), m.free, held)
  }

  ghost predicate Orderly(s: Phys) {
    WellFormed(s) && InOrder(s.m, Flat(s.chains))
  }

  /** Only the bytes and the runs count, not how they are grouped; and fewer are never worse. */
  lemma TidySame(extra: seq<Interval>, free: seq<Interval>, held: seq<Interval>, held': seq<Interval>)
    requires Tidy(extra, free, held) && WholePages(held')
    requires forall y :: Count(held', y) <= Count(held, y)
    requires forall e :: e in held' && e.size == 0 ==> e in held
    ensures Tidy(extra, free, held')
  {
    hide Count, Gapped, WholePages;
    forall y ensures Weight(extra, free, held', y) <= Weight(extra, free, held, y) {}
    forall e | e in free ensures Alone(extra, free, held', e) { assert Alone(extra, free, held, e); }
    forall e | e in held' ensures Alone(extra, free, held', e) {
      if e.size == 0 { assert Alone(extra, free, held, e); }
    }
  }

  lemma LooseRuns(extra: seq<Interval>, free: seq<Interval>, r: Interval, held: seq<Interval>, i: nat)
    requires Tidy(extra, free, [r] + held) && i < |free|
    ensures Loose(free[i], r)
  {
    var a := free[i];
    assert a in free && Alone(extra, free, [r] + held, a);
    assert ([r] + held)[0] == r && r in [r] + held && Alone(extra, free, [r] + held, r);
    var y := if a.base >= r.base then a.base else r.base;
    assert Weight(extra, free, [r] + held, y) <= 1;
    CountAt(free, i, y);
    CountAt([r] + held, 0, y);
    CountAt(free, i, r.base);
    CountAt([r] + held, 0, a.base);
  }

  lemma MergeEmpties(l: seq<Interval>, k: nat, e: Interval)
    requires WholePages(l) && e in MergeAt(l, k) && e.size == 0
    ensures e in l
  {
    if k + 1 < |l| && l[k].End() == l[k + 1].base {
      var joined := Interval(l[k].base, l[k].size + l[k + 1].size);
      assert e == joined ==> e == l[k];
    }
  }

  /** An empty run in the list after a free was there before, or is the one freed. */
  lemma InsertEmpties(l: seq<Interval>, x: Interval, e: Interval)
    requires WholePages(l) && WholePages([x]) && e in Insert(l, x) && e.size == 0
    ensures e in l || e == x
  {
    var p := Position(l, x.base);
    var linked := l[..p] + [x] + l[p..];
    assert linked == l[..p] + ([x] + l[p..]);
    MergedPages(l[..p], x, l[p..]);
    MergeCount(linked, p, 0);
    hide Position;
    if p > 0 { MergeEmpties(MergeAt(linked, p), p - 1, e); }
    MergeEmpties(linked, p, e);
  }

  lemma FreeRunKeepsTidy(extra: seq<Interval>, free: seq<Interval>, r: Interval, held: seq<Interval>)
    requires Tidy(extra, free, [r] + held)
    ensures Tidy(extra, Insert(free, r), held)
  {
    var all := [r] + held;
    assert all[0] == r && all[1..] == held;
    assert WholePages([r]) && WholePages(held) by {
      assert forall i :: 0 <= i < |held| ==> held[i] == all[i + 1];
    }
    forall i | 0 <= i < |free| ensures Loose(free[i], r) { LooseRuns(extra, free, r, held, i); }
    InsertLoose(free, r);
    InsertCount(free, r, 0);
    forall y ensures Weight(extra, Insert(free, r), held, y) == Weight(extra, free, all, y) {
      InsertCount(free, r, y);
    }
    hide Insert, Gapped, Count, WholePages, Weight;
    forall e | e in Insert(free, r) ensures Alone(extra, Insert(free, r), held, e) {
      if e.size == 0 {
        InsertEmpties(free, r, e);
        assert r in all && Alone(extra, free, all, e);
      }
    }
    forall e | e in held ensures Alone(extra, Insert(free, r), held, e) {
      assert e in all && Alone(extra, free, all, e);
    }
    forall y ensures Weight(extra, Insert(free, r), held, y) <= 1 {
      assert Weight(extra, free, all, y) <= 1;
    }
  }

  lemma {:induction false} FreeChainKeepsTidy(extra: seq<Interval>, free: seq<Interval>, chain: seq<Interval>, held: seq<Interval>)
    requires Tidy(extra, free, chain + held)
    ensures Tidy(extra, FreeChain(free, chain), held)
    decreases |chain|
  {
    if chain == [] {
      assert chain + held == held;
    } else {
      var r, tail := chain[0], chain[1..];
      MoveToEnd(r, tail, held);
      assert chain == [r] + tail;
      TidySame(extra, free, chain + held, tail + ([r] + held));
      FreeChainKeepsTidy(extra, free, tail, [r] + held);
      FreeRunKeepsTidy(extra, FreeChain(free, tail), r, held);
    }
  }

  lemma MoveToEnd(r: Interval, tail: seq<Interval>, held: seq<Interval>)
    ensures var a, b := [r] + tail + held, tail + ([r] + held);
            && (forall y :: Count(b, y) == Count(a, y)) && (forall e :: e in b <==> e in a)
            && (WholePages(a) ==> WholePages(b))
  {
    var a, b := [r] + tail + held, tail + ([r] + held);
    forall y ensures Count(b, y) == Count(a, y) {
      CountAppend([r] + tail, held, y);
      CountAppend([r], tail, y);
      CountAppend(tail, [r] + held, y);
      CountAppend([r], held, y);
    }
    forall e ensures e in b <==> e in a {}
    if WholePages(a) {
      forall i | 0 <= i < |b| ensures b[i].size >= 0 && b[i].size % PAGE_SIZE == 0 {
        assert b[i] in b && b[i] in a;
        var j :| 0 <= j < |a| && a[j] == b[i];
      }
    }
  }

  lemma CarveEmpties(l: seq<Interval>, n: int, e: Interval)
    requires l != [] && 0 <= n <= l[0].size && e in Carve(l, 0, n) && e.size == 0
    ensures e in l
  {
    assert n < l[0].size ==> Carve(l, 0, n)[0].size > 0;
  }

  /** Taking a run never leaves an empty one where somebody has the byte or may be given it. */
  lemma TakenAlone(m: Memory, bytes: int, held: seq<Interval>)
    requires bytes > 0 && bytes % PAGE_SIZE == 0 && InOrder(m, held) && TakeRun(m, bytes).Some?
    ensures var t := TakeRun(m, bytes).value;
            Usable(t.rest) && (t.run.size == 0 ==> Weight(Still(t.rest), t.rest.free, held, t.run.base) == 0)
  {
    var t := TakeRun(m, bytes).value;
    var y := t.run.base;
    TakeRunProgress(m, bytes);
    TakeRunStill(m, bytes, y);
    if t.run.size == 0 {
      if m.free != [] {
        assert m.free[0] in m.free && Alone(Still(m), m.free, held, m.free[0]);
      } else {
        assert Weight(Untouched(m), m.free, held, y) <= 1;
        UntouchedSplits(m, y);
        AdvanceCount(m, y);
        StillUntouched(t.rest, y);
      }
    }
  }

  lemma TakenList(m: Memory, bytes: int)
    requires Usable(m) && bytes > 0 && bytes % PAGE_SIZE == 0 && TakeRun(m, bytes).Some? && Gapped(m.free)
    ensures var t := TakeRun(m, bytes).value;
            Gapped(t.rest.free) && forall e :: e in t.rest.free && e.size == 0 ==> e in m.free
  {
    TakeRunProgress(m, bytes);
    var t := TakeRun(m, bytes).value;
    if m.free != [] { CarveGapped(m.free, 0, t.run.size); }
    forall e | e in t.rest.free && e.size == 0 ensures e in m.free {
      if m.free != [] { CarveEmpties(m.free, t.run.size, e); }
    }
  }

  /** A run leaves the free list or untouched memory for its new holder. */
  lemma TidyMoves(extra: seq<Interval>, free: seq<Interval>, held: seq<Interval>,
                  extra': seq<Interval>, free': seq<Interval>, run: Interval)
    requires Tidy(extra, free, held) && Gapped(free') && WholePages(free') && WholePages([run])
    requires forall y :: One(run, y) + Count(free', y) + Count(extra', y) <= Count(free, y) + Count(extra, y)
    requires forall e :: e in free' && e.size == 0 ==> e in free
    requires run.size == 0 ==> Weight(extra', free', held, run.base) == 0
    ensures Tidy(extra', free', [run] + held)
  {
    var now := [run] + held;
    forall y ensures Count(now, y) == One(run, y) + Count(held, y) {
      CountAppend([run], held, y);
      CountOne(run, y);
    }
    assert WholePages(now) by {
      assert [run][0] == run;
      assert forall i :: 0 < i < |now| ==> now[i] == held[i - 1];
    }
    hide Count, Gapped, WholePages;
    forall y ensures Weight(extra', free', now, y) <= Weight(extra, free, held, y) <= 1 {
      assert One(run, y) + Count(free', y) + Count(extra', y) <= Count(free, y) + Count(extra, y);
    }
    forall e | e in free' ensures Alone(extra', free', now, e) {
      if e.size == 0 { assert Alone(extra, free, held, e) && Weight(extra', free', now, e.base) <= Weight(extra, free, held, e.base); }
    }
    forall e | e in now ensures Alone(extra', free', now, e) {
      assert e == run || e in held;
      if e.size == 0 && e in held {
        assert Alone(extra, free, held, e) && Weight(extra', free', now, e.base) <= Weight(extra, free, held, e.base);
      }
    }
  }

  lemma OneWhole(r: Interval)
    requires r.size >= 0 && r.size % PAGE_SIZE == 0
    ensures WholePages([r])
  {
  }

  lemma TakeRunKeepsTidy(m: Memory, bytes: int, held: seq<Interval>)
    requires bytes > 0 && bytes % PAGE_SIZE == 0 && InOrder(m, held) && TakeRun(m, bytes).Some?
    ensures var t := TakeRun(m, bytes).value; InOrder(t.rest, [t.run] + held)
  {
    var t := TakeRun(m, bytes).value;
    TakenAlone(m, bytes, held);
    TidyGapped(Still(m), m.free, held);
    forall y ensures Weight(Untouched(t.rest), t.rest.free, [t.run] + held, y) <= 1 {
      TakeRunOnce(m, bytes, held, y);
    }
    hide TakeRun, Tidy, Gapped, WholePages, Count, Untouched, Still, Weight;
    TakeRunProgress(m, bytes);
    TakenList(m, bytes);
    OneWhole(t.run);
    forall y ensures One(t.run, y) + Count(t.rest.free, y) + Count(Still(t.rest), y) <= Count(m.free, y) + Count(Still(m), y) {
      TakeRunStill(m, bytes, y);
    }
    TidyMoves(Still(m), m.free, held, Still(t.rest), t.rest.free, t.run);
  }

  lemma TakeRunOnce(m: Memory, bytes: int, held: seq<Interval>, y: int)
    requires Usable(m) && bytes > 0 && bytes % PAGE_SIZE == 0 && TakeRun(m, bytes).Some?
    ensures var t := TakeRun(m, bytes).value;
            && Usable(t.rest)
            && Weight(Untouched(t.rest), t.rest.free, [t.run] + held, y) <= Weight(Untouched(m), m.free, held, y)
  {
    var t := TakeRun(m, bytes).value;
    TakeRunCount(m, bytes, y);
    CountAppend([t.run], held, y);
    CountOne(t.run, y);
  }

  lemma {:induction false} AllocKeepsTidy(m: Memory, bytes: nat, held: seq<Interval>)
    requires Usable(m) && bytes % PAGE_SIZE == 0 && Alloc(m, bytes).Some? && InOrder(m, held)
    ensures var a := Alloc(m, bytes).value; InOrder(a.rest, a.chain + held)
    decreases bytes, |m.free|, |m.regions|
  {
    hide TakeRun, InOrder, WholePages;
    if bytes == 0 {
      assert [] + held == held;
    } else {
      TakeRunProgress(m, bytes);
      TakeRunKeepsTidy(m, bytes, held);
      var t := TakeRun(m, bytes).value;
      if t.run.size < bytes {
        PagesMinus(bytes, t.run.size);
        AllocKeepsTidy(t.rest, bytes - t.run.size, [t.run] + held);
        var more := Alloc(t.rest, bytes - t.run.size).value;
        OrderToFront(more.rest, t.run, more.chain, held);
      }
    }
  }

  lemma OrderToFront(m: Memory, r: Interval, tail: seq<Interval>, held: seq<Interval>)
    requires InOrder(m, tail + ([r] + held))
    ensures InOrder(m, [r] + tail + held)
  {
    MoveToFront(Still(m), m.free, r, tail, held);
    MoveToEnd(r, tail, held);
    hide Tidy, Count, Untouched, Still;
    forall y ensures Weight(Untouched(m), m.free, [r] + tail + held, y) <= 1 {
      assert Weight(Untouched(m), m.free, tail + ([r] + held), y) <= 1;
    }
  }

  lemma MoveToFront(extra: seq<Interval>, free: seq<Interval>, r: Interval, tail: seq<Interval>, held: seq<Interval>)
    requires Tidy(extra, free, tail + ([r] + held))
    ensures Tidy(extra, free, [r] + tail + held)
  {
    MoveToEnd(r, tail, held);
    var a, b := [r] + tail + held, tail + ([r] + held);
    assert WholePages(a) by {
      forall i | 0 <= i < |a| ensures a[i].size >= 0 && a[i].size % PAGE_SIZE == 0 {
        assert a[i] in a && a[i] in b;
        var j :| 0 <= j < |b| && b[j] == a[i];
      }
    }
    TidySame(extra, free, b, a);
  }

  /** The cut is inside a run, or at a place nobody has. */
  predicate SafeCut(weight: nat, chain: seq<Interval>, bytes: int)
    requires chain != [] && 0 <= bytes <= Total(chain)
  {
    CutRun(chain, bytes).base < CutAddress(chain, bytes) < CutRun(chain, bytes).End() || weight == 0
  }

  lemma {:induction false} FlatHas(cs: seq<seq<Interval>>, e: Interval)
    ensures e in Flat(cs) <==> exists i :: 0 <= i < |cs| && e in cs[i]
  {
    if cs != [] {
      FlatHas(cs[1..], e);
      if e in Flat(cs[1..]) {
        var i :| 0 <= i < |cs[1..]| && e in cs[1..][i];
        assert e in cs[i + 1];
      }
      if i :| 0 <= i < |cs| && e in cs[i] {
        assert i == 0 || cs[1..][i - 1] == cs[i];
      }
    }
  }

  /** The runs after a split: those there were, and two pieces, of which an empty one stands at the cut. */
  lemma SplitRuns(s: Phys, i: nat, bytes: nat, e: Interval)
    requires Legal(s, DoSplit(i, bytes)) && e in Flat(Do(s, DoSplit(i, bytes)).chains) && e.size == 0
    ensures var r, c := CutRun(s.chains[i], bytes), CutAddress(s.chains[i], bytes);
            e in Flat(s.chains) || (e.base == c && (c == r.base || c == r.End()))
  {
    var chain := s.chains[i];
    var r, c := CutRun(chain, bytes), CutAddress(chain, bytes);
    CutInside(chain, bytes);
    var front, back := SplitShape(chain, bytes);
    var cs := Do(s, DoSplit(i, bytes)).chains;
    FlatHas(cs, e);
    var k :| 0 <= k < |cs| && e in cs[k];
    FlatHas(s.chains, e);
    if k < i {
      assert cs[k] == s.chains[k];
    } else if k > i + 1 {
      assert cs[k] == s.chains[k - 1];
    } else if e != Before(r, c) && e != From(r, c) {
      assert e in front || e in back;
      assert e in chain;
    }
  }

  lemma FlatPages(cs: seq<seq<Interval>>)
    requires forall i :: 0 <= i < |cs| ==> WholePages(cs[i])
    ensures WholePages(Flat(cs))
  {
    var l := Flat(cs);
    forall k | 0 <= k < |l| ensures l[k].size >= 0 && l[k].size % PAGE_SIZE == 0 {
      FlatHas(cs, l[k]);
      var i :| 0 <= i < |cs| && l[k] in cs[i];
      var j :| 0 <= j < |cs[i]| && cs[i][j] == l[k];
    }
  }

  lemma SplitKeepsTidy(extra: seq<Interval>, s: Phys, i: nat, bytes: nat)
    requires Legal(s, DoSplit(i, bytes)) && Tidy(extra, s.m.free, Flat(s.chains))
    requires SafeCut(Weight(extra, s.m.free, Flat(s.chains), CutAddress(s.chains[i], bytes)), s.chains[i], bytes)
    ensures Tidy(extra, s.m.free, Flat(Do(s, DoSplit(i, bytes)).chains))
  {
    var s' := Do(s, DoSplit(i, bytes));
    var a, b := Flat(s.chains), Flat(s'.chains);
    forall y ensures Count(a, y) == Count(b, y) { SplitOwners(s, i, bytes, y); }
    SplitOwners(s, i, bytes, 0);
    FlatPages(s'.chains);
    CutInside(s.chains[i], bytes);
    hide Count, Gapped, WholePages, Flat, Split, CutRun, CutAddress, Do;
    forall y ensures Weight(extra, s.m.free, b, y) == Weight(extra, s.m.free, a, y) <= 1 {}
    forall e | e in s.m.free ensures Alone(extra, s.m.free, b, e) { assert Alone(extra, s.m.free, a, e); }
    forall e | e in b ensures Alone(extra, s.m.free, b, e) {
      if e.size == 0 {
        SplitRuns(s, i, bytes, e);
        if e in a { assert Alone(extra, s.m.free, a, e); }
      }
    }
  }

  /** Times a byte is free, in use, or may still be handed out. */
  function Claims(s: Phys, y: int): nat
    requires Usable(s.m)
  {
    Count(Still(s.m), y) + Held(s, y)
  }

  /** Splits cut inside a run or at a place nobody has or will have. */
  predicate Safe(s: Phys, op: Op) {
    && Legal(s, op)
    && (op.DoSplit? ==> SafeCut(Claims(s, CutAddress(s.chains[op.i], op.bytes)), s.chains[op.i], op.bytes))
  }

  predicate SafeRun(s: Phys, ops: seq<Op>)
    decreases |ops|
  {
    ops == [] || (Safe(s, ops[0]) && SafeRun(Do(s, ops[0]), ops[1..]))
  }

  lemma OthersIn(cs: seq<seq<Interval>>, i: nat, e: Interval)
    requires i < |cs| && e in cs[i] + Flat(cs[..i] + cs[i + 1..])
    ensures e in Flat(cs)
  {
    var rest := cs[..i] + cs[i + 1..];
    hide Flat;
    FlatHas(cs, e);
    FlatHas(rest, e);
    if e !in cs[i] {
      var k :| 0 <= k < |rest| && e in rest[k];
      assert rest[k] == cs[if k < i then k else k + 1];
    }
  }

  lemma OthersPages(cs: seq<seq<Interval>>, i: nat)
    requires i < |cs| && (forall k :: 0 <= k < |cs| ==> WholePages(cs[k]))
    ensures WholePages(cs[i] + Flat(cs[..i] + cs[i + 1..]))
  {
    var rest := cs[..i] + cs[i + 1..];
    forall k | 0 <= k < |rest| ensures WholePages(rest[k]) { assert rest[k] == cs[if k < i then k else k + 1]; }
    FlatPages(rest);
  }

  lemma TakeChainOut(extra: seq<Interval>, free: seq<Interval>, cs: seq<seq<Interval>>, i: nat)
    requires i < |cs| && (forall k :: 0 <= k < |cs| ==> WholePages(cs[k]))
    requires Tidy(extra, free, Flat(cs))
    ensures Tidy(extra, free, cs[i] + Flat(cs[..i] + cs[i + 1..]))
  {
    hide Tidy, Flat, Count;
    var rest := cs[..i] + cs[i + 1..];
    var b := cs[i] + Flat(rest);
    forall y ensures Count(b, y) == Count(Flat(cs), y) {
      ChainOut(cs, i, y);
      CountAppend(cs[i], Flat(rest), y);
    }
    forall e | e in b ensures e in Flat(cs) { OthersIn(cs, i, e); }
    OthersPages(cs, i);
    TidySame(extra, free, Flat(cs), b);
  }

  lemma PutChainIn(extra: seq<Interval>, free: seq<Interval>, cs: seq<seq<Interval>>, chain: seq<Interval>)
    requires Tidy(extra, free, chain + Flat(cs)) && (forall k :: 0 <= k < |cs| ==> WholePages(cs[k])) && WholePages(chain)
    ensures Tidy(extra, free, Flat(cs + [chain]))
  {
    var a, b := chain + Flat(cs), Flat(cs + [chain]);
    FlatAppend(cs, [chain]);
    FlatOne(chain);
    hide Count, Flat, Tidy;
    assert b == Flat(cs) + chain;
    forall y ensures Count(b, y) == Count(a, y) {
      CountAppend(chain, Flat(cs), y);
      CountAppend(Flat(cs), chain, y);
    }
    FlatPages(cs);
    assert WholePages(b);
    assert forall e :: e in b ==> e in a;
    TidySame(extra, free, a, b);
  }

  lemma AllocKeepsOrder(s: Phys, bytes: nat)
    requires Orderly(s) && Legal(s, DoAlloc(bytes))
    ensures Orderly(Do(s, DoAlloc(bytes)))
  {
    DoOwners(s, DoAlloc(bytes), 0);
    if Alloc(s.m, bytes).Some? {
      var a := Alloc(s.m, bytes).value;
      AllocKeepsTidy(s.m, bytes, Flat(s.chains));
      AllocTotal(s.m, bytes);
      hide Tidy, Count, Alloc, Still;
      PutChainIn(Still(a.rest), a.rest.free, s.chains, a.chain);
      OnceAfter(s, DoAlloc(bytes));
    }
  }

  lemma OnceAfter(s: Phys, op: Op)
    requires Orderly(s) && Legal(s, op)
    ensures var s' := Do(s, op); Usable(s'.m) && forall y :: Weight(Untouched(s'.m), s'.m.free, Flat(s'.chains), y) <= 1
  {
    var s' := Do(s, op);
    DoOwners(s, op, 0);
    hide Do, Count, Flat, Untouched, Tidy, Usable, Legal;
    forall y ensures Weight(Untouched(s'.m), s'.m.free, Flat(s'.chains), y) <= 1 {
      DoOwners(s, op, y);
      assert Weight(Untouched(s.m), s.m.free, Flat(s.chains), y) <= 1;
    }
  }

  lemma FreeKeepsOrder(s: Phys, i: nat)
    requires Orderly(s) && Legal(s, DoFree(i))
    ensures Orderly(Do(s, DoFree(i)))
  {
    var s' := Do(s, DoFree(i));
    FreeWellFormed(s, i);
    StillWithout(s.m, s'.m.free);
    hide Tidy, Count, FreeChain, Untouched, Still;
    TakeChainOut(Still(s.m), s.m.free, s.chains, i);
    FreeChainKeepsTidy(Still(s.m), s.m.free, s.chains[i], Flat(s'.chains));
    OnceAfter(s, DoFree(i));
  }

  lemma SplitKeepsOrder(s: Phys, i: nat, bytes: nat)
    requires Orderly(s) && Safe(s, DoSplit(i, bytes))
    ensures Orderly(Do(s, DoSplit(i, bytes)))
  {
    DoOwners(s, DoSplit(i, bytes), 0);
    hide Tidy, Count, Untouched, Still;
    SplitKeepsTidy(Still(s.m), s, i, bytes);
    OnceAfter(s, DoSplit(i, bytes));
  }

  lemma SafeKeepsOrder(s: Phys, op: Op)
    requires Orderly(s) && Safe(s, op)
    ensures Orderly(Do(s, op))
  {
    match op
    case DoAlloc(bytes) => AllocKeepsOrder(s, bytes);
    case DoFree(i) => FreeKeepsOrder(s, i);
    case DoSplit(i, bytes) => SplitKeepsOrder(s, i, bytes);
  }

  /** Over every run whose splits are safe the free list is sorted and coalesced. */
  lemma {:induction false} SortedThroughout(s: Phys, ops: seq<Op>)
    requires Orderly(s) && SafeRun(s, ops)
    ensures LegalRun(s, ops) && Orderly(After(s, ops)) && Gapped(After(s, ops).m.free)
    decreases |ops|
  {
    if ops != [] {
      SafeKeepsOrder(s, ops[0]);
      SortedThroughout(Do(s, ops[0]), ops[1..]);
    }
  }

  // ---- When exactly a split endangers the order ----------------------------------------------------------

  predicate OnlyFrees(ops: seq<Op>) {
    forall i :: 0 <= i < |ops| ==> ops[i].DoFree?
  }

  /** However the chains are freed from here, the free list stays in order. */
  ghost predicate FreesStaySorted(s: Phys) {
    forall ops :: OnlyFrees(ops) && LegalRun(s, ops) ==> Gapped(After(s, ops).m.free)
  }

  lemma {:induction false} TidyFrees(s: Phys, ops: seq<Op>)
    requires WellFormed(s) && Tidy([], s.m.free, Flat(s.chains)) && OnlyFrees(ops) && LegalRun(s, ops)
    ensures Gapped(After(s, ops).m.free)
    decreases |ops|
  {
    if ops != [] {
      var s', i := Do(s, ops[0]), ops[0].i;
      TakeChainOut([], s.m.free, s.chains, i);
      FreeChainKeepsTidy([], s.m.free, s.chains[i], Flat(s'.chains));
      DoOwners(s, ops[0], 0);
      TidyFrees(s', ops[1..]);
    }
  }

  /** An empty run put into a list that has the bytes on both sides of it is out of order. */
  lemma {:induction false} InsertInside(l: seq<Interval>, c: int)
    requires Gapped(l) && WholePages(l) && Count(l, c - 1) > 0 && Count(l, c) > 0
    ensures !Gapped(Insert(l, Interval(c, 0)))
  {
    var e := Interval(c, 0);
    hide Insert;
    if l[0].base >= c {
      NothingBelow(l, c - 1);
      assert false;
    } else {
      InsertLater(l, e);
      var t := l[1..];
      var m := Insert(t, e);
      InsertHead(t, e);
      if l[0].End() > c {
        if t != [] { assert t[0].base > l[0].End(); }
        InsertFront(t, e);
        assert Join(l[0], m) == [l[0]] + m && m[0].base == c;
        assert !(([l[0]] + m)[0].End() < ([l[0]] + m)[1].base);
      } else {
        assert !l[0].Has(c);
        assert !l[0].Has(c - 1) by {
          if l[0].Has(c - 1) {
            var i := CountFinds(t, c);
            assert t[i] == l[i + 1];
            Ordered(l, 0, i + 1);
            assert false;
          }
        }
        InsertInside(t, c);
        assert t != [] && t[0].base < c by {
          var i := CountFinds(t, c - 1);
          if i > 0 { Ordered(t, 0, i); }
        }
        assert m[0].base == t[0].base;
        assert Join(l[0], m) == [l[0]] + m;
        assert ([l[0]] + m)[1..] == m;
      }
    }
  }

  lemma {:induction false} NothingBelow(l: seq<Interval>, y: int)
    requires Gapped(l) && (l != [] ==> l[0].base > y)
    ensures Count(l, y) == 0
  {
    if l != [] { NothingBelow(l[1..], y); }
  }

  /** An empty run with nothing on either side of it stays in the list. */
  lemma {:induction false} EmptyIn(l: seq<Interval>, x: Interval, c: int)
    requires Gapped(l) && x.size >= 0 && (Interval(c, 0) in l || x == Interval(c, 0))
    requires Count(l, c - 1) == 0 && Count(l, c) == 0 && !x.Has(c - 1) && !x.Has(c)
    ensures Interval(c, 0) in Insert(l, x)
  {
    var e := Interval(c, 0);
    hide Insert;
    if l == [] || l[0].base >= x.base {
      InsertFront(l, x);
      if l != [] {
        assert !l[0].Has(c - 1) && !l[0].Has(c) && l == [l[0]] + l[1..];
        assert l[0].size >= 0;
      }
    } else {
      InsertLater(l, x);
      var t := l[1..];
      var m := Insert(t, x);
      InsertHead(t, x);
      assert l == [l[0]] + t && !l[0].Has(c - 1) && !l[0].Has(c) && l[0].size >= 0;
      if l[0] == e {
        assert m[0].base > c;
      } else {
        EmptyIn(t, x, c);
        assert m == [m[0]] + m[1..];
        assert l[0].End() == m[0].base ==> m[0] != e;
      }
    }
  }

  /** A run put in front of an empty one at the same place leaves the list out of order. */
  lemma {:induction false} InsertAtEmpty(l: seq<Interval>, r: Interval)
    requires Gapped(l) && Interval(r.base, 0) in l && r.size > 0 && Count(l, r.base - 1) == 0
    ensures !Gapped(Insert(l, r))
  {
    var e := Interval(r.base, 0);
    var k :| 0 <= k < |l| && l[k] == e;
    hide Insert;
    if l[0].base >= r.base {
      if k > 0 { Ordered(l, 0, k); assert false; }
      InsertFront(l, r);
      assert Join(r, l) == [r] + l;
    } else {
      InsertLater(l, r);
      var t := l[1..];
      var m := Insert(t, r);
      InsertHead(t, r);
      assert t[k - 1] == e && l[0].size >= 0 && !l[0].Has(r.base - 1);
      InsertAtEmpty(t, r);
      assert Join(l[0], m) == [l[0]] + m && ([l[0]] + m)[1..] == m;
    }
  }

  lemma {:induction false} RunAppend(s: Phys, ops: seq<Op>, op: Op)
    requires LegalRun(s, ops) && Legal(After(s, ops), op)
    ensures LegalRun(s, ops + [op]) && After(s, ops + [op]) == Do(After(s, ops), op)
    decreases |ops|
  {
    if ops == [] {
      assert [] + [op] == [op] && [op][1..] == [];
      assert LegalRun(Do(s, op), []);
    } else {
      assert (ops + [op])[1..] == ops[1..] + [op];
      RunAppend(Do(s, ops[0]), ops[1..], op);
    }
  }

  function Without(cs: seq<seq<Interval>>, j: nat): seq<seq<Interval>>
    requires j < |cs|
  {
    cs[..j] + cs[j + 1..]
  }

  /** Free every chain but one. */
  lemma {:induction false} FreeAllBut(s: Phys, j: nat, keep: seq<Interval>) returns (ops: seq<Op>)
    requires WellFormed(s) && j < |s.chains| && Tidy([], s.m.free, Flat(Without(s.chains, j)) + keep)
    ensures OnlyFrees(ops) && LegalRun(s, ops) && WellFormed(After(s, ops)) && After(s, ops).chains == [s.chains[j]]
    ensures Tidy([], After(s, ops).m.free, keep)
    ensures forall y :: Count(After(s, ops).m.free, y) == Count(s.m.free, y) + Count(Flat(Without(s.chains, j)), y)
    decreases |s.chains|
  {
    hide *;
    if |s.chains| == 1 {
      ops := [];
      OnlyOne(s, j, keep);
    } else {
      var i, k := PickOther(s.chains, j);
      FreedState(s, i);
      var s' := Do(s, DoFree(i));
      var rest := Without(s'.chains, k);
      FreeOne(s, i, rest, keep);
      var more := FreeAllBut(s', k, keep);
      ops := [DoFree(i)] + more;
      RunCons(s, DoFree(i), more);
      FreesFirst(i, more);
      forall y ensures Count(After(s, ops).m.free, y) == Count(s.m.free, y) + Count(Flat(Without(s.chains, j)), y) {
        OneFreed(s, i, rest, y);
      }
    }
  }

  lemma OnlyOne(s: Phys, j: nat, keep: seq<Interval>)
    requires |s.chains| == 1 && j == 0
    ensures Flat(Without(s.chains, j)) == [] && s.chains == [s.chains[j]] && Flat(Without(s.chains, j)) + keep == keep
    ensures OnlyFrees([]) && LegalRun(s, []) && After(s, []) == s && forall y :: Count([], y) == 0
  {
    assert Without(s.chains, j) == [];
  }

  lemma PickOther(cs: seq<seq<Interval>>, j: nat) returns (i: nat, k: nat)
    requires j < |cs| && |cs| > 1
    ensures i < |cs| && k < |Without(cs, i)| && Without(cs, i)[k] == cs[j]
    ensures Without(cs, j) == [cs[i]] + Without(Without(cs, i), k)
  {
    i, k := if j > 0 then 0 else 1, if j > 0 then j - 1 else 0;
  }

  lemma FreedState(s: Phys, i: nat)
    requires WellFormed(s) && i < |s.chains|
    ensures Legal(s, DoFree(i)) && WholePages(s.chains[i]) && WholePages(s.m.free)
    ensures var s' := Do(s, DoFree(i)); |s'.chains| == |s.chains| - 1
    ensures var s' := Do(s, DoFree(i)); s'.chains == Without(s.chains, i) && s'.m.free == FreeChain(s.m.free, s.chains[i])
  {
  }

  lemma FreesFirst(i: nat, more: seq<Op>)
    requires OnlyFrees(more)
    ensures OnlyFrees([DoFree(i)] + more)
  {
  }

  lemma OneFreed(s: Phys, i: nat, rest: seq<seq<Interval>>, y: int)
    requires i < |s.chains| && WholePages(s.m.free) && WholePages(s.chains[i])
    ensures Count(FreeChain(s.m.free, s.chains[i]), y) + Count(Flat(rest), y)
         == Count(s.m.free, y) + Count(Flat([s.chains[i]] + rest), y)
  {
    FreeChainCount(s.m.free, s.chains[i], y);
    FlatCons(s.chains[i], rest);
    CountAppend(s.chains[i], Flat(rest), y);
  }

  lemma FlatCons(chain: seq<Interval>, cs: seq<seq<Interval>>)
    ensures Flat([chain] + cs) == chain + Flat(cs)
  {
    assert ([chain] + cs)[1..] == cs;
  }

  lemma FreeOne(s: Phys, i: nat, rest: seq<seq<Interval>>, keep: seq<Interval>)
    requires Legal(s, DoFree(i)) && Tidy([], s.m.free, Flat([s.chains[i]] + rest) + keep)
    ensures var s' := Do(s, DoFree(i)); WellFormed(s') && Tidy([], s'.m.free, Flat(rest) + keep)
  {
    FreeWellFormed(s, i);
    FlatCons(s.chains[i], rest);
    var chain := s.chains[i];
    assert chain + Flat(rest) + keep == chain + (Flat(rest) + keep);
    hide Tidy, Flat;
    FreeChainKeepsTidy([], s.m.free, chain, Flat(rest) + keep);
  }

  /** What a split at the edge of a run leaves: the chains before and after, the runs of the chain around the run cut. */
  lemma EdgeRuns(s: Phys, i: nat, bytes: nat, front: seq<Interval>, back: seq<Interval>)
    requires WellFormed(s) && i < |s.chains| && bytes <= Total(s.chains[i]) && s.chains[i] != []
    requires var r := CutRun(s.chains[i], bytes); s.chains[i] == front + [r] + back
    ensures var r, a, b := CutRun(s.chains[i], bytes), s.chains[..i], s.chains[i + 1..];
            var runs := Flat(a + [front + [r]] + b) + back;
            && WholePages(runs) && WholePages(back)
            && (forall y :: Count(runs, y) == Count(Flat(s.chains), y))
            && (forall e :: e in runs ==> e in Flat(s.chains))
  {
    var chain := s.chains[i];
    var r, a, b := CutRun(chain, bytes), s.chains[..i], s.chains[i + 1..];
    var first := front + [r];
    var cs := a + [first] + b;
    var runs := Flat(cs) + back;
    assert cs[..i] + cs[i + 1..] == a + b && cs[i] == first;
    forall y ensures Count(runs, y) == Count(Flat(s.chains), y) {
      CountAppend(Flat(cs), back, y);
      ChainOut(cs, i, y);
      ChainOut(s.chains, i, y);
      CountAppend(first, back, y);
    }
    forall e | e in runs ensures e in Flat(s.chains) {
      FlatHas(s.chains, e);
      FlatHas(cs, e);
      if e in back {
        assert e in chain;
      } else {
        var k :| 0 <= k < |cs| && e in cs[k];
        assert k == i ==> e in chain;
        assert k < i ==> cs[k] == s.chains[k];
        assert k > i ==> cs[k] == s.chains[k];
      }
    }
    FlatPages(s.chains);
    PagesWithin(runs, Flat(s.chains));
    PagesWithin(back, chain);
  }

  lemma EdgeTidy(s: Phys, i: nat, bytes: nat, front: seq<Interval>, back: seq<Interval>, cs: seq<seq<Interval>>)
    requires WellFormed(s) && i < |s.chains| && bytes <= Total(s.chains[i]) && s.chains[i] != []
    requires Tidy([], s.m.free, Flat(s.chains))
    requires var r := CutRun(s.chains[i], bytes);
             s.chains[i] == front + [r] + back && cs == s.chains[..i] + [front + [r]] + s.chains[i + 1..]
    ensures Tidy([], s.m.free, Flat(cs) + back)
    ensures forall y :: Count(Flat(cs) + back, y) == Count(Flat(s.chains), y)
  {
    hide Tidy, WellFormed, Count, Flat, CutRun, WholePages;
    EdgeRuns(s, i, bytes, front, back);
    TidySame([], s.m.free, Flat(s.chains), Flat(cs) + back);
  }

  lemma PagesWithin(l: seq<Interval>, m: seq<Interval>)
    requires WholePages(m) && (forall e :: e in l ==> e in m)
    ensures WholePages(l)
  {
    forall i | 0 <= i < |l| ensures l[i].size >= 0 && l[i].size % PAGE_SIZE == 0 {
      assert l[i] in l && l[i] in m;
      var j :| 0 <= j < |m| && m[j] == l[i];
    }
  }

  /** Free everything, and last the chain that begins with an empty run. */
  lemma EmptyLast(s: Phys, t: Phys, j: nat, back: seq<Interval>, c: int) returns (ops: seq<Op>)
    requires WellFormed(t) && t.m == s.m && j < |t.chains| && t.chains[j] == [Interval(c, 0)] + back
    requires Tidy([], s.m.free, Flat(Without(t.chains, j)) + back)
    requires forall y :: Count(Flat(Without(t.chains, j)) + back, y) == Count(Flat(s.chains), y)
    requires Held(s, c - 1) > 0 && Held(s, c) > 0
    ensures OnlyFrees(ops) && LegalRun(t, ops) && !Gapped(After(t, ops).m.free)
  {
    var before := FreeAllBut(t, j, back);
    var z := After(t, before);
    hide Tidy, WellFormed, Count, Gapped, After, LegalRun, Flat;
    ops := before + [DoFree(0)];
    assert z.chains[0] == [Interval(c, 0)] + back && ([Interval(c, 0)] + back)[1..] == back;
    RunAppend(t, before, DoFree(0));
    LastIsEmpty(z.m.free, back, c, Held(s, c - 1), Held(s, c), s, Without(t.chains, j));
  }

  /** What a split at the end of a run leaves: that run whole, and an empty one in front of the rest. */
  lemma SplitAtEnd(s: Phys, i: nat, bytes: nat) returns (front: seq<Interval>, back: seq<Interval>)
    requires Legal(s, DoSplit(i, bytes)) && bytes > 0
    requires CutAddress(s.chains[i], bytes) == CutRun(s.chains[i], bytes).End()
    ensures var t := Do(s, DoSplit(i, bytes));
            var r, c := CutRun(s.chains[i], bytes), CutAddress(s.chains[i], bytes);
            && s.chains[i] == front + [r] + back && c > r.base
            && WellFormed(t) && t.m == s.m && i + 1 < |t.chains| && t.chains[i + 1] == [Interval(c, 0)] + back
            && Without(t.chains, i + 1) == s.chains[..i] + [front + [r]] + s.chains[i + 1..]
  {
    var r, c := CutRun(s.chains[i], bytes), CutAddress(s.chains[i], bytes);
    front, back := SplitShape(s.chains[i], bytes);
    DoOwners(s, DoSplit(i, bytes), 0);
    assert Before(r, c) == r && From(r, c) == Interval(c, 0);
    var h := Split(s.chains[i], bytes);
    hide WellFormed, Split, CutRun, CutAddress;
    OneOut(s.chains[..i], h.first, h.second, s.chains[i + 1..], i);
  }

  lemma OneOut(a: seq<seq<Interval>>, x: seq<Interval>, z: seq<Interval>, b: seq<seq<Interval>>, i: nat)
    requires i == |a|
    ensures var cs := a + [x, z] + b; cs[i] == x && cs[i + 1] == z && Without(cs, i + 1) == a + [x] + b
  {
  }

  /** The cut is at the end of a run and somebody has the next byte: free everything, the empty run last. */
  lemma CutAtTheEnd(s: Phys, i: nat, bytes: nat) returns (ops: seq<Op>)
    requires WellFormed(s) && Tidy([], s.m.free, Flat(s.chains)) && Legal(s, DoSplit(i, bytes)) && bytes > 0
    requires var c := CutAddress(s.chains[i], bytes); c == CutRun(s.chains[i], bytes).End() && Held(s, c) > 0
    ensures var t := Do(s, DoSplit(i, bytes)); OnlyFrees(ops) && LegalRun(t, ops) && !Gapped(After(t, ops).m.free)
  {
    var t, chain := Do(s, DoSplit(i, bytes)), s.chains[i];
    var r, c := CutRun(chain, bytes), CutAddress(chain, bytes);
    var front, back := SplitAtEnd(s, i, bytes);
    var cs := s.chains[..i] + [front + [r]] + s.chains[i + 1..];
    hide Tidy, WellFormed, Count, Gapped, After, LegalRun, Flat, Do, Split, CutRun, CutAddress;
    EdgeTidy(s, i, bytes, front, back, cs);
    assert r in s.chains[i] && r.Has(c - 1);
    HeldByRun(s, i, r, c - 1);
    ops := EmptyLast(s, t, i + 1, back, c);
  }

  lemma HeldByRun(s: Phys, i: nat, r: Interval, y: int)
    requires i < |s.chains| && r in s.chains[i] && r.Has(y)
    ensures Held(s, y) > 0
  {
    ChainOut(s.chains, i, y);
    var k :| 0 <= k < |s.chains[i]| && s.chains[i][k] == r;
    CountAt(s.chains[i], k, y);
  }

  /** Freeing what is left of the chain and then the empty run. */
  lemma LastIsEmpty(l: seq<Interval>, back: seq<Interval>, c: int, low: nat, high: nat, s: Phys, cs: seq<seq<Interval>>)
    requires Tidy([], l, back) && low == Held(s, c - 1) && high == Held(s, c)
    requires forall y :: Count(l, y) == Count(s.m.free, y) + Count(Flat(cs), y)
    requires forall y :: Count(Flat(cs) + back, y) == Count(Flat(s.chains), y)
    ensures low > 0 && high > 0 ==> !Gapped(Insert(FreeChain(l, back), Interval(c, 0)))
  {
    assert back + [] == back;
    FreeChainKeepsTidy([], l, back, []);
    var m := FreeChain(l, back);
    forall y ensures Count(m, y) == Held(s, y) {
      FreeChainCount(l, back, y);
      CountAppend(Flat(cs), back, y);
    }
    if low > 0 && high > 0 { InsertInside(m, c); }
  }

  /** What `split(0)` leaves: an empty run in front of the chain as it was. */
  lemma SplitAtZero(s: Phys, i: nat)
    requires Legal(s, DoSplit(i, 0))
    ensures var t, c := Do(s, DoSplit(i, 0)), s.chains[i][0].base;
            && WellFormed(t) && t.m == s.m && i + 1 < |t.chains| && CutAddress(s.chains[i], 0) == c
            && t.chains[i] == [Interval(c, 0)] && t.chains[i + 1] == s.chains[i] && Without(t.chains, i) == s.chains
  {
    var chain := s.chains[i];
    StartOfChain(chain);
    DoOwners(s, DoSplit(i, 0), 0);
    assert Split(chain, 0) == Halves([Interval(chain[0].base, 0)], chain) by { assert [chain[0]] + chain[1..] == chain; }
  }

  lemma NothingAdded(l: seq<Interval>)
    ensures l + [] == l
  {
  }

  /** `split(0)` of a run that has a neighbour below it: free everything, the empty run last. */
  lemma CutAtTheStart(s: Phys, i: nat) returns (ops: seq<Op>)
    requires WellFormed(s) && Tidy([], s.m.free, Flat(s.chains)) && Legal(s, DoSplit(i, 0))
    requires var c := CutAddress(s.chains[i], 0); Held(s, c) > 0 && Held(s, c - 1) > 0
    ensures var t := Do(s, DoSplit(i, 0)); OnlyFrees(ops) && LegalRun(t, ops) && !Gapped(After(t, ops).m.free)
  {
    var t, c := Do(s, DoSplit(i, 0)), s.chains[i][0].base;
    SplitAtZero(s, i);
    hide Tidy, WellFormed, Count, Gapped, After, LegalRun, Flat, Do, Held, Legal, CutAddress;
    NothingAdded(Flat(s.chains));
    NothingAdded([Interval(c, 0)]);
    ops := EmptyLast(s, t, i, [], c);
  }

  lemma StartOfChain(chain: seq<Interval>)
    requires chain != [] && WholePages(chain) && 0 <= Total(chain)
    ensures CutAddress(chain, 0) == chain[0].base && CutRun(chain, 0) == chain[0]
  {
  }

  lemma AddEmpty(free: seq<Interval>, held: seq<Interval>, c: int)
    requires Tidy([], free, held) && Weight([], free, held, c) == 0
    ensures Tidy([], free, [Interval(c, 0)] + held)
  {
    var e := Interval(c, 0);
    var now := [e] + held;
    forall y ensures Count(now, y) == Count(held, y) {
      CountAppend([e], held, y);
      CountOne(e, y);
    }
    assert WholePages(now);
    hide Count, WholePages, Gapped;
    forall y ensures Weight([], free, now, y) <= 1 { assert Weight([], free, held, y) <= 1; }
    forall x | x in free ensures Alone([], free, now, x) { assert Alone([], free, held, x); }
    forall x | x in now ensures Alone([], free, now, x) {
      assert x == e || x in held;
      if x in held { assert Alone([], free, held, x); }
    }
  }

  /** An empty run stays in the list while runs that do not touch it are freed. */
  lemma {:induction false} EmptyStays(free: seq<Interval>, chain: seq<Interval>, c: int)
    requires Tidy([], free, chain) && Interval(c, 0) in free
    requires Weight([], free, chain, c - 1) == 0 && Weight([], free, chain, c) == 0
    ensures Interval(c, 0) in FreeChain(free, chain) && Tidy([], FreeChain(free, chain), [])
    ensures Count(FreeChain(free, chain), c - 1) == 0
    decreases |chain|
  {
    if chain == [] {
      assert FreeChain(free, chain) == free;
    } else {
      var r, tail := chain[0], chain[1..];
      assert chain == [r] + tail && chain + [] == chain && tail + [] == tail;
      FreeChainKeepsTidy([], free, chain, []);
      FreeChainCount(free, chain, c - 1);
      assert forall i :: 0 <= i < |tail| ==> tail[i] == chain[i + 1];
      assert WholePages(tail) && forall e :: e in tail ==> e in chain;
      TidySame([], free, chain, tail);
      EmptyStays(free, tail, c);
      var l := FreeChain(free, tail);
      FreeChainCount(free, tail, c);
      EmptyIn(l, r, c);
    }
  }

  /** Freeing an empty run and then the chain behind it in the list of chains. */
  lemma FreeTwice(t: Phys, i: nat, e: Interval)
    requires WellFormed(t) && i + 1 < |t.chains| && t.chains[i] == [e]
    ensures var ops := [DoFree(i), DoFree(i)];
            && OnlyFrees(ops) && LegalRun(t, ops)
            && After(t, ops).m.free == FreeChain(Insert(t.m.free, e), t.chains[i + 1])
  {
    var op, t1 := DoFree(i), Do(t, DoFree(i));
    FreeWellFormed(t, i);
    assert t1.m.free == Insert(t.m.free, e) by {
      assert [e][1..] == [] && FreeChain(t.m.free, [e]) == Insert(FreeChain(t.m.free, []), e);
    }
    assert t1.chains[i] == t.chains[i + 1];
    assert LegalRun(t, []) && After(t, []) == t;
    hide Insert, FreeChain, WellFormed, LegalRun, After;
    RunAppend(t, [], op);
    assert [] + [op] == [op] && [op] + [op] == [op, op];
    RunAppend(t, [op], op);
  }

  /** `split(0)` of a run with nothing below it: free the empty run first, and then the chain. */
  lemma CutBelowNothing(s: Phys, i: nat) returns (ops: seq<Op>)
    requires WellFormed(s) && Tidy([], s.m.free, Flat(s.chains)) && Legal(s, DoSplit(i, 0)) && s.chains[i][0].size > 0
    requires Held(s, s.chains[i][0].base - 1) == 0
    ensures var t := Do(s, DoSplit(i, 0)); OnlyFrees(ops) && LegalRun(t, ops) && !Gapped(After(t, ops).m.free)
  {
    var t, chain := Do(s, DoSplit(i, 0)), s.chains[i];
    var r, back := chain[0], chain[1..];
    SplitAtZero(s, i);
    TailAlone(s, i);
    assert [r] + back == chain;
    hide Tidy, Count, Gapped, Insert, FreeChain, WellFormed, LegalRun, After, Do, Weight, Held;
    BrokenByHead(s.m.free, r, back);
    FreeTwice(t, i, Interval(r.base, 0));
    ops := [DoFree(i), DoFree(i)];
  }

  /** The empty run first, then the rest of the chain, then the run that begins where the empty one stands. */
  lemma BrokenByHead(free: seq<Interval>, r: Interval, back: seq<Interval>)
    requires Tidy([], free, back) && r.size > 0
    requires Weight([], free, back, r.base) == 0 && Weight([], free, back, r.base - 1) == 0
    ensures !Gapped(FreeChain(Insert(free, Interval(r.base, 0)), [r] + back))
  {
    var c := r.base;
    var l := Insert(free, Interval(c, 0));
    assert FreeChain(l, [r] + back) == Insert(FreeChain(l, back), r) by { assert ([r] + back)[1..] == back; }
    hide Insert, Gapped, FreeChain, Tidy, Weight, Count;
    EmptyEnters(free, back, c);
    EmptyStays(l, back, c);
    TidyGapped([], FreeChain(l, back), []);
    InsertAtEmpty(FreeChain(l, back), r);
  }

  lemma TidyGapped(extra: seq<Interval>, free: seq<Interval>, held: seq<Interval>)
    requires Tidy(extra, free, held)
    ensures Gapped(free) && WholePages(free)
  {
  }

  lemma EmptyEnters(free: seq<Interval>, back: seq<Interval>, c: int)
    requires Tidy([], free, back) && Weight([], free, back, c) == 0 && Weight([], free, back, c - 1) == 0
    ensures var l := Insert(free, Interval(c, 0));
            && Tidy([], l, back) && Interval(c, 0) in l
            && Weight([], l, back, c) == 0 && Weight([], l, back, c - 1) == 0
  {
    var e := Interval(c, 0);
    AddEmpty(free, back, c);
    EmptyIn(free, e, c);
    InsertCount(free, e, c - 1);
    InsertCount(free, e, c);
    hide Insert, Gapped, Count;
    FreeRunKeepsTidy([], free, e, back);
  }

  /** The rest of the chain without its first run: nobody then has the byte where that begins. */
  lemma TailAlone(s: Phys, i: nat)
    requires WellFormed(s) && Tidy([], s.m.free, Flat(s.chains)) && i < |s.chains| && s.chains[i] != []
    requires s.chains[i][0].size > 0 && Held(s, s.chains[i][0].base - 1) == 0
    ensures var back, c := s.chains[i][1..], s.chains[i][0].base;
            && Tidy([], s.m.free, back) && WholePages(back)
            && Weight([], s.m.free, back, c) == 0 && Weight([], s.m.free, back, c - 1) == 0
  {
    var chain := s.chains[i];
    var back, c := chain[1..], chain[0].base;
    forall y ensures Count(back, y) <= Count(Flat(s.chains), y) && Count(chain, y) == One(chain[0], y) + Count(back, y) {
      ChainOut(s.chains, i, y);
    }
    forall e | e in back ensures e in Flat(s.chains) {
      FlatHas(s.chains, e);
      assert e in chain;
    }
    PagesWithin(back, chain);
    TidySame([], s.m.free, Flat(s.chains), back);
    ChainOut(s.chains, i, c);
    assert Weight([], s.m.free, Flat(s.chains), c) <= 1;
  }

  /** A split leaves the free list safe from every later order of freeing exactly when it cuts inside a run, or at a place
      whose byte is neither free nor in use. */
  lemma SplitOrderExactlyWhen(s: Phys, i: nat, bytes: nat)
    requires WellFormed(s) && Tidy([], s.m.free, Flat(s.chains)) && Legal(s, DoSplit(i, bytes))
    ensures FreesStaySorted(Do(s, DoSplit(i, bytes)))
       <==> SafeCut(Held(s, CutAddress(s.chains[i], bytes)), s.chains[i], bytes)
  {
    var t, chain := Do(s, DoSplit(i, bytes)), s.chains[i];
    var r, c := CutRun(chain, bytes), CutAddress(chain, bytes);
    CutInside(chain, bytes);
    assert Weight([], s.m.free, Flat(s.chains), c) == Held(s, c);
    if SafeCut(Held(s, c), chain, bytes) {
      SplitKeepsTidy([], s, i, bytes);
      DoOwners(s, DoSplit(i, bytes), 0);
      forall ops | OnlyFrees(ops) && LegalRun(t, ops) ensures Gapped(After(t, ops).m.free) { TidyFrees(t, ops); }
    } else {
      UnsafeCut(s, i, bytes);
    }
  }

  lemma UnsafeCut(s: Phys, i: nat, bytes: nat)
    requires WellFormed(s) && Tidy([], s.m.free, Flat(s.chains)) && Legal(s, DoSplit(i, bytes))
    requires !SafeCut(Held(s, CutAddress(s.chains[i], bytes)), s.chains[i], bytes)
    ensures !FreesStaySorted(Do(s, DoSplit(i, bytes)))
  {
    var chain := s.chains[i];
    var c := CutAddress(chain, bytes);
    CutInside(chain, bytes);
    var front, back := SplitShape(chain, bytes);
    hide Tidy, WellFormed, Count, Gapped, After, LegalRun, Flat, Do, Split, CutRun, CutAddress;
    var ops;
    if bytes > 0 {
      ops := CutAtTheEnd(s, i, bytes);
    } else {
      StartOfChain(chain);
      if Held(s, c - 1) > 0 {
        ops := CutAtTheStart(s, i);
      } else {
        FirstNotEmpty(s, i);
        ops := CutBelowNothing(s, i);
      }
    }
  }

  lemma FirstNotEmpty(s: Phys, i: nat)
    requires WellFormed(s) && Tidy([], s.m.free, Flat(s.chains)) && i < |s.chains| && s.chains[i] != []
    requires Held(s, s.chains[i][0].base) > 0
    ensures s.chains[i][0].size > 0
  {
    var r := s.chains[i][0];
    FlatHas(s.chains, r);
    assert r in s.chains[i] && r in Flat(s.chains) && Alone([], s.m.free, Flat(s.chains), r);
    assert WholePages(s.chains[i]);
  }

  // ---- Memory that can still be handed out, at the cut ---------------------------------------------------------

  lemma {:induction false} TotalPages(l: seq<Interval>)
    requires WholePages(l)
    ensures Total(l) >= 0 && Total(l) % PAGE_SIZE == 0
  {
    if l != [] {
      assert forall i :: 0 <= i < |l[1..]| ==> l[1..][i] == l[i + 1];
      TotalPages(l[1..]);
      PagesPlus(l[0].size, Total(l[1..]));
    }
  }

  /** Asking for everything that is free and then some. */
  lemma {:induction false} AllocDrains(m: Memory, more: nat)
    requires Usable(m) && more > 0 && more % PAGE_SIZE == 0 && Alloc(Unlisted(m), more).Some?
    ensures var a := Alloc(Unlisted(m), more).value;
            && Total(m.free) >= 0 && (Total(m.free) + more) % PAGE_SIZE == 0
            && Alloc(m, Total(m.free) + more) == Some(Allocation(m.free + a.chain, a.rest))
    decreases |m.free|
  {
    var a := Alloc(Unlisted(m), more).value;
    assert m.free == [] ==> Total(m.free) == 0;
    hide TakeRun, Total, Usable, Alloc;
    if m.free == [] {
      assert m == Unlisted(m) && [] + a.chain == a.chain;
    } else {
      var m' := m.(free := m.free[1..]);
      TailUsable(m);
      AllocDrains(m', more);
      DrainHead(m, Total(m'.free) + more, a.chain, a.rest);
    }
  }

  lemma DrainHead(m: Memory, rest: nat, x: seq<Interval>, end: Memory)
    requires Usable(m) && m.free != [] && rest > 0 && rest % PAGE_SIZE == 0 && m.free[0].size % PAGE_SIZE == 0
    requires var m' := m.(free := m.free[1..]);
             m.free[0].size >= 0 && Usable(m') && Alloc(m', rest) == Some(Allocation(m'.free + x, end))
    ensures var bytes := m.free[0].size + rest;
            bytes % PAGE_SIZE == 0 && Alloc(m, bytes) == Some(Allocation(m.free + x, end))
  {
    hide TakeRun, Total, Usable, Alloc;
    PagesPlus(m.free[0].size, rest);
    TakeHead(m, rest);
    AllocStep(m, m.free[0], m.(free := m.free[1..]), rest);
    HeadFirst(m.free, x);
  }

  function Unlisted(m: Memory): (r: Memory)
    requires Usable(m)
    ensures Usable(r)
  {
    m.(free := [])
  }

  lemma HeadFirst(l: seq<Interval>, x: seq<Interval>)
    requires l != []
    ensures l + x == [l[0]] + (l[1..] + x)
  {
  }

  lemma TailUsable(m: Memory)
    requires Usable(m) && m.free != []
    ensures var r, m' := m.free[0], m.(free := m.free[1..]);
            && Usable(m') && Rest(m') == Rest(m) && m'.(free := []) == m.(free := [])
            && r.size >= 0 && r.size % PAGE_SIZE == 0 && Total(m.free) == r.size + Total(m'.free) && Total(m'.free) >= 0
  {
    var m' := m.(free := m.free[1..]);
    assert forall i :: 0 <= i < |m'.free| ==> m'.free[i] == m.free[i + 1];
    TotalPages(m'.free);
  }

  lemma TakeHead(m: Memory, rest: nat)
    requires Usable(m) && m.free != [] && rest > 0
    ensures TakeRun(m, m.free[0].size + rest) == Some(Taken(m.free[0], m.(free := m.free[1..])))
  {
    assert Carve(m.free, 0, m.free[0].size) == m.free[1..];
  }

  lemma AllocStep(m: Memory, r: Interval, m': Memory, rest: nat)
    requires Usable(m) && Usable(m') && r.size >= 0 && rest > 0 && rest % PAGE_SIZE == 0 && (r.size + rest) % PAGE_SIZE == 0
    requires TakeRun(m, r.size + rest) == Some(Taken(r, m')) && Alloc(m', rest).Some?
    ensures var a := Alloc(m', rest).value; Alloc(m, r.size + rest) == Some(Allocation([r] + a.chain, a.rest))
  {
    hide TakeRun, Usable;
    assert r.size + rest - r.size == rest;
  }

  /** Any byte that can still be handed out is, by some request. */
  lemma {:induction false} ReachFresh(m: Memory, c: int) returns (more: nat)
    requires Usable(m) && m.free == [] && Count(Still(m), c) > 0
    ensures more > 0 && more % PAGE_SIZE == 0 && Alloc(m, more).Some? && Count(Alloc(m, more).value.chain, c) > 0
    decreases |m.regions|
  {
    AdvanceOk(m);
    StillSplits(m, c);
    if Interval(m.pointer, Room(m)).Has(c) {
      more := PageFloor(c - m.pointer) + PAGE_SIZE;
      ReachHere(m, c, more);
    } else {
      var m' := Advance(m).value;
      var rest := ReachFresh(m', c);
      more := PageFloor(Rest(m).size) + rest;
      ReachLater(m, m', rest, c);
    }
  }

  lemma ReachHere(m: Memory, c: int, more: nat)
    requires Usable(m) && m.free == [] && m.pointer <= c < m.pointer + Room(m)
    requires more == PageFloor(c - m.pointer) + PAGE_SIZE
    ensures more > 0 && more % PAGE_SIZE == 0 && Alloc(m, more).Some? && Count(Alloc(m, more).value.chain, c) > 0
  {
    StillSplits(m, c);
    PageFloorOk(c - m.pointer);
    PagesPlus(PageFloor(c - m.pointer), PAGE_SIZE);
    PageAbove(c - m.pointer, Room(m));
    PageFloorOk(more);
    AdvanceOk(m);
    assert Advance(m).None? ==> more < Rest(m).size by { PageFloorOk(Rest(m).size - 1); }
    var run := Interval(m.pointer, more);
    assert TakeRun(m, more).Some? && TakeRun(m, more).value.run == run;
    assert Alloc(m, more).Some? && Alloc(m, more).value.chain == [run];
    CountOne(run, c);
  }

  lemma PageAbove(a: int, room: int)
    requires 0 <= a < room && room % PAGE_SIZE == 0
    ensures a < PageFloor(a) + PAGE_SIZE <= room
  {
    var p, q := a / PAGE_SIZE, room / PAGE_SIZE;
    assert p < q;
    assert PAGE_SIZE * (p + 1) <= PAGE_SIZE * q;
  }

  lemma ReachLater(m: Memory, m': Memory, rest: nat, c: int)
    requires Usable(m) && m.free == [] && Advance(m) == Some(m') && Usable(m') && rest > 0 && rest % PAGE_SIZE == 0
    requires Alloc(m', rest).Some? && Count(Alloc(m', rest).value.chain, c) > 0
    ensures var more := PageFloor(Rest(m).size) + rest;
            more > 0 && more % PAGE_SIZE == 0 && Alloc(m, more).Some? && Count(Alloc(m, more).value.chain, c) > 0
  {
    var size := Rest(m).size;
    var run := Interval(m.pointer, PageFloor(size));
    PageFloorOk(size);
    PagesPlus(PageFloor(size), rest);
    FloorBelow(size, rest);
    assert TakeRun(m, PageFloor(size) + rest) == Some(Taken(run, m'));
    hide TakeRun, Usable, PageFloor;
    AllocStep(m, run, m', rest);
    CountAppend([run], Alloc(m', rest).value.chain, c);
  }

  lemma FloorBelow(size: int, rest: int)
    requires size >= 0 && rest > 0 && rest % PAGE_SIZE == 0
    ensures PageFloor(size) + rest > size
  {
    assert rest >= PAGE_SIZE by { var n := rest / PAGE_SIZE; assert rest == PAGE_SIZE * n; }
  }

  lemma Reach(m: Memory, c: int) returns (more: nat)
    requires Usable(m) && Count(Still(m), c) > 0
    ensures more % PAGE_SIZE == 0 && Alloc(m, more).Some? && Count(Alloc(m, more).value.chain, c) > 0
  {
    StillWithout(m, []);
    var n := ReachFresh(Unlisted(m), c);
    hide Alloc, Usable, Total;
    AllocDrains(m, n);
    CountAppend(m.free, Alloc(Unlisted(m), n).value.chain, c);
    more := Total(m.free) + n;
  }

  /** A split and an allocation do not see each other. */
  lemma SplitThenAlloc(s: Phys, i: nat, bytes: nat, more: nat)
    requires Legal(s, DoSplit(i, bytes)) && Legal(s, DoAlloc(more)) && Alloc(s.m, more).Some?
    ensures var t, u := Do(s, DoSplit(i, bytes)), Do(s, DoAlloc(more));
            Legal(t, DoAlloc(more)) && Legal(u, DoSplit(i, bytes)) && Do(t, DoAlloc(more)) == Do(u, DoSplit(i, bytes))
  {
    DoOwners(s, DoSplit(i, bytes), 0);
    DoOwners(s, DoAlloc(more), 0);
    var a := Alloc(s.m, more).value;
    var h := Split(s.chains[i], bytes);
    var u := Do(s, DoAlloc(more));
    assert u.chains[i] == s.chains[i] && u.chains[..i] == s.chains[..i] && u.chains[i + 1..] == s.chains[i + 1..] + [a.chain];
    assert s.chains[..i] + [h.first, h.second] + (s.chains[i + 1..] + [a.chain])
        == s.chains[..i] + [h.first, h.second] + s.chains[i + 1..] + [a.chain];
  }

  predicate NoSplits(ops: seq<Op>) {
    forall i :: 0 <= i < |ops| ==> !ops[i].DoSplit?
  }

  /** Whatever is allocated and freed from here on, the free list stays in order. */
  ghost predicate StaysSorted(s: Phys) {
    forall ops :: NoSplits(ops) && LegalRun(s, ops) ==> Gapped(After(s, ops).m.free)
  }

  lemma {:induction false} NoSplitsSafe(s: Phys, ops: seq<Op>)
    requires NoSplits(ops) && LegalRun(s, ops)
    ensures SafeRun(s, ops)
    decreases |ops|
  {
    if ops != [] {
      assert forall i :: 0 <= i < |ops[1..]| ==> ops[1..][i] == ops[i + 1];
      NoSplitsSafe(Do(s, ops[0]), ops[1..]);
    }
  }

  /** A cut at the edge of a run, where the byte can still be handed out: it can be allocated, and then some order of
      freeing puts the list out of order. */
  lemma AllocatableCutUnsorts(s: Phys, i: nat, bytes: nat) returns (more: nat, ops: seq<Op>)
    requires Orderly(s) && Legal(s, DoSplit(i, bytes)) && Count(Still(s.m), CutAddress(s.chains[i], bytes)) > 0
    requires !SafeCut(1, s.chains[i], bytes)
    ensures var t := Do(s, DoSplit(i, bytes));
            && OnlyFrees(ops) && LegalRun(t, [DoAlloc(more)] + ops)
            && !Gapped(After(t, [DoAlloc(more)] + ops).m.free)
  {
    var c := CutAddress(s.chains[i], bytes);
    more := Reach(s.m, c);
    var t, u := Do(s, DoSplit(i, bytes)), Do(s, DoAlloc(more));
    AllocKeepsOrder(s, more);
    SplitThenAlloc(s, i, bytes, more);
    assert u.chains[i] == s.chains[i] && u.chains[|s.chains|] == Alloc(s.m, more).value.chain;
    ChainOut(u.chains, |s.chains|, c);
    WithoutExtra(Still(u.m), u.m.free, Flat(u.chains));
    UnsafeCut(u, i, bytes);
    var v := Do(u, DoSplit(i, bytes));
    ops :| OnlyFrees(ops) && LegalRun(v, ops) && !Gapped(After(v, ops).m.free);
    RunCons(t, DoAlloc(more), ops);
  }

  /** A split leaves the free list safe from everything that can be allocated and freed afterwards exactly when it cuts
      inside a run, or at a place whose byte is neither free, in use, nor still to be handed out. */
  lemma SplitSafeExactlyWhen(s: Phys, i: nat, bytes: nat)
    requires Orderly(s) && Legal(s, DoSplit(i, bytes))
    ensures StaysSorted(Do(s, DoSplit(i, bytes))) <==> Safe(s, DoSplit(i, bytes))
  {
    var t, c := Do(s, DoSplit(i, bytes)), CutAddress(s.chains[i], bytes);
    if Safe(s, DoSplit(i, bytes)) {
      SafeKeepsOrder(s, DoSplit(i, bytes));
      forall ops | NoSplits(ops) && LegalRun(t, ops) ensures Gapped(After(t, ops).m.free) {
        NoSplitsSafe(t, ops);
        SortedThroughout(t, ops);
      }
    } else if Held(s, c) > 0 {
      WithoutExtra(Still(s.m), s.m.free, Flat(s.chains));
      UnsafeCut(s, i, bytes);
      var ops :| OnlyFrees(ops) && LegalRun(t, ops) && !Gapped(After(t, ops).m.free);
      assert NoSplits(ops);
    } else {
      var more, ops := AllocatableCutUnsorts(s, i, bytes);
      assert NoSplits([DoAlloc(more)] + ops);
    }
  }

  lemma WithoutExtra(extra: seq<Interval>, free: seq<Interval>, held: seq<Interval>)
    requires Tidy(extra, free, held)
    ensures Tidy([], free, held)
  {
    hide Gapped, WholePages;
    forall y ensures Weight([], free, held, y) <= Weight(extra, free, held, y) <= 1 {}
    forall e | e in free ensures Alone([], free, held, e) { assert Alone(extra, free, held, e); }
    forall e | e in held ensures Alone([], free, held, e) { assert Alone(extra, free, held, e); }
  }

  // ---- Where memory comes from ---------------------------------------------------------------------------------------

  /** A byte of the region the allocator started in, or of a usable region below 4 GiB. */
  ghost predicate MayBeUsed(table: seq<Region>, y: int) {
    exists i :: 0 <= i < |table| && table[i].Extent().Has(y) && (i == 0 || (table[i].usable && table[i].base <= UINT32_MAX))
  }

  /** The regions still to come are the rest of the table, and the current one may be used. */
  predicate FromTable(table: seq<Region>, m: Memory) {
    && m.regions != [] && |m.regions| <= |table| && m.pointer >= m.regions[0].base
    && (forall i :: 0 <= i < |m.regions| ==> m.regions[i] == table[|table| - |m.regions| + i])
    && (|m.regions| < |table| ==> m.regions[0].usable && m.regions[0].base <= UINT32_MAX)
  }

  lemma AdvanceFromTable(table: seq<Region>, m: Memory)
    requires FromTable(table, m) && Usable(m) && Advance(m).Some?
    ensures FromTable(table, Advance(m).value)
  {
    AdvanceOk(m);
    var m' := Advance(m).value;
    forall i | 0 <= i < |m'.regions| ensures m'.regions[i] == table[|table| - |m'.regions| + i] {
      assert m'.regions[i] == m.regions[|m.regions| - |m'.regions| + i];
    }
  }

  lemma CurrentMayBeUsed(table: seq<Region>, m: Memory, y: int)
    requires FromTable(table, m) && m.pointer <= y < m.regions[0].Extent().End()
    ensures MayBeUsed(table, y)
  {
    var i := |table| - |m.regions|;
    assert m.regions[0] == table[i] && table[i].Extent().Has(y);
  }

  lemma TakeRunFromTable(table: seq<Region>, m: Memory, bytes: int, y: int)
    requires FromTable(table, m) && Usable(m) && bytes > 0 && bytes % PAGE_SIZE == 0 && TakeRun(m, bytes).Some?
    ensures var t := TakeRun(m, bytes).value;
            && Usable(t.rest) && FromTable(table, t.rest)
            && (One(t.run, y) + Count(t.rest.free, y) > 0 ==> Count(m.free, y) > 0 || MayBeUsed(table, y))
  {
    TakeRunProgress(m, bytes);
    var t := TakeRun(m, bytes).value;
    if m.free != [] {
      CarveHeadCount(m.free, t.run.size, y);
    } else {
      var size := Available(m, bytes);
      PageFloorOk(size);
      if t.run.Has(y) { CurrentMayBeUsed(table, m, y); }
      if m.pointer + size >= m.regions[0].Extent().End() { AdvanceFromTable(table, m); }
    }
  }

  lemma {:induction false} AllocFromTable(table: seq<Region>, m: Memory, bytes: nat, y: int)
    requires FromTable(table, m) && Usable(m) && bytes % PAGE_SIZE == 0 && Alloc(m, bytes).Some?
    ensures var a := Alloc(m, bytes).value;
            && FromTable(table, a.rest)
            && (Count(a.chain, y) + Count(a.rest.free, y) > 0 ==> Count(m.free, y) > 0 || MayBeUsed(table, y))
    decreases bytes, |m.free|, |m.regions|
  {
    if bytes > 0 {
      TakeRunProgress(m, bytes);
      TakeRunFromTable(table, m, bytes, y);
      var t := TakeRun(m, bytes).value;
      CountOne(t.run, y);
      hide FromTable, TakeRun, MayBeUsed;
      if t.run.size < bytes {
        PagesMinus(bytes, t.run.size);
        AllocFromTable(table, t.rest, bytes - t.run.size, y);
        CountAppend([t.run], Alloc(t.rest, bytes - t.run.size).value.chain, y);
      }
    }
  }

  lemma AllocMayBeUsed(table: seq<Region>, s: Phys, bytes: nat, y: int)
    requires FromTable(table, s.m) && Legal(s, DoAlloc(bytes))
    ensures FromTable(table, Do(s, DoAlloc(bytes)).m)
    ensures Held(Do(s, DoAlloc(bytes)), y) > 0 ==> Held(s, y) > 0 || MayBeUsed(table, y)
  {
    if Alloc(s.m, bytes).Some? {
      var a := Alloc(s.m, bytes).value;
      AllocFromTable(table, s.m, bytes, y);
      hide Alloc, FromTable, MayBeUsed, Usable, WholePages;
      FlatAppend(s.chains, [a.chain]);
      FlatOne(a.chain);
      hide Count, Flat;
      CountAppend(Flat(s.chains), a.chain, y);
    }
  }

  lemma DoFromTable(table: seq<Region>, s: Phys, op: Op, y: int)
    requires FromTable(table, s.m) && Legal(s, op)
    ensures FromTable(table, Do(s, op).m)
    ensures Held(Do(s, op), y) > 0 ==> Held(s, y) > 0 || MayBeUsed(table, y)
  {
    match op
    case DoAlloc(bytes) => AllocMayBeUsed(table, s, bytes, y);
    case DoFree(i) =>
      FreeChainCount(s.m.free, s.chains[i], y);
      ChainOut(s.chains, i, y);
      hide FromTable, MayBeUsed, FreeChain, Count, Flat;
    case DoSplit(i, bytes) =>
      SplitOwners(s, i, bytes, y);
      hide FromTable, MayBeUsed, Split, Count, Flat;
  }

  lemma {:induction false} StaysUsable(table: seq<Region>, s: Phys, ops: seq<Op>, y: int)
    requires FromTable(table, s.m) && LegalRun(s, ops) && (Held(s, y) > 0 ==> MayBeUsed(table, y))
    ensures Held(After(s, ops), y) > 0 ==> MayBeUsed(table, y)
    decreases |ops|
  {
    hide FromTable, MayBeUsed, Held;
    if ops != [] {
      DoFromTable(table, s, ops[0], y);
      StaysUsable(table, Do(s, ops[0]), ops[1..], y);
    }
  }

  /** From boot, after any sequence of allocations, frees and splits: what is in use or free lies in usable memory, or in the
      region the allocator started in. */
  lemma OnlyUsableMemory(table: seq<Region>, start: int, ops: seq<Op>, y: int)
    requires table != [] && table[0].base <= start
    requires LegalRun(Phys(Memory([], start, table), []), ops)
    ensures Held(After(Phys(Memory([], start, table), []), ops), y) > 0 ==> MayBeUsed(table, y)
  {
    var s := Phys(Memory([], start, table), []);
    assert FromTable(table, s.m) && Held(s, y) == 0;
    hide MayBeUsed, FromTable;
    StaysUsable(table, s, ops, y);
  }

  /** What has been freed is used again first: as long as that is enough, no new memory is touched, and the bytes handed out
      are the lowest free ones. */
  lemma {:induction false} FreedIsReusedFirst(m: Memory, bytes: nat, y: int, z: int)
    requires Usable(m) && bytes % PAGE_SIZE == 0 && bytes <= Total(m.free) && Gapped(m.free)
    ensures Alloc(m, bytes).Some?
    ensures var a := Alloc(m, bytes).value;
            && a.rest.pointer == m.pointer && a.rest.regions == m.regions
            && Count(a.chain, y) + Count(a.rest.free, y) == Count(m.free, y)
            && (Count(a.chain, y) > 0 && Count(a.rest.free, z) > 0 ==> y < z)
    decreases bytes, |m.free|
  {
    if bytes > 0 {
      TakeRunProgress(m, bytes);
      var t := TakeRun(m, bytes).value;
      assert m.free != [];
      ReusedHead(m, bytes, y, z);
      CountOne(t.run, y);
      if t.run.size < bytes {
        PagesMinus(bytes, t.run.size);
        hide TakeRun, Total, Gapped;
        FreedIsReusedFirst(t.rest, bytes - t.run.size, y, z);
        FreedIsReusedFirst(t.rest, bytes - t.run.size, z, z);
        CountAppend([t.run], Alloc(t.rest, bytes - t.run.size).value.chain, y);
      }
    }
  }

  lemma ReusedHead(m: Memory, bytes: nat, y: int, z: int)
    requires Usable(m) && bytes > 0 && bytes % PAGE_SIZE == 0 && bytes <= Total(m.free) && Gapped(m.free) && m.free != []
    ensures TakeRun(m, bytes).Some?
    ensures var t := TakeRun(m, bytes).value;
            && t.rest.pointer == m.pointer && t.rest.regions == m.regions && Gapped(t.rest.free)
            && One(t.run, y) + Count(t.rest.free, y) == Count(m.free, y)
            && (t.run.size < bytes ==> bytes - t.run.size <= Total(t.rest.free) && |t.rest.free| < |m.free|)
            && (t.run.Has(y) && Count(t.rest.free, z) > 0 ==> y < z)
  {
    var t := TakeRun(m, bytes).value;
    var n := t.run.size;
    CarveHeadCount(m.free, n, y);
    CarveGapped(m.free, 0, n);
    if n < bytes { assert n == m.free[0].size && t.rest.free == m.free[1..]; }
    if t.run.Has(y) && Count(t.rest.free, z) > 0 {
      var i := CountFinds(t.rest.free, z);
      if i > 0 { Ordered(t.rest.free, 0, i); }
    }
  }

  // ---- Boot ---------------------------------------------------------------------------------------------------------

  /** Regions of the memory map do not overlap. */
  predicate MapOk(rs: seq<Region>) {
    && (forall i :: 0 <= i < |rs| ==> rs[i].length > 0)
    && (forall i, j :: 0 <= i < j < |rs| ==>
          rs[i].Extent().End() <= rs[j].base || rs[j].Extent().End() <= rs[i].base)
  }

  lemma {:induction false} ExtentsOnce(rs: seq<Region>, y: int)
    requires MapOk(rs)
    ensures Count(Extents(rs), y) <= 1
    ensures rs != [] && rs[0].Extent().Has(y) ==> Count(Extents(rs[1..]), y) == 0
  {
    if rs != [] {
      ExtentsOnce(rs[1..], y);
      assert Extents(rs)[1..] == Extents(rs[1..]);
      if rs[0].Extent().Has(y) && Count(Extents(rs[1..]), y) > 0 {
        var i := CountFinds(Extents(rs[1..]), y);
        ExtentAt(rs[1..], i);
        assert false;
      }
    }
  }

  lemma {:induction false} ExtentAt(rs: seq<Region>, i: nat)
    requires i < |Extents(rs)|
    ensures |Extents(rs)| == |rs| && Extents(rs)[i] == rs[i].Extent()
  {
    if i > 0 { ExtentAt(rs[1..], i - 1); } else if |rs| > 1 { ExtentAt(rs[1..], 0); }
  }

  /** The allocator starts out in order, with nothing owned twice. */
  lemma BootIsOrderly(table: seq<Region>, start: int)
    requires MapOk(table) && table != [] && table[0].base <= start < table[0].Extent().End()
    ensures var s := Phys(Memory([], start, table), []); Orderly(s) && Exclusive(s)
  {
    var s := Phys(Memory([], start, table), []);
    forall y ensures Count(Still(s.m), y) <= Count(Untouched(s.m), y) <= 1 {
      StillUntouched(s.m, y);
      ExtentsOnce(table, y);
      UntouchedSplits(s.m, y);
      assert Extents(table)[1..] == Extents(table[1..]);
    }
  }

  // ---- A run that ends out of order -----------------------------------------------------------------------------------

  const START: int := 0x20_0000
  const BOOT := Phys(Memory([], START, [Region(0x10_0000, 0x100_0000, true)]), [])
  const MISHAP := [DoAlloc(PAGE_SIZE), DoSplit(0, PAGE_SIZE), DoAlloc(PAGE_SIZE), DoFree(1), DoFree(1)]

  lemma BumpOnePage(start: int, chains: seq<seq<Interval>>)
    requires 0x10_0000 <= start < 0x80_0000 && (forall i :: 0 <= i < |chains| ==> WholePages(chains[i]))
    ensures var s := Phys(Memory([], start, [Region(0x10_0000, 0x100_0000, true)]), chains);
            Legal(s, DoAlloc(PAGE_SIZE))
            && Do(s, DoAlloc(PAGE_SIZE)) == Phys(s.m.(pointer := start + PAGE_SIZE), chains + [[Interval(start, PAGE_SIZE)]])
  {
    var m := Memory([], start, [Region(0x10_0000, 0x100_0000, true)]);
    PageFloorOk(PAGE_SIZE);
    assert TakeRun(m, PAGE_SIZE) == Some(Taken(Interval(start, PAGE_SIZE), m.(pointer := start + PAGE_SIZE)));
  }

  lemma RunCons(s: Phys, op: Op, ops: seq<Op>)
    requires Legal(s, op) && LegalRun(Do(s, op), ops)
    ensures LegalRun(s, [op] + ops) && After(s, [op] + ops) == After(Do(s, op), ops)
  {
    assert ([op] + ops)[1..] == ops;
  }

  const PAGE_A := Interval(START, PAGE_SIZE)
  const EMPTY_B := Interval(START + PAGE_SIZE, 0)
  const PAGE_B := Interval(START + PAGE_SIZE, PAGE_SIZE)

  lemma MishapSplit(s: Phys)
    requires WellFormed(s) && s.chains == [[PAGE_A]]
    ensures Legal(s, DoSplit(0, PAGE_SIZE)) && Do(s, DoSplit(0, PAGE_SIZE)) == Phys(s.m, [[PAGE_A], [EMPTY_B]])
  {
    var a, e := PAGE_A, EMPTY_B;
    assert Total([a]) == PAGE_SIZE by { assert [a][1..] == []; }
    assert Split([a], PAGE_SIZE) == Halves([a], [e]) by { assert [e] + [a][1..] == [e]; }
    assert [[a]][..0] + [[a], [e]] + [[a]][1..] == [[a], [e]];
  }

  /** The state after the first allocation. */
  const FIRST_PAGE := Phys(Memory([], START + PAGE_SIZE, BOOT.m.regions), [[PAGE_A]])
  const FIRST_SPLIT := Phys(FIRST_PAGE.m, [[PAGE_A], [EMPTY_B]])

  lemma MishapEnd()
    requires WellFormed(FIRST_SPLIT)
    ensures var ops := [DoAlloc(PAGE_SIZE)] + [DoFree(1), DoFree(1)];
            LegalRun(FIRST_SPLIT, ops) && !Gapped(After(FIRST_SPLIT, ops).m.free)
  {
    hide Gapped, LegalRun, After, Do, Legal, WellFormed;
    var a, e, b := PAGE_A, EMPTY_B, PAGE_B;
    BumpOnePage(START + PAGE_SIZE, [[a], [e]]);
    var s := Phys(Memory([], START + 2 * PAGE_SIZE, BOOT.m.regions), [[a], [e], [b]]);
    assert Do(FIRST_SPLIT, DoAlloc(PAGE_SIZE)) == s by { assert [[a], [e]] + [[b]] == [[a], [e], [b]]; }
    DoOwners(FIRST_SPLIT, DoAlloc(PAGE_SIZE), 0);
    MishapFrees(s, a, e, b);
    RunCons(FIRST_SPLIT, DoAlloc(PAGE_SIZE), [DoFree(1), DoFree(1)]);
  }

  lemma MishapStart()
    ensures Legal(BOOT, DoAlloc(PAGE_SIZE)) && Do(BOOT, DoAlloc(PAGE_SIZE)) == FIRST_PAGE && WellFormed(FIRST_PAGE)
    ensures Legal(FIRST_PAGE, DoSplit(0, PAGE_SIZE)) && Do(FIRST_PAGE, DoSplit(0, PAGE_SIZE)) == FIRST_SPLIT
    ensures WellFormed(FIRST_SPLIT)
  {
    BumpOnePage(START, []);
    assert [] + [[PAGE_A]] == [[PAGE_A]];
    DoOwners(BOOT, DoAlloc(PAGE_SIZE), 0);
    MishapSplit(FIRST_PAGE);
    DoOwners(FIRST_PAGE, DoSplit(0, PAGE_SIZE), 0);
  }

  /** From boot: allocate a page, split it after its only page, allocate the next page, free the empty rest and then that
      page. The list has them the wrong way round. */
  lemma EmptyRunUnsortsTheList()
    ensures Orderly(BOOT) && LegalRun(BOOT, MISHAP) && !Gapped(After(BOOT, MISHAP).m.free)
  {
    hide Orderly, Gapped, LegalRun, After, Do, Legal, WellFormed;
    BootIsOrderly(BOOT.m.regions, START);
    MishapStart();
    MishapEnd();
    var ops := [DoAlloc(PAGE_SIZE)] + [DoFree(1), DoFree(1)];
    RunCons(FIRST_PAGE, DoSplit(0, PAGE_SIZE), ops);
    RunCons(BOOT, DoAlloc(PAGE_SIZE), [DoSplit(0, PAGE_SIZE)] + ops);
    assert MISHAP == [DoAlloc(PAGE_SIZE)] + ([DoSplit(0, PAGE_SIZE)] + ops);
  }

  lemma MishapFrees(s: Phys, a: Interval, e: Interval, b: Interval)
    requires WellFormed(s) && s.m.free == [] && s.chains == [[a], [e], [b]] && e.size == 0 && b.size > 0 && e.base == b.base
    ensures LegalRun(s, [DoFree(1), DoFree(1)]) && !Gapped(After(s, [DoFree(1), DoFree(1)]).m.free)
  {
    var ops := [DoFree(1), DoFree(1)];
    InsertFront([], e);
    InsertFront([e], b);
    assert [e][1..] == [] && [b][1..] == [];
    var s1 := Phys(s.m.(free := [e]), [[a], [b]]);
    assert Do(s, ops[0]) == s1 by {
      assert FreeChain([], [e]) == Insert(FreeChain([], []), e);
      assert s.chains[..1] + s.chains[2..] == [[a], [b]];
    }
    FreeWellFormed(s, 1);
    var s2 := Do(s1, DoFree(1));
    assert s2.m.free == [b, e] by { assert FreeChain([e], [b]) == Insert(FreeChain([e], []), b); }
    assert ops[1..] == [DoFree(1)] && ops[1..][1..] == [];
    assert After(s1, [DoFree(1)]) == s2;
  }
}
