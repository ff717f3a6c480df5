/**
When the physical allocator of src/mem/page.cpp runs out: where it goes when a region is used up, and how much it can hand
out in all.
*/
module PageSupply {
  import opened Intervals
  import opened PageFrames
  import opened PageOwners
  import opened Wrappers

  const ADDRESSABLE: int := 0x1_0000_0000    // physical addresses have 32 bits

  // ---- The next region -------------------------------------------------------------

  /** The k-th region is the next usable one after the current one. */
  predicate NextUsable(rs: seq<Region>, k: int) {
    0 < k < |rs| && rs[k].usable && forall j :: 0 < j < k ==> !rs[j].usable
  }

  lemma {:induction false} SkipFinds(rs: seq<Region>, k: nat)
    requires k <= |rs| && (forall j :: 0 <= j < k ==> !rs[j].usable) && (k < |rs| ==> rs[k].usable)
    ensures SkipUnusable(rs) == rs[k..]
  {
    if k > 0 { SkipFinds(rs[1..], k - 1); }
  }

  lemma LaterIs(rs: seq<Region>, k: int)
    requires NextUsable(rs, k)
    ensures Later(rs) == rs[k..]
  {
    var tail := rs[1..];
    assert forall j :: 0 <= j < k - 1 ==> tail[j] == rs[j + 1];
    SkipFinds(tail, k - 1);
    assert tail[k - 1..] == rs[k..];
  }

  lemma NothingLater(rs: seq<Region>)
    requires rs != [] && forall j :: 0 < j < |rs| ==> !rs[j].usable
    ensures Later(rs) == []
  {
    var tail := rs[1..];
    assert forall j :: 0 <= j < |tail| ==> tail[j] == rs[j + 1];
    SkipFinds(tail, |tail|);
  }

  lemma {:induction false} FirstAfter(rs: seq<Region>, i: nat, k: nat) returns (n: nat)
    requires 0 < i <= k < |rs| && rs[k].usable && forall j :: 0 < j < i ==> !rs[j].usable
    ensures NextUsable(rs, n)
    decreases k - i
  {
    if rs[i].usable { n := i; } else { n := FirstAfter(rs, i + 1, k); }
  }

  /** A region follows exactly when there is a usable one after the current one and the first such is addressable, and then
      it is that one, from its start. */
  lemma MovesExactlyWhen(m: Memory)
    requires m.regions != []
    ensures Advance(m).Some? <==> exists k: int :: NextUsable(m.regions, k) && m.regions[k].base < ADDRESSABLE
    ensures forall k: int :: NextUsable(m.regions, k) && m.regions[k].base < ADDRESSABLE ==>
              Advance(m) == Some(Memory(m.free, m.regions[k].base, m.regions[k..]))
  {
    forall k: int | NextUsable(m.regions, k) ensures Later(m.regions) == m.regions[k..] { LaterIs(m.regions, k); }
    if Advance(m).Some? {
      if k: nat :| 0 < k < |m.regions| && m.regions[k].usable {
        var n := FirstAfter(m.regions, 1, k);
      } else {
        NothingLater(m.regions);
        assert false;
      }
    }
  }

  /** The panic: nothing is free, the request reaches the end of the current region, and no region follows. */
  lemma RunsOutExactlyWhen(m: Memory, bytes: int)
    requires Usable(m)
    ensures TakeRun(m, bytes) == None <==>
              && m.free == [] && m.pointer + bytes >= m.regions[0].Extent().End()
              && !exists k: int :: NextUsable(m.regions, k) && m.regions[k].base < ADDRESSABLE
  {
    MovesExactlyWhen(m);
    hide Later, NextUsable;
  }

  // ---- How much there is --------------------------------------------------------------

  /** The pages on the free list and those not yet handed out. */
  function Supply(m: Memory): int
    requires Usable(m)
  {
    Total(m.free) + Total(Still(m))
  }

  lemma {:induction false} StillNotNegative(m: Memory)
    requires Usable(m)
    ensures Total(Still(m)) >= 0
    ensures match Advance(m)
            case None => Total(Still(m)) == Room(m)
            case Some(m') => Usable(m') && Total(Still(m)) == Room(m) + Total(Still(m'))
    decreases |m.regions|
  {
    AdvanceOk(m);
    StillSplits(m, 0);
    assert Still(m)[1..] == match Advance(m) case None => [] case Some(m') => Still(m');
    hide Still, Room;
    if Advance(m).Some? { StillNotNegative(Advance(m).value); }
  }

  lemma BumpInsideTakes(m: Memory, bytes: int)
    requires Usable(m) && bytes > 0 && bytes % PAGE_SIZE == 0 && m.pointer + bytes < m.regions[0].Extent().End()
    ensures var t := Taken(Interval(m.pointer, bytes), m.(pointer := m.pointer + bytes));
            && Bump(m, bytes) == Some(t) && Usable(t.rest) && bytes + Total(Still(t.rest)) == Total(Still(m))
  {
    BumpInside(m, bytes, 0);
    var m' := m.(pointer := m.pointer + bytes);
    FloorMinus(Rest(m).size, bytes);
    FloorMinus(Rest(m).size - 1, bytes);
    assert Advance(m') == Advance(m) && Room(m') == Room(m) - bytes;
    hide Still, Room, PageFloor;
    StillNotNegative(m);
    StillNotNegative(m');
    if Advance(m).Some? {
      AdvanceOk(m);
    }
  }

  /** A run taken is that much less to hand out. */
  lemma TakeRunTakes(m: Memory, bytes: int)
    requires Usable(m) && bytes > 0 && bytes % PAGE_SIZE == 0 && TakeRun(m, bytes).Some?
    ensures var t := TakeRun(m, bytes).value; Usable(t.rest) && t.run.size + Supply(t.rest) == Supply(m)
  {
    TakeRunProgress(m, bytes);
    var t := TakeRun(m, bytes).value;
    if m.free != [] {
      CarveTotal(m.free, 0, t.run.size);
      StillWithout(m, t.rest.free);
    } else if m.pointer + bytes < m.regions[0].Extent().End() {
      BumpInsideTakes(m, bytes);
    } else {
      StillNotNegative(m);
      assert t.run == Interval(m.pointer, Room(m)) && Advance(m) == Some(t.rest);
    }
  }

  lemma TakeRunFails(m: Memory, bytes: int)
    requires Usable(m) && TakeRun(m, bytes) == None
    ensures bytes > Supply(m)
  {
    StillNotNegative(m);
    PageFloorOk(Rest(m).size - 1);
  }

  /** A request is met exactly when there are that many bytes in pages left, and then there are that many fewer. */
  lemma {:induction false} AllocSucceedsExactlyWhen(m: Memory, bytes: nat)
    requires Usable(m) && bytes % PAGE_SIZE == 0
    ensures Alloc(m, bytes).Some? <==> bytes <= Supply(m)
    ensures Alloc(m, bytes).Some? ==>
              var rest := Alloc(m, bytes).value.rest; Usable(rest) && Supply(rest) == Supply(m) - bytes
    decreases bytes, |m.free|, |m.regions|
  {
    SupplyNotNegative(m);
    if bytes > 0 {
      if TakeRun(m, bytes) == None {
        TakeRunFails(m, bytes);
      } else {
        var t := TakeRun(m, bytes).value;
        TakeRunProgress(m, bytes);
        TakeRunTakes(m, bytes);
        SupplyNotNegative(t.rest);
        hide TakeRun, Supply, Usable;
        if t.run.size < bytes {
          PagesMinus(bytes, t.run.size);
          AllocSucceedsExactlyWhen(t.rest, bytes - t.run.size);
        }
      }
    }
  }

  lemma SupplyNotNegative(m: Memory)
    requires Usable(m)
    ensures Supply(m) >= 0
  {
    StillNotNegative(m);
    TotalPages(m.free);
  }

  // ---- Nothing is lost ------------------------------------------------------------------

  lemma {:induction false} TotalAppend(a: seq<Interval>, b: seq<Interval>)
    ensures Total(a + b) == Total(a) + Total(b)
  {
    if a == [] {
      assert a + b == b;
    } else {
      assert (a + b)[1..] == a[1..] + b;
      TotalAppend(a[1..], b);
    }
  }

  lemma TotalOne(x: Interval)
    ensures Total([x]) == x.size
  {
    assert [x][1..] == [];
  }

  lemma MergeTotal(l: seq<Interval>, k: nat)
    ensures Total(MergeAt(l, k)) == Total(l)
  {
    if k + 1 < |l| && l[k].End() == l[k + 1].base {
      var a, b := l[k], l[k + 1];
      var joined := Interval(a.base, a.size + b.size);
      assert l == l[..k] + ([a] + ([b] + l[k + 2..])) && MergeAt(l, k) == l[..k] + ([joined] + l[k + 2..]);
      TotalAppend(l[..k], [a] + ([b] + l[k + 2..]));
      TotalAppend([a], [b] + l[k + 2..]);
      TotalAppend([b], l[k + 2..]);
      TotalAppend(l[..k], [joined] + l[k + 2..]);
      TotalAppend([joined], l[k + 2..]);
      TotalOne(a);
      TotalOne(b);
      TotalOne(joined);
    }
  }

  /** Whatever the order of the list. */
  lemma FreeingAdds(l: seq<Interval>, x: Interval)
    ensures Total(Insert(l, x)) == Total(l) + x.size
  {
    var p := Position(l, x.base);
    var linked := l[..p] + [x] + l[p..];
    assert l == l[..p] + l[p..] && linked == l[..p] + ([x] + l[p..]);
    TotalAppend(l[..p], l[p..]);
    TotalAppend(l[..p], [x] + l[p..]);
    TotalAppend([x], l[p..]);
    TotalOne(x);
    MergeTotal(linked, p);
    if p > 0 { MergeTotal(MergeAt(linked, p), p - 1); }
  }

  lemma {:induction false} FreeingChainAdds(l: seq<Interval>, chain: seq<Interval>)
    ensures Total(FreeChain(l, chain)) == Total(l) + Total(chain)
    decreases |chain|
  {
    if chain != [] {
      FreeingChainAdds(l, chain[1..]);
      FreeingAdds(FreeChain(l, chain[1..]), chain[0]);
    }
  }

  lemma SplitKeepsTotal(chain: seq<Interval>, bytes: int)
    requires chain != [] && WholePages(chain) && 0 <= bytes <= Total(chain)
    ensures var h := Split(chain, bytes); Total(h.first) + Total(h.second) == Total(chain)
  {
    var front, back := SplitShape(chain, bytes);
    var r, c := CutRun(chain, bytes), CutAddress(chain, bytes);
    hide Split, CutRun, CutAddress;
    TotalOne(r);
    TotalOne(Before(r, c));
    TotalOne(From(r, c));
    TotalAppend(front + [r], back);
    TotalAppend(front, [r]);
    TotalAppend(front, [Before(r, c)]);
    TotalAppend([From(r, c)], back);
  }

  /** What the callers have in all. */
  function InUse(s: Phys): int { Total(Flat(s.chains)) }

  lemma TakenOut(cs: seq<seq<Interval>>, i: nat)
    requires i < |cs|
    ensures Total(Flat(cs)) == Total(cs[i]) + Total(Flat(cs[..i] + cs[i + 1..]))
  {
    var a, c, b := cs[..i], cs[i], cs[i + 1..];
    assert cs == a + ([c] + b);
    TakenFromBetween(a, c, b);
  }

  lemma TakenFromBetween(a: seq<seq<Interval>>, c: seq<Interval>, b: seq<seq<Interval>>)
    ensures Total(Flat(a + ([c] + b))) == Total(c) + Total(Flat(a + b))
  {
    FlatOne(c);
    hide Flat, Total;
    FlatAppend(a, [c] + b);
    FlatAppend(a, b);
    FlatAppend([c], b);
    TotalAppend(Flat(a), c + Flat(b));
    TotalAppend(c, Flat(b));
    TotalAppend(Flat(a), Flat(b));
  }

  lemma AllocConserves(s: Phys, bytes: nat)
    requires Legal(s, DoAlloc(bytes)) && Alloc(s.m, bytes).Some?
    ensures var s' := Do(s, DoAlloc(bytes)); Usable(s'.m) && Supply(s'.m) + InUse(s') == Supply(s.m) + InUse(s)
  {
    var a := Alloc(s.m, bytes).value;
    AllocSucceedsExactlyWhen(s.m, bytes);
    AllocTotal(s.m, bytes);
    hide Alloc, Usable, Flat, Total;
    FlatAppend(s.chains, [a.chain]);
    FlatOne(a.chain);
    TotalAppend(Flat(s.chains), a.chain);
  }

  lemma FreeConserves(s: Phys, i: nat)
    requires Legal(s, DoFree(i))
    ensures var s' := Do(s, DoFree(i)); Usable(s'.m) && Supply(s'.m) + InUse(s') == Supply(s.m) + InUse(s)
  {
    FreeOwners(s, i, 0);
    TakenOut(s.chains, i);
    FreeingChainAdds(s.m.free, s.chains[i]);
    StillWithout(s.m, Do(s, DoFree(i)).m.free);
  }

  lemma SplitConserves(s: Phys, i: nat, bytes: nat)
    requires Legal(s, DoSplit(i, bytes))
    ensures var s' := Do(s, DoSplit(i, bytes)); s'.m == s.m && InUse(s') == InUse(s)
  {
    var h := Split(s.chains[i], bytes);
    SplitKeepsTotal(s.chains[i], bytes);
    hide Split, Flat, Total, Usable, WholePages;
    var a, b := s.chains[..i], s.chains[i + 1..];
    var cs := Do(s, DoSplit(i, bytes)).chains;
    assert cs == a + [h.first, h.second] + b && cs[i] == h.first && cs[..i] + cs[i + 1..] == a + [h.second] + b;
    TakenOut(cs, i);
    var ds := a + [h.second] + b;
    assert ds[i] == h.second && ds[..i] + ds[i + 1..] == a + b;
    TakenOut(ds, i);
    TakenOut(s.chains, i);
  }

  lemma DoConserves(s: Phys, op: Op)
    requires Legal(s, op)
    ensures var s' := Do(s, op); WellFormed(s') && Supply(s'.m) + InUse(s') == Supply(s.m) + InUse(s)
  {
    DoOwners(s, op, 0);
    hide Supply, InUse, Usable, WholePages;
    match op
    case DoAlloc(bytes) => if Alloc(s.m, bytes).Some? { AllocConserves(s, bytes); }
    case DoFree(i) => FreeConserves(s, i);
    case DoSplit(i, bytes) => SplitConserves(s, i, bytes);
  }

  /** After any sequence of allocations, frees and splits there is as much in use and left together as there was before. */
  lemma {:induction false} NothingIsLost(s: Phys, ops: seq<Op>)
    requires WellFormed(s) && LegalRun(s, ops)
    ensures var s' := After(s, ops); WellFormed(s') && Supply(s'.m) + InUse(s') == Supply(s.m) + InUse(s)
    decreases |ops|
  {
    if ops != [] {
      DoConserves(s, ops[0]);
      NothingIsLost(Do(s, ops[0]), ops[1..]);
    }
  }

  /** So from boot a request is met exactly when it and what is in use fit in what there was. */
  lemma MetExactlyWhen(m: Memory, ops: seq<Op>, bytes: nat)
    requires Usable(m) && LegalRun(Phys(m, []), ops) && bytes % PAGE_SIZE == 0
    ensures var s := After(Phys(m, []), ops);
            Usable(s.m) && (Alloc(s.m, bytes).Some? <==> InUse(s) + bytes <= Supply(m))
  {
    NothingIsLost(Phys(m, []), ops);
    AllocSucceedsExactlyWhen(After(Phys(m, []), ops).m, bytes);
  }
}
