/**
`do_kmalloc` and `kfree_nolock` of src/mem/kmem.cpp as they run: the search and walk loops, the order of the updates, and
a separately maintained `free_end`. The free list and the list of spare nodes are sequences, so relinking is an update of
a sequence and `next` pointers do not occur. Each method is tied to the specification in `Kmem`.
*/
module KmemAllocator {
  import opened Wrappers
  import opened Intervals
  import opened Kmem

  /** What a call comes to. `Block` names the block by its header; the kernel's pointer is `HEADER` further on. */
  datatype Result = Null | Block(header: int) | PanicNoMemory | Diverges

  /** The call did what the specification says: same result, same heap, same pages left. */
  predicate Matches(out: Outcome, r: Result, h: Heap, pool: seq<Supply>) {
    match out
    case Granted(g, block, rest) => r == Block(block) && h == g && pool == rest
    case NoMemory => r == PanicNoMemory
    case NoReserve => r == Diverges
    case Stuck => r == Diverges
  }

  class Allocator {
    var free: seq<Node>          // free_list, in link order
    var freeEnd: Option<int>     // free_end: the address of the node believed to be last
    var spare: seq<int>          // free_free_structs
    var headers: map<int, int>   // the size fields of the headers in memory
    var used: int
    var total: int
    var end: int                 // map.memory_end
    var pool: seq<Supply>        // what the page layer will still hand out
    ghost var anchors: set<int>
    ghost var lost: int

    ghost function Heap(): Heap
      reads this
    {
      Kmem.Heap(free, spare, headers, anchors, used, total, end, lost)
    }

    /** `_verify`: free_end is the last node of the list. */
    predicate EndOk()
      reads this
    {
      freeEnd == if free == [] then None else Some(free[|free| - 1].at)
    }

    ghost predicate Valid()
      reads this
    {
      Kmem.Valid(Heap()) && EndOk()
    }

    constructor (base: int, supplies: seq<Supply>)
      requires base % PAGE_SIZE == 0
      ensures Valid() && Heap() == Initial(base) && pool == supplies
    {
      free := [Node(base + 36, Interval(base + 48, PAGE_SIZE - 48))];
      freeEnd := Some(base + 36);
      spare := [];
      headers := map[base := PAGE_STRUCT, base + 28 := NODE];
      used, total, end, pool := 48, PAGE_SIZE, base + PAGE_SIZE, supplies;
      anchors, lost := {}, 0;
      new;
      InitialValid(base);
    }

    /** What the list manipulation itself relies on: nodes are distinct and lie below the end of the heap. */
    predicate Linked()
      reads this
    {
      EndOk() && DistinctNodes(free) && forall i :: 0 <= i < |free| ==> free[i].at < end
    }

    /** Use up the k-th region; its node becomes spare. */
    method TakeWhole(k: nat)
      requires Linked() && k < |free|
      modifies this`free, this`freeEnd, this`spare, this`headers, this`used
      ensures Linked() && free == old(free)[..k] + old(free)[k + 1..] && spare == [old(free)[k].at] + old(spare)
      ensures var r := old(free)[k].region; headers == old(headers)[r.base := r.size - HEADER] && used == old(used) + r.size
    {
      NodeDropped(free, k, end);
      hide DistinctNodes;
      var node := free[k];
      var size := node.region.size - HEADER;
      free := free[..k] + free[k + 1..];
      if freeEnd == Some(node.at) {
        freeEnd := if k == 0 then None else Some(free[k - 1].at);
      }
      spare := [node.at] + spare;
      headers := headers[node.region.base := size];
      used := used + size + HEADER;
    }

    /** Use up or shrink the k-th region. */
    method Take(k: nat, need: int)
      requires Linked() && k < |free|
      modifies this`free, this`freeEnd, this`spare, this`headers, this`used
      ensures Linked() && Heap() == Grant(old(Heap()), k, need)
    {
      var node := free[k];
      var base := node.region.base;
      if need + HEADER >= node.region.size {
        TakeWhole(k);
      } else {
        NodeChanged(free, k, end, Interval(base + need, node.region.size - need));
        hide DistinctNodes;
        free := free[k := Node(node.at, Interval(base + need, node.region.size - need))];
        headers := headers[base := need - HEADER];
        used := used + need;
      }
    }

    /** The search loop: the first region that is large enough. */
    method Search(need: int) returns (k: nat)
      ensures k == FirstFit(free, need)
    {
      k := 0;
      while k < |free| && free[k].region.size < need
        invariant k <= |free|
        invariant forall i :: 0 <= i < k ==> free[i].region.size < need
      {
        k := k + 1;
      }
      FirstFitUnique(free, need, k);
    }

    /** New pages at `loc`: joined to the node `prev` points at when that reaches them, or given a node of their own. */
    method Join(bytes: int, loc: int, reaches: bool, prev: int, ghost usedUp: bool)
      requires Linked() && loc >= end && bytes > HEADER + NODE
      requires reaches && free != [] ==> (usedUp <==> free[|free| - 1].at != prev)
      modifies this`free, this`freeEnd, this`headers, this`total, this`end, this`anchors, this`lost
      ensures Linked() && Heap() == Attach(old(Heap()), bytes, loc, reaches, usedUp)
    {
      total, end := total + bytes, loc + bytes;
      if reaches {
        if free != [] && free[|free| - 1].at == prev {
          var r := free[|free| - 1].region;
          free := free[|free| - 1 := Node(prev, Interval(r.base, r.size + bytes))];
        } else {
          lost := lost + bytes;   // prev->size is increased, but prev is no longer in the list
        }
      } else {
        headers := headers[loc := NODE];
        anchors := anchors + {loc};
        free := free + [Node(loc + HEADER, Interval(loc + HEADER + NODE, bytes - HEADER - NODE))];
        freeEnd := Some(loc + HEADER);
      }
    }

    /** The page layer's own allocation of a struct for the new run. */
    method Prepare(s: Supply)
      requires Linked() && (s.newStruct ==> FirstFit(free, PAGE_STRUCT + HEADER) < |free|)
      modifies this`free, this`freeEnd, this`spare, this`headers, this`used
      ensures Linked() && Heap() == Prepared(old(Heap()), s)
    {
      if s.newStruct {
        var k := Search(PAGE_STRUCT + HEADER);
        Take(k, PAGE_STRUCT + HEADER);
      }
    }

    /** Where the new pages go, whether the last region reaches them, and how many bytes to add. */
    method Plan(need: int, walked: bool, s: Supply) returns (loc: int, reaches: bool, bytes: int)
      requires need >= 0 && (walked ==> FirstFit(free, need) == |free|)
      ensures loc == Loc(Heap(), s) && loc >= end && reaches == TailReaches(Heap(), walked, s)
      ensures bytes == PagesNeeded(Heap(), need, walked, s) * PAGE_SIZE && bytes > HEADER + NODE
    {
      loc := end + s.gap * PAGE_SIZE;
      reaches := walked && free != [] && free[|free| - 1].region.End() == loc;
      var room := if reaches then free[|free| - 1].region.size else 0;
      bytes := ((need + PAGE_STRUCT + NODE - room) % WORD / PAGE_SIZE + MINIMUM_PAGES) * PAGE_SIZE;
      PagesNeededEnough(Heap(), need, walked, s);
    }

    /** The growth half of do_kmalloc, with `page::alloc` and `kinstall_append` as seen from here. */
    method Extend(need: int, walked: bool)
      requires Linked() && pool != [] && need >= 0 && (walked ==> FirstFit(free, need) == |free|)
      requires pool[0].newStruct ==> FirstFit(free, PAGE_STRUCT + HEADER) < |free|
      modifies this
      ensures Linked() && pool == old(pool)[1..]
      ensures Heap() == Grow(old(Heap()), need, walked, old(pool)[0])
    {
      hide Attach, PagesNeeded, Grant, DistinctNodes;
      var s := pool[0];
      ghost var h := Heap();
      var loc, reaches, bytes := Plan(need, walked, s);
      var prev := if free == [] then 0 else free[|free| - 1].at;
      pool := pool[1..];
      Prepare(s);
      assert reaches && free != [] ==> (TailUsedUp(h, s) <==> free[|free| - 1].at != prev) by {
        if h.free != [] { TailStays(h, s); }
      }
      Join(bytes, loc, reaches, prev, TailUsedUp(h, s));
    }

    /** `do_kmalloc` once the request has been rounded. */
    method Obtain(need: int, reserved: bool) returns (r: Result)
      requires Linked() && need >= 0
      modifies this
      ensures r.Block? ==> Linked()
      ensures Matches(Allocate(old(Heap()), need, reserved, old(pool)), r, Heap(), pool)
      decreases |pool|
    {
      ghost var h := Heap();
      var low := used + need > total - MINIMUM_PAGES * PAGE_SIZE || total < MINIMUM_PAGES * PAGE_SIZE;
      var walked := !low || reserved;
      if walked {
        var k := Search(need);
        if k < |free| {
          r := Block(free[k].region.base);
          Take(k, need);
          return;
        }
      }
      if pool == [] { return PanicNoMemory; }
      if pool[0].newStruct {
        var k := Search(PAGE_STRUCT + HEADER);
        if k == |free| { return Diverges; }
      }
      if pool[0].several { return Diverges; }
      AllocateStep(h, need, reserved, pool);
      Extend(need, walked);
      r := Obtain(need, reserved);
    }

    method Kmalloc(request: nat, reserved: bool) returns (r: Result)
      requires Valid() && request <= 0xFFFF_FFF4
      modifies this
      ensures r.Null? || r.Block? ==> Valid()
      ensures request == 0 ==> r == Null && Heap() == old(Heap())
      ensures request > 0 ==> Matches(Allocate(old(Heap()), Needed(request), reserved, old(pool)), r, Heap(), pool)
    {
      if request == 0 { return Null; }
      var size := request;
      if size % 4 != 0 { size := (size + 4 - size % 4) % WORD; }
      if size < PAGE_STRUCT { size := PAGE_STRUCT; }
      var need := (size + HEADER) % WORD;
      ghost var h, supplies := Heap(), pool;
      assert need == Needed(request);
      assert Linked() by { ValidMeansLinked(h); }
      r := Obtain(need, reserved);
      if r.Block? {
        assert Kmem.Valid(Heap()) by {
          NeededShape(request);
          AllocateKeeps(h, need, reserved, supplies);
        }
      }
    }

    /** `_merge_free` on the k-th node. */
    method MergeFree(k: nat)
      requires EndOk() && k < |free|
      modifies this`free, this`freeEnd, this`spare
      ensures EndOk() && k < |free| && Lists(free, spare) == MergeNode(old(Lists(free, spare)), k)
    {
      var first := free[k];
      if k + 1 < |free| && first.region.End() == free[k + 1].region.base {
        var hold := free[k + 1];
        free := free[..k] + [Node(first.at, Interval(first.region.base, first.region.size + hold.region.size))] + free[k + 2..];
        spare := [hold.at] + spare;
        if k + 1 == |free| { freeEnd := Some(first.at); }
      }
    }

    /** The relinking half of kfree_nolock. */
    method LinkIn(entry: Node)
      requires EndOk()
      modifies this`free, this`freeEnd, this`spare
      ensures EndOk() && Lists(free, spare) == InsertNode(old(Lists(free, spare)), entry)
    {
      hide InsertNode;
      if free == [] {
        InsertIntoEmpty(spare, entry);
        free, freeEnd := [entry], Some(entry.at);
      } else {
        var p := 0;
        while p < |free| && free[p].region.base < entry.region.base
          invariant p <= |free|
          invariant forall i :: 0 <= i < p ==> free[i].region.base < entry.region.base
        {
          p := p + 1;
        }
        PositionUnique(Regions(free), entry.region.base, p);
        LinkAt(p, entry);
      }
    }

    method LinkAt(p: nat, entry: Node)
      requires EndOk() && p == Position(Regions(free), entry.region.base)
      modifies this`free, this`freeEnd, this`spare
      ensures EndOk() && Lists(free, spare) == InsertNode(old(Lists(free, spare)), entry)
    {
      hide MergeNode, Regions, Position;
      var atEnd := p == |free|;
      free := free[..p] + [entry] + free[p..];
      if atEnd { freeEnd := Some(entry.at); }
      MergeFree(p);
      if p > 0 { MergeFree(p - 1); }
    }

    /** `_get_struct`: a spare node, or a new one from the reserve. */
    method GetStruct() returns (r: Result)
      requires Linked()
      modifies this
      ensures old(spare) != [] ==>
                r == Block(old(spare)[0] - HEADER) && EndOk() && pool == old(pool)
                && Heap() == old(Heap()).(spare := old(spare)[1..])
      ensures old(spare) == [] ==> Matches(Allocate(old(Heap()), Needed(NODE), true, old(pool)), r, Heap(), pool)
      ensures r.Block? ==> EndOk()
    {
      if spare != [] {
        r := Block(spare[0] - HEADER);
        spare := spare[1..];
      } else {
        r := Obtain(Needed(NODE), true);
      }
    }

    /** `kfree_nolock`, given that the block outlives the allocation of a node. */
    method FreeBlock(a: int) returns (r: Result)
      requires Linked() && a in headers && Undisturbed(Heap(), a, pool)
      modifies this
      ensures r.Block? ==> EndOk()
      ensures Matches(Free(old(Heap()), a, old(pool)), r, Heap(), pool)
    {
      hide InsertNode, Allocate;
      ghost var h := Heap();
      var size := headers[a] + HEADER;
      r := GetStruct();
      if !r.Block? { return; }
      ghost var g := Heap();
      var node := r.header + HEADER;
      ReleaseUnfolds(g, node, a);
      LinkIn(Node(node, Interval(a, size)));
      headers := headers - {a};
      used := used - size;
      r := Block(a);
      assert h.spare != [] ==> g.(spare := [node] + g.spare) == h;
    }

    /** `kfree`; None is a null pointer, which is ignored. */
    method Kfree(p: Option<int>) returns (r: Result)
      requires Valid() && (p.Some? ==> Freeable(Heap(), p.value))
      modifies this
      ensures r.Null? || r.Block? ==> Valid()
      ensures p == None ==> r == Null && Heap() == old(Heap())
      ensures p.Some? ==> Matches(Free(old(Heap()), p.value, old(pool)), r, Heap(), pool)
    {
      if p == None { return Null; }
      var a := p.value;
      ghost var h, supplies := Heap(), pool;
      assert Linked() by { ValidMeansLinked(h); }
      assert Undisturbed(h, a, supplies) by { StillThere(h, a, supplies); }
      r := FreeBlock(a);
      if r.Block? {
        assert Kmem.Valid(Heap()) by { FreeKeeps(h, a, supplies); }
      }
    }
  }

  lemma InsertIntoEmpty(spare: seq<int>, entry: Node)
    ensures InsertNode(Lists([], spare), entry) == Lists([entry], spare)
  {
    assert [][..0] + [entry] + [][0..] == [entry];
  }

  predicate DistinctNodes(f: seq<Node>) {
    forall i, j :: 0 <= i < j < |f| ==> f[i].at != f[j].at
  }

  lemma ValidMeansDistinct(h: Heap)
    requires NodesOk(h)
    ensures DistinctNodes(h.free)
  {
    var a := Addresses(h.free);
    forall i, j | 0 <= i < j < |h.free| ensures h.free[i].at != h.free[j].at {
      assert a == a[..i] + [a[i]] + a[i + 1..j] + [a[j]] + a[j + 1..];
      assert a[i] in Structs(h);
    }
  }

  /** A list of nodes without its k-th. */
  lemma NodeDropped(f: seq<Node>, k: nat, end: int)
    requires k < |f| && DistinctNodes(f) && forall i :: 0 <= i < |f| ==> f[i].at < end
    ensures var g := f[..k] + f[k + 1..];
            && DistinctNodes(g) && (forall i :: 0 <= i < |g| ==> g[i].at < end)
            && (g != [] ==> g[|g| - 1] == f[if k == |f| - 1 then k - 1 else |f| - 1])
            && (g == [] <==> |f| == 1) && (f[k].at == f[|f| - 1].at <==> k == |f| - 1)
  {
  }

  /** And with another region for it. */
  lemma NodeChanged(f: seq<Node>, k: nat, end: int, r: Interval)
    requires k < |f| && DistinctNodes(f) && forall i :: 0 <= i < |f| ==> f[i].at < end
    ensures var g := f[k := Node(f[k].at, r)];
            DistinctNodes(g) && (forall i :: 0 <= i < |g| ==> g[i].at < end) && g[|g| - 1].at == f[|f| - 1].at
  {
  }

  lemma FirstFitUnique(f: seq<Node>, need: int, k: nat)
    requires k <= |f| && (forall i :: 0 <= i < k ==> f[i].region.size < need) && (k < |f| ==> f[k].region.size >= need)
    ensures k == FirstFit(f, need)
  {
  }

  lemma AllocateStep(h: Heap, need: int, reserved: bool, supplies: seq<Supply>)
    requires CanGrow(h, supplies)
    requires var walked := reserved || !Low(h, need); !(walked && FirstFit(h.free, need) < |h.free|)
    ensures var walked := reserved || !Low(h, need);
            Allocate(h, need, reserved, supplies) == Allocate(Grow(h, need, walked, supplies[0]), need, reserved, supplies[1..])
  {
  }

  /** Allocating a node leaves the block being freed alone. */
  predicate Undisturbed(h: Heap, a: int, supplies: seq<Supply>) {
    var out := Allocate(h, Needed(NODE), true, supplies);
    out.Granted? && a in h.blocks ==> a in out.heap.blocks && out.heap.blocks[a] == h.blocks[a]
  }

  lemma StillThere(h: Heap, a: int, supplies: seq<Supply>)
    requires Kmem.Valid(h) && a in h.blocks
    ensures Undisturbed(h, a, supplies)
  {
    AllocateKeeps(h, Needed(NODE), true, supplies);
  }

  lemma ReleaseUnfolds(g: Heap, node: int, a: int)
    requires a in g.blocks
    ensures var size := g.blocks[a] + HEADER;
            var l := InsertNode(Lists(g.free, g.spare), Node(node, Interval(a, size)));
            Release(g.(spare := [node] + g.spare), a)
            == g.(free := l.free, spare := l.spare, blocks := g.blocks - {a}, used := g.used - size)
  {
    assert ([node] + g.spare)[1..] == g.spare;
  }

  lemma ValidMeansLinked(h: Heap)
    requires Kmem.Valid(h)
    ensures DistinctNodes(h.free) && forall i :: 0 <= i < |h.free| ==> h.free[i].at < h.end
  {
    ValidMeansDistinct(h);
    forall i | 0 <= i < |h.free| ensures h.free[i].at < h.end {
      assert Addresses(h.free)[i] in Structs(h);
      assert BlockOk(h, h.free[i].at - HEADER);
    }
  }

  /** The node `prev` points at is still the last one exactly when its region was not used up. */
  lemma TailStays(h: Heap, s: Supply)
    requires h.free != [] && DistinctNodes(h.free)
    requires s.newStruct ==> FirstFit(h.free, PAGE_STRUCT + HEADER) < |h.free|
    ensures var g := Prepared(h, s);
            !TailUsedUp(h, s) <==> g.free != [] && g.free[|g.free| - 1].at == h.free[|h.free| - 1].at
  {
  }
}
