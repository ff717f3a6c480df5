/**
`shared_ptr` of include/structures/shared_ptr.hpp and shared_ptr.tpp: a pointer to the object and a pointer to a control
block with the number of owners. What a program of `shared_ptr`s means is who owns what; the control blocks have to
keep count of it.
*/
module SharedPtr {
  import opened Wrappers

  type Handle = nat    // one shared_ptr variable
  type Object = nat    // one allocated object, never reused
  type Block = nat     // one control block

  /** The two fields of a `shared_ptr`. */
  datatype Ptr = Ptr(ref: Option<Object>, data: Option<Block>)

  const EMPTY := Ptr(None, None)

  /** `ptrs` are the live `shared_ptr`s, `uses` the live control blocks, and `freed` the objects deleted so far. */
  datatype World = World(ptrs: map<Handle, Ptr>, uses: map<Block, nat>, freed: seq<Object>, next: Block)

  datatype Op =
    | Construct(h: Handle, raw: Option<Object>)
    | CopyConstruct(h: Handle, r: Handle)
    | MoveConstruct(h: Handle, r: Handle)
    | Destroy(h: Handle)
    | CopyAssign(h: Handle, r: Handle)
    | MoveAssign(h: Handle, r: Handle)
    | NullAssign(h: Handle)
    | Reset(h: Handle, raw: Option<Object>)
    | Swap(h: Handle, r: Handle)

  // ---- The operations, field by field -------------------------------------------------

  /** Owns something, and its control block is there. */
  predicate Counted(w: World, p: Ptr) {
    p.ref.Some? && p.data.Some? && p.data.value in w.uses && w.uses[p.data.value] > 0
  }

  /** `decrement_usage` */
  function Decrement(w: World, p: Ptr): World {
    if !Counted(w, p) then w
    else
      var d := p.data.value;
      if w.uses[d] == 1 then w.(uses := w.uses - {d}, freed := w.freed + [p.ref.value])
      else w.(uses := w.uses[d := w.uses[d] - 1])
  }

  function Increment(w: World, p: Ptr): World {
    if Counted(w, p) then w.(uses := w.uses[p.data.value := w.uses[p.data.value] + 1]) else w
  }

  function Put(w: World, h: Handle, p: Ptr): World {
    w.(ptrs := w.ptrs[h := p])
  }

  /** A pointer and a new control block. */
  function PutNew(w: World, h: Handle, raw: Option<Object>): World {
    Put(w, h, Ptr(raw, Some(w.next))).(uses := w.uses[w.next := 1], next := w.next + 1)
  }

  predicate Unmanaged(w: World, o: Object) {
    o !in w.freed && forall h :: h in w.ptrs ==> w.ptrs[h].ref != Some(o)
  }

  /** What the caller must see to: handles exist or are new, and a raw pointer is handed to one owner only. */
  predicate Legal(w: World, op: Op) {
    && (op.Construct? || op.CopyConstruct? || op.MoveConstruct? <==> op.h !in w.ptrs)
    && (op.CopyConstruct? || op.MoveConstruct? || op.CopyAssign? || op.MoveAssign? || op.Swap? ==> op.r in w.ptrs)
    && ((op.Construct? || op.Reset?) && op.raw.Some? ==> Unmanaged(w, op.raw.value))
  }

  function Do(w: World, op: Op): World
    requires Legal(w, op)
  {
    match op
    case Construct(h, raw) => if raw.Some? then PutNew(w, h, raw) else Put(w, h, EMPTY)
    case CopyConstruct(h, r) => Put(Increment(w, w.ptrs[r]), h, w.ptrs[r])
    case MoveConstruct(h, r) => Put(Put(w, h, w.ptrs[r]), r, EMPTY)
    case Destroy(h) => var v := Decrement(w, w.ptrs[h]); v.(ptrs := v.ptrs - {h})
    case CopyAssign(h, r) => Put(Decrement(Increment(w, w.ptrs[r]), w.ptrs[h]), h, w.ptrs[r])
    case MoveAssign(h, r) => Put(Put(Decrement(w, w.ptrs[h]), h, w.ptrs[r]), r, EMPTY)
    case NullAssign(h) => Put(Decrement(w, w.ptrs[h]), h, EMPTY)
    case Reset(h, raw) => PutNew(Decrement(w, w.ptrs[h]), h, raw)
    case Swap(h, r) => Put(Put(w, h, w.ptrs[r]), r, w.ptrs[h])
  }

  // ---- What they mean -------------------------------------------------------------------

  /** Who owns what. A handle that is not in the map does not exist. */
  type Owns = map<Handle, Option<Object>>

  function OwnsOf(w: World): Owns {
    map h | h in w.ptrs :: w.ptrs[h].ref
  }

  function OwnsAfter(owns: Owns, op: Op): Owns
    requires op.CopyConstruct? || op.MoveConstruct? || op.CopyAssign? || op.MoveAssign? || op.Swap? ==> op.r in owns
    requires op.Swap? ==> op.h in owns
  {
    match op
    case Construct(h, raw) => owns[h := raw]
    case CopyConstruct(h, r) => owns[h := owns[r]]
    case MoveConstruct(h, r) => owns[h := owns[r]][r := None]
    case Destroy(h) => owns - {h}
    case CopyAssign(h, r) => owns[h := owns[r]]
    case MoveAssign(h, r) => owns[h := owns[r]][r := None]
    case NullAssign(h) => owns[h := None]
    case Reset(h, raw) => owns[h := raw]
    case Swap(h, r) => owns[h := owns[r]][r := owns[h]]
  }

  predicate Owned(w: World, o: Object) {
    exists h :: h in w.ptrs && w.ptrs[h].ref == Some(o)
  }

  // ---- The invariant ------------------------------------------------------------------------

  function Owners(w: World, d: Block): set<Handle> {
    set h | h in w.ptrs && w.ptrs[h].ref.Some? && w.ptrs[h].data == Some(d)
  }

  predicate PtrOk(w: World, p: Ptr) {
    p.ref.Some? ==> Counted(w, p) && p.ref.value !in w.freed
  }

  /** Two pointers own the same object exactly when they share a control block. */
  predicate Agree(p: Ptr, q: Ptr) {
    p.ref.Some? && q.ref.Some? ==> (p.ref == q.ref <==> p.data == q.data)
  }

  predicate PtrsOk(w: World) {
    && (forall h :: h in w.ptrs ==> PtrOk(w, w.ptrs[h]))
    && (forall h, k :: h in w.ptrs && k in w.ptrs ==> Agree(w.ptrs[h], w.ptrs[k]))
  }

  /** Every control block counts its owners. */
  predicate CountsOk(w: World) {
    forall d :: d in w.uses ==> d < w.next && w.uses[d] > 0 && w.uses[d] == |Owners(w, d)|
  }

  /** No object is deleted twice. */
  predicate NoRepeats(s: seq<Object>) {
    forall i, j :: 0 <= i < j < |s| ==> s[i] != s[j]
  }

  predicate Valid(w: World) {
    PtrsOk(w) && CountsOk(w) && NoRepeats(w.freed)
  }

  // ---- Giving up ownership ---------------------------------------------------------------------

  function Release(w: World, h: Handle): World
    requires h in w.ptrs
  {
    Put(Decrement(w, w.ptrs[h]), h, EMPTY)
  }

  lemma ReleaseCounts(w: World, h: Handle)
    requires Valid(w) && h in w.ptrs
    ensures CountsOk(Release(w, h))
  {
    var w' := Release(w, h);
    assert PtrOk(w, w.ptrs[h]);
    forall d | d in w'.uses ensures d < w'.next && w'.uses[d] > 0 && w'.uses[d] == |Owners(w', d)| {
      assert Owners(w', d) == Owners(w, d) - {h};
    }
  }

  lemma SoleOwner(w: World, h: Handle, k: Handle, d: Block)
    requires h in Owners(w, d) && k in Owners(w, d) && |Owners(w, d)| == 1
    ensures h == k
  {
    var rest := Owners(w, d) - {h};
    assert |rest| == 0;
    assert k !in rest;
  }

  lemma ReleasePtrs(w: World, h: Handle)
    requires Valid(w) && h in w.ptrs
    ensures PtrsOk(Release(w, h))
  {
    var w' := Release(w, h);
    assert PtrOk(w, w.ptrs[h]);
    forall k | k in w'.ptrs ensures PtrOk(w', w'.ptrs[k]) {
      assert PtrOk(w, w.ptrs[k]) && Agree(w.ptrs[h], w.ptrs[k]);
      if k != h && w.ptrs[h].ref.Some? && w.ptrs[k].ref.Some? && w.ptrs[k].data == w.ptrs[h].data {
        var d := w.ptrs[h].data.value;
        if w.uses[d] == 1 { SoleOwner(w, h, k, d); }
      }
    }
    forall k, l | k in w'.ptrs && l in w'.ptrs ensures Agree(w'.ptrs[k], w'.ptrs[l]) {
      assert Agree(w.ptrs[k], w.ptrs[l]);
    }
  }

  /** The object is deleted exactly when nobody else owns it. */
  lemma ReleaseFrees(w: World, h: Handle)
    requires Valid(w) && h in w.ptrs
    ensures var w', x := Release(w, h), w.ptrs[h].ref;
            w'.freed == if x.Some? && !Owned(w', x.value) then w.freed + [x.value] else w.freed
  {
    var w', x := Release(w, h), w.ptrs[h].ref;
    assert PtrOk(w, w.ptrs[h]);
    if x.Some? {
      var d := w.ptrs[h].data.value;
      var rest := Owners(w, d) - {h};
      assert h in Owners(w, d) && |rest| == w.uses[d] - 1;
      if w.uses[d] > 1 {
        assert (forall k :: k !in rest) ==> rest == {};
        var k :| k in rest;
        assert Agree(w.ptrs[h], w.ptrs[k]) && w'.ptrs[k].ref == x;
      } else {
        forall k | k in w'.ptrs ensures w'.ptrs[k].ref != x {
          assert Agree(w.ptrs[h], w.ptrs[k]) && rest == {};
          assert k != h && w.ptrs[k].ref == x ==> k in rest;
        }
      }
    }
  }

  lemma ReleaseKeeps(w: World, h: Handle)
    requires Valid(w) && h in w.ptrs
    ensures Valid(Release(w, h))
  {
    ReleaseCounts(w, h);
    ReleasePtrs(w, h);
    assert PtrOk(w, w.ptrs[h]);
    hide PtrsOk, CountsOk;
  }

  // ---- Taking ownership -------------------------------------------------------------------------

  /** Does not exist, or owns nothing. */
  predicate Vacant(w: World, h: Handle) {
    h in w.ptrs ==> w.ptrs[h].ref == None
  }

  /** Joining the owners of what r owns. */
  function Join(w: World, h: Handle, r: Handle): World
    requires r in w.ptrs
  {
    Put(Increment(w, w.ptrs[r]), h, w.ptrs[r])
  }

  lemma JoinOwners(w: World, h: Handle, r: Handle, d: Block)
    requires Vacant(w, h) && r in w.ptrs
    ensures var p := w.ptrs[r];
            && h !in Owners(w, d)
            && Owners(Join(w, h, r), d) == if p.ref.Some? && p.data == Some(d) then Owners(w, d) + {h} else Owners(w, d)
  {
  }

  lemma JoinCounts(w: World, h: Handle, r: Handle)
    requires Valid(w) && Vacant(w, h) && r in w.ptrs && h != r
    ensures CountsOk(Join(w, h, r))
  {
    var w' := Join(w, h, r);
    assert PtrOk(w, w.ptrs[r]);
    hide PtrsOk, Owners, NoRepeats;
    forall d | d in w'.uses ensures d < w'.next && w'.uses[d] > 0 && w'.uses[d] == |Owners(w', d)| {
      JoinOwners(w, h, r, d);
    }
  }

  lemma JoinPtrs(w: World, h: Handle, r: Handle)
    requires PtrsOk(w) && r in w.ptrs
    ensures PtrsOk(Join(w, h, r))
  {
    var w' := Join(w, h, r);
    forall k | k in w'.ptrs ensures PtrOk(w', w'.ptrs[k]) {
      assert PtrOk(w, w.ptrs[if k == h then r else k]);
    }
    forall k, l | k in w'.ptrs && l in w'.ptrs ensures Agree(w'.ptrs[k], w'.ptrs[l]) {
      assert Agree(w.ptrs[if k == h then r else k], w.ptrs[if l == h then r else l]);
    }
  }

  lemma JoinKeeps(w: World, h: Handle, r: Handle)
    requires Valid(w) && Vacant(w, h) && r in w.ptrs && h != r
    ensures Valid(Join(w, h, r))
  {
    JoinCounts(w, h, r);
    JoinPtrs(w, h, r);
    hide PtrsOk, CountsOk;
  }

  lemma AdoptCounts(w: World, h: Handle, o: Object)
    requires Valid(w) && Vacant(w, h)
    ensures CountsOk(PutNew(w, h, Some(o)))
  {
    var w' := PutNew(w, h, Some(o));
    forall d | d in w'.uses ensures d < w'.next && w'.uses[d] > 0 && w'.uses[d] == |Owners(w', d)| {
      if d == w.next {
        forall k | k in w.ptrs && w.ptrs[k].ref.Some? ensures w.ptrs[k].data != Some(d) {
          assert PtrOk(w, w.ptrs[k]);
        }
        assert Owners(w', d) == {h};
      } else {
        assert Owners(w', d) == Owners(w, d);
      }
    }
  }

  lemma AdoptPtrs(w: World, h: Handle, o: Object)
    requires Valid(w) && Vacant(w, h) && Unmanaged(w, o)
    ensures PtrsOk(PutNew(w, h, Some(o)))
  {
    var w' := PutNew(w, h, Some(o));
    forall k | k in w'.ptrs ensures PtrOk(w', w'.ptrs[k]) && (k != h ==> Agree(w'.ptrs[k], w'.ptrs[h])) {
      if k != h { assert PtrOk(w, w.ptrs[k]); }
    }
    forall k, l | k in w'.ptrs && l in w'.ptrs ensures Agree(w'.ptrs[k], w'.ptrs[l]) {
      if k != h && l != h { assert Agree(w.ptrs[k], w.ptrs[l]); }
    }
  }

  lemma AdoptKeeps(w: World, h: Handle, o: Object)
    requires Valid(w) && Vacant(w, h) && Unmanaged(w, o)
    ensures Valid(PutNew(w, h, Some(o)))
  {
    AdoptCounts(w, h, o);
    AdoptPtrs(w, h, o);
    hide PtrsOk, CountsOk;
  }

  // ---- Exchanging ---------------------------------------------------------------------------------

  function Other(k: Handle, h: Handle, r: Handle): Handle {
    if k == h then r else if k == r then h else k
  }

  lemma SameSize(a: set<Handle>, b: set<Handle>, h: Handle, r: Handle)
    requires forall k :: k in a <==> Other(k, h, r) in b
    ensures |a| == |b|
  {
    forall k | k != h && k != r ensures k in a <==> k in b { assert Other(k, h, r) == k; }
    assert Other(h, h, r) == r && Other(r, h, r) == h;
    if h in a <==> r in a {
      assert a == b;
    } else {
      var x, y := if h in a then h else r, if h in a then r else h;
      assert b == a - {x} + {y};
      OneForOne(a, x, y);
    }
  }

  lemma OneForOne(a: set<Handle>, x: Handle, y: Handle)
    requires x in a && y !in a
    ensures |a - {x} + {y}| == |a|
  {
    assert |a - {x}| == |a| - 1;
  }

  /** w' is w with the contents of two handles exchanged; one of them may be new and the other become empty. */
  ghost predicate Exchanged(w: World, w': World, h: Handle, r: Handle) {
    && w'.uses == w.uses && w'.freed == w.freed && w'.next == w.next
    && (forall k :: k in w'.ptrs && w'.ptrs[k].ref.Some? ==>
          Other(k, h, r) in w.ptrs && w.ptrs[Other(k, h, r)] == w'.ptrs[k])
    && (forall k :: k in w.ptrs && w.ptrs[k].ref.Some? ==>
          Other(k, h, r) in w'.ptrs && w'.ptrs[Other(k, h, r)] == w.ptrs[k])
  }

  lemma MovedIsExchanged(v: World, w: World, h: Handle, r: Handle)
    requires Vacant(v, h) && r in v.ptrs && h != r && w == v.(ptrs := v.ptrs[h := v.ptrs[r]][r := EMPTY])
    ensures Exchanged(v, w, h, r)
  {
  }

  lemma ExchangedCounts(w: World, w': World, h: Handle, r: Handle)
    requires CountsOk(w) && Exchanged(w, w', h, r)
    ensures CountsOk(w')
  {
    forall d | d in w'.uses ensures w'.uses[d] == |Owners(w', d)| {
      forall k ensures k in Owners(w', d) <==> Other(k, h, r) in Owners(w, d) {
        assert Other(Other(k, h, r), h, r) == k;
      }
      SameSize(Owners(w', d), Owners(w, d), h, r);
    }
  }

  lemma ExchangedKeeps(w: World, w': World, h: Handle, r: Handle)
    requires Valid(w) && Exchanged(w, w', h, r)
    ensures Valid(w')
  {
    ExchangedCounts(w, w', h, r);
    hide CountsOk;
    forall k | k in w'.ptrs ensures PtrOk(w', w'.ptrs[k]) {
      if w'.ptrs[k].ref.Some? { assert PtrOk(w, w.ptrs[Other(k, h, r)]); }
    }
    forall k, l | k in w'.ptrs && l in w'.ptrs ensures Agree(w'.ptrs[k], w'.ptrs[l]) {
      if w'.ptrs[k].ref.Some? && w'.ptrs[l].ref.Some? { assert Agree(w.ptrs[Other(k, h, r)], w.ptrs[Other(l, h, r)]); }
    }
  }

  // ---- Every operation ------------------------------------------------------------------------------

  lemma CopyAssignSelf(w: World, h: Handle)
    requires h in w.ptrs && PtrOk(w, w.ptrs[h])
    ensures Do(w, CopyAssign(h, h)) == w
  {
    var p := w.ptrs[h];
    assert w.ptrs[h := p] == w.ptrs;
    if p.ref.Some? { assert w.uses[p.data.value := w.uses[p.data.value]] == w.uses; }
  }

  /** Up by one and down by one, in either order, when the count stays above zero or the blocks differ. */
  lemma UpThenDown(w: World, p: Ptr, q: Ptr)
    requires PtrOk(w, p) && PtrOk(w, q) && PtrOk(Decrement(w, p), q)
    requires p.ref.Some? && q.ref.Some? && p.data == q.data ==> w.uses[p.data.value] >= 2
    ensures Decrement(Increment(w, q), p) == Increment(Decrement(w, p), q)
  {
    if p.ref.Some? && q.ref.Some? && p.data != q.data {
      var d, e := p.data.value, q.data.value;
      assert (w.uses - {d})[e := w.uses[e] + 1] == w.uses[e := w.uses[e] + 1] - {d};
    }
  }

  /** Copy assignment counts up before it counts down, so that it is safe when both sides are, or own, the same. For
      different handles it is giving up and then joining; for the same one it is nothing. */
  lemma CopyAssignIs(w: World, h: Handle, r: Handle)
    requires Valid(w) && h in w.ptrs && r in w.ptrs
    ensures Do(w, CopyAssign(h, r)) == if h == r then w else Join(Release(w, h), h, r)
  {
    var p, q := w.ptrs[h], w.ptrs[r];
    assert PtrOk(w, p) && PtrOk(w, q);
    if h == r {
      CopyAssignSelf(w, h);
    } else {
      ReleasePtrs(w, h);
      assert PtrOk(Release(w, h), q) by { assert Release(w, h).ptrs[r] == q; }
      assert p.ref.Some? && q.ref.Some? && p.data == q.data ==> w.uses[p.data.value] >= 2 by {
        if p.ref.Some? && q.ref.Some? && p.data == q.data { TwoOwners(w, h, r, p.data.value); }
      }
      assert PtrOk(Decrement(w, p), q);
      UpThenDown(w, p, q);
      hide Valid, Decrement, PtrOk;
      FreedByIncrement(w, q);
      FreedByIncrement(Decrement(w, p), q);
      assert w.ptrs[h := EMPTY][h := q] == w.ptrs[h := q];
    }
  }

  lemma TwoOwners(w: World, h: Handle, r: Handle, d: Block)
    requires CountsOk(w) && h != r && h in Owners(w, d) && r in Owners(w, d) && d in w.uses
    ensures w.uses[d] >= 2
  {
    var rest := Owners(w, d) - {h};
    assert r in rest && |rest - {r}| == |rest| - 1;
  }

  lemma MoveAssignIs(w: World, h: Handle, r: Handle)
    requires h in w.ptrs && r in w.ptrs && h != r
    ensures var v := Release(w, h); Do(w, MoveAssign(h, r)) == v.(ptrs := v.ptrs[h := v.ptrs[r]][r := EMPTY])
  {
    assert w.ptrs[h := EMPTY][h := w.ptrs[r]] == w.ptrs[h := w.ptrs[r]];
  }

  lemma MoveAssignKeeps(w: World, h: Handle, r: Handle)
    requires Valid(w) && h in w.ptrs && r in w.ptrs
    ensures Valid(Do(w, MoveAssign(h, r)))
  {
    var v, w' := Release(w, h), Do(w, MoveAssign(h, r));
    ReleaseKeeps(w, h);
    hide Valid, Exchanged;
    if h == r {
      assert w'.ptrs == v.ptrs;
    } else {
      MoveAssignIs(w, h, r);
      MovedIsExchanged(v, w', h, r);
      ExchangedKeeps(v, w', h, r);
    }
  }

  lemma CopyAssignKeeps(w: World, h: Handle, r: Handle)
    requires Valid(w) && h in w.ptrs && r in w.ptrs
    ensures Valid(Do(w, CopyAssign(h, r)))
  {
    CopyAssignIs(w, h, r);
    ReleaseKeeps(w, h);
    hide Valid;
    if h != r { JoinKeeps(Release(w, h), h, r); }
  }

  lemma DestroyKeeps(w: World, h: Handle)
    requires Valid(w) && h in w.ptrs
    ensures Valid(Do(w, Destroy(h)))
  {
    var v, w' := Release(w, h), Do(w, Destroy(h));
    ReleaseKeeps(w, h);
    assert Exchanged(v, w', h, h);
    ExchangedKeeps(v, w', h, h);
  }

  lemma ResetIs(w: World, h: Handle, raw: Option<Object>)
    requires h in w.ptrs
    ensures Do(w, Reset(h, raw)) == PutNew(Release(w, h), h, raw)
    requires raw.Some? ==> Unmanaged(w, raw.value)
  {
    var p := Ptr(raw, Some(w.next));
    assert w.ptrs[h := EMPTY][h := p] == w.ptrs[h := p];
  }

  /** `reset` keeps the counts right exactly for a non-null pointer: for a null one it still makes a control block, with a
      count of one, that nobody owns and nobody will free. */
  lemma ResetKeepsExactlyWhen(w: World, h: Handle, raw: Option<Object>)
    requires Valid(w) && h in w.ptrs && (raw.Some? ==> Unmanaged(w, raw.value))
    ensures Valid(Do(w, Reset(h, raw))) <==> raw.Some?
  {
    var v := Release(w, h);
    ResetIs(w, h, raw);
    ReleaseKeeps(w, h);
    if raw.Some? {
      ResetFresh(w, h, raw.value);
      AdoptKeeps(v, h, raw.value);
    } else {
      var w' := PutNew(v, h, None);
      var d := v.next;
      forall k | k in v.ptrs && v.ptrs[k].ref.Some? ensures v.ptrs[k].data != Some(d) {
        assert PtrOk(v, v.ptrs[k]);
      }
      assert Owners(w', d) == {};
      assert d in w'.uses && w'.uses[d] == 1;
    }
  }

  lemma ResetFresh(w: World, h: Handle, o: Object)
    requires h in w.ptrs && Unmanaged(w, o)
    ensures Unmanaged(Release(w, h), o)
  {
    var v := Release(w, h);
    assert w.ptrs[h].ref != Some(o);
    forall k | k in v.ptrs ensures v.ptrs[k].ref != Some(o) {
      if k != h { assert w.ptrs[k].ref != Some(o); }
    }
  }

  /** A caller that never resets to null. */
  predicate Allowed(w: World, op: Op) {
    Legal(w, op) && (op.Reset? ==> op.raw.Some?)
  }

  lemma DoKeeps(w: World, op: Op)
    requires Valid(w) && Allowed(w, op)
    ensures Valid(Do(w, op))
  {
    hide Valid, Decrement, Increment;
    match op
    case Construct(h, raw) =>
      if raw.Some? {
        AdoptKeeps(w, h, raw.value);
      } else {
        assert Exchanged(w, Do(w, op), h, h);
        ExchangedKeeps(w, Do(w, op), h, h);
      }
    case CopyConstruct(h, r) => JoinKeeps(w, h, r);
    case MoveConstruct(h, r) =>
      assert Exchanged(w, Do(w, op), h, r);
      ExchangedKeeps(w, Do(w, op), h, r);
    case Destroy(h) => DestroyKeeps(w, h);
    case CopyAssign(h, r) => CopyAssignKeeps(w, h, r);
    case MoveAssign(h, r) => MoveAssignKeeps(w, h, r);
    case NullAssign(h) => ReleaseKeeps(w, h);
    case Reset(h, raw) => ResetKeepsExactlyWhen(w, h, raw);
    case Swap(h, r) =>
      assert Exchanged(w, Do(w, op), h, r);
      ExchangedKeeps(w, Do(w, op), h, r);
  }

  /** The fields say who owns what. */
  lemma DoOwns(w: World, op: Op)
    requires Legal(w, op)
    ensures OwnsOf(Do(w, op)) == OwnsAfter(OwnsOf(w), op)
  {
  }

  // ---- Deletion ---------------------------------------------------------------------------------------

  /** From w to w' exactly the objects that lost their last owner were deleted. */
  ghost predicate Tally(w: World, w': World) {
    && w.freed <= w'.freed
    && forall o: Object :: o in w'.freed <==> o in w.freed || (Owned(w, o) && !Owned(w', o))
  }

  lemma ReleaseTally(w: World, h: Handle)
    requires Valid(w) && h in w.ptrs
    ensures Tally(w, Release(w, h))
    ensures forall o: Object :: Owned(Release(w, h), o) ==> Owned(w, o)
  {
    var w', x := Release(w, h), w.ptrs[h].ref;
    ReleaseFrees(w, h);
    hide Valid, Decrement;
    forall o: Object ensures Owned(w, o) <==> Owned(w', o) || x == Some(o) {
      if k :| k in w.ptrs && w.ptrs[k].ref == Some(o) { assert k != h ==> w'.ptrs[k] == w.ptrs[k]; }
      if k :| k in w'.ptrs && w'.ptrs[k].ref == Some(o) { assert k != h && w'.ptrs[k] == w.ptrs[k]; }
    }
  }

  /** After giving something up, a step that only adds owners keeps the tally. */
  lemma TallyThen(w: World, v: World, w': World)
    requires Tally(w, v) && w'.freed == v.freed
    requires forall o: Object :: Owned(v, o) ==> Owned(w', o)
    requires forall o: Object :: Owned(w', o) && !Owned(v, o) ==> !Owned(w, o)
    ensures Tally(w, w')
  {
    hide Owned;
  }

  lemma ExchangedOwned(w: World, w': World, h: Handle, r: Handle)
    requires Exchanged(w, w', h, r)
    ensures forall o: Object :: Owned(w, o) <==> Owned(w', o)
  {
    forall o: Object ensures Owned(w, o) <==> Owned(w', o) {
      if k :| k in w.ptrs && w.ptrs[k].ref == Some(o) { assert w'.ptrs[Other(k, h, r)] == w.ptrs[k]; }
      if k :| k in w'.ptrs && w'.ptrs[k].ref == Some(o) { assert w.ptrs[Other(k, h, r)] == w'.ptrs[k]; }
    }
  }

  lemma PutOwned(w: World, w': World, h: Handle, p: Ptr)
    requires Vacant(w, h) && w'.ptrs == w.ptrs[h := p]
    ensures forall o: Object :: Owned(w', o) <==> Owned(w, o) || p.ref == Some(o)
  {
    forall o: Object ensures Owned(w', o) <==> Owned(w, o) || p.ref == Some(o) {
      if k :| k in w.ptrs && w.ptrs[k].ref == Some(o) { assert k != h && w'.ptrs[k] == w.ptrs[k]; }
      if p.ref == Some(o) { assert w'.ptrs[h] == p; }
      if k :| k in w'.ptrs && w'.ptrs[k].ref == Some(o) { assert k != h ==> w.ptrs[k] == w'.ptrs[k]; }
    }
  }

  lemma TallyRefl(w: World)
    requires Valid(w)
    ensures Tally(w, w)
  {
  }

  lemma CopyAssignTally(w: World, h: Handle, r: Handle)
    requires Valid(w) && h in w.ptrs && r in w.ptrs
    ensures Tally(w, Do(w, CopyAssign(h, r)))
  {
    CopyAssignIs(w, h, r);
    TallyRefl(w);
    if h != r {
      var v := Release(w, h);
      ReleaseTally(w, h);
      PutOwned(v, Join(v, h, r), h, w.ptrs[r]);
      assert forall o: Object :: w.ptrs[r].ref == Some(o) ==> Owned(v, o) by { assert v.ptrs[r] == w.ptrs[r]; }
      hide Owned, Valid, Decrement;
      TallyThen(w, v, Join(v, h, r));
    }
  }

  lemma MoveAssignTally(w: World, h: Handle, r: Handle)
    requires Valid(w) && h in w.ptrs && r in w.ptrs
    ensures Tally(w, Do(w, MoveAssign(h, r)))
  {
    var v, w' := Release(w, h), Do(w, MoveAssign(h, r));
    ReleaseTally(w, h);
    hide Valid, Owned, Exchanged;
    if h == r {
      assert w'.ptrs == v.ptrs;
      assert w' == v;
    } else {
      MoveAssignIs(w, h, r);
      MovedIsExchanged(v, w', h, r);
      ExchangedOwned(v, w', h, r);
      TallyThen(w, v, w');
    }
  }

  lemma ResetTally(w: World, h: Handle, o: Object)
    requires Valid(w) && h in w.ptrs && Unmanaged(w, o)
    ensures Tally(w, Do(w, Reset(h, Some(o))))
  {
    var v := Release(w, h);
    ReleaseTally(w, h);
    ResetIs(w, h, Some(o));
    PutOwned(v, PutNew(v, h, Some(o)), h, Ptr(Some(o), Some(v.next)));
    assert !Owned(w, o);
    hide Owned, Valid, Decrement;
    TallyThen(w, v, PutNew(v, h, Some(o)));
  }

  lemma DestroyTally(w: World, h: Handle)
    requires Valid(w) && Allowed(w, Destroy(h))
    ensures Tally(w, Do(w, Destroy(h)))
  {
    var v, w' := Release(w, h), Do(w, Destroy(h));
    hide Valid, Owned, Tally;
    ReleaseTally(w, h);
    ExchangedOwned(v, w', h, h);
    TallyThen(w, v, w');
  }

  /** Every operation deletes exactly the object whose last owner it takes away. */
  lemma DoTally(w: World, op: Op)
    requires Valid(w) && Allowed(w, op)
    ensures Tally(w, Do(w, op))
  {
    var w' := Do(w, op);
    TallyRefl(w);
    hide Valid, Decrement, Increment, Owned;
    match op
    case Construct(h, raw) =>
      PutOwned(w, w', h, w'.ptrs[h]);
      assert forall o: Object :: Owned(w', o) && !Owned(w, o) ==> !Owned(w, o);
      TallyThen(w, w, w');
    case CopyConstruct(h, r) =>
      PutOwned(w, w', h, w.ptrs[r]);
      assert w'.freed == w.freed by { FreedByIncrement(w, w.ptrs[r]); }
      TallyThen(w, w, w');
    case MoveConstruct(h, r) =>
      ExchangedOwned(w, w', h, r);
      TallyThen(w, w, w');
    case Destroy(h) => DestroyTally(w, h);
    case CopyAssign(h, r) => CopyAssignTally(w, h, r);
    case MoveAssign(h, r) => MoveAssignTally(w, h, r);
    case NullAssign(h) => ReleaseTally(w, h);
    case Reset(h, raw) => ResetTally(w, h, raw.value);
    case Swap(h, r) =>
      ExchangedOwned(w, w', h, r);
      TallyThen(w, w, w');
  }

  lemma FreedByIncrement(w: World, p: Ptr)
    ensures Increment(w, p).freed == w.freed && Increment(w, p).ptrs == w.ptrs
  {
  }

  // ---- Whole runs ---------------------------------------------------------------------------------------

  ghost predicate Run(ws: seq<World>, ops: seq<Op>) {
    && |ws| == |ops| + 1 && ws[0].ptrs == map[] && ws[0].uses == map[] && ws[0].freed == []
    && forall i :: 0 <= i < |ops| ==> Allowed(ws[i], ops[i]) && ws[i + 1] == Do(ws[i], ops[i])
  }

  lemma {:induction false} ValidThroughout(ws: seq<World>, ops: seq<Op>, i: nat)
    requires Run(ws, ops) && i < |ws|
    ensures Valid(ws[i])
  {
    if i > 0 {
      ValidThroughout(ws, ops, i - 1);
      DoKeeps(ws[i - 1], ops[i - 1]);
    }
  }

  /** At every moment of every run every control block counts exactly the `shared_ptr`s that own its object. */
  lemma UsesIsOwners(ws: seq<World>, ops: seq<Op>, i: nat, d: Block, h: Handle)
    requires Run(ws, ops) && i < |ws|
    ensures d in ws[i].uses ==> ws[i].uses[d] == |Owners(ws[i], d)| > 0
    ensures h in ws[i].ptrs && ws[i].ptrs[h].ref.Some? ==>
              ws[i].ptrs[h].data.Some? && ws[i].ptrs[h].data.value in ws[i].uses && h in Owners(ws[i], ws[i].ptrs[h].data.value)
  {
    ValidThroughout(ws, ops, i);
    if h in ws[i].ptrs { assert PtrOk(ws[i], ws[i].ptrs[h]); }
  }

  lemma RunStep(ws: seq<World>, ops: seq<Op>, i: nat)
    requires Run(ws, ops) && i + 1 < |ws|
    ensures i < |ops| && Allowed(ws[i], ops[i]) && ws[i + 1] == Do(ws[i], ops[i])
  {
  }

  lemma TallyDeletes(w: World, w': World, o: Object)
    requires Tally(w, w') && !Owned(w', o) && (Owned(w, o) || o in w.freed)
    ensures o in w'.freed
  {
  }

  lemma OwnedIsLive(w: World, o: Object)
    requires Valid(w)
    ensures NoRepeats(w.freed) && (Owned(w, o) ==> o !in w.freed)
  {
    if Owned(w, o) {
      var h :| h in w.ptrs && w.ptrs[h].ref == Some(o);
      assert PtrOk(w, w.ptrs[h]);
    }
  }

  /** An object that has been owned is owned still, or has been deleted; never both, and never deleted twice. */
  lemma {:induction false} DeletedExactlyOnce(ws: seq<World>, ops: seq<Op>, i: nat, j: nat, o: Object)
    requires Run(ws, ops) && i <= j < |ws| && Owned(ws[i], o)
    ensures Owned(ws[j], o) <==> o !in ws[j].freed
    ensures NoRepeats(ws[j].freed)
  {
    hide *;
    ValidThroughout(ws, ops, j);
    OwnedIsLive(ws[j], o);
    if !Owned(ws[j], o) && i < j {
      ValidThroughout(ws, ops, j - 1);
      RunStep(ws, ops, j - 1);
      DeletedExactlyOnce(ws, ops, i, j - 1, o);
      DoTally(ws[j - 1], ops[j - 1]);
      TallyDeletes(ws[j - 1], ws[j], o);
    }
  }

  /** One `shared_ptr`, reset to null: a control block with a count of one is left that nobody owns. */
  lemma NullResetLeaks()
    ensures var w0 := World(map[], map[], [], 0);
            var w1 := World(map[0 := Ptr(Some(7), Some(0))], map[0 := 1], [], 1);
            var w2 := World(map[0 := Ptr(None, Some(1))], map[1 := 1], [7], 2);
            && Run([w0, w1], [Construct(0, Some(7))])
            && Legal(w1, Reset(0, None)) && Do(w1, Reset(0, None)) == w2 && w2.uses[1] == 1 && Owners(w2, 1) == {}
  {
    var w0, w1 := World(map[], map[], [], 0), World(map[0 := Ptr(Some(7), Some(0))], map[0 := 1], [], 1);
    assert Do(w0, Construct(0, Some(7))) == w1;
    assert Decrement(w1, w1.ptrs[0]) == World(w1.ptrs, map[], [7], 1) by { assert map[0 := 1] - {0} == map[]; }
  }

  // ---- The code -------------------------------------------------------------------------------------------

  /** All `shared_ptr`s of a program. */
  class Program {
    var ptrs: map<Handle, Ptr>
    var uses: map<Block, nat>
    var freed: seq<Object>
    var next: Block

    ghost function State(): World
      reads this
    {
      World(ptrs, uses, freed, next)
    }

    method DecrementUsage(h: Handle)
      requires h in ptrs && PtrOk(State(), ptrs[h])
      modifies this`uses, this`freed
      ensures State() == Decrement(old(State()), ptrs[h])
    {
      if ptrs[h].ref.Some? {
        var d := ptrs[h].data.value;
        uses := uses[d := uses[d] - 1];
        if uses[d] == 0 {
          freed := freed + [ptrs[h].ref.value];
          uses := uses - {d};
        }
      }
    }

    method NewData() returns (d: Block)
      modifies this`uses, this`next
      ensures d == old(next) && next == d + 1 && uses == old(uses)[d := 1]
    {
      d, next, uses := next, next + 1, uses[next := 1];
    }

    method ConstructFrom(h: Handle, raw: Option<Object>)
      requires Legal(State(), Construct(h, raw))
      modifies this
      ensures State() == Do(old(State()), Construct(h, raw))
    {
      var data: Option<Block> := None;
      if raw.Some? { var d := NewData(); data := Some(d); }
      ptrs := ptrs[h := Ptr(raw, data)];
    }

    method ConstructCopy(h: Handle, r: Handle)
      requires Legal(State(), CopyConstruct(h, r)) && PtrOk(State(), ptrs[r])
      modifies this
      ensures State() == Do(old(State()), CopyConstruct(h, r))
    {
      ptrs := ptrs[h := ptrs[r]];
      if ptrs[h].ref.Some? {
        var d := ptrs[h].data.value;
        uses := uses[d := uses[d] + 1];
      }
    }

    method ConstructMove(h: Handle, r: Handle)
      requires Legal(State(), MoveConstruct(h, r))
      modifies this
      ensures State() == Do(old(State()), MoveConstruct(h, r))
    {
      ptrs := ptrs[h := ptrs[r]];
      ptrs := ptrs[r := EMPTY];
    }

    method Destruct(h: Handle)
      requires h in ptrs && PtrOk(State(), ptrs[h])
      modifies this
      ensures State() == Do(old(State()), Destroy(h))
    {
      DecrementUsage(h);
      ptrs := ptrs - {h};
    }

    method AssignCopy(h: Handle, r: Handle)
      requires h in ptrs && r in ptrs && PtrOk(State(), ptrs[h]) && PtrOk(State(), ptrs[r])
      modifies this
      ensures State() == Do(old(State()), CopyAssign(h, r))
    {
      if ptrs[r].ref.Some? {
        var d := ptrs[r].data.value;
        uses := uses[d := uses[d] + 1];
      }
      DecrementUsage(h);
      ptrs := ptrs[h := Ptr(ptrs[r].ref, ptrs[h].data)];
      ptrs := ptrs[h := Ptr(ptrs[h].ref, ptrs[r].data)];
    }

    method AssignMove(h: Handle, r: Handle)
      requires h in ptrs && r in ptrs && PtrOk(State(), ptrs[h])
      modifies this
      ensures State() == Do(old(State()), MoveAssign(h, r))
    {
      DecrementUsage(h);
      ptrs := ptrs[h := ptrs[h].(ref := ptrs[r].ref)];
      ptrs := ptrs[r := ptrs[r].(ref := None)];
      ptrs := ptrs[h := ptrs[h].(data := ptrs[r].data)];
      ptrs := ptrs[r := ptrs[r].(data := None)];
    }

    method AssignNull(h: Handle)
      requires h in ptrs && PtrOk(State(), ptrs[h])
      modifies this
      ensures State() == Do(old(State()), NullAssign(h))
    {
      DecrementUsage(h);
      ptrs := ptrs[h := EMPTY];
    }

    method ResetTo(h: Handle, raw: Option<Object>)
      requires Legal(State(), Reset(h, raw)) && PtrOk(State(), ptrs[h])
      modifies this
      ensures State() == Do(old(State()), Reset(h, raw))
    {
      DecrementUsage(h);
      var d := NewData();
      ptrs := ptrs[h := Ptr(raw, Some(d))];
    }

    method SwapWith(h: Handle, r: Handle)
      requires h in ptrs && r in ptrs
      modifies this
      ensures State() == Do(old(State()), Swap(h, r))
    {
      var otherRef := ptrs[r].ref;
      ptrs := ptrs[r := ptrs[r].(ref := ptrs[h].ref)];
      ptrs := ptrs[h := ptrs[h].(ref := otherRef)];
      var otherData := ptrs[r].data;
      ptrs := ptrs[r := ptrs[r].(data := ptrs[h].data)];
      ptrs := ptrs[h := ptrs[h].(data := otherData)];
    }
  }
}
