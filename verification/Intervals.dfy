/**
Sorted lists of disjoint ranges with a gap between neighbours: the shape shared by the byte free list of
src/mem/kmem.cpp and by the page free list and the empty-slot list of src/mem/page.cpp. All three free
the same way (walk to the place, link in, merge with the next, merge the previous one) and allocate the
same way (cut the front off one range, or unlink it whole).
*/
module Intervals {

  datatype Interval = Interval(base: int, size: int) {
    function End(): int { base + size }
    predicate Has(x: int) { base <= x < End() }
  }

  /** Neither overlaps the other. Distinct bases also keep an empty range out of the way of the others. */
  predicate Apart(a: Interval, b: Interval) {
    a.base != b.base && (a.End() <= b.base || b.End() <= a.base)
  }

  predicate AllApart(l: seq<Interval>, x: Interval) {
    forall i :: 0 <= i < |l| ==> Apart(l[i], x)
  }

  /** In address order, and no two neighbours touch. */
  predicate Gapped(l: seq<Interval>) {
    l == [] || (l[0].size >= 0 && (|l| > 1 ==> l[0].End() < l[1].base) && Gapped(l[1..]))
  }

  predicate Positive(l: seq<Interval>) {
    forall i :: 0 <= i < |l| ==> l[i].size > 0
  }

  predicate Covers(l: seq<Interval>, x: int) {
    l != [] && (l[0].Has(x) || Covers(l[1..], x))
  }

  function Total(l: seq<Interval>): int {
    if l == [] then 0 else l[0].size + Total(l[1..])
  }

  /** The first range at or above an address: where the `for(; now && now->base < ...)` walks stop. */
  function Position(l: seq<Interval>, b: int): (p: nat)
    ensures p <= |l|
    ensures forall i :: 0 <= i < p ==> l[i].base < b
    ensures p < |l| ==> l[p].base >= b
  {
    if l == [] || l[0].base >= b then 0 else 1 + Position(l[1..], b)
  }

  lemma PositionUnique(l: seq<Interval>, b: int, p: nat)
    requires p <= |l| && (forall i :: 0 <= i < p ==> l[i].base < b) && (p < |l| ==> l[p].base >= b)
    ensures p == Position(l, b)
  {
  }

  function MergeAt(l: seq<Interval>, k: nat): seq<Interval> {
    if k + 1 < |l| && l[k].End() == l[k + 1].base
    then l[..k] + [Interval(l[k].base, l[k].size + l[k + 1].size)] + l[k + 2..]
    else l
  }

  /** Freeing a range. */
  function Insert(l: seq<Interval>, x: Interval): seq<Interval> {
    var p := Position(l, x.base);
    var l' := MergeAt(l[..p] + [x] + l[p..], p);
    if p > 0 then MergeAt(l', p - 1) else l'
  }

  /** Allocating the first n units of the k-th range. */
  function Carve(l: seq<Interval>, k: nat, n: int): seq<Interval>
    requires k < |l|
  {
    if n == l[k].size then l[..k] + l[k + 1..]
    else l[k := Interval(l[k].base + n, l[k].size - n)]
  }

  // ---- The same operation, one range at a time ------------------------------

  /** Put a range in front of a list, fusing it with the first one when they touch. */
  function Join(a: Interval, r: seq<Interval>): seq<Interval> {
    if r != [] && a.End() == r[0].base then [Interval(a.base, a.size + r[0].size)] + r[1..] else [a] + r
  }

  lemma Regroup(a: seq<Interval>, b: seq<Interval>, c: seq<Interval>, d: seq<Interval>)
    ensures a + (b + c + d) == (a + b) + c + d
  {
  }

  lemma MergeShift(a: Interval, l: seq<Interval>, k: nat)
    ensures MergeAt([a] + l, k + 1) == [a] + MergeAt(l, k)
  {
    var m := [a] + l;
    if k + 1 < |l| && l[k].End() == l[k + 1].base {
      var fused := [Interval(l[k].base, l[k].size + l[k + 1].size)];
      ShiftedSlices(a, l, k);
      assert MergeAt(m, k + 1) == m[..k + 1] + fused + m[k + 3..];
      hide *;
      Regroup([a], l[..k], fused, l[k + 2..]);
    }
  }

  lemma ShiftedSlices(a: Interval, l: seq<Interval>, k: nat)
    requires k + 1 < |l|
    ensures var m := [a] + l;
            m[k + 1] == l[k] && m[k + 2] == l[k + 1] && m[..k + 1] == [a] + l[..k] && m[k + 3..] == l[k + 2..]
  {
  }

  lemma MergeFirst(a: Interval, r: seq<Interval>)
    ensures MergeAt([a] + r, 0) == Join(a, r)
  {
    var m := [a] + r;
    if r != [] {
      assert m[0] == a && m[1] == r[0] && m[..0] == [] && m[2..] == r[1..];
    }
  }

  lemma InsertHead(l: seq<Interval>, x: Interval)
    ensures Insert(l, x) != []
    ensures Insert(l, x)[0].base == if l == [] || l[0].base >= x.base then x.base else l[0].base
  {
  }

  lemma InsertFront(l: seq<Interval>, x: Interval)
    requires l == [] || l[0].base >= x.base
    ensures Insert(l, x) == Join(x, l)
  {
    assert l[..0] + [x] + l[0..] == [x] + l;
    MergeFirst(x, l);
  }

  lemma ShiftedInsert(l: seq<Interval>, x: Interval, q: nat)
    requires q < |l|
    ensures l[..q + 1] + [x] + l[q + 1..] == [l[0]] + (l[1..][..q] + [x] + l[1..][q..])
  {
  }

  lemma InsertLater(l: seq<Interval>, x: Interval)
    requires l != [] && l[0].base < x.base && (|l| > 1 ==> l[0].End() < l[1].base)
    ensures Insert(l, x) == Join(l[0], Insert(l[1..], x))
  {
    var t := l[1..];
    var q := Position(t, x.base);
    var m := t[..q] + [x] + t[q..];
    assert Position(l, x.base) == q + 1;
    ShiftedInsert(l, x, q);
    MergeShift(l[0], m, q);
    var r := MergeAt(m, q);
    if q == 0 {
      MergeFirst(l[0], r);
    } else {
      MergeShift(l[0], r, q - 1);
      InsertHead(t, x);
    }
  }

  // ---- What Insert does -----------------------------------------------------

  lemma JoinGapped(a: Interval, r: seq<Interval>)
    requires Gapped(r) && a.size >= 0 && (r != [] ==> a.End() <= r[0].base)
    ensures Gapped(Join(a, r))
  {
    if r != [] && a.End() == r[0].base {
      var j := Join(a, r);
      assert j[1..] == r[1..];
      if |r| > 1 { assert j[1] == r[1]; }
    } else {
      assert ([a] + r)[1..] == r;
    }
  }

  /** Apart, or two empty ranges at the same place. */
  predicate Loose(a: Interval, b: Interval) {
    Apart(a, b) || (a.base == b.base && a.size == 0 && b.size == 0)
  }

  predicate AllLoose(l: seq<Interval>, x: Interval) {
    forall i :: 0 <= i < |l| ==> Loose(l[i], x)
  }

  /** Freeing keeps the list in order, even next to an empty range at the same place. */
  lemma {:induction false} InsertLoose(l: seq<Interval>, x: Interval)
    requires Gapped(l) && x.size >= 0 && AllLoose(l, x)
    ensures Gapped(Insert(l, x))
  {
    hide Insert;
    if l == [] || l[0].base >= x.base {
      InsertFront(l, x);
      if l != [] { assert Loose(l[0], x); }
      JoinGapped(x, l);
    } else {
      InsertLater(l, x);
      assert Loose(l[0], x);
      forall i | 0 <= i < |l[1..]| ensures Loose(l[1..][i], x) { assert Loose(l[i + 1], x); }
      InsertLoose(l[1..], x);
      InsertHead(l[1..], x);
      JoinGapped(l[0], Insert(l[1..], x));
    }
  }

  lemma InsertGapped(l: seq<Interval>, x: Interval)
    requires Gapped(l) && x.size >= 0 && AllApart(l, x)
    ensures Gapped(Insert(l, x))
  {
    forall i | 0 <= i < |l| ensures Loose(l[i], x) { assert Apart(l[i], x); }
    InsertLoose(l, x);
  }

  lemma TailApart(l: seq<Interval>, x: Interval)
    requires AllApart(l, x) && l != []
    ensures AllApart(l[1..], x)
  {
    forall i | 0 <= i < |l[1..]| ensures Apart(l[1..][i], x) {
      assert Apart(l[i + 1], x);
    }
  }

  lemma JoinCovers(a: Interval, r: seq<Interval>, y: int)
    requires a.size >= 0 && (r != [] ==> r[0].size >= 0)
    ensures Covers(Join(a, r), y) <==> a.Has(y) || Covers(r, y)
  {
    var j := Join(a, r);
    if r != [] && a.End() == r[0].base {
      assert j[1..] == r[1..];
    } else {
      assert j[1..] == r;
    }
  }

  /** Freeing adds exactly the freed range. */
  lemma {:induction false} InsertCovers(l: seq<Interval>, x: Interval, y: int)
    requires Gapped(l) && x.size >= 0 && AllApart(l, x)
    ensures Covers(Insert(l, x), y) <==> Covers(l, y) || x.Has(y)
  {
    if l == [] || l[0].base >= x.base {
      InsertFront(l, x);
      JoinCovers(x, l, y);
    } else {
      InsertLater(l, x);
      TailApart(l, x);
      InsertCovers(l[1..], x, y);
      InsertGapped(l[1..], x);
      JoinCovers(l[0], Insert(l[1..], x), y);
    }
  }

  lemma JoinTotal(a: Interval, r: seq<Interval>)
    ensures Total(Join(a, r)) == a.size + Total(r)
  {
    var j := Join(a, r);
    if r != [] && a.End() == r[0].base {
      assert j[1..] == r[1..];
    } else {
      assert j[1..] == r;
    }
  }

  lemma {:induction false} InsertTotal(l: seq<Interval>, x: Interval)
    requires Gapped(l)
    ensures Total(Insert(l, x)) == Total(l) + x.size
  {
    if l == [] || l[0].base >= x.base {
      InsertFront(l, x);
      JoinTotal(x, l);
    } else {
      InsertLater(l, x);
      InsertTotal(l[1..], x);
      JoinTotal(l[0], Insert(l[1..], x));
    }
  }

  lemma {:induction false} InsertPositive(l: seq<Interval>, x: Interval)
    requires Gapped(l) && Positive(l) && x.size > 0
    ensures Positive(Insert(l, x))
  {
    if l == [] || l[0].base >= x.base {
      InsertFront(l, x);
    } else {
      InsertLater(l, x);
      InsertPositive(l[1..], x);
    }
  }

  lemma JoinApart(a: Interval, r: seq<Interval>, z: Interval)
    requires Apart(a, z) && AllApart(r, z) && z.size >= 0 && a.size >= 0 && (r != [] ==> r[0].size >= 0)
    ensures AllApart(Join(a, r), z)
  {
    var j := Join(a, r);
    if r != [] && a.End() == r[0].base {
      assert Apart(r[0], z);
      assert Apart(j[0], z);
      forall i | 0 <= i < |j| ensures Apart(j[i], z) {
        if i > 0 { assert j[i] == r[i]; }
      }
    } else {
      forall i | 0 <= i < |j| ensures Apart(j[i], z) {
        if i > 0 { assert j[i] == r[i - 1]; }
      }
    }
  }

  /** What was apart from the list and from the freed range is still apart from the result. */
  lemma {:induction false} InsertApart(l: seq<Interval>, x: Interval, z: Interval)
    requires Gapped(l) && x.size >= 0 && z.size >= 0 && AllApart(l, x) && AllApart(l, z) && Apart(x, z)
    ensures AllApart(Insert(l, x), z)
  {
    if l == [] || l[0].base >= x.base {
      InsertFront(l, x);
      JoinApart(x, l, z);
    } else {
      InsertLater(l, x);
      TailApart(l, x);
      TailApart(l, z);
      InsertApart(l[1..], x, z);
      InsertGapped(l[1..], x);
      JoinApart(l[0], Insert(l[1..], x), z);
    }
  }

  // ---- Carve ----------------------------------------------------------------

  lemma CarveStep(l: seq<Interval>, k: nat, n: int)
    requires 0 < k < |l|
    ensures Carve(l, k, n) == [l[0]] + Carve(l[1..], k - 1, n)
  {
    var t := l[1..];
    assert t[k - 1] == l[k] && [l[0]] + t == l;
    if n == l[k].size {
      assert l[..k] + l[k + 1..] == [l[0]] + (t[..k - 1] + t[k..]);
    } else {
      var x := Interval(l[k].base + n, l[k].size - n);
      assert l[k := x] == [l[0]] + t[k - 1 := x];
    }
  }

  lemma {:induction false} CarveGapped(l: seq<Interval>, k: nat, n: int)
    requires Gapped(l) && k < |l| && 0 <= n <= l[k].size
    ensures Gapped(Carve(l, k, n))
    ensures Carve(l, k, n) != [] ==> Carve(l, k, n)[0].base >= l[0].base
  {
    var c := Carve(l, k, n);
    if k == 0 {
      if n == l[0].size { assert c == l[1..]; } else { assert c[1..] == l[1..]; }
    } else {
      CarveStep(l, k, n);
      CarveGapped(l[1..], k - 1, n);
      assert c[1..] == Carve(l[1..], k - 1, n);
    }
  }

  lemma {:induction false} AboveFirst(l: seq<Interval>, y: int)
    requires Gapped(l) && Covers(l, y)
    ensures l[0].base <= y
  {
    if !l[0].Has(y) {
      AboveFirst(l[1..], y);
    }
  }

  /** Allocating removes exactly the allocated range. */
  lemma {:induction false} CarveCovers(l: seq<Interval>, k: nat, n: int, y: int)
    requires Gapped(l) && k < |l| && 0 <= n <= l[k].size
    ensures Covers(Carve(l, k, n), y) <==> Covers(l, y) && !Interval(l[k].base, n).Has(y)
  {
    var c := Carve(l, k, n);
    if Covers(l[1..], y) { AboveFirst(l[1..], y); }
    if k == 0 {
      if n == l[0].size { assert c == l[1..]; } else { assert c[1..] == l[1..]; }
    } else {
      CarveStep(l, k, n);
      CarveCovers(l[1..], k - 1, n, y);
      assert c[1..] == Carve(l[1..], k - 1, n);
      Ordered(l, 0, k);
    }
  }

  lemma {:induction false} CarveTotal(l: seq<Interval>, k: nat, n: int)
    requires k < |l|
    ensures Total(Carve(l, k, n)) == Total(l) - n
  {
    var c := Carve(l, k, n);
    if k == 0 {
      if n == l[0].size { assert c == l[1..]; } else { assert c[1..] == l[1..]; }
    } else {
      CarveStep(l, k, n);
      CarveTotal(l[1..], k - 1, n);
      assert c[1..] == Carve(l[1..], k - 1, n);
    }
  }

  // ---- Facts by index -------------------------------------------------------

  lemma {:induction false} Ordered(l: seq<Interval>, i: nat, j: nat)
    requires Gapped(l) && i < j < |l|
    ensures l[i].size >= 0 && l[j].size >= 0 && l[i].End() < l[j].base
  {
    if i > 0 {
      Ordered(l[1..], i - 1, j - 1);
    } else if j > 1 {
      Ordered(l[1..], 0, j - 1);
    } else {
      assert l[1..][0] == l[1];
    }
  }

  lemma {:induction false} CoversAt(l: seq<Interval>, i: nat, x: int)
    requires i < |l| && l[i].Has(x)
    ensures Covers(l, x)
  {
    if i > 0 { CoversAt(l[1..], i - 1, x); }
  }

  lemma {:induction false} AppendGapped(l: seq<Interval>, x: Interval)
    requires Gapped(l) && x.size >= 0 && (l != [] ==> l[|l| - 1].End() < x.base)
    ensures Gapped(l + [x])
    ensures Total(l + [x]) == Total(l) + x.size
  {
    if l == [] {
      assert l + [x] == [x];
    } else {
      assert (l + [x])[1..] == l[1..] + [x];
      AppendGapped(l[1..], x);
    }
  }

  lemma {:induction false} ExtendLast(l: seq<Interval>, extra: int)
    requires Gapped(l) && l != [] && extra >= 0
    ensures var last := |l| - 1;
            var m := l[last := Interval(l[last].base, l[last].size + extra)];
            Gapped(m) && Total(m) == Total(l) + extra
  {
    var last := |l| - 1;
    var m := l[last := Interval(l[last].base, l[last].size + extra)];
    if |l| > 1 {
      ExtendLast(l[1..], extra);
      assert m[1..] == l[1..][last - 1 := Interval(l[last].base, l[last].size + extra)];
    } else {
      assert m[1..] == [] && l[1..] == [];
    }
  }

  lemma {:induction false} TotalNonnegative(l: seq<Interval>)
    requires Gapped(l)
    ensures Total(l) >= 0
  {
    if l != [] { TotalNonnegative(l[1..]); }
  }

  lemma {:induction false} ApartNotCovered(l: seq<Interval>, a: Interval, y: int)
    requires AllApart(l, a) && a.Has(y)
    ensures !Covers(l, y)
  {
    if l != [] {
      assert Apart(l[0], a);
      TailApart(l, a);
      ApartNotCovered(l[1..], a, y);
    }
  }

  /** Cutting a piece off a region leaves everything that was apart from the region apart from both parts. */
  lemma CarveApart(l: seq<Interval>, k: nat, n: int, z: Interval)
    requires Gapped(l) && k < |l| && 0 < n <= l[k].size && z.size > 0 && AllApart(l, z)
    ensures AllApart(Carve(l, k, n), z)
    ensures Apart(Interval(l[k].base, n), z)
  {
    var c := Carve(l, k, n);
    assert Apart(l[k], z);
    forall i | 0 <= i < |c| ensures Apart(c[i], z) {
      if n == l[k].size {
        assert c[i] == l[if i < k then i else i + 1];
      } else if i != k {
        assert c[i] == l[i];
      }
    }
  }

  lemma CarvedIsApart(l: seq<Interval>, k: nat, n: int)
    requires Gapped(l) && Positive(l) && k < |l| && 0 < n <= l[k].size
    ensures AllApart(Carve(l, k, n), Interval(l[k].base, n))
  {
    var c := Carve(l, k, n);
    forall i | 0 <= i < |c| ensures Apart(c[i], Interval(l[k].base, n)) {
      var j := if n == l[k].size && i >= k then i + 1 else i;
      if j < k { Ordered(l, j, k); }
      if j > k { Ordered(l, k, j); }
    }
  }

  // ---- Canonical form -------------------------------------------------------

  /** The list is determined by the set of units it covers. */
  lemma {:induction false} Canonical(l: seq<Interval>, m: seq<Interval>)
    requires Gapped(l) && Positive(l) && Gapped(m) && Positive(m)
    requires forall y :: Covers(l, y) <==> Covers(m, y)
    ensures l == m
  {
    assert l != [] ==> Covers(l, l[0].base);
    assert m != [] ==> Covers(m, m[0].base);
    if l != [] && m != [] {
      SameFirst(l, m);
      SameFirst(m, l);
      forall y ensures Covers(l[1..], y) <==> Covers(m[1..], y) {
        if Covers(l[1..], y) { AboveFirst(l[1..], y); assert Covers(l, y); }
        if Covers(m[1..], y) { AboveFirst(m[1..], y); assert Covers(m, y); }
      }
      Canonical(l[1..], m[1..]);
    }
  }

  lemma SameFirst(l: seq<Interval>, m: seq<Interval>)
    requires l != [] && m != [] && Gapped(l) && Positive(l) && Gapped(m) && Positive(m)
    requires forall y :: Covers(l, y) <==> Covers(m, y)
    ensures m[0].base <= l[0].base
    ensures m[0].base == l[0].base ==> m[0].size >= l[0].size
  {
    assert Covers(l, l[0].base);
    AboveFirst(m, l[0].base);
    if m[0].base == l[0].base && m[0].size < l[0].size {
      var y := m[0].End();
      assert Covers(l, y);
      AboveFirst(m[1..], y);
      assert false;
    }
  }
}
