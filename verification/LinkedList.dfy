/**
The singly linked list with a tail pointer of include/structures/list.tpp, refining a sequence.

`nodes` is the ghost sequence of the linked nodes; `Valid` says that head, next links, tail and count all tell the
same story. Every operation is specified by what it does to the sequence of elements.
*/
module LinkedList {
  import opened Wrappers

  class Node<T> {
    const item: T
    var next: Node?<T>

    constructor (value: T)
      ensures item == value && next == null
    {
      item, next := value, null;
    }
  }

  /** The elements other than v, in order. */
  function Without<T(==)>(s: seq<T>, v: T): seq<T> {
    if s == [] then [] else (if s[0] == v then [] else [s[0]]) + Without(s[1..], v)
  }

  /** Removing loses exactly the occurrences of v: everything else is there as often as before. */
  lemma {:induction false} WithoutCounts<T>(s: seq<T>, v: T)
    ensures multiset(Without(s, v)) == multiset(s)[v := 0]
    ensures |Without(s, v)| == |s| - multiset(s)[v]
  {
    if s != [] {
      WithoutCounts(s[1..], v);
      assert s == [s[0]] + s[1..];
    }
  }

  ghost function Values<T>(ns: seq<Node<T>>): (r: seq<T>)
    ensures |r| == |ns| && forall i :: 0 <= i < |ns| ==> r[i] == ns[i].item
  {
    seq(|ns|, i requires 0 <= i < |ns| => ns[i].item)
  }

  predicate Distinct<T(==)>(ns: seq<Node<T>>) {
    forall i, j :: 0 <= i < j < |ns| ==> ns[i] != ns[j]
  }

  ghost predicate Linked<T>(ns: seq<Node<T>>)
    reads ns
  {
    forall i :: 0 <= i < |ns| ==> ns[i].next == Successor(ns, i)
  }

  function Successor<T>(ns: seq<Node<T>>, i: nat): Node?<T> {
    if i + 1 < |ns| then ns[i + 1] else null
  }

  function Dropped<T>(s: seq<T>, k: nat): seq<T>
    requires k < |s|
  {
    s[..k] + s[k + 1..]
  }

  lemma DroppedAt<T>(s: seq<T>, k: nat, i: nat)
    requires k < |s| && i < |s| - 1
    ensures |Dropped(s, k)| == |s| - 1 && Dropped(s, k)[i] == s[if i < k then i else i + 1]
  {
  }

  lemma DroppedDistinct<T>(ns: seq<Node<T>>, k: nat)
    requires k < |ns| && Distinct(ns)
    ensures |Dropped(ns, k)| == |ns| - 1 && Distinct(Dropped(ns, k))
  {
    var d := Dropped(ns, k);
    hide Dropped;
    forall i, j | 0 <= i < j < |d| ensures d[i] != d[j] {
      DroppedAt(ns, k, i);
      DroppedAt(ns, k, j);
    }
  }

  lemma DroppedSuccessor<T>(ns: seq<Node<T>>, k: nat, i: nat)
    requires k < |ns| && i < |ns| - 1
    ensures Successor(Dropped(ns, k), i) == Successor(ns, if i < k - 1 then i else i + 1)
  {
  }

  lemma ValuesDropped<T>(ns: seq<Node<T>>, k: nat)
    requires k < |ns|
    ensures Values(Dropped(ns, k)) == Dropped(Values(ns), k)
  {
  }

  lemma DroppedHead<T>(ns: seq<Node<T>>, k: nat)
    requires k < |ns|
    ensures var d := Dropped(ns, k);
            && (k == 0 ==> (if d == [] then null else d[0]) == Successor(ns, 0))
            && (k > 0 ==> d != [] && d[0] == ns[0])
  {
  }

  lemma DroppedNeighbours<T>(ns: seq<Node<T>>, k: nat)
    requires k < |ns|
    ensures var d := Dropped(ns, k);
            && |d| == |ns| - 1 && (k > 0 ==> d[k - 1] == ns[k - 1])
            && Successor(ns, k) == if k < |d| then d[k] else null
  {
  }

  lemma DroppedLast<T>(ns: seq<Node<T>>, k: nat)
    requires k < |ns|
    ensures var d := Dropped(ns, k);
            |d| == |ns| - 1 && (d != [] ==> d[|d| - 1] == if k == |ns| - 1 then ns[k - 1] else ns[|ns| - 1])
  {
  }

  lemma FrontDistinct<T>(n: Node<T>, ns: seq<Node<T>>)
    requires Distinct(ns) && n !in ns
    ensures Distinct([n] + ns) && Values([n] + ns) == [n.item] + Values(ns)
  {
    var m := [n] + ns;
    forall i, j | 0 <= i < j < |m| ensures m[i] != m[j] {
      assert m[j] == ns[j - 1];
    }
  }

  lemma FrontSuccessors<T>(n: Node<T>, ns: seq<Node<T>>)
    ensures Successor([n] + ns, 0) == if ns == [] then null else ns[0]
    ensures forall i :: 0 < i <= |ns| ==> Successor([n] + ns, i) == Successor(ns, i - 1)
  {
  }

  lemma DroppedHas<T>(s: seq<T>, k: nat)
    requires k < |s|
    ensures forall x :: x in Dropped(s, k) ==> x in s
  {
  }

  /** `remove` has done with the first k elements of what is now s. */
  predicate Removing<T(==)>(all: seq<T>, s: seq<T>, k: nat, v: T) {
    k <= |s| && Without(all, v) == s[..k] + Without(s[k..], v)
  }

  lemma RemoveStart<T>(s: seq<T>, v: T)
    ensures Removing(s, s, 0, v)
  {
    assert s[0..] == s;
  }

  lemma RemoveEnd<T>(all: seq<T>, s: seq<T>, k: nat, v: T)
    requires k == |s| && Removing(all, s, k, v)
    ensures Without(all, v) == s
  {
    assert s[..k] == s && s[k..] == [];
  }

  /** One step of the loop of `remove`, on values. */
  lemma RemoveStep<T>(all: seq<T>, s: seq<T>, k: nat, v: T)
    requires k < |s| && Removing(all, s, k, v)
    ensures if s[k] == v then Removing(all, Dropped(s, k), k, v) else Removing(all, s, k + 1, v)
  {
    assert s[k..][0] == s[k] && s[k..][1..] == s[k + 1..];
    if s[k] == v {
      assert Dropped(s, k)[..k] == s[..k] && Dropped(s, k)[k..] == s[k + 1..];
    } else {
      var rest := Without(s[k + 1..], v);
      assert s[..k + 1] == s[..k] + [s[k]];
      assert s[..k] + ([s[k]] + rest) == s[..k] + [s[k]] + rest;
    }
  }

  class List<T(==)> {
    var head: Node?<T>
    var tail: Node?<T>
    var count: nat
    ghost var nodes: seq<Node<T>>

    /** Everything but the tail pointer. */
    ghost predicate Chained()
      reads this, nodes
    {
      && Distinct(nodes) && Linked(nodes) && count == |nodes|
      && head == if nodes == [] then null else nodes[0]
    }

    ghost predicate Valid()
      reads this, nodes
    {
      Chained() && tail == if nodes == [] then null else nodes[|nodes| - 1]
    }

    ghost function Contents(): seq<T>
      reads this
    {
      Values(nodes)
    }

    constructor ()
      ensures Valid() && Contents() == [] && nodes == []
    {
      head, tail, count, nodes := null, null, 0, [];
    }

    method PushFront(value: T)
      requires Valid()
      modifies this
      ensures Valid() && nodes != [] && fresh(nodes[0]) && nodes[1..] == old(nodes)
      ensures Contents() == [value] + old(Contents())
    {
      var append := new Node(value);
      if head != null {
        append.next := head;
        head := append;
      } else {
        head := append;
        tail := head;
      }
      count := count + 1;
      nodes := [append] + nodes;
      FrontSuccessors(append, old(nodes));
      FrontDistinct(append, old(nodes));
      hide Successor, Distinct, Values;
      forall i | 0 <= i < |nodes| ensures nodes[i].next == Successor(nodes, i) {
        if i > 0 { assert nodes[i] == old(nodes)[i - 1] && nodes[i].next == Successor(old(nodes), i - 1); }
      }
    }

    method PushBack(value: T)
      requires Valid()
      modifies this, nodes
      ensures Valid() && nodes != [] && nodes[..|nodes| - 1] == old(nodes) && fresh(nodes[|nodes| - 1])
      ensures Contents() == old(Contents()) + [value]
    {
      var append := new Node(value);
      if head != null {
        tail.next := append;
        tail := append;
      } else {
        head := append;
        tail := head;
      }
      count := count + 1;
      nodes := nodes + [append];
    }

    /** False is the panic on an empty list. */
    method PopFront() returns (ok: bool)
      requires Valid()
      modifies this
      ensures ok <==> old(Contents()) != []
      ensures if ok then Valid() && nodes == old(nodes)[1..] && Contents() == old(Contents())[1..]
              else nodes == old(nodes)
    {
      if head == null { return false; }
      assert nodes[0].next == Successor(nodes, 0);
      head := head.next;
      if head == null { tail := null; }
      count := count - 1;
      nodes := nodes[1..];
      ok := true;
      forall i | 0 <= i < |nodes| ensures nodes[i].next == Successor(nodes, i) {
        assert nodes[i] == old(nodes)[i + 1] && Successor(old(nodes), i + 1) == Successor(nodes, i);
      }
      assert Contents() == old(Contents())[1..];
    }

    method PopBack() returns (ok: bool)
      requires Valid()
      modifies this, nodes
      ensures ok <==> old(Contents()) != []
      ensures if ok then Valid() && nodes == old(nodes)[..|old(nodes)| - 1]
                         && Contents() == old(Contents())[..|old(Contents())| - 1]
              else nodes == old(nodes)
    {
      if head == null { return false; }
      ok := true;
      if head == tail {
        assert |nodes| == 1;
        head, tail, count, nodes := null, null, count - 1, [];
        return;
      }
      var e := head;
      ghost var i := 0;
      while e.next != tail
        invariant i + 1 < |nodes| && e == nodes[i]
        invariant Linked(nodes) && Distinct(nodes)
        decreases |nodes| - i
      {
        assert nodes[i].next == Successor(nodes, i);
        i := i + 1;
        e := e.next;
      }
      assert nodes[i].next == Successor(nodes, i);
      assert i + 2 == |nodes|;
      tail := e;
      e.next := null;
      count := count - 1;
      nodes := nodes[..|nodes| - 1];
      forall j | 0 <= j < |nodes| ensures nodes[j].next == Successor(nodes, j) {
        assert nodes[j] == old(nodes)[j] && old(nodes[j].next) == Successor(old(nodes), j);
      }
    }

    /** Unlink node k, whose predecessor is `prev`; the tail pointer is left as it is. */
    method Unlink(prev: Node?<T>, now: Node<T>, ghost k: nat)
      requires Chained() && k < |nodes| && now == nodes[k] && prev == if k == 0 then null else nodes[k - 1]
      modifies this`head, this`count, this`nodes, prev
      ensures Chained() && nodes == Dropped(old(nodes), k) && |nodes| == |old(nodes)| - 1
      ensures prev == if k == 0 then null else nodes[k - 1]
      ensures Successor(old(nodes), k) == if k < |nodes| then nodes[k] else null
    {
      assert now.next == Successor(nodes, k);
      DroppedDistinct(nodes, k);
      if prev != null { prev.next := now.next; } else { head := now.next; }
      count := count - 1;
      nodes := Dropped(nodes, k);
      hide Dropped, Successor;
      forall i | 0 <= i < |nodes| ensures nodes[i].next == Successor(nodes, i) {
        DroppedAt(old(nodes), k, i);
        DroppedSuccessor(old(nodes), k, i);
        var j := if i < k then i else i + 1;
        assert nodes[i] == old(nodes)[j] && old(nodes[j].next) == Successor(old(nodes), j);
      }
      DroppedHead(old(nodes), k);
      DroppedNeighbours(old(nodes), k);
    }

    method SetTail(last: Node?<T>)
      requires Chained() && last == if nodes == [] then null else nodes[|nodes| - 1]
      modifies this`tail
      ensures Valid()
    {
      hide Distinct, Successor;
      tail := last;
    }

    /** The place of a loop that walks with two pointers. */
    ghost predicate Cursor(prev: Node?<T>, now: Node?<T>, k: nat)
      reads this
    {
      && k <= |nodes| && now == (if k == |nodes| then null else nodes[k])
      && prev == if k == 0 then null else nodes[k - 1]
    }

    /** One round of the loop of `remove`. */
    method RemoveOrPass(value: T, before: Node?<T>, here: Node<T>, ghost at: nat, ghost all: seq<T>)
      returns (prev: Node?<T>, now: Node?<T>, ghost k: nat)
      requires Chained() && Cursor(before, here, at) && Removing(all, Contents(), at, value)
      modifies this`head, this`count, this`nodes, before
      ensures Chained() && Cursor(prev, now, k) && Removing(all, Contents(), k, value) && (prev == before || prev == here)
      ensures |nodes| - k == |old(nodes)| - at - 1 && forall n :: n in nodes ==> n in old(nodes)
    {
      assert here.next == Successor(nodes, at);
      RemoveStep(all, Contents(), at, value);
      hide Dropped, Without, Values, Distinct, Removing;
      if here.item == value {
        now := here.next;
        ValuesDropped(nodes, at);
        DroppedHas(nodes, at);
        Unlink(before, here, at);
        prev, k := before, at;
      } else {
        prev, now, k := here, here.next, at + 1;
      }
    }

    /** The loop of `remove`: it ends past the last node, with `prev` on it. */
    method RemoveEach(value: T) returns (prev: Node?<T>, ghost k: nat)
      requires Chained()
      modifies this`head, this`count, this`nodes, nodes
      ensures Chained() && Cursor(prev, null, k) && Removing(old(Contents()), Contents(), k, value)
      ensures forall n :: n in nodes ==> n in old(nodes)
    {
      var now := head;
      prev, k := null, 0;
      RemoveStart(Contents(), value);
      hide Dropped, Without, Values, Distinct, Removing, Successor, Linked;
      while now != null
        invariant Chained() && Cursor(prev, now, k) && (prev != null ==> prev in old(nodes))
        invariant forall n :: n in nodes ==> n in old(nodes)
        invariant Removing(old(Contents()), Contents(), k, value)
        decreases |nodes| - k
      {
        assert now in nodes;
        prev, now, k := RemoveOrPass(value, prev, now, k, old(Contents()));
      }
    }

    /** `remove` */
    method Remove(value: T)
      requires Valid()
      modifies this, nodes
      ensures Valid() && Contents() == Without(old(Contents()), value)
      ensures forall n :: n in nodes ==> n in old(nodes)
    {
      if head == null {
        assert Contents() == [];
        return;
      }
      hide Dropped, Without, Values, Distinct, Removing, Successor, Linked;
      var prev, k := RemoveEach(value);
      RemoveEnd(old(Contents()), Contents(), k, value);
      SetTail(prev);
    }

    /** What follows node k, and the last node once node k is gone. */
    method LastAfter(prev: Node?<T>, now: Node<T>, ghost k: nat) returns (after: Node?<T>, last: Node?<T>)
      requires Valid() && k < |nodes| && now == nodes[k] && prev == if k == 0 then null else nodes[k - 1]
      ensures after == Successor(nodes, k) && |Dropped(nodes, k)| == |nodes| - 1
      ensures last == if Dropped(nodes, k) == [] then null else Dropped(nodes, k)[|nodes| - 2]
    {
      assert now.next == Successor(nodes, k);
      DroppedLast(nodes, k);
      after := now.next;
      last := if now.next == null then prev else tail;
    }

    method EraseAt(prev: Node?<T>, now: Node<T>, ghost k: nat) returns (r: Option<Node?<T>>)
      requires Valid() && k < |nodes| && now == nodes[k] && prev == if k == 0 then null else nodes[k - 1]
      modifies this, prev
      ensures Valid() && nodes == Dropped(old(nodes), k)
      ensures r == Some(if k < |nodes| then nodes[k] else null)
    {
      var after, last := LastAfter(prev, now, k);
      assert Chained();
      hide *;
      Unlink(prev, now, k);
      SetTail(last);
      r := Some(after);
    }

    /** `erase`: gives the iterator to the successor; None is the panic "isn't in the list". */
    method Erase(entry: Node<T>) returns (r: Option<Node?<T>>)
      requires Valid()
      modifies this, nodes
      ensures r.Some? <==> entry in old(nodes)
      ensures r == None ==> nodes == old(nodes)
      ensures r.Some? ==>
                Valid() && exists k ::
                  (0 <= k < |old(nodes)| && old(nodes)[k] == entry
                   && nodes == Dropped(old(nodes), k) && Contents() == Dropped(old(Contents()), k)
                   && r.value == if k < |nodes| then nodes[k] else null)
    {
      var prev: Node?<T>, now := null, head;
      ghost var k := 0;
      while now != null
        invariant Valid() && nodes == old(nodes) && k <= |nodes|
        invariant now == if k == |nodes| then null else nodes[k]
        invariant prev == if k == 0 then null else nodes[k - 1]
        invariant forall i :: 0 <= i < k ==> nodes[i] != entry
        decreases |nodes| - k
      {
        assert now.next == Successor(nodes, k);
        assert k > 0 ==> prev in nodes;
        if now == entry {
          ValuesDropped(nodes, k);
          r := EraseAt(prev, now, k);
          return;
        }
        prev := now;
        now := now.next;
        k := k + 1;
      }
      r := None;
    }

    method Clear()
      modifies this
      ensures Valid() && Contents() == []
    {
      head, tail, count, nodes := null, null, 0, [];
    }
  }
}
