/**
The mutex of src/structures/mutex.cpp: `trylock` is one atomic exchange, `lock` repeats it, `unlock` stores false. Every
protocol of the kernel treats what runs between the two as one step; this is why it may.
*/
module Mutex {

  type Cpu = nat

  /** The flag, and who is between a successful `trylock` and the matching `unlock`. */
  datatype State = State(flag: bool, inside: seq<Cpu>)

  datatype Event = TryLock(c: Cpu) | Unlock(c: Cpu)

  /** True is EOK. */
  predicate Succeeds(s: State, e: Event) { e.TryLock? ==> !s.flag }

  function Without(inside: seq<Cpu>, c: Cpu): seq<Cpu> {
    if inside == [] then [] else if inside[0] == c then inside[1..] else [inside[0]] + Without(inside[1..], c)
  }

  function Apply(s: State, e: Event): State {
    match e
    case TryLock(c) => State(true, if s.flag then s.inside else s.inside + [c])
    case Unlock(c) => State(false, Without(s.inside, c))
  }

  /** At most one CPU inside, and the flag says whether there is one. */
  predicate Inv(s: State) { |s.inside| <= 1 && (s.flag <==> s.inside != []) }

  lemma TryLockKeeps(s: State, c: Cpu)
    requires Inv(s)
    ensures Inv(Apply(s, TryLock(c)))
    ensures Succeeds(s, TryLock(c)) <==> s.inside == []
    ensures Apply(s, TryLock(c)).inside == if s.inside == [] then [c] else s.inside
  {
  }

  /** `unlock` does not ask who calls it. It keeps exclusion exactly when the caller is inside, or nobody is. */
  lemma UnlockKeepsExactlyWhen(s: State, c: Cpu)
    requires Inv(s)
    ensures Inv(Apply(s, Unlock(c))) <==> s.inside == [] || s.inside == [c]
  {
    if s.inside != [] {
      assert s.inside == [s.inside[0]];
      assert Without(s.inside[1..], c) == [];
    }
  }

  /** A run in which only those inside unlock. */
  ghost predicate Run(ss: seq<State>, es: seq<Event>) {
    && |ss| == |es| + 1 && ss[0] == State(false, [])
    && forall i :: 0 <= i < |es| ==> ss[i + 1] == Apply(ss[i], es[i]) && (es[i].Unlock? ==> es[i].c in ss[i].inside)
  }

  lemma {:induction false} InvThroughout(ss: seq<State>, es: seq<Event>, n: nat)
    requires Run(ss, es) && n < |ss|
    ensures Inv(ss[n])
  {
    if n > 0 {
      InvThroughout(ss, es, n - 1);
      assert ss[n] == Apply(ss[n - 1], es[n - 1]);
      if es[n - 1].Unlock? { UnlockKeepsExactlyWhen(ss[n - 1], es[n - 1].c); }
    }
  }

  /** Mutual exclusion: in every run, a CPU that was let in at step i and has not unlocked is the only one inside, and
      every other attempt meanwhile fails. */
  lemma {:induction false} MutualExclusion(ss: seq<State>, es: seq<Event>, i: nat, j: nat, c: Cpu)
    requires Run(ss, es) && i < j < |ss| && es[i] == TryLock(c) && Succeeds(ss[i], es[i])
    requires forall k :: i < k < j ==> es[k] != Unlock(c)
    ensures ss[j].inside == [c]
    ensures j < |es| && es[j].TryLock? ==> !Succeeds(ss[j], es[j])
  {
    InvThroughout(ss, es, i);
    InvThroughout(ss, es, j);
    if j > i + 1 {
      MutualExclusion(ss, es, i, j - 1, c);
      assert ss[j] == Apply(ss[j - 1], es[j - 1]) && es[j - 1] != Unlock(c);
    }
  }

  /** A CPU that unlocks what another one holds lets a second one in. */
  lemma ForeignUnlock()
    ensures var s := Apply(State(false, []), TryLock(0));
            && s == State(true, [0]) && Inv(s)
            && Apply(Apply(s, Unlock(1)), TryLock(1)) == State(true, [0, 1])
  {
    assert [] + [0] == [0] && [0] + [1] == [0, 1];
    assert Without([0], 1) == [0] by { assert [0][1..] == []; }
  }

  class Lock {
    var flag: bool

    /** `trylock`: the exchange. True is EOK, false EBUSY. */
    method TryLock() returns (ok: bool)
      modifies this
      ensures flag && (ok <==> !old(flag))
    {
      var swap := true;
      swap, flag := flag, swap;
      ok := !swap;
    }

    method Unlock()
      modifies this
      ensures !flag
    {
      flag := false;
    }
  }
}
