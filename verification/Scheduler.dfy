/**
The scheduler of src/task/task.cpp together with the map-ownership half of
src/mem/vm.cpp, as an interleaving of steps by any number of CPUs.

Every section the kernel runs under `waiting_mutex`, task `_mutex` or vm
`_mutex` is one step, and so is every unlocked write another CPU can observe.
A CPU's `Stage` is its program counter plus the thread it is working on.
*/
module Scheduler {
  import opened Wrappers

  type Cpu = nat
  type Tid = nat

  // `no_wchan` is the first channel `task::init` creates
  const NO_WCHAN: nat := 0

  datatype Stage =
    | Idle                   // in schedule(), waiting for a ready thread
    | Dequeued(t: Tid)       // popped from the ready list, in_use not yet tested
    | Claimed(t: Tid)        // in_use set, map not yet entered
    | Running(t: Tid)        // map entered, info.thread set
    | Yielding(t: Tid)       // info.thread cleared, map not yet left
    | Left(t: Tid)           // map left, in_use still set
    | Released(t: Tid)       // in_use cleared, not yet put back
    | Ending(t: Tid)         // in task_end_done, before Thread::end
    | PanicInUse(t: Tid)     // "Found an in use thread in the waiting list"
    | PanicOwned(t: Tid)     // "Tried to set a VM which is already owned by another CPU"

  /** `owner` is the `using_cpu` field of the thread's map. */
  datatype Thread = Thread(inUse: bool, wchan: nat, ended: bool, owner: Option<Cpu>)

  /** `ready` is `waiting_threads` from front to back; `pending` lists the calls of `new_thread`
      and `resume` that are between their two critical sections. */
  datatype State = State(ready: seq<Tid>, pending: seq<Tid>, threads: map<Tid, Thread>, cpus: seq<Stage>)

  datatype Event =
    | Create(t: Tid)              // new_thread, up to the push
    | Push(k: nat)                // the push that ends new_thread or resume
    | Dequeue(c: Cpu)             // schedule: back() and pop_back()
    | Claim(c: Cpu)               // schedule: test and set in_use
    | Enter(c: Cpu)               // task_enter: Map::enter
    | SetWchan(c: Cpu, w: nat)    // wait: name the channel
    | BeginYield(c: Cpu)          // task_yield_done: clear info.thread
    | Exit(c: Cpu)                // task_yield_done: Map::exit
    | Release(c: Cpu)             // task_yield_done: clear in_use
    | Requeue(c: Cpu)             // task_yield_done: push unless waiting
    | BeginEnd(c: Cpu)            // task_end_done: clear info.thread
    | End(c: Cpu)                 // Thread::end
    | Resume(t: Tid)              // resume: clear wchan, up to the push

  predicate Holds(st: Stage, t: Tid) { !st.Idle? && st.t == t }

  predicate At(s: State, c: Cpu) { c < |s.cpus| }

  /** Which steps the program counters allow; nothing is assumed about the callers of `resume`. */
  predicate Enabled(s: State, e: Event) {
    match e
    case Create(t) => t !in s.threads
    case Push(k) => k < |s.pending|
    case Dequeue(c) => At(s, c) && s.cpus[c].Idle? && s.ready != []
    case Claim(c) => At(s, c) && s.cpus[c].Dequeued? && s.cpus[c].t in s.threads
    case Enter(c) => At(s, c) && s.cpus[c].Claimed? && s.cpus[c].t in s.threads
    case SetWchan(c, _) => At(s, c) && s.cpus[c].Running? && s.cpus[c].t in s.threads
    case BeginYield(c) => At(s, c) && s.cpus[c].Running?
    case Exit(c) => At(s, c) && s.cpus[c].Yielding? && s.cpus[c].t in s.threads
    case Release(c) => At(s, c) && s.cpus[c].Left? && s.cpus[c].t in s.threads
    case Requeue(c) => At(s, c) && s.cpus[c].Released? && s.cpus[c].t in s.threads
    case BeginEnd(c) => At(s, c) && s.cpus[c].Running?
    case End(c) => At(s, c) && s.cpus[c].Ending? && s.cpus[c].t in s.threads
    case Resume(t) => t in s.threads
  }

  function SetStage(s: State, c: Cpu, st: Stage): State
    requires At(s, c)
  {
    s.(cpus := s.cpus[c := st])
  }

  function SetThread(s: State, t: Tid, th: Thread): State {
    s.(threads := s.threads[t := th])
  }

  function Apply(s: State, e: Event): State
    requires Enabled(s, e)
  {
    match e
    case Create(t) =>
      SetThread(s, t, Thread(false, NO_WCHAN, false, None)).(pending := s.pending + [t])
    case Push(k) =>
      s.(ready := [s.pending[k]] + s.ready, pending := s.pending[..k] + s.pending[k + 1..])
    case Dequeue(c) =>
      var last := |s.ready| - 1;
      SetStage(s.(ready := s.ready[..last]), c, Dequeued(s.ready[last]))
    case Claim(c) =>
      var t := s.cpus[c].t;
      if s.threads[t].inUse then SetStage(s, c, PanicInUse(t))
      else SetStage(SetThread(s, t, s.threads[t].(inUse := true)), c, Claimed(t))
    case Enter(c) =>
      var t := s.cpus[c].t;
      if s.threads[t].owner.Some? then SetStage(s, c, PanicOwned(t))
      else SetStage(SetThread(s, t, s.threads[t].(owner := Some(c))), c, Running(t))
    case SetWchan(c, w) =>
      var t := s.cpus[c].t;
      SetThread(s, t, s.threads[t].(wchan := w))
    case BeginYield(c) => SetStage(s, c, Yielding(s.cpus[c].t))
    case Exit(c) =>
      var t := s.cpus[c].t;
      SetStage(SetThread(s, t, s.threads[t].(owner := None)), c, Left(t))
    case Release(c) =>
      var t := s.cpus[c].t;
      SetStage(SetThread(s, t, s.threads[t].(inUse := false)), c, Released(t))
    case Requeue(c) =>
      var t := s.cpus[c].t;
      if s.threads[t].wchan == NO_WCHAN then SetStage(s.(ready := [t] + s.ready), c, Idle)
      else SetStage(s, c, Idle)
    case BeginEnd(c) => SetStage(s, c, Ending(s.cpus[c].t))
    case End(c) =>
      var t := s.cpus[c].t;
      SetStage(SetThread(s, t, s.threads[t].(ended := true)), c, Idle)
    case Resume(t) =>
      if s.threads[t].wchan == NO_WCHAN then s
      else SetThread(s, t, s.threads[t].(wchan := NO_WCHAN)).(pending := s.pending + [t])
  }

  // ---- Places -------------------------------------------------------------

  predicate Nowhere(s: State, t: Tid) {
    && t !in s.ready
    && t !in s.pending
    && forall c :: 0 <= c < |s.cpus| ==> !Holds(s.cpus[c], t)
  }

  /** Off every list and every CPU, and not finished: what a call of `wait` leaves behind. */
  predicate Parked(s: State, t: Tid) {
    t in s.threads && Nowhere(s, t) && !s.threads[t].ended
  }

  /** The rule callers of `resume` must follow; every other step is unrestricted. */
  predicate Disciplined(s: State, e: Event) {
    e.Resume? && e.t in s.threads && s.threads[e.t].wchan != NO_WCHAN ==> Parked(s, e.t)
  }

  // ---- The invariant ------------------------------------------------------

  predicate Distinct(l: seq<Tid>) {
    forall i, j :: 0 <= i < j < |l| ==> l[i] != l[j]
  }

  predicate OnePlace(s: State) {
    && Distinct(s.ready)
    && Distinct(s.pending)
    && (forall t :: t in s.ready ==> t !in s.pending)
    && (forall c :: 0 <= c < |s.cpus| && !s.cpus[c].Idle? ==>
                    s.cpus[c].t !in s.ready && s.cpus[c].t !in s.pending)
    && (forall c, d :: 0 <= c < d < |s.cpus| && !s.cpus[c].Idle? ==> !Holds(s.cpus[d], s.cpus[c].t))
  }

  /** What a thread waiting in either list looks like. */
  predicate Startable(s: State, t: Tid) {
    && t in s.threads
    && !s.threads[t].inUse
    && s.threads[t].owner == None
    && !s.threads[t].ended
  }

  predicate Queued(s: State, t: Tid) {
    Startable(s, t) && s.threads[t].wchan == NO_WCHAN
  }

  predicate StageOk(s: State, c: Cpu)
    requires At(s, c)
  {
    var st := s.cpus[c];
    st.Idle? ||
    (st.t in s.threads && !s.threads[st.t].ended &&
     match st
     case Idle => true
     case Dequeued(t) => Startable(s, t)
     case Claimed(t) => s.threads[t].inUse && s.threads[t].owner == None
     case Running(t) => s.threads[t].inUse && s.threads[t].owner == Some(c)
     case Yielding(t) => s.threads[t].inUse && s.threads[t].owner == Some(c)
     case Left(t) => s.threads[t].inUse && s.threads[t].owner == None
     case Released(t) => Startable(s, t)
     case Ending(t) => s.threads[t].inUse && s.threads[t].owner == Some(c)
     case PanicInUse(_) => false
     case PanicOwned(_) => false)
  }

  /** A thread that is nowhere has either ended, still marked in use, or is asleep on a channel. */
  predicate RestOk(s: State, t: Tid)
    requires t in s.threads
  {
    if s.threads[t].ended then s.threads[t].inUse && s.threads[t].owner.Some?
    else Startable(s, t) && s.threads[t].wchan != NO_WCHAN
  }

  predicate Inv(s: State) {
    && OnePlace(s)
    && (forall t :: t in s.ready ==> Queued(s, t))
    && (forall t :: t in s.pending ==> Queued(s, t))
    && (forall c :: 0 <= c < |s.cpus| ==> StageOk(s, c))
    && (forall t :: t in s.threads && Nowhere(s, t) ==> RestOk(s, t))
  }

  predicate Init(s: State) {
    s.ready == [] && s.pending == [] && s.threads == map[] && forall c :: 0 <= c < |s.cpus| ==> s.cpus[c].Idle?
  }

  // ---- Preservation, one event at a time ----------------------------------

  /** The common shape: CPU `c` moves on with the thread it already holds, changing that thread alone. */
  lemma MoveOn(s: State, c: Cpu, st: Stage, th: Thread)
    requires Inv(s) && At(s, c) && !s.cpus[c].Idle?
    requires Holds(st, s.cpus[c].t)
    requires StageOk(SetStage(SetThread(s, st.t, th), c, st), c)
    ensures Inv(SetStage(SetThread(s, st.t, th), c, st))
  {
    var s' := SetStage(SetThread(s, st.t, th), c, st);
    forall d | 0 <= d < |s'.cpus| ensures StageOk(s', d) {
      assert StageOk(s, d);
    }
    forall u | u in s'.threads && Nowhere(s', u) ensures RestOk(s', u) {
      assert Holds(s'.cpus[c], st.t);
      assert Nowhere(s, u) by {
        forall d | 0 <= d < |s.cpus| ensures !Holds(s.cpus[d], u) {
          assert !Holds(s'.cpus[d], u);
        }
      }
    }
  }

  lemma CreateKeeps(s: State, t: Tid)
    requires Inv(s) && Enabled(s, Create(t))
    ensures Inv(Apply(s, Create(t)))
  {
    var s' := Apply(s, Create(t));
    assert t !in s.pending && t !in s.ready;
    assert forall u :: u in s'.pending <==> u in s.pending || u == t;
    forall d | 0 <= d < |s'.cpus| ensures StageOk(s', d) && !Holds(s'.cpus[d], t) {
      assert StageOk(s, d);
    }
    forall u | u in s'.threads && Nowhere(s', u) ensures RestOk(s', u) {
      assert t in s'.pending && Nowhere(s, u);
    }
  }

  lemma PushKeeps(s: State, k: nat)
    requires Inv(s) && Enabled(s, Push(k))
    ensures Inv(Apply(s, Push(k)))
  {
    var s' := Apply(s, Push(k));
    var t := s.pending[k];
    assert t in s.pending;
    assert forall u :: u in s'.ready <==> u in s.ready || u == t;
    assert forall u :: u in s'.pending <==> u in s.pending && u != t;
    forall d | 0 <= d < |s'.cpus| ensures StageOk(s', d) {
      assert StageOk(s, d);
    }
    forall u | u in s'.threads && Nowhere(s', u) ensures RestOk(s', u) {
      assert t in s'.ready && Nowhere(s, u);
    }
  }

  lemma DequeueKeeps(s: State, c: Cpu)
    requires Inv(s) && Enabled(s, Dequeue(c))
    ensures Inv(Apply(s, Dequeue(c)))
  {
    var s' := Apply(s, Dequeue(c));
    var t := s.ready[|s.ready| - 1];
    assert t in s.ready;
    assert forall u :: u in s'.ready <==> u in s.ready && u != t;
    forall d | 0 <= d < |s'.cpus| ensures StageOk(s', d) && (d != c ==> !Holds(s'.cpus[d], t)) {
      assert StageOk(s, d);
    }
    forall u | u in s'.threads && Nowhere(s', u) ensures RestOk(s', u) {
      assert Holds(s'.cpus[c], t);
      assert Nowhere(s, u) by {
        forall d | 0 <= d < |s.cpus| ensures !Holds(s.cpus[d], u) {
          assert !Holds(s'.cpus[d], u);
        }
      }
    }
  }

  lemma RequeueKeeps(s: State, c: Cpu)
    requires Inv(s) && Enabled(s, Requeue(c))
    ensures Inv(Apply(s, Requeue(c)))
  {
    var s' := Apply(s, Requeue(c));
    var t := s.cpus[c].t;
    assert StageOk(s, c);
    assert forall u :: u in s'.ready ==> u in s.ready || u == t;
    assert s.threads[t].wchan == NO_WCHAN ==> t in s'.ready;
    forall d | 0 <= d < |s'.cpus| ensures StageOk(s', d) && !Holds(s'.cpus[d], t) {
      assert StageOk(s, d);
    }
    forall u | u in s'.threads && Nowhere(s', u) ensures RestOk(s', u) {
      if u != t {
        assert forall v :: v in s.ready ==> v in s'.ready;
        assert Nowhere(s, u) by {
          forall d | 0 <= d < |s.cpus| ensures !Holds(s.cpus[d], u) {
            assert !Holds(s'.cpus[d], u);
          }
        }
      }
    }
  }

  lemma EndKeeps(s: State, c: Cpu)
    requires Inv(s) && Enabled(s, End(c))
    ensures Inv(Apply(s, End(c)))
  {
    var s' := Apply(s, End(c));
    var t := s.cpus[c].t;
    assert StageOk(s, c);
    forall d | 0 <= d < |s'.cpus| ensures StageOk(s', d) {
      assert StageOk(s, d);
    }
    forall u | u in s'.threads && Nowhere(s', u) ensures RestOk(s', u) {
      if u != t {
        assert Nowhere(s, u) by {
          forall d | 0 <= d < |s.cpus| ensures !Holds(s.cpus[d], u) {
            assert !Holds(s'.cpus[d], u);
          }
        }
      }
    }
  }

  lemma ResumeKeeps(s: State, t: Tid)
    requires Inv(s) && Parked(s, t) && s.threads[t].wchan != NO_WCHAN
    ensures Inv(Apply(s, Resume(t)))
  {
    var s' := Apply(s, Resume(t));
    assert RestOk(s, t);
    assert forall u :: u in s'.pending <==> u in s.pending || u == t;
    forall d | 0 <= d < |s'.cpus| ensures StageOk(s', d) {
      assert StageOk(s, d);
    }
    forall u | u in s'.threads && Nowhere(s', u) ensures RestOk(s', u) {
      assert t in s'.pending && Nowhere(s, u);
    }
  }

  /** Every step the kernel can take keeps the invariant, provided `resume` is only aimed at parked threads. */
  lemma StepKeepsInv(s: State, e: Event)
    requires Inv(s) && Enabled(s, e) && Disciplined(s, e)
    ensures Inv(Apply(s, e))
  {
    match e
    case Create(t) => CreateKeeps(s, t);
    case Push(k) => PushKeeps(s, k);
    case Dequeue(c) => DequeueKeeps(s, c);
    case Requeue(c) => RequeueKeeps(s, c);
    case End(c) => EndKeeps(s, c);
    case Resume(t) =>
      if s.threads[t].wchan != NO_WCHAN { ResumeKeeps(s, t); }
    case Claim(c) =>
      assert StageOk(s, c);
      var t := s.cpus[c].t;
      MoveOn(s, c, Claimed(t), s.threads[t].(inUse := true));
    case Enter(c) =>
      assert StageOk(s, c);
      var t := s.cpus[c].t;
      MoveOn(s, c, Running(t), s.threads[t].(owner := Some(c)));
    case SetWchan(c, w) =>
      assert StageOk(s, c);
      var t := s.cpus[c].t;
      MoveOn(s, c, Running(t), s.threads[t].(wchan := w));
      assert SetStage(SetThread(s, t, s.threads[t].(wchan := w)), c, Running(t)) == Apply(s, e);
    case BeginYield(c) =>
      assert StageOk(s, c);
      var t := s.cpus[c].t;
      MoveOn(s, c, Yielding(t), s.threads[t]);
      assert SetThread(s, t, s.threads[t]) == s;
    case BeginEnd(c) =>
      assert StageOk(s, c);
      var t := s.cpus[c].t;
      MoveOn(s, c, Ending(t), s.threads[t]);
      assert SetThread(s, t, s.threads[t]) == s;
    case Exit(c) =>
      assert StageOk(s, c);
      var t := s.cpus[c].t;
      MoveOn(s, c, Left(t), s.threads[t].(owner := None));
    case Release(c) =>
      assert StageOk(s, c);
      var t := s.cpus[c].t;
      MoveOn(s, c, Released(t), s.threads[t].(inUse := false));
  }

  /** The rule is exact: a `resume` that takes effect keeps the invariant if and only if its target is parked.
      Aimed at a running or yielding thread it puts the thread in two places at once; aimed at a finished
      one it revives it. */
  lemma ResumeRuleIsExact(s: State, t: Tid)
    requires Inv(s) && t in s.threads && s.threads[t].wchan != NO_WCHAN
    ensures Inv(Apply(s, Resume(t))) <==> Parked(s, t)
  {
    var s' := Apply(s, Resume(t));
    if Parked(s, t) {
      ResumeKeeps(s, t);
    }
    if Inv(s') {
      assert s'.pending[|s.pending|] == t;
      assert t in s'.pending;
      forall c | 0 <= c < |s.cpus| ensures !Holds(s.cpus[c], t) {
        assert s'.cpus[c] == s.cpus[c];
      }
    }
  }

  // ---- Whole runs ---------------------------------------------------------

  predicate Step(s: State, e: Event, s': State) {
    Enabled(s, e) && s' == Apply(s, e)
  }

  /** A run: states joined by the steps between them. */
  predicate Run(tr: seq<State>, evs: seq<Event>) {
    && |tr| == |evs| + 1
    && Init(tr[0])
    && forall i :: 0 <= i < |evs| ==> Step(tr[i], evs[i], tr[i + 1])
  }

  predicate DisciplinedRun(tr: seq<State>, evs: seq<Event>) {
    Run(tr, evs) && forall i :: 0 <= i < |evs| ==> Disciplined(tr[i], evs[i])
  }

  lemma {:induction false} InvThroughout(tr: seq<State>, evs: seq<Event>, n: nat)
    requires DisciplinedRun(tr, evs) && n < |tr|
    ensures Inv(tr[n])
  {
    if n == 0 {
    } else {
      InvThroughout(tr, evs, n - 1);
      assert Step(tr[n - 1], evs[n - 1], tr[n]) && Disciplined(tr[n - 1], evs[n - 1]);
      StepKeepsInv(tr[n - 1], evs[n - 1]);
    }
  }

  datatype Place = InReady(i: nat) | InPending(i: nat) | OnCpu(c: Cpu) | Asleep | Finished

  predicate IsAt(s: State, t: Tid, p: Place)
    requires t in s.threads
  {
    match p
    case InReady(i) => i < |s.ready| && s.ready[i] == t
    case InPending(i) => i < |s.pending| && s.pending[i] == t
    case OnCpu(c) => At(s, c) && Holds(s.cpus[c], t)
    case Asleep => Nowhere(s, t) && !s.threads[t].ended && s.threads[t].wchan != NO_WCHAN
    case Finished => Nowhere(s, t) && s.threads[t].ended
  }

  /** Never lost, never duplicated: in every reachable state every thread ever created is in exactly one place. */
  lemma ExactlyOnePlace(tr: seq<State>, evs: seq<Event>, n: nat, t: Tid)
    requires DisciplinedRun(tr, evs) && n < |tr| && t in tr[n].threads
    ensures exists p :: IsAt(tr[n], t, p) && forall q :: IsAt(tr[n], t, q) ==> q == p
  {
    InvThroughout(tr, evs, n);
    var s := tr[n];
    var p :=
      if t in s.ready then InReady(var i :| 0 <= i < |s.ready| && s.ready[i] == t; i)
      else if t in s.pending then InPending(var i :| 0 <= i < |s.pending| && s.pending[i] == t; i)
      else if exists c :: 0 <= c < |s.cpus| && Holds(s.cpus[c], t) then
        OnCpu(var c :| 0 <= c < |s.cpus| && Holds(s.cpus[c], t); c)
      else if s.threads[t].ended then Finished
      else Asleep;
    assert IsAt(s, t, p);
    forall q | IsAt(s, t, q) ensures q == p {
    }
  }

  /** Safety in every reachable state: neither panic can happen, what runs is in use under a map owned by
      its own CPU and nobody else runs it, and what is ready is free to be picked up. */
  lemma NoPanic(tr: seq<State>, evs: seq<Event>, n: nat, c: Cpu)
    requires DisciplinedRun(tr, evs) && n < |tr| && At(tr[n], c)
    ensures !tr[n].cpus[c].PanicInUse? && !tr[n].cpus[c].PanicOwned?
    ensures tr[n].cpus[c].Running? ==>
              var t := tr[n].cpus[c].t;
              && t in tr[n].threads
              && tr[n].threads[t].inUse && tr[n].threads[t].owner == Some(c) && !tr[n].threads[t].ended
              && forall d :: 0 <= d < |tr[n].cpus| && d != c ==> !Holds(tr[n].cpus[d], t)
    ensures forall t :: t in tr[n].ready ==> Queued(tr[n], t)
  {
    InvThroughout(tr, evs, n);
    assert StageOk(tr[n], c);
  }

  /** A finished thread is never dispatched again, and its map stays owned by a CPU for ever:
      `task_end_done` has no counterpart of `Map::exit`. */
  lemma {:induction false} EndedStaysEnded(tr: seq<State>, evs: seq<Event>, i: nat, n: nat, t: Tid)
    requires DisciplinedRun(tr, evs) && i <= n < |tr|
    requires t in tr[i].threads && tr[i].threads[t].ended
    ensures t in tr[n].threads && tr[n].threads[t].ended
    ensures Nowhere(tr[n], t)
    ensures tr[n].threads[t].owner == tr[i].threads[t].owner && tr[n].threads[t].owner.Some?
  {
    InvThroughout(tr, evs, n);
    if n == i {
      forall c | 0 <= c < |tr[n].cpus| ensures !Holds(tr[n].cpus[c], t) {
        assert StageOk(tr[n], c);
      }
    } else {
      EndedStaysEnded(tr, evs, i, n - 1, t);
      assert Step(tr[n - 1], evs[n - 1], tr[n]) && Disciplined(tr[n - 1], evs[n - 1]);
      EndedOneStep(tr[n - 1], evs[n - 1], t);
    }
  }

  lemma EndedOneStep(s: State, e: Event, t: Tid)
    requires Enabled(s, e) && Disciplined(s, e)
    requires t in s.threads && s.threads[t].ended && Nowhere(s, t)
    ensures var s' := Apply(s, e);
            t in s'.threads && s'.threads[t].ended && s'.threads[t].owner == s.threads[t].owner && Nowhere(s', t)
  {
    var s' := Apply(s, e);
    if e.Push? {
      assert s.pending[e.k] in s.pending;
    } else if e.Dequeue? {
      assert s.ready[|s.ready| - 1] in s.ready;
    } else if !e.Create? && !e.Resume? {
      assert !Holds(s.cpus[e.c], t);
    }
    forall d | 0 <= d < |s'.cpus| ensures !Holds(s'.cpus[d], t) {
      assert !Holds(s.cpus[d], t);
    }
  }

  // ---- Bounded waiting ----------------------------------------------------

  /** How many dequeues happen in steps i..j of a run. */
  function Dequeues(evs: seq<Event>, i: nat, j: nat): nat
    requires i <= j <= |evs|
  {
    if i == j then 0 else Dequeues(evs, i, j - 1) + (if evs[j - 1].Dequeue? then 1 else 0)
  }

  /** One step moves the ready list only at its ends: threads join at the front and leave at the back. */
  lemma ReadyMovesAtTheEnds(s: State, e: Event, left: nat)
    requires Enabled(s, e) && left < |s.ready| && (e.Dequeue? ==> left > 0)
    ensures var r := Apply(s, e).ready;
            var left' := if e.Dequeue? then left - 1 else left;
            left' < |r| && r[|r| - 1 - left'] == s.ready[|s.ready| - 1 - left]
  {
  }

  lemma {:induction false} KeepsItsTurn(tr: seq<State>, evs: seq<Event>, i: nat, j: nat, k: nat)
    requires Run(tr, evs) && i <= j < |tr|
    requires k < |tr[i].ready| && Dequeues(evs, i, j) <= k
    ensures var left := k - Dequeues(evs, i, j);
            left < |tr[j].ready| && tr[j].ready[|tr[j].ready| - 1 - left] == tr[i].ready[|tr[i].ready| - 1 - k]
  {
    hide Apply, Enabled;
    if i < j {
      KeepsItsTurn(tr, evs, i, j - 1, k);
      assert Step(tr[j - 1], evs[j - 1], tr[j]);
      ReadyMovesAtTheEnds(tr[j - 1], evs[j - 1], k - Dequeues(evs, i, j - 1));
    }
  }

  /** Bounded waiting: a thread with k threads ahead of it is picked by exactly the (k+1)-th later dequeue,
      whatever else is queued meanwhile. */
  lemma PickedInTurn(tr: seq<State>, evs: seq<Event>, i: nat, j: nat, k: nat)
    requires Run(tr, evs) && i <= j < |evs|
    requires k < |tr[i].ready| && evs[j].Dequeue? && Dequeues(evs, i, j) == k
    ensures At(tr[j], evs[j].c) && tr[j + 1].cpus[evs[j].c] == Dequeued(tr[i].ready[|tr[i].ready| - 1 - k])
  {
    KeepsItsTurn(tr, evs, i, j, k);
    assert Step(tr[j], evs[j], tr[j + 1]);
  }

  // ---- What a thread can count on -------------------------------------------

  predicate Runs(s: State, c: Cpu, t: Tid) { At(s, c) && s.cpus[c] == Running(t) }

  /** A thread's channel is what it last named itself, or none since it was resumed; nobody else touches it. */
  lemma WchanChanges(tr: seq<State>, evs: seq<Event>, n: nat, t: Tid)
    requires Run(tr, evs) && n < |evs| && t in tr[n].threads
    ensures t in tr[n + 1].threads
    ensures tr[n + 1].threads[t].wchan
         == if evs[n].SetWchan? && Runs(tr[n], evs[n].c, t) then evs[n].w
            else if evs[n] == Resume(t) then NO_WCHAN
            else tr[n].threads[t].wchan
  {
    assert Step(tr[n], evs[n], tr[n + 1]);
  }

  /** Threads come into being by `new_thread` alone, asleep on nothing, in use by nobody, and on their way to the list. */
  lemma ThreadsAppear(tr: seq<State>, evs: seq<Event>, n: nat, t: Tid)
    requires Run(tr, evs) && n < |evs| && t !in tr[n].threads
    ensures t in tr[n + 1].threads <==> evs[n] == Create(t)
    ensures evs[n] == Create(t) ==> tr[n + 1].threads[t] == Thread(false, NO_WCHAN, false, None) && t in tr[n + 1].pending
  {
    assert Step(tr[n], evs[n], tr[n + 1]);
    if evs[n].Create? { assert tr[n + 1].pending[|tr[n].pending|] == evs[n].t; }
  }

  /** The CPU at whose hands thread t is, if the event is a step of that CPU. */
  predicate Handles(s: State, e: Event, t: Tid) {
    !e.Create? && !e.Push? && !e.Resume? && At(s, e.c) && Holds(s.cpus[e.c], t)
  }

  /** A thread is in use from the moment a CPU takes it out of the list until that CPU has put it down, its map is owned by
      that CPU from entering to leaving it, and it ends when that CPU ends it; nobody else changes any of this. */
  lemma UseChanges(tr: seq<State>, evs: seq<Event>, n: nat, t: Tid)
    requires DisciplinedRun(tr, evs) && n < |evs| && t in tr[n].threads
    ensures t in tr[n + 1].threads
    ensures var x, y := tr[n].threads[t], tr[n + 1].threads[t];
            if !Handles(tr[n], evs[n], t) then y.inUse == x.inUse && y.owner == x.owner && y.ended == x.ended
            else
              && (y.inUse <==> evs[n].Claim? || (x.inUse && !evs[n].Release?))
              && y.owner == (if evs[n].Enter? then Some(evs[n].c) else if evs[n].Exit? then None else x.owner)
              && (y.ended <==> evs[n].End?)
  {
    InvThroughout(tr, evs, n);
    assert Step(tr[n], evs[n], tr[n + 1]);
    if !evs[n].Create? && !evs[n].Push? && !evs[n].Resume? { assert StageOk(tr[n], evs[n].c); }
  }

  /** The stages a CPU takes a thread through, each by its own step. */
  function NextStage(e: Event, t: Tid): Stage {
    match e
    case Claim(_) => Claimed(t)
    case Enter(_) => Running(t)
    case SetWchan(_, _) => Running(t)
    case BeginYield(_) => Yielding(t)
    case Exit(_) => Left(t)
    case Release(_) => Released(t)
    case BeginEnd(_) => Ending(t)
    case _ => Idle
  }

  /** Where a thread is moves only like this: from `new_thread` or `resume` to the front of the list, from its back to the CPU
      that dequeued it, and through that CPU's stages. */
  lemma PlaceMoves(tr: seq<State>, evs: seq<Event>, n: nat, t: Tid)
    requires DisciplinedRun(tr, evs) && n < |evs| && t in tr[n].threads
    ensures t in tr[n].pending ==>
              if evs[n].Push? && evs[n].k < |tr[n].pending| && tr[n].pending[evs[n].k] == t then tr[n + 1].ready == [t] + tr[n].ready
              else t in tr[n + 1].pending
    ensures t in tr[n].ready ==>
              if evs[n].Dequeue? && tr[n].ready[|tr[n].ready| - 1] == t then tr[n + 1].cpus[evs[n].c] == Dequeued(t)
              else t in tr[n + 1].ready
    ensures Handles(tr[n], evs[n], t) ==> tr[n + 1].cpus[evs[n].c] == NextStage(evs[n], t)
  {
    InvThroughout(tr, evs, n);
    var s, e := tr[n], evs[n];
    assert Step(s, e, tr[n + 1]);
    if e.Push? && t in s.pending && s.pending[e.k] != t {
      var i :| 0 <= i < |s.pending| && s.pending[i] == t;
      assert tr[n + 1].pending[if i < e.k then i else i - 1] == t;
    }
    if e.Dequeue? && t in s.ready && s.ready[|s.ready| - 1] != t {
      var i :| 0 <= i < |s.ready| && s.ready[i] == t;
      assert tr[n + 1].ready[i] == t;
    }
    if !e.Create? && !e.Push? && !e.Resume? { assert StageOk(s, e.c); }
  }

  /** No CPU changes what another is doing. */
  lemma CpusMoveAlone(tr: seq<State>, evs: seq<Event>, n: nat, c: Cpu)
    requires Run(tr, evs) && n < |evs| && At(tr[n], c)
    ensures At(tr[n + 1], c)
    ensures evs[n].Create? || evs[n].Push? || evs[n].Resume? || evs[n].c != c ==> tr[n + 1].cpus[c] == tr[n].cpus[c]
  {
    assert Step(tr[n], evs[n], tr[n + 1]);
  }

  /** The end of a yield: a thread that named no channel is at the front of the list again; one that did is asleep on it. */
  lemma YieldGoesOn(tr: seq<State>, evs: seq<Event>, n: nat, c: Cpu, t: Tid)
    requires DisciplinedRun(tr, evs) && n < |evs| && At(tr[n], c) && At(tr[n + 1], c)
    requires tr[n].cpus[c] == Released(t) && tr[n + 1].cpus[c] == Idle
    ensures t in tr[n].threads && t in tr[n + 1].threads
    ensures tr[n + 1].threads[t].wchan == tr[n].threads[t].wchan
    ensures if tr[n].threads[t].wchan == NO_WCHAN then tr[n + 1].ready == [t] + tr[n].ready
            else Parked(tr[n + 1], t) && tr[n + 1].ready == tr[n].ready
  {
    InvThroughout(tr, evs, n);
    assert Step(tr[n], evs[n], tr[n + 1]);
    assert StageOk(tr[n], c);
  }

  /** A thread that is asleep stays asleep on its channel until it is resumed. */
  lemma {:induction false} ParkedStays(tr: seq<State>, evs: seq<Event>, i: nat, n: nat, t: Tid)
    requires DisciplinedRun(tr, evs) && i <= n < |tr| && Parked(tr[i], t)
    requires forall k :: i <= k < n ==> evs[k] != Resume(t)
    ensures Parked(tr[n], t) && tr[n].threads[t].wchan == tr[i].threads[t].wchan
  {
    if i < n {
      ParkedStays(tr, evs, i, n - 1, t);
      assert Step(tr[n - 1], evs[n - 1], tr[n]);
      ParkedOneStep(tr[n - 1], evs[n - 1], t);
    }
  }

  lemma ParkedOneStep(s: State, e: Event, t: Tid)
    requires Enabled(s, e) && Parked(s, t) && e != Resume(t)
    ensures Parked(Apply(s, e), t) && Apply(s, e).threads[t].wchan == s.threads[t].wchan
  {
    var s' := Apply(s, e);
    if e.Push? {
      assert s.pending[e.k] in s.pending;
    } else if e.Dequeue? {
      assert s.ready[|s.ready| - 1] in s.ready;
    } else if !e.Create? && !e.Resume? {
      assert !Holds(s.cpus[e.c], t);
    }
    forall d | 0 <= d < |s'.cpus| ensures !Holds(s'.cpus[d], t) {
      assert !Holds(s.cpus[d], t);
    }
  }

  /** Resuming it puts it on its way to the list, asleep on nothing. */
  lemma ResumedIsQueued(tr: seq<State>, evs: seq<Event>, n: nat, t: Tid)
    requires DisciplinedRun(tr, evs) && n < |evs| && evs[n] == Resume(t) && Parked(tr[n], t)
    ensures t in tr[n + 1].pending && tr[n + 1].threads[t].wchan == NO_WCHAN
  {
    InvThroughout(tr, evs, n);
    assert Step(tr[n], evs[n], tr[n + 1]);
    assert RestOk(tr[n], t);
    assert tr[n + 1].pending[|tr[n].pending|] == t;
  }

  /** Nothing gets stuck: a CPU that has a thread in its hands can take its next step, and an idle one can take a thread
      whenever one is ready. A thread can be created, queued or resumed at any time. */
  lemma NothingGetsStuck(tr: seq<State>, evs: seq<Event>, n: nat, c: Cpu)
    requires DisciplinedRun(tr, evs) && n < |tr| && At(tr[n], c)
    ensures match tr[n].cpus[c]
            case Idle => Enabled(tr[n], Dequeue(c)) <==> tr[n].ready != []
            case Dequeued(_) => Enabled(tr[n], Claim(c))
            case Claimed(_) => Enabled(tr[n], Enter(c))
            case Running(_) =>
              && Enabled(tr[n], BeginYield(c)) && Enabled(tr[n], BeginEnd(c))
              && forall w: nat :: Enabled(tr[n], SetWchan(c, w))
            case Yielding(_) => Enabled(tr[n], Exit(c))
            case Left(_) => Enabled(tr[n], Release(c))
            case Released(_) => Enabled(tr[n], Requeue(c))
            case Ending(_) => Enabled(tr[n], End(c))
            case PanicInUse(_) => false
            case PanicOwned(_) => false
    ensures forall t :: if t in tr[n].threads then Enabled(tr[n], Resume(t)) else Enabled(tr[n], Create(t))
    ensures forall k: nat :: k < |tr[n].pending| ==> Enabled(tr[n], Push(k))
  {
    InvThroughout(tr, evs, n);
    assert StageOk(tr[n], c);
  }

  /** So a thread that yields without naming a channel is the one picked once those that were ready have been. */
  lemma YielderRunsAgain(tr: seq<State>, evs: seq<Event>, n: nat, j: nat, c: Cpu, t: Tid)
    requires DisciplinedRun(tr, evs) && n < j < |evs| && At(tr[n], c) && At(tr[n + 1], c)
    requires tr[n].cpus[c] == Released(t) && tr[n + 1].cpus[c] == Idle
    requires t in tr[n].threads && tr[n].threads[t].wchan == NO_WCHAN
    requires evs[j].Dequeue? && Dequeues(evs, n + 1, j) == |tr[n].ready|
    ensures At(tr[j], evs[j].c) && tr[j + 1].cpus[evs[j].c] == Dequeued(t)
  {
    YieldGoesOn(tr, evs, n, c, t);
    PickedInTurn(tr, evs, n + 1, j, |tr[n].ready|);
  }

  // ---- Why the rule is needed ---------------------------------------------

  const FRESH := Thread(false, NO_WCHAN, false, None)
  const BUSY := Thread(true, NO_WCHAN, false, Some(0))

  lemma RacingSetup()
    ensures Step(State([], [], map[], [Idle, Idle]), Create(0), State([], [0], map[0 := FRESH], [Idle, Idle]))
    ensures Step(State([], [0], map[0 := FRESH], [Idle, Idle]), Push(0), State([0], [], map[0 := FRESH], [Idle, Idle]))
    ensures Step(State([0], [], map[0 := FRESH], [Idle, Idle]), Dequeue(0), State([], [], map[0 := FRESH], [Dequeued(0), Idle]))
  {
  }

  lemma RacingStart()
    ensures Step(State([], [], map[0 := FRESH], [Dequeued(0), Idle]), Claim(0),
                 State([], [], map[0 := FRESH.(inUse := true)], [Claimed(0), Idle]))
    ensures Step(State([], [], map[0 := FRESH.(inUse := true)], [Claimed(0), Idle]), Enter(0),
                 State([], [], map[0 := BUSY], [Running(0), Idle]))
    ensures Step(State([], [], map[0 := BUSY], [Running(0), Idle]), SetWchan(0, 1),
                 State([], [], map[0 := BUSY.(wchan := 1)], [Running(0), Idle]))
  {
  }

  lemma RacingFinish()
    ensures Step(State([], [], map[0 := BUSY.(wchan := 1)], [Running(0), Idle]), Resume(0),
                 State([], [0], map[0 := BUSY], [Running(0), Idle]))
    ensures Step(State([], [0], map[0 := BUSY], [Running(0), Idle]), Push(0),
                 State([0], [], map[0 := BUSY], [Running(0), Idle]))
    ensures Step(State([0], [], map[0 := BUSY], [Running(0), Idle]), Dequeue(1),
                 State([], [], map[0 := BUSY], [Running(0), Dequeued(0)]))
    ensures Step(State([], [], map[0 := BUSY], [Running(0), Dequeued(0)]), Claim(1),
                 State([], [], map[0 := BUSY], [Running(0), PanicInUse(0)]))
  {
  }

  /** Two CPUs; the second one trips over thread 0 because it was resumed between naming its channel and yielding. */
  lemma RacingResumePanics() returns (tr: seq<State>, evs: seq<Event>)
    ensures Run(tr, evs) && |evs| == 10 && |tr[10].cpus| == 2
    ensures evs[6] == Resume(0) && !Disciplined(tr[6], evs[6])
    ensures tr[10].cpus[1] == PanicInUse(0)
  {
    evs := [Create(0), Push(0), Dequeue(0), Claim(0), Enter(0), SetWchan(0, 1), Resume(0), Push(0), Dequeue(1), Claim(1)];
    tr := [State([], [], map[], [Idle, Idle]),
           State([], [0], map[0 := FRESH], [Idle, Idle]),
           State([0], [], map[0 := FRESH], [Idle, Idle]),
           State([], [], map[0 := FRESH], [Dequeued(0), Idle]),
           State([], [], map[0 := FRESH.(inUse := true)], [Claimed(0), Idle]),
           State([], [], map[0 := BUSY], [Running(0), Idle]),
           State([], [], map[0 := BUSY.(wchan := 1)], [Running(0), Idle]),
           State([], [0], map[0 := BUSY], [Running(0), Idle]),
           State([0], [], map[0 := BUSY], [Running(0), Idle]),
           State([], [], map[0 := BUSY], [Running(0), Dequeued(0)]),
           State([], [], map[0 := BUSY], [Running(0), PanicInUse(0)])];
    RacingSetup();
    RacingStart();
    RacingFinish();
    assert Holds(tr[6].cpus[0], 0);
  }
}
