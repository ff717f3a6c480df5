/**
TLB shootdown: src/mem/vm.cpp (the entry write in `insert`/`clear`, then `invlpg`, against `enter` and `exit`)
over the one-slot mailboxes of src/int/lapic.cpp (`send_command`, `handle_command`).

The contents of a table entry are stood for by the number of writes made to it so far, so "this translation
was read at or after that write" is a comparison of two numbers. A CPU's TLB belongs to the map in its CR3,
because loading CR3 empties it. Each store that another CPU can see is a step of its own.
*/
module TlbShootdown {
  import opened Wrappers

  type Cpu = nat
  type MapId = nat
  type Addr = nat
  type OpId = nat

  const CMD_INVLPG: int := 0

  /** Where a CPU is in `handle_command`; the last value is its "Unknown IPI command" panic. */
  datatype Handler = Resting | Entered | Executed | UnknownCommand

  /** One CPU: its CR3 (None is the kernel directory), its TLB, a latched IPI and the mailbox of `cpu::Status`. */
  datatype Core = Core(cr3: Option<MapId>, tlb: map<Addr, nat>, handler: Handler, ipi: bool,
                       command: int, arg: Addr, finished: bool)

  /** Progress of a call of `send_command`, named after the store it makes next. `mark` is how much had been
      executed anywhere when the IPI was sent. */
  datatype Send =
    | Quiet
    | Clearing(target: Cpu, what: Addr)
    | Naming(target: Cpu, what: Addr)
    | Passing(target: Cpu, what: Addr)
    | Ringing(target: Cpu, what: Addr)
    | Spinning(target: Cpu, what: Addr, mark: nat)

  /** Progress of a table write and its `Map::invlpg`. `Other` is a sender that holds no map,
      such as the broadcast in src/mem/page.cpp. */
  datatype Phase =
    | Wrote                // entry written, vm::_mutex not yet taken
    | Locked(cpu: Cpu)     // Map::invlpg on this CPU, holding vm::_mutex
    | Sending              // calling send_command for the map's owner
    | Flushed              // owner dealt with, mutex still held
    | Finished
    | Other

  datatype Op = Op(m: MapId, a: Addr, version: nat, phase: Phase, send: Send)

  /** `owner` holds the `using_cpu` of every map that has one; `log` records what handlers executed. */
  datatype State = State(cores: seq<Core>, owner: map<MapId, Cpu>, writes: map<(MapId, Addr), nat>, ops: seq<Op>,
                         vmLock: Option<OpId>, cmdLock: Option<OpId>, log: seq<(Cpu, Addr)>)

  datatype Event =
    | Enter(c: Cpu, m: MapId)
    | Exit(c: Cpu)
    | Fill(c: Cpu, a: Addr)                   // the CPU walks the tables and caches what it finds
    | Evict(c: Cpu, a: Addr)
    | Write(m: MapId, a: Addr)                // store to an entry; starts an operation
    | Lock(o: OpId, c: Cpu)                   // Map::invlpg begins, on CPU c
    | Decide(o: OpId)                         // test using_cpu
    | Unlock(o: OpId)
    | NewSender
    | Call(o: OpId, target: Cpu, what: Addr)  // a mapless sender calls send_command
    | SendStep(o: OpId)                       // the next store of send_command, or its return
    | Deliver(c: Cpu)
    | Execute(c: Cpu)
    | Acknowledge(c: Cpu)

  function Writes(s: State, m: MapId, a: Addr): nat {
    if (m, a) in s.writes then s.writes[(m, a)] else 0
  }

  predicate IsCore(s: State, c: Cpu) { c < |s.cores| }

  predicate IsOp(s: State, o: OpId) { o < |s.ops| }

  predicate OwnedElsewhere(s: State, o: OpId)
    requires IsOp(s, o)
  {
    s.ops[o].phase.Locked? && s.ops[o].m in s.owner && s.owner[s.ops[o].m] != s.ops[o].phase.cpu
  }

  predicate Enabled(s: State, e: Event) {
    match e
    case Enter(c, m) => IsCore(s, c) && s.vmLock == None && m !in s.owner
    case Exit(c) => IsCore(s, c) && s.vmLock == None && s.cores[c].cr3.Some?
    case Fill(c, _) => IsCore(s, c) && s.cores[c].cr3.Some?
    case Evict(c, _) => IsCore(s, c)
    case Write(_, _) => true
    case Lock(o, c) => IsCore(s, c) && IsOp(s, o) && s.ops[o].phase.Wrote? && s.vmLock == None
    case Decide(o) =>
      && IsOp(s, o) && s.ops[o].phase.Locked? && IsCore(s, s.ops[o].phase.cpu)
      && (OwnedElsewhere(s, o) ==> s.cmdLock == None)
    case Unlock(o) => IsOp(s, o) && s.ops[o].phase.Flushed?
    case NewSender => true
    case Call(o, target, _) =>
      IsOp(s, o) && s.ops[o].phase.Other? && s.ops[o].send.Quiet? && s.cmdLock == None && IsCore(s, target)
    case SendStep(o) =>
      && IsOp(s, o) && !s.ops[o].send.Quiet? && IsCore(s, s.ops[o].send.target)
      && (s.ops[o].send.Spinning? ==> s.cores[s.ops[o].send.target].finished)
    case Deliver(c) => IsCore(s, c) && s.cores[c].ipi && s.cores[c].handler.Resting?
    case Execute(c) => IsCore(s, c) && s.cores[c].handler.Entered?
    case Acknowledge(c) => IsCore(s, c) && s.cores[c].handler.Executed?
  }

  function SetCore(s: State, c: Cpu, x: Core): State
    requires IsCore(s, c)
  {
    s.(cores := s.cores[c := x])
  }

  function SetOp(s: State, o: OpId, x: Op): State
    requires IsOp(s, o)
  {
    s.(ops := s.ops[o := x])
  }

  function Send1(s: State, o: OpId): State
    requires Enabled(s, SendStep(o))
  {
    var op := s.ops[o];
    var t := op.send.target;
    var core := s.cores[t];
    match op.send
    case Clearing(_, w) => SetOp(SetCore(s, t, core.(finished := false)), o, op.(send := Naming(t, w)))
    case Naming(_, w) => SetOp(SetCore(s, t, core.(command := CMD_INVLPG)), o, op.(send := Passing(t, w)))
    case Passing(_, w) => SetOp(SetCore(s, t, core.(arg := w)), o, op.(send := Ringing(t, w)))
    case Ringing(_, w) => SetOp(SetCore(s, t, core.(ipi := true)), o, op.(send := Spinning(t, w, |s.log|)))
    case Spinning(_, _, _) =>
      SetOp(s, o, op.(send := Quiet, phase := if op.phase.Sending? then Flushed else op.phase)).(cmdLock := None)
  }

  function Apply(s: State, e: Event): State
    requires Enabled(s, e)
  {
    match e
    case Enter(c, m) => SetCore(s, c, s.cores[c].(cr3 := Some(m), tlb := map[])).(owner := s.owner[m := c])
    case Exit(c) =>
      SetCore(s, c, s.cores[c].(cr3 := None, tlb := map[])).(owner := s.owner - {s.cores[c].cr3.value})
    case Fill(c, a) =>
      SetCore(s, c, s.cores[c].(tlb := s.cores[c].tlb[a := Writes(s, s.cores[c].cr3.value, a)]))
    case Evict(c, a) => SetCore(s, c, s.cores[c].(tlb := s.cores[c].tlb - {a}))
    case Write(m, a) =>
      var v := Writes(s, m, a) + 1;
      s.(writes := s.writes[(m, a) := v], ops := s.ops + [Op(m, a, v, Wrote, Quiet)])
    case Lock(o, c) => SetOp(s, o, s.ops[o].(phase := Locked(c))).(vmLock := Some(o))
    case Decide(o) =>
      var op := s.ops[o];
      var me := op.phase.cpu;
      if op.m !in s.owner then SetOp(s, o, op.(phase := Flushed))
      else if s.owner[op.m] == me then
        SetOp(SetCore(s, me, s.cores[me].(tlb := s.cores[me].tlb - {op.a})), o, op.(phase := Flushed))
      else
        SetOp(s, o, op.(phase := Sending, send := Clearing(s.owner[op.m], op.a))).(cmdLock := Some(o))
    case Unlock(o) => SetOp(s, o, s.ops[o].(phase := Finished)).(vmLock := None)
    case NewSender => s.(ops := s.ops + [Op(0, 0, 0, Other, Quiet)])
    case Call(o, target, what) => SetOp(s, o, s.ops[o].(send := Clearing(target, what))).(cmdLock := Some(o))
    case SendStep(o) => Send1(s, o)
    case Deliver(c) => SetCore(s, c, s.cores[c].(ipi := false, handler := Entered))
    case Execute(c) =>
      var core := s.cores[c];
      if core.command != CMD_INVLPG then SetCore(s, c, core.(handler := UnknownCommand))
      else SetCore(s, c, core.(tlb := core.tlb - {core.arg}, handler := Executed)).(log := s.log + [(c, core.arg)])
    case Acknowledge(c) => SetCore(s, c, s.cores[c].(finished := true, handler := Resting))
  }

  // ---- The invariant ------------------------------------------------------

  /** No CPU using map m holds a translation of address a older than the given write. */
  predicate Coherent(s: State, m: MapId, a: Addr, version: nat) {
    forall c :: 0 <= c < |s.cores| && s.cores[c].cr3 == Some(m) && a in s.cores[c].tlb ==>
                  s.cores[c].tlb[a] >= version
  }

  predicate OwnersOk(s: State) {
    && (forall c :: 0 <= c < |s.cores| && s.cores[c].cr3.Some? ==>
                    s.cores[c].cr3.value in s.owner && s.owner[s.cores[c].cr3.value] == c)
    && (forall m :: m in s.owner ==> s.owner[m] < |s.cores|)
  }

  /** Only the target of the one call in progress can have an interrupt on its way or be handling one. */
  predicate CoreOk(s: State, c: Cpu)
    requires IsCore(s, c)
  {
    s.cores[c].ipi || !s.cores[c].handler.Resting? ==>
      && s.cmdLock.Some? && IsOp(s, s.cmdLock.value)
      && s.ops[s.cmdLock.value].send.Spinning? && s.ops[s.cmdLock.value].send.target == c
  }

  /** The mailbox as the call in progress has left it. */
  predicate SendOk(s: State, x: Send)
    requires !x.Quiet?
  {
    && IsCore(s, x.target)
    && var core := s.cores[x.target];
       match x
       case Quiet => false
       case Clearing(_, _) => true
       case Naming(_, _) => !core.finished
       case Passing(_, _) => !core.finished && core.command == CMD_INVLPG
       case Ringing(_, w) => !core.finished && core.command == CMD_INVLPG && core.arg == w
       case Spinning(t, w, mark) =>
         && core.command == CMD_INVLPG && core.arg == w && mark <= |s.log|
         && if core.ipi then core.handler.Resting? && !core.finished && |s.log| == mark
            else match core.handler
                 case Entered => !core.finished && |s.log| == mark
                 case Executed => !core.finished && s.log[mark..] == [(t, w)]
                 case Resting => core.finished && s.log[mark..] == [(t, w)]
                 case UnknownCommand => false
  }

  predicate HoldsVm(op: Op) { op.phase.Locked? || op.phase.Sending? || op.phase.Flushed? }

  predicate OpOk(s: State, o: OpId)
    requires IsOp(s, o)
  {
    var op := s.ops[o];
    && (HoldsVm(op) <==> s.vmLock == Some(o))
    && (!op.send.Quiet? <==> s.cmdLock == Some(o))
    && (op.phase.Locked? ==> IsCore(s, op.phase.cpu))
    && (!op.send.Quiet? ==> (op.phase.Sending? || op.phase.Other?) && SendOk(s, op.send))
    && (op.phase.Sending? ==> !op.send.Quiet? && op.send.what == op.a && op.m in s.owner && s.owner[op.m] == op.send.target)
    && (!op.phase.Other? ==> op.version <= Writes(s, op.m, op.a))
    && (op.phase.Sending? && op.send.Spinning? && |s.log| > op.send.mark ==> Coherent(s, op.m, op.a, op.version))
    && (op.phase.Flushed? || op.phase.Finished? ==> Coherent(s, op.m, op.a, op.version))
  }

  predicate Inv(s: State) {
    && OwnersOk(s)
    && (s.vmLock.Some? ==> IsOp(s, s.vmLock.value))
    && (s.cmdLock.Some? ==> IsOp(s, s.cmdLock.value))
    && (forall c :: 0 <= c < |s.cores| ==> CoreOk(s, c))
    && (forall o :: 0 <= o < |s.ops| ==> OpOk(s, o))
  }

  predicate Init(s: State) {
    && s.owner == map[] && s.ops == [] && s.vmLock == None && s.cmdLock == None && s.log == []
    && forall c :: 0 <= c < |s.cores| ==> s.cores[c].cr3 == None && !s.cores[c].ipi && s.cores[c].handler.Resting?
  }

  // ---- Preservation -------------------------------------------------------

  /** Coherence with a past write, once reached, survives every step: translations are only ever read afresh. */
  lemma CoherenceIsStable(s: State, e: Event, m: MapId, a: Addr, version: nat)
    requires Enabled(s, e) && Coherent(s, m, a, version) && version <= Writes(s, m, a)
    ensures Coherent(Apply(s, e), m, a, version) && version <= Writes(Apply(s, e), m, a)
  {
    var s' := Apply(s, e);
    TlbChanges(s, e, m, a);
    WritesGrow(s, e, m, a);
    hide Apply, Enabled;
    forall c | 0 <= c < |s'.cores| && s'.cores[c].cr3 == Some(m) && a in s'.cores[c].tlb
      ensures s'.cores[c].tlb[a] >= version
    {
    }
  }

  lemma WritesGrow(s: State, e: Event, m: MapId, a: Addr)
    requires Enabled(s, e)
    ensures Writes(Apply(s, e), m, a) >= Writes(s, m, a)
  {
    match e
    case Enter(c, n) =>
    case Exit(c) =>
    case Fill(c, b) =>
    case Evict(c, b) =>
    case Write(n, b) =>
    case Lock(o, c) =>
    case Decide(o) =>
    case Unlock(o) =>
    case NewSender =>
    case Call(o, target, what) =>
    case SendStep(o) =>
    case Deliver(c) =>
    case Execute(c) =>
    case Acknowledge(c) =>
  }

  /** Every translation of m at a that a CPU can use was there before or is the current one. */
  ghost predicate OldOrCurrent(s: State, s': State, m: MapId, a: Addr) {
    && |s'.cores| == |s.cores|
    && forall c :: 0 <= c < |s.cores| && s'.cores[c].cr3 == Some(m) && a in s'.cores[c].tlb ==>
         || s'.cores[c].tlb[a] == Writes(s, m, a)
         || (s.cores[c].cr3 == Some(m) && a in s.cores[c].tlb && s'.cores[c].tlb[a] == s.cores[c].tlb[a])
  }

  lemma TlbMapping(s: State, e: Event, m: MapId, a: Addr)
    requires Enabled(s, e) && Mapping(e)
    ensures OldOrCurrent(s, Apply(s, e), m, a)
  {
    hide Writes;
  }

  lemma TlbLocking(s: State, e: Event, m: MapId, a: Addr)
    requires Enabled(s, e) && Locking(e)
    ensures OldOrCurrent(s, Apply(s, e), m, a)
  {
    hide Writes;
  }

  lemma TlbHandling(s: State, e: Event, m: MapId, a: Addr)
    requires Enabled(s, e) && Handling(e)
    ensures OldOrCurrent(s, Apply(s, e), m, a)
  {
    hide Writes;
  }

  lemma TlbSending(s: State, o: OpId, m: MapId, a: Addr)
    requires Enabled(s, SendStep(o))
    ensures OldOrCurrent(s, Apply(s, SendStep(o)), m, a)
  {
    hide Writes;
  }

  lemma TlbChanges(s: State, e: Event, m: MapId, a: Addr)
    requires Enabled(s, e)
    ensures OldOrCurrent(s, Apply(s, e), m, a)
  {
    hide Enabled, Apply, OldOrCurrent;
    if Mapping(e) {
      TlbMapping(s, e, m, a);
    } else if Locking(e) {
      TlbLocking(s, e, m, a);
    } else if Handling(e) {
      TlbHandling(s, e, m, a);
    } else {
      TlbSending(s, e.o, m, a);
    }
  }

  lemma OwnersKept(s: State, e: Event)
    requires OwnersOk(s) && Enabled(s, e)
    ensures OwnersOk(Apply(s, e))
  {
    Cr3Changes(s, e);
    var s' := Apply(s, e);
    hide Apply, Enabled;
    forall c | 0 <= c < |s'.cores| && s'.cores[c].cr3.Some?
      ensures s'.cores[c].cr3.value in s'.owner && s'.owner[s'.cores[c].cr3.value] == c
    {
      assert s'.cores[c].cr3 == s.cores[c].cr3 || e == Enter(c, s'.cores[c].cr3.value);
    }
  }

  /** Only `enter` and `exit` touch CR3 and the owners. */
  lemma Cr3Changes(s: State, e: Event)
    requires Enabled(s, e)
    ensures var s' := Apply(s, e);
            && |s'.cores| == |s.cores|
            && (forall c :: 0 <= c < |s.cores| ==>
                  s'.cores[c].cr3 == if e.Enter? && e.c == c then Some(e.m) else if e == Exit(c) then None else s.cores[c].cr3)
            && s'.owner == (if e.Enter? then s.owner[e.m := e.c]
                            else if e.Exit? then s.owner - {s.cores[e.c].cr3.value} else s.owner)
            && (e.Enter? ==> e.m !in s.owner && e.c < |s.cores|) && (e.Exit? ==> e.c < |s.cores| && s.cores[e.c].cr3.Some?)
  {
    match e
    case Enter(c, m) =>
    case Exit(c) =>
    case Fill(c, a) =>
    case Evict(c, a) =>
    case Write(m, a) =>
    case Lock(o, c) =>
    case Decide(o) =>
    case Unlock(o) =>
    case NewSender =>
    case Call(o, target, what) =>
    case SendStep(o) =>
    case Deliver(c) =>
    case Execute(c) =>
    case Acknowledge(c) =>
  }

  /** Steps of the page walker, of `enter`/`exit` and of a writer's table store. */
  predicate Mapping(e: Event) {
    e.Enter? || e.Exit? || e.Fill? || e.Evict? || e.Write? || e.NewSender?
  }

  /** Steps that take or drop a mutex. */
  predicate Locking(e: Event) {
    e.Lock? || e.Decide? || e.Unlock? || e.Call?
  }

  predicate Handling(e: Event) {
    e.Deliver? || e.Execute? || e.Acknowledge?
  }

  lemma CoreKept(s: State, e: Event, c: Cpu)
    requires Inv(s) && Enabled(s, e) && !e.SendStep? && c < |Apply(s, e).cores|
    ensures CoreOk(Apply(s, e), c)
  {
    assert CoreOk(s, c);
    if Locking(e) {
      assert OpOk(s, e.o);
    }
    hide Inv, Coherent;
  }

  lemma CoreKeptSending(s: State, o: OpId, c: Cpu)
    requires Inv(s) && Enabled(s, SendStep(o)) && c < |s.cores|
    ensures CoreOk(Apply(s, SendStep(o)), c)
  {
    assert CoreOk(s, c);
    assert OpOk(s, o);
    assert SendOk(s, s.ops[o].send);
  }

  /** The flush that matters: once the map's owner has dropped the address, nobody holds an old translation. */
  lemma OwnerFlushed(s: State, m: MapId, a: Addr, version: nat)
    requires OwnersOk(s)
    requires m in s.owner ==> a !in s.cores[s.owner[m]].tlb
    ensures Coherent(s, m, a, version)
  {
  }

  lemma OpKeptMapping(s: State, e: Event, o: OpId)
    requires Inv(s) && Enabled(s, e) && Mapping(e) && o < |s.ops|
    ensures o < |Apply(s, e).ops| && OpOk(Apply(s, e), o)
  {
    assert OpOk(s, o);
    hide Inv, Coherent;
    var op := s.ops[o];
    if Coherent(s, op.m, op.a, op.version) && !op.phase.Other? {
      CoherenceIsStable(s, e, op.m, op.a, op.version);
    }
  }

  lemma OthersKeptLocking(s: State, e: Event, o: OpId)
    requires Inv(s) && Enabled(s, e) && Locking(e) && o < |s.ops| && o != e.o
    ensures o < |Apply(s, e).ops| && OpOk(Apply(s, e), o)
  {
    assert OpOk(s, o) && OpOk(s, e.o);
    hide Inv, Coherent;
    var op := s.ops[o];
    if Coherent(s, op.m, op.a, op.version) && !op.phase.Other? {
      CoherenceIsStable(s, e, op.m, op.a, op.version);
    }
  }

  lemma OpKeptLocking(s: State, e: Event)
    requires Inv(s) && Enabled(s, e) && Locking(e)
    ensures e.o < |Apply(s, e).ops| && OpOk(Apply(s, e), e.o)
  {
    var o := e.o;
    assert OpOk(s, o);
    OwnersKept(s, e);
    assert e.Decide? && s.ops[o].m in s.owner ==> IsCore(s, s.owner[s.ops[o].m]);
    hide Inv, Coherent, OwnersOk, CoreOk;
    var op := s.ops[o];
    if Coherent(s, op.m, op.a, op.version) && !op.phase.Other? {
      CoherenceIsStable(s, e, op.m, op.a, op.version);
    }
    if e.Decide? && !OwnedElsewhere(s, o) {
      OwnerFlushed(Apply(s, e), op.m, op.a, op.version);
    }
  }

  /** A store of `send_command` and the other operations. */
  lemma OthersKeptSending(s: State, q: OpId, o: OpId)
    requires Inv(s) && Enabled(s, SendStep(q)) && o < |s.ops| && o != q
    ensures o < |Apply(s, SendStep(q)).ops| && OpOk(Apply(s, SendStep(q)), o)
  {
    assert OpOk(s, o) && OpOk(s, q);
    hide Inv, Coherent, SendOk;
    var op := s.ops[o];
    if Coherent(s, op.m, op.a, op.version) && !op.phase.Other? {
      CoherenceIsStable(s, SendStep(q), op.m, op.a, op.version);
    }
  }

  lemma OpKeptSending(s: State, o: OpId)
    requires Inv(s) && Enabled(s, SendStep(o))
    ensures o < |Apply(s, SendStep(o)).ops| && OpOk(Apply(s, SendStep(o)), o)
  {
    assert OpOk(s, o);
    assert CoreOk(s, s.ops[o].send.target);
    hide Inv, Coherent;
    var op := s.ops[o];
    if Coherent(s, op.m, op.a, op.version) && !op.phase.Other? {
      CoherenceIsStable(s, SendStep(o), op.m, op.a, op.version);
    }
  }

  lemma OpKeptHandling(s: State, e: Event, o: OpId)
    requires Inv(s) && Enabled(s, e) && Handling(e) && o < |s.ops|
    ensures o < |Apply(s, e).ops| && OpOk(Apply(s, e), o)
  {
    assert CoreOk(s, e.c);
    assert OpOk(s, o) && OpOk(s, s.cmdLock.value);
    OwnersKept(s, e);
    hide Inv, Coherent;
    var op := s.ops[o];
    if Coherent(s, op.m, op.a, op.version) && !op.phase.Other? {
      CoherenceIsStable(s, e, op.m, op.a, op.version);
    }
    if e.Execute? && op.phase.Sending? {
      OwnerFlushed(Apply(s, e), op.m, op.a, op.version);
    }
  }

  /** An operation that has just begun. */
  lemma NewOpOk(s: State, e: Event, o: OpId)
    requires Inv(s) && Enabled(s, e) && |s.ops| <= o < |Apply(s, e).ops|
    ensures OpOk(Apply(s, e), o)
  {
    hide OwnersOk, Coherent, CoreOk, SendOk;
    NewOps(s, e);
    assert s.vmLock != Some(o) && s.cmdLock != Some(o);
    if e.Write? {
      assert Apply(s, e).ops[o] == Op(e.m, e.a, Writes(s, e.m, e.a) + 1, Wrote, Quiet);
    } else {
      assert Apply(s, e).ops[o] == Op(0, 0, 0, Other, Quiet);
    }
  }

  lemma NewOps(s: State, e: Event)
    requires Enabled(s, e)
    ensures |Apply(s, e).ops| == if e.Write? || e.NewSender? then |s.ops| + 1 else |s.ops|
  {
    match e
    case Enter(c, m) =>
    case Exit(c) =>
    case Fill(c, a) =>
    case Evict(c, a) =>
    case Write(m, a) =>
    case Lock(o, c) =>
    case Decide(o) =>
    case Unlock(o) =>
    case NewSender =>
    case Call(o, target, what) =>
    case SendStep(o) =>
    case Deliver(c) =>
    case Execute(c) =>
    case Acknowledge(c) =>
  }

  lemma EventKinds(e: Event)
    ensures e.SendStep? || Mapping(e) || Locking(e) || Handling(e)
  {
  }

  /** A lock is as it was, dropped, or taken by the operation whose step this is. */
  lemma LockChanges(s: State, e: Event)
    requires Enabled(s, e)
    ensures var s' := Apply(s, e);
            && (s'.vmLock == s.vmLock || s'.vmLock == None || (e.Lock? && IsOp(s, e.o) && s'.vmLock == Some(e.o)))
            && (s'.cmdLock == s.cmdLock || s'.cmdLock == None
                || ((e.Decide? || e.Call?) && IsOp(s, e.o) && s'.cmdLock == Some(e.o)))
  {
    match e
    case Enter(c, n) =>
    case Exit(c) =>
    case Fill(c, b) =>
    case Evict(c, b) =>
    case Write(n, b) =>
    case Lock(o, c) =>
    case Decide(o) =>
    case Unlock(o) =>
    case NewSender =>
    case Call(o, target, what) =>
    case SendStep(o) =>
    case Deliver(c) =>
    case Execute(c) =>
    case Acknowledge(c) =>
  }

  lemma LocksKept(s: State, e: Event)
    requires (s.vmLock.Some? ==> IsOp(s, s.vmLock.value)) && (s.cmdLock.Some? ==> IsOp(s, s.cmdLock.value)) && Enabled(s, e)
    ensures var s' := Apply(s, e);
            && (s'.vmLock.Some? ==> IsOp(s', s'.vmLock.value)) && (s'.cmdLock.Some? ==> IsOp(s', s'.cmdLock.value))
            && |s'.cores| == |s.cores| && |s'.ops| >= |s.ops|
  {
    LockChanges(s, e);
    Cr3Changes(s, e);
    NewOps(s, e);
    hide Apply, Enabled;
  }

  lemma StepKeepsInv(s: State, e: Event)
    requires Inv(s) && Enabled(s, e)
    ensures Inv(Apply(s, e))
  {
    hide OpOk, CoreOk, OwnersOk;
    var s' := Apply(s, e);
    OwnersKept(s, e);
    LocksKept(s, e);
    EventKinds(e);
    hide Apply, Enabled;
    forall c | 0 <= c < |s'.cores| ensures CoreOk(s', c) {
      if e.SendStep? { CoreKeptSending(s, e.o, c); } else { CoreKept(s, e, c); }
    }
    forall o | 0 <= o < |s'.ops| ensures OpOk(s', o) {
      if o >= |s.ops| {
        NewOpOk(s, e, o);
      } else {
        if Mapping(e) { OpKeptMapping(s, e, o); }
        else if Locking(e) { if e.o == o { OpKeptLocking(s, e); } else { OthersKeptLocking(s, e, o); } }
        else if Handling(e) { OpKeptHandling(s, e, o); }
        else if e.o == o { OpKeptSending(s, o); }
        else { OthersKeptSending(s, e.o, o); }
      }
    }
  }

  // ---- Whole runs ---------------------------------------------------------

  predicate Step(s: State, e: Event, s': State) {
    Enabled(s, e) && s' == Apply(s, e)
  }

  predicate Run(tr: seq<State>, evs: seq<Event>) {
    |tr| == |evs| + 1 && Init(tr[0]) && forall i :: 0 <= i < |evs| ==> Step(tr[i], evs[i], tr[i + 1])
  }

  lemma {:induction false} InvThroughout(tr: seq<State>, evs: seq<Event>, n: nat)
    requires Run(tr, evs) && n < |tr|
    ensures Inv(tr[n])
  {
    if n == 0 {
    } else {
      InvThroughout(tr, evs, n - 1);
      assert Step(tr[n - 1], evs[n - 1], tr[n]);
      StepKeepsInv(tr[n - 1], evs[n - 1]);
    }
  }

  /** Shootdown is complete: once the invalidation after a table write has finished, then in that state and every
      later one no CPU holds a translation of the address read before the write, however CPUs entered and left
      the map in between. */
  lemma ShootdownComplete(tr: seq<State>, evs: seq<Event>, n: nat, o: OpId, c: Cpu)
    requires Run(tr, evs) && n < |tr| && IsOp(tr[n], o) && IsCore(tr[n], c)
    requires tr[n].ops[o].phase.Finished?
    ensures var op := tr[n].ops[o];
            && op.version <= Writes(tr[n], op.m, op.a)
            && (tr[n].cores[c].cr3 == Some(op.m) && op.a in tr[n].cores[c].tlb ==> tr[n].cores[c].tlb[op.a] >= op.version)
  {
    InvThroughout(tr, evs, n);
    assert OpOk(tr[n], o);
  }

  lemma OpKeepsItsWrite(s: State, e: Event, o: OpId)
    requires Enabled(s, e) && IsOp(s, o)
    ensures var s' := Apply(s, e);
            && IsOp(s', o) && s'.ops[o].m == s.ops[o].m && s'.ops[o].a == s.ops[o].a
            && s'.ops[o].version == s.ops[o].version && (!s.ops[o].phase.Other? ==> !s'.ops[o].phase.Other?)
  {
  }

  /** A write numbers its operation with the entry's new version, and the operation keeps map, address and number. */
  lemma {:induction false} OperationKeepsItsWrite(tr: seq<State>, evs: seq<Event>, i: nat, n: nat)
    requires Run(tr, evs) && i < |evs| && evs[i].Write? && i < n < |tr|
    ensures var o := |tr[i].ops|;
            && IsOp(tr[n], o)
            && tr[n].ops[o].m == evs[i].m && tr[n].ops[o].a == evs[i].a
            && tr[n].ops[o].version == Writes(tr[i + 1], evs[i].m, evs[i].a) == Writes(tr[i], evs[i].m, evs[i].a) + 1
            && !tr[n].ops[o].phase.Other?
  {
    assert Step(tr[i], evs[i], tr[i + 1]);
    assert tr[i + 1] == Apply(tr[i], Write(evs[i].m, evs[i].a));
    if n > i + 1 {
      hide Apply, Enabled, Init;
      OperationKeepsItsWrite(tr, evs, i, n - 1);
      assert Step(tr[n - 1], evs[n - 1], tr[n]);
      OpKeepsItsWrite(tr[n - 1], evs[n - 1], |tr[i].ops|);
    }
  }

  /** A call in progress is for this target and carries this address. */
  predicate Carries(x: Send, target: Cpu, what: Addr) { !x.Quiet? && x.target == target && x.what == what }

  /** Operation o has been in a call of `send_command` ever since step i. */
  predicate InCall(tr: seq<State>, i: nat, n: nat, o: OpId) {
    i < n < |tr| && forall k :: i < k <= n ==> IsOp(tr[k], o) && !tr[k].ops[o].send.Quiet?
  }

  lemma CarriesOn(s: State, e: Event, o: OpId, target: Cpu, what: Addr)
    requires Inv(s) && Enabled(s, e) && IsOp(s, o) && Carries(s.ops[o].send, target, what)
    ensures var s' := Apply(s, e); IsOp(s', o) && (s'.ops[o].send.Quiet? || Carries(s'.ops[o].send, target, what))
    ensures Apply(s, e).ops[o].send.Quiet? ==> e == SendStep(o) && s.ops[o].send.Spinning?
    ensures Apply(s, e).ops[o].send.Spinning? && s.ops[o].send.Spinning? ==> Apply(s, e).ops[o].send == s.ops[o].send
  {
    assert OpOk(s, o);
    EventKinds(e);
    if Mapping(e) || Handling(e) { SendStays(s, e, o); }
    else if Locking(e) { SendStaysLocking(s, e, o); }
    else { SendMoves(s, e.o, o); }
    hide Apply, Enabled, Inv, OpOk;
  }

  lemma SendStays(s: State, e: Event, o: OpId)
    requires Enabled(s, e) && (Mapping(e) || Handling(e)) && IsOp(s, o)
    ensures IsOp(Apply(s, e), o) && Apply(s, e).ops[o] == s.ops[o]
  {
    hide Writes;
  }

  lemma SendStaysLocking(s: State, e: Event, o: OpId)
    requires Enabled(s, e) && Locking(e) && IsOp(s, o) && !s.ops[o].send.Quiet?
    requires s.cmdLock == Some(o) && (s.ops[o].phase.Sending? || s.ops[o].phase.Other?)
    ensures IsOp(Apply(s, e), o) && Apply(s, e).ops[o].send == s.ops[o].send
  {
  }

  lemma SendMoves(s: State, q: OpId, o: OpId)
    requires Enabled(s, SendStep(q)) && IsOp(s, o) && !s.ops[o].send.Quiet?
    ensures var s', x := Apply(s, SendStep(q)), s.ops[o].send;
            && IsOp(s', o)
            && (q != o ==> s'.ops[o] == s.ops[o])
            && (q == o && x.Spinning? ==> s'.ops[o].send.Quiet?)
            && (q == o && !x.Spinning? ==> Carries(s'.ops[o].send, x.target, x.what))
  {
  }

  lemma Called(s: State, o: OpId, target: Cpu, what: Addr)
    requires Enabled(s, Call(o, target, what))
    ensures Began(Apply(s, Call(o, target, what)), o, target, what)
  {
  }

  lemma Decided(s: State, o: OpId)
    requires Inv(s) && Enabled(s, Decide(o)) && IsOp(Apply(s, Decide(o)), o) && !Apply(s, Decide(o)).ops[o].send.Quiet?
    ensures IsOp(s, o) && s.ops[o].m in s.owner
    ensures Began(Apply(s, Decide(o)), o, s.owner[s.ops[o].m], s.ops[o].a)
  {
    assert OpOk(s, o);
    hide Inv, Coherent;
  }

  lemma RunStep(tr: seq<State>, evs: seq<Event>, n: nat)
    requires Run(tr, evs) && n < |evs|
    ensures n + 1 < |tr| && Enabled(tr[n], evs[n]) && tr[n + 1] == Apply(tr[n], evs[n])
  {
    assert Step(tr[n], evs[n], tr[n + 1]);
  }

  lemma InCallNow(tr: seq<State>, i: nat, n: nat, o: OpId)
    requires InCall(tr, i, n, o)
    ensures i < n < |tr| && IsOp(tr[n], o) && !tr[n].ops[o].send.Quiet? && (n > i + 1 ==> InCall(tr, i, n - 1, o))
  {
  }

  lemma {:induction false} CarriedThrough(tr: seq<State>, evs: seq<Event>, i: nat, n: nat, o: OpId, target: Cpu, what: Addr)
    requires Run(tr, evs) && InCall(tr, i, n, o) && i < |evs| && IsOp(tr[i + 1], o)
    requires Carries(tr[i + 1].ops[o].send, target, what)
    ensures IsOp(tr[n], o) && Carries(tr[n].ops[o].send, target, what)
  {
    hide Run, InCall, Enabled, Apply, Inv, Carries;
    InCallNow(tr, i, n, o);
    if n > i + 1 {
      RunLength(tr, evs);
      CarriedThrough(tr, evs, i, n - 1, o, target, what);
      InvThroughout(tr, evs, n - 1);
      RunStep(tr, evs, n - 1);
      CarriesOn(tr[n - 1], evs[n - 1], o, target, what);
    }
  }

  lemma RunLength(tr: seq<State>, evs: seq<Event>)
    requires Run(tr, evs)
    ensures |tr| == |evs| + 1
  {
  }

  /** From the moment `send_command` is called until it returns it is for the CPU and carries the address it was given. */
  lemma CallCarries(tr: seq<State>, evs: seq<Event>, i: nat, n: nat, o: OpId, target: Cpu, what: Addr)
    requires Run(tr, evs) && i < n < |tr| && i < |evs| && evs[i] == Call(o, target, what)
    requires InCall(tr, i, n, o)
    ensures IsOp(tr[n], o) && Carries(tr[n].ops[o].send, target, what)
  {
    RunStep(tr, evs, i);
    Called(tr[i], o, target, what);
    CarriedThrough(tr, evs, i, n, o, target, what);
  }

  /** The same for the invalidation of a map: it is for the CPU that owned the map and carries the address written. */
  lemma DecideCarries(tr: seq<State>, evs: seq<Event>, i: nat, n: nat, o: OpId)
    requires Run(tr, evs) && i < n < |tr| && i < |evs| && evs[i] == Decide(o) && IsOp(tr[i], o)
    requires InCall(tr, i, n, o)
    ensures tr[i].ops[o].m in tr[i].owner
    ensures IsOp(tr[n], o) && Carries(tr[n].ops[o].send, tr[i].owner[tr[i].ops[o].m], tr[i].ops[o].a)
  {
    hide Run, Enabled, Apply, Inv;
    RunStep(tr, evs, i);
    InvThroughout(tr, evs, i);
    assert IsOp(tr[i + 1], o) && !tr[i + 1].ops[o].send.Quiet?;
    Decided(tr[i], o);
    CarriedThrough(tr, evs, i, n, o, tr[i].owner[tr[i].ops[o].m], tr[i].ops[o].a);
  }

  /** Whether a map is somebody's decides whether anybody is called: nobody for a map nobody uses or for one's own. */
  lemma DecideAsks(tr: seq<State>, evs: seq<Event>, i: nat, o: OpId)
    requires Run(tr, evs) && i < |evs| && evs[i] == Decide(o) && IsOp(tr[i], o)
    ensures IsOp(tr[i + 1], o) && tr[i].ops[o].phase.Locked?
    ensures !tr[i + 1].ops[o].send.Quiet? <==> OwnedElsewhere(tr[i], o)
    ensures var op := tr[i].ops[o];
            op.m in tr[i].owner && tr[i].owner[op.m] == op.phase.cpu && IsCore(tr[i + 1], op.phase.cpu) ==>
              op.a !in tr[i + 1].cores[op.phase.cpu].tlb
  {
    InvThroughout(tr, evs, i);
    assert Step(tr[i], evs[i], tr[i + 1]);
    assert OpOk(tr[i], o);
    hide Inv, Coherent;
  }

  /** What has been executed for a call: nothing so far, or its own command, which left its target without the address. */
  predicate Served(tr: seq<State>, evs: seq<Event>, i: nat, n: nat, target: Cpu, what: Addr, served: bool)
    requires i <= n < |tr| == |evs| + 1
  {
    served ==> exists k :: i < k < n && evs[k] == Execute(target) && IsCore(tr[k + 1], target) && what !in tr[k + 1].cores[target].tlb
  }

  predicate Began(s: State, o: OpId, target: Cpu, what: Addr) {
    IsOp(s, o) && s.ops[o].send == Clearing(target, what)
  }

  /** A post not yet executed, or executed somewhere between the call and now. */
  lemma {:induction false} PostIsServed(tr: seq<State>, evs: seq<Event>, i: nat, n: nat, o: OpId, target: Cpu, what: Addr)
    requires Run(tr, evs) && InCall(tr, i, n, o) && i < |evs| && Began(tr[i + 1], o, target, what)
    ensures IsOp(tr[n], o) && Carries(tr[n].ops[o].send, target, what)
    ensures Served(tr, evs, i, n, target, what, tr[n].ops[o].send.Spinning? && |tr[n].log| > tr[n].ops[o].send.mark)
  {
    hide Run, InCall, Enabled, Apply, Inv, Carries, Served;
    RunLength(tr, evs);
    CarriesBegan(tr[i + 1], o, target, what);
    CarriedThrough(tr, evs, i, n, o, target, what);
    InCallNow(tr, i, n, o);
    var y := tr[n].ops[o].send;
    if n == i + 1 {
      ServedLater(tr, evs, i, n, target, what, false, false);
    } else {
      PostIsServed(tr, evs, i, n - 1, o, target, what);
      InvThroughout(tr, evs, n - 1);
      RunStep(tr, evs, n - 1);
      ServedOneStep(tr[n - 1], evs[n - 1], o, target, what);
      var x := tr[n - 1].ops[o].send;
      ServedLater(tr, evs, i, n, target, what, x.Spinning? && |tr[n - 1].log| > x.mark, y.Spinning? && |tr[n].log| > y.mark);
    }
  }

  lemma CarriesBegan(s: State, o: OpId, target: Cpu, what: Addr)
    requires Began(s, o, target, what)
    ensures IsOp(s, o) && Carries(s.ops[o].send, target, what) && !s.ops[o].send.Spinning?
  {
  }

  lemma ServedLater(tr: seq<State>, evs: seq<Event>, i: nat, n: nat, target: Cpu, what: Addr, before: bool, now: bool)
    requires i < n < |tr| == |evs| + 1 && (before ==> Served(tr, evs, i, n - 1, target, what, before))
    requires now && !before ==>
               i < n - 1 && evs[n - 1] == Execute(target) && IsCore(tr[n], target) && what !in tr[n].cores[target].tlb
    ensures Served(tr, evs, i, n, target, what, now)
  {
    if now && before {
      var k :| i < k < n - 1 && evs[k] == Execute(target) && IsCore(tr[k + 1], target) && what !in tr[k + 1].cores[target].tlb;
      assert i < k < n;
    } else if now {
      assert tr[n - 1 + 1] == tr[n];
    }
  }

  lemma ServedOneStep(s: State, e: Event, o: OpId, target: Cpu, what: Addr)
    requires Inv(s) && Enabled(s, e) && IsOp(s, o) && Carries(s.ops[o].send, target, what)
    requires IsOp(Apply(s, e), o) && !Apply(s, e).ops[o].send.Quiet?
    ensures var s' := Apply(s, e);
            s'.ops[o].send.Spinning? && |s'.log| > s'.ops[o].send.mark ==>
              || (s.ops[o].send.Spinning? && |s.log| > s.ops[o].send.mark)
              || (e == Execute(target) && IsCore(s', target) && what !in s'.cores[target].tlb)
  {
    if e.Execute? {
      ExecutedFor(s, e.c, o);
    } else {
      MarkOrSame(s, e, o);
    }
    hide Inv, Apply;
  }

  /** A handler runs for the one call in progress. */
  lemma ExecutedFor(s: State, c: Cpu, o: OpId)
    requires Inv(s) && Enabled(s, Execute(c)) && IsOp(s, o) && !s.ops[o].send.Quiet?
    ensures var x, s' := s.ops[o].send, Apply(s, Execute(c));
            x.target == c && IsCore(s', c) && x.what !in s'.cores[c].tlb
  {
    assert CoreOk(s, c);
    assert OpOk(s, o) && OpOk(s, s.cmdLock.value);
    hide Inv, Coherent;
  }

  lemma MarkOrSame(s: State, e: Event, o: OpId)
    requires Enabled(s, e) && !e.Execute? && IsOp(s, o)
    ensures var s' := Apply(s, e);
            && IsOp(s', o) && s'.log == s.log
            && (s'.ops[o].send.Spinning? ==> s'.ops[o].send == s.ops[o].send || s'.ops[o].send.mark == |s.log|)
  {
  }

  /** Since the IPI exactly this was executed, once and there; and at some moment since the call that CPU had dropped it. */
  ghost predicate Done(tr: seq<State>, evs: seq<Event>, i: nat, n: nat, o: OpId, target: Cpu, what: Addr)
    requires i < n < |tr| == |evs| + 1
  {
    && IsOp(tr[n], o) && tr[n].ops[o].send.Spinning?
    && tr[n].ops[o].send.mark <= |tr[n].log| && tr[n].log[tr[n].ops[o].send.mark..] == [(target, what)]
    && exists k :: i < k < n && evs[k] == Execute(target) && IsCore(tr[k + 1], target) && what !in tr[k + 1].cores[target].tlb
  }

  lemma ReturnsDone(tr: seq<State>, evs: seq<Event>, i: nat, n: nat, o: OpId, target: Cpu, what: Addr)
    requires Run(tr, evs) && InCall(tr, i, n, o) && n < |evs| && Began(tr[i + 1], o, target, what)
    requires IsOp(tr[n + 1], o) && tr[n + 1].ops[o].send.Quiet?
    ensures evs[n] == SendStep(o) && Done(tr, evs, i, n, o, target, what)
  {
    PostIsServed(tr, evs, i, n, o, target, what);
    InvThroughout(tr, evs, n);
    RunStep(tr, evs, n);
    hide Run, InCall, Enabled, Apply, Inv;
    CarriesOn(tr[n], evs[n], o, target, what);
    SpinningReturns(tr[n], o);
    assert Served(tr, evs, i, n, target, what, true);
  }

  /** The mailbox guarantee: when `send_command` returns, exactly the command it was called with has been executed since its
      IPI, once, on the CPU it was called for; and between call and return there was a moment when that CPU had dropped the
      address. */
  lemma SendReturnsAfterExecution(tr: seq<State>, evs: seq<Event>, i: nat, n: nat, o: OpId, target: Cpu, what: Addr)
    requires Run(tr, evs) && i < n < |evs| && evs[i] == Call(o, target, what)
    requires InCall(tr, i, n, o) && IsOp(tr[n + 1], o) && tr[n + 1].ops[o].send.Quiet?
    ensures evs[n] == SendStep(o) && Done(tr, evs, i, n, o, target, what)
  {
    RunStep(tr, evs, i);
    Called(tr[i], o, target, what);
    ReturnsDone(tr, evs, i, n, o, target, what);
  }

  /** The same for the invalidation of a map: it is done on the CPU that owned the map, for the address that was written. */
  lemma InvalidationReturnsAfterExecution(tr: seq<State>, evs: seq<Event>, i: nat, n: nat, o: OpId)
    requires Run(tr, evs) && i < n < |evs| && evs[i] == Decide(o) && IsOp(tr[i], o)
    requires InCall(tr, i, n, o) && IsOp(tr[n + 1], o) && tr[n + 1].ops[o].send.Quiet?
    ensures tr[i].ops[o].m in tr[i].owner
    ensures evs[n] == SendStep(o) && Done(tr, evs, i, n, o, tr[i].owner[tr[i].ops[o].m], tr[i].ops[o].a)
  {
    RunStep(tr, evs, i);
    InvThroughout(tr, evs, i);
    InCallNow(tr, i, n, o);
    assert IsOp(tr[i + 1], o) && !tr[i + 1].ops[o].send.Quiet?;
    hide Run, InCall, Enabled, Apply, Inv;
    Decided(tr[i], o);
    ReturnsDone(tr, evs, i, n, o, tr[i].owner[tr[i].ops[o].m], tr[i].ops[o].a);
  }

  lemma SpinningReturns(s: State, o: OpId)
    requires Inv(s) && Enabled(s, SendStep(o)) && s.ops[o].send.Spinning?
    ensures var x := s.ops[o].send; x.mark < |s.log| && s.log[x.mark..] == [(x.target, x.what)]
  {
    assert OpOk(s, o);
    assert CoreOk(s, s.ops[o].send.target);
  }

  /** While a post is pending its sender spins and nobody else can send. */
  lemma PendingStopsSending(s: State, c: Cpu, o: OpId)
    requires Inv(s) && IsCore(s, c) && IsOp(s, o) && (s.cores[c].ipi || s.cores[c].handler.Entered?)
    ensures !Enabled(s, SendStep(o))
  {
    assert CoreOk(s, c);
    assert OpOk(s, s.cmdLock.value) && OpOk(s, o);
    hide Inv, Coherent;
  }

  /** No pending post is overwritten: while an IPI is on its way or its handler has not yet run, no step by anyone
      changes that CPU's command or argument. */
  lemma PostSurvives(tr: seq<State>, evs: seq<Event>, n: nat, c: Cpu)
    requires Run(tr, evs) && n < |evs| && IsCore(tr[n], c)
    requires tr[n].cores[c].ipi || tr[n].cores[c].handler.Entered?
    ensures IsCore(tr[n + 1], c)
    ensures tr[n + 1].cores[c].command == tr[n].cores[c].command == CMD_INVLPG
    ensures tr[n + 1].cores[c].arg == tr[n].cores[c].arg
    ensures !tr[n + 1].cores[c].handler.UnknownCommand?
  {
    InvThroughout(tr, evs, n);
    assert Step(tr[n], evs[n], tr[n + 1]);
    assert CoreOk(tr[n], c);
    assert OpOk(tr[n], tr[n].cmdLock.value);
    forall o | 0 <= o < |tr[n].ops| ensures !Enabled(tr[n], SendStep(o)) {
      PendingStopsSending(tr[n], c, o);
    }
  }

  // ---- What else may change, and by whom ----------------------------------------------------

  /** A CPU comes to hold a translation only by reading the tables of its own map, and what it reads is current. */
  lemma TranslationComes(tr: seq<State>, evs: seq<Event>, n: nat, c: Cpu, a: Addr)
    requires Run(tr, evs) && n < |evs| && IsCore(tr[n], c) && IsCore(tr[n + 1], c) && a in tr[n + 1].cores[c].tlb
    ensures if evs[n] == Fill(c, a) then
              tr[n].cores[c].cr3.Some? && tr[n + 1].cores[c].tlb[a] == Writes(tr[n], tr[n].cores[c].cr3.value, a)
            else a in tr[n].cores[c].tlb && tr[n + 1].cores[c].tlb[a] == tr[n].cores[c].tlb[a]
    ensures tr[n + 1].cores[c].cr3 == tr[n].cores[c].cr3
  {
    assert Step(tr[n], evs[n], tr[n + 1]);
    var s, e := tr[n], evs[n];
    EventKinds(e);
    if Mapping(e) { ComesMapping(s, e, c, a); }
    else if Locking(e) { ComesLocking(s, e, c, a); }
    else if Handling(e) { ComesHandling(s, e, c, a); }
    else { ComesSending(s, e.o, c, a); }
    hide Apply, Enabled;
  }

  predicate NotNew(s: State, s': State, c: Cpu, a: Addr)
    requires IsCore(s, c) && IsCore(s', c)
  {
    a in s'.cores[c].tlb ==>
      a in s.cores[c].tlb && s'.cores[c].tlb[a] == s.cores[c].tlb[a] && s'.cores[c].cr3 == s.cores[c].cr3
  }

  lemma ComesMapping(s: State, e: Event, c: Cpu, a: Addr)
    requires Enabled(s, e) && Mapping(e) && IsCore(s, c)
    ensures var s' := Apply(s, e);
            && IsCore(s', c)
            && (e != Fill(c, a) ==> NotNew(s, s', c, a))
            && (e == Fill(c, a) ==>
                  s.cores[c].cr3.Some? && s'.cores[c].cr3 == s.cores[c].cr3
                  && a in s'.cores[c].tlb && s'.cores[c].tlb[a] == Writes(s, s.cores[c].cr3.value, a))
  {
    hide Writes;
  }

  lemma ComesLocking(s: State, e: Event, c: Cpu, a: Addr)
    requires Enabled(s, e) && Locking(e) && IsCore(s, c)
    ensures IsCore(Apply(s, e), c) && NotNew(s, Apply(s, e), c, a)
  {
  }

  lemma ComesHandling(s: State, e: Event, c: Cpu, a: Addr)
    requires Enabled(s, e) && Handling(e) && IsCore(s, c)
    ensures IsCore(Apply(s, e), c) && NotNew(s, Apply(s, e), c, a)
  {
  }

  lemma ComesSending(s: State, o: OpId, c: Cpu, a: Addr)
    requires Enabled(s, SendStep(o)) && IsCore(s, c)
    ensures IsCore(Apply(s, SendStep(o)), c) && NotNew(s, Apply(s, SendStep(o)), c, a)
  {
  }

  /** It loses one only when it changes maps, evicts it, or is told to: nothing else is flushed. */
  lemma TranslationGoes(tr: seq<State>, evs: seq<Event>, n: nat, c: Cpu, a: Addr)
    requires Run(tr, evs) && n < |evs| && IsCore(tr[n], c) && a in tr[n].cores[c].tlb
    ensures IsCore(tr[n + 1], c)
    ensures a !in tr[n + 1].cores[c].tlb <==>
              || (evs[n].Enter? && evs[n].c == c) || evs[n] == Exit(c) || evs[n] == Evict(c, a)
              || (evs[n].Decide? && IsOp(tr[n], evs[n].o) && tr[n].ops[evs[n].o].phase == Locked(c)
                  && tr[n].ops[evs[n].o].a == a
                  && tr[n].ops[evs[n].o].m in tr[n].owner && tr[n].owner[tr[n].ops[evs[n].o].m] == c)
              || (evs[n] == Execute(c) && tr[n].cores[c].arg == a)
  {
    InvThroughout(tr, evs, n);
    assert Step(tr[n], evs[n], tr[n + 1]);
    var s, e := tr[n], evs[n];
    EventKinds(e);
    if Mapping(e) { GoesMapping(s, e, c, a); }
    else if Locking(e) { GoesLocking(s, e, c, a); }
    else if Handling(e) { GoesHandling(s, e, c, a); }
    else { GoesSending(s, e.o, c, a); }
    hide Apply, Enabled, Inv;
  }

  lemma GoesMapping(s: State, e: Event, c: Cpu, a: Addr)
    requires Enabled(s, e) && Mapping(e) && IsCore(s, c) && a in s.cores[c].tlb
    ensures IsCore(Apply(s, e), c)
    ensures a !in Apply(s, e).cores[c].tlb <==> (e.Enter? && e.c == c) || e == Exit(c) || e == Evict(c, a)
  {
    hide Writes;
  }

  lemma GoesLocking(s: State, e: Event, c: Cpu, a: Addr)
    requires Enabled(s, e) && Locking(e) && IsCore(s, c) && a in s.cores[c].tlb
    ensures IsCore(Apply(s, e), c) && IsOp(s, e.o)
    ensures a !in Apply(s, e).cores[c].tlb <==>
              e.Decide? && s.ops[e.o].phase == Locked(c) && s.ops[e.o].a == a
              && s.ops[e.o].m in s.owner && s.owner[s.ops[e.o].m] == c
  {
    hide Writes;
  }

  lemma GoesHandling(s: State, e: Event, c: Cpu, a: Addr)
    requires Inv(s) && Enabled(s, e) && Handling(e) && IsCore(s, c) && a in s.cores[c].tlb
    ensures IsCore(Apply(s, e), c)
    ensures a !in Apply(s, e).cores[c].tlb <==> e == Execute(c) && s.cores[c].arg == a
  {
    assert CoreOk(s, e.c);
    if e.Execute? { assert OpOk(s, s.cmdLock.value); }
    hide Inv, Coherent, Writes;
  }

  lemma GoesSending(s: State, o: OpId, c: Cpu, a: Addr)
    requires Enabled(s, SendStep(o)) && IsCore(s, c) && a in s.cores[c].tlb
    ensures IsCore(Apply(s, SendStep(o)), c) && a in Apply(s, SendStep(o)).cores[c].tlb
  {
    hide Writes;
  }

  /** A table entry changes only when it is written, and each write starts an operation of its own. */
  lemma EntriesChange(tr: seq<State>, evs: seq<Event>, n: nat, m: MapId, a: Addr)
    requires Run(tr, evs) && n < |evs|
    ensures Writes(tr[n + 1], m, a) == Writes(tr[n], m, a) + if evs[n] == Write(m, a) then 1 else 0
    ensures |tr[n + 1].ops| == |tr[n].ops| + if evs[n].Write? || evs[n].NewSender? then 1 else 0
  {
    assert Step(tr[n], evs[n], tr[n + 1]);
    NewOps(tr[n], evs[n]);
  }

  /** Who uses a map changes only when a CPU enters or leaves it; a CPU is in the map it entered last. */
  lemma OwnersChange(tr: seq<State>, evs: seq<Event>, n: nat, c: Cpu)
    requires Run(tr, evs) && n < |evs| && IsCore(tr[n], c)
    ensures IsCore(tr[n + 1], c)
    ensures tr[n + 1].cores[c].cr3
         == if evs[n].Enter? && evs[n].c == c then Some(evs[n].m) else if evs[n] == Exit(c) then None else tr[n].cores[c].cr3
    ensures forall m :: m in tr[n + 1].owner <==>
              (m in tr[n].owner && !(evs[n].Exit? && tr[n].owner[m] == evs[n].c && tr[n].cores[evs[n].c].cr3 == Some(m)))
              || (evs[n].Enter? && evs[n].m == m)
  {
    InvThroughout(tr, evs, n);
    assert Step(tr[n], evs[n], tr[n + 1]);
    Cr3Changes(tr[n], evs[n]);
    hide Apply, Enabled, CoreOk, OpOk;
  }

  /** The order an invalidation goes through, and whose step each part is. */
  lemma PhasesMove(tr: seq<State>, evs: seq<Event>, n: nat, o: OpId)
    requires Run(tr, evs) && n < |evs| && IsOp(tr[n], o)
    ensures IsOp(tr[n + 1], o)
    ensures tr[n + 1].ops[o].phase
         == if evs[n].Lock? && evs[n].o == o then Locked(evs[n].c)
            else if evs[n] == Decide(o) then (if OwnedElsewhere(tr[n], o) then Sending else Flushed)
            else if evs[n] == SendStep(o) && tr[n].ops[o].phase.Sending? && tr[n].ops[o].send.Spinning? then Flushed
            else if evs[n] == Unlock(o) then Finished
            else tr[n].ops[o].phase
  {
    assert Step(tr[n], evs[n], tr[n + 1]);
    var s, e := tr[n], evs[n];
    EventKinds(e);
    if Mapping(e) || Handling(e) { SendStays(s, e, o); }
    else if Locking(e) { PhasesLocking(s, e, o); }
    else { PhasesSending(s, e.o, o); }
    hide Apply, Enabled;
  }

  lemma PhasesLocking(s: State, e: Event, o: OpId)
    requires Enabled(s, e) && Locking(e) && IsOp(s, o)
    ensures IsOp(Apply(s, e), o)
    ensures Apply(s, e).ops[o].phase
         == if e.Lock? && e.o == o then Locked(e.c)
            else if e == Decide(o) then (if OwnedElsewhere(s, o) then Sending else Flushed)
            else if e == Unlock(o) then Finished
            else s.ops[o].phase
  {
  }

  lemma PhasesSending(s: State, q: OpId, o: OpId)
    requires Enabled(s, SendStep(q)) && IsOp(s, o)
    ensures IsOp(Apply(s, SendStep(q)), o)
    ensures Apply(s, SendStep(q)).ops[o].phase
         == if q == o && s.ops[o].phase.Sending? && s.ops[o].send.Spinning? then Flushed else s.ops[o].phase
  {
  }

  /** Nothing gets stuck: whoever is in a call of `send_command` can make its next store or return, or else its target can take
      the next step of its handler; and who holds the map's mutex is in such a call, waits for one to end, or can go on. */
  lemma NothingGetsStuck(tr: seq<State>, evs: seq<Event>, n: nat, o: OpId)
    requires Run(tr, evs) && n < |tr| && IsOp(tr[n], o)
    ensures var s, op := tr[n], tr[n].ops[o];
            && (!op.send.Quiet? ==>
                  || Enabled(s, SendStep(o))
                  || Enabled(s, Deliver(op.send.target)) || Enabled(s, Execute(op.send.target))
                  || Enabled(s, Acknowledge(op.send.target)))
            && (op.phase.Locked? ==> Enabled(s, Decide(o)) || s.cmdLock.Some?)
            && (op.phase.Sending? ==> !op.send.Quiet?)
            && (op.phase.Flushed? ==> Enabled(s, Unlock(o)))
            && (op.phase.Wrote? && s.vmLock == None ==> forall c :: 0 <= c < |s.cores| ==> Enabled(s, Lock(o, c)))
  {
    InvThroughout(tr, evs, n);
    assert OpOk(tr[n], o);
    hide Inv, Coherent;
  }
}
