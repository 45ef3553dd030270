/** The slot-cleanup protocol of the managed loopback proxy as a step system: any number of
    inference handlers, one permit, and arbitrary interleaving
    (crates/mindone-cli/src/serve_proxy.rs). */
module SlotCleanup {
  import opened Wrappers
  import opened Machine
  import opened CleanupRecord

  /** Where one inference request is. `spawned` tells the detached task from the handler itself. */
  datatype Pc =
    | Queued
    | Admitted
    | Retrying
    | RetryErased(outcome: Result<u64, EraseError>)
    | RetryStored(outcome: Result<u64, EraseError>)
    | Ready
    | Sending
    | Streaming
    | Cleaning(spawned: bool)
    | CleanErased(spawned: bool, outcome: Result<u64, EraseError>)
    | CleanStored(spawned: bool, outcome: Result<u64, EraseError>)
    | Finished
  {
    predicate HoldsPermit() {
      !Queued? && !Finished?
    }

    /** Still running inside the handler future, which the server drops with its connection. */
    predicate Droppable() {
      match this
      case Streaming => false
      case Cleaning(spawned) => !spawned
      case CleanErased(spawned, _) => !spawned
      case CleanStored(spawned, _) => !spawned
      case Finished => false
      case _ => true
    }

    /** A request has been forwarded and neither a confirmed erase nor the flag covers it yet. */
    predicate Exposed() {
      Sending? || Streaming? || Cleaning? || (CleanErased? && outcome.Err?)
    }
  }

  datatype Event = Forwarded(handler: nat) | EraseConfirmed

  datatype State = State(
    pcs: map<nat, Pc>,
    permit: Option<nat>,
    cleanupRequired: bool,
    reportingFailed: bool,
    status: Status,
    trace: seq<Event>)

  const INITIAL := State(map[], None, false, false, NEW_STATUS, [])

  datatype Step =
    | Arrive(h: nat, identityOk: bool)
    | Acquire(h: nat)
    | CheckGate(h: nat, identityOk: bool)
    | RetryErase(h: nat, reply: EraseReply)
    | RetryStore(h: nat)
    | RetryWrite(h: nat, written: bool)
    | RejectBody(h: nat)
    | Send(h: nat)
    | SendFails(h: nat)
    | SendSucceeds(h: nat)
    | RelayChunk(h: nat)
    | StreamEnds(h: nat)
    | CleanErase(h: nat, reply: EraseReply)
    | CleanStore(h: nat)
    | CleanWrite(h: nat, written: bool)
    | FlushStatus(written: bool)
    | Drop(h: nat)

  predicate At(s: State, h: nat, pc: Pc) {
    h in s.pcs && s.pcs[h] == pc
  }

  function Move(s: State, h: nat, pc: Pc): State {
    s.(pcs := s.pcs[h := pc])
  }

  /** The handler is done; its permit, if it has it, is free again. */
  function Finish(s: State, h: nat): State {
    Move(s, h, Finished).(permit := if s.permit == Some(h) then None else s.permit)
  }

  function Confirm(s: State, outcome: Result<u64, EraseError>): State {
    if outcome.Ok? then s.(trace := s.trace + [EraseConfirmed]) else s
  }

  /** The locked status record and its file. */
  function Write(s: State, outcome: Result<u64, EraseError>, terminal: bool, written: bool): State {
    s.(status := Recorded(s.status, outcome, terminal), reportingFailed := s.reportingFailed || !written)
  }

  function Next(s: State, step: Step): Option<State> {
    match step
    case Arrive(h, identityOk) =>
      if h in s.pcs then None
      else if !identityOk || s.reportingFailed then Some(Move(s, h, Finished))
      else Some(Move(s, h, Queued))
    case Acquire(h) =>
      if At(s, h, Queued) && s.permit.None? then Some(Move(s, h, Admitted).(permit := Some(h))) else None
    case CheckGate(h, identityOk) =>
      if !At(s, h, Admitted) then None
      else if !identityOk then Some(Finish(s, h))
      else if s.cleanupRequired then Some(Move(s, h, Retrying))
      else Some(Move(s, h, Ready))
    case RetryErase(h, reply) =>
      if At(s, h, Retrying) then Some(Confirm(Move(s, h, RetryErased(EraseSlot(reply))), EraseSlot(reply))) else None
    case RetryStore(h) =>
      if h in s.pcs && s.pcs[h].RetryErased?
      then Some(Move(s, h, RetryStored(s.pcs[h].outcome)).(cleanupRequired := s.pcs[h].outcome.Err?)) else None
    case RetryWrite(h, written) =>
      if h in s.pcs && s.pcs[h].RetryStored? then
        var outcome := s.pcs[h].outcome;
        var s' := Write(s, outcome, false, written);
        if written && outcome.Ok? then Some(Move(s', h, Ready)) else Some(Finish(s', h))
      else None
    case RejectBody(h) =>
      if At(s, h, Ready) then Some(Finish(s, h)) else None
    case Send(h) =>
      if At(s, h, Ready) then Some(Move(s, h, Sending).(trace := s.trace + [Forwarded(h)])) else None
    case SendFails(h) =>
      if At(s, h, Sending) then Some(Move(s, h, Cleaning(false))) else None
    case SendSucceeds(h) =>
      if At(s, h, Sending) then Some(Move(s, h, Streaming)) else None
    case RelayChunk(h) =>
      if At(s, h, Streaming) then Some(s) else None
    case StreamEnds(h) =>
      if At(s, h, Streaming) then Some(Move(s, h, Cleaning(true))) else None
    case CleanErase(h, reply) =>
      if h in s.pcs && s.pcs[h].Cleaning?
      then Some(Confirm(Move(s, h, CleanErased(s.pcs[h].spawned, EraseSlot(reply))), EraseSlot(reply))) else None
    case CleanStore(h) =>
      if h in s.pcs && s.pcs[h].CleanErased?
      then Some(Move(s, h, CleanStored(s.pcs[h].spawned, s.pcs[h].outcome)).(cleanupRequired := s.pcs[h].outcome.Err?))
      else None
    case CleanWrite(h, written) =>
      if h in s.pcs && s.pcs[h].CleanStored? then Some(Finish(Write(s, s.pcs[h].outcome, true, written), h)) else None
    case FlushStatus(written) =>
      Some(s.(reportingFailed := s.reportingFailed || !written))
    case Drop(h) =>
      if h in s.pcs && s.pcs[h].Droppable() then Some(Finish(s, h)) else None
  }

  // ---- the invariant ----

  /** No confirmed erase since the last forwarded inference. */
  predicate Dirty(trace: seq<Event>) {
    trace != [] && trace[|trace| - 1].Forwarded?
  }

  /** A confirmed erase lies between any two forwarded inferences. */
  ghost predicate Separated(trace: seq<Event>) {
    forall i, j :: 0 <= i < j < |trace| && trace[i].Forwarded? && trace[j].Forwarded? ==>
      exists k :: i < k < j && trace[k].EraseConfirmed?
  }

  /** With the permit free, an unerased slot is flagged. */
  predicate GateSafe(s: State) {
    s.permit.None? && Dirty(s.trace) ==> s.cleanupRequired
  }

  /** What the permit holder may rely on at each point. */
  predicate HolderOk(pc: Pc, flag: bool, dirty: bool) {
    match pc
    case Queued => false
    case Finished => false
    case Admitted => dirty ==> flag
    case Retrying => flag
    case RetryErased(outcome) => flag && (outcome.Ok? ==> !dirty)
    case RetryStored(outcome) => flag == outcome.Err? && (outcome.Ok? ==> !dirty)
    case Ready => !flag && !dirty
    case Sending => !flag && dirty
    case Streaming => !flag && dirty
    case Cleaning(_) => !flag && dirty
    case CleanErased(_, outcome) => !flag && dirty == outcome.Err?
    case CleanStored(_, outcome) => flag == outcome.Err? && dirty == outcome.Err?
  }

  ghost predicate Inv(s: State) {
    && Separated(s.trace)
    && GateSafe(s)
    && (forall h :: h in s.pcs && s.pcs[h].HoldsPermit() ==> s.permit == Some(h))
    && (s.permit.Some? ==> s.permit.value in s.pcs && HolderOk(s.pcs[s.permit.value], s.cleanupRequired, Dirty(s.trace)))
  }

  /** The premise: the server does not drop a handler between the start of its forwarding and the
      record of the erase that follows a failed send. */
  predicate Allowed(s: State, step: Step) {
    step.Drop? && step.h in s.pcs ==> !s.pcs[step.h].Exposed()
  }

  lemma ForwardAfterClean(trace: seq<Event>, h: nat)
    requires Separated(trace) && !Dirty(trace)
    ensures Separated(trace + [Forwarded(h)])
  {
    var t := trace + [Forwarded(h)];
    forall i, j | 0 <= i < j < |t| && t[i].Forwarded? && t[j].Forwarded?
      ensures exists k :: i < k < j && t[k].EraseConfirmed?
    {
      if j < |trace| {
        var k :| i < k < j && trace[k].EraseConfirmed?;
        assert t[k].EraseConfirmed?;
      } else {
        assert t[|trace| - 1].EraseConfirmed?;
      }
    }
  }

  lemma EraseKeepsSeparated(trace: seq<Event>)
    requires Separated(trace)
    ensures Separated(trace + [EraseConfirmed])
  {
    var t := trace + [EraseConfirmed];
    forall i, j | 0 <= i < j < |t| && t[i].Forwarded? && t[j].Forwarded?
      ensures exists k :: i < k < j && t[k].EraseConfirmed?
    {
      var k :| i < k < j && trace[k].EraseConfirmed?;
      assert t[k].EraseConfirmed?;
    }
  }

  predicate IsCleanup(step: Step) {
    || step.RetryErase? || step.RetryStore? || step.RetryWrite?
    || step.CleanErase? || step.CleanStore? || step.CleanWrite?
  }

  lemma RetryEraseKeepsInv(s: State, step: Step)
    requires Inv(s) && Next(s, step).Some? && step.RetryErase?
    ensures Inv(Next(s, step).value)
  {
    hide Separated, EraseSlot, Recorded;
    EraseKeepsSeparated(s.trace);
  }

  lemma RetryStoreKeepsInv(s: State, step: Step)
    requires Inv(s) && Next(s, step).Some? && step.RetryStore?
    ensures Inv(Next(s, step).value)
  {
    hide Separated, EraseSlot, Recorded;
  }

  lemma RetryWriteKeepsInv(s: State, step: Step)
    requires Inv(s) && Next(s, step).Some? && step.RetryWrite?
    ensures Inv(Next(s, step).value)
  {
    hide Separated, EraseSlot, Recorded;
  }

  lemma CleanEraseKeepsInv(s: State, step: Step)
    requires Inv(s) && Next(s, step).Some? && step.CleanErase?
    ensures Inv(Next(s, step).value)
  {
    hide Separated, EraseSlot, Recorded;
    EraseKeepsSeparated(s.trace);
  }

  lemma CleanStoreKeepsInv(s: State, step: Step)
    requires Inv(s) && Next(s, step).Some? && step.CleanStore?
    ensures Inv(Next(s, step).value)
  {
    hide Separated, EraseSlot, Recorded;
  }

  lemma CleanWriteKeepsInv(s: State, step: Step)
    requires Inv(s) && Next(s, step).Some? && step.CleanWrite?
    ensures Inv(Next(s, step).value)
  {
    hide Separated, EraseSlot, Recorded;
  }

  lemma CleanupKeepsInv(s: State, step: Step)
    requires Inv(s) && Next(s, step).Some? && IsCleanup(step)
    ensures Inv(Next(s, step).value)
  {
    hide Inv, Next;
    match step
    case RetryErase(_, _) => RetryEraseKeepsInv(s, step);
    case RetryStore(_) => RetryStoreKeepsInv(s, step);
    case RetryWrite(_, _) => RetryWriteKeepsInv(s, step);
    case CleanErase(_, _) => CleanEraseKeepsInv(s, step);
    case CleanStore(_) => CleanStoreKeepsInv(s, step);
    case CleanWrite(_, _) => CleanWriteKeepsInv(s, step);
  }

  lemma ServiceKeepsInv(s: State, step: Step)
    requires Inv(s) && Next(s, step).Some? && Allowed(s, step) && !IsCleanup(step)
    ensures Inv(Next(s, step).value)
  {
    hide Separated, EraseSlot, Recorded;
    match step
    case Send(h) => ForwardAfterClean(s.trace, h);
    case _ =>
  }

  /** Every allowed step of every handler keeps the invariant. */
  lemma StepKeepsInv(s: State, step: Step)
    requires Inv(s) && Next(s, step).Some? && Allowed(s, step)
    ensures Inv(Next(s, step).value)
  {
    hide Inv, Next, Allowed;
    if IsCleanup(step) {
      CleanupKeepsInv(s, step);
    } else {
      ServiceKeepsInv(s, step);
    }
  }

  // ---- runs ----

  function Run(steps: seq<Step>): Option<State> {
    if steps == [] then Some(INITIAL)
    else match Run(steps[..|steps| - 1])
      case None => None
      case Some(s) => Next(s, steps[|steps| - 1])
  }

  ghost predicate AllowedRun(steps: seq<Step>) {
    forall i :: 0 <= i < |steps| && Run(steps[..i]).Some? ==> Allowed(Run(steps[..i]).value, steps[i])
  }

  /** In every interleaving of any number of requests, whatever sends, streams, erases and status
      writes fail and whichever consumers leave: the gate is safe, and a confirmed erase of slot 0
      lies between any two forwarded inferences. */
  lemma {:induction false} ErasesSeparateInferences(steps: seq<Step>)
    requires Run(steps).Some? && AllowedRun(steps)
    ensures Inv(Run(steps).value) && GateSafe(Run(steps).value) && Separated(Run(steps).value.trace)
  {
    hide Next, Allowed, HolderOk;
    if steps != [] {
      var front := steps[..|steps| - 1];
      forall i | 0 <= i < |front| && Run(front[..i]).Some? ensures Allowed(Run(front[..i]).value, front[i]) {
        assert front[..i] == steps[..i];
      }
      ErasesSeparateInferences(front);
      StepKeepsInv(Run(front).value, steps[|steps| - 1]);
    }
  }

  /** The step erased slot 0: the reply was a successful response, no larger than the limit either as
      declared or as read, whose receipt names slot 0. */
  predicate ConfirmsErase(step: Step) {
    && (step.RetryErase? || step.CleanErase?)
    && step.reply.Response? && step.reply.success
    && (step.reply.declaredLength.Some? ==> step.reply.declaredLength.value <= MAX_ERASE_RESPONSE_BYTES)
    && step.reply.body.Bytes? && step.reply.body.length <= MAX_ERASE_RESPONSE_BYTES
    && step.reply.body.receipt.Some? && step.reply.body.receipt.value.idSlot == MANAGED_LLAMA_SLOT_ID
  }

  /** Step `i` of the run wrote event `k` of its trace. */
  ghost predicate WroteAt(steps: seq<Step>, i: nat, k: nat)
    requires i < |steps|
  {
    && Run(steps[..i]).Some? && |Run(steps[..i]).value.trace| == k
    && Run(steps[..i + 1]).Some? && |Run(steps[..i + 1]).value.trace| == k + 1
  }

  lemma StepTraces(s: State, step: Step)
    requires Next(s, step).Some?
    ensures var t := Next(s, step).value.trace;
            || (t == s.trace && !step.Send? && !ConfirmsErase(step))
            || (t == s.trace + [EraseConfirmed] && ConfirmsErase(step))
            || (step.Send? && t == s.trace + [Forwarded(step.h)])
  {
    hide Recorded;
    if step.RetryErase? || step.CleanErase? {
      forall tokens: u64 {
        ConfirmedIff(step.reply, tokens);
      }
    }
  }

  /** The trace tells the truth: in every run each confirmed erase was written by a step whose reply
      really confirmed the erase of slot 0, and each forwarding by the sending of that request. */
  lemma {:induction false} TraceIsTruthful(steps: seq<Step>, k: nat) returns (i: nat)
    requires Run(steps).Some? && k < |Run(steps).value.trace|
    ensures i < |steps| && WroteAt(steps, i, k)
    ensures match Run(steps).value.trace[k]
            case EraseConfirmed => ConfirmsErase(steps[i])
            case Forwarded(h) => steps[i] == Send(h)
  {
    hide Next, ConfirmsErase;
    TracedRunLast(steps);
    var front := steps[..|steps| - 1];
    var s := Run(front).value;
    StepTraces(s, steps[|steps| - 1]);
    if k < |s.trace| {
      i := TraceIsTruthful(front, k);
      assert front[..i] == steps[..i] && front[..i + 1] == steps[..i + 1];
    } else {
      i := |steps| - 1;
      assert steps[..i + 1] == steps;
    }
  }

  lemma TracedRunLast(steps: seq<Step>)
    requires Run(steps).Some? && Run(steps).value.trace != []
    ensures steps != [] && Run(steps[..|steps| - 1]).Some?
    ensures Run(steps) == Next(Run(steps[..|steps| - 1]).value, steps[|steps| - 1])
  {
    hide Next;
  }

  /** The premise is exact: dropping a handler keeps the gate safe if and only if its request was not
      exposed. */
  lemma DropSafeIff(s: State, h: nat)
    requires Inv(s) && Next(s, Drop(h)).Some?
    ensures GateSafe(Next(s, Drop(h)).value) <==> !s.pcs[h].Exposed()
  {
    hide Separated;
  }

  lemma {:induction false} RunPrefix(steps: seq<Step>, step: Step)
    ensures Run(steps + [step]) == match Run(steps) case None => None case Some(s) => Next(s, step)
  {
    hide Next;
    assert (steps + [step])[..|steps|] == steps;
  }

  function Forwarding(h: nat): seq<Step> {
    [Arrive(h, true)] + [Acquire(h)] + [CheckGate(h, true)] + [Send(h)]
  }

  /** Whenever the permit is free and no flag is set, a new request runs through to its forwarding. */
  lemma ForwardingRuns(steps: seq<Step>, h: nat)
    requires Run(steps).Some? && h !in Run(steps).value.pcs
    requires var s := Run(steps).value; s.permit.None? && !s.cleanupRequired && !s.reportingFailed
    ensures var s, t := Run(steps).value, Run(steps + Forwarding(h));
            && t.Some? && At(t.value, h, Sending) && t.value.trace == s.trace + [Forwarded(h)]
            && t.value == s.(pcs := t.value.pcs, permit := Some(h), trace := t.value.trace)
            && t.value.pcs.Keys == s.pcs.Keys + {h}
  {
    hide Run;
    RunPrefix(steps, Arrive(h, true));
    var a1 := steps + [Arrive(h, true)];
    RunPrefix(a1, Acquire(h));
    var a2 := a1 + [Acquire(h)];
    RunPrefix(a2, CheckGate(h, true));
    var a3 := a2 + [CheckGate(h, true)];
    RunPrefix(a3, Send(h));
    assert steps + Forwarding(h) == a3 + [Send(h)];
  }

  function ExposingRun(): seq<Step> {
    Forwarding(1) + [Drop(1)] + Forwarding(2)
  }

  /** And it is needed: this run of the code drops one handler while its request is under way, and
      forwards a second inference with no erase between. */
  lemma DropDuringSendBreaks()
    ensures Run(ExposingRun()).Some?
    ensures Run(ExposingRun()).value.trace == [Forwarded(1), Forwarded(2)]
    ensures !Separated(Run(ExposingRun()).value.trace)
  {
    hide Run, Forwarding;
    RunEmpty();
    ForwardingRuns([], 1);
    assert [] + Forwarding(1) == Forwarding(1);
    RunPrefix(Forwarding(1), Drop(1));
    ForwardingRuns(Forwarding(1) + [Drop(1)], 2);
    var trace := Run(ExposingRun()).value.trace;
    assert trace == [] + [Forwarded(1)] + [Forwarded(2)];
    assert trace[0].Forwarded? && trace[1].Forwarded?;
  }

  lemma RunEmpty()
    ensures Run([]) == Some(INITIAL)
  {
  }

  // ---- the status record ----

  function Cap(n: nat): u64 {
    if n <= U64_MAX then n else U64_MAX
  }

  /** How many recorded cleanups of a run satisfy a test. */
  function Count(steps: seq<Step>, test: (State, Step) -> bool): nat {
    if steps == [] then 0
    else
      var front, last := steps[..|steps| - 1], steps[|steps| - 1];
      Count(front, test) + (if Run(front).Some? && test(Run(front).value, last) then 1 else 0)
  }

  predicate Writes(s: State, step: Step) {
    step.RetryWrite? || step.CleanWrite?
  }

  predicate WritesTerminal(s: State, step: Step) {
    step.CleanWrite?
  }

  predicate WritesSuccess(s: State, step: Step) {
    Writes(s, step) && step.h in s.pcs && (s.pcs[step.h].RetryStored? || s.pcs[step.h].CleanStored?)
    && s.pcs[step.h].outcome.Ok?
  }

  predicate WritesFailure(s: State, step: Step) {
    Writes(s, step) && step.h in s.pcs && (s.pcs[step.h].RetryStored? || s.pcs[step.h].CleanStored?)
    && s.pcs[step.h].outcome.Err?
  }

  /** The tokens that the recorded successes of a run erased. */
  function TokensErased(steps: seq<Step>): nat {
    if steps == [] then 0
    else
      var front, last := steps[..|steps| - 1], steps[|steps| - 1];
      TokensErased(front) + (if Run(front).Some? then StepTokens(Run(front).value, last) else 0)
  }

  function StepTokens(s: State, step: Step): nat {
    if WritesSuccess(s, step) then s.pcs[step.h].outcome.value else 0
  }

  lemma RecordFollowsStep(s: State, step: Step)
    requires Next(s, step).Some?
    ensures Next(s, step).value.status.tokensErased ==
            if WritesSuccess(s, step) then SaturatingAddU64(s.status.tokensErased, StepTokens(s, step)) else s.status.tokensErased
    ensures Writes(s, step) ==> Next(s, step).value.status.cleanupRequired == WritesFailure(s, step)
    ensures !Writes(s, step) ==> Next(s, step).value.status.cleanupRequired == s.status.cleanupRequired
    ensures Writes(s, step) ==>
              Next(s, step).value.status.lastErrorCode == if WritesFailure(s, step) then Some(s.pcs[step.h].outcome.error) else None
    ensures !Writes(s, step) ==> Next(s, step).value.status.lastErrorCode == s.status.lastErrorCode
  {
    hide SaturatingAddU64;
  }

  /** The record's token counter is the true total, saturated. */
  lemma {:induction false} TokenCounterIsExact(steps: seq<Step>)
    requires Run(steps).Some?
    ensures Run(steps).value.status.tokensErased == Cap(TokensErased(steps))
  {
    hide Next, WritesSuccess, WritesFailure, Writes;
    if steps != [] {
      RunLast(steps);
      var front := steps[..|steps| - 1];
      TokenCounterIsExact(front);
      RecordFollowsStep(Run(front).value, steps[|steps| - 1]);
    }
  }

  /** The counters of the status record are the true counts of the run, saturated; every recorded
      cleanup is counted once, as a success or as a failure. */
  lemma {:induction false} CountersAreExact(steps: seq<Step>)
    requires Run(steps).Some?
    ensures var t := Run(steps).value.status;
            && t.cleanupAttempts == Cap(Count(steps, Writes))
            && t.requestsCompleted == Cap(Count(steps, WritesTerminal))
            && t.cleanupSuccesses == Cap(Count(steps, WritesSuccess))
            && t.cleanupFailures == Cap(Count(steps, WritesFailure))
    ensures Count(steps, Writes) == Count(steps, WritesSuccess) + Count(steps, WritesFailure)
  {
    if steps != [] {
      var front := steps[..|steps| - 1];
      CountersAreExact(front);
      StepCounts(Run(front).value, steps[|steps| - 1]);
      hide Next, Run, Writes, WritesTerminal, WritesSuccess, WritesFailure;
      assert Run(steps) == Next(Run(front).value, steps[|steps| - 1]) by { RunLast(steps); }
    }
  }

  lemma RunLast(steps: seq<Step>)
    requires Run(steps).Some? && steps != []
    ensures Run(steps[..|steps| - 1]).Some?
    ensures Run(steps) == Next(Run(steps[..|steps| - 1]).value, steps[|steps| - 1])
  {
    hide Next;
  }

  function Bump(x: u64, test: bool): u64 {
    if test then SaturatingAddU64(x, 1) else x
  }

  lemma StepCounts(s: State, step: Step)
    requires Next(s, step).Some?
    ensures var a, b := s.status, Next(s, step).value.status;
            && b.cleanupAttempts == Bump(a.cleanupAttempts, Writes(s, step))
            && b.requestsCompleted == Bump(a.requestsCompleted, WritesTerminal(s, step))
            && b.cleanupSuccesses == Bump(a.cleanupSuccesses, WritesSuccess(s, step))
            && b.cleanupFailures == Bump(a.cleanupFailures, WritesFailure(s, step))
    ensures Writes(s, step) <==> WritesSuccess(s, step) || WritesFailure(s, step)
    ensures !(WritesSuccess(s, step) && WritesFailure(s, step))
  {
    hide SaturatingAddU64;
  }

  // ---- refusals ----

  /** The request has not got as far as its forwarding. */
  predicate BeforeSend(s: State, h: nat) {
    h in s.pcs ==> match s.pcs[h]
      case Queued => true
      case Admitted => true
      case Retrying => true
      case RetryErased(_) => true
      case RetryStored(_) => true
      case Ready => true
      case _ => false
  }

  ghost predicate NotYet(s: State) {
    forall h :: BeforeSend(s, h) ==> Forwarded(h) !in s.trace
  }

  lemma StepKeepsNotYet(s: State, step: Step)
    requires NotYet(s) && Next(s, step).Some?
    ensures NotYet(Next(s, step).value)
  {
    hide EraseSlot, Recorded;
    var t := Next(s, step).value;
    forall h | BeforeSend(t, h) ensures Forwarded(h) !in t.trace {
      assert BeforeSend(s, h);
    }
  }

  lemma {:induction false} RunKeepsNotYet(steps: seq<Step>)
    requires Run(steps).Some?
    ensures NotYet(Run(steps).value)
  {
    hide Next, NotYet;
    if steps == [] {
      assert NotYet(INITIAL) by { NothingForwarded(); }
    } else {
      RunKeepsNotYet(steps[..|steps| - 1]);
      StepKeepsNotYet(Run(steps[..|steps| - 1]).value, steps[|steps| - 1]);
    }
  }

  lemma NothingForwarded()
    ensures NotYet(INITIAL)
  {
  }

  /** The step turns its request away: the engine is not the managed one, on arrival or at the gate; the
      retried erase or its record failed; or the body is not acceptable. */
  predicate TurnsAway(s: State, step: Step) {
    match step
    case Arrive(_, identityOk) => !identityOk
    case CheckGate(_, identityOk) => !identityOk
    case RetryWrite(h, written) => !written || (h in s.pcs && s.pcs[h].RetryStored? && s.pcs[h].outcome.Err?)
    case RejectBody(_) => true
    case _ => false
  }

  lemma TurnedAway(s: State, step: Step)
    requires NotYet(s) && Next(s, step).Some? && TurnsAway(s, step)
    ensures At(Next(s, step).value, step.h, Finished) && Next(s, step).value.trace == s.trace
    ensures Forwarded(step.h) !in s.trace
  {
    assert BeforeSend(s, step.h);
    hide EraseSlot, Recorded;
  }

  /** A request that is turned away is never forwarded, before or after. */
  lemma {:induction false} TurnedAwayNeverForwarded(steps: seq<Step>, i: nat)
    requires Run(steps).Some? && i < |steps| && Run(steps[..i]).Some? && TurnsAway(Run(steps[..i]).value, steps[i])
    ensures Forwarded(steps[i].h) !in Run(steps).value.trace
    ensures At(Run(steps).value, steps[i].h, Finished)
  {
    var front, h := steps[..|steps| - 1], steps[i].h;
    hide Next, TurnsAway, NotYet;
    RunLast(steps);
    if i == |steps| - 1 {
      RunKeepsNotYet(front);
      TurnedAway(Run(front).value, steps[i]);
    } else {
      assert front[..i] == steps[..i];
      TurnedAwayNeverForwarded(front, i);
      FinishedStays(Run(front).value, steps[|steps| - 1], h);
    }
  }

  /** No request is forwarded twice. */
  lemma {:induction false} ForwardedAtMostOnce(steps: seq<Step>, j: nat, k: nat)
    requires Run(steps).Some? && j < k < |Run(steps).value.trace|
    requires Run(steps).value.trace[j].Forwarded?
    ensures Run(steps).value.trace[j] != Run(steps).value.trace[k]
  {
    hide Next, NotYet;
    TracedRunLast(steps);
    var front, step := steps[..|steps| - 1], steps[|steps| - 1];
    var s := Run(front).value;
    StepTraces(s, step);
    if k < |s.trace| {
      ForwardedAtMostOnce(front, j, k);
    } else {
      RunKeepsNotYet(front);
      SendIsFirst(s, step);
      assert s.trace[j] in s.trace;
    }
  }

  lemma SendIsFirst(s: State, step: Step)
    requires NotYet(s) && Next(s, step).Some?
    ensures step.Send? ==> Forwarded(step.h) !in s.trace
  {
    if step.Send? {
      assert BeforeSend(s, step.h);
    }
  }

  // ---- refusal after a lost status ----

  /** A request that arrives after the status could not be written is never forwarded. */
  lemma {:induction false} LateArrivalsRefused(steps: seq<Step>, i: nat, h: nat, identityOk: bool)
    requires Run(steps).Some? && i < |steps| && steps[i] == Arrive(h, identityOk)
    requires Run(steps[..i]).Some? && Run(steps[..i]).value.reportingFailed
    ensures |Run(steps[..i]).value.trace| <= |Run(steps).value.trace|
    ensures Forwarded(h) !in Run(steps).value.trace[|Run(steps[..i]).value.trace|..]
    ensures At(Run(steps).value, h, Finished)
  {
    hide Next;
    var front := steps[..|steps| - 1];
    RunLast(steps);
    if i == |steps| - 1 {
      ArrivalRefused(Run(front).value, h, identityOk);
    } else {
      assert front[..i] == steps[..i];
      LateArrivalsRefused(front, i, h, identityOk);
      FinishedStays(Run(front).value, steps[|steps| - 1], h);
    }
  }

  lemma ArrivalRefused(s: State, h: nat, identityOk: bool)
    requires Next(s, Arrive(h, identityOk)).Some? && s.reportingFailed
    ensures At(Next(s, Arrive(h, identityOk)).value, h, Finished)
    ensures Next(s, Arrive(h, identityOk)).value.trace == s.trace
  {
  }

  lemma FinishedStays(s: State, step: Step, h: nat)
    requires Next(s, step).Some? && At(s, h, Finished)
    ensures At(Next(s, step).value, h, Finished)
    ensures Next(s, step).value.trace == s.trace
            || exists e :: e != Forwarded(h) && Next(s, step).value.trace == s.trace + [e]
  {
    hide EraseSlot, Recorded;
  }

  /** The run from a state on. */
  function RunFrom(s: State, steps: seq<Step>): Option<State>
    decreases |steps|
  {
    if steps == [] then Some(s)
    else match Next(s, steps[0])
      case None => None
      case Some(t) => RunFrom(t, steps[1..])
  }

  ghost predicate AllowedFrom(s: State, steps: seq<Step>)
    decreases |steps|
  {
    steps != [] && Next(s, steps[0]).Some? ==>
      Allowed(s, steps[0]) && AllowedFrom(Next(s, steps[0]).value, steps[1..])
  }

  /** The continuation is a run that forwards the request. */
  ghost predicate Forwards(s: State, steps: seq<Step>, h: nat) {
    && RunFrom(s, steps).Some? && s.trace <= RunFrom(s, steps).value.trace
    && Forwarded(h) in RunFrom(s, steps).value.trace[|s.trace|..]
  }

  /** And the premise on dropped handlers is kept on the way. */
  ghost predicate GoesOn(s: State, steps: seq<Step>, h: nat) {
    Forwards(s, steps, h) && AllowedFrom(s, steps)
  }

  /** Has passed the check on arrival and has not been refused since. */
  predicate MayForward(pc: Pc) {
    match pc
    case Queued => true
    case Admitted => true
    case Retrying => true
    case RetryErased(outcome) => outcome.Ok?
    case RetryStored(outcome) => outcome.Ok?
    case Ready => true
    case _ => false
  }

  ghost predicate Passed(s: State, h: nat) {
    h in s.pcs && MayForward(s.pcs[h])
  }

  lemma LossIsPermanent(s: State, step: Step, h: nat)
    requires s.reportingFailed && !Passed(s, h) && Next(s, step).Some?
    ensures var t := Next(s, step).value;
            && t.reportingFailed && !Passed(t, h)
            && (t.trace == s.trace || exists e :: e != Forwarded(h) && t.trace == s.trace + [e])
  {
    hide EraseSlot, Recorded;
  }

  lemma {:induction false} NeverForwarded(s: State, steps: seq<Step>, h: nat)
    requires s.reportingFailed && !Passed(s, h) && RunFrom(s, steps).Some?
    ensures s.trace <= RunFrom(s, steps).value.trace
    ensures Forwarded(h) !in RunFrom(s, steps).value.trace[|s.trace|..]
    decreases |steps|
  {
    hide Next, Passed;
    if steps != [] {
      LossIsPermanent(s, steps[0], h);
      var t := Next(s, steps[0]).value;
      NeverForwarded(t, steps[1..], h);
      var end := RunFrom(s, steps).value.trace;
      assert end[|s.trace|..] == t.trace[|s.trace|..] + end[|t.trace|..];
    }
  }

  /** One more step in front of a run. */
  lemma StepFirst(s: State, step: Step, steps: seq<Step>)
    requires Next(s, step).Some? && Allowed(s, step)
    requires RunFrom(Next(s, step).value, steps).Some? && AllowedFrom(Next(s, step).value, steps)
    ensures RunFrom(s, [step] + steps) == RunFrom(Next(s, step).value, steps) && AllowedFrom(s, [step] + steps)
  {
    hide Next, Allowed;
    assert ([step] + steps)[1..] == steps;
  }

  const CONFIRMING := Response(true, None, Bytes(0, Some(Receipt(MANAGED_LLAMA_SLOT_ID, 0))))

  lemma GoesOnEarlier(s: State, step: Step, steps: seq<Step>, h: nat)
    requires Next(s, step).Some? && Allowed(s, step) && GoesOn(Next(s, step).value, steps, h)
    requires s.trace <= Next(s, step).value.trace
    ensures GoesOn(s, [step] + steps, h)
  {
    hide Next, Allowed, RunFrom, AllowedFrom;
    var t := Next(s, step).value;
    StepFirst(s, step, steps);
    var end := RunFrom(t, steps).value.trace;
    var k :| 0 <= k < |end[|t.trace|..]| && end[|t.trace|..][k] == Forwarded(h);
    assert end[|s.trace|..][|t.trace| - |s.trace| + k] == Forwarded(h);
  }

  lemma FromReady(s: State, h: nat)
    requires At(s, h, Ready)
    ensures GoesOn(s, [Send(h)], h)
  {
    var t := Next(s, Send(h)).value;
    assert [Send(h)][1..] == [];
    assert RunFrom(s, [Send(h)]) == Some(t) && AllowedFrom(t, []);
    assert t.trace[|s.trace|..][0] == Forwarded(h);
  }

  lemma FromRetryStored(s: State, h: nat) returns (steps: seq<Step>)
    requires h in s.pcs && s.pcs[h].RetryStored? && s.pcs[h].outcome.Ok?
    ensures GoesOn(s, steps, h)
  {
    var step := RetryWrite(h, true);
    var t := Next(s, step).value;
    FromReady(t, h);
    hide Next, GoesOn;
    GoesOnEarlier(s, step, [Send(h)], h);
    steps := [step] + [Send(h)];
  }

  lemma FromRetryErased(s: State, h: nat) returns (steps: seq<Step>)
    requires h in s.pcs && s.pcs[h].RetryErased? && s.pcs[h].outcome.Ok?
    ensures GoesOn(s, steps, h)
  {
    var step := RetryStore(h);
    var rest := FromRetryStored(Next(s, step).value, h);
    assert s.trace <= Next(s, step).value.trace;
    hide Next, GoesOn;
    GoesOnEarlier(s, step, rest, h);
    steps := [step] + rest;
  }

  lemma FromRetrying(s: State, h: nat) returns (steps: seq<Step>)
    requires At(s, h, Retrying)
    ensures GoesOn(s, steps, h)
  {
    var step := RetryErase(h, CONFIRMING);
    var rest := FromRetryErased(Next(s, step).value, h);
    assert s.trace <= Next(s, step).value.trace;
    hide Next, GoesOn;
    GoesOnEarlier(s, step, rest, h);
    steps := [step] + rest;
  }

  lemma FromAdmitted(s: State, h: nat) returns (steps: seq<Step>)
    requires At(s, h, Admitted)
    ensures GoesOn(s, steps, h)
  {
    var step := CheckGate(h, true);
    var t := Next(s, step).value;
    var rest := [Send(h)];
    if s.cleanupRequired {
      rest := FromRetrying(t, h);
    } else {
      FromReady(t, h);
    }
    assert s.trace <= t.trace;
    hide Next, GoesOn;
    GoesOnEarlier(s, step, rest, h);
    steps := [step] + rest;
  }

  lemma FromQueued(s: State, h: nat) returns (steps: seq<Step>)
    requires At(s, h, Queued) && s.permit.None?
    ensures GoesOn(s, steps, h)
  {
    var step := Acquire(h);
    var rest := FromAdmitted(Next(s, step).value, h);
    assert s.trace <= Next(s, step).value.trace;
    hide Next, GoesOn;
    GoesOnEarlier(s, step, rest, h);
    steps := [step] + rest;
  }

  /** How far the permit holder is from giving the permit back. */
  function Left(pc: Pc): nat {
    match pc
    case Sending => 4
    case Streaming => 4
    case Cleaning(_) => 3
    case CleanErased(_, _) => 2
    case _ => 1
  }

  /** A step that brings the permit holder nearer to giving it back, whatever happens to its erase. */
  function LetGo(p: nat, pc: Pc): Step {
    match pc
    case Sending => SendFails(p)
    case Streaming => StreamEnds(p)
    case Cleaning(_) => CleanErase(p, NoResponse)
    case CleanErased(_, _) => CleanStore(p)
    case CleanStored(_, _) => CleanWrite(p, true)
    case _ => Drop(p)
  }

  lemma HolderLetsGo(s: State, h: nat, p: nat)
    requires Inv(s) && s.permit == Some(p) && At(s, h, Queued)
    ensures p in s.pcs && Next(s, LetGo(p, s.pcs[p])).Some? && Allowed(s, LetGo(p, s.pcs[p]))
    ensures var t := Next(s, LetGo(p, s.pcs[p])).value;
            && At(t, h, Queued) && s.trace <= t.trace
            && (t.permit.None? || (t.permit == Some(p) && p in t.pcs && Left(t.pcs[p]) < Left(s.pcs[p])))
  {
    hide Separated, Recorded;
  }

  /** A request already queued when the status is lost is not refused: the flag is read before the gate
      and not after it. Whoever holds the permit, and whether or not a cleanup is due, it can go on to
      its forwarding. */
  lemma {:induction false} QueuedRequestStillForwarded(s: State, h: nat) returns (steps: seq<Step>)
    requires Inv(s) && At(s, h, Queued)
    ensures GoesOn(s, steps, h)
    decreases if s.permit.Some? && s.permit.value in s.pcs then Left(s.pcs[s.permit.value]) else 0
  {
    if s.permit.None? {
      steps := FromQueued(s, h);
    } else {
      hide Next, Inv, GoesOn, Allowed, Left, LetGo;
      var p := s.permit.value;
      HolderLetsGo(s, h, p);
      var step := LetGo(p, s.pcs[p]);
      StepKeepsInv(s, step);
      var rest := QueuedRequestStillForwarded(Next(s, step).value, h);
      GoesOnEarlier(s, step, rest, h);
      steps := [step] + rest;
    }
  }

  lemma PassedGoesOn(s: State, h: nat) returns (steps: seq<Step>)
    requires Inv(s) && Passed(s, h)
    ensures GoesOn(s, steps, h)
  {
    hide Next, Inv, GoesOn;
    match s.pcs[h]
    case Queued => steps := QueuedRequestStillForwarded(s, h);
    case Admitted => steps := FromAdmitted(s, h);
    case Retrying => steps := FromRetrying(s, h);
    case RetryErased(_) => steps := FromRetryErased(s, h);
    case RetryStored(_) => steps := FromRetryStored(s, h);
    case Ready =>
      FromReady(s, h);
      steps := [Send(h)];
  }

  /** Exactly which requests can still be forwarded after the status is lost: those that had passed the
      check on arrival before, and were not refused or forwarded since. */
  lemma ForwardedAfterLossIff(s: State, h: nat)
    requires Inv(s) && s.reportingFailed
    ensures (exists steps :: Forwards(s, steps, h)) <==> Passed(s, h)
    ensures (exists steps :: GoesOn(s, steps, h)) <==> Passed(s, h)
  {
    hide Inv, Passed;
    if Passed(s, h) {
      var steps := PassedGoesOn(s, h);
      assert Forwards(s, steps, h);
    }
    forall steps ensures Forwards(s, steps, h) ==> Passed(s, h) {
      if RunFrom(s, steps).Some? && !Passed(s, h) {
        NeverForwarded(s, steps, h);
      }
    }
  }

  /** A run in which the status is lost while request 1 is queued, and request 1 is forwarded after. */
  lemma ForwardedAfterLoss() returns (before: seq<Step>, after: seq<Step>)
    ensures Run(before).Some? && AllowedRun(before) && Run(before).value.reportingFailed
    ensures before == [Arrive(1, true), FlushStatus(false)]
    ensures At(Run(before).value, 1, Queued) && Run(before).value.trace == []
    ensures GoesOn(Run(before).value, after, 1)
  {
    hide Run, GoesOn;
    RunEmpty();
    RunPrefix([], Arrive(1, true));
    var a := [] + [Arrive(1, true)];
    RunPrefix(a, FlushStatus(false));
    before := a + [FlushStatus(false)];
    ErasesSeparateInferences(before);
    after := QueuedRequestStillForwarded(Run(before).value, 1);
  }
}
