/** Concurrent proxied requests that share one login session and rotate it on rejection, as a step
    system (crates/mindone-cli/src/quota.rs, crates/mindone-cli/src/auth.rs). Tokens are numbered in
    the order the coordinator issues them, which is all that freshness needs. */
module SessionRotation {
  import opened Wrappers

  datatype Session = Session(access: nat, refresh: nat)

  /** Where one proxied request is. `rejected` is the access token its first attempt was refused with. */
  datatype Pc =
    | Start
    | Holding(token: nat, rejected: Option<nat>)
    | Sending(token: nat, rejected: Option<nat>)
    | Rejected(token: nat)
    | Locked(token: nat)
    | Preparing(token: nat)
    | Presenting(token: nat)
    | Answered(token: nat, renewed: Session)
    | Released(token: nat)
    | Finished
  {
    /** Holds the write lock on the session. */
    predicate Writes() {
      Locked? || Preparing? || Presenting? || Answered?
    }

    /** Is on its way from the rejection of `token` to its replacement. */
    predicate Recovering() {
      Rejected? || Writes() || Released?
    }
  }

  datatype Event =
    | Sent(request: nat, token: nat)
    | RejectedBy(request: nat, token: nat)
    | Presented(refresh: nat)
    | Installed(request: nat, from: nat, to: nat)

  datatype State = State(
    pcs: map<nat, Pc>,
    writer: Option<nat>,
    session: Session,
    serverRefresh: nat,
    issued: nat,
    orphans: set<nat>,
    rotationLost: bool,
    trace: seq<Event>)

  const LOGIN := Session(0, 1)
  const INITIAL := State(map[], None, LOGIN, 1, 2, {}, false, [])

  datatype Outcome = Accepted | AuthenticationError | OtherError

  datatype Step =
    | Arrive(h: nat)
    | ReadToken(h: nat)
    | Send(h: nat)
    | Reply(h: nat, outcome: Outcome)
    | Lock(h: nat)
    | Compare(h: nat)
    | Prepare(h: nat, ok: bool)
    | Serve(h: nat, accepted: bool)
    | LoseRequest(h: nat)
    | LoseResponse(h: nat)
    | Install(h: nat)
    | ServeOrphan(refresh: nat)
    | Drop(h: nat)

  function Move(s: State, h: nat, pc: Pc): State {
    s.(pcs := s.pcs[h := pc])
  }

  /** Move on and give the write lock back. */
  function Leave(s: State, h: nat, pc: Pc): State {
    Move(s, h, pc).(writer := None)
  }

  function Log(s: State, event: Event): State {
    s.(trace := s.trace + [event])
  }

  /** The coordinator replaces its one-time refresh token. */
  function Rotated(s: State): State {
    s.(serverRefresh := s.issued + 1, issued := s.issued + 2)
  }

  function NextFor(s: State, h: nat, pc: Pc, step: Step): Option<State>
    requires h in s.pcs && s.pcs[h] == pc
  {
    match (step, pc)
    case (ReadToken(_), Start) =>
      if s.writer.None? then Some(Move(s, h, Holding(s.session.access, None))) else None
    case (ReadToken(_), Released(token)) =>
      if s.writer.None? then Some(Move(s, h, Holding(s.session.access, Some(token)))) else None
    case (Send(_), Holding(token, rejected)) =>
      Some(Log(Move(s, h, Sending(token, rejected)), Sent(h, token)))
    case (Reply(_, outcome), Sending(token, rejected)) =>
      if outcome.AuthenticationError? && rejected.None?
      then Some(Log(Move(s, h, Rejected(token)), RejectedBy(h, token)))
      else Some(Move(s, h, Finished))
    case (Lock(_), Rejected(token)) =>
      if s.writer.None? then Some(Move(s, h, Locked(token)).(writer := Some(h))) else None
    case (Compare(_), Locked(token)) =>
      Some(if s.session.access != token then Leave(s, h, Released(token)) else Move(s, h, Preparing(token)))
    case (Prepare(_, ok), Preparing(token)) =>
      Some(if ok then Log(Move(s, h, Presenting(token)), Presented(s.session.refresh)) else Leave(s, h, Finished))
    case (Serve(_, accepted), Presenting(token)) =>
      Some(if accepted && s.session.refresh == s.serverRefresh
           then Rotated(Move(s, h, Answered(token, Session(s.issued, s.issued + 1))))
           else Leave(s, h, Finished))
    case (LoseRequest(_), Presenting(_)) =>
      Some(Leave(s, h, Finished).(orphans := s.orphans + {s.session.refresh}))
    case (LoseResponse(_), Answered(_, _)) =>
      Some(Leave(s, h, Finished).(rotationLost := true))
    case (Install(_), Answered(token, renewed)) =>
      Some(Log(Leave(s, h, Released(token)), Installed(h, token, renewed.access)).(session := renewed))
    case (Drop(_), Finished) => None
    case (Drop(_), Presenting(_)) =>
      Some(Leave(s, h, Finished).(orphans := s.orphans + {s.session.refresh}))
    case (Drop(_), Answered(_, _)) => Some(Leave(s, h, Finished).(rotationLost := true))
    case (Drop(_), _) => Some(if pc.Writes() then Leave(s, h, Finished) else Move(s, h, Finished))
    case _ => None
  }

  function Next(s: State, step: Step): Option<State> {
    match step
    case Arrive(h) => if h in s.pcs then None else Some(Move(s, h, Start))
    case ServeOrphan(refresh) =>
      // a refresh request whose sender has given up can still reach the coordinator
      if refresh !in s.orphans then None
      else
        var t := s.(orphans := s.orphans - {refresh});
        Some(if refresh == s.serverRefresh then Rotated(t).(rotationLost := true) else t)
    case _ => if step.h in s.pcs then NextFor(s, step.h, s.pcs[step.h], step) else None
  }

  function Run(steps: seq<Step>): Option<State> {
    if steps == [] then Some(INITIAL)
    else match Run(steps[..|steps| - 1])
      case None => None
      case Some(s) => Next(s, steps[|steps| - 1])
  }

  // ---- tokens and the lock ----

  /** What a request's place says about the tokens. */
  predicate TokenOk(s: State, pc: Pc) {
    match pc
    case Start => true
    case Holding(token, rejected) => token <= s.session.access && (rejected.Some? ==> rejected.value < token)
    case Sending(token, rejected) => token <= s.session.access && (rejected.Some? ==> rejected.value < token)
    case Rejected(token) => token <= s.session.access
    case Locked(token) => token <= s.session.access
    case Preparing(token) => token == s.session.access
    case Presenting(token) => token == s.session.access
    case Answered(token, renewed) =>
      && token == s.session.access < renewed.access < s.issued
      && renewed.refresh == s.serverRefresh > s.session.refresh && !s.rotationLost
    case Released(token) => token < s.session.access
    case Finished => true
  }

  predicate InFlight(s: State) {
    s.writer.Some? && s.writer.value in s.pcs && s.pcs[s.writer.value].Answered?
  }

  ghost predicate LockOk(s: State) {
    && (s.writer.Some? ==> s.writer.value in s.pcs && s.pcs[s.writer.value].Writes())
    && (forall h :: h in s.pcs && s.pcs[h].Writes() ==> s.writer == Some(h))
  }

  ghost predicate PlacesOk(s: State) {
    forall h :: h in s.pcs ==> TokenOk(s, s.pcs[h])
  }

  /** The session is the coordinator's current one, unless a rotation is under way or its answer was
      lost. */
  ghost predicate SessionOk(s: State) {
    && s.session.access < s.issued && s.session.refresh <= s.serverRefresh < s.issued
    && (forall r :: r in s.orphans ==> r <= s.session.refresh)
    && (s.session.refresh == s.serverRefresh <==> !s.rotationLost && !InFlight(s))
  }

  ghost predicate TokensOk(s: State) {
    LockOk(s) && PlacesOk(s) && SessionOk(s)
  }

  lemma StepKeepsLock(s: State, step: Step)
    requires LockOk(s) && Next(s, step).Some?
    ensures LockOk(Next(s, step).value)
  {
  }

  lemma OwnPlaceOk(s: State, step: Step)
    requires TokensOk(s) && Next(s, step).Some? && !step.ServeOrphan?
    ensures step.h in Next(s, step).value.pcs && TokenOk(Next(s, step).value, Next(s, step).value.pcs[step.h])
  {
    if !step.Arrive? {
      assert TokenOk(s, s.pcs[step.h]);
    }
  }

  lemma OtherPlaceOk(s: State, step: Step, h: nat)
    requires TokensOk(s) && Next(s, step).Some? && h in s.pcs && (step.ServeOrphan? || h != step.h)
    ensures h in Next(s, step).value.pcs && Next(s, step).value.pcs[h] == s.pcs[h]
    ensures TokenOk(Next(s, step).value, s.pcs[h])
  {
    assert TokenOk(s, s.pcs[h]);
    if !step.Arrive? && !step.ServeOrphan? {
      assert TokenOk(s, s.pcs[step.h]);
    }
    hide PlacesOk;
  }

  lemma StepKeepsPlaces(s: State, step: Step)
    requires TokensOk(s) && Next(s, step).Some?
    ensures PlacesOk(Next(s, step).value)
  {
    hide NextFor, TokensOk, TokenOk;
    var t := Next(s, step).value;
    if !step.ServeOrphan? {
      OwnPlaceOk(s, step);
    }
    forall h | h in t.pcs && (step.ServeOrphan? || h != step.h) ensures TokenOk(t, t.pcs[h]) {
      OnlyOwnMoves(s, step, h);
      OtherPlaceOk(s, step, h);
    }
  }

  lemma OnlyOwnMoves(s: State, step: Step, h: nat)
    requires Next(s, step).Some? && h in Next(s, step).value.pcs && (step.ServeOrphan? || h != step.h)
    ensures h in s.pcs && Next(s, step).value.pcs[h] == s.pcs[h]
  {
  }

  lemma StepKeepsSession(s: State, step: Step)
    requires TokensOk(s) && Next(s, step).Some?
    ensures SessionOk(Next(s, step).value)
  {
    if !step.Arrive? && !step.ServeOrphan? {
      assert TokenOk(s, s.pcs[step.h]);
    }
    hide PlacesOk;
  }

  // ---- what the coordinator sees ----

  /** The access tokens a request was sent with, in order. */
  function SendsOf(trace: seq<Event>, h: nat): seq<nat> {
    if trace == [] then []
    else
      var last := trace[|trace| - 1];
      SendsOf(trace[..|trace| - 1], h) + if last.Sent? && last.request == h then [last.token] else []
  }

  /** The replacements of the session, in order. */
  function Installs(trace: seq<Event>): seq<Event> {
    if trace == [] then []
    else
      var last := trace[|trace| - 1];
      Installs(trace[..|trace| - 1]) + if last.Installed? then [last] else []
  }

  lemma LogSplits(trace: seq<Event>, e: Event, h: nat)
    ensures SendsOf(trace + [e], h) == SendsOf(trace, h) + if e.Sent? && e.request == h then [e.token] else []
    ensures Installs(trace + [e]) == Installs(trace) + if e.Installed? then [e] else []
  {
    assert (trace + [e])[..|trace|] == trace;
  }

  predicate SendsFit(sends: seq<nat>, pc: Pc) {
    match pc
    case Start => sends == []
    case Holding(token, rejected) => sends == if rejected.Some? then [rejected.value] else []
    case Sending(token, rejected) => sends == if rejected.Some? then [rejected.value, token] else [token]
    case Rejected(token) => sends == [token]
    case Locked(token) => sends == [token]
    case Preparing(token) => sends == [token]
    case Presenting(token) => sends == [token]
    case Answered(token, _) => sends == [token]
    case Released(token) => sends == [token]
    case Finished => |sends| <= 2 && (|sends| == 2 ==> sends[0] < sends[1])
  }

  /** The replacements form one chain from the login to the current session, upwards. */
  ghost predicate Chained(installs: seq<Event>, access: nat) {
    && (forall i :: 0 <= i < |installs| ==> installs[i].Installed? && installs[i].from < installs[i].to)
    && (forall i :: 0 < i < |installs| ==> installs[i].from == installs[i - 1].to)
    && (installs != [] ==> installs[0].from == LOGIN.access)
    && access == if installs == [] then LOGIN.access else installs[|installs| - 1].to
  }

  /** A token is replaced only after the coordinator rejected that very token. */
  ghost predicate Justified(trace: seq<Event>) {
    forall i :: 0 <= i < |trace| && trace[i].Installed? ==> RejectedBy(trace[i].request, trace[i].from) in trace[..i]
  }

  /** 1 while a rotation is under way or has been lost. */
  function Uninstalled(s: State): nat {
    if s.rotationLost || InFlight(s) then 1 else 0
  }

  /** The coordinator rotates once per replacement, apart from one that is under way or lost. */
  predicate Counted(s: State) {
    && s.serverRefresh == LOGIN.refresh + 2 * (|Installs(s.trace)| + Uninstalled(s))
    && s.issued == s.serverRefresh + 1
  }

  ghost predicate SendsOk(s: State) {
    && (forall h :: h in s.pcs ==> SendsFit(SendsOf(s.trace, h), s.pcs[h]))
    && (forall h :: h !in s.pcs ==> SendsOf(s.trace, h) == [])
  }

  ghost predicate ReplacementsOk(s: State) {
    && Chained(Installs(s.trace), s.session.access)
    && Justified(s.trace)
    && (forall h :: h in s.pcs && s.pcs[h].Recovering() ==> RejectedBy(h, s.pcs[h].token) in s.trace)
    && Counted(s)
  }

  /** At most one event per step. */
  lemma StepLogs(s: State, step: Step) returns (logged: Option<Event>)
    requires Next(s, step).Some?
    ensures Next(s, step).value.trace == if logged.Some? then s.trace + [logged.value] else s.trace
    ensures logged.Some? ==> !step.Arrive? && !step.ServeOrphan?
    ensures logged.Some? && logged.value.Sent? ==> step.Send? && logged.value.request == step.h
    ensures step.Install? <==> logged.Some? && logged.value.Installed?
    ensures step.Install? ==>
              && step.h in s.pcs && s.pcs[step.h].Answered?
              && logged == Some(Installed(step.h, s.pcs[step.h].token, s.pcs[step.h].renewed.access))
    ensures step.Send? ==>
              && step.h in s.pcs && s.pcs[step.h].Holding?
              && logged == Some(Sent(step.h, s.pcs[step.h].token))
  {
    var t := Next(s, step).value.trace;
    logged := if |t| > |s.trace| then Some(t[|s.trace|]) else None;
  }

  lemma OwnSendsFit(s: State, step: Step)
    requires Next(s, step).Some? && !step.ServeOrphan? && !step.Arrive?
    requires TokenOk(s, s.pcs[step.h]) && SendsFit(SendsOf(s.trace, step.h), s.pcs[step.h])
    ensures step.h in Next(s, step).value.pcs
    ensures SendsFit(SendsOf(s.trace, step.h) + (if step.Send? then [s.pcs[step.h].token] else []),
                     Next(s, step).value.pcs[step.h])
  {
    hide SendsOf;
  }

  lemma StepKeepsSends(s: State, step: Step)
    requires TokensOk(s) && SendsOk(s) && Next(s, step).Some?
    ensures SendsOk(Next(s, step).value)
  {
    hide NextFor, TokenOk, SendsFit;
    var t := Next(s, step).value;
    var logged := StepLogs(s, step);
    forall h ensures if h in t.pcs then SendsFit(SendsOf(t.trace, h), t.pcs[h]) else SendsOf(t.trace, h) == [] {
      if logged.Some? {
        LogSplits(s.trace, logged.value, h);
      }
      hide SendsOf;
      if !step.ServeOrphan? && h == step.h {
        if step.Arrive? {
          FreshSends(s, step);
          assert t.trace == s.trace;
        } else {
          OwnSendsFit(s, step);
          assert SendsOf(t.trace, h) == SendsOf(s.trace, h) + (if step.Send? then [s.pcs[step.h].token] else []);
        }
      } else {
        assert SendsOf(t.trace, h) == SendsOf(s.trace, h);
        if h in t.pcs {
          OnlyOwnMoves(s, step, h);
        } else {
          NoneForgotten(s, step);
        }
      }
    }
  }

  lemma NoneForgotten(s: State, step: Step)
    requires Next(s, step).Some?
    ensures s.pcs.Keys <= Next(s, step).value.pcs.Keys
  {
  }

  lemma FreshSends(s: State, step: Step)
    requires SendsOk(s) && Next(s, step).Some? && step.Arrive?
    ensures step.h in Next(s, step).value.pcs
    ensures SendsFit(SendsOf(s.trace, step.h), Next(s, step).value.pcs[step.h])
  {
  }

  lemma ChainExtends(installs: seq<Event>, access: nat, e: Event)
    requires Chained(installs, access) && e.Installed? && e.from == access < e.to
    ensures Chained(installs + [e], e.to)
  {
  }

  lemma InstallReplaces(s: State, step: Step)
    requires TokensOk(s) && Next(s, step).Some? && step.Install?
    ensures step.h in s.pcs && s.pcs[step.h].Answered?
    ensures s.pcs[step.h].token == s.session.access < s.pcs[step.h].renewed.access
    ensures Next(s, step).value.session == s.pcs[step.h].renewed
  {
    assert TokenOk(s, s.pcs[step.h]);
  }

  lemma StepKeepsChain(s: State, step: Step)
    requires TokensOk(s) && ReplacementsOk(s) && Next(s, step).Some?
    ensures Chained(Installs(Next(s, step).value.trace), Next(s, step).value.session.access)
  {
    hide TokensOk, Next, Chained, Installs, Justified;
    var logged := StepLogs(s, step);
    if logged.Some? {
      LogSplits(s.trace, logged.value, 0);
    }
    if step.Install? {
      InstallReplaces(s, step);
      ChainExtends(Installs(s.trace), s.session.access, logged.value);
    } else {
      OnlyInstallChanges(s, step);
      assert logged.Some? ==> Installs(s.trace) + [] == Installs(s.trace);
    }
  }

  lemma OnlyInstallChanges(s: State, step: Step)
    requires Next(s, step).Some? && !step.Install?
    ensures Next(s, step).value.session == s.session
  {
  }

  lemma StepKeepsJustified(s: State, step: Step)
    requires ReplacementsOk(s) && Next(s, step).Some?
    ensures Justified(Next(s, step).value.trace)
  {
    hide NextFor, Chained, Installs;
    var logged := StepLogs(s, step);
    var t := Next(s, step).value.trace;
    forall i | 0 <= i < |t| && t[i].Installed? ensures RejectedBy(t[i].request, t[i].from) in t[..i] {
      if i < |s.trace| {
        assert t[..i] == s.trace[..i] && t[i] == s.trace[i];
      } else {
        assert t[..i] == s.trace;
      }
    }
  }

  lemma StepKeepsRejections(s: State, step: Step)
    requires ReplacementsOk(s) && Next(s, step).Some?
    ensures forall h :: h in Next(s, step).value.pcs && Next(s, step).value.pcs[h].Recovering() ==>
              RejectedBy(h, Next(s, step).value.pcs[h].token) in Next(s, step).value.trace
  {
    hide Next, Chained, Installs, Justified, Counted;
    var t := Next(s, step).value;
    var logged := StepLogs(s, step);
    forall h | h in t.pcs && t.pcs[h].Recovering() ensures RejectedBy(h, t.pcs[h].token) in t.trace {
      if step.ServeOrphan? || h != step.h {
        OnlyOwnMoves(s, step, h);
        assert RejectedBy(h, s.pcs[h].token) in s.trace;
      } else {
        OwnRejection(s, step);
      }
    }
  }

  lemma OwnRejection(s: State, step: Step)
    requires Next(s, step).Some? && !step.ServeOrphan?
    requires step.h in s.pcs && s.pcs[step.h].Recovering() ==> RejectedBy(step.h, s.pcs[step.h].token) in s.trace
    ensures step.h in Next(s, step).value.pcs
    ensures Next(s, step).value.pcs[step.h].Recovering() ==>
              RejectedBy(step.h, Next(s, step).value.pcs[step.h].token) in Next(s, step).value.trace
  {
  }

  lemma StepRotates(s: State, step: Step)
    requires TokensOk(s) && Next(s, step).Some? && s.issued == s.serverRefresh + 1
    ensures var t := Next(s, step).value;
            && t.issued == t.serverRefresh + 1
            && t.serverRefresh - s.serverRefresh == 2 * (Uninstalled(t) - Uninstalled(s) + if step.Install? then 1 else 0)
  {
    if !step.Arrive? && !step.ServeOrphan? {
      assert TokenOk(s, s.pcs[step.h]);
    }
    hide PlacesOk;
  }

  lemma StepKeepsCount(s: State, step: Step)
    requires TokensOk(s) && ReplacementsOk(s) && Next(s, step).Some?
    ensures Counted(Next(s, step).value)
  {
    hide TokensOk, Next, Chained, Justified, Uninstalled;
    StepRotates(s, step);
    var logged := StepLogs(s, step);
    if logged.Some? {
      LogSplits(s.trace, logged.value, 0);
    }
    hide Installs;
  }

  // ---- runs ----

  ghost predicate Inv(s: State) {
    TokensOk(s) && SendsOk(s) && ReplacementsOk(s)
  }

  lemma StepKeepsInv(s: State, step: Step)
    requires Inv(s) && Next(s, step).Some?
    ensures Inv(Next(s, step).value)
  {
    hide Next, LockOk, PlacesOk, SessionOk, SendsOk, Chained, Justified, Counted;
    StepKeepsLock(s, step);
    StepKeepsPlaces(s, step);
    StepKeepsSession(s, step);
    StepKeepsSends(s, step);
    StepKeepsChain(s, step);
    StepKeepsJustified(s, step);
    StepKeepsRejections(s, step);
    StepKeepsCount(s, step);
  }

  lemma {:induction false} RunKeepsInv(steps: seq<Step>)
    requires Run(steps).Some?
    ensures Inv(Run(steps).value)
  {
    hide Next;
    if steps == [] {
    } else {
      hide Inv;
      RunKeepsInv(steps[..|steps| - 1]);
      StepKeepsInv(Run(steps[..|steps| - 1]).value, steps[|steps| - 1]);
    }
  }

  lemma {:induction false} ChainClimbs(installs: seq<Event>, access: nat, i: nat, j: nat)
    requires Chained(installs, access) && i < j < |installs|
    ensures installs[i].to <= installs[j].from
  {
    if i + 1 < j {
      ChainClimbs(installs, access, i, j - 1);
    }
  }

  /** However any number of requests interleave, and whatever the coordinator and the network do: a
      rejected access token is replaced at most once, only after it was rejected, and never by anything
      but a newer one; and a request is sent at most twice, never twice with the same token. */
  lemma RotatedOncePerRejection(steps: seq<Step>)
    requires Run(steps).Some?
    ensures var s := Run(steps).value;
            var installs := Installs(s.trace);
            && (forall i :: 0 <= i < |installs| ==> installs[i].Installed? && installs[i].from < installs[i].to)
            && (forall i, j :: 0 <= i < j < |installs| ==> installs[i].to <= installs[j].from)
            && s.session.access == (if installs == [] then LOGIN.access else installs[|installs| - 1].to)
            && Justified(s.trace)
            && forall h :: |SendsOf(s.trace, h)| <= 2
                           && (|SendsOf(s.trace, h)| == 2 ==> SendsOf(s.trace, h)[0] < SendsOf(s.trace, h)[1])
  {
    RunKeepsInv(steps);
    var s := Run(steps).value;
    var installs := Installs(s.trace);
    hide Run, Installs, SendsOf, LockOk, SessionOk, Justified, Counted;
    forall i, j | 0 <= i < j < |installs| ensures installs[i].to <= installs[j].from {
      ChainClimbs(installs, s.session.access, i, j);
    }
    forall h
      ensures |SendsOf(s.trace, h)| <= 2
      ensures |SendsOf(s.trace, h)| == 2 ==> SendsOf(s.trace, h)[0] < SendsOf(s.trace, h)[1]
    {
      if h in s.pcs {
        assert SendsFit(SendsOf(s.trace, h), s.pcs[h]) && TokenOk(s, s.pcs[h]);
      }
    }
  }

  /** A refresh presents the coordinator's current one-time token if and only if no earlier rotation was
      lost on its way back; and the coordinator has rotated once for every replacement of the session,
      and once more if one was lost. */
  lemma PresentedTokenIsLive(steps: seq<Step>, h: nat)
    requires Run(steps).Some? && Next(Run(steps).value, Prepare(h, true)).Some?
    ensures var s, t := Run(steps).value, Next(Run(steps).value, Prepare(h, true)).value;
            && t.trace == s.trace + [Presented(s.session.refresh)]
            && (s.session.refresh == s.serverRefresh <==> !s.rotationLost)
            && s.serverRefresh == LOGIN.refresh + 2 * (|Installs(s.trace)| + if s.rotationLost then 1 else 0)
  {
    RunKeepsInv(steps);
    hide Run, Next, Installs, SendsOk, Chained, Justified, PlacesOk, LockOk;
    PrepareIsAlone(Run(steps).value, h);
  }

  lemma PrepareIsAlone(s: State, h: nat)
    requires LockOk(s) && Next(s, Prepare(h, true)).Some?
    ensures Next(s, Prepare(h, true)).value.trace == s.trace + [Presented(s.session.refresh)]
    ensures !InFlight(s)
  {
  }

  /** Once a rotation is lost, the session is never replaced again: only a new login helps. */
  lemma {:induction false} LostRotationIsFinal(steps: seq<Step>, t: nat)
    requires Run(steps).Some? && t <= |steps| && Run(steps[..t]).Some? && Run(steps[..t]).value.rotationLost
    ensures Run(steps).value.rotationLost && Run(steps).value.session == Run(steps[..t]).value.session
  {
    hide Next, Inv;
    if t == |steps| {
      assert steps[..t] == steps;
    } else {
      var front := steps[..|steps| - 1];
      assert front[..t] == steps[..t];
      LostRotationIsFinal(front, t);
      RunKeepsInv(front);
      LostStays(Run(front).value, steps[|steps| - 1]);
    }
  }

  lemma LostStays(s: State, step: Step)
    requires Inv(s) && Next(s, step).Some? && s.rotationLost
    ensures Next(s, step).value.rotationLost && Next(s, step).value.session == s.session
  {
    hide SendsOk, ReplacementsOk, SessionOk;
    if !step.Arrive? && !step.ServeOrphan? {
      assert TokenOk(s, s.pcs[step.h]);
    }
  }

  // ---- a rejected request is sent again ----

  /** Has been released from the rejection of its first attempt, or has made both attempts. */
  predicate GoingOn(s: State, h: nat) {
    h in s.pcs && match s.pcs[h]
      case Released(_) => true
      case Holding(_, rejected) => rejected.Some?
      case Sending(_, rejected) => rejected.Some?
      case Finished => |SendsOf(s.trace, h)| == 2
      case _ => false
  }

  lemma StepKeepsGoing(s: State, step: Step, h: nat)
    requires Inv(s) && Next(s, step).Some? && GoingOn(s, h) && step != Drop(h)
    ensures GoingOn(Next(s, step).value, h)
  {
    assert SendsFit(SendsOf(s.trace, h), s.pcs[h]);
    hide Next, Inv, SendsOf, SendsFit;
    if step.ServeOrphan? || step.h != h {
      GoingUnmoved(s, step, h);
    } else {
      OwnGoing(s, step, h);
    }
  }

  lemma OwnGoing(s: State, step: Step, h: nat)
    requires Next(s, step).Some? && GoingOn(s, h) && !step.ServeOrphan? && step.h == h && step != Drop(h)
    requires SendsFit(SendsOf(s.trace, h), s.pcs[h])
    ensures GoingOn(Next(s, step).value, h)
  {
    var logged := StepLogs(s, step);
    if logged.Some? {
      LogSplits(s.trace, logged.value, h);
    }
    hide SendsOf;
  }

  lemma GoingUnmoved(s: State, step: Step, h: nat)
    requires Next(s, step).Some? && h in s.pcs && (step.ServeOrphan? || step.h != h)
    ensures h in Next(s, step).value.pcs && Next(s, step).value.pcs[h] == s.pcs[h]
    ensures SendsOf(Next(s, step).value.trace, h) == SendsOf(s.trace, h)
  {
    NoneForgotten(s, step);
    OnlyOwnMoves(s, step, h);
    var logged := StepLogs(s, step);
    if logged.Some? {
      LogSplits(s.trace, logged.value, h);
    }
  }

  /** Whether a request has replaced the session itself or found it replaced, it is sent a second time:
      unless it is dropped, it does not finish before. */
  lemma {:induction false} ReleasedIsSentAgain(steps: seq<Step>, i: nat, h: nat)
    requires Run(steps).Some? && i < |steps| && Run(steps[..i + 1]).Some?
    requires steps[i] == Install(h)
             || (steps[i] == Compare(h) && h in Run(steps[..i + 1]).value.pcs && Run(steps[..i + 1]).value.pcs[h].Released?)
    requires forall j :: i < j < |steps| ==> steps[j] != Drop(h)
    ensures GoingOn(Run(steps).value, h)
    ensures h in Run(steps).value.pcs && (Run(steps).value.pcs[h].Finished? ==> |SendsOf(Run(steps).value.trace, h)| == 2)
  {
    hide Next, Inv;
    RunFollows(steps);
    var front := steps[..|steps| - 1];
    if i == |steps| - 1 {
      assert steps[..i + 1] == steps;
      if steps[i] == Install(h) {
        InstallReleases(Run(front).value, h);
      }
    } else {
      assert front[..i + 1] == steps[..i + 1];
      ReleasedIsSentAgain(front, i, h);
      RunKeepsInv(front);
      StepKeepsGoing(Run(front).value, steps[|steps| - 1], h);
    }
  }

  lemma InstallReleases(s: State, h: nat)
    requires Next(s, Install(h)).Some?
    ensures h in Next(s, Install(h)).value.pcs && Next(s, Install(h)).value.pcs[h].Released?
  {
  }

  lemma RunFollows(steps: seq<Step>)
    requires Run(steps).Some? && steps != []
    ensures Run(steps[..|steps| - 1]).Some?
    ensures Run(steps) == Next(Run(steps[..|steps| - 1]).value, steps[|steps| - 1])
  {
    hide Next;
  }

  // ---- when a session can still be renewed ----

  /** The run from a state on. */
  function RunFrom(s: State, steps: seq<Step>): Option<State>
    decreases |steps|
  {
    if steps == [] then Some(s)
    else match Next(s, steps[0])
      case None => None
      case Some(t) => RunFrom(t, steps[1..])
  }

  lemma {:induction false} RunContinues(steps: seq<Step>, more: seq<Step>)
    requires Run(steps).Some?
    ensures Run(steps + more) == RunFrom(Run(steps).value, more)
    decreases |more|
  {
    hide Next;
    if more == [] {
      assert steps + more == steps;
    } else {
      var longer := steps + [more[0]];
      assert longer[..|steps|] == steps;
      assert Run(longer) == Next(Run(steps).value, more[0]);
      assert longer + more[1..] == steps + more;
      if Run(longer).Some? {
        RunContinues(longer, more[1..]);
      } else {
        NoRunAfter(longer, more[1..]);
      }
    }
  }

  lemma {:induction false} NoRunAfter(steps: seq<Step>, more: seq<Step>)
    requires Run(steps).None? && steps != []
    ensures Run(steps + more).None?
    decreases |more|
  {
    hide Next;
    if more == [] {
      assert steps + more == steps;
    } else {
      NoRunAfter(steps, more[..|more| - 1]);
      assert (steps + more)[..|steps + more| - 1] == steps + more[..|more| - 1];
    }
  }

  lemma StepFirst(s: State, step: Step, more: seq<Step>)
    requires Next(s, step).Some?
    ensures RunFrom(s, [step] + more) == RunFrom(Next(s, step).value, more)
  {
    hide Next;
    assert ([step] + more)[1..] == more;
  }

  lemma {:induction false} RunsJoin(s: State, first: seq<Step>, second: seq<Step>)
    requires RunFrom(s, first).Some?
    ensures RunFrom(s, first + second) == RunFrom(RunFrom(s, first).value, second)
    decreases |first|
  {
    hide Next;
    if first == [] {
      assert first + second == second;
    } else {
      assert (first + second)[1..] == first[1..] + second;
      RunsJoin(Next(s, first[0]).value, first[1..], second);
    }
  }

  function Refusal(h: nat): seq<Step> {
    [Arrive(h)] + ([ReadToken(h)] + ([Send(h)] + ([Reply(h, AuthenticationError)] + [])))
  }

  function Comparison(h: nat): seq<Step> {
    [Lock(h)] + ([Compare(h)] + [])
  }

  function Refresh(h: nat): seq<Step> {
    [Prepare(h, true)] + ([Serve(h, true)] + [])
  }

  /** A new request is refused with the current token. */
  lemma RefusalRuns(s: State, h: nat)
    requires s.writer.None? && h !in s.pcs
    ensures RunFrom(s, Refusal(h)).Some?
    ensures var t := RunFrom(s, Refusal(h)).value;
            && At(t, h, Rejected(s.session.access))
            && t == s.(pcs := t.pcs, trace := t.trace)
  {
    var s1 := Next(s, Arrive(h)).value;
    var s2 := Next(s1, ReadToken(h)).value;
    var s3 := Next(s2, Send(h)).value;
    var s4 := Next(s3, Reply(h, AuthenticationError)).value;
    hide RunFrom;
    StepFirst(s, Arrive(h), [ReadToken(h)] + ([Send(h)] + ([Reply(h, AuthenticationError)] + [])));
    StepFirst(s1, ReadToken(h), [Send(h)] + ([Reply(h, AuthenticationError)] + []));
    StepFirst(s2, Send(h), [Reply(h, AuthenticationError)] + []);
    StepFirst(s3, Reply(h, AuthenticationError), []);
    NoSteps(s4);
  }

  /** A request refused with the current token gets to refresh the session. */
  lemma ComparisonRuns(s: State, h: nat)
    requires s.writer.None? && At(s, h, Rejected(s.session.access))
    ensures RunFrom(s, Comparison(h)).Some?
    ensures var t := RunFrom(s, Comparison(h)).value;
            && At(t, h, Preparing(s.session.access))
            && t == s.(pcs := t.pcs, writer := Some(h))
  {
    var s1 := Next(s, Lock(h)).value;
    var s2 := Next(s1, Compare(h)).value;
    hide RunFrom;
    StepFirst(s, Lock(h), [Compare(h)] + []);
    StepFirst(s1, Compare(h), []);
    NoSteps(s2);
  }

  /** And the coordinator rotates it. */
  lemma RefreshRuns(s: State, h: nat)
    requires At(s, h, Preparing(s.session.access)) && s.session.refresh == s.serverRefresh
    ensures RunFrom(s, Refresh(h)).Some?
    ensures var t := RunFrom(s, Refresh(h)).value;
            && At(t, h, Answered(s.session.access, Session(s.issued, s.issued + 1)))
            && t.session == s.session && t.rotationLost == s.rotationLost
  {
    var s1 := Next(s, Prepare(h, true)).value;
    var s2 := Next(s1, Serve(h, true)).value;
    hide RunFrom;
    StepFirst(s, Prepare(h, true), [Serve(h, true)] + []);
    StepFirst(s1, Serve(h, true), []);
    NoSteps(s2);
  }

  lemma NoSteps(s: State)
    ensures RunFrom(s, []) == Some(s)
  {
  }

  predicate At(s: State, h: nat, pc: Pc) {
    h in s.pcs && s.pcs[h] == pc
  }

  function Rotation(h: nat): seq<Step> {
    Refusal(h) + (Comparison(h) + Refresh(h))
  }

  lemma RotationRuns(s: State, h: nat)
    requires s.writer.None? && h !in s.pcs && s.session.refresh == s.serverRefresh
    ensures RunFrom(s, Rotation(h)).Some?
    ensures var t := RunFrom(s, Rotation(h)).value;
            && At(t, h, Answered(s.session.access, Session(s.issued, s.issued + 1)))
            && t.session == s.session && t.rotationLost == s.rotationLost
  {
    hide RunFrom, Refusal, Comparison, Refresh;
    RefusalRuns(s, h);
    var refused := RunFrom(s, Refusal(h)).value;
    ComparisonRuns(refused, h);
    RefreshRuns(RunFrom(refused, Comparison(h)).value, h);
    RunsJoin(refused, Comparison(h), Refresh(h));
    RunsJoin(s, Refusal(h), Comparison(h) + Refresh(h));
  }

  lemma {:induction false} UpperBound(keys: set<nat>) returns (n: nat)
    ensures forall k :: k in keys ==> k < n
    decreases |keys|
  {
    n := 0;
    if keys != {} {
      var k :| k in keys;
      var m := UpperBound(keys - {k});
      n := if k < m then m else k + 1;
      assert forall j :: j in keys ==> j == k || j in keys - {k};
    }
  }

  lemma InstallRenews(s: State, h: nat)
    requires TokensOk(s) && h in s.pcs && s.pcs[h].Answered?
    ensures RunFrom(s, [Install(h)]).Some? && RunFrom(s, [Install(h)]).value.session != s.session
  {
    assert TokenOk(s, s.pcs[h]);
    hide TokensOk;
    StepFirst(s, Install(h), []);
    assert [Install(h)] + [] == [Install(h)];
  }

  lemma {:induction false} RunFromKeepsInv(s: State, steps: seq<Step>)
    requires Inv(s) && RunFrom(s, steps).Some?
    ensures Inv(RunFrom(s, steps).value)
    decreases |steps|
  {
    hide Inv, Next;
    if steps != [] {
      StepKeepsInv(s, steps[0]);
      RunFromKeepsInv(Next(s, steps[0]).value, steps[1..]);
    }
  }

  lemma RenewsWhenFree(s: State) returns (steps: seq<Step>)
    requires Inv(s) && s.writer.None? && !s.rotationLost
    ensures RunFrom(s, steps).Some? && RunFrom(s, steps).value.session != s.session
  {
    hide RunFrom, SendsOk, ReplacementsOk, PlacesOk, LockOk, Rotation;
    var h := UpperBound(s.pcs.Keys);
    RotationRuns(s, h);
    var t := RunFrom(s, Rotation(h)).value;
    RunFromKeepsInv(s, Rotation(h));
    InstallRenews(t, h);
    RunsJoin(s, Rotation(h), [Install(h)]);
    steps := Rotation(h) + [Install(h)];
  }

  lemma DropFrees(s: State, w: nat)
    requires LockOk(s) && s.writer == Some(w) && w in s.pcs && !s.pcs[w].Answered?
    ensures Next(s, Drop(w)).Some?
    ensures var t := Next(s, Drop(w)).value;
            t.writer.None? && t.session == s.session && t.rotationLost == s.rotationLost
  {
  }

  lemma Renews(s: State) returns (steps: seq<Step>)
    requires Inv(s) && !s.rotationLost
    ensures RunFrom(s, steps).Some? && RunFrom(s, steps).value.session != s.session
  {
    hide RunFrom, Next, SendsOk, ReplacementsOk, PlacesOk, SessionOk;
    if s.writer.None? {
      steps := RenewsWhenFree(s);
    } else {
      var w := s.writer.value;
      if s.pcs[w].Answered? {
        InstallRenews(s, w);
        steps := [Install(w)];
      } else {
        DropFrees(s, w);
        StepKeepsInv(s, Drop(w));
        var more := RenewsWhenFree(Next(s, Drop(w)).value);
        StepFirst(s, Drop(w), more);
        steps := [Drop(w)] + more;
      }
    }
  }

  /** A session can still be renewed if and only if no rotation has been lost: after any other run some
      continuation replaces it. */
  lemma RenewableIff(steps: seq<Step>)
    requires Run(steps).Some?
    ensures (exists more :: Run(steps + more).Some? && Run(steps + more).value.session != Run(steps).value.session)
            <==> !Run(steps).value.rotationLost
  {
    hide Run, RunFrom, Inv;
    if Run(steps).value.rotationLost {
      forall more | Run(steps + more).Some? ensures Run(steps + more).value.session == Run(steps).value.session {
        assert (steps + more)[..|steps|] == steps;
        LostRotationIsFinal(steps + more, |steps|);
      }
    } else {
      RunKeepsInv(steps);
      var more := Renews(Run(steps).value);
      RunContinues(steps, more);
    }
  }

  lemma LossRuns(s: State, h: nat)
    requires h in s.pcs && s.pcs[h].Answered?
    ensures RunFrom(s, [LoseResponse(h)]).Some? && RunFrom(s, [LoseResponse(h)]).value.rotationLost
  {
    StepFirst(s, LoseResponse(h), []);
    assert [LoseResponse(h)] + [] == [LoseResponse(h)];
  }

  /** Rotations do get lost: one request, refused, whose refresh the coordinator answers in vain. */
  lemma RotationCanBeLost()
    ensures Run(Rotation(1) + [LoseResponse(1)]).Some? && Run(Rotation(1) + [LoseResponse(1)]).value.rotationLost
  {
    hide Run, RunFrom, Rotation;
    NothingRun();
    RotationRuns(INITIAL, 1);
    var lost := Rotation(1) + [LoseResponse(1)];
    LossRuns(RunFrom(INITIAL, Rotation(1)).value, 1);
    RunsJoin(INITIAL, Rotation(1), [LoseResponse(1)]);
    RunContinues([], lost);
    assert [] + lost == lost;
  }

  lemma NothingRun()
    ensures Run([]) == Some(INITIAL)
  {
  }

  /** A request whose token was rejected while another request replaced it goes on with the new session
      and refreshes nothing. */
  lemma LaterRejectionReusesSession(s: State, h: nat)
    requires Inv(s) && h in s.pcs && s.pcs[h].Locked? && s.pcs[h].token != s.session.access
    ensures var t := Next(s, Compare(h)).value;
            && t.trace == s.trace && t.session == s.session
            && Next(t, ReadToken(h)).Some?
            && Next(t, ReadToken(h)).value.pcs[h] == Holding(s.session.access, Some(s.pcs[h].token))
            && s.pcs[h].token < s.session.access
  {
    hide SendsOk, ReplacementsOk, SessionOk;
    assert TokenOk(s, s.pcs[h]);
  }
}
