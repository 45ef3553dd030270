/** The consumer's side of a streaming job: the pull-based event stream that the local proxy
    assembles from polls of the coordinator (crates/mindone-cli/src/quota.rs). Instants are
    milliseconds. */
module StreamRelay {
  import opened Wrappers
  import opened Text
  import opened StreamLog

  const JOB_WAIT_TIMEOUT: nat := 600_000
  const STREAM_KEEPALIVE_INTERVAL: nat := 15_000
  const STREAM_RECOVERY_TIMEOUT: nat := 30_000
  const READ_LIMIT: nat := 8

  const WAITED_TOO_LONG := "waited longer than 600 seconds"
  const NOT_RECOVERED := "the cursor could not be recovered within 30 seconds: "
  const NOT_COMPLETED := "the job did not complete"
  const RETRIED := "the job broke its single attempt"

  datatype Terminal = Done | Error(message: string)

  datatype Frame =
    | DataFrame(event: Event)
    | DoneFrame
    | ErrorFrame(message: string)
    | KeepAlive
  {
    predicate IsTerminal() {
      DoneFrame? || ErrorFrame?
    }
  }

  /** What a poll from a cursor comes back with. */
  datatype Reply = Unreachable(message: string) | Undecodable(message: string) | Answer(response: ReadResponse)

  /** One poll: when it starts, how the coordinator replies to whatever cursor it is given, and when
      the reply has arrived. */
  datatype Exchange = Exchange(now: nat, reply: nat -> Reply, after: nat)

  datatype Relay = Relay(
    nextSequence: nat,
    pending: seq<Event>,
    terminal: Option<Terminal>,
    finished: bool,
    deadline: nat,
    lastOutput: nat,
    failureSince: Option<nat>)
  {
    predicate HasOutput() {
      pending != [] || terminal.Some?
    }
  }

  function Started(now: nat): Relay {
    Relay(0, [], None, false, now + JOB_WAIT_TIMEOUT, now, None)
  }

  // ---- one chunk ----

  datatype Chunk = Ended | Emitted(frame: Frame) | Waiting

  function TerminalFrame(terminal: Terminal): Frame {
    match terminal
    case Done => DoneFrame
    case Error(message) => ErrorFrame(message)
  }

  function Emit(s: Relay, clock: nat): (Frame, Relay)
    requires s.HasOutput()
  {
    if s.pending != [] then (DataFrame(s.pending[0]), s.(pending := s.pending[1..], lastOutput := clock))
    else (TerminalFrame(s.terminal.value), s.(terminal := None, finished := true))
  }

  /** The terminal frame that a job status leads to. */
  function Verdict(response: ReadResponse): Option<Terminal> {
    match response.status
    case Succeeded => if response.hasMore then None else Some(Done)
    case Failed => Some(Error(if response.errorMessage.Some? then response.errorMessage.value else NOT_COMPLETED))
    case Cancelled => Some(Error(if response.errorMessage.Some? then response.errorMessage.value else NOT_COMPLETED))
    case Retry => Some(Error(RETRIED))
    case Queued => None
    case Leased => None
  }

  /** What one poll does to a stream with nothing to emit. */
  function Absorb(s: Relay, e: Exchange): Relay {
    if e.now >= s.deadline then s.(terminal := Some(Error(WAITED_TOO_LONG)))
    else
      match e.reply(s.nextSequence)
      case Answer(response) =>
        s.(failureSince := None,
           nextSequence := response.nextSequence,
           pending := s.pending + response.events,
           terminal := if Verdict(response).Some? then Verdict(response) else s.terminal)
      case Undecodable(message) => s.(failureSince := None, terminal := Some(Error(message)))
      case Unreachable(message) =>
        var since := if s.failureSince.Some? then s.failureSince.value else e.now;
        s.(failureSince := Some(since),
           terminal := if e.now >= since + STREAM_RECOVERY_TIMEOUT then Some(Error(NOT_RECOVERED + message)) else s.terminal)
  }

  /** The next chunk, the stream after it, and the polls that are still to come; `Waiting` when the
      polls run out before there is anything to emit. */
  function NextChunk(s: Relay, clock: nat, polls: seq<Exchange>): (r: (Chunk, Relay, seq<Exchange>))
    ensures |r.2| <= |polls|
    decreases |polls|
  {
    if s.finished then (Ended, s, polls)
    else if s.HasOutput() then (Emitted(Emit(s, clock).0), Emit(s, clock).1, polls)
    else if polls == [] then (Waiting, s, polls)
    else
      var t := Absorb(s, polls[0]);
      if t.HasOutput() then NextChunk(t, polls[0].after, polls[1..])
      else if polls[0].now >= t.lastOutput + STREAM_KEEPALIVE_INTERVAL then
        (Emitted(KeepAlive), t.(lastOutput := polls[0].now), polls[1..])
      else NextChunk(t, polls[0].after, polls[1..])
  }

  lemma ChunkUnfolds(s: Relay, clock: nat, polls: seq<Exchange>)
    requires !s.finished
    ensures s.HasOutput() ==> NextChunk(s, clock, polls) == (Emitted(Emit(s, clock).0), Emit(s, clock).1, polls)
    ensures !s.HasOutput() && polls == [] ==> NextChunk(s, clock, polls) == (Waiting, s, polls)
    ensures !s.HasOutput() && polls != [] ==>
              var e, t := polls[0], Absorb(s, polls[0]);
              NextChunk(s, clock, polls) ==
                if !t.HasOutput() && e.now >= t.lastOutput + STREAM_KEEPALIVE_INTERVAL
                then (Emitted(KeepAlive), t.(lastOutput := e.now), polls[1..])
                else NextChunk(t, e.after, polls[1..])
  {
  }

  class ProxyStream {
    var nextSequence: nat
    var pending: seq<Event>
    var terminal: Option<Terminal>
    var finished: bool
    const deadline: nat
    var lastOutput: nat
    var failureSince: Option<nat>

    function Value(): Relay
      reads this
    {
      Relay(nextSequence, pending, terminal, finished, deadline, lastOutput, failureSince)
    }

    constructor (now: nat)
      ensures Value() == Started(now)
    {
      nextSequence, pending, terminal, finished := 0, [], None, false;
      deadline, lastOutput, failureSince := now + JOB_WAIT_TIMEOUT, now, None;
    }

    /** `next_proxy_sse_chunk`. */
    method Next(clock: nat, polls: seq<Exchange>) returns (chunk: Chunk, rest: seq<Exchange>)
      modifies this
      ensures (chunk, Value(), rest) == NextChunk(old(Value()), clock, polls)
    {
      if finished {
        return Ended, polls;
      }
      rest := polls;
      var instant := clock;
      ghost var result := NextChunk(Value(), clock, polls);
      hide NextChunk;
      while true
        invariant !finished
        invariant |rest| <= |polls|
        invariant NextChunk(Value(), instant, rest) == result
        decreases |rest|, if pending == [] && terminal.None? then 0 else 1
      {
        ChunkUnfolds(Value(), instant, rest);
        if pending != [] {
          var event := pending[0];
          pending := pending[1..];
          lastOutput := instant;
          return Emitted(DataFrame(event)), rest;
        }
        if terminal.Some? {
          var last := terminal.value;
          terminal := None;
          finished := true;
          return Emitted(TerminalFrame(last)), rest;
        }
        if rest == [] {
          return Waiting, rest;
        }
        var poll := rest[0];
        ghost var before := Value();
        rest := rest[1..];
        instant := poll.after;
        if poll.now >= deadline {
          terminal := Some(Error(WAITED_TOO_LONG));
          continue;
        }
        match poll.reply(nextSequence) {
          case Answer(response) =>
            failureSince := None;
            nextSequence := response.nextSequence;
            pending := pending + response.events;
            match response.status {
              case Succeeded =>
                if !response.hasMore {
                  terminal := Some(Done);
                }
              case Failed => terminal := Verdict(response);
              case Cancelled => terminal := Verdict(response);
              case Retry => terminal := Some(Error(RETRIED));
              case Queued =>
              case Leased =>
            }
            if pending != [] || terminal.Some? {
              continue;
            }
          case Undecodable(message) =>
            failureSince := None;
            terminal := Some(Error(message));
            continue;
          case Unreachable(message) =>
            if failureSince.None? {
              failureSince := Some(poll.now);
            }
            if poll.now >= failureSince.value + STREAM_RECOVERY_TIMEOUT {
              terminal := Some(Error(NOT_RECOVERED + message));
                continue;
            }
        }
        assert Value() == Absorb(before, poll);
        if poll.now >= lastOutput + STREAM_KEEPALIVE_INTERVAL {
          lastOutput := poll.now;
          return Emitted(KeepAlive), rest;
        }
      }
    }
  }

  // ---- whole streams ----

  /** The frames a consumer receives that asks at the given instants, while the polls last. */
  function Relayed(s: Relay, asks: seq<nat>, polls: seq<Exchange>): seq<Frame>
    decreases |asks|
  {
    if asks == [] then []
    else
      var (chunk, t, rest) := NextChunk(s, asks[0], polls);
      match chunk
      case Emitted(frame) => [frame] + Relayed(t, asks[1..], rest)
      case Ended => []
      case Waiting => []
  }

  function DataOf(frames: seq<Frame>): seq<Event> {
    if frames == [] then []
    else (match frames[0] case DataFrame(event) => [event] case _ => []) + DataOf(frames[1..])
  }

  ghost predicate HonestReply(log: seq<Event>, succeeded: bool, reply: nat -> Reply) {
    forall from: nat :: from <= |log| && reply(from).Answer? ==> Honest(log, succeeded, from, reply(from).response)
  }

  ghost predicate HonestPolls(log: seq<Event>, succeeded: bool, polls: seq<Exchange>) {
    forall i :: 0 <= i < |polls| ==> HonestReply(log, succeeded, polls[i].reply)
  }

  /** What has been delivered and what is pending make up the log to the cursor. */
  predicate OnLog(s: Relay, log: seq<Event>, succeeded: bool, delivered: seq<Event>) {
    && s.nextSequence <= |log|
    && delivered + s.pending == log[..s.nextSequence]
    && (s.terminal == Some(Done) ==> succeeded && s.nextSequence == |log|)
    && (s.finished ==> !s.HasOutput())
  }

  lemma AbsorbStaysOnLog(s: Relay, e: Exchange, log: seq<Event>, succeeded: bool, delivered: seq<Event>)
    requires OnLog(s, log, succeeded, delivered) && !s.finished && HonestReply(log, succeeded, e.reply)
    ensures OnLog(Absorb(s, e), log, succeeded, delivered) && !Absorb(s, e).finished
  {
    if e.now < s.deadline && e.reply(s.nextSequence).Answer? {
      var r := e.reply(s.nextSequence).response;
      assert Honest(log, succeeded, s.nextSequence, r);
      assert log[..s.nextSequence] + log[s.nextSequence..r.nextSequence] == log[..r.nextSequence];
      assert delivered + (s.pending + r.events) == (delivered + s.pending) + r.events;
    }
  }

  lemma EmitStaysOnLog(s: Relay, clock: nat, log: seq<Event>, succeeded: bool, delivered: seq<Event>)
    requires OnLog(s, log, succeeded, delivered) && s.HasOutput()
    ensures var (frame, t) := Emit(s, clock);
            && OnLog(t, log, succeeded, delivered + DataOf([frame]))
            && (frame.IsTerminal() <==> t.finished)
            && (frame.DoneFrame? ==> succeeded && delivered == log)
  {
    var (frame, t) := Emit(s, clock);
    if s.pending != [] {
      assert DataOf([frame]) == [s.pending[0]];
      assert delivered + s.pending == (delivered + [s.pending[0]]) + s.pending[1..];
    } else {
      assert delivered + [] == delivered;
      assert log[..|log|] == log;
    }
  }

  lemma {:induction false} ChunkStaysOnLog(s: Relay, clock: nat, polls: seq<Exchange>,
                                           log: seq<Event>, succeeded: bool, delivered: seq<Event>)
    requires OnLog(s, log, succeeded, delivered) && HonestPolls(log, succeeded, polls)
    ensures var (chunk, t, rest) := NextChunk(s, clock, polls);
            && HonestPolls(log, succeeded, rest)
            && (chunk.Emitted? ==>
                  && !s.finished
                  && OnLog(t, log, succeeded, delivered + DataOf([chunk.frame]))
                  && (chunk.frame.IsTerminal() <==> t.finished)
                  && (chunk.frame.DoneFrame? ==> succeeded && delivered == log))
    decreases |polls|
  {
    hide OnLog, Absorb, HonestReply;
    if s.finished {
    } else if s.HasOutput() {
      hide Emit;
      EmitStaysOnLog(s, clock, log, succeeded, delivered);
    } else if polls != [] {
      AbsorbStaysOnLog(s, polls[0], log, succeeded, delivered);
      ChunkStaysOnLog(Absorb(s, polls[0]), polls[0].after, polls[1..], log, succeeded, delivered);
      assert delivered + DataOf([KeepAlive]) == delivered;
      OnLogIgnoresClock(Absorb(s, polls[0]), polls[0].now, log, succeeded, delivered);
    }
  }

  lemma OnLogIgnoresClock(s: Relay, now: nat, log: seq<Event>, succeeded: bool, delivered: seq<Event>)
    requires OnLog(s, log, succeeded, delivered)
    ensures OnLog(s.(lastOutput := now), log, succeeded, delivered)
  {
  }

  /** From any stream that is on the log: what follows continues the log without gap or repetition,
      success is announced only after all of a log that belongs to a succeeded job, and nothing
      follows a terminal frame. */
  lemma {:induction false} RelayContinues(s: Relay, asks: seq<nat>, polls: seq<Exchange>,
                                          log: seq<Event>, succeeded: bool, delivered: seq<Event>)
    requires OnLog(s, log, succeeded, delivered) && HonestPolls(log, succeeded, polls)
    ensures var frames := Relayed(s, asks, polls);
            && delivered + DataOf(frames) <= log
            && (DoneFrame in frames ==> succeeded && delivered + DataOf(frames) == log)
            && (forall i :: 0 <= i < |frames| && frames[i].IsTerminal() ==> i == |frames| - 1)
    decreases |asks|
  {
    var frames := Relayed(s, asks, polls);
    if asks != [] {
      var (chunk, t, rest) := NextChunk(s, asks[0], polls);
      ChunkStaysOnLog(s, asks[0], polls, log, succeeded, delivered);
      if chunk.Emitted? {
        hide NextChunk, OnLog, HonestPolls;
        var next := delivered + DataOf([chunk.frame]);
        RelayContinues(t, asks[1..], rest, log, succeeded, next);
        var more := Relayed(t, asks[1..], rest);
        assert frames == [chunk.frame] + more;
        if t.finished {
          FinishedIsSilent(t, asks[1..], rest);
        }
        hide Relayed;
        OneFrameMore(chunk.frame, more, log, succeeded, delivered);
      } else {
        OnLogPrefix(s, log, succeeded, delivered);
      }
    } else {
      OnLogPrefix(s, log, succeeded, delivered);
    }
  }

  /** What holds of the frames after the next one holds with it in front. */
  lemma OneFrameMore(frame: Frame, more: seq<Frame>, log: seq<Event>, succeeded: bool, delivered: seq<Event>)
    requires var next := delivered + DataOf([frame]);
             && next + DataOf(more) <= log
             && (DoneFrame in more ==> succeeded && next + DataOf(more) == log)
    requires forall i :: 0 <= i < |more| && more[i].IsTerminal() ==> i == |more| - 1
    requires frame.IsTerminal() ==> more == []
    requires frame.DoneFrame? ==> succeeded && delivered == log
    ensures var frames := [frame] + more;
            && delivered + DataOf(frames) <= log
            && (DoneFrame in frames ==> succeeded && delivered + DataOf(frames) == log)
            && (forall i :: 0 <= i < |frames| && frames[i].IsTerminal() ==> i == |frames| - 1)
  {
    DataOfSplit(frame, more);
    hide DataOf;
    assert delivered + DataOf([frame] + more) == delivered + DataOf([frame]) + DataOf(more);
    if frame.DoneFrame? {
      EmptyData();
      assert delivered + [] + [] == delivered;
    }
  }

  lemma EmptyData()
    ensures DataOf([]) == []
  {
  }

  lemma OnLogPrefix(s: Relay, log: seq<Event>, succeeded: bool, delivered: seq<Event>)
    requires OnLog(s, log, succeeded, delivered)
    ensures delivered + DataOf([]) <= log
  {
    assert delivered + s.pending <= log;
    assert delivered == (delivered + s.pending)[..|delivered|];
  }

  lemma DataOfSplit(frame: Frame, more: seq<Frame>)
    ensures DataOf([frame] + more) == DataOf([frame]) + DataOf(more)
    ensures !frame.DataFrame? ==> DataOf([frame]) == []
  {
    assert ([frame] + more)[1..] == more;
  }

  lemma FinishedIsSilent(s: Relay, asks: seq<nat>, polls: seq<Exchange>)
    requires s.finished
    ensures Relayed(s, asks, polls) == []
  {
  }

  // ---- end to end ----

  /** How a poll fares on the way to the coordinator and back; a served one is answered from the job
      as its three queries find it. */
  datatype Poll =
    | Lost(now: nat, after: nat, message: string)
    | Garbled(now: nat, after: nat, message: string)
    | Served(now: nat, after: nat, t1: nat, t2: nat, t3: nat)

  predicate InRun(steps: seq<Step>, poll: Poll) {
    poll.Served? ==> poll.t1 <= poll.t2 <= poll.t3 <= |steps|
  }

  function Serve(steps: seq<Step>, poll: Poll, from: nat): Reply
    requires InRun(steps, poll)
  {
    match poll
    case Lost(_, _, message) => Unreachable(message)
    case Garbled(_, _, message) => Undecodable(message)
    case Served(_, _, t1, t2, t3) =>
      var read := Read(JobAfter(steps[..t1]), JobAfter(steps[..t2]), JobAfter(steps[..t3]), from, READ_LIMIT);
      if read.Some? then Answer(read.value) else Unreachable("the coordinator refused the read")
  }

  function Replies(steps: seq<Step>, poll: Poll): nat -> Reply
    requires InRun(steps, poll)
  {
    (from: nat) => Serve(steps, poll, from)
  }

  function ExchangeOf(steps: seq<Step>, poll: Poll): Exchange
    requires InRun(steps, poll)
  {
    Exchange(poll.now, Replies(steps, poll), poll.after)
  }

  predicate AllInRun(steps: seq<Step>, polls: seq<Poll>) {
    forall i :: 0 <= i < |polls| ==> InRun(steps, polls[i])
  }

  function Exchanges(steps: seq<Step>, polls: seq<Poll>): (r: seq<Exchange>)
    requires AllInRun(steps, polls)
    ensures |r| == |polls| && forall i :: 0 <= i < |polls| ==> r[i] == ExchangeOf(steps, polls[i])
  {
    seq(|polls|, i requires 0 <= i < |polls| => ExchangeOf(steps, polls[i]))
  }

  lemma StartsOnLog(start: nat, log: seq<Event>, succeeded: bool)
    ensures OnLog(Started(start), log, succeeded, [])
  {
  }

  lemma ServedHonestly(steps: seq<Step>, polls: seq<Poll>)
    requires AllInRun(steps, polls)
    ensures HonestPolls(Contents(JobAfter(steps).rows), JobAfter(steps).status.Succeeded?, Exchanges(steps, polls))
  {
    hide JobAfter, Contents, Read, Honest;
    var log, exchanges := Contents(JobAfter(steps).rows), Exchanges(steps, polls);
    forall i | 0 <= i < |exchanges|
      ensures HonestReply(log, JobAfter(steps).status.Succeeded?, exchanges[i].reply)
    {
      forall from: nat | from <= |log| && exchanges[i].reply(from).Answer?
        ensures Honest(log, JobAfter(steps).status.Succeeded?, from, exchanges[i].reply(from).response)
      {
        ReadsAreHonest(steps, polls[i].t1, polls[i].t2, polls[i].t3, from, READ_LIMIT);
      }
    }
  }

  /** Whatever the node appends, however often it repeats itself, however the job ends, whichever polls
      get lost or garbled and however reads overlap with appends: the consumer receives the events
      numbered 0, 1, 2, ... of the job's log, the success frame only after the whole log of a succeeded
      job, and nothing after a terminal frame. */
  lemma StreamIsFaithful(steps: seq<Step>, start: nat, asks: seq<nat>, polls: seq<Poll>)
    requires AllInRun(steps, polls)
    ensures var frames, job := Relayed(Started(start), asks, Exchanges(steps, polls)), JobAfter(steps);
            && DataOf(frames) <= Contents(job.rows)
            && (forall i :: 0 <= i < |DataOf(frames)| ==> DataOf(frames)[i].sequence == i)
            && (DoneFrame in frames ==> job.status.Succeeded? && DataOf(frames) == Contents(job.rows))
            && (forall i :: 0 <= i < |frames| && frames[i].IsTerminal() ==> i == |frames| - 1)
  {
    hide *;
    var job := JobAfter(steps);
    LogIsNumbered(steps);
    ServedHonestly(steps, polls);
    FollowsLog(start, asks, Exchanges(steps, polls), Contents(job.rows), job.status.Succeeded?);
    PrefixIsNumbered(DataOf(Relayed(Started(start), asks, Exchanges(steps, polls))), Contents(job.rows));
  }

  lemma LogIsNumbered(steps: seq<Step>)
    ensures var log := Contents(JobAfter(steps).rows); forall i :: 0 <= i < |log| ==> log[i].sequence == i
  {
    RunKeepsJobOk(steps);
    hide JobAfter, Contents, LogOk;
    ContentsOfLog(JobAfter(steps).rows, 0);
  }

  lemma PrefixIsNumbered(part: seq<Event>, log: seq<Event>)
    requires part <= log && forall i :: 0 <= i < |log| ==> log[i].sequence == i
    ensures forall i :: 0 <= i < |part| ==> part[i].sequence == i
  {
  }

  lemma FollowsLog(start: nat, asks: seq<nat>, polls: seq<Exchange>, log: seq<Event>, succeeded: bool)
    requires HonestPolls(log, succeeded, polls)
    ensures var frames := Relayed(Started(start), asks, polls);
            && DataOf(frames) <= log
            && (DoneFrame in frames ==> succeeded && DataOf(frames) == log)
            && (forall i :: 0 <= i < |frames| && frames[i].IsTerminal() ==> i == |frames| - 1)
  {
    hide *;
    StartsOnLog(start, log, succeeded);
    RelayContinues(Started(start), asks, polls, log, succeeded, []);
    var data := DataOf(Relayed(Started(start), asks, polls));
    assert [] + data == data;
  }

  // ---- outages ----

  /** The poll fails at every cursor the consumer can hold. */
  ghost predicate Down(e: Exchange) {
    forall from: nat :: from <= MAX_EVENTS ==> e.reply(from).Unreachable?
  }

  predicate Promising(response: ReadResponse, goal: Terminal) {
    response.nextSequence <= MAX_EVENTS && (Verdict(response).None? || Verdict(response) == Some(goal))
  }

  /** The poll is answered, without a verdict or with `goal`, at every cursor the consumer can hold. */
  ghost predicate Live(e: Exchange, goal: Terminal) {
    forall from: nat :: from <= MAX_EVENTS ==> e.reply(from).Answer? && Promising(e.reply(from).response, goal)
  }

  /** The polls up to `j` all find the coordinator down. */
  ghost predicate DownThrough(polls: seq<Exchange>, i: nat, j: nat)
    requires j < |polls|
  {
    forall k :: i <= k <= j ==> Down(polls[k])
  }

  /** No outage lasts to a poll 30 seconds after its first failure. */
  ghost predicate ShortOutages(polls: seq<Exchange>) {
    forall i: nat, j: nat ::
      i <= j < |polls| && DownThrough(polls, i, j) ==> polls[j].now < polls[i].now + STREAM_RECOVERY_TIMEOUT
  }

  /** The outage under way, if any, is over before its 30 seconds are. */
  ghost predicate OutageEnds(s: Relay, polls: seq<Exchange>) {
    s.failureSince.Some? ==>
      forall j: nat ::
        j < |polls| && DownThrough(polls, 0, j) ==> polls[j].now < s.failureSince.value + STREAM_RECOVERY_TIMEOUT
  }

  /** No terminal frame but `goal` is in sight. */
  ghost predicate Healthy(s: Relay, polls: seq<Exchange>, goal: Terminal) {
    && (forall i :: 0 <= i < |polls| ==> polls[i].now < s.deadline && (Down(polls[i]) || Live(polls[i], goal)))
    && ShortOutages(polls)
    && OutageEnds(s, polls)
    && s.nextSequence <= MAX_EVENTS
    && (s.terminal.None? || s.terminal == Some(goal))
  }

  lemma TailIsHealthy(s: Relay, polls: seq<Exchange>, goal: Terminal)
    requires Healthy(s, polls, goal) && polls != [] && !s.HasOutput()
    ensures Healthy(Absorb(s, polls[0]), polls[1..], goal)
  {
    hide Down, Live;
    var t, rest := Absorb(s, polls[0]), polls[1..];
    assert forall i :: 0 <= i < |rest| ==> rest[i] == polls[i + 1];
    forall i: nat, j: nat | i <= j < |rest| && DownThrough(rest, i, j)
      ensures rest[j].now < rest[i].now + STREAM_RECOVERY_TIMEOUT
    {
      assert DownThrough(polls, i + 1, j + 1) by {
        forall k | i + 1 <= k <= j + 1 ensures Down(polls[k]) {
          assert Down(rest[k - 1]);
        }
      }
    }
    PollIsHealthy(s, polls[0], polls, goal);
    if t.failureSince.Some? {
      forall j: nat | j < |rest| && DownThrough(rest, 0, j)
        ensures rest[j].now < t.failureSince.value + STREAM_RECOVERY_TIMEOUT
      {
        assert DownThrough(polls, 0, j + 1) by {
          forall k | 0 <= k <= j + 1 ensures Down(polls[k]) {
            assert k > 0 ==> Down(rest[k - 1]);
          }
        }
      }
    }
  }

  lemma PollIsHealthy(s: Relay, e: Exchange, polls: seq<Exchange>, goal: Terminal)
    requires Healthy(s, polls, goal) && polls != [] && e == polls[0] && !s.HasOutput()
    ensures var t := Absorb(s, e);
            && t.deadline == s.deadline && t.nextSequence <= MAX_EVENTS
            && (t.terminal.None? || t.terminal == Some(goal))
            && (t.failureSince.Some? ==>
                  Down(e) && t.failureSince == if s.failureSince.Some? then s.failureSince else Some(e.now))
  {
    if Down(e) {
      assert e.reply(s.nextSequence).Unreachable?;
      assert DownThrough(polls, 0, 0);
    } else {
      assert Live(e, goal);
      assert e.reply(s.nextSequence).Answer?;
    }
  }

  lemma {:induction false} ChunkIsHealthy(s: Relay, clock: nat, polls: seq<Exchange>)
    requires Healthy(s, polls, Done)
    ensures var (chunk, t, rest) := NextChunk(s, clock, polls);
            chunk.Emitted? ==> !chunk.frame.ErrorFrame? && Healthy(t, rest, Done)
    decreases |polls|
  {
    hide Absorb, ShortOutages;
    if s.finished || s.HasOutput() {
    } else if polls != [] {
      TailIsHealthy(s, polls, Done);
      ChunkIsHealthy(Absorb(s, polls[0]), polls[0].after, polls[1..]);
    }
  }

  /** From any stream: while every poll before the deadline is answered without an error verdict or lost
      in an outage shorter than 30 seconds, no error frame is emitted. */
  lemma {:induction false} OutagesAreBridged(s: Relay, asks: seq<nat>, polls: seq<Exchange>)
    requires Healthy(s, polls, Done)
    ensures forall i :: 0 <= i < |Relayed(s, asks, polls)| ==> !Relayed(s, asks, polls)[i].ErrorFrame?
    decreases |asks|
  {
    hide Healthy, NextChunk;
    if asks != [] {
      var (chunk, t, rest) := NextChunk(s, asks[0], polls);
      ChunkIsHealthy(s, asks[0], polls);
      if chunk.Emitted? {
        OutagesAreBridged(t, asks[1..], rest);
      }
    }
  }

  /** What a consumer needs of a run: every poll falls before the deadline, is not garbled and, if
      served, finds a job that has neither failed nor been cancelled. */
  predicate Untroubled(steps: seq<Step>, start: nat, poll: Poll)
    requires InRun(steps, poll)
  {
    && poll.now < start + JOB_WAIT_TIMEOUT
    && !poll.Garbled?
    && (poll.Served? ==> !Broken(JobAfter(steps[..poll.t1])))
  }

  predicate AllUntroubled(steps: seq<Step>, start: nat, polls: seq<Poll>) {
    AllInRun(steps, polls) && forall i :: 0 <= i < |polls| ==> Untroubled(steps, start, polls[i])
  }

  ghost predicate LostThrough(polls: seq<Poll>, i: nat, j: nat)
    requires j < |polls|
  {
    forall k :: i <= k <= j ==> polls[k].Lost?
  }

  ghost predicate ShortLosses(polls: seq<Poll>) {
    forall i: nat, j: nat ::
      i <= j < |polls| && LostThrough(polls, i, j) ==> polls[j].now < polls[i].now + STREAM_RECOVERY_TIMEOUT
  }

  /** The error a broken job is reported with. */
  function FailureOf(job: Job): Terminal {
    Error(if job.errorMessage.Some? then job.errorMessage.value else NOT_COMPLETED)
  }

  /** The job ends with `goal`, as far as that can be told before. */
  predicate EndsWith(steps: seq<Step>, goal: Terminal) {
    goal.Done? || (Broken(JobAfter(steps)) && goal == FailureOf(JobAfter(steps)))
  }

  /** The poll can lead to no terminal frame but `goal`. */
  predicate Fits(steps: seq<Step>, start: nat, poll: Poll, goal: Terminal)
    requires InRun(steps, poll)
  {
    && poll.now < start + JOB_WAIT_TIMEOUT
    && !poll.Garbled?
    && (poll.Served? && Broken(JobAfter(steps[..poll.t1])) ==> goal.Error?)
  }

  lemma UnbrokenIsLive(steps: seq<Step>, start: nat, poll: Poll, goal: Terminal)
    requires InRun(steps, poll) && poll.Served? && !Broken(JobAfter(steps[..poll.t1])) && EndsWith(steps, goal)
    ensures Live(ExchangeOf(steps, poll), goal)
  {
    var e := ExchangeOf(steps, poll);
    PrefixIsEarlier(steps, poll.t1);
    hide JobAfter, Read;
    forall from: nat | from <= MAX_EVENTS ensures e.reply(from).Answer? && Promising(e.reply(from).response, goal) {
      ReadsAreServed(steps, poll.t1, poll.t2, poll.t3, from, READ_LIMIT);
    }
  }

  /** A poll that finds the job broken reports it at every cursor. */
  lemma BrokenIsReported(steps: seq<Step>, poll: Poll)
    requires InRun(steps, poll) && poll.Served? && Broken(JobAfter(steps[..poll.t1]))
    ensures Broken(JobAfter(steps))
    ensures var e := ExchangeOf(steps, poll);
            forall from: nat :: from <= MAX_EVENTS ==>
              && e.reply(from).Answer? && e.reply(from).response.nextSequence <= MAX_EVENTS
              && Verdict(e.reply(from).response) == Some(FailureOf(JobAfter(steps)))
  {
    var e := ExchangeOf(steps, poll);
    hide JobAfter, Read;
    BrokenReadsSaySo(steps, poll.t1, poll.t2, poll.t3, 0, READ_LIMIT);
    forall from: nat | from <= MAX_EVENTS
      ensures && e.reply(from).Answer? && e.reply(from).response.nextSequence <= MAX_EVENTS
              && Verdict(e.reply(from).response) == Some(FailureOf(JobAfter(steps)))
    {
      BrokenReadsSaySo(steps, poll.t1, poll.t2, poll.t3, from, READ_LIMIT);
    }
  }

  /** A served poll is live, a lost one is down, and none is both. */
  lemma PollsAreLiveOrDown(steps: seq<Step>, start: nat, poll: Poll, goal: Terminal)
    requires InRun(steps, poll) && Fits(steps, start, poll, goal) && EndsWith(steps, goal)
    ensures var e := ExchangeOf(steps, poll);
            (poll.Lost? ==> Down(e)) && (poll.Served? ==> Live(e, goal) && !Down(e))
  {
    hide JobAfter, Read, Broken;
    var e := ExchangeOf(steps, poll);
    if poll.Served? {
      if Broken(JobAfter(steps[..poll.t1])) {
        BrokenIsReported(steps, poll);
      } else {
        UnbrokenIsLive(steps, start, poll, goal);
      }
      assert e.reply(0).Answer?;
    }
  }

  lemma StartsHealthy(steps: seq<Step>, start: nat, polls: seq<Poll>, goal: Terminal)
    requires AllInRun(steps, polls) && EndsWith(steps, goal) && ShortLosses(polls)
    requires forall i :: 0 <= i < |polls| ==> Fits(steps, start, polls[i], goal)
    ensures Healthy(Started(start), Exchanges(steps, polls), goal)
  {
    hide Serve, EndsWith;
    var exchanges := Exchanges(steps, polls);
    forall i | 0 <= i < |exchanges|
      ensures exchanges[i].now == polls[i].now
      ensures if polls[i].Lost? then Down(exchanges[i]) else Live(exchanges[i], goal) && !Down(exchanges[i])
    {
      PollsAreLiveOrDown(steps, start, polls[i], goal);
    }
    hide Down, Live, Exchanges;
    forall i: nat, j: nat | i <= j < |exchanges| && DownThrough(exchanges, i, j)
      ensures exchanges[j].now < exchanges[i].now + STREAM_RECOVERY_TIMEOUT
    {
      assert LostThrough(polls, i, j) by {
        forall k | i <= k <= j ensures polls[k].Lost? {
          assert Down(exchanges[k]);
        }
      }
    }
  }

  /** End to end, a consumer does not notice outages: while the job has neither failed nor been
      cancelled, no poll is garbled or falls after the deadline, and every loss of connection is shorter
      than 30 seconds, the stream shows no error. */
  lemma OutagesAreUnnoticed(steps: seq<Step>, start: nat, asks: seq<nat>, polls: seq<Poll>)
    requires AllUntroubled(steps, start, polls) && ShortLosses(polls)
    ensures var frames := Relayed(Started(start), asks, Exchanges(steps, polls));
            forall i :: 0 <= i < |frames| ==> !frames[i].ErrorFrame?
  {
    hide JobAfter, Broken;
    StartsHealthy(steps, start, polls, Done);
    OutagesAreBridged(Started(start), asks, Exchanges(steps, polls));
  }

  /** The outage that ends a stream: down from its first poll to one 30 seconds after it began. */
  ghost predicate LongOutage(polls: seq<Exchange>, since: nat, j: nat) {
    j < |polls| && DownThrough(polls, 0, j) && polls[j].now >= since + STREAM_RECOVERY_TIMEOUT
  }

  function OutageStart(s: Relay, polls: seq<Exchange>): nat
    requires polls != []
  {
    if s.failureSince.Some? then s.failureSince.value else polls[0].now
  }

  /** The 30 seconds are exact: an outage that lasts that long ends every stream that waits, if the
      consumer asks often enough to get past the keep-alives. */
  lemma {:induction false} LongOutageEndsStream(s: Relay, asks: seq<nat>, polls: seq<Exchange>, j: nat)
    requires polls != [] && LongOutage(polls, OutageStart(s, polls), j) && |asks| > j + 1
    requires !s.finished && !s.HasOutput() && s.nextSequence <= MAX_EVENTS
    ensures exists i :: 0 <= i < |Relayed(s, asks, polls)| && Relayed(s, asks, polls)[i].ErrorFrame?
    decreases j
  {
    var t, rest := Absorb(s, polls[0]), polls[1..];
    assert Down(polls[0]);
    assert polls[0].reply(s.nextSequence).Unreachable?;
    if t.HasOutput() {
      ErrorIsNext(s, asks, polls);
    } else {
      assert j > 0;
      assert LongOutage(rest, OutageStart(t, rest), j - 1) by {
        forall k | 0 <= k <= j - 1 ensures Down(rest[k]) {
          assert Down(polls[k + 1]);
        }
      }
      if polls[0].now >= t.lastOutput + STREAM_KEEPALIVE_INTERVAL {
        var later := t.(lastOutput := polls[0].now);
        LongOutageEndsStream(later, asks[1..], rest, j - 1);
        var more := Relayed(later, asks[1..], rest);
        var i :| 0 <= i < |more| && more[i].ErrorFrame?;
        assert Relayed(s, asks, polls) == [KeepAlive] + more;
        assert Relayed(s, asks, polls)[i + 1].ErrorFrame?;
      } else {
        var asks' := [polls[0].after] + asks[1..];
        LongOutageEndsStream(t, asks', rest, j - 1);
        assert asks'[1..] == asks[1..];
        assert Relayed(s, asks, polls) == Relayed(t, asks', rest);
      }
    }
  }

  lemma ErrorIsNext(s: Relay, asks: seq<nat>, polls: seq<Exchange>)
    requires asks != [] && polls != [] && !s.finished && !s.HasOutput()
    requires var t := Absorb(s, polls[0]);
             t.pending == [] && t.terminal.Some? && t.terminal.value.Error? && !t.finished
    ensures Relayed(s, asks, polls) != [] && Relayed(s, asks, polls)[0].ErrorFrame?
  {
    hide Absorb;
    ChunkUnfolds(s, asks[0], polls);
    ChunkUnfolds(Absorb(s, polls[0]), polls[0].after, polls[1..]);
  }

  // ---- what a poll leads to ----

  predicate Idle(s: Relay) {
    !s.finished && !s.HasOutput()
  }

  function DataFrames(events: seq<Event>): seq<Frame> {
    if events == [] then [] else [DataFrame(events[0])] + DataFrames(events[1..])
  }

  /** What is pending is delivered, then the terminal frame, then nothing. */
  lemma {:induction false} PendingThenTerminal(s: Relay, asks: seq<nat>, polls: seq<Exchange>)
    requires !s.finished && s.terminal.Some? && |asks| > |s.pending|
    ensures Relayed(s, asks, polls) == DataFrames(s.pending) + [TerminalFrame(s.terminal.value)]
    decreases |s.pending|
  {
    ChunkUnfolds(s, asks[0], polls);
    var (frame, t) := Emit(s, asks[0]);
    if s.pending == [] {
      FinishedIsSilent(t, asks[1..], polls);
    } else {
      PendingThenTerminal(t, asks[1..], polls);
      assert [frame] + (DataFrames(t.pending) + [TerminalFrame(s.terminal.value)])
          == ([frame] + DataFrames(t.pending)) + [TerminalFrame(s.terminal.value)];
    }
  }

  lemma AbsorbedThenTerminal(s: Relay, asks: seq<nat>, polls: seq<Exchange>)
    requires Idle(s) && polls != [] && asks != []
    requires Absorb(s, polls[0]).terminal.Some? && |asks| > |Absorb(s, polls[0]).pending|
    ensures var t := Absorb(s, polls[0]);
            Relayed(s, asks, polls) == DataFrames(t.pending) + [TerminalFrame(t.terminal.value)]
  {
    var t, asks' := Absorb(s, polls[0]), [polls[0].after] + asks[1..];
    assert !t.finished;
    hide Absorb, TerminalFrame, DataFrames;
    ChunkUnfolds(s, asks[0], polls);
    PendingThenTerminal(t, asks', polls[1..]);
    assert asks'[1..] == asks[1..];
  }

  function Since(s: Relay, now: nat): nat {
    if s.failureSince.Some? then s.failureSince.value else now
  }

  /** How each poll that decides a stream is reported: the events it brings, then one terminal frame. */
  lemma OutcomeIsReported(s: Relay, asks: seq<nat>, polls: seq<Exchange>)
    requires Idle(s) && polls != [] && asks != []
    ensures var e, frames := polls[0], Relayed(s, asks, polls);
            if e.now >= s.deadline then frames == [ErrorFrame(WAITED_TOO_LONG)]
            else match e.reply(s.nextSequence)
              case Undecodable(message) => frames == [ErrorFrame(message)]
              case Unreachable(message) =>
                e.now >= Since(s, e.now) + 30_000 ==> frames == [ErrorFrame(NOT_RECOVERED + message)]
              case Answer(r) =>
                |asks| > |r.events| ==>
                  match r.status
                  case Succeeded => !r.hasMore ==> frames == DataFrames(r.events) + [DoneFrame]
                  case Failed =>
                    frames == DataFrames(r.events)
                              + [ErrorFrame(if r.errorMessage.Some? then r.errorMessage.value else NOT_COMPLETED)]
                  case Cancelled =>
                    frames == DataFrames(r.events)
                              + [ErrorFrame(if r.errorMessage.Some? then r.errorMessage.value else NOT_COMPLETED)]
                  case Retry => frames == DataFrames(r.events) + [ErrorFrame(RETRIED)]
                  case Queued => true
                  case Leased => true
  {
    var t := Absorb(s, polls[0]);
    if polls[0].reply(s.nextSequence).Answer? {
      assert s.pending + polls[0].reply(s.nextSequence).response.events == polls[0].reply(s.nextSequence).response.events;
    }
    if t.terminal.Some? && |asks| > |t.pending| {
      hide Relayed;
      AbsorbedThenTerminal(s, asks, polls);
    }
  }

  /** A poll that decides nothing and brings nothing. */
  predicate Quiet(s: Relay, e: Exchange) {
    && e.now < s.deadline
    && match e.reply(s.nextSequence)
       case Undecodable(_) => false
       case Unreachable(_) => e.now < Since(s, e.now) + 30_000
       case Answer(r) => r.events == [] && (r.status.Queued? || r.status.Leased? || (r.status.Succeeded? && r.hasMore))
  }

  /** Such a poll produces a keep-alive exactly if there was no output for 15 seconds. */
  lemma QuietPollsKeepAlive(s: Relay, clock: nat, e: Exchange)
    requires Idle(s) && Quiet(s, e)
    ensures var (chunk, t, rest) := NextChunk(s, clock, [e]);
            && rest == [] && Idle(t)
            && chunk == (if e.now >= s.lastOutput + 15_000 then Emitted(KeepAlive) else Waiting)
            && t.lastOutput == if e.now >= s.lastOutput + 15_000 then e.now else s.lastOutput
  {
    ChunkUnfolds(s, clock, [e]);
    ChunkUnfolds(Absorb(s, e), e.after, []);
    assert [e][1..] == [];
    hide NextChunk;
  }

  // ---- the end is announced ----

  /** Answers at a cursor of the log bring the events up to the next cursor. */
  ghost predicate Stepwise(e: Exchange, log: seq<Event>) {
    forall from: nat :: from <= |log| && e.reply(from).Answer? ==>
      var r := e.reply(from).response; from <= r.nextSequence <= |log| && |r.events| == r.nextSequence - from
  }

  /** The poll decides the stream at every cursor, or brings a full read of a succeeded job. */
  ghost predicate Concluding(e: Exchange, log: seq<Event>, goal: Terminal) {
    forall from: nat :: from <= |log| ==>
      && e.reply(from).Answer?
      && (Verdict(e.reply(from).response) == Some(goal)
          || (goal.Done? && e.reply(from).response.nextSequence == from + READ_LIMIT))
  }

  /** The full reads that are still to come before the end. */
  function Rounds(next: nat, log: seq<Event>, goal: Terminal): nat
    requires next <= |log|
  {
    if goal.Done? then (|log| - next) / READ_LIMIT else 0
  }

  /** The polls from `k` on are concluding, and enough of them are left. */
  ghost predicate Ready(s: Relay, polls: seq<Exchange>, k: nat, log: seq<Event>, goal: Terminal) {
    && Healthy(s, polls, goal) && !s.finished && k <= |polls|
    && |s.pending| <= s.nextSequence <= |log| <= MAX_EVENTS
    && (forall i :: 0 <= i < |polls| ==> Stepwise(polls[i], log))
    && (forall i :: k <= i < |polls| ==> Concluding(polls[i], log, goal))
    && (s.terminal.None? ==> |polls| - k > Rounds(s.nextSequence, log, goal))
  }

  /** The asks that suffice: one for each poll before the concluding ones, one for each event still to
      deliver, and one for the end. */
  function Need(s: Relay, k: nat, log: seq<Event>): int {
    k + |log| - (s.nextSequence - |s.pending|) + 1
  }

  lemma AbsorbIsReady(s: Relay, polls: seq<Exchange>, k: nat, log: seq<Event>, goal: Terminal)
    requires Ready(s, polls, k, log, goal) && !s.HasOutput()
    ensures polls != []
    ensures var t, k' := Absorb(s, polls[0]), if k > 0 then k - 1 else 0;
            && Ready(t, polls[1..], k', log, goal)
            && Need(t, k', log) == Need(s, k, log) - (if k > 0 then 1 else 0)
            && (k == 0 ==> t.HasOutput())
  {
    var e, t := polls[0], Absorb(s, polls[0]);
    TailIsHealthy(s, polls, goal);
    assert Stepwise(e, log) && (Down(e) || Live(e, goal));
    assert e.now < s.deadline;
    hide Healthy, Down;
    var reply := e.reply(s.nextSequence);
    if k == 0 {
      assert Concluding(e, log, goal);
      assert reply.Answer?;
    }
    if reply.Answer? {
      assert Stepwise(e, log);
    }
  }

  lemma OutputKeepsReady(s: Relay, t: Relay, polls: seq<Exchange>, k: nat, log: seq<Event>, goal: Terminal)
    requires Ready(s, polls, k, log, goal)
    requires t == s.(pending := t.pending, lastOutput := t.lastOutput) && |t.pending| <= |s.pending|
    ensures Ready(t, polls, k, log, goal)
  {
    hide Down, Live, ShortOutages, Stepwise, Concluding;
  }

  lemma {:induction false} ChunkAnnounces(s: Relay, clock: nat, polls: seq<Exchange>, k: nat, log: seq<Event>, goal: Terminal)
    returns (k': nat)
    requires Ready(s, polls, k, log, goal)
    ensures var (chunk, t, rest) := NextChunk(s, clock, polls);
            && chunk.Emitted?
            && (chunk.frame == TerminalFrame(goal)
                || (Ready(t, rest, k', log, goal) && Need(t, k', log) < Need(s, k, log)))
    decreases |polls|
  {
    hide Absorb, Healthy;
    ChunkUnfolds(s, clock, polls);
    k' := k;
    if s.pending != [] {
      OutputKeepsReady(s, Emit(s, clock).1, polls, k, log, goal);
    } else if s.terminal.None? {
      AbsorbIsReady(s, polls, k, log, goal);
      var t := Absorb(s, polls[0]);
      k' := if k > 0 then k - 1 else 0;
      if !t.HasOutput() && polls[0].now >= t.lastOutput + STREAM_KEEPALIVE_INTERVAL {
        OutputKeepsReady(t, t.(lastOutput := polls[0].now), polls[1..], k', log, goal);
      } else {
        k' := ChunkAnnounces(t, polls[0].after, polls[1..], k', log, goal);
      }
    } else {
      TerminalIsGoal(s, polls, k, log, goal);
    }
  }

  lemma TerminalIsGoal(s: Relay, polls: seq<Exchange>, k: nat, log: seq<Event>, goal: Terminal)
    requires Ready(s, polls, k, log, goal) && s.terminal.Some?
    ensures s.terminal == Some(goal)
  {
  }

  lemma {:induction false} EndIsAnnounced(s: Relay, asks: seq<nat>, polls: seq<Exchange>, k: nat, log: seq<Event>, goal: Terminal)
    requires Ready(s, polls, k, log, goal) && |asks| >= Need(s, k, log)
    ensures TerminalFrame(goal) in Relayed(s, asks, polls)
    decreases |asks|
  {
    assert Need(s, k, log) >= 1;
    var k' := ChunkAnnounces(s, asks[0], polls, k, log, goal);
    hide NextChunk, Ready, Need, TerminalFrame;
    var (chunk, t, rest) := NextChunk(s, asks[0], polls);
    if chunk.frame == TerminalFrame(goal) {
      assert Relayed(s, asks, polls)[0] == TerminalFrame(goal);
    } else {
      EndIsAnnounced(t, asks[1..], rest, k', log, goal);
      assert Relayed(s, asks, polls) == [chunk.frame] + Relayed(t, asks[1..], rest);
    }
  }

  /** Polls that come after the end of a stream change nothing. */
  lemma {:induction false} MorePollsChunk(s: Relay, clock: nat, polls: seq<Exchange>, more: seq<Exchange>)
    requires !NextChunk(s, clock, polls).0.Waiting?
    ensures NextChunk(s, clock, polls + more).0 == NextChunk(s, clock, polls).0
    ensures NextChunk(s, clock, polls + more).1 == NextChunk(s, clock, polls).1
    ensures NextChunk(s, clock, polls + more).2 == NextChunk(s, clock, polls).2 + more
    decreases |polls|
  {
    if !s.finished {
      ChunkUnfolds(s, clock, polls);
      ChunkUnfolds(s, clock, polls + more);
      if !s.HasOutput() && polls != [] {
        hide Absorb;
        assert (polls + more)[1..] == polls[1..] + more;
        var t := Absorb(s, polls[0]);
        if t.HasOutput() || polls[0].now < t.lastOutput + STREAM_KEEPALIVE_INTERVAL {
          MorePollsChunk(t, polls[0].after, polls[1..], more);
        }
      }
    }
  }

  lemma {:induction false} MorePolls(s: Relay, asks: seq<nat>, polls: seq<Exchange>, more: seq<Exchange>, f: Frame)
    requires f in Relayed(s, asks, polls)
    ensures f in Relayed(s, asks, polls + more)
    decreases |asks|
  {
    var (chunk, t, rest) := NextChunk(s, asks[0], polls);
    MorePollsChunk(s, asks[0], polls, more);
    hide NextChunk;
    if chunk.frame != f {
      MorePolls(t, asks[1..], rest, more, f);
    }
  }

  lemma RunIsReady(steps: seq<Step>, start: nat, polls: seq<Poll>, k: nat, goal: Terminal)
    requires AllInRun(steps, polls) && EndsWith(steps, goal) && ShortLosses(polls) && k <= |polls|
    requires forall i :: 0 <= i < |polls| ==> Fits(steps, start, polls[i], goal)
    requires forall i :: k <= i < |polls| ==>
               Concluding(ExchangeOf(steps, polls[i]), Contents(JobAfter(steps).rows), goal)
    requires |polls| - k > Rounds(0, Contents(JobAfter(steps).rows), goal)
    ensures Ready(Started(start), Exchanges(steps, polls), k, Contents(JobAfter(steps).rows), goal)
  {
    StartsHealthy(steps, start, polls, goal);
    ServedStepwise(steps, polls);
    LogIsBounded(steps);
    hide JobAfter, Contents, Concluding, Fits, EndsWith, Healthy, ShortLosses, Stepwise, ExchangeOf, InRun, Rounds;
  }

  lemma HonestIsStepwise(e: Exchange, log: seq<Event>, succeeded: bool)
    requires HonestReply(log, succeeded, e.reply)
    ensures Stepwise(e, log)
  {
    forall from: nat | from <= |log| && e.reply(from).Answer?
      ensures from <= e.reply(from).response.nextSequence <= |log|
      ensures |e.reply(from).response.events| == e.reply(from).response.nextSequence - from
    {
      assert Honest(log, succeeded, from, e.reply(from).response);
    }
  }

  lemma ServedStepwise(steps: seq<Step>, polls: seq<Poll>)
    requires AllInRun(steps, polls)
    ensures forall i :: 0 <= i < |polls| ==> Stepwise(Exchanges(steps, polls)[i], Contents(JobAfter(steps).rows))
  {
    ServedHonestly(steps, polls);
    var log, succeeded := Contents(JobAfter(steps).rows), JobAfter(steps).status.Succeeded?;
    var exchanges := Exchanges(steps, polls);
    hide JobAfter, Contents, ExchangeOf, Exchanges, HonestReply, Stepwise;
    forall i | 0 <= i < |exchanges| ensures Stepwise(exchanges[i], log) {
      HonestIsStepwise(exchanges[i], log, succeeded);
    }
  }

  lemma LogIsBounded(steps: seq<Step>)
    ensures |Contents(JobAfter(steps).rows)| <= MAX_EVENTS
  {
    RunKeepsJobOk(steps);
    ContentsOfLog(JobAfter(steps).rows, 0);
  }

  lemma SucceededIsConcluding(steps: seq<Step>, poll: Poll)
    requires InRun(steps, poll) && poll.Served? && JobAfter(steps[..poll.t1]).status.Succeeded?
    ensures Concluding(ExchangeOf(steps, poll), Contents(JobAfter(steps).rows), Done)
  {
    hide JobAfter, Contents, Read;
    var e, log := ExchangeOf(steps, poll), Contents(JobAfter(steps).rows);
    forall from: nat | from <= |log|
      ensures && e.reply(from).Answer?
              && (Verdict(e.reply(from).response) == Some(Done) || e.reply(from).response.nextSequence == from + READ_LIMIT)
    {
      SucceededReadsAreFull(steps, poll.t1, poll.t2, poll.t3, from, READ_LIMIT);
    }
  }

  lemma BrokenIsConcluding(steps: seq<Step>, poll: Poll)
    requires InRun(steps, poll) && poll.Served? && Broken(JobAfter(steps[..poll.t1]))
    ensures Concluding(ExchangeOf(steps, poll), Contents(JobAfter(steps).rows), FailureOf(JobAfter(steps)))
  {
    BrokenIsReported(steps, poll);
    LogIsBounded(steps);
    hide JobAfter, Contents, Verdict;
  }

  lemma ExchangesJoin(steps: seq<Step>, polls: seq<Poll>, more: seq<Poll>)
    requires AllInRun(steps, polls) && AllInRun(steps, more)
    ensures AllInRun(steps, polls + more)
    ensures Exchanges(steps, polls + more) == Exchanges(steps, polls) + Exchanges(steps, more)
  {
    hide InRun, ExchangeOf;
  }

  /** Success is announced: once enough polls find the job succeeded, before the deadline and with every
      loss shorter than 30 seconds, and the consumer asks often enough, the whole log and the success
      frame arrive, whatever happens later. */
  lemma SuccessIsAnnounced(steps: seq<Step>, start: nat, asks: seq<nat>, polls: seq<Poll>, k: nat, more: seq<Poll>)
    requires AllUntroubled(steps, start, polls) && ShortLosses(polls) && AllInRun(steps, more)
    requires k <= |polls| && |polls| - k > |Contents(JobAfter(steps).rows)| / 8
    requires forall i :: k <= i < |polls| ==> polls[i].Served? && JobAfter(steps[..polls[i].t1]).status.Succeeded?
    requires |asks| > k + |Contents(JobAfter(steps).rows)|
    ensures AllInRun(steps, polls + more)
    ensures var frames := Relayed(Started(start), asks, Exchanges(steps, polls + more));
            DoneFrame in frames && DataOf(frames) == Contents(JobAfter(steps).rows)
  {
    hide JobAfter, Contents, Broken;
    var log := Contents(JobAfter(steps).rows);
    forall i | k <= i < |polls| ensures Concluding(ExchangeOf(steps, polls[i]), log, Done) {
      SucceededIsConcluding(steps, polls[i]);
    }
    hide Concluding;
    RunIsReady(steps, start, polls, k, Done);
    ExchangesJoin(steps, polls, more);
    hide Ready, Relayed, Exchanges, AllInRun, AllUntroubled;
    EndIsAnnounced(Started(start), asks, Exchanges(steps, polls), k, log, Done);
    MorePolls(Started(start), asks, Exchanges(steps, polls), Exchanges(steps, more), DoneFrame);
    StreamIsFaithful(steps, start, asks, polls + more);
  }

  /** Failure is announced: the first poll that finds the job failed or cancelled, before the deadline and
      with every loss before it shorter than 30 seconds, ends the stream with the job's message, if the
      consumer asks often enough. */
  lemma FailureIsAnnounced(steps: seq<Step>, start: nat, asks: seq<nat>, polls: seq<Poll>, found: Poll, more: seq<Poll>)
    requires AllUntroubled(steps, start, polls) && ShortLosses(polls) && AllInRun(steps, more)
    requires InRun(steps, found) && found.Served? && found.now < start + JOB_WAIT_TIMEOUT
    requires Broken(JobAfter(steps[..found.t1]))
    requires |asks| > |polls| + |Contents(JobAfter(steps).rows)|
    ensures AllInRun(steps, polls + [found] + more) && Broken(JobAfter(steps))
    ensures var frames, job := Relayed(Started(start), asks, Exchanges(steps, polls + [found] + more)), JobAfter(steps);
            var message := if job.errorMessage.Some? then job.errorMessage.value else NOT_COMPLETED;
            frames != [] && frames[|frames| - 1] == ErrorFrame(message)
  {
    hide JobAfter, Contents, Broken;
    BrokenIsReported(steps, found);
    BrokenIsConcluding(steps, found);
    var all, k, goal, log := polls + [found], |polls|, FailureOf(JobAfter(steps)), Contents(JobAfter(steps).rows);
    assert AllInRun(steps, all);
    OneServedMore(polls, found);
    hide Concluding;
    RunIsReady(steps, start, all, k, goal);
    ExchangesJoin(steps, all, more);
    hide Ready, Relayed, Exchanges, AllInRun, AllUntroubled;
    EndIsAnnounced(Started(start), asks, Exchanges(steps, all), k, log, goal);
    MorePolls(Started(start), asks, Exchanges(steps, all), Exchanges(steps, more), TerminalFrame(goal));
    StreamIsFaithful(steps, start, asks, all + more);
  }

  lemma OneServedMore(polls: seq<Poll>, found: Poll)
    requires ShortLosses(polls) && found.Served?
    ensures ShortLosses(polls + [found])
  {
    var all := polls + [found];
    forall i: nat, j: nat | i <= j < |all| && LostThrough(all, i, j)
      ensures all[j].now < all[i].now + STREAM_RECOVERY_TIMEOUT
    {
      assert all[j].Lost?;
      assert LostThrough(polls, i, j) by {
        forall m | i <= m <= j ensures polls[m].Lost? {
          assert all[m].Lost?;
        }
      }
    }
  }
}
