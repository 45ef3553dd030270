/** The coordinator's event log of one streaming job: how a node appends to it, how the job settles,
    and how a consumer reads it (crates/mindone-coordinator/src/routes/jobs.rs). A streaming job has
    a single attempt. */
module StreamLog {
  import opened Wrappers
  import opened Text

  const MAX_EVENTS: nat := 65536
  const MAX_EVENT_BYTES: nat := 64 * 1024
  const MAX_TOTAL_BYTES: nat := 650 * 1024

  datatype Kind = Data(body: seq<byte>) | UpstreamDone

  /** A stored event; an append request names the same three things. */
  datatype Row = Row(sequence: nat, key: string, kind: Kind)

  datatype Status = Queued | Leased | Succeeded | Failed | Cancelled | Retry

  datatype Job = Job(
    status: Status,
    claimed: bool,
    rows: seq<Row>,
    resultValidated: bool,
    errorMessage: Option<string>)

  const NEW_JOB := Job(Queued, false, [], false, None)

  datatype AppendError =
    | InvalidEvent
    | LeaseInvalid
    | BindingMismatch
    | SequenceMismatch
    | AlreadyDone
    | InvalidBody
    | TooLarge

  // ---- appending ----

  predicate ValidRequest(request: Row) {
    && request.sequence < MAX_EVENTS
    && (request.kind.Data? ==> 0 < |request.kind.body| <= MAX_EVENT_BYTES)
  }

  function TotalBytes(rows: seq<Row>): nat {
    if rows == [] then 0
    else TotalBytes(rows[..|rows| - 1]) + match rows[|rows| - 1].kind case Data(body) => |body| case UpstreamDone => 0
  }

  predicate HasDone(rows: seq<Row>) {
    exists i :: 0 <= i < |rows| && rows[i].kind.UpstreamDone?
  }

  /** The stored row that the request's sequence or key is already bound to. */
  predicate Bound(rows: seq<Row>, request: Row) {
    exists i :: 0 <= i < |rows| && (rows[i].sequence == request.sequence || rows[i].key == request.key)
  }

  /** The result is the new log, and whether the request was a replay. */
  function Append(job: Job, request: Row, leaseValid: bool, bodyAccepted: bool): Result<(seq<Row>, bool), AppendError> {
    if !ValidRequest(request) then Err(InvalidEvent)
    else if !job.status.Leased? || !leaseValid then Err(LeaseInvalid)
    else if Bound(job.rows, request) then
      if request in job.rows then Ok((job.rows, true)) else Err(BindingMismatch)
    else if |job.rows| != request.sequence || |job.rows| >= MAX_EVENTS then Err(SequenceMismatch)
    else if HasDone(job.rows) then Err(AlreadyDone)
    else if request.kind.Data? && !bodyAccepted then Err(InvalidBody)
    else if request.kind.Data? && TotalBytes(job.rows) + |request.kind.body| > MAX_TOTAL_BYTES then Err(TooLarge)
    else if request.kind.UpstreamDone? && |job.rows| == 0 then Err(InvalidEvent)
    else Ok((job.rows + [request], false))
  }

  // ---- the life of the job ----

  datatype Step =
    | Claim
    | AppendEvent(request: Row, leaseValid: bool, bodyAccepted: bool)
    | ValidateResult
    | Complete
    | Fail(message: string)
    | Cancel(message: string)

  function DoneRows(rows: seq<Row>): seq<Row> {
    if rows == [] then []
    else DoneRows(rows[..|rows| - 1]) + if rows[|rows| - 1].kind.UpstreamDone? then [rows[|rows| - 1]] else []
  }

  /** The transcript check before a result is settled: contiguous, and closed by its one
      `upstream_done`. */
  predicate TranscriptComplete(rows: seq<Row>) {
    && |rows| >= 2
    && (exists i :: 0 <= i < |rows| && rows[i].sequence == 0)
    && (exists i :: 0 <= i < |rows| && rows[i].sequence == |rows| - 1)
    && (forall i :: 0 <= i < |rows| ==> rows[i].sequence <= |rows| - 1)
    && |DoneRows(rows)| == 1
    && DoneRows(rows)[0].sequence == |rows| - 1
  }

  function Next(job: Job, step: Step): Job {
    match step
    case Claim => if job.status.Queued? && !job.claimed then job.(status := Leased, claimed := true) else job
    case AppendEvent(request, leaseValid, bodyAccepted) =>
      (match Append(job, request, leaseValid, bodyAccepted)
       case Ok((rows, _)) => job.(rows := rows)
       case Err(_) => job)
    case ValidateResult => if TranscriptComplete(job.rows) then job.(resultValidated := true) else job
    case Complete => if job.status.Leased? && job.resultValidated then job.(status := Succeeded) else job
    case Fail(message) => if job.status.Leased? then job.(status := Failed, errorMessage := Some(message)) else job
    case Cancel(message) =>
      if job.status.Leased? then job.(status := Cancelled, errorMessage := Some(message))
      else if job.status.Queued? then job.(status := Cancelled)
      else job
  }

  function JobAfter(steps: seq<Step>): Job {
    if steps == [] then NEW_JOB else Next(JobAfter(steps[..|steps| - 1]), steps[|steps| - 1])
  }

  ghost predicate LogOk(rows: seq<Row>) {
    && (forall i :: 0 <= i < |rows| ==> rows[i].sequence == i)
    && (forall i :: 0 <= i < |rows| && rows[i].kind.UpstreamDone? ==> 0 < i == |rows| - 1)
    && (forall i, j :: 0 <= i < j < |rows| ==> rows[i].key != rows[j].key)
    && |rows| <= MAX_EVENTS
  }

  predicate Closed(rows: seq<Row>) {
    rows != [] && rows[|rows| - 1].kind.UpstreamDone?
  }

  ghost predicate JobOk(job: Job) {
    && LogOk(job.rows)
    && (job.status.Queued? ==> !job.claimed)
    && (!job.claimed ==> job.rows == [] && (job.status.Queued? || job.status.Cancelled?))
    && (job.resultValidated ==> Closed(job.rows))
    && (job.status.Succeeded? ==> job.resultValidated)
    && !job.status.Retry?
  }

  predicate Broken(job: Job) {
    job.status.Failed? || job.status.Cancelled?
  }

  lemma {:induction false} DoneRowsEmpty(rows: seq<Row>)
    requires forall i :: 0 <= i < |rows| ==> rows[i].kind.Data?
    ensures DoneRows(rows) == []
  {
    if rows != [] {
      DoneRowsEmpty(rows[..|rows| - 1]);
    }
  }

  /** On a log the coordinator can have, the transcript check holds exactly of closed logs. */
  lemma CompleteIffClosed(rows: seq<Row>)
    requires LogOk(rows)
    ensures TranscriptComplete(rows) <==> Closed(rows)
  {
    if rows != [] {
      DoneRowsEmpty(rows[..|rows| - 1]);
      assert rows[0].sequence == 0 && rows[|rows| - 1].sequence == |rows| - 1;
    }
  }

  lemma StepKeepsJobOk(job: Job, step: Step)
    requires JobOk(job)
    ensures JobOk(Next(job, step))
    ensures job.rows <= Next(job, step).rows
    ensures Closed(job.rows) ==> Next(job, step).rows == job.rows
    ensures job.status.Succeeded? ==> Next(job, step).status.Succeeded?
    ensures Broken(job) ==> Next(job, step).status == job.status && Next(job, step).errorMessage == job.errorMessage
    ensures job.claimed ==> Next(job, step).claimed
  {
    hide TranscriptComplete, TotalBytes;
    CompleteIffClosed(job.rows);
  }

  /** With a valid lease, body and request: an append is accepted exactly if it repeats a stored event,
      or if it is the next event of a log that is still open and has room for it under an unused key. */
  lemma AppendExact(job: Job, request: Row)
    requires JobOk(job) && job.status.Leased? && ValidRequest(request)
    ensures Append(job, request, true, true).Ok? <==>
            || request in job.rows
            || (&& request.sequence == |job.rows| && (forall i :: 0 <= i < |job.rows| ==> job.rows[i].key != request.key)
                && !Closed(job.rows)
                && (match request.kind
                    case Data(body) => TotalBytes(job.rows) + |body| <= MAX_TOTAL_BYTES
                    case UpstreamDone => job.rows != []))
    ensures Append(job, request, true, true).Ok? ==>
              Append(job, request, true, true).value ==
                if request in job.rows then (job.rows, true) else (job.rows + [request], false)
  {
    hide TotalBytes;
    assert HasDone(job.rows) <==> Closed(job.rows);
    if request in job.rows {
      assert Bound(job.rows, request);
    }
  }

  lemma {:induction false} RunKeepsJobOk(steps: seq<Step>)
    ensures JobOk(JobAfter(steps))
  {
    hide JobOk, Next;
    if steps == [] {
      NewJobOk();
    } else {
      RunKeepsJobOk(steps[..|steps| - 1]);
      StepKeepsJobOk(JobAfter(steps[..|steps| - 1]), steps[|steps| - 1]);
    }
  }

  lemma NewJobOk()
    ensures JobOk(NEW_JOB)
  {
  }

  /** The log only grows, and not at all once it is closed or its job has succeeded. */
  lemma {:induction false} LogOnlyGrows(steps: seq<Step>, t: nat)
    requires t <= |steps|
    ensures JobAfter(steps[..t]).rows <= JobAfter(steps).rows
    ensures Closed(JobAfter(steps[..t]).rows) ==> JobAfter(steps).rows == JobAfter(steps[..t]).rows
    ensures JobAfter(steps[..t]).status.Succeeded? ==>
              JobAfter(steps).status.Succeeded? && Closed(JobAfter(steps[..t]).rows)
    ensures Broken(JobAfter(steps[..t])) ==>
              JobAfter(steps).status == JobAfter(steps[..t]).status
              && JobAfter(steps).errorMessage == JobAfter(steps[..t]).errorMessage
    ensures JobAfter(steps[..t]).claimed ==> JobAfter(steps).claimed
  {
    hide Next, LogOk;
    RunKeepsJobOk(steps[..t]);
    if t == |steps| {
      assert steps[..t] == steps;
    } else {
      var front := steps[..|steps| - 1];
      assert front[..t] == steps[..t];
      LogOnlyGrows(front, t);
      RunKeepsJobOk(front);
      StepKeepsJobOk(JobAfter(front), steps[|steps| - 1]);
    }
  }

  // ---- reading ----

  datatype Event = Event(sequence: nat, data: seq<byte>)

  datatype ReadResponse = ReadResponse(
    status: Status,
    events: seq<Event>,
    nextSequence: nat,
    hasMore: bool,
    errorMessage: Option<string>)

  /** The data rows from a cursor on, in order. */
  function DataRows(rows: seq<Row>, from: nat): seq<Event> {
    if rows == [] then []
    else
      var last := rows[|rows| - 1];
      DataRows(rows[..|rows| - 1], from)
      + if last.kind.Data? && last.sequence >= from then [Event(last.sequence, last.kind.body)] else []
  }

  /** Everything the log holds for a consumer. */
  function Contents(rows: seq<Row>): seq<Event> {
    DataRows(rows, 0)
  }

  /** A read is three queries, and the log may grow between them: `first` is what the query of the
      job saw, `second` what the query of the events saw, `third` what the query of the stream state
      saw. */
  function Read(first: Job, second: Job, third: Job, from: nat, limit: nat): Option<ReadResponse> {
    if from > MAX_EVENTS || !(1 <= limit <= 32) then None
    else
      var matching := if first.claimed then DataRows(second.rows, from) else [];
      var events := if |matching| <= limit then matching else matching[..limit];
      var next := if events == [] then from else events[|events| - 1].sequence + 1;
      var hasMore := first.claimed && DataRows(third.rows, next) != [];
      var upstreamDone := first.claimed && HasDone(third.rows);
      if first.status.Succeeded? && !upstreamDone then None
      else Some(ReadResponse(first.status, events, next, hasMore, first.errorMessage))
  }

  /** What a consumer may rely on: consecutive events of one fixed log from its cursor on, and a
      final answer only about the whole of it. */
  predicate Honest(log: seq<Event>, succeeded: bool, from: nat, response: ReadResponse) {
    && from <= response.nextSequence <= |log|
    && response.events == log[from..response.nextSequence]
    && (response.status.Succeeded? ==> succeeded && (response.hasMore <==> response.nextSequence < |log|))
  }

  ghost predicate OpenLog(rows: seq<Row>) {
    forall i :: 0 <= i < |rows| ==> rows[i].sequence == i && rows[i].kind.Data?
  }

  lemma DropOfAppend(s: seq<Event>, e: Event, k: nat)
    requires k <= |s|
    ensures (s + [e])[k..] == s[k..] + [e]
  {
  }

  lemma {:induction false} ContentsOfOpenLog(rows: seq<Row>, from: nat)
    requires OpenLog(rows)
    ensures |Contents(rows)| == |rows|
    ensures forall i :: 0 <= i < |rows| ==> Contents(rows)[i] == Event(i, rows[i].kind.body)
    ensures DataRows(rows, from) == if from <= |rows| then Contents(rows)[from..] else []
  {
    if rows != [] {
      var front, last := rows[..|rows| - 1], rows[|rows| - 1];
      ContentsOfOpenLog(front, from);
      assert Contents(rows) == Contents(front) + [Event(last.sequence, last.kind.body)];
      hide DataRows;
      if from <= |front| {
        DropOfAppend(Contents(front), Event(last.sequence, last.kind.body), from);
      }
    }
  }

  lemma ContentsOfLog(rows: seq<Row>, from: nat)
    requires LogOk(rows)
    ensures |Contents(rows)| == if Closed(rows) then |rows| - 1 else |rows|
    ensures forall i :: 0 <= i < |Contents(rows)| ==> rows[i].kind.Data? && Contents(rows)[i] == Event(i, rows[i].kind.body)
    ensures DataRows(rows, from) == if from <= |Contents(rows)| then Contents(rows)[from..] else []
  {
    if Closed(rows) {
      var front := rows[..|rows| - 1];
      assert forall i :: 0 <= i < |front| ==> front[i] == rows[i];
      ContentsOfOpenLog(front, from);
      assert Contents(rows) == Contents(front) && DataRows(rows, from) == DataRows(front, from);
    } else {
      ContentsOfOpenLog(rows, from);
    }
  }

  lemma ContentsGrow(rows: seq<Row>, more: seq<Row>)
    requires LogOk(rows) && LogOk(more) && rows <= more
    ensures Contents(rows) <= Contents(more)
  {
    ContentsOfLog(rows, 0);
    ContentsOfLog(more, 0);
    assert forall i :: 0 <= i < |rows| ==> rows[i] == more[i];
  }

  /** The events of a read are a slice of what was visible, as long as the limit allows. */
  lemma ReadSlice(first: Job, second: Job, third: Job, from: nat, limit: nat, log: seq<Event>)
    requires JobOk(first) && JobOk(second) && JobOk(third)
    requires Contents(second.rows) <= log && Contents(third.rows) <= log && from <= |log|
    requires Read(first, second, third, from, limit).Some?
    ensures var r := Read(first, second, third, from, limit).value;
            && from <= r.nextSequence <= |log| && r.events == log[from..r.nextSequence]
            && (first.claimed ==> (r.hasMore <==> r.nextSequence < |Contents(third.rows)|))
            && (first.claimed && from <= |Contents(second.rows)| ==>
                  |r.events| == if |Contents(second.rows)| - from <= limit then |Contents(second.rows)| - from else limit)
  {
    hide LogOk, DataRows, HasDone;
    ContentsOfLog(second.rows, from);
    var r := Read(first, second, third, from, limit).value;
    ContentsOfLog(third.rows, r.nextSequence);
    if r.events != [] {
      var visible := Contents(second.rows);
      assert r.events == visible[from..from + |r.events|];
      assert r.events[|r.events| - 1] == visible[from + |r.events| - 1];
      assert visible[from + |r.events| - 1] == Event(from + |r.events| - 1, second.rows[from + |r.events| - 1].kind.body);
    }
  }

  lemma ReadKeepsStatus(first: Job, second: Job, third: Job, from: nat, limit: nat)
    requires Read(first, second, third, from, limit).Some?
    ensures Read(first, second, third, from, limit).value.status == first.status
  {
    hide DataRows, HasDone;
  }

  /** A later state of a job: its log continues the earlier one, and a succeeded job stays as it is. */
  ghost predicate Later(job: Job, end: Job) {
    && JobOk(job) && JobOk(end) && job.rows <= end.rows
    && (job.status.Succeeded? ==> end.status.Succeeded? && end.rows == job.rows && job.claimed)
    && (Broken(job) ==> end.status == job.status && end.errorMessage == job.errorMessage)
  }

  lemma PrefixIsEarlier(steps: seq<Step>, t: nat)
    requires t <= |steps|
    ensures Later(JobAfter(steps[..t]), JobAfter(steps))
  {
    hide LogOk, Next, JobAfter;
    RunKeepsJobOk(steps);
    RunKeepsJobOk(steps[..t]);
    LogOnlyGrows(steps, t);
  }

  lemma ReadIsHonest(first: Job, second: Job, third: Job, end: Job, from: nat, limit: nat)
    requires Later(first, third) && Later(second, end) && Later(third, end)
    requires from <= |Contents(end.rows)| && Read(first, second, third, from, limit).Some?
    ensures Honest(Contents(end.rows), end.status.Succeeded?, from, Read(first, second, third, from, limit).value)
  {
    hide LogOk, Contents, Read;
    ContentsGrow(second.rows, end.rows);
    ContentsGrow(third.rows, end.rows);
    ReadSlice(first, second, third, from, limit, Contents(end.rows));
    ReadKeepsStatus(first, second, third, from, limit);
  }

  /** Whatever the node does and however its appends and the settlement fall between the three
      queries, a read is honest about the log as it will be in the end. */
  lemma ReadsAreHonest(steps: seq<Step>, t1: nat, t2: nat, t3: nat, from: nat, limit: nat)
    requires t1 <= t2 <= t3 <= |steps|
    requires from <= |Contents(JobAfter(steps).rows)|
    requires Read(JobAfter(steps[..t1]), JobAfter(steps[..t2]), JobAfter(steps[..t3]), from, limit).Some?
    ensures Honest(Contents(JobAfter(steps).rows), JobAfter(steps).status.Succeeded?, from,
                   Read(JobAfter(steps[..t1]), JobAfter(steps[..t2]), JobAfter(steps[..t3]), from, limit).value)
  {
    hide Later, JobAfter, Contents, Read, Honest;
    assert steps[..t3][..t1] == steps[..t1];
    PrefixIsEarlier(steps[..t3], t1);
    PrefixIsEarlier(steps, t2);
    PrefixIsEarlier(steps, t3);
    ReadIsHonest(JobAfter(steps[..t1]), JobAfter(steps[..t2]), JobAfter(steps[..t3]), JobAfter(steps), from, limit);
  }

  lemma ServedUnlessBroken(first: Job, second: Job, third: Job, from: nat, limit: nat)
    requires JobOk(second) && Later(first, third) && !Broken(first) && from <= MAX_EVENTS && 1 <= limit <= 32
    ensures Read(first, second, third, from, limit).Some?
    ensures var r := Read(first, second, third, from, limit).value;
            && r.nextSequence <= MAX_EVENTS && r.status == first.status
            && (r.status.Queued? || r.status.Leased? || r.status.Succeeded?)
  {
    ContentsOfLog(second.rows, from);
    hide DataRows;
    if first.status.Succeeded? {
      assert third.rows[|third.rows| - 1].kind.UpstreamDone?;
    }
  }

  /** Every cursor the consumer can hold is served while the job has neither failed nor been cancelled. */
  lemma ReadsAreServed(steps: seq<Step>, t1: nat, t2: nat, t3: nat, from: nat, limit: nat)
    requires t1 <= t2 <= t3 <= |steps| && !Broken(JobAfter(steps[..t1]))
    requires from <= MAX_EVENTS && 1 <= limit <= 32
    ensures Read(JobAfter(steps[..t1]), JobAfter(steps[..t2]), JobAfter(steps[..t3]), from, limit).Some?
    ensures var r := Read(JobAfter(steps[..t1]), JobAfter(steps[..t2]), JobAfter(steps[..t3]), from, limit).value;
            && r.nextSequence <= MAX_EVENTS && r.status == JobAfter(steps[..t1]).status
            && (r.status.Queued? || r.status.Leased? || r.status.Succeeded?)
  {
    hide Later, JobAfter, Read, Broken;
    assert steps[..t3][..t1] == steps[..t1];
    PrefixIsEarlier(steps[..t3], t1);
    RunKeepsJobOk(steps[..t2]);
    ServedUnlessBroken(JobAfter(steps[..t1]), JobAfter(steps[..t2]), JobAfter(steps[..t3]), from, limit);
  }

  /** A closed log of a leased job settles, and no other does. */
  lemma SettlesIffClosed(job: Job)
    requires JobOk(job) && job.status.Leased?
    ensures Next(Next(job, ValidateResult), Complete).status.Succeeded? <==> Closed(job.rows)
  {
    hide TranscriptComplete;
    CompleteIffClosed(job.rows);
  }

  lemma SmallIsServed(first: Job, second: Job, third: Job, end: Job, from: nat, limit: nat)
    requires Later(first, second) && Later(second, end) && Later(first, third) && Later(third, end)
    requires first.status.Succeeded? && from <= |Contents(end.rows)| && 1 <= limit <= 32
    ensures Read(first, second, third, from, limit).Some?
    ensures var r, log := Read(first, second, third, from, limit).value, Contents(end.rows);
            && r.status.Succeeded? && (r.hasMore <==> r.nextSequence < |log|)
            && r.nextSequence == if from + limit <= |log| then from + limit else |log|
  {
    ContentsOfLog(end.rows, from);
    assert |Contents(end.rows)| <= MAX_EVENTS;
    ServedUnlessBroken(first, second, third, from, limit);
    hide Read, LogOk, Contents;
    ReadKeepsStatus(first, second, third, from, limit);
    ReadSlice(first, second, third, from, limit, Contents(end.rows));
  }

  /** A read of a succeeded job returns the next events, as many as the limit allows, and says whether
      there are more. */
  lemma SucceededReadsAreFull(steps: seq<Step>, t1: nat, t2: nat, t3: nat, from: nat, limit: nat)
    requires t1 <= t2 <= t3 <= |steps| && JobAfter(steps[..t1]).status.Succeeded?
    requires from <= |Contents(JobAfter(steps).rows)| && 1 <= limit <= 32
    ensures Read(JobAfter(steps[..t1]), JobAfter(steps[..t2]), JobAfter(steps[..t3]), from, limit).Some?
    ensures var r := Read(JobAfter(steps[..t1]), JobAfter(steps[..t2]), JobAfter(steps[..t3]), from, limit).value;
            var log := Contents(JobAfter(steps).rows);
            && r.status.Succeeded? && (r.hasMore <==> r.nextSequence < |log|)
            && r.nextSequence == if from + limit <= |log| then from + limit else |log|
  {
    hide Later, JobAfter, Contents, Read;
    assert steps[..t3][..t1] == steps[..t1] && steps[..t2][..t1] == steps[..t1];
    PrefixIsEarlier(steps[..t2], t1);
    PrefixIsEarlier(steps[..t3], t1);
    PrefixIsEarlier(steps, t2);
    PrefixIsEarlier(steps, t3);
    SmallIsServed(JobAfter(steps[..t1]), JobAfter(steps[..t2]), JobAfter(steps[..t3]), JobAfter(steps), from, limit);
  }

  lemma BrokenReadBounded(first: Job, second: Job, third: Job, from: nat, limit: nat)
    requires JobOk(second) && Broken(first) && from <= MAX_EVENTS && 1 <= limit <= 32
    ensures Read(first, second, third, from, limit).Some?
    ensures var r := Read(first, second, third, from, limit).value;
            r.nextSequence <= MAX_EVENTS && r.status == first.status && r.errorMessage == first.errorMessage
  {
    ContentsOfLog(second.rows, from);
    hide DataRows, HasDone;
  }

  /** A read of a broken job is served at every cursor and carries its status and message. */
  lemma BrokenReadsSaySo(steps: seq<Step>, t1: nat, t2: nat, t3: nat, from: nat, limit: nat)
    requires t1 <= t2 <= t3 <= |steps| && Broken(JobAfter(steps[..t1]))
    requires from <= MAX_EVENTS && 1 <= limit <= 32
    ensures Broken(JobAfter(steps))
    ensures Read(JobAfter(steps[..t1]), JobAfter(steps[..t2]), JobAfter(steps[..t3]), from, limit).Some?
    ensures var r := Read(JobAfter(steps[..t1]), JobAfter(steps[..t2]), JobAfter(steps[..t3]), from, limit).value;
            && r.status == JobAfter(steps).status && r.errorMessage == JobAfter(steps).errorMessage
            && r.nextSequence <= MAX_EVENTS
  {
    PrefixIsEarlier(steps, t1);
    PrefixIsEarlier(steps, t2);
    hide JobAfter;
    BrokenReadBounded(JobAfter(steps[..t1]), JobAfter(steps[..t2]), JobAfter(steps[..t3]), from, limit);
  }

  /** A node that lost the reply to an append and sends it again changes nothing and is told so. */
  lemma ReplayIsIdempotent(job: Job, request: Row, bodyAccepted: bool)
    requires JobOk(job) && Append(job, request, true, bodyAccepted).Ok?
    ensures var after := job.(rows := Append(job, request, true, bodyAccepted).value.0);
            Append(after, request, true, bodyAccepted) == Ok((after.rows, true))
  {
    var after := job.(rows := Append(job, request, true, bodyAccepted).value.0);
    assert request in after.rows;
    var i :| 0 <= i < |after.rows| && after.rows[i] == request;
    assert Bound(after.rows, request);
  }
}
