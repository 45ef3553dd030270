/** The slot erase receipt, the cleanup status record and the body relay of the managed loopback
    proxy (crates/mindone-cli/src/serve_proxy.rs). */
module CleanupRecord {
  import opened Wrappers
  import opened Machine

  const MANAGED_LLAMA_SLOT_ID := 0
  const MAX_ERASE_RESPONSE_BYTES := 4 * 1024

  datatype EraseError =
    | EngineIdentityMismatch
    | EraseTransportFailed
    | EraseHttpFailed
    | EraseReceiptOversized
    | EraseReceiptReadFailed
    | EraseReceiptInvalid
    | EraseReceiptSlotMismatch

  datatype Body = ReadFailed | Bytes(length: nat, receipt: Option<Receipt>)

  datatype Receipt = Receipt(idSlot: nat, nErased: u64)

  /** What an erase attempt meets: the identity check, the transport, and the response. */
  datatype EraseReply =
    | IdentityLost
    | NoResponse
    | Response(success: bool, declaredLength: Option<nat>, body: Body)

  function EraseSlot(reply: EraseReply): Result<u64, EraseError> {
    match reply
    case IdentityLost => Err(EngineIdentityMismatch)
    case NoResponse => Err(EraseTransportFailed)
    case Response(success, declaredLength, body) =>
      if !success then Err(EraseHttpFailed)
      else if declaredLength.Some? && declaredLength.value > MAX_ERASE_RESPONSE_BYTES then Err(EraseReceiptOversized)
      else match body
        case ReadFailed => Err(EraseReceiptReadFailed)
        case Bytes(length, receipt) =>
          if length > MAX_ERASE_RESPONSE_BYTES then Err(EraseReceiptOversized)
          else if receipt.None? then Err(EraseReceiptInvalid)
          else if receipt.value.idSlot != MANAGED_LLAMA_SLOT_ID then Err(EraseReceiptSlotMismatch)
          else Ok(receipt.value.nErased)
  }

  /** An erase counts as confirmed exactly on a successful response that is small enough, both as
      declared and as read, and whose receipt is for slot 0. */
  lemma ConfirmedIff(reply: EraseReply, tokens: u64)
    ensures EraseSlot(reply) == Ok(tokens) <==>
            && reply.Response? && reply.success
            && (reply.declaredLength.Some? ==> reply.declaredLength.value <= MAX_ERASE_RESPONSE_BYTES)
            && reply.body.Bytes? && reply.body.length <= MAX_ERASE_RESPONSE_BYTES
            && reply.body.receipt == Some(Receipt(MANAGED_LLAMA_SLOT_ID, tokens))
  {
  }

  datatype Status = Status(
    requestsCompleted: u64,
    cleanupAttempts: u64,
    cleanupSuccesses: u64,
    cleanupFailures: u64,
    tokensErased: u64,
    cleanupRequired: bool,
    lastErrorCode: Option<EraseError>)

  const NEW_STATUS := Status(0, 0, 0, 0, 0, false, None)

  function Recorded(s: Status, outcome: Result<u64, EraseError>, terminalRequest: bool): Status {
    var t := s.(
      cleanupAttempts := SaturatingAddU64(s.cleanupAttempts, 1),
      requestsCompleted := if terminalRequest then SaturatingAddU64(s.requestsCompleted, 1) else s.requestsCompleted,
      cleanupRequired := outcome.Err?);
    match outcome
    case Ok(tokens) =>
      t.(cleanupSuccesses := SaturatingAddU64(s.cleanupSuccesses, 1),
         tokensErased := SaturatingAddU64(s.tokensErased, tokens),
         lastErrorCode := None)
    case Err(code) =>
      t.(cleanupFailures := SaturatingAddU64(s.cleanupFailures, 1), lastErrorCode := Some(code))
  }

  class ProxyState {
    var cleanupRequired: bool
    var reportingFailed: bool
    var status: Status

    constructor ()
      ensures !cleanupRequired && !reportingFailed && status == NEW_STATUS
    {
      cleanupRequired, reportingFailed, status := false, false, NEW_STATUS;
    }

    /** `record_cleanup`; `written` says whether the status file could be replaced. */
    method RecordCleanup(outcome: Result<u64, EraseError>, terminalRequest: bool, written: bool) returns (ok: bool)
      modifies this
      ensures cleanupRequired == outcome.Err?
      ensures status == Recorded(old(status), outcome, terminalRequest)
      ensures reportingFailed == (old(reportingFailed) || !written)
      ensures ok == written
    {
      cleanupRequired := outcome.Err?;
      status := status.(cleanupAttempts := SaturatingAddU64(status.cleanupAttempts, 1));
      if terminalRequest {
        status := status.(requestsCompleted := SaturatingAddU64(status.requestsCompleted, 1));
      }
      match outcome {
        case Ok(tokens) =>
          status := status.(cleanupSuccesses := SaturatingAddU64(status.cleanupSuccesses, 1));
          status := status.(tokensErased := SaturatingAddU64(status.tokensErased, tokens));
          status := status.(lastErrorCode := None);
        case Err(code) =>
          status := status.(cleanupFailures := SaturatingAddU64(status.cleanupFailures, 1));
          status := status.(lastErrorCode := Some(code));
      }
      status := status.(cleanupRequired := outcome.Err?);
      if !written {
        reportingFailed := true;
        return false;
      }
      return true;
    }
  }

  // ---- the body relay ----

  datatype Chunk<T> = Data(value: T) | Broken

  /** How many chunks are read: all up to and including the first broken one. */
  function ReadCount<T>(chunks: seq<Chunk<T>>): (n: nat)
    ensures n <= |chunks|
    ensures forall i :: 0 <= i < n - 1 ==> chunks[i].Data?
    ensures n < |chunks| ==> n > 0 && chunks[n - 1].Broken?
  {
    if chunks == [] then 0 else if chunks[0].Broken? then 1 else 1 + ReadCount(chunks[1..])
  }

  /** The detached task reads the response to its end, or to its first error, whether or not the
      consumer is still there; `accepts[i]` says whether the consumer takes the i-th chunk. */
  method RelayBody<T>(chunks: seq<Chunk<T>>, accepts: seq<bool>) returns (delivered: seq<Chunk<T>>, read: nat, streamOk: bool)
    requires |accepts| == |chunks|
    ensures read == ReadCount(chunks)
    ensures streamOk <==> forall i :: 0 <= i < |chunks| ==> chunks[i].Data?
    ensures |delivered| <= read && delivered == chunks[..|delivered|]
    ensures forall i :: 0 <= i < |delivered| && chunks[i].Data? ==> accepts[i]
    ensures |delivered| < read ==> chunks[|delivered|].Data? && !accepts[|delivered|]
  {
    delivered, read, streamOk := [], 0, true;
    var downstreamOpen := true;
    while read < |chunks|
      invariant read <= |chunks| && (forall i :: 0 <= i < read ==> chunks[i].Data?)
      invariant streamOk
      invariant |delivered| <= read && delivered == chunks[..|delivered|]
      invariant forall i :: 0 <= i < |delivered| ==> accepts[i]
      invariant downstreamOpen ==> |delivered| == read
      invariant !downstreamOpen ==> |delivered| < read && !accepts[|delivered|]
    {
      var chunk := chunks[read];
      read := read + 1;
      match chunk
      case Data(_) =>
        if downstreamOpen {
          if accepts[read - 1] {
            delivered := delivered + [chunk];
          } else {
            downstreamOpen := false;
          }
        }
      case Broken =>
        streamOk := false;
        if downstreamOpen {
          delivered := delivered + [chunk];
        }
        ReadCountIs(chunks, read);
        return;
    }
    ReadCountIs(chunks, read);
  }

  lemma {:induction false} ReadCountIs<T>(chunks: seq<Chunk<T>>, n: nat)
    requires n <= |chunks| && (forall i :: 0 <= i < n - 1 ==> chunks[i].Data?)
    requires n < |chunks| ==> n > 0 && chunks[n - 1].Broken?
    ensures ReadCount(chunks) == n
  {
    if n > 1 {
      ReadCountIs(chunks[1..], n - 1);
    }
  }
}
