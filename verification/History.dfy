/** The client's local re-check of ledger rows returned by the coordinator
    (crates/mindone-cli/src/quota.rs, `verify_history_entry` and `ledger_kind`). */
module History {
  import opened Wrappers
  import opened Machine
  import opened Text
  import opened Ledger

  datatype Namespace = Quota | Contribution | Reserve

  function NamespaceName(n: Namespace): string {
    match n
    case Quota => "quota"
    case Contribution => "contribution"
    case Reserve => "reserve"
  }

  datatype RecomputationStatus = LegacyV1Unverifiable | CanonicalV2Recomputable

  datatype LocalVerification = CanonicalV2Verified | LegacyV1Accepted

  datatype HistoryError = LegacyInconsistent | VersionMismatch | UnsupportedType | RecomputationFailed(cause: LedgerError)

  /** One row of the history response: it carries a namespace and a displayed type, not a kind. */
  datatype HistoryRow = HistoryRow(
    ledger: Namespace,
    entryType: string,
    status: RecomputationStatus,
    hashVersion: int,
    id: Uuid,
    accountId: Uuid,
    requestId: Option<Uuid>,
    idempotencyKey: string,
    deltaMicro: i64,
    balanceBeforeMicro: i64,
    balanceAfterMicro: i64,
    createdAtNanos: int,
    prevHash: string,
    metadata: map<string, string>,
    entryHash: string)
  {
    function Canonical(kind: LedgerKind): LedgerEntry {
      LedgerEntry(hashVersion, id, accountId, requestId, idempotencyKey, kind, deltaMicro, balanceBeforeMicro,
                  balanceAfterMicro, createdAtNanos, prevHash, metadata, entryHash)
    }
  }

  function KindOf(ledger: Namespace, entryType: string): Result<LedgerKind, HistoryError> {
    match ledger
    case Quota =>
      if entryType == "consumer_deduction" then Ok(ConsumerDeduction)
      else if entryType == "node_reward" then Ok(NodeQuotaCredit)
      else if entryType == "bootstrap_grant" then Ok(BootstrapGrant)
      else if entryType == "operator_grant" then Ok(OperatorGrant)
      else Err(UnsupportedType)
    case Contribution =>
      if entryType == "node_contribution" then Ok(ContributionCredit) else Err(UnsupportedType)
    case Reserve =>
      if entryType == "settlement_inflow" then Ok(ReserveInflow)
      else if entryType == "verification" || entryType == "retry" || entryType == "bandwidth"
              || entryType == "peak_capacity" then Ok(ReserveRelease)
      else Err(UnsupportedType)
  }

  function VerifyRow(sha: seq<byte> -> string, row: HistoryRow): Result<LocalVerification, HistoryError> {
    match row.status
    case LegacyV1Unverifiable =>
      if row.hashVersion != 1 || row.metadata != map[] then Err(LegacyInconsistent) else Ok(LegacyV1Accepted)
    case CanonicalV2Recomputable =>
      if row.hashVersion != LEDGER_HASH_VERSION then Err(VersionMismatch)
      else
        var kind :- KindOf(row.ledger, row.entryType);
        match ValidateEntry(sha, row.Canonical(kind))
        case Err(cause) => Err(RecomputationFailed(cause))
        case Ok(_) => Ok(CanonicalV2Verified)
  }

  lemma LabelLengths()
    ensures |"consumer_deduction"| == 18 && |"node_reward"| == 11 && |"bootstrap_grant"| == 15
    ensures |"operator_grant"| == 14 && |"settlement_inflow"| == 17 && |"node_contribution"| == 17
    ensures |"verification"| == 12 && |"retry"| == 5 && |"bandwidth"| == 9 && |"peak_capacity"| == 13
    ensures |"quota"| == 5 && |"contribution"| == 12 && |"reserve"| == 7
  {
  }

  /** `ledger_kind` undoes (`scope`, `entry_type`) for every kind and metadata. */
  lemma KindOfInvertsLabels(kind: LedgerKind, metadata: map<string, string>, ledger: Namespace)
    requires kind.EntryType(metadata).Ok?
    ensures NamespaceName(ledger) == kind.Scope() <==> KindOf(ledger, kind.EntryType(metadata).value) == Ok(kind)
  {
    LabelLengths();
  }

  /** Everything `ledger_kind` accepts is the label pair of the kind it returns, except that the
      displayed purpose of a release is free among the four. */
  lemma KindOfIsExact(ledger: Namespace, entryType: string, metadata: map<string, string>)
    requires KindOf(ledger, entryType).Ok?
    ensures NamespaceName(ledger) == KindOf(ledger, entryType).value.Scope()
    ensures KindOf(ledger, entryType).value.EntryType(metadata) == Ok(entryType)
            <==> (KindOf(ledger, entryType) == Ok(ReserveRelease)
                  ==> "purpose" in metadata && metadata["purpose"] == entryType)
  {
    LabelLengths();
  }

  /** A row that states a valid entry under that entry's own labels is accepted. */
  lemma HonestRowAccepted(sha: seq<byte> -> string, row: HistoryRow, kind: LedgerKind)
    requires row.status == CanonicalV2Recomputable && ValidateEntry(sha, row.Canonical(kind)).Ok?
    requires NamespaceName(row.ledger) == kind.Scope() && kind.EntryType(row.metadata) == Ok(row.entryType)
    ensures VerifyRow(sha, row) == Ok(CanonicalV2Verified)
  {
    hide Preimage, IsSha256, IsBlank, HasControl, BadMetadataItem, CreatedAtMicros;
    KindOfInvertsLabels(kind, row.metadata, row.ledger);
  }

  /** What acceptance means: a row of the first version is taken on trust exactly if it says so and has no
      metadata; a row of the second exactly if its content, under the kind its labels name, hashes to its
      hash and is balanced, in bounds and hashable. */
  lemma AcceptedIff(sha: seq<byte> -> string, row: HistoryRow)
    ensures VerifyRow(sha, row) == Ok(LegacyV1Accepted) <==>
              row.status == LegacyV1Unverifiable && row.hashVersion == 1 && |row.metadata| == 0
    ensures VerifyRow(sha, row) == Ok(CanonicalV2Verified) <==>
              && row.status == CanonicalV2Recomputable && row.hashVersion == 2 && KindOf(row.ledger, row.entryType).Ok?
              && var e := row.Canonical(KindOf(row.ledger, row.entryType).value);
                 Balanced(e) && TextInBounds(e) && Hashable(e) && HashInput(e).Ok? && e.hash == sha(HashInput(e).value)
  {
    if KindOf(row.ledger, row.entryType).Ok? {
      var e := row.Canonical(KindOf(row.ledger, row.entryType).value);
      FieldsValidIff(e);
      HashableIff(e);
    }
    hide ValidateFields, HashInput, Balanced, TextInBounds, Hashable, KindOf;
  }

  lemma AcceptedRow(sha: seq<byte> -> string, row: HistoryRow) returns (kind: LedgerKind)
    requires VerifyRow(sha, row) == Ok(CanonicalV2Verified)
    ensures KindOf(row.ledger, row.entryType) == Ok(kind)
    ensures HashInput(row.Canonical(kind)).Ok? && row.entryHash == sha(HashInput(row.Canonical(kind)).value)
  {
    hide ValidateFields, Preimage, CreatedAtMicros;
    kind := KindOf(row.ledger, row.entryType).value;
  }

  /** Two accepted rows with one hash show the same ledger, kind and content unless the hash
      collides; only the displayed purpose of a release can differ. */
  lemma AcceptedRowsAgree(sha: seq<byte> -> string, r: HistoryRow, s: HistoryRow) returns (j: LedgerKind, k: LedgerKind)
    requires VerifyRow(sha, r) == Ok(CanonicalV2Verified) && VerifyRow(sha, s) == Ok(CanonicalV2Verified)
    requires r.entryHash == s.entryHash
    ensures KindOf(r.ledger, r.entryType) == Ok(j) && KindOf(s.ledger, s.entryType) == Ok(k)
    ensures HashInput(r.Canonical(j)).Ok? && HashInput(s.Canonical(k)).Ok?
    ensures (HashInput(r.Canonical(j)) != HashInput(s.Canonical(k))
             && sha(HashInput(r.Canonical(j)).value) == sha(HashInput(s.Canonical(k)).value))
            || (SameHashedContent(r.Canonical(j), s.Canonical(k)) && r.ledger == s.ledger
                && (j != ReserveRelease ==> r.entryType == s.entryType))
  {
    hide HashInput, VerifyRow, CreatedAtMicros;
    j := AcceptedRow(sha, r);
    k := AcceptedRow(sha, s);
    HashInputUnique(r.Canonical(j), s.Canonical(k));
    KindOfIsExact(r.ledger, r.entryType, map[]);
    KindOfIsExact(s.ledger, s.entryType, map[]);
    LabelLengths();
  }

  lemma {:induction false} AsciiBytes(s: string)
    requires forall i :: 0 <= i < |s| ==> s[i] as int < 0x80
    ensures |Utf8(s)| == |s| && forall i :: 0 <= i < |s| ==> Utf8(s)[i] == s[i] as int
  {
    if s != [] {
      AsciiBytes(s[1..]);
      assert Utf8(s) == [s[0] as int] + Utf8(s[1..]);
    }
  }

  lemma GenesisIsSha256()
    ensures IsSha256(GENESIS_HASH)
  {
    assert forall i :: 0 <= i < |ZEROS| ==> ZEROS[i] == '0';
    assert |ZEROS| == 16;
    hide Utf8;
    AsciiBytes(GENESIS_HASH);
  }

  lemma ShortTexts()
    ensures |Utf8("k")| == 1 && |Utf8("purpose")| == 7 && |Utf8("verification")| == 12
    ensures !IsBlank("k") && !HasControl("k") && !HasControl("purpose") && !HasControl("verification")
  {
    hide Utf8;
    AsciiBytes("k");
    AsciiBytes("purpose");
    AsciiBytes("verification");
    assert !IsWhitespace('k') && 'k' in "k";
  }

  /** The displayed purpose of a release is not bound by the hash: an accepted row stays accepted
      when its displayed type is replaced exactly by any of the four purposes. */
  lemma DisplayedPurposeIsFree(sha: seq<byte> -> string, row: HistoryRow, shown: string)
    requires VerifyRow(sha, row) == Ok(CanonicalV2Verified) && KindOf(row.ledger, row.entryType) == Ok(ReserveRelease)
    ensures VerifyRow(sha, row.(entryType := shown)) == Ok(CanonicalV2Verified)
            <==> IsReleasePurpose(shown)
  {
    hide Preimage, CreatedAtMicros, IsSha256, IsBlank, HasControl, BadMetadataItem, Utf8;
    LabelLengths();
  }

  function SampleRow(sha: seq<byte> -> string, id: Uuid, hash: string): HistoryRow {
    HistoryRow(Reserve, "retry", CanonicalV2Recomputable, 2, id, id, None, "k", -1, 1, 0, 0, GENESIS_HASH,
               map["purpose" := "verification"], hash)
  }

  lemma SampleFieldsValid(sha: seq<byte> -> string, id: Uuid, hash: string)
    ensures ValidateFields(SampleRow(sha, id, hash).Canonical(ReserveRelease)).Ok?
  {
    hide Utf8, IsSha256, HasControl, IsBlank, GENESIS_HASH;
    ShortTexts();
    GenesisIsSha256();
  }

  /** Such rows exist: whatever the hash function, this one is shown as "retry" and hashed as
      "verification". */
  lemma ShownAndHashedPurposeDiffer(sha: seq<byte> -> string, id: Uuid) returns (row: HistoryRow)
    ensures VerifyRow(sha, row) == Ok(CanonicalV2Verified)
    ensures row.entryType == "retry" && ReserveRelease.EntryType(row.metadata) == Ok("verification")
  {
    hide Preimage, ValidateFields, GENESIS_HASH;
    LabelLengths();
    var entry := SampleRow(sha, id, "").Canonical(ReserveRelease);
    row := SampleRow(sha, id, sha(Preimage(entry, "verification")));
    SampleFieldsValid(sha, id, row.entryHash);
    HashInputUnique(entry, row.Canonical(ReserveRelease));
  }
}
