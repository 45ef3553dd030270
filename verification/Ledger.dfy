/** The append-only ledger: entry validation, the canonical hash, and the chain walk
    (crates/mindone-accounting/src/ledger.rs). SHA-256 with hex printing is the parameter `sha`. */
module Ledger {
  import opened Wrappers
  import opened Machine
  import opened Ordering
  import opened Text
  import opened Canonical

  const ZEROS: string := "0000000000000000"
  const GENESIS_HASH: string := ZEROS + ZEROS + ZEROS + ZEROS
  const LEDGER_HASH_VERSION := 2
  const LEDGER_HASH_DOMAIN: string := "mindone-ledger"
  const POSTGRES_EPOCH_UNIX_SECONDS := 946_684_800

  datatype LedgerKind =
    | ConsumerDeduction
    | NodeQuotaCredit
    | ContributionCredit
    | ReserveInflow
    | ReserveRelease
    | BootstrapGrant
    | OperatorGrant
  {
    predicate ExpectsDebit() {
      ConsumerDeduction? || ReserveRelease?
    }

    function Scope(): string {
      match this
      case ConsumerDeduction | NodeQuotaCredit | BootstrapGrant | OperatorGrant => "quota"
      case ContributionCredit => "contribution"
      case ReserveInflow | ReserveRelease => "reserve"
    }

    function EntryType(metadata: map<string, string>): Result<string, LedgerError> {
      match this
      case ConsumerDeduction => Ok("consumer_deduction")
      case NodeQuotaCredit => Ok("node_reward")
      case ContributionCredit => Ok("node_contribution")
      case ReserveInflow => Ok("settlement_inflow")
      case BootstrapGrant => Ok("bootstrap_grant")
      case OperatorGrant => Ok("operator_grant")
      case ReserveRelease =>
        if "purpose" in metadata && IsReleasePurpose(metadata["purpose"]) then Ok(metadata["purpose"])
        else Err(MissingPurpose)
    }
  }

  predicate IsReleasePurpose(purpose: string) {
    purpose == "verification" || purpose == "retry" || purpose == "bandwidth" || purpose == "peak_capacity"
  }

  datatype LedgerError =
    | UnsupportedVersion
    | MissingPurpose
    | TimestampOutOfRange
    | BadPreviousHash
    | ZeroAmount
    | BadIdempotencyKey
    | WrongDirection
    | NegativeBalance
    | BalanceOverflow
    | BalanceMismatch
    | BadMetadata
    | HashMismatch
    | BrokenLink
    | TimeWentBack

  datatype LedgerEntry = LedgerEntry(
    hashVersion: int,
    id: Uuid,
    accountId: Uuid,
    requestId: Option<Uuid>,
    idempotencyKey: string,
    kind: LedgerKind,
    amountMicro: i64,
    balanceBeforeMicro: i64,
    balanceAfterMicro: i64,
    createdAtNanos: int,
    previousHash: string,
    metadata: map<string, string>,
    hash: string)

  // ---- validation of one entry ----

  predicate IsSha256(s: string) {
    var b := Utf8(s);
    |b| == 64 && forall i :: 0 <= i < 64 ==> IsDigit(b[i]) || 97 <= b[i] <= 102
  }

  predicate LowerHex(s: string) {
    |s| == 64 && forall i :: 0 <= i < 64 ==> '0' <= s[i] <= '9' || 'a' <= s[i] <= 'f'
  }

  lemma {:induction false} LowBytes(s: string)
    ensures (forall i :: 0 <= i < |Utf8(s)| ==> Utf8(s)[i] < 0x80) <==> (forall i :: 0 <= i < |s| ==> s[i] as int < 0x80)
    ensures (forall i :: 0 <= i < |s| ==> s[i] as int < 0x80) ==>
              |Utf8(s)| == |s| && forall i :: 0 <= i < |s| ==> Utf8(s)[i] == s[i] as int
  {
    if s != [] {
      LowBytes(s[1..]);
      var head, tail := EncodeChar(s[0]), Utf8(s[1..]);
      FirstByte(s[0]);
      assert Utf8(s) == head + tail;
      hide Utf8, EncodeChar;
      assert Utf8(s)[0] == head[0] && Utf8(s)[|head|..] == tail;
      assert s[1..] == s[1..];
      if forall i :: 0 <= i < |Utf8(s)| ==> Utf8(s)[i] < 0x80 {
        forall i | 0 <= i < |tail| ensures tail[i] < 0x80 {
          assert tail[i] == Utf8(s)[|head| + i];
        }
        forall i | 0 <= i < |s| ensures s[i] as int < 0x80 {
          assert i > 0 ==> s[i] == s[1..][i - 1];
        }
      }
      if forall i :: 0 <= i < |s| ==> s[i] as int < 0x80 {
        assert forall i :: 0 <= i < |s[1..]| ==> s[1..][i] as int < 0x80;
      }
    }
  }

  lemma FirstByte(c: char)
    ensures EncodeChar(c) != [] && (EncodeChar(c)[0] < 0x80 <==> c as int < 0x80)
    ensures c as int < 0x80 ==> EncodeChar(c) == [c as int]
  {
  }

  /** The test on bytes is the test on characters. */
  lemma LowerHexIff(s: string)
    ensures IsSha256(s) <==> LowerHex(s)
  {
    LowBytes(s);
    hide Utf8;
    if IsSha256(s) {
      assert forall i :: 0 <= i < |Utf8(s)| ==> Utf8(s)[i] < 0x80;
    }
    if LowerHex(s) {
      assert forall i :: 0 <= i < |s| ==> s[i] as int < 0x80;
    }
  }

  predicate BadMetadataItem(key: string, value: string) {
    key == "" || |Utf8(key)| > 128 || HasControl(key) || |Utf8(value)| > 2048 || HasControl(value)
  }

  function ValidateFields(e: LedgerEntry): Result<(), LedgerError> {
    if e.hashVersion != LEDGER_HASH_VERSION then Err(UnsupportedVersion)
    else if !IsSha256(e.previousHash) then Err(BadPreviousHash)
    else if e.amountMicro == 0 && e.kind != ContributionCredit then Err(ZeroAmount)
    else if IsBlank(e.idempotencyKey) || |Utf8(e.idempotencyKey)| > 255 || HasControl(e.idempotencyKey)
    then Err(BadIdempotencyKey)
    else if e.kind.ExpectsDebit() != (e.amountMicro < 0) then Err(WrongDirection)
    else if e.balanceBeforeMicro < 0 || e.balanceAfterMicro < 0 then Err(NegativeBalance)
    else if !FitsI64(e.balanceBeforeMicro + e.amountMicro) then Err(BalanceOverflow)
    else if e.balanceBeforeMicro + e.amountMicro != e.balanceAfterMicro then Err(BalanceMismatch)
    else if exists k :: k in e.metadata && BadMetadataItem(k, e.metadata[k]) then Err(BadMetadata)
    else Ok(())
  }

  // ---- the canonical hash ----

  /** The creation time as the hash sees it: microseconds, truncated toward the 2000 epoch. */
  function CreatedAtMicros(nanos: int): int {
    TruncDiv(nanos - POSTGRES_EPOCH_UNIX_SECONDS * 1_000_000_000, 1_000)
    + POSTGRES_EPOCH_UNIX_SECONDS * 1_000_000
  }

  function MetadataFields(m: map<string, string>): seq<seq<byte>>
    decreases |m|
  {
    if m == map[] then []
    else
      var k := Least(m.Keys);
      [Utf8(k), Utf8(m[k])] + MetadataFields(m - {k})
  }

  function HeadFields(e: LedgerEntry, entryType: string): seq<seq<byte>> {
    [Utf8(LEDGER_HASH_DOMAIN),
     Decimal(e.hashVersion),
     Utf8(e.kind.Scope()),
     UuidText(e.id),
     UuidText(e.accountId),
     if e.requestId.Some? then UuidText(e.requestId.value) else [],
     Utf8(e.idempotencyKey),
     Utf8(entryType),
     Decimal(e.amountMicro),
     Decimal(e.balanceBeforeMicro),
     Decimal(e.balanceAfterMicro),
     Decimal(CreatedAtMicros(e.createdAtNanos)),
     Utf8(e.previousHash),
     Decimal(|e.metadata|)]
  }

  lemma HeadFieldsAre(e: LedgerEntry, t: string)
    ensures HeadFields(e, t) == [] + [Utf8(LEDGER_HASH_DOMAIN)] + [Decimal(e.hashVersion)] + [Utf8(e.kind.Scope())]
      + [UuidText(e.id)] + [UuidText(e.accountId)]
      + [if e.requestId.Some? then UuidText(e.requestId.value) else []] + [Utf8(e.idempotencyKey)] + [Utf8(t)]
      + [Decimal(e.amountMicro)] + [Decimal(e.balanceBeforeMicro)] + [Decimal(e.balanceAfterMicro)]
      + [Decimal(CreatedAtMicros(e.createdAtNanos))] + [Utf8(e.previousHash)] + [Decimal(|e.metadata|)]
  {
    hide Utf8, Decimal, UuidText, CreatedAtMicros;
  }

  /** What the hash is taken over, once the entry's type is known. */
  function Preimage(e: LedgerEntry, entryType: string): seq<byte> {
    Frames(HeadFields(e, entryType) + MetadataFields(e.metadata))
  }

  function HashInput(e: LedgerEntry): Result<seq<byte>, LedgerError> {
    if e.hashVersion != LEDGER_HASH_VERSION then Err(UnsupportedVersion)
    else if !FitsI64(CreatedAtMicros(e.createdAtNanos)) then Err(TimestampOutOfRange)
    else match e.kind.EntryType(e.metadata)
      case Err(error) => Err(error)
      case Ok(entryType) => Ok(Preimage(e, entryType))
  }

  method AppendMetadata(output: ByteBuffer, metadata: map<string, string>)
    requires output.Valid()
    modifies output
    ensures output.Valid() && output.fields == old(output.fields) + MetadataFields(metadata)
  {
    hide Utf8, Frames, StrLeq;
    var rest := metadata;
    while rest != map[]
      invariant output.Valid()
      invariant output.fields + MetadataFields(rest) == old(output.fields) + MetadataFields(metadata)
      decreases |rest|
    {
      var key := Least(rest.Keys);
      ghost var before := output.fields;
      output.AppendCanonicalField(Utf8(key));
      output.AppendCanonicalField(Utf8(rest[key]));
      assert output.fields + MetadataFields(rest - {key}) == before + MetadataFields(rest);
      rest := rest - {key};
    }
  }

  method AppendHead(output: ByteBuffer, e: LedgerEntry, entryType: string, createdAtUnixMicros: int)
    requires output.Valid() && output.fields == [] && createdAtUnixMicros == CreatedAtMicros(e.createdAtNanos)
    modifies output
    ensures output.Valid() && output.fields == HeadFields(e, entryType)
  {
    hide Utf8, Decimal, UuidText, Frames, CreatedAtMicros, HeadFields;
    ghost var head := HeadFields(e, entryType);
    output.AppendCanonicalField(Utf8(LEDGER_HASH_DOMAIN));
    output.AppendCanonicalField(Decimal(e.hashVersion));
    output.AppendCanonicalField(Utf8(e.kind.Scope()));
    output.AppendCanonicalField(UuidText(e.id));
    output.AppendCanonicalField(UuidText(e.accountId));
    output.AppendCanonicalField(if e.requestId.Some? then UuidText(e.requestId.value) else []);
    output.AppendCanonicalField(Utf8(e.idempotencyKey));
    output.AppendCanonicalField(Utf8(entryType));
    output.AppendCanonicalField(Decimal(e.amountMicro));
    output.AppendCanonicalField(Decimal(e.balanceBeforeMicro));
    output.AppendCanonicalField(Decimal(e.balanceAfterMicro));
    output.AppendCanonicalField(Decimal(createdAtUnixMicros));
    output.AppendCanonicalField(Utf8(e.previousHash));
    output.AppendCanonicalField(Decimal(|e.metadata|));
    HeadFieldsAre(e, entryType);
  }

  method RecomputeHash(sha: seq<byte> -> string, e: LedgerEntry) returns (r: Result<string, LedgerError>)
    ensures HashInput(e).Err? ==> r == Err(HashInput(e).error)
    ensures HashInput(e).Ok? ==> r == Ok(sha(HashInput(e).value))
  {
    hide Utf8, Decimal, UuidText, Frames, MetadataFields, CreatedAtMicros, IsReleasePurpose;
    if e.hashVersion != LEDGER_HASH_VERSION {
      return Err(UnsupportedVersion);
    }
    var createdAtUnixMicros := CreatedAtMicros(e.createdAtNanos);
    if !FitsI64(createdAtUnixMicros) {
      return Err(TimestampOutOfRange);
    }
    var typed := e.kind.EntryType(e.metadata);
    if typed.Err? {
      return Err(typed.error);
    }
    var bytes := new ByteBuffer();
    AppendHead(bytes, e, typed.value, createdAtUnixMicros);
    AppendMetadata(bytes, e.metadata);
    r := Ok(sha(bytes.bytes));
  }

  // ---- what the preimage determines ----

  /** Agreement on everything the hash covers. */
  ghost predicate SameHashedContent(a: LedgerEntry, b: LedgerEntry) {
    && a.hashVersion == b.hashVersion
    && a.kind == b.kind
    && a.id == b.id
    && a.accountId == b.accountId
    && a.requestId == b.requestId
    && a.idempotencyKey == b.idempotencyKey
    && a.amountMicro == b.amountMicro
    && a.balanceBeforeMicro == b.balanceBeforeMicro
    && a.balanceAfterMicro == b.balanceAfterMicro
    && CreatedAtMicros(a.createdAtNanos) == CreatedAtMicros(b.createdAtNanos)
    && a.previousHash == b.previousHash
    && a.metadata == b.metadata
  }

  lemma {:induction false} MetadataFieldsInjective(m: map<string, string>, n: map<string, string>)
    requires MetadataFields(m) == MetadataFields(n)
    ensures m == n
    decreases |m|
  {
    hide Utf8, StrLeq;
    if m != map[] && n != map[] {
      var j, k := Least(m.Keys), Least(n.Keys);
      var f, g := MetadataFields(m), MetadataFields(n);
      assert f[0] == Utf8(j) && f[1] == Utf8(m[j]) && f[2..] == MetadataFields(m - {j});
      assert g[0] == Utf8(k) && g[1] == Utf8(n[k]) && g[2..] == MetadataFields(n - {k});
      Utf8Injective(j, k);
      Utf8Injective(m[j], n[k]);
      MetadataFieldsInjective(m - {j}, n - {k});
      assert m == (m - {j})[j := m[j]];
      assert n == (n - {k})[k := n[k]];
    }
  }

  /** Scope and entry type identify the kind. */
  lemma KindFromScopeAndType(a: LedgerKind, m: map<string, string>, b: LedgerKind, n: map<string, string>)
    requires a.Scope() == b.Scope()
    requires a.EntryType(m).Ok? && a.EntryType(m) == b.EntryType(n)
    ensures a == b
  {
    var t := a.EntryType(m).value;
    assert |"consumer_deduction"| == 18 && |"node_reward"| == 11 && |"bootstrap_grant"| == 15
        && |"operator_grant"| == 14 && |"settlement_inflow"| == 17 && |"verification"| == 12
        && |"retry"| == 5 && |"bandwidth"| == 9 && |"peak_capacity"| == 13;
    assert |"quota"| == 5 && |"contribution"| == 12 && |"reserve"| == 7;
  }

  lemma HeadFieldsInjective(a: LedgerEntry, s: string, b: LedgerEntry, t: string)
    requires HeadFields(a, s) == HeadFields(b, t)
    ensures s == t && a.kind.Scope() == b.kind.Scope()
    ensures SameHashedContent(a, b.(kind := a.kind, metadata := a.metadata))
  {
    var f, g := HeadFields(a, s), HeadFields(b, t);
    assert forall i :: 0 <= i < 14 ==> f[i] == g[i];
    assert f[1] == g[1] && f[2] == g[2] && f[3] == g[3] && f[4] == g[4] && f[5] == g[5] && f[6] == g[6]
        && f[7] == g[7] && f[8] == g[8] && f[9] == g[9] && f[10] == g[10] && f[11] == g[11] && f[12] == g[12];
    DecimalInjective(a.hashVersion, b.hashVersion);
    Utf8Injective(a.kind.Scope(), b.kind.Scope());
    UuidTextInjective(a.id, b.id);
    UuidTextInjective(a.accountId, b.accountId);
    if a.requestId.Some? && b.requestId.Some? {
      UuidTextInjective(a.requestId.value, b.requestId.value);
    }
    Utf8Injective(a.idempotencyKey, b.idempotencyKey);
    Utf8Injective(s, t);
    DecimalInjective(a.amountMicro, b.amountMicro);
    DecimalInjective(a.balanceBeforeMicro, b.balanceBeforeMicro);
    DecimalInjective(a.balanceAfterMicro, b.balanceAfterMicro);
    DecimalInjective(CreatedAtMicros(a.createdAtNanos), CreatedAtMicros(b.createdAtNanos));
    Utf8Injective(a.previousHash, b.previousHash);
  }

  /** Two entries have the same hash input exactly when they agree on everything hashed. */
  lemma HashInputUnique(a: LedgerEntry, b: LedgerEntry)
    requires HashInput(a).Ok?
    ensures HashInput(a) == HashInput(b) <==> SameHashedContent(a, b)
  {
    hide Utf8, UuidText, Decimal, Frames, MetadataFields, CreatedAtMicros, IsReleasePurpose;
    if HashInput(a) == HashInput(b) {
      var s, t := a.kind.EntryType(a.metadata).value, b.kind.EntryType(b.metadata).value;
      var f, g := HeadFields(a, s), HeadFields(b, t);
      FramesInjective(f + MetadataFields(a.metadata), g + MetadataFields(b.metadata));
      assert (f + MetadataFields(a.metadata))[..14] == f && (g + MetadataFields(b.metadata))[..14] == g;
      assert (f + MetadataFields(a.metadata))[14..] == MetadataFields(a.metadata);
      assert (g + MetadataFields(b.metadata))[14..] == MetadataFields(b.metadata);
      HeadFieldsInjective(a, s, b, t);
      MetadataFieldsInjective(a.metadata, b.metadata);
      KindFromScopeAndType(a.kind, a.metadata, b.kind, b.metadata);
    }
  }

  // ---- entries and chains ----

  function NewEntry(sha: seq<byte> -> string, draft: LedgerEntry): Result<LedgerEntry, LedgerError> {
    var e := draft.(hashVersion := LEDGER_HASH_VERSION, hash := "");
    var _ :- ValidateFields(e);
    var input :- HashInput(e);
    Ok(e.(hash := sha(input)))
  }

  function ValidateEntry(sha: seq<byte> -> string, e: LedgerEntry): Result<(), LedgerError> {
    var _ :- ValidateFields(e);
    var input :- HashInput(e);
    if e.hash != sha(input) then Err(HashMismatch) else Ok(())
  }

  /** What the walk says about entry `i`, given that it got there. */
  function CheckAt(sha: seq<byte> -> string, entries: seq<LedgerEntry>, i: nat): Result<(), LedgerError>
    requires i < |entries|
  {
    var _ :- ValidateEntry(sha, entries[i]);
    if entries[i].previousHash != (if i == 0 then GENESIS_HASH else entries[i - 1].hash) then Err(BrokenLink)
    else if i > 0 && entries[i].createdAtNanos < entries[i - 1].createdAtNanos then Err(TimeWentBack)
    else Ok(())
  }

  ghost predicate ValidChain(sha: seq<byte> -> string, entries: seq<LedgerEntry>) {
    forall i :: 0 <= i < |entries| ==> CheckAt(sha, entries, i).Ok?
  }

  method ValidateChain(sha: seq<byte> -> string, entries: seq<LedgerEntry>) returns (r: Result<(), LedgerError>)
    ensures r.Ok? <==> ValidChain(sha, entries)
    ensures r.Err? ==> exists i :: 0 <= i < |entries| && ValidChain(sha, entries[..i]) && CheckAt(sha, entries, i) == r
  {
    hide ValidateEntry;
    var expectedPrevious := GENESIS_HASH;
    var previousTimestamp: Option<int> := None;
    for i := 0 to |entries|
      invariant expectedPrevious == if i == 0 then GENESIS_HASH else entries[i - 1].hash
      invariant previousTimestamp == if i == 0 then None else Some(entries[i - 1].createdAtNanos)
      invariant forall j :: 0 <= j < i ==> CheckAt(sha, entries, j).Ok?
    {
      var entry := entries[i];
      assert forall j :: 0 <= j < i ==> CheckAt(sha, entries[..i], j) == CheckAt(sha, entries, j);
      assert ValidChain(sha, entries[..i]);
      var checked := ValidateEntry(sha, entry);
      if checked.Err? {
        assert CheckAt(sha, entries, i) == checked;
        return checked;
      }
      if entry.previousHash != expectedPrevious {
        assert CheckAt(sha, entries, i) == Err(BrokenLink);
        return Err(BrokenLink);
      }
      if previousTimestamp.Some? && entry.createdAtNanos < previousTimestamp.value {
        assert CheckAt(sha, entries, i) == Err(TimeWentBack);
        return Err(TimeWentBack);
      }
      expectedPrevious := entry.hash;
      previousTimestamp := Some(entry.createdAtNanos);
    }
    return Ok(());
  }

  // ---- what an accepted entry is ----

  /** Double entry: the balance moves by the amount and never below zero; consumer deductions and reserve
      releases take away, everything else adds; only a contribution credit may be zero. */
  predicate Balanced(e: LedgerEntry) {
    && e.balanceAfterMicro == e.balanceBeforeMicro + e.amountMicro
    && e.balanceBeforeMicro >= 0 && e.balanceAfterMicro >= 0
    && (e.amountMicro < 0 <==> e.kind == ConsumerDeduction || e.kind == ReserveRelease)
    && (e.amountMicro == 0 ==> e.kind == ContributionCredit)
  }

  /** The text fields are in bounds: a hash as previous hash, a key and metadata without control
      characters, none of them too long, and none empty but a metadata value. */
  predicate TextInBounds(e: LedgerEntry) {
    && LowerHex(e.previousHash)
    && !IsBlank(e.idempotencyKey) && |Utf8(e.idempotencyKey)| <= 255 && !HasControl(e.idempotencyKey)
    && forall k :: k in e.metadata ==>
         && k != "" && |Utf8(k)| <= 128 && !HasControl(k)
         && |Utf8(e.metadata[k])| <= 2048 && !HasControl(e.metadata[k])
  }

  /** There is something to hash: a purpose where one is needed, and a time that 64 bits can hold. */
  predicate Hashable(e: LedgerEntry) {
    && (e.kind == ReserveRelease ==> "purpose" in e.metadata && IsReleasePurpose(e.metadata["purpose"]))
    && FitsI64(CreatedAtMicros(e.createdAtNanos))
  }

  lemma FieldsValidIff(e: LedgerEntry)
    ensures ValidateFields(e).Ok? <==> e.hashVersion == 2 && Balanced(e) && TextInBounds(e)
  {
    LowerHexIff(e.previousHash);
    hide Utf8, IsSha256, IsBlank, HasControl, LowerHex;
  }

  lemma HashableIff(e: LedgerEntry)
    ensures HashInput(e).Ok? <==> e.hashVersion == 2 && Hashable(e)
  {
    hide Preimage, CreatedAtMicros, IsReleasePurpose;
  }

  /** The microseconds of a time are its nanoseconds cut off toward the year 2000. */
  lemma MicrosCutTowardEpoch(nanos: int)
    ensures var micros, epoch := CreatedAtMicros(nanos), 946_684_800_000_000_000;
            if nanos >= epoch then 1_000 * micros <= nanos < 1_000 * (micros + 1)
            else 1_000 * (micros - 1) < nanos <= 1_000 * micros
  {
  }

  /** A draft becomes an entry exactly if it is balanced, in bounds and hashable; the entry is the draft
      with its hash. */
  lemma NewEntryIff(sha: seq<byte> -> string, draft: LedgerEntry)
    ensures NewEntry(sha, draft).Ok? <==> Balanced(draft) && TextInBounds(draft) && Hashable(draft)
    ensures NewEntry(sha, draft).Ok? ==>
              var e := NewEntry(sha, draft).value;
              HashInput(e).Ok? && e == draft.(hashVersion := 2, hash := sha(HashInput(e).value))
  {
    var plain := draft.(hashVersion := LEDGER_HASH_VERSION, hash := "");
    FieldsValidIff(plain);
    HashableIff(plain);
    hide ValidateFields, Preimage, CreatedAtMicros, LowerHex, Utf8, IsBlank, HasControl;
    if NewEntry(sha, draft).Ok? {
      HashInputUnique(plain, NewEntry(sha, draft).value);
    }
  }

  /** The entry is balanced, in bounds and hashable, carries the hash of its content and the hash of the
      entry before it, and is no older than that. */
  predicate Continues(sha: seq<byte> -> string, entries: seq<LedgerEntry>, i: nat)
    requires i < |entries|
  {
    var e := entries[i];
    && e.hashVersion == 2 && Balanced(e) && TextInBounds(e) && Hashable(e)
    && HashInput(e).Ok? && e.hash == sha(HashInput(e).value)
    && e.previousHash == (if i == 0 then GENESIS_HASH else entries[i - 1].hash)
    && (i > 0 ==> entries[i - 1].createdAtNanos <= e.createdAtNanos)
  }

  lemma CheckIff(sha: seq<byte> -> string, entries: seq<LedgerEntry>, i: nat)
    requires i < |entries|
    ensures CheckAt(sha, entries, i).Ok? <==> Continues(sha, entries, i)
  {
    FieldsValidIff(entries[i]);
    HashableIff(entries[i]);
    hide ValidateFields, HashInput, Balanced, TextInBounds, Hashable, GENESIS_HASH;
  }

  /** A list of entries is a valid chain exactly if every entry continues the ones before it. */
  lemma ValidChainIff(sha: seq<byte> -> string, entries: seq<LedgerEntry>)
    ensures ValidChain(sha, entries) <==> forall i :: 0 <= i < |entries| ==> Continues(sha, entries, i)
  {
    hide CheckAt, Continues;
    forall i | 0 <= i < |entries| ensures CheckAt(sha, entries, i).Ok? <==> Continues(sha, entries, i) {
      CheckIff(sha, entries, i);
    }
  }

  /** An entry made by `NewEntry` that links to the head and is not older extends a valid chain. */
  lemma AppendKeepsChainValid(sha: seq<byte> -> string, entries: seq<LedgerEntry>, draft: LedgerEntry)
    requires ValidChain(sha, entries)
    requires NewEntry(sha, draft).Ok? && draft.previousHash == LastHash(entries)
    requires entries != [] ==> entries[|entries| - 1].createdAtNanos <= draft.createdAtNanos
    ensures ValidChain(sha, entries + [NewEntry(sha, draft).value])
  {
    hide Preimage, CreatedAtMicros, HasControl, IsBlank, IsSha256, BadMetadataItem, Utf8;
    var e := NewEntry(sha, draft).value;
    var longer := entries + [e];
    var plain := draft.(hashVersion := LEDGER_HASH_VERSION, hash := "");
    assert ValidateFields(e) == ValidateFields(plain);
    HashInputUnique(plain, e);
    forall i | 0 <= i < |longer| ensures CheckAt(sha, longer, i).Ok? {
      if i < |entries| {
        assert CheckAt(sha, longer, i) == CheckAt(sha, entries, i);
      }
    }
  }

  function LastHash(entries: seq<LedgerEntry>): string {
    if entries == [] then GENESIS_HASH else entries[|entries| - 1].hash
  }

  /** The byte strings hashed along a chain. */
  ghost function HashInputs(entries: seq<LedgerEntry>): set<seq<byte>> {
    set e | e in entries && HashInput(e).Ok? :: HashInput(e).value
  }

  /** No two of these byte strings collide and none hashes to the genesis value. */
  ghost predicate CollisionFreeOn(sha: seq<byte> -> string, inputs: set<seq<byte>>) {
    && (forall x, y :: x in inputs && y in inputs && sha(x) == sha(y) ==> x == y)
    && (forall x :: x in inputs ==> sha(x) != GENESIS_HASH)
  }

  lemma ChainEntry(sha: seq<byte> -> string, entries: seq<LedgerEntry>, i: nat)
    requires ValidChain(sha, entries) && i < |entries|
    ensures HashInput(entries[i]).Ok? && HashInput(entries[i]).value in HashInputs(entries)
    ensures entries[i].hash == sha(HashInput(entries[i]).value)
    ensures entries[i].previousHash == LastHash(entries[..i])
    ensures ValidChain(sha, entries[..i])
  {
    hide ValidateFields, Preimage, CreatedAtMicros;
    assert CheckAt(sha, entries, i).Ok?;
    assert entries[i] in entries;
    forall j | 0 <= j < i ensures CheckAt(sha, entries[..i], j).Ok? {
      assert CheckAt(sha, entries[..i], j) == CheckAt(sha, entries, j);
    }
  }

  /** The head hash of a valid chain fixes its whole content: no deletion, insertion, reordering
      or edit of any hashed field leaves both a valid chain and the same head. */
  lemma {:induction false} HeadDeterminesChain(sha: seq<byte> -> string, a: seq<LedgerEntry>, b: seq<LedgerEntry>)
    requires ValidChain(sha, a) && ValidChain(sha, b) && LastHash(a) == LastHash(b)
    requires CollisionFreeOn(sha, HashInputs(a) + HashInputs(b))
    ensures |a| == |b|
    ensures forall i :: 0 <= i < |a| ==> SameHashedContent(a[i], b[i]) && a[i].hash == b[i].hash
    decreases |a|
  {
    hide ValidChain, HashInput, CreatedAtMicros;
    if a != [] { ChainEntry(sha, a, |a| - 1); }
    if b != [] { ChainEntry(sha, b, |b| - 1); }
    if a != [] && b != [] {
      var x, y := a[|a| - 1], b[|b| - 1];
      HashInputUnique(x, y);
      var a', b' := a[..|a| - 1], b[..|b| - 1];
      assert HashInputs(a') <= HashInputs(a) && HashInputs(b') <= HashInputs(b);
      HeadDeterminesChain(sha, a', b');
      assert a == a' + [x] && b == b' + [y];
    }
  }

  /** Read the other way round: two valid chains with one head that differ anywhere hand over two
      distinct inputs with one hash, or an input that hashes to the genesis value. */
  lemma TamperingYieldsCollision(sha: seq<byte> -> string, a: seq<LedgerEntry>, b: seq<LedgerEntry>)
    requires ValidChain(sha, a) && ValidChain(sha, b) && LastHash(a) == LastHash(b)
    requires |a| != |b| || exists i :: 0 <= i < |a| && !SameHashedContent(a[i], b[i])
    ensures (exists x, y :: x in HashInputs(a) + HashInputs(b) && y in HashInputs(a) + HashInputs(b)
                            && x != y && sha(x) == sha(y))
            || (exists x :: x in HashInputs(a) + HashInputs(b) && sha(x) == GENESIS_HASH)
  {
    if CollisionFreeOn(sha, HashInputs(a) + HashInputs(b)) {
      HeadDeterminesChain(sha, a, b);
    }
  }
}
