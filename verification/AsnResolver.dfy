/** The deployment-controlled IP-prefix to ASN map and its lookup
    (crates/mindone-coordinator/src/anti_abuse.rs). Reading the JSON text and the textual form of
    addresses is not modelled: an entry arrives as the outcome of that parse. */
module AsnResolver {
  import opened Wrappers
  import opened Machine
  import opened Ordering

  const MAX_ASN_MAP_ENTRIES := 100_000

  type u8 = x: int | 0 <= x < 256

  // ---- machine words as bits, most significant first ----

  type Bits = seq<bool>
  type Bits32 = b: Bits | |b| == 32 witness Zeros(32)
  type Bits128 = b: Bits | |b| == 128 witness Zeros(128)

  function Zeros(n: nat): (b: Bits)
    ensures |b| == n && forall i :: 0 <= i < n ==> !b[i]
  {
    seq(n, _ => false)
  }

  function Ones(n: nat): (b: Bits)
    ensures |b| == n && forall i :: 0 <= i < n ==> b[i]
  {
    seq(n, _ => true)
  }

  function And(a: Bits, b: Bits): (c: Bits)
    requires |a| == |b|
    ensures |c| == |a| && forall i :: 0 <= i < |a| ==> c[i] == (a[i] && b[i])
  {
    seq(|a|, i requires 0 <= i < |a| => a[i] && b[i])
  }

  function ShiftLeft(a: Bits, n: nat): (b: Bits)
    requires n <= |a|
    ensures |b| == |a|
  {
    a[n..] + Zeros(n)
  }

  datatype IpAddr = V4(v4: Bits32) | V6(v6: Bits128)

  /** A `cidr` string after `split_once('/')`, address parsing and prefix parsing. */
  datatype CidrText = Unparsable | Parsed(address: IpAddr, prefix: u8)

  datatype AsnMapEntry = AsnMapEntry(cidr: CidrText, asn: u32)

  datatype AsnMapDocument = AsnMapDocument(version: nat, entries: seq<AsnMapEntry>)

  datatype AsnMapError =
    | UnsupportedVersion
    | InvalidEntryCount
    | InvalidAsn
    | InvalidCidr
    | NonCanonicalCidr
    | DuplicatePrefix

  function V4Mask(prefix: u8): Bits32
    requires prefix <= 32
  {
    if prefix == 0 then Zeros(32) else ShiftLeft(Ones(32), 32 - prefix)
  }

  function V6Mask(prefix: u8): Bits128
    requires prefix <= 128
  {
    if prefix == 0 then Zeros(128) else ShiftLeft(Ones(128), 128 - prefix)
  }

  datatype AsnPrefix =
    | P4(network4: Bits32, len: u8, asn: u32)
    | P6(network6: Bits128, len: u8, asn: u32)
  {
    predicate Valid() {
      match this
      case P4(network, len, _) => len <= 32 && And(network, V4Mask(len)) == network
      case P6(network, len, _) => len <= 128 && And(network, V6Mask(len)) == network
    }

    function Identity(): (int, Bits128, u8) {
      match this
      case P4(network, len, _) => (4, Zeros(96) + network, len)
      case P6(network, len, _) => (6, network, len)
    }

    predicate Contains(address: IpAddr)
      requires Valid()
    {
      match (this, address)
      case (P4(network, len, _), V4(a)) => And(a, V4Mask(len)) == network
      case (P6(network, len, _), V6(a)) => And(a, V6Mask(len)) == network
      case _ => false
    }
  }

  function FromCidr(cidr: CidrText, asn: u32): Result<AsnPrefix, AsnMapError> {
    match cidr
    case Unparsable => Err(InvalidCidr)
    case Parsed(V4(address), prefix) =>
      if prefix > 32 then Err(InvalidCidr)
      else if And(address, V4Mask(prefix)) != address then Err(NonCanonicalCidr)
      else Ok(P4(address, prefix, asn))
    case Parsed(V6(address), prefix) =>
      if prefix > 128 then Err(InvalidCidr)
      else if And(address, V6Mask(prefix)) != address then Err(NonCanonicalCidr)
      else Ok(P6(address, prefix, asn))
  }

  function Build(e: AsnMapEntry): Result<AsnPrefix, AsnMapError> {
    if e.asn == 0 || e.asn == U32_MAX then Err(InvalidAsn) else FromCidr(e.cidr, e.asn)
  }

  /** Longer prefixes first. */
  predicate LongerFirst(p: AsnPrefix, q: AsnPrefix) {
    q.len <= p.len
  }

  method FromJson(document: AsnMapDocument) returns (r: Result<seq<AsnPrefix>, AsnMapError>)
    ensures r.Ok? <==> Acceptable(document)
    ensures r.Ok? ==> r.value == Sort(LongerFirst, Prefixes(document.entries))
  {
    hide FromCidr, AsnPrefix.Identity, And;
    if document.version != 1 {
      return Err(UnsupportedVersion);
    }
    if document.entries == [] || |document.entries| > MAX_ASN_MAP_ENTRIES {
      return Err(InvalidEntryCount);
    }
    var seen: set<(int, Bits128, u8)> := {};
    var entries: seq<AsnPrefix> := [];
    for i := 0 to |document.entries|
      invariant |entries| == i
      invariant forall j :: 0 <= j < i ==> Build(document.entries[j]) == Ok(entries[j])
      invariant forall x :: x in seen <==> exists j :: 0 <= j < i && entries[j].Identity() == x
      invariant forall j, k :: 0 <= j < k < i ==> entries[j].Identity() != entries[k].Identity()
    {
      var entry := document.entries[i];
      if entry.asn == 0 || entry.asn == U32_MAX {
        assert Build(document.entries[i]).Err?;
        return Err(InvalidAsn);
      }
      var prefix := FromCidr(entry.cidr, entry.asn);
      if prefix.Err? {
        assert Build(document.entries[i]).Err?;
        return Err(prefix.error);
      }
      if prefix.value.Identity() in seen {
        ghost var j :| 0 <= j < i && entries[j].Identity() == prefix.value.Identity();
        assert Built(document.entries[j]).Identity() == Built(document.entries[i]).Identity();
        return Err(DuplicatePrefix);
      }
      seen := seen + {prefix.value.Identity()};
      entries := entries + [prefix.value];
    }
    assert entries == Prefixes(document.entries);
    return Ok(Sort(LongerFirst, entries));
  }

  function Built(e: AsnMapEntry): AsnPrefix {
    match Build(e)
    case Ok(p) => p
    case Err(_) => P4(Zeros(32), 0, 0)
  }

  function Prefixes(entries: seq<AsnMapEntry>): seq<AsnPrefix> {
    Map(Built, entries)
  }

  /** What a map file must satisfy, independent of the order of its entries. */
  ghost predicate Acceptable(document: AsnMapDocument) {
    && document.version == 1
    && 1 <= |document.entries| <= MAX_ASN_MAP_ENTRIES
    && (forall e :: e in document.entries ==> Build(e).Ok?)
    && (forall j, k :: 0 <= j < k < |document.entries| ==>
          Built(document.entries[j]).Identity() != Built(document.entries[k]).Identity())
  }

  ghost predicate AllValid(entries: seq<AsnPrefix>) {
    forall p :: p in entries ==> p.Valid()
  }

  /** The first entry that contains the address. */
  function FirstHit(entries: seq<AsnPrefix>, address: IpAddr): Option<AsnPrefix>
    requires AllValid(entries)
  {
    if entries == [] then None
    else
      assert entries[0] in entries;
      if entries[0].Contains(address) then Some(entries[0]) else FirstHit(entries[1..], address)
  }

  function Lookup(entries: seq<AsnPrefix>, address: IpAddr): Option<u32>
    requires AllValid(entries)
  {
    match FirstHit(entries, address)
    case None => None
    case Some(p) => Some(p.asn)
  }

  // ---- containment is agreement of leading bits ----

  /** The network and the address are of one family and agree on the first `len` bits. */
  ghost predicate SharesLeadingBits(p: AsnPrefix, address: IpAddr)
    requires p.Valid()
  {
    match (p, address)
    case (P4(network, len, _), V4(a)) => a[..len] == network[..len]
    case (P6(network, len, _), V6(a)) => a[..len] == network[..len]
    case _ => false
  }

  lemma MaskKeepsPrefix(a: Bits, n: Bits, mask: Bits, len: nat)
    requires |a| == |n| == |mask| && len <= |a| && And(n, mask) == n
    requires forall i :: 0 <= i < |a| ==> mask[i] == (i < len)
    ensures And(a, mask) == n <==> a[..len] == n[..len]
  {
    var c := And(a, mask);
    if c == n {
      forall i | 0 <= i < len ensures a[..len][i] == n[..len][i] {
        assert c[i] == n[i];
      }
    }
    if a[..len] == n[..len] {
      forall i | 0 <= i < |a| ensures c[i] == n[i] {
        assert n[i] == And(n, mask)[i];
        if i < len {
          assert a[..len][i] == n[..len][i];
        }
      }
    }
  }

  lemma MaskBits(w: nat, len: nat)
    requires len <= w
    ensures var mask := if len == 0 then Zeros(w) else ShiftLeft(Ones(w), w - len);
            |mask| == w && forall i :: 0 <= i < w ==> mask[i] == (i < len)
  {
  }

  /** Masking tests exactly the leading bits, in both families. */
  lemma ContainsIsLeadingBits(p: AsnPrefix, address: IpAddr)
    requires p.Valid()
    ensures p.Contains(address) <==> SharesLeadingBits(p, address)
  {
    match (p, address)
    case (P4(network, len, _), V4(a)) =>
      MaskBits(32, len);
      MaskKeepsPrefix(a, network, V4Mask(len), len);
    case (P6(network, len, _), V6(a)) =>
      MaskBits(128, len);
      MaskKeepsPrefix(a, network, V6Mask(len), len);
    case _ =>
  }

  // ---- the answer is the longest match ----

  /** Among the prefixes of one family and length at most one contains an address. */
  lemma OneHitPerLength(p: AsnPrefix, q: AsnPrefix, address: IpAddr)
    requires p.Valid() && q.Valid() && p.Contains(address) && q.Contains(address) && p.len == q.len
    ensures p.Identity() == q.Identity()
  {
  }

  lemma DistinctIdentity(entries: seq<AsnMapEntry>)
    requires forall j, k :: 0 <= j < k < |entries| ==> Built(entries[j]).Identity() != Built(entries[k]).Identity()
    ensures forall p, q :: p in Prefixes(entries) && q in Prefixes(entries) && p.Identity() == q.Identity() ==> p == q
  {
  }

  lemma BuiltValid(document: AsnMapDocument)
    requires Acceptable(document)
    ensures AllValid(Prefixes(document.entries))
  {
    hide AsnPrefix.Valid, And, V4Mask, V6Mask;
    forall p | p in Prefixes(document.entries) ensures p.Valid() {
      var i :| 0 <= i < |document.entries| && Prefixes(document.entries)[i] == p;
      assert document.entries[i] in document.entries;
      BuildValid(document.entries[i]);
    }
  }

  lemma BuildValid(e: AsnMapEntry)
    requires Build(e).Ok?
    ensures Build(e).value.Valid()
  {
  }

  lemma {:induction false} FirstHitSound(entries: seq<AsnPrefix>, address: IpAddr)
    requires AllValid(entries)
    ensures match FirstHit(entries, address)
            case None => forall p :: p in entries ==> !p.Contains(address)
            case Some(p) => p in entries && p.Contains(address)
  {
    hide AsnPrefix.Contains, AsnPrefix.Valid;
    if entries != [] {
      FirstHitSound(entries[1..], address);
      assert entries == [entries[0]] + entries[1..];
    }
  }

  lemma {:induction false} FirstHitLongest(entries: seq<AsnPrefix>, address: IpAddr)
    requires AllValid(entries) && SortedBy(LongerFirst, entries)
    ensures FirstHit(entries, address).Some? ==>
              forall p :: p in entries && p.Contains(address) ==> p.len <= FirstHit(entries, address).value.len
  {
    hide AsnPrefix.Contains, AsnPrefix.Valid;
    if entries != [] {
      FirstHitLongest(entries[1..], address);
      assert entries == [entries[0]] + entries[1..];
      forall p | p in entries ensures p.len <= entries[0].len {
        var i :| 0 <= i < |entries| && entries[i] == p;
        assert i > 0 ==> LongerFirst(entries[0], entries[i]);
      }
    }
  }

  /** `hit` is the unique longest of the prefixes that share their leading bits with the address, or
      nothing when there is none. */
  ghost predicate IsLongestMatch(prefixes: seq<AsnPrefix>, address: IpAddr, hit: Option<AsnPrefix>)
    requires AllValid(prefixes)
  {
    match hit
    case None => forall q :: q in prefixes ==> !SharesLeadingBits(q, address)
    case Some(p) =>
      && p in prefixes && SharesLeadingBits(p, address)
      && forall q :: q in prefixes && q != p && SharesLeadingBits(q, address) ==> q.len < p.len
  }

  lemma LongestMatchUnique(xs: seq<AsnPrefix>, ys: seq<AsnPrefix>, address: IpAddr, h: Option<AsnPrefix>, k: Option<AsnPrefix>)
    requires AllValid(xs) && AllValid(ys) && forall p :: p in xs <==> p in ys
    requires IsLongestMatch(xs, address, h) && IsLongestMatch(ys, address, k)
    ensures h == k
  {
    hide AsnPrefix.Valid, SharesLeadingBits;
  }

  lemma ResolverEntries(document: AsnMapDocument)
    requires Acceptable(document)
    ensures AllValid(Prefixes(document.entries)) && AllValid(Sort(LongerFirst, Prefixes(document.entries)))
    ensures SortedBy(LongerFirst, Sort(LongerFirst, Prefixes(document.entries)))
    ensures forall p :: p in Sort(LongerFirst, Prefixes(document.entries)) <==> p in Prefixes(document.entries)
  {
    hide AsnPrefix.Valid, Acceptable;
    BuiltValid(document);
    var entries := Prefixes(document.entries);
    SortFacts(LongerFirst, entries);
    SameElements(Sort(LongerFirst, entries), entries);
  }

  /** For every accepted map and every address the lookup answers with the unique longest match of
      the file's prefixes, or with nothing when none matches. */
  lemma LookupIsLongestMatch(document: AsnMapDocument, address: IpAddr)
    requires Acceptable(document)
    ensures AllValid(Prefixes(document.entries)) && AllValid(Sort(LongerFirst, Prefixes(document.entries)))
    ensures IsLongestMatch(Prefixes(document.entries), address,
                           FirstHit(Sort(LongerFirst, Prefixes(document.entries)), address))
  {
    hide AsnPrefix.Valid, AsnPrefix.Contains, AsnPrefix.Identity, SharesLeadingBits, AllValid;
    var entries := Prefixes(document.entries);
    var sorted := Sort(LongerFirst, entries);
    ResolverEntries(document);
    FirstHitSound(sorted, address);
    FirstHitLongest(sorted, address);
    DistinctIdentity(document.entries);
    forall p | p in entries ensures p.Valid() && (p.Contains(address) <==> SharesLeadingBits(p, address)) {
      EachValid(entries, p);
      ContainsIsLeadingBits(p, address);
    }
    var hit := FirstHit(sorted, address);
    if hit.Some? {
      forall q | q in entries && q != hit.value && SharesLeadingBits(q, address) ensures q.len < hit.value.len {
        if q.len == hit.value.len {
          OneHitPerLength(q, hit.value, address);
        }
      }
    }
  }

  // ---- in terms of the file ----

  /** The entry is well formed: a public number, a length within its family, and no bit set past it. */
  predicate GoodEntry(e: AsnMapEntry) {
    && 1 <= e.asn < U32_MAX && e.cidr.Parsed?
    && match e.cidr.address
       case V4(network) => e.cidr.prefix <= 32 && forall i :: e.cidr.prefix <= i < 32 ==> !network[i]
       case V6(network) => e.cidr.prefix <= 128 && forall i :: e.cidr.prefix <= i < 128 ==> !network[i]
  }

  /** The address is of the entry's family and agrees with it on the leading bits. */
  predicate Matches(e: AsnMapEntry, address: IpAddr) {
    e.cidr.Parsed?
    && match (e.cidr.address, address)
       case (V4(network), V4(a)) => e.cidr.prefix <= 32 && a[..e.cidr.prefix] == network[..e.cidr.prefix]
       case (V6(network), V6(a)) => e.cidr.prefix <= 128 && a[..e.cidr.prefix] == network[..e.cidr.prefix]
       case _ => false
  }

  lemma MaskKeepsIff(network: Bits, mask: Bits, len: nat)
    requires |network| == |mask| && forall i :: 0 <= i < |mask| ==> mask[i] == (i < len)
    ensures And(network, mask) == network <==> forall i :: len <= i < |network| ==> !network[i]
  {
    var masked := And(network, mask);
    if masked == network {
      forall i | len <= i < |network| ensures !network[i] {
        assert masked[i] == network[i];
      }
    }
  }

  /** What becomes of an entry: it is refused exactly if it is not well formed, and otherwise keeps its
      number, family, network and length. */
  lemma BuildExact(e: AsnMapEntry)
    ensures Build(e).Ok? <==> GoodEntry(e)
    ensures GoodEntry(e) ==>
              && Built(e).asn == e.asn && Built(e).len == e.cidr.prefix
              && match e.cidr.address
                 case V4(network) => Built(e).P4? && Built(e).network4 == network
                 case V6(network) => Built(e).P6? && Built(e).network6 == network
  {
    if e.cidr.Parsed? {
      match e.cidr.address
      case V4(network) =>
        if e.cidr.prefix <= 32 {
          MaskBits(32, e.cidr.prefix);
          MaskKeepsIff(network, V4Mask(e.cidr.prefix), e.cidr.prefix);
        }
      case V6(network) =>
        if e.cidr.prefix <= 128 {
          MaskBits(128, e.cidr.prefix);
          MaskKeepsIff(network, V6Mask(e.cidr.prefix), e.cidr.prefix);
        }
    }
  }

  lemma BuiltMatches(e: AsnMapEntry, address: IpAddr)
    requires GoodEntry(e)
    ensures Built(e).Valid() && (SharesLeadingBits(Built(e), address) <==> Matches(e, address))
  {
    BuildExact(e);
    BuildValid(e);
    hide Build, Built;
  }

  lemma PaddedDiffers(a: Bits32, b: Bits32)
    ensures Zeros(96) + a == Zeros(96) + b <==> a == b
  {
    if Zeros(96) + a == Zeros(96) + b {
      assert (Zeros(96) + a)[96..] == a && (Zeros(96) + b)[96..] == b;
    }
  }

  /** Two well-formed entries are the same prefix exactly if address and length are the same. */
  lemma SameIdentityIff(e: AsnMapEntry, f: AsnMapEntry)
    requires GoodEntry(e) && GoodEntry(f)
    ensures Built(e).Identity() == Built(f).Identity() <==> e.cidr == f.cidr
  {
    BuildExact(e);
    BuildExact(f);
    hide Build, Built;
    if e.cidr.address.V4? && f.cidr.address.V4? {
      PaddedDiffers(e.cidr.address.v4, f.cidr.address.v4);
    }
  }

  /** A document is accepted exactly if it has version 1, a permitted number of entries, only well-formed
      ones, and no prefix twice. */
  lemma AcceptableIff(document: AsnMapDocument)
    ensures Acceptable(document) <==>
            && document.version == 1 && 1 <= |document.entries| <= MAX_ASN_MAP_ENTRIES
            && (forall e :: e in document.entries ==> GoodEntry(e))
            && (forall j, k :: 0 <= j < k < |document.entries| ==> document.entries[j].cidr != document.entries[k].cidr)
  {
    hide GoodEntry, Build, Built, AsnPrefix.Identity;
    forall e | e in document.entries ensures Build(e).Ok? <==> GoodEntry(e) {
      BuildExact(e);
    }
    if forall e :: e in document.entries ==> GoodEntry(e) {
      forall j, k | 0 <= j < k < |document.entries|
        ensures Built(document.entries[j]).Identity() == Built(document.entries[k]).Identity()
                <==> document.entries[j].cidr == document.entries[k].cidr
      {
        SameIdentityIff(document.entries[j], document.entries[k]);
      }
    }
  }

  /** Some entry with this number matches the address, and no matching entry is longer. */
  ghost predicate LongestMatchSays(entries: seq<AsnMapEntry>, address: IpAddr, asn: u32) {
    exists e :: e in entries && e.asn == asn && Matches(e, address)
                && forall f :: f in entries && Matches(f, address) ==> f.cidr.prefix <= e.cidr.prefix
  }

  lemma HitIsEntry(entries: seq<AsnMapEntry>, p: AsnPrefix) returns (e: AsnMapEntry)
    requires p in Prefixes(entries)
    ensures e in entries && Built(e) == p
  {
    var i :| 0 <= i < |entries| && Prefixes(entries)[i] == p;
    e := entries[i];
  }

  lemma EntryIsPrefix(entries: seq<AsnMapEntry>, e: AsnMapEntry)
    requires e in entries
    ensures Built(e) in Prefixes(entries)
  {
    var i :| 0 <= i < |entries| && entries[i] == e;
    assert Prefixes(entries)[i] == Built(e);
  }

  /** The lookup read off the file: it answers a number exactly if the longest entry that matches the
      address has it, and nothing exactly if no entry matches. */
  lemma LookupReadsFile(document: AsnMapDocument, address: IpAddr, asn: u32)
    requires Acceptable(document)
    ensures AllValid(Sort(LongerFirst, Prefixes(document.entries)))
    ensures var answer := Lookup(Sort(LongerFirst, Prefixes(document.entries)), address);
            && (answer == Some(asn) <==> LongestMatchSays(document.entries, address, asn))
            && (answer == None <==> forall e :: e in document.entries ==> !Matches(e, address))
  {
    hide Acceptable, Sort, FirstHit, Prefixes, Built, Matches, GoodEntry, SharesLeadingBits, AllValid, AsnPrefix.Valid;
    var entries := document.entries;
    LookupIsLongestMatch(document, address);
    EntriesGood(document);
    var hit := FirstHit(Sort(LongerFirst, Prefixes(entries)), address);
    forall e | e in entries
      ensures Built(e) in Prefixes(entries) && Built(e).Valid() && Built(e).len == e.cidr.prefix && Built(e).asn == e.asn
      ensures SharesLeadingBits(Built(e), address) <==> Matches(e, address)
    {
      EntryIsPrefix(entries, e);
      GoodFields(e);
      BuiltMatches(e, address);
    }
    if hit.Some? {
      var h := HitIsEntry(entries, hit.value);
      assert Matches(h, address);
      assert LongestMatchSays(entries, address, h.asn);
      forall e | e in entries && Matches(e, address)
                 && forall f :: f in entries && Matches(f, address) ==> f.cidr.prefix <= e.cidr.prefix
        ensures e.asn == hit.value.asn
      {
        assert h.cidr.prefix <= e.cidr.prefix;
      }
    }
  }

  lemma GoodFields(e: AsnMapEntry)
    requires GoodEntry(e)
    ensures Built(e).len == e.cidr.prefix && Built(e).asn == e.asn
  {
    BuildExact(e);
  }

  lemma EntriesGood(document: AsnMapDocument)
    requires Acceptable(document)
    ensures forall e :: e in document.entries ==> GoodEntry(e) && e.cidr.Parsed?
  {
    hide Acceptable;
    AcceptableIff(document);
  }

  lemma EachValid(entries: seq<AsnPrefix>, p: AsnPrefix)
    requires AllValid(entries) && p in entries
    ensures p.Valid()
  {
  }

  /** Reordering the entries of a file changes neither its acceptance nor any answer. */
  lemma FileOrderIrrelevant(a: AsnMapDocument, b: AsnMapDocument, address: IpAddr)
    requires a.version == b.version && multiset(a.entries) == multiset(b.entries) && Acceptable(a)
    ensures Acceptable(b)
    ensures AllValid(Sort(LongerFirst, Prefixes(a.entries))) && AllValid(Sort(LongerFirst, Prefixes(b.entries)))
    ensures Lookup(Sort(LongerFirst, Prefixes(a.entries)), address) == Lookup(Sort(LongerFirst, Prefixes(b.entries)), address)
  {
    AcceptablePermutes(a, b);
    hide AsnPrefix.Valid, AsnPrefix.Contains, AsnPrefix.Identity, SharesLeadingBits, AllValid, Acceptable;
    hide FirstHit, Sort, Map, Built, IsLongestMatch;
    LookupIsLongestMatch(a, address);
    LookupIsLongestMatch(b, address);
    MapPermutes(Built, a.entries, b.entries);
    SameElements(Prefixes(a.entries), Prefixes(b.entries));
    LongestMatchUnique(Prefixes(a.entries), Prefixes(b.entries), address,
                       FirstHit(Sort(LongerFirst, Prefixes(a.entries)), address),
                       FirstHit(Sort(LongerFirst, Prefixes(b.entries)), address));
  }

  lemma AcceptablePermutes(a: AsnMapDocument, b: AsnMapDocument)
    requires a.version == b.version && multiset(a.entries) == multiset(b.entries) && Acceptable(a)
    ensures Acceptable(b)
  {
    hide AsnPrefix.Identity, Built, Build;
    SameElements(a.entries, b.entries);
    var ident := (e: AsnMapEntry) => Built(e).Identity();
    MapPermutes(ident, a.entries, b.entries);
    assert NoDuplicates(Map(ident, a.entries));
    NoDuplicatesPermutes(Map(ident, a.entries), Map(ident, b.entries));
    forall j, k | 0 <= j < k < |b.entries|
      ensures Built(b.entries[j]).Identity() != Built(b.entries[k]).Identity()
    {
      assert Map(ident, b.entries)[j] != Map(ident, b.entries)[k];
    }
  }
}
