/** Grouping the files of a model repository into runnable units
    (crates/mindone-cli/src/model.rs, `deployment_artifact_groups`). The parsing of a split file
    name and the parent of a path are parameters. */
module DeploymentGroups {
  import opened Wrappers
  import opened Machine
  import opened Ordering
  import opened Text

  datatype RemoteArtifact = RemoteArtifact(file: string, sizeBytes: Option<u64>, trustedSha256: Option<string>)

  datatype SplitName = SplitName(prefix: string, index: nat, count: nat)

  datatype Names = Names(parse: string -> Option<SplitName>, parent: string -> string)

  // ---- file names ----

  function LowerChar(c: char): char {
    if 'A' <= c <= 'Z' then (c as int + 32) as char else c
  }

  function Lower(s: string): string {
    Map(LowerChar, s)
  }

  predicate Contains(s: string, part: string) {
    part <= s || (s != "" && Contains(s[1..], part))
  }

  predicate EndsWith(s: string, part: string) {
    |part| <= |s| && s[|s| - |part|..] == part
  }

  /** What follows the last slash. */
  function Basename(s: string): string {
    if s == "" then ""
    else if '/' in s then Basename(s[1..])
    else s
  }

  predicate AuxiliaryGguf(lowerFile: string) {
    var basename := Basename(lowerFile);
    Contains(lowerFile, "mmproj") || Contains(lowerFile, "projector") || Contains(basename, "imatrix")
    || "mtp-" <= basename || "draft-" <= basename || Contains(basename, "-draft-")
  }

  predicate Eligible(a: RemoteArtifact) {
    var lower := Lower(a.file);
    EndsWith(lower, ".gguf") && !AuxiliaryGguf(lower) && a.trustedSha256.Some? && a.sizeBytes.Some?
  }

  // ---- buckets ----

  datatype ClassKey = ClassKey(parent: string, prefix: string, count: nat)

  datatype Bucket = Skip | Unsplit | Shard(key: ClassKey)

  function BucketOf(names: Names, a: RemoteArtifact): Bucket {
    if !Eligible(a) then Skip
    else match names.parse(a.file)
      case Some(p) => Shard(ClassKey(names.parent(a.file), p.prefix, p.count))
      case None => if Contains(Lower(a.file), "-of-") then Skip else Unsplit
  }

  function IndexOf(names: Names, a: RemoteArtifact): nat {
    match names.parse(a.file)
    case Some(p) => p.index
    case None => 65535
  }

  function Indexer(names: Names): RemoteArtifact -> int {
    (a: RemoteArtifact) => IndexOf(names, a)
  }

  /** The members of one bucket, in the order of the listing. */
  function Members(names: Names, artifacts: seq<RemoteArtifact>, bucket: Bucket): seq<RemoteArtifact> {
    if artifacts == [] then []
    else
      var last := artifacts[|artifacts| - 1];
      Members(names, artifacts[..|artifacts| - 1], bucket) + (if BucketOf(names, last) == bucket then [last] else [])
  }

  function ByIndex(names: Names): (RemoteArtifact, RemoteArtifact) -> bool {
    (a: RemoteArtifact, b: RemoteArtifact) => IndexOf(names, a) <= IndexOf(names, b)
  }

  function SortedClass(names: Names, artifacts: seq<RemoteArtifact>, key: ClassKey): seq<RemoteArtifact> {
    Sort(ByIndex(names), Members(names, artifacts, Shard(key)))
  }

  /** `[1, 2, .., n]` */
  function OneTo(n: nat): (s: seq<int>)
    ensures |s| == n && forall i :: 0 <= i < n ==> s[i] == i + 1
  {
    seq(n, i => i + 1)
  }

  /** The class exists and its indices are exactly `1..=count`, in whatever order it was listed. */
  ghost predicate CompleteClass(names: Names, artifacts: seq<RemoteArtifact>, key: ClassKey) {
    var class_ := Members(names, artifacts, Shard(key));
    class_ != [] && multiset(Map(Indexer(names), class_)) == multiset(OneTo(key.count))
  }

  function Single(a: RemoteArtifact): seq<RemoteArtifact> {
    [a]
  }

  function SortedClassOf(names: Names, artifacts: seq<RemoteArtifact>): ClassKey -> seq<RemoteArtifact> {
    (key: ClassKey) => SortedClass(names, artifacts, key)
  }

  /** `keys` lists every complete class once, and the groups are the unsplit files followed by these
      classes in index order. */
  ghost predicate IsGrouping(names: Names, artifacts: seq<RemoteArtifact>, keys: seq<ClassKey>, groups: seq<seq<RemoteArtifact>>) {
    && NoDuplicates(keys)
    && (forall key :: key in keys <==> CompleteClass(names, artifacts, key))
    && groups == Map(Single, Members(names, artifacts, Unsplit)) + Map(SortedClassOf(names, artifacts), keys)
  }

  /** The test the code makes on the sorted members of a class. */
  predicate InOrder(names: Names, members: seq<RemoteArtifact>, key: ClassKey) {
    |members| == key.count
    && forall i :: 0 <= i < |members| ==>
         match names.parse(members[i].file)
         case Some(p) => p.prefix == key.prefix && p.count == key.count && p.index == i + 1
         case None => false
  }

  lemma {:induction false} MembersAre(names: Names, artifacts: seq<RemoteArtifact>, bucket: Bucket)
    ensures forall a :: a in Members(names, artifacts, bucket) ==> BucketOf(names, a) == bucket
    ensures forall a :: a in artifacts && BucketOf(names, a) == bucket ==> a in Members(names, artifacts, bucket)
  {
    hide BucketOf;
    if artifacts != [] {
      var front, last := artifacts[..|artifacts| - 1], artifacts[|artifacts| - 1];
      MembersAre(names, front, bucket);
      assert artifacts == front + [last];
    }
  }

  lemma IndexOrderTotal(names: Names)
    ensures TotalPreorder(ByIndex(names))
  {
  }

  /** Sorting by index and comparing with the positions decides completeness. */
  lemma InOrderIffComplete(names: Names, artifacts: seq<RemoteArtifact>, key: ClassKey)
    requires Members(names, artifacts, Shard(key)) != []
    ensures InOrder(names, SortedClass(names, artifacts, key), key) <==> CompleteClass(names, artifacts, key)
  {
    hide Members, Eligible, Sort, Map;
    var class_ := Members(names, artifacts, Shard(key));
    var sorted := SortedClass(names, artifacts, key);
    var f := Indexer(names);
    IndexOrderTotal(names);
    SortFacts(ByIndex(names), class_);
    MapPermutes(f, sorted, class_);
    ClassParsed(names, artifacts, key);
    if InOrder(names, sorted, key) {
      assert Map(f, sorted) == OneTo(key.count);
    }
    if CompleteClass(names, artifacts, key) {
      var leq := (x: int, y: int) => x <= y;
      forall i, j | 0 <= i < j < |sorted| ensures leq(Map(f, sorted)[i], Map(f, sorted)[j]) {
        assert ByIndex(names)(sorted[i], sorted[j]);
      }
      SortedUnique(leq, Map(f, sorted), OneTo(key.count));
      forall i | 0 <= i < |sorted| ensures IndexOf(names, sorted[i]) == i + 1 {
        assert Map(f, sorted)[i] == OneTo(key.count)[i];
      }
    }
  }

  lemma ClassParsed(names: Names, artifacts: seq<RemoteArtifact>, key: ClassKey)
    ensures forall a :: a in SortedClass(names, artifacts, key) ==>
              && Eligible(a) && names.parent(a.file) == key.parent
              && names.parse(a.file) == Some(SplitName(key.prefix, IndexOf(names, a), key.count))
  {
    hide Members, Eligible, Sort;
    MembersAre(names, artifacts, Shard(key));
    IndexOrderTotal(names);
    SortFacts(ByIndex(names), Members(names, artifacts, Shard(key)));
    SameElements(SortedClass(names, artifacts, key), Members(names, artifacts, Shard(key)));
  }

  method CollectClasses(names: Names, artifacts: seq<RemoteArtifact>)
    returns (groups: seq<seq<RemoteArtifact>>, splitGroups: map<ClassKey, seq<RemoteArtifact>>)
    ensures groups == Map(Single, Members(names, artifacts, Unsplit))
    ensures forall key :: key in splitGroups ==> splitGroups[key] == Members(names, artifacts, Shard(key)) != []
    ensures forall key :: key !in splitGroups ==> Members(names, artifacts, Shard(key)) == []
  {
    hide Eligible, Lower, Contains;
    groups, splitGroups := [], map[];
    for i := 0 to |artifacts|
      invariant groups == Map(Single, Members(names, artifacts[..i], Unsplit))
      invariant forall key :: key in splitGroups ==> splitGroups[key] == Members(names, artifacts[..i], Shard(key)) != []
      invariant forall key :: key !in splitGroups ==> Members(names, artifacts[..i], Shard(key)) == []
    {
      var artifact := artifacts[i];
      assert artifacts[..i + 1][..i] == artifacts[..i];
      if !Eligible(artifact) {
        continue;
      }
      match names.parse(artifact.file)
      case Some(parsed) =>
        var key := ClassKey(names.parent(artifact.file), parsed.prefix, parsed.count);
        splitGroups := splitGroups[key := (if key in splitGroups then splitGroups[key] else []) + [artifact]];
      case None =>
        if !Contains(Lower(artifact.file), "-of-") {
          ghost var before := Members(names, artifacts[..i], Unsplit);
          MapAppend(Single, before, artifact);
          groups := groups + [[artifact]];
        }
    }
    assert artifacts[..|artifacts|] == artifacts;
  }

  lemma {:induction false} MapAppend<T, U>(f: T -> U, s: seq<T>, x: T)
    ensures Map(f, s + [x]) == Map(f, s) + [f(x)]
  {
  }

  /** The classes are visited in an arbitrary order; the result is a grouping in every case. */
  method DeploymentArtifactGroups(names: Names, artifacts: seq<RemoteArtifact>)
    returns (groups: seq<seq<RemoteArtifact>>, ghost keys: seq<ClassKey>)
    ensures IsGrouping(names, artifacts, keys, groups)
    ensures exists ks :: IsGrouping(names, artifacts, ks, groups)
  {
    hide Members, InOrder, CompleteClass, SortedClass, Map, Sort, BucketOf;
    var splitGroups;
    groups, splitGroups := CollectClasses(names, artifacts);
    ghost var singles := groups;
    keys := [];
    var rest := splitGroups.Keys;
    while rest != {}
      invariant NoDuplicates(keys) && forall key :: key in keys ==> key !in rest
      invariant forall key :: key in splitGroups && key !in rest ==> (key in keys <==> CompleteClass(names, artifacts, key))
      invariant forall key :: key in keys || key in rest ==> key in splitGroups
      invariant groups == singles + Map(SortedClassOf(names, artifacts), keys)
      decreases |rest|
    {
      var key :| key in rest;
      var sorted := Sort(ByIndex(names), splitGroups[key]);
      SortedClassIs(names, artifacts, key);
      InOrderIffComplete(names, artifacts, key);
      if InOrder(names, sorted, key) {
        MapAppend(SortedClassOf(names, artifacts), keys, key);
        groups := groups + [sorted];
        keys := keys + [key];
      }
      rest := rest - {key};
    }
    forall key ensures key in keys <==> CompleteClass(names, artifacts, key) {
      if key !in splitGroups {
        EmptyIncomplete(names, artifacts, key);
      }
    }
  }

  lemma SortedClassIs(names: Names, artifacts: seq<RemoteArtifact>, key: ClassKey)
    ensures SortedClass(names, artifacts, key) == Sort(ByIndex(names), Members(names, artifacts, Shard(key)))
  {
  }

  lemma EmptyIncomplete(names: Names, artifacts: seq<RemoteArtifact>, key: ClassKey)
    requires Members(names, artifacts, Shard(key)) == []
    ensures !CompleteClass(names, artifacts, key)
  {
  }

  // ---- soundness, completeness, no reuse ----

  /** A model file the runtime can load: a GGUF file with a known hash and size that is none of the
      auxiliary kinds. */
  predicate Runnable(a: RemoteArtifact) {
    var file, name := Lower(a.file), Basename(Lower(a.file));
    && a.trustedSha256.Some? && a.sizeBytes.Some? && EndsWith(file, ".gguf")
    && !Contains(file, "mmproj") && !Contains(file, "projector") && !Contains(name, "imatrix")
    && !("mtp-" <= name) && !("draft-" <= name) && !Contains(name, "-draft-")
  }

  lemma EligibleIff(a: RemoteArtifact)
    ensures Eligible(a) <==> Runnable(a)
  {
    hide Lower, Basename, Contains, EndsWith;
  }

  ghost predicate SoundGroup(names: Names, artifacts: seq<RemoteArtifact>, g: seq<RemoteArtifact>) {
    && g != []
    && (forall a :: a in g ==> a in artifacts && Runnable(a))
    && ((|g| == 1 && names.parse(g[0].file) == None && !Contains(Lower(g[0].file), "-of-"))
        || exists parent, prefix :: AreShards(names, g, parent, prefix))
  }

  ghost predicate AreShards(names: Names, g: seq<RemoteArtifact>, parent: string, prefix: string) {
    forall i :: 0 <= i < |g| ==>
      names.parent(g[i].file) == parent && names.parse(g[i].file) == Some(SplitName(prefix, i + 1, |g|))
  }

  lemma SingleSound(names: Names, artifacts: seq<RemoteArtifact>, a: RemoteArtifact)
    requires a in Members(names, artifacts, Unsplit)
    ensures SoundGroup(names, artifacts, [a])
  {
    hide Eligible, Lower, Contains;
    MembersAre(names, artifacts, Unsplit);
    MembersListed(names, artifacts, Unsplit);
    hide Members;
    assert BucketOf(names, a) == Unsplit;
    EligibleIff(a);
  }

  lemma {:induction false} MembersListed(names: Names, artifacts: seq<RemoteArtifact>, bucket: Bucket)
    ensures forall a :: a in Members(names, artifacts, bucket) ==> a in artifacts
  {
    hide BucketOf;
    if artifacts != [] {
      MembersListed(names, artifacts[..|artifacts| - 1], bucket);
    }
  }

  lemma ClassSound(names: Names, artifacts: seq<RemoteArtifact>, key: ClassKey)
    requires CompleteClass(names, artifacts, key)
    ensures SoundGroup(names, artifacts, SortedClass(names, artifacts, key))
  {
    hide Eligible, Lower, Contains;
    InOrderIffComplete(names, artifacts, key);
    ClassParsed(names, artifacts, key);
    MembersListed(names, artifacts, Shard(key));
    IndexOrderTotal(names);
    SortFacts(ByIndex(names), Members(names, artifacts, Shard(key)));
    SameElements(SortedClass(names, artifacts, key), Members(names, artifacts, Shard(key)));
    hide Members, SortedClass, Sort;
    var g := SortedClass(names, artifacts, key);
    forall a | a in g ensures Runnable(a) {
      EligibleIff(a);
    }
    assert AreShards(names, g, key.parent, key.prefix);
  }

  /** Every group is one unsplit file, or the shards 1 to count in order of one directory, prefix and
      count; all its files carry a trusted hash and a size. */
  lemma GroupsSound(names: Names, artifacts: seq<RemoteArtifact>, keys: seq<ClassKey>, groups: seq<seq<RemoteArtifact>>)
    requires IsGrouping(names, artifacts, keys, groups)
    ensures forall g :: g in groups ==> SoundGroup(names, artifacts, g)
  {
    hide SoundGroup, CompleteClass, SortedClass, Members;
    forall g | g in groups ensures SoundGroup(names, artifacts, g) {
      var singles := Members(names, artifacts, Unsplit);
      var i :| 0 <= i < |groups| && groups[i] == g;
      if i < |singles| {
        SingleSound(names, artifacts, singles[i]);
      } else {
        ClassSound(names, artifacts, keys[i - |singles|]);
      }
    }
  }

  /** A shard of the class: a runnable file of its directory whose name parses to its prefix and count. */
  predicate IsShardOf(names: Names, a: RemoteArtifact, key: ClassKey) {
    && Runnable(a) && names.parent(a.file) == key.parent
    && names.parse(a.file).Some? && names.parse(a.file).value.prefix == key.prefix
    && names.parse(a.file).value.count == key.count
  }

  lemma {:induction false} MembersExact(names: Names, artifacts: seq<RemoteArtifact>, bucket: Bucket)
    ensures forall a :: a in Members(names, artifacts, bucket) <==> a in artifacts && BucketOf(names, a) == bucket
  {
    hide BucketOf;
    if artifacts != [] {
      var front, last := artifacts[..|artifacts| - 1], artifacts[|artifacts| - 1];
      MembersExact(names, front, bucket);
      assert artifacts == front + [last];
    }
  }

  /** The members of a class are exactly the shards of it in the listing. */
  lemma ClassMembersExact(names: Names, artifacts: seq<RemoteArtifact>, key: ClassKey)
    ensures forall a :: a in Members(names, artifacts, Shard(key)) <==> a in artifacts && IsShardOf(names, a, key)
  {
    MembersExact(names, artifacts, Shard(key));
    hide Members, Eligible, Runnable, Lower, Contains;
    forall a ensures BucketOf(names, a) == Shard(key) <==> IsShardOf(names, a, key) {
      EligibleIff(a);
    }
  }

  /** No runnable file is dropped whose name neither parses as a shard nor looks like one. */
  lemma UnsplitKept(names: Names, artifacts: seq<RemoteArtifact>, keys: seq<ClassKey>,
                    groups: seq<seq<RemoteArtifact>>, a: RemoteArtifact)
    requires IsGrouping(names, artifacts, keys, groups)
    requires a in artifacts && Runnable(a) && names.parse(a.file).None? && !Contains(Lower(a.file), "-of-")
    ensures [a] in groups
  {
    EligibleIff(a);
    hide Eligible, Runnable, Lower, Contains, IsGrouping;
    assert BucketOf(names, a) == Unsplit;
    GroupsComplete(names, artifacts, keys, groups);
  }

  /** No eligible unsplit file and no class with exactly the indices 1 to count is dropped. */
  lemma GroupsComplete(names: Names, artifacts: seq<RemoteArtifact>, keys: seq<ClassKey>, groups: seq<seq<RemoteArtifact>>)
    requires IsGrouping(names, artifacts, keys, groups)
    ensures forall a :: a in artifacts && BucketOf(names, a) == Unsplit ==> [a] in groups
    ensures forall key :: CompleteClass(names, artifacts, key) ==> SortedClass(names, artifacts, key) in groups
  {
    hide CompleteClass, SortedClass, BucketOf;
    MembersAre(names, artifacts, Unsplit);
    hide Members;
    var singles := Members(names, artifacts, Unsplit);
    forall a | a in artifacts && BucketOf(names, a) == Unsplit ensures [a] in groups {
      var i :| 0 <= i < |singles| && singles[i] == a;
      assert groups[i] == [a];
    }
    forall key | CompleteClass(names, artifacts, key) ensures SortedClass(names, artifacts, key) in groups {
      var i :| 0 <= i < |keys| && keys[i] == key;
      assert groups[|singles| + i] == SortedClass(names, artifacts, key);
    }
  }

  function Flatten(groups: seq<seq<RemoteArtifact>>): seq<RemoteArtifact> {
    if groups == [] then [] else groups[0] + Flatten(groups[1..])
  }

  lemma {:induction false} MembersCount(names: Names, artifacts: seq<RemoteArtifact>, bucket: Bucket, x: RemoteArtifact)
    ensures multiset(Members(names, artifacts, bucket))[x] ==
            if BucketOf(names, x) == bucket then multiset(artifacts)[x] else 0
  {
    hide BucketOf;
    if artifacts != [] {
      var front, last := artifacts[..|artifacts| - 1], artifacts[|artifacts| - 1];
      MembersCount(names, front, bucket, x);
      assert artifacts == front + [last];
    }
  }

  lemma {:induction false} FlattenAppend(a: seq<seq<RemoteArtifact>>, b: seq<seq<RemoteArtifact>>)
    ensures Flatten(a + b) == Flatten(a) + Flatten(b)
  {
    if a == [] {
      assert a + b == b;
    } else {
      assert (a + b)[1..] == a[1..] + b;
      FlattenAppend(a[1..], b);
    }
  }

  lemma {:induction false} FlattenSingles(s: seq<RemoteArtifact>)
    ensures Flatten(Map(Single, s)) == s
  {
    if s != [] {
      FlattenSingles(s[1..]);
      var groups := Map(Single, s);
      assert groups[0] == [s[0]] && groups[1..] == Map(Single, s[1..]);
      hide Map;
      assert s == [s[0]] + s[1..];
    }
  }

  lemma {:induction false} FlattenClasses(names: Names, artifacts: seq<RemoteArtifact>, keys: seq<ClassKey>, x: RemoteArtifact)
    requires NoDuplicates(keys)
    ensures multiset(Flatten(Map(SortedClassOf(names, artifacts), keys)))[x] ==
            if BucketOf(names, x).Shard? && BucketOf(names, x).key in keys then multiset(artifacts)[x] else 0
  {
    hide BucketOf, SortedClass;
    if keys != [] {
      FlattenClasses(names, artifacts, keys[1..], x);
      ClassCount(names, artifacts, keys[0], x);
      FlattenHead(names, artifacts, keys);
      hide Flatten, Map;
      assert keys == [keys[0]] + keys[1..];
      assert keys[0] !in keys[1..];
    }
  }

  lemma FlattenHead(names: Names, artifacts: seq<RemoteArtifact>, keys: seq<ClassKey>)
    requires keys != []
    ensures var m, n := Map(SortedClassOf(names, artifacts), keys), Map(SortedClassOf(names, artifacts), keys[1..]);
            multiset(Flatten(m)) == multiset(SortedClass(names, artifacts, keys[0])) + multiset(Flatten(n))
  {
    hide SortedClass;
    var m := Map(SortedClassOf(names, artifacts), keys);
    assert m == [SortedClass(names, artifacts, keys[0])] + Map(SortedClassOf(names, artifacts), keys[1..]);
    assert Flatten(m) == SortedClass(names, artifacts, keys[0]) + Flatten(m[1..]);
  }

  lemma ClassCount(names: Names, artifacts: seq<RemoteArtifact>, key: ClassKey, x: RemoteArtifact)
    ensures multiset(SortedClass(names, artifacts, key))[x] ==
            if BucketOf(names, x) == Shard(key) then multiset(artifacts)[x] else 0
  {
    IndexOrderTotal(names);
    SortFacts(ByIndex(names), Members(names, artifacts, Shard(key)));
    MembersCount(names, artifacts, Shard(key), x);
  }

  /** No occurrence of an artifact is used twice. */
  lemma NoOccurrenceReused(names: Names, artifacts: seq<RemoteArtifact>, keys: seq<ClassKey>, groups: seq<seq<RemoteArtifact>>)
    requires IsGrouping(names, artifacts, keys, groups)
    ensures multiset(Flatten(groups)) <= multiset(artifacts)
  {
    hide CompleteClass, SortedClass, BucketOf, Members;
    var singles := Members(names, artifacts, Unsplit);
    FlattenAppend(Map(Single, singles), Map(SortedClassOf(names, artifacts), keys));
    FlattenSingles(singles);
    hide Flatten, Map;
    forall x ensures multiset(Flatten(groups))[x] <= multiset(artifacts)[x] {
      MembersCount(names, artifacts, Unsplit, x);
      FlattenClasses(names, artifacts, keys, x);
    }
  }
}
