/** Collecting build evidence: feature discovery, artifact fingerprints and their canonical order. */
module Collection {
  import opened Wrappers
  import opened StringOrder
  import opened Evidence

  datatype OsPath = Utf8(text: string) | NotUtf8(bytes: seq<int>)

  datatype Input = Input(logicalName: string, path: OsPath, external: bool)

  // The length and hexadecimal hash of a stable regular file.
  datatype Fingerprint = Fingerprint(byteLen: nat, sha256: string)

  // Every file that can be fingerprinted. A path that is absent cannot be read, or keeps changing.
  type Files = map<OsPath, Fingerprint>

  datatype BuildEvidence = BuildEvidence(features: seq<string>, linkage: Linkage, artifacts: seq<Artifact>,
                                         digest: string)

  function DirectivePath(path: OsPath): Result<string, EvidenceError> {
    if path.NotUtf8? then Err(PathNotUtf8)
    else if '\n' in path.text || '\r' in path.text then Err(PathHasLineBreak)
    else Ok(path.text)
  }

  predicate Usable(input: Input, files: Files) {
    && ValidName(input.logicalName)
    && (input.external ==> DirectivePath(input.path).Ok?)
    && input.path in files
  }

  predicate DistinctNames(inputs: seq<Input>) {
    forall i, j | 0 <= i < j < |inputs| :: inputs[i].logicalName != inputs[j].logicalName
  }

  predicate Acceptable(features: seq<string>, inputs: seq<Input>, files: Files) {
    && 0 < |inputs| <= MAX_ARTIFACTS && ValidFeatures(features)
    && (forall input <- inputs :: Usable(input, files))
    && DistinctNames(inputs)
  }

  function EvidenceOf(input: Input, files: Files): Artifact
    requires input.path in files
  {
    Artifact(input.logicalName, files[input.path].byteLen, files[input.path].sha256)
  }

  function Names(artifacts: seq<Artifact>): (names: seq<string>)
    ensures |names| == |artifacts|
    ensures forall i | 0 <= i < |artifacts| :: names[i] == artifacts[i].logicalName
  {
    seq(|artifacts|, i requires 0 <= i < |artifacts| => artifacts[i].logicalName)
  }

  // The artifacts hold the evidence of each input, once, sorted by name.
  ghost predicate Gathers(artifacts: seq<Artifact>, inputs: seq<Input>, files: Files) {
    && |artifacts| == |inputs| && StrictlySorted(Names(artifacts))
    && (forall input <- inputs :: input.path in files && EvidenceOf(input, files) in artifacts)
    && (forall a <- artifacts :: exists input <- inputs :: input.path in files && a == EvidenceOf(input, files))
  }

  // What is wrong with one input by itself: its name, else its path as a directive, else its file.
  function Fault(input: Input, files: Files): Option<EvidenceError> {
    match ValidateLogicalName(input.logicalName)
    case Err(e) => Some(e)
    case Ok(_) =>
      if input.external && DirectivePath(input.path).Err? then Some(DirectivePath(input.path).error)
      else if input.path !in files then Some(CannotFingerprint(input.logicalName))
      else None
  }

  // Input `i` is the first that is faulty or repeats a name, and `e` says which.
  ghost predicate InputFault(inputs: seq<Input>, files: Files, i: nat, e: EvidenceError) {
    && i < |inputs| && DistinctNames(inputs[..i]) && (forall input <- inputs[..i] :: Usable(input, files))
    && match Fault(inputs[i], files) {
         case Some(fault) => e == fault
         case None =>
           && e == DuplicateName(inputs[i].logicalName)
           && exists earlier <- inputs[..i] :: earlier.logicalName == inputs[i].logicalName
       }
  }

  // The error of a refused collection: the count, else the first bad feature, else the first bad input.
  ghost predicate Refused(features: seq<string>, inputs: seq<Input>, files: Files, e: EvidenceError) {
    if |inputs| == 0 then e == NoArtifacts
    else if |inputs| > MAX_ARTIFACTS then e == TooManyArtifacts(|inputs|)
    else if !ValidFeatures(features) then exists i :: FeatureFault(features, i, e)
    else exists i :: InputFault(inputs, files, i, e)
  }

  ghost predicate Collected(features: seq<string>, linkage: Linkage, inputs: seq<Input>, files: Files,
                            sha: string -> string, r: Result<BuildEvidence, EvidenceError>) {
    && (r.Ok? <==> Acceptable(features, inputs, files))
    && (r.Ok? ==>
          && r.value.features == features && r.value.linkage == linkage
          && Gathers(r.value.artifacts, inputs, files)
          && r.value.digest == sha(Preimage(features, linkage, r.value.artifacts)))
    && (r.Err? ==> Refused(features, inputs, files, r.error))
  }

  // `BTreeMap::insert` of an absent key.
  function InsertSorted(artifacts: seq<Artifact>, a: Artifact): seq<Artifact>
    requires StrictlySorted(Names(artifacts))
  {
    var k := Place(Names(artifacts), a.logicalName);
    artifacts[..k] + [a] + artifacts[k..]
  }

  lemma Inserted<T>(s: seq<T>, k: nat, x: T)
    requires k <= |s|
    ensures forall y :: y in s[..k] + [x] + s[k..] <==> y in s || y == x
  {
    assert s == s[..k] + s[k..];
  }

  lemma InsertKeepsSorted(artifacts: seq<Artifact>, a: Artifact)
    requires StrictlySorted(Names(artifacts)) && a.logicalName !in Names(artifacts)
    ensures StrictlySorted(Names(InsertSorted(artifacts, a)))
  {
    var k := Place(Names(artifacts), a.logicalName);
    PlacedSorted(Names(artifacts), a.logicalName);
    assert Names(InsertSorted(artifacts, a)) == Names(artifacts)[..k] + [a.logicalName] + Names(artifacts)[k..];
  }

  lemma InsertGathers(artifacts: seq<Artifact>, inputs: seq<Input>, files: Files, input: Input)
    requires Gathers(artifacts, inputs, files) && input.path in files
    requires input.logicalName !in Names(artifacts)
    ensures Gathers(InsertSorted(artifacts, EvidenceOf(input, files)), inputs + [input], files)
  {
    var a := EvidenceOf(input, files);
    InsertKeepsSorted(artifacts, a);
    Inserted(artifacts, Place(Names(artifacts), a.logicalName), a);
    forall x | x in InsertSorted(artifacts, a)
      ensures exists i <- inputs + [input] :: i.path in files && x == EvidenceOf(i, files)
    {
      if x == a {
        assert input in inputs + [input];
      } else {
        var i :| i in inputs && i.path in files && x == EvidenceOf(i, files);
        assert i in inputs + [input];
      }
    }
  }

  // A name is taken exactly when an earlier input has it.
  lemma NameTaken(artifacts: seq<Artifact>, inputs: seq<Input>, files: Files, name: string)
    requires Gathers(artifacts, inputs, files)
    ensures name in Names(artifacts) <==> exists input <- inputs :: input.logicalName == name
  {
    if name in Names(artifacts) {
      var i :| 0 <= i < |artifacts| && Names(artifacts)[i] == name;
      assert artifacts[i] in artifacts;
    }
    if input :| input in inputs && input.logicalName == name {
      var i :| 0 <= i < |artifacts| && artifacts[i] == EvidenceOf(input, files);
      assert Names(artifacts)[i] == name;
    }
  }

  // Validation and fingerprint of one input.
  method Inspect(input: Input, files: Files) returns (r: Result<Artifact, EvidenceError>)
    ensures r.Ok? <==> Usable(input, files)
    ensures r.Ok? ==> r.value == EvidenceOf(input, files)
    ensures r.Err? <==> Fault(input, files).Some?
    ensures r.Err? ==> Fault(input, files) == Some(r.error)
  {
    var name := ValidateLogicalName(input.logicalName);
    if name.Err? {
      return Err(name.error);
    }
    if input.external {
      var directive := DirectivePath(input.path);
      if directive.Err? {
        return Err(directive.error);
      }
    }
    if input.path !in files {
      return Err(CannotFingerprint(input.logicalName));
    }
    r := Ok(EvidenceOf(input, files));
  }

  lemma DistinctSnoc(inputs: seq<Input>, i: nat)
    requires i < |inputs|
    ensures inputs[..i + 1] == inputs[..i] + [inputs[i]]
    ensures DistinctNames(inputs[..i + 1]) <==>
            DistinctNames(inputs[..i]) && forall input <- inputs[..i] :: input.logicalName != inputs[i].logicalName
    ensures DistinctNames(inputs) ==> DistinctNames(inputs[..i + 1])
  {
  }

  // The artifacts gathered from the first `i` inputs, all of them good.
  ghost predicate GatheredFirst(artifacts: seq<Artifact>, inputs: seq<Input>, files: Files, i: nat) {
    && i <= |inputs| && Gathers(artifacts, inputs[..i], files)
    && (forall input <- inputs[..i] :: Usable(input, files)) && DistinctNames(inputs[..i])
  }

  lemma GatherRepeated(artifacts: seq<Artifact>, inputs: seq<Input>, files: Files, i: nat)
    requires GatheredFirst(artifacts, inputs, files, i) && i < |inputs| && Fault(inputs[i], files).None?
    requires inputs[i].logicalName in Names(artifacts)
    ensures InputFault(inputs, files, i, DuplicateName(inputs[i].logicalName))
  {
    NameTaken(artifacts, inputs[..i], files, inputs[i].logicalName);
  }

  lemma GatherStep(artifacts: seq<Artifact>, inputs: seq<Input>, files: Files, i: nat)
    requires GatheredFirst(artifacts, inputs, files, i) && i < |inputs| && Usable(inputs[i], files)
    requires inputs[i].logicalName !in Names(artifacts)
    ensures GatheredFirst(InsertSorted(artifacts, EvidenceOf(inputs[i], files)), inputs, files, i + 1)
  {
    NameTaken(artifacts, inputs[..i], files, inputs[i].logicalName);
    DistinctSnoc(inputs, i);
    InsertGathers(artifacts, inputs[..i], files, inputs[i]);
  }

  // A faulty or repeated input rules the whole list out.
  lemma FaultRefuses(inputs: seq<Input>, files: Files, i: nat, e: EvidenceError)
    requires InputFault(inputs, files, i, e)
    ensures !((forall input <- inputs :: Usable(input, files)) && DistinctNames(inputs))
  {
    if Fault(inputs[i], files).Some? {
      assert inputs[i] in inputs && !Usable(inputs[i], files);
    } else {
      var j :| 0 <= j < i && inputs[..i][j].logicalName == inputs[i].logicalName;
      assert inputs[j].logicalName == inputs[i].logicalName;
    }
  }

  method Gather(inputs: seq<Input>, files: Files) returns (r: Result<seq<Artifact>, EvidenceError>)
    ensures r.Ok? <==> (forall input <- inputs :: Usable(input, files)) && DistinctNames(inputs)
    ensures r.Ok? ==> Gathers(r.value, inputs, files)
    ensures r.Err? ==> exists i :: InputFault(inputs, files, i, r.error)
  {
    var byName: seq<Artifact> := [];
    for i := 0 to |inputs|
      invariant GatheredFirst(byName, inputs, files, i)
    {
      var evidence := Inspect(inputs[i], files);
      if evidence.Err? {
        assert InputFault(inputs, files, i, evidence.error);
        FaultRefuses(inputs, files, i, evidence.error);
        return Err(evidence.error);
      }
      if inputs[i].logicalName in Names(byName) {
        GatherRepeated(byName, inputs, files, i);
        FaultRefuses(inputs, files, i, DuplicateName(inputs[i].logicalName));
        return Err(DuplicateName(inputs[i].logicalName));
      }
      GatherStep(byName, inputs, files, i);
      byName := InsertSorted(byName, evidence.value);
    }
    assert inputs[..|inputs|] == inputs;
    r := Ok(byName);
  }

  method Collect(features: seq<string>, linkage: Linkage, inputs: seq<Input>, files: Files, sha: string -> string)
    returns (r: Result<BuildEvidence, EvidenceError>)
    ensures Collected(features, linkage, inputs, files, sha, r)
  {
    if |inputs| == 0 {
      return Err(NoArtifacts);
    }
    if |inputs| > MAX_ARTIFACTS {
      return Err(TooManyArtifacts(|inputs|));
    }
    var valid := ValidateFeatures(features);
    if valid.Err? {
      return Err(valid.error);
    }
    var gathered := Gather(inputs, files);
    if gathered.Err? {
      return Err(gathered.error);
    }
    var digest := EvidenceDigest(features, linkage, gathered.value, sha);
    r := Ok(BuildEvidence(features, linkage, gathered.value, digest));
  }

  // ---- order of the inputs -----------------------------------------------------------------------------

  lemma CountTwice<T>(s: seq<T>, i: nat, j: nat)
    requires i < j < |s| && s[i] == s[j]
    ensures multiset(s)[s[i]] >= 2
  {
    assert s == s[..j] + s[j..];
    assert s[i] in s[..j] && s[j] in s[j..];
  }

  lemma {:induction false} CountOnce(s: seq<Input>, x: Input)
    requires DistinctNames(s)
    ensures multiset(s)[x] <= 1
  {
    if s != [] {
      var last := |s| - 1;
      assert s == s[..last] + [s[last]];
      CountOnce(s[..last], x);
      assert s[last] !in s[..last];
    }
  }

  lemma PermutationKeepsDistinct(a: seq<Input>, b: seq<Input>)
    requires multiset(a) == multiset(b) && DistinctNames(a)
    ensures DistinctNames(b)
  {
    forall i, j | 0 <= i < j < |b| ensures b[i].logicalName != b[j].logicalName {
      assert b[i] in multiset(b) && b[j] in multiset(b);
      var k :| 0 <= k < |a| && a[k] == b[i];
      var l :| 0 <= l < |a| && a[l] == b[j];
      if k == l {
        CountTwice(b, i, j);
        CountOnce(a, a[k]);
      }
    }
  }

  lemma SameMembers(a: seq<Input>, b: seq<Input>)
    requires multiset(a) == multiset(b)
    ensures |a| == |b| && forall x :: x in a <==> x in b
  {
    assert |multiset(a)| == |a| && |multiset(b)| == |b|;
    forall x ensures x in a <==> x in b {
      assert x in a <==> x in multiset(a);
      assert x in b <==> x in multiset(b);
    }
  }

  lemma GatheredUnique(x: seq<Artifact>, y: seq<Artifact>, inputs: seq<Input>, inputs': seq<Input>, files: Files)
    requires Gathers(x, inputs, files) && Gathers(y, inputs', files)
    requires forall i :: i in inputs <==> i in inputs'
    ensures x == y
  {
    forall name ensures name in Names(x) <==> name in Names(y) {
      NameTaken(x, inputs, files, name);
      NameTaken(y, inputs', files, name);
    }
    SortedUnique(Names(x), Names(y));
    forall k | 0 <= k < |x| ensures x[k] == y[k] {
      assert x[k] in x;
      var i :| i in inputs && x[k] == EvidenceOf(i, files);
      var l :| 0 <= l < |y| && y[l] == x[k];
      assert Names(y)[l] == Names(x)[k] == Names(y)[k];
      Irreflexive(Names(y)[k]);
    }
  }

  // Reordering the inputs changes neither success nor the collected evidence.
  lemma CollectionIgnoresOrder(features: seq<string>, linkage: Linkage, files: Files, sha: string -> string,
                               inputs: seq<Input>, r: Result<BuildEvidence, EvidenceError>,
                               inputs': seq<Input>, r': Result<BuildEvidence, EvidenceError>)
    requires Collected(features, linkage, inputs, files, sha, r)
    requires Collected(features, linkage, inputs', files, sha, r')
    requires multiset(inputs) == multiset(inputs')
    ensures r.Ok? <==> r'.Ok?
    ensures r.Ok? ==> r == r'
  {
    SameMembers(inputs, inputs');
    if DistinctNames(inputs) {
      PermutationKeepsDistinct(inputs, inputs');
    }
    if DistinctNames(inputs') {
      PermutationKeepsDistinct(inputs', inputs);
    }
    if r.Ok? {
      GatheredUnique(r.value.artifacts, r'.value.artifacts, inputs, inputs', files);
    }
  }

  // Equal preimages come from equal evidence, for everything that `Collect` accepts.
  lemma CollectedPreimageInjective(inputs1: seq<Input>, e1: BuildEvidence, inputs2: seq<Input>, e2: BuildEvidence,
                                   files1: Files, files2: Files, sha: string -> string)
    requires Collected(e1.features, e1.linkage, inputs1, files1, sha, Ok(e1))
    requires Collected(e2.features, e2.linkage, inputs2, files2, sha, Ok(e2))
    requires forall p <- files1 :: '\0' !in files1[p].sha256
    requires forall p <- files2 :: '\0' !in files2[p].sha256
    requires Preimage(e1.features, e1.linkage, e1.artifacts) == Preimage(e2.features, e2.linkage, e2.artifacts)
    ensures e1 == e2
  {
    PreimageInjective(e1.features, e1.linkage, e1.artifacts, e2.features, e2.linkage, e2.artifacts);
  }

  // ---- feature discovery ---------------------------------------------------------------------------------

  const FEATURE_PREFIX: string := "CARGO_FEATURE_"

  predicate FeatureKey(key: string) {
    FEATURE_PREFIX <= key
  }

  // The feature that an environment key stands for.
  function Lookup(key: string, k: nat): (feature: Option<string>)
    requires k <= |KNOWN_FEATURES|
    ensures feature.Some? ==> exists i :: k <= i < |KNOWN_FEATURES| && KNOWN_FEATURES[i] == (key, feature.value)
    ensures feature.None? ==> forall i | k <= i < |KNOWN_FEATURES| :: KNOWN_FEATURES[i].0 != key
    decreases |KNOWN_FEATURES| - k
  {
    if k == |KNOWN_FEATURES| then None
    else if KNOWN_FEATURES[k].0 == key then Some(KNOWN_FEATURES[k].1)
    else Lookup(key, k + 1)
  }

  lemma FeaturesDistinct(i: nat, j: nat)
    requires i < |KNOWN_FEATURES| && j < |KNOWN_FEATURES| && KNOWN_FEATURES[i].1 == KNOWN_FEATURES[j].1
    ensures i == j
  {
  }

  // Different keys stand for different features.
  lemma LookupInjective(key1: string, key2: string)
    requires Lookup(key1, 0).Some? && Lookup(key1, 0) == Lookup(key2, 0)
    ensures key1 == key2
  {
    var i := LookupIndex(key1, 0);
    var j := LookupIndex(key2, 0);
    FeaturesDistinct(i, j);
  }

  lemma {:induction false} LookupIndex(key: string, k: nat) returns (i: nat)
    requires k <= |KNOWN_FEATURES| && Lookup(key, k).Some?
    ensures i < |KNOWN_FEATURES| && KNOWN_FEATURES[i].0 == key && KNOWN_FEATURES[i].1 == Lookup(key, k).value
    decreases |KNOWN_FEATURES| - k
  {
    i := k;
    if KNOWN_FEATURES[k].0 != key {
      i := LookupIndex(key, k + 1);
    }
  }

  // Inserting into a sorted set of strings.
  function InsertText(texts: seq<string>, x: string): (r: seq<string>)
    requires StrictlySorted(texts)
    ensures StrictlySorted(r) && forall y :: y in r <==> y in texts || y == x
  {
    if x in texts then texts
    else
      var k := Place(texts, x);
      PlacedSorted(texts, x);
      assert texts == texts[..k] + texts[k..];
      texts[..k] + [x] + texts[k..]
  }

  lemma InsertedNext(texts: seq<string>, sorted: seq<string>, i: nat)
    requires i < |texts| && StrictlySorted(sorted) && forall x :: x in sorted <==> x in texts[..i]
    ensures forall x :: x in InsertText(sorted, texts[i]) <==> x in texts[..i + 1]
  {
    assert texts[..i + 1] == texts[..i] + [texts[i]];
  }

  // Sorting distinct texts.
  method Sort(texts: seq<string>) returns (sorted: seq<string>)
    requires forall i, j | 0 <= i < j < |texts| :: texts[i] != texts[j]
    ensures StrictlySorted(sorted) && forall x :: x in sorted <==> x in texts
  {
    sorted := [];
    for i := 0 to |texts|
      invariant StrictlySorted(sorted) && forall x :: x in sorted <==> x in texts[..i]
    {
      InsertedNext(texts, sorted, i);
      sorted := InsertText(sorted, texts[i]);
    }
    assert texts[..|texts|] == texts;
  }

  // The active feature keys of an environment, as a sorted set.
  method ActiveKeys(env: seq<string>) returns (active: seq<string>)
    ensures StrictlySorted(active)
    ensures forall key :: key in active <==> key in env && FeatureKey(key)
  {
    active := [];
    for i := 0 to |env|
      invariant StrictlySorted(active)
      invariant forall key :: key in active <==> key in env[..i] && FeatureKey(key)
    {
      if FeatureKey(env[i]) {
        active := InsertText(active, env[i]);
      }
      assert env[..i + 1] == env[..i] + [env[i]];
    }
    assert env[..|env|] == env;
  }

  method UnknownKeys(active: seq<string>) returns (unknown: seq<string>)
    ensures forall key :: key in unknown <==> key in active && Lookup(key, 0).None?
  {
    unknown := [];
    for i := 0 to |active|
      invariant forall key :: key in unknown <==> key in active[..i] && Lookup(key, 0).None?
    {
      if Lookup(active[i], 0).None? {
        unknown := unknown + [active[i]];
      }
      assert active[..i + 1] == active[..i] + [active[i]];
    }
    assert active[..|active|] == active;
  }

  // The features of known keys, in the order of the keys.
  predicate Maps(active: seq<string>, features: seq<string>) {
    |features| == |active| && forall i | 0 <= i < |active| :: Lookup(active[i], 0) == Some(features[i])
  }

  method MappedFeatures(active: seq<string>) returns (features: seq<string>)
    requires forall key <- active :: Lookup(key, 0).Some?
    ensures Maps(active, features)
  {
    features := [];
    for i := 0 to |active|
      invariant |features| == i && forall j | 0 <= j < i :: Lookup(active[j], 0) == Some(features[j])
    {
      assert active[i] in active;
      features := features + [Lookup(active[i], 0).value];
    }
  }

  lemma MappedDistinct(active: seq<string>, features: seq<string>)
    requires StrictlySorted(active) && Maps(active, features)
    ensures forall i, j | 0 <= i < j < |features| :: features[i] != features[j]
  {
    forall i, j | 0 <= i < j < |features| ensures features[i] != features[j] {
      if features[i] == features[j] {
        LookupInjective(active[i], active[j]);
        Irreflexive(active[i]);
      }
    }
  }

  lemma MappedMembers(active: seq<string>, features: seq<string>, f: string)
    requires Maps(active, features)
    ensures f in features <==> exists key <- active :: Lookup(key, 0) == Some(f)
  {
    if f in features {
      var i :| 0 <= i < |features| && features[i] == f;
      assert active[i] in active;
    }
    if key :| key in active && Lookup(key, 0) == Some(f) {
      var i :| 0 <= i < |active| && active[i] == key;
      assert features[i] == f;
    }
  }

  lemma LookupKnown(key: string)
    requires Lookup(key, 0).Some?
    ensures Known(Lookup(key, 0).value)
  {
    var i := LookupIndex(key, 0);
  }

  // `env`: the names of the environment variables, in any order.
  method EffectiveFeatures(env: seq<string>) returns (r: Result<seq<string>, EvidenceError>)
    ensures r.Ok? <==> forall key <- env :: FeatureKey(key) ==> Lookup(key, 0).Some?
    ensures r.Ok? ==> ValidFeatures(r.value)
    ensures r.Ok? ==> forall f :: f in r.value <==> exists key <- env :: FeatureKey(key) && Lookup(key, 0) == Some(f)
    ensures r.Err? ==> r.error.UnrecognizedFeatures? && forall key ::
              key in r.error.keys <==> key in env && FeatureKey(key) && Lookup(key, 0).None?
  {
    var active := ActiveKeys(env);
    var unknown := UnknownKeys(active);
    if unknown != [] {
      assert unknown[0] in unknown;
      return Err(UnrecognizedFeatures(unknown));
    }
    forall key <- active ensures Lookup(key, 0).Some? {
      assert key !in unknown;
    }
    var features := MappedFeatures(active);
    MappedDistinct(active, features);
    var sorted := Sort(features);
    SortedFeatures(env, active, features, sorted);
    r := Ok(sorted);
  }

  lemma SortedFeatures(env: seq<string>, active: seq<string>, features: seq<string>, sorted: seq<string>)
    requires forall key :: key in active <==> key in env && FeatureKey(key)
    requires Maps(active, features)
    requires StrictlySorted(sorted) && forall f :: f in sorted <==> f in features
    ensures ValidFeatures(sorted)
    ensures forall f :: f in sorted <==> exists key <- env :: FeatureKey(key) && Lookup(key, 0) == Some(f)
  {
    forall f ensures f in sorted <==> exists key <- env :: FeatureKey(key) && Lookup(key, 0) == Some(f) {
      MappedMembers(active, features, f);
      if key :| key in env && FeatureKey(key) && Lookup(key, 0) == Some(f) {
        assert key in active;
      }
    }
    forall f <- sorted ensures Known(f) {
      var key :| key in env && FeatureKey(key) && Lookup(key, 0) == Some(f);
      LookupKnown(key);
    }
  }
}
