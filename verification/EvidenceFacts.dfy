/** What the validators, the feature table and the canonical texts of build evidence come to, spelled out. */
module EvidenceFacts {
  import opened Wrappers
  import opened StringOrder
  import opened Evidence
  import opened Collection
  import opened ArtifactNames
  import Decimal

  // ---- the feature table -------------------------------------------------------------------------------

  // Each feature of the table comes before the next, by the first character in which they differ.
  lemma NextFeature(i: nat)
    requires i + 1 < |KNOWN_FEATURES|
    ensures Less(KNOWN_FEATURES[i].1, KNOWN_FEATURES[i + 1].1)
  {
    var a, b := KNOWN_FEATURES[i].1, KNOWN_FEATURES[i + 1].1;
    if i == 1 || i == 15 {
      PrefixBefore(a, b);
    } else {
      var k := [1, 0, 0, 1, 8, 0, 1, 1, 0, 4, 0, 0, 1, 7, 1, 0, 0][i];
      SmallerAt(a, b, k);
    }
  }

  function TableFeatures(n: nat): (features: seq<string>)
    requires n <= |KNOWN_FEATURES|
    ensures |features| == n && forall i | 0 <= i < n :: features[i] == KNOWN_FEATURES[i].1
  {
    seq(n, i requires 0 <= i < n => KNOWN_FEATURES[i].1)
  }

  // The table is in order, so that all features together are a valid list.
  lemma {:induction false} TableSorted(n: nat)
    requires n <= |KNOWN_FEATURES|
    ensures ValidFeatures(TableFeatures(n))
  {
    if n > 0 {
      TableSorted(n - 1);
      forall i | 0 <= i < n - 1 ensures Less(KNOWN_FEATURES[i].1, KNOWN_FEATURES[n - 1].1) {
        NextFeature(n - 2);
        if i < n - 2 {
          assert Less(TableFeatures(n - 1)[i], TableFeatures(n - 1)[n - 2]);
          Transitive(KNOWN_FEATURES[i].1, KNOWN_FEATURES[n - 2].1, KNOWN_FEATURES[n - 1].1);
        }
      }
    }
  }

  // Cargo's spelling of a feature in its variable: upper case, with '_' for '-'.
  function VariableChar(c: char): char {
    if 'a' <= c <= 'z' then c - 'a' + 'A' else if c == '-' then '_' else c
  }

  // `key` is "CARGO_FEATURE_" and the feature in Cargo's spelling.
  predicate Spells(key: string, feature: string) {
    "CARGO_FEATURE_" <= key && SpelledAs(key[|"CARGO_FEATURE_"|..], feature)
  }

  predicate SpelledAs(variable: string, feature: string) {
    |variable| == |feature| && forall j | 0 <= j < |feature| :: variable[j] == VariableChar(feature[j])
  }

  lemma SpellsVariable(variable: string, feature: string)
    requires SpelledAs(variable, feature)
    ensures Spells("CARGO_FEATURE_" + variable, feature)
  {
    assert ("CARGO_FEATURE_" + variable)[|"CARGO_FEATURE_"|..] == variable;
  }

  lemma SpelledPlain()
    ensures Spells("CARGO_FEATURE_COMMON", "common")
    ensures Spells("CARGO_FEATURE_DEFAULT", "default")
    ensures Spells("CARGO_FEATURE_VULKAN", "vulkan")
  {
    SpellsVariable("COMMON", "common");
    SpellsVariable("DEFAULT", "default");
    SpellsVariable("VULKAN", "vulkan");
    assert "CARGO_FEATURE_" + "COMMON" == "CARGO_FEATURE_COMMON";
    assert "CARGO_FEATURE_" + "DEFAULT" == "CARGO_FEATURE_DEFAULT";
    assert "CARGO_FEATURE_" + "VULKAN" == "CARGO_FEATURE_VULKAN";
  }

  lemma SpelledGpu()
    ensures Spells("CARGO_FEATURE_CUDA", "cuda")
    ensures Spells("CARGO_FEATURE_ROCM", "rocm")
  {
    SpellsVariable("CUDA", "cuda");
    SpellsVariable("ROCM", "rocm");
    assert "CARGO_FEATURE_" + "CUDA" == "CARGO_FEATURE_CUDA";
    assert "CARGO_FEATURE_" + "ROCM" == "CARGO_FEATURE_ROCM";
  }

  lemma SpelledMiddle()
    ensures Spells("CARGO_FEATURE_METAL", "metal")
    ensures Spells("CARGO_FEATURE_MKL", "mkl")
    ensures Spells("CARGO_FEATURE_MTMD", "mtmd")
    ensures Spells("CARGO_FEATURE_OPENCL", "opencl")
    ensures Spells("CARGO_FEATURE_OPENMP", "openmp")
  {
    SpellsVariable("METAL", "metal");
    SpellsVariable("MKL", "mkl");
    SpellsVariable("MTMD", "mtmd");
    SpellsVariable("OPENCL", "opencl");
    SpellsVariable("OPENMP", "openmp");
    assert "CARGO_FEATURE_" + "METAL" == "CARGO_FEATURE_METAL";
    assert "CARGO_FEATURE_" + "MKL" == "CARGO_FEATURE_MKL";
    assert "CARGO_FEATURE_" + "MTMD" == "CARGO_FEATURE_MTMD";
    assert "CARGO_FEATURE_" + "OPENCL" == "CARGO_FEATURE_OPENCL";
    assert "CARGO_FEATURE_" + "OPENMP" == "CARGO_FEATURE_OPENMP";
  }

  lemma SpelledCudaNoVmm()
    ensures Spells("CARGO_FEATURE_CUDA_NO_VMM", "cuda-no-vmm")
  {
    SpellsVariable("CUDA_NO_VMM", "cuda-no-vmm");
    assert "CARGO_FEATURE_" + "CUDA_NO_VMM" == "CARGO_FEATURE_CUDA_NO_VMM";
  }

  lemma SpelledDynamicBackends()
    ensures Spells("CARGO_FEATURE_DYNAMIC_BACKENDS", "dynamic-backends")
  {
    SpellsVariable("DYNAMIC_BACKENDS", "dynamic-backends");
    assert "CARGO_FEATURE_" + "DYNAMIC_BACKENDS" == "CARGO_FEATURE_DYNAMIC_BACKENDS";
  }

  lemma SpelledDynamicLink()
    ensures Spells("CARGO_FEATURE_DYNAMIC_LINK", "dynamic-link")
  {
    SpellsVariable("DYNAMIC_LINK", "dynamic-link");
    assert "CARGO_FEATURE_" + "DYNAMIC_LINK" == "CARGO_FEATURE_DYNAMIC_LINK";
  }

  lemma SpelledSharedStdcxx()
    ensures Spells("CARGO_FEATURE_SHARED_STDCXX", "shared-stdcxx")
  {
    SpellsVariable("SHARED_STDCXX", "shared-stdcxx");
    assert "CARGO_FEATURE_" + "SHARED_STDCXX" == "CARGO_FEATURE_SHARED_STDCXX";
  }

  lemma SpelledStaticOpenmp()
    ensures Spells("CARGO_FEATURE_STATIC_OPENMP", "static-openmp")
  {
    SpellsVariable("STATIC_OPENMP", "static-openmp");
    assert "CARGO_FEATURE_" + "STATIC_OPENMP" == "CARGO_FEATURE_STATIC_OPENMP";
  }

  lemma SpelledStaticStdcxx()
    ensures Spells("CARGO_FEATURE_STATIC_STDCXX", "static-stdcxx")
  {
    SpellsVariable("STATIC_STDCXX", "static-stdcxx");
    assert "CARGO_FEATURE_" + "STATIC_STDCXX" == "CARGO_FEATURE_STATIC_STDCXX";
  }

  lemma SpelledSystemGgml()
    ensures Spells("CARGO_FEATURE_SYSTEM_GGML", "system-ggml")
  {
    SpellsVariable("SYSTEM_GGML", "system-ggml");
    assert "CARGO_FEATURE_" + "SYSTEM_GGML" == "CARGO_FEATURE_SYSTEM_GGML";
  }

  lemma SpelledSystemGgmlStatic()
    ensures Spells("CARGO_FEATURE_SYSTEM_GGML_STATIC", "system-ggml-static")
  {
    SpellsVariable("SYSTEM_GGML_STATIC", "system-ggml-static");
    assert "CARGO_FEATURE_" + "SYSTEM_GGML_STATIC" == "CARGO_FEATURE_SYSTEM_GGML_STATIC";
  }

  // Every variable of the table spells its own feature.
  lemma VariableSpellsFeature(i: nat)
    requires i < |KNOWN_FEATURES|
    ensures Spells(KNOWN_FEATURES[i].0, KNOWN_FEATURES[i].1)
  {
    hide Spells;
    SpelledPlain();
    SpelledGpu();
    SpelledMiddle();
    SpelledCudaNoVmm();
    SpelledDynamicBackends();
    SpelledDynamicLink();
    SpelledSharedStdcxx();
    SpelledStaticOpenmp();
    SpelledStaticStdcxx();
    SpelledSystemGgml();
    SpelledSystemGgmlStatic();
  }

  // Which variables count, and which of them are recognized.
  lemma RecognizedVariables(key: string, feature: string)
    ensures FeatureKey(key) <==> exists rest :: key == "CARGO_FEATURE_" + rest
    ensures Lookup(key, 0) == Some(feature) <==> (key, feature) in KNOWN_FEATURES
  {
    if FeatureKey(key) {
      assert key == "CARGO_FEATURE_" + key[|"CARGO_FEATURE_"|..];
    }
    if Lookup(key, 0) == Some(feature) {
      var i := LookupIndex(key, 0);
      assert KNOWN_FEATURES[i] == (key, feature);
    }
    if (key, feature) in KNOWN_FEATURES {
      KeyOnce(key, feature, 0);
    }
  }

  lemma KeysDistinct(i: nat, j: nat)
    requires i < |KNOWN_FEATURES| && j < |KNOWN_FEATURES| && KNOWN_FEATURES[i].0 == KNOWN_FEATURES[j].0
    ensures i == j
  {
  }

  lemma KeyOnce(key: string, feature: string, k: nat)
    requires (key, feature) in KNOWN_FEATURES
    ensures Lookup(key, 0) == Some(feature)
  {
    var j :| 0 <= j < |KNOWN_FEATURES| && KNOWN_FEATURES[j] == (key, feature);
    assert KNOWN_FEATURES[j].0 == key;
    var i := LookupIndex(key, 0);
    KeysDistinct(i, j);
  }

  // ---- the digested bytes ------------------------------------------------------------------------------

  lemma LinkageText(l: Linkage)
    ensures l.Canonical() ==
            "local=" + (if l.local.Static? then "static" else "shared")
            + ";ggml-origin=" + (if l.ggmlOrigin.Vendored? then "vendored" else "system")
            + ";ggml=" + (if l.ggml.Static? then "static" else "shared")
            + ";backends=" + (if l.backends.Linked? then "linked" else "dynamic-modules")
  {
  }

  // The bytes for two features and two artifacts, in order.
  lemma PreimageOfTwo(f: string, g: string, l: Linkage, a: Artifact, b: Artifact)
    ensures Preimage([f, g], l, [a, b]) ==
            "llama.native-build-evidence.v1" + "\0"
            + (f + "\0" + (g + "\0") + "\0" + (l.Canonical() + "\0" + (a.Canonical() + "\0" + (b.Canonical() + "\0"))))
  {
    TwoFrames(f, g);
    TwoFrames(a.Canonical(), b.Canonical());
    assert Canonicals([a, b]) == [a.Canonical(), b.Canonical()];
  }

  lemma TwoFrames(a: string, b: string)
    ensures Frames([a, b]) == a + "\0" + (b + "\0")
  {
    assert [a, b][1..] == [b] && [b][1..] == [];
    assert Frames([b]) == b + "\0" + "" == b + "\0";
  }

  // ---- logical names -----------------------------------------------------------------------------------

  lemma OccursShifted(start: string, tail: string, part: string, i: nat)
    requires |start| <= i <= |start + tail|
    ensures OccursAt(start + tail, part, i) <==> OccursAt(tail, part, i - |start|)
  {
    if i + |part| <= |start + tail| {
      assert (start + tail)[i..i + |part|] == tail[i - |start|..i - |start| + |part|];
    }
  }

  lemma NoSlashInFirst(first: string, tail: string)
    requires '/' !in first
    ensures forall i | 0 < i <= |first| :: ("/" + first + tail)[i] != '/'
  {
    assert forall i | 0 < i <= |first| :: ("/" + first + tail)[i] == first[i - 1] && first[i - 1] in first;
  }

  // After a first text without slashes, a part between slashes is that text or is found later.
  lemma PartFirstOrLater(first: string, tail: string, part: string)
    requires '/' !in first && '/' !in part && tail != "" && tail[0] == '/'
    ensures Contains("/" + first + tail, "/" + part + "/") <==> part == first || Contains(tail, "/" + part + "/")
  {
    var start, wanted := "/" + first, "/" + part + "/";
    var whole := start + tail;
    NoSlashInFirst(first, tail);
    if i: nat :| i <= |whole| && OccursAt(whole, wanted, i) {
      if i < |start| {
        assert whole[i] == whole[i..i + |wanted|][0] == '/';
        FirstPart(first, tail, part);
      } else {
        OccursShifted(start, tail, wanted, i);
      }
    }
    if part == first {
      assert whole[..|wanted|] == wanted;
      assert OccursAt(whole, wanted, 0);
    } else if i: nat :| i <= |tail| && OccursAt(tail, wanted, i) {
      OccursShifted(start, tail, wanted, |start| + i);
    }
  }

  lemma FirstPart(first: string, tail: string, part: string)
    requires '/' !in first && '/' !in part && tail != "" && tail[0] == '/'
    requires OccursAt("/" + first + tail, "/" + part + "/", 0)
    ensures part == first
  {
    var whole, wanted := "/" + first + tail, "/" + part + "/";
    assert whole == wanted + whole[|wanted|..];
    assert whole[1..] == part + ['/'] + whole[|wanted|..];
    assert whole[1..] == first + ['/'] + tail[1..];
    SplitAt('/', part, whole[|wanted|..], first, tail[1..]);
  }

  lemma {:induction false} FirstSlash(name: string) returns (k: nat)
    requires '/' in name
    ensures k < |name| && name[k] == '/' && '/' !in name[..k]
  {
    k := 0;
    if name[0] != '/' {
      k := FirstSlash(name[1..]);
      assert name[..k + 1] == [name[0]] + name[1..][..k];
      k := k + 1;
    }
  }

  // The components of a name are what stands between two slashes of it, its two ends counting as slashes.
  lemma {:induction false} ComponentBetweenSlashes(name: string, part: string)
    requires '/' !in part
    ensures part in Components(name) <==> Contains("/" + name + "/", "/" + part + "/")
    decreases |name|
  {
    if '/' !in name {
      OneComponent(name);
      PartFirstOrLater(name, "/", part);
      assert !Contains("/", "/" + part + "/");
    } else {
      var k := FirstSlash(name);
      var first, rest := name[..k], name[k + 1..];
      assert name == first + "/" + rest;
      SplitsFirst(first, rest);
      ComponentBetweenSlashes(rest, part);
      PartFirstOrLater(first, "/" + rest + "/", part);
      assert "/" + name + "/" == "/" + first + ("/" + rest + "/");
    }
  }

  // A logical name is valid exactly when it has 1 to 96 canonical bytes and no empty, "." or ".." part.
  lemma ValidNameExactly(name: string)
    ensures ValidName(name) <==>
            && 0 < |name| <= 96
            && (forall c <- name :: 'a' <= c <= 'z' || '0' <= c <= '9' || c == '-' || c == '_' || c == '/' || c == '.')
            && !Contains("/" + name + "/", "//")
            && !Contains("/" + name + "/", "/./") && !Contains("/" + name + "/", "/../")
  {
    ComponentBetweenSlashes(name, "");
    ComponentBetweenSlashes(name, ".");
    ComponentBetweenSlashes(name, "..");
    assert "/" + "" + "/" == "//" && "/" + "." + "/" == "/./" && "/" + ".." + "/" == "/../";
  }

  // Which of its faults an invalid name is refused for.
  lemma NameFaultReported(name: string)
    ensures |name| == 0 || |name| > 96 ==> ValidateLogicalName(name) == Err(InvalidNameLength(name))
    ensures 0 < |name| <= 96 && (exists c <- name :: 'A' <= c <= 'Z' || c == ' ' || c == '\\' || c > '~') ==>
              ValidateLogicalName(name) == Err(NameNotCanonical(name))
    ensures ValidateLogicalName(name).Err? && 0 < |name| <= 96
            && (forall c <- name :: 'a' <= c <= 'z' || c == '/' || c == '.') ==>
              ValidateLogicalName(name) == Err(InvalidNameComponent(name))
  {
  }

  // ---- refusals ----------------------------------------------------------------------------------------

  // The name comes first, then the directive of an external input, then the file.
  lemma InputFaults(input: Input, files: Files)
    requires ValidName(input.logicalName)
    ensures input.external && input.path.NotUtf8? ==> Fault(input, files) == Some(PathNotUtf8)
    ensures input.external && input.path.Utf8? && ('\n' in input.path.text || '\r' in input.path.text) ==>
              Fault(input, files) == Some(PathHasLineBreak)
    ensures !input.external || (input.path.Utf8? && '\n' !in input.path.text && '\r' !in input.path.text) ==>
              Fault(input, files) == if input.path in files then None else Some(CannotFingerprint(input.logicalName))
  {
  }

  lemma FirstFeatureFirst(features: seq<string>, e: EvidenceError)
    requires features != [] && exists i :: FeatureFault(features, i, e)
    ensures Known(features[0]) || e == UnknownFeature(features[0])
  {
    var i: nat :| FeatureFault(features, i, e);
    if 0 < i {
      assert features[..i][0] == features[0];
    }
  }

  lemma FirstInputFirst(inputs: seq<Input>, files: Files, e: EvidenceError)
    requires inputs != [] && exists i :: InputFault(inputs, files, i, e)
    ensures Usable(inputs[0], files) || Fault(inputs[0], files) == Some(e)
  {
    var i: nat :| InputFault(inputs, files, i, e);
    if 0 < i {
      assert inputs[..i][0] == inputs[0];
    } else {
      assert inputs[..0] == [];
    }
  }

  // The count comes first, then the features in order.
  lemma CountAndFeatureRefusals(features: seq<string>, linkage: Linkage, inputs: seq<Input>, files: Files,
                                sha: string -> string, r: Result<BuildEvidence, EvidenceError>)
    requires Collected(features, linkage, inputs, files, sha, r)
    ensures inputs == [] ==> r == Err(NoArtifacts)
    ensures |inputs| > 64 ==> r == Err(TooManyArtifacts(|inputs|))
    ensures 0 < |inputs| <= 64 && features != [] && !Known(features[0]) ==> r == Err(UnknownFeature(features[0]))
    ensures 0 < |inputs| <= 64 && features == ["metal", "common"] ==> r == Err(UnsortedFeatures)
  {
    if 0 < |inputs| <= 64 && features == ["metal", "common"] {
      SmallerAt("common", "metal", 0);
      Asymmetric("common", "metal");
      assert features[0] in features && features[1] in features;
      TableKnows(6);
      TableKnows(0);
    } else if 0 < |inputs| <= 64 && features != [] && !Known(features[0]) {
      assert features[0] in features;
      FirstFeatureFirst(features, r.error);
    }
  }

  // With good features, the first input is judged before the later ones.
  lemma InputRefusals(linkage: Linkage, inputs: seq<Input>, files: Files, sha: string -> string,
                      r: Result<BuildEvidence, EvidenceError>)
    requires Collected([], linkage, inputs, files, sha, r)
    requires 0 < |inputs| <= 64 && Fault(inputs[0], files).Some?
    ensures r == Err(Fault(inputs[0], files).value)
  {
    assert inputs[0] in inputs && !Usable(inputs[0], files);
    FirstInputFirst(inputs, files, r.error);
  }

  lemma TableKnows(i: nat)
    requires i < |KNOWN_FEATURES|
    ensures Known(KNOWN_FEATURES[i].1)
  {
  }

  // Only the table's features are known.
  lemma KnownExactly(feature: string)
    ensures Known(feature) <==> feature in TableFeatures(18)
  {
    if feature in TableFeatures(18) {
      var i :| 0 <= i < 18 && TableFeatures(18)[i] == feature;
      TableKnows(i);
    }
    if Known(feature) {
      var i :| 0 <= i < |KNOWN_FEATURES| && KNOWN_FEATURES[i].1 == feature;
      assert TableFeatures(18)[i] == feature;
    }
  }

  // Two good inputs of one name are a duplicate.
  lemma SameNameTwice(linkage: Linkage, a: Input, b: Input, files: Files, sha: string -> string,
                      r: Result<BuildEvidence, EvidenceError>)
    requires Collected([], linkage, [a, b], files, sha, r) && Usable(a, files) && Usable(b, files)
    requires a.logicalName == b.logicalName
    ensures r == Err(DuplicateName(a.logicalName))
  {
    assert [a, b][0].logicalName == [a, b][1].logicalName;
    var i: nat :| InputFault([a, b], files, i, r.error);
    assert i == 0 ==> [a, b][..i] == [];
  }

  // Of two good inputs the one with the smaller name comes first.
  lemma SmallerNameFirst(linkage: Linkage, a: Input, b: Input, files: Files, sha: string -> string,
                         r: Result<BuildEvidence, EvidenceError>)
    requires Collected([], linkage, [a, b], files, sha, r) && Usable(a, files) && Usable(b, files)
    requires Less(b.logicalName, a.logicalName)
    ensures r.Ok? && r.value.artifacts == [Artifact(b.logicalName, files[b.path].byteLen, files[b.path].sha256),
                                           Artifact(a.logicalName, files[a.path].byteLen, files[a.path].sha256)]
    ensures r.Ok? && r.value.digest == sha(Preimage([], linkage, r.value.artifacts))
  {
    Irreflexive(a.logicalName);
    var x, y := EvidenceOf(b, files), EvidenceOf(a, files);
    assert Acceptable([], [a, b], files);
    assert a in [a, b] && b in [a, b];
    assert Gathers([x, y], [a, b], files) by {
      assert Names([x, y]) == [b.logicalName, a.logicalName];
    }
    GatheredUnique(r.value.artifacts, [x, y], [a, b], [a, b], files);
  }

  // ---- artifact names ----------------------------------------------------------------------------------

  // Canonical bytes stay, so naming twice changes nothing; every other byte becomes a canonical one.
  lemma CanonicalBytes(c: char)
    ensures CanonicalByte(CanonicalByte(c)) == CanonicalByte(c)
    ensures 'a' <= c <= 'z' || '0' <= c <= '9' || c == '-' || c == '_' || c == '.' ==> CanonicalByte(c) == c
    ensures 'A' <= c <= 'Z' ==> CanonicalByte(c) as int == c as int + 32
    ensures c == '/' || c == '+' || c == ' ' || c >= '{' ==> CanonicalByte(c) == '_'
  {
  }

  lemma ContainsExactly(s: string, part: string)
    ensures Contains(s, part) <==> exists a, b :: s == a + part + b
  {
    if i: nat :| i <= |s| && OccursAt(s, part, i) {
      assert s == s[..i] + part + s[i + |part|..];
    }
    if a, b :| s == a + part + b {
      assert OccursAt(s, part, |a|);
    }
  }

  // The family of a linked library: "ggml" by its prefix, then exactly "llama", then "common" anywhere,
  // then the prefix "mtmd".
  lemma LinkedFamilies(component: string)
    ensures var common := exists a, b :: component == a + "common" + b;
            && ("ggml" <= component ==> Family(component) == "ggml")
            && (component == "llama" ==> Family(component) == "llama")
            && (common && !("ggml" <= component) ==> Family(component) == "common")
            && (!common && "mtmd" <= component ==> Family(component) == "mtmd")
            && (!common && component != "llama" && !("ggml" <= component) && !("mtmd" <= component)
                ==> Family(component) == "native")
  {
    ContainsExactly(component, "common");
    if component == "llama" {
      assert component[0] != "ggml"[0];
      assert forall i: nat :: !OccursAt(component, "common", i);
    }
  }

  // A linked name is family, component and role.
  lemma LinkedNameIs(libName: string)
    ensures LinkedName(libName) == Family(CanonicalComponent(libName)) + ("/" + CanonicalComponent(libName) + "/link")
  {
    var family, component := Family(CanonicalComponent(libName)), CanonicalComponent(libName);
    assert family + "/" + component + "/link" == family + ("/" + component + "/link");
  }

  // A runtime name is family, component and role.
  lemma RuntimeNameIs(fileName: string, family: string)
    ensures RuntimeName(fileName, family) == family + ("/" + CanonicalComponent(fileName) + "/runtime")
  {
    var component := CanonicalComponent(fileName);
    assert family + "/" + component + "/runtime" == family + ("/" + component + "/runtime");
  }

  lemma KnownName()
    ensures LinkedName("ggml-base") == "ggml/ggml-base/link"
  {
    assert CanonicalComponent("ggml-base") == "ggml-base";
  }
}
