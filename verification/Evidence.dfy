/**
 Build evidence: the canonical texts, the digest preimage that frames them, the validators that make it
 unambiguous, and the collection of artifacts.
 */
module Evidence {
  import opened Wrappers
  import opened StringOrder
  import Decimal

  const FORMAT: string := "llama.native-build-evidence.v1"
  const MAX_ARTIFACTS: nat := 64
  const MAX_LOGICAL_NAME_BYTES: nat := 96

  const KNOWN_FEATURES: seq<(string, string)> := [
    ("CARGO_FEATURE_COMMON", "common"),
    ("CARGO_FEATURE_CUDA", "cuda"),
    ("CARGO_FEATURE_CUDA_NO_VMM", "cuda-no-vmm"),
    ("CARGO_FEATURE_DEFAULT", "default"),
    ("CARGO_FEATURE_DYNAMIC_BACKENDS", "dynamic-backends"),
    ("CARGO_FEATURE_DYNAMIC_LINK", "dynamic-link"),
    ("CARGO_FEATURE_METAL", "metal"),
    ("CARGO_FEATURE_MKL", "mkl"),
    ("CARGO_FEATURE_MTMD", "mtmd"),
    ("CARGO_FEATURE_OPENCL", "opencl"),
    ("CARGO_FEATURE_OPENMP", "openmp"),
    ("CARGO_FEATURE_ROCM", "rocm"),
    ("CARGO_FEATURE_SHARED_STDCXX", "shared-stdcxx"),
    ("CARGO_FEATURE_STATIC_OPENMP", "static-openmp"),
    ("CARGO_FEATURE_STATIC_STDCXX", "static-stdcxx"),
    ("CARGO_FEATURE_SYSTEM_GGML", "system-ggml"),
    ("CARGO_FEATURE_SYSTEM_GGML_STATIC", "system-ggml-static"),
    ("CARGO_FEATURE_VULKAN", "vulkan")
  ]

  datatype NativeLinkage = Static | Shared
  {
    function AsStr(): string { if Static? then "static" else "shared" }
  }

  datatype GgmlOrigin = Vendored | System
  {
    function AsStr(): string { if Vendored? then "vendored" else "system" }
  }

  datatype BackendLinkage = Linked | DynamicModules
  {
    function AsStr(): string { if Linked? then "linked" else "dynamic-modules" }
  }

  datatype Linkage = Linkage(local: NativeLinkage, ggmlOrigin: GgmlOrigin, ggml: NativeLinkage,
                             backends: BackendLinkage)
  {
    function Canonical(): string {
      "local=" + local.AsStr() + ";ggml-origin=" + ggmlOrigin.AsStr() + ";ggml=" + ggml.AsStr()
      + ";backends=" + backends.AsStr()
    }
  }

  datatype Artifact = Artifact(logicalName: string, byteLen: nat, sha256: string)
  {
    function Canonical(): string {
      logicalName + "|" + Decimal.Print(byteLen) + "|" + sha256
    }
  }

  datatype EvidenceError =
    | NoArtifacts
    | TooManyArtifacts(count: nat)
    | UnknownFeature(feature: string)
    | UnsortedFeatures
    | UnrecognizedFeatures(keys: seq<string>)
    | InvalidNameLength(name: string)
    | NameNotCanonical(name: string)
    | InvalidNameComponent(name: string)
    | PathNotUtf8
    | PathHasLineBreak
    | CannotFingerprint(name: string)
    | DuplicateName(name: string)

  // ---- validators ------------------------------------------------------------------------------------

  predicate Known(feature: string) {
    exists k | 0 <= k < |KNOWN_FEATURES| :: KNOWN_FEATURES[k].1 == feature
  }

  predicate ValidFeatures(features: seq<string>) {
    (forall f <- features :: Known(f)) && StrictlySorted(features)
  }

  predicate SortedBelow(texts: seq<string>, n: nat)
    requires n <= |texts|
  {
    forall j, k | 0 <= j < k < n :: Less(texts[j], texts[k])
  }

  // One more text keeps the order exactly when it is above the one before it.
  lemma SortedSnoc(texts: seq<string>, i: nat)
    requires i < |texts| && SortedBelow(texts, i)
    ensures i == 0 ==> SortedBelow(texts, 1)
    ensures i > 0 && !(texts[i - 1] == texts[i] || Less(texts[i], texts[i - 1])) ==> SortedBelow(texts, i + 1)
    ensures i > 0 && (texts[i - 1] == texts[i] || Less(texts[i], texts[i - 1])) ==>
              !Less(texts[i - 1], texts[i]) && !StrictlySorted(texts)
  {
    if i > 0 {
      Irreflexive(texts[i]);
      if texts[i - 1] == texts[i] || Less(texts[i], texts[i - 1]) {
        if Less(texts[i - 1], texts[i]) {
          Asymmetric(texts[i - 1], texts[i]);
        }
      } else {
        Total(texts[i - 1], texts[i], 0);
        forall j | 0 <= j < i - 1 ensures Less(texts[j], texts[i]) {
          Transitive(texts[j], texts[i - 1], texts[i]);
        }
      }
    }
  }

  // Feature `i` is the first that is unknown or not above the one before it, and `e` says which.
  ghost predicate FeatureFault(features: seq<string>, i: nat, e: EvidenceError) {
    && i < |features| && (forall f <- features[..i] :: Known(f)) && SortedBelow(features, i)
    && if !Known(features[i]) then e == UnknownFeature(features[i])
       else e == UnsortedFeatures && 0 < i && !Less(features[i - 1], features[i])
  }

  method ValidateFeatures(features: seq<string>) returns (r: Result<(), EvidenceError>)
    ensures r.Ok? <==> ValidFeatures(features)
    ensures r.Err? ==> exists i :: FeatureFault(features, i, r.error)
  {
    var previous: Option<string> := None;
    for i := 0 to |features|
      invariant forall f <- features[..i] :: Known(f)
      invariant SortedBelow(features, i)
      invariant previous == if i == 0 then None else Some(features[i - 1])
    {
      var feature := features[i];
      if !Known(feature) {
        assert FeatureFault(features, i, UnknownFeature(feature));
        return Err(UnknownFeature(feature));
      }
      SortedSnoc(features, i);
      if previous.Some? && (previous.value == feature || Less(feature, previous.value)) {
        assert FeatureFault(features, i, UnsortedFeatures);
        return Err(UnsortedFeatures);
      }
      previous := Some(feature);
      assert features[..i + 1] == features[..i] + [feature];
    }
    assert features[..|features|] == features;
    r := Ok(());
  }

  predicate NameChar(c: char) {
    'a' <= c <= 'z' || '0' <= c <= '9' || c == '-' || c == '_' || c == '/' || c == '.'
  }

  // `split('/')`
  function Components(name: string): (parts: seq<string>)
    ensures parts != []
  {
    if name == [] then [""]
    else
      var rest := Components(name[1..]);
      if name[0] == '/' then [""] + rest else [[name[0]] + rest[0]] + rest[1..]
  }

  function JoinComponents(parts: seq<string>): string
    requires parts != []
  {
    if |parts| == 1 then parts[0] else parts[0] + "/" + JoinComponents(parts[1..])
  }

  // The components are the '/'-free parts that join back to the name.
  lemma {:induction false} ComponentsJoin(name: string)
    ensures JoinComponents(Components(name)) == name
    ensures forall part <- Components(name) :: '/' !in part
  {
    if name != "" {
      var rest := Components(name[1..]);
      ComponentsJoin(name[1..]);
      assert name == [name[0]] + name[1..];
      if name[0] == '/' {
        assert ([""] + rest)[1..] == rest;
      } else {
        assert ([[name[0]] + rest[0]] + rest[1..])[1..] == rest[1..];
        assert |rest| > 1 ==> name == [name[0]] + rest[0] + "/" + JoinComponents(rest[1..]);
      }
    }
  }

  predicate BadComponent(part: string) {
    part == "" || part == "." || part == ".."
  }

  function ValidateLogicalName(name: string): Result<(), EvidenceError> {
    if name == "" || |name| > MAX_LOGICAL_NAME_BYTES then Err(InvalidNameLength(name))
    else if exists c <- name :: !NameChar(c) then Err(NameNotCanonical(name))
    else if exists part <- Components(name) :: BadComponent(part) then Err(InvalidNameComponent(name))
    else Ok(())
  }

  predicate ValidName(name: string) {
    ValidateLogicalName(name).Ok?
  }

  // ---- the digest preimage -----------------------------------------------------------------------------

  const NUL: string := "\0"

  function Frames(texts: seq<string>): string {
    if texts == [] then "" else texts[0] + NUL + Frames(texts[1..])
  }

  function Canonicals(artifacts: seq<Artifact>): (texts: seq<string>)
    ensures |texts| == |artifacts|
    ensures forall i | 0 <= i < |artifacts| :: texts[i] == artifacts[i].Canonical()
  {
    seq(|artifacts|, i requires 0 <= i < |artifacts| => artifacts[i].Canonical())
  }

  // The format, then the features closed by an empty text, then the linkage, then the artifacts.
  function Preimage(features: seq<string>, linkage: Linkage, artifacts: seq<Artifact>): string {
    FORMAT + NUL + (Frames(features) + NUL + (linkage.Canonical() + NUL + Frames(Canonicals(artifacts))))
  }

  lemma {:induction false} FramesSnoc(texts: seq<string>, text: string)
    ensures Frames(texts + [text]) == Frames(texts) + (text + NUL)
  {
    if texts == [] {
      assert [] + [text] == [text];
    } else {
      assert (texts + [text])[1..] == texts[1..] + [text];
      FramesSnoc(texts[1..], text);
    }
  }

  // Feeds each text and a NUL to the hasher.
  method FeedFrames(fed: string, texts: seq<string>) returns (after: string)
    ensures after == fed + Frames(texts)
  {
    after := fed;
    for i := 0 to |texts|
      invariant after == fed + Frames(texts[..i])
    {
      assert texts[..i + 1] == texts[..i] + [texts[i]];
      FramesSnoc(texts[..i], texts[i]);
      after := after + texts[i];
      after := after + NUL;
    }
    assert texts[..|texts|] == texts;
  }

  // `sha` is the hash of all the bytes fed to the hasher, printed in hexadecimal.
  method EvidenceDigest(features: seq<string>, linkage: Linkage, artifacts: seq<Artifact>, sha: string -> string)
    returns (digest: string)
    ensures digest == sha(Preimage(features, linkage, artifacts))
  {
    var fed := FORMAT + NUL;
    fed := FeedFrames(fed, features);
    fed := fed + NUL;
    var text := linkage.Canonical();
    fed := fed + text;
    fed := fed + NUL;
    fed := FeedFrames(fed, Canonicals(artifacts));
    Assembled(FORMAT + NUL, Frames(features), text, Frames(Canonicals(artifacts)));
    digest := sha(fed);
  }

  lemma Assembled(start: string, features: string, linkage: string, artifacts: string)
    ensures start + features + NUL + linkage + NUL + artifacts
            == start + (features + NUL + (linkage + NUL + artifacts))
  {
  }

  // ---- unique decoding ---------------------------------------------------------------------------------

  // A text without the separator is determined by where the separator first appears.
  lemma SplitAt(sep: char, a: string, x: string, b: string, y: string)
    requires sep !in a && sep !in b
    requires a + [sep] + x == b + [sep] + y
    ensures a == b && x == y
  {
    var s, t := a + [sep] + x, b + [sep] + y;
    assert s[|a|] == sep && t[|b|] == sep;
    assert forall i | 0 <= i < |a| :: s[i] == a[i] && a[i] in a;
    assert forall i | 0 <= i < |b| :: t[i] == b[i] && b[i] in b;
    assert a == s[..|a|] && b == t[..|b|];
    assert x == s[|a| + 1..] && y == t[|b| + 1..];
  }

  predicate Framed(texts: seq<string>) {
    forall t <- texts :: t != "" && '\0' !in t
  }

  // A list of non-empty texts closed by an empty one is read back, and so is what follows.
  lemma {:induction false} ClosedFramesDecode(a: seq<string>, x: string, b: seq<string>, y: string)
    requires Framed(a) && Framed(b)
    requires Frames(a) + NUL + x == Frames(b) + NUL + y
    ensures a == b && x == y
  {
    EmptyFrame(a, x);
    EmptyFrame(b, y);
    if a == [] {
      SplitAt('\0', "", x, "", y);
    } else {
      assert Frames(a) + NUL + x == a[0] + NUL + (Frames(a[1..]) + NUL + x);
      assert Frames(b) + NUL + y == b[0] + NUL + (Frames(b[1..]) + NUL + y);
      assert a[0] in a && b[0] in b;
      SplitAt('\0', a[0], Frames(a[1..]) + NUL + x, b[0], Frames(b[1..]) + NUL + y);
      assert (forall t <- a[1..] :: t in a) && (forall t <- b[1..] :: t in b);
      ClosedFramesDecode(a[1..], x, b[1..], y);
      assert a == [a[0]] + a[1..] && b == [b[0]] + b[1..];
    }
  }

  lemma EmptyFrame(a: seq<string>, rest: string)
    requires Framed(a)
    ensures (Frames(a) + NUL + rest)[0] == '\0' <==> a == []
  {
    if a != [] {
      assert a[0] in a && a[0][0] in a[0];
      assert (Frames(a) + NUL + rest)[0] == a[0][0];
    }
  }

  lemma OpenFramesDecode(a: seq<string>, b: seq<string>)
    requires Framed(a) && Framed(b) && Frames(a) == Frames(b)
    ensures a == b
  {
    assert Frames(a) + NUL + "" == Frames(b) + NUL + "";
    ClosedFramesDecode(a, "", b, "");
  }

  // One "key=value;" field is read back.
  lemma FieldDecodes(key: string, v: string, x: string, w: string, y: string)
    requires ';' !in key && ';' !in v && ';' !in w
    requires key + v + ";" + x == key + w + ";" + y
    ensures v == w && x == y
  {
    SplitAt(';', key + v, x, key + w, y);
    assert v == (key + v)[|key|..] && w == (key + w)[|key|..];
  }

  lemma LinkageFields(a: Linkage)
    ensures ';' !in a.local.AsStr() && ';' !in a.ggmlOrigin.AsStr() && ';' !in a.ggml.AsStr()
    ensures a.local.AsStr()[1] == (if a.local.Static? then 't' else 'h')
    ensures a.ggml.AsStr()[1] == (if a.ggml.Static? then 't' else 'h')
    ensures a.ggmlOrigin.AsStr()[0] == (if a.ggmlOrigin.Vendored? then 'v' else 's')
    ensures a.backends.AsStr()[0] == (if a.backends.Linked? then 'l' else 'd')
  {
  }

  lemma CanonicalFields(a: Linkage)
    ensures a.Canonical() == "local=" + a.local.AsStr() + ";" + Fields1(a)
  {
    Regroup("local=" + a.local.AsStr(), ";", "ggml-origin=", a.ggmlOrigin.AsStr(), ";", "ggml=", a.ggml.AsStr(),
            ";", "backends=", a.backends.AsStr());
    assert ";" + "ggml-origin=" == ";ggml-origin=";
    assert ";" + "ggml=" == ";ggml=";
    assert ";" + "backends=" == ";backends=";
  }

  lemma Regroup(a: string, b: string, c: string, d: string, e: string, f: string, g: string, h: string,
                i: string, j: string)
    ensures a + (b + c) + d + (e + f) + g + (h + i) + j == a + b + (c + d + e + (f + g + h + (i + j)))
  {
  }

  function Fields1(a: Linkage): string {
    "ggml-origin=" + a.ggmlOrigin.AsStr() + ";" + Fields2(a)
  }

  function Fields2(a: Linkage): string {
    "ggml=" + a.ggml.AsStr() + ";" + ("backends=" + a.backends.AsStr())
  }

  lemma CanonicalLinkageInjective(a: Linkage, b: Linkage)
    requires a.Canonical() == b.Canonical()
    ensures a == b
  {
    LinkageFields(a);
    LinkageFields(b);
    CanonicalFields(a);
    CanonicalFields(b);
    FieldDecodes("local=", a.local.AsStr(), Fields1(a), b.local.AsStr(), Fields1(b));
    FieldDecodes("ggml-origin=", a.ggmlOrigin.AsStr(), Fields2(a), b.ggmlOrigin.AsStr(), Fields2(b));
    var x, y := "backends=" + a.backends.AsStr(), "backends=" + b.backends.AsStr();
    FieldDecodes("ggml=", a.ggml.AsStr(), x, b.ggml.AsStr(), y);
    assert x[9..] == a.backends.AsStr() && y[9..] == b.backends.AsStr();
  }

  // What validation and hexadecimal formatting guarantee of a collected artifact.
  predicate Encodable(a: Artifact) {
    ValidName(a.logicalName) && '\0' !in a.sha256
  }

  lemma NameFreeOf(name: string, c: char)
    requires ValidName(name) && !NameChar(c)
    ensures c !in name
  {
  }

  lemma CanonicalFramed(a: Artifact)
    requires Encodable(a)
    ensures a.Canonical() != "" && '\0' !in a.Canonical()
  {
  }

  lemma CanonicalInjective(a: Artifact, b: Artifact)
    requires Encodable(a) && Encodable(b) && a.Canonical() == b.Canonical()
    ensures a == b
  {
    NameFreeOf(a.logicalName, '|');
    NameFreeOf(b.logicalName, '|');
    var x, y := Decimal.Print(a.byteLen), Decimal.Print(b.byteLen);
    assert a.Canonical() == a.logicalName + "|" + (x + "|" + a.sha256);
    assert b.Canonical() == b.logicalName + "|" + (y + "|" + b.sha256);
    SplitAt('|', a.logicalName, x + "|" + a.sha256, b.logicalName, y + "|" + b.sha256);
    SplitAt('|', x, a.sha256, y, b.sha256);
    Decimal.PrintInjective(a.byteLen, b.byteLen);
  }

  lemma KnownFramed(features: seq<string>)
    requires ValidFeatures(features)
    ensures Framed(features)
  {
  }

  // The digested bytes determine everything they were made from.
  lemma PreimageInjective(f1: seq<string>, l1: Linkage, a1: seq<Artifact>,
                          f2: seq<string>, l2: Linkage, a2: seq<Artifact>)
    requires ValidFeatures(f1) && ValidFeatures(f2)
    requires (forall a <- a1 :: Encodable(a)) && (forall a <- a2 :: Encodable(a))
    requires Preimage(f1, l1, a1) == Preimage(f2, l2, a2)
    ensures f1 == f2 && l1 == l2 && a1 == a2
  {
    var t1, t2 := l1.Canonical() + NUL + Frames(Canonicals(a1)), l2.Canonical() + NUL + Frames(Canonicals(a2));
    assert Preimage(f1, l1, a1)[|FORMAT + NUL|..] == Frames(f1) + NUL + t1;
    assert Preimage(f2, l2, a2)[|FORMAT + NUL|..] == Frames(f2) + NUL + t2;
    KnownFramed(f1);
    KnownFramed(f2);
    ClosedFramesDecode(f1, t1, f2, t2);
    LinkageFramed(l1);
    LinkageFramed(l2);
    SplitAt('\0', l1.Canonical(), Frames(Canonicals(a1)), l2.Canonical(), Frames(Canonicals(a2)));
    CanonicalLinkageInjective(l1, l2);
    forall a | a in a1 || a in a2 ensures a.Canonical() != "" && '\0' !in a.Canonical() {
      CanonicalFramed(a);
    }
    OpenFramesDecode(Canonicals(a1), Canonicals(a2));
    forall i | 0 <= i < |a1| ensures a1[i] == a2[i] {
      assert a1[i] in a1 && a2[i] in a2;
      assert Canonicals(a1)[i] == Canonicals(a2)[i];
      CanonicalInjective(a1[i], a2[i]);
    }
  }

  lemma LinkageTextsFramed(l: Linkage)
    ensures '\0' !in l.local.AsStr() && '\0' !in l.ggmlOrigin.AsStr()
    ensures '\0' !in l.ggml.AsStr() && '\0' !in l.backends.AsStr()
  {
  }

  lemma LinkageFramed(l: Linkage)
    ensures '\0' !in l.Canonical()
  {
    LinkageTextsFramed(l);
    CanonicalFields(l);
    assert '\0' !in Fields2(l);
    assert '\0' !in Fields1(l);
  }
}
