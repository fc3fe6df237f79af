/** Naming native artifacts in the build script, and the map that deduplicates them. */
module ArtifactNames {
  import opened Wrappers
  import opened Evidence
  import opened Collection

  // ---- names -------------------------------------------------------------------------------------------

  // A library name is its bytes, one `char` per byte.
  function CanonicalByte(c: char): (d: char)
    ensures NameChar(d) && d != '/'
  {
    if 'A' <= c <= 'Z' then 'a' + (c - 'A')
    else if 'a' <= c <= 'z' || '0' <= c <= '9' || c == '-' || c == '_' || c == '.' then c
    else '_'
  }

  function CanonicalComponent(name: string): (component: string)
    ensures |component| == |name|
    ensures forall c <- component :: NameChar(c) && c != '/'
  {
    seq(|name|, i requires 0 <= i < |name| => CanonicalByte(name[i]))
  }

  predicate OccursAt(s: string, part: string, i: nat) {
    i + |part| <= |s| && s[i..i + |part|] == part
  }

  predicate Contains(s: string, part: string) {
    exists i: nat | i <= |s| :: OccursAt(s, part, i)
  }

  function Family(component: string): string {
    if "ggml" <= component then "ggml"
    else if component == "llama" then "llama"
    else if Contains(component, "common") then "common"
    else if "mtmd" <= component then "mtmd"
    else "native"
  }

  function LinkedName(libName: string): string {
    var component := CanonicalComponent(libName);
    Family(component) + "/" + component + "/link"
  }

  function RuntimeName(fileName: string, family: string): string {
    family + "/" + CanonicalComponent(fileName) + "/runtime"
  }

  lemma {:induction false} OneComponent(part: string)
    requires '/' !in part
    ensures Components(part) == [part]
  {
    if part != "" {
      OneComponent(part[1..]);
      assert [part[0]] + part[1..] == part;
    }
  }

  lemma {:induction false} SplitsFirst(part: string, rest: string)
    requires '/' !in part
    ensures Components(part + "/" + rest) == [part] + Components(rest)
  {
    var whole := part + "/" + rest;
    if part == "" {
      assert whole[1..] == rest;
    } else {
      assert whole[1..] == part[1..] + "/" + rest;
      SplitsFirst(part[1..], rest);
      assert [part[0]] + part[1..] == part;
    }
  }

  lemma ThreeComponents(family: string, component: string, role: string)
    requires '/' !in family && '/' !in component && '/' !in role
    ensures Components(family + "/" + component + "/" + role) == [family, component, role]
  {
    assert family + "/" + component + "/" + role == family + "/" + (component + "/" + role);
    SplitsFirst(family, component + "/" + role);
    SplitsFirst(component, role);
    OneComponent(role);
  }

  predicate Plain(part: string) {
    forall c <- part :: NameChar(c) && c != '/'
  }

  // A three-part name over canonical parts is refused only for a bad middle part or its length.
  lemma ThreePartName(family: string, component: string, role: string)
    requires Plain(family) && Plain(component) && Plain(role)
    requires !BadComponent(family) && !BadComponent(role)
    ensures var name := family + "/" + component + "/" + role;
            ValidName(name) <==> !BadComponent(component) && |name| <= MAX_LOGICAL_NAME_BYTES
  {
    var name := family + "/" + component + "/" + role;
    ThreeComponents(family, component, role);
    forall c <- name ensures NameChar(c) {
      assert c in family || c == '/' || c in component || c in role;
    }
    assert component in Components(name);
  }

  // A linked artifact's name is accepted exactly when its library's component is not empty, "." or ".."
  // and the whole fits the length limit.
  lemma LinkedNameAccepted(libName: string)
    ensures ValidName(LinkedName(libName)) <==>
            !BadComponent(CanonicalComponent(libName)) && |LinkedName(libName)| <= MAX_LOGICAL_NAME_BYTES
  {
    var component := CanonicalComponent(libName);
    var family := Family(component);
    assert family + "/" + component + "/link" == family + "/" + component + "/" + "link";
    ThreePartName(family, component, "link");
  }

  // The same for runtime artifacts of the two families the build script uses.
  lemma RuntimeNameAccepted(fileName: string, family: string)
    requires family == "native" || family == "backend"
    ensures ValidName(RuntimeName(fileName, family)) <==>
            !BadComponent(CanonicalComponent(fileName)) && |RuntimeName(fileName, family)| <= MAX_LOGICAL_NAME_BYTES
  {
    var component := CanonicalComponent(fileName);
    assert family + "/" + component + "/runtime" == family + "/" + component + "/" + "runtime";
    ThreePartName(family, component, "runtime");
  }

  // ---- the artifact map ----------------------------------------------------------------------------------

  // Whether the two assertions of an insertion hold.
  predicate Consistent(entries: map<string, Input>, a: Input) {
    a.logicalName in entries ==>
      entries[a.logicalName].path == a.path && entries[a.logicalName].external == a.external
  }

  class ArtifactMap {
    var entries: map<string, Input>

    ghost predicate Valid()
      reads this
    {
      forall name <- entries :: entries[name].logicalName == name
    }

    constructor ()
      ensures Valid() && entries == map[]
    {
      entries := map[];
    }

    // `false` when an assertion fails.
    method InsertArtifact(a: Input) returns (ok: bool)
      requires Valid()
      modifies this
      ensures Valid()
      ensures ok == Consistent(old(entries), a)
      ensures entries == if ok then old(entries)[a.logicalName := a] else old(entries)
    {
      if a.logicalName in entries {
        var existing := entries[a.logicalName];
        if existing.path != a.path || existing.external != a.external {
          return false;
        }
        return true;
      }
      entries := entries[a.logicalName := a];
      ok := true;
    }

    // Every insertion of a build, in order; `false` as soon as one panics.
    method InsertAll(artifacts: seq<Input>) returns (ok: bool)
      requires Valid() && entries == map[]
      modifies this
      ensures Valid()
      ensures ok <==> forall i, j | 0 <= i < j < |artifacts| :: Agree(artifacts[i], artifacts[j])
      ensures ok ==> Holds(entries, artifacts)
    {
      for i := 0 to |artifacts|
        invariant Valid() && Holds(entries, artifacts[..i])
        invariant forall j, k | 0 <= j < k < i :: Agree(artifacts[j], artifacts[k])
      {
        HoldsNext(entries, artifacts, i);
        ok := InsertArtifact(artifacts[i]);
        if !ok {
          return;
        }
      }
      assert artifacts[..|artifacts|] == artifacts;
      ok := true;
    }
  }

  // An insertion is consistent exactly when it agrees with every earlier one.
  lemma HoldsNext(entries: map<string, Input>, artifacts: seq<Input>, i: nat)
    requires i < |artifacts| && Holds(entries, artifacts[..i])
    ensures Consistent(entries, artifacts[i]) <==> forall j | 0 <= j < i :: Agree(artifacts[j], artifacts[i])
    ensures Consistent(entries, artifacts[i]) ==>
              Holds(entries[artifacts[i].logicalName := artifacts[i]], artifacts[..i + 1])
  {
  }

  // Two artifacts that may both be inserted.
  predicate Agree(a: Input, b: Input) {
    a.logicalName == b.logicalName ==> a == b
  }

  // The map holds every artifact under its name, and nothing else.
  ghost predicate Holds(entries: map<string, Input>, artifacts: seq<Input>) {
    && (forall a <- artifacts :: a.logicalName in entries && entries[a.logicalName] == a)
    && (forall name <- entries :: entries[name].logicalName == name && entries[name] in artifacts)
  }

  // The values of the map in some order, each once.
  ghost predicate ValuesOf(entries: map<string, Input>, values: seq<Input>, names: seq<string>) {
    && |names| == |values|
    && (forall i, j | 0 <= i < j < |names| :: names[i] != names[j])
    && (forall i | 0 <= i < |names| :: names[i] in entries && values[i] == entries[names[i]])
  }

  // After any run of insertions that did not panic, collecting the map's values never finds a duplicate.
  lemma NoDuplicateCollected(artifacts: seq<Input>, entries: map<string, Input>, values: seq<Input>,
                             names: seq<string>, features: seq<string>, linkage: Linkage, files: Files,
                             sha: string -> string, r: Result<BuildEvidence, EvidenceError>)
    requires Holds(entries, artifacts) && ValuesOf(entries, values, names)
    requires Collected(features, linkage, values, files, sha, r)
    ensures DistinctNames(values)
    ensures r.Err? ==> !r.error.DuplicateName?
  {
  }
}
