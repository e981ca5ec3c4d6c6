// What makes a manifest acceptable, and why a valid one survives the line syntax.
module Validation {
  import opened Manifests
  import opened Canonical

  predicate Alnum(c: Ch) {
    '0' <= c <= '9' || 'A' <= c <= 'Z' || 'a' <= c <= 'z'
  }

  predicate IdentifierChar(c: Ch) { Alnum(c) || c == '.' || c == '-' || c == '_' }
  predicate VersionChar(c: Ch) { Alnum(c) || c == '.' || c == '-' || c == '+' || c == '_' }
  predicate PrintableChar(c: Ch) { c as int >= 0x20 && c as int != 0x7F }
  predicate PathChar(c: Ch) { PrintableChar(c) && c != '\\' && c != ':' }
  predicate RequirementChar(c: Ch) {
    Alnum(c) || c == '.' || c == '-' || c == '_' || c == ':' || c == '@' || c == '<' || c == '>' || c == '=' || c == '+'
  }

  predicate SafeIdentifier(v: Text) {
    && 0 < |v| <= 64 && Alnum(v[0]) && Alnum(v[|v| - 1])
    && (forall i :: 0 <= i < |v| - 1 ==> !(v[i] == '.' && v[i + 1] == '.'))
    && forall i :: 0 <= i < |v| ==> IdentifierChar(v[i])
  }

  predicate SafeVersion(v: Text) {
    0 < |v| <= 64 && forall i :: 0 <= i < |v| ==> VersionChar(v[i])
  }

  predicate Printable(v: Text, maximum: nat) {
    0 < |v| <= maximum && forall i :: 0 <= i < |v| ==> PrintableChar(v[i])
  }

  // The path components from `start` on.
  predicate Components(v: Text, start: nat)
    requires start <= |v|
    decreases |v| - start
  {
    var end := start + Find<Ch>(v[start..], '/');
    var component := v[start..end];
    && component != [] && component != "." && component != ".."
    && (forall i :: 0 <= i < |component| ==> PathChar(component[i]))
    && (end == |v| || Components(v, end + 1))
  }

  predicate SafeEntrypoint(v: Text) {
    v != [] && (v == "-" || (v[0] == '/' && |v| <= 127 && v[|v| - 1] != '/' && Components(v, 1)))
  }

  predicate Requirement(v: Text) {
    0 < |v| <= 96 && forall i :: 0 <= i < |v| ==> RequirementChar(v[i])
  }

  predicate Requirements(vs: seq<Text>) {
    && (forall i :: 0 <= i < |vs| ==> Requirement(vs[i]))
    && forall i, j :: 0 <= i < j < |vs| ==> vs[i] != vs[j]
  }

  predicate AllowedKind(v: Text) {
    v == "native" || v == "application" || v == "runtime" || v == "compat-profile" || v == "firmware-descriptor"
  }

  predicate AllowedPayload(v: Text) {
    v == "zex1" || v == "elf32" || v == "elf64" || v == "tar" || v == "runtime-bundle" || v == "metadata" || v == "none"
  }

  predicate AllowedRuntime(v: Text) {
    || v == "native" || v == "wine" || v == "proton" || v == "qemu-user" || v == "qemu-system" || v == "darling"
    || v == "pcsx2" || v == "rpcs3" || v == "xemu" || v == "xenia" || v == "external"
  }

  predicate AllowedPolicy(v: Text) {
    v == "redistributable" || v == "user-supplied" || v == "metadata-only"
  }

  predicate ValidFields(f: seq<Text>)
    requires |f| == FIELDS
  {
    && f[0] == "zenpkg-manifest-1" && SafeIdentifier(f[1]) && SafeVersion(f[2]) && SafeIdentifier(f[3]) &&
      SafeIdentifier(f[4])
    && AllowedKind(f[5]) && SafeEntrypoint(f[6]) && AllowedPayload(f[7]) && AllowedRuntime(f[8]) && SafeVersion(f[9])
    && Printable(f[10], 96) && Printable(f[11], 256) && AllowedPolicy(f[12])
  }

  // `validate_manifest`.
  predicate Validates(m: Manifest, payloadSize: nat)
    requires |m.fields| == FIELDS
  {
    var kind, entrypoint, payloadType := m.fields[5], m.fields[6], m.fields[7];
    && ValidFields(m.fields)
    && (payloadType == "none" <==> payloadSize == 0)
    && (kind == "compat-profile" || kind == "firmware-descriptor" ==> entrypoint == "-")
    && (kind == "application" || kind == "native" || kind == "runtime" ==> entrypoint != "-")
    && Requirements(m.capabilities) && Requirements(m.dependencies) && Requirements(m.conflicts)
  }

  // ---- valid values on a line ----

  predicate Solid(v: Text) {
    v != [] && forall i :: 0 <= i < |v| ==> !Space(v[i])
  }

  lemma SolidClean(v: Text)
    requires Solid(v)
    ensures Clean(v)
  {
    TrimFixed(v);
    assert !Space(v[0]) && !Space(v[|v| - 1]);
    assert Space('\n');
  }

  lemma WordsSolid(v: Text)
    ensures SafeIdentifier(v) || SafeVersion(v) || Requirement(v) ==> Solid(v)
  {
  }

  lemma KindSolid(v: Text)
    requires AllowedKind(v)
    ensures Solid(v)
  {
  }

  lemma PolicySolid(v: Text)
    requires AllowedPolicy(v)
    ensures Solid(v)
  {
  }

  lemma FormatSolid(v: Text)
    requires v == "zenpkg-manifest-1"
    ensures Solid(v)
  {
  }

  lemma PayloadSolid(v: Text)
    requires AllowedPayload(v)
    ensures Solid(v)
  {
  }

  lemma RuntimeSolid(v: Text)
    requires AllowedRuntime(v)
    ensures Solid(v)
  {
  }

  lemma {:induction false} ComponentsPrintable(v: Text, start: nat)
    requires start <= |v| && Components(v, start)
    ensures forall i :: start <= i < |v| ==> v[i] != '\n'
    decreases |v| - start
  {
    var end := start + Find<Ch>(v[start..], '/');
    forall i | start <= i < end
      ensures v[i] != '\n'
    {
      assert PathChar(v[start..end][i - start]);
    }
    if end < |v| {
      assert v[end] == '/';
      ComponentsPrintable(v, end + 1);
    }
  }

  // The three fields a validator lets begin or end with a space.
  predicate Loose(i: nat) {
    i == ENTRYPOINT || i == LICENSE || i == SOURCE
  }

  lemma FieldSafe(f: seq<Text>, i: nat)
    requires |f| == FIELDS && ValidFields(f) && i < FIELDS
    ensures f[i] != [] && Free(f[i], '\n')
    ensures !Loose(i) ==> Clean(f[i])
  {
    hide Components, Solid, SafeIdentifier, SafeVersion, AllowedKind, AllowedPayload, AllowedRuntime, AllowedPolicy,
      Trim;
    if i == ENTRYPOINT {
      if f[i] != "-" {
        ComponentsPrintable(f[i], 1);
      }
    } else if i == LICENSE || i == SOURCE {
      assert !PrintableChar('\n');
    } else {
      WordsSolid(f[i]);
      if i == 0 {
        FormatSolid(f[i]);
      } else if i == 5 {
        KindSolid(f[i]);
      } else if i == 12 {
        PolicySolid(f[i]);
      } else if i == 7 {
        PayloadSolid(f[i]);
      } else if i == 8 {
        RuntimeSolid(f[i]);
      }
      SolidClean(f[i]);
    }
  }

  predicate TrimmedFields(m: Manifest)
    requires |m.fields| == FIELDS
  {
    Trimmed(m.fields[ENTRYPOINT]) && Trimmed(m.fields[LICENSE]) && Trimmed(m.fields[SOURCE])
  }

  lemma RequirementsClean(vs: seq<Text>)
    requires Requirements(vs)
    ensures CleanList(vs)
  {
    hide Requirement, Clean;
    forall i | 0 <= i < |vs| ensures Clean(vs[i]) {
      WordsSolid(vs[i]);
      SolidClean(vs[i]);
    }
  }

  lemma ValidClean(m: Manifest, n: nat)
    requires |m.fields| == FIELDS && Validates(m, n)
    ensures CleanManifest(m) <==> TrimmedFields(m)
  {
    hide ValidFields, Requirements, Trim, Free;
    RequirementsClean(m.capabilities);
    RequirementsClean(m.dependencies);
    RequirementsClean(m.conflicts);
    forall i | 0 <= i < FIELDS
      ensures Clean(m.fields[i]) <==> !Loose(i) || Trimmed(m.fields[i])
    {
      FieldSafe(m.fields, i);
    }
  }

  // Sorting the lists does not affect validity.
  lemma SortedValid(m: Manifest, n: nat)
    requires |m.fields| == FIELDS
    ensures Validates(SortedLists(m), n) <==> Validates(m, n)
  {
    hide ValidFields, Sort;
    SortedRequirements(m.capabilities);
    SortedRequirements(m.dependencies);
    SortedRequirements(m.conflicts);
  }

  lemma SortedRequirements(vs: seq<Text>)
    ensures Requirements(Sort(vs)) <==> Requirements(vs)
  {
    hide Sort;
    RequirementsBag(vs);
    RequirementsBag(Sort(vs));
  }

  lemma RequirementsBag(vs: seq<Text>)
    ensures Requirements(vs) <==> (forall x <- multiset(vs) :: Requirement(x) && multiset(vs)[x] == 1)
  {
    hide Requirement;
    DistinctBag(vs);
    if forall x <- multiset(vs) :: Requirement(x) && multiset(vs)[x] == 1 {
      forall i | 0 <= i < |vs| ensures Requirement(vs[i]) {
        assert vs[i] in multiset(vs);
      }
    }
  }

  lemma {:induction false} DistinctBag(vs: seq<Text>)
    ensures (forall i, j :: 0 <= i < j < |vs| ==> vs[i] != vs[j]) <==>
      (forall x <- multiset(vs) :: multiset(vs)[x] == 1)
  {
    if vs != [] {
      var rest := vs[1..];
      DistinctBag(rest);
      assert vs == [vs[0]] + rest;
      assert multiset(vs) == multiset{vs[0]} + multiset(rest);
      if forall i, j :: 0 <= i < j < |vs| ==> vs[i] != vs[j] {
        assert vs[0] !in multiset(rest);
        forall i, j | 0 <= i < j < |rest| ensures rest[i] != rest[j] {
          assert vs[i + 1] != vs[j + 1];
        }
      }
      if forall x <- multiset(vs) :: multiset(vs)[x] == 1 {
        assert multiset(vs)[vs[0]] == 1 + multiset(rest)[vs[0]];
        assert vs[0] !in multiset(rest);
        forall x <- multiset(rest) ensures multiset(rest)[x] == 1 {
          assert multiset(vs)[x] == 1;
        }
        forall i, j | 0 <= i < j < |vs| ensures vs[i] != vs[j] {
          if i == 0 {
            assert vs[j] == rest[j - 1] && rest[j - 1] in multiset(rest);
          } else {
            assert rest[i - 1] != rest[j - 1];
          }
        }
      }
    }
  }
}
