// The ZENPKG1 archive: header, canonical manifest, payload.
module Package {
  import opened Bytes
  import opened ModArith
  import opened Manifests
  import opened Canonical
  import opened Validation

  const MAX_MANIFEST: nat := 64 * 1024
  const MAX_PAYLOAD: nat := 4 * 1024 * 1024 * 1024
  const HEADER: nat := 128

  // ---- little-endian words ----

  function LeBytes(x: nat, n: nat): (b: seq<Byte>)
    ensures |b| == n
  {
    if n == 0 then [] else [x % 0x100] + LeBytes(x / 0x100, n - 1)
  }

  function FromLe(b: seq<Byte>): (x: nat) {
    if b == [] then 0 else b[0] + 0x100 * FromLe(b[1..])
  }

  lemma {:induction false} FromLeBytes(x: nat, n: nat)
    requires x < Pow256(n)
    ensures FromLe(LeBytes(x, n)) == x
  {
    if n > 0 {
      FromLeBytes(x / 0x100, n - 1);
      assert LeBytes(x, n)[1..] == LeBytes(x / 0x100, n - 1);
    }
  }

  lemma {:induction false} LeBytesFrom(b: seq<Byte>)
    ensures LeBytes(FromLe(b), |b|) == b && FromLe(b) < Pow256(|b|)
  {
    if b != [] {
      LeBytesFrom(b[1..]);
      var q := FromLe(b[1..]);
      ModUnique(FromLe(b), 0x100, q, b[0]);
      assert b == [b[0]] + b[1..];
    }
  }

  lemma WordWeights()
    ensures Pow256(4) == 0x1_0000_0000 && Pow256(8) == 0x1_0000_0000_0000_0000
  {
    assert Pow256(2) == 0x1_0000;
    assert Pow256(6) == 0x1_0000_0000_0000;
  }

  // `append_u32_le` and `append_u64_le`.
  method AppendLe(output: seq<Byte>, value: nat, n: nat) returns (r: seq<Byte>)
    ensures r == output + LeBytes(value, n)
  {
    r := output;
    var rest := value;
    for i := 0 to n
      invariant output + LeBytes(value, n) == r + LeBytes(rest, n - i)
    {
      assert r + LeBytes(rest, n - i) == r + [rest % 0x100] + LeBytes(rest / 0x100, n - i - 1);
      r := r + [rest % 0x100];
      rest := rest / 0x100;
    }
  }

  lemma {:induction false} FromLeSnoc(b: seq<Byte>, x: Byte)
    ensures FromLe(b + [x]) == FromLe(b) + x * Pow256(|b|)
  {
    if b == [] {
      assert b + [x] == [x] && [x][1..] == [];
    } else {
      assert (b + [x])[1..] == b[1..] + [x];
      FromLeSnoc(b[1..], x);
      MulAssociates(x, 0x100, Pow256(|b| - 1));
      assert x * (0x100 * Pow256(|b| - 1)) == 0x100 * (x * Pow256(|b| - 1));
    }
  }

  // `read_u32_le` and `read_u64_le`: the shifted bytes do not overlap, so or-ing them adds them.
  method ReadLe(input: seq<Byte>, offset: nat, n: nat) returns (r: Option<nat>)
    ensures r.Some? <==> offset + n <= |input|
    ensures r.Some? ==> r.value == FromLe(input[offset..offset + n])
  {
    if offset > |input| || |input| - offset < n {
      return None;
    }
    var value: nat, weight: nat := 0, 1;
    for i := 0 to n
      invariant value == FromLe(input[offset..offset + i]) && weight == Pow256(i)
    {
      FromLeSnoc(input[offset..offset + i], input[offset + i]);
      assert input[offset..offset + i] + [input[offset + i]] == input[offset..offset + i + 1];
      value := value + input[offset + i] * weight;
      weight := 0x100 * weight;
    }
    return Some(value);
  }

  // ---- bytes and characters ----

  function OctetsOf(t: Text): (b: seq<Byte>)
    ensures |b| == |t|
  {
    seq(|t|, i requires 0 <= i < |t| => t[i] as int)
  }

  function CharsOf(b: seq<Byte>): (t: Text)
    ensures |t| == |b|
  {
    seq(|b|, i requires 0 <= i < |b| => (b[i] as int) as char)
  }

  lemma OctetsChars(t: Text, b: seq<Byte>)
    ensures CharsOf(OctetsOf(t)) == t && OctetsOf(CharsOf(b)) == b
  {
  }

  // ---- the archive ----

  function Magic(): (b: seq<Byte>)
    ensures |b| == 8
  {
    [0x5A, 0x45, 0x4E, 0x50, 0x4B, 0x47, 0x31, 0]
  }

  // The header without its own digest.
  function HeadOf(h: Hash, text: seq<Byte>, payload: seq<Byte>): (b: seq<Byte>)
    ensures |b| == 96
  {
    Magic() + LeBytes(1, 4) + LeBytes(0, 4) + LeBytes(|text|, 8) + LeBytes(|payload|, 8) + h(text) + h(payload)
  }

  function Archive(h: Hash, text: seq<Byte>, payload: seq<Byte>): (b: seq<Byte>) {
    var head := HeadOf(h, text, payload);
    head + h(head) + text + payload
  }

  function Built(h: Hash, m: Manifest, payload: seq<Byte>): (r: Option<seq<Byte>>)
    requires |m.fields| == FIELDS
  {
    if !Validates(m, |payload|) || |CanonicalText(m)| > MAX_MANIFEST || |payload| > MAX_PAYLOAD then None
    else Some(Archive(h, OctetsOf(CanonicalText(m)), payload))
  }

  datatype Contents = Contents(manifest: Manifest, text: Text, payload: seq<Byte>, manifestDigest: Digest,
    payloadDigest: Digest)

  // The checks of the fixed header.
  predicate HeaderOk(h: Hash, b: seq<Byte>) {
    && |b| >= HEADER && b[..8] == Magic() && FromLe(b[8..12]) == 1 && FromLe(b[12..16]) == 0
    && FromLe(b[16..24]) <= MAX_MANIFEST && FromLe(b[24..32]) <= MAX_PAYLOAD
    && HEADER + FromLe(b[16..24]) + FromLe(b[24..32]) == |b|
    && h(b[..96]) == b[96..128]
  }

  // What `parse_package_bytes` computes.
  function ParsePackage(h: Hash, b: seq<Byte>): (r: Option<Contents>)
    ensures r.Some? ==> |r.value.manifest.fields| == FIELDS
  {
    if !HeaderOk(h, b) then None
    else
      var split := HEADER + FromLe(b[16..24]);
      var text, payload := b[HEADER..split], b[split..];
      if h(text) != b[32..64] || h(payload) != b[64..96] then None
      else match ParseText(CharsOf(text))
        case None => None
        case Some(m) =>
          if !Validates(m, |payload|) || CanonicalText(m) != CharsOf(text) then None
          else Some(Contents(m, CharsOf(text), payload, h(text), h(payload)))
  }

  // `parse_package_bytes`.
  method ReadPackage(h: Hash, b: seq<Byte>) returns (r: Option<Contents>)
    ensures r == ParsePackage(h, b)
  {
    hide FromLe, Validates, CanonicalText, ParseText, CharsOf;
    if |b| < HEADER || b[..8] != Magic() {
      return None;
    }
    var version := ReadLe(b, 8, 4);
    var flags := ReadLe(b, 12, 4);
    var manifestSize := ReadLe(b, 16, 8);
    var payloadSize := ReadLe(b, 24, 8);
    if version.value != 1 || flags.value != 0 || manifestSize.value > MAX_MANIFEST || payloadSize.value > MAX_PAYLOAD ||
      HEADER + manifestSize.value + payloadSize.value != |b| || h(b[..96]) != b[96..128]
    {
      return None;
    }
    var split := HEADER + manifestSize.value;
    var text, payload := b[HEADER..split], b[split..];
    if h(text) != b[32..64] || h(payload) != b[64..96] {
      return None;
    }
    var manifest := ParseManifest(CharsOf(text));
    if manifest.None? || !Validates(manifest.value, |payload|) || CanonicalText(manifest.value) != CharsOf(text) {
      return None;
    }
    return Some(Contents(manifest.value, CharsOf(text), payload, h(text), h(payload)));
  }

  // `build_package_bytes`.
  method BuildPackage(h: Hash, m: Manifest, payload: seq<Byte>) returns (r: Option<seq<Byte>>)
    requires |m.fields| == FIELDS
    ensures r == Built(h, m, payload)
  {
    hide Validates, CanonicalText, LeBytes;
    if !Validates(m, |payload|) {
      return None;
    }
    var text := CanonicalText(m);
    if |text| > MAX_MANIFEST || |payload| > MAX_PAYLOAD {
      return None;
    }
    var canonical := OctetsOf(text);
    var output := Magic();
    output := AppendLe(output, 1, 4);
    output := AppendLe(output, 0, 4);
    output := AppendLe(output, |canonical|, 8);
    output := AppendLe(output, |payload|, 8);
    output := output + h(canonical);
    output := output + h(payload);
    output := output + h(output);
    output := output + canonical;
    output := output + payload;
    return Some(output);
  }

  // ---- the slices of an archive ----

  lemma HeadSlices(h: Hash, text: seq<Byte>, payload: seq<Byte>)
    ensures var b := HeadOf(h, text, payload);
      && b[..8] == Magic() && b[8..12] == LeBytes(1, 4) && b[12..16] == LeBytes(0, 4) && b[16..24] == LeBytes(|text|, 8)
      && b[24..32] == LeBytes(|payload|, 8) && b[32..64] == h(text) && b[64..96] == h(payload)
  {
    hide LeBytes, Magic;
  }

  lemma HeadFromSlices(h: Hash, text: seq<Byte>, payload: seq<Byte>, b: seq<Byte>)
    requires |b| == 96 && b[..8] == Magic() && b[8..12] == LeBytes(1, 4) && b[12..16] == LeBytes(0, 4)
    requires b[16..24] == LeBytes(|text|, 8) && b[24..32] == LeBytes(|payload|, 8) && b[32..64] == h(text) &&
      b[64..96] == h(payload)
    ensures b == HeadOf(h, text, payload)
  {
    hide LeBytes, Magic;
    Rejoin(b, 8, 12);
    Rejoin(b, 12, 16);
    Rejoin(b, 16, 24);
    Rejoin(b, 24, 32);
    Rejoin(b, 32, 64);
    Rejoin(b, 64, 96);
    assert b[..96] == b;
  }

  lemma Rejoin(b: seq<Byte>, i: nat, j: nat)
    requires i <= j <= |b|
    ensures b[..i] + b[i..j] == b[..j]
  {
  }

  // A slice of the head of a longer text.
  lemma SliceOfHead(b: seq<Byte>, n: nat, i: nat, j: nat)
    requires i <= j <= n <= |b|
    ensures b[..n][i..j] == b[i..j]
  {
  }

  lemma ArchiveSlices(h: Hash, text: seq<Byte>, payload: seq<Byte>)
    ensures var b := Archive(h, text, payload);
      && |b| == HEADER + |text| + |payload| && b[..96] == HeadOf(h, text, payload) && b[96..128] == h(b[..96])
      && b[HEADER..HEADER + |text|] == text && b[HEADER + |text|..] == payload
  {
    hide HeadOf;
  }

  lemma WordRead(x: nat, n: nat)
    requires (n == 4 && x < 0x1_0000_0000) || (n == 8 && x < 0x1_0000_0000_0000_0000)
    ensures FromLe(LeBytes(x, n)) == x
  {
    hide LeBytes, FromLe, Pow256;
    WordWeights();
    FromLeBytes(x, n);
  }

  // Reading back what the builder framed.
  lemma FramedOk(h: Hash, text: seq<Byte>, payload: seq<Byte>)
    requires |text| <= MAX_MANIFEST && |payload| <= MAX_PAYLOAD
    ensures var b := Archive(h, text, payload);
      && HeaderOk(h, b) && FromLe(b[16..24]) == |text| && b[32..64] == h(text) && b[64..96] == h(payload)
  {
    hide LeBytes, FromLe, Magic, Archive, HeadOf;
    var b := Archive(h, text, payload);
    ArchiveSlices(h, text, payload);
    HeadSlices(h, text, payload);
    var head := HeadOf(h, text, payload);
    SliceOfHead(b, 96, 0, 8);
    SliceOfHead(b, 96, 8, 12);
    SliceOfHead(b, 96, 12, 16);
    SliceOfHead(b, 96, 16, 24);
    SliceOfHead(b, 96, 24, 32);
    SliceOfHead(b, 96, 32, 64);
    SliceOfHead(b, 96, 64, 96);
    assert b[0..8] == b[..8] && head[0..8] == head[..8];
    WordRead(1, 4);
    WordRead(0, 4);
    WordRead(|text|, 8);
    WordRead(|payload|, 8);
  }

  // ---- the encoding is a bijection ----

  lemma WordWritten(b: seq<Byte>)
    ensures LeBytes(FromLe(b), |b|) == b
  {
    LeBytesFrom(b);
  }

  // The bytes of an accepted archive are determined by its text and payload.
  lemma FramingDetermined(h: Hash, b: seq<Byte>)
    requires HeaderOk(h, b)
    requires var split := HEADER + FromLe(b[16..24]); h(b[HEADER..split]) == b[32..64] && h(b[split..]) == b[64..96]
    ensures var split := HEADER + FromLe(b[16..24]); Archive(h, b[HEADER..split], b[split..]) == b
  {
    hide LeBytes, FromLe, Magic, HeadOf;
    var split := HEADER + FromLe(b[16..24]);
    var head := b[..96];
    SliceOfHead(b, 96, 0, 8);
    SliceOfHead(b, 96, 8, 12);
    SliceOfHead(b, 96, 12, 16);
    SliceOfHead(b, 96, 16, 24);
    SliceOfHead(b, 96, 24, 32);
    SliceOfHead(b, 96, 32, 64);
    SliceOfHead(b, 96, 64, 96);
    assert b[0..8] == b[..8] && head[0..8] == head[..8];
    WordWritten(b[8..12]);
    WordWritten(b[12..16]);
    WordWritten(b[16..24]);
    WordWritten(b[24..32]);
    HeadFromSlices(h, b[HEADER..split], b[split..], head);
    Rejoin(b, 96, 128);
    Rejoin(b, 128, split);
    Rejoin(b, split, |b|);
    assert b[..|b|] == b && b[split..|b|] == b[split..];
  }

  // Any byte string the parser accepts is what the builder makes of the result.
  lemma ParseThenBuild(h: Hash, b: seq<Byte>)
    requires ParsePackage(h, b).Some?
    ensures var p := ParsePackage(h, b).value; Built(h, p.manifest, p.payload) == Some(b)
  {
    hide HeadOf, Archive, Validates, CanonicalText, ParseText, CharsOf, OctetsOf;
    var split := HEADER + FromLe(b[16..24]);
    OctetsChars([], b[HEADER..split]);
    FramingDetermined(h, b);
  }

  // What the builder makes is accepted exactly when the three loosely checked fields are their
  // own trim; then the parser returns the manifest, its lists sorted, and the payload.
  lemma BuildThenParse(h: Hash, m: Manifest, payload: seq<Byte>)
    requires |m.fields| == FIELDS && Built(h, m, payload).Some?
    ensures var b := Built(h, m, payload).value; var p := ParsePackage(h, b);
      && (p.Some? <==> TrimmedFields(m))
      && (p.Some? ==> p.value.manifest == SortedLists(m) && p.value.payload == payload)
  {
    hide HeadOf, Archive, Validates, CanonicalText, ParseText, CharsOf, OctetsOf, SortedLists, TrimmedFields,
      CleanManifest, HeaderOk;
    var text := CanonicalText(m);
    var t := OctetsOf(text);
    OctetsChars(text, []);
    FramedOk(h, t, payload);
    ArchiveSlices(h, t, payload);
    ValidClean(m, |payload|);
    if TrimmedFields(m) {
      ParseCanonical(m);
      SortedValid(m, |payload|);
      SortedShape(m);
      CanonicalFixed(m);
    } else if ParsePackage(h, Archive(h, t, payload)).Some? {
      UntrimmedRefused(m, |payload|);
    }
  }

  lemma SortedShape(m: Manifest)
    ensures SortedLists(m).fields == m.fields
  {
  }

  lemma UntrimmedRefused(m: Manifest, n: nat)
    requires |m.fields| == FIELDS && Validates(m, n) && ParseText(CanonicalText(m)).Some?
    requires var q := ParseText(CanonicalText(m)).value; Validates(q, n) && CanonicalText(q) == CanonicalText(m)
    ensures TrimmedFields(m)
  {
    hide Validates, ScalarLines, ParseFrom, ListsText, SortedLists, Trim, Free;
    var q := ParseText(CanonicalText(m)).value;
    forall j | 0 <= j < FIELDS ensures Free(m.fields[j], '\n') && Free(q.fields[j], '\n') {
      ValidFree(m, n, j);
      ValidFree(q, n, j);
    }
    ScalarsInjective(m.fields, q.fields, 0, ListsText(SortedLists(m)), ListsText(SortedLists(q)));
    assert m.fields[0..] == m.fields && q.fields[0..] == q.fields;
    BlankTrimmed();
    ParsedTrimmed(CanonicalText(m), Blank());
  }

  lemma ValidFree(m: Manifest, n: nat, j: nat)
    requires |m.fields| == FIELDS && Validates(m, n) && j < FIELDS
    ensures Free(m.fields[j], '\n')
  {
    FieldSafe(m.fields, j);
  }

  lemma BlankTrimmed()
    ensures forall i :: 0 <= i < FIELDS ==> Trimmed(Blank().m.fields[i])
  {
  }

  // ---- a package the parser refuses ----

  // A valid manifest whose license ends with a space.
  function Untrimmed(): (m: Manifest)
    ensures |m.fields| == FIELDS
  {
    Manifest(["zenpkg-manifest-1", "a", "1", "a", "a", "compat-profile", "-", "none", "native", "1", "x ", "s",
      "metadata-only"],
             [], [], [])
  }

  lemma UntrimmedValid()
    ensures Validates(Untrimmed(), 0) && !TrimmedFields(Untrimmed())
  {
    hide Trim;
    var license: Text := "x ";
    assert Untrimmed().fields[LICENSE] == license;
    TrimFixed(license);
    assert Space(license[1]);
  }

  lemma {:induction false} ScalarsShort(fields: seq<Text>, i: nat)
    requires |fields| == FIELDS && i <= FIELDS && forall j :: 0 <= j < FIELDS ==> |fields[j]| <= 256
    ensures |ScalarLines(fields, i)| <= (FIELDS - i) * 512
    decreases FIELDS - i
  {
    hide Keys;
    if i < FIELDS {
      KeyShort(i);
      ScalarsShort(fields, i + 1);
    }
  }

  lemma KeyShort(i: nat)
    requires i < FIELDS
    ensures |Keys()[i]| <= 12
  {
  }

  lemma UntrimmedShort()
    ensures |CanonicalText(Untrimmed())| <= MAX_MANIFEST
  {
    hide ScalarLines;
    ScalarsShort(Untrimmed().fields, 0);
    assert Sort([]) == [];
  }

  // It builds, and what is built does not parse.
  lemma UntrimmedPackage(h: Hash)
    ensures Built(h, Untrimmed(), []).Some? && ParsePackage(h, Built(h, Untrimmed(), []).value).None?
  {
    hide Validates, CanonicalText, ParsePackage, TrimmedFields, Untrimmed, Archive;
    UntrimmedValid();
    UntrimmedShort();
    BuildThenParse(h, Untrimmed(), []);
  }
}
