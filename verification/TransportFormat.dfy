// The transport journal: the 248-byte record the transfer writes, and the kernel's reading of it.
module TransportFormat {
  import opened Bytes
  import opened Checksum

  const JOURNAL_SOURCE_PATH: string := "/data/packages/hello-native-0.2.0.zpk"
  const PACKAGE_NAME: string := "hello-native"
  const PACKAGE_VERSION: string := "0.2.0"
  const RECORD: nat := 248
  const MAXIMUM_PACKAGE: nat := 64 * 1024

  // ---- writing ----

  function Ascii(s: string): (r: seq<Byte>)
    ensures |r| == |s|
  {
    seq(|s|, i requires 0 <= i < |s| => s[i] as int % 0x100)
  }

  function Field(s: string, width: nat): (r: seq<Byte>)
    requires |s| <= width
    ensures |r| == width
  {
    Ascii(s) + Zeros(width - |s|)
  }

  function Header(generation: U32, phase: U32, offset: U32, length: U32, checksum: U32): (r: seq<Byte>)
    ensures |r| == 40
  {
    [0x5A, 0x50, 0x54, 0x52, 0x4E, 0x31, 0, 0]
    + Le32(1) + Le32(generation) + Le32(phase) + Le32(offset) + Le32(length) + Le32(1) + Le32(0) + Le32(checksum)
  }

  function Texts(partial: string): (r: seq<Byte>)
    requires |partial| < 48
    ensures |r| == 144
  {
    Field(PACKAGE_NAME, 32) + Field(PACKAGE_VERSION, 16) + Field(JOURNAL_SOURCE_PATH, 48) + Field(partial, 48)
  }

  function JournalFields(h: Hash, source: seq<Byte>, partial: string, generation: U32, phase: U32, offset: U32,
    checksum: U32): (r: seq<Byte>)
    requires |partial| < 48 && offset <= |source|
    ensures |r| == RECORD
  {
    Header(generation, phase, offset, |source| % 0x1_0000_0000, checksum) + Texts(partial)
    + h(source) + h(source[..offset])
  }

  // `journal_bytes(make_journal(...))`: the checksum covers the record with a zero checksum.
  function JournalBytes(h: Hash, source: seq<Byte>, partial: string, generation: U32, phase: U32,
    offset: U32): (r: seq<Byte>)
    requires |partial| < 48 && offset <= |source|
    ensures |r| == RECORD
  {
    JournalFields(h, source, partial, generation, phase, offset,
                  Fnv1a(JournalFields(h, source, partial, generation, phase, offset, 0)))
  }

  // ---- reading, at the offsets of the packed struct ----

  function WordAt(b: seq<Byte>, at: nat): (x: U32)
    requires at + 4 <= |b|
  {
    FromLe32(b[at..at + 4])
  }

  function JournalGeneration(b: seq<Byte>): U32 requires |b| == RECORD { WordAt(b, 12) }
  function JournalPhase(b: seq<Byte>): U32 requires |b| == RECORD { WordAt(b, 16) }
  function JournalOffset(b: seq<Byte>): U32 requires |b| == RECORD { WordAt(b, 20) }
  function ExpectedLength(b: seq<Byte>): U32 requires |b| == RECORD { WordAt(b, 24) }
  function PackageDigest(b: seq<Byte>): Digest requires |b| == RECORD { b[184..216] }
  function PrefixDigest(b: seq<Byte>): Digest requires |b| == RECORD { b[216..248] }

  // The record with its checksum zeroed, which is what the checksum covers.
  function Blanked(b: seq<Byte>): (r: seq<Byte>)
    requires |b| == RECORD
    ensures |r| == RECORD
  {
    b[..36] + Zeros(4) + b[40..]
  }

  // `transport_journal_valid`.
  predicate Accepted(b: seq<Byte>)
    requires |b| == RECORD
  {
    && b[..8] == [0x5A, 0x50, 0x54, 0x52, 0x4E, 0x31, 0, 0]
    && WordAt(b, 8) == 1 && JournalGeneration(b) != 0 && WordAt(b, 28) == 1
    && 0 < ExpectedLength(b) <= MAXIMUM_PACKAGE && JournalOffset(b) <= ExpectedLength(b)
    && WordAt(b, 36) == Fnv1a(Blanked(b))
    && 1 <= JournalPhase(b) <= 3
    && (JournalPhase(b) == 2 ==> JournalOffset(b) == ExpectedLength(b))
    && b[40] != 0 && b[72] != 0 && b[88] != 0 && b[136] != 0
    && b[71] == 0 && b[87] == 0 && b[135] == 0 && b[183] == 0
  }

  // The field holds the text, padded with zeros.
  ghost predicate Holds(field: seq<Byte>, s: string) {
    && |s| < |field|
    && (forall i :: 0 <= i < |s| ==> field[i] as int == s[i] as int % 0x100)
    && forall i :: |s| <= i < |field| ==> field[i] == 0
  }

  // The record describes this package and this partial copy, claims no more than the first
  // `|durable|` bytes, and carries the digests of the whole and of the part it claims.
  ghost predicate Truthful(h: Hash, b: seq<Byte>, source: seq<Byte>, partial: string, durable: seq<Byte>) {
    && |b| == RECORD && Accepted(b)
    && Holds(b[40..72], PACKAGE_NAME) && Holds(b[72..88], PACKAGE_VERSION)
    && Holds(b[88..136], JOURNAL_SOURCE_PATH) && Holds(b[136..184], partial)
    && ExpectedLength(b) == |source| && PackageDigest(b) == h(source)
    && JournalOffset(b) <= |durable| && PrefixDigest(b) == h(durable[..JournalOffset(b)])
    && 1 <= JournalPhase(b) <= 2 && (JournalPhase(b) == 2 ==> durable == source)
  }

  // ---- what is written reads back ----

  lemma HeaderReads(generation: U32, phase: U32, offset: U32, length: U32, checksum: U32)
    ensures var r := Header(generation, phase, offset, length, checksum);
            && r[..8] == [0x5A, 0x50, 0x54, 0x52, 0x4E, 0x31, 0, 0]
            && WordAt(r, 8) == 1 && WordAt(r, 12) == generation && WordAt(r, 16) == phase && WordAt(r, 20) == offset
            && WordAt(r, 24) == length && WordAt(r, 28) == 1 && WordAt(r, 36) == checksum
  {
    hide Le32, FromLe32;
    var r := Header(generation, phase, offset, length, checksum);
    assert r[8..12] == Le32(1) && r[12..16] == Le32(generation) && r[16..20] == Le32(phase);
    assert r[20..24] == Le32(offset) && r[24..28] == Le32(length) && r[28..32] == Le32(1);
    assert r[36..40] == Le32(checksum);
    Le32RoundTrip(1);
    Le32RoundTrip(generation);
    Le32RoundTrip(phase);
    Le32RoundTrip(offset);
    Le32RoundTrip(length);
    Le32RoundTrip(checksum);
  }

  // The checksum is the only difference between two headers that differ in it.
  lemma HeaderBlank(generation: U32, phase: U32, offset: U32, length: U32, checksum: U32)
    ensures Header(generation, phase, offset, length, 0)
            == Header(generation, phase, offset, length, checksum)[..36] + Zeros(4)
  {
    assert Le32(0) == Zeros(4);
    hide Le32;
  }

  lemma FieldHolds(s: string, width: nat)
    requires |s| < width
    ensures Holds(Field(s, width), s)
  {
  }

  // Every field holds its text, with room for the terminator and not starting with one.
  lemma TextsRead(partial: string)
    requires 0 < |partial| < 48 && partial[0] == '/'
    ensures var r := Texts(partial);
            && Holds(r[..32], PACKAGE_NAME) && Holds(r[32..48], PACKAGE_VERSION)
            && Holds(r[48..96], JOURNAL_SOURCE_PATH) && Holds(r[96..], partial)
            && r[0] != 0 && r[32] != 0 && r[48] != 0 && r[96] != 0
            && r[31] == 0 && r[47] == 0 && r[95] == 0 && r[143] == 0
  {
    hide Field;
    var r := Texts(partial);
    FieldHolds(PACKAGE_NAME, 32);
    FieldHolds(PACKAGE_VERSION, 16);
    FieldHolds(JOURNAL_SOURCE_PATH, 48);
    FieldHolds(partial, 48);
    assert r[..32] == Field(PACKAGE_NAME, 32) && r[32..48] == Field(PACKAGE_VERSION, 16);
    assert r[48..96] == Field(JOURNAL_SOURCE_PATH, 48) && r[96..] == Field(partial, 48);
    assert PACKAGE_NAME[0] == 'h' && PACKAGE_VERSION[0] == '0' && JOURNAL_SOURCE_PATH[0] == '/';
  }

  // The record in its four parts.
  lemma RecordParts(h: Hash, source: seq<Byte>, partial: string, generation: U32, phase: U32, offset: U32,
    checksum: U32)
    requires |partial| < 48 && offset <= |source|
    ensures var b := JournalFields(h, source, partial, generation, phase, offset, checksum);
            && b[..40] == Header(generation, phase, offset, |source| % 0x1_0000_0000, checksum)
            && b[40..184] == Texts(partial) && b[184..216] == h(source) && b[216..248] == h(source[..offset])
  {
    hide Header, Texts;
  }

  lemma RecordBlank(h: Hash, source: seq<Byte>, partial: string, generation: U32, phase: U32, offset: U32,
    checksum: U32)
    requires |partial| < 48 && offset <= |source|
    ensures var b := JournalFields(h, source, partial, generation, phase, offset, checksum);
            Blanked(b) == JournalFields(h, source, partial, generation, phase, offset, 0)
  {
    hide Header, Texts;
    HeaderBlank(generation, phase, offset, |source| % 0x1_0000_0000, checksum);
  }

  lemma SliceOfSlice(b: seq<Byte>, lo: nat, hi: nat)
    requires lo <= hi <= |b|
    ensures forall i, j :: 0 <= i <= j <= hi - lo ==> b[lo..hi][i..j] == b[lo + i..lo + j]
  {
    forall i, j | 0 <= i <= j <= hi - lo
      ensures b[lo..hi][i..j] == b[lo + i..lo + j]
    {
      assert forall k :: 0 <= k < j - i ==> b[lo..hi][i..j][k] == b[lo + i + k];
    }
  }

  // What the transfer writes is truthful: the kernel accepts it, and every field says what it
  // should about the package.
  lemma JournalTruthful(h: Hash, source: seq<Byte>, partial: string, generation: U32, phase: U32, offset: U32,
    durable: seq<Byte>)
    requires 0 < |partial| < 48 && partial[0] == '/' && 0 < |source| <= MAXIMUM_PACKAGE
    requires generation > 0 && 1 <= phase <= 2 && offset <= |durable| && durable <= source
    requires phase == 2 ==> offset == |source|
    ensures Truthful(h, JournalBytes(h, source, partial, generation, phase, offset), source, partial, durable)
  {
    hide Header, Texts, JournalFields, Fnv1a, Holds, FromLe32;
    var c := Fnv1a(JournalFields(h, source, partial, generation, phase, offset, 0));
    var b := JournalBytes(h, source, partial, generation, phase, offset);
    RecordParts(h, source, partial, generation, phase, offset, c);
    RecordBlank(h, source, partial, generation, phase, offset, c);
    HeaderReads(generation, phase, offset, |source| % 0x1_0000_0000, c);
    TextsRead(partial);
    var header, texts := b[..40], b[40..184];
    SliceOfSlice(b, 0, 40);
    SliceOfSlice(b, 40, 184);
    assert b[0..40] == header;
    assert durable[..offset] == source[..offset];
    assert b[40] == texts[0] && b[72] == texts[32] && b[88] == texts[48] && b[136] == texts[96];
    assert b[71] == texts[31] && b[87] == texts[47] && b[135] == texts[95] && b[183] == texts[143];
    assert header[..8] == header[0..8] && texts[..32] == texts[0..32] && texts[96..] == texts[96..144];
  }

  lemma JournalWords(h: Hash, source: seq<Byte>, partial: string, generation: U32, phase: U32, offset: U32)
    requires |partial| < 48 && offset <= |source|
    ensures var b := JournalBytes(h, source, partial, generation, phase, offset);
            JournalGeneration(b) == generation && JournalPhase(b) == phase && JournalOffset(b) == offset
  {
    hide Header, Texts, JournalFields, Fnv1a, FromLe32;
    var c := Fnv1a(JournalFields(h, source, partial, generation, phase, offset, 0));
    var b := JournalBytes(h, source, partial, generation, phase, offset);
    RecordParts(h, source, partial, generation, phase, offset, c);
    HeaderReads(generation, phase, offset, |source| % 0x1_0000_0000, c);
    SliceOfSlice(b, 0, 40);
    assert b[0..40] == b[..40];
  }

  // A later record: it has a higher generation unless it is the same one, and goes no step back.
  ghost predicate Follows(a: seq<Byte>, b: seq<Byte>) {
    && |a| == RECORD && |b| == RECORD
    && (a == b || JournalGeneration(a) < JournalGeneration(b))
    && JournalOffset(a) <= JournalOffset(b) && JournalPhase(a) <= JournalPhase(b)
  }

  // ---- damage ----

  lemma WordDiffers(a: seq<Byte>, b: seq<Byte>)
    requires |a| == |b| == 4 && FromLe32(a) == FromLe32(b)
    ensures a == b
  {
    var v: seq<int>, w: seq<int> := a, b;
    LowDigit(v[0], v[1] + 0x100 * v[2] + 0x1_0000 * v[3], w[0], w[1] + 0x100 * w[2] + 0x1_0000 * w[3]);
    LowDigit(v[1], v[2] + 0x100 * v[3], w[1], w[2] + 0x100 * w[3]);
    LowDigit(v[2], v[3], w[2], w[3]);
  }

  lemma LowDigit(a: int, x: int, b: int, y: int)
    requires 0 <= a < 0x100 && 0 <= b < 0x100 && a + 0x100 * x == b + 0x100 * y
    ensures a == b && x == y
  {
  }

  // A record with one damaged byte, its checksum included, is never accepted.
  lemma DamagedByteRejected(b: seq<Byte>, i: nat, c: Byte)
    requires |b| == RECORD && Accepted(b) && i < RECORD && c != b[i]
    ensures !Accepted(b[i := c])
  {
    hide Fnv1a, FromLe32;
    var d := b[i := c];
    if 36 <= i < 40 {
      assert Blanked(d) == Blanked(b);
      assert d[36..40][i - 36] != b[36..40][i - 36];
      if WordAt(d, 36) == WordAt(b, 36) {
        WordDiffers(d[36..40], b[36..40]);
      }
    } else {
      OneByteDetected(Blanked(b), i, c);
      assert Blanked(d) == Blanked(b)[i := c];
      assert d[36..40] == b[36..40];
    }
  }

  // ---- reading a text ----

  // A C string: the bytes before the first zero.
  function CString(b: seq<Byte>): (r: seq<Byte>) {
    if b == [] || b[0] == 0 then [] else [b[0]] + CString(b[1..])
  }

  // A text of nonzero single-byte characters is read back by the kernel's string comparison.
  lemma {:induction false} HeldText(field: seq<Byte>, s: string)
    requires Holds(field, s) && forall i :: 0 <= i < |s| ==> 0 < s[i] as int < 0x100
    ensures |CString(field)| == |s| && forall i :: 0 <= i < |s| ==> CString(field)[i] as int == s[i] as int
  {
    if s != [] {
      HeldText(field[1..], s[1..]);
    }
  }
}
