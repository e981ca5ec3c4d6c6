// The ELF32 file layout: images assembled from a header, a table of program headers and content,
// and what importing them comes to in terms of their segments.
module ElfLayout {
  import opened Bytes
  import opened ElfImport

  // The header bytes the import does not look at: identification padding, section table offset
  // and flags, section header sizes.
  datatype Unread = Unread(ident: seq<Byte>, sections: seq<Byte>, tail: seq<Byte>)
  {
    predicate Sized() { |ident| == 9 && |sections| == 8 && |tail| == 6 }
  }

  // An executable: entry point, segments with their unread physical addresses, the bytes between
  // the file header and the table, and everything after the table.
  datatype Executable = Executable(entry: U32, segments: seq<Segment>, physical: seq<U32>, gap: seq<Byte>,
    content: seq<Byte>, unread: Unread)
  {
    ghost predicate Valid() {
      |segments| == |physical| < 0x1_0000 && 52 + |gap| < 0x1_0000_0000 && unread.Sized()
    }
  }

  function HeaderBytes(entry: U32, table: U32, count: U16, u: Unread): (r: seq<Byte>)
    requires u.Sized()
    ensures |r| == 52
  {
    [0x7F, 0x45, 0x4C, 0x46, 1, 1, 1] + u.ident
    + Le16(2) + Le16(3) + Le32(1) + Le32(entry) + Le32(table) + u.sections + Le16(52) + Le16(32) + Le16(count) + u.tail
  }

  function SegmentBytes(s: Segment, physical: U32): (r: seq<Byte>)
    ensures |r| == 32
  {
    Le32(s.kind) + Le32(s.offset) + Le32(s.address) + Le32(physical) + Le32(s.fileSize) + Le32(s.memorySize)
    + Le32(s.flags) + Le32(s.alignment)
  }

  function TableBytes(ss: seq<Segment>, physical: seq<U32>): (r: seq<Byte>)
    requires |ss| == |physical|
    ensures |r| == 32 * |ss|
  {
    if ss == [] then []
    else
      var n := |ss| - 1;
      TableBytes(ss[..n], physical[..n]) + SegmentBytes(ss[n], physical[n])
  }

  function Assembled(x: Executable): (b: seq<Byte>)
    requires x.Valid()
  {
    HeaderBytes(x.entry, 52 + |x.gap|, |x.segments|, x.unread) + x.gap + TableBytes(x.segments, x.physical) + x.content
  }

  // ---- reading back ----

  lemma SegmentRead(b: seq<Byte>, o: nat, s: Segment, physical: U32)
    requires o + 32 <= |b| && b[o..o + 32] == SegmentBytes(s, physical)
    ensures SegmentAt(b, o) == s
  {
    hide Le32, FromLe32;
    WordRead(b, o, 0, s.kind, SegmentBytes(s, physical));
    WordRead(b, o, 4, s.offset, SegmentBytes(s, physical));
    WordRead(b, o, 8, s.address, SegmentBytes(s, physical));
    WordRead(b, o, 16, s.fileSize, SegmentBytes(s, physical));
    WordRead(b, o, 20, s.memorySize, SegmentBytes(s, physical));
    WordRead(b, o, 24, s.flags, SegmentBytes(s, physical));
    WordRead(b, o, 28, s.alignment, SegmentBytes(s, physical));
  }

  lemma WordRead(b: seq<Byte>, o: nat, k: nat, x: U32, field: seq<Byte>)
    requires o + |field| <= |b| && b[o..o + |field|] == field && k + 4 <= |field| && field[k..k + 4] == Le32(x)
    ensures U32At(b, o + k) == x
  {
    hide Le32, FromLe32;
    var word, part := b[o + k..o + k + 4], field[k..k + 4];
    forall j | 0 <= j < 4
      ensures word[j] == part[j]
    {
      assert b[o + k + j] == b[o..o + |field|][k + j];
    }
    assert word == part;
    Le32RoundTrip(x);
  }

  lemma HalfRead(b: seq<Byte>, k: nat, x: U16, field: seq<Byte>)
    requires field <= b && k + 2 <= |field| && field[k..k + 2] == Le16(x)
    ensures U16At(b, k) == x
  {
    hide Le16, FromLe16;
    assert b[k..k + 2] == field[k..k + 2];
    Le16RoundTrip(x);
  }

  lemma {:induction false} TableRead(b: seq<Byte>, o: nat, ss: seq<Segment>, physical: seq<U32>, i: nat)
    requires |ss| == |physical| && o + 32 * |ss| <= |b| && i < |ss|
    requires b[o..o + 32 * |ss|] == TableBytes(ss, physical)
    ensures SegmentAt(b, o + 32 * i) == ss[i]
  {
    hide SegmentBytes, SegmentAt;
    var n := |ss| - 1;
    var t := TableBytes(ss, physical);
    if i == n {
      assert b[o + 32 * n..o + 32 * n + 32] == t[32 * n..];
      SegmentRead(b, o + 32 * n, ss[n], physical[n]);
    } else {
      assert b[o..o + 32 * n] == t[..32 * n];
      TableRead(b, o, ss[..n], physical[..n], i);
    }
  }

  function LoadedOf(ss: seq<Segment>): (r: seq<Segment>) {
    if ss == [] then []
    else LoadedOf(ss[..|ss| - 1]) + if Loaded(ss[|ss| - 1]) then [ss[|ss| - 1]] else []
  }

  lemma {:induction false} LoadsRead(b: seq<Byte>, o: nat, ss: seq<Segment>, i: nat)
    requires i <= |ss| && o + 32 * |ss| <= |b|
    requires forall k :: 0 <= k < |ss| ==> SegmentAt(b, o + 32 * k) == ss[k]
    ensures Loads(b, o, i) == LoadedOf(ss[..i])
  {
    hide SegmentAt;
    if i > 0 {
      LoadsRead(b, o, ss, i - 1);
      assert ss[..i][..i - 1] == ss[..i - 1];
    }
  }

  lemma AllowedRead(b: seq<Byte>, o: nat, ss: seq<Segment>)
    requires o + 32 * |ss| <= |b| && forall k :: 0 <= k < |ss| ==> SegmentAt(b, o + 32 * k) == ss[k]
    ensures AllAllowed(b, o, |ss|) <==> forall i :: 0 <= i < |ss| ==> HeaderAllowed(ss[i], |b|)
  {
    hide SegmentAt, HeaderAllowed;
    if AllAllowed(b, o, |ss|) {
      forall i | 0 <= i < |ss| ensures HeaderAllowed(ss[i], |b|) {
        assert HeaderAllowed(SegmentAt(b, o + 32 * i), |b|);
      }
    } else {
      var i :| 0 <= i < |ss| && !HeaderAllowed(SegmentAt(b, o + 32 * i), |b|);
      assert !HeaderAllowed(ss[i], |b|);
    }
  }

  lemma HeaderFields(entry: U32, table: U32, count: U16, u: Unread)
    requires u.Sized()
    ensures var t := HeaderBytes(entry, table, count, u);
            && t[..7] == [0x7F, 0x45, 0x4C, 0x46, 1, 1, 1] && t[16..18] == Le16(2) && t[18..20] == Le16(3)
            && t[20..24] == Le32(1) && t[24..28] == Le32(entry) && t[28..32] == Le32(table)
            && t[40..42] == Le16(52) && t[42..44] == Le16(32) && t[44..46] == Le16(count)
  {
    hide Le16, Le32;
  }

  lemma HeaderRead(b: seq<Byte>, entry: U32, table: U32, count: U16, u: Unread)
    requires u.Sized() && HeaderBytes(entry, table, count, u) <= b
    ensures U32At(b, 24) == entry && U32At(b, 28) == table && U16At(b, 44) == count
    ensures FileHeader(b) <==> count > 0 && entry < STACK_BASE && table + 32 * count <= |b|
  {
    hide Le16, Le32, FromLe16, FromLe32, HeaderBytes;
    var t := HeaderBytes(entry, table, count, u);
    HeaderFields(entry, table, count, u);
    assert b[0..0 + |t|] == t;
    assert b[0..7] == t[..7];
    HalfRead(b, 16, 2, t);
    HalfRead(b, 18, 3, t);
    WordRead(b, 0, 20, 1, t);
    WordRead(b, 0, 24, entry, t);
    WordRead(b, 0, 28, table, t);
    HalfRead(b, 40, 52, t);
    HalfRead(b, 42, 32, t);
    HalfRead(b, 44, count, t);
  }

  // The parts of an assembled image are where its header says.
  lemma AssembledParts(x: Executable)
    requires x.Valid()
    ensures var b, o, n := Assembled(x), 52 + |x.gap|, |x.segments|;
            && o + 32 * n <= |b| && HeaderBytes(x.entry, o, n, x.unread) <= b
            && b[o..o + 32 * n] == TableBytes(x.segments, x.physical)
  {
    hide HeaderBytes, TableBytes;
  }

  // An assembled image can be imported exactly when its entry point and its segments allow it.
  lemma AssembledImportable(x: Executable)
    requires x.Valid()
    ensures Importable(Assembled(x)) <==>
            && x.segments != [] && x.entry < STACK_BASE
            && (forall i :: 0 <= i < |x.segments| ==> HeaderAllowed(x.segments[i], |Assembled(x)|))
            && Pairwise(LoadedOf(x.segments)) && HasEntry(LoadedOf(x.segments), x.entry)
  {
    hide HeaderBytes, TableBytes, Assembled, SegmentAt, HeaderAllowed, AllAllowed, Pairwise, HasEntry, FromLe16,
      FromLe32, LoadedOf;
    var b, o, n := Assembled(x), 52 + |x.gap|, |x.segments|;
    AssembledParts(x);
    HeaderRead(b, x.entry, o, n, x.unread);
    forall k | 0 <= k < n
      ensures SegmentAt(b, o + 32 * k) == x.segments[k]
    {
      TableRead(b, o, x.segments, x.physical, k);
    }
    AllowedRead(b, o, x.segments);
    LoadsRead(b, o, x.segments, n);
    assert x.segments[..n] == x.segments;
  }
}
