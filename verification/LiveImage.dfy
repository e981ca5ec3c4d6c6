// ZLIVE002 sparse packing of a disk image, and the ZLIVE003 pipeline around it.
module LiveImage {
  import opened Bytes
  import Lzss
  import LzssRuns

  const SECTOR: nat := 512
  const ZERO_GAP: nat := 8
  const MAX_CHUNK: nat := 0xFFFF

  datatype Extent = Extent(start: nat, end: nat)

  // ---- the chunker ----

  // A chunk starts and ends on a nonzero byte and holds no run of more than eight zeros.
  ghost predicate Dense(image: seq<Byte>, s: nat, e: nat) {
    && s < e <= |image| && image[s] != 0 && image[e - 1] != 0
    && forall i :: s <= i < e ==> !LongGap(image, i, e)
  }

  // More than eight zeros from `i` on, below `e`.
  ghost predicate LongGap(image: seq<Byte>, i: nat, e: nat) {
    i + ZERO_GAP < e <= |image| && Blank(image, i, i + ZERO_GAP + 1)
  }

  ghost predicate Blank(image: seq<Byte>, s: nat, e: nat) {
    s <= e <= |image| && forall i :: s <= i < e ==> image[i] == 0
  }

  // The chunks cover `image` up to `n`: dense, separated by more than eight zeros, and every
  // byte outside them is zero.
  ghost predicate Chunked(image: seq<Byte>, xs: seq<Extent>, n: nat)
    decreases |xs|
  {
    if xs == [] then Blank(image, 0, n)
    else
      var x := xs[|xs| - 1];
      && Dense(image, x.start, x.end) && Blank(image, x.end, n)
      && (|xs| > 1 ==> xs[|xs| - 2].end + ZERO_GAP < x.start)
      && Chunked(image, xs[..|xs| - 1], x.start)
  }

  ghost predicate Short(xs: seq<Extent>) {
    forall i :: 0 <= i < |xs| ==> xs[i].start <= xs[i].end && xs[i].end - xs[i].start <= MAX_CHUNK
  }

  method SkipZeros(image: seq<Byte>, from: nat) returns (i: nat)
    requires from <= |image|
    ensures from <= i <= |image| && Blank(image, from, i)
    ensures i < |image| ==> image[i] != 0
  {
    i := from;
    while i < |image| && image[i] == 0
      invariant from <= i <= |image| && Blank(image, from, i)
    {
      i := i + 1;
    }
  }

  // The inner loop: extend a chunk until more than eight zeros follow its last nonzero byte.
  method ExtendChunk(image: seq<Byte>, start: nat) returns (end: nat)
    requires start < |image| && image[start] != 0
    ensures Dense(image, start, end)
    ensures end + ZERO_GAP < |image| ==> Blank(image, end, end + ZERO_GAP + 1)
    ensures end + ZERO_GAP >= |image| ==> Blank(image, end, |image|)
  {
    var last, i := start, start + 1;
    while i < |image|
      invariant start <= last < i <= |image| && i - last <= ZERO_GAP + 1
      invariant Dense(image, start, last + 1) && Blank(image, last + 1, i)
    {
      if image[i] != 0 {
        ghost var e := i + 1;
        forall w | start <= w < e
          ensures !LongGap(image, w, e)
        {
          assert w > last || !LongGap(image, w, last + 1);
          assert w + ZERO_GAP < e ==> image[if w <= last then last else i] != 0;
        }
        last := i;
      } else if i - last > ZERO_GAP {
        break;
      }
      i := i + 1;
    }
    end := last + 1;
  }

  // The chunk loop of the packer; it gives up exactly when the chunking has a chunk that outgrows
  // a 16-bit length.
  method FindChunks(image: seq<Byte>) returns (r: Option<seq<Extent>>)
    ensures r.Some? ==> Chunked(image, r.value, |image|) && Short(r.value)
    ensures r.None? ==> forall ys :: Chunked(image, ys, |image|) ==> !Short(ys)
  {
    hide Chunked, Dense, LongGap, Blank;
    var chunks: seq<Extent> := [];
    var i := 0;
    ChunkedNone(image);
    while i < |image|
      invariant i <= |image| && Chunked(image, chunks, i) && Short(chunks)
      invariant |chunks| > 0 && i < |image| ==> i == chunks[|chunks| - 1].end && TailGap(image, i)
    {
      var start := SkipZeros(image, i);
      BlankExtends(image, chunks, i, start);
      if start == |image| {
        i := start;
        break;
      }
      var end := ExtendChunk(image, start);
      ChunkedSnoc(image, chunks, i, start, end);
      if end - start > MAX_CHUNK {
        forall ys | Chunked(image, ys, |image|)
          ensures !Short(ys)
        {
          ChunkKept(image, ys, |image|, chunks, start, end);
        }
        return None;
      }
      chunks := chunks + [Extent(start, end)];
      i := end;
    }
    return Some(chunks);
  }

  lemma ChunkedNone(image: seq<Byte>)
    ensures Chunked(image, [], 0)
  {
  }

  // A chunk found after those up to `i`.
  lemma ChunkedSnoc(image: seq<Byte>, chunks: seq<Extent>, i: nat, start: nat, end: nat)
    requires Chunked(image, chunks, start) && Dense(image, start, end) && i <= start
    requires |chunks| > 0 ==> i == chunks[|chunks| - 1].end && TailGap(image, i)
    ensures end <= |image| && Chunked(image, chunks + [Extent(start, end)], end)
  {
    hide LongGap;
    var next := chunks + [Extent(start, end)];
    assert next[..|chunks|] == chunks;
  }

  // ---- the chunking is unique ----

  // Where chunks up to `s` leave off: zeros all the way, or a chunk and more than eight zeros.
  ghost predicate GapBefore(image: seq<Byte>, s: nat) {
    Blank(image, 0, s) || exists g: nat :: g + ZERO_GAP < s && Blank(image, g, s) && g > 0 && image[g - 1] != 0
  }

  lemma ChunkedGap(image: seq<Byte>, xs: seq<Extent>, n: nat)
    requires xs != [] && Chunked(image, xs, n)
    ensures GapBefore(image, xs[|xs| - 1].start)
  {
    hide LongGap;
    if |xs| > 1 {
      assert Blank(image, xs[|xs| - 2].end, xs[|xs| - 1].start);
    }
  }

  // Two dense stretches with the same end and a gap before each start together.
  lemma SameStart(image: seq<Byte>, s: nat, t: nat, e: nat)
    requires Dense(image, s, e) && Dense(image, t, e) && GapBefore(image, t)
    ensures t <= s
  {
    if !Blank(image, 0, t) {
      var g: nat :| g + ZERO_GAP < t && Blank(image, g, t) && g > 0 && image[g - 1] != 0;
      assert s <= g ==> !LongGap(image, g, e);
    }
  }

  // A stretch that stands alone in the image is a chunk of every chunking of it.
  lemma {:induction false} ChunkKept(image: seq<Byte>, ys: seq<Extent>, n: nat, xs: seq<Extent>, s: nat, e: nat)
    requires Chunked(image, ys, n) && e <= n <= |image|
    requires Chunked(image, xs + [Extent(s, e)], e) && TailGap(image, e)
    ensures Extent(s, e) in ys
    decreases |ys|
  {
    hide LongGap;
    var zs := xs + [Extent(s, e)];
    ChunkedGap(image, zs, e);
    assert Dense(image, s, e);
    if ys != [] {
      var y := ys[|ys| - 1];
      EndsAgree(image, s, e, y.start, y.end, n);
      if e == y.end {
        ChunkedGap(image, ys, n);
        SameStart(image, s, y.start, e);
        SameStart(image, y.start, s, e);
        assert ys[|ys| - 1] == Extent(s, e);
      } else {
        ChunkKept(image, ys[..|ys| - 1], y.start, xs, s, e);
      }
    }
  }

  lemma EndsAgree(image: seq<Byte>, s: nat, e: nat, t: nat, f: nat, n: nat)
    requires Dense(image, s, e) && TailGap(image, e) && Dense(image, t, f) && Blank(image, f, n) && e <= n
    ensures e == f || e <= t
  {
    assert t <= e < f ==> !LongGap(image, e, f);
  }

  lemma {:induction false} ChunkedUnique(image: seq<Byte>, xs: seq<Extent>, ys: seq<Extent>, n: nat)
    requires Chunked(image, xs, n) && Chunked(image, ys, n)
    ensures xs == ys
    decreases |xs|
  {
    hide LongGap;
    if xs != [] && ys != [] {
      var x, y := xs[|xs| - 1], ys[|ys| - 1];
      assert x.end == y.end;
      ChunkedGap(image, xs, n);
      ChunkedGap(image, ys, n);
      SameStart(image, x.start, y.start, x.end);
      SameStart(image, y.start, x.start, x.end);
      ChunkedUnique(image, xs[..|xs| - 1], ys[..|ys| - 1], x.start);
      assert xs == xs[..|xs| - 1] + [x] && ys == ys[..|ys| - 1] + [y];
    }
  }

  // After a chunk ends at `e`, either more than eight zeros follow or only zeros do.
  ghost predicate TailGap(image: seq<Byte>, e: nat) {
    if e + ZERO_GAP < |image| then Blank(image, e, e + ZERO_GAP + 1) else Blank(image, e, |image|)
  }

  lemma BlankExtends(image: seq<Byte>, xs: seq<Extent>, n: nat, m: nat)
    requires Chunked(image, xs, n) && Blank(image, n, m)
    ensures Chunked(image, xs, m)
  {
  }

  // ---- painting ----

  ghost predicate InRange(n: nat, xs: seq<Extent>) {
    forall i :: 0 <= i < |xs| ==> xs[i].start <= xs[i].end <= n
  }

  function PaintAt(canvas: seq<Byte>, offset: nat, bytes: seq<Byte>): (r: seq<Byte>)
    requires offset + |bytes| <= |canvas|
    ensures |r| == |canvas|
  {
    canvas[..offset] + bytes + canvas[offset + |bytes|..]
  }

  // The offset as the header stores it, in 32 bits.
  function StoredOffset(x: Extent): (r: U32)
    ensures r <= x.start
  {
    x.start % 0x1_0000_0000
  }

  // The chunks of `image` painted at their stored offsets onto zeros.
  function Painted(image: seq<Byte>, xs: seq<Extent>): (r: seq<Byte>)
    requires InRange(|image|, xs)
    ensures |r| == |image|
  {
    if xs == [] then Zeros(|image|)
    else
      var x := xs[|xs| - 1];
      PaintAt(Painted(image, xs[..|xs| - 1]), StoredOffset(x), image[x.start..x.end])
  }

  ghost predicate Addressable(xs: seq<Extent>) {
    forall i :: 0 <= i < |xs| ==> xs[i].start < 0x1_0000_0000
  }

  lemma {:induction false} ChunkedInRange(image: seq<Byte>, xs: seq<Extent>, n: nat)
    requires Chunked(image, xs, n)
    ensures n <= |image| && InRange(n, xs) && forall i :: 0 <= i < |xs| ==> xs[i].start < xs[i].end
    ensures forall i, j :: 0 <= i < j < |xs| ==> xs[i].end <= xs[j].start
    ensures forall i :: 0 <= i < |xs| ==> image[xs[i].start] != 0
  {
    if xs != [] {
      ChunkedInRange(image, xs[..|xs| - 1], xs[|xs| - 1].start);
    }
  }

  // Chunks stored at their own offsets rebuild the image.
  lemma {:induction false} PaintedExact(image: seq<Byte>, xs: seq<Extent>, n: nat)
    requires Chunked(image, xs, n) && Addressable(xs) && InRange(|image|, xs)
    ensures n <= |image| && Painted(image, xs) == image[..n] + Zeros(|image| - n)
  {
    hide PaintAt, Dense, LongGap;
    if xs != [] {
      var x, p := xs[|xs| - 1], xs[..|xs| - 1];
      PaintedExact(image, p, x.start);
      PaintNext(image, x.start, x.end, n);
      assert StoredOffset(x) == x.start;
    }
  }

  lemma PaintNext(image: seq<Byte>, s: nat, e: nat, n: nat)
    requires s <= e && Blank(image, e, n)
    ensures PaintAt(image[..s] + Zeros(|image| - s), s, image[s..e]) == image[..n] + Zeros(|image| - n)
  {
    var canvas := image[..s] + Zeros(|image| - s);
    assert canvas[..s] == image[..s];
    assert canvas[e..] == Zeros(|image| - e);
    assert image[..s] + image[s..e] == image[..e];
    BlankTail(image, e, n);
  }

  lemma BlankTail(image: seq<Byte>, e: nat, n: nat)
    requires Blank(image, e, n)
    ensures image[..e] + Zeros(|image| - e) == image[..n] + Zeros(|image| - n)
  {
    assert image[e..n] == Zeros(n - e);
    assert Zeros(|image| - e) == Zeros(n - e) + Zeros(|image| - n);
    assert image[..n] == image[..e] + image[e..n];
  }

  lemma PaintAtElsewhere(canvas: seq<Byte>, offset: nat, bytes: seq<Byte>, q: nat)
    requires offset + |bytes| <= |canvas| && q < |canvas| && !(offset <= q < offset + |bytes|)
    ensures PaintAt(canvas, offset, bytes)[q] == canvas[q]
  {
  }

  lemma {:induction false} PaintedElsewhere(image: seq<Byte>, xs: seq<Extent>, q: nat)
    requires InRange(|image|, xs) && q < |image|
    requires forall i :: 0 <= i < |xs| ==> !(StoredOffset(xs[i]) <= q < StoredOffset(xs[i]) + (xs[i].end - xs[i].start))
    ensures Painted(image, xs)[q] == 0
  {
    hide PaintAt, StoredOffset;
    if xs != [] {
      var x := xs[|xs| - 1];
      PaintAtElsewhere(Painted(image, xs[..|xs| - 1]), StoredOffset(x), image[x.start..x.end], q);
      PaintedElsewhere(image, xs[..|xs| - 1], q);
    }
  }

  // A chunk that starts past 4 GiB is lost: the last such chunk's first byte stays zero.
  lemma PaintedTruncated(image: seq<Byte>, xs: seq<Extent>)
    requires Chunked(image, xs, |image|) && Short(xs) && InRange(|image|, xs) && !Addressable(xs)
    ensures Painted(image, xs) != image
  {
    hide Chunked, Painted, StoredOffset;
    ChunkedInRange(image, xs, |image|);
    var m := |xs| - 1;
    var k :| 0 <= k < |xs| && xs[k].start >= 0x1_0000_0000;
    var q := xs[m].start;
    assert k < m ==> xs[k].end <= xs[m].start;
    forall i | 0 <= i < |xs|
      ensures !(StoredOffset(xs[i]) <= q < StoredOffset(xs[i]) + (xs[i].end - xs[i].start))
    {
      assert i < m ==> xs[i].end <= xs[m].start;
      StoredBelow(xs[i], q);
    }
    PaintedElsewhere(image, xs, q);
  }

  // A chunk that ends by `q`, or starts there, is not stored over it.
  lemma StoredBelow(x: Extent, q: nat)
    requires q >= 0x1_0000_0000 && x.start <= x.end && x.end - x.start <= MAX_CHUNK && (x.end <= q || x.start == q)
    ensures !(StoredOffset(x) <= q < StoredOffset(x) + (x.end - x.start))
  {
  }

  // ---- ZLIVE002 framing ----

  const MAGIC: seq<Byte> := [0x5A, 0x4C, 0x49, 0x56, 0x45, 0x30, 0x30, 0x32]

  function RowBytes(x: Extent): (r: seq<Byte>)
    requires x.start <= x.end && x.end - x.start <= MAX_CHUNK
    ensures |r| == 8
  {
    Le32(StoredOffset(x)) + Le16(x.end - x.start) + Le16(0)
  }

  function TableBytes(xs: seq<Extent>): (r: seq<Byte>)
    requires Short(xs)
    ensures |r| == 8 * |xs|
  {
    if xs == [] then [] else TableBytes(xs[..|xs| - 1]) + RowBytes(xs[|xs| - 1])
  }

  function DataBytes(image: seq<Byte>, xs: seq<Extent>): (r: seq<Byte>)
    requires InRange(|image|, xs)
  {
    if xs == [] then [] else DataBytes(image, xs[..|xs| - 1]) + image[xs[|xs| - 1].start..xs[|xs| - 1].end]
  }

  ghost predicate Packable(image: seq<Byte>, xs: seq<Extent>) {
    && |image| % SECTOR == 0 && |image| / SECTOR < 0x1_0000_0000
    && Chunked(image, xs, |image|) && Short(xs) && InRange(|image|, xs)
    && 0 < |xs| < 0x1_0000_0000 && |DataBytes(image, xs)| < 0x1_0000_0000
  }

  function Header(sectors: U32, count: U32, size: U32): (r: seq<Byte>)
    ensures |r| == 20
  {
    MAGIC + Le32(sectors) + Le32(count) + Le32(size)
  }

  function Sparse(image: seq<Byte>, xs: seq<Extent>): (r: seq<Byte>)
    requires Packable(image, xs)
    ensures |r| == 20 + 8 * |xs| + |DataBytes(image, xs)|
  {
    Header(|image| / SECTOR, |xs|, |DataBytes(image, xs)|) + TableBytes(xs) + DataBytes(image, xs)
  }

  // ---- the reader the format implies ----

  datatype Canvas = Canvas(image: seq<Byte>, position: nat)

  function PaintRow(s: seq<Byte>, c: Canvas, row: seq<Byte>): (r: Option<Canvas>)
    requires |row| == 8
  {
    var offset, length := FromLe32(row[..4]), FromLe16(row[4..6]);
    if FromLe16(row[6..]) != 0 || offset + length > |c.image| || c.position + length > |s| then None
    else Some(Canvas(PaintAt(c.image, offset, s[c.position..c.position + length]), c.position + length))
  }

  // The canvas after the first `k` rows of the table.
  function PaintRows(s: seq<Byte>, n: nat, count: nat, k: nat): (r: Option<Canvas>)
    requires k <= count && 20 + 8 * count <= |s|
  {
    if k == 0 then Some(Canvas(Zeros(n), 20 + 8 * count))
    else match PaintRows(s, n, count, k - 1)
      case None => None
      case Some(c) => PaintRow(s, c, s[20 + 8 * (k - 1)..20 + 8 * k])
  }

  function Unpack(s: seq<Byte>): (r: Option<seq<Byte>>) {
    if |s| < 20 || s[..8] != MAGIC then None
    else
      var sectors, count, size := FromLe32(s[8..12]), FromLe32(s[12..16]), FromLe32(s[16..20]);
      if |s| != 20 + 8 * count + size then None
      else match PaintRows(s, sectors * SECTOR, count, count)
        case None => None
        case Some(c) => if c.position == |s| then Some(c.image) else None
  }

  lemma {:induction false} TableAt(xs: seq<Extent>, k: nat)
    requires Short(xs) && k < |xs|
    ensures TableBytes(xs)[8 * k..8 * k + 8] == RowBytes(xs[k])
  {
    if k < |xs| - 1 {
      var p := xs[..|xs| - 1];
      TableAt(p, k);
      assert TableBytes(xs)[8 * k..8 * k + 8] == TableBytes(p)[8 * k..8 * k + 8];
    }
  }

  lemma {:induction false} DataAt(image: seq<Byte>, xs: seq<Extent>, k: nat)
    requires InRange(|image|, xs) && k < |xs|
    ensures var a := |DataBytes(image, xs[..k])|;
            && |DataBytes(image, xs[..k + 1])| == a + (xs[k].end - xs[k].start) <= |DataBytes(image, xs)|
            && DataBytes(image, xs)[a..a + (xs[k].end - xs[k].start)] == image[xs[k].start..xs[k].end]
  {
    assert xs[..k + 1][..k] == xs[..k];
    if k < |xs| - 1 {
      var p := xs[..|xs| - 1];
      DataAt(image, p, k);
      assert p[..k] == xs[..k] && p[..k + 1] == xs[..k + 1];
      var a := |DataBytes(image, xs[..k])|;
      assert DataBytes(image, xs)[a..a + (xs[k].end - xs[k].start)] ==
        DataBytes(image, p)[a..a + (xs[k].end - xs[k].start)];
    } else {
      assert xs[..k + 1] == xs;
    }
  }

  lemma RowDecodes(x: Extent)
    requires x.start <= x.end && x.end - x.start <= MAX_CHUNK
    ensures var row := RowBytes(x);
            FromLe32(row[..4]) == StoredOffset(x) && FromLe16(row[4..6]) == x.end - x.start && FromLe16(row[6..]) == 0
  {
    var row := RowBytes(x);
    assert row[..4] == Le32(StoredOffset(x)) && row[4..6] == Le16(x.end - x.start) && row[6..] == Le16(0);
    Le32RoundTrip(StoredOffset(x));
    Le16RoundTrip(x.end - x.start);
  }

  lemma SparseParts(image: seq<Byte>, xs: seq<Extent>, k: nat)
    requires Packable(image, xs) && k < |xs|
    ensures Sparse(image, xs)[20 + 8 * k..20 + 8 * (k + 1)] == RowBytes(xs[k])
    ensures var a := 20 + 8 * |xs| + |DataBytes(image, xs[..k])|;
            && a + (xs[k].end - xs[k].start) <= |Sparse(image, xs)|
            && Sparse(image, xs)[a..a + (xs[k].end - xs[k].start)] == image[xs[k].start..xs[k].end]
  {
    hide TableBytes, DataBytes, RowBytes, Chunked;
    TableAt(xs, k);
    DataAt(image, xs, k);
    var h, t, b := Header(|image| / SECTOR, |xs|, |DataBytes(image, xs)|), TableBytes(xs), DataBytes(image, xs);
    var a := |DataBytes(image, xs[..k])|;
    Slices(h, t, b, 8 * k, 8 * k + 8, a, a + (xs[k].end - xs[k].start));
  }

  lemma Slices(h: seq<Byte>, t: seq<Byte>, b: seq<Byte>, i: nat, j: nat, k: nat, l: nat)
    requires i <= j <= |t| && k <= l <= |b|
    ensures (h + t + b)[|h| + i..|h| + j] == t[i..j]
    ensures (h + t + b)[|h| + |t| + k..|h| + |t| + l] == b[k..l]
  {
  }

  lemma RowPaints(s: seq<Byte>, c: Canvas, x: Extent)
    requires x.start <= x.end && x.end - x.start <= MAX_CHUNK
    requires x.end <= |c.image| && c.position + (x.end - x.start) <= |s|
    ensures PaintRow(s, c, RowBytes(x))
            == Some(Canvas(PaintAt(c.image, StoredOffset(x), s[c.position..c.position + (x.end - x.start)]),
              c.position + (x.end - x.start)))
  {
    hide RowBytes, PaintAt, StoredOffset, FromLe16, FromLe32;
    RowDecodes(x);
  }

  lemma {:induction false} RowsPaint(image: seq<Byte>, xs: seq<Extent>, k: nat)
    requires Packable(image, xs) && k <= |xs|
    ensures PaintRows(Sparse(image, xs), |image|, |xs|, k)
            == Some(Canvas(Painted(image, xs[..k]), 20 + 8 * |xs| + |DataBytes(image, xs[..k])|))
  {
    hide Sparse, RowBytes, PaintRow, PaintAt, Chunked, StoredOffset, Painted, DataBytes, PaintRows, TableBytes;
    var s := Sparse(image, xs);
    SparseSize(image, xs);
    if k == 0 {
      assert xs[..0] == [];
      RowsNone(s, image, |xs|);
    } else {
      var x := xs[k - 1];
      var c := Canvas(Painted(image, xs[..k - 1]), 20 + 8 * |xs| + |DataBytes(image, xs[..k - 1])|);
      RowsPaint(image, xs, k - 1);
      SparseParts(image, xs, k - 1);
      DataAt(image, xs, k - 1);
      RowPaints(s, c, x);
      RowsNext(s, |image|, |xs|, k, c);
      PaintedSnoc(image, xs, k);
    }
  }

  lemma SparseSize(image: seq<Byte>, xs: seq<Extent>)
    requires Packable(image, xs)
    ensures |Sparse(image, xs)| == 20 + 8 * |xs| + |DataBytes(image, xs)|
  {
    hide Chunked, TableBytes, DataBytes, Header;
  }

  lemma RowsNone(s: seq<Byte>, image: seq<Byte>, count: nat)
    requires 20 + 8 * count <= |s|
    ensures PaintRows(s, |image|, count, 0) == Some(Canvas(Painted(image, []), 20 + 8 * count + |DataBytes(image, [])|))
  {
  }

  lemma RowsNext(s: seq<Byte>, n: nat, count: nat, k: nat, c: Canvas)
    requires 0 < k <= count && 20 + 8 * count <= |s| && PaintRows(s, n, count, k - 1) == Some(c)
    ensures PaintRows(s, n, count, k) == PaintRow(s, c, s[20 + 8 * (k - 1)..20 + 8 * k])
  {
    hide PaintRow;
  }

  lemma PaintedSnoc(image: seq<Byte>, xs: seq<Extent>, k: nat)
    requires 0 < k <= |xs| && InRange(|image|, xs)
    ensures var x := xs[k - 1];
            Painted(image, xs[..k]) == PaintAt(Painted(image, xs[..k - 1]), StoredOffset(x), image[x.start..x.end])
  {
    hide PaintAt, StoredOffset;
    assert xs[..k][..k - 1] == xs[..k - 1];
  }

  lemma UnpackPaints(image: seq<Byte>, xs: seq<Extent>)
    requires Packable(image, xs)
    ensures Unpack(Sparse(image, xs)) == Some(Painted(image, xs))
  {
    hide Sparse, PaintRows, Painted, Chunked, DataBytes, FromLe32;
    SparseHeader(image, xs);
    RowsPaint(image, xs, |xs|);
    assert xs[..|xs|] == xs;
    assert |image| / SECTOR * SECTOR == |image|;
  }

  // Reading a packed image back paints its chunks at their stored offsets; this is the image
  // itself if and only if every chunk starts below 4 GiB.
  lemma UnpackSparse(image: seq<Byte>, xs: seq<Extent>)
    requires Packable(image, xs)
    ensures Unpack(Sparse(image, xs)) == Some(image) <==> Addressable(xs)
  {
    hide Sparse, Painted, DataBytes, Unpack;
    UnpackPaints(image, xs);
    if Addressable(xs) {
      PaintedExact(image, xs, |image|);
      assert image[..|image|] + Zeros(0) == image;
    } else {
      PaintedTruncated(image, xs);
    }
  }

  lemma SparseHeader(image: seq<Byte>, xs: seq<Extent>)
    requires Packable(image, xs)
    ensures var s := Sparse(image, xs);
            && s[..8] == MAGIC && FromLe32(s[8..12]) == |image| / SECTOR
            && FromLe32(s[12..16]) == |xs| && FromLe32(s[16..20]) == |DataBytes(image, xs)|
  {
    var s := Sparse(image, xs);
    var n, c, z := |image| / SECTOR, |xs|, |DataBytes(image, xs)|;
    hide Chunked, TableBytes, DataBytes;
    assert s[..20] == Header(n, c, z);
    assert s[..8] == s[..20][..8] && s[8..12] == s[..20][8..12] && s[12..16] == s[..20][12..16] &&
      s[16..20] == s[..20][16..20];
    assert s[8..12] == Le32(n) && s[12..16] == Le32(c) && s[16..20] == Le32(z);
    Le32RoundTrip(n);
    Le32RoundTrip(c);
    Le32RoundTrip(z);
  }

  // ---- the packer ----

  method AppendTable(prefix: seq<Byte>, chunks: seq<Extent>) returns (sparse: seq<Byte>)
    requires Short(chunks)
    ensures sparse == prefix + TableBytes(chunks)
  {
    sparse := prefix;
    var i := 0;
    while i < |chunks|
      invariant i <= |chunks| && sparse == prefix + TableBytes(chunks[..i])
    {
      var x := chunks[i];
      assert chunks[..i + 1][..i] == chunks[..i];
      var row := Le32(x.start % 0x1_0000_0000) + Le16(x.end - x.start) + Le16(0);
      assert row == RowBytes(x);
      sparse := sparse + row;
      i := i + 1;
    }
    assert chunks[..i] == chunks;
  }

  method AppendData(prefix: seq<Byte>, image: seq<Byte>, chunks: seq<Extent>) returns (sparse: seq<Byte>)
    requires InRange(|image|, chunks)
    ensures sparse == prefix + DataBytes(image, chunks)
  {
    sparse := prefix;
    var i := 0;
    while i < |chunks|
      invariant i <= |chunks| && sparse == prefix + DataBytes(image, chunks[..i])
    {
      assert chunks[..i + 1][..i] == chunks[..i];
      sparse := sparse + image[chunks[i].start..chunks[i].end];
      i := i + 1;
    }
    assert chunks[..i] == chunks;
  }

  // Header, then the table loop, then the data loop.
  method PackSparse(image: seq<Byte>, chunks: seq<Extent>, size: nat) returns (sparse: seq<Byte>)
    requires Packable(image, chunks) && size == |DataBytes(image, chunks)|
    ensures sparse == Sparse(image, chunks)
  {
    hide Chunked, TableBytes, DataBytes;
    sparse := MAGIC + Le32(|image| / SECTOR) + Le32(|chunks|) + Le32(size);
    assert sparse == Header(|image| / SECTOR, |chunks|, size);
    hide Header;
    sparse := AppendTable(sparse, chunks);
    sparse := AppendData(sparse, image, chunks);
  }

  method TotalBytes(image: seq<Byte>, chunks: seq<Extent>) returns (size: nat)
    requires InRange(|image|, chunks)
    ensures size == |DataBytes(image, chunks)|
  {
    size := 0;
    var i := 0;
    while i < |chunks|
      invariant i <= |chunks| && size == |DataBytes(image, chunks[..i])|
    {
      assert chunks[..i + 1][..i] == chunks[..i];
      size := size + (chunks[i].end - chunks[i].start);
      i := i + 1;
    }
    assert chunks[..i] == chunks;
  }

  datatype Live = Live(packBytes: nat, compressed: seq<Byte>)

  // What a ZLIVE003 reader does: decompress to the recorded length, then unpack.
  function Restore(live: Live): (r: Option<seq<Byte>>) {
    match Lzss.Decode(live.compressed, live.packBytes)
    case None => None
    case Some(sparse) => Unpack(sparse)
  }

  ghost function LiveOf(image: seq<Byte>, xs: seq<Extent>): (live: Live)
    requires Packable(image, xs)
  {
    Live(|Sparse(image, xs)|, Lzss.Compressed(Sparse(image, xs)))
  }

  // The image has a chunking the format can hold, and compression shrinks its sparse form.
  ghost predicate Shrinks(image: seq<Byte>, xs: seq<Extent>) {
    Packable(image, xs) && |LiveOf(image, xs).compressed| < LiveOf(image, xs).packBytes
  }

  ghost predicate Accepts(image: seq<Byte>) {
    exists xs :: Shrinks(image, xs)
  }

  lemma AcceptsOnly(image: seq<Byte>, xs: seq<Extent>)
    requires Chunked(image, xs, |image|)
    ensures Accepts(image) <==> Shrinks(image, xs)
  {
    hide Chunked, LiveOf;
    if ys :| Shrinks(image, ys) {
      ChunkedUnique(image, xs, ys, |image|);
    }
  }

  // A reader restores what the packer made exactly when every chunk starts below 4 GiB.
  lemma RestoreExact(image: seq<Byte>, xs: seq<Extent>)
    requires Packable(image, xs)
    ensures Restore(LiveOf(image, xs)) == Some(image) <==> Addressable(xs)
  {
    hide Sparse, Packable, Unpack, Addressable, Lzss.Decode, Lzss.Compressed;
    Lzss.CompressedDecodes(Sparse(image, xs));
    UnpackSparse(image, xs);
  }

  // The whole packer. It accepts exactly the images whose sparse form exists and shrinks, and
  // what it makes of them restores to the image exactly when every chunk starts below 4 GiB.
  method Pack(image: seq<Byte>) returns (r: Option<Live>, ghost xs: seq<Extent>)
    ensures r.Some? <==> Accepts(image)
    ensures r.Some? ==> Packable(image, xs) && r.value == LiveOf(image, xs)
    ensures r.Some? ==> (Restore(r.value) == Some(image) <==> Addressable(xs))
    ensures r.Some? && |image| <= 0x1_0000_0000 ==> Restore(r.value) == Some(image)
  {
    hide Chunked, Sparse, DataBytes, Unpack, Lzss.Decode, Lzss.Compressed, Restore;
    xs := [];
    if |image| % SECTOR != 0 || |image| / SECTOR > 0xFFFF_FFFF {
      return None, xs;
    }
    var found := FindChunks(image);
    if found.None? {
      return None, xs;
    }
    var chunks := found.value;
    xs := chunks;
    AcceptsOnly(image, chunks);
    ChunkedInRange(image, chunks, |image|);
    if |chunks| == 0 || |chunks| > 0xFFFF_FFFF {
      return None, xs;
    }
    var size := TotalBytes(image, chunks);
    if size > 0xFFFF_FFFF {
      return None, xs;
    }
    var sparse := PackSparse(image, chunks, size);
    var compressed, tokens := Lzss.Compress(sparse);
    Lzss.NothingDecodes(|sparse|);
    if |compressed| == 0 || |compressed| >= |sparse| {
      return None, xs;
    }
    RestoreExact(image, chunks);
    r := Some(Live(|sparse|, compressed));
  }

  // The condition is not idle: two hundred bytes at 4 GiB are accepted and do not come back.
  lemma TruncationOccurs() returns (image: seq<Byte>, xs: seq<Extent>)
    ensures Accepts(image) && Packable(image, xs) && !Addressable(xs) && Restore(LiveOf(image, xs)) != Some(image)
  {
    hide Restore, LzssRuns.RunFromTo, Lzss.Compressed, Addressable;
    image, xs := FarImage(), [Extent(FAR, FAR + 200)];
    FarPackable();
    RestoreExact(image, xs);
    FarSparse();
    LzssRuns.RunShrinks(Sparse(image, xs), 28);
    assert Shrinks(image, xs);
  }

  const FAR: nat := 0x1_0000_0000

  // Zeros, with two hundred ones from 4 GiB on.
  function FarImage(): (image: seq<Byte>) {
    seq(FAR + SECTOR, i => if FAR <= i < FAR + 200 then 1 else 0)
  }

  lemma FarPackable()
    ensures Packable(FarImage(), [Extent(FAR, FAR + 200)]) && !Addressable([Extent(FAR, FAR + 200)])
  {
    var image, xs := FarImage(), [Extent(FAR, FAR + 200)];
    assert xs[..0] == [];
    assert DataBytes(image, xs) == image[FAR..FAR + 200];
    assert Chunked(image, [], FAR);
    var e := FAR + 200;
    forall i | FAR <= i < e
      ensures !LongGap(image, i, e)
    {
      assert image[i] == 1;
    }
    assert !Addressable(xs) by { assert xs[0].start == FAR; }
  }

  // Its sparse form ends in a run of ones.
  lemma FarSparse()
    requires Packable(FarImage(), [Extent(FAR, FAR + 200)])
    ensures var s := Sparse(FarImage(), [Extent(FAR, FAR + 200)]); |s| == 228 && LzssRuns.RunFromTo(s, 28)
  {
    var image, xs := FarImage(), [Extent(FAR, FAR + 200)];
    assert xs[..0] == [];
    assert DataBytes(image, xs) == image[FAR..FAR + 200];
    assert |TableBytes(xs)| == 8;
  }
}
