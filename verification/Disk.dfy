// A ZenovFS1 image as whole sectors: superblock, entry-table sectors of eight entries, raw data.
module Disk {
  import opened Bytes
  import opened EntryTable
  import opened Volume

  const SECTOR: nat := 512
  const ENTRY_LIMIT: nat := 128
  const PER_SECTOR: nat := 8

  datatype Superblock = Superblock(
    magic: string, version: U32, totalSectors: U32, entryCount: U32, entrySectors: U32,
    dataStart: U32, slotSectors: U32, generation: U32)

  datatype Sector = Boot(block: Superblock) | Meta(entries: seq<Entry>) | Raw(bytes: seq<Byte>)

  type Image = seq<Sector>

  datatype Write = Write(sector: nat, content: Sector)

  // First sector of data slot `i`.
  function SlotStart(b: Superblock, i: nat): (s: nat)
    ensures s >= b.dataStart
  {
    if i == 0 then b.dataStart else SlotStart(b, i - 1) + b.slotSectors
  }

  // `data_sector`: data_start + index * slot_sectors.
  lemma {:induction false} SlotStartProduct(b: Superblock, i: nat)
    ensures SlotStart(b, i) == b.dataStart + i * b.slotSectors
  {
    if i > 0 {
      SlotStartProduct(b, i - 1);
      assert i * b.slotSectors == (i - 1) * b.slotSectors + b.slotSectors;
    }
  }

  lemma {:induction false} SlotInside(b: Superblock, i: nat, n: nat)
    requires i < n
    ensures SlotStart(b, i) + b.slotSectors <= SlotStart(b, n)
  {
    if i < n - 1 {
      SlotInside(b, i, n - 1);
    }
  }

  // `validate_geometry`, with the 32-bit products and sums of the original.
  predicate ValidGeometry(d: Image) {
    && |d| > 0 && d[0].Boot?
    && var b := d[0].block;
    && b.magic == "ZENOVFS1" && b.version == 1
    && 0 < b.entryCount <= ENTRY_LIMIT
    && b.entrySectors != 0
    && b.entrySectors * SECTOR % 0x1_0000_0000 >= b.entryCount * 64
    && b.slotSectors != 0
    && b.dataStart >= (1 + b.entrySectors) % 0x1_0000_0000
    && b.totalSectors <= |d|
    && SlotStart(b, b.entryCount) <= b.totalSectors
  }

  // A checked image whose sectors hold what the geometry says they hold.
  ghost predicate Mounted(d: Image)
    ensures Mounted(d) ==> |d| > 0 && d[0].Boot?
  {
    && ValidGeometry(d)
    && var b := d[0].block;
    && b.entrySectors < b.dataStart
    && (forall k :: 1 <= k <= b.entrySectors ==> d[k].Meta? && |d[k].entries| == PER_SECTOR)
    && (forall k :: b.dataStart <= k < |d| ==> d[k].Raw? && |d[k].bytes| == SECTOR)
  }

  // The geometry check keeps the table clear of the data area, and large enough for every
  // entry, exactly when the sum 1 + entry_sectors does not wrap.
  lemma GeometryKeepsTableClear(d: Image)
    requires ValidGeometry(d)
    ensures d[0].block.entrySectors < d[0].block.dataStart <==> d[0].block.entrySectors != 0xFFFF_FFFF
    ensures d[0].block.entrySectors * PER_SECTOR >= d[0].block.entryCount
  {
  }

  // For tables of less than 2^32 bytes the check is exact: superblock, table and slots follow
  // one another inside the image, and the table holds all entries, eight to a sector.
  lemma GeometryExact(d: Image)
    requires |d| > 0 && d[0].Boot? && d[0].block.entrySectors < 0x80_0000
    ensures var b := d[0].block;
            ValidGeometry(d) <==>
              && b.magic == "ZENOVFS1" && b.version == 1 && 1 <= b.entryCount <= 128 && b.slotSectors >= 1
              && b.entryCount <= 8 * b.entrySectors
              && 1 + b.entrySectors <= b.dataStart
              && b.dataStart + b.entryCount * b.slotSectors <= b.totalSectors <= |d|
  {
    var b := d[0].block;
    SlotStartProduct(b, b.entryCount);
    assert b.entrySectors * SECTOR % 0x1_0000_0000 == b.entrySectors * 512;
  }

  lemma WrappedGeometryAccepted()
    ensures ValidGeometry([Boot(Superblock("ZENOVFS1", 1, 1, 1, 0xFFFF_FFFF, 0, 1, 0))])
  {
  }

  function EntryAt(d: Image, i: nat): (e: Entry)
    requires Mounted(d) && i < d[0].block.entryCount
  {
    d[1 + i / PER_SECTOR].entries[i % PER_SECTOR]
  }

  ghost predicate RawRange(d: Image, a: nat, n: nat)
    requires a + n <= |d|
  {
    forall k :: a <= k < a + n ==> d[k].Raw? && |d[k].bytes| == SECTOR
  }

  // The bytes of `n` consecutive sectors from `a`.
  function ReadSectors(d: Image, a: nat, n: nat): (r: seq<Byte>)
    requires a + n <= |d| && RawRange(d, a, n)
    ensures |r| == n * SECTOR
    decreases n
  {
    if n == 0 then [] else d[a].bytes + ReadSectors(d, a + 1, n - 1)
  }

  ghost function Slot(d: Image, i: nat): (r: seq<Byte>)
    requires Mounted(d) && i < d[0].block.entryCount
  {
    SlotInside(d[0].block, i, d[0].block.entryCount);
    ReadSectors(d, SlotStart(d[0].block, i), d[0].block.slotSectors)
  }

  ghost function VolumeOf(d: Image): (v: Volume)
    requires Mounted(d)
    ensures Sized(v) && |v.table| == d[0].block.entryCount && v.cap < 0x1_0000_0000
  {
    var n := d[0].block.entryCount;
    Volume(d[0].block.slotSectors * SECTOR % 0x1_0000_0000,
           seq(n, i requires 0 <= i < n => EntryAt(d, i)),
           seq(n, i requires 0 <= i < n => Slot(d, i)))
  }

  // ---- writes ----

  ghost predicate Fits(d: Image, ws: seq<Write>) {
    forall i :: 0 <= i < |ws| ==> ws[i].sector < |d|
  }

  // `apply_full`.
  function Apply(d: Image, w: Write): (r: Image)
    requires w.sector < |d|
    ensures |r| == |d|
  {
    d[w.sector := w.content]
  }

  function Replay(d: Image, ws: seq<Write>): (r: Image)
    requires Fits(d, ws)
    ensures |r| == |d|
  {
    if ws == [] then d else Apply(Replay(d, ws[..|ws| - 1]), ws[|ws| - 1])
  }

  // What a crash after the first `k` writes leaves on the disk.
  function Crashed(d: Image, ws: seq<Write>, k: nat): (r: Image)
    requires Fits(d, ws) && k <= |ws|
    ensures |r| == |d|
  {
    Replay(d, ws[..k])
  }

  // The image is a mountable one that `recover` turns into a valid tree showing `m`.
  ghost predicate RecoversAs(d: Image, m: View) {
    Mounted(d) && RecoversTo(VolumeOf(d), m)
  }

  lemma {:induction false} ReplayConcat(d: Image, a: seq<Write>, b: seq<Write>)
    requires Fits(d, a) && Fits(d, b)
    ensures Fits(d, a + b)
    ensures Replay(d, a + b) == Replay(Replay(d, a), b)
  {
    if b == [] {
      assert a + b == a;
    } else {
      ReplayConcat(d, a, b[..|b| - 1]);
      assert (a + b)[..|a + b| - 1] == a + b[..|b| - 1];
    }
  }

  // A crash after `k` of `a + b` falls in `a` or in `b`.
  lemma ReplayPrefixConcat(d: Image, a: seq<Write>, b: seq<Write>, k: nat)
    requires Fits(d, a) && Fits(d, b) && k <= |a| + |b|
    ensures Fits(d, a + b)
    ensures k <= |a| ==> Crashed(d, a + b, k) == Crashed(d, a, k)
    ensures k >= |a| ==> Crashed(d, a + b, k) == Crashed(Replay(d, a), b, k - |a|)
  {
    if k <= |a| {
      assert (a + b)[..k] == a[..k];
    }
    if k >= |a| {
      assert (a + b)[..k] == a + b[..k - |a|];
      ReplayConcat(d, a, b[..k - |a|]);
    }
  }

  lemma {:induction false} ReplayElsewhere(d: Image, ws: seq<Write>, k: nat)
    requires Fits(d, ws) && k < |d| && forall i :: 0 <= i < |ws| ==> ws[i].sector != k
    ensures Replay(d, ws)[k] == d[k]
  {
    if ws != [] {
      ReplayElsewhere(d, ws[..|ws| - 1], k);
    }
  }

  // ---- effect of each kind of write on the volume ----

  ghost predicate SameLayout(b: Superblock, c: Superblock) {
    b == c.(generation := b.generation)
  }

  lemma {:induction false} ReadSectorsSame(d: Image, e: Image, a: nat, n: nat)
    requires a + n <= |d| && RawRange(d, a, n)
    requires a + n <= |e| && forall k :: a <= k < a + n ==> e[k] == d[k]
    ensures ReadSectors(e, a, n) == ReadSectors(d, a, n)
    decreases n
  {
    if n > 0 {
      ReadSectorsSame(d, e, a + 1, n - 1);
    }
  }

  lemma SlotSame(d: Image, e: Image, i: nat)
    requires Mounted(d) && Mounted(e) && SameLayout(d[0].block, e[0].block) && |d| == |e|
    requires i < d[0].block.entryCount
    requires var a := SlotStart(d[0].block, i);
             forall k :: a <= k < a + d[0].block.slotSectors && k < |d| ==> e[k] == d[k]
    ensures Slot(e, i) == Slot(d, i)
  {
    var b := d[0].block;
    SlotStartLayout(b, e[0].block, i);
    SlotInside(b, i, b.entryCount);
    ReadSectorsSame(d, e, SlotStart(b, i), b.slotSectors);
  }

  lemma {:induction false} SlotStartLayout(b: Superblock, c: Superblock, i: nat)
    requires SameLayout(b, c)
    ensures SlotStart(b, i) == SlotStart(c, i)
  {
    if i > 0 {
      SlotStartLayout(b, c, i - 1);
    }
  }

  // Changing only sectors below the data area keeps every slot.
  lemma SlotsSame(d: Image, e: Image)
    requires Mounted(d) && Mounted(e) && SameLayout(d[0].block, e[0].block) && |d| == |e|
    requires forall k :: d[0].block.dataStart <= k < |d| ==> e[k] == d[k]
    ensures VolumeOf(e).slots == VolumeOf(d).slots
  {
    forall i | 0 <= i < d[0].block.entryCount
      ensures Slot(e, i) == Slot(d, i)
    {
      SlotSame(d, e, i);
    }
  }

  function SetEntry(d: Image, i: nat, e: Entry): (r: Image)
    requires Mounted(d) && i < d[0].block.entryCount
    ensures |r| == |d|
  {
    Apply(d, EntryWrite(d, i, e))
  }

  // The sector snapshot `set_entry_write` records.
  function EntryWrite(d: Image, i: nat, e: Entry): (w: Write)
    requires Mounted(d) && i < d[0].block.entryCount
    ensures w.sector < |d|
  {
    Write(1 + i / PER_SECTOR, Meta(d[1 + i / PER_SECTOR].entries[i % PER_SECTOR := e]))
  }

  lemma SetEntryVolume(d: Image, i: nat, e: Entry)
    requires Mounted(d) && i < d[0].block.entryCount
    ensures Mounted(SetEntry(d, i, e))
    ensures SetEntry(d, i, e)[0] == d[0]
    ensures VolumeOf(SetEntry(d, i, e)) == VolumeOf(d).(table := VolumeOf(d).table[i := e])
  {
    var r := SetEntry(d, i, e);
    assert Mounted(r);
    forall j | 0 <= j < d[0].block.entryCount
      ensures EntryAt(r, j) == if j == i then e else EntryAt(d, j)
    {
      if j / PER_SECTOR == i / PER_SECTOR && j % PER_SECTOR == i % PER_SECTOR {
        assert j == i;
      }
    }
    SlotsSame(d, r);
  }
}
