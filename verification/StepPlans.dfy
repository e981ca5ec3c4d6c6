// The planning steps of the transport tool: file replacement, metadata sync, rename, removal.
// Each method mutates the planned image and lists the sector writes it made.
module StepPlans {
  import opened Bytes
  import opened EntryTable
  import opened Volume
  import opened CowCommit
  import opened Disk
  import opened CowPlan
  import opened FilePlanner

  datatype Step = Rejected | Planned(disk: Image, writes: seq<Write>)

  // ---- write_file_plan ----

  ghost predicate Target(t: Table, p: string, o: int) {
    -1 <= o < |t| && (o >= 0 ==> Matches(t, o, p)) && (o < 0 ==> forall i :: !Matches(t, i, p))
  }

  ghost function Composed(v: Volume, o: int, append: bool, input: seq<Byte>): (data: seq<Byte>)
    requires Sized(v) && -1 <= o < |v.table|
  {
    if append && o >= 0 && v.table[o].size <= |v.slots[o]| then v.slots[o][..v.table[o].size] + input else input
  }

  ghost predicate Full(t: Table, o: int) {
    forall i :: 0 <= i < |t| ==> i == o || t[i].used != 0
  }

  method WriteFile(d: Image, path: string, input: seq<Byte>, append: bool)
    returns (r: Step, ghost data: seq<Byte>, ghost o: int, ghost s: nat)
    requires Mounted(d)
    ensures -1 <= o < d[0].block.entryCount
    ensures !FaultyFor(VolumeOf(d).table, path) ==>
              Target(VolumeOf(d).table, path, o) && data == Composed(VolumeOf(d), o, append, input)
    ensures r.Planned? ==> Fits(d, r.writes) && r.disk == Replay(d, r.writes)
    ensures r.Rejected? <==>
            || FaultyFor(VolumeOf(d).table, path)
            || (append && o >= 0 && !Readable(VolumeOf(d), o))
            || |data| > d[0].block.slotSectors * SECTOR
            || Full(VolumeOf(d).table, o)
            || !Settable(path)
    ensures r.Planned? ==>
              && Plannable(d, path, data, o, s)
              && s != o && VolumeOf(d).table[s].used == 0
              && (forall i :: 0 <= i < s ==> i == o || VolumeOf(d).table[i].used != 0)
              && r.writes == CowWrites(d, path, data, o, s)
  {
    hide Mounted, VolumeOf, FaultyFor, Matches, Readable, CowWrites, Replay, Composed, Payload, CowEdits, Safe;
    data, o, s := input, -1, 0;
    var f := FindEntry(d, path);
    if f.Fault? {
      return Rejected, data, o, s;
    }
    var prior := if f.Found? then f.index else -1;
    o := prior;
    data := Composed(VolumeOf(d), o, append, input);
    var content := Gather(d, path, input, append, prior);
    if content.None? {
      return Rejected, data, o, s;
    }
    var bytes := content.value;
    if |bytes| > d[0].block.slotSectors * SECTOR {
      return Rejected, data, o, s;
    }
    var staging := FindFree(d, prior);
    if staging < 0 {
      return Rejected, data, o, s;
    }
    s := staging;
    if !Settable(path) {
      return Rejected, data, o, s;
    }
    var disk, writes := PlanReplacement(d, path, bytes, prior, staging);
    r := Planned(disk, writes);
  }

  // The bytes to store: the input, after the old content when appending.
  method Gather(d: Image, path: string, input: seq<Byte>, append: bool, prior: int) returns (r: Option<seq<Byte>>)
    requires Mounted(d) && Target(VolumeOf(d).table, path, prior) && !FaultyFor(VolumeOf(d).table, path)
    ensures r.None? <==> append && prior >= 0 && !Readable(VolumeOf(d), prior)
    ensures r.Some? ==> r.value == Composed(VolumeOf(d), prior, append, input)
  {
    hide Mounted, VolumeOf, FaultyFor, Matches;
    if !append || prior < 0 {
      return Some(input);
    }
    NoOtherMatch(VolumeOf(d).table, path, prior);
    var content := ReadFile(d, path);
    if content.None? {
      return None;
    }
    return Some(content.value + input);
  }

  // The payload writes, then the entry writes.
  method PlanReplacement(d: Image, path: string, bytes: seq<Byte>, prior: int, staging: nat)
    returns (disk: Image, writes: seq<Write>)
    requires Plannable(d, path, bytes, prior, staging)
    ensures writes == CowWrites(d, path, bytes, prior, staging) && disk == Replay(d, writes)
  {
    hide Replay, CowEdits, SlotStart, PayloadWrites, EditWrites, AfterEdits, EditsFit;
    ghost var staged := AfterPayload(d, path, bytes, prior, staging);
    disk, writes := PlanPayload(d, SlotStart(d[0].block, staging), bytes);
    var more: seq<Write>;
    disk, more := PlanEntries(disk, path, bytes, prior, staging);
    EditWritesReplay(staged, CowEdits(path, bytes, prior, staging));
    ReplayConcat(d, writes, more);
    writes := writes + more;
  }

  // The payload loop: sector-sized chunks, the last one zero-padded.
  method PlanPayload(d: Image, start: nat, bytes: seq<Byte>) returns (disk: Image, writes: seq<Write>)
    requires Fits(d, PayloadWrites(start, bytes))
    ensures writes == PayloadWrites(start, bytes)
    ensures disk == Replay(d, writes)
  {
    ghost var all := PayloadWrites(start, bytes);
    PayloadShape(start, bytes);
    assert Fits(d, []) && Replay(d, []) == d;
    hide PayloadWrites, Replay, PadSector;
    disk, writes := d, [];
    var copied, sector := 0, 0;
    while copied < |bytes|
      invariant copied == Min(sector * SECTOR, |bytes|) && sector <= |all|
      invariant writes == all[..sector]
      invariant Fits(d, writes) && disk == Replay(d, writes)
      decreases |bytes| - copied
    {
      var chunk := Min(SECTOR, |bytes| - copied);
      var w := Write(start + sector, Raw(PadSector(bytes[copied..copied + chunk])));
      PayloadAt(start, bytes, sector);
      ReplaySnoc(d, writes, w);
      disk := Apply(disk, w);
      writes := writes + [w];
      copied, sector := copied + chunk, sector + 1;
    }
  }

  // The `k`-th payload write carries the `k`-th sector of the data.
  lemma {:induction false} PayloadAt(a: nat, bytes: seq<Byte>, k: nat)
    requires k * SECTOR < |bytes|
    ensures k < |PayloadWrites(a, bytes)|
    ensures PayloadWrites(a, bytes)[k] ==
            Write(a + k, Raw(PadSector(bytes[k * SECTOR..k * SECTOR + Min(SECTOR, |bytes| - k * SECTOR)])))
    decreases k
  {
    if k > 0 {
      PayloadAt(a + 1, bytes[SECTOR..], k - 1);
      var at, n := (k - 1) * SECTOR, Min(SECTOR, |bytes| - k * SECTOR);
      SliceOfSuffix(bytes, SECTOR, at, at + n);
    }
  }

  lemma SliceOfSuffix(s: seq<Byte>, a: nat, i: nat, j: nat)
    requires i <= j && a + j <= |s|
    ensures s[a..][i..j] == s[a + i..a + j]
  {
  }

  lemma ReplaySnoc(d: Image, ws: seq<Write>, w: Write)
    requires Fits(d, ws) && w.sector < |d|
    ensures Fits(d, ws + [w]) && Replay(d, ws + [w]) == Apply(Replay(d, ws), w)
  {
    assert (ws + [w])[..|ws|] == ws;
  }

  lemma EditSnoc(d: Image, es: seq<Edit>, x: Edit)
    requires Mounted(d) && EditsFit(d, es) && x.index < d[0].block.entryCount
    ensures EditsFit(d, es + [x])
    ensures EditWrites(d, es + [x]) == EditWrites(d, es) + [EntryWrite(AfterEdits(d, es), x.index, x.entry)]
    ensures AfterEdits(d, es + [x]) == SetEntry(AfterEdits(d, es), x.index, x.entry)
  {
    assert (es + [x])[..|es|] == es;
  }

  method SetEntryWrite(d: Image, index: nat, entry: Entry, ghost base: Image, ghost es: seq<Edit>, writes: seq<Write>)
    returns (disk: Image, more: seq<Write>)
    requires Mounted(base) && EditsFit(base, es) && index < base[0].block.entryCount
    requires d == AfterEdits(base, es) && writes == EditWrites(base, es)
    ensures EditsFit(base, es + [Edit(index, entry)])
    ensures disk == AfterEdits(base, es + [Edit(index, entry)])
    ensures more == EditWrites(base, es + [Edit(index, entry)])
  {
    EditSnoc(base, es, Edit(index, entry));
    more := writes + [EntryWrite(d, index, entry)];
    disk := SetEntry(d, index, entry);
  }

  // The staged entry in its three forms.
  lemma StageForms(path: string, bytes: seq<Byte>, reserved: U32)
    requires |path| < 48
    ensures Stage(path, bytes, reserved).(kind := FILE, flags := COMMITTED) == CommittedStage(path, bytes, reserved)
    ensures CommittedStage(path, bytes, reserved).(flags := 0, reserved := 0) == FinalEntry(path, bytes)
  {
    hide Fnv1a, Padded;
  }

  lemma CowEditsAre(path: string, bytes: seq<Byte>, prior: int, staging: nat)
    requires |path| < 48 && -1 <= prior < 128
    ensures var r := Reserved(prior);
      var es := [] + [Edit(staging, Stage(path, bytes, r))] + [Edit(staging, CommittedStage(path, bytes, r))];
      CowEdits(path, bytes, prior, staging) ==
        (if prior >= 0 then es + [Edit(prior, Empty())] else es) + [Edit(staging, FinalEntry(path, bytes))]
  {
    hide Stage, CommittedStage, FinalEntry, Empty;
  }

  // The entry writes: transaction, committed, old entry cleared, flags cleaned.
  method PlanEntries(d: Image, path: string, bytes: seq<Byte>, prior: int, staging: nat)
    returns (disk: Image, writes: seq<Write>)
    requires Mounted(d) && |path| < 48 && staging < d[0].block.entryCount && -1 <= prior < d[0].block.entryCount
    ensures EditsFit(d, CowEdits(path, bytes, prior, staging))
    ensures disk == AfterEdits(d, CowEdits(path, bytes, prior, staging))
    ensures writes == EditWrites(d, CowEdits(path, bytes, prior, staging))
  {
    ghost var es: seq<Edit> := [];
    assert EditsFit(d, es) && AfterEdits(d, es) == d && EditWrites(d, es) == [];
    assert d[0].block.entryCount <= 128;
    hide EditWrites, AfterEdits, EditsFit, Stage, CommittedStage, FinalEntry, Empty, SetEntry, EntryWrite, Mounted,
      CowEdits;
    disk, writes := d, [];
    var reserved := Reserved(prior);
    StageForms(path, bytes, reserved);
    CowEditsAre(path, bytes, prior, staging);
    var stage := Stage(path, bytes, reserved);
    disk, writes := SetEntryWrite(disk, staging, stage, d, es, writes);
    es := es + [Edit(staging, stage)];
    stage := stage.(kind := FILE, flags := COMMITTED);
    disk, writes := SetEntryWrite(disk, staging, stage, d, es, writes);
    es := es + [Edit(staging, stage)];
    if prior >= 0 {
      disk, writes := SetEntryWrite(disk, prior, Empty(), d, es, writes);
      es := es + [Edit(prior, Empty())];
    }
    stage := stage.(flags := 0, reserved := 0);
    disk, writes := SetEntryWrite(disk, staging, stage, d, es, writes);
  }

  // ---- sync_metadata_plan ----

  function Bumped(d: Image): (b: Superblock)
    requires |d| > 0 && d[0].Boot? && d[0].block.generation < 0xFFFF_FFFF
  {
    d[0].block.(generation := d[0].block.generation + 1)
  }

  function AfterSync(d: Image): (r: Image)
    requires |d| > 0 && d[0].Boot? && d[0].block.generation < 0xFFFF_FFFF
    ensures |r| == |d|
  {
    d[0 := Boot(Bumped(d))]
  }

  // Snapshots of the first `n` metadata sectors.
  function Snapshots(d: Image, n: nat): (ws: seq<Write>)
    requires n < |d|
    ensures |ws| == n && Fits(d, ws)
  {
    seq(n, k requires 0 <= k < n => Write(1 + k, d[1 + k]))
  }

  ghost function SyncWrites(d: Image): (ws: seq<Write>)
    requires Mounted(d) && d[0].block.generation < 0xFFFF_FFFF
    ensures Fits(d, ws)
  {
    Snapshots(d, d[0].block.entrySectors) + [Write(0, Boot(Bumped(d)))]
  }

  method SyncMetadata(d: Image) returns (r: Step)
    requires Mounted(d)
    ensures r.Rejected? <==> d[0].block.generation == 0xFFFF_FFFF
    ensures r.Planned? ==> r.writes == SyncWrites(d) && r.disk == AfterSync(d)
  {
    var writes: seq<Write> := [];
    var sector := 0;
    while sector < d[0].block.entrySectors
      invariant sector <= d[0].block.entrySectors
      invariant writes == Snapshots(d, sector)
    {
      writes := writes + [Write(1 + sector, d[1 + sector])];
      sector := sector + 1;
    }
    if d[0].block.generation == 0xFFFF_FFFF {
      return Rejected;
    }
    var committed := d[0].block.(generation := d[0].block.generation + 1);
    return Planned(d[0 := Boot(committed)], writes + [Write(0, Boot(committed))]);
  }

  lemma {:induction false} SnapshotsReplay(d: Image, n: nat)
    requires n < |d|
    ensures Replay(d, Snapshots(d, n)) == d
  {
    if n > 0 {
      SnapshotsReplay(d, n - 1);
      assert Snapshots(d, n)[..n - 1] == Snapshots(d, n - 1);
    }
  }

  // A crash in a sync leaves the image as it was, or with the generation advanced.
  lemma SyncCrash(d: Image, k: nat)
    requires Mounted(d) && d[0].block.generation < 0xFFFF_FFFF && k <= |SyncWrites(d)|
    ensures Crashed(d, SyncWrites(d), k) == if k <= d[0].block.entrySectors then d else AfterSync(d)
  {
    var n := d[0].block.entrySectors;
    var a := Snapshots(d, n);
    if k <= n {
      assert SyncWrites(d)[..k] == Snapshots(d, k);
      SnapshotsReplay(d, k);
    } else {
      assert SyncWrites(d)[..k] == a + [Write(0, Boot(Bumped(d)))];
      SnapshotsReplay(d, n);
      ReplaySnoc(d, a, Write(0, Boot(Bumped(d))));
    }
  }

  lemma AfterSyncVolume(d: Image)
    requires Mounted(d) && d[0].block.generation < 0xFFFF_FFFF
    ensures Mounted(AfterSync(d)) && VolumeOf(AfterSync(d)) == VolumeOf(d)
  {
    var e := AfterSync(d);
    SlotStartLayout(d[0].block, e[0].block, d[0].block.entryCount);
    assert Mounted(e);
    SlotsSame(d, e);
    assert VolumeOf(e).table == VolumeOf(d).table;
  }

  // ---- rename_plan and remove_plan ----

  method RenameEntry(d: Image, source: string, destination: string) returns (r: Step, ghost i: nat)
    requires Mounted(d)
    ensures r.Rejected? <==>
            || FaultyFor(VolumeOf(d).table, destination) || (exists j :: Matches(VolumeOf(d).table, j, destination))
            || FaultyFor(VolumeOf(d).table, source) || (forall j :: !Matches(VolumeOf(d).table, j, source))
            || !Settable(destination) || d[0].block.generation == 0xFFFF_FFFF
    ensures r.Planned? ==>
              && Matches(VolumeOf(d).table, i, source)
              && var e := VolumeOf(d).table[i].(name := Padded(destination));
              EntryThenSync(d, i, e, r)
  {
    i := 0;
    var target := FindEntry(d, destination);
    if !target.Missing? {
      return Rejected, i;
    }
    var found := FindEntry(d, source);
    if !found.Found? {
      return Rejected, i;
    }
    i := found.index;
    if !Settable(destination) {
      return Rejected, i;
    }
    TableEntry(d, found.index);
    r := SetAndSync(d, found.index, EntryAt(d, found.index).(name := Padded(destination)));
  }

  method RemoveEntry(d: Image, path: string) returns (r: Step, ghost i: nat)
    requires Mounted(d)
    ensures r.Rejected? <==>
            || FaultyFor(VolumeOf(d).table, path) || (forall j :: !Matches(VolumeOf(d).table, j, path))
            || d[0].block.generation == 0xFFFF_FFFF
    ensures r.Planned? ==> Matches(VolumeOf(d).table, i, path) && EntryThenSync(d, i, Empty(), r)
  {
    i := 0;
    var found := FindEntry(d, path);
    if !found.Found? {
      return Rejected, i;
    }
    i := found.index;
    r := SetAndSync(d, found.index, Empty());
  }

  // The plan is one entry write followed by a metadata sync.
  ghost predicate EntryThenSync(d: Image, i: nat, e: Entry, r: Step)
    requires Mounted(d) && r.Planned?
  {
    && i < d[0].block.entryCount
    && Mounted(SetEntry(d, i, e)) && SetEntry(d, i, e)[0].block.generation < 0xFFFF_FFFF
    && r.writes == [EntryWrite(d, i, e)] + SyncWrites(SetEntry(d, i, e))
    && r.disk == AfterSync(SetEntry(d, i, e))
  }

  method SetAndSync(d: Image, i: nat, e: Entry) returns (r: Step)
    requires Mounted(d) && i < d[0].block.entryCount
    ensures r.Rejected? <==> d[0].block.generation == 0xFFFF_FFFF
    ensures r.Planned? ==> EntryThenSync(d, i, e, r)
  {
    SetEntryVolume(d, i, e);
    var disk := SetEntry(d, i, e);
    r := SyncMetadata(disk);
    if r.Planned? {
      r := Planned(r.disk, [EntryWrite(d, i, e)] + r.writes);
    }
  }
}
