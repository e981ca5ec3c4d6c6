// The write list of one copy-on-write replacement, and what every crash prefix of it recovers to.
module CowPlan {
  import opened Bytes
  import opened EntryTable
  import opened Volume
  import opened CowCommit
  import opened Disk

  // `e` is `d` with arbitrary bytes in data slot `s`.
  ghost predicate OnlySlot(d: Image, e: Image, s: nat)
    requires Mounted(d) && s < d[0].block.entryCount
  {
    var b := d[0].block;
    && |e| == |d|
    && (forall k :: 0 <= k < |d| && !(SlotStart(b, s) <= k < SlotStart(b, s) + b.slotSectors) ==> e[k] == d[k])
    && (forall k :: b.dataStart <= k < |d| ==> e[k].Raw? && |e[k].bytes| == SECTOR)
  }

  lemma OnlySlotVolume(d: Image, e: Image, s: nat)
    requires Mounted(d) && s < d[0].block.entryCount && OnlySlot(d, e, s)
    ensures Mounted(e) && e[0] == d[0]
    ensures VolumeOf(e).table == VolumeOf(d).table
    ensures SlotsBut(VolumeOf(d), VolumeOf(e), s)
  {
    var b := d[0].block;
    assert Mounted(e);
    forall i | 0 <= i < b.entryCount && i != s
      ensures Slot(e, i) == Slot(d, i)
    {
      SlotsApart(b, i, s);
      SlotSame(d, e, i);
    }
  }

  lemma SlotsApart(b: Superblock, i: nat, s: nat)
    requires i != s
    ensures SlotStart(b, i) + b.slotSectors <= SlotStart(b, s) || SlotStart(b, s) + b.slotSectors <= SlotStart(b, i)
  {
    if i < s {
      SlotInside(b, i, s);
    } else {
      SlotInside(b, s, i);
    }
  }

  // ---- payload ----

  function PadSector(chunk: seq<Byte>): (r: seq<Byte>)
    requires |chunk| <= SECTOR
    ensures |r| == SECTOR && r[..|chunk|] == chunk
  {
    chunk + Zeros(SECTOR - |chunk|)
  }

  predicate RawWrite(w: Write) {
    w.content.Raw? && |w.content.bytes| == SECTOR
  }

  function PayloadWrites(a: nat, data: seq<Byte>): (ws: seq<Write>)
    decreases |data|
  {
    if data == [] then []
    else
      var n := Min(SECTOR, |data|);
      [Write(a, Raw(PadSector(data[..n])))] + PayloadWrites(a + 1, data[n..])
  }

  lemma {:induction false} PayloadShape(a: nat, data: seq<Byte>)
    ensures |data| <= |PayloadWrites(a, data)| * SECTOR < |data| + SECTOR
    ensures forall i :: 0 <= i < |PayloadWrites(a, data)| ==>
              a <= PayloadWrites(a, data)[i].sector < a + |PayloadWrites(a, data)| &&
                RawWrite(PayloadWrites(a, data)[i])
    decreases |data|
  {
    if data != [] {
      PayloadShape(a + 1, data[Min(SECTOR, |data|)..]);
    }
  }

  lemma {:induction false} ReplayRaw(d: Image, ws: seq<Write>, k: nat)
    requires Fits(d, ws) && k < |d|
    requires d[k].Raw? && |d[k].bytes| == SECTOR
    requires forall i :: 0 <= i < |ws| ==> RawWrite(ws[i])
    ensures Replay(d, ws)[k].Raw? && |Replay(d, ws)[k].bytes| == SECTOR
  {
    if ws != [] {
      ReplayRaw(d, ws[..|ws| - 1], k);
    }
  }

  lemma ReplayRawRange(d: Image, ws: seq<Write>, a: nat, n: nat)
    requires Fits(d, ws) && a + n <= |d| && RawRange(d, a, n)
    requires forall i :: 0 <= i < |ws| ==> RawWrite(ws[i])
    ensures RawRange(Replay(d, ws), a, n)
  {
    forall k | a <= k < a + n ensures Replay(d, ws)[k].Raw? && |Replay(d, ws)[k].bytes| == SECTOR {
      ReplayRaw(d, ws, k);
    }
  }

  lemma ReplayCons(d: Image, w: Write, ws: seq<Write>)
    requires w.sector < |d| && Fits(d, ws)
    ensures Fits(d, [w] + ws)
    ensures Replay(d, [w] + ws) == Replay(Apply(d, w), ws)
  {
    assert [w][..0] == [];
    assert Replay(d, [w]) == Apply(d, w);
    ReplayConcat(d, [w], ws);
  }

  // The payload writes leave `data` at the head of the sectors they cover.
  lemma {:induction false} PayloadStored(d: Image, a: nat, n: nat, data: seq<Byte>)
    requires a + n <= |d| && |data| <= n * SECTOR
    requires RawRange(d, a, n)
    ensures Fits(d, PayloadWrites(a, data))
    ensures RawRange(Replay(d, PayloadWrites(a, data)), a, n)
    ensures Holds(ReadSectors(Replay(d, PayloadWrites(a, data)), a, n), data)
    decreases n
  {
    hide PayloadWrites, Replay, PadSector, Holds;
    var ws := PayloadWrites(a, data);
    PayloadShape(a, data);
    ReplayRawRange(d, ws, a, n);
    if data == [] {
      HoldsNothing(ReadSectors(Replay(d, ws), a, n));
    } else {
      var m := Min(SECTOR, |data|);
      var first := Write(a, Raw(PadSector(data[..m])));
      var rest := PayloadWrites(a + 1, data[m..]);
      PayloadFirst(a, data);
      PayloadShape(a + 1, data[m..]);
      ReplayCons(d, first, rest);
      PayloadStored(Apply(d, first), a + 1, n - 1, data[m..]);
      ReplayElsewhere(Apply(d, first), rest, a);
      HoldsConcat(PadSector(data[..m]), ReadSectors(Replay(d, ws), a + 1, n - 1), data);
    }
  }

  lemma HoldsNothing(slot: seq<Byte>)
    ensures Holds(slot, [])
  {
  }

  lemma PayloadFirst(a: nat, data: seq<Byte>)
    requires data != []
    ensures var m := Min(SECTOR, |data|);
            && PayloadWrites(a, data) == [Write(a, Raw(PadSector(data[..m])))] + PayloadWrites(a + 1, data[m..])
            && PadSector(data[..m])[..m] == data[..m]
  {
  }

  lemma HoldsConcat(head: seq<Byte>, tail: seq<Byte>, data: seq<Byte>)
    requires |head| == SECTOR && data != []
    requires var m := Min(SECTOR, |data|); head[..m] == data[..m] && Holds(tail, data[m..])
    ensures Holds(head + tail, data)
  {
    var m := Min(SECTOR, |data|);
    if m == SECTOR {
      assert (head + tail)[..|data|] == head + tail[..|data| - m];
      assert data == data[..m] + data[m..];
    } else {
      assert (head + tail)[..|data|] == head[..m];
    }
  }

  // Any prefix of the payload writes touches the staging slot only.
  lemma PayloadOnlySlot(d: Image, s: nat, data: seq<Byte>, k: nat)
    requires Mounted(d) && s < d[0].block.entryCount && |data| <= d[0].block.slotSectors * SECTOR
    requires k <= |PayloadWrites(SlotStart(d[0].block, s), data)|
    ensures Fits(d, PayloadWrites(SlotStart(d[0].block, s), data))
    ensures OnlySlot(d, Crashed(d, PayloadWrites(SlotStart(d[0].block, s), data), k), s)
  {
    var b := d[0].block;
    SlotInside(b, s, b.entryCount);
    var all := PayloadWrites(SlotStart(b, s), data);
    PayloadShape(SlotStart(b, s), data);
    var ws := all[..k];
    assert |all| <= b.slotSectors;
    assert forall i :: 0 <= i < k ==> ws[i] == all[i];
    var e := Replay(d, ws);
    forall j | 0 <= j < |d|
      ensures !(SlotStart(b, s) <= j < SlotStart(b, s) + b.slotSectors) ==> e[j] == d[j]
      ensures b.dataStart <= j ==> e[j].Raw? && |e[j].bytes| == SECTOR
    {
      if !(SlotStart(b, s) <= j < SlotStart(b, s) + b.slotSectors) {
        ReplayElsewhere(d, ws, j);
      }
      if b.dataStart <= j {
        ReplayRaw(d, ws, j);
      }
    }
  }

  // ---- entry writes ----

  datatype Edit = Edit(index: nat, entry: Entry)

  function Edit1(t: Table, x: Edit): (r: Table)
    ensures |r| == |t|
  {
    if x.index < |t| then t[x.index := x.entry] else t
  }

  function Edited(t: Table, es: seq<Edit>): (r: Table)
    ensures |r| == |t|
  {
    if es == [] then t else Edit1(Edited(t, es[..|es| - 1]), es[|es| - 1])
  }

  ghost predicate EditsFit(d: Image, es: seq<Edit>)
    requires Mounted(d)
  {
    forall i :: 0 <= i < |es| ==> es[i].index < d[0].block.entryCount
  }

  // The image after the edits of `es`, one `set_entry_write` each.
  function AfterEdits(d: Image, es: seq<Edit>): (r: Image)
    requires Mounted(d) && EditsFit(d, es)
    ensures Mounted(r) && r[0] == d[0] && |r| == |d|
  {
    if es == [] then d
    else
      var p := AfterEdits(d, es[..|es| - 1]);
      SetEntryVolume(p, es[|es| - 1].index, es[|es| - 1].entry);
      SetEntry(p, es[|es| - 1].index, es[|es| - 1].entry)
  }

  lemma {:induction false} AfterEditsVolume(d: Image, es: seq<Edit>)
    requires Mounted(d) && EditsFit(d, es)
    ensures VolumeOf(AfterEdits(d, es)) == VolumeOf(d).(table := Edited(VolumeOf(d).table, es))
  {
    if es != [] {
      var p := es[..|es| - 1];
      AfterEditsVolume(d, p);
      SetEntryVolume(AfterEdits(d, p), es[|es| - 1].index, es[|es| - 1].entry);
    }
  }

  function EditWrites(d: Image, es: seq<Edit>): (ws: seq<Write>)
    requires Mounted(d) && EditsFit(d, es)
    ensures |ws| == |es|
  {
    if es == [] then []
    else
      var p := es[..|es| - 1];
      EditWrites(d, p) + [EntryWrite(AfterEdits(d, p), es[|es| - 1].index, es[|es| - 1].entry)]
  }

  lemma {:induction false} EditWritesPrefix(d: Image, es: seq<Edit>, k: nat)
    requires Mounted(d) && EditsFit(d, es) && k <= |es|
    ensures EditWrites(d, es)[..k] == EditWrites(d, es[..k])
    decreases |es|
  {
    if k == |es| {
      assert es[..k] == es;
    } else {
      var p := es[..|es| - 1];
      EditWritesPrefix(d, p, k);
      assert p[..k] == es[..k];
    }
  }

  lemma {:induction false} EditWritesReplay(d: Image, es: seq<Edit>)
    requires Mounted(d) && EditsFit(d, es)
    ensures Fits(d, EditWrites(d, es)) && Replay(d, EditWrites(d, es)) == AfterEdits(d, es)
  {
    if es != [] {
      var p := es[..|es| - 1];
      EditWritesReplay(d, p);
      assert EditWrites(d, es)[..|p|] == EditWrites(d, p);
    }
  }

  // A crash after `k` entry writes leaves exactly the first `k` edits.
  lemma EditCrash(d: Image, es: seq<Edit>, k: nat)
    requires Mounted(d) && EditsFit(d, es) && k <= |es|
    ensures Fits(d, EditWrites(d, es)) && Crashed(d, EditWrites(d, es), k) == AfterEdits(d, es[..k])
  {
    EditWritesReplay(d, es);
    EditWritesReplay(d, es[..k]);
    EditWritesPrefix(d, es, k);
  }

  // A crash in entry writes that follow other writes.
  lemma EditCrashAfter(d: Image, a: seq<Write>, d1: Image, es: seq<Edit>, j: nat)
    requires Fits(d, a) && d1 == Replay(d, a) && Mounted(d1) && EditsFit(d1, es) && j <= |es|
    ensures Fits(d, a + EditWrites(d1, es))
    ensures Crashed(d, a + EditWrites(d1, es), |a| + j) == AfterEdits(d1, es[..j])
  {
    EditCrash(d1, es, j);
    ReplayPrefixConcat(d, a, EditWrites(d1, es), |a| + j);
  }

  // ---- the replacement ----

  // Entry writes of `write_file_plan`: transaction, commit, clear the old entry, clean the flags.
  function CowEdits(p: string, data: seq<Byte>, o: int, s: nat): (es: seq<Edit>)
    requires |p| < 48 && -1 <= o < 128
    ensures |es| == if o >= 0 then 4 else 3
  {
    [Edit(s, Stage(p, data, Reserved(o))), Edit(s, CommittedStage(p, data, Reserved(o)))]
    + (if o >= 0 then [Edit(o, Empty())] else [])
    + [Edit(s, FinalEntry(p, data))]
  }

  ghost predicate Plannable(d: Image, p: string, data: seq<Byte>, o: int, s: nat)
    ensures Plannable(d, p, data, o, s) ==>
              Mounted(d) && |p| < 48 && s < d[0].block.entryCount <= 128 && -1 <= o < d[0].block.entryCount
  {
    && Mounted(d) && |p| < 48
    && s < d[0].block.entryCount && -1 <= o < d[0].block.entryCount
    && |data| <= d[0].block.slotSectors * SECTOR
  }

  function Payload(d: Image, data: seq<Byte>, s: nat): (ws: seq<Write>)
    requires Mounted(d)
  {
    PayloadWrites(SlotStart(d[0].block, s), data)
  }

  ghost function AfterPayload(d: Image, p: string, data: seq<Byte>, o: int, s: nat): (r: Image)
    requires Plannable(d, p, data, o, s)
    ensures Fits(d, Payload(d, data, s)) && r == Replay(d, Payload(d, data, s))
    ensures Mounted(r) && r[0] == d[0] && |r| == |d| && OnlySlot(d, r, s)
  {
    var ws := Payload(d, data, s);
    PayloadOnlySlot(d, s, data, |ws|);
    assert ws[..|ws|] == ws;
    OnlySlotVolume(d, Replay(d, ws), s);
    Replay(d, ws)
  }

  ghost function CowWrites(d: Image, p: string, data: seq<Byte>, o: int, s: nat): (ws: seq<Write>)
    requires Plannable(d, p, data, o, s)
    ensures Fits(d, ws) && |ws| == |Payload(d, data, s)| + |CowEdits(p, data, o, s)|
  {
    var d1, es := AfterPayload(d, p, data, o, s), CowEdits(p, data, o, s);
    EditWritesReplay(d1, es);
    Payload(d, data, s) + EditWrites(d1, es)
  }

  // A crash among the payload writes touches the staging slot only.
  lemma CrashInPayload(d: Image, p: string, data: seq<Byte>, o: int, s: nat, k: nat)
    requires Plannable(d, p, data, o, s) && k <= |Payload(d, data, s)|
    ensures OnlySlot(d, Crashed(d, CowWrites(d, p, data, o, s), k), s)
  {
    var d1, es := AfterPayload(d, p, data, o, s), CowEdits(p, data, o, s);
    EditWritesReplay(d1, es);
    ReplayPrefixConcat(d, Payload(d, data, s), EditWrites(d1, es), k);
    PayloadOnlySlot(d, s, data, k);
  }

  // A crash among the entry writes leaves the payload and a prefix of the edits.
  lemma CrashInEdits(d: Image, p: string, data: seq<Byte>, o: int, s: nat, j: nat)
    requires Plannable(d, p, data, o, s) && j <= |CowEdits(p, data, o, s)|
    ensures Crashed(d, CowWrites(d, p, data, o, s), |Payload(d, data, s)| + j)
            == AfterEdits(AfterPayload(d, p, data, o, s), CowEdits(p, data, o, s)[..j])
  {
    hide Stage, CommittedStage, FinalEntry, AfterPayload, EditWrites, AfterEdits, Crashed, Payload, PayloadWrites;
    EditCrashAfter(d, Payload(d, data, s), AfterPayload(d, p, data, o, s), CowEdits(p, data, o, s), j);
  }

  // Arbitrary bytes in the free staging slot: the old tree comes back.
  lemma StagingGarbageRecoversOld(d: Image, e: Image, s: nat)
    requires Mounted(d) && ValidTree(VolumeOf(d))
    requires s < d[0].block.entryCount && VolumeOf(d).table[s].used == 0 && OnlySlot(d, e, s)
    ensures RecoversAs(e, ViewOf(VolumeOf(d)))
  {
    OnlySlotVolume(d, e, s);
    PayloadRecoversOld(VolumeOf(d), VolumeOf(e), s);
  }

  lemma PayloadHolds(d: Image, p: string, data: seq<Byte>, o: int, s: nat)
    requires Plannable(d, p, data, o, s)
    ensures Holds(VolumeOf(AfterPayload(d, p, data, o, s)).slots[s], data)
  {
    var b := d[0].block;
    SlotInside(b, s, b.entryCount);
    PayloadStored(d, SlotStart(b, s), b.slotSectors, data);
  }

  // The table `j` entry writes after the payload, recovered.
  lemma EditStates(v: Volume, w: Volume, p: string, data: seq<Byte>, o: int, s: nat, j: nat)
    requires Startable(v, p, o, s) && SlotsBut(v, w, s) && w.table == v.table
    requires Holds(w.slots[s], data)
    requires j <= |CowEdits(p, data, o, s)|
    ensures var u := w.(table := Edited(w.table, CowEdits(p, data, o, s)[..j]));
            && (j <= 1 ==> RecoversTo(u, ViewOf(v)))
            && (j >= 2 ==> (RecoversTo(u, ViewOf(v)[p := File(data)]) <==> Lands(v, p, data)))
  {
    var es := CowEdits(p, data, o, s);
    var u := w.(table := Edited(w.table, es[..j]));
    EditedStages(v.table, Stage(p, data, Reserved(o)), CommittedStage(p, data, Reserved(o)), FinalEntry(p, data),
                 o, s, es, j);
    if j == 0 {
      PayloadRecoversOld(v, u, s);
    } else if j == 1 {
      TransactionRecoversOld(v, u, s, Stage(p, data, Reserved(o)));
    } else {
      CommittedRecoversFinal(v, p, data, o, s);
      FinalShowsNew(v, RecoveredVolume(u), p, data, o, s);
    }
  }

  lemma EditedSnoc(t: Table, es: seq<Edit>, x: Edit)
    ensures Edited(t, es + [x]) == Edit1(Edited(t, es), x)
  {
    assert (es + [x])[..|es|] == es;
  }

  // The `j`th entry write, for any three stages of the staging entry.
  function StageEdit(a: Entry, b: Entry, f: Entry, o: int, s: nat, j: nat): (x: Edit) {
    if j == 1 then Edit(s, a)
    else if j == 2 then Edit(s, b)
    else if j == 3 && o >= 0 then Edit(o, Empty())
    else Edit(s, f)
  }

  lemma StageEdits(a: Entry, b: Entry, f: Entry, o: int, s: nat, es: seq<Edit>, j: nat)
    requires es == [Edit(s, a), Edit(s, b)] + (if o >= 0 then [Edit(o, Empty())] else []) + [Edit(s, f)]
    requires 0 < j <= |es|
    ensures |es| == (if o >= 0 then 4 else 3) && es[j - 1] == StageEdit(a, b, f, o, s, j)
  {
  }

  lemma WriteTwice(t: Table, s: nat, a: Entry, b: Entry)
    requires s < |t|
    ensures t[s := a][s := b] == t[s := b]
  {
  }

  lemma WriteAround(t: Table, s: nat, a: Entry, b: Entry, o: nat, e: Entry)
    requires s < |t| && o < |t| && o != s
    ensures t[s := a][o := e][s := b] == t[o := e][s := b]
  {
  }

  lemma StageStep(t: Table, a: Entry, b: Entry, f: Entry, o: int, s: nat, j: nat)
    requires s < |t| && -1 <= o < |t| && o != s && 0 < j <= if o >= 0 then 4 else 3
    ensures Edit1(StageTable(t, a, b, f, o, s, j - 1), StageEdit(a, b, f, o, s, j)) == StageTable(t, a, b, f, o, s, j)
  {
    if j == 2 {
      WriteTwice(t, s, a, b);
    } else if j == 3 && o < 0 {
      WriteTwice(t, s, b, f);
    } else if j == 4 {
      WriteAround(t, s, b, f, o, Empty());
    }
  }

  // The tables the entry writes go through.
  lemma {:induction false} EditedStages(t: Table, a: Entry, b: Entry, f: Entry, o: int, s: nat, es: seq<Edit>, j: nat)
    requires s < |t| && -1 <= o < |t| && o != s
    requires es == [Edit(s, a), Edit(s, b)] + (if o >= 0 then [Edit(o, Empty())] else []) + [Edit(s, f)]
    requires j <= |es|
    ensures Edited(t, es[..j]) == StageTable(t, a, b, f, o, s, j)
  {
    hide Edited, Edit1, StageTable, StageEdit;
    if j > 0 {
      EditedStages(t, a, b, f, o, s, es, j - 1);
      StageEdits(a, b, f, o, s, es, j);
      StageStep(t, a, b, f, o, s, j);
      PrefixSnoc(es, j);
      EditedSnoc(t, es[..j - 1], es[j - 1]);
    } else {
      StagesStart(t, a, b, f, o, s);
      assert es[..0] == [];
    }
  }

  lemma PrefixSnoc(es: seq<Edit>, j: nat)
    requires 0 < j <= |es|
    ensures es[..j] == es[..j - 1] + [es[j - 1]]
  {
  }

  lemma StagesStart(t: Table, a: Entry, b: Entry, f: Entry, o: int, s: nat)
    requires s < |t| && -1 <= o < |t|
    ensures Edited(t, []) == t == StageTable(t, a, b, f, o, s, 0)
  {
  }

  function StageTable(t: Table, a: Entry, b: Entry, f: Entry, o: int, s: nat, j: nat): (r: Table)
    requires s < |t| && -1 <= o < |t|
    ensures |r| == |t|
  {
    if j == 0 then t
    else if j == 1 then t[s := a]
    else if j == 2 then t[s := b]
    else if j == 3 && o >= 0 then t[s := b][o := Empty()]
    else (if o >= 0 then t[o := Empty()] else t)[s := f]
  }

  lemma EditedImageRecovers(d: Image, p: string, data: seq<Byte>, o: int, s: nat, j: nat)
    requires Plannable(d, p, data, o, s) && Startable(VolumeOf(d), p, o, s)
    requires j <= |CowEdits(p, data, o, s)|
    ensures var e := AfterEdits(AfterPayload(d, p, data, o, s), CowEdits(p, data, o, s)[..j]);
            var before := ViewOf(VolumeOf(d));
            && (j <= 1 ==> RecoversAs(e, before))
            && (j >= 2 ==> (RecoversAs(e, before[p := File(data)]) <==> Lands(VolumeOf(d), p, data)))
  {
    hide Lands, ValidTree, ViewOf, RecoveredVolume, Stage, CommittedStage, FinalEntry, AfterEdits, AfterPayload,
      VolumeOf,
      Edited;
    var d1 := AfterPayload(d, p, data, o, s);
    OnlySlotVolume(d, d1, s);
    PayloadHolds(d, p, data, o, s);
    AfterEditsVolume(d1, CowEdits(p, data, o, s)[..j]);
    EditStates(VolumeOf(d), VolumeOf(d1), p, data, o, s, j);
  }

  lemma PayloadCrashRecovers(d: Image, p: string, data: seq<Byte>, o: int, s: nat, k: nat)
    requires Plannable(d, p, data, o, s) && Startable(VolumeOf(d), p, o, s)
    requires k <= |Payload(d, data, s)|
    ensures RecoversAs(Crashed(d, CowWrites(d, p, data, o, s), k), ViewOf(VolumeOf(d)))
  {
    CrashInPayload(d, p, data, o, s, k);
    StagingGarbageRecoversOld(d, Crashed(d, CowWrites(d, p, data, o, s), k), s);
  }

  lemma EntryCrashRecovers(d: Image, p: string, data: seq<Byte>, o: int, s: nat, j: nat)
    requires Plannable(d, p, data, o, s) && Startable(VolumeOf(d), p, o, s)
    requires j <= |CowEdits(p, data, o, s)|
    ensures var e := Crashed(d, CowWrites(d, p, data, o, s), |Payload(d, data, s)| + j);
            var before := ViewOf(VolumeOf(d));
            && (j <= 1 ==> RecoversAs(e, before))
            && (j >= 2 ==> (RecoversAs(e, before[p := File(data)]) <==> Lands(VolumeOf(d), p, data)))
  {
    hide *;
    CrashInEdits(d, p, data, o, s, j);
    EditedImageRecovers(d, p, data, o, s, j);
  }

  // Crash atomicity of `write_file_plan`: every prefix of its writes recovers to exactly the
  // old tree up to and including the transaction-entry write. From the committed-entry write
  // on it recovers to exactly the old tree with the new content at `p`, if and only if the
  // content fits the slot capacity the readers compute and the directory of `p` is there.
  lemma CrashAtomic(d: Image, p: string, data: seq<Byte>, o: int, s: nat, k: nat)
    requires Plannable(d, p, data, o, s) && Startable(VolumeOf(d), p, o, s)
    requires k <= |CowWrites(d, p, data, o, s)|
    ensures var e := Crashed(d, CowWrites(d, p, data, o, s), k);
            var n := |Payload(d, data, s)|;
            var before := ViewOf(VolumeOf(d));
            && (k <= n + 1 ==> RecoversAs(e, before))
            && (k >= n + 2 ==>
                  (RecoversAs(e, before[p := File(data)]) <==> |data| <= VolumeOf(d).cap && ParentPresent(before, p)))
  {
    hide *;
    LandsMeans(VolumeOf(d), p, data);
    var n := |Payload(d, data, s)|;
    if k <= n {
      PayloadCrashRecovers(d, p, data, o, s, k);
    } else {
      EntryCrashRecovers(d, p, data, o, s, k - n);
    }
  }

  lemma LandsMeans(v: Volume, p: string, data: seq<Byte>)
    requires Sized(v)
    ensures Lands(v, p, data) <==> |data| <= v.cap && ParentPresent(ViewOf(v), p)
  {
  }

  // ---- both conditions can fail ----

  // An empty volume with one slot.
  function EmptyImage(slotSectors: U32): (d: Image)
    requires 0 < slotSectors <= 0x80_0000
  {
    [Boot(Superblock("ZENOVFS1", 1, slotSectors + 2, 1, 1, 2, slotSectors, 0)), Meta(seq(PER_SECTOR, _ => Empty()))]
    + seq(slotSectors, _ => Raw(Zeros(SECTOR)))
  }

  lemma EmptyMounted(n: U32)
    requires 0 < n <= 0x80_0000
    ensures Mounted(EmptyImage(n)) && EmptyImage(n)[0].block.entryCount == 1
    ensures EmptyImage(n)[0].block.slotSectors == n
    ensures VolumeOf(EmptyImage(n)).cap == n * SECTOR % 0x1_0000_0000
    ensures VolumeOf(EmptyImage(n)).table == [Empty()]
  {
    hide ReadSectors;
    var d := EmptyImage(n);
    var b := d[0].block;
    assert SlotStart(b, 1) == SlotStart(b, 0) + b.slotSectors;
    assert forall k :: 2 <= k < |d| ==> d[k] == Raw(Zeros(SECTOR));
    assert EntryAt(d, 0) == Empty();
  }

  lemma EmptyStarts(v: Volume, p: string)
    requires Sized(v) && v.cap < 0x1_0000_0000 && v.table == [Empty()] && Settable(p) && '\0' !in p
    ensures Startable(v, p, -1, 0) && ViewOf(v) == map[]
  {
    assert ViewUpTo(v, 0) == map[];
    assert ViewOf(v) == map[];
  }

  lemma EmptyPlannable(n: U32, p: string)
    requires 0 < n <= 0x80_0000 && Settable(p) && '\0' !in p
    ensures Plannable(EmptyImage(n), p, [0], -1, 0) && Startable(VolumeOf(EmptyImage(n)), p, -1, 0)
    ensures VolumeOf(EmptyImage(n)).cap == n * SECTOR % 0x1_0000_0000 && ViewOf(VolumeOf(EmptyImage(n))) == map[]
  {
    hide VolumeOf, Startable, Mounted, EmptyImage, ViewOf;
    EmptyMounted(n);
    EmptyStarts(VolumeOf(EmptyImage(n)), p);
  }

  // The replacement of one byte at `p` is planned on the empty volume, and does not show its
  // content once finished.
  ghost predicate PlannedInVain(n: U32, p: string)
    requires 0 < n <= 0x80_0000
  {
    var d := EmptyImage(n);
    && Plannable(d, p, [0], -1, 0) && Startable(VolumeOf(d), p, -1, 0)
    && var ws := CowWrites(d, p, [0], -1, 0);
       !RecoversAs(Crashed(d, ws, |ws|), ViewOf(VolumeOf(d))[p := File([0])])
  }

  lemma InVain(n: U32, p: string)
    requires 0 < n <= 0x80_0000 && Settable(p) && '\0' !in p
    requires n * SECTOR % 0x1_0000_0000 == 0 || !ParentPresent(map[], p)
    ensures PlannedInVain(n, p)
  {
    hide Plannable, Startable, VolumeOf, CowWrites, RecoversAs, Crashed, EmptyImage, ViewOf, ParentPresent, Payload,
      CowEdits;
    EmptyPlannable(n, p);
    CrashAtomic(EmptyImage(n), p, [0], -1, 0, |CowWrites(EmptyImage(n), p, [0], -1, 0)|);
  }

  // A slot of 2^23 sectors has capacity zero.
  lemma CapacityWraps()
    ensures PlannedInVain(0x80_0000, "/a")
  {
    hide PlannedInVain;
    assert Settable("/a");
    InVain(0x80_0000, "/a");
  }

  // Nothing looks for the directory of a new path.
  lemma OrphanPlanned()
    ensures PlannedInVain(1, "/d/a") && !ParentPresent(map[], "/d/a")
  {
    hide PlannedInVain;
    var p := "/d/a";
    assert Settable(p);
    assert p[..3] == "/d/" && LastSlash(p[..3]) == 2 && LastSlash(p) == 2;
    InVain(1, p);
  }
}
