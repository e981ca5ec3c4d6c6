// `persist_file_plan`: a replacement followed by a metadata sync, from one valid tree to the next.
module Persist {
  import opened Bytes
  import opened EntryTable
  import opened Volume
  import opened CowCommit
  import opened Disk
  import opened CowPlan
  import opened FilePlanner
  import opened StepPlans
  import opened CrashStages

  function FreeCount(t: Table): (n: nat)
  {
    if t == [] then 0 else FreeCount(t[..|t| - 1]) + (if t[|t| - 1].used == 0 then 1 else 0)
  }

  lemma {:induction false} FreeUpdate(t: Table, i: nat, e: Entry)
    requires i < |t|
    ensures FreeCount(t[i := e]) == FreeCount(t) - (if t[i].used == 0 then 1 else 0) + (if e.used == 0 then 1 else 0)
  {
    var n := |t| - 1;
    if i < n {
      FreeUpdate(t[..n], i, e);
      assert t[i := e][..n] == t[..n][i := e];
    } else {
      assert t[i := e][..n] == t[..n];
    }
  }

  lemma {:induction false} FreeFull(t: Table)
    ensures FreeCount(t) == 0 <==> forall i :: 0 <= i < |t| ==> t[i].used != 0
  {
    if t != [] {
      FreeFull(t[..|t| - 1]);
      assert forall i :: 0 <= i < |t| - 1 ==> t[i] == t[..|t| - 1][i];
    }
  }

  ghost function Free(d: Image): (n: nat)
    requires Mounted(d)
  {
    FreeCount(VolumeOf(d).table)
  }

  ghost function Cap(d: Image): (n: nat)
    requires Mounted(d)
    ensures n <= d[0].block.slotSectors * SECTOR
  {
    VolumeOf(d).cap
  }

  // What a slot holds, as `write_file_plan` computes it.
  function SlotBytes(d: Image): (n: nat)
    requires |d| > 0 && d[0].Boot?
  {
    d[0].block.slotSectors * SECTOR
  }

  function Generation(d: Image): (g: U32)
    requires |d| > 0 && d[0].Boot?
  {
    d[0].block.generation
  }

  // The content `write_file_plan` would store, in terms of the view.
  ghost function Content(m: View, p: string, input: seq<Byte>, append: bool): (data: seq<Byte>) {
    if append && p in m && m[p].File? then m[p].bytes + input else input
  }

  ghost predicate Writable(m: View, p: string) {
    '\0' !in p && (p in m ==> m[p].File?)
  }

  // The lookup and the composed content agree with the view.
  lemma TargetFacts(d: Image, m: View, p: string, o: int, input: seq<Byte>, append: bool)
    requires Shows(d, m) && Writable(m, p) && Target(VolumeOf(d).table, p, o)
    ensures o >= 0 <==> p in m
    ensures o >= 0 ==> At(VolumeOf(d).table, o, p) && VolumeOf(d).table[o].kind == FILE && Readable(VolumeOf(d), o)
    ensures Composed(VolumeOf(d), o, append, input) == Content(m, p, input, append)
  {
    var v := VolumeOf(d);
    LookupInValidTree(v, p);
    if o >= 0 {
      ReadInValidTree(v, p, o);
      assert EntryValid(v, o);
    }
  }

  lemma FullFacts(d: Image, m: View, o: int)
    requires Shows(d, m) && -1 <= o < |VolumeOf(d).table| && (o >= 0 ==> VolumeOf(d).table[o].used != 0)
    ensures Full(VolumeOf(d).table, o) <==> Free(d) == 0
  {
    FreeFull(VolumeOf(d).table);
  }

  // `persist_file_plan` on any valid tree. Rejected exactly when the path cannot be set, the
  // content is larger than a slot, no entry is free or the generation is exhausted. A plan shows
  // the new content exactly when it fits the capacity that the readers compute and the directory
  // of the path is there, and then every crash point recovers to the old tree or the new one.
  method PersistFile(d: Image, path: string, input: seq<Byte>, append: bool, ghost m: View)
    returns (r: Step, ghost stage: seq<nat>)
    requires Shows(d, m) && Writable(m, path)
    ensures r.Rejected? <==>
              || !Settable(path) || |Content(m, path, input, append)| > SlotBytes(d)
              || Free(d) == 0 || Generation(d) == 0xFFFF_FFFF
    ensures r.Planned? ==>
              && Fits(d, r.writes) && r.disk == Replay(d, r.writes) && Mounted(r.disk)
              && Free(r.disk) == Free(d) - (if path in m then 0 else 1)
              && Generation(r.disk) == Generation(d) + 1 && Cap(r.disk) == Cap(d)
    ensures r.Planned? ==>
              var data := Content(m, path, input, append);
              && (Shows(r.disk, m[path := File(data)]) <==> |data| <= Cap(d) && ParentPresent(m, path))
              && (Shows(r.disk, m[path := File(data)]) ==> Staged(d, r.writes, stage, [m, m[path := File(data)]]))
  {
    hide VolumeOf, ViewOf, ValidTree, Mounted, Replay, Staged, SyncWrites, AfterSync, CowWrites, Shows, Free, Cap, Join,
      Writable, Startable, FaultyFor, Target, Full, Readable, Composed, Content, Plannable, Settable, Matches, Lands;
    stage := [];
    var step, data, o, s := WriteFile(d, path, input, append);
    WriteDecision(d, m, path, o, input, append);
    if step.Rejected? {
      return Rejected, stage;
    }
    StartFacts(d, m, path, o, s);
    CowCounts(d, path, data, o, s);
    LandsShows(d, m, path, data, o, s);
    var sync := SyncMetadata(step.disk);
    if sync.Rejected? {
      return Rejected, stage;
    }
    SyncKeeps(d, step.writes, step.disk, m[path := File(data)]);
    if Lands(VolumeOf(d), path, data) {
      CowStaged(d, path, data, o, s, m);
      stage := TwoStage(|step.writes|, |Payload(d, data, s)| + 1);
      stage := SyncDone(d, step.writes, stage, m, m[path := File(data)], step.disk);
    }
    r := Planned(sync.disk, step.writes + sync.writes);
  }

  // The condition in terms of the view.
  lemma LandsShows(d: Image, m: View, p: string, data: seq<Byte>, o: int, s: nat)
    requires Shows(d, m) && Plannable(d, p, data, o, s) && Startable(VolumeOf(d), p, o, s)
    ensures Lands(VolumeOf(d), p, data) <==> |data| <= Cap(d) && ParentPresent(m, p)
    ensures Shows(Replay(d, CowWrites(d, p, data, o, s)), m[p := File(data)]) <==> Lands(VolumeOf(d), p, data)
  {
    hide VolumeOf, ViewOf, ValidTree, Mounted, Replay, CowWrites, Startable, Plannable, ParentPresent;
    CowShows(d, p, data, o, s, m);
  }

  // A sync changes neither the tree nor the counts.
  lemma SyncKeeps(d: Image, ws: seq<Write>, e: Image, after: View)
    requires Fits(d, ws) && e == Replay(d, ws) && Mounted(e) && e[0].block.generation < 0xFFFF_FFFF
    ensures Fits(d, ws + SyncWrites(e)) && AfterSync(e) == Replay(d, ws + SyncWrites(e)) && Mounted(AfterSync(e))
    ensures Shows(AfterSync(e), after) <==> Shows(e, after)
    ensures Free(AfterSync(e)) == Free(e) && Cap(AfterSync(e)) == Cap(e)
    ensures Generation(AfterSync(e)) == Generation(e) + 1
  {
    hide VolumeOf, ValidTree, ViewOf, Replay;
    var sync := SyncWrites(e);
    AfterSyncVolume(e);
    SyncCrash(e, |sync|);
    assert sync[..|sync|] == sync;
    ReplayConcat(d, ws, sync);
  }

  // When `write_file_plan` rejects, in terms of the view and the free entries.
  lemma WriteDecision(d: Image, m: View, p: string, o: int, input: seq<Byte>, append: bool)
    requires Shows(d, m) && Writable(m, p)
    ensures !FaultyFor(VolumeOf(d).table, p)
    ensures Target(VolumeOf(d).table, p, o) ==>
              && (o >= 0 <==> p in m)
              && (o >= 0 ==> Readable(VolumeOf(d), o))
              && (Full(VolumeOf(d).table, o) <==> Free(d) == 0)
              && Composed(VolumeOf(d), o, append, input) == Content(m, p, input, append)
  {
    LookupInValidTree(VolumeOf(d), p);
    if Target(VolumeOf(d).table, p, o) {
      TargetFacts(d, m, p, o, input, append);
      FullFacts(d, m, o);
    }
  }

  lemma StartFacts(d: Image, m: View, p: string, o: int, s: nat)
    requires Shows(d, m) && Writable(m, p) && Target(VolumeOf(d).table, p, o) && Settable(p)
    requires s < |VolumeOf(d).table| && VolumeOf(d).table[s].used == 0
    ensures Startable(VolumeOf(d), p, o, s)
  {
    TargetFacts(d, m, p, o, [], false);
  }

  lemma SyncDone(d: Image, ws: seq<Write>, sa: seq<nat>, m: View, after: View, e: Image) returns (stage: seq<nat>)
    requires Staged(d, ws, sa, [m, after]) && e == Replay(d, ws)
    requires Shows(e, after) && e[0].block.generation < 0xFFFF_FFFF
    ensures Staged(d, ws + SyncWrites(e), stage, [m, after])
  {
    hide VolumeOf, ValidTree, ViewOf, RecoversAs, Mounted, Join, Replay;
    var sync := SyncWrites(e);
    SyncStaged(e, after);
    stage := Join(sa, seq(|sync| + 1, _ => 0));
    StagedConcat(d, ws, sa, [m, after], sync, seq(|sync| + 1, _ => 0), [after]);
    assert [m, after] + [after][1..] == [m, after];
  }

  // A replacement takes one entry for a new path and none for an old one.
  lemma CowCounts(d: Image, p: string, data: seq<Byte>, o: int, s: nat)
    requires Plannable(d, p, data, o, s) && Startable(VolumeOf(d), p, o, s)
    ensures var e := Replay(d, CowWrites(d, p, data, o, s));
            && Mounted(e) && e[0] == d[0] && Cap(e) == Cap(d)
            && Free(e) == Free(d) - (if o >= 0 then 0 else 1)
  {
    hide VolumeOf, Replay, CowWrites, Mounted, ValidTree, ViewOf, Holds;
    StagingApart(VolumeOf(d), p, o, s);
    CowFinalVolume(d, p, data, o, s);
    CowFinalBoot(d, p, data, o, s);
    FinalCounts(VolumeOf(d).table, p, data, o, s);
  }

  lemma CowFinalBoot(d: Image, p: string, data: seq<Byte>, o: int, s: nat)
    requires Plannable(d, p, data, o, s)
    ensures Replay(d, CowWrites(d, p, data, o, s))[0] == d[0]
  {
    hide VolumeOf, Replay, CowWrites, Mounted;
    CowFinalImage(d, p, data, o, s);
  }

  lemma FinalCounts(t: Table, p: string, data: seq<Byte>, o: int, s: nat)
    requires |p| < 48 && s < |t| && t[s].used == 0 && -1 <= o < |t| && o != s && (o >= 0 ==> t[o].used != 0)
    ensures FreeCount(FinalTable(t, p, data, o, s)) == FreeCount(t) - (if o >= 0 then 0 else 1)
  {
    hide FreeCount;
    if o >= 0 {
      FreeUpdate(t, o, Empty());
      FreeUpdate(t[o := Empty()], s, FinalEntry(p, data));
    } else {
      FreeUpdate(t, s, FinalEntry(p, data));
    }
  }

  // A path of a valid tree has its directory.
  lemma ShownHasParent(d: Image, m: View, p: string)
    requires Shows(d, m) && p in m
    ensures ParentPresent(m, p)
  {
    hide ValidTree;
    ValidIsSized(VolumeOf(d));
    assert Distinct(VolumeOf(d).table) by { ValidIsDistinct(VolumeOf(d)); }
    var i := ViewIndex(VolumeOf(d), p);
    ExistingHasParent(VolumeOf(d), i);
  }

  lemma ValidIsDistinct(v: Volume)
    requires ValidTree(v)
    ensures Distinct(v.table)
  {
  }
}
