// ZenPkg transport: the journalled transfer of a package into the cache, planned as sector
// writes, and the classification of what a crash leaves behind.
module Transport {
  import opened Bytes
  import opened EntryTable
  import opened Volume
  import opened Disk
  import opened FilePlanner
  import opened StepPlans
  import opened CrashStages
  import opened Persist
  import opened TransportFormat

  const SOURCE_PATH: string := "/packages/hello-native-0.2.0.zpk"
  const JOURNAL_PATH: string := "/var/lib/zenpkg/transport.v1"

  // ---- rename and removal between valid trees ----

  // `rename_plan`: the moved tree is shown exactly when the destination's directory is there.
  method RenameFile(d: Image, source: string, destination: string, ghost m: View)
    returns (r: Step, ghost stage: seq<nat>)
    requires Shows(d, m) && source in m && m[source].File? && destination !in m && '\0' !in destination
    ensures r.Rejected? <==> !Settable(destination) || Generation(d) == 0xFFFF_FFFF
    ensures r.Planned? ==>
              var after := (m - {source})[destination := m[source]];
              && Fits(d, r.writes) && r.disk == Replay(d, r.writes) && Mounted(r.disk)
              && Generation(r.disk) == Generation(d) + 1
              && (Shows(r.disk, after) <==> ParentPresent(m, destination))
              && (Shows(r.disk, after) ==> Staged(d, r.writes, stage, [m, after]))
  {
    hide ViewOf, ValidTree, Staged, Replay, Matches, FaultyFor, Safe, ParentPresent, SyncWrites, Mounted;
    stage := [];
    ghost var i;
    r, i := RenameEntry(d, source, destination);
    LookupInValidTree(VolumeOf(d), source);
    LookupInValidTree(VolumeOf(d), destination);
    if r.Planned? {
      ghost var e := VolumeOf(d).table[i].(name := Padded(destination));
      ghost var after := (m - {source})[destination := m[source]];
      RenameShows(d, m, i, source, destination);
      EntryDone(d, i, e, r, after);
      if ParentPresent(m, destination) {
        EntryStaged(d, i, e, r, m, after);
        stage := Join([0, 1], seq(|r.writes|, _ => 0));
      }
    }
  }

  // One entry write and a sync leave the tree of the entry write.
  lemma EntryDone(d: Image, i: nat, e: Entry, r: Step, after: View)
    requires Mounted(d) && r.Planned? && EntryThenSync(d, i, e, r)
    ensures Fits(d, r.writes) && r.disk == Replay(d, r.writes) && Mounted(r.disk)
    ensures Generation(r.disk) == Generation(d) + 1
    ensures Shows(r.disk, after) <==> Shows(SetEntry(d, i, e), after)
  {
    hide VolumeOf, ValidTree, ViewOf, SyncWrites, AfterSync, Mounted, Replay, EntryWrite, Shows, SetEntry;
    CrashedOne(d, EntryWrite(d, i, e));
    EntryApplied(d, i, e);
    SyncKeeps(d, [EntryWrite(d, i, e)], SetEntry(d, i, e), after);
  }

  lemma EntryApplied(d: Image, i: nat, e: Entry)
    requires Mounted(d) && i < d[0].block.entryCount
    ensures EntryWrite(d, i, e).sector < |d| && Apply(d, EntryWrite(d, i, e)) == SetEntry(d, i, e)
    ensures SetEntry(d, i, e)[0] == d[0]
  {
    hide VolumeOf;
    SetEntryVolume(d, i, e);
  }

  lemma RenameShows(d: Image, m: View, i: nat, source: string, destination: string)
    requires Shows(d, m) && source in m && m[source].File? && destination !in m
    requires '\0' !in destination && Settable(destination) && Matches(VolumeOf(d).table, i, source)
    ensures var e := VolumeOf(d).table[i].(name := Padded(destination));
            Shows(SetEntry(d, i, e), (m - {source})[destination := m[source]]) <==> ParentPresent(m, destination)
  {
    hide ValidTree, ViewOf, VolumeOf, Mounted, EntryValid, NodeAt, SetEntry, ParentPresent, Padded, With, Without;
    var v := VolumeOf(d);
    var e := v.table[i].(name := Padded(destination));
    ReadInValidTree(v, source, i);
    SetEntryVolume(d, i, e);
    var w := VolumeOf(SetEntry(d, i, e));
    RenameChange(v, w, i, source, destination);
    FileChangeView(v, w, i, i);
    if ParentPresent(m, destination) {
      FileChangeValid(v, w, i, i);
    }
    if ValidTree(w) {
      FileChangeParent(v, w, i, i);
    }
  }

  // Renaming is a change of one file.
  lemma RenameChange(v: Volume, w: Volume, i: nat, source: string, destination: string)
    requires ValidTree(v) && Matches(v.table, i, source) && v.table[i].kind == FILE && destination !in ViewOf(v)
    requires '\0' !in destination && Settable(destination)
    requires w == v.(table := v.table[i := v.table[i].(name := Padded(destination))])
    ensures FileChange(v, w, i, i) && EntryValid(w, i) && PathOf(w.table[i]) == destination &&
      NodeAt(w, i) == NodeAt(v, i)
    ensures destination !in Without(v, i)
    ensures With(Without(v, i), w, i) == (ViewOf(v) - {source})[destination := NodeAt(v, i)]
  {
    hide ViewOf, Fnv1a, Safe;
    PathFromPadded(destination, 48 - |destination|);
    assert Padded(destination)[47] == '\0';
    assert EntryValid(v, i);
  }

  method RemoveFile(d: Image, path: string, ghost m: View) returns (r: Step, ghost stage: seq<nat>)
    requires Shows(d, m) && path in m && m[path].File?
    ensures r.Rejected? <==> Generation(d) == 0xFFFF_FFFF
    ensures r.Planned? ==>
              && Staged(d, r.writes, stage, [m, m - {path}])
              && r.disk == Replay(d, r.writes) && Shows(r.disk, m - {path})
  {
    stage := [];
    ghost var i;
    r, i := RemoveEntry(d, path);
    LookupInValidTree(VolumeOf(d), path);
    if r.Planned? {
      RemoveShows(d, m, i, path);
      EntryStaged(d, i, Empty(), r, m, m - {path});
      stage := Join([0, 1], seq(|r.writes|, _ => 0));
    }
  }

  lemma RemoveShows(d: Image, m: View, i: nat, path: string)
    requires Shows(d, m) && path in m && m[path].File? && Matches(VolumeOf(d).table, i, path)
    ensures Shows(SetEntry(d, i, Empty()), m - {path})
  {
    var v := VolumeOf(d);
    ReadInValidTree(v, path, i);
    SetEntryVolume(d, i, Empty());
    var w := VolumeOf(SetEntry(d, i, Empty()));
    FileChangeValid(v, w, i, -1);
    FileChangeView(v, w, i, -1);
  }

  // ---- the whole plan ----

  // The four paths of a transfer.
  datatype Paths = Paths(source: string, journal: string, partial: string, final: string)

  // What the tool establishes about the baseline before it plans.
  ghost predicate Ready(m: View, source: seq<Byte>, at: Paths)
    ensures Ready(m, source, at) ==> 512 < |source| <= 64 * 1024
  {
    && at.source in m && m[at.source] == File(source)
    && 512 < |source| <= 64 * 1024
    && at.journal !in m && at.partial !in m && at.final !in m
    && at.partial != at.final && at.partial != at.journal && at.final != at.journal
    && Settable(at.journal) && '\0' !in at.journal && '\0' !in at.partial && '\0' !in at.final
    && ParentPresent(m, at.journal) && ParentPresent(m, at.partial) && ParentPresent(m, at.final)
  }

  ghost function Journal(h: Hash, source: seq<Byte>, partial: string, generation: U32, phase: U32,
    offset: U32): (n: Node)
    requires |partial| < 48 && offset <= |source|
  {
    File(JournalBytes(h, source, partial, generation, phase, offset))
  }

  // The trees a completed transfer goes through.
  ghost function Views(h: Hash, m: View, source: seq<Byte>, at: Paths): (vs: seq<View>)
    requires |at.partial| < 48 && 512 < |source| <= 64 * 1024
    ensures |vs| == 9
  {
    var n := |source|;
    var v1 := m[at.journal := Journal(h, source, at.partial, 1, 1, 0)];
    var v2 := v1[at.partial := File(source[..512])];
    var v3 := v2[at.journal := Journal(h, source, at.partial, 2, 1, 512)];
    var v4 := v3[at.partial := File(source)];
    var v5 := v4[at.journal := Journal(h, source, at.partial, 3, 1, n)];
    var v6 := v5[at.journal := Journal(h, source, at.partial, 4, 2, n)];
    var v7 := (v6 - {at.partial})[at.final := File(source)];
    [m, v1, v2, v3, v4, v5, v6, v7, v7 - {at.journal}]
  }

  // The plan so far: staged from the baseline through `views` to the current image.
  ghost predicate Progress(base: Image, ws: seq<Write>, stage: seq<nat>, views: seq<View>, d: Image)
    ensures Progress(base, ws, stage, views, d) ==> |views| > 0 && Mounted(d)
  {
    Staged(base, ws, stage, views) && d == Replay(base, ws) && Shows(d, views[|views| - 1])
  }

  lemma Advance(base: Image, ws: seq<Write>, stage: seq<nat>, views: seq<View>, d: Image, r: Step, more: seq<nat>,
    after: View)
    requires Progress(base, ws, stage, views, d) && r.Planned?
    requires Staged(d, r.writes, more, [Last(views), after])
    requires r.disk == Replay(d, r.writes) && Shows(r.disk, after)
    ensures |stage| > 0 && |more| > 0
    ensures Progress(base, ws + r.writes, Join(stage, more), views + [after], r.disk)
  {
    var last := views[|views| - 1];
    hide RecoversAs, Shows, Replay, Join;
    StagedConcat(base, ws, stage, views, r.writes, more, [last, after]);
    assert views + [last, after][1..] == views + [after];
    ReplayConcat(base, ws, r.writes);
  }

  lemma SourceFits(d: Image, m: View, p: string, data: seq<Byte>)
    requires Shows(d, m) && p in m && m[p] == File(data)
    ensures |data| <= Cap(d)
  {
    var i := ViewIndex(VolumeOf(d), p);
    assert EntryValid(VolumeOf(d), i);
  }

  lemma JournalPathSettable()
    ensures Settable(JOURNAL_PATH) && '\0' !in JOURNAL_PATH
  {
    var p := JOURNAL_PATH;
    assert |p| == 28;
    assert p[0] == '/' && p[4] == '/' && p[8] == '/' && p[15] == '/';
    assert p == ['/', 'v', 'a', 'r', '/', 'l', 'i', 'b', '/', 'z', 'e', 'n', 'p', 'k', 'g', '/', 't', 'r', 'a', 'n',
      's', 'p', 'o', 'r', 't', '.', 'v', '1'];
  }

  ghost function Last(views: seq<View>): (m: View)
    requires |views| > 0
  {
    views[|views| - 1]
  }

  lemma ParentKept(m: View, q: string, n: Node, p: string)
    requires ParentPresent(m, p) && (q in m ==> m[q].File?)
    ensures ParentPresent(m[q := n], p) && ParentPresent(m - {q}, p)
  {
  }

  // A path that can be written, and whose directory is there if it is new.
  ghost predicate Landable(m: View, p: string) {
    Writable(m, p) && (p !in m ==> ParentPresent(m, p))
  }

  // One `persist_file_plan` call of `build_plan`, appended to the plan so far.
  method PersistNext(draft: Step, path: string, input: seq<Byte>, append: bool,
                     ghost base: Image, ghost stage: seq<nat>, ghost views: seq<View>)
    returns (r: Step, ghost stage': seq<nat>)
    requires draft.Planned? && Progress(base, draft.writes, stage, views, draft.disk)
    requires Landable(Last(views), path) && |Content(Last(views), path, input, append)| <= Cap(draft.disk)
    ensures r.Rejected? <==> !Settable(path) || Free(draft.disk) == 0 || Generation(draft.disk) == 0xFFFF_FFFF
    ensures r.Planned? ==>
              && Progress(base, r.writes, stage',
                views + [Last(views)[path := File(Content(Last(views), path, input, append))]], r.disk)
              && Free(r.disk) == Free(draft.disk) - (if path in Last(views) then 0 else 1)
              && Generation(r.disk) == Generation(draft.disk) + 1 && Cap(r.disk) == Cap(draft.disk)
  {
    hide *;
    NextLands(draft, path, base, stage, views);
    stage' := stage;
    var step, more := PersistFile(draft.disk, path, input, append, Last(views));
    if step.Rejected? {
      return Rejected, stage;
    }
    Advance(base, draft.writes, stage, views, draft.disk, step, more,
      Last(views)[path := File(Content(Last(views), path, input, append))]);
    stage' := Join(stage, more);
    r := Planned(step.disk, draft.writes + step.writes);
  }

  lemma NextLands(draft: Step, path: string, base: Image, stage: seq<nat>, views: seq<View>)
    requires draft.Planned? && Progress(base, draft.writes, stage, views, draft.disk) && Landable(Last(views), path)
    ensures Shows(draft.disk, Last(views)) && Writable(Last(views), path) && ParentPresent(Last(views), path)
    ensures Cap(draft.disk) <= SlotBytes(draft.disk)
  {
    hide Staged, Replay, Shows, ParentPresent;
    if path in Last(views) {
      ShownHasParent(draft.disk, Last(views), path);
    }
  }

  // First part of `build_plan`: journal, first chunk, journal at the first offset.
  method PlanFirstChunk(h: Hash, baseline: Image, source: seq<Byte>, at: Paths, ghost m: View)
    returns (r: Step, ghost stage: seq<nat>)
    requires Shows(baseline, m) && Ready(m, source, at) && |at.partial| < 48
    ensures r.Rejected? <==> !Settable(at.partial) || Free(baseline) < 3 || Generation(baseline) > 0xFFFF_FFFF - 3
    ensures r.Planned? ==>
              && Progress(baseline, r.writes, stage, Views(h, m, source, at)[..4], r.disk)
              && Free(r.disk) == Free(baseline) - 2 && Generation(r.disk) == Generation(baseline) + 3
              && Cap(r.disk) == Cap(baseline)
  {
    hide Progress, Shows, Cap, Free, JournalBytes, Settable, ParentPresent, Generation;
    StartProgress(baseline, m);
    SourceFits(baseline, m, at.source, source);
    ghost var vs := Views(h, m, source, at);
    var first := Min(512, |source|);
    ParentKept(m, at.journal, vs[1][at.journal], at.partial);
    r, stage := PersistNext(Planned(baseline, []), at.journal, JournalBytes(h, source, at.partial, 1, 1, 0), false,
      baseline, [0], [m]);
    if r.Rejected? { return; }
    assert [m] + [vs[1]] == vs[..2];
    r, stage := PersistNext(r, at.partial, source[..first], false, baseline, stage, vs[..2]);
    if r.Rejected? { return; }
    assert vs[..2] + [vs[2]] == vs[..3];
    r, stage := PersistNext(r, at.journal, JournalBytes(h, source, at.partial, 2, 1, first), false, baseline, stage,
      vs[..3]);
    assert vs[..3] + [vs[3]] == vs[..4];
  }

  lemma StartProgress(baseline: Image, m: View)
    requires Shows(baseline, m)
    ensures Progress(baseline, [], [0], [m], baseline)
  {
    hide Shows, RecoversAs;
    ShowsRecovers(baseline, m);
    assert Crashed(baseline, [], 0) == baseline;
  }

  // Second part: the remaining bytes, journal at the full offset, journal in the commit phase.
  method PlanRemainder(h: Hash, draft: Step, source: seq<Byte>, at: Paths,
                       ghost baseline: Image, ghost m: View, ghost stage: seq<nat>)
    returns (r: Step, ghost stage': seq<nat>)
    requires draft.Planned? && Ready(m, source, at) && |at.partial| < 48 && Settable(at.partial)
    requires Progress(baseline, draft.writes, stage, Views(h, m, source, at)[..4], draft.disk)
    requires Free(draft.disk) >= 1 && |source| <= Cap(draft.disk)
    ensures r.Rejected? <==> Generation(draft.disk) > 0xFFFF_FFFF - 3
    ensures r.Planned? ==>
              && Progress(baseline, r.writes, stage', Views(h, m, source, at)[..7], r.disk)
              && Generation(r.disk) == Generation(draft.disk) + 3
  {
    hide Progress, Shows, Cap, Free, JournalBytes, Settable, ParentPresent, Generation;
    ghost var vs := Views(h, m, source, at);
    var first := Min(512, |source|);
    assert source[..first] + source[first..] == source;
    r, stage' := PersistNext(draft, at.partial, source[first..], true, baseline, stage, vs[..4]);
    if r.Rejected? { return; }
    assert vs[..4] + [vs[4]] == vs[..5];
    r, stage' := PersistNext(r, at.journal, JournalBytes(h, source, at.partial, 3, 1, |source|), false, baseline,
      stage', vs[..5]);
    if r.Rejected? { return; }
    assert vs[..5] + [vs[5]] == vs[..6];
    r, stage' := PersistNext(r, at.journal, JournalBytes(h, source, at.partial, 4, 2, |source|), false, baseline,
      stage', vs[..6]);
    assert vs[..6] + [vs[6]] == vs[..7];
  }

  lemma ProgressShows(base: Image, ws: seq<Write>, stage: seq<nat>, views: seq<View>, d: Image)
    requires Progress(base, ws, stage, views, d)
    ensures Shows(d, Last(views))
  {
  }

  lemma PublishReady(h: Hash, m: View, source: seq<Byte>, at: Paths)
    requires Ready(m, source, at) && |at.partial| < 48
    ensures ParentPresent(Views(h, m, source, at)[6], at.final)
  {
    var vs := Views(h, m, source, at);
    hide ParentPresent, JournalBytes;
    ParentKept(m, at.journal, vs[1][at.journal], at.final);
    ParentKept(vs[1], at.partial, vs[2][at.partial], at.final);
    ParentKept(vs[2], at.journal, vs[3][at.journal], at.final);
    ParentKept(vs[3], at.partial, vs[4][at.partial], at.final);
    ParentKept(vs[4], at.journal, vs[5][at.journal], at.final);
    ParentKept(vs[5], at.journal, vs[6][at.journal], at.final);
  }

  // Last part: publish by rename, then drop the journal.
  method PlanPublish(h: Hash, draft: Step, source: seq<Byte>, at: Paths,
                     ghost baseline: Image, ghost m: View, ghost stage: seq<nat>)
    returns (r: Step, ghost stage': seq<nat>)
    requires draft.Planned? && Ready(m, source, at) && |at.partial| < 48
    requires Progress(baseline, draft.writes, stage, Views(h, m, source, at)[..7], draft.disk)
    ensures r.Rejected? <==> !Settable(at.final) || Generation(draft.disk) > 0xFFFF_FFFF - 2
    ensures r.Planned? ==> Progress(baseline, r.writes, stage', Views(h, m, source, at), r.disk)
  {
    hide Progress, Shows, JournalBytes, Settable, ParentPresent, Generation, Staged, Replay, Join;
    ghost var vs := Views(h, m, source, at);
    ProgressShows(baseline, draft.writes, stage, vs[..7], draft.disk);
    PublishReady(h, m, source, at);
    stage' := stage;
    var step, more := RenameFile(draft.disk, at.partial, at.final, vs[6]);
    if step.Rejected? {
      return Rejected, stage;
    }
    Advance(baseline, draft.writes, stage, vs[..7], draft.disk, step, more, vs[7]);
    assert vs[..7] + [vs[7]] == vs[..8];
    stage' := Join(stage, more);
    var drop, last := RemoveFile(step.disk, at.journal, vs[7]);
    if drop.Rejected? {
      return Rejected, stage;
    }
    Advance(baseline, draft.writes + step.writes, stage', vs[..8], step.disk, drop, last, vs[8]);
    assert vs[..8] + [vs[8]] == vs;
    stage' := Join(stage', last);
    r := Planned(drop.disk, draft.writes + step.writes + drop.writes);
  }

  // `build_plan`: it is rejected exactly when a path cannot be stored, when fewer than three
  // entries are free or when the generation counter would run out; otherwise every crash
  // prefix recovers to one of the nine trees, in order.
  method BuildPlan(h: Hash, baseline: Image, source: seq<Byte>, at: Paths, ghost m: View)
    returns (r: Step, ghost resumable: nat, ghost published: nat)
    requires Shows(baseline, m) && Ready(m, source, at)
    ensures r.Rejected? <==>
            || !Settable(at.partial) || !Settable(at.final)
            || Free(baseline) < 3 || Generation(baseline) > 0xFFFF_FFFF - 8
    ensures r.Planned? ==>
              && CrashSafe(h, baseline, r.writes, source, at, resumable, published)
              && r.disk == Replay(baseline, r.writes)
              && Shows(r.disk, (m + map[at.final := File(source)]))
  {
    SourceFits(baseline, m, at.source, source);
    resumable, published := 0, 0;
    if |at.partial| >= 48 {
      return Rejected, resumable, published;
    }
    ghost var stage;
    hide Shows, Staged, Replay, Free, Views, Ready, Cap, CrashSafe;
    r, stage := PlanFirstChunk(h, baseline, source, at, m);
    if r.Rejected? { return; }
    r, stage := PlanRemainder(h, r, source, at, baseline, m, stage);
    if r.Rejected? { return; }
    r, stage := PlanPublish(h, r, source, at, baseline, m, stage);
    if r.Rejected? { return; }
    LastView(h, m, source, at);
    resumable, published := TransportSafety(h, baseline, m, source, at, r.writes, stage);
  }

  // A finished transfer adds the final file and leaves everything else as it was.
  lemma LastView(h: Hash, m: View, source: seq<Byte>, at: Paths)
    requires Ready(m, source, at) && |at.partial| < 48
    ensures Last(Views(h, m, source, at)) == m + map[at.final := File(source)]
  {
  }

  // ---- classify ----

  datatype Outcome = OldState | ResumableState | NewState | FailClosed

  // `classify` as a function of the tree that recovery produced.
  ghost function OutcomeOf(m: View, source: seq<Byte>, at: Paths): (o: Outcome) {
    if !(at.source in m && m[at.source] == File(source)) then FailClosed
    else if at.final in m then
      if at.partial in m || m[at.final] != File(source) then FailClosed else NewState
    else if at.partial in m then
      if m[at.partial].File? && m[at.partial].bytes <= source then ResumableState else FailClosed
    else OldState
  }

  ghost predicate ReadsAs(v: Volume, p: string, r: Option<seq<Byte>>)
    requires ValidTree(v)
  {
    if p in ViewOf(v) && ViewOf(v)[p].File? then r == Some(ViewOf(v)[p].bytes) else r == None
  }

  method ReadShown(d: Image, p: string) returns (r: Option<seq<Byte>>)
    requires Mounted(d) && ValidTree(VolumeOf(d))
    ensures ReadsAs(VolumeOf(d), p, r)
  {
    r := ReadFile(d, p);
    ghost var v := VolumeOf(d);
    LookupInValidTree(v, p);
    if p in ViewOf(v) {
      ghost var i :| Matches(v.table, i, p);
      ReadInValidTree(v, p, i);
      NoOtherMatch(v.table, p, i);
    }
  }

  method IsPresent(d: Image, p: string) returns (b: bool)
    requires Mounted(d) && ValidTree(VolumeOf(d))
    ensures b <==> p in ViewOf(VolumeOf(d))
  {
    var f := FindEntry(d, p);
    LookupInValidTree(VolumeOf(d), p);
    return f.Found?;
  }

  // What `classify` reports for an image.
  ghost function OutcomeAfter(d: Image, source: seq<Byte>, at: Paths): (o: Outcome) {
    if Mounted(d) && ValidTree(RecoveredVolume(VolumeOf(d)))
    then OutcomeOf(ViewOf(RecoveredVolume(VolumeOf(d))), source, at) else FailClosed
  }

  method Classify(d: Image, source: seq<Byte>, at: Paths) returns (o: Outcome)
    requires ValidGeometry(d) ==> Mounted(d)
    ensures o == OutcomeAfter(d, source, at)
  {
    if !ValidGeometry(d) {
      return FailClosed;
    }
    hide ValidTree, ViewOf, VolumeOf, Mounted, RecoveredVolume;
    var r := RecoverImage(d);
    var valid := CheckTree(r);
    if !valid {
      return FailClosed;
    }
    var original := ReadShown(r, at.source);
    if original != Some(source) {
      return FailClosed;
    }
    var hasFinal := IsPresent(r, at.final);
    var hasPartial := IsPresent(r, at.partial);
    if hasFinal {
      var published := ReadShown(r, at.final);
      if hasPartial || published != Some(source) {
        return FailClosed;
      }
      return NewState;
    }
    if hasPartial {
      var partial := ReadShown(r, at.partial);
      if partial.None? || !(partial.value <= source) {
        return FailClosed;
      }
      return ResumableState;
    }
    return OldState;
  }

  // ---- safety over the whole run ----

  // First position from which the stage is at least `v`.
  lemma {:induction false} FirstAt(stage: seq<nat>, v: nat, n: nat) returns (k: nat)
    requires Climbs(stage) && n < |stage| && stage[0] < v <= stage[n]
    ensures 0 < k <= n
    ensures stage[k] == v
    ensures forall j :: 0 <= j < k ==> stage[j] < v
    ensures forall j :: k <= j <= n ==> stage[j] >= v
  {
    if stage[n - 1] < v {
      k := n;
      ClimbsMonotone(stage, n - 1);
    } else {
      k := FirstAt(stage, v, n - 1);
    }
  }

  lemma {:induction false} ClimbsMonotone(stage: seq<nat>, n: nat)
    requires Climbs(stage) && n < |stage|
    ensures forall j :: 0 <= j <= n ==> stage[j] <= stage[n]
  {
    if n > 0 {
      ClimbsMonotone(stage, n - 1);
    }
  }

  lemma ViewOutcomes(h: Hash, m: View, source: seq<Byte>, at: Paths, i: nat)
    requires Ready(m, source, at) && |at.partial| < 48 && i < 9
    ensures OutcomeOf(Views(h, m, source, at)[i], source, at)
            == if i < 2 then OldState else if i < 7 then ResumableState else NewState
  {
    hide JournalBytes, ParentPresent, Settable;
    assert source[..512] <= source;
  }

  // The bytes of the package that are durable in a tree: the published file, else the partial one.
  ghost function Durable(m: View, at: Paths): (bytes: seq<Byte>) {
    if at.final in m && m[at.final].File? then m[at.final].bytes
    else if at.partial in m && m[at.partial].File? then m[at.partial].bytes
    else []
  }

  // What is durable is a prefix of the package, and the journal, if there is one, is a record
  // the kernel accepts and tells the truth about the package and about what is durable.
  ghost predicate JournalHonest(h: Hash, m: View, source: seq<Byte>, at: Paths) {
    && Durable(m, at) <= source
    && (at.journal in m ==>
          m[at.journal].File? && Truthful(h, m[at.journal].bytes, source, at.partial, Durable(m, at)))
  }

  // What each tree of a transfer holds at the three paths the transfer writes.
  lemma ViewContents(h: Hash, m: View, source: seq<Byte>, at: Paths, i: nat)
    requires Ready(m, source, at) && |at.partial| < 48 && i < 9
    ensures var v := Views(h, m, source, at)[i];
            && (at.journal in v <==> 1 <= i <= 7)
            && (i == 1 || i == 2 ==> v[at.journal] == Journal(h, source, at.partial, 1, 1, 0))
            && (i == 3 || i == 4 ==> v[at.journal] == Journal(h, source, at.partial, 2, 1, 512))
            && (i == 5 ==> v[at.journal] == Journal(h, source, at.partial, 3, 1, |source|))
            && (i == 6 || i == 7 ==> v[at.journal] == Journal(h, source, at.partial, 4, 2, |source|))
            && Durable(v, at) == if i < 2 then [] else if i < 4 then source[..512] else source
  {
    hide JournalBytes, ParentPresent, Settable;
  }

  lemma ViewsHonest(h: Hash, m: View, source: seq<Byte>, at: Paths, i: nat)
    requires Ready(m, source, at) && Settable(at.partial) && i < 9
    ensures JournalHonest(h, Views(h, m, source, at)[i], source, at)
  {
    hide JournalBytes, ParentPresent, Truthful, Views, Ready, Durable;
    var n := |source|;
    ViewContents(h, m, source, at, i);
    assert source[..512] <= source;
    var durable := Durable(Views(h, m, source, at)[i], at);
    if 1 <= i <= 2 {
      JournalTruthful(h, source, at.partial, 1, 1, 0, durable);
    } else if 3 <= i <= 4 {
      JournalTruthful(h, source, at.partial, 2, 1, 512, durable);
    } else if i == 5 {
      JournalTruthful(h, source, at.partial, 3, 1, n, durable);
    } else if 6 <= i <= 7 {
      JournalTruthful(h, source, at.partial, 4, 2, n, durable);
    }
  }

  // Of two trees, the second has no earlier journal than the first.
  ghost predicate JournalFollows(u: View, v: View, at: Paths) {
    at.journal in u && at.journal in v ==>
      u[at.journal].File? && v[at.journal].File? && Follows(u[at.journal].bytes, v[at.journal].bytes)
  }

  lemma ViewsFollow(h: Hash, m: View, source: seq<Byte>, at: Paths, i: nat, j: nat)
    requires Ready(m, source, at) && |at.partial| < 48 && i <= j < 9
    ensures JournalFollows(Views(h, m, source, at)[i], Views(h, m, source, at)[j], at)
  {
    hide JournalBytes, ParentPresent, Settable, JournalOffset, JournalPhase, JournalGeneration, Views, Ready, Durable;
    var n := |source|;
    JournalWords(h, source, at.partial, 1, 1, 0);
    JournalWords(h, source, at.partial, 2, 1, 512);
    JournalWords(h, source, at.partial, 3, 1, n);
    JournalWords(h, source, at.partial, 4, 2, n);
    ViewContents(h, m, source, at, i);
    ViewContents(h, m, source, at, j);
  }

  // A crash later in the run leaves no earlier journal.
  ghost predicate Advances(d: Image, e: Image, at: Paths) {
    forall u, v :: RecoversAs(d, u) && RecoversAs(e, v) ==> JournalFollows(u, v, at)
  }

  lemma RecoversOnce(d: Image, e: Image, m: View, n: View, at: Paths)
    requires RecoversAs(d, m) && RecoversAs(e, n) && JournalFollows(m, n, at)
    ensures Advances(d, e, at)
  {
    hide JournalFollows, Mounted, ValidTree, ViewOf, VolumeOf;
  }

  lemma RecoversOutcome(d: Image, m: View, source: seq<Byte>, at: Paths)
    requires RecoversAs(d, m)
    ensures OutcomeAfter(d, source, at) == OutcomeOf(m, source, at)
  {
  }

  // A crash after any prefix of the writes recovers to the old state, then to a resumable one,
  // then to the new one, with an honest journal throughout, which only moves forward.
  ghost predicate CrashSafe(h: Hash, baseline: Image, ws: seq<Write>, source: seq<Byte>, at: Paths, resumable: nat,
    published: nat)
  {
    && Fits(baseline, ws) && 0 < resumable < published <= |ws|
    && (forall k :: 0 <= k <= |ws| ==>
          OutcomeAfter(Crashed(baseline, ws, k), source, at)
          == if k < resumable then OldState else if k < published then ResumableState else NewState)
    && (forall k :: 0 <= k <= |ws| ==>
          exists v :: RecoversAs(Crashed(baseline, ws, k), v) && JournalHonest(h, v, source, at))
    && forall j, k :: 0 <= j <= k <= |ws| ==> Advances(Crashed(baseline, ws, j), Crashed(baseline, ws, k), at)
  }

  // Every crash prefix of a transfer classifies as old, then resumable, then new, in that
  // order, all three occurring and none failing closed; and whatever tree recovery shows,
  // its journal is honest.
  lemma TransportSafety(h: Hash, baseline: Image, m: View, source: seq<Byte>, at: Paths, ws: seq<Write>,
    stage: seq<nat>)
    returns (resumable: nat, published: nat)
    requires Ready(m, source, at) && Settable(at.partial)
    requires Staged(baseline, ws, stage, Views(h, m, source, at))
    ensures CrashSafe(h, baseline, ws, source, at, resumable, published)
  {
    hide Views, Ready, RecoversAs, OutcomeAfter, OutcomeOf, JournalHonest, JournalFollows, Advances, Crashed;
    var views := Views(h, m, source, at);
    resumable := FirstAt(stage, 2, |ws|);
    published := FirstAt(stage, 7, |ws|);
    forall k | 0 <= k <= |ws|
      ensures OutcomeAfter(Crashed(baseline, ws, k), source, at)
              == if k < resumable then OldState else if k < published then ResumableState else NewState
      ensures RecoversAs(Crashed(baseline, ws, k), views[stage[k]]) && JournalHonest(h, views[stage[k]], source, at)
    {
      RecoversOutcome(Crashed(baseline, ws, k), views[stage[k]], source, at);
      ViewOutcomes(h, m, source, at, stage[k]);
      ViewsHonest(h, m, source, at, stage[k]);
    }
    forall j, k | 0 <= j <= k <= |ws|
      ensures Advances(Crashed(baseline, ws, j), Crashed(baseline, ws, k), at)
    {
      ClimbsMonotone(stage, k);
      ViewsFollow(h, m, source, at, stage[j], stage[k]);
      RecoversOnce(Crashed(baseline, ws, j), Crashed(baseline, ws, k), views[stage[j]], views[stage[k]], at);
    }
  }

  // ---- the tool's own paths ----

  function HexDigit(n: nat): (c: char)
    requires n < 16
  {
    "0123456789abcdef"[n]
  }

  function Hex(b: seq<Byte>): (s: string)
    ensures |s| == 2 * |b|
  {
    if b == [] then "" else [HexDigit(b[0] / 16), HexDigit(b[0] % 16)] + Hex(b[1..])
  }

  // `cache_path`.
  function CachePath(digest: Digest, partial: bool): (p: string) {
    "/var/cache/zp/" + Hex(digest[..12]) + (if partial then ".part" else ".zpk")
  }

  lemma {:induction false} HexPlain(b: seq<Byte>)
    ensures forall i :: 0 <= i < |Hex(b)| ==> Hex(b)[i] != '/' && Hex(b)[i] != '\0'
  {
    if b != [] {
      HexPlain(b[1..]);
    }
  }

  // The value of a hexadecimal digit.
  function DigitValue(c: char): (n: int) {
    if '0' <= c <= '9' then c as int - '0' as int else c as int - 'a' as int + 10
  }

  lemma HexDigitRead(n: nat)
    requires n < 16
    ensures DigitValue(HexDigit(n)) == n
    ensures '0' <= HexDigit(n) <= '9' || 'a' <= HexDigit(n) <= 'f'
  {
  }

  // Byte `i` is the value of digits 2i and 2i + 1.
  lemma {:induction false} HexRead(b: seq<Byte>, i: nat)
    requires i < |b|
    ensures b[i] == 16 * DigitValue(Hex(b)[2 * i]) + DigitValue(Hex(b)[2 * i + 1])
  {
    hide DigitValue, HexDigit;
    if i == 0 {
      HexDigitRead(b[0] / 16);
      HexDigitRead(b[0] % 16);
    } else {
      HexRead(b[1..], i - 1);
    }
  }

  // A cache path tells the first twelve bytes of the digest, and whether it is the partial copy.
  lemma CachePathBinds(d: Digest, e: Digest, x: bool, y: bool)
    requires CachePath(d, x) == CachePath(e, y)
    ensures d[..12] == e[..12] && x == y
  {
    hide Hex, DigitValue;
    var p, q := CachePath(d, x), CachePath(e, y);
    assert |p| == (if x then 43 else 42) && |q| == if y then 43 else 42;
    assert p[14..38] == Hex(d[..12]) && q[14..38] == Hex(e[..12]);
    forall i | 0 <= i < 12
      ensures d[..12][i] == e[..12][i]
    {
      HexRead(d[..12], i);
      HexRead(e[..12], i);
    }
  }

  // The cache paths can be stored and clash with none of the other paths.
  lemma CachePathsUsable(digest: Digest)
    ensures forall partial :: Settable(CachePath(digest, partial)) && '\0' !in CachePath(digest, partial)
    ensures CachePath(digest, true) != CachePath(digest, false)
    ensures forall partial :: CachePath(digest, partial) != JOURNAL_PATH && CachePath(digest, partial) != SOURCE_PATH
  {
    HexPlain(digest[..12]);
    forall partial
      ensures Settable(CachePath(digest, partial)) && '\0' !in CachePath(digest, partial)
    {
      var p := CachePath(digest, partial);
      assert p[..14] == "/var/cache/zp/";
      assert p[14..38] == Hex(digest[..12]);
      assert forall i :: 14 <= i < 38 ==> p[i] == Hex(digest[..12])[i - 14];
      assert p[38..] == if partial then ".part" else ".zpk";
    }
    assert |CachePath(digest, true)| == 43 && |CachePath(digest, false)| == 42;
  }

  // ---- the tool's own transfer ----

  function ToolPaths(digest: Digest): (at: Paths) {
    Paths(SOURCE_PATH, JOURNAL_PATH, CachePath(digest, true), CachePath(digest, false))
  }

  lemma {:induction false} LastSlashAt(p: string, i: nat)
    requires 0 < i < |p| && p[i] == '/' && forall k :: i < k < |p| ==> p[k] != '/'
    ensures LastSlash(p) == i
  {
    if i < |p| - 1 {
      LastSlashAt(p[..|p| - 1], i);
    }
  }

  lemma JournalParent(m: View)
    requires "/var/lib/zenpkg" in m && m["/var/lib/zenpkg"].Directory?
    ensures ParentPresent(m, JOURNAL_PATH)
  {
    var p, d := JOURNAL_PATH, "/var/lib/zenpkg";
    assert p == d + "/transport.v1";
    LastSlashAt(p, |d|);
    assert p[..|d|] == d;
  }

  lemma CacheParent(m: View, digest: Digest, partial: bool)
    requires "/var/cache/zp" in m && m["/var/cache/zp"].Directory?
    ensures ParentPresent(m, CachePath(digest, partial))
  {
    hide Hex;
    var p, d := CachePath(digest, partial), "/var/cache/zp";
    var tail := Hex(digest[..12]) + (if partial then ".part" else ".zpk");
    HexPlain(digest[..12]);
    assert p == d + "/" + tail;
    assert forall k :: |d| < k < |p| ==> p[k] == tail[k - |d| - 1];
    LastSlashAt(p, |d|);
    assert p[..|d|] == d;
  }

  // The baseline the tool prepares: its directories are there, and neither a journal nor cached
  // copies of the source.
  ghost predicate Prepared(h: Hash, m: View) {
    && "/var/lib/zenpkg" in m && m["/var/lib/zenpkg"].Directory?
    && "/var/cache/zp" in m && m["/var/cache/zp"].Directory?
    && JOURNAL_PATH !in m
    && (SOURCE_PATH in m && m[SOURCE_PATH].File? ==>
          forall partial :: CachePath(h(m[SOURCE_PATH].bytes), partial) !in m)
  }

  lemma ToolReady(h: Hash, m: View, source: seq<Byte>)
    requires Prepared(h, m) && SOURCE_PATH in m && m[SOURCE_PATH] == File(source) && 512 < |source| <= 64 * 1024
    ensures Ready(m, source, ToolPaths(h(source)))
    ensures Settable(CachePath(h(source), true)) && Settable(CachePath(h(source), false))
  {
    hide CachePath, Settable, ParentPresent;
    CachePathsUsable(h(source));
    JournalPathSettable();
    JournalParent(m);
    CacheParent(m, h(source), true);
    CacheParent(m, h(source), false);
  }

  // The transfer of the signed package: it needs a source of two chunks, three free entries and
  // eight generations, and is then safe at every crash point.
  method PlanTransfer(h: Hash, baseline: Image, ghost m: View)
    returns (r: Step, source: seq<Byte>, ghost resumable: nat, ghost published: nat)
    requires Shows(baseline, m) && Prepared(h, m)
    ensures r.Rejected? <==>
            || SOURCE_PATH !in m || !m[SOURCE_PATH].File? || |m[SOURCE_PATH].bytes| <= 512
            || |m[SOURCE_PATH].bytes| > 64 * 1024 || Free(baseline) < 3 || Generation(baseline) > 0xFFFF_FFFF - 8
    ensures r.Planned? ==>
              && m[SOURCE_PATH] == File(source)
              && CrashSafe(h, baseline, r.writes, source, ToolPaths(h(source)), resumable, published)
              && Shows(r.disk, m + map[CachePath(h(source), false) := File(source)])
  {
    hide Ready, CrashSafe, Free, CachePath, Settable, Mounted, ValidTree, ViewOf, VolumeOf;
    source, resumable, published := [], 0, 0;
    var content := ReadShown(baseline, SOURCE_PATH);
    if content.None? || |content.value| <= 512 || |content.value| > 64 * 1024 {
      return Rejected, source, resumable, published;
    }
    source := content.value;
    ToolReady(h, m, source);
    r, resumable, published := BuildPlan(h, baseline, source, ToolPaths(h(source)), m);
  }
}
