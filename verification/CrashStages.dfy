// Write lists whose every crash prefix recovers to one of a list of trees, in order.
module CrashStages {
  import opened Bytes
  import opened EntryTable
  import opened Volume
  import opened CowCommit
  import opened Disk
  import opened CowPlan
  import opened StepPlans

  ghost predicate Climbs(stage: seq<nat>) {
    forall k :: 0 <= k < |stage| - 1 ==> stage[k] <= stage[k + 1] <= stage[k] + 1
  }

  // A crash after `k` of the writes recovers to `views[stage[k]]`; stages start at the first
  // view, end at the last, and never step back or skip.
  ghost predicate Staged(d: Image, ws: seq<Write>, stage: seq<nat>, views: seq<View>) {
    && Fits(d, ws) && |stage| == |ws| + 1 && |views| > 0
    && stage[0] == 0 && stage[|ws|] == |views| - 1 && Climbs(stage)
    && forall k :: 0 <= k <= |ws| ==> stage[k] < |views| && RecoversAs(Crashed(d, ws, k), views[stage[k]])
  }

  function Join(sa: seq<nat>, sb: seq<nat>): (r: seq<nat>)
    requires |sa| > 0 && |sb| > 0
  {
    sa + seq(|sb| - 1, i requires 0 <= i < |sb| - 1 => sb[i + 1] + sa[|sa| - 1])
  }

  lemma JoinClimbs(sa: seq<nat>, sb: seq<nat>)
    requires |sa| > 0 && |sb| > 0 && sb[0] == 0 && Climbs(sa) && Climbs(sb)
    ensures Climbs(Join(sa, sb))
    ensures Join(sa, sb)[|sa| + |sb| - 2] == sa[|sa| - 1] + sb[|sb| - 1]
  {
    var j := Join(sa, sb);
    forall k | 0 <= k < |j| - 1
      ensures j[k] <= j[k + 1] <= j[k] + 1
    {
      if k >= |sa| - 1 {
        assert sb[k - |sa| + 1] <= sb[k - |sa| + 2];
      }
    }
  }

  lemma StagedConcat(d: Image, a: seq<Write>, sa: seq<nat>, va: seq<View>, b: seq<Write>, sb: seq<nat>, vb: seq<View>)
    requires Staged(d, a, sa, va) && Staged(Replay(d, a), b, sb, vb)
    requires va[|va| - 1] == vb[0]
    ensures Staged(d, a + b, Join(sa, sb), va + vb[1..])
  {
    hide RecoversAs, Replay, Join, Crashed;
    var j, v := Join(sa, sb), va + vb[1..];
    JoinClimbs(sa, sb);
    JoinAt(sa, sb, 0);
    ReplayPrefixConcat(d, a, b, 0);
    forall k | 0 <= k <= |a + b|
      ensures j[k] < |v| && RecoversAs(Crashed(d, a + b, k), v[j[k]])
    {
      ReplayPrefixConcat(d, a, b, k);
      JoinAt(sa, sb, k);
      if k <= |a| {
        assert RecoversAs(Crashed(d, a, k), va[sa[k]]);
      } else {
        var i := k - |a|;
        assert RecoversAs(Crashed(Replay(d, a), b, i), vb[sb[i]]);
        assert v[j[k]] == vb[sb[i]];
      }
    }
  }

  lemma JoinAt(sa: seq<nat>, sb: seq<nat>, k: nat)
    requires |sa| > 0 && |sb| > 0 && k < |sa| + |sb| - 1
    ensures |Join(sa, sb)| == |sa| + |sb| - 1
    ensures Join(sa, sb)[k] == if k < |sa| then sa[k] else sb[k - |sa| + 1] + sa[|sa| - 1]
  {
  }

  // A finished step: from a valid tree showing `before` to one showing `after`.
  ghost predicate Shows(d: Image, m: View)
    ensures Shows(d, m) ==> Mounted(d)
  {
    Mounted(d) && ValidTree(VolumeOf(d)) && ViewOf(VolumeOf(d)) == m
  }

  lemma ShowsRecovers(d: Image, m: View)
    requires Shows(d, m)
    ensures RecoversAs(d, m)
  {
    ValidIsIdle(VolumeOf(d));
  }

  // `stage` is 0 up to `c` and 1 after it.
  function TwoStage(n: nat, c: nat): (stage: seq<nat>)
    requires c < n
  {
    seq(n + 1, k => if k <= c then 0 else 1)
  }

  lemma CowStaged(d: Image, p: string, data: seq<Byte>, o: int, s: nat, m: View)
    requires Plannable(d, p, data, o, s) && Startable(VolumeOf(d), p, o, s)
    requires Lands(VolumeOf(d), p, data) && Shows(d, m)
    ensures Staged(d, CowWrites(d, p, data, o, s), TwoStage(|CowWrites(d, p, data, o, s)|, |Payload(d, data, s)| + 1),
      [m, m[p := File(data)]])
  {
    hide RecoversAs, Replay, CowWrites, Startable, Plannable, Mounted, VolumeOf, ViewOf, ValidTree, CowEdits;
    var ws := CowWrites(d, p, data, o, s);
    var c := |Payload(d, data, s)| + 1;
    var stage := TwoStage(|ws|, c);
    var views := [m, m[p := File(data)]];
    forall k | 0 <= k <= |ws|
      ensures stage[k] < 2 && RecoversAs(Crashed(d, ws, k), views[stage[k]])
    {
      CrashAtomic(d, p, data, o, s, k);
    }
  }

  lemma CowFinalImage(d: Image, p: string, data: seq<Byte>, o: int, s: nat)
    requires Plannable(d, p, data, o, s)
    ensures Replay(d, CowWrites(d, p, data, o, s)) ==
      AfterEdits(AfterPayload(d, p, data, o, s), CowEdits(p, data, o, s))
  {
    hide AfterEdits, AfterPayload, CowEdits, CowWrites, Mounted;
    var ws, es := CowWrites(d, p, data, o, s), CowEdits(p, data, o, s);
    CrashInEdits(d, p, data, o, s, |es|);
    assert es[..|es|] == es && ws[..|ws|] == ws;
  }

  lemma CowFinalVolume(d: Image, p: string, data: seq<Byte>, o: int, s: nat)
    requires Plannable(d, p, data, o, s) && o != s
    ensures var e := Replay(d, CowWrites(d, p, data, o, s));
            && Mounted(e)
            && SlotsBut(VolumeOf(d), VolumeOf(e), s)
            && VolumeOf(e).table == FinalTable(VolumeOf(d).table, p, data, o, s)
            && Holds(VolumeOf(e).slots[s], data)
  {
    hide AfterPayload, Replay, CowWrites, VolumeOf, Edited, Holds, FinalTable, Mounted, Payload;
    var es, d1 := CowEdits(p, data, o, s), AfterPayload(d, p, data, o, s);
    OnlySlotVolume(d, d1, s);
    PayloadHolds(d, p, data, o, s);
    FinalStages(VolumeOf(d).table, p, data, o, s);
    CowFinalImage(d, p, data, o, s);
    AfterEditsVolume(d1, es);
  }

  // The entry writes end at the final table.
  lemma FinalStages(t: Table, p: string, data: seq<Byte>, o: int, s: nat)
    requires |p| < 48 && s < |t| <= 128 && -1 <= o < |t| && o != s
    ensures Edited(t, CowEdits(p, data, o, s)) == FinalTable(t, p, data, o, s)
  {
    hide Edited, Stage, CommittedStage, FinalEntry;
    var es := CowEdits(p, data, o, s);
    EditedStages(t, Stage(p, data, Reserved(o)), CommittedStage(p, data, Reserved(o)), FinalEntry(p, data), o, s, es,
      |es|);
    assert es[..|es|] == es;
  }

  lemma CowShows(d: Image, p: string, data: seq<Byte>, o: int, s: nat, m: View)
    requires Plannable(d, p, data, o, s) && Startable(VolumeOf(d), p, o, s)
    requires Shows(d, m)
    ensures Shows(Replay(d, CowWrites(d, p, data, o, s)), m[p := File(data)]) <==> Lands(VolumeOf(d), p, data)
  {
    hide Lands, ValidTree, ViewOf, Replay, CowWrites, FinalTable, Holds, SlotsBut, VolumeOf, Mounted;
    StagingApart(VolumeOf(d), p, o, s);
    CowFinalVolume(d, p, data, o, s);
    FinalShowsNew(VolumeOf(d), VolumeOf(Replay(d, CowWrites(d, p, data, o, s))), p, data, o, s);
  }

  lemma StagingApart(v: Volume, p: string, o: int, s: nat)
    requires Startable(v, p, o, s)
    ensures o != s
  {
    hide ValidTree;
  }

  lemma SyncStaged(d: Image, m: View)
    requires Shows(d, m) && d[0].block.generation < 0xFFFF_FFFF
    ensures Staged(d, SyncWrites(d), seq(|SyncWrites(d)| + 1, _ => 0), [m])
    ensures Replay(d, SyncWrites(d)) == AfterSync(d) && Shows(AfterSync(d), m)
  {
    hide RecoversAs, ValidTree, ViewOf, VolumeOf, Replay;
    var ws := SyncWrites(d);
    AfterSyncVolume(d);
    ShowsRecovers(d, m);
    ShowsRecovers(AfterSync(d), m);
    forall k | 0 <= k <= |ws|
      ensures RecoversAs(Crashed(d, ws, k), m)
    {
      SyncCrash(d, k);
    }
    SyncCrash(d, |ws|);
    assert ws[..|ws|] == ws;
  }

  lemma CrashedOne(d: Image, w: Write)
    requires w.sector < |d|
    ensures Fits(d, [w]) && Replay(d, [w]) == Apply(d, w)
    ensures Crashed(d, [w], 0) == d && Crashed(d, [w], 1) == Apply(d, w)
  {
    hide Apply;
    assert [w][..0] == [] && [w][..1] == [w];
  }

  lemma OneWriteStaged(d: Image, w: Write, before: View, after: View)
    requires w.sector < |d| && Shows(d, before) && Shows(Apply(d, w), after)
    ensures Staged(d, [w], [0, 1], [before, after]) && Replay(d, [w]) == Apply(d, w)
  {
    hide RecoversAs, Shows, Apply, Replay, Crashed, Fits;
    CrashedOne(d, w);
    ShowsRecovers(d, before);
    ShowsRecovers(Apply(d, w), after);
    var stage, views := [0, 1], [before, after];
    forall k | 0 <= k <= 1
      ensures stage[k] < 2 && RecoversAs(Crashed(d, [w], k), views[stage[k]])
    {
      assert k == 0 || k == 1;
    }
  }

  // One entry write that takes a valid tree to a valid tree, then a sync.
  lemma EntryStaged(d: Image, i: nat, e: Entry, r: Step, before: View, after: View)
    requires Shows(d, before) && r.Planned? && EntryThenSync(d, i, e, r)
    requires Shows(SetEntry(d, i, e), after)
    ensures Staged(d, r.writes, Join([0, 1], seq(|r.writes|, _ => 0)), [before, after])
    ensures Fits(d, r.writes) && r.disk == Replay(d, r.writes) && Shows(r.disk, after)
  {
    hide ValidTree, VolumeOf, ViewOf, SyncWrites, AfterSync, Mounted, Staged, Replay, EntryWrite, Shows;
    var w, d1 := EntryWrite(d, i, e), SetEntry(d, i, e);
    var ws := SyncWrites(d1);
    OneWriteStaged(d, w, before, after);
    SyncStaged(d1, after);
    ReplayConcat(d, [w], ws);
    StagedConcat(d, [w], [0, 1], [before, after], ws, seq(|ws| + 1, _ => 0), [after]);
    assert [before, after] + [after][1..] == [before, after];
  }
}
