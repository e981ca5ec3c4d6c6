// Copy-on-write replacement of one file, seen as entry-table states: what `recover` makes
// of the volume a crash leaves behind at each point of the protocol.
module CowCommit {
  import opened Bytes
  import opened EntryTable
  import opened Volume

  // `v` and `w` have the same slots except possibly slot `s`.
  ghost predicate SlotsBut(v: Volume, w: Volume, s: int) {
    && Sized(v) && |w.slots| == |v.slots| && w.cap == v.cap
    && forall i :: 0 <= i < |v.slots| && i != s ==> w.slots[i] == v.slots[i]
  }

  // A replacement the protocol may start: `o` is the entry of `p`, -1 when `p` is new; `s` is free.
  ghost predicate Startable(v: Volume, p: string, o: int, s: nat) {
    && ValidTree(v) && |v.table| <= 128 && v.cap < 0x1_0000_0000
    && Settable(p) && '\0' !in p
    && s < |v.table| && v.table[s].used == 0
    && -1 <= o < |v.table|
    && (o >= 0 ==> At(v.table, o, p) && v.table[o].kind == FILE)
    && (o < 0 ==> p !in ViewOf(v))
  }

  function Reserved(o: int): (r: U32)
    requires -1 <= o < 128
  {
    if o >= 0 then o else NO_ENTRY
  }

  function FinalTable(t: Table, p: string, data: seq<Byte>, o: int, s: nat): (r: Table)
    requires |p| < 48 && s < |t| && -1 <= o < |t|
    ensures |r| == |t|
  {
    (if o >= 0 then t[o := Empty()] else t)[s := FinalEntry(p, data)]
  }

  // Before the transaction entry: whatever the staging slot holds, the old tree comes back.
  lemma PayloadRecoversOld(v: Volume, w: Volume, s: nat)
    requires ValidTree(v) && s < |v.table| && v.table[s].used == 0
    requires SlotsBut(v, w, s) && w.table == v.table
    ensures RecoversTo(w, ViewOf(v))
  {
    assert Agree(v, w);
    AgreeSameTree(v, w);
    ValidIsIdle(w);
  }

  // With the transaction entry written: still the old tree, whatever the slot holds.
  lemma TransactionRecoversOld(v: Volume, w: Volume, s: nat, e: Entry)
    requires ValidTree(v) && s < |v.table| && v.table[s].used == 0
    requires SlotsBut(v, w, s) && w.table == v.table[s := e] && Pending(e)
    ensures RecoversTo(w, ViewOf(v))
  {
    var r := RecoveredVolume(w);
    var c := v.table[s := Empty()];
    assert Dropped(w.table, |w.table|) == c by {
      assert forall i :: 0 <= i < |v.table| && v.table[i].used != 0 ==> EntryValid(v, i);
    }
    assert NoneCommitted(c, 0, |c|) by {
      assert forall i :: 0 <= i < |v.table| && v.table[i].used != 0 ==> EntryValid(v, i);
    }
    SettledIdle(c, |c|);
    assert r.table == c;
    assert Agree(v, r);
    AgreeSameTree(v, r);
  }

  lemma ValidQuiet(v: Volume)
    requires ValidTree(v)
    ensures NoPending(v.table) && NoneCommitted(v.table, 0, |v.table|)
  {
    assert forall i :: 0 <= i < |v.table| && v.table[i].used != 0 ==> EntryValid(v, i);
  }

  // From the committed entry on, all three on-disk tables recover to the same final table.
  lemma CommittedRecoversFinal(v: Volume, p: string, data: seq<Byte>, o: int, s: nat)
    requires Startable(v, p, o, s)
    ensures var e := CommittedStage(p, data, Reserved(o));
            var f := FinalTable(v.table, p, data, o, s);
            && Recovered(v.table[s := e]) == f
            && (o >= 0 ==> Recovered(v.table[s := e][o := Empty()]) == f)
            && Recovered(f) == f
  {
    ValidQuiet(v);
    var e := CommittedStage(p, data, Reserved(o));
    var f := FinalTable(v.table, p, data, o, s);
    var t := v.table[s := e];
    RecoveredSingle(t, s);
    assert Settled1(t, s) == f;
    if o >= 0 {
      var u := t[o := Empty()];
      RecoveredSingle(u, s);
      assert Settled1(u, s) == f;
    }
    RecoveredSingle(f, s);
  }

  ghost predicate Holds(slot: seq<Byte>, data: seq<Byte>) {
    |data| <= |slot| && slot[..|data|] == data
  }

  lemma ExistingHasParent(v: Volume, o: nat)
    requires ValidTree(v) && o < |v.table| && v.table[o].used != 0
    ensures ParentPresent(ViewOf(v), PathOf(v.table[o]))
  {
    var p := PathOf(v.table[o]);
    assert EntryValid(v, o);
    if LastSlash(p) != 0 {
      var j :| 0 <= j < |v.table| && v.table[j].used != 0 && v.table[j].kind == DIRECTORY &&
        PathOf(v.table[j]) == p[..LastSlash(p)];
      ViewSome(v, j, Parent(p));
    }
  }

  // The final volume is a change of one file.
  lemma FinalIsChange(v: Volume, w: Volume, p: string, data: seq<Byte>, o: int, s: nat)
    requires Startable(v, p, o, s)
    requires SlotsBut(v, w, s) && w.table == FinalTable(v.table, p, data, o, s)
    ensures FileChange(v, w, o, s) && PathOf(w.table[s]) == p
    ensures p !in Without(v, o)
    ensures With(Without(v, o), w, s) == ViewOf(v)[p := NodeAt(w, s)]
  {
    FinalEntryPath(p, data);
  }

  // The replacement can take effect: the content fits the capacity that the readers compute, and
  // the directory of the path is there.
  ghost predicate Lands(v: Volume, p: string, data: seq<Byte>)
    requires Sized(v)
  {
    |data| <= v.cap && ParentPresent(ViewOf(v), p)
  }

  // The final volume shows the new content exactly when the replacement can take effect.
  lemma FinalShowsNew(v: Volume, w: Volume, p: string, data: seq<Byte>, o: int, s: nat)
    requires Startable(v, p, o, s)
    requires SlotsBut(v, w, s) && w.table == FinalTable(v.table, p, data, o, s)
    requires Holds(w.slots[s], data)
    ensures (ValidTree(w) && ViewOf(w) == ViewOf(v)[p := File(data)]) <==> Lands(v, p, data)
  {
    hide ViewOf, ValidTree, NodeAt, EntryValid, FileChange, Without, With, Holds, FinalEntry, ParentPresent;
    FinalIsChange(v, w, p, data, o, s);
    ValidIsSized(v);
    FileChangeView(v, w, o, s);
    FinalStored(w, p, data, s);
    if Lands(v, p, data) {
      FileChangeValid(v, w, o, s);
    } else if ValidTree(w) {
      FileChangeParent(v, w, o, s);
      ValidEntry(w, s);
      assert ViewOf(w)[p] == NodeAt(w, s);
    }
  }

  lemma ValidIsSized(v: Volume)
    requires ValidTree(v)
    ensures Sized(v)
  {
  }

  lemma ValidEntry(v: Volume, i: nat)
    requires ValidTree(v) && i < |v.table| && v.table[i].used != 0
    ensures EntryValid(v, i)
  {
  }

  // The final entry is valid and shows its data when the data fits; a valid one that does not
  // fit shows something shorter.
  lemma FinalStored(w: Volume, p: string, data: seq<Byte>, s: nat)
    requires Sized(w) && s < |w.table| && Settable(p) && '\0' !in p && w.cap < 0x1_0000_0000
    requires w.table[s] == FinalEntry(p, data) && Holds(w.slots[s], data)
    ensures w.table[s].used != 0
    ensures |data| <= w.cap ==> EntryValid(w, s) && NodeAt(w, s) == File(data)
    ensures |data| > w.cap && EntryValid(w, s) ==> NodeAt(w, s) != File(data)
  {
    hide Safe, Fnv1a, PathOf, Padded, Terminated;
    FinalEntryPath(p, data);
  }
}
