// The ZenovFS1 entry table and the in-place repair that `recover` performs on it.
module EntryTable {
  import opened Bytes

  const FILE: Byte := 1
  const DIRECTORY: Byte := 2
  const TRANSACTION: Byte := 3
  const COMMITTED: U16 := 1
  const NO_ENTRY: U32 := 0xFFFF_FFFF

  type Name = s: seq<char> | |s| == 48 witness seq(48, _ => '\0')

  // One 64-byte directory entry.
  datatype Entry = Entry(used: Byte, kind: Byte, flags: U16, name: Name, size: U32, checksum: U32, reserved: U32)

  type Table = seq<Entry>

  function NoName(): (r: Name)
    ensures forall i :: 0 <= i < 48 ==> r[i] == '\0'
  {
    seq(48, _ => '\0')
  }

  // The all-zero entry, `Entry{}`.
  function Empty(): (r: Entry)
    ensures r.used == 0
  {
    Entry(0, 0, 0, NoName(), 0, 0, 0)
  }

  predicate Pending(e: Entry) {
    e.used != 0 && e.kind == TRANSACTION
  }

  predicate Committed(e: Entry) {
    e.used != 0 && e.kind == FILE && e.flags % 2 == COMMITTED
  }

  // First pass after `i` iterations: transaction entries below `i` are dropped.
  function Dropped(t: Table, i: nat): (r: Table)
    ensures |r| == |t|
  {
    seq(|t|, j requires 0 <= j < |t| => if j < i && Pending(t[j]) then Empty() else t[j])
  }

  // The first whole-entry update of a second-pass iteration: the superseded entry is cleared.
  function Superseded(t: Table, i: nat): (r: Table)
    requires i < |t|
    ensures |r| == |t|
  {
    if Committed(t[i]) && t[i].reserved < |t| && t[i].reserved != i then t[t[i].reserved := Empty()] else t
  }

  // One second-pass iteration.
  function Settled1(t: Table, i: nat): (r: Table)
    requires i < |t|
    ensures |r| == |t|
  {
    if Committed(t[i]) then Superseded(t, i)[i := t[i].(flags := 0, reserved := 0)] else t
  }

  // Second pass after `i` iterations.
  function Settled(t: Table, i: nat): (r: Table)
    requires i <= |t|
    ensures |r| == |t|
  {
    if i == 0 then t else Settled1(Settled(t, i - 1), i - 1)
  }

  function Recovered(t: Table): (r: Table)
    ensures |r| == |t|
  {
    Settled(Dropped(t, |t|), |t|)
  }

  ghost predicate NoPending(t: Table) {
    forall i :: 0 <= i < |t| ==> !Pending(t[i])
  }

  ghost predicate NoneCommitted(t: Table, lo: nat, hi: nat)
    requires hi <= |t|
  {
    forall i :: lo <= i < hi ==> !Committed(t[i])
  }

  lemma {:induction false} SettledFacts(t: Table, i: nat)
    requires NoPending(t) && i <= |t|
    ensures NoPending(Settled(t, i))
    ensures NoneCommitted(Settled(t, i), 0, i)
  {
    if i > 0 {
      SettledFacts(t, i - 1);
    }
  }

  lemma {:induction false} SettledIdle(t: Table, i: nat)
    requires i <= |t| && NoneCommitted(t, 0, i)
    ensures Settled(t, i) == t
  {
    if i > 0 {
      SettledIdle(t, i - 1);
    }
  }

  // The second pass depends only on the table it has reached, so it can be re-entered at `i`.
  lemma {:induction false} SettledResume(t: Table, m: Table, i: nat, j: nat)
    requires |m| == |t| && i <= j <= |t|
    requires Settled(m, i) == Settled(t, i)
    ensures Settled(m, j) == Settled(t, j)
  {
    if i < j {
      SettledResume(t, m, i, j - 1);
    }
  }

  lemma DroppedIdle(t: Table, i: nat)
    requires NoPending(t)
    ensures Dropped(t, i) == t
  {
  }

  // A table with no transaction entry and at most the entry `s` committed.
  lemma RecoveredSingle(t: Table, s: nat)
    requires NoPending(t) && s < |t|
    requires NoneCommitted(t, 0, s) && NoneCommitted(t, s + 1, |t|)
    ensures Recovered(t) == Settled1(t, s)
  {
    DroppedIdle(t, |t|);
    SettledIdle(t, s);
    var m := Settled1(t, s);
    assert Settled(t, s + 1) == m;
    SettledIdle(m, s + 1);
    SettledIdle(m, |t|);
    SettledResume(t, m, s + 1, |t|);
  }

  // After recovery no transaction entry and no committed flag is left.
  lemma RecoveredIsSettled(t: Table)
    ensures NoPending(Recovered(t))
    ensures NoneCommitted(Recovered(t), 0, |t|)
  {
    SettledFacts(Dropped(t, |t|), |t|);
  }

  // Stopping in the first pass and starting over gives the same table.
  lemma RestartInFirstPass(t: Table, i: nat)
    requires i <= |t|
    ensures Recovered(Dropped(t, i)) == Recovered(t)
  {
    assert Dropped(Dropped(t, i), |t|) == Dropped(t, |t|);
  }

  // Stopping in the second pass, either between two iterations or between the two
  // whole-entry updates of iteration `i`, and starting over gives the same table.
  lemma RestartInSecondPass(t: Table, i: nat)
    requires i <= |t|
    ensures Recovered(Settled(Dropped(t, |t|), i)) == Recovered(t)
    ensures i < |t| ==> Recovered(Superseded(Settled(Dropped(t, |t|), i), i)) == Recovered(t)
  {
    var c := Dropped(t, |t|);
    var m := Settled(c, i);
    SettledFacts(c, i);
    DroppedIdle(m, |t|);
    SettledIdle(m, i);
    SettledResume(c, m, i, |t|);
    if i < |t| {
      var h := Superseded(m, i);
      DroppedIdle(h, |t|);
      SettledIdle(h, i);
      assert Superseded(h, i) == h;
      assert Settled1(h, i) == Settled1(m, i);
      SettledResume(c, h, i + 1, |t|);
    }
  }

  lemma RecoveredIdempotent(t: Table)
    ensures Recovered(Recovered(t)) == Recovered(t)
  {
    RestartInSecondPass(t, |t|);
  }

  ghost predicate AnyPending(t: Table, n: nat)
    requires n <= |t|
  {
    exists i :: 0 <= i < n && Pending(t[i])
  }

  ghost predicate AnyCommitted(t: Table, n: nat)
    requires n <= |t|
  {
    exists i :: 0 <= i < n && Committed(t[i])
  }

  // First loop of `recover`.
  method DropTransactions(table: array<Entry>) returns (changed: bool)
    modifies table
    ensures table[..] == Dropped(old(table[..]), table.Length)
    ensures changed <==> AnyPending(old(table[..]), table.Length)
  {
    ghost var before := table[..];
    changed := false;
    var i := 0;
    while i < table.Length
      invariant i <= table.Length
      invariant table[..] == Dropped(before, i)
      invariant changed <==> AnyPending(before, i)
    {
      assert table[i] == before[i];
      if table[i].used != 0 && table[i].kind == TRANSACTION {
        table[i] := Empty();
        changed := true;
      }
      i := i + 1;
      assert table[..] == Dropped(before, i);
    }
  }

  // Second loop of `recover`.
  method SettleCommitted(table: array<Entry>) returns (changed: bool)
    modifies table
    ensures table[..] == Settled(old(table[..]), table.Length)
    ensures changed <==> AnyCommitted(old(table[..]), table.Length)
  {
    ghost var before := table[..];
    changed := false;
    var i := 0;
    while i < table.Length
      invariant i <= table.Length
      invariant table[..] == Settled(before, i)
      invariant changed <==> AnyCommitted(before, i)
    {
      ghost var t := table[..];
      var entry := table[i];
      SettledIdleUnlessCommitted(before, i);
      if entry.used != 0 && entry.kind == FILE && entry.flags % 2 == COMMITTED {
        StillCommitted(before, i, i);
        if entry.reserved < table.Length && entry.reserved != i {
          table[entry.reserved] := Empty();
        }
        assert table[..] == Superseded(t, i);
        table[i] := table[i].(flags := 0, reserved := 0);
        changed := true;
      }
      i := i + 1;
      assert table[..] == Settled1(t, i - 1);
    }
  }

  lemma SettledIdleUnlessCommitted(t: Table, i: nat)
    requires i <= |t|
    ensures AnyCommitted(t, i) || Settled(t, i) == t
  {
    if !AnyCommitted(t, i) {
      SettledIdle(t, i);
    }
  }

  // `recover` of the replacement fault tool on a table held in an array.
  // It reports a change exactly when the table held a transaction entry or a committed flag.
  method RecoverTable(table: array<Entry>) returns (changed: bool)
    modifies table
    ensures table[..] == Recovered(old(table[..]))
    ensures changed <==> AnyPending(old(table[..]), table.Length) || AnyCommitted(old(table[..]), table.Length)
  {
    ghost var before := table[..];
    var dropped := DropTransactions(table);
    assert forall j :: 0 <= j < |before| ==> (Committed(table[..][j]) <==> Committed(before[j]));
    var settled := SettleCommitted(table);
    changed := dropped || settled;
  }

  // The second pass never creates a committed entry.
  lemma {:induction false} StillCommitted(t: Table, i: nat, j: nat)
    requires i <= |t| && j < |t| && Committed(Settled(t, i)[j])
    ensures Committed(t[j])
  {
    if i > 0 {
      StillCommitted(t, i - 1, j);
    }
  }
}
