// Lookup, recovery and planning routines of the transport fault tool, over an image that is
// overwritten sector by sector.
module FilePlanner {
  import opened Bytes
  import opened EntryTable
  import opened Volume
  import opened Disk

  datatype Lookup = Missing | Found(index: nat) | Fault
  ghost predicate Visible(e: Entry) {
    e.used != 0 && e.kind != TRANSACTION
  }

  ghost predicate Matches(t: Table, i: int, p: string) {
    0 <= i < |t| && Visible(t[i]) && Terminated(t[i]) && PathOf(t[i]) == p
  }

  // What makes `find_entry` throw: an unterminated path, or the path twice.
  ghost predicate FaultyFor(t: Table, p: string) {
    || (exists i :: 0 <= i < |t| && Visible(t[i]) && !Terminated(t[i]))
    || (exists i, j :: i < j && Matches(t, i, p) && Matches(t, j, p))
  }

  method FindEntry(d: Image, path: string) returns (r: Lookup)
    requires Mounted(d)
    ensures r.Fault? <==> FaultyFor(VolumeOf(d).table, path)
    ensures r.Found? ==> r.index < d[0].block.entryCount && Matches(VolumeOf(d).table, r.index, path)
    ensures r.Missing? ==> forall i :: !Matches(VolumeOf(d).table, i, path)
  {
    ghost var t := VolumeOf(d).table;
    r := Missing;
    var i := 0;
    while i < d[0].block.entryCount
      invariant i <= |t|
      invariant !r.Fault?
      invariant r.Found? ==> r.index < i && Matches(t, r.index, path)
      invariant forall j :: 0 <= j < i && Matches(t, j, path) ==> r == Found(j)
      invariant forall j :: 0 <= j < i && Visible(t[j]) ==> Terminated(t[j])
    {
      var e := EntryAt(d, i);
      assert e == t[i];
      if e.used != 0 && e.kind != TRANSACTION {
        if '\0' !in e.name {
          return Fault;
        }
        if PathOf(e) == path {
          if r.Found? {
            assert Matches(t, r.index, path) && Matches(t, i, path);
            return Fault;
          }
          r := Found(i);
        }
      }
      i := i + 1;
    }
  }

  // In a valid tree the lookup never throws and agrees with the view.
  lemma LookupInValidTree(v: Volume, p: string)
    requires ValidTree(v)
    ensures !FaultyFor(v.table, p)
    ensures forall i :: Matches(v.table, i, p) <==> At(v.table, i, p)
    ensures p in ViewOf(v) <==> exists i :: Matches(v.table, i, p)
  {
    forall i | 0 <= i < |v.table| && v.table[i].used != 0
      ensures Visible(v.table[i]) && Terminated(v.table[i])
    {
      assert EntryValid(v, i);
    }
    if p in ViewOf(v) {
      var i := ViewIndex(v, p);
      assert Matches(v.table, i, p);
    }
    if i :| Matches(v.table, i, p) {
      ViewSome(v, i, p);
    }
  }

  method FindFree(d: Image, excluded: int) returns (r: int)
    requires Mounted(d)
    ensures -1 <= r < d[0].block.entryCount
    ensures r >= 0 ==> r != excluded && VolumeOf(d).table[r].used == 0
    ensures forall i :: 0 <= i < (if r >= 0 then r else d[0].block.entryCount) ==>
              i == excluded || VolumeOf(d).table[i].used != 0
  {
    ghost var t := VolumeOf(d).table;
    var i := 0;
    while i < d[0].block.entryCount
      invariant i <= |t|
      invariant forall j :: 0 <= j < i ==> j == excluded || t[j].used != 0
    {
      assert EntryAt(d, i) == t[i];
      if i != excluded && EntryAt(d, i).used == 0 {
        return i;
      }
      i := i + 1;
    }
    return -1;
  }

  lemma TableEntry(d: Image, i: nat)
    requires Mounted(d) && i < d[0].block.entryCount
    ensures EntryAt(d, i) == VolumeOf(d).table[i]
  {
  }

  // The entry `read_file` accepts, and the bytes it returns.
  ghost predicate Readable(v: Volume, i: nat)
    requires Sized(v) && i < |v.table|
  {
    var e := v.table[i];
    e.kind == FILE && e.flags == 0 && e.size <= v.cap && e.size <= |v.slots[i]| &&
      Fnv1a(v.slots[i][..e.size]) == e.checksum
  }

  method ReadFile(d: Image, path: string) returns (r: Option<seq<Byte>>)
    requires Mounted(d)
    ensures r.Some? ==>
              && !FaultyFor(VolumeOf(d).table, path)
              && exists i :: Matches(VolumeOf(d).table, i, path) && Readable(VolumeOf(d), i)
                             && r.value == VolumeOf(d).slots[i][..VolumeOf(d).table[i].size]
    ensures r.None? && !FaultyFor(VolumeOf(d).table, path) ==>
              forall i :: Matches(VolumeOf(d).table, i, path) ==> !Readable(VolumeOf(d), i)
  {
    ghost var v := VolumeOf(d);
    var f := FindEntry(d, path);
    if !f.Found? {
      return None;
    }
    var b := d[0].block;
    var e := EntryAt(d, f.index);
    assert e == v.table[f.index];
    var start := SlotStart(b, f.index);
    SlotInside(b, f.index, b.entryCount);
    if e.kind != FILE || e.flags != 0 || e.size > b.slotSectors * SECTOR % 0x1_0000_0000 {
      NoOtherMatch(v.table, path, f.index);
      return None;
    }
    var bytes := ReadSectors(d, start, b.slotSectors)[..e.size];
    assert bytes == v.slots[f.index][..e.size];
    if Fnv1a(bytes) != e.checksum {
      NoOtherMatch(v.table, path, f.index);
      return None;
    }
    assert Matches(v.table, f.index, path) && Readable(v, f.index);
    return Some(bytes);
  }

  lemma NoOtherMatch(t: Table, p: string, i: nat)
    requires !FaultyFor(t, p) && Matches(t, i, p)
    ensures forall j :: Matches(t, j, p) ==> j == i
  {
  }

  // In a valid tree `read_file` returns exactly the files of the view.
  lemma ReadInValidTree(v: Volume, p: string, i: nat)
    requires ValidTree(v) && Matches(v.table, i, p)
    ensures p in ViewOf(v) && ViewOf(v)[p] == NodeAt(v, i)
    ensures Readable(v, i) <==> ViewOf(v)[p].File?
  {
    ViewSome(v, i, p);
    assert EntryValid(v, i);
  }

  // `recover` over the image, entry by entry in its metadata sectors.
  method RecoverImage(d: Image) returns (r: Image)
    requires Mounted(d)
    ensures Mounted(r) && r[0] == d[0] && |r| == |d|
    ensures VolumeOf(r) == RecoveredVolume(VolumeOf(d))
  {
    hide VolumeOf, EntryAt, SetEntry, Mounted;
    ghost var v := VolumeOf(d);
    var n := d[0].block.entryCount;
    r := d;
    var i := 0;
    while i < n
      invariant i <= n && Mounted(r) && r[0] == d[0] && |r| == |d|
      invariant VolumeOf(r) == v.(table := Dropped(v.table, i))
    {
      TableEntry(r, i);
      var e := EntryAt(r, i);
      if e.used != 0 && e.kind == TRANSACTION {
        SetEntryVolume(r, i, Empty());
        r := SetEntry(r, i, Empty());
      }
      i := i + 1;
      assert VolumeOf(r).table == Dropped(v.table, i);
    }
    i := 0;
    ghost var c := Dropped(v.table, n);
    while i < n
      invariant i <= n && Mounted(r) && r[0] == d[0] && |r| == |d|
      invariant VolumeOf(r) == v.(table := Settled(c, i))
    {
      r := SettleEntry(r, i);
      i := i + 1;
    }
  }

  // One iteration of the second loop of `recover`.
  method SettleEntry(d: Image, i: nat) returns (r: Image)
    requires Mounted(d) && i < d[0].block.entryCount
    ensures Mounted(r) && r[0] == d[0] && |r| == |d|
    ensures VolumeOf(r) == VolumeOf(d).(table := Settled1(VolumeOf(d).table, i))
  {
    ghost var t := VolumeOf(d).table;
    r := d;
    var e := EntryAt(d, i);
    assert e == t[i];
    if e.used != 0 && e.kind == FILE && e.flags % 2 == COMMITTED {
      if e.reserved < d[0].block.entryCount && e.reserved != i {
        SetEntryVolume(r, e.reserved, Empty());
        r := SetEntry(r, e.reserved, Empty());
      }
      assert VolumeOf(r).table == Superseded(t, i);
      SetEntryVolume(r, i, e.(flags := 0, reserved := 0));
      r := SetEntry(r, i, e.(flags := 0, reserved := 0));
    }
  }

  // One used entry of the first loop of `valid_tree`.
  method CheckEntry(d: Image, i: nat) returns (ok: bool)
    requires Mounted(d) && i < d[0].block.entryCount
    ensures ok <==> EntryValid(VolumeOf(d), i)
  {
    var b := d[0].block;
    var e := EntryAt(d, i);
    assert e == VolumeOf(d).table[i];
    if (e.kind != FILE && e.kind != DIRECTORY) || e.flags != 0 || '\0' !in e.name || !Safe(PathOf(e)) {
      return false;
    }
    if e.kind == DIRECTORY {
      return e.size == 0 && e.checksum == 0;
    }
    if e.size > b.slotSectors * SECTOR % 0x1_0000_0000 {
      return false;
    }
    SlotInside(b, i, b.entryCount);
    return Fnv1a(ReadSectors(d, SlotStart(b, i), b.slotSectors)[..e.size]) == e.checksum;
  }

  ghost predicate AllValid(v: Volume) {
    Sized(v) && forall j :: 0 <= j < |v.table| && v.table[j].used != 0 ==> EntryValid(v, j)
  }

  ghost predicate UnderDirectory(t: Table, p: string) {
    LastSlash(p) == 0 || (p != [] && IsDirectory(t, p[..LastSlash(p)]))
  }

  // `valid_tree` on an image whose geometry has been accepted.
  method CheckTree(d: Image) returns (ok: bool)
    requires Mounted(d)
    ensures ok <==> ValidTree(VolumeOf(d))
  {
    hide VolumeOf, PathFrom, LastSlash, Mounted, PathsUpTo;
    ghost var v := VolumeOf(d);
    var good, paths := CollectPaths(d);
    if !good {
      return false;
    }
    var i := 0;
    while i < |paths|
      invariant i <= |paths|
      invariant forall j :: 0 <= j < i ==> UnderDirectory(v.table, paths[j])
    {
      PathsUpToMembers(v.table, |v.table|, paths[i]);
      ghost var k :| k < |v.table| && At(v.table, k, paths[i]);
      assert EntryValid(v, k);
      var under := CheckParent(d, paths[i]);
      if !under {
        return false;
      }
      i := i + 1;
    }
    forall j | 0 <= j < |v.table| && v.table[j].used != 0
      ensures UnderDirectory(v.table, PathOf(v.table[j]))
    {
      assert At(v.table, j, PathOf(v.table[j]));
      PathsUpToMembers(v.table, |v.table|, PathOf(v.table[j]));
    }
    return true;
  }

  // The paths of the used entries below `n`, in table order.
  function PathsUpTo(t: Table, n: nat): (paths: seq<string>)
    requires n <= |t|
  {
    if n == 0 then []
    else if t[n - 1].used != 0 then PathsUpTo(t, n - 1) + [PathOf(t[n - 1])]
    else PathsUpTo(t, n - 1)
  }

  lemma {:induction false} PathsUpToMembers(t: Table, n: nat, p: string)
    requires n <= |t|
    ensures p in PathsUpTo(t, n) <==> exists i :: i < n && At(t, i, p)
  {
    if n > 0 {
      PathsUpToMembers(t, n - 1, p);
      assert At(t, n - 1, p) <==> t[n - 1].used != 0 && PathOf(t[n - 1]) == p;
    }
  }

  ghost predicate GoodUpTo(v: Volume, n: nat)
    requires Sized(v) && n <= |v.table|
  {
    && (forall j :: 0 <= j < n && v.table[j].used != 0 ==> EntryValid(v, j))
    && (forall j, k :: 0 <= j < k < n && v.table[j].used != 0 && v.table[k].used != 0 ==>
      PathOf(v.table[j]) != PathOf(v.table[k]))
  }

  // First loop of `valid_tree`: each used entry by itself, and no path twice.
  method CollectPaths(d: Image) returns (ok: bool, paths: seq<string>)
    requires Mounted(d)
    ensures ok <==> AllValid(VolumeOf(d)) && Distinct(VolumeOf(d).table)
    ensures ok ==> paths == PathsUpTo(VolumeOf(d).table, |VolumeOf(d).table|)
  {
    hide VolumeOf, EntryValid, EntryAt, PathFrom, Mounted;
    ghost var v := VolumeOf(d);
    paths := [];
    var i := 0;
    while i < d[0].block.entryCount
      invariant i <= |v.table| && GoodUpTo(v, i)
      invariant paths == PathsUpTo(v.table, i)
    {
      var e := EntryAt(d, i);
      TableEntry(d, i);
      if e.used != 0 {
        var good := CheckEntry(d, i);
        PathsUpToMembers(v.table, i, PathOf(e));
        if !good || PathOf(e) in paths {
          return false, paths;
        }
        paths := paths + [PathOf(e)];
      }
      assert GoodUpTo(v, i + 1) by {
        assert forall j :: 0 <= j < i && v.table[j].used != 0 && e.used != 0 && PathOf(v.table[j]) == PathOf(e) ==>
          At(v.table, j, PathOf(e));
      }
      i := i + 1;
    }
    return true, paths;
  }

  // One path of the second loop of `valid_tree`.
  method CheckParent(d: Image, p: string) returns (ok: bool)
    requires Mounted(d) && p != []
    requires AllValid(VolumeOf(d)) && Distinct(VolumeOf(d).table)
    ensures ok <==> UnderDirectory(VolumeOf(d).table, p)
  {
    ghost var v := VolumeOf(d);
    if LastSlash(p) == 0 {
      return true;
    }
    var q := p[..LastSlash(p)];
    var f := FindEntry(d, q);
    assert !FaultyFor(v.table, q) by {
      assert forall j :: 0 <= j < |v.table| && v.table[j].used != 0 ==> EntryValid(v, j);
    }
    assert forall j :: At(v.table, j, q) ==> EntryValid(v, j) && Matches(v.table, j, q);
    if f.Missing? {
      return false;
    }
    NoOtherMatch(v.table, q, f.index);
    assert EntryAt(d, f.index) == v.table[f.index];
    return EntryAt(d, f.index).kind == DIRECTORY;
  }
}
