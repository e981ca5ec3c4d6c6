// The tree a ZenovFS1 image denotes: entry table, one data slot per entry, `valid_tree`
// and the path map a reader of a valid tree sees.
module Volume {
  import opened Bytes
  import opened Checksum
  import opened EntryTable

  // `cap` is the slot capacity as the readers compute it (slot_sectors * 512 in 32 bits).
  datatype Volume = Volume(cap: nat, table: Table, slots: seq<seq<Byte>>)

  datatype Node = File(bytes: seq<Byte>) | Directory

  type View = map<string, Node>

  // ---- paths ----

  function PathFrom(name: seq<char>): (p: string)
  {
    if name == [] || name[0] == '\0' then [] else [name[0]] + PathFrom(name[1..])
  }

  // `entry_path`: the bytes before the first NUL.
  function PathOf(e: Entry): (p: string)
  {
    PathFrom(e.name)
  }

  predicate Terminated(e: Entry) {
    '\0' in e.name
  }

  predicate Safe(p: string) {
    && |p| >= 2 && p[0] == '/' && p[|p| - 1] != '/'
    && forall i {:trigger p[i]} :: 0 <= i < |p| - 1 ==> !(p[i] == '/' && p[i + 1] == '/')
  }

  // What `set_path` accepts.
  predicate Settable(p: string) {
    Safe(p) && |p| < 48
  }

  function Padded(p: string): (n: Name)
    requires |p| < 48
  {
    p + seq(48 - |p|, _ => '\0')
  }

  lemma {:induction false} PathFromPadded(p: string, k: nat)
    requires '\0' !in p
    ensures PathFrom(p + seq(k, _ => '\0')) == p
  {
    var name := p + seq(k, _ => '\0');
    if p != [] {
      assert name[1..] == p[1..] + seq(k, _ => '\0');
      PathFromPadded(p[1..], k);
    }
  }

  function LastSlash(p: string): (i: nat)
    ensures p != [] ==> i < |p|
  {
    if |p| <= 1 then 0 else if p[|p| - 1] == '/' then |p| - 1 else LastSlash(p[..|p| - 1])
  }

  function Parent(p: string): (q: string)
    requires p != []
  {
    p[..LastSlash(p)]
  }

  ghost predicate ParentPresent(v: View, p: string) {
    p != [] && (LastSlash(p) == 0 || (Parent(p) in v && v[Parent(p)].Directory?))
  }

  // ---- valid_tree ----

  ghost predicate Sized(v: Volume) {
    |v.slots| == |v.table|
  }

  ghost predicate EntryValid(v: Volume, i: nat)
    requires Sized(v) && i < |v.table|
  {
    var e := v.table[i];
    && (e.kind == FILE || e.kind == DIRECTORY) && e.flags == 0
    && Terminated(e) && Safe(PathOf(e))
    && (e.kind == DIRECTORY ==> e.size == 0 && e.checksum == 0)
    && (e.kind == FILE ==>
          && e.size <= v.cap && e.size <= |v.slots[i]|
          && Fnv1a(v.slots[i][..e.size]) == e.checksum)
  }

  ghost predicate IsDirectory(t: Table, p: string) {
    exists j :: 0 <= j < |t| && t[j].used != 0 && t[j].kind == DIRECTORY && PathOf(t[j]) == p
  }

  ghost predicate Distinct(t: Table) {
    forall i, j :: 0 <= i < j < |t| && t[i].used != 0 && t[j].used != 0 ==> PathOf(t[i]) != PathOf(t[j])
  }

  ghost predicate ValidTree(v: Volume) {
    && Sized(v)
    && (forall i :: 0 <= i < |v.table| && v.table[i].used != 0 ==> EntryValid(v, i))
    && Distinct(v.table)
    && (forall i :: 0 <= i < |v.table| && v.table[i].used != 0 ==>
          var p := PathOf(v.table[i]); LastSlash(p) == 0 || IsDirectory(v.table, p[..LastSlash(p)]))
  }

  // One damaged byte of one file, and the tree is refused.
  lemma DamagedByteRefused(v: Volume, i: nat, k: nat, slot: seq<Byte>)
    requires ValidTree(v) && i < |v.table| && v.table[i].used != 0 && v.table[i].kind == FILE
    requires k < v.table[i].size <= |v.slots[i]| == |slot| && slot[k] != v.slots[i][k]
    requires slot == v.slots[i][k := slot[k]]
    ensures !ValidTree(v.(slots := v.slots[i := slot]))
  {
    hide Fnv1a;
    var n := v.table[i].size;
    var damaged := v.(slots := v.slots[i := slot]);
    assert EntryValid(v, i);
    OneByteDetected(v.slots[i][..n], k, slot[k]);
    assert slot[..n] == v.slots[i][..n][k := slot[k]];
    assert Sized(damaged) && !EntryValid(damaged, i);
  }

  ghost function NodeAt(v: Volume, i: nat): (n: Node)
    requires Sized(v) && i < |v.table|
  {
    if v.table[i].kind == FILE && v.table[i].size <= |v.slots[i]|
    then File(v.slots[i][..v.table[i].size]) else Directory
  }

  ghost function ViewUpTo(v: Volume, n: nat): (m: View)
    requires Sized(v) && n <= |v.table|
  {
    if n == 0 then map[]
    else if v.table[n - 1].used != 0 then ViewUpTo(v, n - 1)[PathOf(v.table[n - 1]) := NodeAt(v, n - 1)]
    else ViewUpTo(v, n - 1)
  }

  // What a reader sees: every used entry's path with its node.
  ghost function ViewOf(v: Volume): (m: View)
    requires Sized(v)
  {
    ViewUpTo(v, |v.table|)
  }

  ghost predicate At(t: Table, i: int, p: string) {
    0 <= i < |t| && t[i].used != 0 && PathOf(t[i]) == p
  }

  lemma {:induction false} ViewUpToSome(v: Volume, n: nat, i: nat)
    requires Sized(v) && Distinct(v.table) && i < n <= |v.table| && v.table[i].used != 0
    ensures PathOf(v.table[i]) in ViewUpTo(v, n) && ViewUpTo(v, n)[PathOf(v.table[i])] == NodeAt(v, i)
  {
    if i < n - 1 {
      ViewUpToSome(v, n - 1, i);
    }
  }

  lemma {:induction false} ViewUpToIndex(v: Volume, n: nat, p: string) returns (i: nat)
    requires Sized(v) && n <= |v.table| && p in ViewUpTo(v, n)
    ensures i < n && At(v.table, i, p)
  {
    if v.table[n - 1].used != 0 && PathOf(v.table[n - 1]) == p {
      i := n - 1;
    } else {
      i := ViewUpToIndex(v, n - 1, p);
    }
  }

  // A path is in the view exactly when a used entry carries it, and it shows that entry's node.
  lemma ViewSome(v: Volume, i: nat, p: string)
    requires Sized(v) && Distinct(v.table) && At(v.table, i, p)
    ensures p in ViewOf(v) && ViewOf(v)[p] == NodeAt(v, i)
  {
    ViewUpToSome(v, |v.table|, i);
  }

  lemma ViewIndex(v: Volume, p: string) returns (i: nat)
    requires Sized(v) && Distinct(v.table) && p in ViewOf(v)
    ensures At(v.table, i, p) && ViewOf(v)[p] == NodeAt(v, i)
  {
    i := ViewUpToIndex(v, |v.table|, p);
    ViewSome(v, i, p);
  }

  lemma {:induction false} SameView(v: Volume, w: Volume, n: nat)
    requires Sized(v) && Sized(w) && |v.table| == |w.table| && n <= |v.table|
    requires forall i :: 0 <= i < n ==> SameAt(v, w, i)
    ensures ViewUpTo(v, n) == ViewUpTo(w, n)
  {
    if n > 0 {
      assert SameAt(v, w, n - 1);
      SameView(v, w, n - 1);
    }
  }

  ghost predicate SameAt(v: Volume, w: Volume, i: nat)
    requires Sized(v) && Sized(w) && i < |v.table| && i < |w.table|
  {
    && (v.table[i].used != 0 <==> w.table[i].used != 0)
    && (v.table[i].used != 0 ==> v.table[i] == w.table[i] && v.slots[i] == w.slots[i])
  }

  ghost function RecoveredVolume(v: Volume): (r: Volume) {
    v.(table := Recovered(v.table))
  }

  // `recover` turns this volume into a valid tree that shows `m`.
  ghost predicate RecoversTo(v: Volume, m: View) {
    var r := RecoveredVolume(v);
    ValidTree(r) && ViewOf(r) == m
  }

  // ---- facts about valid trees ----

  lemma ValidIsIdle(v: Volume)
    requires ValidTree(v)
    ensures Recovered(v.table) == v.table
    ensures RecoversTo(v, ViewOf(v))
  {
    DroppedIdle(v.table, |v.table|);
    SettledIdle(v.table, |v.table|);
  }

  // Two volumes that agree on every used entry and its slot denote the same tree.
  ghost predicate Agree(v: Volume, w: Volume) {
    && Sized(v) && Sized(w) && |v.table| == |w.table| && v.cap == w.cap
    && forall i :: 0 <= i < |v.table| ==> SameAt(v, w, i)
  }

  lemma AgreeSameTree(v: Volume, w: Volume)
    requires ValidTree(v) && Agree(v, w)
    ensures ValidTree(w) && ViewOf(w) == ViewOf(v)
  {
    forall i | 0 <= i < |w.table| && w.table[i].used != 0
      ensures EntryValid(w, i)
      ensures var p := PathOf(w.table[i]); LastSlash(p) == 0 || IsDirectory(w.table, p[..LastSlash(p)])
    {
      assert SameAt(v, w, i) && EntryValid(v, i);
      var p := PathOf(v.table[i]);
      if LastSlash(p) != 0 {
        var j :| 0 <= j < |v.table| && v.table[j].used != 0 && v.table[j].kind == DIRECTORY &&
          PathOf(v.table[j]) == p[..LastSlash(p)];
        assert SameAt(v, w, j);
      }
    }
    assert Distinct(w.table) by {
      forall i, j | 0 <= i < j < |w.table| && w.table[i].used != 0 && w.table[j].used != 0
        ensures PathOf(w.table[i]) != PathOf(w.table[j])
      {
        assert SameAt(v, w, i) && SameAt(v, w, j);
      }
    }
    SameView(v, w, |v.table|);
  }

  // ---- single-entry changes of a valid tree ----

  // A file entry as `write_file_plan` builds it, in its three stages.
  function Stage(p: string, data: seq<Byte>, prior: U32): (e: Entry)
    requires |p| < 48
  {
    Entry(1, TRANSACTION, 0, Padded(p), |data| % 0x1_0000_0000, Fnv1a(data), prior)
  }

  function CommittedStage(p: string, data: seq<Byte>, prior: U32): (e: Entry)
    requires |p| < 48
  {
    Stage(p, data, prior).(kind := FILE, flags := COMMITTED)
  }

  function FinalEntry(p: string, data: seq<Byte>): (e: Entry)
    requires |p| < 48
  {
    Stage(p, data, 0).(kind := FILE)
  }

  lemma FinalEntryPath(p: string, data: seq<Byte>)
    requires |p| < 48 && '\0' !in p
    ensures PathOf(FinalEntry(p, data)) == p && Terminated(FinalEntry(p, data))
  {
    PathFromPadded(p, 48 - |p|);
    assert Padded(p)[47] == '\0';
  }

  // `w` is `v` with the file entry `o` withdrawn (or none, -1) and the file entry `s` put in (or none, -1).
  ghost predicate FileChange(v: Volume, w: Volume, o: int, s: int) {
    && Sized(v) && Sized(w) && |w.table| == |v.table| && w.cap == v.cap
    && -1 <= o < |v.table| && -1 <= s < |v.table|
    && (forall i :: 0 <= i < |v.table| && i != o && i != s ==> w.table[i] == v.table[i] && w.slots[i] == v.slots[i])
    && (o >= 0 ==> v.table[o].used != 0 && v.table[o].kind == FILE)
    && (o >= 0 && o != s ==> w.table[o].used == 0)
    && (s >= 0 && o != s ==> v.table[s].used == 0)
    && (s >= 0 ==> w.table[s].used != 0 && w.table[s].kind == FILE)
  }

  ghost function Without(v: Volume, o: int): (m: View)
    requires Sized(v) && -1 <= o < |v.table|
  {
    if o >= 0 then ViewOf(v) - {PathOf(v.table[o])} else ViewOf(v)
  }

  ghost function With(m: View, w: Volume, s: int): (r: View)
    requires Sized(w) && -1 <= s < |w.table|
  {
    if s >= 0 then m[PathOf(w.table[s]) := NodeAt(w, s)] else m
  }

  lemma FileChangeDistinct(v: Volume, w: Volume, o: int, s: int)
    requires ValidTree(v) && FileChange(v, w, o, s)
    requires s >= 0 ==> PathOf(w.table[s]) !in Without(v, o)
    ensures Distinct(w.table)
  {
    forall i | 0 <= i < |w.table| && w.table[i].used != 0 && i != s
      ensures w.table[i] == v.table[i] && PathOf(w.table[i]) in Without(v, o)
    {
      ViewSome(v, i, PathOf(v.table[i]));
    }
  }

  lemma FileChangeView(v: Volume, w: Volume, o: int, s: int)
    requires ValidTree(v) && FileChange(v, w, o, s)
    requires s >= 0 ==> PathOf(w.table[s]) !in Without(v, o)
    ensures Distinct(w.table)
    ensures ViewOf(w) == With(Without(v, o), w, s)
  {
    FileChangeDistinct(v, w, o, s);
    var m, r := With(Without(v, o), w, s), ViewOf(w);
    forall p | p in r
      ensures p in m && m[p] == r[p]
    {
      var i := ViewIndex(w, p);
      if i != s {
        ViewSome(v, i, p);
      }
    }
    forall p | p in m
      ensures p in r
    {
      if s >= 0 && p == PathOf(w.table[s]) {
        ViewSome(w, s, p);
      } else {
        var i := ViewIndex(v, p);
        ViewSome(w, i, p);
      }
    }
  }

  lemma FileChangeValid(v: Volume, w: Volume, o: int, s: int)
    requires ValidTree(v) && FileChange(v, w, o, s)
    requires s >= 0 ==> EntryValid(w, s)
    requires s >= 0 ==> PathOf(w.table[s]) !in Without(v, o) && ParentPresent(ViewOf(v), PathOf(w.table[s]))
    ensures ValidTree(w)
  {
    FileChangeDistinct(v, w, o, s);
    forall i | 0 <= i < |w.table| && w.table[i].used != 0
      ensures EntryValid(w, i)
      ensures var p := PathOf(w.table[i]); LastSlash(p) == 0 || IsDirectory(w.table, p[..LastSlash(p)])
    {
      var p := PathOf(w.table[i]);
      if i != s {
        assert EntryValid(v, i);
      }
      if LastSlash(p) != 0 {
        var j := DirectoryIndex(v, p, i, s, w);
        assert w.table[j] == v.table[j];
      }
    }
  }

  // A changed tree that is valid has the new file's parent, which was there before.
  lemma FileChangeParent(v: Volume, w: Volume, o: int, s: nat)
    requires ValidTree(v) && FileChange(v, w, o, s) && ValidTree(w)
    ensures ParentPresent(ViewOf(v), PathOf(w.table[s]))
  {
    hide ViewOf;
    var p := PathOf(w.table[s]);
    assert EntryValid(w, s);
    if LastSlash(p) != 0 {
      assert IsDirectory(w.table, p[..LastSlash(p)]);
      var j :| 0 <= j < |w.table| && w.table[j].used != 0 && w.table[j].kind == DIRECTORY &&
        PathOf(w.table[j]) == p[..LastSlash(p)];
      ViewSome(v, j, Parent(p));
    }
  }


  // The directory above any entry of the changed tree, found in the tree before the change.
  lemma DirectoryIndex(v: Volume, p: string, i: nat, s: int, w: Volume) returns (j: nat)
    requires ValidTree(v) && Sized(w) && |w.table| == |v.table| && i < |v.table|
    requires p == PathOf(w.table[i]) && LastSlash(p) != 0
    requires i != s ==> v.table[i].used != 0 && w.table[i] == v.table[i]
    requires i == s ==> ParentPresent(ViewOf(v), p)
    ensures At(v.table, j, p[..LastSlash(p)]) && v.table[j].kind == DIRECTORY
  {
    if i == s {
      j := ViewIndex(v, Parent(p));
      assert EntryValid(v, j);
    } else {
      j :| 0 <= j < |v.table| && v.table[j].used != 0 && v.table[j].kind == DIRECTORY &&
        PathOf(v.table[j]) == p[..LastSlash(p)];
    }
  }
}
