// The check applied to ELF32/i386 images before they are imported as packages.
module ElfImport {
  import opened Bytes
  import opened ModArith

  const STACK_BASE: nat := 0x10_0000 - 16 * 1024
  const PAGE: nat := 4096
  const TWO32: nat := 0x1_0000_0000

  datatype Segment = Segment(kind: U32, offset: U32, address: U32, fileSize: U32, memorySize: U32, flags: U32,
    alignment: U32)
  {
    predicate Executable() { flags % 2 == 1 }
    predicate Writable() { flags / 2 % 2 == 1 }
  }

  function U16At(b: seq<Byte>, o: nat): (x: U16)
    requires o + 2 <= |b|
  {
    FromLe16(b[o..o + 2])
  }

  function U32At(b: seq<Byte>, o: nat): (x: U32)
    requires o + 4 <= |b|
  {
    FromLe32(b[o..o + 4])
  }

  function SegmentAt(b: seq<Byte>, o: nat): (s: Segment)
    requires o + 32 <= |b|
  {
    Segment(U32At(b, o), U32At(b, o + 4), U32At(b, o + 8), U32At(b, o + 16), U32At(b, o + 20), U32At(b, o + 24),
      U32At(b, o + 28))
  }

  // ---- what an accepted image guarantees, on unbounded addresses ----

  predicate Contains(s: Segment, x: int) {
    s.address <= x < s.address + s.memorySize
  }

  ghost predicate Touches(s: Segment, page: int) {
    exists x: int :: Contains(s, x) && PageOf(x) == page
  }

  function PageOf(x: int): (p: int) {
    x / PAGE
  }

  ghost predicate Disjoint(a: Segment, b: Segment) {
    forall x: int :: !(Contains(a, x) && Contains(b, x))
  }

  ghost predicate PagesDisjoint(a: Segment, b: Segment) {
    forall p: int :: !(Touches(a, p) && Touches(b, p))
  }

  ghost predicate Compatible(a: Segment, b: Segment) {
    Disjoint(a, b) && (a.Writable() != b.Writable() ==> PagesDisjoint(a, b))
  }

  ghost predicate PowerOfTwo(a: nat) {
    exists k: nat :: a == Pow2(k)
  }

  // A segment the loader can place, in an image of `n` bytes.
  ghost predicate Placeable(s: Segment, n: nat) {
    && s.fileSize <= s.memorySize && s.offset + s.fileSize <= n
    && s.address < STACK_BASE && s.address + s.memorySize <= STACK_BASE
    && s.flags < 8 && !(s.Executable() && s.Writable())
    && (s.alignment > 1 ==> PowerOfTwo(s.alignment) && s.address % s.alignment == s.offset % s.alignment)
  }

  predicate Loaded(s: Segment) {
    s.kind == 1 && s.memorySize > 0
  }

  ghost predicate HeaderAllowed(s: Segment, n: nat) {
    && s.kind != 2 && s.kind != 3
    && (s.kind == 1 && s.memorySize == 0 ==> s.fileSize == 0)
    && (Loaded(s) ==> Placeable(s, n))
  }

  // The load segments among the first `i` program headers, in order.
  function Loads(b: seq<Byte>, table: nat, i: nat): (r: seq<Segment>)
    requires table + 32 * i <= |b|
  {
    if i == 0 then [] else
      var s := SegmentAt(b, table + 32 * (i - 1));
      Loads(b, table, i - 1) + if Loaded(s) then [s] else []
  }

  ghost predicate AllAllowed(b: seq<Byte>, table: nat, count: nat)
    requires table + 32 * count <= |b|
  {
    forall i :: 0 <= i < count ==> HeaderAllowed(SegmentAt(b, table + 32 * i), |b|)
  }

  ghost predicate Pairwise(loads: seq<Segment>) {
    forall i, j :: 0 <= i < j < |loads| ==> Compatible(loads[i], loads[j])
  }

  predicate IsEntry(s: Segment, entry: nat) {
    s.Executable() && !s.Writable() && Contains(s, entry)
  }

  ghost predicate HasEntry(loads: seq<Segment>, entry: nat) {
    exists k :: 0 <= k < |loads| && IsEntry(loads[k], entry)
  }

  predicate FileHeader(b: seq<Byte>) {
    && |b| >= 52 && b[0..7] == [0x7F, 0x45, 0x4C, 0x46, 1, 1, 1]
    && U16At(b, 16) == 2 && U16At(b, 18) == 3 && U32At(b, 20) == 1 && U16At(b, 40) == 52 && U16At(b, 42) == 32
    && U16At(b, 44) > 0 && U32At(b, 24) < STACK_BASE && U32At(b, 28) + 32 * U16At(b, 44) <= |b|
  }

  // The load segments of an image and its entry point.
  function LoadSegments(b: seq<Byte>): (r: seq<Segment>)
    requires FileHeader(b)
  {
    Loads(b, U32At(b, 28), U16At(b, 44))
  }

  function EntryOf(b: seq<Byte>): (x: U32)
    requires FileHeader(b)
  {
    U32At(b, 24)
  }

  // What the loader needs of an image.
  ghost predicate Importable(b: seq<Byte>) {
    && FileHeader(b)
    && AllAllowed(b, U32At(b, 28), U16At(b, 44)) && Pairwise(LoadSegments(b)) && HasEntry(LoadSegments(b), EntryOf(b))
  }

  // ---- bits ----

  function And(a: nat, b: nat): (r: nat) {
    if a == 0 || b == 0 then 0 else (a % 2) * (b % 2) + 2 * And(a / 2, b / 2)
  }

  lemma BitSquare(b: nat)
    requires b < 2
    ensures b * b == b
  {
  }

  lemma {:induction false} AndSelf(a: nat)
    ensures And(a, a) == a
  {
    if a > 0 {
      AndSelf(a / 2);
      BitSquare(a % 2);
    }
  }

  lemma AndOdd(x: nat, y: nat)
    ensures And(x, 2 * y + 1) == x % 2 + 2 * And(x / 2, y)
  {
    assert (2 * y + 1) / 2 == y && (2 * y + 1) % 2 == 1;
  }

  // Masking with 2^k - 1 is reduction modulo 2^k.
  lemma {:induction false} AndMask(x: nat, k: nat)
    ensures And(x, Pow2(k) - 1) == x % Pow2(k)
  {
    hide And;
    if k == 0 {
      AndZero(x);
    } else {
      var m := Pow2(k - 1);
      AndMask(x / 2, k - 1);
      AndOdd(x, m - 1);
      HalfModulo(x, m);
    }
  }

  lemma AndZero(x: nat)
    ensures And(x, 0) == 0
  {
  }

  lemma HalfModulo(x: nat, m: nat)
    requires m > 0
    ensures x % (2 * m) == x % 2 + 2 * (x / 2 % m)
  {
    var h := x / 2;
    var q, r := h / m, h % m;
    assert x == q * (2 * m) + (x % 2 + 2 * r) by {
      assert h == q * m + r;
    }
    ModUnique(x, 2 * m, q, x % 2 + 2 * r);
  }

  // The bit test for a power of two.
  lemma {:induction false} PowerTest(a: nat)
    requires a > 0
    ensures And(a, a - 1) == 0 <==> PowerOfTwo(a)
  {
    var m := a / 2;
    if a == 1 {
      assert a == Pow2(0);
    } else if a % 2 == 1 {
      AndSelf(m);
      assert (a - 1) / 2 == m;
      forall k: nat ensures a != Pow2(k) {
        if k > 0 {
          assert Pow2(k) == 2 * Pow2(k - 1);
        }
      }
    } else {
      PowerTest(m);
      assert (a - 1) / 2 == m - 1;
      assert And(a, a - 1) == 2 * And(m, m - 1);
      if PowerOfTwo(m) {
        var k: nat :| m == Pow2(k);
        assert a == Pow2(k + 1);
      }
      if PowerOfTwo(a) {
        var k: nat :| a == Pow2(k);
        assert m == Pow2(k - 1);
      }
    }
  }

  // ---- the overlap tests, on 32-bit words ----

  function Wrap(x: nat): (w: U32) {
    x % TWO32
  }

  function PageFloor(x: U32): (w: U32) {
    x - x % PAGE
  }

  predicate RangesOverlap(left: U32, leftSize: U32, right: U32, rightSize: U32) {
    left < Wrap(right + rightSize) && right < Wrap(left + leftSize)
  }

  predicate PageRangesOverlap(left: U32, leftSize: U32, right: U32, rightSize: U32) {
    var leftEnd := PageFloor(Wrap(left + leftSize + PAGE - 1));
    var rightEnd := PageFloor(Wrap(right + rightSize + PAGE - 1));
    PageFloor(left) < rightEnd && PageFloor(right) < leftEnd
  }

  ghost predicate Below(s: Segment) {
    s.memorySize > 0 && s.address + s.memorySize <= STACK_BASE
  }

  // Under the stack base the wrapped tests are exact.
  lemma OverlapExact(a: Segment, b: Segment)
    requires Below(a) && Below(b)
    ensures RangesOverlap(a.address, a.memorySize, b.address, b.memorySize) <==> !Disjoint(a, b)
  {
    if RangesOverlap(a.address, a.memorySize, b.address, b.memorySize) {
      var x := if a.address < b.address then b.address else a.address;
      assert Contains(a, x) && Contains(b, x);
    }
  }

  lemma PageOverlapExact(a: Segment, b: Segment)
    requires Below(a) && Below(b)
    ensures PageRangesOverlap(a.address, a.memorySize, b.address, b.memorySize) <==> !PagesDisjoint(a, b)
  {
    TouchedPages(a);
    TouchedPages(b);
    var a0, a1, b0, b1 := a.address / PAGE, (a.address + a.memorySize - 1) / PAGE, b.address / PAGE,
      (b.address + b.memorySize - 1) / PAGE;
    var p := if a0 < b0 then b0 else a0;
    EndFloor(a);
    EndFloor(b);
    assert PageRangesOverlap(a.address, a.memorySize, b.address, b.memorySize) <==> a0 <= b1 && b0 <= a1;
    assert a0 <= b1 && b0 <= a1 ==> Touches(a, p) && Touches(b, p);
  }

  lemma EndFloor(s: Segment)
    requires Below(s)
    ensures PageFloor(s.address) == s.address / PAGE * PAGE
    ensures PageFloor(Wrap(s.address + s.memorySize + PAGE - 1)) == ((s.address + s.memorySize - 1) / PAGE + 1) * PAGE
  {
  }

  // A segment touches the pages from its first byte's to its last byte's.
  lemma TouchedPages(s: Segment)
    requires Below(s)
    ensures forall p: int :: Touches(s, p) <==> s.address / PAGE <= p <= (s.address + s.memorySize - 1) / PAGE
  {
    forall p: int
      ensures Touches(s, p) <==> s.address / PAGE <= p <= (s.address + s.memorySize - 1) / PAGE
    {
      if s.address / PAGE <= p <= (s.address + s.memorySize - 1) / PAGE {
        var x := if s.address / PAGE == p then s.address else p * PAGE;
        assert Contains(s, x) && PageOf(x) == p;
      }
    }
  }

  // ---- the check ----

  // The alignment clause: the bit tests mean a power of two and equal remainders.
  method AlignmentAllowed(s: Segment) returns (ok: bool)
    ensures ok <==> (s.alignment > 1 ==> PowerOfTwo(s.alignment) && s.address % s.alignment == s.offset % s.alignment)
  {
    hide And;
    ok := true;
    if s.alignment > 1 {
      PowerTest(s.alignment);
      var mask := s.alignment - 1;
      ok := And(s.alignment, mask) == 0;
      if ok {
        ghost var k: nat :| s.alignment == Pow2(k);
        AndMask(s.address, k);
        AndMask(s.offset, k);
        ok := And(s.address, mask) == And(s.offset, mask);
      }
    }
  }

  method SegmentAllowed(s: Segment, n: nat) returns (ok: bool)
    ensures ok <==> Placeable(s, n)
  {
    var aligned := AlignmentAllowed(s);
    return s.fileSize <= s.memorySize && s.offset <= n && s.fileSize <= n - s.offset && s.address < STACK_BASE &&
      s.memorySize <= STACK_BASE - s.address && s.flags / 8 == 0 && s.flags % 4 != 3 && aligned;
  }

  // The comparison of a new segment with those already loaded.
  method FitsWith(s: Segment, loaded: seq<Segment>) returns (ok: bool)
    requires Below(s) && forall i :: 0 <= i < |loaded| ==> Below(loaded[i])
    ensures ok <==> forall i :: 0 <= i < |loaded| ==> Compatible(loaded[i], s)
  {
    hide RangesOverlap, PageRangesOverlap, Below, Disjoint, PagesDisjoint;
    for i := 0 to |loaded|
      invariant forall j :: 0 <= j < i ==> Compatible(loaded[j], s)
    {
      var other := loaded[i];
      OverlapExact(s, other);
      PageOverlapExact(s, other);
      DisjointSymmetric(s, other);
      if RangesOverlap(s.address, s.memorySize, other.address, other.memorySize) ||
        (s.Writable() != other.Writable() &&
          PageRangesOverlap(s.address, s.memorySize, other.address, other.memorySize))
      {
        assert !Compatible(loaded[i], s);
        return false;
      }
    }
    return true;
  }

  lemma DisjointSymmetric(a: Segment, b: Segment)
    ensures Disjoint(a, b) == Disjoint(b, a) && PagesDisjoint(a, b) == PagesDisjoint(b, a)
  {
    hide Touches, Contains;
  }

  lemma PairwiseSnoc(loads: seq<Segment>, s: Segment)
    ensures Pairwise(loads + [s]) <==> Pairwise(loads) && forall i :: 0 <= i < |loads| ==> Compatible(loads[i], s)
  {
    hide Compatible;
    var l := loads + [s];
    if Pairwise(l) {
      forall i, j | 0 <= i < j < |loads| ensures Compatible(loads[i], loads[j]) {
        assert Compatible(l[i], l[j]);
      }
      forall i | 0 <= i < |loads| ensures Compatible(loads[i], s) {
        assert Compatible(l[i], l[|loads|]);
      }
    }
  }

  lemma {:induction false} LoadsGrow(b: seq<Byte>, table: nat, i: nat, count: nat)
    requires i <= count && table + 32 * count <= |b|
    ensures |Loads(b, table, i)| <= |Loads(b, table, count)| &&
      Loads(b, table, i) == Loads(b, table, count)[..|Loads(b, table, i)|]
    decreases count - i
  {
    hide SegmentAt;
    if i < count {
      LoadsGrow(b, table, i + 1, count);
    }
  }

  lemma PairwisePrefix(loads: seq<Segment>, n: nat)
    requires n <= |loads| && Pairwise(loads)
    ensures Pairwise(loads[..n])
  {
    hide Compatible;
  }

  // What the loop has checked so far.
  ghost predicate Checked(b: seq<Byte>, table: nat, i: nat, loaded: seq<Segment>) {
    && table + 32 * i <= |b| && loaded == Loads(b, table, i) && AllAllowed(b, table, i) && Pairwise(loaded)
    && forall k :: 0 <= k < |loaded| ==> Below(loaded[k])
  }

  // One program header: refused exactly when no image with this prefix is importable.
  method CheckHeader(b: seq<Byte>, table: nat, i: nat, loaded: seq<Segment>) returns (ok: bool, now: seq<Segment>)
    requires Checked(b, table, i, loaded) && table + 32 * (i + 1) <= |b|
    ensures ok ==> Checked(b, table, i + 1, now) && |loaded| <= |now| <= |loaded| + 1 && now[..|loaded|] == loaded
    ensures !ok ==> !(AllAllowed(b, table, i + 1) && Pairwise(Loads(b, table, i + 1)))
  {
    hide SegmentAt, Compatible, Placeable;
    now := loaded;
    var s := SegmentAt(b, table + 32 * i);
    if s.kind == 2 || s.kind == 3 {
      return false, now;
    }
    if s.kind != 1 {
      return true, now;
    }
    if s.memorySize == 0 {
      return s.fileSize == 0, now;
    }
    ok := SegmentAllowed(s, |b|);
    if !ok {
      return false, now;
    }
    PlaceableBelow(s, |b|);
    PairwiseSnoc(loaded, s);
    ok := FitsWith(s, loaded);
    now := loaded + [s];
  }

  lemma PlaceableBelow(s: Segment, n: nat)
    requires Placeable(s, n) && s.memorySize > 0
    ensures Below(s)
  {
  }

  // The whole check accepts exactly the importable images.
  method Validate(b: seq<Byte>) returns (ok: bool)
    ensures ok <==> Importable(b)
  {
    hide Compatible, SegmentAt, Placeable, Below;
    if |b| < 52 || b[0..7] != [0x7F, 0x45, 0x4C, 0x46, 1, 1, 1] {
      return false;
    }
    var entry, table, count := U32At(b, 24), U32At(b, 28), U16At(b, 44);
    if U16At(b, 16) != 2 || U16At(b, 18) != 3 || U32At(b, 20) != 1 || U16At(b, 40) != 52 || U16At(b, 42) != 32 ||
      count == 0 || entry >= STACK_BASE || table > |b| || count > (|b| - table) / 32
    {
      return false;
    }
    ok := CheckTable(b, table, count, entry);
  }

  lemma EntrySnoc(loads: seq<Segment>, more: seq<Segment>, entry: nat)
    requires |loads| <= |more| <= |loads| + 1 && more[..|loads|] == loads
    ensures HasEntry(more, entry) <==> HasEntry(loads, entry) || (|more| > |loads| && IsEntry(more[|loads|], entry))
  {
    hide IsEntry;
    assert |more| == |loads| ==> more == loads;
    if HasEntry(loads, entry) {
      var k :| 0 <= k < |loads| && IsEntry(loads[k], entry);
      assert IsEntry(more[k], entry);
    }
    if HasEntry(more, entry) {
      var k :| 0 <= k < |more| && IsEntry(more[k], entry);
      assert k < |loads| ==> IsEntry(loads[k], entry);
    }
  }

  method CheckTable(b: seq<Byte>, table: nat, count: nat, entry: nat) returns (ok: bool)
    requires table + 32 * count <= |b|
    ensures var loads := Loads(b, table, count);
            ok <==> AllAllowed(b, table, count) && Pairwise(loads) && HasEntry(loads, entry)
  {
    hide Compatible, SegmentAt, Placeable, Below, IsEntry, HeaderAllowed;
    var loaded: seq<Segment>, found := [], false;
    for i := 0 to count
      invariant Checked(b, table, i, loaded)
      invariant found == HasEntry(loaded, entry)
    {
      var more;
      ok, more := CheckHeader(b, table, i, loaded);
      if !ok {
        LoadsGrow(b, table, i + 1, count);
        if Pairwise(Loads(b, table, count)) {
          PairwisePrefix(Loads(b, table, count), |Loads(b, table, i + 1)|);
        }
        return false;
      }
      EntrySnoc(loaded, more, entry);
      if |more| > |loaded| {
        found := found || IsEntry(more[|loaded|], entry);
      }
      loaded := more;
    }
    ok := loaded != [] && found;
  }

  // ---- what an importable image does to memory ----

  lemma {:induction false} LoadsPlaceable(b: seq<Byte>, table: nat, i: nat)
    requires table + 32 * i <= |b| && AllAllowed(b, table, i)
    ensures forall k :: 0 <= k < |Loads(b, table, i)| ==>
      Loaded(Loads(b, table, i)[k]) && Placeable(Loads(b, table, i)[k], |b|)
  {
    hide SegmentAt, Placeable;
    if i > 0 {
      LoadsPlaceable(b, table, i - 1);
    }
  }

  // No page is touched by a writable and an executable segment.
  lemma NeverBoth(loads: seq<Segment>, n: nat, i: nat, j: nat, p: int)
    requires Pairwise(loads) && i < |loads| && j < |loads| && Placeable(loads[i], n) && Placeable(loads[j], n)
    requires loads[i].Writable() && loads[j].Executable() && Touches(loads[i], p)
    ensures !Touches(loads[j], p)
  {
    hide Touches;
    DisjointSymmetric(loads[i], loads[j]);
    assert i < j ==> Compatible(loads[i], loads[j]);
    assert j < i ==> Compatible(loads[j], loads[i]);
  }

  // Where an accepted image puts its segments: under the stack, no address claimed twice.
  lemma ImportPlaces(b: seq<Byte>, i: nat, x: int)
    requires Importable(b) && i < |LoadSegments(b)| && Contains(LoadSegments(b)[i], x)
    ensures 0 <= x < 0xFC000
    ensures forall j :: 0 <= j < |LoadSegments(b)| && Contains(LoadSegments(b)[j], x) ==> j == i
  {
    hide SegmentAt, U32At, U16At, AllAllowed, HasEntry, PagesDisjoint;
    var loads := LoadSegments(b);
    LoadsPlaceable(b, U32At(b, 28), U16At(b, 44));
    forall j | 0 <= j < |loads| && Contains(loads[j], x)
      ensures j == i
    {
      assert i < j ==> Compatible(loads[i], loads[j]);
      assert j < i ==> Compatible(loads[j], loads[i]);
    }
  }

  // No page of an accepted image is both writable and executable, and the entry lies in an
  // executable segment on a page that holds no writable byte.
  lemma ImportPages(b: seq<Byte>, i: nat, p: int)
    requires Importable(b) && i < |LoadSegments(b)|
    requires LoadSegments(b)[i].Writable() && Touches(LoadSegments(b)[i], p)
    ensures p != PageOf(EntryOf(b)) && HasEntry(LoadSegments(b), EntryOf(b))
    ensures forall j :: 0 <= j < |LoadSegments(b)| && LoadSegments(b)[j].Executable() ==>
      !Touches(LoadSegments(b)[j], p)
  {
    hide SegmentAt, U32At, U16At, AllAllowed, Placeable, Pairwise, PageOf, Touches;
    var loads, entry := LoadSegments(b), EntryOf(b);
    LoadsPlaceable(b, U32At(b, 28), U16At(b, 44));
    forall j | 0 <= j < |loads| && loads[j].Executable()
      ensures !Touches(loads[j], p)
    {
      NeverBoth(loads, |b|, i, j, p);
    }
    var k :| 0 <= k < |loads| && IsEntry(loads[k], entry);
    EntryTouches(loads[k], entry);
  }

  lemma EntryTouches(s: Segment, x: int)
    requires Contains(s, x)
    ensures Touches(s, PageOf(x))
  {
  }
}
