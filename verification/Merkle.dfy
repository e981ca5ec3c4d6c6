// The ZVRT Merkle root: an in-place, level-by-level reduction, the tree it computes, and what
// the root binds. The digest function is a parameter throughout.
module Merkle {
  import opened Bytes

  const CHUNK: nat := 4096
  const MAX_LEAVES: nat := 16

  // ---- leaf and parent digests ----

  function LeafInput(path: seq<Byte>, fileSize: U32, index: U32, data: seq<Byte>): (b: seq<Byte>)
    requires |data| < 0x1_0000_0000
  {
    [0, |path| % 0x100] + path + Le32(fileSize) + Le32(index) + Le32(|data|) + data
  }

  function ParentInput(left: Digest, right: Digest): (b: seq<Byte>)
    ensures |b| == 65 && b[0] == 1
  {
    [1] + left + right
  }

  // ---- geometry ----

  function LeafCount(size: nat): (n: nat) {
    (size + CHUNK - 1) / CHUNK
  }

  // What `merkle_root` accepts; the leaf count it computes is in 32-bit arithmetic.
  predicate ValidGeometry(size: nat, leaves: nat) {
    size != 0 && 0 < leaves <= MAX_LEAVES && leaves == (size + CHUNK - 1) % 0x1_0000_0000 / CHUNK
  }

  // The wrap never matters: exactly the sizes of up to 16 chunks, the last one not empty.
  lemma GeometryExact(size: U32, leaves: nat)
    ensures ValidGeometry(size, leaves) <==>
            0 < leaves <= MAX_LEAVES && (leaves - 1) * CHUNK < size <= leaves * CHUNK
  {
    var n: nat := size + CHUNK - 1;
    assert n < 0x1_0000_0000 ==> n % 0x1_0000_0000 == n;
    assert n >= 0x1_0000_0000 ==> n % 0x1_0000_0000 < CHUNK;
  }

  function ChunkEnd(size: nat, i: nat): (e: nat) {
    if size - i * CHUNK < CHUNK then size else (i + 1) * CHUNK
  }

  // ---- the tree ----

  // Number of nodes at a level above `n` leaves.
  function Width(n: nat, level: nat): (w: nat)
    ensures n > 0 ==> w > 0
  {
    if level == 0 then n else (Width(n, level - 1) + 1) / 2
  }

  // Node `i` of a level: the parent of its two children, the last child standing in for a
  // missing sibling.
  function Node(h: Hash, leaves: seq<Digest>, level: nat, i: nat): (d: Digest)
    requires i < Width(|leaves|, level)
  {
    if level == 0 then leaves[i]
    else
      var left := Node(h, leaves, level - 1, 2 * i);
      var right := Node(h, leaves, level - 1, if 2 * i + 1 < Width(|leaves|, level - 1) then 2 * i + 1 else 2 * i);
      h(ParentInput(left, right))
  }

  function Height(n: nat): (k: nat)
    requires n > 0
  {
    if n == 1 then 0 else 1 + Height((n + 1) / 2)
  }

  lemma {:induction false} WidthShift(n: nat, level: nat)
    ensures Width((n + 1) / 2, level) == Width(n, level + 1)
  {
    if level > 0 {
      WidthShift(n, level - 1);
    }
  }

  lemma {:induction false} WidthAtHeight(n: nat)
    requires n > 0
    ensures Width(n, Height(n)) == 1
  {
    if n > 1 {
      WidthAtHeight((n + 1) / 2);
      WidthShift(n, Height((n + 1) / 2));
    }
  }

  function Root(h: Hash, leaves: seq<Digest>): (d: Digest)
    requires |leaves| > 0
  {
    WidthAtHeight(|leaves|);
    Node(h, leaves, Height(|leaves|), 0)
  }

  // ---- merkle_root ----

  function Leaf(h: Hash, path: seq<Byte>, data: seq<Byte>, i: nat): (d: Digest)
    requires i < LeafCount(|data|) && |data| < 0x1_0000_0000
  {
    h(LeafInput(path, |data|, i, data[i * CHUNK..ChunkEnd(|data|, i)]))
  }

  function Leaves(h: Hash, path: seq<Byte>, data: seq<Byte>): (ds: seq<Digest>)
    requires |data| < 0x1_0000_0000
    ensures |ds| == LeafCount(|data|)
  {
    seq(LeafCount(|data|), i requires 0 <= i < LeafCount(|data|) => Leaf(h, path, data, i))
  }

  lemma NodeAbove(h: Hash, leaves: seq<Digest>, level: nat, i: nat)
    requires i < Width(|leaves|, level + 1)
    ensures 2 * i < Width(|leaves|, level)
    ensures var right := if 2 * i + 1 < Width(|leaves|, level) then 2 * i + 1 else 2 * i;
      Node(h, leaves, level + 1, i) == h(ParentInput(Node(h, leaves, level, 2 * i), Node(h, leaves, level, right)))
  {
  }

  // One level of the in-place reduction: `nodes[..count]` becomes the level above it.
  method ReduceLevel(h: Hash, nodes: array<Digest>, count: nat, ghost leaves: seq<Digest>, ghost level: nat)
    requires 1 < count <= nodes.Length && count == Width(|leaves|, level)
    requires forall i :: 0 <= i < count ==> nodes[i] == Node(h, leaves, level, i)
    modifies nodes
    ensures forall i :: 0 <= i < (count + 1) / 2 ==> nodes[i] == Node(h, leaves, level + 1, i)
  {
    hide Node, ParentInput;
    var next := (count + 1) / 2;
    var i := 0;
    while i < next
      invariant i <= next
      invariant forall k :: 0 <= k < i ==> nodes[k] == Node(h, leaves, level + 1, k)
      invariant forall k :: 2 * i <= k < count ==> nodes[k] == Node(h, leaves, level, k)
    {
      var left := i * 2;
      var right := if left + 1 < count then left + 1 else left;
      NodeAbove(h, leaves, level, i);
      nodes[i] := h(ParentInput(nodes[left], nodes[right]));
      i := i + 1;
    }
  }

  lemma GeometryBounds(size: nat, leaves: nat)
    requires ValidGeometry(size, leaves) && size < 0x1_0000_0000
    ensures leaves == LeafCount(size) && size <= MAX_LEAVES * CHUNK
  {
  }

  // The leaf loop.
  method FillLeaves(h: Hash, path: seq<Byte>, data: seq<Byte>, nodes: array<Digest>)
    requires 0 < |data| <= MAX_LEAVES * CHUNK && nodes.Length == MAX_LEAVES
    modifies nodes
    ensures forall k :: 0 <= k < LeafCount(|data|) ==> nodes[k] == Leaf(h, path, data, k)
  {
    hide LeafInput;
    var size := |data|;
    var index := 0;
    while index < LeafCount(size)
      invariant index <= LeafCount(size)
      invariant forall k :: 0 <= k < index ==> nodes[k] == Leaf(h, path, data, k)
    {
      var offset := index * CHUNK;
      var remaining := size - offset;
      var length := if remaining < CHUNK then remaining else CHUNK;
      assert offset + length == ChunkEnd(size, index);
      nodes[index] := h(LeafInput(path, size, index, data[offset..offset + length]));
      index := index + 1;
    }
  }

  // `merkle_root`: rejects a bad geometry, else the root of the recursive tree.
  method MerkleRoot(h: Hash, path: seq<Byte>, data: seq<Byte>, leafCount: nat) returns (r: Option<Digest>)
    requires |data| < 0x1_0000_0000
    ensures r.None? <==> !ValidGeometry(|data|, leafCount)
    ensures r.Some? ==> leafCount == LeafCount(|data|) && r.value == Root(h, Leaves(h, path, data))
  {
    var size := |data|;
    if size == 0 || leafCount == 0 || leafCount > MAX_LEAVES ||
      leafCount != (size + CHUNK - 1) % 0x1_0000_0000 / CHUNK {
      return None;
    }
    GeometryBounds(size, leafCount);
    var nodes := new Digest[MAX_LEAVES](_ => Zeros(32));
    FillLeaves(h, path, data, nodes);
    ghost var leaves := Leaves(h, path, data);
    var root := ReduceAll(h, nodes, leafCount, leaves);
    return Some(root);
  }

  // The reduction loop.
  method ReduceAll(h: Hash, nodes: array<Digest>, leafCount: nat, ghost leaves: seq<Digest>) returns (root: Digest)
    requires 0 < leafCount == |leaves| <= nodes.Length
    requires forall k :: 0 <= k < leafCount ==> nodes[k] == leaves[k]
    modifies nodes
    ensures root == Root(h, leaves)
  {
    var count := leafCount;
    ghost var level := 0;
    while count > 1
      invariant 0 < count <= leafCount && count == Width(leafCount, level)
      invariant Height(leafCount) == level + Height(count)
      invariant forall k :: 0 <= k < count ==> nodes[k] == Node(h, leaves, level, k)
    {
      ReduceLevel(h, nodes, count, leaves, level);
      count := (count + 1) / 2;
      level := level + 1;
    }
    return nodes[0];
  }

  // ---- what the root binds ----

  lemma ParentInputInjective(a: Digest, b: Digest, c: Digest, d: Digest)
    requires ParentInput(a, b) == ParentInput(c, d)
    ensures a == c && b == d
  {
    var p, q := ParentInput(a, b), ParentInput(c, d);
    assert p[1..33] == a && p[33..65] == b && q[1..33] == c && q[33..65] == d;
  }

  // Path lengths the one length byte keeps apart: equal, different modulo 256, or further apart
  // than a chunk can make up for.
  predicate Told(l: nat, m: nat) {
    l == m || l % 0x100 != m % 0x100 || Apart(l, m)
  }

  predicate Apart(l: nat, m: nat) {
    l >= m + CHUNK || m >= l + CHUNK
  }

  // A leaf input determines the path, the file size, the index and the chunk.
  lemma LeafInputInjective(p: seq<Byte>, m: U32, i: U32, a: seq<Byte>, q: seq<Byte>, n: U32, k: U32, b: seq<Byte>)
    requires |a| < 0x1_0000_0000 && |b| < 0x1_0000_0000
    requires |p| == |q| || |p| % 0x100 != |q| % 0x100 || (Apart(|p|, |q|) && 0 < |a| <= CHUNK && 0 < |b| <= CHUNK)
    requires LeafInput(p, m, i, a) == LeafInput(q, n, k, b)
    ensures p == q && m == n && i == k && a == b
  {
    hide LeafInput, Le32;
    LeafInputParts(p, m, i, a);
    LeafInputParts(q, n, k, b);
    Le32Injective(m, n);
    Le32Injective(i, k);
  }

  lemma LeafInputParts(p: seq<Byte>, m: U32, i: U32, a: seq<Byte>)
    requires |a| < 0x1_0000_0000
    ensures var x, l := LeafInput(p, m, i, a), |p|;
            && |x| == 14 + l + |a| && x[1] == l % 0x100
            && x[2..2 + l] == p && x[2 + l..6 + l] == Le32(m) && x[6 + l..10 + l] == Le32(i) && x[14 + l..] == a
  {
    hide Le32;
  }

  function Input(path: seq<Byte>, data: seq<Byte>, i: nat): (b: seq<Byte>)
    requires i < LeafCount(|data|) && |data| < 0x1_0000_0000
    ensures |b| > 0 && b[0] == 0
  {
    LeafInput(path, |data|, i, data[i * CHUNK..ChunkEnd(|data|, i)])
  }

  // Following the left edge of two trees with equal tops: equal heights and equal first leaf
  // inputs, or a collision. A leaf never passes for a parent.
  lemma {:induction false} LeftEdge(h: Hash, p: seq<Byte>, a: seq<Byte>, k: nat, q: seq<Byte>, b: seq<Byte>, l: nat)
    returns (x: seq<Byte>, y: seq<Byte>)
    requires 0 < |a| < 0x1_0000_0000 && 0 < |b| < 0x1_0000_0000
    requires Node(h, Leaves(h, p, a), k, 0) == Node(h, Leaves(h, q, b), l, 0)
    ensures Collision(h, x, y) || (k == l && Input(p, a, 0) == Input(q, b, 0))
  {
    var s, t := Leaves(h, p, a), Leaves(h, q, b);
    x := if k == 0 then Input(p, a, 0) else TopInput(h, s, k);
    y := if l == 0 then Input(q, b, 0) else TopInput(h, t, l);
    if x == y && k > 0 {
      ParentInputInjective(LeftOf(h, s, k), RightOf(h, s, k), LeftOf(h, t, l), RightOf(h, t, l));
      x, y := LeftEdge(h, p, a, k - 1, q, b, l - 1);
    }
  }

  function LeftOf(h: Hash, s: seq<Digest>, k: nat): (d: Digest)
    requires |s| > 0 && k > 0
  {
    Node(h, s, k - 1, 0)
  }

  function RightOf(h: Hash, s: seq<Digest>, k: nat): (d: Digest)
    requires |s| > 0 && k > 0
  {
    Node(h, s, k - 1, if 1 < Width(|s|, k - 1) then 1 else 0)
  }

  function TopInput(h: Hash, s: seq<Digest>, k: nat): (b: seq<Byte>)
    requires |s| > 0 && k > 0
    ensures h(b) == Node(h, s, k, 0) && |b| > 0 && b[0] == 1
  {
    ParentInput(LeftOf(h, s, k), RightOf(h, s, k))
  }

  ghost predicate LevelEqual(h: Hash, s: seq<Digest>, t: seq<Digest>, level: nat)
    requires |s| == |t|
  {
    forall i :: 0 <= i < Width(|s|, level) ==> Node(h, s, level, i) == Node(h, t, level, i)
  }

  function ParentAt(h: Hash, s: seq<Digest>, level: nat, i: nat): (b: seq<Byte>)
    requires level > 0 && i < Width(|s|, level)
    ensures h(b) == Node(h, s, level, i)
  {
    ParentInput(Node(h, s, level - 1, 2 * i),
                Node(h, s, level - 1, if 2 * i + 1 < Width(|s|, level - 1) then 2 * i + 1 else 2 * i))
  }

  lemma ChildrenEqual(h: Hash, s: seq<Digest>, t: seq<Digest>, level: nat, c: nat)
    requires |s| == |t| && level > 0 && c < Width(|s|, level - 1)
    requires ParentAt(h, s, level, c / 2) == ParentAt(h, t, level, c / 2)
    ensures Node(h, s, level - 1, c) == Node(h, t, level - 1, c)
  {
    hide Node, ParentInput;
    var i := c / 2;
    var r := if 2 * i + 1 < Width(|s|, level - 1) then 2 * i + 1 else 2 * i;
    ParentInputInjective(Node(h, s, level - 1, 2 * i), Node(h, s, level - 1, r),
                         Node(h, t, level - 1, 2 * i), Node(h, t, level - 1, r));
  }

  // Two equally wide trees that agree on a level agree on every lower one, or collide.
  lemma {:induction false} LevelsEqual(h: Hash, s: seq<Digest>, t: seq<Digest>, level: nat)
    returns (x: seq<Byte>, y: seq<Byte>)
    requires |s| == |t| && LevelEqual(h, s, t, level)
    ensures Collision(h, x, y) || s == t
  {
    x, y := [], [];
    if level == 0 {
      assert forall i :: 0 <= i < |s| ==> Node(h, s, 0, i) == s[i] && Node(h, t, 0, i) == t[i];
    } else if i :| 0 <= i < Width(|s|, level) && ParentAt(h, s, level, i) != ParentAt(h, t, level, i) {
      x, y := ParentAt(h, s, level, i), ParentAt(h, t, level, i);
    } else {
      var below := level - 1;
      forall c | 0 <= c < Width(|s|, below)
        ensures Node(h, s, below, c) == Node(h, t, below, c)
      {
        ChildrenEqual(h, s, t, level, c);
      }
      x, y := LevelsEqual(h, s, t, below);
    }
  }

  lemma ChunksDetermine(a: seq<Byte>, b: seq<Byte>)
    requires |a| == |b|
    requires forall i :: 0 <= i < LeafCount(|a|) ==> a[i * CHUNK..ChunkEnd(|a|, i)] == b[i * CHUNK..ChunkEnd(|a|, i)]
    ensures a == b
  {
    forall q | 0 <= q < |a|
      ensures a[q] == b[q]
    {
      var i := q / CHUNK;
      assert a[i * CHUNK..ChunkEnd(|a|, i)][q - i * CHUNK] == a[q];
      assert b[i * CHUNK..ChunkEnd(|a|, i)][q - i * CHUNK] == b[q];
    }
  }

  lemma LeavesDetermine(h: Hash, p: seq<Byte>, a: seq<Byte>, q: seq<Byte>, b: seq<Byte>)
    returns (x: seq<Byte>, y: seq<Byte>)
    requires Told(|p|, |q|) && |a| == |b| < 0x1_0000_0000
    requires Leaves(h, p, a) == Leaves(h, q, b)
    ensures Collision(h, x, y) || a == b
  {
    x, y := [], [];
    var n := LeafCount(|a|);
    if i :| 0 <= i < n && Input(p, a, i) != Input(q, b, i) {
      x, y := Input(p, a, i), Input(q, b, i);
      assert Leaves(h, p, a)[i] == h(x) && Leaves(h, q, b)[i] == h(y);
    } else {
      forall i | 0 <= i < n
        ensures a[i * CHUNK..ChunkEnd(|a|, i)] == b[i * CHUNK..ChunkEnd(|a|, i)]
      {
        assert Input(p, a, i) == Input(q, b, i);
        LeafInputInjective(p, |a|, i, a[i * CHUNK..ChunkEnd(|a|, i)], q, |b|, i, b[i * CHUNK..ChunkEnd(|a|, i)]);
      }
      ChunksDetermine(a, b);
    }
  }

  // Equal roots bind path, size and content: two files with equal roots, whatever their leaf
  // counts, are the same file, or the two distinct inputs `x` and `y` have the same digest.
  lemma RootBinds(h: Hash, p: seq<Byte>, a: seq<Byte>, q: seq<Byte>, b: seq<Byte>)
    returns (x: seq<Byte>, y: seq<Byte>)
    requires Told(|p|, |q|)
    requires 0 < |a| < 0x1_0000_0000 && 0 < |b| < 0x1_0000_0000
    requires Root(h, Leaves(h, p, a)) == Root(h, Leaves(h, q, b))
    ensures Collision(h, x, y) || (p == q && a == b)
  {
    hide Node, Leaves, LeafInput, Collision;
    var s, t := Leaves(h, p, a), Leaves(h, q, b);
    x, y := LeftEdge(h, p, a, Height(|s|), q, b, Height(|t|));
    if !Collision(h, x, y) {
      LeafInputInjective(p, |a|, 0, a[0..ChunkEnd(|a|, 0)], q, |b|, 0, b[0..ChunkEnd(|b|, 0)]);
      WidthAtHeight(|s|);
      x, y := LevelsEqual(h, s, t, Height(|s|));
      if !Collision(h, x, y) {
        x, y := LeavesDetermine(h, p, a, q, b);
      }
    }
  }

  // ---- exactly which path lengths clash ----

  ghost predicate SameRoot(h: Hash, p: seq<Byte>, a: seq<Byte>, q: seq<Byte>, b: seq<Byte>)
    requires 0 < |a| < 0x1_0000_0000 && 0 < |b| < 0x1_0000_0000
  {
    Root(h, Leaves(h, p, a)) == Root(h, Leaves(h, q, b))
  }

  // Two different files no digest function can tell apart.
  ghost predicate Clash(p: seq<Byte>, a: seq<Byte>, q: seq<Byte>, b: seq<Byte>) {
    && 0 < |a| < 0x1_0000_0000 && 0 < |b| < 0x1_0000_0000 && !(p == q && a == b)
    && forall h: Hash :: SameRoot(h, p, a, q, b)
  }

  function Mark(on: bool): (d: Digest) {
    [if on then 1 else 0] + Zeros(31)
  }

  // A digest function that marks one leaf input, and parents by their left child only, or by
  // either child.
  function Marking(target: seq<Byte>, either: bool): (h: Hash) {
    (x: seq<Byte>) =>
      if |x| != 65 || x[0] == 0 then Mark(x == target)
      else Mark(x[1..33] == Mark(true) || (either && x[33..65] == Mark(true)))
  }

  lemma MarkingParent(target: seq<Byte>, either: bool, l: Digest, r: Digest)
    ensures Marking(target, either)(ParentInput(l, r)) == Mark(l == Mark(true) || (either && r == Mark(true)))
  {
    var x := ParentInput(l, r);
    assert x[1..33] == l && x[33..65] == r;
  }

  lemma MarkingLeaf(target: seq<Byte>, either: bool, p: seq<Byte>, a: seq<Byte>, i: nat)
    requires |a| < 0x1_0000_0000 && i < LeafCount(|a|)
    ensures Leaves(Marking(target, either), p, a)[i] == Mark(Input(p, a, i) == target)
  {
    hide LeafInput;
  }

  lemma MarksDiffer()
    ensures Mark(true) != Mark(false)
  {
    assert Mark(true)[0] != Mark(false)[0];
  }

  // The left edge carries the first leaf's mark to the top.
  lemma {:induction false} LeftMark(target: seq<Byte>, s: seq<Digest>, k: nat, on: bool)
    requires |s| > 0 && s[0] == Mark(on)
    ensures Node(Marking(target, false), s, k, 0) == Mark(on)
  {
    hide Marking, Mark, ParentInput;
    if k > 0 {
      var h := Marking(target, false);
      LeftMark(target, s, k - 1, on);
      MarkingParent(target, false, LeftOf(h, s, k), RightOf(h, s, k));
      MarksDiffer();
    }
  }

  // A marked leaf marks the node above it at every level; without one nothing is marked.
  lemma {:induction false} SomeMark(target: seq<Byte>, s: seq<Digest>, k: nat, i: nat)
    requires i < Width(|s|, k) && LevelMarks(s, k, i)
    ensures Node(Marking(target, true), s, k, i) == Mark(true)
    decreases k
  {
    hide Marking, Mark, ParentInput;
    if k > 0 {
      var h := Marking(target, true);
      var right := if 2 * i + 1 < Width(|s|, k - 1) then 2 * i + 1 else 2 * i;
      if LevelMarks(s, k - 1, 2 * i) {
        SomeMark(target, s, k - 1, 2 * i);
      } else {
        SomeMark(target, s, k - 1, right);
      }
      NodeAbove(h, s, k - 1, i);
      MarkingParent(target, true, Node(h, s, k - 1, 2 * i), Node(h, s, k - 1, right));
    }
  }

  // A marked leaf lies under node `i` of level `k`.
  ghost predicate LevelMarks(s: seq<Digest>, k: nat, i: nat)
    requires i < Width(|s|, k)
  {
    if k == 0 then s[i] == Mark(true)
    else
      || LevelMarks(s, k - 1, 2 * i)
      || LevelMarks(s, k - 1, if 2 * i + 1 < Width(|s|, k - 1) then 2 * i + 1 else 2 * i)
  }

  lemma {:induction false} MarksRise(s: seq<Digest>, k: nat, level: nat, j: nat)
    requires j < Width(|s|, level) && LevelMarks(s, level, j) && level <= k && Width(|s|, k) == 1
    ensures LevelMarks(s, k, 0)
    decreases k - level
  {
    if level < k {
      MarksRise(s, k, level + 1, j / 2);
    } else {
      assert j == 0;
    }
  }

  lemma {:induction false} NoMark(target: seq<Byte>, s: seq<Digest>, k: nat, i: nat)
    requires i < Width(|s|, k) && forall j :: 0 <= j < |s| ==> s[j] == Mark(false)
    ensures Node(Marking(target, true), s, k, i) == Mark(false)
    decreases k
  {
    hide Marking, Mark, ParentInput;
    if k > 0 {
      var h := Marking(target, true);
      var right := if 2 * i + 1 < Width(|s|, k - 1) then 2 * i + 1 else 2 * i;
      NoMark(target, s, k - 1, 2 * i);
      NoMark(target, s, k - 1, right);
      NodeAbove(h, s, k - 1, i);
      MarkingParent(target, true, Node(h, s, k - 1, 2 * i), Node(h, s, k - 1, right));
      MarksDiffer();
    }
  }

  // Files with the same root under every digest function have the same first leaf input.
  lemma ClashFirst(p: seq<Byte>, a: seq<Byte>, q: seq<Byte>, b: seq<Byte>)
    requires Clash(p, a, q, b)
    ensures Input(p, a, 0) == Input(q, b, 0)
  {
    hide Node, Leaves, Mark, Input, Marking;
    var target := Input(p, a, 0);
    var h := Marking(target, false);
    var s, t := Leaves(h, p, a), Leaves(h, q, b);
    assert SameRoot(h, p, a, q, b);
    MarkingLeaf(target, false, p, a, 0);
    MarkingLeaf(target, false, q, b, 0);
    LeftMark(target, s, Height(|s|), true);
    LeftMark(target, t, Height(|t|), Input(q, b, 0) == target);
    MarksDiffer();
  }

  lemma MarkedRoot(target: seq<Byte>, s: seq<Digest>, i: nat)
    requires i < |s| && s[i] == Mark(true)
    ensures Root(Marking(target, true), s) == Mark(true)
  {
    hide Node, Mark, Marking;
    WidthAtHeight(|s|);
    MarksRise(s, Height(|s|), 0, i);
    SomeMark(target, s, Height(|s|), 0);
  }

  lemma UnmarkedRoot(target: seq<Byte>, s: seq<Digest>)
    requires |s| > 0 && forall j :: 0 <= j < |s| ==> s[j] == Mark(false)
    ensures Root(Marking(target, true), s) == Mark(false)
  {
    hide Node, Mark, Marking;
    WidthAtHeight(|s|);
    NoMark(target, s, Height(|s|), 0);
  }

  // With the same path and size, the same leaf inputs throughout.
  lemma ClashEverywhere(p: seq<Byte>, a: seq<Byte>, b: seq<Byte>, i: nat)
    requires Clash(p, a, p, b) && |a| == |b| && i < LeafCount(|a|)
    ensures Input(p, a, i) == Input(p, b, i)
  {
    hide Root, Leaves, Mark, Marking, Input;
    var target := Input(p, a, i);
    var h := Marking(target, true);
    var s, t := Leaves(h, p, a), Leaves(h, p, b);
    assert SameRoot(h, p, a, p, b);
    MarkingLeaf(target, true, p, a, i);
    MarkedRoot(target, s, i);
    if Input(p, b, i) != target {
      forall j | 0 <= j < |t|
        ensures t[j] == Mark(false)
      {
        MarkingLeaf(target, true, p, b, j);
        if Input(p, b, j) == target {
          OtherIndex(p, a, b, i, j);
        }
      }
      UnmarkedRoot(target, t);
      MarksDiffer();
    }
  }

  lemma OtherIndex(p: seq<Byte>, a: seq<Byte>, b: seq<Byte>, i: nat, j: nat)
    requires |a| == |b| < 0x1_0000_0000 && i < LeafCount(|a|) && j < LeafCount(|a|)
    requires Input(p, b, j) == Input(p, a, i)
    ensures i == j
  {
    hide LeafInput;
    LeafInputInjective(p, |b|, j, b[j * CHUNK..ChunkEnd(|b|, j)], p, |a|, i, a[i * CHUNK..ChunkEnd(|a|, i)]);
  }

  lemma ToldNeverClash(p: seq<Byte>, a: seq<Byte>, q: seq<Byte>, b: seq<Byte>)
    requires Told(|p|, |q|)
    ensures !Clash(p, a, q, b)
  {
    hide Leaves, Root, LeafInput;
    if Clash(p, a, q, b) {
      ClashFirst(p, a, q, b);
      LeafInputInjective(p, |a|, 0, a[0..ChunkEnd(|a|, 0)], q, |b|, 0, b[0..ChunkEnd(|b|, 0)]);
      forall i | 0 <= i < LeafCount(|a|)
        ensures a[i * CHUNK..ChunkEnd(|a|, i)] == b[i * CHUNK..ChunkEnd(|a|, i)]
      {
        ClashEverywhere(p, a, b, i);
        LeafInputInjective(p, |a|, i, a[i * CHUNK..ChunkEnd(|a|, i)], p, |b|, i, b[i * CHUNK..ChunkEnd(|b|, i)]);
      }
      ChunksDetermine(a, b);
    }
  }

  // Every other pair of lengths clashes: the longer path swallows the fields after the shorter.
  lemma LongPathsClash(l: nat, m: nat)
    returns (p: seq<Byte>, a: seq<Byte>, q: seq<Byte>, b: seq<Byte>)
    requires l < m && !Told(l, m)
    ensures |p| == l && |q| == m && |a| <= CHUNK && |b| == 1 && Clash(p, a, q, b)
  {
    var d := m - l;
    assert d % 0x100 == 0;
    var filler := Zeros(d - 12);
    p, b := Zeros(l), [0];
    q := p + Le32(d + 1) + Le32(0) + Le32(d + 1) + filler;
    a := filler + Le32(1) + Le32(0) + Le32(1) + b;
    SwallowedFields(p, q, a, b, d, filler);
    forall h: Hash ensures SameRoot(h, p, a, q, b) {
      assert a[0..d + 1] == a && b[0..1] == b;
      assert Leaf(h, p, a, 0) == Leaf(h, q, b, 0);
      assert Leaves(h, p, a) == Leaves(h, q, b);
    }
  }

  lemma SwallowedFields(p: seq<Byte>, q: seq<Byte>, a: seq<Byte>, b: seq<Byte>, d: nat, filler: seq<Byte>)
    requires d % 0x100 == 0 && 12 <= d < CHUNK && |filler| == d - 12 && |b| == 1
    requires q == p + Le32(d + 1) + Le32(0) + Le32(d + 1) + filler
    requires a == filler + Le32(1) + Le32(0) + Le32(1) + b
    ensures LeafInput(p, d + 1, 0, a) == LeafInput(q, 1, 0, b)
  {
    hide Le32;
    assert |q| % 0x100 == |p| % 0x100;
  }

  // Files whose paths have these lengths can clash exactly when the lengths are not told apart.
  lemma ClashLengths(l: nat, m: nat)
    ensures Told(l, m) <==> !exists p, a, q, b :: |p| == l && |q| == m && Clash(p, a, q, b)
  {
    hide Clash;
    if Told(l, m) {
      forall p: seq<Byte>, a, q: seq<Byte>, b | |p| == l && |q| == m
        ensures !Clash(p, a, q, b)
      {
        ToldNeverClash(p, a, q, b);
      }
    } else if l < m {
      var p, a, q, b := LongPathsClash(l, m);
    } else {
      var q, b, p, a := LongPathsClash(m, l);
      ClashSymmetric(q, b, p, a);
    }
  }

  lemma ClashSymmetric(p: seq<Byte>, a: seq<Byte>, q: seq<Byte>, b: seq<Byte>)
    requires Clash(p, a, q, b)
    ensures Clash(q, b, p, a)
  {
    hide Root, Leaves;
    forall h: Hash ensures SameRoot(h, q, b, p, a) {
      assert SameRoot(h, p, a, q, b);
    }
  }
}
