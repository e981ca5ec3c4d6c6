// The boot floppy: the FAT12 image builder and the verifier that walks its kernel chain.
module Fat12 {
  import opened Bytes

  const SECTOR: nat := 512
  const IMAGE: nat := 1474560
  const FAT1: nat := 512
  const FAT2: nat := 5120
  const FAT_BYTES: nat := 4608
  const ROOT: nat := 9728
  const ENTRY: nat := 9760
  const DATA: nat := 16896
  const MAX_CLUSTERS: nat := 2847
  const KERNEL_MAXIMUM: nat := 524288

  // ---- 12-bit entries ----

  // The entry in a pair of bytes, as read little-endian.
  function Entry(low: Byte, high: Byte, odd: bool): (v: nat)
    ensures v < 0x1000
  {
    var pair: int := low + 0x100 * high;
    if odd then pair / 16 else pair % 0x1000
  }

  // The pair with its entry replaced.
  function Replaced(low: Byte, high: Byte, odd: bool, value: nat): (pair: nat)
    ensures pair < 0x1_0000
  {
    var current: int := low + 0x100 * high;
    if odd then current % 16 + value % 0x1000 * 16 else current / 0x1000 * 0x1000 + value % 0x1000
  }

  lemma Split(x: nat, m: nat, q: nat, r: nat)
    requires m == 16 || m == 0x100 || m == 0x1000
    requires x == m * q + r && r < m
    ensures x / m == q && x % m == r
  {
  }

  lemma EntryBytes(low: Byte, high: Byte)
    ensures Entry(low, high, false) == low + 0x100 * (high % 16) && Entry(low, high, true) == low / 16 + 16 * high
  {
    var x: int := low + 0x100 * high;
    Split(x, 16, low / 16 + 16 * high, low % 16);
    Split(x, 0x1000, high / 16, low + 0x100 * (high % 16));
  }

  // Writing one entry of a pair leaves the other half of the shared byte alone.
  lemma ReplacedEntry(low: Byte, high: Byte, odd: bool, value: nat)
    ensures var pair := Replaced(low, high, odd, value);
      && Entry(pair % 0x100, pair / 0x100, odd) == value % 0x1000
      && (if odd then pair % 0x100 % 16 == low % 16 else pair / 0x100 / 16 == high / 16)
  {
    hide Entry, Replaced;
    ReplacedModulo(low, high, odd, value);
    if odd {
      ReplacedOdd(low, high, value % 0x1000);
    } else {
      ReplacedEven(low, high, value % 0x1000);
    }
  }

  lemma ReplacedModulo(low: Byte, high: Byte, odd: bool, value: nat)
    ensures Replaced(low, high, odd, value) == Replaced(low, high, odd, value % 0x1000)
  {
    assert value % 0x1000 % 0x1000 == value % 0x1000;
  }

  lemma ReplacedOdd(low: Byte, high: Byte, v: nat)
    requires v < 0x1000
    ensures Replaced(low, high, true, v) == low % 16 + 16 * v
    ensures Entry((low % 16 + 16 * v) % 0x100, (low % 16 + 16 * v) / 0x100, true) == v
    ensures (low % 16 + 16 * v) % 0x100 % 16 == low % 16
  {
    hide Entry;
    Split(low + 0x100 * high, 16, low / 16 + 16 * high, low % 16);
    var l, h := low % 16 + 16 * (v % 16), v / 16;
    Split(low % 16 + 16 * v, 0x100, h, l);
    Split(l, 16, v % 16, low % 16);
    EntryBytes(l, h);
  }

  lemma ReplacedEven(low: Byte, high: Byte, v: nat)
    requires v < 0x1000
    ensures Replaced(low, high, false, v) == 0x1000 * (high / 16) + v
    ensures Entry((0x1000 * (high / 16) + v) % 0x100, (0x1000 * (high / 16) + v) / 0x100, false) == v
    ensures (0x1000 * (high / 16) + v) / 0x100 / 16 == high / 16
  {
    hide Entry;
    Split(low + 0x100 * high, 0x1000, high / 16, low + 0x100 * (high % 16));
    var l, h := v % 0x100, 16 * (high / 16) + v / 0x100;
    Split(0x1000 * (high / 16) + v, 0x100, h, l);
    Split(h, 16, high / 16, v / 0x100);
    EntryBytes(l, h);
  }

  function Offset(cluster: nat): (o: nat) {
    cluster + cluster / 2
  }

  // `fat12_get` on a table that starts at `base`.
  function Get(image: seq<Byte>, base: nat, cluster: nat): (v: nat)
    requires base + Offset(cluster) + 1 < |image|
    ensures v < 0x1000
  {
    Entry(image[base + Offset(cluster)], image[base + Offset(cluster) + 1], cluster % 2 == 1)
  }

  // `fat12_set`: the entry reads back, every other entry is unchanged.
  method Set(fat: array<Byte>, cluster: nat, value: nat)
    requires Offset(cluster) + 1 < fat.Length
    modifies fat
    ensures Get(fat[..], 0, cluster) == value % 0x1000
    ensures forall c: nat :: c != cluster && Offset(c) + 1 < fat.Length ==>
      Get(fat[..], 0, c) == old(Get(fat[..], 0, c))
  {
    hide Entry, Replaced, Offset;
    var o := Offset(cluster);
    ghost var before := fat[..];
    var current := Replaced(fat[o], fat[o + 1], cluster % 2 == 1, value);
    ReplacedEntry(fat[o], fat[o + 1], cluster % 2 == 1, value);
    fat[o] := current % 0x100;
    fat[o + 1] := current / 0x100;
    forall c: nat | c != cluster && Offset(c) + 1 < fat.Length
      ensures Get(fat[..], 0, c) == Get(before, 0, c)
    {
      OtherEntry(before, fat[..], cluster, c);
    }
  }

  lemma Apart(a: nat, b: nat)
    requires a < b
    ensures Offset(a) + 1 < Offset(b) || (b == a + 1 && a % 2 == 0 && Offset(b) == Offset(a) + 1)
  {
  }

  // Neighbouring entries share a byte; only the other half of it is written.
  lemma OtherEntry(before: seq<Byte>, after: seq<Byte>, cluster: nat, c: nat)
    requires |after| == |before| && Offset(cluster) + 1 < |before| && Offset(c) + 1 < |before| && c != cluster
    requires forall i :: 0 <= i < |before| && i != Offset(cluster) && i != Offset(cluster) + 1 ==> after[i] == before[i]
    requires cluster % 2 == 1 ==> after[Offset(cluster)] % 16 == before[Offset(cluster)] % 16
    requires cluster % 2 == 0 ==> after[Offset(cluster) + 1] / 16 == before[Offset(cluster) + 1] / 16
    ensures Get(after, 0, c) == Get(before, 0, c)
  {
    hide Entry, Offset;
    var p := Offset(c);
    EntryBytes(before[p], before[p + 1]);
    EntryBytes(after[p], after[p + 1]);
    if c < cluster {
      Apart(c, cluster);
    } else {
      Apart(cluster, c);
    }
  }

  function Clusters(size: nat): (n: nat) {
    (size + SECTOR - 1) / SECTOR
  }

  // ---- what an image holds ----

  ghost predicate Holds(s: seq<Byte>, at: nat, d: seq<Byte>) {
    at + |d| <= |s| && s[at..at + |d|] == d
  }

  function OemLabel(): (b: seq<Byte>) { [0x5A, 0x45, 0x4E, 0x4F, 0x56, 0x4F, 0x53, 0x20] }
  function FatMarker(): (b: seq<Byte>) { [0x46, 0x41, 0x54, 0x31, 0x32, 0x20, 0x20, 0x20] }
  function VolumeName(): (b: seq<Byte>) { [0x5A, 0x45, 0x4E, 0x4F, 0x56, 0x4F, 0x53, 0x20, 0x20, 0x20, 0x20] }
  function KernelName(): (b: seq<Byte>) { [0x4B, 0x45, 0x52, 0x4E, 0x45, 0x4C, 0x20, 0x20, 0x42, 0x49, 0x4E] }

  // The kernel's clusters in order: from 2 along the table to an end mark, all on the disk and
  // none twice.
  ghost predicate Chain(image: seq<Byte>, chain: seq<nat>) {
    && |image| == IMAGE && |chain| > 0 && chain[0] == 2
    && (forall i :: 0 <= i < |chain| ==> 2 <= chain[i] <= 2848)
    && (forall i, j :: 0 <= i < j < |chain| ==> chain[i] != chain[j])
    && (forall i :: 1 <= i < |chain| ==> chain[i] == Get(image, FAT1, chain[i - 1]))
    && Get(image, FAT1, chain[|chain| - 1]) >= 0xFF8
  }

  function KernelSize(image: seq<Byte>): (n: U32)
    requires |image| == IMAGE
  {
    FromLe32(image[ENTRY + 28..ENTRY + 32])
  }

  // The fixed fields of the boot sector, and of the rest of the image.
  ghost predicate Marked(s: seq<Byte>) {
    Holds(s, 510, [0x55, 0xAA]) && Holds(s, 3, OemLabel()) && Holds(s, 11, Le16(512)) && Holds(s, 54, FatMarker())
  }

  ghost predicate Fields(image: seq<Byte>) {
    && |image| == IMAGE && Marked(image)
    && image[FAT1..FAT1 + FAT_BYTES] == image[FAT2..FAT2 + FAT_BYTES]
    && Holds(image, ROOT, VolumeName()) && Holds(image, ENTRY, KernelName()) && Holds(image, ENTRY + 26, Le16(2))
    && 0 < KernelSize(image) <= KERNEL_MAXIMUM
  }

  ghost predicate Acceptable(image: seq<Byte>) {
    Fields(image) && exists chain :: |chain| == Clusters(KernelSize(image)) && Chain(image, chain)
  }

  // The bytes of a chain.
  function Contents(image: seq<Byte>, chain: seq<nat>): (b: seq<Byte>)
    requires |image| == IMAGE && forall i :: 0 <= i < |chain| ==> 2 <= chain[i] <= 2848
    ensures |b| == SECTOR * |chain|
  {
    if chain == [] then [] else
      var n := |chain| - 1;
      var at := DATA + SECTOR * (chain[n] - 2);
      Contents(image, chain[..n]) + image[at..at + SECTOR]
  }

  // ---- the verifier ----

  // A chain is determined by the table, so the walk follows the only one there can be.
  lemma {:induction false} ChainUnique(image: seq<Byte>, a: seq<nat>, b: seq<nat>, n: nat)
    requires Chain(image, a) && Chain(image, b) && n <= |a| && n <= |b|
    ensures a[..n] == b[..n]
  {
    hide Get;
    if n > 1 {
      ChainUnique(image, a, b, n - 1);
      assert a[n - 2] == a[..n - 1][n - 2] && b[n - 2] == b[..n - 1][n - 2];
      assert a[..n] == a[..n - 1] + [a[n - 1]] && b[..n] == b[..n - 1] + [b[n - 1]];
    } else if n == 1 {
      assert a[..1] == [a[0]] && b[..1] == [b[0]];
    }
  }

  // The clusters walked so far, up to `cluster`, which comes next.
  ghost predicate Walked(image: seq<Byte>, walked: seq<nat>, cluster: nat) {
    && |image| == IMAGE
    && (forall i :: 0 <= i < |walked| ==> 2 <= walked[i] <= 2848)
    && (forall i, j :: 0 <= i < j < |walked| ==> walked[i] != walked[j])
    && (forall i :: 1 <= i < |walked| ==> walked[i] == Get(image, FAT1, walked[i - 1]))
    && (|walked| == 0 ==> cluster == 2)
    && (|walked| > 0 ==> walked[0] == 2 && cluster == Get(image, FAT1, walked[|walked| - 1]))
  }

  // Any chain at least as long starts with what was walked; then it goes on to `cluster`, or
  // ends there.
  lemma {:induction false} WalkedPrefix(image: seq<Byte>, walked: seq<nat>, cluster: nat, chain: seq<nat>, n: nat)
    requires Walked(image, walked, cluster) && Chain(image, chain) && n <= |walked| <= |chain|
    ensures walked[..n] == chain[..n]
  {
    hide Get;
    if n > 1 {
      WalkedPrefix(image, walked, cluster, chain, n - 1);
      assert walked[n - 2] == walked[..n - 1][n - 2] && chain[n - 2] == chain[..n - 1][n - 2];
      assert walked[..n] == walked[..n - 1] + [walked[n - 1]] && chain[..n] == chain[..n - 1] + [chain[n - 1]];
    } else if n == 1 {
      assert walked[..1] == [walked[0]] && chain[..1] == [chain[0]];
    }
  }

  lemma WalkedNext(image: seq<Byte>, walked: seq<nat>, cluster: nat, chain: seq<nat>)
    requires Walked(image, walked, cluster) && Chain(image, chain) && |walked| <= |chain|
    ensures |walked| < |chain| ==> chain[|walked|] == cluster && cluster !in walked && 2 <= cluster <= 2848
    ensures |walked| == |chain| ==> cluster >= 0xFF8
  {
    hide Get;
    var n := |walked|;
    WalkedPrefix(image, walked, cluster, chain, n);
    assert walked == chain[..n];
  }

  lemma WalkedSnoc(image: seq<Byte>, walked: seq<nat>, cluster: nat)
    requires Walked(image, walked, cluster) && 2 <= cluster <= 2848 && cluster !in walked
    ensures Walked(image, walked + [cluster], Get(image, FAT1, cluster))
  {
    hide Get;
  }

  // The chain walk ends on every image and succeeds exactly when a chain of the expected
  // length exists.
  method WalkChain(image: seq<Byte>, expected: nat) returns (ok: bool)
    requires |image| == IMAGE && expected > 0
    ensures ok <==> exists chain :: |chain| == expected && Chain(image, chain)
  {
    hide Get, Chain, Walked;
    var visited := new bool[4096](_ => false);
    var cluster: nat := 2;
    var length := 0;
    ghost var walked: seq<nat> := [];
    assert Walked(image, walked, cluster) by { WalkedNone(image); }
    while cluster < 0xFF0
      invariant length == |walked| <= expected && Walked(image, walked, cluster)
      invariant forall c :: 0 <= c < 4096 ==> (visited[c] <==> c in walked)
      decreases expected - length
    {
      WalkedAny(image, walked, cluster, expected);
      if cluster < 2 || cluster >= 4096 || visited[cluster] {
        return false;
      }
      visited[cluster] := true;
      length := length + 1;
      if length > expected {
        return false;
      }
      var sector := 33 + (cluster - 2);
      if (sector + 1) * SECTOR > |image| {
        return false;
      }
      WalkedSnoc(image, walked, cluster);
      walked := walked + [cluster];
      cluster := Get(image, FAT1, cluster);
    }
    WalkedAny(image, walked, cluster, expected);
    ok := cluster >= 0xFF8 && length == expected;
    if ok {
      WalkedChain(image, walked, cluster);
    }
  }

  lemma WalkedNone(image: seq<Byte>)
    requires |image| == IMAGE
    ensures Walked(image, [], 2)
  {
  }

  lemma WalkedChain(image: seq<Byte>, walked: seq<nat>, cluster: nat)
    requires Walked(image, walked, cluster) && |walked| > 0 && cluster >= 0xFF8
    ensures Chain(image, walked)
  {
    hide Get;
  }

  // What the existence of a chain says about the next cluster.
  lemma WalkedAny(image: seq<Byte>, walked: seq<nat>, cluster: nat, expected: nat)
    requires Walked(image, walked, cluster) && |walked| <= expected
    ensures (exists chain :: |chain| == expected && Chain(image, chain)) ==>
      if |walked| < expected then cluster !in walked && 2 <= cluster <= 2848 else cluster >= 0xFF8
  {
    hide Get, Chain, Walked;
    if chain :| |chain| == expected && Chain(image, chain) {
      WalkedNext(image, walked, cluster, chain);
    }
  }

  // The whole verifier.
  method VerifyImage(image: seq<Byte>) returns (ok: bool)
    ensures ok <==> Acceptable(image)
  {
    hide Chain, Le16, FromLe32, Clusters;
    if |image| != IMAGE {
      return false;
    }
    if image[510..512] != [0x55, 0xAA] || image[3..11] != OemLabel() || image[11..13] != Le16(512) ||
      image[54..62] != FatMarker() {
      return false;
    }
    if image[FAT1..FAT1 + FAT_BYTES] != image[FAT2..FAT2 + FAT_BYTES] {
      return false;
    }
    if image[ROOT..ROOT + 11] != VolumeName() || image[ENTRY..ENTRY + 11] != KernelName() ||
      image[ENTRY + 26..ENTRY + 28] != Le16(2) {
      return false;
    }
    var size := KernelSize(image);
    if size == 0 || size > KERNEL_MAXIMUM {
      return false;
    }
    ClustersPositive(size);
    ok := WalkChain(image, Clusters(size));
  }

  lemma ClustersPositive(size: nat)
    requires size > 0
    ensures Clusters(size) > 0
  {
  }

  // ---- the builder ----

  // The table of a kernel of `n` clusters: media entries, one chain from cluster 2, free space.
  function TableEntry(n: nat, c: nat): (v: nat) {
    if c == 0 then 0xFF0 else if c == 1 then 0xFFF else if c < n + 1 then c + 1 else if c == n + 1 then 0xFFF else 0
  }

  method BuildTable(n: nat) returns (fat: array<Byte>)
    requires 0 < n <= MAX_CLUSTERS
    ensures fresh(fat) && fat.Length == FAT_BYTES
    ensures forall c: nat :: Offset(c) + 1 < FAT_BYTES ==> Get(fat[..], 0, c) == TableEntry(n, c)
  {
    fat := new Byte[FAT_BYTES](_ => 0);
    fat[0], fat[1], fat[2] := 0xF0, 0xFF, 0xFF;
    forall c: nat | Offset(c) + 1 < FAT_BYTES
      ensures Get(fat[..], 0, c) == if c < 2 then TableEntry(n, c) else 0
    {
      FreshTable(fat[..], c);
    }
    hide Get;
    for i := 0 to n
      invariant forall c: nat :: Offset(c) + 1 < FAT_BYTES ==>
        Get(fat[..], 0, c) == if c < 2 + i then TableEntry(n, c) else 0
    {
      var cluster := 2 + i;
      Set(fat, cluster, if i + 1 == n then 0xFFF else cluster + 1);
    }
  }

  lemma FreshTable(fat: seq<Byte>, c: nat)
    requires |fat| == FAT_BYTES && fat[0] == 0xF0 && fat[1] == 0xFF && fat[2] == 0xFF &&
      forall i :: 3 <= i < FAT_BYTES ==> fat[i] == 0
    requires Offset(c) + 1 < FAT_BYTES
    ensures Get(fat, 0, c) == if c == 0 then 0xFF0 else if c == 1 then 0xFFF else 0
  {
  }

  // Bytes written at an offset; every disjoint region keeps what it holds.
  method Write(image: array<Byte>, at: nat, data: seq<Byte>)
    requires at + |data| <= image.Length
    modifies image
    ensures Holds(image[..], at, data)
    ensures forall a: nat, d: seq<Byte> :: Holds(old(image[..]), a, d) && (a + |d| <= at || at + |data| <= a) ==>
      Holds(image[..], a, d)
  {
    ghost var before := image[..];
    var i := 0;
    while i < |data|
      invariant i <= |data|
      invariant forall j :: 0 <= j < image.Length ==> image[j] == if at <= j < at + i then data[j - at] else before[j]
    {
      image[at + i] := data[i];
      i := i + 1;
    }
    forall a: nat, d: seq<Byte> | Holds(before, a, d) && (a + |d| <= at || at + |data| <= a)
      ensures Holds(image[..], a, d)
    {
      assert image[..][a..a + |d|] == before[a..a + |d|];
    }
  }

  // Everything the builder puts in an image.
  ghost predicate Layout(image: seq<Byte>, boot: seq<Byte>, fat: seq<Byte>, kernel: seq<Byte>) {
    && |image| == IMAGE && |kernel| <= MAX_CLUSTERS * SECTOR
    && Holds(image, 0, boot) && Holds(image, FAT1, fat) && Holds(image, FAT2, fat)
    && Holds(image, ROOT, VolumeName()) && Holds(image, ENTRY, KernelName()) && Holds(image, ENTRY + 26, Le16(2))
    && Holds(image, ENTRY + 28, Le32(|kernel|)) && Holds(image, DATA, kernel)
  }

  method Assemble(boot: seq<Byte>, fat: seq<Byte>, kernel: seq<Byte>) returns (image: array<Byte>)
    requires |boot| == SECTOR && |fat| == FAT_BYTES && |kernel| <= MAX_CLUSTERS * SECTOR
    ensures fresh(image) && Layout(image[..], boot, fat, kernel)
  {
    hide Holds, VolumeName, KernelName, Le16, Le32;
    NameLengths();
    image := new Byte[IMAGE](_ => 0);
    Write(image, 0, boot);
    Write(image, FAT1, fat);
    Write(image, FAT2, fat);
    Write(image, ROOT, VolumeName());
    Write(image, ROOT + 11, [0x08]);
    Write(image, ENTRY, KernelName());
    Write(image, ENTRY + 11, [0x20]);
    Write(image, ENTRY + 26, Le16(2));
    Write(image, ENTRY + 28, Le32(|kernel|));
    Write(image, DATA, kernel);
  }

  lemma NameLengths()
    ensures |VolumeName()| == |KernelName()| == 11 && |OemLabel()| == |FatMarker()| == 8
  {
  }

  // ---- the builder and the verifier agree ----

  function Straight(n: nat): (chain: seq<nat>) {
    seq(n, i requires 0 <= i < n => 2 + i)
  }

  ghost predicate Table(fat: seq<Byte>, n: nat) {
    |fat| == FAT_BYTES && forall c: nat :: Offset(c) + 1 < FAT_BYTES ==> Get(fat, 0, c) == TableEntry(n, c)
  }

  lemma TableInImage(image: seq<Byte>, fat: seq<Byte>, c: nat)
    requires |image| == IMAGE && |fat| == FAT_BYTES && Holds(image, FAT1, fat) && 2 <= c <= 2848
    ensures Get(image, FAT1, c) == Get(fat, 0, c)
  {
    hide Entry;
    var o := Offset(c);
    assert fat[o] == image[FAT1..FAT1 + FAT_BYTES][o] && fat[o + 1] == image[FAT1..FAT1 + FAT_BYTES][o + 1];
  }

  // The built chain is 2, 3, and so on.
  lemma StraightChain(image: seq<Byte>, fat: seq<Byte>, n: nat)
    requires |image| == IMAGE && Table(fat, n) && Holds(image, FAT1, fat) && 0 < n <= MAX_CLUSTERS
    ensures Chain(image, Straight(n))
  {
    hide Get, Holds;
    forall c: nat | 2 <= c <= n + 1
      ensures Get(image, FAT1, c) == TableEntry(n, c)
    {
      TableInImage(image, fat, c);
    }
  }

  // Reading the straight chain reads the data area in order.
  lemma {:induction false} StraightContents(image: seq<Byte>, n: nat)
    requires |image| == IMAGE && n <= MAX_CLUSTERS
    ensures forall i :: 0 <= i < n ==> 2 <= Straight(n)[i] <= 2848
    ensures Contents(image, Straight(n)) == image[DATA..DATA + SECTOR * n]
  {
    if n > 0 {
      assert Straight(n)[..n - 1] == Straight(n - 1);
      StraightContents(image, n - 1);
    }
  }

  // The verifier accepts a built image exactly when the boot sector carries its marks and the
  // kernel fits the loader.
  lemma BuiltAccepted(image: seq<Byte>, boot: seq<Byte>, fat: seq<Byte>, kernel: seq<Byte>)
    requires Layout(image, boot, fat, kernel) && |boot| == SECTOR && |fat| == FAT_BYTES && 0 < |kernel| &&
      Table(fat, Clusters(|kernel|))
    ensures Acceptable(image) <==> Marked(boot) && |kernel| <= KERNEL_MAXIMUM
  {
    hide Chain, Table;
    MarkedBoot(image, boot);
    BuiltSize(image, boot, fat, kernel);
    StraightChain(image, fat, Clusters(|kernel|));
    assert |Straight(Clusters(|kernel|))| == Clusters(|kernel|);
    BuiltCopies(image, boot, fat, kernel);
  }

  lemma BuiltCopies(image: seq<Byte>, boot: seq<Byte>, fat: seq<Byte>, kernel: seq<Byte>)
    requires Layout(image, boot, fat, kernel) && |fat| == FAT_BYTES
    ensures image[FAT1..FAT1 + FAT_BYTES] == image[FAT2..FAT2 + FAT_BYTES]
  {
  }

  lemma BuiltSize(image: seq<Byte>, boot: seq<Byte>, fat: seq<Byte>, kernel: seq<Byte>)
    requires Layout(image, boot, fat, kernel)
    ensures KernelSize(image) == |kernel|
  {
    hide Le32, FromLe32;
    Le32RoundTrip(|kernel|);
  }

  lemma MarkedBoot(image: seq<Byte>, boot: seq<Byte>)
    requires Holds(image, 0, boot) && |boot| == SECTOR
    ensures Marked(image) <==> Marked(boot)
  {
    hide Le16, OemLabel, FatMarker;
    NameLengths();
    assert image[..SECTOR] == boot;
    assert boot[510..512] == image[510..512] && boot[3..11] == image[3..11];
    assert boot[11..13] == image[11..13] && boot[54..62] == image[54..62];
  }

  // Whatever chain the verifier finds in a built image, its bytes are the kernel's.
  lemma BuiltReads(image: seq<Byte>, boot: seq<Byte>, fat: seq<Byte>, kernel: seq<Byte>, chain: seq<nat>)
    requires Layout(image, boot, fat, kernel) && 0 < |kernel| && Table(fat, Clusters(|kernel|))
    requires Chain(image, chain) && |chain| == Clusters(|kernel|)
    ensures Contents(image, chain)[..|kernel|] == kernel
  {
    hide Table, Get;
    var n := Clusters(|kernel|);
    StraightChain(image, fat, n);
    ChainUnique(image, chain, Straight(n), n);
    assert chain[..n] == chain && Straight(n)[..n] == Straight(n);
    StraightContents(image, n);
    assert image[DATA..DATA + SECTOR * n][..|kernel|] == image[DATA..DATA + |kernel|];
  }

  // The builder: refused exactly for a malformed boot sector, an empty kernel or one past the
  // disk's end; otherwise the verifier's verdict and the bytes it finds are known.
  method BuildImage(boot: seq<Byte>, kernel: seq<Byte>) returns (r: Option<seq<Byte>>)
    ensures r.Some? <==> |boot| == SECTOR && Holds(boot, 510, [0x55, 0xAA]) && 0 < |kernel| <= MAX_CLUSTERS * SECTOR
    ensures r.Some? ==> (Acceptable(r.value) <==> Marked(boot) && |kernel| <= KERNEL_MAXIMUM)
    ensures r.Some? ==> forall chain :: Chain(r.value, chain) && |chain| == Clusters(|kernel|) ==>
      Contents(r.value, chain)[..|kernel|] == kernel
  {
    hide Acceptable, Get, Contents;
    if |boot| != SECTOR || boot[510] != 0x55 || boot[511] != 0xAA || kernel == [] {
      return None;
    }
    var clusters := Clusters(|kernel|);
    if clusters > MAX_CLUSTERS {
      return None;
    }
    var fat := BuildTable(clusters);
    var image := Assemble(boot, fat[..], kernel);
    BuiltAccepted(image[..], boot, fat[..], kernel);
    forall chain | Chain(image[..], chain) && |chain| == clusters
      ensures Contents(image[..], chain)[..|kernel|] == kernel
    {
      BuiltReads(image[..], boot, fat[..], kernel, chain);
    }
    return Some(image[..]);
  }
}
