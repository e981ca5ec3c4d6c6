// The ZGAL1 audit journal: a 64-slot ring of hash-chained records with an anchor for the
// records that were rotated out. The digest function is a parameter throughout.
module AuditLog {
  import opened Bytes

  const CAPACITY: nat := 64

  function ZeroDigest(): (d: Digest)
    ensures forall i :: 0 <= i < 32 ==> d[i] == 0
  {
    Zeros(32)
  }

  datatype Header = Header(
    magic: seq<Byte>, schema: U16, headerSize: U16, recordSize: U16, capacity: U16,
    count: U32, nextIndex: U32, nextSequence: U32, anchor: Digest, head: Digest, reserved: seq<Byte>)

  type Path48 = s: seq<Byte> | |s| == 48 witness seq(48, _ => 0)

  datatype Record = Record(
    sequence: U32, tick: U32, action: Byte, verdict: Byte, pathLength: U16, path: Path48,
    digest: Digest, recordHash: Digest, reserved: seq<Byte>)

  datatype Journal = Journal(header: Header, records: seq<Record>)

  // "ZENOV-AUDIT-V1", NUL-padded to 16 bytes.
  const DOMAIN: seq<Byte> := [0x5A, 0x45, 0x4E, 0x4F, 0x56, 0x2D, 0x41, 0x55, 0x44, 0x49, 0x54, 0x2D, 0x56, 0x31, 0, 0]

  const ZGAL: seq<Byte> := [0x5A, 0x47, 0x41, 0x4C]

  // ---- record_hash ----

  function HashInput(r: Record, previous: Digest): (b: seq<Byte>)
    ensures |b| == 140
  {
    DOMAIN + previous + (Le32(r.sequence) + Le32(r.tick) + [r.action, r.verdict] + Le16(r.pathLength)) + r.path +
      r.digest
  }

  function RecordHash(h: Hash, r: Record, previous: Digest): (d: Digest) {
    h(HashInput(r, previous))
  }

  // Everything a record holds apart from its own hash and its padding.
  ghost predicate SameContent(r: Record, s: Record) {
    && r.sequence == s.sequence && r.tick == s.tick && r.action == s.action && r.verdict == s.verdict
    && r.pathLength == s.pathLength && r.path == s.path && r.digest == s.digest
  }

  // The hash input determines the record and the previous hash.
  lemma HashInputInjective(r: Record, p: Digest, s: Record, q: Digest)
    requires HashInput(r, p) == HashInput(s, q)
    ensures SameContent(r, s) && p == q
  {
    var a, b := HashInput(r, p), HashInput(s, q);
    assert p == a[16..48] && q == b[16..48];
    assert Le32(r.sequence) == a[48..52] && Le32(s.sequence) == b[48..52];
    assert Le32(r.tick) == a[52..56] && Le32(s.tick) == b[52..56];
    assert r.action == a[56] && s.action == b[56] && r.verdict == a[57] && s.verdict == b[57];
    assert Le16(r.pathLength) == a[58..60] && Le16(s.pathLength) == b[58..60];
    assert r.path == a[60..108] && s.path == b[60..108];
    assert r.digest == a[108..140] && s.digest == b[108..140];
    Le32Injective(r.sequence, s.sequence);
    Le32Injective(r.tick, s.tick);
    Le16RoundTrip(r.pathLength);
    Le16RoundTrip(s.pathLength);
  }

  // ---- verify ----

  predicate HeaderOk(h: Header) {
    && h.magic == ZGAL && h.schema == 1 && h.headerSize == 96 && h.recordSize == 128 && h.capacity == 64
    && h.count <= CAPACITY && h.nextIndex < CAPACITY && h.nextSequence != 0
    && h.reserved == Zeros(8)
  }

  predicate RecordOk(r: Record, sequence: int) {
    && r.sequence == sequence && r.action <= 9 && r.verdict <= 5
    && 0 < r.pathLength < 48
    && (forall p :: r.pathLength <= p < 48 ==> r.path[p] == 0)
    && r.reserved == Zeros(4)
  }

  // The ring slot of the oldest retained record.
  function First(h: Header): (i: nat) {
    if h.count == CAPACITY then h.nextIndex else 0
  }

  // The `i`-th retained record, oldest first.
  function Logical(j: Journal, i: nat): (r: Record)
    requires |j.records| == CAPACITY
  {
    j.records[(First(j.header) + i) % CAPACITY]
  }

  // The chain hash after `i` retained records, recomputed from the anchor.
  function Running(h: Hash, j: Journal, i: nat): (d: Digest)
    requires |j.records| == CAPACITY
  {
    if i == 0 then j.header.anchor else RecordHash(h, Logical(j, i - 1), Running(h, j, i - 1))
  }

  // The `i`-th retained record is well formed, in sequence, and carries the chain hash.
  ghost predicate LinkOk(h: Hash, j: Journal, i: nat)
    requires |j.records| == CAPACITY
  {
    && RecordOk(Logical(j, i), j.header.nextSequence - j.header.count + i)
    && Logical(j, i).recordHash == RecordHash(h, Logical(j, i), Running(h, j, i))
  }

  ghost predicate Verified(h: Hash, j: Journal) {
    var c := j.header.count;
    && |j.records| == CAPACITY && HeaderOk(j.header)
    && if c == 0 then
         j.header.nextIndex == 0 && j.header.nextSequence == 1
         && j.header.anchor == ZeroDigest() && j.header.head == ZeroDigest()
       else
         && j.header.nextSequence > c
         && (c < CAPACITY ==> j.header.nextIndex == c && j.header.anchor == ZeroDigest())
         && (forall i :: 0 <= i < c ==> LinkOk(h, j, i))
         && Running(h, j, c) == j.header.head
  }

  // `verify` (with `require_nonempty` unset), the record loop and its running hash.
  method Verify(h: Hash, j: Journal) returns (ok: bool)
    requires |j.records| == CAPACITY
    ensures ok <==> Verified(h, j)
  {
    hide RecordOk, RecordHash;
    var head := j.header;
    if !HeaderOk(head) {
      return false;
    }
    if head.count == 0 {
      return head.nextIndex == 0 && head.nextSequence == 1 && head.anchor == ZeroDigest() && head.head == ZeroDigest();
    }
    if head.nextSequence <= head.count {
      return false;
    }
    if head.count < CAPACITY && (head.nextIndex != head.count || head.anchor != ZeroDigest()) {
      return false;
    }
    var first := if head.count == CAPACITY then head.nextIndex else 0;
    var firstSequence := head.nextSequence - head.count;
    var previous := head.anchor;
    var i := 0;
    while i < head.count
      invariant i <= head.count && previous == Running(h, j, i)
      invariant forall k :: 0 <= k < i ==> LinkOk(h, j, k)
    {
      var record := j.records[(first + i) % CAPACITY];
      assert record == Logical(j, i);
      if !RecordOk(record, firstSequence + i) {
        assert !LinkOk(h, j, i);
        return false;
      }
      var computed := RecordHash(h, record, previous);
      if computed != record.recordHash {
        assert !LinkOk(h, j, i);
        return false;
      }
      previous := computed;
      i := i + 1;
    }
    return previous == head.head;
  }

  // ---- tamper evidence ----

  // Equal running hashes force equal prefixes of the chain, or give a collision.
  lemma {:induction false} ChainsAgree(h: Hash, j: Journal, k: Journal, n: nat) returns (x: seq<Byte>, y: seq<Byte>)
    requires |j.records| == CAPACITY && |k.records| == CAPACITY
    requires Running(h, j, n) == Running(h, k, n)
    ensures Collision(h, x, y) ||
            (j.header.anchor == k.header.anchor && forall i :: 0 <= i < n ==> SameContent(Logical(j, i), Logical(k, i)))
  {
    hide Logical, HashInput, SameContent;
    x, y := [], [];
    if n > 0 {
      var r, s := Logical(j, n - 1), Logical(k, n - 1);
      var p, q := Running(h, j, n - 1), Running(h, k, n - 1);
      if HashInput(r, p) != HashInput(s, q) {
        x, y := HashInput(r, p), HashInput(s, q);
      } else {
        HashInputInjective(r, p, s, q);
        x, y := ChainsAgree(h, j, k, n - 1);
      }
    }
  }

  // Two journals that verify with the same count and head hash hold the same anchor and the
  // same records in logical order, wherever each ring starts, or the two distinct inputs `x`
  // and `y` have the same digest.
  lemma TamperEvidence(h: Hash, j: Journal, k: Journal) returns (x: seq<Byte>, y: seq<Byte>)
    requires Verified(h, j) && Verified(h, k)
    requires j.header.count == k.header.count && j.header.head == k.header.head
    ensures Collision(h, x, y) ||
            (j.header.anchor == k.header.anchor && j.header.nextSequence == k.header.nextSequence
             && forall i :: 0 <= i < j.header.count ==> Logical(j, i) == Logical(k, i))
  {
    hide Running, RecordHash, HeaderOk, Logical, Collision;
    var n := j.header.count;
    if n == 0 {
      x, y := [], [];
    } else {
      x, y := ChainsAgree(h, j, k, n);
      if !Collision(h, x, y) {
        assert LinkOk(h, j, 0) && LinkOk(h, k, 0) && SameContent(Logical(j, 0), Logical(k, 0));
        forall i | 0 <= i < n
          ensures Logical(j, i) == Logical(k, i)
        {
          assert LinkOk(h, j, i) && LinkOk(h, k, i) && SameContent(Logical(j, i), Logical(k, i));
          RunningAgrees(h, j, k, i);
          SameHash(h, Logical(j, i), Logical(k, i), Running(h, j, i));
        }
      }
    }
  }

  lemma SameHash(h: Hash, r: Record, s: Record, p: Digest)
    requires SameContent(r, s)
    ensures RecordHash(h, r, p) == RecordHash(h, s, p)
  {
  }

  lemma {:induction false} RunningAgrees(h: Hash, j: Journal, k: Journal, n: nat)
    requires |j.records| == CAPACITY && |k.records| == CAPACITY
    requires j.header.anchor == k.header.anchor && forall i :: 0 <= i < n ==> SameContent(Logical(j, i), Logical(k, i))
    ensures Running(h, j, n) == Running(h, k, n)
  {
    hide RecordHash;
    if n > 0 {
      RunningAgrees(h, j, k, n - 1);
      SameHash(h, Logical(j, n - 1), Logical(k, n - 1), Running(h, j, n - 1));
    }
  }

  // ---- the unbounded log the ring stands for ----

  datatype Event = Event(tick: U32, action: Byte, verdict: Byte, path: seq<Byte>, digest: Digest)

  predicate ValidEvent(e: Event) {
    e.action <= 9 && e.verdict <= 5 && 0 < |e.path| < 48
  }

  // The record of an event, before its hash is known.
  function Unhashed(e: Event, sequence: U32): (r: Record)
    requires ValidEvent(e)
  {
    Record(sequence, e.tick, e.action, e.verdict, |e.path|, e.path + Zeros(48 - |e.path|), e.digest, ZeroDigest(),
      Zeros(4))
  }

  // `e` is the event of record `r`.
  ghost predicate Records(e: Event, sequence: U32, r: Record) {
    ValidEvent(e) && r == Unhashed(e, sequence).(recordHash := r.recordHash)
  }

  // Verification accepts a record exactly when it is that of some event an append can write.
  lemma RecordOkExact(r: Record, sequence: U32)
    ensures RecordOk(r, sequence) <==> exists e :: Records(e, sequence, r)
  {
    if RecordOk(r, sequence) {
      var e := Event(r.tick, r.action, r.verdict, r.path[..r.pathLength], r.digest);
      assert e.path + Zeros(48 - |e.path|) == r.path;
      assert Records(e, sequence, r);
    }
  }

  function EventHash(h: Hash, e: Event, sequence: U32, previous: Digest): (d: Digest)
    requires ValidEvent(e)
  {
    RecordHash(h, Unhashed(e, sequence), previous)
  }

  type History = s: seq<Event> | |s| < 0xFFFF_FFFF && forall i :: 0 <= i < |s| ==> ValidEvent(s[i]) witness []

  // The chain hash of a whole history.
  function ChainHash(h: Hash, log: History): (d: Digest)
    decreases |log|
  {
    if log == [] then ZeroDigest()
    else EventHash(h, log[|log| - 1], |log|, ChainHash(h, log[..|log| - 1]))
  }

  // The record that event `i` of the history leaves.
  function RecordAt(h: Hash, log: History, i: nat): (r: Record)
    requires i < |log|
  {
    Unhashed(log[i], i + 1).(recordHash := ChainHash(h, log[..i + 1]))
  }

  function Retained(n: nat): (c: nat)
    ensures c <= n && c <= CAPACITY
  {
    if n < CAPACITY then n else CAPACITY
  }

  // The journal is the ring image of `log`: the last 64 events in their slots, the chain hash
  // of everything older as anchor, the chain hash of everything as head.
  ghost predicate Represents(h: Hash, j: Journal, log: History) {
    var n := |log|;
    && |j.records| == CAPACITY && HeaderOk(j.header)
    && j.header.count == Retained(n) && j.header.nextIndex == n % CAPACITY && j.header.nextSequence == n + 1
    && j.header.anchor == ChainHash(h, log[..n - Retained(n)])
    && j.header.head == ChainHash(h, log)
    && forall i :: n - Retained(n) <= i < n ==> j.records[i % CAPACITY] == RecordAt(h, log, i)
  }

  function EmptyHeader(): (h: Header)
    ensures HeaderOk(h)
  {
    Header(ZGAL, 1, 96, 128, 64, 0, 0, 1, ZeroDigest(), ZeroDigest(), Zeros(8))
  }

  function EmptyRecord(): (r: Record) {
    Record(0, 0, 0, 0, 0, Zeros(48), ZeroDigest(), ZeroDigest(), Zeros(4))
  }

  // `initialize_empty`.
  function EmptyJournal(): (j: Journal)
    ensures |j.records| == CAPACITY
  {
    Journal(EmptyHeader(), seq(CAPACITY, _ => EmptyRecord()))
  }

  lemma EmptyRepresents(h: Hash)
    ensures Represents(h, EmptyJournal(), [])
  {
  }

  // The body of `append_event` for an arbitrary event.
  function Appended(h: Hash, j: Journal, e: Event): (r: Journal)
    requires |j.records| == CAPACITY && j.header.nextIndex < CAPACITY && j.header.nextSequence < 0xFFFF_FFFF &&
      ValidEvent(e)
    ensures |r.records| == CAPACITY
  {
    var o := j.header;
    var i := o.nextIndex;
    var record := Unhashed(e, o.nextSequence);
    var hash := RecordHash(h, record, o.head);
    Journal(o.(anchor := if o.count == CAPACITY then j.records[i].recordHash else o.anchor,
               count := if o.count < CAPACITY then o.count + 1 else o.count,
               nextIndex := (i + 1) % CAPACITY,
               nextSequence := o.nextSequence + 1,
               head := hash),
            j.records[i := record.(recordHash := hash)])
  }

  lemma ChainHashSnoc(h: Hash, log: History, e: Event)
    requires ValidEvent(e) && |log| + 1 < 0xFFFF_FFFF
    ensures ChainHash(h, log + [e]) == EventHash(h, e, |log| + 1, ChainHash(h, log))
  {
    hide EventHash;
    assert (log + [e])[..|log|] == log;
  }

  // ---- what a verified journal records ----

  lemma RecordAtGrows(h: Hash, log: History, e: Event, i: nat)
    requires ValidEvent(e) && |log| + 1 < 0xFFFF_FFFF && i < |log|
    ensures RecordAt(h, log + [e], i) == RecordAt(h, log, i)
  {
    hide ChainHash;
    assert (log + [e])[..i + 1] == log[..i + 1];
  }

  lemma RecordAtLast(h: Hash, log: History, e: Event, r: Record)
    requires |log| + 1 < 0xFFFF_FFFF && Records(e, |log| + 1, r)
    requires r.recordHash == RecordHash(h, r, ChainHash(h, log))
    ensures RecordAt(h, log + [e], |log|) == r && ChainHash(h, log + [e]) == r.recordHash
  {
    hide ChainHash, RecordHash;
    ChainHashSnoc(h, log, e);
    SameHash(h, r, Unhashed(e, |log| + 1), ChainHash(h, log));
    assert (log + [e])[..|log| + 1] == log + [e];
  }

  // The events of the first `n` records of a journal that has not rotated.
  lemma {:induction false} LogOf(h: Hash, j: Journal, n: nat) returns (log: History)
    requires |j.records| == CAPACITY && n <= j.header.count < CAPACITY && j.header.anchor == ZeroDigest()
    requires j.header.nextSequence == j.header.count + 1 && forall i :: 0 <= i < n ==> LinkOk(h, j, i)
    ensures |log| == n && ChainHash(h, log) == Running(h, j, n)
    ensures forall i :: 0 <= i < n ==> j.records[i] == RecordAt(h, log, i)
  {
    hide RecordHash, RecordAt, RecordOk, Records, ChainHash, ZeroDigest;
    EmptyChain(h);
    log := [];
    if n > 0 {
      var older := LogOf(h, j, n - 1);
      var r := Logical(j, n - 1);
      assert LinkOk(h, j, n - 1);
      RecordOkExact(r, n);
      var e :| Records(e, n, r);
      RecordsValid(e, n, r);
      log := older + [e];
      RecordAtLast(h, older, e, r);
      forall i | 0 <= i < n - 1
        ensures RecordAt(h, log, i) == RecordAt(h, older, i)
      {
        RecordAtGrows(h, older, e, i);
      }
    }
  }

  lemma RecordsValid(e: Event, sequence: U32, r: Record)
    requires Records(e, sequence, r)
    ensures ValidEvent(e)
  {
  }

  // Until it rotates, a verified journal is the ring of some log exactly when its numbering
  // starts at 1, which verification does not ask.
  lemma VerifiedIsLog(h: Hash, j: Journal)
    requires Verified(h, j) && j.header.count < CAPACITY
    ensures (exists log: History :: Represents(h, j, log)) <==> j.header.nextSequence == j.header.count + 1
  {
    hide Represents, RecordAt, LinkOk, HeaderOk, ChainHash, Running;
    if j.header.nextSequence == j.header.count + 1 {
      EmptyRunning(h, j);
      var log := LogOf(h, j, j.header.count);
      LogRepresents(h, j, log);
    }
    forall log: History | Represents(h, j, log)
      ensures j.header.nextSequence == j.header.count + 1
    {
      NumberedFromOne(h, j, log);
    }
  }

  // It need not: a journal whose only record is numbered 5 verifies.
  lemma GapVerifies(h: Hash, e: Event) returns (j: Journal)
    requires ValidEvent(e)
    ensures Verified(h, j) && j.header.count == 1 && j.header.nextSequence == 6
    ensures !exists log: History :: Represents(h, j, log)
  {
    hide RecordHash, Represents;
    var r := Unhashed(e, 5);
    var hash := RecordHash(h, r, ZeroDigest());
    var slot := r.(recordHash := hash);
    j := Journal(EmptyHeader().(count := 1, nextIndex := 1, nextSequence := 6, head := hash),
                 EmptyJournal().records[0 := slot]);
    SameHash(h, r, slot, ZeroDigest());
    assert Logical(j, 0) == slot && Running(h, j, 0) == ZeroDigest();
    assert LinkOk(h, j, 0);
    assert Running(h, j, 1) == hash;
    VerifiedIsLog(h, j);
  }

  lemma EmptyRunning(h: Hash, j: Journal)
    requires |j.records| == CAPACITY
    ensures Running(h, j, 0) == j.header.anchor
  {
  }

  lemma LogRepresents(h: Hash, j: Journal, log: History)
    requires |j.records| == CAPACITY && HeaderOk(j.header) && |log| == j.header.count < CAPACITY
    requires j.header.nextIndex == |log| && j.header.nextSequence == |log| + 1 && j.header.anchor == ZeroDigest()
    requires j.header.head == ChainHash(h, log)
    requires forall i :: 0 <= i < |log| ==> j.records[i] == RecordAt(h, log, i)
    ensures Represents(h, j, log)
  {
    hide RecordAt, HeaderOk, ChainHash, ZeroDigest;
    EmptyChain(h);
    assert log[..0] == [];
    assert forall i :: 0 <= i < |log| ==> i % CAPACITY == i;
  }

  lemma EmptyChain(h: Hash)
    ensures ChainHash(h, []) == ZeroDigest()
  {
  }

  lemma NumberedFromOne(h: Hash, j: Journal, log: History)
    requires Represents(h, j, log) && j.header.count < CAPACITY
    ensures j.header.nextSequence == j.header.count + 1
  {
    hide RecordAt, HeaderOk, ChainHash;
  }

  lemma AppendSlots(h: Hash, j: Journal, log: History, e: Event, i: nat)
    requires Represents(h, j, log) && ValidEvent(e) && |log| + 1 < 0xFFFF_FFFF
    requires |log| + 1 - Retained(|log| + 1) <= i <= |log|
    ensures Appended(h, j, e).records[i % CAPACITY] == RecordAt(h, log + [e], i)
  {
    hide ChainHash, RecordHash, Unhashed, HeaderOk;
    var n := |log|;
    var longer: History := log + [e];
    if i == n {
      ChainHashSnoc(h, log, e);
      assert longer[..n + 1] == longer;
    } else {
      assert i % CAPACITY != n % CAPACITY;
      assert longer[..i + 1] == log[..i + 1];
    }
  }

  lemma AppendAnchor(h: Hash, j: Journal, log: History, e: Event)
    requires Represents(h, j, log) && ValidEvent(e) && |log| + 1 < 0xFFFF_FFFF
    ensures Appended(h, j, e).header.anchor == ChainHash(h, (log + [e])[..|log| + 1 - Retained(|log| + 1)])
  {
    hide ChainHash, RecordHash, Unhashed, HeaderOk;
    var n := |log|;
    if n >= CAPACITY {
      var oldest := n - CAPACITY;
      assert oldest % CAPACITY == n % CAPACITY;
      assert j.records[oldest % CAPACITY] == RecordAt(h, log, oldest);
      assert (log + [e])[..n + 1 - CAPACITY] == log[..oldest + 1];
    } else {
      assert (log + [e])[..0] == log[..0];
    }
  }

  lemma NextSlot(n: nat)
    ensures (n % CAPACITY + 1) % CAPACITY == (n + 1) % CAPACITY
  {
  }

  lemma AppendHead(h: Hash, j: Journal, log: History, e: Event)
    requires Represents(h, j, log) && ValidEvent(e) && |log| + 1 < 0xFFFF_FFFF
    ensures var k, n := Appended(h, j, e), |log| + 1;
            && |k.records| == CAPACITY && HeaderOk(k.header) && k.header.head == ChainHash(h, log + [e])
            && k.header.count == Retained(n) && k.header.nextIndex == n % CAPACITY && k.header.nextSequence == n + 1
  {
    hide ChainHash, RecordHash, Unhashed, RecordAt;
    ChainHashSnoc(h, log, e);
    NextSlot(|log|);
  }

  // One append of the ring is one append of the log.
  lemma AppendRefines(h: Hash, j: Journal, log: History, e: Event)
    requires Represents(h, j, log) && ValidEvent(e) && |log| + 1 < 0xFFFF_FFFF
    ensures Represents(h, Appended(h, j, e), log + [e])
  {
    hide ChainHash, RecordHash, Unhashed, RecordAt, Appended, HeaderOk;
    var n := |log|;
    AppendHead(h, j, log, e);
    AppendAnchor(h, j, log, e);
    forall i | n + 1 - Retained(n + 1) <= i < n + 1
      ensures Appended(h, j, e).records[i % CAPACITY] == RecordAt(h, log + [e], i)
    {
      AppendSlots(h, j, log, e, i);
    }
  }

  // In logical order the ring holds exactly the last retained events.
  lemma LogicalIs(h: Hash, j: Journal, log: History, k: nat)
    requires Represents(h, j, log) && k < Retained(|log|)
    ensures Logical(j, k) == RecordAt(h, log, |log| - Retained(|log|) + k)
  {
    hide ChainHash, HeaderOk, RecordAt;
    var n := |log|;
    var i := n - Retained(n) + k;
    assert (First(j.header) + k) % CAPACITY == i % CAPACITY;
  }

  lemma {:induction false} RunningIs(h: Hash, j: Journal, log: History, k: nat)
    requires Represents(h, j, log) && k <= Retained(|log|)
    ensures Running(h, j, k) == ChainHash(h, log[..|log| - Retained(|log|) + k])
  {
    hide RecordHash, HeaderOk, Logical;
    if k > 0 {
      var i := |log| - Retained(|log|) + k - 1;
      RunningIs(h, j, log, k - 1);
      LogicalIs(h, j, log, k - 1);
      assert log[..i + 1][..i] == log[..i];
      SameHash(h, RecordAt(h, log, i), Unhashed(log[i], i + 1), ChainHash(h, log[..i]));
    }
  }

  lemma RecordAtOk(h: Hash, log: History, i: nat)
    requires i < |log|
    ensures RecordOk(RecordAt(h, log, i), i + 1)
  {
    hide ChainHash;
  }

  // The ring of any history verifies.
  lemma RepresentsVerifies(h: Hash, j: Journal, log: History)
    requires Represents(h, j, log)
    ensures Verified(h, j)
  {
    hide RecordHash, RecordOk, Logical, RecordAt;
    var n, c := |log|, Retained(|log|);
    assert log[..0] == [];
    assert log[..n] == log;
    RunningIs(h, j, log, c);
    forall i | 0 <= i < c
      ensures LinkOk(h, j, i)
    {
      LinkIs(h, j, log, i);
    }
  }

  lemma LinkIs(h: Hash, j: Journal, log: History, k: nat)
    requires Represents(h, j, log) && k < Retained(|log|)
    ensures LinkOk(h, j, k)
  {
    hide RecordOk, ChainHash, RecordHash, Logical, HeaderOk;
    var i := |log| - Retained(|log|) + k;
    LogicalIs(h, j, log, k);
    RecordAtOk(h, log, i);
    RunningIs(h, j, log, k + 1);
    assert Running(h, j, k + 1) == RecordHash(h, Logical(j, k), Running(h, j, k));
  }

  // ---- whole runs ----

  // The journal after appending every event of `log` to an empty one.
  ghost function Filled(h: Hash, log: History): (j: Journal)
    ensures Represents(h, j, log)
    decreases |log|
  {
    if log == [] then
      EmptyRepresents(h);
      EmptyJournal()
    else
      var p := log[..|log| - 1];
      FilledStep(h, Filled(h, p), log);
      Appended(h, Filled(h, p), log[|log| - 1])
  }

  lemma FilledStep(h: Hash, j: Journal, log: History)
    requires log != [] && Represents(h, j, log[..|log| - 1])
    ensures |j.records| == CAPACITY && j.header.nextIndex < CAPACITY && j.header.nextSequence < 0xFFFF_FFFF
    ensures Represents(h, Appended(h, j, log[|log| - 1]), log)
  {
    hide Represents, Appended;
    var p := log[..|log| - 1];
    RepresentsHeader(h, j, p);
    AppendRefines(h, j, p, log[|log| - 1]);
    assert p + [log[|log| - 1]] == log;
  }

  // The ring refines the unbounded log over every run: the journal verifies, holds the last
  // retained events oldest first, anchors the dropped prefix and heads the whole history.
  lemma RingRefinesLog(h: Hash, log: History)
    ensures var j, n, c := Filled(h, log), |log|, Retained(|log|);
            && Verified(h, j)
            && j.header.count == c && j.header.nextSequence == n + 1
            && j.header.anchor == ChainHash(h, log[..n - c]) && j.header.head == ChainHash(h, log)
            && forall k :: 0 <= k < c ==> Logical(j, k) == RecordAt(h, log, n - c + k)
  {
    hide ChainHash, RecordAt, Logical, HeaderOk, Verified;
    var j := Filled(h, log);
    RepresentsVerifies(h, j, log);
    forall k | 0 <= k < Retained(|log|)
      ensures Logical(j, k) == RecordAt(h, log, |log| - Retained(|log|) + k)
    {
      LogicalIs(h, j, log, k);
    }
  }

  // ---- append_event ----

  function Digits(n: nat): (s: seq<Byte>)
    ensures s != []
  {
    if n < 10 then [0x30 + n] else Digits(n / 10) + [0x30 + n % 10]
  }

  lemma {:induction false} DigitsBound(n: nat, k: nat, limit: nat)
    requires 1 <= k <= 10 && limit ==
      [0, 10, 100, 1000, 10000, 100000, 1000000, 10000000, 100000000, 1000000000, 10000000000][k] && n < limit
    ensures |Digits(n)| <= k
    decreases k
  {
    if n >= 10 {
      DigitsBound(n / 10, k - 1, limit / 10);
    }
  }

  // The number a string of decimal digits stands for.
  function DecimalOf(s: seq<Byte>): (n: int) {
    if s == [] then 0 else 10 * DecimalOf(s[..|s| - 1]) + (s[|s| - 1] as int - 0x30)
  }

  // Decimal digits without leading zeros, which read back.
  lemma {:induction false} DigitsRead(n: nat)
    ensures DecimalOf(Digits(n)) == n && (n > 0 ==> Digits(n)[0] != 0x30)
    ensures forall i :: 0 <= i < |Digits(n)| ==> 0x30 <= Digits(n)[i] <= 0x39
  {
    var s := Digits(n);
    if n >= 10 {
      DigitsRead(n / 10);
      assert s[..|s| - 1] == Digits(n / 10);
    } else {
      assert s[..0] == [];
    }
  }

  // "/fault/audit-" followed by the sequence number.
  function EventPath(sequence: U32): (p: seq<Byte>) {
    [0x2F, 0x66, 0x61, 0x75, 0x6C, 0x74, 0x2F, 0x61, 0x75, 0x64, 0x69, 0x74, 0x2D] + Digits(sequence)
  }

  function EventDigest(sequence: U32): (d: Digest) {
    seq(32, i requires 0 <= i < 32 => (sequence * 37 + i * 13) % 0x100)
  }

  function FaultEvent(sequence: U32, tick: U32): (e: Event)
    ensures ValidEvent(e)
  {
    DigitsBound(sequence, 10, 10000000000);
    Event(tick, 2, 1, EventPath(sequence), EventDigest(sequence))
  }

  // ---- appending to any journal that verifies ----

  // How many of the oldest records an append drops.
  function Shift(j: Journal): (n: nat) {
    if j.header.count == CAPACITY then 1 else 0
  }

  // The record an append writes.
  function NewRecord(h: Hash, j: Journal, e: Event): (r: Record)
    requires ValidEvent(e) && j.header.nextSequence < 0xFFFF_FFFF
  {
    var record := Unhashed(e, j.header.nextSequence);
    record.(recordHash := RecordHash(h, record, j.header.head))
  }

  ghost predicate Appendable(h: Hash, j: Journal, e: Event)
    ensures Appendable(h, j, e) ==> |j.records| == CAPACITY && j.header.nextIndex < CAPACITY
  {
    Verified(h, j) && j.header.nextSequence < 0xFFFF_FFFF && ValidEvent(e)
  }

  // The logical order is the old one, without the oldest record when full, plus the new record.
  lemma AppendOrder(h: Hash, j: Journal, e: Event, i: nat)
    requires Appendable(h, j, e) && i < Appended(h, j, e).header.count
    ensures Appended(h, j, e).header.count == j.header.count + 1 - Shift(j)
    ensures Logical(Appended(h, j, e), i) == if i < j.header.count - Shift(j) then Logical(j, i + Shift(j))
      else NewRecord(h, j, e)
  {
    hide RecordHash, Unhashed, LinkOk, Running;
    var x := j.header.nextIndex;
    if j.header.count == CAPACITY {
      RotatedSlot(x, i);
    } else {
      PlainSlot(x, i);
    }
  }

  lemma RotatedSlot(x: nat, i: nat)
    requires x < CAPACITY && i < CAPACITY
    ensures ((x + 1) % CAPACITY + i) % CAPACITY == (x + (i + 1)) % CAPACITY
    ensures (x + (i + 1)) % CAPACITY == x <==> i == CAPACITY - 1
  {
  }

  lemma PlainSlot(x: nat, i: nat)
    requires x < CAPACITY && i <= x
    ensures (0 + i) % CAPACITY == i && (x + 1 == CAPACITY ==> (x + 1) % CAPACITY == 0)
  {
  }

  lemma AppendAnchorIs(h: Hash, j: Journal, e: Event)
    requires Appendable(h, j, e)
    ensures Appended(h, j, e).header.anchor == Running(h, j, Shift(j))
  {
    hide RecordHash, Unhashed, RecordOk;
    if j.header.count == CAPACITY {
      assert LinkOk(h, j, 0);
      assert Running(h, j, 1) == RecordHash(h, Logical(j, 0), Running(h, j, 0));
    }
  }

  lemma {:induction false} AppendRunning(h: Hash, j: Journal, e: Event, i: nat)
    requires Appendable(h, j, e) && i <= j.header.count - Shift(j)
    ensures Running(h, Appended(h, j, e), i) == Running(h, j, i + Shift(j))
  {
    hide RecordHash, Appended, Verified, Logical;
    if i == 0 {
      AppendAnchorIs(h, j, e);
      RunningStart(h, Appended(h, j, e));
    } else {
      AppendCount(h, j, e);
      AppendOrder(h, j, e, i - 1);
      AppendRunning(h, j, e, i - 1);
      RunningNext(h, Appended(h, j, e), i - 1);
      RunningNext(h, j, i - 1 + Shift(j));
    }
  }

  lemma RunningStart(h: Hash, j: Journal)
    requires |j.records| == CAPACITY
    ensures Running(h, j, 0) == j.header.anchor
  {
  }

  lemma RunningNext(h: Hash, j: Journal, i: nat)
    requires |j.records| == CAPACITY
    ensures Running(h, j, i + 1) == RecordHash(h, Logical(j, i), Running(h, j, i))
  {
    hide RecordHash, Logical;
  }

  lemma AppendCount(h: Hash, j: Journal, e: Event)
    requires Appendable(h, j, e)
    ensures Appended(h, j, e).header.count == j.header.count + 1 - Shift(j)
    ensures Appended(h, j, e).header.nextSequence == j.header.nextSequence + 1
    ensures Appended(h, j, e).header.head == NewRecord(h, j, e).recordHash
    ensures |j.records| == CAPACITY && j.header.count <= CAPACITY && j.header.head == Running(h, j, j.header.count)
  {
    hide RecordHash, Unhashed, LinkOk;
    if j.header.count == 0 {
      RunningStart(h, j);
    }
  }

  lemma NewRecordOk(h: Hash, j: Journal, e: Event)
    requires ValidEvent(e) && j.header.nextSequence < 0xFFFF_FFFF
    ensures RecordOk(NewRecord(h, j, e), j.header.nextSequence)
    ensures NewRecord(h, j, e).recordHash == RecordHash(h, NewRecord(h, j, e), j.header.head)
  {
    var record := Unhashed(e, j.header.nextSequence);
    SameHash(h, record, NewRecord(h, j, e), j.header.head);
  }

  lemma AppendLink(h: Hash, j: Journal, e: Event, i: nat)
    requires Appendable(h, j, e) && i < j.header.count + 1 - Shift(j)
    ensures LinkOk(h, Appended(h, j, e), i)
  {
    hide RecordHash, Appended, Logical, Running, NewRecord, RecordOk, HeaderOk;
    AppendCount(h, j, e);
    AppendOrder(h, j, e, i);
    AppendRunning(h, j, e, i);
    if i < j.header.count - Shift(j) {
      assert LinkOk(h, j, i + Shift(j));
    } else {
      NewRecordOk(h, j, e);
    }
  }

  lemma AppendHeader(h: Hash, j: Journal, e: Event)
    requires Appendable(h, j, e)
    ensures var k := Appended(h, j, e);
            && |k.records| == CAPACITY && HeaderOk(k.header) && k.header.count > 0 &&
              k.header.nextSequence > k.header.count
            && (k.header.count < CAPACITY ==> k.header.nextIndex == k.header.count && k.header.anchor == ZeroDigest())
  {
    hide RecordHash, Unhashed, LinkOk, Running;
  }

  // Appending to any journal that verifies, whatever its anchor and wherever its ring starts,
  // gives a journal that verifies.
  lemma AppendVerifies(h: Hash, j: Journal, e: Event)
    requires Appendable(h, j, e)
    ensures Verified(h, Appended(h, j, e))
  {
    hide RecordHash, Appended, Logical, Running, NewRecord, HeaderOk, LinkOk;
    var k := Appended(h, j, e);
    var n := j.header.count - Shift(j);
    AppendHeader(h, j, e);
    AppendCount(h, j, e);
    forall i | 0 <= i < k.header.count
      ensures LinkOk(h, k, i)
    {
      AppendLink(h, j, e, i);
    }
    AppendRunning(h, j, e, n);
    AppendOrder(h, j, e, n);
    RunningNext(h, k, n);
    NewRecordOk(h, j, e);
  }

  // The journal object the tool updates in place.
  class Ring {
    var header: Header
    var records: array<Record>

    ghost predicate Valid()
      reads this
    {
      records.Length == CAPACITY
    }

    function Value(): (j: Journal)
      reads this, records
    {
      Journal(header, records[..])
    }

    // `initialize_empty`.
    constructor ()
      ensures Valid() && fresh(records)
      ensures Value() == EmptyJournal()
    {
      header := EmptyHeader();
      records := new Record[CAPACITY](_ => EmptyRecord());
      new;
      assert records[..] == EmptyJournal().records;
    }

    // `append_event`: throws exactly when the sequence is exhausted or the result does not
    // verify, which it does whenever the journal did before. The ring of a log becomes that of
    // the longer log.
    method AppendEvent(h: Hash, tick: U32) returns (ok: bool)
      requires Valid() && header.nextIndex < CAPACITY
      modifies this`header, records
      ensures Valid() && records == old(records)
      ensures old(header).nextSequence == 0xFFFF_FFFF ==> !ok && Value() == old(Value())
      ensures old(header).nextSequence != 0xFFFF_FFFF ==>
                && Value() == Appended(h, old(Value()), FaultEvent(old(header).nextSequence, tick))
                && (ok <==> Verified(h, Value())) && (Verified(h, old(Value())) ==> ok)
      ensures forall log: History :: ok && Represents(h, old(Value()), log) ==>
                |log| + 1 < 0xFFFF_FFFF && Represents(h, Value(), log + [FaultEvent(|log| + 1, tick)])
    {
      hide Appended, Represents, Verified, FaultEvent;
      if header.nextSequence == 0xFFFF_FFFF {
        return false;
      }
      ghost var before, event := Value(), FaultEvent(header.nextSequence, tick);
      Store(h, tick);
      if Verified(h, before) {
        AppendVerifies(h, before, event);
      }
      forall log: History | Represents(h, before, log)
        ensures |log| + 1 < 0xFFFF_FFFF && Represents(h, Value(), log + [FaultEvent(|log| + 1, tick)])
      {
        RepresentsHeader(h, before, log);
        AppendRefines(h, before, log, event);
      }
      ok := Verify(h, Value());
    }

    // The new record goes into the next slot; when the ring is full, the hash of the record it
    // drops becomes the anchor.
    method Store(h: Hash, tick: U32)
      requires Valid() && header.nextIndex < CAPACITY && header.nextSequence < 0xFFFF_FFFF
      modifies this`header, records
      ensures Valid() && records == old(records)
      ensures Value() == Appended(h, old(Value()), FaultEvent(old(header).nextSequence, tick))
    {
      hide RecordHash, EventDigest, EventPath;
      ghost var event := FaultEvent(header.nextSequence, tick);
      var index := header.nextIndex;
      if header.count == CAPACITY {
        header := header.(anchor := records[index].recordHash);
      }
      var path := EventPath(header.nextSequence);
      var record := EmptyRecord();
      record := record.(sequence := header.nextSequence, tick := tick, action := 2, verdict := 1);
      record := record.(path := path + Zeros(48 - |path|), pathLength := |path|,
        digest := EventDigest(header.nextSequence));
      var hash := RecordHash(h, record, header.head);
      records[index] := record.(recordHash := hash);
      if header.count < CAPACITY {
        header := header.(count := header.count + 1);
      }
      header := header.(nextIndex := (index + 1) % CAPACITY);
      header := header.(nextSequence := header.nextSequence + 1);
      header := header.(head := hash);
    }
  }

  lemma RepresentsHeader(h: Hash, j: Journal, log: History)
    requires Represents(h, j, log)
    ensures |j.records| == CAPACITY && j.header.nextIndex < CAPACITY && j.header.nextSequence == |log| + 1
  {
    hide ChainHash, RecordAt, HeaderOk;
  }
}
