// Streaming SHA-256: block buffering and padding around one compression function, which is a
// parameter throughout.
module ShaStream {
  import opened Bytes

  type State = s: seq<U32> | |s| == 8 witness seq(8, _ => 0)
  type Block = b: seq<Byte> | |b| == 64 witness seq(64, _ => 0)
  type Compression = (State, Block) -> State

  const TWO64: nat := 0x1_0000_0000_0000_0000

  function Initial(): (s: State) {
    [0x6A09E667, 0xBB67AE85, 0x3C6EF372, 0xA54FF53A, 0x510E527F, 0x9B05688C, 0x1F83D9AB, 0x5BE0CD19]
  }

  // ---- the standard ----

  // The state after `k` blocks (section 6.2.2 of FIPS 180-4).
  function Fold(f: Compression, m: seq<Byte>, k: nat): (s: State)
    requires |m| == 64 * k
  {
    if k == 0 then Initial() else f(Fold(f, m[..64 * (k - 1)], k - 1), m[64 * (k - 1)..])
  }

  // A 64-bit word, most significant byte first.
  function Be64(x: nat): (b: seq<Byte>)
    requires x < TWO64
    ensures |b| == 8
  {
    seq(8, i requires 0 <= i < 8 => x / Pow256(7 - i) % 0x100)
  }

  // The padding of section 5.1.1 of FIPS 180-4: a one bit, zeros, the length in bits.
  function Padding(n: nat): (p: seq<Byte>)
    ensures (n + |p|) % 64 == 0
  {
    [0x80] + Zeros((119 - n % 64) % 64) + Be64(8 * n % TWO64)
  }

  function Serialized(s: State): (d: seq<Byte>)
    ensures |d| == 32
  {
    Be32(s[0]) + Be32(s[1]) + Be32(s[2]) + Be32(s[3]) + Be32(s[4]) + Be32(s[5]) + Be32(s[6]) + Be32(s[7])
  }

  function Be32(x: U32): (b: seq<Byte>)
    ensures |b| == 4
  {
    [x / 0x100_0000, x / 0x1_0000 % 0x100, x / 0x100 % 0x100, x % 0x100]
  }

  function DigestOf(f: Compression, m: seq<Byte>): (d: seq<Byte>)
    ensures |d| == 32
  {
    var p := m + Padding(|m|);
    Serialized(Fold(f, p, |p| / 64))
  }

  lemma FoldSnoc(f: Compression, m: seq<Byte>, k: nat, b: Block)
    requires |m| == 64 * k
    ensures Fold(f, m + b, k + 1) == f(Fold(f, m, k), b)
  {
    assert (m + b)[..64 * k] == m && (m + b)[64 * k..] == b;
  }

  // ---- buffered state ----

  // `state` and the first `used` bytes of `block` stand for `message`, `k` blocks being folded.
  ghost predicate Buffers(f: Compression, state: State, block: seq<Byte>, used: nat, message: seq<Byte>, k: nat) {
    && |block| == 64 && used <= 64 && |message| == 64 * k + used
    && state == Fold(f, message[..64 * k], k) && block[..used] == message[64 * k..]
  }

  // Filling bytes in keeps the relation.
  lemma BuffersMore(f: Compression, state: State, block: seq<Byte>, after: seq<Byte>, used: nat, message: seq<Byte>,
    k: nat, data: seq<Byte>)
    requires Buffers(f, state, block, used, message, k)
    requires used + |data| <= 64 && |after| == 64 && after[..used] == block[..used] &&
      after[used..used + |data|] == data
    ensures Buffers(f, state, after, used + |data|, message + data, k)
  {
    hide Fold;
    assert (message + data)[..64 * k] == message[..64 * k];
    assert (message + data)[64 * k..] == message[64 * k..] + data;
    assert after[..used + |data|] == after[..used] + after[used..used + |data|];
  }

  // A full block is folded.
  lemma BuffersFull(f: Compression, state: State, block: seq<Byte>, message: seq<Byte>, k: nat)
    requires Buffers(f, state, block, 64, message, k)
    ensures Buffers(f, f(state, block), block, 0, message, k + 1)
  {
    hide Fold;
    assert block[..64] == block;
    assert message[..64 * k] + block == message;
    FoldSnoc(f, message[..64 * k], k, block);
    assert message[..64 * (k + 1)] == message;
  }

  lemma BuffersDone(f: Compression, state: State, block: seq<Byte>, m: seq<Byte>, k: nat)
    requires Buffers(f, state, block, 0, m + Padding(|m|), k)
    ensures Serialized(state) == DigestOf(f, m)
  {
    var p := m + Padding(|m|);
    assert p[..64 * k] == p;
    assert |p| / 64 == k;
  }

  lemma BufferedCount(f: Compression, state: State, block: seq<Byte>, used: nat, m: seq<Byte>, k: nat)
    requires Buffers(f, state, block, used, m, k) && used < 64
    ensures |m| % 64 == used && 8 * (|m| % TWO64) % TWO64 == 8 * |m| % TWO64
  {
    hide Fold;
    BitsWrap(|m|);
  }

  lemma BitsWrap(n: nat)
    ensures 8 * (n % TWO64) % TWO64 == 8 * n % TWO64
  {
    var q, r := n / TWO64, n % TWO64;
    assert 8 * n == 8 * q * TWO64 + 8 * r;
  }

  // The wrapped length counter adds up.
  lemma CountAdds(n: nat, d: nat)
    ensures (n % TWO64 + d) % TWO64 == (n + d) % TWO64
  {
    var q, r := n / TWO64, n % TWO64;
    assert n + d == q * TWO64 + (r + d);
  }

  // The padded message, split where the buffer has to be folded.
  lemma PaddedShort(m: seq<Byte>, used: nat)
    requires used < 56 && |m| % 64 == used
    ensures m + [0x80] + Zeros(56 - (used + 1)) + Be64(8 * |m| % TWO64) == m + Padding(|m|)
  {
    hide Be64;
  }

  lemma PaddedLong(m: seq<Byte>, used: nat)
    requires 56 <= used < 64 && |m| % 64 == used
    ensures m + [0x80] + Zeros(64 - (used + 1)) + Zeros(56) + Be64(8 * |m| % TWO64) == m + Padding(|m|)
  {
    hide Be64;
    assert Zeros(119 - used) == Zeros(63 - used) + Zeros(56);
  }

  // The chunk-copying context of zenpkg.
  class Sha256 {
    const f: Compression
    var state: State
    const block: array<Byte>
    var digest: seq<Byte>
    var total: nat
    var size: nat
    var finalized: bool
    ghost var message: seq<Byte>
    ghost var blocks: nat

    ghost predicate Valid()
      reads this, block
    {
      && block.Length == 64
      && (!finalized ==> size < 64 && total == |message| < TWO64 && Buffers(f, state, block[..], size, message, blocks))
      && (finalized ==> digest == DigestOf(f, message))
    }

    constructor (f: Compression)
      ensures Valid() && !finalized && message == [] && this.f == f && fresh(block)
    {
      this.f := f;
      state := Initial();
      block := new Byte[64](_ => 0);
      digest := Zeros(32);
      total, size, finalized := 0, 0, false;
      message, blocks := [], 0;
    }

    method Transform()
      requires Valid0(64)
      modifies this`state, this`blocks
      ensures Buffers(f, state, block[..], 0, message, blocks)
    {
      BuffersFull(f, state, block[..], message, blocks);
      state := f(state, block[..]);
      blocks := blocks + 1;
    }

    ghost predicate Valid0(used: nat)
      reads this, block
    {
      block.Length == 64 && Buffers(f, state, block[..], used, message, blocks)
    }

    // `update`: throws on a finalized context and on a length past 2^64 - 1; otherwise the
    // message grows by exactly `data`, however it is split over calls.
    method Update(data: seq<Byte>) returns (ok: bool)
      requires Valid()
      modifies this`state, this`total, this`size, this`message, this`blocks, block
      ensures Valid() && finalized == old(finalized)
      ensures ok <==> !finalized && |data| <= TWO64 - 1 - old(total)
      ensures message == old(message) + if ok then data else []
    {
      hide Buffers, DigestOf;
      if finalized || |data| > TWO64 - 1 - total {
        assert message == message + [];
        return false;
      }
      total := total + |data|;
      Feed(data);
      return true;
    }

    // Chunks as large as the block has room for.
    method Feed(data: seq<Byte>)
      requires size < 64 && Valid0(size)
      modifies this`state, this`size, this`message, this`blocks, block
      ensures size < 64 && Valid0(size) && message == old(message) + data
    {
      hide Buffers;
      var position := 0;
      assert message + data[..0] == message;
      while position < |data|
        invariant position <= |data| && size < 64
        invariant message == old(message) + data[..position]
        invariant Valid0(size)
        decreases |data| - position
      {
        var available := 64 - size;
        var chunk := if available < |data| - position then available else |data| - position;
        CopyIn(data[position..position + chunk]);
        assert data[..position + chunk] == data[..position] + data[position..position + chunk];
        position := position + chunk;
        if size == 64 {
          Transform();
          size := 0;
        }
      }
      assert data[..position] == data;
    }

    // memcpy into the block at its fill position.
    method CopyIn(piece: seq<Byte>)
      requires size + |piece| <= 64 && Valid0(size)
      modifies this`size, this`message, block
      ensures size == old(size) + |piece| && message == old(message) + piece && Valid0(size)
    {
      ghost var before := block[..];
      hide Fold;
      var i := 0;
      while i < |piece|
        invariant i <= |piece| && size == old(size) && message == old(message)
        invariant block[..size] == before[..size] && block[size..size + i] == piece[..i]
      {
        block[size + i] := piece[i];
        assert block[size..size + i + 1] == block[size..size + i] + [piece[i]];
        i := i + 1;
      }
      assert piece[..i] == piece;
      BuffersMore(f, state, before, block[..], size, message, blocks, piece);
      size := size + |piece|;
      message := message + piece;
    }

    // Zero bytes up to `limit`.
    method PadZeros(limit: nat)
      requires size <= limit <= 64 && Valid0(size)
      modifies this`size, this`message, block
      ensures size == limit && message == old(message) + Zeros(limit - old(size)) && Valid0(size)
    {
      CopyIn(Zeros(limit - size));
    }

    // The eight length bytes.
    method PadLength(bits: nat)
      requires size == 56 && bits < TWO64 && Valid0(size)
      modifies this`size, this`message, block
      ensures size == 64 && message == old(message) + Be64(bits) && Valid0(size)
    {
      CopyIn(Be64(bits));
    }

    // The whole padding, folded.
    method PadAll(bits: nat)
      requires size < 64 && Valid0(size) && |message| % 64 == size && bits == 8 * |message| % TWO64
      modifies this`state, this`size, this`message, this`blocks, block
      ensures size == 0 && message == old(message) + Padding(|old(message)|) && Valid0(0)
    {
      hide Buffers, Zeros, Be64, Padding;
      ghost var original, used := message, size;
      CopyIn([0x80]);
      if size > 56 {
        PadZeros(64);
        Transform();
        size := 0;
        PaddedLong(original, used);
      } else {
        PaddedShort(original, used);
      }
      PadZeros(56);
      PadLength(bits);
      Transform();
      size := 0;
    }

    // `final`: throws when the bit length does not fit 64 bits; otherwise the digest of
    // everything updated so far, and the same digest again on every later call.
    method Final() returns (r: Option<seq<Byte>>)
      requires Valid()
      modifies this`state, this`size, this`digest, this`finalized, this`message, this`blocks, block
      ensures Valid() && message == old(message)
      ensures r.None? <==> !old(finalized) && old(total) > (TWO64 - 1) / 8
      ensures r.Some? ==> r.value == DigestOf(f, message) && finalized
    {
      hide DigestOf, Fold, Padding, Buffers, Serialized;
      if finalized {
        return Some(digest);
      }
      if total > (TWO64 - 1) / 8 {
        return None;
      }
      ghost var original := message;
      BufferedCount(f, state, block[..], size, message, blocks);
      PadAll(total * 8);
      BuffersDone(f, state, block[..], original, blocks);
      digest := Serialized(state);
      message := original;
      finalized := true;
      return Some(digest);
    }
  }

  // The byte-at-a-time context of the audit tools. Its length counter wraps at 2^64, as does
  // the bit length, so its digest is the standard one for every message.
  class ByteSha256 {
    const f: Compression
    var state: State
    const block: array<Byte>
    var total: nat
    var used: nat
    ghost var message: seq<Byte>
    ghost var blocks: nat

    ghost predicate Valid()
      reads this, block
    {
      && block.Length == 64 && used < 64 && total == |message| % TWO64
      && Buffers(f, state, block[..], used, message, blocks)
    }

    constructor (f: Compression)
      ensures Valid() && message == [] && this.f == f && fresh(block)
    {
      this.f := f;
      state := Initial();
      block := new Byte[64](_ => 0);
      total, used := 0, 0;
      message, blocks := [], 0;
    }

    ghost predicate Holds(fill: nat)
      reads this, block
    {
      block.Length == 64 && Buffers(f, state, block[..], fill, message, blocks)
    }

    // One byte into the block.
    method Put(b: Byte)
      requires used < 64 && Holds(used)
      modifies this`used, this`message, block
      ensures used == old(used) + 1 && message == old(message) + [b] && Holds(used)
    {
      hide Fold;
      ghost var before := block[..];
      block[used] := b;
      BuffersMore(f, state, before, block[..], used, message, blocks, [b]);
      used := used + 1;
      message := message + [b];
    }

    // A full block into the state.
    method Transform()
      requires Holds(64)
      modifies this`state, this`used, this`blocks
      ensures used == 0 && Holds(0)
    {
      BuffersFull(f, state, block[..], message, blocks);
      state := f(state, block[..]);
      blocks := blocks + 1;
      used := 0;
    }

    // `sha_update`: the message grows by exactly `data`, however it is split over calls.
    method Update(data: seq<Byte>)
      requires Valid()
      modifies this`state, this`total, this`used, this`message, this`blocks, block
      ensures Valid() && message == old(message) + data
    {
      hide Buffers;
      CountAdds(|message|, |data|);
      total := (total + |data|) % TWO64;
      Feed(data);
    }

    method Feed(data: seq<Byte>)
      requires used < 64 && Holds(used)
      modifies this`state, this`used, this`message, this`blocks, block
      ensures used < 64 && Holds(used) && message == old(message) + data
    {
      hide Buffers;
      var i := 0;
      while i < |data|
        invariant i <= |data| && used < 64
        invariant message == old(message) + data[..i] && Holds(used)
      {
        Put(data[i]);
        assert data[..i + 1] == data[..i] + [data[i]];
        if used == 64 {
          Transform();
        }
        i := i + 1;
      }
      assert data[..i] == data;
    }

    // Zero bytes until the block is filled to `limit`.
    method PutZeros(limit: nat)
      requires used <= limit <= 64 && Holds(used)
      modifies this`used, this`message, block
      ensures used == limit && message == old(message) + Zeros(limit - old(used)) && Holds(used)
    {
      hide Buffers;
      while used < limit
        invariant old(used) <= used <= limit && Holds(used)
        invariant message == old(message) + Zeros(used - old(used))
      {
        Put(0);
      }
    }

    // The bit length over the last eight bytes of the block, least significant byte first.
    method PutLength(bits: nat)
      requires used == 56 && bits < TWO64 && Holds(56)
      modifies this`message, block
      ensures message == old(message) + Be64(bits) && Holds(64)
    {
      hide Fold, Pow256;
      ghost var before := block[..];
      for i := 0 to 8
        invariant block.Length == 64 && block[..56] == before[..56]
        invariant forall j :: 64 - i <= j < 64 ==> block[j] == Be64(bits)[j - 56]
        invariant message == old(message)
      {
        block[63 - i] := bits / Pow256(i) % 0x100;
      }
      assert block[56..64] == Be64(bits);
      BuffersMore(f, state, before, block[..], 56, message, blocks, Be64(bits));
      message := message + Be64(bits);
    }

    // `sha_final`; the context is left spent.
    method Final() returns (digest: seq<Byte>)
      requires Valid()
      modifies this`state, this`used, this`message, this`blocks, block
      ensures digest == DigestOf(f, old(message))
    {
      hide DigestOf, Fold, Padding, Zeros, Be64, Buffers;
      var bits := total * 8 % TWO64;
      BufferedCount(f, state, block[..], used, message, blocks);
      PadAll(bits);
      BuffersDone(f, state, block[..], old(message), blocks);
      return Serialized(state);
    }

    method PadAll(bits: nat)
      requires used < 64 && Holds(used) && |message| % 64 == used && bits == 8 * |message| % TWO64
      modifies this`state, this`used, this`message, this`blocks, block
      ensures message == old(message) + Padding(|old(message)|) && Holds(0)
    {
      hide Buffers, Zeros, Be64, Padding;
      ghost var original, start := message, used;
      Put(0x80);
      if used > 56 {
        PutZeros(64);
        Transform();
        PaddedLong(original, start);
      } else {
        PaddedShort(original, start);
      }
      PutZeros(56);
      PutLength(bits);
      Transform();
    }
  }

  // ---- every way of splitting a message ----

  function Joined(parts: seq<seq<Byte>>): (m: seq<Byte>) {
    if parts == [] then [] else Joined(parts[..|parts| - 1]) + parts[|parts| - 1]
  }

  // One chunk-copying context fed part by part: the standard digest of the joined message, or
  // an error exactly when the message is 2^61 bytes or more.
  method DigestOfParts(f: Compression, parts: seq<seq<Byte>>) returns (r: Option<seq<Byte>>)
    ensures r == if |Joined(parts)| < TWO64 / 8 then Some(DigestOf(f, Joined(parts))) else None
  {
    hide DigestOf;
    var context := new Sha256(f);
    for i := 0 to |parts|
      invariant context.Valid() && !context.finalized && context.f == f && fresh(context) && fresh(context.block)
      invariant context.message == Joined(parts[..i])
    {
      assert parts[..i + 1][..i] == parts[..i];
      var ok := context.Update(parts[i]);
      if !ok {
        JoinedGrows(parts, i + 1);
        return None;
      }
    }
    assert parts[..|parts|] == parts;
    r := context.Final();
  }

  // One byte-at-a-time context: the same digest, with no limit on the length.
  method ByteDigestOfParts(f: Compression, parts: seq<seq<Byte>>) returns (d: seq<Byte>)
    ensures d == DigestOf(f, Joined(parts))
  {
    hide DigestOf;
    var context := new ByteSha256(f);
    for i := 0 to |parts|
      invariant context.Valid() && context.f == f && fresh(context) && fresh(context.block)
      invariant context.message == Joined(parts[..i])
    {
      assert parts[..i + 1][..i] == parts[..i];
      context.Update(parts[i]);
    }
    assert parts[..|parts|] == parts;
    d := context.Final();
  }

  lemma JoinedGrows(parts: seq<seq<Byte>>, i: nat)
    requires i <= |parts|
    ensures |Joined(parts[..i])| <= |Joined(parts)|
    decreases |parts| - i
  {
    if i == |parts| {
      assert parts[..i] == parts;
    } else {
      assert parts[..i + 1][..i] == parts[..i];
      JoinedGrows(parts, i + 1);
    }
  }
}
