// Octets, fixed-width words and the bit operations the ZenovOS host tools apply to them.
// Words are mathematical integers; every wrap-around of the C++ types is written out.
module Bytes {
  type Byte = x: int | 0 <= x < 0x100
  type U16 = x: int | 0 <= x < 0x1_0000
  type U32 = x: int | 0 <= x < 0x1_0000_0000

  datatype Option<T> = None | Some(value: T)

  // A hash is any function to 32 bytes; results about it hold for every such function.
  type Digest = d: seq<Byte> | |d| == 32 witness seq(32, _ => 0)
  type Hash = seq<Byte> -> Digest

  ghost predicate Collision(h: Hash, x: seq<Byte>, y: seq<Byte>) {
    x != y && h(x) == h(y)
  }

  function Min(a: nat, b: nat): (m: nat) {
    if a < b then a else b
  }

  function Zeros(n: nat): (r: seq<Byte>)
    ensures |r| == n && forall i :: 0 <= i < n ==> r[i] == 0
  {
    seq(n, _ => 0)
  }

  // Little-endian encoding of a 32-bit word.
  function Le32(x: U32): (r: seq<Byte>)
    ensures |r| == 4
  {
    [x % 0x100, x / 0x100 % 0x100, x / 0x1_0000 % 0x100, x / 0x100_0000]
  }

  function FromLe32(b: seq<Byte>): (x: U32)
    requires |b| == 4
  {
    var w: seq<int> := b;
    w[0] + 0x100 * w[1] + 0x1_0000 * w[2] + 0x100_0000 * w[3]
  }

  // Little-endian encoding of a 16-bit word.
  function Le16(x: U16): (r: seq<Byte>)
    ensures |r| == 2
  {
    [x % 0x100, x / 0x100]
  }

  function FromLe16(b: seq<Byte>): (x: U16)
    requires |b| == 2
  {
    var w: seq<int> := b;
    w[0] + 0x100 * w[1]
  }

  lemma Le32RoundTrip(x: U32)
    ensures FromLe32(Le32(x)) == x
  {
    var a, b, c := x / 0x100, x / 0x1_0000, x / 0x100_0000;
    assert b == a / 0x100 && c == b / 0x100;
  }

  lemma Le16RoundTrip(x: U16)
    ensures FromLe16(Le16(x)) == x
  {
  }

  lemma Le32Injective(x: U32, y: U32)
    requires Le32(x) == Le32(y)
    ensures x == y
  {
    Le32RoundTrip(x);
    Le32RoundTrip(y);
  }

  // Bitwise exclusive-or of two naturals.
  function Xor(a: nat, b: nat): (r: nat)
  {
    if a == 0 && b == 0 then 0 else (a + b) % 2 + 2 * Xor(a / 2, b / 2)
  }

  lemma {:induction false} XorBound(a: nat, b: nat, bits: nat)
    requires a < Pow2(bits) && b < Pow2(bits)
    ensures Xor(a, b) < Pow2(bits)
  {
    if bits > 0 {
      XorBound(a / 2, b / 2, bits - 1);
    }
  }

  // Bitwise or of two naturals.
  function Or(a: nat, b: nat): (r: nat)
  {
    if a == 0 && b == 0 then 0
    else (if a % 2 == 1 || b % 2 == 1 then 1 else 0) + 2 * Or(a / 2, b / 2)
  }

  lemma {:induction false} OrZeroRight(a: nat)
    ensures Or(a, 0) == a
  {
    if a > 0 {
      OrZeroRight(a / 2);
    }
  }

  lemma {:induction false} OrZero(a: nat, b: nat)
    ensures Or(a, b) == 0 <==> a == 0 && b == 0
  {
    if a != 0 || b != 0 {
      OrZero(a / 2, b / 2);
    }
  }

  lemma {:induction false} XorZero(a: nat, b: nat)
    ensures Xor(a, b) == 0 <==> a == b
  {
    if a != 0 || b != 0 {
      XorZero(a / 2, b / 2);
    }
  }

  function Pow2(n: nat): (r: nat)
    ensures r > 0
  {
    if n == 0 then 1 else 2 * Pow2(n - 1)
  }

  function Pow256(n: nat): (r: nat)
    ensures r > 0
  {
    if n == 0 then 1 else 0x100 * Pow256(n - 1)
  }

  // FNV-1a over 32-bit words; used only as a deterministic checksum.
  function Fnv1a(data: seq<Byte>): (h: U32)
  {
    if data == [] then 2166136261
    else
      Xor(Fnv1a(data[..|data| - 1]), data[|data| - 1]) * 16777619 % 0x1_0000_0000
  }
}
