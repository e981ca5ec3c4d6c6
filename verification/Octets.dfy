// Octet strings and integers (sections 4.1 and 4.2 of RFC 8017), and their limb conversions.
module Octets {
  import opened Bytes
  import opened ModArith
  import opened Limbs

  // Octet string to integer.
  function Os2ip(b: seq<Byte>): (x: nat) {
    if b == [] then 0 else Os2ip(b[..|b| - 1]) * 0x100 + b[|b| - 1]
  }

  // The low `n` octets of an integer, most significant first.
  function I2osp(x: nat, n: nat): (b: seq<Byte>)
    ensures |b| == n
  {
    if n == 0 then [] else I2osp(x / 0x100, n - 1) + [x % 0x100]
  }

  lemma {:induction false} Os2ipBound(b: seq<Byte>)
    ensures Os2ip(b) < Pow256(|b|)
  {
    if b != [] {
      Os2ipBound(b[..|b| - 1]);
    }
  }

  lemma {:induction false} I2ospInverse(b: seq<Byte>)
    ensures I2osp(Os2ip(b), |b|) == b
  {
    if b != [] {
      I2ospInverse(b[..|b| - 1]);
    }
  }

  // The other way round: the octets of an integer stand for its low part.
  lemma {:induction false} Os2ipInverse(x: nat, n: nat)
    ensures Os2ip(I2osp(x, n)) == x % Pow256(n)
  {
    hide Os2ip;
    if n == 0 {
      EmptyValue();
    } else {
      Os2ipInverse(x / 0x100, n - 1);
      Snoc(I2osp(x / 0x100, n - 1), x % 0x100);
      DivideTwice(x, Pow256(n - 1));
    }
  }

  lemma EmptyValue()
    ensures Os2ip([]) == 0
  {
  }

  lemma Snoc(b: seq<Byte>, x: Byte)
    ensures Os2ip(b + [x]) == Os2ip(b) * 0x100 + x
  {
    assert (b + [x])[..|b|] == b;
  }

  // Octet `i` of `n`, counted from the most significant.
  lemma {:induction false} I2ospAt(x: nat, n: nat, i: nat)
    requires i < n
    ensures I2osp(x, n)[i] == x / Pow256(n - 1 - i) % 0x100
  {
    if i < n - 1 {
      var p := Pow256(n - 2 - i);
      I2ospAt(x / 0x100, n - 1, i);
      DivideTwice(x, p);
    } else {
      assert Pow256(0) == 1;
    }
  }

  lemma DivideTwice(x: nat, p: nat)
    requires p > 0
    ensures x / 0x100 / p == x / (0x100 * p)
    ensures x / 0x100 % p * 0x100 + x % 0x100 == x % (0x100 * p)
  {
    var y := x / 0x100;
    Scale(y / p, p, y % p, x % 0x100);
    assert y == y / p * p + y % p;
    ModUnique(x, 0x100 * p, y / p, y % p * 0x100 + x % 0x100);
  }

  lemma {:induction false} Os2ipConcat(a: seq<Byte>, b: seq<Byte>)
    ensures Os2ip(a + b) == Os2ip(a) * Pow256(|b|) + Os2ip(b)
  {
    if b == [] {
      assert a + b == a;
    } else {
      var p := b[..|b| - 1];
      Os2ipConcat(a, p);
      assert (a + b)[..|a + b| - 1] == a + p;
      Scale(Os2ip(a), Pow256(|p|), Os2ip(p), b[|b| - 1]);
    }
  }

  lemma Scale(x: int, p: int, y: int, z: int)
    ensures (x * p + y) * 0x100 + z == x * (0x100 * p) + (y * 0x100 + z)
  {
  }

  // ---- limbs of a 256-octet string ----

  // Limb `j`, from its four octets.
  function LimbAt(b: seq<Byte>, j: nat): (w: U32)
    requires |b| == 256 && j < LIMBS
  {
    FromLe32([b[255 - 4 * j], b[254 - 4 * j], b[253 - 4 * j], b[252 - 4 * j]])
  }

  function LimbsOf(b: seq<Byte>): (v: Big)
    requires |b| == 256
  {
    seq(LIMBS, j requires 0 <= j < LIMBS => LimbAt(b, j))
  }

  lemma {:induction false} BasePowOctets(q: nat)
    ensures Pow256(4 * q) == BasePow(q)
  {
    if q > 0 {
      BasePowOctets(q - 1);
      var n := 4 * (q - 1);
      assert Pow256(n + 4) == 0x100 * Pow256(n + 3);
      assert Pow256(n + 3) == 0x100 * Pow256(n + 2);
      assert Pow256(n + 2) == 0x100 * Pow256(n + 1);
    }
  }

  lemma FourOctets(a: Byte, b: Byte, c: Byte, d: Byte)
    ensures Os2ip([d, c, b, a]) == FromLe32([a, b, c, d])
  {
    assert [d, c, b, a][..3] == [d, c, b] && [d, c, b][..2] == [d, c] && [d, c][..1] == [d] && [d][..0] == [];
    assert Os2ip([d]) == d as int;
    assert Os2ip([d, c]) == Os2ip([d]) * 0x100 + c;
    assert Os2ip([d, c, b]) == Os2ip([d, c]) * 0x100 + b;
  }

  lemma {:induction false} LimbsValueUpTo(b: seq<Byte>, q: nat)
    requires |b| == 256 && q <= LIMBS
    ensures Val(LimbsOf(b)[..q]) == Os2ip(b[256 - 4 * q..])
  {
    hide BasePow, Times, FromLe32;
    var v := LimbsOf(b);
    if q > 0 {
      var j := q - 1;
      LimbsValueUpTo(b, j);
      ValTake(v, j);
      var quad := [b[252 - 4 * j], b[253 - 4 * j], b[254 - 4 * j], b[255 - 4 * j]];
      assert b[256 - 4 * q..] == quad + b[256 - 4 * j..];
      Os2ipConcat(quad, b[256 - 4 * j..]);
      FourOctets(b[255 - 4 * j], b[254 - 4 * j], b[253 - 4 * j], b[252 - 4 * j]);
      BasePowOctets(j);
      TimesIs(Os2ip(quad), BasePow(j));
    }
  }

  lemma TimesIs(x: int, p: int)
    ensures Times(x, p) == x * p
  {
  }

  // The limbs of an octet string have its value.
  lemma LimbsValue(b: seq<Byte>)
    requires |b| == 256
    ensures Val(LimbsOf(b)) == Os2ip(b)
  {
    LimbsValueUpTo(b, LIMBS);
    assert LimbsOf(b)[..LIMBS] == LimbsOf(b) && b[0..] == b;
  }

  // ---- from_be ----

  // The octet at place `r` (counted from the least significant) once `i` octets have been read.
  function Seen(b: seq<Byte>, r: nat, i: nat): (x: int)
    requires |b| == 256 && r < 256
    ensures 0 <= x < 0x100
  {
    if r >= 256 - i then b[255 - r] else 0
  }

  function Partial(b: seq<Byte>, j: nat, i: nat): (w: U32)
    requires |b| == 256 && j < LIMBS
  {
    Seen(b, 4 * j, i) + 0x100 * Seen(b, 4 * j + 1, i) + 0x1_0000 * Seen(b, 4 * j + 2, i) +
      0x100_0000 * Seen(b, 4 * j + 3, i)
  }

  function Shift(t: nat): (p: nat)
    requires t < 4
  {
    if t == 0 then 1 else if t == 1 then 0x100 else if t == 2 then 0x1_0000 else 0x100_0000
  }

  // The limb being filled has nothing below the octet that comes next.
  lemma PartialAligned(b: seq<Byte>, i: nat)
    requires |b| == 256 && i < 256
    ensures var j, t := (255 - i) / 4, (255 - i) % 4;
            && Partial(b, j, i) % (0x100 * Shift(t)) == 0 && b[i] as int * Shift(t) < 0x100 * Shift(t)
            && Partial(b, j, i + 1) == Partial(b, j, i) + b[i] as int * Shift(t)
  {
    hide Seen;
    var r := 255 - i;
    var j, t := r / 4, r % 4;
    SeenBelow(b, i, 4 * j, r);
    SeenBelow(b, i, 4 * j + 1, r);
    SeenBelow(b, i, 4 * j + 2, r);
    SeenBelow(b, i, 4 * j + 3, r);
    var x, y, z := Seen(b, 4 * j + 1, i), Seen(b, 4 * j + 2, i), Seen(b, 4 * j + 3, i);
    if t == 0 {
      Multiple(0x100, x + 0x100 * y + 0x1_0000 * z);
    } else if t == 1 {
      Multiple(0x1_0000, y + 0x100 * z);
    } else if t == 2 {
      Multiple(0x100_0000, z);
    }
  }

  lemma Multiple(m: nat, q: nat)
    requires m > 0
    ensures m * q % m == 0
  {
    ModUnique(m * q, m, q, 0);
  }

  // Octets up to place `r` have not been read yet; reading one fills place `r` only.
  lemma SeenBelow(b: seq<Byte>, i: nat, q: nat, r: nat)
    requires |b| == 256 && i < 256 && r == 255 - i && q < 256
    ensures q <= r ==> Seen(b, q, i) == 0
    ensures Seen(b, q, i + 1) == if q == r then b[i] else Seen(b, q, i)
  {
  }

  lemma PartialStep(b: seq<Byte>, i: nat)
    requires |b| == 256 && i < 256
    ensures var r := 255 - i;
            && Or(Partial(b, r / 4, i), b[i] as int * Shift(r % 4)) == Partial(b, r / 4, i + 1)
            && forall j :: 0 <= j < LIMBS && j != r / 4 ==> Partial(b, j, i + 1) == Partial(b, j, i)
  {
    hide Or, Partial, Pow2, Shift;
    var r := 255 - i;
    var j, t := r / 4, r % 4;
    ShiftPow(t);
    PartialAligned(b, i);
    PartialOther(b, i);
    OrDisjoint(Partial(b, j, i), b[i] as int * Shift(t), 8 * (t + 1));
  }

  lemma ShiftPow(t: nat)
    requires t < 4
    ensures Pow2(8 * (t + 1)) == 0x100 * Shift(t)
  {
    hide Pow2;
    Pow2Values();
  }

  lemma PartialOther(b: seq<Byte>, i: nat)
    requires |b| == 256 && i < 256
    ensures forall j :: 0 <= j < LIMBS && j != (255 - i) / 4 ==> Partial(b, j, i + 1) == Partial(b, j, i)
  {
  }

  // `from_be`: limbs built by or-ing in shifted octets, most significant first.
  method FromBe(input: seq<Byte>) returns (v: Big)
    requires |input| == 256
    ensures v == LimbsOf(input) && Val(v) == Os2ip(input)
  {
    hide Partial, Or, Val, Os2ip, Shift;
    var limb := new int[LIMBS](_ => 0);
    var i := 0;
    PartialStart(input);
    while i < 256
      invariant i <= 256
      invariant forall j :: 0 <= j < LIMBS ==> limb[j] == Partial(input, j, i)
    {
      var r := 255 - i;
      PartialStep(input, i);
      limb[r / 4] := Or(limb[r / 4], input[i] as int * Shift(r % 4));
      i := i + 1;
    }
    PartialEnd(input);
    v := seq(LIMBS, j requires 0 <= j < LIMBS && limb[j] == LimbAt(input, j) reads limb => limb[j]);
    LimbsValue(input);
  }

  lemma PartialStart(b: seq<Byte>)
    requires |b| == 256
    ensures forall j :: 0 <= j < LIMBS ==> Partial(b, j, 0) == 0
  {
  }

  lemma PartialEnd(b: seq<Byte>)
    requires |b| == 256
    ensures forall j :: 0 <= j < LIMBS ==> Partial(b, j, 256) == LimbAt(b, j)
  {
  }

  // ---- to_be ----

  // The octet of `v` at place `r`.
  function OctetAt(v: Big, r: nat): (x: Byte)
    requires r < 256
  {
    v[r / 4] / Shift(r % 4) % 0x100
  }

  lemma OctetsOfLimb(v: Big, j: nat)
    requires j < LIMBS
    ensures [OctetAt(v, 4 * j), OctetAt(v, 4 * j + 1), OctetAt(v, 4 * j + 2), OctetAt(v, 4 * j + 3)] == Le32(v[j])
  {
  }

  lemma OctetsRebuild(v: Big, out: seq<Byte>)
    requires |out| == 256 && forall k :: 0 <= k < 256 ==> out[k] == OctetAt(v, 255 - k)
    ensures LimbsOf(out) == v
  {
    hide OctetAt, FromLe32, Le32;
    forall j | 0 <= j < LIMBS
      ensures LimbAt(out, j) == v[j]
    {
      OctetsOfLimb(v, j);
      Le32RoundTrip(v[j]);
      assert out[255 - 4 * j] == OctetAt(v, 4 * j) && out[254 - 4 * j] == OctetAt(v, 4 * j + 1);
      assert out[253 - 4 * j] == OctetAt(v, 4 * j + 2) && out[252 - 4 * j] == OctetAt(v, 4 * j + 3);
    }
  }

  // `to_be`: the octets of a number, most significant first.
  method ToBe(v: Big) returns (out: seq<Byte>)
    ensures out == I2osp(Val(v), 256) && Os2ip(out) == Val(v)
  {
    hide OctetAt, Val, Os2ip, I2osp, LimbsOf;
    out := [];
    var i := 0;
    while i < 256
      invariant i <= 256 && |out| == i
      invariant forall k :: 0 <= k < i ==> out[k] == OctetAt(v, 255 - k)
    {
      out := out + [OctetAt(v, 255 - i)];
      i := i + 1;
    }
    OctetsRebuild(v, out);
    LimbsValue(out);
    I2ospInverse(out);
  }
}
