// Modular addition, multiplication and the public exponentiation over limbs.
module ModExp {
  import opened Bytes
  import opened ModArith
  import opened Limbs

  method AddMod(a: Big, b: Big, m: Big) returns (o: Big)
    requires Val(a) < Val(m) && Val(b) < Val(m)
    ensures Val(o) == (Val(a) + Val(b)) % Val(m)
  {
    hide Val, BasePow;
    ValBound(m);
    var t := new U32[LIMBS](i requires 0 <= i < LIMBS => m[i]);
    assert t[..] == m;
    Subtract(t, b);
    var order := Compare(a, t[..]);
    var out := new U32[LIMBS](i requires 0 <= i < LIMBS => a[i]);
    if order >= 0 {
      assert out[..] == a;
      Subtract(out, t[..]);
    } else {
      AddPlain(out, a, b);
    }
    o := out[..];
    ModUnique(Val(a) + Val(b), Val(m), if order >= 0 then 1 else 0, Val(o));
  }

  // `bit`.
  function Bit(v: Big, n: nat): (b: nat)
    requires n < 32 * LIMBS
    ensures b < 2
  {
    v[n / 32] / Pow2(n % 32) % 2
  }

  // The value of the low `n` bits.
  function BitsVal(v: Big, n: nat): (x: nat)
    requires n <= 32 * LIMBS
  {
    if n == 0 then 0 else BitsVal(v, n - 1) + Bit(v, n - 1) * Pow2(n - 1)
  }

  lemma {:induction false} BasePowBits(q: nat)
    ensures BasePow(q) == Pow2(32 * q)
  {
    if q > 0 {
      BasePowBits(q - 1);
      Pow2Values();
      Pow2Add(32, 32 * (q - 1));
    }
  }

  lemma BitsValStep(v: Big, q: nat, r: nat)
    requires q < LIMBS && r < 32
    ensures BitsVal(v, 32 * q + (r + 1)) == BitsVal(v, 32 * q + r) + (v[q] / Pow2(r) % 2) * Pow2(32 * q + r)
  {
    var n := 32 * q + r;
    assert n / 32 == q && n % 32 == r;
    hide Pow2;
  }

  // The low bits up to bit `r` of limb `q`.
  lemma {:induction false} BitsInLimb(v: Big, q: nat, r: nat)
    requires q < LIMBS && r <= 32 && BitsVal(v, 32 * q) == Val(v[..q])
    ensures BitsVal(v, 32 * q + r) == Val(v[..q]) + Times(v[q] % Pow2(r), BasePow(q))
  {
    hide BitsVal, Val, BasePow, Times, Bit;
    if r > 0 {
      BitsInLimb(v, q, r - 1);
      BitsValStep(v, q, r - 1);
      var w, p := v[q], Pow2(r - 1);
      BitStep(w, p);
      Pow2Add(32 * q, r - 1);
      BasePowBits(q);
      BitColumn(w % p, w / p % 2, p, BasePow(q));
    } else {
      assert Pow2(0) == 1;
      TimesSmall(BasePow(q));
    }
  }

  lemma BitColumn(low: int, bit: int, p: int, base: int)
    ensures Times(low, base) + bit * (base * p) == Times(low + bit * p, base)
  {
    MulDistributes(low, bit * p, base);
    MulAssociates(bit, p, base);
  }

  // The bits of a number are its value.
  lemma {:induction false} BitsOfLimbs(v: Big, q: nat)
    requires q <= LIMBS
    ensures BitsVal(v, 32 * q) == Val(v[..q])
  {
    hide BasePow, Times, Pow2, Bit;
    if q > 0 {
      BitsOfLimbs(v, q - 1);
      BitsInLimb(v, q - 1, 32);
      Pow2Values();
      LowBits(v[q - 1]);
      ValTake(v, q - 1);
    }
  }

  lemma LowBits(w: U32)
    ensures w % 0x1_0000_0000 == w
  {
  }

  // ---- mul_mod ----

  lemma MulStep(a: nat, x: nat, p: nat, m: nat, r: nat, c: nat)
    requires m > 0 && r == a * x % m && c == a * p % m
    ensures (r + c) % m == a * (x + p) % m
    ensures (c + c) % m == a * (2 * p) % m
  {
    ModAddBoth(a * x, a * p, m);
    ModAddBoth(a * p, a * p, m);
    ScaledSum(a, x, p);
  }

  lemma ScaledSum(a: int, x: int, p: int)
    ensures a * (x + p) == a * x + a * p && a * (2 * p) == a * p + a * p
  {
  }

  // `mul_mod`: the product modulo m for every multiplier.
  method MulMod(a: Big, b: Big, m: Big) returns (o: Big)
    requires Val(a) < Val(m)
    ensures Val(o) == Val(a) * Val(b) % Val(m)
  {
    hide *;
    var r: Big, c: Big := seq(LIMBS, _ => 0), a;
    MulStart(a, b, m, r);
    var n := 0;
    while n < 2048
      invariant n <= 2048
      invariant Multiplying(Val(a), b, n, Val(m), Val(r), Val(c))
    {
      MulNext(Val(a), b, n, Val(m), Val(r), Val(c));
      if Bit(b, n) != 0 {
        r := AddMod(r, c, m);
      }
      c := AddMod(c, c, m);
      n := n + 1;
    }
    MulEnd(a, b, m, r, c);
    o := r;
  }

  // `r` is the product by the low `n` bits of `b`, `c` the multiplicand shifted by `n`.
  ghost predicate Multiplying(a: nat, b: Big, n: nat, m: nat, r: nat, c: nat)
    requires n <= 32 * LIMBS
  {
    m > 0 && r == a * BitsVal(b, n) % m && c == a * Pow2(n) % m
  }

  lemma MulStart(a: Big, b: Big, m: Big, zero: Big)
    requires Val(a) < Val(m) && zero == seq(LIMBS, _ => 0)
    ensures 2048 == 32 * LIMBS && Multiplying(Val(a), b, 0, Val(m), Val(zero), Val(a))
  {
    hide Val, Bit;
    ZeroVal(LIMBS);
    ModUnique(Val(a), Val(m), 0, Val(a));
    ModUnique(0, Val(m), 0, 0);
  }

  lemma MulNext(a: nat, b: Big, n: nat, m: nat, r: nat, c: nat)
    requires n < 32 * LIMBS && Multiplying(a, b, n, m, r, c)
    ensures r < m && c < m
    ensures Multiplying(a, b, n + 1, m, if Bit(b, n) != 0 then (r + c) % m else r, (c + c) % m)
  {
    hide BitsVal, Pow2, Bit;
    MulStep(a, BitsVal(b, n), Pow2(n), m, r, c);
    BitsNext(b, n);
    ModBound(a * BitsVal(b, n), m);
    ModBound(a * Pow2(n), m);
  }

  lemma ModBound(x: nat, m: nat)
    requires m > 0
    ensures x % m < m
  {
  }

  lemma MulEnd(a: Big, b: Big, m: Big, r: Big, c: Big)
    requires 2048 == 32 * LIMBS && Multiplying(Val(a), b, 2048, Val(m), Val(r), Val(c))
    ensures Val(r) == Val(a) * Val(b) % Val(m)
  {
    hide Val, BitsVal, Pow2;
    AllBits(b);
  }

  lemma AllBits(b: Big)
    ensures BitsVal(b, 32 * LIMBS) == Val(b)
  {
    hide Val, BitsVal;
    BitsOfLimbs(b, LIMBS);
    assert b[..LIMBS] == b;
  }

  lemma BitsNext(b: Big, n: nat)
    requires n < 32 * LIMBS
    ensures BitsVal(b, n + 1) == BitsVal(b, n) + (if Bit(b, n) != 0 then Pow2(n) else 0) && Pow2(n + 1) == 2 * Pow2(n)
  {
  }

  lemma {:induction false} ZeroVal(n: nat)
    ensures Val(seq(n, _ => 0)) == 0
  {
    if n > 0 {
      ZeroVal(n - 1);
      assert seq(n, _ => 0)[..n - 1] == seq<U32>(n - 1, _ => 0);
    }
  }

  // ---- exp65537 ----

  lemma ExpStep(s: nat, e: nat, m: nat, r: nat, bit: nat)
    requires m > 1 && r == Pow(s, e) % m && bit < 2
    ensures var q := r * r % m;
            (if bit == 1 then q * s % m else q) == Pow(s, 2 * e + bit) % m
  {
    var x := Pow(s, e);
    PowAdd(s, e, e);
    ModMulBoth(x, x, m);
    assert r * r % m == Pow(s, 2 * e) % m;
    if bit == 1 {
      ModMul(Pow(s, 2 * e), s, m);
      assert Pow(s, 2 * e + 1) == s * Pow(s, 2 * e);
    }
  }

  // `exp65537`: the RSA verification primitive for public exponent 65537.
  method Exp65537(s: Big, m: Big) returns (o: Big)
    requires Val(s) < Val(m) && Val(m) > 1
    ensures Val(o) == Pow(Val(s), 65537) % Val(m)
  {
    var one: Big := seq(LIMBS, i => if i == 0 then 1 else 0);
    OneVal(LIMBS);
    ModUnique(1, Val(m), 0, 1);
    Pow2Values();
    assert Pow2(17) == 0x2_0000;
    hide Val, Pow;
    assert Pow(Val(s), 0) == 1 by { PowZero(Val(s)); }
    var r := one;
    var n := 16;
    while n >= 0
      invariant -1 <= n <= 16
      invariant Val(r) == Pow(Val(s), 65537 / Pow2(n + 1)) % Val(m)
    {
      ghost var e, bit := 65537 / Pow2(n + 1), 65537 / Pow2(n) % 2;
      BitStep(65537, Pow2(n));
      ExpStep(Val(s), e, Val(m), Val(r), bit);
      r := MulMod(r, r, m);
      if 65537 / Pow2(n) % 2 != 0 {
        r := MulMod(r, s, m);
      }
      n := n - 1;
    }
    o := r;
  }

  lemma PowZero(b: nat)
    ensures Pow(b, 0) == 1
  {
  }

  lemma {:induction false} OneVal(n: nat)
    requires n > 0
    ensures Val(seq(n, i => if i == 0 then 1 else 0)) == 1
  {
    var s: seq<U32> := seq(n, i => if i == 0 then 1 else 0);
    if n > 1 {
      OneVal(n - 1);
      assert s[..n - 1] == seq<U32>(n - 1, i => if i == 0 then 1 else 0);
      TimesSmall(BasePow(n - 1));
    } else {
      assert s[..0] == [];
      TimesSmall(BasePow(0));
    }
  }
}
