// Natural-number facts the limb arithmetic rests on: uniqueness of remainders, remainders of
// sums and products, and powers.
module ModArith {
  import opened Bytes

  lemma MulDistributes(a: int, b: int, c: int)
    ensures (a + b) * c == a * c + b * c
  {
  }

  lemma MulAssociates(a: int, b: int, c: int)
    ensures a * (b * c) == (a * b) * c
  {
  }

  lemma SmallMultiple(d: int, m: int)
    requires -m < d * m < m
    ensures d == 0
  {
  }

  // A value between 0 and m that differs from x by a multiple of m is the remainder.
  lemma ModUnique(x: int, m: int, q: int, r: int)
    requires m > 0 && x == q * m + r && 0 <= r < m
    ensures x % m == r && x / m == q
  {
    var d := q - x / m;
    assert x == m * (x / m) + x % m;
    MulDistributes(q, -(x / m), m);
    assert d * m == x % m - r;
    SmallMultiple(d, m);
  }

  lemma ModAdd(x: int, y: int, m: int)
    requires m > 0
    ensures (x % m + y) % m == (x + y) % m
  {
    var s := x % m + y;
    var q := x / m + s / m;
    assert x == m * (x / m) + x % m;
    assert s == m * (s / m) + s % m;
    MulDistributes(x / m, s / m, m);
    ModUnique(x + y, m, q, s % m);
  }

  lemma ModAddBoth(x: int, y: int, m: int)
    requires m > 0
    ensures (x % m + y % m) % m == (x + y) % m
  {
    ModAdd(x, y % m, m);
    ModAdd(y, x, m);
  }

  lemma ModMul(x: int, y: int, m: int)
    requires m > 0
    ensures (x % m * y) % m == (x * y) % m
  {
    var k := x / m;
    assert x == m * k + x % m;
    MulDistributes(m * k, x % m, y);
    assert x * y == m * k * y + x % m * y;
    MulAssociates(m, k, y);
    var z := x % m * y;
    assert z == m * (z / m) + z % m;
    assert x * y == m * (k * y) + m * (z / m) + z % m;
    MulDistributes(k * y, z / m, m);
    ModUnique(x * y, m, k * y + z / m, z % m);
  }

  // (x mod m)(y mod m) = xy (mod m).
  lemma ModMulBoth(x: int, y: int, m: int)
    requires m > 0
    ensures (x % m) * (y % m) % m == x * y % m
  {
    ModMul(x, y % m, m);
    ModMul(y, x, m);
  }

  function Pow(b: nat, e: nat): (r: nat) {
    if e == 0 then 1 else b * Pow(b, e - 1)
  }

  lemma {:induction false} PowAdd(b: nat, e: nat, f: nat)
    ensures Pow(b, e + f) == Pow(b, e) * Pow(b, f)
  {
    if e > 0 {
      PowAdd(b, e - 1, f);
      MulAssociates(b, Pow(b, e - 1), Pow(b, f));
    } else {
      assert Pow(b, 0) == 1;
    }
  }

  // Splitting off one more binary digit of w.
  lemma BitStep(w: nat, p: nat)
    requires p > 0
    ensures w % (2 * p) == w % p + (w / p % 2) * p
    ensures w / p == 2 * (w / (2 * p)) + w / p % 2
  {
    var q, r := w / p, w % p;
    var k := q / 2;
    assert w == q * p + r;
    MulAssociates(k, 2, p);
    assert k * (2 * p) == (2 * k) * p;
    if q % 2 == 0 {
      assert q == 2 * k;
      ModUnique(w, 2 * p, k, r);
    } else {
      assert q == 2 * k + 1;
      MulDistributes(2 * k, 1, p);
      ModUnique(w, 2 * p, k, p + r);
    }
  }

  lemma {:induction false} Pow2Add(a: nat, b: nat)
    ensures Pow2(a + b) == Pow2(a) * Pow2(b)
  {
    if a > 0 {
      Pow2Add(a - 1, b);
      MulAssociates(2, Pow2(a - 1), Pow2(b));
    }
  }

  lemma Pow2Values()
    ensures Pow2(8) == 0x100 && Pow2(16) == 0x1_0000 && Pow2(24) == 0x100_0000 && Pow2(32) == 0x1_0000_0000
  {
    assert Pow2(4) == 16;
    Pow2Add(4, 4);
    Pow2Add(8, 8);
    Pow2Add(8, 16);
    Pow2Add(16, 16);
  }

  // Or of numbers with no common bit is their sum.
  lemma {:induction false} OrDisjoint(a: nat, b: nat, k: nat)
    requires a % Pow2(k) == 0 && b < Pow2(k)
    ensures Or(a, b) == a + b
    decreases k, a
  {
    if k == 0 {
      OrZeroRight(a);
    } else if a == 0 && b == 0 {
    } else {
      var p := Pow2(k - 1);
      var q := a / (2 * p);
      assert a == q * (2 * p);
      HalfMultiple(a, p, q);
      OrDisjoint(a / 2, b / 2, k - 1);
    }
  }

  lemma HalfMultiple(a: nat, p: nat, q: nat)
    requires p > 0 && a == q * (2 * p)
    ensures a % 2 == 0 && a / 2 == q * p && a / 2 % p == 0
  {
    assert a == 2 * (q * p);
    ModUnique(q * p, p, q, 0);
  }

  // ---- exclusive or ----

  lemma {:induction false} XorStep(a: nat, b: nat)
    ensures Xor(a, b) == (a + b) % 2 + 2 * Xor(a / 2, b / 2)
    ensures Xor(a, b) % 2 == (a + b) % 2 && Xor(a, b) / 2 == Xor(a / 2, b / 2)
  {
    XorZeros();
    Halves(Xor(a, b), (a + b) % 2, Xor(a / 2, b / 2));
  }

  lemma Halves(x: nat, low: nat, high: nat)
    requires x == low + 2 * high && low < 2
    ensures x % 2 == low && x / 2 == high
  {
  }

  predicate Bit(x: nat, i: nat) {
    if i == 0 then x % 2 == 1 else Bit(x / 2, i - 1)
  }

  // A bit is set exactly when it is set in one of the two.
  lemma {:induction false} XorBit(a: nat, b: nat, i: nat)
    ensures Bit(Xor(a, b), i) <==> Bit(a, i) != Bit(b, i)
  {
    hide Xor;
    XorStep(a, b);
    if i > 0 {
      XorBit(a / 2, b / 2, i - 1);
    }
  }

  // Applied twice, the same mask cancels.
  lemma {:induction false} XorTwice(a: nat, b: nat)
    ensures Xor(Xor(a, b), b) == a
    decreases a + b
  {
    hide Xor;
    XorStep(a, b);
    XorStep(Xor(a, b), b);
    if a != 0 || b != 0 {
      XorTwice(a / 2, b / 2);
    } else {
      XorZeros();
    }
  }

  lemma XorZeros()
    ensures Xor(0, 0) == 0
  {
  }

  // The low bits of the result come from the low bits.
  lemma {:induction false} XorLow(a: nat, b: nat, bits: nat)
    ensures Xor(a, b) % Pow2(bits) == Xor(a % Pow2(bits), b % Pow2(bits))
  {
    hide Xor;
    if bits > 0 {
      XorLow(a / 2, b / 2, bits - 1);
      XorLowStep(a, b, Pow2(bits - 1));
    } else {
      XorZeros();
    }
  }

  lemma XorLowStep(a: nat, b: nat, p: nat)
    requires p > 0 && Xor(a / 2, b / 2) % p == Xor(a / 2 % p, b / 2 % p)
    ensures Xor(a, b) % (2 * p) == Xor(a % (2 * p), b % (2 * p))
  {
    hide Xor;
    LowHalf(a, p);
    LowHalf(b, p);
    LowHalf(Xor(a, b), p);
    XorStep(a, b);
    XorFromHalves(a, b, a % (2 * p), b % (2 * p), Xor(a, b) % (2 * p));
  }

  lemma XorFromHalves(a: nat, b: nat, c: nat, d: nat, x: nat)
    requires c % 2 == a % 2 && d % 2 == b % 2 && x % 2 == (a + b) % 2 && x / 2 == Xor(c / 2, d / 2)
    ensures x == Xor(c, d)
  {
    hide Xor;
    XorStep(c, d);
    SameParity(a, b, c, d);
    assert x == x % 2 + 2 * (x / 2);
  }

  lemma SameParity(a: nat, b: nat, c: nat, d: nat)
    requires c % 2 == a % 2 && d % 2 == b % 2
    ensures (a + b) % 2 == (c + d) % 2
  {
  }

  lemma LowHalf(x: nat, p: nat)
    requires p > 0
    ensures x % (2 * p) == x % 2 + 2 * (x / 2 % p)
    ensures x % (2 * p) / 2 == x / 2 % p && x % (2 * p) % 2 == x % 2
  {
    var y := x / 2;
    assert y == y / p * p + y % p;
    MulAssociates(y / p, p, 2);
    ModUnique(x, 2 * p, y / p, x % 2 + 2 * (y % p));
  }
}
