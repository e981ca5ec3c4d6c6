// 2048-bit integers as 64 little-endian 32-bit limbs: comparison, in-place subtraction, plain
// addition, and their modular combinations up to the public exponentiation.
module Limbs {
  import opened Bytes
  import opened ModArith

  const BASE: nat := 0x1_0000_0000
  const LIMBS: nat := 64

  type Big = s: seq<U32> | |s| == LIMBS witness seq(LIMBS, _ => 0)

  // ---- value ----

  function BasePow(i: nat): (r: nat)
    ensures r > 0
  {
    if i == 0 then 1 else BASE * BasePow(i - 1)
  }

  function Times(x: int, p: int): (r: int) {
    x * p
  }

  function Val(s: seq<U32>): (v: nat) {
    if s == [] then 0 else Val(s[..|s| - 1]) + Column(s[|s| - 1], |s| - 1)
  }

  function Column(x: U32, i: nat): (r: nat) {
    Times(x, BasePow(i))
  }

  // A limb that is smaller by one leaves room for everything below it.
  lemma ColumnGap(x: int, y: int, i: nat)
    requires x < y
    ensures Times(x, BasePow(i)) + BasePow(i) <= Times(y, BasePow(i))
  {
    var p := BasePow(i);
    MulDistributes(x, 1, p);
    MulDistributes(y - x - 1, x + 1, p);
    assert (y - x - 1) * p >= 0;
  }

  lemma {:induction false} ValBound(s: seq<U32>)
    ensures Val(s) < BasePow(|s|)
  {
    hide Times;
    if s != [] {
      var n := |s| - 1;
      ValBound(s[..n]);
      ColumnGap(s[n], BASE, n);
      TimesBase(n);
    }
  }

  lemma TimesBase(n: nat)
    ensures Times(BASE, BasePow(n)) == BasePow(n + 1)
  {
  }

  lemma ValTake(s: seq<U32>, i: nat)
    requires i < |s|
    ensures Val(s[..i + 1]) == Val(s[..i]) + Column(s[i], i)
  {
    assert s[..i + 1][..i] == s[..i];
  }

  // Equal high limbs contribute equally.
  lemma {:induction false} ValSameTop(s: seq<U32>, t: seq<U32>, k: nat)
    requires |s| == |t| && k <= |s| && s[k..] == t[k..]
    ensures Val(s) - Val(s[..k]) == Val(t) - Val(t[..k])
  {
    if k == |s| {
      assert s[..k] == s && t[..k] == t;
    } else {
      var n := |s| - 1;
      assert s[n] == s[k..][n - k] && t[n] == t[k..][n - k];
      assert s[..n][k..] == s[k..][..n - k] && t[..n][k..] == t[k..][..n - k];
      ValSameTop(s[..n], t[..n], k);
      assert s[..n][..k] == s[..k] && t[..n][..k] == t[..k];
    }
  }

  // The highest differing limb decides.
  lemma ValLess(s: seq<U32>, t: seq<U32>, k: nat)
    requires |s| == |t| && k < |s| && s[k + 1..] == t[k + 1..] && s[k] < t[k]
    ensures Val(s) < Val(t)
  {
    hide Times, BasePow;
    ValSameTop(s, t, k + 1);
    ValTake(s, k);
    ValTake(t, k);
    ValBound(s[..k]);
    ColumnGap(s[k], t[k], k);
  }

  // ---- compare ----

  method Compare(a: Big, b: Big) returns (c: int)
    ensures c == if Val(a) < Val(b) then -1 else if Val(a) > Val(b) then 1 else 0
  {
    var i := LIMBS;
    while i > 0
      invariant 0 <= i <= LIMBS && a[i..] == b[i..]
    {
      var n := i - 1;
      if a[n] < b[n] {
        ValLess(a, b, n);
        return -1;
      }
      if a[n] > b[n] {
        ValLess(b, a, n);
        return 1;
      }
      assert a[n..] == [a[n]] + a[i..] && b[n..] == [b[n]] + b[i..];
      i := n;
    }
    assert a[0..] == a && b[0..] == b;
    return 0;
  }

  // ---- subtract ----

  // One column of a subtraction with borrow, scaled.
  lemma BorrowColumn(a0: int, b0: int, r0: int, i: nat, x: int, y: int, z: int, borrow: int, next: int)
    requires a0 - b0 == r0 - Times(borrow, BasePow(i))
    requires z == x - y - borrow + next * BASE
    ensures (a0 + Times(x, BasePow(i))) - (b0 + Times(y, BasePow(i)))
            == (r0 + Times(z, BasePow(i))) - Times(next, BasePow(i + 1))
  {
    var p := BasePow(i);
    assert z * p == x * p - y * p - borrow * p + next * BASE * p;
    MulAssociates(next, BASE, p);
  }

  ghost predicate Borrowing(before: Big, b: Big, now: Big, i: nat, borrow: int)
    requires i <= LIMBS
  {
    Val(before[..i]) - Val(b[..i]) == Val(now[..i]) - Times(borrow, BasePow(i))
  }

  lemma BorrowStep(before: Big, b: Big, now: Big, i: nat, borrow: int, next: int, z: U32)
    requires i < LIMBS && Borrowing(before, b, now, i, borrow)
    requires z == before[i] - b[i] - borrow + next * BASE
    ensures Borrowing(before, b, now[i := z], i + 1, next)
  {
    hide Times, BasePow, Val;
    var after := now[i := z];
    assert after[..i] == now[..i];
    ValTake(before, i);
    ValTake(b, i);
    ValTake(after, i);
    BorrowColumn(Val(before[..i]), Val(b[..i]), Val(now[..i]), i, before[i], b[i], z, borrow, next);
  }

  lemma BorrowEnd(before: Big, b: Big, now: Big, borrow: int)
    requires 0 <= borrow <= 1 && Borrowing(before, b, now, LIMBS, borrow)
    ensures Val(now) == Val(before) - Val(b) + (if Val(before) < Val(b) then BasePow(LIMBS) else 0)
  {
    hide BasePow, Val;
    assert before[..LIMBS] == before && b[..LIMBS] == b && now[..LIMBS] == now;
    ValBound(now);
    ValBound(before);
    ValBound(b);
  }

  // `subtract`, in place: the difference modulo 2^2048.
  method Subtract(a: array<U32>, b: Big)
    requires a.Length == LIMBS
    modifies a
    ensures Val(a[..]) == Val(old(a[..])) - Val(b) + (if Val(old(a[..])) < Val(b) then BasePow(LIMBS) else 0)
  {
    ghost var before: Big := a[..];
    assert Borrowing(before, b, before, 0, 0);
    hide Borrowing, Val, BasePow;
    var borrow := 0;
    var i := 0;
    while i < LIMBS
      invariant i <= LIMBS && 0 <= borrow <= 1
      invariant forall k :: i <= k < LIMBS ==> a[k] == before[k]
      invariant Borrowing(before, b, a[..], i, borrow)
    {
      var x: int, y: int := a[i], b[i] as int + borrow;
      var next := if x < y then 1 else 0;
      ghost var now := a[..];
      a[i] := x - y + next * BASE;
      assert a[..] == now[i := a[i]];
      BorrowStep(before, b, now, i, borrow, next, a[i]);
      borrow := next;
      i := i + 1;
    }
    BorrowEnd(before, b, a[..], borrow);
  }

  lemma TimesSmall(p: int)
    ensures Times(0, p) == 0 && Times(1, p) == p
  {
  }

  // ---- add_plain ----

  lemma CarryColumn(a0: int, b0: int, r0: int, i: nat, x: int, y: int, z: int, carry: int, next: int)
    requires a0 + b0 == r0 + Times(carry, BasePow(i))
    requires z == x + y + carry - next * BASE
    ensures (a0 + Times(x, BasePow(i))) + (b0 + Times(y, BasePow(i)))
            == (r0 + Times(z, BasePow(i))) + Times(next, BasePow(i + 1))
  {
    var p := BasePow(i);
    assert z * p == x * p + y * p + carry * p - next * BASE * p;
    MulAssociates(next, BASE, p);
  }

  ghost predicate Carrying(a: Big, b: Big, now: Big, i: nat, carry: int)
    requires i <= LIMBS
  {
    Val(a[..i]) + Val(b[..i]) == Val(now[..i]) + Times(carry, BasePow(i))
  }

  lemma CarryStep(a: Big, b: Big, now: Big, i: nat, carry: int, next: int, z: U32)
    requires i < LIMBS && Carrying(a, b, now, i, carry)
    requires z == a[i] as int + b[i] as int + carry - next * BASE
    ensures Carrying(a, b, now[i := z], i + 1, next)
  {
    hide Times, BasePow, Val;
    var after := now[i := z];
    assert after[..i] == now[..i];
    ValTake(a, i);
    ValTake(b, i);
    ValTake(after, i);
    CarryColumn(Val(a[..i]), Val(b[..i]), Val(now[..i]), i, a[i], b[i], z, carry, next);
  }

  lemma CarryEnd(a: Big, b: Big, now: Big, carry: int)
    requires 0 <= carry <= 1 && Carrying(a, b, now, LIMBS, carry)
    ensures Val(now) == Val(a) + Val(b) - (if Val(a) + Val(b) >= BasePow(LIMBS) then BasePow(LIMBS) else 0)
  {
    hide BasePow, Val;
    assert a[..LIMBS] == a && b[..LIMBS] == b && now[..LIMBS] == now;
    ValBound(now);
    ValBound(a);
    ValBound(b);
  }

  // `add_plain`: the sum modulo 2^2048.
  method AddPlain(o: array<U32>, a: Big, b: Big)
    requires o.Length == LIMBS
    modifies o
    ensures Val(o[..]) == Val(a) + Val(b) - (if Val(a) + Val(b) >= BasePow(LIMBS) then BasePow(LIMBS) else 0)
  {
    assert Carrying(a, b, o[..], 0, 0);
    hide Carrying, Val, BasePow;
    var carry := 0;
    var i := 0;
    while i < LIMBS
      invariant i <= LIMBS && 0 <= carry <= 1
      invariant Carrying(a, b, o[..], i, carry)
    {
      var sum: int := a[i] as int + b[i] as int + carry;
      ghost var now := o[..];
      o[i] := sum % BASE;
      assert o[..] == now[i := o[i]];
      CarryStep(a, b, now, i, carry, sum / BASE, o[i]);
      carry := sum / BASE;
      i := i + 1;
    }
    CarryEnd(a, b, o[..], carry);
  }
}
