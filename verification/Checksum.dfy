// What the FNV-1a checksum of the tools detects.
module Checksum {
  import opened Bytes
  import opened ModArith

  const M32: nat := 0x1_0000_0000
  const PRIME: nat := 16777619
  // PRIME * INVERSE is 1 modulo 2^32.
  const INVERSE: nat := 899433627

  // The published values for the empty string and for "a".
  lemma PublishedValues()
    ensures Fnv1a([]) == 0x811C9DC5 && Fnv1a([0x61]) == 0xE40C292C
  {
    hide Xor;
    FnvSnoc([], 0x61);
    assert [] + [0x61] == [0x61];
    FirstMix();
  }

  lemma FirstMix()
    ensures Xor(0x811C9DC5, 0x61) == 0x811C9DA4
  {
    hide Xor;
    XorStep(0x811C9DC5, 0x61);
    XorStep(0x408E4EE2, 0x30);
    XorStep(0x20472771, 0x18);
    XorStep(0x102393B8, 0xC);
    HighMix();
  }

  lemma HighMix()
    ensures Xor(0x811C9DC, 0x6) == 0x811C9DA
  {
    hide Xor;
    XorStep(0x811C9DC, 0x6);
    XorStep(0x408E4EE, 0x3);
    XorStep(0x2047277, 0x1);
    XorNothing(0x102393B);
  }

  lemma {:induction false} XorNothing(a: nat)
    ensures Xor(a, 0) == a
  {
    hide Xor;
    XorStep(a, 0);
    if a > 0 {
      XorNothing(a / 2);
    } else {
      XorZeros();
    }
  }

  lemma FnvSnoc(s: seq<Byte>, b: Byte)
    ensures Fnv1a(s + [b]) == Xor(Fnv1a(s), b) * PRIME % M32
  {
    assert (s + [b])[..|s|] == s;
  }

  lemma {:induction false} XorCommutes(a: nat, b: nat)
    ensures Xor(a, b) == Xor(b, a)
    decreases a + b
  {
    hide Xor;
    XorStep(a, b);
    XorStep(b, a);
    if a != 0 || b != 0 {
      XorCommutes(a / 2, b / 2);
    }
  }

  // One step mixes in a byte without losing anything.
  lemma StepInjective(x: U32, a: Byte, y: U32, b: Byte)
    requires Xor(x, a) * PRIME % M32 == Xor(y, b) * PRIME % M32 && (x == y || a == b)
    ensures x == y && a == b
  {
    hide Xor;
    WordBound(x, a);
    WordBound(y, b);
    PrimeCancels(Xor(x, a));
    PrimeCancels(Xor(y, b));
    XorTwice(x, a);
    XorTwice(y, b);
    XorCommutes(x, a);
    XorCommutes(y, b);
    XorTwice(a, x);
    XorTwice(b, y);
  }

  lemma WordBound(x: U32, a: Byte)
    ensures Xor(x, a) < M32
  {
    hide Xor;
    Pow2Values();
    XorBound(x, a, 32);
  }

  lemma PrimeCancels(x: nat)
    requires x < M32
    ensures x * PRIME % M32 * INVERSE % M32 == x
  {
    ModMul(x * PRIME, INVERSE, M32);
    MulAssociates(x, PRIME, INVERSE);
    assert PRIME * INVERSE == 3513497 * M32 + 1;
    MulAssociates(x, 3513497, M32);
    ModUnique(x * (PRIME * INVERSE), M32, x * 3513497, x);
  }

  // What differs stays different through any common continuation.
  lemma {:induction false} TailKeepsApart(s: seq<Byte>, t: seq<Byte>, tail: seq<Byte>)
    requires Fnv1a(s) != Fnv1a(t)
    ensures Fnv1a(s + tail) != Fnv1a(t + tail)
  {
    hide Fnv1a, Xor;
    if tail == [] {
      assert s + tail == s && t + tail == t;
    } else {
      var n := |tail| - 1;
      var u, v, b := s + tail[..n], t + tail[..n], tail[n];
      TailKeepsApart(s, t, tail[..n]);
      FnvSnoc(u, b);
      FnvSnoc(v, b);
      assert s + tail == u + [b] && t + tail == v + [b];
      if Fnv1a(u + [b]) == Fnv1a(v + [b]) {
        StepInjective(Fnv1a(u), b, Fnv1a(v), b);
      }
    }
  }

  // Changing one byte, anywhere, changes the checksum.
  lemma OneByteDetected(s: seq<Byte>, i: nat, b: Byte)
    requires i < |s| && b != s[i]
    ensures Fnv1a(s[i := b]) != Fnv1a(s)
  {
    hide Fnv1a, Xor;
    var head, tail := s[..i], s[i + 1..];
    FnvSnoc(head, s[i]);
    FnvSnoc(head, b);
    if Fnv1a(head + [s[i]]) == Fnv1a(head + [b]) {
      StepInjective(Fnv1a(head), s[i], Fnv1a(head), b);
    }
    TailKeepsApart(head + [s[i]], head + [b], tail);
    assert s == head + [s[i]] + tail && s[i := b] == head + [b] + tail;
  }
}
