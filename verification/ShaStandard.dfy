// What the SHA-256 digests of the streaming contexts mean, read against FIPS 180-4: the padded
// message, the words of the digest and the initial state.
module ShaStandard {
  import opened Bytes
  import opened ModArith
  import opened Octets
  import opened ShaStream

  // ---- words ----

  lemma Be32Octets(x: U32)
    ensures Be32(x) == I2osp(x, 4)
  {
    hide I2osp;
    Powers();
    forall i | 0 <= i < 4
      ensures Be32(x)[i] == I2osp(x, 4)[i]
    {
      I2ospAt(x, 4, i);
    }
  }

  lemma Powers()
    ensures Pow256(0) == 1 && Pow256(1) == 0x100 && Pow256(2) == 0x1_0000 && Pow256(3) == 0x100_0000
    ensures Pow256(4) == 0x1_0000_0000 && Pow256(8) == TWO64
  {
    assert Pow256(5) == 0x100 * Pow256(4) && Pow256(6) == 0x100 * Pow256(5);
    assert Pow256(7) == 0x100 * Pow256(6);
  }

  lemma Be64Octets(x: nat)
    requires x < TWO64
    ensures Be64(x) == I2osp(x, 8) && Os2ip(Be64(x)) == x
  {
    hide I2osp, Os2ip;
    forall i | 0 <= i < 8
      ensures Be64(x)[i] == I2osp(x, 8)[i]
    {
      I2ospAt(x, 8, i);
    }
    Powers();
    Os2ipInverse(x, 8);
  }

  // Word `i` of a string of words, most significant octet first.
  ghost function Word(d: seq<Byte>, i: nat): (x: nat)
    requires 4 * i + 4 <= |d|
  {
    Os2ip(d[4 * i..4 * i + 4])
  }

  lemma SerializedWord(s: State, i: nat)
    requires i < 8
    ensures Word(Serialized(s), i) == s[i]
  {
    hide Os2ip, Be32;
    assert Serialized(s)[4 * i..4 * i + 4] == Be32(s[i]);
    Be32Octets(s[i]);
    Powers();
    Os2ipInverse(s[i], 4);
  }

  // ---- the padded message ----

  // Section 5.1.1: the message, a one bit, the fewest zeros that make whole blocks, and the length
  // in bits over 64 bits.
  ghost predicate PaddedTo(m: seq<Byte>, p: seq<Byte>)
    ensures PaddedTo(m, p) ==> |p| % 64 == 0
  {
    && |p| % 64 == 0 && |m| + 9 <= |p| < |m| + 73
    && p[..|m|] == m && p[|m|] == 0x80
    && (forall i :: |m| < i < |p| - 8 ==> p[i] == 0)
    && Os2ip(p[|p| - 8..]) == 8 * |m| % TWO64
  }

  lemma PaddingLength(n: nat)
    ensures 9 <= |Padding(n)| < 73 && |Padding(n)| == 9 + (119 - n % 64) % 64
  {
    hide Be64;
  }

  lemma PaddingParts(n: nat)
    ensures var p := Padding(n);
            && |p| >= 9 && p[0] == 0x80 && (forall i :: 0 < i < |p| - 8 ==> p[i] == 0)
            && p[|p| - 8..] == Be64(8 * n % TWO64)
  {
    hide Be64;
  }

  lemma Shaped(m: seq<Byte>, pad: seq<Byte>)
    requires 9 <= |pad| < 73 && (|m| + |pad|) % 64 == 0 && pad[0] == 0x80
    requires forall i :: 0 < i < |pad| - 8 ==> pad[i] == 0
    requires Os2ip(pad[|pad| - 8..]) == 8 * |m| % TWO64
    ensures PaddedTo(m, m + pad)
  {
    hide Os2ip;
    var p := m + pad;
    assert p[|p| - 8..] == pad[|pad| - 8..];
    assert forall i :: |m| <= i < |p| ==> p[i] == pad[i - |m|];
  }

  lemma PaddingPads(m: seq<Byte>)
    ensures PaddedTo(m, m + Padding(|m|))
  {
    hide Be64, Os2ip, Padding, PaddedTo;
    PaddingLength(|m|);
    PaddingParts(|m|);
    Be64Octets(8 * |m| % TWO64);
    Shaped(m, Padding(|m|));
  }

  // The octet at position `i` of a padded message of `n` octets in all.
  function PadOctet(m: seq<Byte>, n: nat, i: nat): (b: Byte)
    requires |m| + 9 <= n && i < n
  {
    if i < |m| then m[i] else if i == |m| then 0x80
    else if i < n - 8 then 0 else I2osp(8 * |m| % TWO64, 8)[i - (n - 8)]
  }

  lemma PaddedOctet(m: seq<Byte>, p: seq<Byte>, i: nat)
    requires PaddedTo(m, p) && i < |p|
    ensures |m| + 9 <= |p| && p[i] == PadOctet(m, |p|, i)
  {
    hide Os2ip, I2osp;
    var tail := p[|p| - 8..];
    I2ospInverse(tail);
    if i < |m| {
      assert p[..|m|][i] == p[i];
    } else if i >= |p| - 8 {
      assert tail[i - (|p| - 8)] == p[i];
    }
  }

  lemma PaddedUnique(m: seq<Byte>, p: seq<Byte>, q: seq<Byte>)
    requires PaddedTo(m, p) && PaddedTo(m, q)
    ensures p == q
  {
    hide Os2ip, PadOctet;
    assert |p| == |q|;
    forall i | 0 <= i < |p|
      ensures p[i] == q[i]
    {
      PaddedOctet(m, p, i);
      PaddedOctet(m, q, i);
    }
  }

  // The padding is exactly the standard's.
  lemma PaddingExact(m: seq<Byte>, p: seq<Byte>)
    ensures PaddedTo(m, p) <==> p == m + Padding(|m|)
  {
    hide PaddedTo, Padding;
    PaddingPads(m);
    if PaddedTo(m, p) {
      PaddedUnique(m, p, m + Padding(|m|));
    }
  }

  // No two messages, of any lengths, have the same padded form.
  lemma PaddedInjective(m: seq<Byte>, n: seq<Byte>, p: seq<Byte>)
    requires PaddedTo(m, p) && PaddedTo(n, p)
    ensures m == n
  {
    hide Os2ip;
    assert -64 < |m| - |n| < 64;
    assert 8 * |m| % TWO64 == 8 * |n| % TWO64;
    assert |m| == |n|;
  }

  // ---- the digest ----

  // The eight words of `d` are those of `s`.
  ghost predicate WordsOf(d: seq<Byte>, s: State) {
    |d| == 32 && forall i :: 0 <= i < 8 ==> Word(d, i) == s[i]
  }

  lemma SerializedExact(d: seq<Byte>, s: State)
    ensures WordsOf(d, s) <==> d == Serialized(s)
  {
    hide Word, Serialized;
    var e := Serialized(s);
    forall i | 0 <= i < 8
      ensures Word(e, i) == s[i]
    {
      SerializedWord(s, i);
    }
    if WordsOf(d, s) {
      forall k | 0 <= k < 32
        ensures d[k] == e[k]
      {
        WordOctet(d, e, k);
      }
    }
  }

  lemma WordOctet(d: seq<Byte>, e: seq<Byte>, k: nat)
    requires |d| == |e| == 32 && k < 32
    requires forall i :: 0 <= i < 8 ==> Word(d, i) == Word(e, i)
    ensures d[k] == e[k]
  {
    hide Os2ip;
    var i := k / 4;
    assert Word(d, i) == Word(e, i);
    var a, b := d[4 * i..4 * i + 4], e[4 * i..4 * i + 4];
    I2ospInverse(a);
    I2ospInverse(b);
    assert d[k] == a[k - 4 * i] && e[k] == b[k - 4 * i];
  }

  // The digest of section 6.2.2: the state after the last block of the padded message.
  ghost predicate IsDigest(f: Compression, m: seq<Byte>, d: seq<Byte>) {
    exists p :: PaddedTo(m, p) && WordsOf(d, Fold(f, p, |p| / 64))
  }

  // The contexts' digest is the standard's, and no other string is.
  lemma DigestExact(f: Compression, m: seq<Byte>, d: seq<Byte>)
    ensures IsDigest(f, m, d) <==> d == DigestOf(f, m)
  {
    hide Fold, PaddedTo, Padding, WordsOf, Serialized;
    var p := m + Padding(|m|);
    PaddingExact(m, p);
    SerializedExact(d, Fold(f, p, |p| / 64));
    if IsDigest(f, m, d) {
      var q :| PaddedTo(m, q) && WordsOf(d, Fold(f, q, |q| / 64));
      PaddingExact(m, q);
    }
  }

  // ---- the initial state ----

  ghost predicate Divides(d: nat, n: nat) {
    d > 0 && n % d == 0
  }

  ghost predicate Prime(n: nat) {
    n >= 2 && forall d :: Divides(d, n) ==> d == 1 || d == n
  }

  const PRIMES: seq<nat> := [2, 3, 5, 7, 11, 13, 17, 19]

  // `w` is the first 32 bits of the fractional part of the square root of `n`: below some whole
  // part it gives that root at 32 binary places.
  ghost predicate RootFraction(w: U32, n: nat) {
    exists whole: nat :: FloorRoot(whole * 0x1_0000_0000 + w as int, n * TWO64)
  }

  ghost predicate FloorRoot(r: int, n: nat) {
    r >= 0 && r * r <= n < (r + 1) * (r + 1)
  }

  // Section 5.3.3: the words come from the first eight primes.
  lemma InitialWord(i: nat)
    requires i < 8
    ensures RootFraction(Initial()[i], PRIMES[i])
  {
    var whole: nat := [1, 1, 2, 2, 3, 3, 4, 4][i];
    assert FloorRoot(whole * 0x1_0000_0000 + Initial()[i] as int, PRIMES[i] * TWO64);
  }

  lemma SmallPrime(n: nat)
    requires n in PRIMES
    ensures Prime(n)
  {
    forall d: nat | Divides(d, n)
      ensures d == 1 || d == n
    {
      DivisorBound(d, n);
    }
  }

  lemma DivisorBound(d: nat, n: nat)
    requires n > 0 && Divides(d, n)
    ensures d <= n
  {
  }

  lemma FirstPrimes(n: nat)
    requires n < 23
    ensures Prime(n) <==> n in PRIMES
  {
    if n in PRIMES {
      SmallPrime(n);
    } else if n % 2 == 0 {
      assert n == 0 ==> Divides(4, n);
      assert Divides(2, n);
    } else {
      assert n > 1 ==> Divides(3, n);
    }
  }
}
