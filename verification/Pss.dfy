// RSASSA-PSS verification (section 8.1.2 of RFC 8017) with a 2048-bit modulus, public exponent
// 65537, a 32-octet digest and a 32-octet salt. The digest function is a parameter throughout.
module Pss {
  import opened Bytes
  import opened ModArith
  import opened Limbs
  import opened ModExp
  import opened Octets

  const H_LEN: nat := 32

  // ---- the standard ----

  // T after `n` rounds of MGF1 (appendix B.2.1 of RFC 8017).
  function MgfBlocks(h: Hash, seed: seq<Byte>, n: nat): (t: seq<Byte>)
    ensures |t| == 32 * n
  {
    if n == 0 then [] else MgfBlocks(h, seed, n - 1) + h(seed + I2osp(n - 1, 4))
  }

  function Mgf1(h: Hash, seed: seq<Byte>, size: nat): (mask: seq<Byte>)
    ensures |mask| == size
  {
    MgfBlocks(h, seed, (size + 31) / 32)[..size]
  }

  function XorByte(a: Byte, b: Byte): (r: Byte) {
    assert Pow2(8) == 256 by { Pow2Values(); }
    XorBound(a, b, 8);
    Xor(a, b)
  }

  function XorAll(a: seq<Byte>, b: seq<Byte>): (r: seq<Byte>)
    requires |a| == |b|
    ensures |r| == |a|
  {
    seq(|a|, i requires 0 <= i < |a| => XorByte(a[i], b[i]))
  }

  // The leftmost octet reduced below `keep`, which clears its high bits.
  function Cleared(b: seq<Byte>, keep: nat): (r: seq<Byte>)
    requires b != [] && keep > 0
    ensures |r| == |b|
  {
    [b[0] % keep] + b[1..]
  }

  // EMSA-PSS-VERIFY (section 9.1.2 of RFC 8017) on a message digest.
  predicate EmsaPssVerify(h: Hash, mHash: Digest, em: seq<Byte>, emBits: nat, sLen: nat)
    requires 8 * |em| - 8 < emBits <= 8 * |em|
  {
    var emLen := |em|;
    if emLen < H_LEN + sLen + 2 || em[emLen - 1] != 0xBC then false
    else
      var dbLen := emLen - H_LEN - 1;
      var maskedDb, hashed := em[..dbLen], em[dbLen..emLen - 1];
      var keep := Pow2(8 - (8 * emLen - emBits));
      if maskedDb[0] >= keep then false
      else
        var db := Cleared(XorAll(maskedDb, Mgf1(h, hashed, dbLen)), keep);
        var psLen := emLen - H_LEN - sLen - 2;
        && (forall i :: 0 <= i < psLen ==> db[i] == 0) && db[psLen] == 1
        && hashed == h(Zeros(8) + mHash + db[dbLen - sLen..])
  }

  // EMSA-PSS-ENCODE (section 9.1.1 of RFC 8017) of a message digest with a salt.
  function EmsaPssEncode(h: Hash, mHash: Digest, salt: seq<Byte>, emBits: nat): (em: seq<Byte>)
    requires (emBits + 7) / 8 >= H_LEN + |salt| + 2
    ensures |em| == (emBits + 7) / 8
  {
    var emLen := (emBits + 7) / 8;
    var hashed := h(Zeros(8) + mHash + salt);
    var db := Zeros(emLen - |salt| - H_LEN - 2) + [1] + salt;
    var maskedDb := XorAll(db, Mgf1(h, hashed, |db|));
    Cleared(maskedDb, Pow2(8 - (8 * emLen - emBits))) + hashed + [0xBC]
  }

  // RSASSA-PSS-VERIFY (section 8.1.2 of RFC 8017) for a modulus of `modBits` bits.
  predicate RsassaPssVerify(h: Hash, n: nat, e: nat, modBits: nat, mHash: Digest, signature: seq<Byte>, sLen: nat)
    requires modBits > 1 && n > 0
  {
    var s := Os2ip(signature);
    if |signature| != (modBits + 7) / 8 || s >= n then false
    else
      var m := Pow(s, e) % n;
      var emLen := (modBits - 1 + 7) / 8;
      m < Pow256(emLen) && EmsaPssVerify(h, mHash, I2osp(m, emLen), modBits - 1, sLen)
  }

  // ---- mgf1 ----

  lemma CounterOctets(c: U32)
    ensures I2osp(c, 4) == [c / 0x100_0000, c / 0x1_0000 % 0x100, c / 0x100 % 0x100, c % 0x100]
  {
    var a, b := c / 0x100, c / 0x1_0000;
    var d := c / 0x100_0000;
    assert b == a / 0x100 && d == b / 0x100 && d / 0x100 == 0;
    assert I2osp(d, 1) == I2osp(d / 0x100, 0) + [d % 0x100];
    assert I2osp(b, 2) == I2osp(d, 1) + [b % 0x100];
    assert I2osp(a, 3) == I2osp(b, 2) + [a % 0x100];
  }

  lemma MgfPrefix(h: Hash, seed: seq<Byte>, n: nat, m: nat)
    requires n <= m
    ensures MgfBlocks(h, seed, n) == MgfBlocks(h, seed, m)[..32 * n]
  {
    if n < m {
      MgfPrefix(h, seed, n, m - 1);
      assert MgfBlocks(h, seed, m)[..32 * n] == MgfBlocks(h, seed, m - 1)[..32 * n];
    }
  }

  // `mgf1`: counter blocks until `size` octets are out.
  method MaskGeneration(h: Hash, seed: seq<Byte>, size: nat) returns (out: seq<Byte>)
    requires size <= 32 * 0x1_0000_0000
    ensures out == Mgf1(h, seed, size)
  {
    hide I2osp;
    out := [];
    var counter := 0;
    while |out| < size
      invariant |out| == (if 32 * counter < size then 32 * counter else size)
      invariant out == MgfBlocks(h, seed, counter)[..|out|]
      invariant |out| < size ==> counter < 0x1_0000_0000
      invariant counter <= (size + 31) / 32
      decreases size - |out|
    {
      CounterOctets(counter);
      var block := h(seed +
        [counter / 0x100_0000, counter / 0x1_0000 % 0x100, counter / 0x100 % 0x100, counter % 0x100]);
      var n := if size - |out| < 32 then size - |out| else 32;
      assert MgfBlocks(h, seed, counter + 1) == MgfBlocks(h, seed, counter) + block;
      assert MgfBlocks(h, seed, counter)[..|out|] == MgfBlocks(h, seed, counter);
      out := out + block[..n];
      counter := counter + 1;
    }
    MgfPrefix(h, seed, counter, (size + 31) / 32);
  }

  // Octet `i` of the mask, without going through the blocks before it.
  lemma {:induction false} MgfOctet(h: Hash, seed: seq<Byte>, n: nat, i: nat)
    requires i < 32 * n
    ensures MgfBlocks(h, seed, n)[i] == h(seed + I2osp(i / 32, 4))[i % 32]
  {
    hide I2osp;
    if i < 32 * (n - 1) {
      MgfOctet(h, seed, n - 1, i);
    }
  }

  lemma MaskOctet(h: Hash, seed: seq<Byte>, size: nat, i: nat)
    requires i < size
    ensures Mgf1(h, seed, size)[i] == h(seed + I2osp(i / 32, 4))[i % 32]
  {
    hide I2osp;
    MgfOctet(h, seed, (size + 31) / 32, i);
  }

  // ---- encoding and verification ----

  // Masking twice, clearing the high bits each time, gives back a string without high bits.
  lemma MaskTwice(b: seq<Byte>, mask: seq<Byte>, bits: nat)
    requires |b| == |mask| > 0 && b[0] < Pow2(bits)
    ensures Cleared(XorAll(Cleared(XorAll(b, mask), Pow2(bits)), mask), Pow2(bits)) == b
  {
    hide Xor, Pow2;
    var keep := Pow2(bits);
    var once := Cleared(XorAll(b, mask), keep);
    var twice := Cleared(XorAll(once, mask), keep);
    forall i | 0 <= i < |b|
      ensures twice[i] == b[i]
    {
      XorTwice(b[i], mask[i]);
      if i == 0 {
        LowTwice(b[0], mask[0], bits);
      } else {
        assert once[i] == XorByte(b[i], mask[i]) && twice[i] == XorByte(once[i], mask[i]);
      }
    }
  }

  lemma LowTwice(a: nat, m: nat, bits: nat)
    requires a < Pow2(bits)
    ensures Xor(Xor(a, m) % Pow2(bits), m) % Pow2(bits) == a
  {
    hide Xor, Pow2;
    var keep := Pow2(bits);
    var x := Xor(a, m);
    XorTwice(a, m);
    XorLow(x, m, bits);
    XorLow(x % keep, m, bits);
    ModUnique(x % keep, keep, 0, x % keep);
    ModUnique(a, keep, 0, a);
  }

  // An encoding taken apart: the masked block, the hash, the trailer.
  lemma EncodeParts(h: Hash, mHash: Digest, salt: seq<Byte>, emBits: nat)
    requires emBits > 0 && (emBits + 7) / 8 >= H_LEN + |salt| + 2
    ensures var em := EmsaPssEncode(h, mHash, salt, emBits);
            var dbLen := |em| - H_LEN - 1;
            var hashed := h(Zeros(8) + mHash + salt);
            var db := Zeros(dbLen - |salt| - 1) + [1] + salt;
            && em[|em| - 1] == 0xBC && em[dbLen..|em| - 1] == hashed
            && em[..dbLen] == Cleared(XorAll(db, Mgf1(h, hashed, dbLen)), Pow2(8 - (8 * |em| - emBits)))
  {
    hide Mgf1, XorByte, Pow2;
  }

  lemma KeepAboveOne(k: nat)
    requires k > 0
    ensures Pow2(k) > 1
  {
  }

  lemma EncodeVerifies(h: Hash, mHash: Digest, salt: seq<Byte>, emBits: nat)
    requires emBits > 0 && (emBits + 7) / 8 >= H_LEN + |salt| + 2
    ensures EmsaPssVerify(h, mHash, EmsaPssEncode(h, mHash, salt, emBits), emBits, |salt|)
  {
    hide EmsaPssEncode, Mgf1, XorAll, Pow2, Cleared;
    var em := EmsaPssEncode(h, mHash, salt, emBits);
    EncodeParts(h, mHash, salt, emBits);
    var dbLen, bits := |em| - H_LEN - 1, 8 - (8 * |em| - emBits);
    var db := Zeros(dbLen - |salt| - 1) + [1] + salt;
    KeepAboveOne(bits);
    MaskTwice(db, Mgf1(h, em[dbLen..|em| - 1], dbLen), bits);
    ClearedBelow(XorAll(db, Mgf1(h, em[dbLen..|em| - 1], dbLen)), Pow2(bits));
    assert db[dbLen - |salt|..] == salt;
  }

  lemma ClearedBelow(b: seq<Byte>, keep: nat)
    requires b != [] && keep > 0
    ensures Cleared(b, keep)[0] < keep
  {
  }

  lemma VerifiedEncodes(h: Hash, mHash: Digest, em: seq<Byte>, emBits: nat, sLen: nat) returns (salt: seq<Byte>)
    requires 8 * |em| - 8 < emBits <= 8 * |em| && EmsaPssVerify(h, mHash, em, emBits, sLen)
    ensures |salt| == sLen && |em| >= H_LEN + sLen + 2 && em == EmsaPssEncode(h, mHash, salt, emBits)
  {
    hide EmsaPssEncode, Mgf1, XorAll, Pow2, Cleared;
    var dbLen, bits := |em| - H_LEN - 1, 8 - (8 * |em| - emBits);
    var maskedDb, hashed := em[..dbLen], em[dbLen..|em| - 1];
    var mask := Mgf1(h, hashed, dbLen);
    var db := Cleared(XorAll(maskedDb, mask), Pow2(bits));
    salt := db[dbLen - sLen..];
    assert db == Zeros(dbLen - sLen - 1) + [1] + salt;
    MaskTwice(maskedDb, mask, bits);
    EncodeParts(h, mHash, salt, emBits);
    var code := EmsaPssEncode(h, mHash, salt, emBits);
    assert em == em[..dbLen] + em[dbLen..|em| - 1] + [em[|em| - 1]];
    assert code == code[..dbLen] + code[dbLen..|em| - 1] + [code[|em| - 1]];
  }

  // Verification accepts exactly the encodings of the message digest, under some salt.
  lemma EncodingExact(h: Hash, mHash: Digest, em: seq<Byte>, emBits: nat, sLen: nat)
    requires 8 * |em| - 8 < emBits <= 8 * |em|
    ensures EmsaPssVerify(h, mHash, em, emBits, sLen) <==> IsEncoding(h, mHash, em, emBits, sLen)
  {
    hide EmsaPssEncode, EmsaPssVerify;
    if EmsaPssVerify(h, mHash, em, emBits, sLen) {
      var salt := VerifiedEncodes(h, mHash, em, emBits, sLen);
    }
    if IsEncoding(h, mHash, em, emBits, sLen) {
      var salt: seq<Byte> :| |salt| == sLen && em == EmsaPssEncode(h, mHash, salt, emBits);
      EncodeVerifies(h, mHash, salt, emBits);
    }
  }

  ghost predicate IsEncoding(h: Hash, mHash: Digest, em: seq<Byte>, emBits: nat, sLen: nat) {
    && (emBits + 7) / 8 >= H_LEN + sLen + 2
    && exists salt: seq<Byte> :: |salt| == sLen && em == EmsaPssEncode(h, mHash, salt, emBits)
  }

  // ---- verify_pss ----

  // `equal_digest`: or of the exclusive-ors.
  method EqualDigest(a: Digest, b: Digest) returns (same: bool)
    ensures same <==> a == b
  {
    var d := 0;
    var i := 0;
    while i < 32
      invariant i <= 32 && d >= 0
      invariant d == 0 <==> a[..i] == b[..i]
    {
      XorZero(a[i], b[i]);
      OrZero(d, Xor(a[i], b[i]));
      d := Or(d, Xor(a[i], b[i]));
      assert a[..i + 1] == a[..i] + [a[i]] && b[..i + 1] == b[..i] + [b[i]];
      i := i + 1;
    }
    assert a[..32] == a && b[..32] == b;
    same := d == 0;
  }

  // The padding scan: or of the zero octets and of the separator against 1.
  method Malformed(db: seq<Byte>, pad: nat) returns (bad: bool)
    requires pad < |db|
    ensures bad <==> !((forall i :: 0 <= i < pad ==> db[i] == 0) && db[pad] == 1)
  {
    var d := 0;
    var i := 0;
    while i < pad
      invariant i <= pad && d >= 0
      invariant d == 0 <==> forall k :: 0 <= k < i ==> db[k] == 0
    {
      OrZero(d, db[i]);
      d := Or(d, db[i]);
      i := i + 1;
    }
    XorZero(db[pad], 1);
    OrZero(d, Xor(db[pad], 1));
    d := Or(d, Xor(db[pad], 1));
    bad := d != 0;
  }

  // The part of `verify_pss` after the exponentiation.
  method CheckEncoding(h: Hash, encoded: seq<Byte>, digest: Digest) returns (ok: bool)
    requires |encoded| == 256
    ensures ok <==> EmsaPssVerify(h, digest, encoded, 2047, 32)
    ensures ok <==> IsEncoding(h, digest, encoded, 2047, 32)
  {
    hide Mgf1, XorByte, IsEncoding;
    EncodingExact(h, digest, encoded, 2047, 32);
    assert Pow2(7) == 128;
    if encoded[255] != 0xBC || encoded[0] >= 0x80 {
      return false;
    }
    var dbn, pad := 223, 190;
    var eh: Digest := encoded[dbn..dbn + 32];
    var mask := MaskGeneration(h, eh, dbn);
    var db: seq<Byte> := [];
    var i := 0;
    while i < dbn
      invariant i <= dbn && |db| == i
      invariant db == XorAll(encoded[..dbn], Mgf1(h, eh, dbn))[..i]
    {
      db := db + [XorByte(encoded[i], mask[i])];
      i := i + 1;
    }
    ghost var full := XorAll(encoded[..dbn], Mgf1(h, eh, dbn));
    assert db == full;
    db := db[0 := db[0] % 0x80];
    assert db == Cleared(full, Pow2(7));
    assert db[pad + 1..] == db[dbn - 32..];
    var bad := Malformed(db, pad);
    var expected := h(Zeros(8) + digest + db[pad + 1..]);
    var same := EqualDigest(eh, expected);
    ok := !bad && same;
  }

  lemma {:induction false} TopOctet(b: seq<Byte>)
    requires |b| > 0 && b[0] >= 0x80
    ensures Os2ip(b) >= 0x80
  {
    if |b| > 1 {
      TopOctet(b[..|b| - 1]);
    } else {
      assert b[..0] == [];
    }
  }

  // The standard's verification at the fixed sizes.
  lemma VerifyAt2048(h: Hash, n: nat, e: nat, mHash: Digest, signature: seq<Byte>, k: nat)
    requires 0 < n <= Pow256(k) && k == 256 && |signature| == 256
    ensures RsassaPssVerify(h, n, e, 2048, mHash, signature, 32) <==>
            Os2ip(signature) < n && EmsaPssVerify(h, mHash, I2osp(Pow(Os2ip(signature), e) % n, 256), 2047, 32)
  {
    hide Os2ip, Pow, EmsaPssVerify, I2osp, Pow256;
  }

  // `verify_pss`: accepts exactly the signatures that section 8.1.2 of RFC 8017 accepts, under a
  // modulus whose top bit is set; any other modulus is refused. Equivalently, the signature is
  // below the modulus and its 65537-th power is an encoding of the digest.
  method VerifyPss(h: Hash, signature: seq<Byte>, digest: Digest, modulus: seq<Byte>) returns (ok: bool)
    requires |signature| == 256 && |modulus| == 256
    ensures ok ==> modulus[0] >= 0x80
    ensures modulus[0] >= 0x80 ==>
              Os2ip(modulus) > 0 && (ok <==> RsassaPssVerify(h, Os2ip(modulus), 65537, 2048, digest, signature, 32))
    ensures ok <==>
            && modulus[0] >= 0x80 && Os2ip(signature) < Os2ip(modulus)
            && IsEncoding(h, digest, I2osp(Pow(Os2ip(signature), 65537) % Os2ip(modulus), 256), 2047, 32)
  {
    hide Os2ip, Val, Pow, EmsaPssVerify, RsassaPssVerify, IsEncoding, I2osp, Pow256, LimbsOf;
    if modulus[0] < 0x80 {
      return false;
    }
    TopOctet(modulus);
    Os2ipBound(modulus);
    VerifyAt2048(h, Os2ip(modulus), 65537, digest, signature, |modulus|);
    var s := FromBe(signature);
    var m := FromBe(modulus);
    var order := Compare(s, m);
    if order >= 0 {
      return false;
    }
    var d := Exp65537(s, m);
    var encoded := ToBe(d);
    ok := CheckEncoding(h, encoded, digest);
  }
}
