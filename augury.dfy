/** The Augury solver: the service encrypts a file by XOR with a keystream
    whose 32-bit words follow a linear congruential generator, so one known
    word (recovered from the PNG signature) yields the whole keystream. */
module Augury {
  import opened Common

  /** 2^32 */
  const Mod32 := 0x1_0000_0000

  /** generate_keystream(i): one step of the service's LCG. Python's `%` by a
      positive modulus is never negative, as is Dafny's. */
  function GenerateKeystream(i: int): (r: int)
    ensures 0 <= r < Mod32
  {
    (i * 3404970675 + 3553295105) % Mod32
  }

  /** The step only depends on its input modulo 2^32, so the generator is a
      function of the 32-bit state. */
  lemma GenerateKeystreamMod(i: int)
    ensures GenerateKeystream(i) == GenerateKeystream(i % Mod32)
  {
    var q := i / Mod32;
    assert i == q * Mod32 + i % Mod32;
    DivUnique(i * 3404970675 + 3553295105, Mod32,
              q * 3404970675 + (i % Mod32 * 3404970675 + 3553295105) / Mod32,
              GenerateKeystream(i % Mod32));
  }

  /** Keystream word n after seed k0: the seed itself, then one LCG step
      per further word. */
  function KeyWord(k0: int, n: nat): (r: int)
    requires 0 <= k0 < Mod32
    ensures 0 <= r < Mod32
  {
    if n == 0 then k0 else GenerateKeystream(KeyWord(k0, n - 1))
  }

  /** `w.to_bytes(4, byteorder='big')` for a 32-bit word. */
  function BE4(w: int): (r: seq<byte>)
    requires 0 <= w < Mod32
    ensures |r| == 4
  {
    DivBelow32(w);
    [w / 0x100_0000, (w / 0x1_0000) % 256, (w / 256) % 256, w % 256]
  }

  lemma DivBelow32(w: int)
    requires 0 <= w < Mod32
    ensures 0 <= w / 0x100_0000 < 256
  {
    DivBelow(w, 0x100_0000, 256);
  }

  /** The big-endian value of four bytes, written out. */
  lemma FromBytesBE4(b: seq<byte>)
    requires |b| == 4
    ensures FromBytesBE(b) == ((b[0] as int * 256 + b[1] as int) * 256 + b[2] as int) * 256 + b[3] as int
  {
    var b3, b2, b1 := b[..3], b[..2], b[..1];
    assert b3[..2] == b2 && b2[..1] == b1 && b1[..0] == [];
    assert FromBytesBE(b1) == b[0];
    assert FromBytesBE(b2) == FromBytesBE(b1) * 256 + b[1];
    assert FromBytesBE(b3) == FromBytesBE(b2) * 256 + b[2];
    assert FromBytesBE(b) == FromBytesBE(b3) * 256 + b[3];
  }

  /** `int.from_bytes(w.to_bytes(4, 'big'), 'big') == w`: the 4-byte
      encoding loses nothing. */
  lemma BE4RoundTrip(w: int)
    requires 0 <= w < Mod32
    ensures FromBytesBE(BE4(w)) == w
  {
    var b := BE4(w);
    FromBytesBE4(b);
    DivDiv(w, 256, 256);
    DivDiv(w / 256, 256, 256);
    DivDiv(w, 0x1_0000, 256);
    assert w == (w / 256) * 256 + w % 256;
    assert w / 256 == (w / 0x1_0000) * 256 + (w / 256) % 256;
    assert w / 0x1_0000 == (w / 0x100_0000) * 256 + (w / 0x1_0000) % 256;
  }

  /** Byte k of the keystream from seed k0: byte k mod 4 of word k div 4. */
  function KeyByte(k0: int, k: nat): (r: byte)
    requires 0 <= k0 < Mod32
  {
    BE4(KeyWord(k0, k / 4))[k % 4]
  }

  /** The output of decrypt with the cracker at state k0: byte k of the input
      XOR keystream byte k. */
  function XorStream(data: seq<byte>, k0: int): (r: seq<byte>)
    requires 0 <= k0 < Mod32
    ensures |r| == |data|
    ensures forall k :: 0 <= k < |data| ==> r[k] == Xor(data[k], KeyByte(k0, k))
  {
    seq(|data|, k requires 0 <= k < |data| => Xor(data[k], KeyByte(k0, k)))
  }

  /** Decrypting the output again from the same starting state gives the
      input back: the keystream XOR is an involution. */
  lemma XorStreamInvolution(data: seq<byte>, k0: int)
    requires 0 <= k0 < Mod32
    ensures XorStream(XorStream(data, k0), k0) == data
  {
    forall k | 0 <= k < |data|
      ensures XorStream(XorStream(data, k0), k0)[k] == data[k]
    {
      XorInvolution(data[k], KeyByte(k0, k));
    }
  }

  lemma KeyWordNext(k0: int, n: nat)
    requires 0 <= k0 < Mod32
    ensures KeyWord(k0, n + 1) == GenerateKeystream(KeyWord(k0, n))
  {
  }

  /** ceil(len / 4): the number of 4-byte chunks, the last one possibly short. */
  function NumChunks(len: nat): nat
  {
    (len + 3) / 4
  }

  lemma KeyByteAt(k0: int, n: nat, j: nat, k: nat)
    requires 0 <= k0 < Mod32 && k / 4 == n && k % 4 == j
    ensures KeyByte(k0, k) == BE4(KeyWord(k0, n))[j]
  {
  }

  /** The cracker object: the keystream word that comes next. */
  class AuguryCracker {
    var currentKeystream: int

    constructor (knownKeystreamInt: int)
      ensures currentKeystream == knownKeystreamInt
    {
      currentKeystream := knownKeystreamInt;
    }

    /** get_next_key_bytes: the current word as 4 big-endian bytes, then one
        LCG step. `to_bytes(4)` raises before the step for a word outside
        [0, 2^32). */
    method GetNextKeyBytes() returns (r: Result<seq<byte>>)
      modifies this
      ensures 0 <= old(currentKeystream) < Mod32 ==>
        r == Ok(BE4(old(currentKeystream))) &&
        currentKeystream == GenerateKeystream(old(currentKeystream))
      ensures !(0 <= old(currentKeystream) < Mod32) ==>
        r == Err(OverflowError) && currentKeystream == old(currentKeystream)
    {
      if !(0 <= currentKeystream < Mod32) {
        return Err(OverflowError);
      }
      var keyBytes := BE4(currentKeystream);
      currentKeystream := GenerateKeystream(currentKeystream);
      return Ok(keyBytes);
    }

    /** decrypt on the already hex-decoded input: 4-byte chunks, each XORed
        with the next keystream word, a short last chunk with the first bytes
        of it. The state advances once per chunk. */
    method Decrypt(enc: seq<byte>) returns (r: Result<seq<byte>>)
      modifies this
      ensures 0 <= old(currentKeystream) < Mod32 ==>
        r == Ok(XorStream(enc, old(currentKeystream))) &&
        currentKeystream == KeyWord(old(currentKeystream), NumChunks(|enc|))
      ensures !(0 <= old(currentKeystream) < Mod32) ==>
        currentKeystream == old(currentKeystream) &&
        if enc == [] then r == Ok([]) else r == Err(OverflowError)
    {
      ghost var k0 := currentKeystream;
      var decrypted: seq<byte> := [];
      var i := 0;
      ghost var n := 0;
      while i < |enc|
        invariant 0 <= n && i == 4 * n && i < |enc| + 4 && |decrypted| == Min(i, |enc|)
        invariant !(0 <= k0 < Mod32) ==> n == 0 && currentKeystream == k0
        invariant 0 <= k0 < Mod32 ==> currentKeystream == KeyWord(k0, n)
        invariant 0 <= k0 < Mod32 ==> DecryptedPrefix(enc, k0, decrypted)
        decreases |enc| - i
      {
        var keyBytes := GetNextKeyBytes();
        if keyBytes.Err? {
          return Err(keyBytes.error);
        }
        assert 0 <= k0 < Mod32;
        ghost var next := currentKeystream;
        var chunk := enc[i..Min(i + 4, |enc|)];
        var j := 0;
        while j < |chunk|
          invariant 0 <= j <= |chunk| && |decrypted| == i + j
          invariant currentKeystream == next
          invariant DecryptedPrefix(enc, k0, decrypted)
        {
          DecryptedSnoc(enc, k0, decrypted, n, j, keyBytes.value);
          decrypted := decrypted + [Xor(chunk[j], keyBytes.value[j])];
          j := j + 1;
        }
        KeyWordNext(k0, n);
        i := i + 4;
        n := n + 1;
      }
      DivUnique(|enc| + 3, 4, n, |enc| + 3 - 4 * n);
      if 0 <= k0 < Mod32 {
        DecryptedAll(enc, k0, decrypted);
      }
      return Ok(decrypted);
    }
  }

  /** The first |d| bytes of the input, decrypted from seed k0. */
  ghost predicate DecryptedPrefix(enc: seq<byte>, k0: int, d: seq<byte>)
    requires 0 <= k0 < Mod32
  {
    |d| <= |enc| && forall k :: 0 <= k < |d| ==> d[k] == Xor(enc[k], KeyByte(k0, k))
  }

  /** One more byte of chunk n, XORed with byte j of word n, extends the
      decrypted prefix. */
  lemma DecryptedSnoc(enc: seq<byte>, k0: int, d: seq<byte>, n: nat, j: nat, keyBytes: seq<byte>)
    requires 0 <= k0 < Mod32 && j < 4 && |d| == 4 * n + j < |enc|
    requires keyBytes == BE4(KeyWord(k0, n))
    requires DecryptedPrefix(enc, k0, d)
    ensures DecryptedPrefix(enc, k0, d + [Xor(enc[4 * n + j], keyBytes[j])])
  {
    DivUnique(|d|, 4, n, j);
    KeyByteAt(k0, n, j, |d|);
  }

  lemma DecryptedAll(enc: seq<byte>, k0: int, d: seq<byte>)
    requires 0 <= k0 < Mod32 && |d| == |enc|
    requires DecryptedPrefix(enc, k0, d)
    ensures d == XorStream(enc, k0)
  {
  }

  /** `bytes.fromhex("89504E470D0A1A0A")`, the PNG file signature. */
  const PngHeader: seq<byte> := [0x89, 0x50, 0x4E, 0x47, 0x0D, 0x0A, 0x1A, 0x0A]

  /** The first keystream word a known PNG signature reveals. */
  function RecoveredSeed(enc: seq<byte>): (w: int)
    requires |enc| >= 8
    ensures 0 <= w < Mod32
  {
    var ks := seq(4, i requires 0 <= i < 4 => Xor(enc[i], PngHeader[i]));
    FromBytesBEBound4(ks);
    FromBytesBE(ks)
  }

  lemma FromBytesBEBound4(b: seq<byte>)
    requires |b| == 4
    ensures FromBytesBE(b) < Mod32
  {
    FromBytesBE4(b);
  }

  /** Lines 92-105 of main on the decoded ciphertext: XOR the first 8 bytes
      with the PNG signature and read the first 4 as a big-endian word. Fewer
      than 8 ciphertext bytes make the indexing fail. */
  method RecoverKeystream(enc: seq<byte>) returns (r: Result<(seq<byte>, int)>)
    ensures r.Err? <==> |enc| < 8
    ensures r.Err? ==> r.error == IndexError
    ensures r.Ok? ==> |r.value.0| == 8
    ensures r.Ok? ==> forall i :: 0 <= i < 8 ==> r.value.0[i] == Xor(enc[i], PngHeader[i])
    ensures r.Ok? ==> r.value.1 == RecoveredSeed(enc)
  {
    var encryptedStart := enc[..Min(8, |enc|)];
    var keystreamStart: seq<byte> := [];
    var i := 0;
    while i < 8
      invariant 0 <= i <= 8 && |keystreamStart| == i && i <= |encryptedStart|
      invariant forall k :: 0 <= k < i ==> keystreamStart[k] == Xor(enc[k], PngHeader[k])
    {
      if i >= |encryptedStart| {
        return Err(IndexError);
      }
      keystreamStart := keystreamStart + [Xor(encryptedStart[i], PngHeader[i])];
      i := i + 1;
    }
    assert keystreamStart[..4] == seq(4, k requires 0 <= k < 4 => Xor(enc[k], PngHeader[k]));
    return Ok((keystreamStart, FromBytesBE(keystreamStart[..4])));
  }

  /** The attack works: if the ciphertext is a PNG file encrypted from seed
      k0, the recovered word is k0, the cracker started there decrypts the
      whole file, and the result starts with the PNG signature. */
  lemma SeedRecoveryCorrect(plain: seq<byte>, k0: int)
    requires 0 <= k0 < Mod32
    requires |plain| >= 8 && plain[..8] == PngHeader
    ensures RecoveredSeed(XorStream(plain, k0)) == k0
    ensures XorStream(XorStream(plain, k0), RecoveredSeed(XorStream(plain, k0))) == plain
    ensures XorStream(XorStream(plain, k0), RecoveredSeed(XorStream(plain, k0)))[..8] == PngHeader
  {
    var enc := XorStream(plain, k0);
    var ks := seq(4, i requires 0 <= i < 4 => Xor(enc[i], PngHeader[i]));
    forall i | 0 <= i < 4
      ensures ks[i] == BE4(k0)[i]
    {
      assert i / 4 == 0 && i % 4 == i;
      assert plain[i] == PngHeader[i];
      assert enc[i] == Xor(PngHeader[i], BE4(k0)[i]);
      XorSwap(PngHeader[i], BE4(k0)[i]);
    }
    assert ks == BE4(k0);
    BE4RoundTrip(k0);
    XorStreamInvolution(plain, k0);
  }

  /** (p ^ k) ^ p == k */
  lemma XorSwap(p: byte, k: byte)
    ensures Xor(Xor(p, k), p) == k
  {
    BitXorCommutes(p, k);
    XorInvolution(k, p);
  }
}
