/** The Clandescriptorius solver. The service XORs block i of a message sent
    at timestamp t with a keystream block named by the text str(t) + str(i).
    Sending zeros at timestamp -12 reveals, at block j(i) = int("3" + str(i)),
    the keystream block the flag (sent at -123) used for its block i. */
module Clandescriptorius {
  import opened Common

  const BlockSize := 16
  /** The flag's timestamp T0 and the timestamp T1 of the zero message. */
  const T0 := -123
  const T1 := -12

  // ---------------------------------------------------------------- chunks

  /** ceil(len / n), the number of slices `range(0, len, n)` produces. */
  function NumBlocks(len: nat, n: nat): nat
    requires n > 0
  {
    (len + n - 1) / n
  }

  lemma ChunkStartInRange(len: nat, n: nat, i: nat)
    requires n > 0 && i < NumBlocks(len, n)
    ensures i * n < len
  {
    var c := NumBlocks(len, n);
    assert c * n <= len + n - 1;
    MulNonneg(c - 1 - i, n);
    assert (c - 1 - i) * n == c * n - n - i * n;
  }

  /** `bs[i*n : i*n+n]`, cut short at the end of bs. */
  function ChunkAt(bs: seq<byte>, n: nat, i: nat): seq<byte>
    requires n > 0 && i < NumBlocks(|bs|, n)
  {
    ChunkStartInRange(|bs|, n, i);
    bs[i * n..Min(i * n + n, |bs|)]
  }

  /** chunks(bs, n): one slice per start index 0, n, 2n, ... below len(bs). */
  function Chunks(bs: seq<byte>, n: nat): (r: seq<seq<byte>>)
    requires n > 0
    ensures |r| == NumBlocks(|bs|, n)
  {
    seq(NumBlocks(|bs|, n), i requires 0 <= i < NumBlocks(|bs|, n) => ChunkAt(bs, n, i))
  }

  /** Every chunk but the last has n bytes, the last has 1 to n, and there
      are no chunks exactly when bs is empty. */
  lemma ChunksShape(bs: seq<byte>, n: nat)
    requires n > 0
    ensures var r := Chunks(bs, n);
      (|r| == 0 <==> |bs| == 0) &&
      (forall i :: 0 <= i < |r| - 1 ==> |r[i]| == n) &&
      (|r| > 0 ==> 0 < |r[|r| - 1]| <= n)
  {
    var r := Chunks(bs, n);
    forall i | 0 <= i < |r| - 1
      ensures |r[i]| == n
    {
      ChunkStartInRange(|bs|, n, i + 1);
      assert (i + 1) * n == i * n + n;
    }
    if |bs| > 0 {
      DivUnique(|bs| + n - 1, n, (|bs| + n - 1) / n, (|bs| + n - 1) % n);
      assert |r| > 0;
      ChunkStartInRange(|bs|, n, |r| - 1);
    } else {
      DivUnique(n - 1, n, 0, n - 1);
    }
  }

  /** The first m chunks joined are the first m*n bytes. */
  lemma {:induction false} ChunksConcatPrefix(bs: seq<byte>, n: nat, m: nat)
    requires n > 0 && m <= NumBlocks(|bs|, n)
    ensures Concat(Chunks(bs, n)[..m]) == bs[..Min(m * n, |bs|)]
    decreases m
  {
    var r := Chunks(bs, n);
    if m > 0 {
      ChunksConcatPrefix(bs, n, m - 1);
      var start := (m - 1) * n;
      ChunkStartInRange(|bs|, n, m - 1);
      MulSucc(m - 1, n);
      var end := Min(start + n, |bs|);
      assert Concat(r[..m]) == Concat(r[..m - 1]) + r[m - 1] by {
        assert r[..m][..m - 1] == r[..m - 1];
      }
      assert r[m - 1] == bs[start..end];
      assert bs[..start] + bs[start..end] == bs[..end];
    }
  }

  lemma SliceOfPrefix(a: seq<byte>, b: seq<byte>, lo: nat, hi: nat)
    requires lo <= hi <= |a|
    ensures (a + b)[lo..hi] == a[lo..hi]
  {
  }

  lemma MulSucc(a: int, n: int)
    ensures (a + 1) * n == a * n + n
  {
  }

  /** The chunks reach the end of bs. */
  lemma NumBlocksCover(len: nat, n: nat)
    requires n > 0
    ensures NumBlocks(len, n) * n >= len
  {
    var q, r := (len + n - 1) / n, (len + n - 1) % n;
    assert len + n - 1 == q * n + r;
  }

  /** A whole number m of n-byte blocks makes m chunks. */
  lemma NumBlocksExact(m: nat, n: nat)
    requires n > 0
    ensures NumBlocks(m * n, n) == m
  {
    DivUnique(m * n + n - 1, n, m, n - 1);
  }

  /** `b"".join(chunks(bs, n)) == bs`: chunking loses and adds nothing. */
  lemma ChunksConcat(bs: seq<byte>, n: nat)
    requires n > 0
    ensures Concat(Chunks(bs, n)) == bs
  {
    var c := NumBlocks(|bs|, n);
    ChunksConcatPrefix(bs, n, c);
    assert Chunks(bs, n)[..c] == Chunks(bs, n);
    NumBlocksCover(|bs|, n);
  }

  /** Joining blocks of n bytes each and chunking again by n gives the
      blocks back. */
  lemma ChunksOfConcat(blocks: seq<seq<byte>>, n: nat)
    requires n > 0 && forall i :: 0 <= i < |blocks| ==> |blocks[i]| == n
    ensures Chunks(Concat(blocks), n) == blocks
  {
    var c := Concat(blocks);
    ConcatFixed(blocks, n);
    NumBlocksExact(|blocks|, n);
    forall i | 0 <= i < |blocks|
      ensures Chunks(c, n)[i] == blocks[i]
    {
      ChunkAtFull(c, n, i);
    }
  }

  /** A chunk that ends inside bs is a full n-byte slice. */
  lemma ChunkAtFull(bs: seq<byte>, n: nat, i: nat)
    requires n > 0 && i < NumBlocks(|bs|, n) && i * n + n <= |bs|
    ensures ChunkAt(bs, n, i) == bs[i * n..i * n + n]
  {
  }

  /** Blocks of n bytes each, joined: block i sits at [i*n, i*n+n). */
  lemma {:induction false} ConcatFixed(blocks: seq<seq<byte>>, n: nat)
    requires forall i :: 0 <= i < |blocks| ==> |blocks[i]| == n
    ensures |Concat(blocks)| == |blocks| * n
    ensures forall i :: 0 <= i < |blocks| ==> i * n + n <= |blocks| * n && Concat(blocks)[i * n..i * n + n] == blocks[i]
  {
    var m := |blocks|;
    if m > 0 {
      var init := blocks[..m - 1];
      ConcatFixed(init, n);
      var c0 := Concat(init);
      var c := Concat(blocks);
      assert c == c0 + blocks[m - 1];
      MulSucc(m - 1, n);
      forall i | 0 <= i < m
        ensures i * n + n <= m * n && c[i * n..i * n + n] == blocks[i]
      {
        if i < m - 1 {
          assert c0[i * n..i * n + n] == init[i];
          SliceOfPrefix(c0, blocks[m - 1], i * n, i * n + n);
        } else {
          assert i * n == |c0|;
        }
      }
    }
  }

  // ------------------------------------------------------------ pkcs7_unpad

  /** `bytes([x]) * k` */
  function Fill(x: byte, k: int): (r: seq<byte>)
    ensures |r| == Max(k, 0) && forall i :: 0 <= i < |r| ==> r[i] == x
  {
    if k <= 0 then [] else seq(k, _ => x)
  }

  /** `b[-k:]` for k >= 1: the last k bytes, or all of b when it is shorter. */
  function LastBytes(b: seq<byte>, k: nat): (r: seq<byte>)
    requires k >= 1
    ensures |r| == Min(k, |b|) && r <= b[|b| - |r|..]
  {
    if k <= |b| then b[|b| - k..] else b
  }

  /** pkcs7_unpad: strip the padding when the last byte k is in 1..16 and
      the last k bytes are bytes([k]) * k; return b unchanged otherwise. */
  function Pkcs7Unpad(b: seq<byte>): (r: seq<byte>)
    ensures r <= b
  {
    if b == [] then b
    else
      var k := b[|b| - 1];
      if k < 1 || k > 16 || LastBytes(b, k) != Fill(k, k) then b
      else b[..|b| - k]
  }

  /** Well-formed PKCS#7 padding (section 6.3 of RFC 5652, blocks of at most
      16 bytes): a last byte k in 1..16 and k bytes, all equal to k. */
  predicate ValidPadding(b: seq<byte>)
  {
    |b| > 0 && 1 <= b[|b| - 1] <= 16 && b[|b| - 1] <= |b| &&
    forall i :: |b| - b[|b| - 1] <= i < |b| ==> b[i] == b[|b| - 1]
  }

  /** pkcs7_unpad removes exactly the padding when it is well formed and
      nothing otherwise (so the empty input comes back empty). */
  lemma Pkcs7UnpadSpec(b: seq<byte>)
    ensures ValidPadding(b) ==> Pkcs7Unpad(b) == b[..|b| - b[|b| - 1]]
    ensures !ValidPadding(b) ==> Pkcs7Unpad(b) == b
  {
    if |b| > 0 {
      var k := b[|b| - 1];
      if 1 <= k <= 16 && k <= |b| {
        if ValidPadding(b) {
          assert LastBytes(b, k) == Fill(k, k);
        } else {
          var i :| |b| - k <= i < |b| && b[i] != k;
          assert LastBytes(b, k)[i - (|b| - k)] != Fill(k, k)[i - (|b| - k)];
        }
      }
    }
  }

  /** Unpadding a padded message gives the message back. */
  lemma Pkcs7UnpadPadded(p: seq<byte>, k: byte)
    requires 1 <= k <= 16
    ensures Pkcs7Unpad(p + Fill(k, k)) == p
  {
    var b := p + Fill(k, k);
    assert b[|b| - 1] == k;
    assert ValidPadding(b);
    Pkcs7UnpadSpec(b);
    assert b[..|b| - k] == p;
  }

  // -------------------------------------------------- decimal text of ints

  predicate IsDigit(c: char) { '0' <= c <= '9' }

  function DigitChar(d: nat): (c: char)
    requires d < 10
    ensures IsDigit(c)
  {
    ('0' as int + d) as char
  }

  function DigitValue(c: char): (d: nat)
    requires IsDigit(c)
    ensures d < 10
  {
    c as int - '0' as int
  }

  predicate AllDigits(s: seq<char>)
  {
    forall i :: 0 <= i < |s| ==> IsDigit(s[i])
  }

  /** str(n) for n >= 0: decimal digits, with no leading zero except in "0". */
  function NatStr(n: nat): (s: seq<char>)
    ensures |s| > 0 && AllDigits(s) && (s[0] == '0' ==> n == 0)
  {
    if n < 10 then [DigitChar(n)] else NatStr(n / 10) + [DigitChar(n % 10)]
  }

  /** str(i): a minus sign in front of the digits of -i when i is negative. */
  function Str(i: int): (r: seq<char>)
  {
    if i < 0 then "-" + NatStr(-i) else NatStr(i)
  }

  /** int(s) for a string of decimal digits. */
  function ParseNat(s: seq<char>): (r: nat)
    requires AllDigits(s)
    ensures r < Pow(10, |s|)
  {
    if s == [] then 0
    else
      var p := ParseNat(s[..|s| - 1]);
      assert p * 10 + 10 <= Pow(10, |s|) by {
        MulNonneg(Pow(10, |s| - 1) - 1 - p, 10);
        assert (Pow(10, |s| - 1) - 1 - p) * 10 == Pow(10, |s|) - 10 - p * 10;
      }
      p * 10 + DigitValue(s[|s| - 1])
  }

  /** int(str(n)) == n */
  lemma {:induction false} ParseNatStr(n: nat)
    ensures ParseNat(NatStr(n)) == n
  {
    if n >= 10 {
      ParseNatStr(n / 10);
      var s := NatStr(n);
      assert s[..|s| - 1] == NatStr(n / 10);
    }
  }

  /** int(str(i)) == i: the digits of str(i) read back to |i|, behind a
      minus sign exactly when i is negative. */
  lemma StrRoundTrip(i: int)
    ensures i >= 0 ==> AllDigits(Str(i)) && ParseNat(Str(i)) == i
    ensures i < 0 ==>
      |Str(i)| >= 2 && Str(i)[0] == '-' && AllDigits(Str(i)[1..]) && ParseNat(Str(i)[1..]) == -i
  {
    if i < 0 {
      ParseNatStr(-i);
      assert Str(i)[1..] == NatStr(-i);
    } else {
      ParseNatStr(i);
    }
  }

  /** A digit string that does not start with '0' has a positive value. */
  lemma {:induction false} ParseNatPositive(s: seq<char>)
    requires |s| > 0 && AllDigits(s) && s[0] != '0'
    ensures ParseNat(s) >= 1
  {
    if |s| > 1 {
      ParseNatPositive(s[..|s| - 1]);
    }
  }

  /** str(int(s)) == s for a digit string without a leading zero. */
  lemma {:induction false} NatStrParse(s: seq<char>)
    requires |s| > 0 && AllDigits(s) && s[0] != '0'
    ensures NatStr(ParseNat(s)) == s
  {
    if |s| > 1 {
      var p := s[..|s| - 1];
      var d := DigitValue(s[|s| - 1]);
      NatStrParse(p);
      ParseNatPositive(p);
      var v := ParseNat(s);
      DivUnique(v, 10, ParseNat(p), d);
      assert v >= 10;
      assert NatStr(v) == NatStr(ParseNat(p)) + [DigitChar(d)];
      assert DigitChar(d) == s[|s| - 1];
      assert s == p + [s[|s| - 1]];
    }
  }

  /** int(a + b) == int(a) * 10^len(b) + int(b). */
  lemma {:induction false} ParseNatAppend(a: seq<char>, b: seq<char>)
    requires AllDigits(a) && AllDigits(b)
    ensures ParseNat(a + b) == ParseNat(a) * Pow(10, |b|) + ParseNat(b)
  {
    if b != [] {
      var b' := b[..|b| - 1];
      var d := DigitValue(b[|b| - 1]);
      ParseNatAppend(a, b');
      assert (a + b)[..|a + b| - 1] == a + b';
      assert ParseNat(a + b) == ParseNat(a + b') * 10 + d;
      assert ParseNat(b) == ParseNat(b') * 10 + d;
      assert Pow(10, |b|) == 10 * Pow(10, |b'|);
      ShiftDigit(ParseNat(a), Pow(10, |b'|), ParseNat(b'), d);
    } else {
      assert a + b == a;
    }
  }

  /** (x * p + y) * 10 + d == x * (10 * p) + (y * 10 + d) */
  lemma ShiftDigit(x: int, p: int, y: int, d: int)
    ensures (x * p + y) * 10 + d == x * (10 * p) + (y * 10 + d)
  {
  }


  /** n has fewer than len(str(n)) + 1 digits' worth of value. */
  lemma {:induction false} NatStrBound(n: nat)
    ensures n < Pow(10, |NatStr(n)|)
  {
    if n >= 10 {
      NatStrBound(n / 10);
    }
  }

  /** A larger number never has a shorter decimal text. */
  lemma {:induction false} NatStrLengthMonotone(n: nat, m: nat)
    requires n <= m
    ensures |NatStr(n)| <= |NatStr(m)|
  {
    if n >= 10 {
      NatStrLengthMonotone(n / 10, m / 10);
    }
  }

  // ---------------------------------------------------- the index trick

  /** j(i) = int("3" + str(i)). */
  function JFor(i: nat): (r: nat)
    ensures r == 3 * Pow(10, |NatStr(i)|) + i
  {
    ParseNatAppend("3", NatStr(i));
    ParseNatStr(i);
    assert ParseNat("3") == 3;
    ParseNat("3" + NatStr(i))
  }

  /** The keystream block name the zero message uses at block j(i) is the
      one the flag used at block i: "-12" + "3..." == "-123" + "...". */
  lemma KeyNameTrick(i: nat)
    ensures Str(T1) + Str(JFor(i)) == Str(T0) + Str(i)
  {
    var digits := NatStr(i);
    NatStrParse("3" + digits);
    assert Str(JFor(i)) == "3" + digits;
    TimestampTexts();
    assert "-12" + ("3" + digits) == "-123" + digits;
  }

  lemma TimestampTexts()
    ensures Str(T1) == "-12" && Str(T0) == "-123"
  {
    assert NatStr(12) == NatStr(1) + ['2'];
    assert NatStr(123) == NatStr(12) + ['3'];
  }

  /** j is strictly increasing. */
  lemma JForIncreasing(i: nat, i': nat)
    requires i < i'
    ensures JFor(i) < JFor(i')
  {
    var l, l' := |NatStr(i)|, |NatStr(i')|;
    NatStrLengthMonotone(i, i');
    if l < l' {
      NatStrBound(i);
      PowMonotone(10, l + 1, l');
      assert Pow(10, l + 1) == 10 * Pow(10, l);
    }
  }

  /** `[int("3" + str(i)) for i in range(nb)]` */
  function JForList(nb: nat): (r: seq<int>)
    ensures |r| == nb && forall i :: 0 <= i < nb ==> r[i] == JFor(i)
  {
    seq(nb, i requires 0 <= i < nb => JFor(i))
  }

  /** max(xs): the largest element, or ValueError on an empty sequence. */
  function SeqMax(xs: seq<int>): (r: Result<int>)
    ensures r.Ok? <==> |xs| > 0
    ensures r.Ok? ==> r.value in xs && forall i :: 0 <= i < |xs| ==> xs[i] <= r.value
  {
    if xs == [] then Err(ValueError)
    else
      var init := SeqMax(xs[..|xs| - 1]);
      if init.Err? then Ok(xs[0])
      else Ok(Max(init.value, xs[|xs| - 1]))
  }

  /** maxj is j(nb - 1), the last entry, for nb >= 1. */
  lemma MaxJIsLast(nb: nat)
    requires nb > 0
    ensures SeqMax(JForList(nb)) == Ok(JFor(nb - 1))
  {
    var xs := JForList(nb);
    var m := SeqMax(xs).value;
    var k :| 0 <= k < nb && xs[k] == m;
    if k < nb - 1 {
      JForIncreasing(k, nb - 1);
    }
  }

  // --------------------------------------------------------- recovery

  /** `bytes(a ^ b for a, b in zip(x, y))`: zip stops at the shorter input. */
  function XorZip(x: seq<byte>, y: seq<byte>): (r: seq<byte>)
    ensures |r| == Min(|x|, |y|)
    ensures forall i :: 0 <= i < |r| ==> r[i] == Xor(x[i], y[i])
  {
    seq(Min(|x|, |y|), i requires 0 <= i < Min(|x|, |y|) => Xor(x[i], y[i]))
  }

  /** XOR with the same key block twice gives the block back. */
  lemma XorZipInvolution(x: seq<byte>, y: seq<byte>)
    requires |x| <= |y|
    ensures XorZip(XorZip(x, y), y) == x
  {
    forall i | 0 <= i < |x|
      ensures XorZip(XorZip(x, y), y)[i] == x[i]
    {
      XorInvolution(x[i], y[i]);
    }
  }

  /** XOR of a zero block with a key block of the same length is the key block. */
  lemma XorZipZeros(y: seq<byte>)
    ensures XorZip(Zeros(|y|), y) == y
  {
    forall i | 0 <= i < |y|
      ensures XorZip(Zeros(|y|), y)[i] == y[i]
    {
      BitXorCommutes(0, y[i]);
      BitXorZero(y[i]);
    }
  }

  /** The zero message get_keystream_blocks sends for a largest index maxj. */
  function ZeroRequest(maxj: nat): (z: seq<byte>)
    ensures |z| == BlockSize * (maxj + 1) && |Chunks(z, BlockSize)| == maxj + 1
  {
    DivUnique(BlockSize * (maxj + 1) + BlockSize - 1, BlockSize, maxj + 1, BlockSize - 1);
    Zeros(BlockSize * (maxj + 1))
  }

  /** Lines 41-56 of solve, given the encrypted flag and the service's reply
      to the zero message: ValueError from max() on an empty flag,
      IndexError when some j(i) is past the reply's last block, and
      otherwise the unpadded join of the per-block XORs. */
  function Recover(cflag: seq<byte>, reply: seq<byte>): (r: Result<seq<byte>>)
    ensures cflag == [] <==> r == Err(ValueError)
    ensures r.Err? ==> r.error == ValueError || r.error == IndexError
  {
    var nb := NumBlocks(|cflag|, BlockSize);
    assert nb == 0 <==> cflag == [];
    var maxj := SeqMax(JForList(nb));
    if maxj.Err? then Err(maxj.error)
    else
      var blocksAtT1 := Chunks(reply, BlockSize);
      var cblocks := Chunks(cflag, BlockSize);
      if exists i :: 0 <= i < |cblocks| && JFor(i) >= |blocksAtT1| then Err(IndexError)
      else Ok(Pkcs7Unpad(Concat(PlainBlocks(cblocks, blocksAtT1))))
  }

  /** `pblocks`: block i of the flag XOR block j(i) of the reply. */
  function PlainBlocks(cblocks: seq<seq<byte>>, blocksAtT1: seq<seq<byte>>): (r: seq<seq<byte>>)
    requires forall i :: 0 <= i < |cblocks| ==> JFor(i) < |blocksAtT1|
    ensures |r| == |cblocks|
  {
    seq(|cblocks|, i requires 0 <= i < |cblocks| => XorZip(cblocks[i], blocksAtT1[JFor(i)]))
  }

  /** An empty flag fails at max(); for a non-empty one, a reply as long as
      the zero request leaves every index j(i) in range. */
  lemma RecoverErrors(cflag: seq<byte>, reply: seq<byte>)
    ensures cflag == [] ==> Recover(cflag, reply) == Err(ValueError)
    ensures cflag != [] && |reply| == BlockSize * (JFor(NumBlocks(|cflag|, BlockSize) - 1) + 1) ==>
      Recover(cflag, reply).Ok?
  {
    var nb := NumBlocks(|cflag|, BlockSize);
    ChunksShape(cflag, BlockSize);
    if cflag != [] {
      var maxj := JFor(nb - 1);
      MaxJIsLast(nb);
      if |reply| == BlockSize * (maxj + 1) {
        assert |Chunks(reply, BlockSize)| == maxj + 1 by {
          DivUnique(|reply| + BlockSize - 1, BlockSize, maxj + 1, BlockSize - 1);
        }
        forall i | 0 <= i < nb
          ensures JFor(i) < maxj + 1
        {
          if i < nb - 1 {
            JForIncreasing(i, nb - 1);
          }
        }
      }
    }
  }

  /** The service's ciphertext blocks: block i of data XOR the keystream
      block named by str(t) + str(i). The keystream as a function of that
      name is a parameter; the solver relies only on the name deciding the
      block. */
  function ServiceBlocks(ks: seq<char> -> seq<byte>, t: int, data: seq<byte>): (r: seq<seq<byte>>)
    ensures |r| == NumBlocks(|data|, BlockSize)
  {
    var blocks := Chunks(data, BlockSize);
    seq(|blocks|, i requires 0 <= i < |blocks| => XorZip(blocks[i], ks(Str(t) + Str(i))))
  }

  /** The service's ciphertext, the blocks joined. */
  function ServiceEncrypt(ks: seq<char> -> seq<byte>, t: int, data: seq<byte>): seq<byte>
  {
    Concat(ServiceBlocks(ks, t, data))
  }

  /** Data of nb full blocks chunks into nb blocks of 16 bytes. */
  lemma FullBlocks(data: seq<byte>, nb: nat)
    requires |data| == BlockSize * nb
    ensures |Chunks(data, BlockSize)| == nb
    ensures forall i :: 0 <= i < nb ==> |Chunks(data, BlockSize)[i]| == BlockSize
  {
    NumBlocksExact(nb, BlockSize);
    ChunksShape(data, BlockSize);
    if nb > 0 {
      ChunkStartInRange(|data|, BlockSize, nb - 1);
    }
  }

  /** The solver's chunks(enc, 16) of a ciphertext of nb full blocks are the
      service's blocks. */
  lemma ServiceChunks(ks: seq<char> -> seq<byte>, t: int, data: seq<byte>, nb: nat)
    requires forall s :: |ks(s)| == BlockSize
    requires |data| == BlockSize * nb
    ensures Chunks(ServiceEncrypt(ks, t, data), BlockSize) == ServiceBlocks(ks, t, data)
    ensures |ServiceEncrypt(ks, t, data)| == BlockSize * nb
  {
    FullBlocks(data, nb);
    var cb := ServiceBlocks(ks, t, data);
    assert forall i :: 0 <= i < |cb| ==> |cb[i]| == BlockSize;
    ChunksOfConcat(cb, BlockSize);
    ConcatFixed(cb, BlockSize);
  }

  /** Encrypting zeros reveals the keystream: block j of the reply is the
      keystream block named by str(T1) + str(j). */
  lemma ZeroBlocks(ks: seq<char> -> seq<byte>, maxj: nat, j: nat)
    requires forall s :: |ks(s)| == BlockSize
    requires j <= maxj
    ensures ServiceBlocks(ks, T1, ZeroRequest(maxj))[j] == ks(Str(T1) + Str(j))
  {
    var z := ZeroRequest(maxj);
    FullBlocks(z, maxj + 1);
    ChunkAtFull(z, BlockSize, j);
    assert Chunks(z, BlockSize)[j] == Zeros(BlockSize);
    XorZipZeros(ks(Str(T1) + Str(j)));
  }

  /** Block i of the flag comes back: the reply block j(i) is the keystream
      block the flag's block i used. */
  lemma BlockRecovered(ks: seq<char> -> seq<byte>, padded: seq<byte>, nb: nat, i: nat)
    requires forall s :: |ks(s)| == BlockSize
    requires |padded| == BlockSize * nb && i < nb
    ensures XorZip(ServiceBlocks(ks, T0, padded)[i], ks(Str(T1) + Str(JFor(i))))
         == Chunks(padded, BlockSize)[i]
  {
    FullBlocks(padded, nb);
    KeyNameTrick(i);
    XorZipInvolution(Chunks(padded, BlockSize)[i], ks(Str(T0) + Str(i)));
  }

  /** No j(i) of the flag's blocks exceeds the last one. */
  lemma JForBelowLast(nb: nat)
    requires nb > 0
    ensures forall i :: 0 <= i < nb ==> JFor(i) <= JFor(nb - 1)
  {
    forall i | 0 <= i < nb - 1
      ensures JFor(i) <= JFor(nb - 1)
    {
      JForIncreasing(i, nb - 1);
    }
  }

  /** The reply to the zero request has a block for every j(i) the flag's
      blocks name. */
  lemma ReplyCoversFlag(ks: seq<char> -> seq<byte>, padded: seq<byte>, nb: nat)
    requires forall s :: |ks(s)| == BlockSize
    requires nb > 0 && |padded| == BlockSize * nb
    ensures |Chunks(ServiceEncrypt(ks, T0, padded), BlockSize)| == nb
    ensures |Chunks(ServiceEncrypt(ks, T1, ZeroRequest(JFor(nb - 1))), BlockSize)| == JFor(nb - 1) + 1
    ensures forall i :: 0 <= i < nb ==> JFor(i) < JFor(nb - 1) + 1
  {
    ServiceChunks(ks, T0, padded, nb);
    ServiceChunks(ks, T1, ZeroRequest(JFor(nb - 1)), JFor(nb - 1) + 1);
    JForBelowLast(nb);
  }

  /** Every per-block XOR of the solver gives back the flag's own block. */
  lemma PlainBlocksRecovered(ks: seq<char> -> seq<byte>, padded: seq<byte>, nb: nat)
    requires forall s :: |ks(s)| == BlockSize
    requires nb > 0 && |padded| == BlockSize * nb
    ensures var cblocks := Chunks(ServiceEncrypt(ks, T0, padded), BlockSize);
      var blocksAtT1 := Chunks(ServiceEncrypt(ks, T1, ZeroRequest(JFor(nb - 1))), BlockSize);
      (forall i :: 0 <= i < |cblocks| ==> JFor(i) < |blocksAtT1|) &&
      PlainBlocks(cblocks, blocksAtT1) == Chunks(padded, BlockSize)
  {
    ReplyCoversFlag(ks, padded, nb);
    FullBlocks(padded, nb);
    var cblocks := Chunks(ServiceEncrypt(ks, T0, padded), BlockSize);
    var blocksAtT1 := Chunks(ServiceEncrypt(ks, T1, ZeroRequest(JFor(nb - 1))), BlockSize);
    var pblocks := PlainBlocks(cblocks, blocksAtT1);
    forall i | 0 <= i < nb
      ensures pblocks[i] == Chunks(padded, BlockSize)[i]
    {
      PlainBlockAt(ks, padded, nb, i);
    }
  }

  /** Block i of the solver's XORs is block i of the padded flag. */
  lemma PlainBlockAt(ks: seq<char> -> seq<byte>, padded: seq<byte>, nb: nat, i: nat)
    requires forall s :: |ks(s)| == BlockSize
    requires nb > 0 && |padded| == BlockSize * nb && i < nb
    ensures var cblocks := Chunks(ServiceEncrypt(ks, T0, padded), BlockSize);
      var blocksAtT1 := Chunks(ServiceEncrypt(ks, T1, ZeroRequest(JFor(nb - 1))), BlockSize);
      i < |cblocks| && JFor(i) < |blocksAtT1| &&
      XorZip(cblocks[i], blocksAtT1[JFor(i)]) == Chunks(padded, BlockSize)[i]
  {
    var maxj := JFor(nb - 1);
    ReplyCoversFlag(ks, padded, nb);
    ServiceChunks(ks, T0, padded, nb);
    ServiceChunks(ks, T1, ZeroRequest(maxj), maxj + 1);
    ZeroBlocks(ks, maxj, JFor(i));
    BlockRecovered(ks, padded, nb, i);
  }

  /** The attack recovers the flag: for a padded flag of nb full blocks
      encrypted at T0, and the service's encryption at T1 of the zero request
      for maxj = j(nb - 1), the solver prints the unpadded flag. */
  lemma KeystreamReuse(ks: seq<char> -> seq<byte>, padded: seq<byte>, nb: nat)
    requires forall s :: |ks(s)| == BlockSize
    requires nb > 0 && |padded| == BlockSize * nb
    ensures Recover(ServiceEncrypt(ks, T0, padded),
                    ServiceEncrypt(ks, T1, ZeroRequest(JFor(nb - 1))))
         == Ok(Pkcs7Unpad(padded))
  {
    var cflag := ServiceEncrypt(ks, T0, padded);
    var reply := ServiceEncrypt(ks, T1, ZeroRequest(JFor(nb - 1)));
    ServiceChunks(ks, T0, padded, nb);
    NumBlocksExact(nb, BlockSize);
    MaxJIsLast(nb);
    ReplyCoversFlag(ks, padded, nb);
    PlainBlocksRecovered(ks, padded, nb);
    ChunksConcat(padded, BlockSize);
  }
}
