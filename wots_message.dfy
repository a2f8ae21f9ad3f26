/** Building a forged message of the nitwit solver: a fixed prefix followed
    by bytes chosen greedily so that the sum of all nibbles hits a target. */
module MessageBuilder {
  import opened Common

  /** `(x >> 4) + (x & 0xF)`: the two hex digits of one byte, added. */
  function NibbleSum(x: byte): (r: int)
    ensures 0 <= r <= 30
  {
    x / 16 + x % 16
  }

  /** hex_digit_sum(b): the nibble sum of a byte string. */
  function HexDigitSum(b: seq<byte>): (r: int)
    ensures 0 <= r <= 30 * |b|
  {
    if b == [] then 0 else NibbleSum(b[0]) + HexDigitSum(b[1..])
  }

  lemma {:induction false} HexDigitSumAppend(a: seq<byte>, b: seq<byte>)
    ensures HexDigitSum(a + b) == HexDigitSum(a) + HexDigitSum(b)
  {
    if a != [] {
      assert (a + b)[1..] == a[1..] + b;
      HexDigitSumAppend(a[1..], b);
    } else {
      assert a + b == b;
    }
  }

  lemma {:induction false} HexDigitSumZeros(k: int)
    ensures HexDigitSum(Zeros(k)) == 0
    decreases Max(k, 0)
  {
    if k > 0 {
      assert Zeros(k)[1..] == Zeros(k - 1);
      HexDigitSumZeros(k - 1);
    }
  }

  /** `(hi << 4) | lo` for two nibbles. */
  function PackNibbles(hi: int, lo: int): (x: byte)
    requires 0 <= hi <= 15 && 0 <= lo <= 15
    ensures x / 16 == hi && x % 16 == lo
  {
    hi * 16 + lo
  }

  /** How one free byte takes `add` (at most 30) of the remaining sum: the
      high nibble gets half, the low nibble the rest, with the (never
      taken) correction when the low nibble would exceed 15. */
  function NibbleSplit(add: int): (r: (int, int))
    requires 0 < add <= 30
    ensures 0 <= r.0 <= 15 && 0 <= r.1 <= 15 && r.0 + r.1 == add
  {
    var hi := Min(15, add / 2);
    var lo := add - hi;
    if lo > 15 then (Min(15, add - 15), 15) else (hi, lo)
  }

  /** The byte the loop of construct_msg_with_sum writes into free position
      j when `need0` was to be placed: each byte takes 30 until less is left,
      and positions after that stay zero. */
  function GreedyByte(need0: int, j: nat): byte
  {
    var left := need0 - 30 * j;
    if left <= 0 then 0
    else
      var split := NibbleSplit(Min(left, 30));
      PackNibbles(split.0, split.1)
  }

  /** The free part of the message: byte j is GreedyByte(need0, j). */
  function GreedyFill(need0: int, free: nat): (r: seq<byte>)
    ensures |r| == free && forall j :: 0 <= j < free ==> r[j] == GreedyByte(need0, j)
    decreases free
  {
    if free == 0 then []
    else
      var rest := GreedyFill(need0 - 30, free - 1);
      assert forall j :: 0 < j < free ==> need0 - 30 * j == (need0 - 30) - 30 * (j - 1);
      [GreedyByte(need0, 0)] + rest
  }

  lemma GreedyByteSum(need0: int, j: nat)
    ensures NibbleSum(GreedyByte(need0, j)) == Max(0, Min(need0 - 30 * j, 30))
  {
  }

  /** The free bytes carry as much of need0 as fits, 30 per byte. */
  lemma {:induction false} GreedyFillSum(need0: int, free: nat)
    ensures HexDigitSum(GreedyFill(need0, free)) == Max(0, Min(need0, 30 * free))
    decreases free
  {
    if free > 0 {
      var r := GreedyFill(need0, free);
      GreedyFillSum(need0 - 30, free - 1);
      assert r[1..] == GreedyFill(need0 - 30, free - 1);
      GreedyByteSum(need0, 0);
    }
  }

  /** What construct_msg_with_sum(target_sum, prefix, total_len) returns or
      raises: the zero padding adds nothing to the nibble sum, so what is
      still needed after the prefix must fit into 30 per free byte. */
  function ConstructSpec(targetSum: int, prefix: seq<byte>, totalLen: int): (r: Result<seq<byte>>)
    ensures r.Err? ==> r.error == CannotHitTarget
    ensures r.Ok? ==> |r.value| == Max(totalLen, |prefix|)
  {
    var free := Max(totalLen - |prefix|, 0);
    var need0 := targetSum - HexDigitSum(prefix);
    if 0 <= need0 <= 30 * free then Ok(prefix + GreedyFill(need0, free))
    else Err(CannotHitTarget)
  }

  /** A message the builder returns has the padded length, starts with the
      prefix and has exactly the target nibble sum. */
  lemma ConstructSpecCorrect(targetSum: int, prefix: seq<byte>, totalLen: int)
    ensures ConstructSpec(targetSum, prefix, totalLen).Ok? <==>
      HexDigitSum(prefix) <= targetSum <= HexDigitSum(prefix) + 30 * Max(totalLen - |prefix|, 0)
    ensures ConstructSpec(targetSum, prefix, totalLen).Ok? ==>
      var msg := ConstructSpec(targetSum, prefix, totalLen).value;
      |msg| == Max(totalLen, |prefix|) && msg[..|prefix|] == prefix && HexDigitSum(msg) == targetSum
  {
    var free := Max(totalLen - |prefix|, 0);
    var need0 := targetSum - HexDigitSum(prefix);
    GreedyFillSum(need0, free);
    HexDigitSumAppend(prefix, GreedyFill(need0, free));
    assert (prefix + GreedyFill(need0, free))[..|prefix|] == prefix;
  }

  /** The target can be missed in both directions: below the prefix's own
      nibble sum, or above what the free bytes can hold. */
  lemma ConstructRejects(targetSum: int, prefix: seq<byte>, totalLen: int)
    requires targetSum < HexDigitSum(prefix) ||
             targetSum > HexDigitSum(prefix) + 30 * Max(totalLen - |prefix|, 0)
    ensures ConstructSpec(targetSum, prefix, totalLen) == Err(CannotHitTarget)
  {
  }

  /** What is left of `need` after j free bytes have been written: it only
      shrinks while it is positive, by at most 30 per byte. */
  function NeedAfter(need0: int, j: nat): int
  {
    if need0 <= 0 then need0 else Max(need0 - 30 * j, 0)
  }

  /** One pass of the loop with need > 0 writes GreedyByte and takes away its
      nibble sum. */
  lemma NeedStep(need0: int, j: nat, need: int)
    requires need == NeedAfter(need0, j) && need > 0
    ensures need0 - 30 * j == need
    ensures var split := NibbleSplit(Min(need, 30));
      GreedyByte(need0, j) == PackNibbles(split.0, split.1) &&
      need - (split.0 + split.1) == NeedAfter(need0, j + 1)
  {
  }

  /** Where the loop of construct_msg_with_sum stops, what is left of `need`
      decides between the error and a message. */
  lemma LeftoverDecides(targetSum: int, prefix: seq<byte>, totalLen: int, need0: int, need: int, i: int)
    requires need0 == targetSum - HexDigitSum(prefix)
    requires |prefix| <= i <= Max(totalLen, |prefix|)
    requires i >= totalLen || need <= 0
    requires need == NeedAfter(need0, i - |prefix|)
    ensures need != 0 <==> ConstructSpec(targetSum, prefix, totalLen).Err?
  {
  }

  /** The greedy bytes grow one position at a time. */
  lemma GreedyFillSnoc(need0: int, j: nat)
    ensures GreedyFill(need0, j + 1) == GreedyFill(need0, j) + [GreedyByte(need0, j)]
  {
    assert GreedyFill(need0, j + 1)[..j] == GreedyFill(need0, j);
  }

  /** Once need0 is placed, the remaining free bytes are zero. */
  lemma GreedyFillDone(need0: int, j: nat, free: nat)
    requires j <= free && need0 <= 30 * j
    ensures GreedyFill(need0, j) + Zeros(free - j) == GreedyFill(need0, free)
  {
    var g := GreedyFill(need0, free);
    forall k | j <= k < free
      ensures g[k] == 0
    {
      assert need0 - 30 * k <= 0;
    }
    assert GreedyFill(need0, j) + Zeros(free - j) == g;
  }

  /** When nothing is left over, the buffer (prefix, greedy bytes so far,
      zeros) is the specified message. */
  lemma BufferIsSpec(targetSum: int, prefix: seq<byte>, totalLen: int, need0: int, i: int, m: seq<byte>)
    requires need0 == targetSum - HexDigitSum(prefix)
    requires |prefix| <= i <= |m| == |prefix| + Max(totalLen - |prefix|, 0)
    requires 0 <= need0 <= 30 * (i - |prefix|)
    requires m == prefix + GreedyFill(need0, i - |prefix|) + Zeros(|m| - i)
    ensures ConstructSpec(targetSum, prefix, totalLen) == Ok(m)
  {
    GreedyFillDone(need0, i - |prefix|, |m| - |prefix|);
    assert m == prefix + (GreedyFill(need0, i - |prefix|) + Zeros(|m| - i));
  }

  /** The zero-padded buffer before the loop: no greedy byte yet, and the
      nibble sum of the prefix alone. */
  lemma BufferStart(prefix: seq<byte>, totalLen: int, need0: int)
    ensures var m := prefix + Zeros(totalLen - |prefix|);
      |m| == |prefix| + Max(totalLen - |prefix|, 0) &&
      m == prefix + GreedyFill(need0, 0) + Zeros(|m| - |prefix|) &&
      HexDigitSum(m) == HexDigitSum(prefix)
  {
    HexDigitSumAppend(prefix, Zeros(totalLen - |prefix|));
    HexDigitSumZeros(totalLen - |prefix|);
    assert GreedyFill(need0, 0) == [];
    assert Zeros(totalLen - |prefix|) == Zeros(Max(totalLen - |prefix|, 0));
  }

  /** Writing the next greedy byte over the first zero extends the filled part by one. */
  lemma BufferStep(prefix: seq<byte>, need0: int, i: int, m: seq<byte>)
    requires |prefix| <= i < |m|
    requires m == prefix + GreedyFill(need0, i - |prefix|) + Zeros(|m| - i)
    ensures m[i := GreedyByte(need0, i - |prefix|)]
         == prefix + GreedyFill(need0, i + 1 - |prefix|) + Zeros(|m| - i - 1)
  {
    var j := i - |prefix|;
    GreedyFillSnoc(need0, j);
    var lhs := m[i := GreedyByte(need0, j)];
    var rhs := prefix + GreedyFill(need0, j + 1) + Zeros(|m| - i - 1);
    assert |lhs| == |rhs|;
    forall k | 0 <= k < |lhs|
      ensures lhs[k] == rhs[k]
    {
      if k < |prefix| {
      } else if k < i {
        assert lhs[k] == GreedyFill(need0, j)[k - |prefix|];
      } else if k == i {
      } else {
        assert lhs[k] == Zeros(|m| - i)[k - i];
        assert rhs[k] == Zeros(|m| - i - 1)[k - i - 1];
      }
    }
  }

  /** construct_msg_with_sum: the bytearray m is the prefix padded with zero
      bytes; each free byte takes min(need, 30) until need reaches 0. */
  method ConstructMsgWithSum(targetSum: int, prefix: seq<byte>, totalLen: int) returns (r: Result<seq<byte>>)
    ensures r == ConstructSpec(targetSum, prefix, totalLen)
  {
    var m := prefix + Zeros(totalLen - |prefix|);
    ghost var need0 := targetSum - HexDigitSum(prefix);
    BufferStart(prefix, totalLen, need0);
    var need := targetSum - HexDigitSum(m);
    ghost var free := Max(totalLen - |prefix|, 0);
    var i := |prefix|;
    while i < totalLen
      invariant |prefix| <= i <= |m| == |prefix| + free
      invariant m == prefix + GreedyFill(need0, i - |prefix|) + Zeros(|m| - i)
      invariant need == NeedAfter(need0, i - |prefix|)
    {
      if need <= 0 {
        break;
      }
      var add := Min(need, 30);
      var hi := Min(15, add / 2);
      var lo := add - hi;
      if lo > 15 {
        lo := 15;
        hi := Min(15, add - lo);
      }
      NeedStep(need0, i - |prefix|, need);
      assert (hi, lo) == NibbleSplit(add);
      BufferStep(prefix, need0, i, m);
      m := m[i := PackNibbles(hi, lo)];
      need := need - (hi + lo);
      i := i + 1;
    }
    LeftoverDecides(targetSum, prefix, totalLen, need0, need, i);
    if need != 0 {
      return Err(CannotHitTarget);
    }
    BufferIsSpec(targetSum, prefix, totalLen, need0, i, m);
    return Ok(m);
  }
}
