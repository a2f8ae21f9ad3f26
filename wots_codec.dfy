/** Digit-vector codec of the nitwit solver: `int_to_vec` with the service's
    exact (negative-index) overflow behaviour, and `domfree`, the message
    digits followed by a deliberately short checksum. */
module WotsCodec {
  import opened Common

  /** Challenge parameters. `n1` is `int(log(n0, d+1)) + 1` in the script, a
      floating-point expression whose value for n0 = 64, base 16 is 2. */
  const D := 15
  const Base := D + 1
  const N0 := 64
  const N1 := 2
  const N := N0 + N1
  const HS := 32

  lemma DivShrinks(m: int, b: int)
    requires m > 0 && b >= 2
    ensures 0 <= m / b < m
  {
    var q := m / b;
    if q >= m {
      MulNonneg(q, b - 2);
      assert false;
    }
  }

  lemma DivZeroIff(m: int, p: int)
    requires m >= 0 && p > 0
    ensures m / p == 0 <==> m < p
  {
    if m < p {
      DivUnique(m, p, 0, m);
    }
  }

  /** Digit number t, counted from the least significant end, of m in base b. */
  function Digit(m: int, t: nat, b: int): (r: int)
    requires b >= 2
    ensures 0 <= r < b
  {
    (m / Pow(b, t)) % b
  }

  /** Big-endian value of a digit vector in base b. */
  function FromDigits(s: seq<int>, b: int): int
  {
    if s == [] then 0 else FromDigits(s[..|s| - 1], b) * b + s[|s| - 1]
  }

  /** `[0]*L` */
  function ZeroList(L: nat): (z: seq<int>)
    ensures |z| == L && forall k :: 0 <= k < L ==> z[k] == 0
  {
    seq(L, _ => 0)
  }

  /** List slot p of `int_to_vec(m, L, b)` when 0 < m < b^(2L): digit L-1-p
      of m, overwritten by digit 2L-1-p when m has that many digits. */
  function SlotDigit(m: int, L: nat, b: int, p: nat): (r: int)
    requires b >= 2 && p < L
    ensures 0 <= r < b
  {
    if m >= Pow(b, 2 * L - 1 - p) then Digit(m, 2 * L - 1 - p, b) else Digit(m, L - 1 - p, b)
  }

  /** What `int_to_vec(m, L, b)` returns, or the IndexError it raises.
      Digit t of m goes to list index L-1-t; once that index is negative,
      Python wraps it to 2L-1-t, so the digits L..2L-1 overwrite the tail of
      the list, and digit 2L would need index -L-1, which is out of range. */
  function IntToVecSpec(m: int, L: nat, b: int): (r: Result<seq<int>>)
    requires b >= 2
    ensures r.Ok? ==> |r.value| == L
    ensures r.Ok? ==> forall k :: 0 <= k < L ==> 0 <= r.value[k] < b
    ensures r.Err? <==> m >= Pow(b, 2 * L)
  {
    if m <= 0 then Ok(ZeroList(L))
    else if m >= Pow(b, 2 * L) then Err(IndexError)
    else Ok(seq(L, p requires 0 <= p < L => SlotDigit(m, L, b, p)))
  }

  /** Content of list position p after t iterations of the loop in int_to_vec
      (for m > 0). */
  ghost function Written(m: int, L: nat, b: int, t: nat, p: nat): int
    requires b >= 2 && p < L
  {
    if t > 2 * L - 1 - p then Digit(m, 2 * L - 1 - p, b)
    else if t > L - 1 - p then Digit(m, L - 1 - p, b)
    else 0
  }

  lemma WrittenFinal(m: int, L: nat, b: int, t: nat, p: nat)
    requires b >= 2 && p < L && t <= 2 * L
    requires 0 < m < Pow(b, t) && (t > 0 ==> m >= Pow(b, t - 1))
    ensures Written(m, L, b, t, p) == SlotDigit(m, L, b, p)
  {
    var hi, lo := 2 * L - 1 - p, L - 1 - p;
    if t > hi {
      PowMonotone(b, hi, t - 1);
    } else {
      PowMonotone(b, t, hi);
      if t <= lo {
        PowMonotone(b, t, lo);
        DivZeroIff(m, Pow(b, lo));
      }
    }
  }

  /** The loop's final list is the specified result. */
  lemma WrittenIsSpec(m: int, L: nat, b: int, t: nat, digits: seq<int>)
    requires b >= 2 && t <= 2 * L && |digits| == L
    requires 0 < m < Pow(b, t) && (t > 0 ==> m >= Pow(b, t - 1))
    requires forall p :: 0 <= p < L ==> digits[p] == Written(m, L, b, t, p)
    ensures Ok(digits) == IntToVecSpec(m, L, b)
  {
    PowMonotone(b, t, 2 * L);
    var want := IntToVecSpec(m, L, b).value;
    forall p | 0 <= p < L
      ensures digits[p] == want[p]
    {
      WrittenFinal(m, L, b, t, p);
    }
    assert digits == want;
  }

  /** Iteration t of the loop writes digit t into list slot 2L-1-t or L-1-t
      (Python's index L-1-t, wrapped when negative) and leaves the others. */
  lemma WrittenStep(m: int, L: nat, b: int, t: nat, p: nat)
    requires b >= 2 && p < L && t < 2 * L
    ensures Written(m, L, b, t + 1, p) ==
      if p == (if t < L then L - 1 - t else 2 * L - 1 - t) then Digit(m, t, b)
      else Written(m, L, b, t, p)
  {
  }

  /** int_to_vec(m, L, base): fills `digits` from the right with the base-b
      digits of m, letting the index run negative as Python does. */
  method IntToVec(m: int, L: nat, b: int) returns (r: Result<seq<int>>)
    requires b >= 2
    ensures r == IntToVecSpec(m, L, b)
  {
    var digits := ZeroList(L);
    var i := L - 1;
    var mm := m;
    ghost var t: nat := 0;
    while mm > 0
      invariant i == L - 1 - t && t <= 2 * L
      invariant m <= 0 ==> mm == m && t == 0 && digits == ZeroList(L)
      invariant m > 0 ==> mm == m / Pow(b, t) && (t > 0 ==> m >= Pow(b, t - 1))
      invariant |digits| == L
      invariant m > 0 ==> forall p :: 0 <= p < L ==> digits[p] == Written(m, L, b, t, p)
      decreases mm
    {
      DivZeroIff(m, Pow(b, t));
      var idx := if i >= 0 then i else L + i;
      if idx < 0 {
        PowMonotone(b, 2 * L, t);
        return Err(IndexError);
      }
      digits := digits[idx := mm % b];
      forall p | 0 <= p < L && m > 0
        ensures digits[p] == Written(m, L, b, t + 1, p)
      {
        WrittenStep(m, L, b, t, p);
      }
      DivDiv(m, Pow(b, t), b);
      DivShrinks(mm, b);
      assert mm / b == m / Pow(b, t + 1) by {
        assert Pow(b, t + 1) == Pow(b, t) * b;
      }
      mm := mm / b;
      i := i - 1;
      t := t + 1;
    }
    if m > 0 {
      DivZeroIff(m, Pow(b, t));
      WrittenIsSpec(m, L, b, t, digits);
    }
    return Ok(digits);
  }

  /** Plain big-endian base-b digits of m, L of them, high digits dropped. */
  function PlainDigits(m: int, L: nat, b: int): (r: seq<int>)
    requires b >= 2
    ensures |r| == L
    decreases L
  {
    if L == 0 then [] else PlainDigits(m / b, L - 1, b) + [m % b]
  }

  lemma {:induction false} PlainDigitsAt(m: int, L: nat, b: int, p: nat)
    requires b >= 2 && m >= 0 && p < L
    ensures PlainDigits(m, L, b)[p] == Digit(m, L - 1 - p, b)
    decreases L
  {
    if p < L - 1 {
      PlainDigitsAt(m / b, L - 1, b, p);
      DivDiv(m, b, Pow(b, L - 2 - p));
    }
  }

  lemma {:induction false} PlainDigitsRoundTrip(m: int, L: nat, b: int)
    requires b >= 2 && 0 <= m < Pow(b, L)
    ensures FromDigits(PlainDigits(m, L, b), b) == m
    decreases L
  {
    if L > 0 {
      DivBelow(m, b, Pow(b, L - 1));
      PlainDigitsRoundTrip(m / b, L - 1, b);
      var s := PlainDigits(m, L, b);
      assert s[..|s| - 1] == PlainDigits(m / b, L - 1, b);
    }
  }

  /** Without overflow (0 <= m < b^L), int_to_vec gives exactly L digits in
      [0, b-1] whose big-endian value is m. */
  lemma IntToVecRoundTrip(m: int, L: nat, b: int)
    requires b >= 2 && 0 <= m < Pow(b, L)
    ensures IntToVecSpec(m, L, b).Ok?
    ensures IntToVecSpec(m, L, b).value == PlainDigits(m, L, b)
    ensures FromDigits(IntToVecSpec(m, L, b).value, b) == m
  {
    PowMonotone(b, L, 2 * L);
    var r := IntToVecSpec(m, L, b).value;
    forall p | 0 <= p < L
      ensures r[p] == PlainDigits(m, L, b)[p]
    {
      PlainDigitsAt(m, L, b, p);
      SlotIsPlain(m, L, b, p);
    }
    assert r == PlainDigits(m, L, b);
    PlainDigitsRoundTrip(m, L, b);
  }

  /** Without overflow, slot p holds digit L-1-p and nothing overwrites it. */
  lemma SlotIsPlain(m: int, L: nat, b: int, p: nat)
    requires b >= 2 && 0 <= m < Pow(b, L) && p < L
    ensures IntToVecSpec(m, L, b).Ok? && IntToVecSpec(m, L, b).value[p] == Digit(m, L - 1 - p, b)
  {
    PowMonotone(b, L, 2 * L);
    if m > 0 {
      SlotNotOverwritten(m, L, b, p);
    } else {
      DigitOfZero(L - 1 - p, b);
    }
  }

  lemma SlotNotOverwritten(m: int, L: nat, b: int, p: nat)
    requires b >= 2 && 0 <= m < Pow(b, L) && p < L
    ensures SlotDigit(m, L, b, p) == Digit(m, L - 1 - p, b)
  {
    PowMonotone(b, L, 2 * L - 1 - p);
  }

  lemma DigitOfZero(t: nat, b: int)
    requires b >= 2
    ensures Digit(0, t, b) == 0
  {
    DivZeroIff(0, Pow(b, t));
  }

  lemma Pow16Facts()
    ensures Pow(16, 1) == 16 && Pow(16, 2) == 256 && Pow(16, 3) == 4096 && Pow(16, 4) == 65536
  {
    assert Pow(16, 1) == 16 * Pow(16, 0);
    assert Pow(16, 2) == 16 * Pow(16, 1);
    assert Pow(16, 3) == 16 * Pow(16, 2);
    assert Pow(16, 4) == 16 * Pow(16, 3);
  }

  /** The checksum 960 of the all-zero message overflows two digits: the
      third digit (3) overwrites the last slot, giving [12, 3]. */
  lemma IntToVecOverflowExample()
    ensures IntToVecSpec(960, 2, 16) == Ok([12, 3])
  {
    Pow16Facts();
    var r := IntToVecSpec(960, 2, 16).value;
    assert r[0] == Digit(960, 1, 16) == 12;
    assert r[1] == Digit(960, 2, 16) == 3;
    assert r == [12, 3];
  }

  /** The overflowing vector is not the truncation 960 mod 16^2 = 192. */
  lemma IntToVecOverflowIsNotTruncation()
    ensures FromDigits(IntToVecSpec(960, 2, 16).value, 16) == 195 != 960 % Pow(16, 2)
  {
    IntToVecOverflowExample();
    assert FromDigits([12, 3], 16) == FromDigits([12], 16) * 16 + 3;
  }

  /** Python's `sum` over a list of ints: non-negative entries give a
      non-negative sum, and all-zero entries give zero. */
  function SumList(s: seq<int>): (r: int)
    ensures (forall k :: 0 <= k < |s| ==> s[k] >= 0) ==> r >= 0
    ensures (forall k :: 0 <= k < |s| ==> s[k] == 0) ==> r == 0
  {
    if s == [] then 0 else SumList(s[..|s| - 1]) + s[|s| - 1]
  }

  lemma {:induction false} SumListBounds(s: seq<int>, hi: int)
    requires forall k :: 0 <= k < |s| ==> 0 <= s[k] <= hi
    ensures 0 <= SumList(s) <= hi * |s|
  {
    if s != [] {
      var init := s[..|s| - 1];
      assert forall k :: 0 <= k < |init| ==> init[k] == s[k];
      SumListBounds(init, hi);
      assert SumList(s) == SumList(init) + s[|s| - 1];
      assert hi * |s| == hi * |init| + hi;
    }
  }

  /** The checksum input `c = d*n0 - sum(m_vec)` of a message digit vector. */
  function ChecksumInput(mVec: seq<int>): int
  {
    D * N0 - SumList(mVec)
  }

  /** domfree(m_int): message digits followed by the n1-digit checksum. It
      fails only where int_to_vec does, on an integer of 2*n0 or more digits. */
  function Domfree(mInt: int): (r: Result<seq<int>>)
    ensures r.Ok? ==> |r.value| == N && forall k :: 0 <= k < N ==> 0 <= r.value[k] <= D
    ensures r.Err? <==> mInt >= Pow(Base, 2 * N0)
  {
    var mv := IntToVecSpec(mInt, N0, Base);
    if mv.Err? then Err(mv.error)
    else
      SumListBounds(mv.value, D);
      Pow16Facts();
      var cv := IntToVecSpec(ChecksumInput(mv.value), N1, Base);
      Ok(mv.value + cv.value)
  }

  /** For every 32-byte message value, domfree yields 66 digits: the first n0
      are the plain digits of the message (recomposing to it) and the checksum
      input lies in [0, 960]. */
  lemma DomfreeShape(mInt: int)
    requires 0 <= mInt < Pow(Base, N0)
    ensures Domfree(mInt).Ok?
    ensures Domfree(mInt).value[..N0] == IntToVecSpec(mInt, N0, Base).value
    ensures FromDigits(Domfree(mInt).value[..N0], Base) == mInt
    ensures 0 <= ChecksumInput(Domfree(mInt).value[..N0]) <= D * N0
    ensures IntToVecSpec(ChecksumInput(Domfree(mInt).value[..N0]), N1, Base) == Ok(Domfree(mInt).value[N0..])
  {
    IntToVecRoundTrip(mInt, N0, Base);
    PowMonotone(Base, N0, 2 * N0);
    Pow16Facts();
    SumListBounds(IntToVecSpec(mInt, N0, Base).value, D);
  }

  /** The step vector of the all-zero message: 64 zeros, then [12, 3]. */
  lemma DomfreeZero()
    ensures Domfree(0) == Ok(ZeroList(N0) + [12, 3])
  {
    var z := ZeroList(N0);
    assert IntToVecSpec(0, N0, Base) == Ok(z);
    assert SumList(z) == 0 by {
      SumListBounds(z, 0);
    }
    IntToVecOverflowExample();
  }
}
