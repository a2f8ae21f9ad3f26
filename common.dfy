/** Types shared by the three solver models: bytes and a result type for
    the places where the scripts raise. */
module Common {

  /** One byte of a Python `bytes`/`bytearray` value, which Python indexes
      as an int in [0, 255]. */
  type byte = x: int | 0 <= x < 256

  /** The exceptions the modelled code raises, one constructor per distinct
      raise site or implicit Python error. */
  datatype Error =
    | IndexError                 // list or bytes index out of range
    | CannotHitTarget            // construct_msg_with_sum: nibble sum unreachable
    | NoDominatingCandidate      // main: no candidate checksum dominated s1
    | ClosedBeforeOpen           // scanner: stream ended before '['
    | ClosedWhileReading         // scanner: stream ended inside the literal
    | BadElementLength           // parse_sig_text: an element is not HS bytes
    | BadSignatureLength         // parse_sig_text: not exactly n elements
    | OverflowError              // int.to_bytes: value does not fit
    | ValueError                 // max() of an empty sequence

  datatype Result<T> = Ok(value: T) | Err(error: Error)

  function Min(a: int, b: int): int { if a <= b then a else b }
  function Max(a: int, b: int): int { if a <= b then b else a }

  /** `b"\x00" * k` (empty when k <= 0, as in Python). */
  function Zeros(k: int): (z: seq<byte>)
    ensures |z| == Max(k, 0)
    ensures forall i :: 0 <= i < |z| ==> z[i] == 0
  {
    if k <= 0 then [] else seq(k, _ => 0)
  }

  /** Big-endian value of a byte string: Python's `int.from_bytes(b, "big")`. */
  function FromBytesBE(b: seq<byte>): (r: nat)
    ensures r < Pow(256, |b|)
  {
    if b == [] then 0
    else
      var p := FromBytesBE(b[..|b| - 1]);
      assert p * 256 + 256 <= Pow(256, |b|) by {
        MulNonneg(Pow(256, |b| - 1) - 1 - p, 256);
        assert (Pow(256, |b| - 1) - 1 - p) * 256 == Pow(256, |b|) - 256 - p * 256;
      }
      p * 256 + b[|b| - 1]
  }

  /** Python's `^` on non-negative ints, bit by bit from the lowest. */
  function BitXor(a: nat, b: nat): nat
    decreases a + b
  {
    if a == 0 && b == 0 then 0
    else 2 * BitXor(a / 2, b / 2) + (a % 2 + b % 2) % 2
  }

  lemma {:induction false} BitXorZero(a: nat)
    ensures BitXor(a, 0) == a
    decreases a
  {
    if a != 0 {
      BitXorZero(a / 2);
    }
  }

  /** One step of BitXor: the low bit and the rest. */
  lemma BitXorStep(a: nat, b: nat)
    requires a != 0 || b != 0
    ensures BitXor(a, b) / 2 == BitXor(a / 2, b / 2)
    ensures BitXor(a, b) % 2 == (a % 2 + b % 2) % 2
  {
    DivUnique(BitXor(a, b), 2, BitXor(a / 2, b / 2), (a % 2 + b % 2) % 2);
  }

  /** Adding the same bit twice, modulo 2, changes nothing. */
  lemma ParityTwice(a: int, b: int, c: int, d: int)
    requires c % 2 == (a % 2 + b % 2) % 2 && d % 2 == (c % 2 + b % 2) % 2
    ensures d % 2 == a % 2
  {
  }

  /** XOR with the same key twice gives back the original. */
  lemma {:induction false} BitXorInvolution(a: nat, b: nat)
    ensures BitXor(BitXor(a, b), b) == a
    decreases a + b
  {
    var c := BitXor(a, b);
    if b == 0 {
      BitXorZero(a);
    } else {
      BitXorStep(a, b);
      BitXorStep(c, b);
      BitXorInvolution(a / 2, b / 2);
      var d := BitXor(c, b);
      assert d / 2 == a / 2;
      ParityTwice(a, b, c, d);
      DivUnique(a, 2, d / 2, d % 2);
    }
  }

  lemma {:induction false} BitXorCommutes(a: nat, b: nat)
    ensures BitXor(a, b) == BitXor(b, a)
    decreases a + b
  {
    if !(a == 0 && b == 0) {
      BitXorCommutes(a / 2, b / 2);
    }
  }

  /** Both operands below 2^k keep the result below 2^k. */
  lemma {:induction false} BitXorBound(a: nat, b: nat, k: nat)
    requires a < Pow2(k) && b < Pow2(k)
    ensures BitXor(a, b) < Pow2(k)
    decreases k
  {
    if k > 0 && !(a == 0 && b == 0) {
      BitXorBound(a / 2, b / 2, k - 1);
    }
  }

  function Pow2(k: nat): nat
  {
    if k == 0 then 1 else 2 * Pow2(k - 1)
  }

  /** Any number XORed with itself is zero. */
  lemma {:induction false} BitXorSelf(a: nat)
    ensures BitXor(a, a) == 0
    decreases a
  {
    if a != 0 {
      BitXorSelf(a / 2);
    }
  }

  /** `a ^ b` on two bytes: zero is neutral, equal bytes cancel, and the
      same key undoes it. */
  function Xor(a: byte, b: byte): (r: byte)
    ensures b == 0 ==> r == a
    ensures a == b ==> r == 0
    ensures BitXor(r, b) == a
  {
    BitXorZero(a);
    BitXorSelf(a);
    BitXorInvolution(a, b);
    assert Pow2(8) == 256 by {
      assert Pow2(4) == 16 by { assert Pow2(2) == 4; }
    }
    BitXorBound(a, b, 8);
    BitXor(a, b)
  }

  lemma XorInvolution(a: byte, b: byte)
    ensures Xor(Xor(a, b), b) == a
  {
    BitXorInvolution(a, b);
  }

  /** b ** e */
  function Pow(b: int, e: nat): (r: int)
    requires b >= 1
    ensures r >= 1
  {
    if e == 0 then 1 else MulNonneg(b - 1, Pow(b, e - 1)); b * Pow(b, e - 1)
  }

  lemma {:induction false} PowMonotone(b: int, e1: nat, e2: nat)
    requires b >= 1 && e1 <= e2
    ensures Pow(b, e1) <= Pow(b, e2)
  {
    if e1 < e2 {
      PowMonotone(b, e1, e2 - 1);
      MulNonneg(b - 1, Pow(b, e2 - 1));
    }
  }

  lemma MulNonneg(a: int, b: int)
    requires a >= 0 && b >= 0
    ensures a * b >= 0
  {
  }

  /** Quotient and remainder are determined by the division equation. */
  lemma DivUnique(m: int, d: int, q: int, r: int)
    requires d > 0 && m == q * d + r && 0 <= r < d
    ensures m / d == q && m % d == r
  {
    var q0, r0 := m / d, m % d;
    var k := q - q0;
    assert k * d == r0 - r by {
      assert q * d - q0 * d == (q - q0) * d;
    }
    if k >= 1 {
      MulNonneg(k - 1, d);
      assert false;
    } else if k <= -1 {
      MulNonneg(-k - 1, d);
      assert false;
    }
  }

  /** (m / x) / b == m / (x * b) for non-negative m. */
  lemma DivDiv(m: int, x: int, b: int)
    requires m >= 0 && x > 0 && b > 0
    ensures (m / x) / b == m / (x * b)
  {
    var q, r := m / x, m % x;
    var q2, r2 := q / b, q % b;
    assert m == q2 * (x * b) + (r2 * x + r) by {
      assert m == q * x + r;
      assert q == q2 * b + r2;
      assert q * x == q2 * (x * b) + r2 * x by {
        assert (q2 * b + r2) * x == q2 * b * x + r2 * x;
      }
    }
    assert r2 * x + r < x * b by {
      MulNonneg(b - 1 - r2, x);
      assert (b - 1 - r2) * x == x * b - x - r2 * x;
    }
    MulNonneg(r2, x);
    MulNonneg(x, b);
    DivUnique(m, x * b, q2, r2 * x + r);
  }

  lemma DivBelow(m: int, b: int, P: int)
    requires b > 0 && P > 0 && 0 <= m < b * P
    ensures m / b < P
  {
    if m / b >= P {
      MulNonneg(m / b - P, b);
      assert false;
    }
  }

  /** `b"".join(chunks)`: the byte strings one after another. The join
      starts with the first piece. */
  function Concat(chunks: seq<seq<byte>>): (r: seq<byte>)
    ensures chunks != [] ==> chunks[0] <= r
  {
    if chunks == [] then []
    else
      var init := chunks[..|chunks| - 1];
      assert init != [] ==> init[0] == chunks[0];
      Concat(init) + chunks[|chunks| - 1]
  }

  lemma {:induction false} ConcatPrefix(chunks: seq<seq<byte>>, k: nat)
    requires k <= |chunks|
    ensures Concat(chunks[..k]) <= Concat(chunks)
  {
    if k < |chunks| {
      var init := chunks[..|chunks| - 1];
      ConcatPrefix(init, k);
      assert init[..k] == chunks[..k];
    } else {
      assert chunks[..k] == chunks;
    }
  }
}
