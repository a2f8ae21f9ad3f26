/** The attack of the nitwit solver: pick an "admin" message whose step
    vector dominates the one already signed, then push every signature
    chain forward. */
module Forge {
  import opened Common
  import opened WotsCodec
  import opened Chains
  import opened MessageBuilder

  /** The checksum values the solver tries, in order. */
  const Candidates: seq<int> := [205, 206, 207, 211, 212, 213, 214, 215, 216, 217]

  /** `b"admin"` */
  const Admin: seq<byte> := [97, 100, 109, 105, 110]

  /** Length of the signed messages. */
  const MsgLen := 32

  /** The nibble sum that makes the message's checksum input equal tc. */
  function TargetSum(tc: int): (r: int)
    ensures forall v :: SumList(v) == r ==> ChecksumInput(v) == tc
  {
    D * N0 - tc
  }

  /** `all(a <= b for a, b in zip(s1, s2))`: zip stops at the shorter list. */
  predicate Dominates(s1: seq<int>, s2: seq<int>)
  {
    forall k :: 0 <= k < Min(|s1|, |s2|) ==> s1[k] <= s2[k]
  }

  /** s2 dominates s1 exactly when every chain the forgery advances moves
      forward by s2[k] - s1[k] steps, none of them clamped to zero. */
  lemma DominatesSteps(s1: seq<int>, s2: seq<int>)
    ensures Dominates(s1, s2) <==>
      forall k :: 0 <= k < Min(|s1|, |s2|) ==> Max(s2[k] - s1[k], 0) == s2[k] - s1[k]
  {
  }

  /** The choice the search settles on: m2, its step vector s2 and target_c. */
  datatype Choice = Choice(m2: seq<byte>, s2: seq<int>, tc: int)

  // ---------------------------------------------------------------------
  // Step vectors of byte messages
  // ---------------------------------------------------------------------

  /** The hex digits of a byte string, most significant first. */
  function Nibbles(m: seq<byte>): (r: seq<int>)
    ensures |r| == 2 * |m|
    ensures forall k :: 0 <= k < |r| ==> 0 <= r[k] < 16
  {
    if m == [] then [] else Nibbles(m[..|m| - 1]) + [m[|m| - 1] / 16, m[|m| - 1] % 16]
  }

  /** Reading a byte string's hex digits in base 16 gives its big-endian value. */
  lemma {:induction false} NibblesValue(m: seq<byte>)
    ensures FromDigits(Nibbles(m), Base) == FromBytesBE(m)
  {
    if m != [] {
      var init := m[..|m| - 1];
      var x := m[|m| - 1];
      NibblesValue(init);
      var s := Nibbles(m);
      assert s[..|s| - 1] == Nibbles(init) + [x / 16];
      assert (Nibbles(init) + [x / 16])[..|s| - 2] == Nibbles(init);
    }
  }

  lemma {:induction false} FromBytesBEBound(m: seq<byte>)
    ensures FromBytesBE(m) < Pow(Base, 2 * |m|)
  {
    if m != [] {
      var init := m[..|m| - 1];
      FromBytesBEBound(init);
      var p := Pow(Base, 2 * |init|);
      assert Pow(Base, 2 * |m|) == 256 * p;
      assert FromBytesBE(m) == FromBytesBE(init) * 256 + m[|m| - 1];
      assert FromBytesBE(init) <= p - 1;
      assert FromBytesBE(init) * 256 <= (p - 1) * 256;
    }
  }

  /** A vector of base-b digits is the plain digit vector of its own value:
      big-endian digits are unique. */
  lemma {:induction false} DigitsUnique(s: seq<int>, b: int)
    requires b >= 2
    requires forall k :: 0 <= k < |s| ==> 0 <= s[k] < b
    ensures PlainDigits(FromDigits(s, b), |s|, b) == s
  {
    if s != [] {
      var init := s[..|s| - 1];
      DigitsUnique(init, b);
      DivUnique(FromDigits(s, b), b, FromDigits(init, b), s[|s| - 1]);
      assert s == init + [s[|s| - 1]];
    }
  }

  /** The message digit sum of domfree is the nibble sum of the bytes. */
  lemma {:induction false} NibblesSum(m: seq<byte>)
    ensures SumList(Nibbles(m)) == HexDigitSum(m)
  {
    if m != [] {
      var init := m[..|m| - 1];
      var x := m[|m| - 1];
      NibblesSum(init);
      var s := Nibbles(m);
      assert s[..|s| - 1] == Nibbles(init) + [x / 16];
      assert (Nibbles(init) + [x / 16])[..|s| - 2] == Nibbles(init);
      HexDigitSumAppend(init, [x]);
      assert init + [x] == m;
    }
  }

  /** A checksum below 256 fits the two digits without overflow. */
  lemma ChecksumDigits(c: int)
    requires 0 <= c < 256
    ensures IntToVecSpec(c, N1, Base) == Ok([c / 16, c % 16])
  {
    Pow16Facts();
    IntToVecRoundTrip(c, N1, Base);
    assert c / 16 < 16;
    assert PlainDigits(c / 16, 1, Base) == PlainDigits(c / 16 / 16, 0, Base) + [c / 16 % 16];
    assert PlainDigits(c, N1, Base) == PlainDigits(c / 16, 1, Base) + [c % 16];
    assert c / 16 % 16 == c / 16;
    assert PlainDigits(c, N1, Base) == [c / 16, c % 16];
    assert IntToVecSpec(c, N1, Base) == Ok(PlainDigits(c, N1, Base));
  }

  /** The 64 message digits of a 32-byte message are its hex digits. */
  lemma MessageDigits(m: seq<byte>)
    requires |m| == MsgLen
    ensures FromBytesBE(m) < Pow(Base, N0)
    ensures IntToVecSpec(FromBytesBE(m), N0, Base) == Ok(Nibbles(m))
  {
    var mInt := FromBytesBE(m);
    FromBytesBEBound(m);
    IntToVecRoundTrip(mInt, N0, Base);
    NibblesValue(m);
    DigitsUnique(Nibbles(m), Base);
  }

  /** The step vector of any 32-byte message: its 64 hex digits, then the
      two-digit checksum of 960 minus its nibble sum. */
  lemma DomfreeOfMessage(m: seq<byte>)
    requires |m| == MsgLen
    ensures Domfree(FromBytesBE(m)).Ok?
    ensures Domfree(FromBytesBE(m)).value[..N0] == Nibbles(m)
    ensures IntToVecSpec(D * N0 - HexDigitSum(m), N1, Base) == Ok(Domfree(FromBytesBE(m)).value[N0..])
  {
    var mInt := FromBytesBE(m);
    MessageDigits(m);
    DomfreeShape(mInt);
    NibblesSum(m);
  }

  /** When the checksum of a 32-byte message is below 256 it is written out
      plainly after the hex digits. */
  lemma DomfreeSmallChecksum(m: seq<byte>)
    requires |m| == MsgLen
    requires 0 <= D * N0 - HexDigitSum(m) < 256
    ensures Domfree(FromBytesBE(m)) ==
      Ok(Nibbles(m) + [(D * N0 - HexDigitSum(m)) / 16, (D * N0 - HexDigitSum(m)) % 16])
  {
    DomfreeOfMessage(m);
    var c := D * N0 - HexDigitSum(m);
    ChecksumDigits(c);
    var v := Domfree(FromBytesBE(m)).value;
    assert v[N0..] == [c / 16, c % 16];
    assert v == v[..N0] + v[N0..];
  }

  // ---------------------------------------------------------------------
  // The search for a dominating admin message
  // ---------------------------------------------------------------------

  /** `construct_msg_with_sum(960 - tc, b"admin", 32)` */
  function Built(tc: int): Result<seq<byte>>
  {
    ConstructSpec(TargetSum(tc), Admin, MsgLen)
  }

  /** `domfree(int.from_bytes(m, "big"))` */
  function StepVector(m: seq<byte>): Result<seq<int>>
  {
    Domfree(FromBytesBE(m))
  }

  /** Candidate tc is taken: the message can be built and its step vector
      dominates s1. */
  predicate Acceptable(s1: seq<int>, tc: int)
  {
    var built := Built(tc);
    built.Ok? && StepVector(built.value).Ok? &&
    Dominates(s1, StepVector(built.value).value)
  }

  /** The loop over the candidates cs: a candidate whose message cannot be
      built is skipped (the RuntimeError is caught), an error of domfree
      escapes, the first dominating one is chosen. */
  function SearchIn(s1: seq<int>, cs: seq<int>): (r: Result<Choice>)
    ensures r.Ok? ==> r.value.tc in cs && Dominates(s1, r.value.s2)
    ensures r.Err? ==> r.error == NoDominatingCandidate
  {
    if cs == [] then Err(NoDominatingCandidate)
    else
      BuiltMessageEncodes(cs[0]);
      match Built(cs[0])
      case Err(_) => SearchIn(s1, cs[1..])
      case Ok(m2) =>
        match StepVector(m2)
        case Err(e) => Err(e)
        case Ok(s2) =>
          if Dominates(s1, s2) then Ok(Choice(m2, s2, cs[0])) else SearchIn(s1, cs[1..])
  }

  /** A built admin message never makes domfree fail. */
  lemma BuiltMessageEncodes(tc: int)
    ensures Built(tc).Ok? ==>
      |Built(tc).value| == MsgLen &&
      StepVector(Built(tc).value).Ok?
  {
    ConstructSpecCorrect(TargetSum(tc), Admin, MsgLen);
    if Built(tc).Ok? {
      DomfreeOfMessage(Built(tc).value);
    }
  }

  /** The search returns the first acceptable candidate of cs, with its
      message and step vector: no candidate before it is acceptable. It
      fails exactly when no candidate is acceptable, and then with the
      solver's own error. */
  lemma SearchInCorrect(s1: seq<int>, cs: seq<int>)
    ensures SearchIn(s1, cs).Ok? ==>
      var c := SearchIn(s1, cs).value;
      exists j :: 0 <= j < |cs| && cs[j] == c.tc && Acceptable(s1, c.tc) &&
        Built(c.tc) == Ok(c.m2) && StepVector(c.m2) == Ok(c.s2) &&
        forall i :: 0 <= i < j ==> !Acceptable(s1, cs[i])
    ensures SearchIn(s1, cs).Err? <==> forall j :: 0 <= j < |cs| ==> !Acceptable(s1, cs[j])
    ensures SearchIn(s1, cs).Err? ==> SearchIn(s1, cs).error == NoDominatingCandidate
  {
    SearchInFirst(s1, cs);
    SearchInFails(s1, cs);
    SearchInChoice(s1, cs);
  }

  /** A chosen candidate comes with its own built message and step vector. */
  lemma {:induction false} SearchInChoice(s1: seq<int>, cs: seq<int>)
    ensures SearchIn(s1, cs).Ok? ==>
      var c := SearchIn(s1, cs).value;
      Acceptable(s1, c.tc) && Built(c.tc) == Ok(c.m2) && StepVector(c.m2) == Ok(c.s2)
  {
    if cs != [] {
      SearchInStep(s1, cs);
      if !Acceptable(s1, cs[0]) {
        SearchInChoice(s1, cs[1..]);
      }
    }
  }

  /** A chosen candidate is the first acceptable one of cs. */
  lemma {:induction false} SearchInFirst(s1: seq<int>, cs: seq<int>)
    ensures SearchIn(s1, cs).Ok? ==>
      exists j :: 0 <= j < |cs| && cs[j] == SearchIn(s1, cs).value.tc &&
        forall i :: 0 <= i < j ==> !Acceptable(s1, cs[i])
  {
    if cs != [] {
      SearchInStep(s1, cs);
      if Acceptable(s1, cs[0]) {
        assert cs[0] == SearchIn(s1, cs).value.tc;
      } else if SearchIn(s1, cs).Ok? {
        SearchInFirst(s1, cs[1..]);
        var tc := SearchIn(s1, cs).value.tc;
        var j :| 0 <= j < |cs[1..]| && cs[1..][j] == tc &&
          forall i :: 0 <= i < j ==> !Acceptable(s1, cs[1..][i]);
        assert cs[j + 1] == tc;
        assert forall i :: 0 <= i < j + 1 ==> !Acceptable(s1, cs[i]);
      }
    }
  }

  /** The search fails exactly when no candidate of cs is acceptable. */
  lemma {:induction false} SearchInFails(s1: seq<int>, cs: seq<int>)
    ensures SearchIn(s1, cs).Err? <==> forall j :: 0 <= j < |cs| ==> !Acceptable(s1, cs[j])
  {
    if cs != [] {
      SearchInStep(s1, cs);
      if !Acceptable(s1, cs[0]) {
        SearchInFails(s1, cs[1..]);
        assert forall j :: 1 <= j < |cs| ==> cs[j] == cs[1..][j - 1];
      }
    }
  }

  /** One step of the loop: the first candidate is taken exactly when it is
      acceptable, and otherwise the search goes on with the rest. */
  lemma SearchInStep(s1: seq<int>, cs: seq<int>)
    requires cs != []
    ensures Acceptable(s1, cs[0]) ==>
      SearchIn(s1, cs) == Ok(Choice(Built(cs[0]).value, StepVector(Built(cs[0]).value).value, cs[0]))
    ensures !Acceptable(s1, cs[0]) ==> SearchIn(s1, cs) == SearchIn(s1, cs[1..])
  {
    BuiltMessageEncodes(cs[0]);
  }

  /** Lines 203-214 of the solver: try each target_c in turn. */
  method SearchDominating(s1: seq<int>) returns (r: Result<Choice>)
    ensures r == SearchIn(s1, Candidates)
  {
    var k := 0;
    while k < |Candidates|
      invariant 0 <= k <= |Candidates|
      invariant SearchIn(s1, Candidates[k..]) == SearchIn(s1, Candidates)
    {
      var tc := Candidates[k];
      var built := ConstructMsgWithSum(TargetSum(tc), Admin, MsgLen);
      assert Candidates[k..][1..] == Candidates[k + 1..];
      SearchInStep(s1, Candidates[k..]);
      if built.Ok? {
        var s2 := StepVector(built.value);
        if s2.Err? {
          return Err(s2.error);
        }
        if Dominates(s1, s2.value) {
          return Ok(Choice(built.value, s2.value, tc));
        }
      }
      k := k + 1;
    }
    return Err(NoDominatingCandidate);
  }

  /** The nibble sum of "admin" is 71. */
  lemma AdminSum()
    ensures HexDigitSum(Admin) == 71
  {
    var e: seq<byte> := [];
    assert HexDigitSum([110] + e) == 20;
    assert HexDigitSum([105] + [110]) == 15 + 20;
    assert HexDigitSum([109] + [105, 110]) == 19 + 35;
    assert HexDigitSum([100] + [109, 105, 110]) == 10 + 54;
    assert HexDigitSum([97] + [100, 109, 105, 110]) == 7 + 64;
    assert Admin == [97] + [100, 109, 105, 110];
  }

  /** Against the zero message m1 = `b"\x00" * 32` that the service signs
      first, the first candidate already wins: the admin message with nibble
      sum 960 - 205 has checksum 205 = [12, 13], which dominates the [12, 3]
      of the zero message. */
  lemma ZeroMessagePicksFirst(m1: seq<byte>)
    requires |m1| == MsgLen && forall i :: 0 <= i < |m1| ==> m1[i] == 0
    ensures StepVector(m1) == Ok(ZeroList(N0) + [12, 3])
    ensures SearchIn(StepVector(m1).value, Candidates).Ok?
    ensures var c := SearchIn(StepVector(m1).value, Candidates).value;
      c.tc == 205 && |c.m2| == MsgLen && c.m2[..|Admin|] == Admin && HexDigitSum(c.m2) == TargetSum(205) &&
      |c.s2| == N && c.s2[N0..] == [12, 13]
  {
    AllZeroValue(m1);
    DomfreeZero();
    var s1 := Domfree(0).value;
    FirstCandidateMessage();
    var m2 := Built(205).value;
    ZeroDominated(StepVector(m2).value);
    assert Acceptable(s1, Candidates[0]);
    SearchInStep(s1, Candidates);
  }

  /** The admin message built for target_c = 205 has checksum digits 12
      and 13. */
  lemma FirstCandidateMessage()
    ensures Built(205).Ok?
    ensures var m2 := Built(205).value;
      |m2| == MsgLen && m2[..|Admin|] == Admin && HexDigitSum(m2) == TargetSum(205) &&
      StepVector(m2).Ok? && |StepVector(m2).value| == N && StepVector(m2).value[N0..] == [12, 13] &&
      forall k :: 0 <= k < N ==> 0 <= StepVector(m2).value[k]
  {
    AdminSum();
    ConstructSpecCorrect(TargetSum(205), Admin, MsgLen);
    var m2 := Built(205).value;
    DomfreeSmallChecksum(m2);
    var s2 := StepVector(m2).value;
    assert s2 == Nibbles(m2) + [12, 13];
  }

  /** The zero message's step vector is dominated by every step vector
      whose checksum digits are at least 12 and 3. */
  lemma ZeroDominated(s2: seq<int>)
    requires |s2| == N && forall k :: 0 <= k < N ==> 0 <= s2[k]
    requires s2[N0] >= 12 && s2[N0 + 1] >= 3
    ensures Dominates(ZeroList(N0) + [12, 3], s2)
  {
    var s1 := ZeroList(N0) + [12, 3];
    forall k | 0 <= k < N
      ensures s1[k] <= s2[k]
    {
      if k < N0 {
        assert s1[k] == 0;
      }
    }
  }

  /** An all-zero byte string has value 0. */
  lemma {:induction false} AllZeroValue(m: seq<byte>)
    requires forall i :: 0 <= i < |m| ==> m[i] == 0
    ensures FromBytesBE(m) == 0
  {
    if m != [] {
      AllZeroValue(m[..|m| - 1]);
    }
  }

  // ---------------------------------------------------------------------
  // Pushing the chains forward
  // ---------------------------------------------------------------------

  /** Chain i of a signature on step vector s: sk[i] hashed s[i] times. */
  function Sign(h: seq<byte> -> seq<byte>, sk: seq<seq<byte>>, s: seq<int>): (sig: seq<seq<byte>>)
    requires |sk| == N && |s| == N && forall i :: 0 <= i < N ==> 0 <= s[i]
    ensures |sig| == N && forall i :: 0 <= i < N ==> sig[i] == Chain(h, sk[i], s[i])
  {
    seq(N, i requires 0 <= i < N => Chain(h, sk[i], s[i]))
  }

  /** The verifier's side: finish every chain to the top, d - s[i] more steps. */
  function Complete(h: seq<byte> -> seq<byte>, sig: seq<seq<byte>>, s: seq<int>): (pk: seq<seq<byte>>)
    requires |sig| == N && |s| == N
    ensures |pk| == N && forall i :: 0 <= i < N ==> pk[i] == Chain(h, sig[i], Max(D - s[i], 0))
  {
    seq(N, i requires 0 <= i < N => Chain(h, sig[i], Max(D - s[i], 0)))
  }

  /** `[hash_chain(sig1[i], s2[i]-s1[i]) for i in range(n)]`, which raises
      IndexError when a list is shorter than n. */
  method ForgeSignature(h: seq<byte> -> seq<byte>, sig1: seq<seq<byte>>, s1: seq<int>, s2: seq<int>)
    returns (r: Result<seq<seq<byte>>>)
    ensures r.Err? <==> |sig1| < N || |s1| < N || |s2| < N
    ensures r.Err? ==> r.error == IndexError
    ensures r.Ok? ==> |r.value| == N
    ensures r.Ok? ==> forall i :: 0 <= i < N ==> r.value[i] == Chain(h, sig1[i], Max(s2[i] - s1[i], 0))
  {
    if |sig1| < N || |s1| < N || |s2| < N {
      return Err(IndexError);
    }
    var forged: seq<seq<byte>> := [];
    var i := 0;
    while i < N
      invariant 0 <= i <= N
      invariant |forged| == i
      invariant forall k :: 0 <= k < i ==> forged[k] == Chain(h, sig1[k], Max(s2[k] - s1[k], 0))
    {
      var c := HashChain(h, sig1[i], s2[i] - s1[i]);
      forged := forged + [c];
      i := i + 1;
    }
    return Ok(forged);
  }

  /** The forgery: from a signature on s1 and a dominating s2 within [0, d],
      pushing each chain forward gives exactly the signature on s2, and the
      verifier completes it to the public key. */
  lemma ForgeryIsSignature(h: seq<byte> -> seq<byte>, sk: seq<seq<byte>>, s1: seq<int>, s2: seq<int>,
                           forged: seq<seq<byte>>)
    requires |sk| == N && |s1| == N && |s2| == N
    requires forall i :: 0 <= i < N ==> 0 <= s1[i] && s2[i] <= D
    requires Dominates(s1, s2)
    requires |forged| == N
    requires forall i :: 0 <= i < N ==> forged[i] == Chain(h, Sign(h, sk, s1)[i], Max(s2[i] - s1[i], 0))
    ensures forged == Sign(h, sk, s2)
    ensures Complete(h, forged, s2) == Complete(h, Sign(h, sk, s1), s1)
  {
    forall i | 0 <= i < N
      ensures forged[i] == Chain(h, sk[i], s2[i])
      ensures Chain(h, forged[i], D - s2[i]) == Chain(h, sk[i], D)
    {
      ChainCompose(h, sk[i], s1[i], s2[i] - s1[i]);
      ChainCompose(h, sk[i], s2[i], D - s2[i]);
    }
    forall i | 0 <= i < N
      ensures Chain(h, Sign(h, sk, s1)[i], D - s1[i]) == Chain(h, sk[i], D)
    {
      ChainCompose(h, sk[i], s1[i], D - s1[i]);
    }
  }
}
