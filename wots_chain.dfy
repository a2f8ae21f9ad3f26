/** Hash chains of the nitwit solver. The digest function (SHA-256 in the
    script) is a parameter: only how chains compose matters here. */
module Chains {
  import opened Common
  import opened WotsCodec

  /** x with the digest function applied `steps` times. When every digest
      is HS bytes long, so is every chain element past the start. */
  function Chain(h: seq<byte> -> seq<byte>, x: seq<byte>, steps: nat): (r: seq<byte>)
    ensures steps > 0 && (forall y :: |h(y)| == HS) ==> |r| == HS
    decreases steps
  {
    if steps == 0 then x else Chain(h, h(x), steps - 1)
  }

  /** hash_chain(x, steps): `for _ in range(steps): x = H(x)`. A negative
      step count gives an empty range, so x comes back unchanged. */
  method HashChain(h: seq<byte> -> seq<byte>, x: seq<byte>, steps: int) returns (r: seq<byte>)
    ensures r == Chain(h, x, Max(steps, 0))
  {
    r := x;
    var k := 0;
    while k < steps
      invariant 0 <= k <= Max(steps, 0)
      invariant Chain(h, r, Max(steps, 0) - k) == Chain(h, x, Max(steps, 0))
    {
      r := h(r);
      k := k + 1;
    }
  }

  lemma ChainZero(h: seq<byte> -> seq<byte>, x: seq<byte>)
    ensures Chain(h, x, 0) == x
  {
  }

  /** Advancing a chain element by b more steps is the same as walking a + b
      steps from the start: chains compose. */
  lemma {:induction false} ChainCompose(h: seq<byte> -> seq<byte>, x: seq<byte>, a: nat, b: nat)
    ensures Chain(h, Chain(h, x, a), b) == Chain(h, x, a + b)
    decreases a
  {
    if a > 0 {
      ChainCompose(h, h(x), a - 1, b);
    }
  }
}
