/** The reader of the nitwit solver that cuts the printed signature list out
    of the service's output: it starts at the first '[' and counts brackets,
    skipping those inside quoted strings, until the depth is back to 0. The
    socket is replaced by the sequence of chunks it delivers. */
module ListScanner {
  import opened Common

  const Open: byte := 91
  const Close: byte := 93
  const Backslash: byte := 92
  const SingleQuote: byte := 39
  const DoubleQuote: byte := 34

  /** The scanner's variables besides the position: `depth`, `in_str`,
      `quote` and `escape`. */
  datatype ScanState = ScanState(depth: int, inStr: bool, quote: byte, escape: bool)

  const Start := ScanState(0, false, 0, false)

  /** One pass of the scan loop over byte ch, apart from the stop test.
      Inside a string the depth never moves, the byte after a backslash never
      ends the string, and only the opening quote character ends it. */
  function Step(st: ScanState, ch: byte): (r: ScanState)
    ensures st.inStr ==> r.depth == st.depth && r.quote == st.quote
    ensures st.inStr && st.escape ==> r.inStr && !r.escape
    ensures st.inStr && !r.inStr ==> !st.escape && ch == st.quote
    ensures !st.inStr && r.inStr ==> (ch == SingleQuote || ch == DoubleQuote) && r.quote == ch && r.depth == st.depth
    ensures !st.inStr && !r.inStr ==>
      r.depth == st.depth + (if ch == Open then 1 else if ch == Close then -1 else 0)
  {
    if st.inStr then
      if st.escape then st.(escape := false)
      else if ch == Backslash then st.(escape := true)
      else if ch == st.quote then st.(inStr := false)
      else st
    else if ch == SingleQuote || ch == DoubleQuote then st.(inStr := true, quote := ch)
    else if ch == Open then st.(depth := st.depth + 1)
    else if ch == Close then st.(depth := st.depth - 1)
    else st
  }

  /** The stop test: a ']' outside any string that brings the depth to 0. */
  predicate Closes(st: ScanState, ch: byte)
  {
    !st.inStr && ch == Close && st.depth - 1 == 0
  }

  /** The stop test holds exactly on a ']' read outside a string whose step
      leaves the scanner outside strings at depth 0. */
  lemma ClosesBalances(st: ScanState, ch: byte)
    ensures Closes(st, ch) <==> !st.inStr && ch == Close && !Step(st, ch).inStr && Step(st, ch).depth == 0
  {
  }

  /** The state after scanning all of s from st. */
  function Run(st: ScanState, s: seq<byte>): ScanState
    decreases |s|
  {
    if s == [] then st else Run(Step(st, s[0]), s[1..])
  }

  lemma {:induction false} RunSnoc(st: ScanState, s: seq<byte>, ch: byte)
    ensures Run(st, s + [ch]) == Step(Run(st, s), ch)
    decreases |s|
  {
    if s != [] {
      assert (s + [ch])[1..] == s[1..] + [ch];
      RunSnoc(Step(st, s[0]), s[1..], ch);
    }
  }

  /** `bytes.find(x)`: the first index of x, or -1. */
  function Find(s: seq<byte>, x: byte): (r: int)
    ensures -1 <= r < |s|
    ensures r == -1 <==> x !in s
    ensures r >= 0 ==> s[r] == x && x !in s[..r]
  {
    if s == [] then -1
    else if s[0] == x then 0
    else
      var k := Find(s[1..], x);
      assert s == [s[0]] + s[1..];
      if k == -1 then -1
      else
        assert s[..k + 1] == [s[0]] + s[1..][..k];
        k + 1
  }

  /** The first occurrence is the only index holding x with no x before it. */
  lemma {:induction false} FindUnique(s: seq<byte>, x: byte, r: nat)
    requires r < |s| && s[r] == x && x !in s[..r]
    ensures Find(s, x) == r
  {
    if r > 0 {
      assert s[0] in s[..r];
      assert s[1..][..r - 1] == s[1..r];
      assert forall y :: y in s[1..r] ==> y in s[..r];
      FindUnique(s[1..], x, r - 1);
    }
  }

  /** Bytes received later do not move the first occurrence. */
  lemma FindExtends(a: seq<byte>, b: seq<byte>, x: byte)
    requires Find(a, x) >= 0
    ensures Find(a + b, x) == Find(a, x)
  {
    var r := Find(a, x);
    assert (a + b)[..r] == a[..r];
    FindUnique(a + b, x, r);
  }

  /** Brackets inside a quoted region do not count: bytes read while the
      scanner stays inside a string leave the depth where it was, whatever
      '[' and ']' they contain. */
  lemma {:induction false} InStringKeepsDepth(st: ScanState, s: seq<byte>)
    requires forall k :: 0 <= k < |s| ==> Run(st, s[..k]).inStr
    ensures Run(st, s).depth == st.depth
    decreases |s|
  {
    if s != [] {
      assert s[..0] == [];
      var st' := Step(st, s[0]);
      forall k | 0 <= k < |s[1..]|
        ensures Run(st', s[1..][..k]).inStr
      {
        assert s[..k + 1][1..] == s[1..][..k];
        assert Run(st, s[..k + 1]) == Run(st', s[1..][..k]);
      }
      InStringKeepsDepth(st', s[1..]);
    }
  }

  /** The scan loop from position j in state st: the end (exclusive) of the
      list literal, or the error raised when the bytes run out first. */
  function ScanFrom(buf: seq<byte>, j: nat, st: ScanState): (r: Result<nat>)
    ensures r.Ok? ==> j < r.value <= |buf| && buf[r.value - 1] == Close
    ensures r.Err? ==> r.error == ClosedWhileReading
    decreases |buf| - j
  {
    if j >= |buf| then Err(ClosedWhileReading)
    else if Closes(st, buf[j]) then Ok(j + 1)
    else ScanFrom(buf, j + 1, Step(st, buf[j]))
  }

  /** read_list_literal_stream on everything the socket delivers after the
      marker: the span from the first '[' to the closing ']'. */
  function ScanSpec(buf: seq<byte>): (r: Result<seq<byte>>)
    ensures r.Err? ==> r.error == ClosedBeforeOpen || r.error == ClosedWhileReading
    ensures r.Ok? ==> |r.value| >= 2 && r.value[0] == Open && r.value[|r.value| - 1] == Close
  {
    var i := Find(buf, Open);
    if i < 0 then Err(ClosedBeforeOpen)
    else
      assert !Closes(Start, Open);
      match ScanFrom(buf, i, Start)
      case Err(e) => Err(e)
      case Ok(e) => Ok(buf[i..e])
  }

  /** The scan ends at the FIRST byte where the stop test holds on the state
      reached so far, and fails exactly when there is no such byte. */
  lemma {:induction false} ScanFromFirstClose(buf: seq<byte>, j: nat, st: ScanState)
    requires j <= |buf|
    ensures ScanFrom(buf, j, st).Ok? ==>
      var e := ScanFrom(buf, j, st).value;
      Closes(Run(st, buf[j..e - 1]), buf[e - 1]) &&
      forall k :: j <= k < e - 1 ==> !Closes(Run(st, buf[j..k]), buf[k])
    ensures ScanFrom(buf, j, st).Err? ==>
      ScanFrom(buf, j, st).error == ClosedWhileReading &&
      forall k :: j <= k < |buf| ==> !Closes(Run(st, buf[j..k]), buf[k])
    decreases |buf| - j
  {
    if j < |buf| && !Closes(st, buf[j]) {
      var st' := Step(st, buf[j]);
      ScanFromFirstClose(buf, j + 1, st');
      forall k | j < k <= |buf|
        ensures Run(st, buf[j..k]) == Run(st', buf[j + 1..k])
      {
        assert buf[j..k][1..] == buf[j + 1..k];
      }
    }
  }

  /** Appending bytes after a completed list does not change the result. */
  lemma {:induction false} ScanFromExtends(buf: seq<byte>, more: seq<byte>, j: nat, st: ScanState)
    requires ScanFrom(buf, j, st).Ok?
    ensures ScanFrom(buf + more, j, st) == ScanFrom(buf, j, st)
    decreases |buf| - j
  {
    assert (buf + more)[j] == buf[j];
    if !Closes(st, buf[j]) {
      ScanFromExtends(buf, more, j + 1, Step(st, buf[j]));
    }
  }

  /** Without a '[' the reader fails before the list, and with one but
      without a closing byte it fails while reading. */
  lemma ScanSpecErrors(buf: seq<byte>)
    ensures ScanSpec(buf) == Err(ClosedBeforeOpen) <==> Open !in buf
    ensures ScanSpec(buf).Err? && Open in buf ==>
      ScanSpec(buf) == Err(ClosedWhileReading)
  {
    var i := Find(buf, Open);
    if i >= 0 {
      ScanFromFirstClose(buf, i, Start);
    }
  }

  /** The captured span: it starts at the first '[' of the input, is a
      contiguous slice of it, and holds at least the '[' and one more byte. */
  lemma ScanSpecSpan(buf: seq<byte>)
    ensures ScanSpec(buf).Ok? ==>
      var out := ScanSpec(buf).value;
      var i := Find(buf, Open);
      0 <= i && i + |out| <= |buf| && out == buf[i..i + |out|] && Open !in buf[..i] &&
      |out| >= 2 && out[0] == Open
  {
    var i := Find(buf, Open);
    if i >= 0 && ScanFrom(buf, i, Start).Ok? {
      assert !Closes(Start, Open);
      assert ScanFrom(buf, i, Start) == ScanFrom(buf, i + 1, Step(Start, Open));
    }
  }

  /** The captured span ends at the first byte that closes the bracket
      opened at its start. */
  lemma ScanSpecCloses(buf: seq<byte>)
    ensures ScanSpec(buf).Ok? ==>
      var out := ScanSpec(buf).value;
      |out| >= 1 &&
      Closes(Run(Start, out[..|out| - 1]), out[|out| - 1]) &&
      forall k :: 0 <= k < |out| - 1 ==> !Closes(Run(Start, out[..k]), out[k])
  {
    var i := Find(buf, Open);
    if i >= 0 {
      ScanFromFirstClose(buf, i, Start);
      if ScanFrom(buf, i, Start).Ok? {
        var e := ScanFrom(buf, i, Start).value;
        var out := buf[i..e];
        assert out[..|out| - 1] == buf[i..e - 1];
        forall k | 0 <= k < |out| - 1
          ensures !Closes(Run(Start, out[..k]), out[k])
        {
          assert out[..k] == buf[i..i + k];
        }
      }
    }
  }

  /** Brackets balance over the captured span: every proper non-empty
      prefix leaves the depth at 1 or more, and the whole span brings it
      back to 0 outside any string. */
  lemma ScanSpecBalanced(buf: seq<byte>)
    ensures ScanSpec(buf).Ok? ==>
      var out := ScanSpec(buf).value;
      Run(Start, out).depth == 0 && !Run(Start, out).inStr &&
      forall k :: 0 < k < |out| ==> Run(Start, out[..k]).depth >= 1
  {
    ScanSpecSpan(buf);
    ScanSpecCloses(buf);
    if ScanSpec(buf).Ok? {
      var out := ScanSpec(buf).value;
      DepthStaysPositive(out, |out| - 1);
      RunSnoc(Start, out[..|out| - 1], out[|out| - 1]);
      assert out[..|out| - 1] + [out[|out| - 1]] == out;
    }
  }

  lemma {:induction false} DepthStaysPositive(out: seq<byte>, n: nat)
    requires 1 <= n < |out| && out[0] == Open
    requires forall k :: 0 <= k < |out| - 1 ==> !Closes(Run(Start, out[..k]), out[k])
    ensures forall k :: 0 < k <= n ==> Run(Start, out[..k]).depth >= 1
  {
    if n == 1 {
      RunSnoc(Start, [], out[0]);
      assert out[..1] == [] + [out[0]];
    } else {
      DepthStaysPositive(out, n - 1);
      RunSnoc(Start, out[..n - 1], out[n - 1]);
      assert out[..n] == out[..n - 1] + [out[n - 1]];
      assert !Closes(Run(Start, out[..n - 1]), out[n - 1]);
    }
  }

  /** Whatever arrives after the list is never looked at: a result on a
      prefix of the stream is the result on the whole stream. */
  lemma ScanSpecPrefixStable(buf: seq<byte>, more: seq<byte>)
    requires ScanSpec(buf).Ok?
    ensures ScanSpec(buf + more) == ScanSpec(buf)
  {
    var i := Find(buf, Open);
    FindExtends(buf, more, Open);
    ScanFromExtends(buf, more, i, Start);
    var e := ScanFrom(buf, i, Start).value;
    assert (buf + more)[i..e] == buf[i..e];
  }

  lemma SliceSnoc(s: seq<byte>, i: nat, j: nat)
    requires i <= j < |s|
    ensures s[i..j] + [s[j]] == s[i..j + 1]
  {
  }

  /** Lines 124-141: the state update for one byte, and whether it ends
      the list. */
  method ScanByte(depth: int, inStr: bool, quote: byte, escape: bool, ch: byte)
    returns (depth': int, inStr': bool, quote': byte, escape': bool, stop: bool)
    ensures stop == Closes(ScanState(depth, inStr, quote, escape), ch)
    ensures !stop ==> ScanState(depth', inStr', quote', escape') == Step(ScanState(depth, inStr, quote, escape), ch)
  {
    depth', inStr', quote', escape', stop := depth, inStr, quote, escape, false;
    if inStr {
      if escape {
        escape' := false;
      } else if ch == Backslash {
        escape' := true;
      } else if ch == quote {
        inStr' := false;
      }
    } else {
      if ch == SingleQuote || ch == DoubleQuote {
        inStr' := true;
        quote' := ch;
      } else if ch == Open {
        depth' := depth + 1;
      } else if ch == Close {
        depth' := depth - 1;
        if depth' == 0 {
          stop := true;
        }
      }
    }
  }

  /** One more `recv`: the buffer grows by the next chunk and stays a
      prefix of everything the socket delivers. */
  lemma ReceiveNext(chunks: seq<seq<byte>>, ci: nat)
    requires ci < |chunks|
    ensures Concat(chunks[..ci]) + chunks[ci] == Concat(chunks[..ci + 1])
    ensures |Concat(chunks[..ci + 1])| <= |Concat(chunks)|
    ensures Concat(chunks[..ci + 1]) == Concat(chunks)[..|Concat(chunks[..ci + 1])|]
  {
    assert chunks[..ci + 1][..ci] == chunks[..ci];
    ConcatPrefix(chunks, ci + 1);
  }

  /** Once the received bytes hold a '[', it is the first '[' of the whole
      stream. */
  lemma OpenReceived(chunks: seq<seq<byte>>, ci: nat)
    requires ci <= |chunks| && Find(Concat(chunks[..ci]), Open) >= 0
    ensures |Concat(chunks[..ci])| <= |Concat(chunks)|
    ensures Concat(chunks[..ci]) == Concat(chunks)[..|Concat(chunks[..ci])|]
    ensures Find(Concat(chunks), Open) == Find(Concat(chunks[..ci]), Open)
  {
    var buf, total := Concat(chunks[..ci]), Concat(chunks);
    ConcatPrefix(chunks, ci);
    FindExtends(buf, total[|buf|..], Open);
    assert buf + total[|buf|..] == total;
  }

  /** When `recv` returns nothing, everything has been received. */
  lemma ReceivedAll(chunks: seq<seq<byte>>)
    ensures Concat(chunks[..|chunks|]) == Concat(chunks)
  {
    assert chunks[..|chunks|] == chunks;
  }

  /** One byte of the scan loop against the specification: a byte that
      closes the list ends the span there, any other moves the scan on. */
  lemma ScanNext(total: seq<byte>, i: nat, j: nat, st: ScanState)
    requires i == Find(total, Open) && i <= j < |total|
    requires ScanFrom(total, j, st) == ScanFrom(total, i, Start)
    ensures Closes(st, total[j]) ==> ScanSpec(total) == Ok(total[i..j + 1])
    ensures !Closes(st, total[j]) ==>
      ScanFrom(total, j + 1, Step(st, total[j])) == ScanFrom(total, i, Start)
  {
  }

  /** Running out of bytes inside the list is the reader's second error. */
  lemma ScanOutOfBytes(total: seq<byte>, i: nat, j: nat, st: ScanState)
    requires i == Find(total, Open) && i <= j && |total| <= j
    requires ScanFrom(total, j, st) == ScanFrom(total, i, Start)
    ensures ScanSpec(total) == Err(ClosedWhileReading)
  {
  }

  /** Lines 98-108 of read_list_literal_stream: `recv` until the buffer
      holds a '['. When the chunks run out first, i is -1 and everything
      has been received. */
  method ReceiveUntilOpen(chunks: seq<seq<byte>>) returns (buf: seq<byte>, ci: nat, i: int)
    ensures ci <= |chunks| && buf == Concat(chunks[..ci])
    ensures i == Find(buf, Open)
    ensures i == -1 ==> ci == |chunks|
  {
    buf, ci, i := [], 0, -1;
    while i == -1 && ci < |chunks|
      invariant ci <= |chunks| && buf == Concat(chunks[..ci])
      invariant i == Find(buf, Open)
      decreases |chunks| - ci
    {
      ReceiveNext(chunks, ci);
      buf := buf + chunks[ci];
      ci := ci + 1;
      i := Find(buf, Open);
    }
  }

  /** Lines 98-142 of read_list_literal_stream: receive up to the first
      '[', then scan from it, receiving more as needed. The socket is the
      list of non-empty chunks that successive `recv` calls return before
      the connection closes; the result is the same for every way of
      chunking the same bytes. */
  method ReadListLiteral(chunks: seq<seq<byte>>) returns (r: Result<seq<byte>>)
    requires forall c :: c in chunks ==> |c| > 0
    ensures r == ScanSpec(Concat(chunks))
  {
    ghost var total := Concat(chunks);
    var buf, ci, i := ReceiveUntilOpen(chunks);
    if i == -1 {
      ReceivedAll(chunks);
      return Err(ClosedBeforeOpen);
    }
    OpenReceived(chunks, ci);

    var j := i;
    var depth := 0;
    var out: seq<byte> := [];
    var inStr := false;
    var quote: byte := 0;
    var escape := false;
    while true
      invariant 0 <= ci <= |chunks| && buf == Concat(chunks[..ci])
      invariant |buf| <= |total| && buf == total[..|buf|]
      invariant 0 <= i <= j <= |buf| && i == Find(total, Open)
      invariant out == total[i..j]
      invariant ScanFrom(total, j, ScanState(depth, inStr, quote, escape)) == ScanFrom(total, i, Start)
      decreases |total| - j + |chunks| - ci
    {
      if j >= |buf| {
        if ci == |chunks| {
          ReceivedAll(chunks);
          ScanOutOfBytes(total, i, j, ScanState(depth, inStr, quote, escape));
          return Err(ClosedWhileReading);
        }
        ReceiveNext(chunks, ci);
        buf := buf + chunks[ci];
        ci := ci + 1;
        continue;
      }
      var ch := buf[j];
      assert ch == total[j];
      SliceSnoc(total, i, j);
      out := out + [ch];
      ghost var st := ScanState(depth, inStr, quote, escape);
      ScanNext(total, i, j, st);
      var stop;
      depth, inStr, quote, escape, stop := ScanByte(depth, inStr, quote, escape, ch);
      if stop {
        return Ok(out);
      }
      j := j + 1;
    }
  }

  /** The shape check of parse_sig_text on the decoded elements: the first
      element whose length is not HS raises, and only then is the count
      checked against n. */
  method CheckSignatureShape(items: seq<seq<byte>>, n: int, hs: int) returns (r: Result<seq<seq<byte>>>)
    ensures r.Ok? <==> |items| == n && forall k :: 0 <= k < |items| ==> |items[k]| == hs
    ensures r.Ok? ==> r.value == items
    ensures r.Err? ==>
      (r.error == BadElementLength <==> exists k :: 0 <= k < |items| && |items[k]| != hs)
    ensures r.Err? ==> r.error == BadElementLength || r.error == BadSignatureLength
  {
    var sig: seq<seq<byte>> := [];
    var k := 0;
    while k < |items|
      invariant 0 <= k <= |items| && sig == items[..k]
      invariant forall t :: 0 <= t < k ==> |items[t]| == hs
    {
      if |items[k]| != hs {
        return Err(BadElementLength);
      }
      sig := sig + [items[k]];
      k := k + 1;
    }
    assert sig == items;
    if |sig| != n {
      return Err(BadSignatureLength);
    }
    return Ok(sig);
  }
}
