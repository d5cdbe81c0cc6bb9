/** The resynchronising scan: where a candidate frame ends, and what becomes of the candidate. */
module Scanning {
  import opened Bytes
  import opened Wrappers
  import opened Stuffing
  import opened Framing

  /** What `_find_frame_end` reports: an index, `_TRUNCATED`, or None. */
  datatype Ending = Found(at: nat) | Truncated | Incomplete

  function FindEnd(buf: seq<byte>, i: nat): (r: Ending)
    ensures r.Found? ==> i <= r.at < |buf| && buf[r.at] == FRAME_END
    decreases |buf| - i
  {
    if i >= |buf| then Incomplete
    else if buf[i] == FRAME_END then Found(i)
    else if IsPrefix(buf[i]) then (if i + 2 <= |buf| then FindEnd(buf, i + 2) else Incomplete)
    else if buf[i] == FRAME_START then Truncated
    else FindEnd(buf, i + 1)
  }

  /** `_find_frame_end`. */
  method FindFrameEnd(buf: seq<byte>, start: nat) returns (r: Ending)
    ensures r == FindEnd(buf, start)
  {
    var i := start;
    while i < |buf|
      invariant i <= |buf| ==> FindEnd(buf, start) == FindEnd(buf, i)
      invariant i > |buf| ==> FindEnd(buf, start) == Incomplete
    {
      var b := buf[i];
      if b == FRAME_END {
        return Found(i);
      }
      if IsPrefix(b) {
        i := i + 2;
        continue;
      }
      if b == FRAME_START {
        return Truncated;
      }
      i := i + 1;
    }
    return Incomplete;
  }

  // ---- what the scan means ----

  /** The bytes split from the left into plain bytes and escape pairs: no flag stands on its own. */
  predicate Escaped(s: seq<byte>)
    decreases |s|
  {
    s == [] ||
    (if IsPrefix(s[0]) then |s| >= 2 && Escaped(s[2..]) else !IsFlag(s[0]) && Escaped(s[1..]))
  }

  /** The first unescaped flag, if there is one, decides: an end byte is found, a start byte cuts the
      candidate short. */
  lemma {:induction false} FirstUnescapedFlag(buf: seq<byte>, i: nat, e: nat)
    requires i <= e < |buf| && IsFlag(buf[e])
    ensures buf[e] == FRAME_END ==> (FindEnd(buf, i) == Found(e) <==> Escaped(buf[i..e]))
    ensures buf[e] == FRAME_START && Escaped(buf[i..e]) ==> FindEnd(buf, i) == Truncated
    decreases e - i
  {
    var raw := buf[i..e];
    if i < e {
      var n := if IsPrefix(buf[i]) then 2 else 1;
      if i + n <= e {
        assert raw[n..] == buf[i + n..e];
        FirstUnescapedFlag(buf, i + n, e);
      }
    }
  }

  /** A scan that is cut short has met an unescaped start byte. */
  lemma {:induction false} CutPlace(buf: seq<byte>, i: nat) returns (e: nat)
    requires FindEnd(buf, i) == Truncated
    ensures i <= e < |buf| && buf[e] == FRAME_START && Escaped(buf[i..e])
    decreases |buf| - i
  {
    if IsPrefix(buf[i]) {
      e := CutPlace(buf, i + 2);
      assert buf[i..e][2..] == buf[i + 2..e];
    } else if buf[i] == FRAME_START {
      e := i;
    } else {
      e := CutPlace(buf, i + 1);
      assert buf[i..e][1..] == buf[i + 1..e];
    }
  }

  /** The scan waits exactly when the rest of the buffer holds no unescaped flag. */
  lemma {:induction false} WaitingMeansNoFlag(buf: seq<byte>, i: nat)
    requires i <= |buf|
    ensures FindEnd(buf, i) == Incomplete <==>
            Escaped(buf[i..]) || (i < |buf| && IsPrefix(buf[|buf| - 1]) && Escaped(buf[i..|buf| - 1]))
    decreases |buf| - i
  {
    if i < |buf| {
      var n := if IsPrefix(buf[i]) then 2 else 1;
      var last := |buf| - 1;
      if i + n <= |buf| {
        assert buf[i..][n..] == buf[i + n..];
        WaitingMeansNoFlag(buf, i + n);
      }
      if i + n <= last {
        assert buf[i..last][n..] == buf[i + n..last];
      }
    }
  }

  // ---- one candidate ----

  /** What becomes of the bytes between a start byte and its end byte. */
  datatype Verdict = BadEscape | TooShort | BadLength | BadCrc | Good(body: seq<byte>)

  function Judge(raw: seq<byte>): Verdict {
    match Unstuff(raw)
    case None => BadEscape
    case Some(body) =>
      if |body| < HEADER_LEN then TooShort
      else if !LengthOk(body) then BadLength
      else if !CrcOk(body) then BadCrc
      else Good(body)
  }

  /** What a scan that looks at one position makes of it. */
  datatype Outcome = NotAStart | Cut | Waiting | Judged(end: nat, verdict: Verdict)

  function Examine(buf: seq<byte>, i: nat): (r: Outcome)
    requires i < |buf|
  {
    if buf[i] != FRAME_START then NotAStart
    else
      match FindEnd(buf, i + 1)
      case Truncated => Cut
      case Incomplete => Waiting
      case Found(end) => Judged(end, Judge(buf[i + 1..end]))
  }

  // ---- scan synchronisation ----

  /** A scan that jumps over a start byte, because an escape prefix stands before it, ends exactly
      as a scan that begins just after that start byte. */
  lemma {:induction false} ScanSync(buf: seq<byte>, i: nat, j: nat)
    requires i <= j < |buf| && buf[j] == FRAME_START
    requires FindEnd(buf, i) != Truncated
    requires FindEnd(buf, i).Found? ==> j < FindEnd(buf, i).at
    ensures FindEnd(buf, j + 1) == FindEnd(buf, i)
    decreases j - i
  {
    if IsPrefix(buf[i]) {
      if j > i + 1 {
        ScanSync(buf, i + 2, j);
      }
    } else {
      ScanSync(buf, i + 1, j);
    }
  }

  /** The runaway cut and the wait for more data are harmless: once one start byte has no end in
      sight, neither has any later one. */
  lemma WaitingIsFinal(buf: seq<byte>, i: nat, j: nat)
    requires i <= j < |buf| && Examine(buf, i) == Waiting
    ensures Examine(buf, j) == Waiting || Examine(buf, j) == NotAStart
  {
    if buf[j] == FRAME_START && i < j {
      ScanSync(buf, i + 1, j);
    }
  }

  // ---- the scan accepts exactly the frames ----

  lemma {:induction false} ScanFindsStuffed(buf: seq<byte>, i: nat, e: nat, body: seq<byte>)
    requires i <= e < |buf| && buf[e] == FRAME_END && buf[i..e] == Stuff(body)
    ensures FindEnd(buf, i) == Found(e)
    decreases |body|
  {
    if body != [] {
      var n := |Escape(body[0])|;
      var rest := Stuff(body[1..]);
      assert buf[i..e][..n] == Escape(body[0]) && buf[i..e][n..] == rest;
      assert buf[i + n..e] == rest;
      assert forall k :: 0 <= k < n ==> buf[i + k] == buf[i..e][k];
      ScanFindsStuffed(buf, i + n, e, body[1..]);
    }
  }

  lemma {:induction false} DecodableIsFlagFree(buf: seq<byte>, i: nat, e: nat)
    requires i <= |buf| && FindEnd(buf, i) == Found(e)
    requires Unstuff(buf[i..e]).Some?
    ensures FlagFree(buf[i..e])
    decreases |buf| - i
  {
    if i < e {
      var n := if IsPrefix(buf[i]) then 2 else 1;
      var raw := buf[i..e];
      assert raw[n..] == buf[i + n..e];
      DecodableIsFlagFree(buf, i + n, e);
      assert raw == raw[..n] + raw[n..];
    }
  }

  /** The parser's candidate test accepts a position exactly when a valid frame lies there. */
  lemma AcceptsExactlyFrames(buf: seq<byte>, i: nat, e: nat, body: seq<byte>)
    requires i < |buf|
    ensures Examine(buf, i) == Judged(e, Good(body)) <==> IsFrame(buf, Hit(i, e, body))
  {
    hide ValidBody, Stuff, Unstuff;
    if IsFrame(buf, Hit(i, e, body)) {
      ScanFindsStuffed(buf, i + 1, e, body);
      UnstuffStuff(body);
      ValidMeansGood(buf[i + 1..e], body);
    }
    if Examine(buf, i) == Judged(e, Good(body)) {
      DecodableIsFlagFree(buf, i + 1, e);
      StuffUnstuff(buf[i + 1..e]);
      GoodMeansValid(buf[i + 1..e], body);
    }
  }

  lemma ValidMeansGood(raw: seq<byte>, body: seq<byte>)
    requires Unstuff(raw) == Some(body) && ValidBody(body)
    ensures Judge(raw) == Good(body)
  {}

  lemma GoodMeansValid(raw: seq<byte>, body: seq<byte>)
    requires Judge(raw) == Good(body)
    ensures Unstuff(raw) == Some(body) && ValidBody(body)
  {}

  lemma OutcomeDecidesHit(buf: seq<byte>, i: nat)
    requires i < |buf|
    ensures match Examine(buf, i)
            case Judged(e, Good(body)) => HitAt(buf, i) == Some(Hit(i, e, body))
            case _ => HitAt(buf, i).None?
  {
    hide Examine, IsFrame;
    match Examine(buf, i) {
      case Judged(e, Good(body)) =>
        AcceptsExactlyFrames(buf, i, e, body);
        HitAtFrame(buf, Hit(i, e, body));
      case _ =>
        if HitAt(buf, i).Some? {
          var h := HitAt(buf, i).value;
          AcceptsExactlyFrames(buf, i, h.end, h.body);
        }
    }
  }
}
