/** What a frame is, without reference to any parsing algorithm: the layout of a frame body, the
    places in a byte stream where a valid frame lies, and the frames a stream therefore holds. */
module Framing {
  import opened Bytes
  import opened Wrappers
  import opened Stuffing
  import Crc16

  const HEADER_LEN: nat := 36
  const MAX_PAYLOAD_LEN: nat := 512
  const SERIAL_LENGTH: nat := 19
  /** Offset of the payload in a frame body, which leaves out the leading start byte. */
  const PAYLOAD_AT: nat := HEADER_LEN - 1

  /** The fields of a frame that anything later reads. */
  datatype Frame = Frame(msgId: word, serial: Text, position: word, seqNo: word, payload: seq<byte>) {
    function MsgClass(): word {
      msgId >> 8
    }
  }

  // ---- the body gates ----

  predicate LengthOk(body: seq<byte>) {
    && |body| >= HEADER_LEN
    && NumberOf(WordAt(body, 33)) <= MAX_PAYLOAD_LEN
    && |body| == PAYLOAD_AT + NumberOf(WordAt(body, 33)) + 2
  }

  predicate CrcOk(body: seq<byte>)
    requires |body| >= 2
  {
    Crc16.Crc(body[..|body| - 2]) == WordAt(body, |body| - 2)
  }

  /** Length- and checksum-valid. */
  predicate ValidBody(body: seq<byte>) {
    LengthOk(body) && CrcOk(body)
  }

  function FrameOf(body: seq<byte>): Frame
    requires LengthOk(body)
  {
    Frame(WordAt(body, 0), DecodeAscii(body[2..21]), WordAt(body, 25), WordAt(body, 27),
          body[PAYLOAD_AT..|body| - 2])
  }

  /** The gates in bytes: a length of at most 512 stands in bytes 33 and 34, the body is 37 bytes longer, and
      its last two bytes are the checksum of all before them, high byte first. */
  lemma GatesInBytes(body: seq<byte>)
    ensures LengthOk(body) <==>
            && |body| >= 37
            && var n := 256 * ByteNumber(body[33]) + ByteNumber(body[34]); n <= 512 && |body| == 37 + n
    ensures |body| >= 2 ==>
              (CrcOk(body) <==> body[|body| - 2..] == Pack(Crc16.Crc(body[..|body| - 2])))
  {
    hide Crc16.Crc, NumberOf, ByteNumber, Word, High, Low;
    if |body| >= 36 {
      PairNumber(body[33], body[34]);
    }
    if |body| >= 2 {
      var crc := Crc16.Crc(body[..|body| - 2]);
      PackUnpack(crc);
      UnpackPack(body[|body| - 2], body[|body| - 1]);
    }
  }

  /** Where the header keeps the fields of a frame, all numbers big-endian. */
  lemma FieldsInBytes(body: seq<byte>)
    requires LengthOk(body)
    ensures var f := FrameOf(body);
            && Pack(f.msgId) == body[..2] && f.serial == DecodeAscii(body[2..21])
            && Pack(f.position) == body[25..27] && Pack(f.seqNo) == body[27..29]
            && f.payload == body[35..|body| - 2]
  {
    hide NumberOf, Word, High, Low, DecodeAscii;
    UnpackPack(body[0], body[1]);
    UnpackPack(body[25], body[26]);
    UnpackPack(body[27], body[28]);
  }

  // ---- frames in a stream ----

  /** A frame in a byte stream: from its start byte to its end byte, both inclusive. */
  datatype Hit = Hit(start: nat, end: nat, body: seq<byte>)

  predicate Spells(s: seq<byte>, h: Hit)
    requires h.start < h.end < |s|
  {
    && s[h.start] == FRAME_START
    && s[h.end] == FRAME_END
    && s[h.start + 1..h.end] == Stuff(h.body)
    && ValidBody(h.body)
  }

  /** The stream holds `5E ++ Stuff(body) ++ 7E` at these positions and the body is valid. */
  predicate IsFrame(s: seq<byte>, h: Hit) {
    h.start < h.end < |s| && Spells(s, h)
  }

  ghost function HitAt(s: seq<byte>, i: nat): (r: Option<Hit>)
    ensures r.Some? ==> r.value.start == i && IsFrame(s, r.value)
    ensures (exists h: Hit :: h.start == i && IsFrame(s, h)) ==> r.Some?
  {
    if h: Hit :| h.start == i && IsFrame(s, h) then Some(h) else None
  }

  /** The frames that start in the half-open range, from left to right. */
  ghost function Hits(s: seq<byte>, lo: nat, hi: nat): seq<Hit>
    decreases hi
  {
    if hi <= lo then []
    else
      Hits(s, lo, hi - 1) + (match HitAt(s, hi - 1) case Some(h) => [h] case None => [])
  }

  /** One past the last frame that starts before `hi`: what a parser may discard. */
  ghost function ConsumedTo(s: seq<byte>, hi: nat): nat {
    if hi == 0 then 0
    else
      match HitAt(s, hi - 1)
      case Some(h) => h.end + 1
      case None => ConsumedTo(s, hi - 1)
  }

  function FramesOf(hits: seq<Hit>): seq<Frame>
    requires forall k :: 0 <= k < |hits| ==> LengthOk(hits[k].body)
  {
    seq(|hits|, k requires 0 <= k < |hits| => FrameOf(hits[k].body))
  }

  lemma {:induction false} HitsAreFrames(s: seq<byte>, lo: nat, hi: nat)
    ensures forall k :: 0 <= k < |Hits(s, lo, hi)| ==>
              IsFrame(s, Hits(s, lo, hi)[k]) && lo <= Hits(s, lo, hi)[k].start < hi
    decreases hi
  {
    hide Spells;
    if hi > lo {
      HitsAreFrames(s, lo, hi - 1);
    }
  }

  /** The frames of a whole stream. */
  ghost function Frames(s: seq<byte>): seq<Frame> {
    HitsAreFrames(s, 0, |s|);
    FramesOf(Hits(s, 0, |s|))
  }

  ghost function Consumed(s: seq<byte>): nat {
    ConsumedTo(s, |s|)
  }

  /** What stays buffered: everything after the last frame. */
  ghost function Leftover(s: seq<byte>): seq<byte> {
    ConsumedBound(s, |s|);
    s[Consumed(s)..]
  }

  lemma {:induction false} ConsumedBound(s: seq<byte>, hi: nat)
    ensures ConsumedTo(s, hi) <= |s|
  {
    hide Spells;
    if hi > 0 && HitAt(s, hi - 1).None? {
      ConsumedBound(s, hi - 1);
    }
  }

  // ---- frames neither overlap nor share a start ----

  lemma FrameInterior(s: seq<byte>, h: Hit)
    requires IsFrame(s, h)
    ensures forall i :: h.start < i < h.end ==> !IsFlag(s[i])
  {
    hide ValidBody, Stuff;
    StuffFlagFree(h.body);
    forall i | h.start < i < h.end
      ensures !IsFlag(s[i])
    {
      assert s[i] == s[h.start + 1..h.end][i - h.start - 1];
    }
  }

  lemma FramesDisjoint(s: seq<byte>, g: Hit, h: Hit)
    requires IsFrame(s, g) && IsFrame(s, h)
    ensures g.start == h.start ==> g == h
    ensures g.start < h.start ==> g.end < h.start
  {
    hide ValidBody, Stuff;
    FrameInterior(s, g);
    FrameInterior(s, h);
    if g.start == h.start {
      assert g.end == h.end;
      StuffInjective(g.body, h.body);
    }
  }

  lemma HitAtFrame(s: seq<byte>, h: Hit)
    requires IsFrame(s, h)
    ensures HitAt(s, h.start) == Some(h)
  {
    hide Spells;
    FramesDisjoint(s, h, HitAt(s, h.start).value);
  }

  // ---- Hits is exactly the set of frames, in order ----

  ghost predicate Ordered(hits: seq<Hit>) {
    forall k, l :: 0 <= k < l < |hits| ==> hits[k].end < hits[l].start
  }

  /** A list of hits is the frames of a stream: all of them, only them, left to right. */
  ghost predicate Exactly(s: seq<byte>, hits: seq<Hit>) {
    && (forall k :: 0 <= k < |hits| ==> IsFrame(s, hits[k]))
    && Ordered(hits)
    && (forall h: Hit :: IsFrame(s, h) ==> h in hits)
  }

  lemma {:induction false} HitsComplete(s: seq<byte>, lo: nat, hi: nat, h: Hit)
    requires IsFrame(s, h) && lo <= h.start < hi
    ensures h in Hits(s, lo, hi)
    decreases hi
  {
    hide Spells;
    if h.start == hi - 1 {
      HitAtFrame(s, h);
    } else {
      HitsComplete(s, lo, hi - 1, h);
    }
  }

  lemma {:induction false} HitsOrdered(s: seq<byte>, lo: nat, hi: nat)
    ensures Ordered(Hits(s, lo, hi))
    decreases hi
  {
    hide Spells;
    if hi > lo {
      HitsOrdered(s, lo, hi - 1);
      HitsAreFrames(s, lo, hi - 1);
      if HitAt(s, hi - 1).Some? {
        var before, h := Hits(s, lo, hi - 1), HitAt(s, hi - 1).value;
        forall k | 0 <= k < |before|
          ensures before[k].end < h.start
        {
          FramesDisjoint(s, before[k], h);
        }
        assert Hits(s, lo, hi) == before + [h];
      }
    }
  }

  lemma HitsExactly(s: seq<byte>)
    ensures Exactly(s, Hits(s, 0, |s|))
  {
    hide Spells;
    HitsAreFrames(s, 0, |s|);
    HitsOrdered(s, 0, |s|);
    forall h: Hit | IsFrame(s, h)
      ensures h in Hits(s, 0, |s|)
    {
      HitsComplete(s, 0, |s|, h);
    }
  }

  /** Being exactly the frames of a stream leaves no freedom at all. */
  lemma {:induction false} ExactlyUnique(s: seq<byte>, a: seq<Hit>, b: seq<Hit>)
    requires Exactly(s, a) && Exactly(s, b)
    ensures a == b
  {
    hide Spells;
    SameFrames(s, a, b, |a|);
    SameFrames(s, b, a, |b|);
  }

  lemma IndexAtLeast(s: seq<byte>, a: seq<Hit>, b: seq<Hit>, m: nat, i: nat, j: nat)
    requires Exactly(s, a) && Exactly(s, b)
    requires m <= i < |a| && j < |b| && m <= |b|
    requires a[..m] == b[..m] && a[i] == b[j]
    ensures j >= m
  {
    hide Spells;
    assert IsFrame(s, a[i]);
    assert forall k :: 0 <= k < m ==> a[..m][k] == b[..m][k];
  }

  lemma NextAgrees(s: seq<byte>, a: seq<Hit>, b: seq<Hit>, m: nat)
    requires Exactly(s, a) && Exactly(s, b)
    requires m < |a| && m <= |b| && a[..m] == b[..m]
    ensures m < |b| && a[m] == b[m]
  {
    hide Spells;
    assert IsFrame(s, a[m]);
    var j :| 0 <= j < |b| && b[j] == a[m];
    IndexAtLeast(s, a, b, m, m, j);
    assert IsFrame(s, b[m]);
    var i :| 0 <= i < |a| && a[i] == b[m];
    IndexAtLeast(s, b, a, m, m, i);
  }

  lemma {:induction false} SameFrames(s: seq<byte>, a: seq<Hit>, b: seq<Hit>, n: nat)
    requires Exactly(s, a) && Exactly(s, b)
    requires n <= |a|
    ensures n <= |b| && a[..n] == b[..n]
  {
    hide Exactly;
    if n > 0 {
      SameFrames(s, a, b, n - 1);
      NextAgrees(s, a, b, n - 1);
      assert a[..n] == a[..n - 1] + [a[n - 1]] && b[..n] == b[..n - 1] + [b[n - 1]];
    }
  }

  lemma {:induction false} ConsumedIsLastEnd(s: seq<byte>, hi: nat)
    ensures var r := Hits(s, 0, hi);
            ConsumedTo(s, hi) == if r == [] then 0 else r[|r| - 1].end + 1
    decreases hi
  {
    hide Spells;
    if hi > 0 {
      ConsumedIsLastEnd(s, hi - 1);
    }
  }

  /** Any list that is exactly the frames of a stream gives the frames the stream yields, and the bytes
      left over are those after its last element. */
  lemma ExactlyDetermines(s: seq<byte>, hits: seq<Hit>)
    requires Exactly(s, hits)
    ensures forall k :: 0 <= k < |hits| ==> LengthOk(hits[k].body)
    ensures Frames(s) == FramesOf(hits)
    ensures Consumed(s) == if hits == [] then 0 else hits[|hits| - 1].end + 1
  {
    hide Exactly, IsFrame, ConsumedTo, Hits, FrameOf, CrcOk;
    HitsExactly(s);
    ExactlyUnique(s, hits, Hits(s, 0, |s|));
    ConsumedIsLastEnd(s, |s|);
    HitsLengthOk(s);
  }

  lemma HitsLengthOk(s: seq<byte>)
    ensures forall k :: 0 <= k < |Hits(s, 0, |s|)| ==> LengthOk(Hits(s, 0, |s|)[k].body)
  {
    hide Hits, LengthOk;
    HitsAreFrames(s, 0, |s|);
  }

  // ---- a frame is a local matter ----

  lemma FrameShift(s: seq<byte>, c: nat, h: Hit)
    requires c <= |s|
    ensures IsFrame(s[c..], h) <==> IsFrame(s, Hit(h.start + c, h.end + c, h.body))
  {
    hide ValidBody, Stuff;
    if h.start < h.end < |s| - c {
      assert s[c..][h.start + 1..h.end] == s[c..][..h.end][h.start + 1..];
      assert s[h.start + c + 1..h.end + c] == s[c..][h.start + 1..h.end];
    }
  }

  lemma FrameExtends(a: seq<byte>, b: seq<byte>, h: Hit)
    requires h.end < |a|
    ensures IsFrame(a + b, h) <==> IsFrame(a, h)
  {
    hide ValidBody, Stuff;
    if h.start < h.end {
      assert (a + b)[h.start + 1..h.end] == a[h.start + 1..h.end];
    }
  }
}
