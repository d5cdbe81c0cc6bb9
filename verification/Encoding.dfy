/** Building frames, and getting them back from a stream whatever surrounds them. */
module Encoding {
  import opened Bytes
  import opened Stuffing
  import opened Framing
  import opened Chunking
  import Crc16

  /** Everything a frame carries besides its payload, length and checksum. */
  datatype Header = Header(msgId: word, serial: seq<byte>, version: word, direction: word,
                           position: word, seqNo: word, timestamp: seq<byte>) {
    predicate Valid() {
      |serial| == SERIAL_LENGTH && |timestamp| == 4
    }
  }

  /** The checksummed part of a frame body. */
  function Checked(h: Header, payload: seq<byte>): (s: seq<byte>)
    requires h.Valid() && |payload| <= MAX_PAYLOAD_LEN
    ensures |s| == PAYLOAD_AT + |payload|
  {
    Pack(h.msgId) + h.serial + Pack(h.version) + Pack(h.direction) + Pack(h.position) +
    Pack(h.seqNo) + h.timestamp + Pack(ToWord(|payload|)) + payload
  }

  function EncodeBody(h: Header, payload: seq<byte>): (s: seq<byte>)
    requires h.Valid() && |payload| <= MAX_PAYLOAD_LEN
    ensures |s| == PAYLOAD_AT + |payload| + 2
  {
    var checked := Checked(h, payload);
    checked + Pack(Crc16.Crc(checked))
  }

  function Wire(body: seq<byte>): seq<byte> {
    [FRAME_START] + Stuff(body) + [FRAME_END]
  }

  /** What a header looks like once its frame has been decoded. */
  function Decoded(h: Header, payload: seq<byte>): Frame {
    Frame(h.msgId, DecodeAscii(h.serial), h.position, h.seqNo, payload)
  }

  // ---- the valid bodies are exactly the encodings ----

  lemma CheckedFields(h: Header, payload: seq<byte>)
    requires h.Valid() && |payload| <= MAX_PAYLOAD_LEN
    ensures var s := Checked(h, payload);
            && s[0..2] == Pack(h.msgId) && s[2..21] == h.serial && s[21..23] == Pack(h.version)
            && s[23..25] == Pack(h.direction) && s[25..27] == Pack(h.position)
            && s[27..29] == Pack(h.seqNo) && s[29..33] == h.timestamp
            && s[33..35] == Pack(ToWord(|payload|)) && s[35..] == payload
  {
    hide High, Low, ToWord;
  }

  lemma WordFromPack(s: seq<byte>, at: nat, w: word)
    requires at + 2 <= |s| && s[at..at + 2] == Pack(w)
    ensures WordAt(s, at) == w
  {
    PackUnpack(w);
    assert s[at] == s[at..at + 2][0] && s[at + 1] == s[at..at + 2][1];
  }

  lemma EncodingFields(h: Header, payload: seq<byte>)
    requires h.Valid() && |payload| <= MAX_PAYLOAD_LEN
    ensures var s, n := EncodeBody(h, payload), PAYLOAD_AT + |payload|;
            && s[..n] == Checked(h, payload)
            && WordAt(s, n) == Crc16.Crc(Checked(h, payload))
            && WordAt(s, 0) == h.msgId && s[2..21] == h.serial && WordAt(s, 25) == h.position
            && WordAt(s, 27) == h.seqNo && WordAt(s, 33) == ToWord(|payload|)
            && s[35..n] == payload
  {
    hide WordAt, Pack, Crc16.Crc, Checked;
    var s, c := EncodeBody(h, payload), Checked(h, payload);
    CheckedFields(h, payload);
    assert s[0..2] == c[0..2] && s[2..21] == c[2..21] && s[25..27] == c[25..27];
    assert s[27..29] == c[27..29] && s[33..35] == c[33..35] && s[35..|c|] == c[35..];
    assert s[|c|..|c| + 2] == Pack(Crc16.Crc(c));
    WordFromPack(s, 0, h.msgId);
    WordFromPack(s, 25, h.position);
    WordFromPack(s, 27, h.seqNo);
    WordFromPack(s, 33, ToWord(|payload|));
    WordFromPack(s, |c|, Crc16.Crc(c));
  }

  /** Every encoding passes the gates and decodes to what it encodes. */
  lemma EncodingDecodes(h: Header, payload: seq<byte>)
    requires h.Valid() && |payload| <= MAX_PAYLOAD_LEN
    ensures var body := EncodeBody(h, payload);
            ValidBody(body) && FrameOf(body) == Decoded(h, payload)
  {
    hide WordAt, Crc16.Crc, Checked, EncodeBody, DecodeAscii, ToWord, NumberOf;
    EncodingFields(h, payload);
    WordHoldsNumber(|payload|);
  }

  /** The header a body was encoded from. */
  function HeaderOf(body: seq<byte>): (h: Header)
    requires LengthOk(body)
    ensures h.Valid()
  {
    Header(WordAt(body, 0), body[2..21], WordAt(body, 21), WordAt(body, 23), WordAt(body, 25),
           WordAt(body, 27), body[29..33])
  }

  lemma PackOfWord(s: seq<byte>, at: nat)
    requires at + 2 <= |s|
    ensures Pack(WordAt(s, at)) == s[at..at + 2]
  {
    UnpackPack(s[at], s[at + 1]);
  }

  lemma Reassemble(s: seq<byte>, n: nat)
    requires 35 <= n <= |s|
    ensures s[0..2] + s[2..21] + s[21..23] + s[23..25] + s[25..27] + s[27..29] + s[29..33] + s[33..35]
            + s[35..n] == s[..n]
  {
    assert s[0..2] + s[2..21] + s[21..23] == s[..23];
    assert s[..23] + s[23..25] + s[25..27] + s[27..29] == s[..29];
    assert s[..29] + s[29..33] + s[33..35] + s[35..n] == s[..n];
  }

  lemma CheckedPart(body: seq<byte>)
    requires LengthOk(body)
    ensures |body| - PAYLOAD_AT - 2 <= MAX_PAYLOAD_LEN
    ensures Checked(HeaderOf(body), body[PAYLOAD_AT..|body| - 2]) == body[..|body| - 2]
  {
    hide WordAt, Pack, NumberOf, ToWord;
    PackOfWord(body, 0);
    PackOfWord(body, 21);
    PackOfWord(body, 23);
    PackOfWord(body, 25);
    PackOfWord(body, 27);
    PackOfWord(body, 33);
    WordOfItsNumber(WordAt(body, 33));
    Reassemble(body, |body| - 2);
  }

  /** Nothing but an encoding passes the gates. */
  lemma ValidIsEncoding(body: seq<byte>)
    requires ValidBody(body)
    ensures |body| - PAYLOAD_AT - 2 <= MAX_PAYLOAD_LEN
    ensures EncodeBody(HeaderOf(body), body[PAYLOAD_AT..|body| - 2]) == body
  {
    hide WordAt, Pack, Crc16.Crc, Checked;
    var n := |body| - 2;
    CheckedPart(body);
    PackOfWord(body, n);
    assert body == body[..n] + body[n..n + 2];
  }

  // ---- a frame in a stream ----

  lemma WireIsFrame(a: seq<byte>, body: seq<byte>, b: seq<byte>)
    requires ValidBody(body)
    ensures IsFrame(a + Wire(body) + b, Hit(|a|, |a| + |Wire(body)| - 1, body))
  {
    hide ValidBody, Stuff;
    var s := a + Wire(body) + b;
    assert s[|a| + 1..|a| + |Wire(body)| - 1] == Stuff(body);
  }

  /** Bytes before a frame cannot take part in a frame that reaches into it. */
  lemma BeforeIsUntouched(a: seq<byte>, body: seq<byte>, b: seq<byte>, i: nat)
    requires ValidBody(body) && i < |a|
    ensures HitAt(a + Wire(body) + b, i) == HitAt(a, i)
  {
    hide Spells, ValidBody, Stuff;
    var s := a + Wire(body) + b;
    assert s == a + (Wire(body) + b);
    var h := Hit(|a|, |a| + |Wire(body)| - 1, body);
    WireIsFrame(a, body, b);
    if HitAt(s, i).Some? {
      var g := HitAt(s, i).value;
      FramesDisjoint(s, g, h);
      FrameExtends(a, Wire(body) + b, g);
      HitAtFrame(a, g);
    }
    if HitAt(a, i).Some? {
      FrameExtends(a, Wire(body) + b, HitAt(a, i).value);
      HitAtFrame(s, HitAt(a, i).value);
    }
  }

  lemma InsideHasNone(s: seq<byte>, h: Hit, i: nat)
    requires IsFrame(s, h) && h.start < i <= h.end
    ensures HitAt(s, i).None?
  {
    hide Spells;
    if HitAt(s, i).Some? {
      FramesDisjoint(s, h, HitAt(s, i).value);
    }
  }

  lemma HitsAround(a: seq<byte>, body: seq<byte>, b: seq<byte>)
    requires ValidBody(body)
    ensures var s, n := a + Wire(body) + b, |a| + |Wire(body)|;
            Hits(s, 0, |s|) ==
            Hits(a, 0, |a|) + [Hit(|a|, n - 1, body)] + ShiftAll(Hits(b, 0, |b|), n)
  {
    hide IsFrame, Hits, HitAt, ValidBody, Wire, ShiftAll;
    WireLength(body);
    var s, n := a + Wire(body) + b, |a| + |Wire(body)|;
    var h := Hit(|a|, n - 1, body);
    WireIsFrame(a, body, b);
    forall i | 0 <= i < |a|
      ensures HitAt(s, i) == HitAt(a, i)
    {
      BeforeIsUntouched(a, body, b, i);
    }
    forall i | |a| + 1 <= i < n
      ensures HitAt(s, i).None?
    {
      InsideHasNone(s, h, i);
    }
    HitsSplit(s, 0, |a|, |s|);
    HitsSplit(s, |a|, |a| + 1, |s|);
    HitsSplit(s, |a| + 1, n, |s|);
    HitsAgree(s, a, 0, |a|);
    HitAtFrame(s, h);
    OneHit(s, |a|);
    NoHits(s, |a| + 1, n);
    assert s[n..] == b;
    HitsShift(s, n, |b|);
  }

  lemma WireLength(body: seq<byte>)
    ensures |Wire(body)| >= 2
  {}

  lemma OneHit(s: seq<byte>, i: nat)
    ensures Hits(s, i, i + 1) == match HitAt(s, i) case Some(h) => [h] case None => []
  {
    hide IsFrame;
    assert Hits(s, i, i) == [];
  }

  /** Whatever bytes stand before and after a valid frame, a stream yields the frames of what stands
      before, then the frame, then the frames of what stands after: stray start bytes, broken
      candidates and a dangling escape prefix hide nothing and add nothing. */
  lemma FrameAmongGarbage(a: seq<byte>, body: seq<byte>, b: seq<byte>)
    requires ValidBody(body)
    ensures Frames(a + Wire(body) + b) == Frames(a) + [FrameOf(body)] + Frames(b)
  {
    hide Hits, FrameOf, CrcOk;
    HitsAround(a, body, b);
  }

  /** A lone frame is consumed to the last byte. */
  lemma LoneFrame(body: seq<byte>)
    requires ValidBody(body)
    ensures Frames(Wire(body)) == [FrameOf(body)] && Leftover(Wire(body)) == []
  {
    hide ValidBody, FrameOf, Spells, Frames;
    var w := Wire(body);
    var h := Hit(0, |w| - 1, body);
    assert [] + w + [] == w;
    FrameAmongGarbage([], body, []);
    NoFramesInNothing();
    WireIsFrame([], body, []);
    HitAtFrame(w, h);
    forall i | 1 <= i < |w|
      ensures HitAt(w, i).None?
    {
      InsideHasNone(w, h, i);
    }
    ConsumedStays(w, 1, |w|);
  }

  /** End to end: any header and any payload of up to 512 bytes come back unchanged. */
  lemma RoundTrip(h: Header, payload: seq<byte>)
    requires h.Valid() && |payload| <= MAX_PAYLOAD_LEN
    ensures var w := Wire(EncodeBody(h, payload));
            Frames(w) == [Decoded(h, payload)] && Leftover(w) == []
  {
    hide ValidBody, Wire, EncodeBody, FrameOf, Frames, Leftover;
    EncodingDecodes(h, payload);
    LoneFrame(EncodeBody(h, payload));
  }

  /** A frame that arrives in two notifications, cut anywhere, arrives. */
  lemma SplitFrameArrives(h: Header, payload: seq<byte>, cut: nat)
    requires h.Valid() && |payload| <= MAX_PAYLOAD_LEN
    requires cut <= |Wire(EncodeBody(h, payload))|
    ensures var w := Wire(EncodeBody(h, payload));
            Receive([w[..cut], w[cut..]]) == Session([Decoded(h, payload)], [])
  {
    hide Wire, EncodeBody, Frames, Leftover, Receive;
    var w := Wire(EncodeBody(h, payload));
    var pieces := [w[..cut], w[cut..]];
    RoundTrip(h, payload);
    ChunkInvariance(pieces);
    assert pieces[..1] == [w[..cut]] && [w[..cut]][..0] == [];
    assert Concat([w[..cut]]) == w[..cut];
    assert Concat(pieces) == w[..cut] + w[cut..] == w;
  }

  lemma {:induction false} EscapesDouble(data: seq<byte>)
    requires forall i :: 0 <= i < |data| ==> NeedsEscape(data[i])
    ensures |Stuff(data)| == 2 * |data|
  {
    if data != [] {
      EscapesDouble(data[1..]);
    }
  }

  /** A frame is at most 1100 bytes long on the wire, but may well be longer than the 576 bytes after which
      the parser takes an unterminated candidate for a runaway. */
  lemma WireLengths(h: Header, payload: seq<byte>)
    requires h.Valid() && |payload| <= MAX_PAYLOAD_LEN
    ensures |Wire(EncodeBody(h, payload))| <= 1100
    ensures |payload| == MAX_PAYLOAD_LEN && (forall i :: 0 <= i < |payload| ==> NeedsEscape(payload[i])) ==>
              |Wire(EncodeBody(h, payload))| > 1060 > MAX_PAYLOAD_LEN + 64
  {
    hide Stuff, NeedsEscape, Crc16.Crc, Pack;
    var body := EncodeBody(h, payload);
    StuffFlagFree(body);
    if |payload| == MAX_PAYLOAD_LEN && forall i :: 0 <= i < |payload| ==> NeedsEscape(payload[i]) {
      var head, tail := Checked(h, payload)[..PAYLOAD_AT], body[PAYLOAD_AT + |payload|..];
      CheckedFields(h, payload);
      assert body == head + payload + tail;
      StuffAppend(head + payload, tail);
      StuffAppend(head, payload);
      EscapesDouble(payload);
      StuffFlagFree(head);
      StuffFlagFree(tail);
    }
  }
}
