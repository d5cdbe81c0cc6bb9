/** `parse_frames` and its helpers, updating the buffer and the statistics in place. */
module Parser {
  import opened Bytes
  import opened Wrappers
  import opened Stuffing
  import opened Framing
  import opened Scanning
  import opened Tallying
  import Crc16

  /** A Python `bytearray`: grows at the end, shrinks at the front. */
  class ByteBuffer {
    var data: seq<byte>

    constructor ()
      ensures data == []
    {
      data := [];
    }

    method Extend(more: seq<byte>)
      modifies this
      ensures data == old(data) + more
    {
      data := data + more;
    }

    /** `find`: the first occurrence at or after `from`, or -1. */
    method Find(b: byte, from: nat) returns (at: int)
      ensures at == -1 ==> forall i :: from <= i < |data| ==> data[i] != b
      ensures at != -1 ==>
                && from <= at < |data|
                && data[at] == b
                && forall i :: from <= i < at ==> data[i] != b
    {
      for i := from to if from < |data| then |data| else from
        invariant i <= |data| || i == from
        invariant forall k :: from <= k < i && k < |data| ==> data[k] != b
      {
        if data[i] == b {
          return i;
        }
      }
      return -1;
    }

    /** `del buf[:n]`. */
    method DropFront(n: nat)
      requires n <= |data|
      modifies this
      ensures data == old(data)[n..]
    {
      data := data[n..];
    }
  }

  /** A message id as a dictionary key. */
  datatype MessageId = MessageId(code: word)

  type IdCounts = map<MessageId, nat>

  function CountOf(counts: IdCounts, id: word): nat {
    if MessageId(id) in counts then counts[MessageId(id)] else 0
  }

  function CountId(counts: IdCounts, id: word): IdCounts {
    counts[MessageId(id) := CountOf(counts, id) + 1]
  }

  /** `ParseStats`: five counters, and one for each id nothing decodes. */
  class ParseStats {
    var frames: nat
    var crcFailures: nat
    var lengthMismatches: nat
    var badEscapes: nat
    var truncated: nat
    var unhandled: IdCounts

    constructor ()
      ensures Counters() == ZERO && unhandled == map[]
    {
      frames, crcFailures, lengthMismatches, badEscapes, truncated := 0, 0, 0, 0, 0;
      unhandled := map[];
    }

    function Counters(): Counters
      reads this
    {
      Tallying.Counters(frames, crcFailures, lengthMismatches, badEscapes, truncated)
    }

    /** `stats.frames += 1`. */
    method NoteFrame()
      modifies this`frames
      ensures Counters() == old(Counters()).Plus(ZERO.(frames := 1))
    {
      frames := frames + 1;
    }

    /** `stats.truncated += 1`. */
    method NoteTruncated()
      modifies this`truncated
      ensures Counters() == old(Counters()).Plus(ZERO.(truncated := 1))
    {
      truncated := truncated + 1;
    }

    /** `stats.bad_escapes += 1`. */
    method NoteBadEscape()
      modifies this`badEscapes
      ensures Counters() == old(Counters()).Plus(ZERO.(badEscapes := 1))
    {
      badEscapes := badEscapes + 1;
    }

    /** `stats.length_mismatches += 1`. */
    method NoteLengthMismatch()
      modifies this`lengthMismatches
      ensures Counters() == old(Counters()).Plus(ZERO.(lengthMismatches := 1))
    {
      lengthMismatches := lengthMismatches + 1;
    }

    /** `stats.crc_failures += 1`. */
    method NoteCrcFailure()
      modifies this`crcFailures
      ensures Counters() == old(Counters()).Plus(ZERO.(crcFailures := 1))
    {
      crcFailures := crcFailures + 1;
    }

    /** `note_unhandled`. */
    method NoteUnhandled(id: word)
      modifies this`unhandled
      ensures unhandled == CountId(old(unhandled), id)
      ensures forall other :: CountOf(unhandled, other) ==
                              CountOf(old(unhandled), other) + if other == id then 1 else 0
    {
      unhandled := CountId(unhandled, id);
    }
  }

  /** `_decode_frame`: the gates one after the other, each failure counted once. */
  method DecodeFrame(raw: seq<byte>, stats: ParseStats?) returns (frame: Option<Frame>)
    modifies stats
    ensures match Judge(raw)
            case Good(body) => LengthOk(body) && frame == Some(FrameOf(body))
            case _ => frame == None
    ensures stats != null ==>
              && stats.unhandled == old(stats.unhandled)
              && stats.Counters() ==
                 old(stats.Counters()).Plus(CountVerdict(Judge(raw)).(frames := 0))
  {
    hide CrcOk, LengthOk, Unstuff, WordAt, DecodeAscii, Crc16.Crc, Judge, Counters.Plus, ParseStats.Counters;
    ghost var before := if stats == null then ZERO else stats.Counters();
    JudgeCases(raw);
    PlusZero(before);
    var unstuffed := UnstuffBytes(raw);
    if unstuffed == None {
      if stats != null {
        stats.NoteBadEscape();
      }
      return None;
    }
    var body := unstuffed.value;
    if |body| < HEADER_LEN {
      return None;
    }
    var payLen := NumberOf(WordAt(body, 33));
    LengthGate(body, payLen);
    if payLen > MAX_PAYLOAD_LEN || |body| != (HEADER_LEN - 1) + payLen + 2 {
      if stats != null {
        stats.NoteLengthMismatch();
      }
      return None;
    }
    var crc := Crc16.Crc16Arc(body[..|body| - 2]);
    CrcGate(body, crc);
    if crc != WordAt(body, |body| - 2) {
      if stats != null {
        stats.NoteCrcFailure();
      }
      return None;
    }
    return Some(Frame(WordAt(body, 0), DecodeAscii(body[2..21]), WordAt(body, 25), WordAt(body, 27),
                      body[PAYLOAD_AT..PAYLOAD_AT + payLen]));
  }

  lemma JudgeCases(raw: seq<byte>)
    ensures match Unstuff(raw)
            case None => Judge(raw) == BadEscape
            case Some(body) =>
              && (|body| < HEADER_LEN ==> Judge(raw) == TooShort)
              && (|body| >= HEADER_LEN && !LengthOk(body) ==> Judge(raw) == BadLength)
              && (LengthOk(body) && !CrcOk(body) ==> Judge(raw) == BadCrc)
              && (LengthOk(body) && CrcOk(body) ==> Judge(raw) == Good(body))
  {
    hide CrcOk, WordAt;
  }

  lemma LengthGate(body: seq<byte>, payLen: nat)
    requires |body| >= HEADER_LEN && payLen == NumberOf(WordAt(body, 33))
    ensures LengthOk(body) <==> payLen <= MAX_PAYLOAD_LEN && |body| == (HEADER_LEN - 1) + payLen + 2
  {
    hide WordAt;
  }

  lemma CrcGate(body: seq<byte>, crc: word)
    requires |body| >= 2 && crc == Crc16.Crc(body[..|body| - 2])
    ensures CrcOk(body) <==> crc == WordAt(body, |body| - 2)
  {}

  /** `parse_frames`: what it returns, leaves and counts is fixed by the bytes it is given. */
  method ParseFrames(buf: ByteBuffer, stats: ParseStats?) returns (frames: seq<Frame>)
    modifies buf, stats
    ensures frames == Frames(old(buf.data))
    ensures buf.data == Leftover(old(buf.data))
    ensures stats != null ==>
              && stats.unhandled == old(stats.unhandled)
              && stats.Counters() == old(stats.Counters()).Plus(TallyAll(old(buf.data)))
  {
    hide Examine, FramesBefore, ConsumedTo, Judge, Tally, CountVerdict, FrameOf, LengthOk;
    hide Counters.Plus, ParseStats.Counters, FindEnd;
    ghost var s := buf.data;
    ghost var counted := if stats == null then ZERO else stats.Counters();
    frames := [];
    var index := 0;
    var consumed := 0;
    Begin(s, counted);
    while true
      invariant index <= |s| && buf.data == s
      invariant frames == FramesBefore(s, index)
      invariant consumed == ConsumedTo(s, index)
      invariant stats != null ==> stats.unhandled == old(stats.unhandled)
      invariant stats != null ==> stats.Counters() == counted.Plus(Tally(s, 0, index))
      decreases |s| - index
    {
      var at := buf.Find(FRAME_START, index);
      if at < 0 {
        SkipNonStarts(s, index, |s|);
        break;
      }
      SkipNonStarts(s, index, at);
      index := at;
      var end := FindFrameEnd(buf.data, index + 1);
      if end == Truncated {
        PassCut(s, index, counted);
        if stats != null {
          stats.NoteTruncated();
        }
        index := index + 1;
        continue;
      }
      if end == Incomplete {
        PassWaiting(s, index);
        if |buf.data| - index > MAX_PAYLOAD_LEN + 64 {
          index := index + 1;
          continue;
        }
        break;
      }
      var frame := DecodeFrame(buf.data[index + 1..end.at], stats);
      PassJudged(s, index, end.at, counted);
      if frame == None {
        index := index + 1;
        continue;
      }
      if stats != null {
        stats.NoteFrame();
      }
      frames := frames + [frame.value];
      index := end.at + 1;
      consumed := index;
    }
    End(s);
    buf.DropFront(consumed);
  }

  // ---- the loop's steps ----

  lemma Begin(s: seq<byte>, counted: Counters)
    ensures FramesBefore(s, 0) == [] && ConsumedTo(s, 0) == 0
    ensures counted.Plus(Tally(s, 0, 0)) == counted
  {}

  lemma End(s: seq<byte>)
    ensures FramesBefore(s, |s|) == Frames(s)
    ensures ConsumedTo(s, |s|) <= |s| && s[ConsumedTo(s, |s|)..] == Leftover(s)
  {
    hide Hits, ConsumedTo;
    ConsumedBound(s, |s|);
  }

  /** `find` steps over bytes that are no start bytes. */
  lemma SkipNonStarts(s: seq<byte>, lo: nat, hi: nat)
    requires lo <= hi <= |s| && forall i :: lo <= i < hi ==> s[i] != FRAME_START
    ensures FramesBefore(s, hi) == FramesBefore(s, lo)
    ensures ConsumedTo(s, hi) == ConsumedTo(s, lo)
    ensures Tally(s, 0, hi) == Tally(s, 0, lo)
  {
    hide FramesBefore, ConsumedTo, Tally;
    SkipQuiet(s, lo, hi);
  }

  /** Another start byte came first: counted, and the scan moves on by one. */
  lemma PassCut(s: seq<byte>, i: nat, counted: Counters)
    requires i < |s| && s[i] == FRAME_START && FindEnd(s, i + 1) == Truncated
    ensures FramesBefore(s, i + 1) == FramesBefore(s, i)
    ensures ConsumedTo(s, i + 1) == ConsumedTo(s, i)
    ensures counted.Plus(Tally(s, 0, i + 1)) == counted.Plus(Tally(s, 0, i)).Plus(ZERO.(truncated := 1))
  {
    hide FramesBefore, ConsumedTo, FindEnd, Counters.Plus;
    Advance(s, i);
    PlusAssociative(counted, Tally(s, 0, i), ZERO.(truncated := 1));
  }

  /** No end in sight: whether the scan moves on by one or stops, nothing is left to find. */
  lemma PassWaiting(s: seq<byte>, i: nat)
    requires i < |s| && s[i] == FRAME_START && FindEnd(s, i + 1) == Incomplete
    ensures FramesBefore(s, |s|) == FramesBefore(s, i + 1) == FramesBefore(s, i)
    ensures ConsumedTo(s, |s|) == ConsumedTo(s, i + 1) == ConsumedTo(s, i)
    ensures Tally(s, 0, |s|) == Tally(s, 0, i + 1) == Tally(s, 0, i)
  {
    hide FramesBefore, ConsumedTo, Tally, FindEnd;
    assert Examine(s, i) == Waiting;
    forall j | i <= j < |s|
      ensures Quiet(s, j)
    {
      WaitingIsFinal(s, i, j);
    }
    SkipQuiet(s, i, i + 1);
    SkipQuiet(s, i, |s|);
  }

  /** An end was found: a rejected candidate moves the scan on by one, a frame past its end. */
  lemma PassJudged(s: seq<byte>, i: nat, e: nat, counted: Counters)
    requires i < |s| && s[i] == FRAME_START && FindEnd(s, i + 1) == Found(e)
    ensures match Judge(s[i + 1..e])
            case Good(body) =>
              && LengthOk(body)
              && FramesBefore(s, e + 1) == FramesBefore(s, i) + [FrameOf(body)]
              && ConsumedTo(s, e + 1) == e + 1
              && counted.Plus(Tally(s, 0, e + 1)) ==
                 counted.Plus(Tally(s, 0, i)).Plus(CountVerdict(Good(body)).(frames := 0))
                   .Plus(ZERO.(frames := 1))
            case v =>
              && FramesBefore(s, i + 1) == FramesBefore(s, i)
              && ConsumedTo(s, i + 1) == ConsumedTo(s, i)
              && counted.Plus(Tally(s, 0, i + 1)) ==
                 counted.Plus(Tally(s, 0, i)).Plus(CountVerdict(v).(frames := 0))
  {
    hide FramesBefore, ConsumedTo, FindEnd, Judge, Counters.Plus, LengthOk, FrameOf;
    var v := Judge(s[i + 1..e]);
    assert Examine(s, i) == Judged(e, v);
    Advance(s, i);
    PlusAssociative(counted, Tally(s, 0, i), CountVerdict(v));
    PlusZero(counted.Plus(Tally(s, 0, i)));
    if v.Good? {
      InsideIsQuiet(s, i, e, v.body);
      SkipQuiet(s, i + 1, e + 1);
    }
  }
}
