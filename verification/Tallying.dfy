/** What a scan counts: accepted frames and rejected candidates, position by position. */
module Tallying {
  import opened Bytes
  import opened Wrappers
  import opened Framing
  import opened Scanning
  import opened Stuffing
  import opened Chunking

  /** The counters of `ParseStats`, without the per-id map. */
  datatype Counters = Counters(frames: nat, crcFailures: nat, lengthMismatches: nat,
                               badEscapes: nat, truncated: nat) {
    function Plus(other: Counters): Counters {
      Counters(frames + other.frames, crcFailures + other.crcFailures,
               lengthMismatches + other.lengthMismatches, badEscapes + other.badEscapes,
               truncated + other.truncated)
    }

    function Rejected(): nat {
      crcFailures + lengthMismatches + badEscapes + truncated
    }
  }

  const ZERO := Counters(0, 0, 0, 0, 0)

  function CountVerdict(v: Verdict): Counters {
    match v
    case BadEscape => ZERO.(badEscapes := 1)
    case TooShort => ZERO
    case BadLength => ZERO.(lengthMismatches := 1)
    case BadCrc => ZERO.(crcFailures := 1)
    case Good(_) => ZERO.(frames := 1)
  }

  function Count(o: Outcome): Counters {
    match o
    case NotAStart => ZERO
    case Waiting => ZERO
    case Cut => ZERO.(truncated := 1)
    case Judged(_, v) => CountVerdict(v)
  }

  /** Each position in the half-open range counted once, by what a scan makes of it. */
  function Tally(s: seq<byte>, lo: nat, hi: nat): Counters
    requires hi <= |s|
    decreases hi
  {
    if hi <= lo then ZERO else Tally(s, lo, hi - 1).Plus(Count(Examine(s, hi - 1)))
  }

  function TallyAll(s: seq<byte>): Counters {
    Tally(s, 0, |s|)
  }

  lemma PlusZero(a: Counters)
    ensures a.Plus(ZERO) == a
  {}

  // ---- how the scan advances ----

  /** The frames that start before `hi`, decoded. */
  ghost function FramesBefore(s: seq<byte>, hi: nat): seq<Frame> {
    HitsAreFrames(s, 0, hi);
    FramesOf(Hits(s, 0, hi))
  }

  lemma Advance(s: seq<byte>, i: nat)
    requires i < |s|
    ensures match Examine(s, i)
            case Judged(e, Good(body)) =>
              && LengthOk(body)
              && FramesBefore(s, i + 1) == FramesBefore(s, i) + [FrameOf(body)]
              && ConsumedTo(s, i + 1) == e + 1
            case _ =>
              && FramesBefore(s, i + 1) == FramesBefore(s, i)
              && ConsumedTo(s, i + 1) == ConsumedTo(s, i)
  {
    hide Examine, Spells, FrameOf, LengthOk;
    OutcomeDecidesHit(s, i);
    HitsAreFrames(s, 0, i);
    HitsAreFrames(s, 0, i + 1);
    match Examine(s, i) {
      case Judged(e, Good(body)) => ValidLength(s, Hit(i, e, body));
      case _ =>
    }
  }

  lemma ValidLength(s: seq<byte>, h: Hit)
    requires IsFrame(s, h)
    ensures LengthOk(h.body)
  {}

  predicate Quiet(s: seq<byte>, i: nat)
    requires i < |s|
  {
    Examine(s, i) == NotAStart || Examine(s, i) == Waiting
  }

  lemma AdvanceQuiet(s: seq<byte>, i: nat)
    requires i < |s| && Quiet(s, i)
    ensures FramesBefore(s, i + 1) == FramesBefore(s, i)
    ensures ConsumedTo(s, i + 1) == ConsumedTo(s, i)
    ensures Tally(s, 0, i + 1) == Tally(s, 0, i)
  {
    hide Examine, FramesBefore, ConsumedTo, Tally, LengthOk, FrameOf;
    Advance(s, i);
    TallyQuiet(s, i);
  }

  lemma TallyQuiet(s: seq<byte>, i: nat)
    requires i < |s| && Quiet(s, i)
    ensures Tally(s, 0, i + 1) == Tally(s, 0, i)
  {
    hide Examine, Counters.Plus;
    PlusZero(Tally(s, 0, i));
  }

  /** Positions at which nothing is accepted or counted can be skipped. */
  lemma {:induction false} SkipQuiet(s: seq<byte>, lo: nat, hi: nat)
    requires lo <= hi <= |s|
    requires forall i :: lo <= i < hi ==> Quiet(s, i)
    ensures FramesBefore(s, hi) == FramesBefore(s, lo)
    ensures ConsumedTo(s, hi) == ConsumedTo(s, lo)
    ensures Tally(s, 0, hi) == Tally(s, 0, lo)
    decreases hi
  {
    hide Quiet, FramesBefore, ConsumedTo, Tally;
    if lo < hi {
      SkipQuiet(s, lo, hi - 1);
      AdvanceQuiet(s, hi - 1);
    }
  }

  /** An accepted frame contains no further start byte. */
  lemma InsideIsQuiet(s: seq<byte>, i: nat, e: nat, body: seq<byte>)
    requires i < |s| && Examine(s, i) == Judged(e, Good(body))
    ensures i < e < |s|
    ensures forall k :: i < k <= e ==> Examine(s, k) == NotAStart
  {
    hide FindEnd, Judge, Spells;
    AcceptsExactlyFrames(s, i, e, body);
    EndIsEndByte(s, Hit(i, e, body));
    FrameInterior(s, Hit(i, e, body));
  }

  lemma EndIsEndByte(s: seq<byte>, h: Hit)
    requires IsFrame(s, h)
    ensures s[h.end] == FRAME_END
  {}

  // ---- recounting ----

  lemma PlusAssociative(a: Counters, b: Counters, c: Counters)
    ensures a.Plus(b).Plus(c) == a.Plus(b.Plus(c))
  {}

  lemma {:induction false} TallySplit(s: seq<byte>, mid: nat, hi: nat)
    requires mid <= hi <= |s|
    ensures Tally(s, 0, hi) == Tally(s, 0, mid).Plus(Tally(s, mid, hi))
    decreases hi
  {
    hide Examine, Count, Counters.Plus;
    PlusZero(Tally(s, 0, mid));
    if mid < hi {
      TallySplit(s, mid, hi - 1);
      PlusAssociative(Tally(s, 0, mid), Tally(s, mid, hi - 1), Count(Examine(s, hi - 1)));
    }
  }

  lemma {:induction false} FindEndShift(s: seq<byte>, c: nat, i: nat)
    requires c + i <= |s|
    ensures match FindEnd(s[c..], i)
            case Found(e) => FindEnd(s, c + i) == Found(c + e)
            case r => FindEnd(s, c + i) == r
    decreases |s| - i
  {
    if c + i < |s| {
      assert s[c..][i] == s[c + i];
      if IsPrefix(s[c + i]) {
        if c + i + 2 <= |s| {
          FindEndShift(s, c, i + 2);
        }
      } else if !IsFlag(s[c + i]) {
        FindEndShift(s, c, i + 1);
      }
    }
  }

  lemma CountShift(s: seq<byte>, c: nat, i: nat)
    requires c + i < |s|
    ensures Count(Examine(s[c..], i)) == Count(Examine(s, c + i))
  {
    hide Judge, FindEnd, CountVerdict;
    FindEndShift(s, c, i + 1);
    match FindEnd(s[c..], i + 1) {
      case Found(e) => assert s[c..][i + 1..e] == s[c + i + 1..c + e];
      case _ =>
    }
  }

  lemma {:induction false} TallyShift(s: seq<byte>, c: nat, n: nat)
    requires c + n <= |s|
    ensures Tally(s, c, c + n) == Tally(s[c..], 0, n)
    decreases n
  {
    hide Examine, Count;
    if n > 0 {
      TallyShift(s, c, n - 1);
      CountShift(s, c, n - 1);
    }
  }

  lemma {:induction false} FindEndExtends(a: seq<byte>, b: seq<byte>, i: nat)
    requires FindEnd(a, i) != Incomplete
    ensures FindEnd(a + b, i) == FindEnd(a, i)
    decreases |a| - i
  {
    if IsPrefix(a[i]) {
      FindEndExtends(a, b, i + 2);
    } else if !IsFlag(a[i]) {
      FindEndExtends(a, b, i + 1);
    }
  }

  /** Before the end of the last frame no candidate is still waiting. */
  lemma SettledOutcome(a: seq<byte>, b: seq<byte>, i: nat)
    requires i < Consumed(a) <= |a|
    ensures Examine(a + b, i) == Examine(a, i)
  {
    hide Judge, Spells, ConsumedTo;
    if a[i] == FRAME_START {
      var h := ConsumedIsFrameEnd(a, |a|);
      AcceptsExactlyFrames(a, h.start, h.end, h.body);
      EndIsEndByte(a, h);
      FrameInterior(a, h);
      assert FindEnd(a, h.start + 1) == Found(h.end);
      if FindEnd(a, i + 1) == Incomplete {
        assert i < h.start;
        WaitingIsFinal(a, i, h.start);
        assert false;
      }
      FindEndExtends(a, b, i + 1);
      match FindEnd(a, i + 1) {
        case Found(e) => assert (a + b)[i + 1..e] == a[i + 1..e];
        case _ =>
      }
    }
  }

  lemma {:induction false} SettledTally(a: seq<byte>, b: seq<byte>, n: nat)
    requires n <= Consumed(a) <= |a|
    ensures Tally(a + b, 0, n) == Tally(a, 0, n)
    decreases n
  {
    hide Examine, Count, ConsumedTo;
    if n > 0 {
      SettledTally(a, b, n - 1);
      SettledOutcome(a, b, n - 1);
    }
  }

  /** Rejected candidates that no frame has flushed out are counted again on the next call: two
      calls count what one call would, plus everything counted in the bytes left over. */
  lemma Recount(a: seq<byte>, b: seq<byte>)
    ensures TallyAll(a).Plus(TallyAll(Leftover(a) + b)) == TallyAll(a + b).Plus(TallyAll(Leftover(a)))
  {
    hide Examine, Count, ConsumedTo, Tally;
    var c := Consumed(a);
    ConsumedBound(a, |a|);
    assert (a + b)[c..] == Leftover(a) + b;
    TallySplit(a + b, c, |a + b|);
    TallyShift(a + b, c, |a + b| - c);
    SettledTally(a, b, c);
    TallySplit(a, c, |a|);
    TallyShift(a, c, |a| - c);
  }

  lemma {:induction false} TallyFrames(s: seq<byte>, hi: nat)
    requires hi <= |s|
    ensures Tally(s, 0, hi).frames == |FramesBefore(s, hi)|
    decreases hi
  {
    hide Examine, FramesBefore;
    if hi > 0 {
      TallyFrames(s, hi - 1);
      Advance(s, hi - 1);
    } else {
      NoneBeforeStart(s);
    }
  }

  lemma NoneBeforeStart(s: seq<byte>)
    ensures FramesBefore(s, 0) == []
  {}

  /** The scan gives up on the candidate at a position, and counts why. */
  predicate Rejects(o: Outcome) {
    || o.Cut?
    || (o.Judged? && (o.verdict.BadEscape? || o.verdict.BadLength? || o.verdict.BadCrc?))
  }

  lemma {:induction false} RejectedIff(s: seq<byte>, n: nat)
    requires n <= |s|
    ensures Tally(s, 0, n).Rejected() == 0 <==> forall i :: 0 <= i < n ==> !Rejects(Examine(s, i))
    decreases n
  {
    hide Examine, Rejects, Count, Counters.Plus, Counters.Rejected;
    if n > 0 {
      RejectedIff(s, n - 1);
      RejectedOnce(Tally(s, 0, n - 1), Examine(s, n - 1));
    } else {
      NothingRejected();
    }
  }

  lemma RejectedOnce(before: Counters, o: Outcome)
    ensures before.Plus(Count(o)).Rejected() == before.Rejected() + if Rejects(o) then 1 else 0
  {}

  lemma NothingRejected()
    ensures ZERO.Rejected() == 0
  {}

  /** The counters do not depend on how a stream is cut in two exactly when the scan rejects no candidate
      in the bytes left over from the first piece. The count of frames never does. */
  lemma CountersInvariantIff(a: seq<byte>, b: seq<byte>)
    ensures TallyAll(a).Plus(TallyAll(Leftover(a) + b)) == TallyAll(a + b) <==>
            forall i :: 0 <= i < |Leftover(a)| ==> !Rejects(Examine(Leftover(a), i))
    ensures TallyAll(a).frames + TallyAll(Leftover(a) + b).frames == TallyAll(a + b).frames
  {
    hide Tally, Frames, Leftover, Rejects, Examine;
    Recount(a, b);
    AllFramesCounted(Leftover(a));
    LeftoverHasNoFrames(a);
    RejectedIff(Leftover(a), |Leftover(a)|);
  }

  /** Two start bytes in a row: the first is a cut-short candidate that stays in the buffer, so whatever
      comes next counts it a second time. */
  lemma CutShortCountedTwice(a: seq<byte>, b: seq<byte>)
    requires a == [FRAME_START, FRAME_START]
    ensures TallyAll(a).Plus(TallyAll(Leftover(a) + b)) != TallyAll(a + b)
  {
    hide TallyAll, Spells;
    if Consumed(a) > 0 {
      var h := ConsumedIsFrameEnd(a, |a|);
      EndIsEndByte(a, h);
    }
    assert Leftover(a) == a;
    assert Examine(a, 0) == Cut;
    hide Leftover;
    CountersInvariantIff(a, b);
  }

  lemma AllFramesCounted(s: seq<byte>)
    ensures TallyAll(s).frames == |Frames(s)|
  {
    hide Hits, Tally;
    TallyFrames(s, |s|);
  }

  lemma LeftoverHasNoFrames(a: seq<byte>)
    ensures Frames(Leftover(a)) == []
  {
    hide Frames, Leftover;
    ParseInTwo(a, []);
    assert a + [] == a && Leftover(a) + [] == Leftover(a);
  }

  // ---- what each counter counts ----

  /** A start byte, and as the first unescaped flag after it an end byte. */
  predicate CandidateAt(s: seq<byte>, i: nat, e: nat) {
    i < e < |s| && s[i] == 0x5E && s[e] == 0x7E && Escaped(s[i + 1..e])
  }

  /** A start byte, and as the first unescaped flag after it another start byte. */
  predicate CutShortAt(s: seq<byte>, i: nat) {
    exists e :: i < e < |s| && s[i] == 0x5E && s[e] == 0x5E && Escaped(s[i + 1..e])
  }

  /** The length that a body states about itself. */
  function StatedLength(body: seq<byte>): nat
    requires |body| >= 36
  {
    256 * ByteNumber(body[33]) + ByteNumber(body[34])
  }

  predicate LengthFits(body: seq<byte>) {
    |body| >= 36 && StatedLength(body) <= 512 && |body| == 37 + StatedLength(body)
  }

  datatype Kind = FrameKind | CrcKind | LengthKind | EscapeKind | CutKind

  /** What the bytes between the two flags of a candidate unstuff to, kind by kind. A body of fewer than 36
      bytes is of none. */
  predicate IsOfKind(kind: Kind, unstuffed: Option<seq<byte>>) {
    match unstuffed
    case None => kind == EscapeKind
    case Some(body) =>
      match kind
      case FrameKind => LengthFits(body) && CrcOk(body)
      case CrcKind => LengthFits(body) && !CrcOk(body)
      case LengthKind => |body| >= 36 && !LengthFits(body)
      case _ => false
  }

  ghost predicate IsAt(kind: Kind, s: seq<byte>, i: nat) {
    || (kind == CutKind && CutShortAt(s, i))
    || (exists e: nat :: CandidateAt(s, i, e) && IsOfKind(kind, Unstuff(s[i + 1..e])))
  }

  function CounterOf(kind: Kind, c: Counters): nat {
    match kind
    case FrameKind => c.frames
    case CrcKind => c.crcFailures
    case LengthKind => c.lengthMismatches
    case EscapeKind => c.badEscapes
    case CutKind => c.truncated
  }

  ghost function Places(kind: Kind, s: seq<byte>, n: nat): set<nat> {
    set i: nat | i < n && IsAt(kind, s, i)
  }

  lemma FitsIsOk(body: seq<byte>)
    ensures LengthFits(body) <==> LengthOk(body)
  {
    hide CrcOk;
    GatesInBytes(body);
  }

  lemma CandidateIsFound(s: seq<byte>, i: nat, e: nat)
    requires i < |s| && s[i] == FRAME_START
    ensures CandidateAt(s, i, e) <==> FindEnd(s, i + 1) == Found(e)
  {
    if i < e < |s| && s[e] == FRAME_END {
      FirstUnescapedFlag(s, i + 1, e);
    }
  }

  /** A position raises the counters of what its bytes say, by one. */
  lemma CountMeans(s: seq<byte>, i: nat, kind: Kind)
    requires i < |s|
    ensures CounterOf(kind, Count(Examine(s, i))) == if IsAt(kind, s, i) then 1 else 0
  {
    hide CandidateAt, Escaped, Unstuff, LengthFits, LengthOk, CrcOk;
    if s[i] != FRAME_START {
      NoStart(s, i);
    } else {
      forall e: nat
        ensures CandidateAt(s, i, e) <==> FindEnd(s, i + 1) == Found(e)
      {
        CandidateIsFound(s, i, e);
      }
      CutMeans(s, i);
      match FindEnd(s, i + 1) {
        case Found(e) =>
          match Unstuff(s[i + 1..e]) {
            case Some(body) =>
              FitsIsOk(body);
              LengthNeedsHeader(body);
            case None =>
          }
        case _ =>
      }
    }
  }

  lemma LengthNeedsHeader(body: seq<byte>)
    ensures LengthOk(body) ==> |body| >= HEADER_LEN
    ensures HEADER_LEN == 36
  {}

  lemma NoStart(s: seq<byte>, i: nat)
    requires i < |s| && s[i] != FRAME_START
    ensures !CutShortAt(s, i) && forall e: nat :: !CandidateAt(s, i, e)
  {}

  lemma CutMeans(s: seq<byte>, i: nat)
    requires i < |s| && s[i] == FRAME_START
    ensures CutShortAt(s, i) <==> FindEnd(s, i + 1) == Truncated
  {
    hide Escaped, FindEnd;
    if FindEnd(s, i + 1) == Truncated {
      var e := CutPlace(s, i + 1);
    }
    if e :| i < e < |s| && s[i] == 0x5E && s[e] == 0x5E && Escaped(s[i + 1..e]) {
      FirstUnescapedFlag(s, i + 1, e);
    }
  }

  /** Each counter is the number of positions of its kind. */
  lemma {:induction false} CountersCount(s: seq<byte>, n: nat, kind: Kind)
    requires n <= |s|
    ensures CounterOf(kind, Tally(s, 0, n)) == |Places(kind, s, n)|
    decreases n
  {
    hide Examine, Count, IsAt, CounterOf, Counters.Plus;
    if n > 0 {
      hide Places;
      CountersCount(s, n - 1, kind);
      CountMeans(s, n - 1, kind);
      CounterAdds(kind, Tally(s, 0, n - 1), Count(Examine(s, n - 1)));
      OneMorePlace(kind, s, n - 1);
    } else {
      assert Places(kind, s, 0) == {};
      NothingCounted(kind);
    }
  }

  lemma OneMorePlace(kind: Kind, s: seq<byte>, n: nat)
    ensures |Places(kind, s, n + 1)| == |Places(kind, s, n)| + if IsAt(kind, s, n) then 1 else 0
  {
    hide IsAt;
    var before := Places(kind, s, n);
    assert Places(kind, s, n + 1) == if IsAt(kind, s, n) then before + {n} else before;
  }

  lemma CounterAdds(kind: Kind, a: Counters, b: Counters)
    ensures CounterOf(kind, a.Plus(b)) == CounterOf(kind, a) + CounterOf(kind, b)
  {}

  lemma NothingCounted(kind: Kind)
    ensures CounterOf(kind, ZERO) == 0
  {}
}
