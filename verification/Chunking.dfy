/** A stream may be cut into notifications anywhere: the frames found and the bytes left over are
    those of the whole stream. */
module Chunking {
  import opened Bytes
  import opened Wrappers
  import opened Framing

  lemma {:induction false} HitsSplit(s: seq<byte>, lo: nat, mid: nat, hi: nat)
    requires lo <= mid <= hi
    ensures Hits(s, lo, hi) == Hits(s, lo, mid) + Hits(s, mid, hi)
    decreases hi
  {
    hide IsFrame;
    if mid < hi {
      HitsSplit(s, lo, mid, hi - 1);
    }
  }

  lemma {:induction false} HitsAgree(s: seq<byte>, t: seq<byte>, lo: nat, hi: nat)
    requires forall i :: lo <= i < hi ==> HitAt(s, i) == HitAt(t, i)
    ensures Hits(s, lo, hi) == Hits(t, lo, hi)
    decreases hi
  {
    hide IsFrame;
    if lo < hi {
      HitsAgree(s, t, lo, hi - 1);
    }
  }

  lemma {:induction false} NoHits(s: seq<byte>, lo: nat, hi: nat)
    requires forall i :: lo <= i < hi ==> HitAt(s, i).None?
    ensures Hits(s, lo, hi) == []
    decreases hi
  {
    hide IsFrame;
    if lo < hi {
      NoHits(s, lo, hi - 1);
    }
  }

  // ---- the consumed prefix ----

  lemma {:induction false} NothingAfterConsumed(s: seq<byte>, hi: nat, i: nat)
    requires ConsumedTo(s, hi) <= i < hi
    ensures HitAt(s, i).None?
    decreases hi
  {
    hide Spells;
    if i < hi - 1 {
      NothingAfterConsumed(s, hi - 1, i);
    }
  }

  lemma {:induction false} ConsumedIsFrameEnd(s: seq<byte>, hi: nat) returns (h: Hit)
    requires ConsumedTo(s, hi) > 0
    ensures IsFrame(s, h) && h.start < hi && h.end + 1 == ConsumedTo(s, hi)
    decreases hi
  {
    hide Spells;
    match HitAt(s, hi - 1)
    case Some(g) => h := g;
    case None => h := ConsumedIsFrameEnd(s, hi - 1);
  }

  /** A longer look does not change what was consumed, if nothing new was found. */
  lemma {:induction false} ConsumedStays(s: seq<byte>, lo: nat, hi: nat)
    requires lo <= hi && forall i :: lo <= i < hi ==> HitAt(s, i).None?
    ensures ConsumedTo(s, hi) == ConsumedTo(s, lo)
    decreases hi
  {
    hide IsFrame;
    if lo < hi {
      ConsumedStays(s, lo, hi - 1);
    }
  }

  lemma {:induction false} ConsumedAgrees(s: seq<byte>, t: seq<byte>, hi: nat)
    requires forall i :: 0 <= i < hi ==> HitAt(s, i) == HitAt(t, i)
    ensures ConsumedTo(s, hi) == ConsumedTo(t, hi)
    decreases hi
  {
    hide IsFrame;
    if 0 < hi {
      ConsumedAgrees(s, t, hi - 1);
    }
  }

  /** Before the end of the last frame, more data changes nothing. */
  lemma PrefixIsSettled(a: seq<byte>, b: seq<byte>, i: nat)
    requires i < Consumed(a)
    ensures HitAt(a + b, i) == HitAt(a, i)
  {
    hide Spells;
    ConsumedBound(a, |a|);
    var last := ConsumedIsFrameEnd(a, |a|);
    FrameExtends(a, b, last);
    if HitAt(a + b, i).Some? {
      var h := HitAt(a + b, i).value;
      FramesDisjoint(a + b, h, last);
      FramesDisjoint(a + b, last, h);
      FrameExtends(a, b, h);
      HitAtFrame(a, h);
    }
    if HitAt(a, i).Some? {
      FrameExtends(a, b, HitAt(a, i).value);
    }
  }

  // ---- shifting ----

  function Shift(h: Hit, c: nat): Hit {
    h.(start := h.start + c, end := h.end + c)
  }

  function ShiftAll(hits: seq<Hit>, c: nat): (r: seq<Hit>)
    ensures |r| == |hits|
  {
    seq(|hits|, k requires 0 <= k < |hits| => Shift(hits[k], c))
  }

  lemma HitAtShift(s: seq<byte>, c: nat, i: nat)
    requires c <= |s|
    ensures match HitAt(s[c..], i)
            case Some(h) => HitAt(s, c + i) == Some(Shift(h, c))
            case None => HitAt(s, c + i).None?
  {
    hide Spells;
    match HitAt(s[c..], i)
    case Some(h) =>
      FrameShift(s, c, h);
      HitAtFrame(s, Shift(h, c));
    case None =>
      if HitAt(s, c + i).Some? {
        var g := HitAt(s, c + i).value;
        FrameShift(s, c, Hit(g.start - c, g.end - c, g.body));
      }
  }

  lemma {:induction false} HitsShift(s: seq<byte>, c: nat, n: nat)
    requires c <= |s|
    ensures Hits(s, c, c + n) == ShiftAll(Hits(s[c..], 0, n), c)
    decreases n
  {
    hide IsFrame;
    if n > 0 {
      HitsShift(s, c, n - 1);
      HitAtShift(s, c, n - 1);
    }
  }

  lemma {:induction false} ConsumedShift(s: seq<byte>, c: nat, n: nat)
    requires c <= |s|
    ensures ConsumedTo(s, c + n) ==
            if ConsumedTo(s[c..], n) == 0 then ConsumedTo(s, c) else c + ConsumedTo(s[c..], n)
    decreases n
  {
    hide IsFrame;
    if n > 0 {
      ConsumedShift(s, c, n - 1);
      HitAtShift(s, c, n - 1);
    }
  }

  // ---- two pieces ----

  /** The consumed prefix holds the frames of a, and goes on holding just those. */
  lemma SettledPrefix(a: seq<byte>, b: seq<byte>)
    ensures Hits(a + b, 0, Consumed(a)) == Hits(a, 0, |a|)
    ensures ConsumedTo(a + b, Consumed(a)) == Consumed(a) <= |a|
  {
    hide IsFrame, Hits, ConsumedTo, HitAt;
    var c := Consumed(a);
    ConsumedBound(a, |a|);
    forall i | 0 <= i < c
      ensures HitAt(a + b, i) == HitAt(a, i)
    {
      PrefixIsSettled(a, b, i);
    }
    forall i | c <= i < |a|
      ensures HitAt(a, i).None?
    {
      NothingAfterConsumed(a, |a|, i);
    }
    HitsAgree(a + b, a, 0, c);
    HitsSplit(a, 0, c, |a|);
    NoHits(a, c, |a|);
    ConsumedAgrees(a + b, a, c);
    ConsumedStays(a, c, |a|);
  }

  lemma TwoPieces(a: seq<byte>, b: seq<byte>)
    ensures Hits(a + b, 0, |a + b|) ==
            Hits(a, 0, |a|) + ShiftAll(Hits(Leftover(a) + b, 0, |Leftover(a) + b|), Consumed(a))
    ensures Consumed(a + b) == Consumed(a) + Consumed(Leftover(a) + b)
  {
    hide IsFrame, Hits, ConsumedTo, HitAt, ShiftAll;
    SettledPrefix(a, b);
    var s, c, n := a + b, Consumed(a), |a + b| - Consumed(a);
    assert s[c..] == Leftover(a) + b;
    HitsSplit(s, 0, c, c + n);
    HitsShift(s, c, n);
    ConsumedShift(s, c, n);
  }

  /** Parsing a and then what it left followed by b is parsing a followed by b at once. */
  lemma ParseInTwo(a: seq<byte>, b: seq<byte>)
    ensures Frames(a + b) == Frames(a) + Frames(Leftover(a) + b)
    ensures Leftover(a + b) == Leftover(Leftover(a) + b)
  {
    hide IsFrame, Hits, ConsumedTo, HitAt;
    var rest := Leftover(a) + b;
    TwoPieces(a, b);
    ConsumedBound(a, |a|);
    ConsumedBound(rest, |rest|);
    assert (a + b)[Consumed(a)..] == rest;
  }

  // ---- any number of pieces ----

  function Concat(chunks: seq<seq<byte>>): seq<byte> {
    if chunks == [] then [] else Concat(chunks[..|chunks| - 1]) + chunks[|chunks| - 1]
  }

  datatype Session = Session(frames: seq<Frame>, buffer: seq<byte>)

  /** A receiver that appends each chunk to its buffer and takes out the frames found so far. */
  ghost function Receive(chunks: seq<seq<byte>>): Session {
    if chunks == [] then Session([], [])
    else
      var before := Receive(chunks[..|chunks| - 1]);
      var data := before.buffer + chunks[|chunks| - 1];
      Session(before.frames + Frames(data), Leftover(data))
  }

  /** However a stream is cut, the receiver ends with the frames and leftover of the whole. */
  lemma {:induction false} ChunkInvariance(chunks: seq<seq<byte>>)
    ensures Receive(chunks) == Session(Frames(Concat(chunks)), Leftover(Concat(chunks)))
  {
    hide Frames, Leftover;
    if chunks == [] {
      NoFramesInNothing();
    } else {
      var n := |chunks| - 1;
      ChunkInvariance(chunks[..n]);
      ParseInTwo(Concat(chunks[..n]), chunks[n]);
    }
  }

  lemma NoFramesInNothing()
    ensures Frames([]) == [] && Leftover([]) == []
  {}
}
