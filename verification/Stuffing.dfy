/** The byte stuffing between the frame delimiters: two flags, two escape prefixes. */
module Stuffing {
  import opened Bytes
  import opened Wrappers

  const FRAME_START: byte := 0x5E
  const FRAME_END: byte := 0x7E
  const ESCAPE_LITERAL: byte := 0x02
  const ESCAPE_FLAG: byte := 0x01

  predicate IsPrefix(b: byte) {
    b == 0x5D || b == 0x7D
  }

  predicate IsFlag(b: byte) {
    b == FRAME_START || b == FRAME_END
  }

  /** No frame delimiter occurs anywhere. */
  predicate FlagFree(s: seq<byte>) {
    forall i :: 0 <= i < |s| ==> !IsFlag(s[i])
  }

  // ---- the two directions as functions ----

  /** The wire form of one byte: the table `_STUFF`, or the byte itself. */
  function Escape(b: byte): (s: seq<byte>)
    ensures 1 <= |s| <= 2 && FlagFree(s)
  {
    if b == FRAME_END then [FRAME_END - 1, ESCAPE_FLAG]
    else if b == FRAME_START then [FRAME_START - 1, ESCAPE_FLAG]
    else if IsPrefix(b) then [b, ESCAPE_LITERAL]
    else [b]
  }

  function Stuff(data: seq<byte>): seq<byte> {
    if data == [] then [] else Escape(data[0]) + Stuff(data[1..])
  }

  /** The first byte a wire string stands for, with the number of wire bytes it takes. */
  function Unescape(raw: seq<byte>): (r: Option<(byte, nat)>)
    requires raw != []
    ensures r.Some? ==> 1 <= r.value.1 <= |raw|
  {
    if !IsPrefix(raw[0]) then Some((raw[0], 1))
    else if |raw| < 2 then None
    else if raw[1] == ESCAPE_FLAG then Some((raw[0] + 1, 2))
    else if raw[1] == ESCAPE_LITERAL then Some((raw[0], 2))
    else None
  }

  function Unstuff(raw: seq<byte>): Option<seq<byte>>
    decreases |raw|
  {
    if raw == [] then Some([])
    else
      match Unescape(raw)
      case None => None
      case Some((b, n)) =>
        match Unstuff(raw[n..])
        case None => None
        case Some(rest) => Some([b] + rest)
  }

  // ---- the source's loops ----

  predicate NeedsEscape(b: byte) {
    IsFlag(b) || IsPrefix(b)
  }

  lemma {:induction false} StuffPlain(data: seq<byte>)
    requires forall i :: 0 <= i < |data| ==> !NeedsEscape(data[i])
    ensures Stuff(data) == data
  {
    if data != [] {
      StuffPlain(data[1..]);
    }
  }

  lemma {:induction false} StuffAppend(a: seq<byte>, b: seq<byte>)
    ensures Stuff(a + b) == Stuff(a) + Stuff(b)
  {
    if a == [] {
      assert a + b == b;
    } else {
      assert (a + b)[1..] == a[1..] + b;
      StuffAppend(a[1..], b);
    }
  }

  /** `stuff`: the early return when nothing needs escaping, then the loop. */
  method StuffBytes(data: seq<byte>) returns (out: seq<byte>)
    ensures out == Stuff(data)
  {
    if forall i :: 0 <= i < |data| ==> !NeedsEscape(data[i]) {
      StuffPlain(data);
      return data;
    }
    out := [];
    for i := 0 to |data|
      invariant out == Stuff(data[..i])
    {
      assert data[..i + 1] == data[..i] + [data[i]];
      StuffAppend(data[..i], [data[i]]);
      if !NeedsEscape(data[i]) {
        out := out + [data[i]];
      } else {
        out := out + Escape(data[i]);
      }
    }
    assert data[..|data|] == data;
  }

  lemma {:induction false} UnstuffPlain(raw: seq<byte>)
    requires forall i :: 0 <= i < |raw| ==> !IsPrefix(raw[i])
    ensures Unstuff(raw) == Some(raw)
  {
    if raw != [] {
      UnstuffPlain(raw[1..]);
      assert [raw[0]] + raw[1..] == raw;
    }
  }

  /** What `Unstuff` yields once `done` has been recovered from the part already read. */
  function Resumed(done: seq<byte>, rest: seq<byte>): Option<seq<byte>> {
    match Unstuff(rest)
    case None => None
    case Some(d) => Some(done + d)
  }

  lemma ResumeAll(raw: seq<byte>)
    ensures Resumed([], raw[0..]) == Unstuff(raw)
  {
    assert raw[0..] == raw;
    if Unstuff(raw).Some? {
      assert [] + Unstuff(raw).value == Unstuff(raw).value;
    }
  }

  lemma ResumeNext(done: seq<byte>, rest: seq<byte>)
    requires rest != [] && Unescape(rest).Some?
    ensures var (b, n) := Unescape(rest).value;
            Resumed(done + [b], rest[n..]) == Resumed(done, rest)
  {
    var (b, n) := Unescape(rest).value;
    if Unstuff(rest[n..]).Some? {
      var d := Unstuff(rest[n..]).value;
      assert (done + [b]) + d == done + ([b] + d);
    }
  }

  /** `_unstuff`: the early return when no prefix occurs, then the loop. */
  method UnstuffBytes(raw: seq<byte>) returns (r: Option<seq<byte>>)
    ensures r == Unstuff(raw)
  {
    if forall i :: 0 <= i < |raw| ==> !IsPrefix(raw[i]) {
      UnstuffPlain(raw);
      return Some(raw);
    }
    var out := [];
    var i := 0;
    ResumeAll(raw);
    while i < |raw|
      invariant 0 <= i <= |raw|
      invariant Resumed(out, raw[i..]) == Unstuff(raw)
    {
      var b := raw[i];
      ghost var rest := raw[i..];
      assert rest[1..] == raw[i + 1..];
      if !IsPrefix(b) {
        ResumeNext(out, rest);
        out := out + [b];
        i := i + 1;
        continue;
      }
      if i + 1 >= |raw| {
        return None;
      }
      assert rest[2..] == raw[i + 2..];
      var code := raw[i + 1];
      if code == ESCAPE_FLAG {
        ResumeNext(out, rest);
        out := out + [b + 1];
      } else if code == ESCAPE_LITERAL {
        ResumeNext(out, rest);
        out := out + [b];
      } else {
        return None;
      }
      i := i + 2;
    }
    assert out + [] == out;
    r := Some(out);
  }

  // ---- stuffing is a canonical bijection ----

  /** One escaped byte in front of anything is read back and leaves the rest. */
  lemma UnescapeEscape(b: byte, rest: seq<byte>)
    ensures Unescape(Escape(b) + rest) == Some((b, |Escape(b)|))
    ensures (Escape(b) + rest)[|Escape(b)|..] == rest
  {}

  /** Decoding undoes encoding, for every byte string. */
  lemma {:induction false} UnstuffStuff(data: seq<byte>)
    ensures Unstuff(Stuff(data)) == Some(data)
  {
    if data != [] {
      UnescapeEscape(data[0], Stuff(data[1..]));
      UnstuffStuff(data[1..]);
      assert [data[0]] + data[1..] == data;
    }
  }

  lemma {:induction false} StuffFlagFree(data: seq<byte>)
    ensures FlagFree(Stuff(data))
    ensures |data| <= |Stuff(data)| <= 2 * |data|
  {
    if data != [] {
      StuffFlagFree(data[1..]);
    }
  }

  lemma EscapeUnescape(raw: seq<byte>)
    requires raw != [] && FlagFree(raw) && Unescape(raw).Some?
    ensures var (b, n) := Unescape(raw).value;
            Escape(b) == raw[..n]
  {}

  lemma {:induction false} StuffUnstuffFlagFree(raw: seq<byte>)
    requires FlagFree(raw) && Unstuff(raw).Some?
    ensures Stuff(Unstuff(raw).value) == raw
    decreases |raw|
  {
    hide Escape, Unescape, IsFlag;
    if raw != [] {
      var (b, n) := Unescape(raw).value;
      EscapeUnescape(raw);
      var rest := Unstuff(raw[n..]).value;
      StuffUnstuffFlagFree(raw[n..]);
      assert ([b] + rest)[1..] == rest;
      assert raw == raw[..n] + raw[n..];
    }
  }

  /** A wire string that decodes at all is the one wire form of what it decodes to exactly when
      no delimiter occurs in it. */
  lemma StuffUnstuff(raw: seq<byte>)
    requires Unstuff(raw).Some?
    ensures Stuff(Unstuff(raw).value) == raw <==> FlagFree(raw)
  {
    if FlagFree(raw) {
      StuffUnstuffFlagFree(raw);
    }
    StuffFlagFree(Unstuff(raw).value);
  }

  // ---- the wire table, in bytes ----

  /** The wire form of one byte: the two flags and the two prefixes take two bytes each. */
  lemma WireTable(b: byte)
    ensures Stuff([b]) ==
            if b == 0x7E then [0x7D, 0x01]
            else if b == 0x5E then [0x5D, 0x01]
            else if b == 0x7D then [0x7D, 0x02]
            else if b == 0x5D then [0x5D, 0x02]
            else [b]
  {
    assert [b][1..] == [] && Escape(b) + [] == Escape(b);
  }

  /** The same at any place of a body, in both directions. */
  lemma WireTableInPlace(a: seq<byte>, b: byte, c: seq<byte>)
    ensures Stuff(a + [b] + c) == Stuff(a) + Stuff([b]) + Stuff(c)
    ensures Unstuff(Stuff(a) + Stuff([b]) + Stuff(c)) == Some(a + [b] + c)
  {
    StuffAppend(a + [b], c);
    StuffAppend(a, [b]);
    UnstuffStuff(a + [b] + c);
  }

  /** Reading wire bytes from the left: a prefix needs a code after it, and only 01 and 02 are codes. */
  lemma UnstuffTable(raw: seq<byte>)
    ensures Unstuff([]) == Some([])
    ensures raw != [] ==>
              Unstuff(raw) ==
              if raw[0] != 0x5D && raw[0] != 0x7D then Resumed([raw[0]], raw[1..])
              else if |raw| == 1 || (raw[1] != 0x01 && raw[1] != 0x02) then None
              else if raw[1] == 0x02 then Resumed([raw[0]], raw[2..])
              else Resumed([if raw[0] == 0x5D then 0x5E else 0x7E], raw[2..])
  {}

  /** Different bodies never share a wire form. */
  lemma StuffInjective(a: seq<byte>, b: seq<byte>)
    requires Stuff(a) == Stuff(b)
    ensures a == b
  {
    UnstuffStuff(a);
    UnstuffStuff(b);
  }
}
