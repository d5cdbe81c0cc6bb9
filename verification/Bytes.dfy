/** Bytes, big-endian 16-bit words and text, as the protocol stores them. */
module Bytes {
  type byte = bv8
  type word = bv16

  /** A Python string: one code point per element. ASCII and U+FFFD are all that occur. */
  type Text = seq<word>

  function High(w: word): byte {
    (w >> 8) as byte
  }

  function Low(w: word): byte {
    (w & 0xFF) as byte
  }

  function Word(hi: byte, lo: byte): word {
    ((hi as word) << 8) | (lo as word)
  }

  /** Big-endian packing, `struct.pack(">H", w)`. */
  function Pack(w: word): (s: seq<byte>)
    ensures |s| == 2
  {
    [High(w), Low(w)]
  }

  /** Big-endian unpacking, `struct.unpack_from(">H", s, at)`. */
  function WordAt(s: seq<byte>, at: nat): word
    requires at + 1 < |s|
  {
    Word(s[at], s[at + 1])
  }

  lemma PackUnpack(w: word)
    ensures Word(High(w), Low(w)) == w
  {}

  lemma UnpackPack(hi: byte, lo: byte)
    ensures High(Word(hi, lo)) == hi && Low(Word(hi, lo)) == lo
  {}

  // ---- numbers in bytes and words ----

  function NumberOf(w: word): nat {
    w as nat
  }

  function ToWord(n: nat): word
    requires n < 0x1_0000
  {
    n as word
  }

  function ByteNumber(b: byte): nat {
    b as nat
  }

  function ToByte(n: nat): byte
    requires n < 0x100
  {
    n as byte
  }

  lemma WordOfItsNumber(w: word)
    ensures NumberOf(w) < 0x1_0000 && ToWord(NumberOf(w)) == w
  {}

  lemma ByteOfItsNumber(b: byte)
    ensures ByteNumber(b) < 0x100 && ToByte(ByteNumber(b)) == b
  {}

  lemma ByteSuccessor(b: byte)
    requires ByteNumber(b) < 255
    ensures ByteNumber(b + 1) == ByteNumber(b) + 1
  {}

  lemma {:induction false} ByteHoldsNumber(n: nat)
    requires n < 0x100
    ensures ByteNumber(ToByte(n)) == n
  {
    hide ByteNumber, ToByte;
    if n == 0 {
      ZeroNumber();
    } else {
      ByteHoldsNumber(n - 1);
      ByteSuccessor(ToByte(n - 1));
      ByteOfItsNumber(ToByte(n - 1) + 1);
    }
  }

  lemma ZeroNumber()
    ensures ByteNumber(ToByte(0)) == 0
  {}

  function Top(w: word): word {
    w >> 8
  }

  function Bottom(w: word): word {
    w & 0xFF
  }

  function Widen(b: byte): word {
    b as word
  }

  lemma SplitNumber(w: word)
    ensures NumberOf(w) == 256 * NumberOf(Top(w)) + NumberOf(Bottom(w))
  {}

  lemma WidenNumber(b: byte)
    ensures NumberOf(Widen(b)) == ByteNumber(b)
  {}

  lemma WordParts(hi: byte, lo: byte)
    ensures Top(Word(hi, lo)) == Widen(hi) && Bottom(Word(hi, lo)) == Widen(lo)
  {}

  /** A big-endian pair of bytes is the number its digits say. */
  lemma PairNumber(hi: byte, lo: byte)
    ensures NumberOf(Word(hi, lo)) == 256 * ByteNumber(hi) + ByteNumber(lo)
  {
    hide NumberOf, ByteNumber, Top, Bottom, Widen, Word;
    SplitNumber(Word(hi, lo));
    WordParts(hi, lo);
    WidenNumber(hi);
    WidenNumber(lo);
  }

  /** A number below 65536 survives its trip through a 16-bit field. */
  lemma WordHoldsNumber(n: nat)
    requires n < 0x1_0000
    ensures NumberOf(ToWord(n)) == n
  {
    hide NumberOf, ByteNumber, ToByte, ToWord, Word;
    var hi, lo := ToByte(n / 256), ToByte(n % 256);
    ByteHoldsNumber(n / 256);
    ByteHoldsNumber(n % 256);
    PairNumber(hi, lo);
    WordOfItsNumber(Word(hi, lo));
  }

  /** Pointwise exclusive or of two equally long byte strings. */
  function Xor(a: seq<byte>, b: seq<byte>): (c: seq<byte>)
    requires |a| == |b|
    ensures |c| == |a|
    ensures forall i :: 0 <= i < |a| ==> c[i] == a[i] ^ b[i]
  {
    seq(|a|, i requires 0 <= i < |a| => a[i] ^ b[i])
  }

  /** What one byte becomes under the "replace" error handler. */
  function CodePoint(b: byte): word {
    if b < 0x80 then b as word else 0xFFFD
  }

  function AsciiByte(c: word): byte
    requires c < 0x80
  {
    c as byte
  }

  /** Python's `.decode("ascii", "replace")`. */
  function DecodeAscii(s: seq<byte>): (t: Text)
    ensures |t| == |s|
    ensures forall i :: 0 <= i < |s| ==> t[i] == CodePoint(s[i])
  {
    seq(|s|, i requires 0 <= i < |s| => CodePoint(s[i]))
  }

  /** Bytes below 128 stand for themselves, all others for U+FFFD, byte by byte. */
  lemma DecodedByte(s: seq<byte>, i: nat)
    requires i < |s|
    ensures ByteNumber(s[i]) < 128 ==> NumberOf(DecodeAscii(s)[i]) == ByteNumber(s[i])
    ensures ByteNumber(s[i]) >= 128 ==> DecodeAscii(s)[i] == 0xFFFD
  {
    AsciiOrNot(s[i]);
  }

  lemma AsciiOrNot(b: byte)
    ensures ByteNumber(b) < 128 ==> NumberOf(CodePoint(b)) == ByteNumber(b)
    ensures ByteNumber(b) >= 128 ==> CodePoint(b) == 0xFFFD
  {}

  predicate IsAscii(t: Text) {
    forall i :: 0 <= i < |t| ==> t[i] < 0x80
  }

  /** Python's `.encode("ascii")` on text that allows it. */
  function EncodeAscii(t: Text): (s: seq<byte>)
    requires IsAscii(t)
    ensures |s| == |t|
    ensures forall i :: 0 <= i < |t| ==> s[i] == AsciiByte(t[i])
  {
    seq(|t|, i requires 0 <= i < |t| => AsciiByte(t[i]))
  }

  lemma CodePointRoundTrip(c: word)
    requires c < 0x80
    ensures CodePoint(AsciiByte(c)) == c
  {}

  lemma AsciiRoundTrip(t: Text)
    requires IsAscii(t)
    ensures DecodeAscii(EncodeAscii(t)) == t
  {
    forall i | 0 <= i < |t|
      ensures DecodeAscii(EncodeAscii(t))[i] == t[i]
    {
      CodePointRoundTrip(t[i]);
    }
  }

  predicate OccursAt(needle: Text, hay: Text, at: nat) {
    at + |needle| <= |hay| && hay[at..at + |needle|] == needle
  }

  /** Python's `needle in hay` on strings. */
  predicate Occurs(needle: Text, hay: Text) {
    exists at: nat :: at <= |hay| && OccursAt(needle, hay, at)
  }

  lemma OccursAmid(before: Text, needle: Text, after: Text)
    ensures Occurs(needle, before + needle + after)
  {
    assert OccursAt(needle, before + needle + after, |before|);
  }

  lemma OccursSplits(needle: Text, hay: Text) returns (before: Text, after: Text)
    requires Occurs(needle, hay)
    ensures hay == before + needle + after
  {
    var at: nat :| at <= |hay| && OccursAt(needle, hay, at);
    before, after := hay[..at], hay[at + |needle|..];
  }

  /** A string occurs in another exactly if the other is some text, the string, and some text. */
  lemma OccursIff(needle: Text, hay: Text)
    ensures Occurs(needle, hay) <==> exists before, after :: hay == before + needle + after
  {
    hide Occurs;
    if Occurs(needle, hay) {
      var before, after := OccursSplits(needle, hay);
    }
    if before, after :| hay == before + needle + after {
      OccursAmid(before, needle, after);
    }
  }
}
