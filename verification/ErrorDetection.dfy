/** Which damage to an accepted body the gates are bound to reject. */
module ErrorDetection {
  import opened Bytes
  import opened Framing
  import opened Crc16

  // ---- an odd number of flipped bits ----

  lemma WordHalves(w: word)
    ensures w == Plus(Widen(Low(w)), w & 0xFF00)
    ensures Down(w & 0xFF00, 8) == Widen(High(w))
  {}

  lemma LowHalfClear(w: word)
    ensures SetBits(w & 0xFF00, 8) == 0
  {}

  lemma OddTopHalf(w: word)
    ensures Odd(w & 0xFF00) <==> Ones(High(w)) % 2 == 1
  {
    hide LowBit, Half, SetBits, Widen, High, Down;
    WordHalves(w);
    LowHalfClear(w);
    SetBitsSplit(w & 0xFF00, 8, 8);
  }

  lemma ParityOfSum(x: nat, y: nat)
    ensures (x + y) % 2 == 1 <==> ((x % 2 == 1) != (y % 2 == 1))
  {}

  /** The stored checksum's two bytes carry the register's parity. */
  lemma PackParity(w: word)
    ensures Odd(w) <==> (Ones(High(w)) + Ones(Low(w))) % 2 == 1
  {
    hide Plus, Odd, Ones, Widen, High, Low, Down;
    WordHalves(w);
    OddTopHalf(w);
    OddLinear(Widen(Low(w)), w & 0xFF00);
    OnesParity(Low(w));
    ParityOfSum(Ones(High(w)), Ones(Low(w)));
  }

  lemma {:induction false} WeightAppend(a: seq<byte>, b: seq<byte>)
    ensures Weight(a + b) == Weight(a) + Weight(b)
    decreases |b|
  {
    hide Ones;
    if b == [] {
      assert a + b == a;
    } else {
      var n := |b| - 1;
      assert (a + b)[..|a + b| - 1] == a + b[..n];
      WeightAppend(a, b[..n]);
    }
  }

  lemma WeightOfPair(x: byte, y: byte)
    ensures Weight([x, y]) == Ones(x) + Ones(y)
  {
    hide Ones;
    assert [x, y][..1] == [x] && [x][..0] == [];
    assert Weight([x]) == Ones(x);
  }

  /** Every accepted body, checksum included, holds an even number of one bits. */
  lemma AcceptedIsEven(body: seq<byte>)
    requires ValidBody(body)
    ensures Weight(body) % 2 == 0
  {
    hide Weight, Ones, Odd, Crc, High, Low, Word;
    var n := |body| - 2;
    var crc := WordAt(body, n);
    CrcParity(body[..n]);
    PackParity(crc);
    UnpackPack(body[n], body[n + 1]);
    WeightOfPair(body[n], body[n + 1]);
    WeightAppend(body[..n], [body[n], body[n + 1]]);
    assert body == body[..n] + [body[n], body[n + 1]];
  }

  lemma OnesOfXor(x: byte, y: byte)
    ensures Ones(x ^ y) % 2 == 1 <==> ((Ones(x) % 2 == 1) != (Ones(y) % 2 == 1))
  {
    hide Ones, Odd, Plus, Widen;
    WidenLinear(x, y);
    OddLinear(Widen(x), Widen(y));
    OnesParity(x);
    OnesParity(y);
    OnesParity(x ^ y);
  }

  lemma {:induction false} WeightOfXor(a: seq<byte>, b: seq<byte>)
    requires |a| == |b|
    ensures Weight(Xor(a, b)) % 2 == 1 <==> ((Weight(a) % 2 == 1) != (Weight(b) % 2 == 1))
    decreases |a|
  {
    hide Ones, Weight;
    if a == [] {
      NoWeight();
      assert Xor(a, b) == [] && b == [];
    } else {
      var n := |a| - 1;
      XorFront(a, b);
      WeightOfXor(a[..n], b[..n]);
      OnesOfXor(a[n], b[n]);
      WeightParity(a);
      WeightParity(b);
      WeightParity(Xor(a, b));
    }
  }

  lemma NoWeight()
    ensures Weight([]) == 0
  {}

  lemma XorFront(a: seq<byte>, b: seq<byte>)
    requires |a| == |b| > 0
    ensures var n := |a| - 1; Xor(a, b)[..n] == Xor(a[..n], b[..n]) && Xor(a, b)[n] == a[n] ^ b[n]
  {}

  lemma WeightParity(data: seq<byte>)
    requires data != []
    ensures var n := |data| - 1;
            Weight(data) % 2 == 1 <==> ((Weight(data[..n]) % 2 == 1) != (Ones(data[n]) % 2 == 1))
  {
    hide Ones;
    ParityOfSum(Weight(data[..|data| - 1]), Ones(data[|data| - 1]));
  }

  /** Flipping any odd number of bits, anywhere, makes an accepted body unacceptable. */
  lemma OddFlipsRejected(a: seq<byte>, b: seq<byte>)
    requires ValidBody(a) && |a| == |b|
    requires Weight(Xor(a, b)) % 2 == 1
    ensures !ValidBody(b)
  {
    hide Weight, ValidBody;
    if ValidBody(b) {
      AcceptedIsEven(a);
      AcceptedIsEven(b);
      WeightOfXor(a, b);
    }
  }

  // ---- damage confined to two adjacent bytes ----

  lemma StoredCrcKept(a: seq<byte>, b: seq<byte>, k: nat)
    requires AgreeOutsidePair(a, b, k) && k + 3 < |a|
    ensures WordAt(a, |a| - 2) == WordAt(b, |b| - 2)
    ensures AgreeOutsidePair(a[..|a| - 2], b[..|b| - 2], k)
    ensures a[..|a| - 2] == b[..|b| - 2] ==> a == b
  {
    hide Word;
    var n := |a| - 2;
    assert a[n] == b[n] && a[n + 1] == b[n + 1];
    assert a == a[..n] + [a[n], a[n + 1]] && b == b[..n] + [b[n], b[n + 1]];
  }

  lemma StoredCrcDiffers(a: seq<byte>, b: seq<byte>)
    requires |a| == |b| >= 2 && a[..|a| - 2] == b[..|b| - 2] && a != b
    ensures WordAt(a, |a| - 2) != WordAt(b, |b| - 2)
  {
    hide Word;
    var n := |a| - 2;
    UnpackPack(a[n], a[n + 1]);
    UnpackPack(b[n], b[n + 1]);
    assert a == a[..n] + [a[n], a[n + 1]] && b == b[..n] + [b[n], b[n + 1]];
  }

  /** Damage inside two adjacent bytes that are both checksummed or both the stored checksum. */
  lemma AlignedDamageRejected(a: seq<byte>, b: seq<byte>, k: nat)
    requires ValidBody(a) && AgreeOutsidePair(a, b, k) && a != b
    requires k != |a| - 3
    ensures !ValidBody(b)
  {
    hide Crc, WordAt, LengthOk;
    var n := |a| - 2;
    if k + 3 < |a| {
      StoredCrcKept(a, b, k);
      BurstChangesCrc(a[..n], b[..n], k);
    } else {
      assert a[..n] == b[..n];
      StoredCrcDiffers(a, b);
    }
  }

  /** Any burst of up to sixteen bits in the checksummed part, at whatever bit it begins, is rejected. */
  lemma BitBurstRejected(a: seq<byte>, b: seq<byte>, k: nat, lo: byte)
    requires ValidBody(a) && AgreeOutsideBurst(a, b, k, lo) && a != b
    requires k + 4 < |a|
    ensures !ValidBody(b)
  {
    hide Crc, Word, LengthOk, LowBits;
    var n := |a| - 2;
    assert a[n] == b[n] && a[n + 1] == b[n + 1];
    assert a == a[..n] + [a[n], a[n + 1]] && b == b[..n] + [b[n], b[n + 1]];
    BitBurstChangesCrc(a[..n], b[..n], k, lo);
  }

  /** Without a payload the last checksummed byte belongs to the length field. */
  lemma EmptyPayloadDamageRejected(a: seq<byte>, b: seq<byte>)
    requires ValidBody(a) && AgreeOutsidePair(a, b, |a| - 3) && a != b
    requires |a| == PAYLOAD_AT + 2
    ensures !ValidBody(b)
  {
    hide Crc, Word;
    if a[34] != b[34] {
      UnpackPack(a[33], a[34]);
      UnpackPack(b[33], b[34]);
      WordOfItsNumber(WordAt(a, 33));
      WordOfItsNumber(WordAt(b, 33));
    } else {
      assert a[..35] == b[..35];
      StoredCrcDiffers(a, b);
    }
  }

  /** The last checksummed byte and both checksum bytes, damaged together. */
  function Skew(a: seq<byte>, x: byte, y: byte, z: byte): (b: seq<byte>)
    requires |a| >= 3
    ensures |b| == |a|
  {
    var n := |a| - 3;
    a[n := a[n] ^ x][n + 1 := a[n + 1] ^ y][n + 2 := a[n + 2] ^ z]
  }

  lemma FlipAbsorbed(r: word, b: byte, x: byte)
    ensures Absorb(r, b ^ x) == Plus(Absorb(r, b), Absorb(0, x))
  {
    hide Plus, Steps, Widen;
    PlusNothing(r);
    AbsorbLinear(r, 0, b, x);
  }

  lemma WordFlips(hi: byte, lo: byte, y: byte, z: byte)
    ensures Word(hi ^ y, lo ^ z) == Plus(Word(hi, lo), Word(y, z))
  {}

  lemma FlipsShow(b: byte, x: byte)
    ensures b ^ x == b <==> x == 0
    ensures b ^ (b ^ x) == x
  {}

  lemma FlipLast(p: seq<byte>, q: seq<byte>, x: byte)
    requires |p| == |q| > 0 && p[..|p| - 1] == q[..|p| - 1] && q[|p| - 1] == p[|p| - 1] ^ x
    ensures Crc(q) == Plus(Crc(p), Absorb(0, x))
  {
    hide Plus, Absorb;
    FlipAbsorbed(CrcFrom(0, p[..|p| - 1]), p[|p| - 1], x);
  }

  lemma SkewParts(a: seq<byte>, x: byte, y: byte, z: byte)
    requires |a| >= 3
    ensures var n, b := |a| - 2, Skew(a, x, y, z);
            && b[..n][..n - 1] == a[..n][..n - 1] && b[n - 1] == a[n - 1] ^ x
            && b[n] == a[n] ^ y && b[n + 1] == a[n + 1] ^ z
  {}

  lemma CrcOfSkew(a: seq<byte>, x: byte, y: byte, z: byte)
    requires |a| >= 3
    ensures var n, b := |a| - 2, Skew(a, x, y, z);
            && Crc(b[..n]) == Plus(Crc(a[..n]), Absorb(0, x))
            && WordAt(b, n) == Plus(WordAt(a, n), Word(y, z))
  {
    var n, b := |a| - 2, Skew(a, x, y, z);
    SkewParts(a, x, y, z);
    hide Plus, Absorb, Word, Crc, Skew;
    FlipLast(a[..n], b[..n], x);
    WordFlips(a[n], a[n + 1], y, z);
  }

  /** Flips of the checksum that match the flip of the last payload byte go unnoticed. */
  lemma SkewAccepted(a: seq<byte>, x: byte, y: byte, z: byte)
    requires ValidBody(a) && |a| > PAYLOAD_AT + 2 && Absorb(0, x) == Word(y, z) && x != 0
    ensures ValidBody(Skew(a, x, y, z)) && Skew(a, x, y, z) != a
  {
    hide Crc, Word, Plus, Absorb;
    var b := Skew(a, x, y, z);
    CrcOfSkew(a, x, y, z);
    FlipsShow(a[|a| - 3], x);
    assert b[|a| - 3] != a[|a| - 3];
    assert b[33] == a[33] && b[34] == a[34];
  }

  lemma AbsorbedByBits(x: byte, y: byte, z: byte)
    requires (x, y, z) == (0x0C, 0x05, 0x00) || (x, y, z) == (0x80, 0xA0, 0x01)
    ensures Step(Step(Step(Step(Step(Step(Step(Step(Plus(0, Widen(x)))))))))) == Word(y, z)
  {}

  lemma MatchingFlips(x: byte, y: byte, z: byte)
    requires (x, y, z) == (0x0C, 0x05, 0x00) || (x, y, z) == (0x80, 0xA0, 0x01)
    ensures Absorb(0, x) == Word(y, z)
  {
    AbsorbedByBits(x, y, z);
    hide Step, Plus, Widen, Word;
    EightSteps(Plus(0, Widen(x)));
  }

  /** The last checksummed byte and the high checksum byte, damaged together. */
  function Straddle(a: seq<byte>): (b: seq<byte>)
    requires |a| >= 3
    ensures |b| == |a|
  {
    Skew(a, 0x0C, 0x05, 0x00)
  }

  /** The one pair that is not covered: for every accepted body with a payload, damage to its last
      payload byte and its high checksum byte exists that the gates let through. */
  lemma StraddleAccepted(a: seq<byte>)
    requires ValidBody(a) && |a| > PAYLOAD_AT + 2
    ensures ValidBody(Straddle(a)) && Straddle(a) != a && AgreeOutsidePair(a, Straddle(a), |a| - 3)
  {
    hide ValidBody, Absorb;
    MatchingFlips(0x0C, 0x05, 0x00);
    SkewAccepted(a, 0x0C, 0x05, 0x00);
    FlipsShow(a[|a| - 1], 0x00);
  }

  /** Damage inside the adjacent bytes k and k + 1 of an accepted body is always rejected if and only
      if they are not the last payload byte and the high checksum byte. */
  lemma PairDamageRejectedIff(a: seq<byte>, k: nat)
    requires ValidBody(a) && k + 1 < |a|
    ensures (forall b :: AgreeOutsidePair(a, b, k) && a != b ==> !ValidBody(b)) <==>
            !(k == |a| - 3 && |a| > PAYLOAD_AT + 2)
  {
    hide ValidBody, Straddle;
    AcceptedLength(a);
    if k == |a| - 3 && |a| > PAYLOAD_AT + 2 {
      StraddleAccepted(a);
    } else {
      forall b | AgreeOutsidePair(a, b, k) && a != b
        ensures !ValidBody(b)
      {
        if k == |a| - 3 {
          EmptyPayloadDamageRejected(a, b);
        } else {
          AlignedDamageRejected(a, b, k);
        }
      }
    }
  }

  lemma AcceptedLength(a: seq<byte>)
    requires ValidBody(a)
    ensures |a| >= PAYLOAD_AT + 2
  {}

  // ---- bursts that reach into the stored checksum ----

  /** The places of a burst of sixteen bits at which nothing can go unnoticed: before the stored checksum, or
      reaching into it by at most two bits, or all inside it; and everywhere if there is no payload. */
  predicate BurstCovered(a: seq<byte>, k: nat, lo: byte) {
    || |a| == PAYLOAD_AT + 2
    || k + 4 < |a|
    || (k + 4 == |a| && lo <= 3)
    || (k + 3 == |a| && lo == 255)
  }

  lemma TwoBitsByBits(x: byte, y: byte, z: byte, lo: byte)
    requires (lo == 0 || lo == 1 || lo == 3) && x & lo == 0 && z & !lo == 0
    requires Step(Step(Step(Step(Step(Step(Step(Step(
               Plus(Step(Step(Step(Step(Step(Step(Step(Step(Widen(x))))))))), Widen(y)))))))))) == Word(z, 0)
    ensures x == 0 && y == 0 && z == 0
  {}

  lemma FewLowBits(lo: byte)
    requires LowBits(lo)
    ensures lo <= 3 <==> lo == 0 || lo == 1 || lo == 3
    ensures lo > 3 ==> 0x05 & !lo == 0
    ensures lo != 255 && lo != 0 ==> 0x80 & lo == 0 && 0x01 & !lo == 0
    ensures lo == 0 ==> 0x0C & lo == 0
    ensures 0 & lo == 0 && 0 & !lo == 0
  {}

  lemma TwoBitsNeverMatch(x: byte, y: byte, z: byte, lo: byte)
    requires (lo == 0 || lo == 1 || lo == 3) && x & lo == 0 && z & !lo == 0
    requires Absorb(Absorb(0, x), y) == Word(z, 0)
    ensures x == 0 && y == 0 && z == 0
  {
    var r := Widen(x);
    var w := Plus(Steps(r, 8), Widen(y));
    hide Plus, Step, Widen, Word;
    PlusCommutative(0, r);
    PlusNothing(r);
    EightSteps(r);
    EightSteps(w);
    TwoBitsByBits(x, y, z, lo);
  }

  /** What the checksums of two messages differ in, if only their last two bytes do. */
  lemma CrcOfLastTwo(a: seq<byte>, b: seq<byte>)
    requires |a| == |b| >= 2 && a[..|a| - 2] == b[..|b| - 2]
    ensures var n := |a| - 2;
            Plus(Crc(a), Crc(b)) == Absorb(Absorb(0, a[n] ^ b[n]), a[n + 1] ^ b[n + 1])
  {
    hide Plus, Absorb;
    var n := |a| - 2;
    OneMore(a, n);
    OneMore(a, n + 1);
    OneMore(b, n);
    OneMore(b, n + 1);
    assert a[..n + 2] == a && b[..n + 2] == b;
    var r := CrcFrom(0, a[..n]);
    PlusNothing(r);
    AbsorbLinear(r, r, a[n], b[n]);
    AbsorbLinear(Absorb(r, a[n]), Absorb(r, b[n]), a[n + 1], b[n + 1]);
  }

  lemma PlusOfWords(p: byte, q: byte, lo: byte)
    ensures Plus(Word(p, lo), Word(q, lo)) == Word(p ^ q, 0)
  {}

  /** Two accepted bodies with one low checksum byte that differ in the three bytes before it: the flips of
      the checksum match the others. */
  lemma FlipsMatch(a: seq<byte>, b: seq<byte>)
    requires |a| == |b| >= 4 && CrcOk(a) && CrcOk(b)
    requires a[..|a| - 4] == b[..|a| - 4] && a[|a| - 1] == b[|a| - 1]
    ensures var n := |a| - 2;
            Absorb(Absorb(0, a[n - 2] ^ b[n - 2]), a[n - 1] ^ b[n - 1]) == Word(a[n] ^ b[n], 0)
  {
    hide Crc, Absorb, Word, Plus;
    var n := |a| - 2;
    var p, q := a[..n], b[..n];
    assert p[..n - 2] == a[..n - 2] && q[..n - 2] == b[..n - 2];
    CrcOfLastTwo(p, q);
    PlusOfWords(a[n], b[n], a[n + 1]);
  }

  lemma FlipsVanish(p: byte, p': byte, q: byte, q': byte, r: byte, r': byte, lo: byte)
    requires LowBits(lo) && lo <= 3 && (p ^ p') & lo == 0 && (r ^ r') & !lo == 0
    requires Absorb(Absorb(0, p ^ p'), q ^ q') == Word(r ^ r', 0)
    ensures p == p' && q == q' && r == r'
  {
    FewLowBits(lo);
    hide Absorb, Word, LowBits;
    TwoBitsNeverMatch(p ^ p', q ^ q', r ^ r', lo);
    XorOfBytes(p, p');
    XorOfBytes(q, q');
    XorOfBytes(r, r');
  }

  /** A burst that takes in two bits of the stored checksum, or fewer. */
  lemma TwoBitsRejected(a: seq<byte>, b: seq<byte>, lo: byte)
    requires ValidBody(a) && |a| >= 4 && AgreeOutsideBurst(a, b, |a| - 4, lo) && a != b && lo <= 3
    ensures !ValidBody(b)
  {
    hide LengthOk, CrcOk, LowBits, Absorb, Word;
    var n := |a| - 2;
    if ValidBody(b) {
      assert a[..|a| - 4] == b[..|a| - 4];
      FlipsMatch(a, b);
      FlipsVanish(a[n - 2], b[n - 2], a[n - 1], b[n - 1], a[n], b[n], lo);
      SameBytes(a, b);
    }
  }

  lemma SameBytes(a: seq<byte>, b: seq<byte>)
    requires |a| == |b| >= 4 && a[..|a| - 4] == b[..|a| - 4]
    requires forall i :: |a| - 4 <= i < |a| ==> a[i] == b[i]
    ensures a == b
  {
    assert forall i :: 0 <= i < |a| - 4 ==> a[i] == a[..|a| - 4][i] == b[..|a| - 4][i] == b[i];
  }

  /** Without a payload the bytes before the stored checksum are the length field. */
  lemma EmptyPayloadBurstRejected(a: seq<byte>, b: seq<byte>)
    requires ValidBody(a) && |a| == |b| == PAYLOAD_AT + 2 && a != b && a[..33] == b[..33]
    ensures !ValidBody(b)
  {
    hide Crc, Word;
    if WordAt(a, 33) != WordAt(b, 33) {
      WordOfItsNumber(WordAt(a, 33));
      WordOfItsNumber(WordAt(b, 33));
    } else {
      UnpackPack(a[33], a[34]);
      UnpackPack(b[33], b[34]);
      assert a[..35] == a[..33] + [a[33], a[34]] && b[..35] == b[..33] + [b[33], b[34]];
      StoredCrcDiffers(a, b);
    }
  }

  lemma AllOrNothing(x: byte)
    requires x & 255 == 0
    ensures x == 0
  {}

  lemma CoveredBurstRejected(a: seq<byte>, b: seq<byte>, k: nat, lo: byte)
    requires ValidBody(a) && AgreeOutsideBurst(a, b, k, lo) && a != b && BurstCovered(a, k, lo)
    ensures !ValidBody(b)
  {
    hide ValidBody, LowBits;
    AcceptedLength(a);
    if k + 4 < |a| {
      BitBurstRejected(a, b, k, lo);
    } else if |a| == PAYLOAD_AT + 2 {
      assert a[..33] == b[..33];
      EmptyPayloadBurstRejected(a, b);
    } else if k + 4 == |a| {
      TwoBitsRejected(a, b, lo);
    } else {
      AllOrNothing(a[k] ^ b[k]);
      XorOfBytes(a[k], b[k]);
      assert AgreeOutsidePair(a, b, |a| - 2);
      AlignedDamageRejected(a, b, |a| - 2);
    }
  }

  lemma SkewDiffers(a: seq<byte>, x: byte, y: byte, z: byte)
    requires |a| >= 3
    ensures var n, b := |a| - 3, Skew(a, x, y, z);
            && a[n] ^ b[n] == x && a[n + 1] ^ b[n + 1] == y && a[n + 2] ^ b[n + 2] == z
            && (forall i :: 0 <= i < n ==> a[i] == b[i])
            && (z == 0 ==> a[n + 2] == b[n + 2])
  {
    var n, b := |a| - 3, Skew(a, x, y, z);
    SkewParts(a, x, y, z);
    hide Skew;
    assert forall i :: 0 <= i < n ==> a[i] == a[..n + 1][..n][i] == b[..n + 1][..n][i] == b[i];
    FlipsShow(a[n], x);
    FlipsShow(a[n + 1], y);
    FlipsShow(a[n + 2], z);
  }

  lemma SkewIsBurst(a: seq<byte>, k: nat, lo: byte, x: byte, y: byte, z: byte)
    requires LowBits(lo) && 4 <= |a|
    requires (k + 3 == |a| && x & lo == 0 && z & !lo == 0) || (k + 4 == |a| && z == 0 && y & !lo == 0)
    ensures AgreeOutsideBurst(a, Skew(a, x, y, z), k, lo)
  {
    hide LowBits;
    SkewDiffers(a, x, y, z);
    if k + 4 == |a| {
      SameByte(a[k], lo);
    }
    hide Skew;
  }

  lemma SameByte(b: byte, lo: byte)
    ensures (b ^ b) & lo == 0
  {}

  /** Elsewhere some burst goes unnoticed. */
  lemma UncoveredBurst(a: seq<byte>, k: nat, lo: byte) returns (b: seq<byte>)
    requires ValidBody(a) && k + 2 < |a| && LowBits(lo) && !BurstCovered(a, k, lo)
    ensures ValidBody(b) && AgreeOutsideBurst(a, b, k, lo) && b != a
  {
    hide ValidBody, Absorb;
    FewLowBits(lo);
    hide LowBits, AgreeOutsideBurst, Skew;
    AcceptedLength(a);
    if k + 4 == |a| || lo == 0 {
      MatchingFlips(0x0C, 0x05, 0x00);
      SkewAccepted(a, 0x0C, 0x05, 0x00);
      SkewIsBurst(a, k, lo, 0x0C, 0x05, 0x00);
      b := Skew(a, 0x0C, 0x05, 0x00);
    } else {
      MatchingFlips(0x80, 0xA0, 0x01);
      SkewAccepted(a, 0x80, 0xA0, 0x01);
      SkewIsBurst(a, k, lo, 0x80, 0xA0, 0x01);
      b := Skew(a, 0x80, 0xA0, 0x01);
    }
  }

  /** For every place k and bit offset, given by the mask `lo`: all bursts of up to sixteen bits there are
      rejected if and only if the place is covered. */
  lemma BitBurstRejectedIff(a: seq<byte>, k: nat, lo: byte)
    requires ValidBody(a) && k + 2 < |a| && LowBits(lo)
    ensures (forall b :: AgreeOutsideBurst(a, b, k, lo) && a != b ==> !ValidBody(b)) <==>
            BurstCovered(a, k, lo)
  {
    hide ValidBody, LowBits, BurstCovered;
    if BurstCovered(a, k, lo) {
      forall b | AgreeOutsideBurst(a, b, k, lo) && a != b
        ensures !ValidBody(b)
      {
        CoveredBurstRejected(a, b, k, lo);
      }
    } else {
      var b := UncoveredBurst(a, k, lo);
    }
  }
}
