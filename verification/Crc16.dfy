/** CRC-16/ARC as `crc16_arc` computes it, and the errors it is bound to catch.
    The register arithmetic is named (`Plus`, `Step`) so that the inductive proofs can hide
    its bit-level meaning and argue by its algebraic laws alone. */
module Crc16 {
  import opened Bytes

  const POLYNOMIAL: word := 0xA001

  /** Addition of polynomials over two elements: exclusive or. */
  function Plus(a: word, b: word): word {
    a ^ b
  }

  function Half(a: word): word {
    a >> 1
  }

  predicate LowBit(a: word) {
    a & 1 == 1
  }

  /** One turn of the inner loop. */
  function Step(reg: word): word {
    if LowBit(reg) then Plus(Half(reg), POLYNOMIAL) else Half(reg)
  }

  function Steps(reg: word, n: nat): word
    decreases n
  {
    if n == 0 then reg else Step(Steps(reg, n - 1))
  }

  function Absorb(reg: word, b: byte): word {
    Steps(Plus(reg, Widen(b)), 8)
  }

  function CrcFrom(reg: word, data: seq<byte>): word
    decreases |data|
  {
    if data == [] then reg else Absorb(CrcFrom(reg, data[..|data| - 1]), data[|data| - 1])
  }

  function Crc(data: seq<byte>): word {
    CrcFrom(0, data)
  }

  /** The nested loops of the source. */
  method Crc16Arc(data: seq<byte>) returns (reg: word)
    ensures reg == Crc(data)
  {
    hide Plus, Half, LowBit, Widen;
    reg := 0;
    for i := 0 to |data|
      invariant reg == CrcFrom(0, data[..i])
    {
      reg := Plus(reg, Widen(data[i]));
      ghost var start := reg;
      for k := 0 to 8
        invariant reg == Steps(start, k)
      {
        reg := if LowBit(reg) then Plus(Half(reg), POLYNOMIAL) else Half(reg);
      }
      assert data[..i + 1][..i] == data[..i];
    }
    assert data[..|data|] == data;
  }

  // ---- linearity ----

  lemma HalfLinear(a: word, b: word)
    ensures Half(Plus(a, b)) == Plus(Half(a), Half(b))
  {}

  lemma LowBitLinear(a: word, b: word)
    ensures LowBit(Plus(a, b)) == (LowBit(a) != LowBit(b))
  {}

  lemma PlusAssociative(x: word, y: word, z: word)
    ensures Plus(Plus(x, y), z) == Plus(x, Plus(y, z))
  {}

  lemma PlusCommutative(x: word, y: word)
    ensures Plus(x, y) == Plus(y, x)
  {}

  lemma PlusNothing(a: word)
    ensures Plus(a, 0) == a && Plus(a, a) == 0
  {}

  lemma PlusMoves(x: word, y: word, k: word)
    ensures Plus(Plus(x, k), y) == Plus(Plus(x, y), k)
    ensures Plus(Plus(x, k), Plus(y, k)) == Plus(x, y)
  {
    hide Plus;
    PlusAssociative(x, k, y);
    PlusCommutative(k, y);
    PlusAssociative(x, y, k);
    PlusAssociative(Plus(x, k), y, k);
    PlusAssociative(Plus(x, y), k, k);
    PlusNothing(k);
    PlusNothing(Plus(x, y));
  }

  lemma PlusInterchange(a: word, b: word, x: word, y: word)
    ensures Plus(Plus(a, b), Plus(x, y)) == Plus(Plus(a, x), Plus(b, y))
  {
    hide Plus;
    PlusAssociative(Plus(a, b), x, y);
    PlusMoves(a, x, b);
    PlusCommutative(a, b);
    PlusAssociative(Plus(a, x), b, y);
    PlusAssociative(a, b, x);
    PlusCommutative(b, x);
    PlusAssociative(a, x, b);
  }

  lemma StepLinear(a: word, b: word)
    ensures Step(Plus(a, b)) == Plus(Step(a), Step(b))
  {
    hide Plus, Half, LowBit;
    HalfLinear(a, b);
    LowBitLinear(a, b);
    PlusMoves(Half(a), Half(b), POLYNOMIAL);
    PlusAssociative(Half(a), Half(b), POLYNOMIAL);
  }

  lemma {:induction false} StepsLinear(a: word, b: word, n: nat)
    ensures Steps(Plus(a, b), n) == Plus(Steps(a, n), Steps(b, n))
    decreases n
  {
    hide Plus, Step;
    if n > 0 {
      StepsLinear(a, b, n - 1);
      StepLinear(Steps(a, n - 1), Steps(b, n - 1));
    }
  }

  lemma WidenLinear(x: byte, y: byte)
    ensures Widen(x ^ y) == Plus(Widen(x), Widen(y))
  {}

  lemma AbsorbLinear(r: word, s: word, a: byte, b: byte)
    ensures Absorb(Plus(r, s), a ^ b) == Plus(Absorb(r, a), Absorb(s, b))
  {
    hide Plus, Step, Widen;
    WidenLinear(a, b);
    PlusInterchange(r, s, Widen(a), Widen(b));
    StepsLinear(Plus(r, Widen(a)), Plus(s, Widen(b)), 8);
  }

  /** The checksum is linear: equal-length messages combine bit by bit. */
  lemma {:induction false} CrcLinear(r: word, s: word, a: seq<byte>, b: seq<byte>)
    requires |a| == |b|
    ensures CrcFrom(Plus(r, s), Xor(a, b)) == Plus(CrcFrom(r, a), CrcFrom(s, b))
    decreases |a|
  {
    hide Plus, Absorb;
    if a != [] {
      var n := |a| - 1;
      assert Xor(a, b)[..n] == Xor(a[..n], b[..n]);
      CrcLinear(r, s, a[..n], b[..n]);
      AbsorbLinear(CrcFrom(r, a[..n]), CrcFrom(s, b[..n]), a[n], b[n]);
    }
  }

  // ---- a burst inside two adjacent bytes ----

  lemma StepInjective(a: word)
    ensures Step(a) == 0 ==> a == 0
    ensures Step(0) == 0
  {}

  lemma {:induction false} StepsInjective(a: word, n: nat)
    ensures Steps(a, n) == 0 <==> a == 0
    decreases n
  {
    hide Step;
    StepInjective(0);
    if n > 0 {
      StepsInjective(a, n - 1);
      StepInjective(Steps(a, n - 1));
    }
  }

  lemma WidenZero()
    ensures Widen(0) == 0
  {}

  lemma PlusZero(a: word, b: word)
    requires Plus(a, b) == 0
    ensures a == b
  {}

  /** Eight unrolled steps, for the one fact that needs their bits. */
  lemma EightSteps(a: word)
    ensures Steps(a, 8) == Step(Step(Step(Step(Step(Step(Step(Step(a))))))))
  {
    hide Step;
  }

  lemma TwoBytesByBits(x: byte, y: byte)
    requires Step(Step(Step(Step(Step(Step(Step(Step(Widen(x))))))))) == Widen(y)
    ensures x == 0 && y == 0
  {}

  lemma TwoBytesNeverCancel(x: byte, y: byte)
    requires Absorb(Absorb(0, x), y) == 0
    ensures x == 0 && y == 0
  {
    hide Plus, Step, Widen;
    var r := Widen(x);
    PlusCommutative(0, r);
    PlusNothing(r);
    StepsInjective(Plus(Steps(r, 8), Widen(y)), 8);
    PlusZero(Steps(r, 8), Widen(y));
    EightSteps(r);
    TwoBytesByBits(x, y);
  }

  /** A byte with only its lowest bits set, however many: the first bits of a byte on the wire. */
  predicate LowBits(lo: byte) {
    lo & (lo + 1) == 0
  }

  lemma ThreeBytesByBits(x: byte, y: byte, z: byte, lo: byte, w: word)
    requires LowBits(lo) && x & lo == 0 && z & !lo == 0
    requires w == Plus(Step(Step(Step(Step(Step(Step(Step(Step(Widen(x))))))))), Widen(y))
    requires Step(Step(Step(Step(Step(Step(Step(Step(w)))))))) == Widen(z)
    ensures x == 0 && y == 0 && z == 0
  {}

  lemma ThreeBytesNeverCancel(x: byte, y: byte, z: byte, lo: byte)
    requires LowBits(lo) && x & lo == 0 && z & !lo == 0
    requires Absorb(Absorb(Absorb(0, x), y), z) == 0
    ensures x == 0 && y == 0 && z == 0
  {
    hide Plus, Step, Widen, LowBits;
    var r := Widen(x);
    var w := Plus(Steps(r, 8), Widen(y));
    PlusCommutative(0, r);
    PlusNothing(r);
    StepsInjective(Plus(Steps(w, 8), Widen(z)), 8);
    PlusZero(Steps(w, 8), Widen(z));
    EightSteps(r);
    EightSteps(w);
    ThreeBytesByBits(x, y, z, lo, w);
  }

  // ---- parity ----

  /** How many of the lowest n bits are set. */
  function SetBits(a: word, n: nat): nat
    decreases n
  {
    if n == 0 then 0 else (if LowBit(a) then 1 else 0) + SetBits(Half(a), n - 1)
  }

  /** Whether a register holds an odd number of one bits. */
  predicate Odd(a: word) {
    SetBits(a, 16) % 2 == 1
  }

  /** The number of one bits in a byte. */
  function Ones(b: byte): nat {
    SetBits(Widen(b), 8)
  }

  /** The number of one bits in a byte string. */
  function Weight(data: seq<byte>): nat
    decreases |data|
  {
    if data == [] then 0 else Weight(data[..|data| - 1]) + Ones(data[|data| - 1])
  }

  lemma ParityAdds(p: bool, q: bool, x: nat, y: nat, z: nat)
    requires z % 2 == (x + y) % 2
    ensures ((if p != q then 1 else 0) + z) % 2 == ((if p then 1 else 0) + x + (if q then 1 else 0) + y) % 2
  {}

  lemma {:induction false} SetBitsLinear(a: word, b: word, n: nat)
    ensures SetBits(Plus(a, b), n) % 2 == (SetBits(a, n) + SetBits(b, n)) % 2
    decreases n
  {
    hide Plus, LowBit, Half;
    if n > 0 {
      HalfLinear(a, b);
      LowBitLinear(a, b);
      var x, y := SetBits(Half(a), n - 1), SetBits(Half(b), n - 1);
      SetBitsLinear(Half(a), Half(b), n - 1);
      ParityAdds(LowBit(a), LowBit(b), x, y, SetBits(Plus(Half(a), Half(b)), n - 1));
    }
  }

  lemma OddLinear(a: word, b: word)
    ensures Odd(Plus(a, b)) == (Odd(a) != Odd(b))
  {
    hide SetBits, Plus;
    SetBitsLinear(a, b, 16);
  }

  lemma SetBitsStep(a: word, n: nat)
    ensures SetBits(a, n + 1) == (if LowBit(a) then 1 else 0) + SetBits(Half(a), n)
  {}

  function Down(a: word, n: nat): word
    decreases n
  {
    if n == 0 then a else Down(Half(a), n - 1)
  }

  lemma {:induction false} SetBitsSplit(a: word, m: nat, n: nat)
    ensures SetBits(a, m + n) == SetBits(a, m) + SetBits(Down(a, m), n)
    decreases m
  {
    hide LowBit, Half;
    if m > 0 {
      SetBitsSplit(Half(a), m - 1, n);
    }
  }

  lemma {:induction false} ZeroHasNoBits(n: nat)
    ensures SetBits(0, n) == 0
    decreases n
  {
    if n > 0 {
      ZeroHasNoBits(n - 1);
      assert Half(0) == 0 && !LowBit(0);
    }
  }

  lemma NothingAbove(a: word, b: byte)
    ensures Down(Half(a), 15) == 0
    ensures Down(Widen(b), 8) == 0
  {}

  lemma OddHalf(a: word)
    ensures Odd(Half(a)) == (Odd(a) != LowBit(a))
  {
    hide LowBit, Half, SetBits, Down;
    SetBitsStep(a, 15);
    SetBitsSplit(Half(a), 15, 1);
    NothingAbove(a, 0);
    ZeroHasNoBits(1);
  }

  lemma ZeroIsEven()
    ensures !Odd(0)
  {
    ZeroHasNoBits(16);
  }

  lemma OnesParity(b: byte)
    ensures Odd(Widen(b)) <==> Ones(b) % 2 == 1
  {
    hide LowBit, Half, Widen, SetBits, Down;
    SetBitsSplit(Widen(b), 8, 8);
    NothingAbove(0, b);
    ZeroHasNoBits(8);
  }

  lemma PolynomialBits(p: word)
    requires p == POLYNOMIAL
    ensures SetBits(p, 16) == 3
  {
    SetBitsSplit(p, 8, 8);
    assert Down(p, 8) == 0xA0;
    assert SetBits(p, 8) == 1;
    assert SetBits(Down(p, 8), 8) == 2;
  }

  lemma OddPolynomial()
    ensures Odd(POLYNOMIAL)
  {
    PolynomialBits(POLYNOMIAL);
  }

  /** The polynomial has odd weight, so a step keeps the register's parity. */
  lemma StepKeepsParity(a: word)
    ensures Odd(Step(a)) == Odd(a)
  {
    hide Plus, Half, LowBit, Odd;
    OddHalf(a);
    OddPolynomial();
    OddLinear(Half(a), POLYNOMIAL);
  }

  lemma {:induction false} StepsKeepParity(a: word, n: nat)
    ensures Odd(Steps(a, n)) == Odd(a)
    decreases n
  {
    hide Step, Odd;
    if n > 0 {
      StepsKeepParity(a, n - 1);
      StepKeepsParity(Steps(a, n - 1));
    }
  }

  /** The register's parity is the parity of all the bits it has absorbed. */
  lemma {:induction false} CrcParity(data: seq<byte>)
    ensures Odd(Crc(data)) <==> Weight(data) % 2 == 1
    decreases |data|
  {
    hide Plus, Steps, Odd, Ones, Widen;
    ZeroIsEven();
    if data != [] {
      var n := |data| - 1;
      CrcParity(data[..n]);
      var reg := CrcFrom(0, data[..n]);
      OddLinear(reg, Widen(data[n]));
      OnesParity(data[n]);
      StepsKeepParity(Plus(reg, Widen(data[n])), 8);
    }
  }

  // ---- messages that differ in one place ----

  /** Two messages of one length that agree everywhere but in the adjacent bytes k and k + 1. */
  predicate AgreeOutsidePair(a: seq<byte>, b: seq<byte>, k: nat) {
    && |a| == |b|
    && k + 1 < |a|
    && forall i :: 0 <= i < |a| && i != k && i != k + 1 ==> a[i] == b[i]
  }

  lemma {:induction false} ZerosKeepZero(data: seq<byte>)
    requires forall i :: 0 <= i < |data| ==> data[i] == 0
    ensures CrcFrom(0, data) == 0
    decreases |data|
  {
    hide Plus, Steps, Widen;
    if data != [] {
      ZerosKeepZero(data[..|data| - 1]);
      WidenZero();
      PlusNothing(0);
      StepsInjective(0, 8);
    }
  }

  lemma {:induction false} ZerosKeepNonzero(data: seq<byte>, n: nat)
    requires n <= |data|
    requires forall i :: n <= i < |data| ==> data[i] == 0
    requires CrcFrom(0, data) == 0
    ensures CrcFrom(0, data[..n]) == 0
    decreases |data|
  {
    hide Plus, Steps, Widen;
    if n == |data| {
      assert data[..n] == data;
    } else {
      var m := |data| - 1;
      WidenZero();
      PlusNothing(CrcFrom(0, data[..m]));
      StepsInjective(CrcFrom(0, data[..m]), 8);
      assert data[..m][..n] == data[..n];
      ZerosKeepNonzero(data[..m], n);
    }
  }

  lemma OneMore(data: seq<byte>, k: nat)
    requires k < |data|
    ensures CrcFrom(0, data[..k + 1]) == Absorb(CrcFrom(0, data[..k]), data[k])
  {
    hide Absorb;
    assert data[..k + 1][..k] == data[..k];
  }

  lemma XorOfBytes(x: byte, y: byte)
    ensures x ^ y == 0 <==> x == y
  {}

  /** Any damage confined to two adjacent bytes changes the checksum. */
  lemma BurstChangesCrc(a: seq<byte>, b: seq<byte>, k: nat)
    requires AgreeOutsidePair(a, b, k) && a != b
    ensures Crc(a) != Crc(b)
  {
    hide Plus, Absorb;
    var d := Xor(a, b);
    forall i | 0 <= i < |d|
      ensures d[i] == 0 <==> a[i] == b[i]
    {
      XorOfBytes(a[i], b[i]);
    }
    if Crc(a) == Crc(b) {
      hide CrcFrom;
      CrcLinear(0, 0, a, b);
      PlusNothing(0);
      PlusNothing(Crc(a));
      ZerosKeepNonzero(d, k + 2);
      ZerosKeepZero(d[..k]);
      OneMore(d, k);
      OneMore(d, k + 1);
      TwoBytesNeverCancel(d[k], d[k + 1]);
    }
  }

  /** Two messages of one length that differ at most in sixteen consecutive bits, in the order in which
      the checksum takes them: they begin above the bits `lo` of byte k and end with the bits `lo` of
      byte k + 2. */
  predicate AgreeOutsideBurst(a: seq<byte>, b: seq<byte>, k: nat, lo: byte) {
    && |a| == |b|
    && k + 2 < |a|
    && (forall i :: 0 <= i < |a| && !(k <= i <= k + 2) ==> a[i] == b[i])
    && LowBits(lo)
    && (a[k] ^ b[k]) & lo == 0
    && (a[k + 2] ^ b[k + 2]) & !lo == 0
  }

  /** Any burst of up to sixteen bits changes the checksum, at whatever bit it begins. */
  lemma BitBurstChangesCrc(a: seq<byte>, b: seq<byte>, k: nat, lo: byte)
    requires AgreeOutsideBurst(a, b, k, lo) && a != b
    ensures Crc(a) != Crc(b)
  {
    hide Plus, Absorb, LowBits;
    var d := Xor(a, b);
    forall i | 0 <= i < |d|
      ensures d[i] == 0 <==> a[i] == b[i]
    {
      XorOfBytes(a[i], b[i]);
    }
    if Crc(a) == Crc(b) {
      hide CrcFrom;
      CrcLinear(0, 0, a, b);
      PlusNothing(0);
      PlusNothing(Crc(a));
      ZerosKeepNonzero(d, k + 3);
      ZerosKeepZero(d[..k]);
      OneMore(d, k);
      OneMore(d, k + 1);
      OneMore(d, k + 2);
      ThreeBytesNeverCancel(d[k], d[k + 1], d[k + 2], lo);
    }
  }

  // ---- the published check value ----

  lemma CrcAfter(data: seq<byte>, n: nat, before: word, b: byte, after: word)
    requires n < |data| && data[n] == b && CrcFrom(0, data[..n]) == before
    requires Step(Step(Step(Step(Step(Step(Step(Step(before ^ (b as word))))))))) == after
    ensures CrcFrom(0, data[..n + 1]) == after
  {
    assert before ^ (b as word) == Plus(before, Widen(b));
    hide Step, Plus, Widen;
    EightSteps(Plus(before, Widen(b)));
    assert data[..n + 1][..n] == data[..n];
  }

  lemma CrcOfNothing(data: seq<byte>)
    ensures CrcFrom(0, data[..0]) == 0
  {}

  /** The check value that CRC-16/ARC is catalogued with: the digits "123456789" give BB3D. */
  lemma CheckValue(data: seq<byte>)
    requires data == [0x31, 0x32, 0x33, 0x34, 0x35, 0x36, 0x37, 0x38, 0x39]
    ensures Crc(data) == 0xBB3D
  {
    hide CrcFrom;
    CrcOfNothing(data);
    CrcAfter(data, 0, 0x0000, 0x31, 0xD4C1);
    CrcAfter(data, 1, 0xD4C1, 0x32, 0x4594);
    CrcAfter(data, 2, 0x4594, 0x33, 0xBA04);
    CrcAfter(data, 3, 0xBA04, 0x34, 0x14BA);
    CrcAfter(data, 4, 0x14BA, 0x35, 0xA455);
    CrcAfter(data, 5, 0xA455, 0x36, 0x29E4);
    CrcAfter(data, 6, 0x29E4, 0x37, 0x9D68);
    CrcAfter(data, 7, 0x9D68, 0x38, 0x3C9D);
    CrcAfter(data, 8, 0x3C9D, 0x39, 0xBB3D);
    assert data[..9] == data;
  }
}
