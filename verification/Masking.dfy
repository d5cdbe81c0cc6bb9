/** The payload mask: a linear congruential generator exclusive-ored over the payload. */
module Masking {
  import opened Bytes

  const KEYSTREAM_MODULUS: nat := 689854231
  const KEYSTREAM_MULTIPLIER: nat := 340100002
  const KEYSTREAM_INCREMENT: nat := 778321986
  const KEYSTREAM_SHIFT_FACTOR: nat := 0x10_0000
  const KEYSTREAM_SEED: nat := 0

  /** The untruncated successor of a state. */
  function Raw(state: nat): nat {
    (state % KEYSTREAM_MODULUS) * KEYSTREAM_MULTIPLIER + KEYSTREAM_INCREMENT
  }

  /** The state after n rounds. */
  function State(n: nat): nat {
    if n == 0 then KEYSTREAM_SEED else Raw(State(n - 1)) % 0x1_0000_0000
  }

  function Emit(state: nat): byte {
    ((state / KEYSTREAM_SHIFT_FACTOR) % 0x100) as byte
  }

  function MaskByte(i: nat): byte {
    Emit(State(i + 1))
  }

  function Keystream(n: nat): (s: seq<byte>)
    ensures |s| == n
  {
    seq(n, i requires 0 <= i < n => MaskByte(i))
  }

  /** `keystream`: fills a buffer of the requested length. */
  method KeystreamBytes(length: nat) returns (out: seq<byte>)
    ensures out == Keystream(length)
  {
    hide Emit;
    var buffer := new byte[length];
    var state := KEYSTREAM_SEED;
    for index := 0 to length
      invariant state == State(index)
      invariant forall i :: 0 <= i < index ==> buffer[i] == MaskByte(i)
    {
      state := ((state % KEYSTREAM_MODULUS) * KEYSTREAM_MULTIPLIER + KEYSTREAM_INCREMENT)
               % 0x1_0000_0000;
      buffer[index] := Emit(state);
    }
    out := buffer[..];
  }

  /** Before truncation a round never leaves a signed 64-bit register, for any 32-bit state. */
  lemma RoundFitsRegister(n: nat)
    ensures Raw(State(n)) < 0x8000_0000_0000_0000
    ensures State(n) < 0x1_0000_0000
  {
    assert State(n) % KEYSTREAM_MODULUS <= KEYSTREAM_MODULUS - 1;
  }

  /** A longer request extends the same mask. */
  lemma KeystreamPrefix(m: nat, n: nat)
    requires m <= n
    ensures Keystream(n)[..m] == Keystream(m)
  {
    hide MaskByte;
  }

  lemma EmitIs(state: nat, b: byte)
    requires (state / KEYSTREAM_SHIFT_FACTOR) % 0x100 == b as nat
    ensures Emit(state) == b
  {
    assert (b as nat) as byte == b;
  }

  /** One round from a known state. */
  lemma EmitNext(n: nat, before: nat, after: nat, b: byte)
    requires State(n) == before
    requires Raw(before) % 0x1_0000_0000 == after
    requires (after / KEYSTREAM_SHIFT_FACTOR) % 0x100 == b as nat
    ensures State(n + 1) == after && MaskByte(n) == b
  {
    hide Raw, Emit;
    EmitIs(after, b);
  }

  lemma FirstDozen(mask: seq<byte>)
    requires mask == Keystream(36)
    ensures mask[..12] == [0xE6, 0xF8, 0xBB, 0xCB, 0xBC, 0x10, 0xAB, 0x6D, 0xCA, 0x49, 0x53, 0xAC]
    ensures State(12) == 2597275604
  {
    hide State, MaskByte;
    SeedState();
    EmitNext(0, 0, 778321986, 0xE6);
    EmitNext(1, 778321986, 2139737720, 0xF8);
    EmitNext(2, 2139737720, 4222856072, 0xBB);
    EmitNext(3, 4222856072, 1555831550, 0xCB);
    EmitNext(4, 1555831550, 2613414882, 0xBC);
    EmitNext(5, 2613414882, 3238053532, 0x10);
    EmitNext(6, 3238053532, 716455106, 0xAB);
    EmitNext(7, 716455106, 652023672, 0x6D);
    EmitNext(8, 652023672, 2628223538, 0xCA);
    EmitNext(9, 2628223538, 2493093180, 0x49);
    EmitNext(10, 2493093180, 1161412496, 0x53);
    EmitNext(11, 1161412496, 2597275604, 0xAC);
  }

  lemma SeedState()
    ensures State(0) == 0
  {}

  lemma SecondDozen(mask: seq<byte>)
    requires mask == Keystream(36) && State(12) == 2597275604
    ensures mask[12..24] == [0x09, 0x84, 0x4E, 0x02, 0x22, 0xC3, 0xA3, 0x05, 0x6A, 0x39, 0x95, 0xA2]
    ensures State(24) == 707508520
  {
    hide State, MaskByte;
    EmitNext(12, 2597275604, 2962262976, 0x09);
    EmitNext(13, 2962262976, 1212443018, 0x84);
    EmitNext(14, 1212443018, 1424737800, 0x4E);
    EmitNext(15, 1424737800, 4029146678, 0x02);
    EmitNext(16, 4029146678, 3257739432, 0x22);
    EmitNext(17, 3257739432, 4231162970, 0xC3);
    EmitNext(18, 4231162970, 3929511394, 0xA3);
    EmitNext(19, 3929511394, 3495647104, 0x05);
    EmitNext(20, 3495647104, 1185265532, 0x6A);
    EmitNext(21, 1185265532, 60550956, 0x39);
    EmitNext(22, 60550956, 693181978, 0x95);
    EmitNext(23, 693181978, 707508520, 0xA2);
  }

  lemma ThirdDozen(mask: seq<byte>)
    requires mask == Keystream(36) && State(24) == 707508520
    ensures mask[24..36] == [0x4A, 0x5D, 0x39, 0x87, 0x7E, 0xBD, 0xDC, 0x2C, 0x10, 0xB3, 0x14, 0xAB]
  {
    hide State, MaskByte;
    EmitNext(24, 707508520, 1956643332, 0x4A);
    EmitNext(25, 1956643332, 366202798, 0x5D);
    EmitNext(26, 366202798, 4086937182, 0x39);
    EmitNext(27, 4086937182, 1753176568, 0x87);
    EmitNext(28, 1753176568, 2012173334, 0x7E);
    EmitNext(29, 2012173334, 1272902930, 0xBD);
    EmitNext(30, 1272902930, 3989219864, 0xDC);
    EmitNext(31, 3989219864, 4073440172, 0x2C);
    EmitNext(32, 4073440172, 822128468, 0x10);
    EmitNext(33, 822128468, 2335722972, 0xB3);
    EmitNext(34, 2335722972, 3510924496, 0x14);
    EmitNext(35, 3510924496, 1253717020, 0xAB);
  }

  /** The generator reproduces all 36 bytes of the mask that were recovered from captured traffic. */
  lemma CapturedMask()
    ensures Keystream(36) ==
            [0xE6, 0xF8, 0xBB, 0xCB, 0xBC, 0x10, 0xAB, 0x6D, 0xCA, 0x49, 0x53, 0xAC] +
            [0x09, 0x84, 0x4E, 0x02, 0x22, 0xC3, 0xA3, 0x05, 0x6A, 0x39, 0x95, 0xA2] +
            [0x4A, 0x5D, 0x39, 0x87, 0x7E, 0xBD, 0xDC, 0x2C, 0x10, 0xB3, 0x14, 0xAB]
  {
    hide Keystream;
    var mask := Keystream(36);
    FirstDozen(mask);
    SecondDozen(mask);
    ThirdDozen(mask);
    assert mask == mask[..12] + mask[12..24] + mask[24..36];
  }

  function Unmask(payload: seq<byte>): (plain: seq<byte>)
    ensures |plain| == |payload|
  {
    Xor(payload, Keystream(|payload|))
  }

  lemma XorBack(a: byte, k: byte)
    ensures a ^ (a ^ k) == k
  {}

  /** The exclusive or of a payload and what it unmasks to is the mask, whatever the payload. */
  lemma MaskRecovered(payload: seq<byte>)
    ensures Xor(payload, Unmask(payload)) == Keystream(|payload|)
  {
    hide MaskByte;
    forall i | 0 <= i < |payload|
      ensures payload[i] ^ Unmask(payload)[i] == Keystream(|payload|)[i]
    {
      XorBack(payload[i], Keystream(|payload|)[i]);
    }
  }

  lemma XorTwice(a: byte, k: byte)
    ensures (a ^ k) ^ k == a
  {}

  /** Masking is its own inverse at every length. */
  lemma UnmaskInvolution(payload: seq<byte>)
    ensures Unmask(Unmask(payload)) == payload
  {
    hide MaskByte;
    forall i | 0 <= i < |payload|
      ensures Unmask(Unmask(payload))[i] == payload[i]
    {
      XorTwice(payload[i], Keystream(|payload|)[i]);
    }
  }

  /** A payload cut short unmasks to the same bytes cut short. */
  lemma UnmaskPrefix(payload: seq<byte>, n: nat)
    requires n <= |payload|
    ensures Unmask(payload)[..n] == Unmask(payload[..n])
  {
    hide MaskByte;
    KeystreamPrefix(n, |payload|);
  }
}
