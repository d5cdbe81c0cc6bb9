/** The fault bitfield: 29 two-bit severities, and the bits outside all of them. */
module Alarms {
  import opened Bytes
  import opened Powers

  // ---- the table ----

  datatype AlarmKey =
    | PowerVoltageOver | PowerVoltageUnder | InsulationResistanceLow | CommunicationFault
    | CLF_CellVoltage | CLF_T | CurrentCollectorFault | BattaryCollectorFault
    | CellVoltageDiffExcess | CellVoltageOver | CellVoltageUnder | T_DiffExcess | T_Over | T_Under
    | OverCurrentCharge | Discharge_T_DiffExcess | Discharge_T_Over | Discharge_T_Under
    | OverCurrentDischarge | VoltageOver | VoltageUnder | SOCLower | VoltageDiffExcess
    | CapacityInconsistency | MOSTemperatureFault | ContactRodTemperatureFault | RelayOrMOSSticking
    | InternalFault | InterPackBalancingFault

  /** A row of the table: the bits `shift` and `shift + 1` of byte `at` hold the severity. */
  datatype AlarmSlot = AlarmSlot(key: AlarmKey, at: nat, shift: byte)

  const ALARM_FIELD_LEN: nat := 8

  const ALARM_SLOTS: seq<AlarmSlot> := [
    AlarmSlot(PowerVoltageOver, 0, 0),
    AlarmSlot(PowerVoltageUnder, 0, 2),
    AlarmSlot(InsulationResistanceLow, 0, 6),
    AlarmSlot(CommunicationFault, 1, 0),
    AlarmSlot(CLF_CellVoltage, 1, 2),
    AlarmSlot(CLF_T, 1, 4),
    AlarmSlot(CurrentCollectorFault, 1, 6),
    AlarmSlot(BattaryCollectorFault, 4, 6),
    AlarmSlot(CellVoltageDiffExcess, 2, 0),
    AlarmSlot(CellVoltageOver, 2, 2),
    AlarmSlot(CellVoltageUnder, 2, 4),
    AlarmSlot(T_DiffExcess, 3, 2),
    AlarmSlot(T_Over, 3, 4),
    AlarmSlot(T_Under, 3, 6),
    AlarmSlot(OverCurrentCharge, 4, 0),
    AlarmSlot(Discharge_T_DiffExcess, 7, 0),
    AlarmSlot(Discharge_T_Over, 7, 2),
    AlarmSlot(Discharge_T_Under, 7, 4),
    AlarmSlot(OverCurrentDischarge, 4, 2),
    AlarmSlot(VoltageOver, 2, 6),
    AlarmSlot(VoltageUnder, 3, 0),
    AlarmSlot(SOCLower, 4, 4),
    AlarmSlot(VoltageDiffExcess, 5, 0),
    AlarmSlot(CapacityInconsistency, 5, 2),
    AlarmSlot(MOSTemperatureFault, 6, 0),
    AlarmSlot(ContactRodTemperatureFault, 6, 2),
    AlarmSlot(RelayOrMOSSticking, 6, 4),
    AlarmSlot(InternalFault, 6, 6),
    AlarmSlot(InterPackBalancingFault, 7, 6)]

  // ---- severities ----

  function Level(v: byte, shift: byte): byte
    requires shift <= 6
  {
    (v >> shift) & 3
  }

  /** A slot's severity; slots past the end of a short field read as no fault. */
  function LevelOf(slot: AlarmSlot, bits: seq<byte>): byte
    requires slot.shift <= 6
  {
    if slot.at < |bits| then Level(bits[slot.at], slot.shift) else 0
  }

  predicate Aligned(slots: seq<AlarmSlot>) {
    forall k :: 0 <= k < |slots| ==>
      slots[k].shift == 0 || slots[k].shift == 2 || slots[k].shift == 4 || slots[k].shift == 6
  }

  /** No two slots share a key or a place. */
  predicate Distinct(slots: seq<AlarmSlot>) {
    forall j, k :: 0 <= j < k < |slots| ==>
      slots[j].key != slots[k].key && (slots[j].at == slots[k].at ==> slots[j].shift != slots[k].shift)
  }

  function Levels(slots: seq<AlarmSlot>, bits: seq<byte>): map<AlarmKey, byte>
    requires Aligned(slots)
  {
    if slots == [] then map[]
    else
      var n := |slots| - 1;
      Levels(slots[..n], bits)[slots[n].key := LevelOf(slots[n], bits)]
  }

  lemma {:induction false} LevelsByKey(slots: seq<AlarmSlot>, bits: seq<byte>)
    requires Aligned(slots) && Distinct(slots)
    ensures forall s :: s in slots ==> s.key in Levels(slots, bits)
    ensures forall s :: s in slots ==> Levels(slots, bits)[s.key] == LevelOf(s, bits)
  {
    hide Level;
    if slots != [] {
      var n := |slots| - 1;
      LevelsByKey(slots[..n], bits);
      assert forall s :: s in slots ==> s == slots[n] || s in slots[..n];
    }
  }

  /** The inverse of the table: which row holds a key, and which row holds a place. */
  function RowOfPlace(at: nat, shift: byte): int {
    match at
    case 0 => Pick(shift, 0, 1, -1, 2)
    case 1 => Pick(shift, 3, 4, 5, 6)
    case 2 => Pick(shift, 8, 9, 10, 19)
    case 3 => Pick(shift, 20, 11, 12, 13)
    case 4 => Pick(shift, 14, 18, 21, 7)
    case 5 => Pick(shift, 22, 23, -1, -1)
    case 6 => Pick(shift, 24, 25, 26, 27)
    case 7 => Pick(shift, 15, 16, 17, 28)
    case _ => -1
  }

  function Pick(shift: byte, a: int, b: int, c: int, d: int): int {
    if shift == 0 then a else if shift == 2 then b else if shift == 4 then c else d
  }

  function RowOfKey(key: AlarmKey): int {
    match key
    case PowerVoltageOver => 0 case PowerVoltageUnder => 1 case InsulationResistanceLow => 2
    case CommunicationFault => 3 case CLF_CellVoltage => 4 case CLF_T => 5
    case CurrentCollectorFault => 6 case BattaryCollectorFault => 7 case CellVoltageDiffExcess => 8
    case CellVoltageOver => 9 case CellVoltageUnder => 10 case T_DiffExcess => 11 case T_Over => 12
    case T_Under => 13 case OverCurrentCharge => 14 case Discharge_T_DiffExcess => 15
    case Discharge_T_Over => 16 case Discharge_T_Under => 17 case OverCurrentDischarge => 18
    case VoltageOver => 19 case VoltageUnder => 20 case SOCLower => 21 case VoltageDiffExcess => 22
    case CapacityInconsistency => 23 case MOSTemperatureFault => 24
    case ContactRodTemperatureFault => 25 case RelayOrMOSSticking => 26 case InternalFault => 27
    case InterPackBalancingFault => 28
  }

  /** Where the documentation puts each alarm: its byte, and the lowest of its two bits. */
  function PlaceOf(key: AlarmKey): (nat, byte) {
    match key
    case PowerVoltageOver => (0, 0) case PowerVoltageUnder => (0, 2) case InsulationResistanceLow => (0, 6)
    case CommunicationFault => (1, 0) case CLF_CellVoltage => (1, 2) case CLF_T => (1, 4)
    case CurrentCollectorFault => (1, 6) case BattaryCollectorFault => (4, 6)
    case CellVoltageDiffExcess => (2, 0) case CellVoltageOver => (2, 2) case CellVoltageUnder => (2, 4)
    case T_DiffExcess => (3, 2) case T_Over => (3, 4) case T_Under => (3, 6) case OverCurrentCharge => (4, 0)
    case Discharge_T_DiffExcess => (7, 0) case Discharge_T_Over => (7, 2) case Discharge_T_Under => (7, 4)
    case OverCurrentDischarge => (4, 2) case VoltageOver => (2, 6) case VoltageUnder => (3, 0)
    case SOCLower => (4, 4) case VoltageDiffExcess => (5, 0) case CapacityInconsistency => (5, 2)
    case MOSTemperatureFault => (6, 0) case ContactRodTemperatureFault => (6, 2)
    case RelayOrMOSSticking => (6, 4) case InternalFault => (6, 6) case InterPackBalancingFault => (7, 6)
  }

  predicate RowIsSound(slots: seq<AlarmSlot>, k: nat)
    requires k < |slots|
  {
    var s := slots[k];
    && s.at < ALARM_FIELD_LEN
    && (s.shift == 0 || s.shift == 2 || s.shift == 4 || s.shift == 6)
    && RowOfPlace(s.at, s.shift) == k
    && RowOfKey(s.key) == k
    && PlaceOf(s.key) == (s.at, s.shift)
  }

  lemma Rows0()
    ensures |ALARM_SLOTS| == 29 && forall k: nat :: 0 <= k < 6 ==> RowIsSound(ALARM_SLOTS, k)
  {}

  lemma Rows6()
    ensures |ALARM_SLOTS| == 29 && forall k: nat :: 6 <= k < 12 ==> RowIsSound(ALARM_SLOTS, k)
  {}

  lemma Rows12()
    ensures |ALARM_SLOTS| == 29 && forall k: nat :: 12 <= k < 18 ==> RowIsSound(ALARM_SLOTS, k)
  {}

  lemma Rows18()
    ensures |ALARM_SLOTS| == 29 && forall k: nat :: 18 <= k < 24 ==> RowIsSound(ALARM_SLOTS, k)
  {}

  lemma Rows24()
    ensures |ALARM_SLOTS| == 29 && forall k: nat :: 24 <= k < 29 ==> RowIsSound(ALARM_SLOTS, k)
  {}

  lemma SoundRows(slots: seq<AlarmSlot>)
    requires forall k: nat :: k < |slots| ==> RowIsSound(slots, k)
    ensures Aligned(slots) && Distinct(slots)
    ensures forall k :: 0 <= k < |slots| ==> slots[k].at < ALARM_FIELD_LEN
  {
    hide RowOfPlace, RowOfKey, PlaceOf;
    forall k: nat | k < |slots|
      ensures slots[k].at < ALARM_FIELD_LEN
      ensures slots[k].shift == 0 || slots[k].shift == 2 || slots[k].shift == 4 || slots[k].shift == 6
    {
      assert RowIsSound(slots, k);
    }
    forall j, k | 0 <= j < k < |slots|
      ensures slots[j].key != slots[k].key
      ensures slots[j].at == slots[k].at ==> slots[j].shift != slots[k].shift
    {
      assert RowIsSound(slots, j) && RowIsSound(slots, k);
    }
  }

  lemma AllRows()
    ensures |ALARM_SLOTS| == 29 && forall k: nat :: k < 29 ==> RowIsSound(ALARM_SLOTS, k)
  {
    hide RowIsSound;
    Rows0();
    Rows6();
    Rows12();
    Rows18();
    Rows24();
  }

  /** The table's rows have distinct keys and distinct, aligned places inside the field. */
  lemma TableIsSound()
    ensures Aligned(ALARM_SLOTS) && Distinct(ALARM_SLOTS)
    ensures forall k :: 0 <= k < |ALARM_SLOTS| ==> ALARM_SLOTS[k].at < ALARM_FIELD_LEN
  {
    hide RowIsSound;
    AllRows();
    SoundRows(ALARM_SLOTS);
  }

  /** `decode_alarms`: a map whose keys are those of the table. */
  function DecodeAlarms(bits: seq<byte>): map<AlarmKey, byte> {
    TableIsSound();
    Levels(ALARM_SLOTS, bits)
  }

  function Firing(slots: seq<AlarmSlot>, levels: map<AlarmKey, byte>): seq<(AlarmSlot, byte)>
    requires forall k :: 0 <= k < |slots| ==> slots[k].key in levels
  {
    if slots == [] then []
    else
      var level := levels[slots[0].key];
      (if level != 0 then [(slots[0], level)] else []) + Firing(slots[1..], levels)
  }

  /** `active_alarms`: the rows with a severity above 0, each with it, in the order of the table. */
  function ActiveAlarms(bits: seq<byte>): seq<(AlarmSlot, byte)> {
    TableIsSound();
    LevelsByKey(ALARM_SLOTS, bits);
    Firing(ALARM_SLOTS, DecodeAlarms(bits))
  }

  // ---- bytes as numbers ----

  function Join(a: byte, b: byte): byte {
    a | b
  }

  function Under(v: byte, cover: byte): byte {
    v & cover
  }

  /** The two bytes have no bit in common. */
  predicate Apart(a: byte, b: byte) {
    a & b == 0
  }

  function Upper(b: byte): byte {
    b >> 4
  }

  function Lower(b: byte): byte {
    b & 15
  }

  lemma Nibbles(b: byte)
    ensures ByteNumber(b) == 16 * ByteNumber(Upper(b)) + ByteNumber(Lower(b))
    ensures Upper(b) < 16 && Lower(b) < 16
  {}

  lemma DisjointNibbles(x: byte, y: byte)
    requires x < 16 && y < 16 && Apart(x, y)
    ensures ByteNumber(Join(x, y)) == ByteNumber(x) + ByteNumber(y)
  {}

  lemma NibblesOfUnion(x: byte, y: byte)
    requires Apart(x, y)
    ensures Apart(Upper(x), Upper(y)) && Apart(Lower(x), Lower(y))
    ensures Upper(Join(x, y)) == Join(Upper(x), Upper(y))
    ensures Lower(Join(x, y)) == Join(Lower(x), Lower(y))
  {}

  /** Bytes without a common bit: their union is their sum. */
  lemma DisjointSum(x: byte, y: byte)
    requires Apart(x, y)
    ensures ByteNumber(Join(x, y)) == ByteNumber(x) + ByteNumber(y)
  {
    hide ByteNumber, Upper, Lower, Join, Apart;
    NibblesOfUnion(x, y);
    Nibbles(x);
    Nibbles(y);
    Nibbles(Join(x, y));
    DisjointNibbles(Upper(x), Upper(y));
    DisjointNibbles(Lower(x), Lower(y));
  }

  function Power256(n: nat): nat {
    if n == 0 then 1 else 256 * Power256(n - 1)
  }

  /** A byte at index n of a little-endian number. */
  function Weighted(v: byte, n: nat): nat {
    ByteNumber(v) * Power256(n)
  }

  /** The field as one little-endian number. */
  function LittleEndian(bits: seq<byte>): nat {
    if bits == [] then 0
    else
      var n := |bits| - 1;
      LittleEndian(bits[..n]) + Weighted(bits[n], n)
  }

  // ---- what the alarms cover ----

  /** A severity moved back to its place in the byte. */
  function Placed(v: byte, shift: byte): byte
    requires shift <= 6
  {
    Level(v, shift) << shift
  }

  function Mask(shift: byte): byte
    requires shift <= 6
  {
    3 << shift
  }

  /** The bits of byte `at` that some alarm reads. */
  function Covered(slots: seq<AlarmSlot>, at: nat): byte
    requires Aligned(slots)
  {
    if slots == [] then 0
    else
      var n := |slots| - 1;
      Join(Covered(slots[..n], at), if slots[n].at == at then Mask(slots[n].shift) else 0)
  }

  /** All severities moved back to their places in the field and added up. */
  function SeveritySum(slots: seq<AlarmSlot>, bits: seq<byte>): nat
    requires Aligned(slots)
  {
    if slots == [] then 0
    else
      var n, s := |slots| - 1, slots[|slots| - 1];
      SeveritySum(slots[..n], bits) +
      if s.at < |bits| then Weighted(Placed(bits[s.at], s.shift), s.at) else 0
  }

  /** The bits of byte `at` that no alarm reads. */
  function Uncovered(at: nat, v: byte): byte {
    if at < ALARM_FIELD_LEN then (TableIsSound(); v & !Covered(ALARM_SLOTS, at)) else v
  }

  function Unmapped(bits: seq<byte>): nat {
    if bits == [] then 0
    else
      var n := |bits| - 1;
      Unmapped(bits[..n]) + Weighted(Uncovered(n, bits[n]), n)
  }

  // ---- `unmapped_bits` ----

  /** Python's `|` on non-negative integers. */
  function Or(a: nat, b: nat): nat
    decreases a + b
  {
    if a == 0 then b
    else if b == 0 then a
    else (if a % 2 == 1 || b % 2 == 1 then 1 else 0) + 2 * Or(a / 2, b / 2)
  }

  /** Bit n of a number. */
  predicate BitSet(a: nat, n: nat) {
    if n == 0 then a % 2 == 1 else BitSet(a / 2, n - 1)
  }

  /** A bit is set in the union exactly if it is set in one of the two. */
  lemma {:induction false} OrSetsBits(a: nat, b: nat, n: nat)
    ensures BitSet(Or(a, b), n) <==> BitSet(a, n) || BitSet(b, n)
    decreases n
  {
    if a == 0 || b == 0 {
      ZeroHasNoBit(n);
    } else if n > 0 {
      OrSetsBits(a / 2, b / 2, n - 1);
    }
  }

  lemma {:induction false} ZeroHasNoBit(n: nat)
    ensures !BitSet(0, n)
  {
    if n > 0 {
      ZeroHasNoBit(n - 1);
    }
  }

  /** Python's `v << n`. */
  function ShiftLeft(v: nat, n: nat): nat {
    v * Power2(n)
  }

  lemma {:induction false} OrAboveIsSum(a: nat, v: nat, n: nat)
    requires a < Power2(n)
    ensures Or(a, ShiftLeft(v, n)) == a + ShiftLeft(v, n)
    decreases n
  {
    if n > 0 {
      assert ShiftLeft(v, n) == 2 * ShiftLeft(v, n - 1);
      OrAboveIsSum(a / 2, v, n - 1);
    }
  }

  lemma {:induction false} PowersAgree(n: nat)
    ensures Power256(n) == Power2(8 * n)
  {
    if n > 0 {
      PowersAgree(n - 1);
      assert Power2(8 * n) == 2 * Power2(8 * n - 1) == 4 * Power2(8 * n - 2) == 8 * Power2(8 * n - 3);
      assert Power2(8 * n - 3) == 2 * Power2(8 * n - 4) == 4 * Power2(8 * n - 5) == 8 * Power2(8 * n - 6);
      assert Power2(8 * n - 6) == 2 * Power2(8 * n - 7) == 4 * Power2(8 * n - 8);
    }
  }

  lemma ByteBound(b: byte)
    ensures ByteNumber(b) < 256
  {}

  lemma ScaledBound(u: nat, v: nat, p: nat)
    requires u < p && v < 256
    ensures u + v * p < 256 * p
  {
    assert v * p <= 255 * p;
  }

  lemma {:induction false} UnmappedBound(bits: seq<byte>)
    ensures Unmapped(bits) < Power256(|bits|)
  {
    hide ByteNumber, Uncovered;
    if bits != [] {
      var n := |bits| - 1;
      UnmappedBound(bits[..n]);
      ByteBound(Uncovered(n, bits[n]));
      ScaledBound(Unmapped(bits[..n]), ByteNumber(Uncovered(n, bits[n])), Power256(n));
    }
  }

  lemma OrNextByte(bits: seq<byte>, n: nat)
    requires n < |bits|
    ensures Or(Unmapped(bits[..n]), ShiftLeft(ByteNumber(Uncovered(n, bits[n])), 8 * n)) ==
            Unmapped(bits[..n + 1])
  {
    hide ByteNumber, Uncovered, Or;
    UnmappedBound(bits[..n]);
    PowersAgree(n);
    OrAboveIsSum(Unmapped(bits[..n]), ByteNumber(Uncovered(n, bits[n])), 8 * n);
    assert bits[..n + 1][..n] == bits[..n];
  }

  /** `unmapped_bits`: two loops that build the cover and the union of what it leaves. */
  method UnmappedBits(bits: seq<byte>) returns (leftover: nat)
    ensures leftover == Unmapped(bits)
  {
    hide Covered, Mask, Or, Unmapped, ByteNumber, Power2;
    TableIsSound();
    var covered := new byte[ALARM_FIELD_LEN](_ => 0);
    NothingCovered();
    for k := 0 to |ALARM_SLOTS|
      invariant forall i :: 0 <= i < ALARM_FIELD_LEN ==> covered[i] == Covered(ALARM_SLOTS[..k], i)
    {
      var slot := ALARM_SLOTS[k];
      CoverNext(ALARM_SLOTS, k);
      covered[slot.at] := covered[slot.at] | (3 << slot.shift);
    }
    assert ALARM_SLOTS[..|ALARM_SLOTS|] == ALARM_SLOTS;
    assert forall i :: 0 <= i < ALARM_FIELD_LEN ==> covered[i] == Covered(ALARM_SLOTS, i);
    leftover := 0;
    assert bits[..0] == [];
    NothingUnmapped();
    for index := 0 to |bits|
      invariant leftover == Unmapped(bits[..index])
      invariant forall i :: 0 <= i < ALARM_FIELD_LEN ==> covered[i] == Covered(ALARM_SLOTS, i)
    {
      var mask := if index < ALARM_FIELD_LEN then !covered[index] else 0xFF;
      AllOnes(bits[index]);
      assert bits[index] & mask == Uncovered(index, bits[index]);
      OrNextByte(bits, index);
      leftover := Or(leftover, ShiftLeft(ByteNumber(bits[index] & mask), 8 * index));
    }
    assert bits[..|bits|] == bits;
  }

  lemma AllOnes(b: byte)
    ensures b & 0xFF == b
  {}

  lemma NothingCovered()
    ensures forall i: nat :: Covered(ALARM_SLOTS[..0], i) == 0
  {
    assert ALARM_SLOTS[..0] == [];
  }

  lemma NothingUnmapped()
    ensures Unmapped([]) == 0
  {}

  lemma CoverNext(slots: seq<AlarmSlot>, k: nat)
    requires Aligned(slots) && k < |slots|
    ensures forall i: nat :: Covered(slots[..k + 1], i) ==
              if slots[k].at == i then Covered(slots[..k], i) | (3 << slots[k].shift)
              else Covered(slots[..k], i)
  {
    assert slots[..k + 1][..k] == slots[..k];
  }

  // ---- conservation ----

  /** What the alarms read of one byte, each severity in its place, added up. */
  function ByteSum(slots: seq<AlarmSlot>, at: nat, v: byte): nat
    requires Aligned(slots)
  {
    if slots == [] then 0
    else
      var n, s := |slots| - 1, slots[|slots| - 1];
      ByteSum(slots[..n], at, v) + if s.at == at then ByteNumber(Placed(v, s.shift)) else 0
  }

  lemma PlacedIsMasked(v: byte, shift: byte)
    requires shift == 0 || shift == 2 || shift == 4 || shift == 6
    ensures Placed(v, shift) == Under(v, Mask(shift))
  {}

  lemma MasksDisjoint(s: byte, t: byte, c: byte)
    requires s == 0 || s == 2 || s == 4 || s == 6
    requires t == 0 || t == 2 || t == 4 || t == 6
    requires s != t && Apart(c, Mask(t))
    ensures Apart(Join(c, Mask(s)), Mask(t))
  {}

  lemma {:induction false} OtherPlacesDisjoint(slots: seq<AlarmSlot>, at: nat, shift: byte)
    requires Aligned(slots)
    requires shift == 0 || shift == 2 || shift == 4 || shift == 6
    requires forall k :: 0 <= k < |slots| && slots[k].at == at ==> slots[k].shift != shift
    ensures Apart(Covered(slots, at), Mask(shift))
  {
    hide Mask, Apart, Join;
    if slots == [] {
      NoBits(Mask(shift));
    } else {
      var n := |slots| - 1;
      OtherPlacesDisjoint(slots[..n], at, shift);
      if slots[n].at == at {
        MasksDisjoint(slots[n].shift, shift, Covered(slots[..n], at));
      } else {
        OrNothing(Covered(slots[..n], at));
      }
    }
  }

  lemma NoBits(m: byte)
    ensures Apart(0, m) && Under(m, 0) == 0
  {}

  lemma OrNothing(c: byte)
    ensures Join(c, 0) == c
  {}

  lemma UnderParts(v: byte, c: byte, m: byte)
    requires Apart(c, m)
    ensures Apart(Under(v, c), Under(v, m))
    ensures Join(Under(v, c), Under(v, m)) == Under(v, Join(c, m))
  {}

  lemma CoverOneMore(v: byte, c: byte, shift: byte)
    requires shift == 0 || shift == 2 || shift == 4 || shift == 6
    requires Apart(c, Mask(shift))
    ensures ByteNumber(Under(v, c)) + ByteNumber(Placed(v, shift)) == ByteNumber(Under(v, Join(c, Mask(shift))))
  {
    hide Mask, Placed, ByteNumber, Apart, Under, Join;
    PlacedIsMasked(v, shift);
    UnderParts(v, c, Mask(shift));
    DisjointSum(Under(v, c), Under(v, Mask(shift)));
  }

  /** Distinct places read disjoint bits, so what is read of a byte is the byte under the cover. */
  lemma {:induction false} ByteSumIsCovered(slots: seq<AlarmSlot>, at: nat, v: byte)
    requires Aligned(slots) && Distinct(slots)
    ensures ByteSum(slots, at, v) == ByteNumber(Under(v, Covered(slots, at)))
  {
    hide Mask, Placed, ByteNumber, Join, Under, Apart;
    if slots == [] {
      NothingUnder(v);
    } else {
      var n, s := |slots| - 1, slots[|slots| - 1];
      var c := Covered(slots[..n], at);
      ByteSumIsCovered(slots[..n], at, v);
      if s.at == at {
        OtherPlacesDisjoint(slots[..n], at, s.shift);
        CoverOneMore(v, c, s.shift);
      } else {
        OrNothing(c);
      }
    }
  }

  lemma NothingUnder(v: byte)
    ensures ByteNumber(Under(v, 0)) == 0
  {
    NoBits(v);
  }

  lemma Partition(v: byte, c: byte)
    ensures Apart(Under(v, c), v & !c) && Join(Under(v, c), v & !c) == v
  {}

  lemma {:induction false} NothingReadOutside(slots: seq<AlarmSlot>, at: nat, v: byte)
    requires Aligned(slots) && forall k :: 0 <= k < |slots| ==> slots[k].at != at
    ensures ByteSum(slots, at, v) == 0
  {
    hide Placed, ByteNumber;
    if slots != [] {
      NothingReadOutside(slots[..|slots| - 1], at, v);
    }
  }

  /** Every byte is what the alarms read of it plus what they do not. */
  lemma ByteIsConserved(at: nat, v: byte)
    ensures Aligned(ALARM_SLOTS) && ByteSum(ALARM_SLOTS, at, v) + ByteNumber(Uncovered(at, v)) == ByteNumber(v)
  {
    hide ByteSum, Covered, ByteNumber, Aligned, Distinct, Apart, Join, Under;
    TableIsSound();
    if at < ALARM_FIELD_LEN {
      ByteSumIsCovered(ALARM_SLOTS, at, v);
      var c := Covered(ALARM_SLOTS, at);
      Partition(v, c);
      DisjointSum(Under(v, c), v & !c);
    } else {
      NothingReadOutside(ALARM_SLOTS, at, v);
    }
  }

  lemma Distribute(a: nat, b: nat, p: nat)
    ensures (a + b) * p == a * p + b * p
  {}

  /** One more byte adds what the alarms read of it. */
  lemma {:induction false} SumNextByte(slots: seq<AlarmSlot>, bits: seq<byte>)
    requires Aligned(slots) && bits != []
    ensures var n := |bits| - 1;
            SeveritySum(slots, bits) ==
            SeveritySum(slots, bits[..n]) + ByteSum(slots, n, bits[n]) * Power256(n)
    decreases |slots|
  {
    hide Placed, ByteNumber, Power256;
    if slots != [] {
      var n, s, before := |bits| - 1, slots[|slots| - 1], slots[..|slots| - 1];
      SumNextByte(before, bits);
      Distribute(ByteSum(before, n, bits[n]), ByteNumber(Placed(bits[n], s.shift)), Power256(n));
    }
  }

  lemma {:induction false} FieldIsSum(bits: seq<byte>)
    ensures Aligned(ALARM_SLOTS) && SeveritySum(ALARM_SLOTS, bits) + Unmapped(bits) == LittleEndian(bits)
  {
    hide ByteSum, SeveritySum, ByteNumber, Uncovered, Power256, Aligned;
    TableIsSound();
    if bits == [] {
      NoSeverity(ALARM_SLOTS);
    } else {
      var n := |bits| - 1;
      FieldIsSum(bits[..n]);
      SumNextByte(ALARM_SLOTS, bits);
      ByteIsConserved(n, bits[n]);
      Distribute(ByteSum(ALARM_SLOTS, n, bits[n]), ByteNumber(Uncovered(n, bits[n])), Power256(n));
    }
  }

  /** Decoded severities shifted back to their slots and added up. */
  function DecodedSum(slots: seq<AlarmSlot>, levels: map<AlarmKey, byte>): nat
    requires Aligned(slots) && forall k :: 0 <= k < |slots| ==> slots[k].key in levels
  {
    if slots == [] then 0
    else
      var n, s := |slots| - 1, slots[|slots| - 1];
      DecodedSum(slots[..n], levels) + Weighted(levels[s.key] << s.shift, s.at)
  }

  lemma ZeroShifted(shift: byte, n: nat)
    requires shift <= 6
    ensures Weighted(0 << shift, n) == 0
  {}

  lemma {:induction false} DecodedIsSeverity(slots: seq<AlarmSlot>, levels: map<AlarmKey, byte>, bits: seq<byte>)
    requires Aligned(slots)
    requires forall k :: 0 <= k < |slots| ==>
               slots[k].key in levels && levels[slots[k].key] == LevelOf(slots[k], bits)
    ensures DecodedSum(slots, levels) == SeveritySum(slots, bits)
  {
    hide Weighted, Level;
    if slots != [] {
      var n, s := |slots| - 1, slots[|slots| - 1];
      DecodedIsSeverity(slots[..n], levels, bits);
      ZeroShifted(s.shift, s.at);
    }
  }

  /** Nothing is lost and nothing is counted twice: for a field of any length, the decoded severities
      shifted back to their slots plus the unmapped bits add up to the field as a number. */
  lemma AlarmBitsConserved(bits: seq<byte>)
    ensures Aligned(ALARM_SLOTS)
    ensures forall k :: 0 <= k < |ALARM_SLOTS| ==> ALARM_SLOTS[k].key in DecodeAlarms(bits)
    ensures DecodedSum(ALARM_SLOTS, DecodeAlarms(bits)) + Unmapped(bits) == LittleEndian(bits)
  {
    hide DecodedSum, SeveritySum, Unmapped, LittleEndian, Levels, LevelOf, Aligned, Distinct;
    TableIsSound();
    LevelsByKey(ALARM_SLOTS, bits);
    DecodedIsSeverity(ALARM_SLOTS, DecodeAlarms(bits), bits);
    FieldIsSum(bits);
  }

  lemma {:induction false} NoSeverity(slots: seq<AlarmSlot>)
    requires Aligned(slots)
    ensures SeveritySum(slots, []) == 0
  {
    if slots != [] {
      NoSeverity(slots[..|slots| - 1]);
    }
  }

  // ---- has_fault ----

  /** `BatteryReading.has_fault` on a field that has been seen. */
  predicate HasFault(bits: seq<byte>) {
    exists i :: 0 <= i < |bits| && bits[i] != 0
  }

  lemma {:induction false} FieldIsZero(bits: seq<byte>)
    ensures LittleEndian(bits) == 0 <==> !HasFault(bits)
  {
    hide ByteNumber;
    if bits != [] {
      var n := |bits| - 1;
      FieldIsZero(bits[..n]);
      assert forall i :: 0 <= i < n ==> bits[i] == bits[..n][i];
      PositiveByte(bits[n], n);
    }
  }

  lemma {:induction false} PowerPositive(n: nat)
    ensures Power256(n) > 0
  {
    if n > 0 {
      PowerPositive(n - 1);
    }
  }

  lemma ProductZero(a: nat, p: nat)
    requires p > 0
    ensures a * p == 0 <==> a == 0
  {}

  lemma PositiveByte(v: byte, n: nat)
    ensures Weighted(v, n) == 0 <==> v == 0
  {
    hide ByteNumber, Power256;
    PowerPositive(n);
    ValueZero(v);
    ProductZero(ByteNumber(v), Power256(n));
  }

  lemma ValueZero(v: byte)
    ensures ByteNumber(v) == 0 <==> v == 0
  {}

  lemma PlacedZero(v: byte, shift: byte)
    requires shift == 0 || shift == 2 || shift == 4 || shift == 6
    ensures Placed(v, shift) == 0 <==> Level(v, shift) == 0
  {}

  lemma {:induction false} SumIsZero(slots: seq<AlarmSlot>, bits: seq<byte>)
    requires Aligned(slots)
    ensures SeveritySum(slots, bits) == 0 <==>
            forall k :: 0 <= k < |slots| ==> LevelOf(slots[k], bits) == 0
  {
    hide ByteNumber, Placed, Level, Power256;
    if slots != [] {
      var n, s := |slots| - 1, slots[|slots| - 1];
      SumIsZero(slots[..n], bits);
      if s.at < |bits| {
        PositiveByte(Placed(bits[s.at], s.shift), s.at);
        PlacedZero(bits[s.at], s.shift);
      }
      assert forall k :: 0 <= k < n ==> slots[k] == slots[..n][k];
    }
  }

  lemma {:induction false} NoneFiring(slots: seq<AlarmSlot>, levels: map<AlarmKey, byte>)
    requires forall k :: 0 <= k < |slots| ==> slots[k].key in levels
    ensures Firing(slots, levels) == [] <==> forall k :: 0 <= k < |slots| ==> levels[slots[k].key] == 0
  {
    if slots != [] {
      NoneFiring(slots[1..], levels);
      assert forall k :: 1 <= k < |slots| ==> slots[k] == slots[1..][k - 1];
    }
  }

  lemma SilentMeansZero(slots: seq<AlarmSlot>, bits: seq<byte>)
    requires Aligned(slots) && Distinct(slots)
    ensures forall k :: 0 <= k < |slots| ==> slots[k].key in Levels(slots, bits)
    ensures Firing(slots, Levels(slots, bits)) == [] <==> SeveritySum(slots, bits) == 0
  {
    hide Levels, LevelOf, SeveritySum, Firing;
    LevelsByKey(slots, bits);
    NoneFiring(slots, Levels(slots, bits));
    SumIsZero(slots, bits);
  }

  /** A fault is reported exactly when some alarm is active or some unmapped bit is set. */
  lemma FaultMeansAlarmOrUnmapped(bits: seq<byte>)
    ensures HasFault(bits) <==> ActiveAlarms(bits) != [] || Unmapped(bits) != 0
  {
    hide Levels, Firing, SeveritySum, Unmapped, LittleEndian, HasFault, Aligned, Distinct;
    TableIsSound();
    SilentMeansZero(ALARM_SLOTS, bits);
    FieldIsSum(bits);
    FieldIsZero(bits);
  }

  // ---- decoding inverts packing ----

  predicate Severities(slots: seq<AlarmSlot>, levels: map<AlarmKey, byte>) {
    forall k :: 0 <= k < |slots| ==> slots[k].key in levels && levels[slots[k].key] <= 3
  }

  function PlaceAt(level: byte, shift: byte): byte
    requires shift <= 6
  {
    level << shift
  }

  /** One byte of the field: every severity of its slots in its place. */
  function PackedByte(slots: seq<AlarmSlot>, levels: map<AlarmKey, byte>, at: nat): byte
    requires Aligned(slots) && Severities(slots, levels)
  {
    if slots == [] then 0
    else
      var n, s := |slots| - 1, slots[|slots| - 1];
      Join(PackedByte(slots[..n], levels, at), if s.at == at then PlaceAt(levels[s.key], s.shift) else 0)
  }

  function PackedField(levels: map<AlarmKey, byte>): (bits: seq<byte>)
    requires Aligned(ALARM_SLOTS) && Severities(ALARM_SLOTS, levels)
    ensures |bits| == ALARM_FIELD_LEN
  {
    seq(ALARM_FIELD_LEN, i requires 0 <= i < ALARM_FIELD_LEN => PackedByte(ALARM_SLOTS, levels, i))
  }

  lemma LevelOfJoin(v: byte, level: byte, s: byte, t: byte)
    requires s == 0 || s == 2 || s == 4 || s == 6
    requires t == 0 || t == 2 || t == 4 || t == 6
    requires level <= 3
    ensures s != t ==> Level(Join(v, PlaceAt(level, t)), s) == Level(v, s)
    ensures s == t && Level(v, s) == 0 ==> Level(Join(v, PlaceAt(level, t)), s) == level
  {}

  lemma LevelOfZero(s: byte)
    requires s <= 6
    ensures Level(0, s) == 0
  {}

  lemma {:induction false} NotPacked(slots: seq<AlarmSlot>, levels: map<AlarmKey, byte>, at: nat, shift: byte)
    requires Aligned(slots) && Severities(slots, levels)
    requires shift == 0 || shift == 2 || shift == 4 || shift == 6
    requires forall k :: 0 <= k < |slots| && slots[k].at == at ==> slots[k].shift != shift
    ensures Level(PackedByte(slots, levels, at), shift) == 0
  {
    hide Level, Join, PlaceAt;
    if slots == [] {
      LevelOfZero(shift);
    } else {
      var n, s := |slots| - 1, slots[|slots| - 1];
      NotPacked(slots[..n], levels, at, shift);
      OrNothing(PackedByte(slots[..n], levels, at));
      if s.at == at {
        LevelOfJoin(PackedByte(slots[..n], levels, at), levels[s.key], shift, s.shift);
      }
    }
  }

  lemma {:induction false} PackedLevel(slots: seq<AlarmSlot>, levels: map<AlarmKey, byte>, k: nat)
    requires Aligned(slots) && Distinct(slots) && Severities(slots, levels) && k < |slots|
    ensures Level(PackedByte(slots, levels, slots[k].at), slots[k].shift) == levels[slots[k].key]
  {
    hide Level, Join, PlaceAt;
    var n, s := |slots| - 1, slots[|slots| - 1];
    var before := PackedByte(slots[..n], levels, slots[k].at);
    OrNothing(before);
    if k == n {
      NotPacked(slots[..n], levels, s.at, s.shift);
      LevelOfJoin(before, levels[s.key], s.shift, s.shift);
    } else {
      PackedLevel(slots[..n], levels, k);
      if s.at == slots[k].at {
        LevelOfJoin(before, levels[s.key], slots[k].shift, s.shift);
      }
    }
  }

  predicate HoldsPacked(slots: seq<AlarmSlot>, levels: map<AlarmKey, byte>, bits: seq<byte>)
    requires Aligned(slots) && Severities(slots, levels)
  {
    forall k :: 0 <= k < |slots| ==>
      slots[k].at < |bits| && bits[slots[k].at] == PackedByte(slots, levels, slots[k].at)
  }

  lemma PackedDecodes(slots: seq<AlarmSlot>, levels: map<AlarmKey, byte>, bits: seq<byte>)
    requires Aligned(slots) && Distinct(slots) && Severities(slots, levels)
    requires HoldsPacked(slots, levels, bits)
    ensures forall k :: 0 <= k < |slots| ==> slots[k].key in Levels(slots, bits)
    ensures forall k :: 0 <= k < |slots| ==> Levels(slots, bits)[slots[k].key] == levels[slots[k].key]
  {
    hide Level, PackedByte, Levels, Distinct;
    LevelsByKey(slots, bits);
    forall k | 0 <= k < |slots|
      ensures LevelOf(slots[k], bits) == levels[slots[k].key]
    {
      PackedLevel(slots, levels, k);
    }
  }

  /** Any assignment of severities packed into the field is decoded back, alarm by alarm. */
  lemma DecodeInvertsPacking(levels: map<AlarmKey, byte>)
    requires Severities(ALARM_SLOTS, levels)
    ensures Aligned(ALARM_SLOTS)
    ensures forall k :: 0 <= k < |ALARM_SLOTS| ==> ALARM_SLOTS[k].key in DecodeAlarms(PackedField(levels))
    ensures forall k :: 0 <= k < |ALARM_SLOTS| ==>
              DecodeAlarms(PackedField(levels))[ALARM_SLOTS[k].key] == levels[ALARM_SLOTS[k].key]
  {
    hide PackedByte, Levels, Aligned, Distinct, Severities;
    TableIsSound();
    PackedDecodes(ALARM_SLOTS, levels, PackedField(levels));
  }

  // ---- the places, in bytes ----

  lemma RowOfKeyInjective(a: AlarmKey, b: AlarmKey)
    requires RowOfKey(a) == RowOfKey(b)
    ensures a == b
  {}

  lemma RowInTable(key: AlarmKey)
    ensures 0 <= RowOfKey(key) < 29
  {}

  lemma RowOfPlaceOf(key: AlarmKey)
    ensures 0 <= RowOfKey(key) < |ALARM_SLOTS|
    ensures ALARM_SLOTS[RowOfKey(key)] == AlarmSlot(key, PlaceOf(key).0, PlaceOf(key).1)
  {
    hide RowOfKey, PlaceOf, RowOfPlace;
    AllRows();
    RowInTable(key);
    assert RowIsSound(ALARM_SLOTS, RowOfKey(key));
    RowOfKeyInjective(ALARM_SLOTS[RowOfKey(key)].key, key);
  }

  lemma LocatedLevel(slots: seq<AlarmSlot>, bits: seq<byte>, slot: AlarmSlot, k: nat)
    requires Aligned(slots) && Distinct(slots) && k < |slots| && slots[k] == slot
    ensures slot.key in Levels(slots, bits) && slot.shift <= 6
    ensures Levels(slots, bits)[slot.key] ==
            if slot.at < |bits| then (bits[slot.at] >> slot.shift) & 3 else 0
  {
    hide Levels, Distinct;
    LevelsByKey(slots, bits);
    assert slots[k] in slots;
  }

  lemma AllLevels(slots: seq<AlarmSlot>, bits: seq<byte>)
    requires Aligned(slots) && Distinct(slots)
    ensures forall k :: 0 <= k < |slots| ==> slots[k].key in Levels(slots, bits)
  {
    hide Levels, LevelOf, Distinct;
    LevelsByKey(slots, bits);
  }

  lemma TableLevels(bits: seq<byte>) returns (slots: seq<AlarmSlot>)
    ensures slots == ALARM_SLOTS && Aligned(slots) && Distinct(slots) && DecodeAlarms(bits) == Levels(slots, bits)
    ensures forall k :: 0 <= k < |slots| ==> slots[k].key in Levels(slots, bits)
    ensures ActiveAlarms(bits) == Firing(slots, Levels(slots, bits))
  {
    hide Levels, LevelOf, Firing, Aligned, Distinct;
    slots := ALARM_SLOTS;
    TableIsSound();
    AllLevels(slots, bits);
  }

  lemma RowIn(slots: seq<AlarmSlot>, key: AlarmKey)
    requires slots == ALARM_SLOTS
    ensures 0 <= RowOfKey(key) < |slots|
    ensures slots[RowOfKey(key)] == AlarmSlot(key, PlaceOf(key).0, PlaceOf(key).1)
  {
    hide RowOfKey, PlaceOf;
    RowOfPlaceOf(key);
  }

  /** Every alarm is decoded, from the two bits at its documented place; past the end of the field there is no
      fault. */
  lemma DecodedAtPlace(bits: seq<byte>, key: AlarmKey)
    ensures key in DecodeAlarms(bits)
    ensures var (at, shift) := PlaceOf(key);
            shift <= 6 && DecodeAlarms(bits)[key] == if at < |bits| then (bits[at] >> shift) & 3 else 0
  {
    hide Levels, Distinct, Aligned, RowOfKey, PlaceOf, DecodeAlarms, ActiveAlarms;
    var slots := TableLevels(bits);
    RowIn(slots, key);
    LocatedLevel(slots, bits, slots[RowOfKey(key)], RowOfKey(key));
  }

  // ---- the active alarms ----

  lemma {:induction false} FiringHas(slots: seq<AlarmSlot>, levels: map<AlarmKey, byte>, slot: AlarmSlot, level: byte)
    requires forall k :: 0 <= k < |slots| ==> slots[k].key in levels
    ensures (slot, level) in Firing(slots, levels) <==>
            slot in slots && level == levels[slot.key] && level != 0
  {
    if slots != [] {
      FiringHas(slots[1..], levels, slot, level);
      assert slots == [slots[0]] + slots[1..];
    }
  }

  lemma {:induction false} FiringPlaces(slots: seq<AlarmSlot>, levels: map<AlarmKey, byte>, i: nat, j: nat)
    returns (p: nat, q: nat)
    requires forall k :: 0 <= k < |slots| ==> slots[k].key in levels
    requires i < j < |Firing(slots, levels)|
    ensures p < q < |slots|
    ensures slots[p] == Firing(slots, levels)[i].0 && slots[q] == Firing(slots, levels)[j].0
  {
    var rest := Firing(slots[1..], levels);
    if levels[slots[0].key] == 0 {
      assert Firing(slots, levels) == rest;
      p, q := FiringPlaces(slots[1..], levels, i, j);
      p, q := p + 1, q + 1;
    } else if i > 0 {
      p, q := FiringPlaces(slots[1..], levels, i - 1, j - 1);
      p, q := p + 1, q + 1;
    } else {
      var r := FiringPlace(slots[1..], levels, j - 1);
      p, q := 0, r + 1;
    }
  }

  lemma {:induction false} FiringPlace(slots: seq<AlarmSlot>, levels: map<AlarmKey, byte>, i: nat) returns (p: nat)
    requires forall k :: 0 <= k < |slots| ==> slots[k].key in levels
    requires i < |Firing(slots, levels)|
    ensures p < |slots| && slots[p] == Firing(slots, levels)[i].0
  {
    if levels[slots[0].key] == 0 {
      assert Firing(slots, levels) == Firing(slots[1..], levels);
      p := FiringPlace(slots[1..], levels, i);
      p := p + 1;
    } else if i > 0 {
      p := FiringPlace(slots[1..], levels, i - 1);
      p := p + 1;
    } else {
      p := 0;
    }
  }

  lemma FiringExactly(slots: seq<AlarmSlot>, bits: seq<byte>, slot: AlarmSlot, level: byte)
    requires Aligned(slots) && Distinct(slots)
    ensures forall k :: 0 <= k < |slots| ==> slots[k].key in Levels(slots, bits)
    ensures (slot, level) in Firing(slots, Levels(slots, bits)) <==>
            slot in slots && slot.shift <= 6 && level == LevelOf(slot, bits) && level != 0
  {
    hide Levels, Firing, Level, Distinct;
    LevelsByKey(slots, bits);
    FiringHas(slots, Levels(slots, bits), slot, level);
  }

  /** Exactly the rows with a severity above 0 are active, each with it. */
  lemma ActiveExactly(bits: seq<byte>, slot: AlarmSlot, level: byte)
    ensures (slot, level) in ActiveAlarms(bits) <==>
            slot in ALARM_SLOTS && slot.shift <= 6 && level == LevelOf(slot, bits) && level != 0
  {
    hide Levels, Firing, LevelOf, Distinct, Aligned, DecodeAlarms, ActiveAlarms;
    var slots := TableLevels(bits);
    FiringExactly(slots, bits, slot, level);
  }

  predicate Follow(slots: seq<AlarmSlot>, a: AlarmSlot, b: AlarmSlot) {
    exists p, q :: 0 <= p < q < |slots| && slots[p] == a && slots[q] == b
  }

  predicate InOrder(slots: seq<AlarmSlot>, active: seq<(AlarmSlot, byte)>) {
    forall i, j :: 0 <= i < j < |active| ==> Follow(slots, active[i].0, active[j].0)
  }

  lemma FiringInOrder(slots: seq<AlarmSlot>, levels: map<AlarmKey, byte>)
    requires forall k :: 0 <= k < |slots| ==> slots[k].key in levels
    ensures InOrder(slots, Firing(slots, levels))
  {
    hide Firing;
    var active := Firing(slots, levels);
    forall i, j | 0 <= i < j < |active|
      ensures Follow(slots, active[i].0, active[j].0)
    {
      var p, q := FiringPlaces(slots, levels, i, j);
    }
  }

  /** They stand in the order of the table, each once. */
  lemma ActiveInOrder(bits: seq<byte>)
    ensures InOrder(ALARM_SLOTS, ActiveAlarms(bits))
  {
    hide Levels, Firing, LevelOf, Aligned, Distinct, InOrder, DecodeAlarms, ActiveAlarms;
    var slots := TableLevels(bits);
    FiringInOrder(slots, Levels(slots, bits));
  }

  // ---- the bits outside all alarms ----

  lemma LevelOfMask(c: byte, s: byte, t: byte)
    requires s == 0 || s == 2 || s == 4 || s == 6
    requires t == 0 || t == 2 || t == 4 || t == 6
    ensures Level(Join(c, Mask(t)), s) == if s == t then 3 else Level(c, s)
    ensures Level(Join(c, 0), s) == Level(c, s) && Level(0, s) == 0
  {}

  lemma {:induction false} CoverHas(slots: seq<AlarmSlot>, at: nat, shift: byte)
    requires Aligned(slots) && (shift == 0 || shift == 2 || shift == 4 || shift == 6)
    ensures (exists k :: 0 <= k < |slots| && slots[k].at == at && slots[k].shift == shift) ==>
              Level(Covered(slots, at), shift) == 3
    ensures !(exists k :: 0 <= k < |slots| && slots[k].at == at && slots[k].shift == shift) ==>
              Level(Covered(slots, at), shift) == 0
  {
    hide Level, Join, Mask;
    if slots == [] {
      LevelOfMask(0, shift, 0);
    } else {
      var n := |slots| - 1;
      CoverHas(slots[..n], at, shift);
      LevelOfMask(Covered(slots[..n], at), shift, slots[n].shift);
      assert forall k :: 0 <= k < n ==> slots[..n][k] == slots[k];
    }
  }

  lemma PlaceHasRow(at: nat, shift: byte)
    requires at < 8 && (shift == 0 || shift == 2 || shift == 4 || shift == 6)
    ensures var k := RowOfPlace(at, shift);
            if k == -1 then (at == 0 && shift == 4) || (at == 5 && (shift == 4 || shift == 6))
            else 0 <= k < |ALARM_SLOTS| && ALARM_SLOTS[k].at == at && ALARM_SLOTS[k].shift == shift
  {}

  lemma CoverOfPlace(at: nat, shift: byte)
    requires at < 8 && (shift == 0 || shift == 2 || shift == 4 || shift == 6)
    ensures Aligned(ALARM_SLOTS)
    ensures Level(Covered(ALARM_SLOTS, at), shift) ==
            if (at == 0 && shift == 4) || (at == 5 && (shift == 4 || shift == 6)) then 0 else 3
  {
    hide Level, Covered, RowOfPlace, RowOfKey, PlaceOf, Aligned, Distinct;
    TableIsSound();
    AllRows();
    CoverHas(ALARM_SLOTS, at, shift);
    PlaceHasRow(at, shift);
    forall k: nat | k < |ALARM_SLOTS| && ALARM_SLOTS[k].at == at && ALARM_SLOTS[k].shift == shift
      ensures RowOfPlace(at, shift) == k
    {
      assert RowIsSound(ALARM_SLOTS, k);
    }
  }

  lemma ByteOfLevels(c: byte, v: byte)
    ensures Level(c, 0) == 3 && Level(c, 2) == 3 && Level(c, 4) == 3 && Level(c, 6) == 3 ==> v & !c == 0
    ensures Level(c, 0) == 3 && Level(c, 2) == 3 && Level(c, 4) == 0 && Level(c, 6) == 3 ==> v & !c == v & 0x30
    ensures Level(c, 0) == 3 && Level(c, 2) == 3 && Level(c, 4) == 0 && Level(c, 6) == 0 ==> v & !c == v & 0xF0
  {}

  /** The bits that no alarm reads: bits 4 and 5 of byte 0, bits 4 to 7 of byte 5, and all past byte 7. */
  lemma UncoveredBits(at: nat, v: byte)
    ensures Uncovered(at, v) ==
            if at == 0 then v & 0x30 else if at == 5 then v & 0xF0 else if at < 8 then 0 else v
  {
    hide Level, Covered, Aligned, Distinct;
    if at < 8 {
      CoverOfPlace(at, 0);
      CoverOfPlace(at, 2);
      CoverOfPlace(at, 4);
      CoverOfPlace(at, 6);
      ByteOfLevels(Covered(ALARM_SLOTS, at), v);
    }
  }
}
