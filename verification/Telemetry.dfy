/** What each kind of telemetry frame tells of its battery, from the numbers in its unmasked payload. */
module Telemetry {
  import opened Bytes
  import opened Wrappers
  import opened Framing
  import opened Masking
  import opened Payloads
  import opened Readings
  import opened Accumulation

  /** A frame is taken in exactly if its id lies in the realtime class and the letters SLKOPGG stand
      somewhere in its serial. */
  lemma TakenInIff(f: Frame)
    ensures IsTelemetry(f) <==>
            && 0x1000 <= f.msgId <= 0x10FF
            && exists before, after: Text ::
                 f.serial == before + [0x53, 0x4C, 0x4B, 0x4F, 0x50, 0x47, 0x47] + after
  {
    hide Occurs;
    OccursIff(SERIAL_MARKER, f.serial);
    ClassOfId(f);
  }

  lemma ClassOfId(f: Frame)
    ensures f.MsgClass() == MSG_CLASS_REALTIME <==> 0x1000 <= f.msgId <= 0x10FF
  {}

  /** The battery's part after one frame of its own. */
  function Told(b: Book, f: Frame, at: Stamp): Part
    requires IsTelemetry(f)
  {
    Step(b, Stamped(f, at)).parts[f.serial]
  }

  /** The number at a place of a payload, big-endian. */
  function NumberAt(plain: seq<byte>, at: nat): nat
    requires at + 1 < |plain|
  {
    256 * ByteNumber(plain[at]) + ByteNumber(plain[at + 1])
  }

  lemma WordIsNumber(plain: seq<byte>, at: nat)
    requires at + 1 < |plain|
    ensures NumberOf(WordAt(plain, at)) == NumberAt(plain, at)
  {
    hide NumberOf, ByteNumber, Word;
    PairNumber(plain[at], plain[at + 1]);
  }

  /** Cells, id 1005: sixteen numbers, and the time of the frame. */
  lemma CellsTold(b: Book, f: Frame, at: Stamp)
    requires IsTelemetry(f) && f.msgId == 0x1005 && |f.payload| == 32
    ensures var p, cells := Unmask(f.payload), Told(b, f, at).cells;
            && cells.Some? && |cells.value| == 16
            && Told(b, f, at).cellsAt == Some(at)
            && forall i :: 0 <= i < 16 ==> NumberOf(cells.value[i]) == NumberAt(p, 2 * i)
  {
    hide IsTelemetry, Unmask, NumberOf, NumberAt, WordAt;
    var p := Unmask(f.payload);
    forall i | 0 <= i < 16
      ensures NumberOf(WordAt(p, 2 * i)) == NumberAt(p, 2 * i)
    {
      WordIsNumber(p, 2 * i);
    }
  }

  /** The numbers of a pack summary, field by field. */
  predicate Summarises(s: Summary, p: seq<byte>)
    requires |p| >= 29
  {
    && NumberOf(s.voltage) == NumberAt(p, 0)
    && s.current == NumberAt(p, 2) - 32768
    && NumberOf(s.soc) == NumberAt(p, 4)
    && s.status == p[6]
    && NumberOf(s.maxCellMv) == NumberAt(p, 7)
    && NumberOf(s.minCellMv) == NumberAt(p, 9)
    && [s.maxCellIndex, s.maxCellPacket, s.maxCellCluster] == p[11..14]
    && [s.minCellIndex, s.minCellPacket, s.minCellCluster] == p[14..17]
    && s.maxTemperature == ByteNumber(p[17]) - 50
    && s.minTemperature == ByteNumber(p[18]) - 50
    && [s.maxTempIndex, s.maxTempPacket, s.maxTempCluster] == p[19..22]
    && [s.minTempIndex, s.minTempPacket, s.minTempCluster] == p[22..25]
    && NumberOf(s.dailyCharge) == NumberAt(p, 25)
    && NumberOf(s.dailyDischarge) == NumberAt(p, 27)
    && s.sdStatus == if |p| >= 30 then Some(p[29]) else None
  }

  lemma SummaryReads(p: seq<byte>)
    requires |p| >= 29
    ensures Summarises(SummaryOf(p), p)
  {
    hide NumberOf, ByteNumber, WordAt, NumberAt;
    WordIsNumber(p, 0);
    WordIsNumber(p, 2);
    WordIsNumber(p, 4);
    WordIsNumber(p, 7);
    WordIsNumber(p, 9);
    WordIsNumber(p, 25);
    WordIsNumber(p, 27);
  }

  /** Pack summary, id 1000. */
  lemma SummaryTold(b: Book, f: Frame, at: Stamp)
    requires IsTelemetry(f) && f.msgId == 0x1000 && |f.payload| >= 29
    ensures Told(b, f, at).summary.Some? && Summarises(Told(b, f, at).summary.value, Unmask(f.payload))
  {
    hide IsTelemetry, Unmask, SummaryOf, Summarises;
    SummaryReads(Unmask(f.payload));
  }

  /** Temperatures, id 1021: one sensor per byte, from -50 to 205 degrees. */
  lemma TemperaturesTold(b: Book, f: Frame, at: Stamp)
    requires IsTelemetry(f) && f.msgId == 0x1021
    ensures var p, t := Unmask(f.payload), Told(b, f, at).temperatures;
            && t.Some? && |t.value| == |p|
            && forall i :: 0 <= i < |p| ==> t.value[i] == ByteNumber(p[i]) - 50 && -50 <= t.value[i] <= 205
  {
    hide IsTelemetry, Unmask;
    forall x: byte
      ensures ByteNumber(x) < 256
    {
      ByteOfItsNumber(x);
    }
  }

  /** Alarm field, id 1001: the eight bytes themselves. */
  lemma AlarmTold(b: Book, f: Frame, at: Stamp)
    requires IsTelemetry(f) && f.msgId == 0x1001 && |f.payload| == 8
    ensures Told(b, f, at).alarmBits == Some(Unmask(f.payload))
  {
    hide IsTelemetry, Unmask;
  }

  /** Four values below 4 for each byte, which they make up from its lowest bits to its highest. */
  predicate RoutesAre(routes: seq<byte>, p: seq<byte>) {
    && |routes| == 4 * |p|
    && forall i :: 0 <= i < |p| ==> FourMake(routes[4 * i..4 * i + 4], p[i])
  }

  predicate FourMake(r: seq<byte>, b: byte) {
    && |r| == 4 && r[0] < 4 && r[1] < 4 && r[2] < 4 && r[3] < 4
    && b == r[0] | (r[1] << 2) | (r[2] << 4) | (r[3] << 6)
  }

  lemma RoutesInByte(b: byte)
    ensures FourMake(RoutesOfByte(b), b)
  {}

  lemma {:induction false} RoutesAt(p: seq<byte>, i: nat)
    requires i < |p|
    ensures 4 * i + 4 <= |RoutesOf(p)| && RoutesOf(p)[4 * i..4 * i + 4] == RoutesOfByte(p[i])
  {
    hide RoutesOfByte;
    RoutesInByte(p[0]);
    if i > 0 {
      RoutesAt(p[1..], i - 1);
      FourLong(p[0]);
      assert RoutesOf(p)[4 * i..4 * i + 4] == RoutesOf(p[1..])[4 * (i - 1)..4 * (i - 1) + 4];
    }
  }

  lemma FourLong(b: byte)
    ensures |RoutesOfByte(b)| == 4
  {}

  lemma RoutesRead(p: seq<byte>)
    ensures RoutesAre(RoutesOf(p), p)
  {
    hide RoutesOfByte, FourMake, RoutesOf;
    RoutesPerByte(p);
    forall i | 0 <= i < |p|
      ensures FourMake(RoutesOf(p)[4 * i..4 * i + 4], p[i])
    {
      RoutesAt(p, i);
      RoutesInByte(p[i]);
    }
  }

  /** The first four bytes of a payload, which is as far as route values are read. */
  function FirstFour(p: seq<byte>): seq<byte> {
    if |p| <= 4 then p else p[..4]
  }

  /** Relays, id 1002. */
  lemma RelayTold(b: Book, f: Frame, at: Stamp)
    requires IsTelemetry(f) && f.msgId == 0x1002
    ensures Told(b, f, at).relay.Some?
    ensures RoutesAre(Told(b, f, at).relay.value, FirstFour(Unmask(f.payload)))
  {
    hide IsTelemetry, Unmask, RoutesAre, RoutesOf;
    RoutesRead(FirstFour(Unmask(f.payload)));
  }

  /** Switches, id 1003. */
  lemma SwitchesTold(b: Book, f: Frame, at: Stamp)
    requires IsTelemetry(f) && f.msgId == 0x1003
    ensures Told(b, f, at).switches.Some?
    ensures RoutesAre(Told(b, f, at).switches.value, FirstFour(Unmask(f.payload)))
  {
    hide IsTelemetry, Unmask, RoutesAre, RoutesOf;
    RoutesRead(FirstFour(Unmask(f.payload)));
  }

  /** Topology, id 1032: a count from 1 to 8 raises the roster, any other is ignored. */
  lemma TopologyTold(b: Book, f: Frame, at: Stamp)
    requires IsTelemetry(f) && f.msgId == 0x1032 && |f.payload| >= 20
    ensures var n, after := ByteNumber(Unmask(f.payload)[0]), Step(b, Stamped(f, at));
            after.roster == if 1 <= n <= 8 && n > b.roster then n else b.roster
  {
    hide IsTelemetry, Unmask, ReadSerials;
  }

  /** Serials of nineteen characters follow the count, each with the marker's letters in it. */
  lemma RosterReads(payload: seq<byte>, i: nat)
    requires |payload| >= 20
    ensures RosterOf(payload).Ok?
    ensures var p, t := Unmask(payload), RosterOf(payload).value;
            && t.count == ByteNumber(p[0]) && |t.serials| <= t.count
            && (i < |t.serials| ==>
                  && 20 + 19 * i <= |p| && t.serials[i] == DecodeAscii(p[1 + 19 * i..20 + 19 * i])
                  && exists before, after: Text ::
                       t.serials[i] == before + [0x53, 0x4C, 0x4B, 0x4F, 0x50, 0x47, 0x47] + after)
            && (i == |t.serials| < t.count && 20 + 19 * i <= |p| ==>
                  !exists before, after: Text ::
                     DecodeAscii(p[1 + 19 * i..20 + 19 * i])
                     == before + [0x53, 0x4C, 0x4B, 0x4F, 0x50, 0x47, 0x47] + after)
  {
    hide Unmask, DecodeAscii, Occurs;
    var p := Unmask(payload);
    SerialsRead(p, 0, ByteNumber(p[0]), i);
    if i < |RosterOf(payload).value.serials| {
      OccursIff(SERIAL_MARKER, RosterOf(payload).value.serials[i]);
    } else if 20 + 19 * i <= |p| {
      OccursIff(SERIAL_MARKER, DecodeAscii(p[1 + 19 * i..20 + 19 * i]));
    }
  }

  lemma {:induction false} SerialsRead(p: seq<byte>, index: nat, count: nat, i: nat)
    ensures var t := ReadSerials(p, index, count);
            && |t| <= (if count > index then count - index else 0)
            && var at := 1 + 19 * (index + i);
               && (i < |t| ==>
                     && at + 19 <= |p| && t[i] == DecodeAscii(p[at..at + 19])
                     && Occurs(SERIAL_MARKER, t[i]))
               && (i == |t| < count - index && at + 19 <= |p| ==>
                     !Occurs(SERIAL_MARKER, DecodeAscii(p[at..at + 19])))
    decreases count - index
  {
    hide Occurs, DecodeAscii;
    var start := 1 + index * SERIAL_LENGTH;
    if index < count && start + SERIAL_LENGTH <= |p|
       && Occurs(SERIAL_MARKER, DecodeAscii(p[start..start + SERIAL_LENGTH])) {
      SerialsRead(p, index + 1, count, if i > 0 then i - 1 else 0);
    }
  }
}
