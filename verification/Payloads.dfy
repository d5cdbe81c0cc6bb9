/** The payload decoders, each with the packing it inverts. */
module Payloads {
  import opened Bytes
  import opened Wrappers
  import opened Framing
  import opened Masking

  const CELL_COUNT: nat := 16
  const CURRENT_ZERO: int := 0x8000
  const TEMPERATURE_OFFSET: int := 50
  const MAX_BATTERIES: nat := 8
  const MAX_ROUTES: nat := 16
  const ROUTES_PER_BYTE: nat := 4
  /** "SLKOPGG". */
  const SERIAL_MARKER: Text := [0x53, 0x4C, 0x4B, 0x4F, 0x50, 0x47, 0x47]

  /** The ValueError of a decoder: the payload has a size it does not accept. */
  datatype PayloadError = WrongSize(got: nat)

  // ---- cell voltages ----

  function Words(plain: seq<byte>, n: nat): (w: seq<word>)
    requires |plain| == 2 * n
    ensures |w| == n
  {
    seq(n, i requires 0 <= i < n => WordAt(plain, 2 * i))
  }

  /** `decode_cells`: 16 big-endian millivolt words. */
  function DecodeCells(payload: seq<byte>): Result<seq<word>, PayloadError> {
    if |payload| != CELL_COUNT * 2 then Err(WrongSize(|payload|))
    else Ok(Words(Unmask(payload), CELL_COUNT))
  }

  function PackAll(values: seq<word>): (s: seq<byte>)
    ensures |s| == 2 * |values|
  {
    if values == [] then [] else Pack(values[0]) + PackAll(values[1..])
  }

  lemma {:induction false} PackAllAt(values: seq<word>, i: nat)
    requires i < |values|
    ensures WordAt(PackAll(values), 2 * i) == values[i]
  {
    hide Word, High, Low;
    if i == 0 {
      PackUnpack(values[0]);
    } else {
      PackAllAt(values[1..], i - 1);
    }
  }

  /** Any sixteen millivolt values survive packing, masking and decoding. */
  lemma CellsRoundTrip(values: seq<word>)
    requires |values| == CELL_COUNT
    ensures DecodeCells(Unmask(PackAll(values))) == Ok(values)
  {
    hide WordAt, Unmask;
    UnmaskInvolution(PackAll(values));
    forall i | 0 <= i < CELL_COUNT
      ensures Words(PackAll(values), CELL_COUNT)[i] == values[i]
    {
      PackAllAt(values, i);
    }
    assert Words(PackAll(values), CELL_COUNT) == values;
  }

  /** The decoder rejects exactly the payloads that are no packing of sixteen values. */
  lemma {:induction false} CellsAccepted(payload: seq<byte>)
    ensures DecodeCells(payload).Ok? <==>
            exists values :: |values| == CELL_COUNT && payload == Unmask(PackAll(values))
    ensures DecodeCells(payload).Ok? ==> payload == Unmask(PackAll(DecodeCells(payload).value))
  {
    hide WordAt, Unmask;
    if DecodeCells(payload).Ok? {
      PackWords(Unmask(payload), CELL_COUNT);
      UnmaskInvolution(payload);
    }
  }

  lemma {:induction false} PackWords(plain: seq<byte>, n: nat)
    requires |plain| == 2 * n
    ensures PackAll(Words(plain, n)) == plain
    decreases n
  {
    hide Word, High, Low;
    if n > 0 {
      UnpackPack(plain[0], plain[1]);
      assert Words(plain, n)[1..] == Words(plain[2..], n - 1) by {
        forall i | 0 <= i < n - 1
          ensures WordAt(plain, 2 * (i + 1)) == WordAt(plain[2..], 2 * i)
        {}
      }
      PackWords(plain[2..], n - 1);
      assert plain == plain[..2] + plain[2..];
    }
  }

  // ---- pack summary ----

  /** `Summary`, with voltages, currents and energies kept in raw tenths. */
  datatype Summary = Summary(
    voltage: word, current: int, soc: word, status: byte, maxCellMv: word, minCellMv: word,
    maxCellIndex: byte, maxCellPacket: byte, maxCellCluster: byte,
    minCellIndex: byte, minCellPacket: byte, minCellCluster: byte,
    maxTemperature: int, minTemperature: int,
    maxTempIndex: byte, maxTempPacket: byte, maxTempCluster: byte,
    minTempIndex: byte, minTempPacket: byte, minTempCluster: byte,
    dailyCharge: word, dailyDischarge: word, sdStatus: Option<byte>)

  /** `decode_summary`: at least 29 bytes; a thirtieth is optional, later ones are ignored. */
  function DecodeSummary(payload: seq<byte>): Result<Summary, PayloadError> {
    if |payload| < 29 then Err(WrongSize(|payload|)) else Ok(SummaryOf(Unmask(payload)))
  }

  function SummaryOf(plain: seq<byte>): Summary
    requires |plain| >= 29
  {
    Summary(
      WordAt(plain, 0), NumberOf(WordAt(plain, 2)) - CURRENT_ZERO, WordAt(plain, 4), plain[6],
      WordAt(plain, 7), WordAt(plain, 9),
      plain[11], plain[12], plain[13], plain[14], plain[15], plain[16],
      Celsius(plain[17]), Celsius(plain[18]),
      plain[19], plain[20], plain[21], plain[22], plain[23], plain[24],
      WordAt(plain, 25), WordAt(plain, 27), if |plain| > 29 then Some(plain[29]) else None)
  }

  /** The field values a summary frame can express. */
  predicate Expressible(s: Summary) {
    && -CURRENT_ZERO <= s.current < 0x1_0000 - CURRENT_ZERO
    && -TEMPERATURE_OFFSET <= s.maxTemperature < 0x100 - TEMPERATURE_OFFSET
    && -TEMPERATURE_OFFSET <= s.minTemperature < 0x100 - TEMPERATURE_OFFSET
  }

  function RawCelsius(t: int): byte
    requires -TEMPERATURE_OFFSET <= t < 0x100 - TEMPERATURE_OFFSET
  {
    ToByte(t + TEMPERATURE_OFFSET)
  }

  /** The documented layout of a summary frame: bytes 0-10, 11-18, 19-24 and from 25 on. */
  function VoltageBytes(s: Summary): (r: seq<byte>)
    requires Expressible(s)
    ensures |r| == 11
  {
    Pack(s.voltage) + Pack(ToWord(s.current + CURRENT_ZERO)) + Pack(s.soc) + [s.status]
    + Pack(s.maxCellMv) + Pack(s.minCellMv)
  }

  function CellBytes(s: Summary): (r: seq<byte>)
    requires Expressible(s)
    ensures |r| == 8
  {
    [s.maxCellIndex, s.maxCellPacket, s.maxCellCluster, s.minCellIndex, s.minCellPacket,
     s.minCellCluster, RawCelsius(s.maxTemperature), RawCelsius(s.minTemperature)]
  }

  function SensorBytes(s: Summary): (r: seq<byte>)
    ensures |r| == 6
  {
    [s.maxTempIndex, s.maxTempPacket, s.maxTempCluster, s.minTempIndex, s.minTempPacket,
     s.minTempCluster]
  }

  function EnergyBytes(s: Summary): (r: seq<byte>)
    ensures |r| == if s.sdStatus.Some? then 5 else 4
  {
    Pack(s.dailyCharge) + Pack(s.dailyDischarge)
    + match s.sdStatus case Some(b) => [b] case None => []
  }

  function SummaryBytes(s: Summary): (r: seq<byte>)
    requires Expressible(s)
    ensures |r| == if s.sdStatus.Some? then 30 else 29
  {
    VoltageBytes(s) + CellBytes(s) + SensorBytes(s) + EnergyBytes(s)
  }

  lemma RawCelsiusRoundTrip(t: int)
    requires -TEMPERATURE_OFFSET <= t < 0x100 - TEMPERATURE_OFFSET
    ensures Celsius(RawCelsius(t)) == t
  {
    ByteHoldsNumber(t + TEMPERATURE_OFFSET);
  }

  lemma PackedAt(raw: seq<byte>, at: nat, w: word)
    requires at + 2 <= |raw| && raw[at] == High(w) && raw[at + 1] == Low(w)
    ensures WordAt(raw, at) == w
  {
    PackUnpack(w);
  }

  lemma VoltageFields(s: Summary, raw: seq<byte>)
    requires Expressible(s) && |raw| >= 11 && raw[..11] == VoltageBytes(s)
    ensures WordAt(raw, 0) == s.voltage && WordAt(raw, 2) == ToWord(s.current + CURRENT_ZERO)
    ensures WordAt(raw, 4) == s.soc && raw[6] == s.status
    ensures WordAt(raw, 7) == s.maxCellMv && WordAt(raw, 9) == s.minCellMv
  {
    hide High, Low, WordAt, ToWord;
    assert forall i :: 0 <= i < 11 ==> raw[i] == VoltageBytes(s)[i];
    PackedAt(raw, 0, s.voltage);
    PackedAt(raw, 2, ToWord(s.current + CURRENT_ZERO));
    PackedAt(raw, 4, s.soc);
    PackedAt(raw, 7, s.maxCellMv);
    PackedAt(raw, 9, s.minCellMv);
  }

  lemma EnergyFields(s: Summary, raw: seq<byte>)
    requires |raw| >= 25 && raw[25..] == EnergyBytes(s)
    ensures WordAt(raw, 25) == s.dailyCharge && WordAt(raw, 27) == s.dailyDischarge
    ensures s.sdStatus == if |raw| > 29 then Some(raw[29]) else None
  {
    hide High, Low, WordAt;
    assert forall i :: 0 <= i < |raw| - 25 ==> raw[25 + i] == EnergyBytes(s)[i];
    PackedAt(raw, 25, s.dailyCharge);
    PackedAt(raw, 27, s.dailyDischarge);
  }

  /** The decoder reads every field where the layout puts it, for all values a frame can express. */
  lemma SummaryRoundTrip(s: Summary)
    requires Expressible(s)
    ensures DecodeSummary(Unmask(SummaryBytes(s))) == Ok(s)
  {
    hide Unmask, VoltageBytes, EnergyBytes, WordAt, RawCelsius, Celsius, ToWord, NumberOf;
    var raw := SummaryBytes(s);
    UnmaskInvolution(raw);
    VoltageFields(s, raw);
    EnergyFields(s, raw);
    assert forall i :: 0 <= i < 8 ==> raw[11 + i] == CellBytes(s)[i];
    assert forall i :: 0 <= i < 6 ==> raw[19 + i] == SensorBytes(s)[i];
    WordHoldsNumber(s.current + CURRENT_ZERO);
    RawCelsiusRoundTrip(s.maxTemperature);
    RawCelsiusRoundTrip(s.minTemperature);
  }

  lemma SameCelsius(a: byte, b: byte)
    requires Celsius(a) == Celsius(b)
    ensures a == b
  {
    ByteOfItsNumber(a);
    ByteOfItsNumber(b);
  }

  lemma SameWordBytes(p: seq<byte>, q: seq<byte>, at: nat)
    requires at + 1 < |p| && at + 1 < |q| && WordAt(p, at) == WordAt(q, at)
    ensures p[at] == q[at] && p[at + 1] == q[at + 1]
  {
    UnpackPack(p[at], p[at + 1]);
    UnpackPack(q[at], q[at + 1]);
  }

  /** Every byte of a 29- or 30-byte summary is read: payloads with the same fields are the same. */
  lemma SummaryLossless(p: seq<byte>, q: seq<byte>)
    requires 29 <= |p| == |q| <= 30
    requires DecodeSummary(p) == DecodeSummary(q)
    ensures p == q
  {
    hide WordAt, Unmask;
    var a, b := Unmask(p), Unmask(q);
    SameWordBytes(a, b, 0);
    WordOfItsNumber(WordAt(a, 2));
    WordOfItsNumber(WordAt(b, 2));
    SameWordBytes(a, b, 2);
    SameWordBytes(a, b, 4);
    SameWordBytes(a, b, 7);
    SameWordBytes(a, b, 9);
    SameCelsius(a[17], b[17]);
    SameCelsius(a[18], b[18]);
    SameWordBytes(a, b, 25);
    SameWordBytes(a, b, 27);
    assert a == b;
    UnmaskInvolution(p);
    UnmaskInvolution(q);
  }

  // ---- temperatures ----

  function Celsius(raw: byte): int {
    ByteNumber(raw) - TEMPERATURE_OFFSET
  }

  /** `decode_temperatures`: one value per byte, whatever the length. */
  function DecodeTemperatures(payload: seq<byte>): (t: seq<int>)
    ensures |t| == |payload|
  {
    seq(|payload|, i requires 0 <= i < |payload| => Celsius(Unmask(payload)[i]))
  }

  /** Any sensor values in the representable range survive. */
  lemma TemperaturesRoundTrip(t: seq<int>)
    requires forall i :: 0 <= i < |t| ==> -TEMPERATURE_OFFSET <= t[i] < 0x100 - TEMPERATURE_OFFSET
    ensures DecodeTemperatures(Unmask(RawTemperatures(t))) == t
  {
    hide Unmask, RawCelsius, Celsius;
    UnmaskInvolution(RawTemperatures(t));
    forall i | 0 <= i < |t|
      ensures Celsius(RawTemperatures(t)[i]) == t[i]
    {
      RawCelsiusRoundTrip(t[i]);
    }
  }

  function RawTemperatures(t: seq<int>): (raw: seq<byte>)
    requires forall i :: 0 <= i < |t| ==> -TEMPERATURE_OFFSET <= t[i] < 0x100 - TEMPERATURE_OFFSET
    ensures |raw| == |t|
  {
    seq(|t|, i requires 0 <= i < |t| => RawCelsius(t[i]))
  }

  // ---- relay and switch routes ----

  function RoutesOfByte(b: byte): seq<byte> {
    [b & 3, (b >> 2) & 3, (b >> 4) & 3, (b >> 6) & 3]
  }

  function RoutesOf(data: seq<byte>): seq<byte> {
    if data == [] then [] else RoutesOfByte(data[0]) + RoutesOf(data[1..])
  }

  /** `decode_routes`: four values per byte, at most sixteen in all. */
  function DecodeRoutes(payload: seq<byte>): seq<byte> {
    var plain, limit := Unmask(payload), MAX_ROUTES / ROUTES_PER_BYTE;
    RoutesOf(if |plain| <= limit then plain else plain[..limit])
  }

  /** Four 2-bit route values in one byte, low bits first. */
  function PackRoutes(routes: seq<byte>): byte
    requires |routes| == 4
  {
    routes[0] | (routes[1] << 2) | (routes[2] << 4) | (routes[3] << 6)
  }

  function PackAllRoutes(routes: seq<byte>): (s: seq<byte>)
    requires |routes| % 4 == 0
    ensures |s| == |routes| / 4
  {
    if routes == [] then [] else [PackRoutes(routes[..4])] + PackAllRoutes(routes[4..])
  }

  lemma PackedFour(a: byte, b: byte, c: byte, d: byte)
    requires a < 4 && b < 4 && c < 4 && d < 4
    ensures RoutesOfByte(a | (b << 2) | (c << 4) | (d << 6)) == [a, b, c, d]
  {}

  lemma {:induction false} RoutesOfPacked(routes: seq<byte>)
    requires |routes| % 4 == 0 && forall i :: 0 <= i < |routes| ==> routes[i] < 4
    ensures RoutesOf(PackAllRoutes(routes)) == routes
    decreases |routes|
  {
    hide RoutesOfByte, PackRoutes;
    if routes != [] {
      PackedRoutes(routes[..4]);
      RoutesOfPacked(routes[4..]);
      assert routes == routes[..4] + routes[4..];
    }
  }

  lemma PackedRoutes(r: seq<byte>)
    requires |r| == 4 && forall i :: 0 <= i < 4 ==> r[i] < 4
    ensures RoutesOfByte(PackRoutes(r)) == r
  {
    hide RoutesOfByte;
    PackedFour(r[0], r[1], r[2], r[3]);
    assert r == [r[0], r[1], r[2], r[3]];
  }

  /** Up to sixteen route values survive base-4 packing, masking and decoding. */
  lemma RoutesRoundTrip(routes: seq<byte>)
    requires |routes| % 4 == 0 && |routes| <= MAX_ROUTES
    requires forall i :: 0 <= i < |routes| ==> routes[i] < 4
    ensures DecodeRoutes(Unmask(PackAllRoutes(routes))) == routes
  {
    hide RoutesOf, Unmask;
    UnmaskInvolution(PackAllRoutes(routes));
    RoutesOfPacked(routes);
  }

  lemma {:induction false} RoutesPerByte(data: seq<byte>)
    ensures |RoutesOf(data)| == 4 * |data|
    ensures forall i :: 0 <= i < |RoutesOf(data)| ==> RoutesOf(data)[i] < 4
  {
    if data != [] {
      RoutesPerByte(data[1..]);
    }
  }

  /** Four values per payload byte actually present, never more than sixteen, each from 0 to 3. */
  lemma RouteCount(payload: seq<byte>)
    ensures |DecodeRoutes(payload)| == if |payload| < 4 then 4 * |payload| else MAX_ROUTES
    ensures forall i :: 0 <= i < |DecodeRoutes(payload)| ==> DecodeRoutes(payload)[i] < 4
  {
    hide RoutesOf, Unmask;
    var plain := Unmask(payload);
    RoutesPerByte(if |plain| <= 4 then plain else plain[..4]);
  }

  // ---- the roster ----

  /** `Topology`: how many batteries the sender knows, and the serials that could be read. */
  datatype Topology = Topology(count: nat, serials: seq<Text>) {
    predicate Plausible() {
      1 <= count <= MAX_BATTERIES
    }
  }

  /** The serials readable from entry `index` on, up to the claimed count. */
  function ReadSerials(plain: seq<byte>, index: nat, count: nat): seq<Text>
    decreases count - index
  {
    var start := 1 + index * SERIAL_LENGTH;
    if index >= count || start + SERIAL_LENGTH > |plain| then []
    else
      var serial := DecodeAscii(plain[start..start + SERIAL_LENGTH]);
      if !Occurs(SERIAL_MARKER, serial) then []
      else [serial] + ReadSerials(plain, index + 1, count)
  }

  function RosterOf(payload: seq<byte>): Result<Topology, PayloadError> {
    if |payload| < 20 then Err(WrongSize(|payload|))
    else
      var plain := Unmask(payload);
      Ok(Topology(ByteNumber(plain[0]), ReadSerials(plain, 0, ByteNumber(plain[0]))))
  }

  /** `decode_topology`: the loop that stops at the first entry that does not fit or is no serial. */
  method DecodeTopology(payload: seq<byte>) returns (r: Result<Topology, PayloadError>)
    ensures r == RosterOf(payload)
  {
    hide Unmask, Occurs, DecodeAscii;
    if |payload| < 20 {
      return Err(WrongSize(|payload|));
    }
    var plain := Unmask(payload);
    var count := ByteNumber(plain[0]);
    var serials := [];
    var index := 0;
    while index < count
      invariant serials + ReadSerials(plain, index, count) == ReadSerials(plain, 0, count)
      decreases count - index
    {
      var start := 1 + index * SERIAL_LENGTH;
      var end := start + SERIAL_LENGTH;
      if end > |plain| {
        break;
      }
      var serial := DecodeAscii(plain[start..end]);
      if !Occurs(SERIAL_MARKER, serial) {
        break;
      }
      ghost var rest := ReadSerials(plain, index + 1, count);
      assert serials + ([serial] + rest) == (serials + [serial]) + rest;
      serials := serials + [serial];
      index := index + 1;
    }
    assert serials + [] == serials;
    return Ok(Topology(count, serials));
  }

  predicate IsSerial(s: seq<byte>) {
    |s| == SERIAL_LENGTH && Occurs(SERIAL_MARKER, DecodeAscii(s))
  }

  function Join(serials: seq<seq<byte>>): seq<byte> {
    if serials == [] then [] else Join(serials[..|serials| - 1]) + serials[|serials| - 1]
  }

  function Texts(serials: seq<seq<byte>>): (t: seq<Text>)
    ensures |t| == |serials|
  {
    seq(|serials|, i requires 0 <= i < |serials| => DecodeAscii(serials[i]))
  }

  lemma {:induction false} JoinAt(serials: seq<seq<byte>>, i: nat)
    requires i < |serials| && forall k :: 0 <= k < |serials| ==> |serials[k]| == SERIAL_LENGTH
    ensures |Join(serials)| == |serials| * SERIAL_LENGTH
    ensures (i + 1) * SERIAL_LENGTH <= |Join(serials)|
    ensures Join(serials)[i * SERIAL_LENGTH..(i + 1) * SERIAL_LENGTH] == serials[i]
    decreases |serials|
  {
    var n := |serials| - 1;
    if n > 0 {
      JoinAt(serials[..n], if i < n then i else 0);
    }
  }

  lemma {:induction false} ReadJoined(plain: seq<byte>, serials: seq<seq<byte>>, pad: seq<byte>, index: nat)
    requires forall k :: 0 <= k < |serials| ==> IsSerial(serials[k])
    requires |plain| > 0 && plain[1..] == Join(serials) + pad
    requires index <= |serials|
    ensures ReadSerials(plain, index, |serials|) == Texts(serials)[index..]
    decreases |serials| - index
  {
    hide Occurs, DecodeAscii;
    if index < |serials| {
      var at := index * SERIAL_LENGTH;
      JoinAt(serials, index);
      assert plain[1 + at..1 + at + SERIAL_LENGTH] == plain[1..][at..at + SERIAL_LENGTH];
      assert plain[1..][at..at + SERIAL_LENGTH] == Join(serials)[at..at + SERIAL_LENGTH];
      assert IsSerial(serials[index]);
      ReadJoined(plain, serials, pad, index + 1);
    }
  }

  /** Any roster of marker-bearing serials comes back whole, whatever follows it in the payload. */
  lemma TopologyRoundTrip(serials: seq<seq<byte>>, pad: seq<byte>)
    requires |serials| <= 255 && forall k :: 0 <= k < |serials| ==> IsSerial(serials[k])
    requires 1 + |Join(serials) + pad| >= 20
    ensures RosterOf(Unmask([ToByte(|serials|)] + Join(serials) + pad)) ==
            Ok(Topology(|serials|, Texts(serials)))
  {
    hide Unmask, IsSerial, ReadSerials, Join, Texts;
    var plain := [ToByte(|serials|)] + Join(serials) + pad;
    UnmaskInvolution(plain);
    ByteHoldsNumber(|serials|);
    assert plain[1..] == Join(serials) + pad;
    ReadJoined(plain, serials, pad, 0);
    assert Texts(serials)[0..] == Texts(serials);
  }
}
