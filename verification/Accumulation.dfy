/** What a history of frames amounts to, as a pure fold, and what the fold keeps. */
module Accumulation {
  import opened Bytes
  import opened Wrappers
  import opened Framing
  import opened Masking
  import opened Payloads
  import opened Readings
  import Parser

  const MSG_CLASS_REALTIME: word := 0x10
  const MSG_RT_SUMMARY: word := 0x1000
  const MSG_RT_ALARM: word := 0x1001
  const MSG_RT_RELAY: word := 0x1002
  const MSG_RT_SWITCH: word := 0x1003
  const MSG_RT_CELLS: word := 0x1005
  const MSG_RT_TEMPERATURES: word := 0x1021
  const MSG_RT_TOPOLOGY: word := 0x1032
  /** One of the telemetry ids that nothing decodes. */
  const MSG_RT_UNDECODED: word := 0x1051

  /** What has been gathered about one battery; absent keys of the source's dict are None. */
  datatype Part = Part(
    position: word, cells: Option<seq<word>>, cellsAt: Option<Stamp>, summary: Option<Summary>,
    temperatures: Option<seq<int>>, alarmBits: Option<seq<byte>>, relay: Option<seq<byte>>,
    switches: Option<seq<byte>>)

  function NewPart(position: word): Part {
    Part(position, None, None, None, None, None, None, None)
  }

  /** `_is_complete`. */
  predicate IsComplete(p: Part) {
    p.summary.Some? && p.cells.Some? && p.cells.value != []
  }

  /** The assembler's accumulated state. Insertion order of the dict is kept in `order`. */
  datatype Book = Book(parts: map<Text, Part>, order: seq<Text>, roster: nat,
                       unhandled: Parser.IdCounts)

  const EMPTY := Book(map[], [], 0, map[])

  // ---- one frame ----

  /** What the assembler makes of a frame's payload. */
  datatype Update =
    | Cells(cells: seq<word>)
    | PackSummary(summary: Summary)
    | Temperatures(temperatures: seq<int>)
    | AlarmField(bits: seq<byte>)
    | Relay(routes: seq<byte>)
    | Switches(routes: seq<byte>)
    | Roster(topology: Topology)
    | Malformed
    | Unhandled

  function Interpret(f: Frame): Update {
    if f.msgId == MSG_RT_CELLS then
      match DecodeCells(f.payload) case Ok(v) => Cells(v) case Err(_) => Malformed
    else if f.msgId == MSG_RT_SUMMARY then
      match DecodeSummary(f.payload) case Ok(s) => PackSummary(s) case Err(_) => Malformed
    else if f.msgId == MSG_RT_TEMPERATURES then Temperatures(DecodeTemperatures(f.payload))
    else if f.msgId == MSG_RT_ALARM && |f.payload| == 8 then AlarmField(Unmask(f.payload))
    else if f.msgId == MSG_RT_RELAY then Relay(DecodeRoutes(f.payload))
    else if f.msgId == MSG_RT_SWITCH then Switches(DecodeRoutes(f.payload))
    else if f.msgId == MSG_RT_TOPOLOGY then
      match RosterOf(f.payload) case Ok(t) => Roster(t) case Err(_) => Malformed
    else Unhandled
  }

  /** Telemetry from a battery: anything else is passed over. */
  predicate IsTelemetry(f: Frame) {
    f.MsgClass() == MSG_CLASS_REALTIME && Occurs(SERIAL_MARKER, f.serial)
  }

  /** The frame changes what a caller sees of its battery. */
  predicate Touches(f: Frame) {
    IsTelemetry(f) && !Interpret(f).Malformed? && !Interpret(f).Unhandled?
  }

  /** A frame changes its battery exactly when a decoder exists for its id and accepts its payload. */
  lemma TouchesMeansDecoded(f: Frame)
    ensures Touches(f) <==>
            IsTelemetry(f) &&
            (|| (f.msgId == 0x1005 && |f.payload| == 32)
             || (f.msgId == 0x1000 && |f.payload| >= 29)
             || (f.msgId == 0x1001 && |f.payload| == 8)
             || (f.msgId == 0x1032 && |f.payload| >= 20)
             || f.msgId == 0x1021 || f.msgId == 0x1002 || f.msgId == 0x1003)
  {
    hide Occurs, Words, SummaryOf, DecodeTemperatures, DecodeRoutes, ReadSerials, Unmask;
  }

  function ApplyUpdate(p: Part, u: Update, now: Stamp): Part {
    match u
    case Cells(v) => p.(cells := Some(v), cellsAt := Some(now))
    case PackSummary(s) => p.(summary := Some(s))
    case Temperatures(t) => p.(temperatures := Some(t))
    case AlarmField(b) => p.(alarmBits := Some(b))
    case Relay(r) => p.(relay := Some(r))
    case Switches(r) => p.(switches := Some(r))
    case Roster(_) => p
    case Malformed => p
    case Unhandled => p
  }

  function RaiseRoster(roster: nat, u: Update): nat {
    if u.Roster? && u.topology.Plausible() && u.topology.count > roster then u.topology.count
    else roster
  }

  /** A frame together with the time its notification arrived. */
  datatype Stamped = Stamped(frame: Frame, at: Stamp)

  function Step(b: Book, x: Stamped): Book {
    var f, u := x.frame, Interpret(x.frame);
    if !IsTelemetry(f) then b
    else
      var known := f.serial in b.parts;
      var part := (if known then b.parts[f.serial] else NewPart(f.position)).(position := f.position);
      Book(b.parts[f.serial := ApplyUpdate(part, u, x.at)],
           if known then b.order else b.order + [f.serial],
           RaiseRoster(b.roster, u),
           if u.Unhandled? then Parser.CountId(b.unhandled, f.msgId) else b.unhandled)
  }

  // ---- a history of frames ----

  function Fold(b: Book, h: seq<Stamped>): Book
    decreases |h|
  {
    if h == [] then b else Step(Fold(b, h[..|h| - 1]), h[|h| - 1])
  }

  function Assemble(h: seq<Stamped>): Book {
    Fold(EMPTY, h)
  }

  function TouchedBy(frames: seq<Frame>): set<Text> {
    set i | 0 <= i < |frames| && Touches(frames[i]) :: frames[i].serial
  }

  function StampAll(frames: seq<Frame>, now: Stamp): (h: seq<Stamped>)
    ensures |h| == |frames|
  {
    seq(|frames|, i requires 0 <= i < |frames| => Stamped(frames[i], now))
  }

  /** A history without its times. */
  function Bare(h: seq<Stamped>): (frames: seq<Frame>)
    ensures |frames| == |h|
  {
    seq(|h|, i requires 0 <= i < |h| => h[i].frame)
  }

  lemma {:induction false} FoldAppend(b: Book, h: seq<Stamped>, g: seq<Stamped>)
    ensures Fold(b, h + g) == Fold(Fold(b, h), g)
    decreases |g|
  {
    hide Step;
    if g == [] {
      assert h + g == h;
    } else {
      assert (h + g)[..|h + g| - 1] == h + g[..|g| - 1];
      FoldAppend(b, h, g[..|g| - 1]);
    }
  }

  // ---- the last well-formed frame wins ----

  /** The last element of a history at which `pick` yields something. */
  function Last<T>(h: seq<Stamped>, pick: Stamped -> Option<T>): Option<T>
    decreases |h|
  {
    if h == [] then None
    else if pick(h[|h| - 1]).Some? then pick(h[|h| - 1])
    else Last(h[..|h| - 1], pick)
  }

  predicate From(x: Stamped, s: Text) {
    IsTelemetry(x.frame) && x.frame.serial == s
  }

  function PositionIn(s: Text): Stamped -> Option<word> {
    x => if From(x, s) then Some(x.frame.position) else None
  }

  /** From this battery, under this message id. */
  predicate Carries(x: Stamped, s: Text, id: word) {
    From(x, s) && x.frame.msgId == id
  }

  function CellsIn(s: Text): Stamped -> Option<seq<word>> {
    x => if Carries(x, s, MSG_RT_CELLS) then ToOption(DecodeCells(x.frame.payload)) else None
  }

  function CellsTimeIn(s: Text): Stamped -> Option<Stamp> {
    x => if Carries(x, s, MSG_RT_CELLS) && DecodeCells(x.frame.payload).Ok? then Some(x.at) else None
  }

  function SummaryIn(s: Text): Stamped -> Option<Summary> {
    x => if Carries(x, s, MSG_RT_SUMMARY) then ToOption(DecodeSummary(x.frame.payload)) else None
  }

  function TemperaturesIn(s: Text): Stamped -> Option<seq<int>> {
    x => if Carries(x, s, MSG_RT_TEMPERATURES) then Some(DecodeTemperatures(x.frame.payload)) else None
  }

  function AlarmIn(s: Text): Stamped -> Option<seq<byte>> {
    x => if Carries(x, s, MSG_RT_ALARM) && |x.frame.payload| == 8 then Some(Unmask(x.frame.payload))
      else None
  }

  function RelayIn(s: Text): Stamped -> Option<seq<byte>> {
    x => if Carries(x, s, MSG_RT_RELAY) then Some(DecodeRoutes(x.frame.payload)) else None
  }

  function SwitchesIn(s: Text): Stamped -> Option<seq<byte>> {
    x => if Carries(x, s, MSG_RT_SWITCH) then Some(DecodeRoutes(x.frame.payload)) else None
  }

  /** What the history says of one battery: each field from the last frame that carries it. */
  function LastSeen(h: seq<Stamped>, s: Text): Option<Part> {
    match Last(h, PositionIn(s))
    case None => None
    case Some(position) =>
      Some(Part(position, Last(h, CellsIn(s)), Last(h, CellsTimeIn(s)), Last(h, SummaryIn(s)),
                Last(h, TemperaturesIn(s)), Last(h, AlarmIn(s)), Last(h, RelayIn(s)),
                Last(h, SwitchesIn(s))))
  }

  function PartOf(b: Book, s: Text): Option<Part> {
    if s in b.parts then Some(b.parts[s]) else None
  }

  lemma {:induction false} NeverSeen(h: seq<Stamped>, s: Text)
    requires Last(h, PositionIn(s)).None?
    ensures Last(h, CellsIn(s)).None? && Last(h, CellsTimeIn(s)).None?
    ensures Last(h, SummaryIn(s)).None? && Last(h, TemperaturesIn(s)).None?
    ensures Last(h, AlarmIn(s)).None? && Last(h, RelayIn(s)).None? && Last(h, SwitchesIn(s)).None?
    decreases |h|
  {
    hide From;
    if h != [] {
      NeverSeen(h[..|h| - 1], s);
    }
  }

  /** The accumulated part of every battery is what the last well-formed frame of each kind says. */
  lemma {:induction false} LastFrameWins(h: seq<Stamped>, s: Text)
    ensures PartOf(Assemble(h), s) == LastSeen(h, s)
    decreases |h|
  {
    hide IsTelemetry, DecodeCells, DecodeSummary, DecodeTemperatures, DecodeRoutes, RosterOf, Unmask;
    if h != [] {
      var before, x := h[..|h| - 1], h[|h| - 1];
      LastFrameWins(before, s);
      if Last(before, PositionIn(s)).None? {
        NeverSeen(before, s);
      }
    }
  }

  lemma {:induction false} LastAppend<T>(h: seq<Stamped>, g: seq<Stamped>, pick: Stamped -> Option<T>)
    ensures Last(h + g, pick) == if Last(g, pick).Some? then Last(g, pick) else Last(h, pick)
    decreases |g|
  {
    if g == [] {
      assert h + g == h;
    } else {
      assert (h + g)[..|h + g| - 1] == h + g[..|g| - 1];
      LastAppend(h, g[..|g| - 1], pick);
    }
  }

  /** Every telemetry frame of a battery, well-formed or not, sets its position. */
  lemma {:induction false} PositionAfter(b: Book, h: seq<Stamped>, s: Text)
    requires s in b.parts
    ensures s in Fold(b, h).parts
    ensures Fold(b, h).parts[s].position == GetOr(Last(h, PositionIn(s)), b.parts[s].position)
    decreases |h|
  {
    hide Interpret, IsTelemetry;
    if h != [] {
      PositionAfter(b, h[..|h| - 1], s);
    }
  }

  // ---- the roster ----

  /** The plausible battery count a well-formed topology frame claims. */
  function ClaimedBy(x: Stamped): Option<nat> {
    var p := x.frame.payload;
    if IsTelemetry(x.frame) && x.frame.msgId == MSG_RT_TOPOLOGY && |p| >= 20
       && 1 <= ByteNumber(Unmask(p)[0]) <= MAX_BATTERIES
    then Some(ByteNumber(Unmask(p)[0])) else None
  }

  /** What a topology frame claims is what its step may raise the roster to. */
  lemma ClaimRaises(b: Book, x: Stamped)
    ensures match ClaimedBy(x)
            case Some(n) => 1 <= n <= MAX_BATTERIES && Step(b, x).roster == if n > b.roster then n else b.roster
            case None => Step(b, x).roster == b.roster
  {
    hide DecodeCells, DecodeSummary, DecodeTemperatures, DecodeRoutes, ReadSerials, Unmask;
  }

  /** The roster is the largest plausible count any topology frame has claimed, and 0 if none has. */
  lemma {:induction false} RosterIsMaximum(h: seq<Stamped>)
    ensures var r := Assemble(h).roster;
            && r <= 8
            && (forall i :: 0 <= i < |h| && ClaimedBy(h[i]).Some? ==> 1 <= ClaimedBy(h[i]).value <= r)
            && (r > 0 ==> exists i :: 0 <= i < |h| && ClaimedBy(h[i]) == Some(r))
    decreases |h|
  {
    hide Step, ClaimedBy;
    if h != [] {
      var n := |h| - 1;
      var before := h[..n];
      RosterIsMaximum(before);
      ClaimRaises(Assemble(before), h[n]);
      assert forall i :: 0 <= i < n ==> h[i] == before[i];
    }
  }

  // ---- unhandled ids ----

  /** A telemetry frame under an id nothing decodes, or an alarm field of the wrong length. */
  predicate IsUnhandled(x: Stamped, id: word) {
    && IsTelemetry(x.frame) && x.frame.msgId == id
    && id != 0x1000 && id != 0x1002 && id != 0x1003 && id != 0x1005 && id != 0x1021 && id != 0x1032
    && (id == 0x1001 ==> |x.frame.payload| != 8)
  }

  function CountUnhandled(h: seq<Stamped>, id: word): nat
    decreases |h|
  {
    if h == [] then 0
    else CountUnhandled(h[..|h| - 1], id) + if IsUnhandled(h[|h| - 1], id) then 1 else 0
  }

  lemma CountedOnce(counts: Parser.IdCounts, seen: word, id: word)
    ensures Parser.CountOf(Parser.CountId(counts, seen), id) ==
            Parser.CountOf(counts, id) + if id == seen then 1 else 0
  {}

  lemma UnhandledStep(b: Book, x: Stamped, id: word)
    ensures Parser.CountOf(Step(b, x).unhandled, id) ==
            Parser.CountOf(b.unhandled, id) + if IsUnhandled(x, id) then 1 else 0
  {
    hide DecodeCells, DecodeSummary, DecodeTemperatures, DecodeRoutes, RosterOf, Unmask, IsTelemetry;
    CountedOnce(b.unhandled, x.frame.msgId, id);
  }

  /** Every telemetry frame nothing decodes is counted under its id, and nothing else is. */
  lemma {:induction false} UnhandledIsCounted(h: seq<Stamped>, id: word)
    ensures Parser.CountOf(Assemble(h).unhandled, id) == CountUnhandled(h, id)
    decreases |h|
  {
    hide Step, IsUnhandled;
    if h != [] {
      UnhandledIsCounted(h[..|h| - 1], id);
      UnhandledStep(Assemble(h[..|h| - 1]), h[|h| - 1], id);
    }
  }

  // ---- insertion order ----

  lemma {:induction false} OrderListsParts(h: seq<Stamped>)
    ensures Lists(Assemble(h).order, Assemble(h).parts.Keys)
    decreases |h|
  {
    hide Interpret, IsTelemetry;
    if h != [] {
      OrderListsParts(h[..|h| - 1]);
    }
  }

  // ---- the reading so far ----

  /** What makes the assembler show a battery: a summary, or a non-empty list of cells. */
  predicate IsVisible(p: Part) {
    p.summary.Some? || (p.cells.Some? && p.cells.value != [])
  }

  function Shown<T>(field: Option<seq<T>>): seq<T> {
    match field case Some(v) => v case None => []
  }

  /** `BatteryReading(serial=serial, **part)`: absent fields take their defaults. */
  function BatteryOf(s: Text, p: Part, now: Stamp): Battery {
    Battery(s, p.position, Shown(p.cells), p.summary, Shown(p.temperatures), None, p.alarmBits,
            Shown(p.relay), Shown(p.switches), p.cellsAt, now)
  }

  function BatteriesOf(b: Book, now: Stamp): Batteries {
    map s | s in b.parts && IsVisible(b.parts[s]) :: BatteryOf(s, b.parts[s], now)
  }

  /** The batteries of a reading in the order of its dict: the visible parts in insertion order. */
  function VisibleOrder(order: seq<Text>, parts: map<Text, Part>): seq<Text>
    decreases |order|
  {
    if order == [] then []
    else
      var n := |order| - 1;
      VisibleOrder(order[..n], parts) +
      if order[n] in parts && IsVisible(parts[order[n]]) then [order[n]] else []
  }

  /** `is_master`: the position marks a bank's gateway. */
  predicate IsGateway(b: Batteries, s: Text) {
    s in b && Low(b[s].position) == 0xA0
  }

  /** The first battery in the dict's order whose position marks it as master. */
  function FirstMaster(order: seq<Text>, b: Batteries, fallback: Option<Text>): Option<Text> {
    if order == [] then fallback
    else if IsGateway(b, order[0]) then Some(order[0])
    else FirstMaster(order[1..], b, fallback)
  }

  function ReadingOf(b: Book, address: Text, serial: Option<Text>, now: Stamp): Option<Cluster> {
    var batteries, order := BatteriesOf(b, now), VisibleOrder(b.order, b.parts);
    if batteries == map[] then None
    else
      Some(Cluster(address, FirstMaster(order, batteries, serial), batteries, order, RosterClaim(b.roster),
                   now))
  }

  /** `self._roster or None`. */
  function RosterClaim(roster: nat): Option<nat> {
    if roster == 0 then None else Some(roster)
  }

  lemma {:induction false} VisibleOrderHas(order: seq<Text>, parts: map<Text, Part>, s: Text)
    ensures s in VisibleOrder(order, parts) <==> s in order && s in parts && IsVisible(parts[s])
    decreases |order|
  {
    hide IsVisible;
    if order != [] {
      var n := |order| - 1;
      VisibleOrderHas(order[..n], parts, s);
      assert order == order[..n] + [order[n]];
    }
  }

  lemma {:induction false} VisibleOrderDistinct(order: seq<Text>, parts: map<Text, Part>)
    requires Distinct(order)
    ensures Distinct(VisibleOrder(order, parts))
    decreases |order|
  {
    hide IsVisible;
    if order != [] {
      var n := |order| - 1;
      VisibleOrderDistinct(order[..n], parts);
      VisibleOrderHas(order[..n], parts, order[n]);
    }
  }

  /** Leaving out the batteries that are not shown keeps the others in order. */
  lemma {:induction false} BeforeVisible(order: seq<Text>, parts: map<Text, Part>, s: Text, t: Text)
    requires Distinct(order)
    ensures Before(VisibleOrder(order, parts), s, t) <==>
            && Before(order, s, t)
            && s in parts && IsVisible(parts[s]) && t in parts && IsVisible(parts[t])
    decreases |order|
  {
    hide Before, IsVisible, Distinct;
    if order == [] {
      BeforeNeedsListed(order, s, t);
    } else {
      var front, last := order[..|order| - 1], order[|order| - 1];
      assert order == front + [last];
      DistinctFront(front, last);
      BeforeVisible(front, parts, s, t);
      BeforeLast(front, last, s, t);
      BeforeLast(VisibleOrder(front, parts), last, s, t);
      VisibleOrderHas(front, parts, s);
      BeforeNeedsListed(front, s, t);
      assert VisibleOrder(front, parts) + [] == VisibleOrder(front, parts);
    }
  }

  /** Every reading of an assembler lists each of its batteries once and keeps each under its own
      serial, which is all that merging it asks for. */
  lemma ReadingsAreDicts(h: seq<Stamped>, address: Text, serial: Option<Text>, now: Stamp)
    ensures var r := ReadingOf(Assemble(h), address, serial, now);
            r.Some? ==> DictOrdered(r.value) && Keyed(r.value.batteries)
  {
    hide IsVisible, FirstMaster, VisibleOrder, Assemble;
    var b := Assemble(h);
    OrderListsParts(h);
    VisibleOrderDistinct(b.order, b.parts);
    forall s
      ensures s in VisibleOrder(b.order, b.parts) <==> s in BatteriesOf(b, now)
    {
      VisibleOrderHas(b.order, b.parts, s);
    }
  }

  /** The reading shows exactly the batteries with a summary or cells, each with what the last
      well-formed frame of every kind said. */
  lemma ReadingShowsLastFrames(h: seq<Stamped>, s: Text, now: Stamp)
    ensures s in BatteriesOf(Assemble(h), now) <==>
            Last(h, SummaryIn(s)).Some? || Last(h, CellsIn(s)).Some?
    ensures s in BatteriesOf(Assemble(h), now) ==>
              var b := BatteriesOf(Assemble(h), now)[s];
              && b.serial == s && Some(b.position) == Last(h, PositionIn(s))
              && b.summary == Last(h, SummaryIn(s)) && b.cells == Shown(Last(h, CellsIn(s)))
              && b.cellsAt == Last(h, CellsTimeIn(s)) && b.alarmBits == Last(h, AlarmIn(s))
              && b.temperatures == Shown(Last(h, TemperaturesIn(s)))
              && b.relayRoutes == Shown(Last(h, RelayIn(s)))
              && b.switchRoutes == Shown(Last(h, SwitchesIn(s)))
              && b.model == None && b.updatedAt == now
  {
    hide Assemble, From;
    LastFrameWins(h, s);
    if Last(h, PositionIn(s)).None? {
      NeverSeen(h, s);
    }
    LastCellsSized(h, s);
  }

  /** There is a reading exactly if some battery is shown. It is of the present moment and of the address asked
      for, shows those batteries, and names a roster exactly if one has been claimed. */
  lemma ReadingHead(b: Book, address: Text, serial: Option<Text>, now: Stamp)
    ensures var r := ReadingOf(b, address, serial, now);
            && (r.Some? <==> exists s :: s in b.parts && IsVisible(b.parts[s]))
            && (r.Some? ==>
                  && r.value.address == address && r.value.updatedAt == now
                  && r.value.batteries == BatteriesOf(b, now)
                  && (b.roster == 0 ==> r.value.rosterCount.None?)
                  && (b.roster != 0 ==> r.value.rosterCount == Some(b.roster)))
  {
    hide FirstMaster, VisibleOrder, IsVisible, BatteryOf;
    if s :| s in b.parts && IsVisible(b.parts[s]) {
      assert s in BatteriesOf(b, now);
    }
  }

  lemma {:induction false} LastCellsSized(h: seq<Stamped>, s: Text)
    ensures Last(h, CellsIn(s)).Some? ==> |Last(h, CellsIn(s)).value| == CELL_COUNT
    decreases |h|
  {
    hide Carries;
    if h != [] {
      LastCellsSized(h[..|h| - 1], s);
    }
  }

  lemma {:induction false} NoGatewayMaster(order: seq<Text>, b: Batteries, fallback: Option<Text>)
    requires forall s :: s in order ==> !IsGateway(b, s)
    ensures FirstMaster(order, b, fallback) == fallback
    decreases |order|
  {
    hide IsGateway;
    if order != [] {
      NoGatewayMaster(order[1..], b, fallback);
    }
  }

  lemma {:induction false} GatewayMaster(order: seq<Text>, b: Batteries, fallback: Option<Text>, i: nat)
    requires i < |order| && IsGateway(b, order[i]) && forall j :: 0 <= j < i ==> !IsGateway(b, order[j])
    ensures FirstMaster(order, b, fallback) == Some(order[i])
    decreases i
  {
    hide IsGateway;
    if i > 0 {
      assert order[1..][i - 1] == order[i];
      GatewayMaster(order[1..], b, fallback, i - 1);
    }
  }

  lemma {:induction false} FirstMasterAppend(x: seq<Text>, y: seq<Text>, b: Batteries, fallback: Option<Text>)
    ensures FirstMaster(x + y, b, fallback) == FirstMaster(x, b, FirstMaster(y, b, fallback))
    decreases |x|
  {
    hide IsGateway;
    if x == [] {
      assert x + y == y;
    } else {
      assert (x + y)[1..] == x[1..] + y;
      FirstMasterAppend(x[1..], y, b, fallback);
    }
  }

  /** Batteries that are not shown play no part in the search for the master. */
  lemma {:induction false} FirstMasterVisible(
    order: seq<Text>, parts: map<Text, Part>, b: Batteries, fallback: Option<Text>)
    requires forall s :: s in b ==> s in parts && IsVisible(parts[s])
    ensures FirstMaster(VisibleOrder(order, parts), b, fallback) == FirstMaster(order, b, fallback)
    decreases |order|
  {
    hide IsVisible;
    if order != [] {
      var n := |order| - 1;
      var last := if order[n] in parts && IsVisible(parts[order[n]]) then [order[n]] else [];
      FirstMasterAppend(VisibleOrder(order[..n], parts), last, b, fallback);
      FirstMasterAppend(order[..n], [order[n]], b, fallback);
      FirstMasterVisible(order[..n], parts, b, FirstMaster([order[n]], b, fallback));
      assert order == order[..n] + [order[n]];
    }
  }

  lemma {:induction false} FirstMasterSame(order: seq<Text>, b: Batteries, c: Batteries, fallback: Option<Text>)
    requires forall s :: s in order ==> (IsGateway(b, s) <==> IsGateway(c, s))
    ensures FirstMaster(order, b, fallback) == FirstMaster(order, c, fallback)
    decreases |order|
  {
    hide IsGateway;
    if order != [] && !IsGateway(b, order[0]) {
      FirstMasterSame(order[1..], b, c, fallback);
    }
  }

  /** A gateway of the bank before which none is listed. */
  predicate Leads(order: seq<Text>, b: Batteries, s: Text) {
    exists i :: 0 <= i < |order| && order[i] == s && IsGateway(b, s)
                && forall j :: 0 <= j < i ==> !IsGateway(b, order[j])
  }

  /** Who is named master: the one that leads the bank, or the configured one where no gateway is. */
  lemma {:induction false} MasterIs(order: seq<Text>, b: Batteries, fallback: Option<Text>, named: Option<Text>)
    ensures FirstMaster(order, b, fallback) == named <==>
            || (named.Some? && Leads(order, b, named.value))
            || (named == fallback && forall s :: s in order ==> !IsGateway(b, s))
  {
    hide IsGateway, FirstMaster;
    if i :| 0 <= i < |order| && IsGateway(b, order[i]) {
      var k := FirstGateway(order, b, i);
      GatewayMaster(order, b, fallback, k);
      assert Leads(order, b, order[k]);
    } else {
      NoGatewayMaster(order, b, fallback);
    }
  }

  lemma {:induction false} FirstGateway(order: seq<Text>, b: Batteries, i: nat) returns (k: nat)
    requires i < |order| && IsGateway(b, order[i])
    ensures k < |order| && IsGateway(b, order[k]) && forall j :: 0 <= j < k ==> !IsGateway(b, order[j])
  {
    hide IsGateway;
    k := i;
    if j :| 0 <= j < i && IsGateway(b, order[j]) {
      k := FirstGateway(order, b, j);
    }
  }
}
