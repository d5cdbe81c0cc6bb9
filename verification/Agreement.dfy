/** Merging the readings of two polls against accumulating both polls in one assembler. */
module Agreement {
  import opened Bytes
  import opened Wrappers
  import opened Framing
  import opened Masking
  import opened Payloads
  import opened Readings
  import opened Accumulation

  // ---- accumulating more lays the new parts over the old ----

  /** The later part on top of the earlier one, field by field. */
  function Overlay(p: Part, q: Part): Part {
    Part(q.position, OrOption(q.cells, p.cells), OrOption(q.cellsAt, p.cellsAt),
         OrOption(q.summary, p.summary), OrOption(q.temperatures, p.temperatures),
         OrOption(q.alarmBits, p.alarmBits), OrOption(q.relay, p.relay),
         OrOption(q.switches, p.switches))
  }

  function OverlayMaybe(p: Option<Part>, q: Option<Part>): Option<Part> {
    if p.None? then q else if q.None? then p else Some(Overlay(p.value, q.value))
  }

  lemma OverlayUpdate(p: Part, q: Part, position: word, u: Update, now: Stamp)
    ensures Overlay(p, ApplyUpdate(q.(position := position), u, now)) ==
            ApplyUpdate(Overlay(p, q).(position := position), u, now)
    ensures Overlay(p, ApplyUpdate(NewPart(position), u, now)) ==
            ApplyUpdate(p.(position := position), u, now)
  {
    match u
    case Cells(v) =>
    case PackSummary(s) =>
    case Temperatures(t) =>
    case AlarmField(bits) =>
    case Relay(r) =>
    case Switches(r) =>
    case _ =>
  }

  /** What one step does to the part of one battery. */
  lemma StepAt(b: Book, x: Stamped, s: Text)
    ensures PartOf(Step(b, x), s) ==
            if !From(x, s) then PartOf(b, s)
            else
              var p := if s in b.parts then b.parts[s] else NewPart(x.frame.position);
              Some(ApplyUpdate(p.(position := x.frame.position), Interpret(x.frame), x.at))
  {
    hide Interpret, IsTelemetry, ApplyUpdate;
  }

  /** Accumulating g after h is accumulating g alone and laying it over what h amounts to. */
  lemma {:induction false} FoldIsOverlay(h: seq<Stamped>, g: seq<Stamped>, s: Text)
    ensures PartOf(Assemble(h + g), s) == OverlayMaybe(PartOf(Assemble(h), s), PartOf(Assemble(g), s))
    decreases |g|
  {
    hide Interpret, From, ApplyUpdate, Overlay, Step;
    if g == [] {
      assert h + g == h;
    } else {
      var before, x := g[..|g| - 1], g[|g| - 1];
      assert (h + g)[..|h + g| - 1] == h + before;
      FoldIsOverlay(h, before, s);
      StepAt(Assemble(h + before), x, s);
      StepAt(Assemble(before), x, s);
      var p, q := PartOf(Assemble(h), s), PartOf(Assemble(before), s);
      if p.Some? {
        OverlayUpdate(p.value, if q.Some? then q.value else p.value, x.frame.position,
                      Interpret(x.frame), x.at);
      }
    }
  }

  // ---- what every accumulated part satisfies ----

  /** Cells come with their time, and are never empty. */
  predicate WellFormed(p: Part) {
    && (p.cells.Some? <==> p.cellsAt.Some?)
    && (p.cells.Some? ==> p.cells.value != [])
  }

  lemma InterpretedCells(f: Frame)
    requires Interpret(f).Cells?
    ensures Interpret(f).cells != []
  {}

  lemma {:induction false} PartsWellFormed(h: seq<Stamped>, s: Text)
    ensures PartOf(Assemble(h), s).Some? ==> WellFormed(PartOf(Assemble(h), s).value)
    decreases |h|
  {
    hide Interpret, From, Step;
    if h != [] {
      var before, x := h[..|h| - 1], h[|h| - 1];
      PartsWellFormed(before, s);
      StepAt(Assemble(before), x, s);
      if Interpret(x.frame).Cells? {
        InterpretedCells(x.frame);
      }
    }
  }

  // ---- the two ways to combine two polls ----

  /** Everything a battery reading says except when it was produced. */
  function Telemetry(b: Option<Battery>): Option<Battery> {
    match b case Some(v) => Some(v.(updatedAt := 0)) case None => None
  }

  function Get(b: Batteries, s: Text): Option<Battery> {
    if s in b then Some(b[s]) else None
  }

  function View(p: Option<Part>, s: Text, now: Stamp): Option<Battery> {
    if p.Some? && IsVisible(p.value) then Some(BatteryOf(s, p.value, now)) else None
  }

  function MergeViews(s: Text, p: Option<Battery>, q: Option<Battery>): Option<Battery> {
    if p.None? then q else if q.None? then p else Some(MergeBattery(s, q.value, p.value))
  }

  lemma ViewIsReading(b: Book, s: Text, now: Stamp)
    ensures Get(BatteriesOf(b, now), s) == View(PartOf(b, s), s, now)
  {}

  lemma MergedView(p: Batteries, q: Batteries, s: Text)
    ensures Get(MergeBatteries(p, q), s) == MergeViews(s, Get(p, s), Get(q, s))
  {
    hide MergeBattery;
  }

  /** An optional list the reading shows as empty. */
  predicate Blank<T(==)>(f: Option<seq<T>>) {
    f == None || f == Some([])
  }

  /** The later poll does not blank out a list the earlier one had filled. */
  predicate NotBlanked<T(==)>(p: Option<seq<T>>, q: Option<seq<T>>) {
    q == Some([]) ==> Blank(p)
  }

  /** When merging two readings of one battery equals accumulating both polls. */
  predicate MergeAgrees(p: Part, q: Part) {
    if IsVisible(p) && IsVisible(q) then
      // Falsy values of the later poll are taken for absent ones.
      && (q.position == 0 ==> p.position == 0)
      && NotBlanked(p.temperatures, q.temperatures)
      && NotBlanked(p.relay, q.relay)
      && NotBlanked(p.switches, q.switches)
    else if IsVisible(q) then
      // The earlier poll never showed the battery, so nothing of it can be carried forward.
      && (Blank(p.temperatures) || q.temperatures.Some?)
      && (p.alarmBits.None? || q.alarmBits.Some?)
      && (Blank(p.relay) || q.relay.Some?)
      && (Blank(p.switches) || q.switches.Some?)
    else if IsVisible(p) then
      // The later poll does not show the battery, so nothing of it arrives.
      && q.position == p.position
      && (q.temperatures.Some? ==> Shown(q.temperatures) == Shown(p.temperatures))
      && (q.alarmBits.Some? ==> q.alarmBits == p.alarmBits)
      && (q.relay.Some? ==> Shown(q.relay) == Shown(p.relay))
      && (q.switches.Some? ==> Shown(q.switches) == Shown(p.switches))
    else true
  }

  lemma OverlayVisible(p: Part, q: Part)
    requires WellFormed(p) && WellFormed(q)
    ensures IsVisible(Overlay(p, q)) <==> IsVisible(p) || IsVisible(q)
  {}

  /** The two combinations of what the polls gathered about one battery show the same. */
  predicate SameShown(s: Text, p: Part, q: Part, now: Stamp) {
    Telemetry(MergeViews(s, View(Some(p), s, now), View(Some(q), s, now)))
    == Telemetry(View(Some(Overlay(p, q)), s, now))
  }

  lemma AgreesBothVisible(p: Part, q: Part, s: Text, now: Stamp)
    requires WellFormed(p) && WellFormed(q) && IsVisible(p) && IsVisible(q)
    ensures SameShown(s, p, q, now) <==> MergeAgrees(p, q)
  {
    OverlayVisible(p, q);
    hide IsVisible;
  }

  lemma HiddenPart(p: Part)
    requires WellFormed(p) && !IsVisible(p)
    ensures p.summary.None? && p.cells.None? && p.cellsAt.None?
  {}

  lemma AgreesLaterVisible(p: Part, q: Part, s: Text, now: Stamp)
    requires WellFormed(p) && WellFormed(q) && !IsVisible(p) && IsVisible(q)
    ensures SameShown(s, p, q, now) <==> MergeAgrees(p, q)
  {
    OverlayVisible(p, q);
    HiddenPart(p);
    hide IsVisible, WellFormed;
  }

  lemma AgreesEarlierVisible(p: Part, q: Part, s: Text, now: Stamp)
    requires WellFormed(p) && WellFormed(q) && IsVisible(p) && !IsVisible(q)
    ensures SameShown(s, p, q, now) <==> MergeAgrees(p, q)
  {
    OverlayVisible(p, q);
    HiddenPart(q);
    hide IsVisible, WellFormed;
  }

  lemma AgreesForParts(p: Part, q: Part, s: Text, now: Stamp)
    requires WellFormed(p) && WellFormed(q)
    ensures SameShown(s, p, q, now) <==> MergeAgrees(p, q)
  {
    hide BatteryOf, MergeBattery, Overlay, WellFormed;
    if IsVisible(p) && IsVisible(q) {
      hide SameShown, MergeAgrees;
      AgreesBothVisible(p, q, s, now);
    } else if IsVisible(q) {
      hide SameShown, MergeAgrees;
      AgreesLaterVisible(p, q, s, now);
    } else if IsVisible(p) {
      hide SameShown, MergeAgrees;
      AgreesEarlierVisible(p, q, s, now);
    } else {
      OverlayVisible(p, q);
    }
  }

  /** For every battery, merging the readings of two polls gives the telemetry that one assembler fed
      both polls would give, if and only if the guard holds of what the two polls gathered. */
  lemma MergeAgreesIff(h: seq<Stamped>, g: seq<Stamped>, s: Text, now: Stamp)
    ensures
      var p, q := PartOf(Assemble(h), s), PartOf(Assemble(g), s);
      var merged := MergeBatteries(BatteriesOf(Assemble(h), now), BatteriesOf(Assemble(g), now));
      Telemetry(Get(merged, s)) == Telemetry(Get(BatteriesOf(Assemble(h + g), now), s)) <==>
      (p.Some? && q.Some? ==> MergeAgrees(p.value, q.value))
  {
    hide MergeBatteries, BatteriesOf, MergeBattery, Overlay, MergeAgrees, IsVisible, BatteryOf, Assemble;
    var p, q := PartOf(Assemble(h), s), PartOf(Assemble(g), s);
    FoldIsOverlay(h, g, s);
    PartsWellFormed(h, s);
    PartsWellFormed(g, s);
    ViewIsReading(Assemble(h), s, now);
    ViewIsReading(Assemble(g), s, now);
    ViewIsReading(Assemble(h + g), s, now);
    MergedView(BatteriesOf(Assemble(h), now), BatteriesOf(Assemble(g), now), s);
    if p.Some? && q.Some? {
      AgreesForParts(p.value, q.value, s, now);
    }
  }

  /** The usual case: a battery each poll either misses or shows, at a non-zero position and without
      empty lists, merges to exactly what accumulation gives. */
  lemma MergeAgreesWithAccumulation(h: seq<Stamped>, g: seq<Stamped>, s: Text, now: Stamp)
    requires forall p :: p in {PartOf(Assemble(h), s), PartOf(Assemble(g), s)} && p.Some? ==>
               && IsVisible(p.value) && p.value.position != 0
               && p.value.temperatures != Some([]) && p.value.relay != Some([])
               && p.value.switches != Some([])
    ensures Telemetry(Get(MergeBatteries(BatteriesOf(Assemble(h), now), BatteriesOf(Assemble(g), now)), s))
            == Telemetry(Get(BatteriesOf(Assemble(h + g), now), s))
  {
    hide MergeBatteries, BatteriesOf, Assemble, IsVisible, Telemetry;
    MergeAgreesIff(h, g, s, now);
    assert PartOf(Assemble(h), s) in {PartOf(Assemble(h), s), PartOf(Assemble(g), s)};
    assert PartOf(Assemble(g), s) in {PartOf(Assemble(h), s), PartOf(Assemble(g), s)};
  }

  /** A summary frame at the given position, as the only frame of a poll. */
  function OneSummary(s: Text, position: word, payload: seq<byte>): seq<Stamped> {
    [Stamped(Frame(MSG_RT_SUMMARY, s, position, 0, payload), 0)]
  }

  lemma OneSummaryPart(s: Text, position: word, payload: seq<byte>)
    requires Occurs(SERIAL_MARKER, s) && |payload| >= 29
    ensures var p := PartOf(Assemble(OneSummary(s, position, payload)), s);
            p.Some? && IsVisible(p.value) && p.value.position == position
    ensures Assemble(OneSummary(s, position, payload)).order == [s]
    ensures Assemble(OneSummary(s, position, payload)).roster == 0
  {
    hide Occurs, SummaryOf;
    var h := OneSummary(s, position, payload);
    assert h[..|h| - 1] == [];
    assert Fold(EMPTY, h[..|h| - 1]) == EMPTY;
    assert Assemble(h) == Step(EMPTY, h[0]);
    assert h[0].frame.MsgClass() == MSG_CLASS_REALTIME;
  }

  /** A battery that moves to position 0 keeps its old position in the merge but not in the assembler. */
  lemma MoveToZeroIsLost(s: Text, payload: seq<byte>, now: Stamp)
    requires Occurs(SERIAL_MARKER, s) && |payload| >= 29
    ensures var h, g := OneSummary(s, 1, payload), OneSummary(s, 0, payload);
            var merged := MergeBatteries(BatteriesOf(Assemble(h), now), BatteriesOf(Assemble(g), now));
            Telemetry(Get(merged, s)) != Telemetry(Get(BatteriesOf(Assemble(h + g), now), s))
  {
    hide Occurs, MergeBatteries, BatteriesOf, Assemble, IsVisible, Telemetry, OneSummary, Get;
    OneSummaryPart(s, 1, payload);
    OneSummaryPart(s, 0, payload);
    MergeAgreesIff(OneSummary(s, 1, payload), OneSummary(s, 0, payload), s, now);
  }

  // ---- the roster ----

  lemma {:induction false} RosterGrows(h: seq<Stamped>, g: seq<Stamped>)
    ensures Assemble(h + g).roster ==
            if Assemble(h).roster > Assemble(g).roster then Assemble(h).roster else Assemble(g).roster
    decreases |g|
  {
    hide Interpret, IsTelemetry;
    if g == [] {
      assert h + g == h;
    } else {
      assert (h + g)[..|h + g| - 1] == h + g[..|g| - 1];
      RosterGrows(h, g[..|g| - 1]);
    }
  }

  // ---- whole readings ----

  /** What a consumer holds after another poll. A poll that yields no reading raises, so there is nothing
      to merge and the reading it had stays. */
  function AfterPoll(held: Option<Cluster>, polled: Option<Cluster>): Option<Cluster> {
    match polled
    case None => held
    case Some(latest) => Some(Merge(held, latest))
  }

  datatype Source = Source(address: Text, serial: Option<Text>)

  /** The reading of an assembler fed one history. */
  function Poll(src: Source, h: seq<Stamped>, now: Stamp): Option<Cluster> {
    ReadingOf(Assemble(h), src.address, src.serial, now)
  }

  function TwoPolls(src: Source, h: seq<Stamped>, g: seq<Stamped>, now: Stamp): Option<Cluster> {
    AfterPoll(Poll(src, h, now), Poll(src, g, now))
  }

  lemma VisibleInEither(h: seq<Stamped>, g: seq<Stamped>, now: Stamp)
    ensures BatteriesOf(Assemble(h + g), now).Keys ==
            BatteriesOf(Assemble(h), now).Keys + BatteriesOf(Assemble(g), now).Keys
  {
    hide Assemble, IsVisible, Overlay, BatteryOf, WellFormed;
    forall s
      ensures s in BatteriesOf(Assemble(h + g), now) <==>
              s in BatteriesOf(Assemble(h), now) || s in BatteriesOf(Assemble(g), now)
    {
      FoldIsOverlay(h, g, s);
      PartsWellFormed(h, s);
      PartsWellFormed(g, s);
      var p, q := PartOf(Assemble(h), s), PartOf(Assemble(g), s);
      if p.Some? && q.Some? {
        OverlayVisible(p.value, q.value);
      }
    }
  }

  lemma EmptyMap<K, V>(m: map<K, V>)
    ensures m == map[] <==> m.Keys == {}
  {}

  lemma PollHasReading(src: Source, h: seq<Stamped>, now: Stamp)
    ensures Poll(src, h, now).Some? <==> BatteriesOf(Assemble(h), now).Keys != {}
  {
    hide Assemble, BatteriesOf;
    EmptyMap(BatteriesOf(Assemble(h), now));
  }

  /** Two polls leave a reading exactly if one assembler fed both has one. */
  lemma ReadingInEither(src: Source, h: seq<Stamped>, g: seq<Stamped>, now: Stamp)
    ensures TwoPolls(src, h, g, now).Some? <==> Poll(src, h + g, now).Some?
  {
    hide Poll, Merge, BatteriesOf;
    PollHasReading(src, h, now);
    PollHasReading(src, g, now);
    PollHasReading(src, h + g, now);
    VisibleInEither(h, g, now);
  }

  /** With p and q the largest claims the two polls have heard:
      - if both have a reading, the later one claims none or no fewer;
      - if only one of them has, the other one, whose claim is never shown, claims no more. */
  predicate RosterAgrees(src: Source, h: seq<Stamped>, g: seq<Stamped>, now: Stamp) {
    var p, q := Assemble(h).roster, Assemble(g).roster;
    if Poll(src, h, now).None? then p <= q
    else if Poll(src, g, now).None? then q <= p
    else q == 0 || q >= p
  }

  /** The merge takes the latest claim it is shown, the assembler the largest it has heard: the readings
      of two polls and the reading of one assembler fed both agree on the roster if and only if the guard
      holds. */
  lemma RosterAgreesIff(src: Source, h: seq<Stamped>, g: seq<Stamped>, now: Stamp)
    requires TwoPolls(src, h, g, now).Some?
    ensures Poll(src, h + g, now).Some?
    ensures TwoPolls(src, h, g, now).value.rosterCount == Poll(src, h + g, now).value.rosterCount <==>
            RosterAgrees(src, h, g, now)
  {
    hide Assemble, BatteriesOf, FirstMaster, VisibleOrder, MergeBatteries, MergeOrder;
    ReadingInEither(src, h, g, now);
    RosterGrows(h, g);
  }

  /** A topology frame as the only frame of a poll. */
  function OneTopology(s: Text, position: word, payload: seq<byte>): seq<Stamped> {
    [Stamped(Frame(MSG_RT_TOPOLOGY, s, position, 0, payload), 0)]
  }

  lemma OneTopologyBook(s: Text, position: word, payload: seq<byte>, claim: nat)
    requires Occurs(SERIAL_MARKER, s) && |payload| >= 20
    requires ByteNumber(Unmask(payload)[0]) == claim && 1 <= claim <= MAX_BATTERIES
    ensures var b := Assemble(OneTopology(s, position, payload));
            b.roster == claim && b.parts == map[s := NewPart(position)]
  {
    hide Occurs, ReadSerials, Unmask;
    var h := OneTopology(s, position, payload);
    assert h[..|h| - 1] == [] && Fold(EMPTY, h[..|h| - 1]) == EMPTY;
    assert Assemble(h) == Step(EMPTY, h[0]);
    assert h[0].frame.MsgClass() == MSG_CLASS_REALTIME;
  }

  /** A first poll that hears nothing but a bank's topology has no reading, so its claim never reaches the
      merge; the assembler keeps it. */
  lemma LoneClaimIsLost(src: Source, s: Text, topology: seq<byte>, claim: nat, summary: seq<byte>, now: Stamp)
    requires Occurs(SERIAL_MARKER, s) && |topology| >= 20 && |summary| >= 29
    requires ByteNumber(Unmask(topology)[0]) == claim && 1 <= claim <= MAX_BATTERIES
    ensures var h, g := OneTopology(s, 0x01A0, topology), OneSummary(s, 0x01A0, summary);
            && Poll(src, h, now).None?
            && TwoPolls(src, h, g, now).Some? && TwoPolls(src, h, g, now).value.rosterCount == None
            && Poll(src, h + g, now).Some? && Poll(src, h + g, now).value.rosterCount == Some(claim)
  {
    hide Occurs, OneTopology, OneSummary, Unmask, BatteryOf;
    var h, g := OneTopology(s, 0x01A0, topology), OneSummary(s, 0x01A0, summary);
    OneTopologyBook(s, 0x01A0, topology, claim);
    OneSummaryPart(s, 0x01A0, summary);
    hide Assemble, FirstMaster, VisibleOrder;
    assert Poll(src, h, now).None?;
    assert s in BatteriesOf(Assemble(g), now);
    ReadingInEither(src, h, g, now);
    RosterGrows(h, g);
  }

  // ---- the master ----

  /** Serials are remembered in the order in which they were first heard, whichever poll heard them. */
  lemma {:induction false} OrderGrows(h: seq<Stamped>, g: seq<Stamped>)
    ensures Assemble(h + g).order == MergeOrder(Assemble(h).order, Assemble(g).order)
    decreases |g|
  {
    hide Interpret, IsTelemetry, MergeOrder;
    if g == [] {
      assert h + g == h;
      NothingToList(Assemble(h).order);
    } else {
      var before, x := g[..|g| - 1], g[|g| - 1];
      assert (h + g)[..|h + g| - 1] == h + before;
      OrderGrows(h, before);
      OrderListsParts(h + before);
      OrderListsParts(before);
      MergeOrderHas(Assemble(h).order, Assemble(before).order, x.frame.serial);
      ListLast(Assemble(h).order, Assemble(before).order, x.frame.serial);
    }
  }

  lemma NothingToList(x: seq<Text>)
    ensures MergeOrder(x, []) == x
  {}

  lemma ListLast(x: seq<Text>, y: seq<Text>, s: Text)
    ensures MergeOrder(x, y + [s]) == var r := MergeOrder(x, y); if s in r then r else r + [s]
  {
    assert (y + [s])[..|y|] == y;
  }

  predicate Shows(b: Book, s: Text) {
    s in b.parts && IsVisible(b.parts[s])
  }

  /** One of two polls shows the battery, and the last position heard of it marks a bank's gateway. */
  predicate GatewayAfterBoth(p: Book, q: Book, s: Text) {
    && (Shows(p, s) || Shows(q, s))
    && Low((if s in q.parts then q.parts[s] else p.parts[s]).position) == 0xA0
  }

  lemma GatewayOfBoth(h: seq<Stamped>, g: seq<Stamped>, s: Text, now: Stamp)
    ensures IsGateway(BatteriesOf(Assemble(h + g), now), s) <==> GatewayAfterBoth(Assemble(h), Assemble(g), s)
  {
    hide Assemble, IsVisible, WellFormed;
    FoldIsOverlay(h, g, s);
    PartsWellFormed(h, s);
    PartsWellFormed(g, s);
    var p, q := PartOf(Assemble(h), s), PartOf(Assemble(g), s);
    if p.Some? && q.Some? {
      OverlayVisible(p.value, q.value);
    }
  }

  /** Of the batteries the two polls have heard of, the first gateway in order of appearance. */
  predicate LeadsBoth(p: Book, q: Book, s: Text) {
    var order := MergeOrder(p.order, q.order);
    exists i :: 0 <= i < |order| && order[i] == s && GatewayAfterBoth(p, q, s)
                && forall j :: 0 <= j < i ==> !GatewayAfterBoth(p, q, order[j])
  }

  predicate NoGateway(p: Book, q: Book) {
    forall s :: s in MergeOrder(p.order, q.order) ==> !GatewayAfterBoth(p, q, s)
  }

  /** The gateway that a poll of its own shows first, if it shows one. */
  function OwnGateway(b: Book): Option<Text> {
    FirstMaster(b.order, BatteriesOf(b, 0), None)
  }

  /** The battery the merge settles on: the later poll's gateway, else the configured serial, else the
      earlier poll's gateway; an earlier reading that is not merged with any keeps its own. */
  function Named(src: Source, p: Book, q: Book): Option<Text> {
    if BatteriesOf(q, 0) != map[] then
      OrText(if OwnGateway(q).Some? then OwnGateway(q) else src.serial, OwnGateway(p))
    else if OwnGateway(p).Some? then OwnGateway(p)
    else src.serial
  }

  /** When the merge and one assembler name the same master. */
  predicate MasterAgrees(src: Source, p: Book, q: Book) {
    match Named(src, p, q)
    case Some(s) => LeadsBoth(p, q, s) || (NoGateway(p, q) && src.serial == Some(s))
    case None => NoGateway(p, q)
  }

  lemma {:induction false} FirstMasterOr(order: seq<Text>, b: Batteries, fallback: Option<Text>)
    ensures FirstMaster(order, b, fallback) ==
            if FirstMaster(order, b, None).Some? then FirstMaster(order, b, None) else fallback
    decreases |order|
  {
    hide IsGateway;
    if order != [] {
      FirstMasterOr(order[1..], b, fallback);
    }
  }

  /** A poll's master is its own gateway, or the configured serial. */
  lemma MasterOfPoll(src: Source, h: seq<Stamped>, now: Stamp)
    requires Poll(src, h, now).Some?
    ensures Poll(src, h, now).value.masterSerial ==
            if OwnGateway(Assemble(h)).Some? then OwnGateway(Assemble(h)) else src.serial
  {
    hide Assemble, IsVisible, FirstMaster, VisibleOrder;
    var b := Assemble(h);
    FirstMasterVisible(b.order, b.parts, BatteriesOf(b, now), src.serial);
    FirstMasterSame(b.order, BatteriesOf(b, now), BatteriesOf(b, 0), src.serial);
    FirstMasterOr(b.order, BatteriesOf(b, 0), src.serial);
  }

  lemma {:induction false} SerialsAreNotEmpty(h: seq<Stamped>)
    ensures [] !in Assemble(h).parts
    decreases |h|
  {
    hide Interpret;
    if h != [] {
      SerialsAreNotEmpty(h[..|h| - 1]);
    }
  }

  lemma OwnGatewayIsBattery(h: seq<Stamped>)
    ensures OwnGateway(Assemble(h)).Some? ==>
              OwnGateway(Assemble(h)).value in BatteriesOf(Assemble(h), 0) && OwnGateway(Assemble(h)).value != []
  {
    hide Assemble, FirstMaster, IsVisible;
    var b := Assemble(h);
    SerialsAreNotEmpty(h);
    MasterIs(b.order, BatteriesOf(b, 0), None, OwnGateway(b));
  }

  lemma MasterOfBoth(src: Source, h: seq<Stamped>, g: seq<Stamped>, now: Stamp, named: Option<Text>)
    requires Poll(src, h + g, now).Some?
    ensures var p, q := Assemble(h), Assemble(g);
            Poll(src, h + g, now).value.masterSerial == named <==>
            || (named.Some? && LeadsBoth(p, q, named.value))
            || (named == src.serial && NoGateway(p, q))
  {
    hide Assemble, IsVisible, FirstMaster, VisibleOrder, IsGateway, GatewayAfterBoth;
    var b, all := Assemble(h + g), BatteriesOf(Assemble(h + g), now);
    OrderGrows(h, g);
    FirstMasterVisible(b.order, b.parts, all, src.serial);
    MasterIs(b.order, all, src.serial, named);
    forall s
      ensures IsGateway(all, s) <==> GatewayAfterBoth(Assemble(h), Assemble(g), s)
    {
      GatewayOfBoth(h, g, s, now);
    }
  }

  /** The master named by the readings of two polls against the one named by an assembler fed both: they
      agree if and only if the battery the merge settles on leads the bank as heard by both polls, or
      neither way sees a gateway and the configured serial stands. */
  lemma MasterAgreesIff(src: Source, h: seq<Stamped>, g: seq<Stamped>, now: Stamp)
    requires TwoPolls(src, h, g, now).Some?
    ensures Poll(src, h + g, now).Some?
    ensures TwoPolls(src, h, g, now).value.masterSerial == Poll(src, h + g, now).value.masterSerial <==>
            MasterAgrees(src, Assemble(h), Assemble(g))
  {
    hide Poll, OwnGateway, LeadsBoth, NoGateway, BatteriesOf, MergeBatteries, MergeOrder, Assemble;
    ReadingInEither(src, h, g, now);
    PollHasReading(src, h, now);
    PollHasReading(src, g, now);
    MasterOfBoth(src, h, g, now, TwoPolls(src, h, g, now).value.masterSerial);
    OwnGatewayIsBattery(h);
    OwnGatewayIsBattery(g);
    SameKeys(Assemble(h), now);
    SameKeys(Assemble(g), now);
    NoNamelessLeader(h, g);
    if Poll(src, h, now).Some? {
      MasterOfPoll(src, h, now);
    }
    if Poll(src, g, now).Some? {
      MasterOfPoll(src, g, now);
    }
  }

  lemma SameKeys(b: Book, now: Stamp)
    ensures BatteriesOf(b, now).Keys == BatteriesOf(b, 0).Keys
    ensures BatteriesOf(b, 0) == map[] <==> BatteriesOf(b, 0).Keys == {}
  {
    EmptyMap(BatteriesOf(b, 0));
  }

  lemma NoNamelessLeader(h: seq<Stamped>, g: seq<Stamped>)
    ensures !LeadsBoth(Assemble(h), Assemble(g), [])
  {
    hide Assemble, IsVisible, MergeOrder;
    SerialsAreNotEmpty(h);
    SerialsAreNotEmpty(g);
  }

  /** Two polls that each hear a different gateway: the merge names the later one, the assembler the one it
      heard first. */
  lemma SecondGatewayDisagrees(src: Source, s: Text, t: Text, summary: seq<byte>, now: Stamp)
    requires Occurs(SERIAL_MARKER, s) && Occurs(SERIAL_MARKER, t) && s != t && |summary| >= 29
    ensures var h, g := OneSummary(s, 0x01A0, summary), OneSummary(t, 0x01A0, summary);
            && TwoPolls(src, h, g, now).Some? && Poll(src, h + g, now).Some?
            && TwoPolls(src, h, g, now).value.masterSerial == Some(t)
            && Poll(src, h + g, now).value.masterSerial == Some(s)
  {
    hide Occurs, OneSummary, Poll, Assemble, Merge;
    var h, g := OneSummary(s, 0x01A0, summary), OneSummary(t, 0x01A0, summary);
    OneGateway(src, s, summary, now);
    OneGateway(src, t, summary, now);
    ReadingInEither(src, h, g, now);
    assert MergeOrder([s], [t])[0] == s;
    MasterOfBoth(src, h, g, now, Some(s));
    MergedMaster(Poll(src, h, now), Poll(src, g, now).value);
  }

  lemma MergedMaster(p: Option<Cluster>, q: Cluster)
    requires q.masterSerial.Some? && q.masterSerial.value != []
    ensures Merge(p, q).masterSerial == q.masterSerial
  {
    hide MergeBatteries, MergeOrder;
  }

  lemma OneGateway(src: Source, s: Text, summary: seq<byte>, now: Stamp)
    requires Occurs(SERIAL_MARKER, s) && |summary| >= 29
    ensures var h := OneSummary(s, 0x01A0, summary);
            && Poll(src, h, now).Some? && Poll(src, h, now).value.masterSerial == Some(s) && s != []
            && Shows(Assemble(h), s) && Low(Assemble(h).parts[s].position) == 0xA0
            && Assemble(h).order == [s] && Assemble(h).parts.Keys == {s}
  {
    hide Assemble, OneSummary, IsVisible;
    var h := OneSummary(s, 0x01A0, summary);
    OneSummaryPart(s, 0x01A0, summary);
    OrderListsParts(h);
    SerialsAreNotEmpty(h);
    PollHasReading(src, h, now);
    assert s in BatteriesOf(Assemble(h), now);
    MasterOfPoll(src, h, now);
    assert IsGateway(BatteriesOf(Assemble(h), 0), s);
  }

  // ---- the order of the dict ----

  /** Known to the earlier poll, but shown by the later one only. */
  predicate ShownLate(p: Book, q: Book, s: Text) {
    s in p.order && !Shows(p, s) && Shows(q, s)
  }

  /** When merging the dicts of two polls lists the batteries as one assembler would: those shown late were
      heard after all that the earlier poll shows, and stand among the other new ones as they were heard. */
  ghost predicate OrderAgrees(p: Book, q: Book) {
    forall s :: ShownLate(p, q, s) ==>
      && (forall t :: t in p.order && Shows(p, t) ==> Before(p.order, t, s))
      && (forall t :: t != s && t in q.order && Shows(q, t) && !Shows(p, t) ==>
            (Before(q.order, s, t) <==> (t in p.order ==> Before(p.order, s, t))))
  }

  /** The order of the merged dict. */
  function MergedOrder(p: Book, q: Book): seq<Text> {
    MergeOrder(VisibleOrder(p.order, p.parts), VisibleOrder(q.order, q.parts))
  }

  /** The book holds what both books hold, in the order in which it was first heard. */
  ghost predicate Joins(b: Book, p: Book, q: Book) {
    && Lists(p.order, p.parts.Keys) && Lists(q.order, q.parts.Keys)
    && b.order == MergeOrder(p.order, q.order)
    && forall s :: Shows(b, s) <==> Shows(p, s) || Shows(q, s)
  }

  lemma BeforeInMerged(p: Book, q: Book, s: Text, t: Text)
    requires Lists(p.order, p.parts.Keys) && Lists(q.order, q.parts.Keys)
    ensures Before(MergedOrder(p, q), s, t) <==>
            if Shows(p, s) then (if Shows(p, t) then Before(p.order, s, t) else Shows(q, t))
            else !Shows(p, t) && Shows(q, s) && Shows(q, t) && Before(q.order, s, t)
  {
    hide Before, Distinct, IsVisible;
    var x, y := VisibleOrder(p.order, p.parts), VisibleOrder(q.order, q.parts);
    VisibleOrderDistinct(p.order, p.parts);
    VisibleOrderDistinct(q.order, q.parts);
    BeforeInMerge(x, y, s, t);
    VisibleOrderHas(p.order, p.parts, s);
    VisibleOrderHas(p.order, p.parts, t);
    VisibleOrderHas(q.order, q.parts, t);
    BeforeVisible(p.order, p.parts, s, t);
    BeforeVisible(q.order, q.parts, s, t);
  }

  lemma BeforeInJoined(b: Book, p: Book, q: Book, s: Text, t: Text)
    requires Joins(b, p, q)
    ensures Before(VisibleOrder(b.order, b.parts), s, t) <==>
            && (Shows(p, s) || Shows(q, s)) && (Shows(p, t) || Shows(q, t))
            && if s in p.order then (if t in p.order then Before(p.order, s, t) else t in q.order)
               else t !in p.order && Before(q.order, s, t)
  {
    hide Before, Distinct, IsVisible;
    MergeOrderDistinct(p.order, q.order);
    BeforeVisible(b.order, b.parts, s, t);
    BeforeInMerge(p.order, q.order, s, t);
    assert Shows(b, s) <==> Shows(p, s) || Shows(q, s);
    assert Shows(b, t) <==> Shows(p, t) || Shows(q, t);
  }

  lemma SameListed(b: Book, p: Book, q: Book, s: Text)
    requires Joins(b, p, q)
    ensures s in MergedOrder(p, q) <==> s in VisibleOrder(b.order, b.parts)
  {
    hide Distinct, IsVisible;
    MergeOrderHas(VisibleOrder(p.order, p.parts), VisibleOrder(q.order, q.parts), s);
    MergeOrderHas(p.order, q.order, s);
    VisibleOrderHas(p.order, p.parts, s);
    VisibleOrderHas(q.order, q.parts, s);
    VisibleOrderHas(b.order, b.parts, s);
    assert Shows(b, s) <==> Shows(p, s) || Shows(q, s);
  }

  lemma SameBefore(b: Book, p: Book, q: Book, s: Text, t: Text)
    requires Joins(b, p, q) && OrderAgrees(p, q)
    ensures Before(MergedOrder(p, q), s, t) <==> Before(VisibleOrder(b.order, b.parts), s, t)
  {
    hide Before, IsVisible, VisibleOrder, MergeOrder, MergedOrder;
    BeforeInMerged(p, q, s, t);
    BeforeInJoined(b, p, q, s, t);
    BeforeNeedsListed(p.order, s, t);
    BeforeNeedsListed(q.order, s, t);
    if s == t {
      NeverBeforeItself(p.order, s);
      NeverBeforeItself(q.order, s);
    } else {
      if s in p.order && t in p.order {
        BeforeIsTotal(p.order, s, t);
      }
      if s in q.order && t in q.order {
        BeforeIsTotal(q.order, s, t);
      }
      assert ShownLate(p, q, s) || !ShownLate(p, q, s);
      assert ShownLate(p, q, t) || !ShownLate(p, q, t);
    }
  }

  lemma NeverBeforeItself(order: seq<Text>, s: Text)
    requires Distinct(order)
    ensures !Before(order, s, s)
  {}

  lemma SameMeansAgrees(b: Book, p: Book, q: Book)
    requires Joins(b, p, q) && MergedOrder(p, q) == VisibleOrder(b.order, b.parts)
    ensures OrderAgrees(p, q)
  {
    hide Before, IsVisible, VisibleOrder, MergeOrder, MergedOrder;
    forall s | ShownLate(p, q, s)
      ensures forall t :: t in p.order && Shows(p, t) ==> Before(p.order, t, s)
      ensures forall t :: t != s && t in q.order && Shows(q, t) && !Shows(p, t) ==>
                (Before(q.order, s, t) <==> (t in p.order ==> Before(p.order, s, t)))
    {
      forall t | t in p.order && Shows(p, t)
        ensures Before(p.order, t, s)
      {
        BeforeInMerged(p, q, t, s);
        BeforeInJoined(b, p, q, t, s);
      }
      forall t | t != s && t in q.order && Shows(q, t) && !Shows(p, t)
        ensures Before(q.order, s, t) <==> (t in p.order ==> Before(p.order, s, t))
      {
        BeforeInMerged(p, q, s, t);
        BeforeInJoined(b, p, q, s, t);
      }
    }
  }

  lemma OrderOfBooks(b: Book, p: Book, q: Book)
    requires Joins(b, p, q)
    ensures MergedOrder(p, q) == VisibleOrder(b.order, b.parts) <==> OrderAgrees(p, q)
  {
    hide Before, IsVisible, VisibleOrder, MergeOrder, OrderAgrees, Shows;
    if OrderAgrees(p, q) {
      forall s, t
        ensures Before(MergedOrder(p, q), s, t) <==> Before(VisibleOrder(b.order, b.parts), s, t)
      {
        SameBefore(b, p, q, s, t);
      }
      forall s
        ensures s in MergedOrder(p, q) <==> s in VisibleOrder(b.order, b.parts)
      {
        SameListed(b, p, q, s);
      }
      VisibleOrderDistinct(p.order, p.parts);
      MergeOrderDistinct(VisibleOrder(p.order, p.parts), VisibleOrder(q.order, q.parts));
      MergeOrderDistinct(p.order, q.order);
      VisibleOrderDistinct(b.order, b.parts);
      SameOrder(MergedOrder(p, q), VisibleOrder(b.order, b.parts));
    }
    if MergedOrder(p, q) == VisibleOrder(b.order, b.parts) {
      SameMeansAgrees(b, p, q);
    }
  }

  lemma BothJoin(h: seq<Stamped>, g: seq<Stamped>)
    ensures Joins(Assemble(h + g), Assemble(h), Assemble(g))
  {
    hide Assemble, IsVisible;
    OrderListsParts(h);
    OrderListsParts(g);
    OrderGrows(h, g);
    VisibleInEither(h, g, 0);
    forall s
      ensures Shows(Assemble(h + g), s) <==> Shows(Assemble(h), s) || Shows(Assemble(g), s)
    {
      ShowsIsListed(Assemble(h + g), s);
      ShowsIsListed(Assemble(h), s);
      ShowsIsListed(Assemble(g), s);
    }
  }

  lemma ShowsIsListed(b: Book, s: Text)
    ensures Shows(b, s) <==> s in BatteriesOf(b, 0).Keys
  {}

  lemma {:induction false} NothingVisible(order: seq<Text>, parts: map<Text, Part>)
    requires forall s :: s in parts ==> !IsVisible(parts[s])
    ensures VisibleOrder(order, parts) == []
    decreases |order|
  {
    hide IsVisible;
    if order != [] {
      NothingVisible(order[..|order| - 1], parts);
    }
  }

  lemma {:induction false} MergeOntoNothing(y: seq<Text>)
    requires Distinct(y)
    ensures MergeOrder([], y) == y
    decreases |y|
  {
    if y != [] {
      var front, last := y[..|y| - 1], y[|y| - 1];
      assert y == front + [last];
      DistinctFront(front, last);
      MergeOntoNothing(front);
    }
  }

  lemma PollShowsNothing(src: Source, h: seq<Stamped>, now: Stamp)
    requires Poll(src, h, now).None?
    ensures VisibleOrder(Assemble(h).order, Assemble(h).parts) == []
  {
    hide Assemble, IsVisible, VisibleOrder, FirstMaster;
    var b := Assemble(h);
    forall s | s in b.parts
      ensures !IsVisible(b.parts[s])
    {
      assert s in BatteriesOf(b, now) <==> IsVisible(b.parts[s]);
    }
    NothingVisible(b.order, b.parts);
  }

  lemma OrderOfTwo(src: Source, h: seq<Stamped>, g: seq<Stamped>, now: Stamp)
    requires TwoPolls(src, h, g, now).Some?
    ensures TwoPolls(src, h, g, now).value.order == MergedOrder(Assemble(h), Assemble(g))
  {
    hide Assemble, BatteriesOf, MergeBatteries, FirstMaster, VisibleOrder, IsVisible, Distinct;
    var y := VisibleOrder(Assemble(g).order, Assemble(g).parts);
    OrderListsParts(g);
    VisibleOrderDistinct(Assemble(g).order, Assemble(g).parts);
    MergeOntoNothing(y);
    if Poll(src, h, now).None? {
      PollShowsNothing(src, h, now);
    }
    if Poll(src, g, now).None? {
      PollShowsNothing(src, g, now);
      NothingToList(VisibleOrder(Assemble(h).order, Assemble(h).parts));
    }
  }

  /** The dict of two merged polls lists its batteries in the order of one assembler fed both if and only if
      the guard holds. */
  lemma OrderAgreesIff(src: Source, h: seq<Stamped>, g: seq<Stamped>, now: Stamp)
    requires TwoPolls(src, h, g, now).Some?
    ensures Poll(src, h + g, now).Some?
    ensures TwoPolls(src, h, g, now).value.order == Poll(src, h + g, now).value.order <==>
            OrderAgrees(Assemble(h), Assemble(g))
  {
    hide Assemble, OrderAgrees, VisibleOrder, MergeOrder, BatteriesOf, Merge, FirstMaster;
    ReadingInEither(src, h, g, now);
    OrderOfTwo(src, h, g, now);
    BothJoin(h, g);
    OrderOfBooks(Assemble(h + g), Assemble(h), Assemble(g));
  }

  /** A telemetry frame that no decoder takes, as the only frame of a poll. */
  function OneUndecoded(s: Text, position: word): seq<Stamped> {
    [Stamped(Frame(MSG_RT_UNDECODED, s, position, 0, []), 0)]
  }

  lemma UndecodedThenSummary(s: Text, t: Text, summary: seq<byte>)
    requires Occurs(SERIAL_MARKER, s) && Occurs(SERIAL_MARKER, t) && s != t && |summary| >= 29
    ensures var b := Assemble(OneUndecoded(s, 1) + OneSummary(t, 2, summary));
            b.order == [s, t] && !Shows(b, s) && Shows(b, t)
  {
    hide Occurs, SummaryOf;
    var h := OneUndecoded(s, 1) + OneSummary(t, 2, summary);
    assert h[..2][..1][..0] == [] && h[..2] == h;
    assert h[0].frame.MsgClass() == MSG_CLASS_REALTIME && h[1].frame.MsgClass() == MSG_CLASS_REALTIME;
    assert Fold(EMPTY, h[..1][..0]) == EMPTY;
    assert h[..1][|h[..1]| - 1] == h[0];
    assert Fold(EMPTY, h[..1]) == Step(EMPTY, h[0]);
    assert Assemble(h) == Step(Step(EMPTY, h[0]), h[1]);
  }

  /** The earlier poll hears a battery without showing it, then shows another; the later poll shows the
      first: the merge lists it last, the assembler first. */
  lemma ShownLateDisagrees(src: Source, s: Text, t: Text, summary: seq<byte>, now: Stamp)
    requires Occurs(SERIAL_MARKER, s) && Occurs(SERIAL_MARKER, t) && s != t && |summary| >= 29
    ensures var h, g := OneUndecoded(s, 1) + OneSummary(t, 2, summary), OneSummary(s, 1, summary);
            && TwoPolls(src, h, g, now).Some? && Poll(src, h + g, now).Some?
            && TwoPolls(src, h, g, now).value.order == [t, s]
            && Poll(src, h + g, now).value.order == [s, t]
  {
    hide Occurs, OneSummary, OneUndecoded, Assemble, IsVisible, BatteryOf, VisibleOrder, MergeOrder, OrderAgrees;
    var h, g := OneUndecoded(s, 1) + OneSummary(t, 2, summary), OneSummary(s, 1, summary);
    var p, q, b := Assemble(h), Assemble(g), Assemble(h + g);
    UndecodedThenSummary(s, t, summary);
    OneSummaryPart(s, 1, summary);
    BothJoin(h, g);
    PollHasReading(src, g, now);
    assert s in BatteriesOf(q, now);
    ReadingInEither(src, h, g, now);
    OrderOfTwo(src, h, g, now);
    TwoListed(s, t);
    VisibleOfTwo(s, t, p.parts);
    VisibleOfTwo(s, t, q.parts);
    VisibleOfTwo(s, t, b.parts);
    assert VisibleOrder(p.order, p.parts) == [t] && VisibleOrder(q.order, q.parts) == [s];
    assert Shows(b, s) && Shows(b, t);
  }

  lemma VisibleOfTwo(s: Text, t: Text, parts: map<Text, Part>)
    ensures VisibleOrder([s], parts) == if s in parts && IsVisible(parts[s]) then [s] else []
    ensures VisibleOrder([s, t], parts) ==
            VisibleOrder([s], parts) + if t in parts && IsVisible(parts[t]) then [t] else []
  {
    hide IsVisible;
    assert [s][..0] == [] && [s, t][..1] == [s];
    assert VisibleOrder([s][..0], parts) == [];
  }

  lemma TwoListed(s: Text, t: Text)
    requires s != t
    ensures MergeOrder([s, t], [s]) == [s, t] && MergeOrder([t], [s]) == [t, s]
  {
    assert [s][..0] == [];
    assert MergeOrder([t], [s][..0]) == [t] && MergeOrder([s, t], [s][..0]) == [s, t];
  }

  // ---- everything at once ----

  /** The batteries a consumer holds after two polls. */
  lemma BatteriesOfTwo(src: Source, h: seq<Stamped>, g: seq<Stamped>, now: Stamp)
    requires TwoPolls(src, h, g, now).Some?
    ensures TwoPolls(src, h, g, now).value.batteries ==
            MergeBatteries(BatteriesOf(Assemble(h), now), BatteriesOf(Assemble(g), now))
    ensures TwoPolls(src, h, g, now).value.address == src.address
  {
    hide Assemble, BatteriesOf, MergeBattery, FirstMaster, VisibleOrder, MergeOrder;
    var x, y := BatteriesOf(Assemble(h), now), BatteriesOf(Assemble(g), now);
    NothingToMerge(x);
    NothingToMerge(y);
  }

  lemma NothingToMerge(x: Batteries)
    ensures MergeBatteries(x, map[]) == x && MergeBatteries(map[], x) == x
  {}

  lemma UndatedEqual(x: Batteries, y: Batteries)
    ensures (map s | s in x :: x[s].(updatedAt := 0)) == (map s | s in y :: y[s].(updatedAt := 0)) <==>
            forall s :: Telemetry(Get(x, s)) == Telemetry(Get(y, s))
  {
    var a := map s | s in x :: x[s].(updatedAt := 0);
    var b := map s | s in y :: y[s].(updatedAt := 0);
    assert forall s :: Get(a, s) == Telemetry(Get(x, s)) && Get(b, s) == Telemetry(Get(y, s));
    if forall s :: Telemetry(Get(x, s)) == Telemetry(Get(y, s)) {
      forall s
        ensures s in a <==> s in b
        ensures s in a ==> a[s] == b[s]
      {
        assert Get(a, s) == Get(b, s);
      }
      assert a == b;
    }
  }

  ghost predicate BatteriesAgree(p: Book, q: Book) {
    forall s :: s in p.parts && s in q.parts ==> MergeAgrees(p.parts[s], q.parts[s])
  }

  /** Merging the readings of two polls is feeding both polls to one assembler, in everything a reading
      says but its times, if and only if the four guards hold. */
  lemma MergeIsAccumulationIff(src: Source, h: seq<Stamped>, g: seq<Stamped>, now: Stamp)
    requires TwoPolls(src, h, g, now).Some?
    ensures Poll(src, h + g, now).Some?
    ensures Undated(TwoPolls(src, h, g, now).value) == Undated(Poll(src, h + g, now).value) <==>
            && BatteriesAgree(Assemble(h), Assemble(g))
            && OrderAgrees(Assemble(h), Assemble(g))
            && RosterAgrees(src, h, g, now)
            && MasterAgrees(src, Assemble(h), Assemble(g))
  {
    hide TwoPolls, Assemble, BatteriesOf, MergeBatteries, MergeAgrees, MasterAgrees, Telemetry, Get;
    hide FirstMaster, VisibleOrder, RosterAgrees, OrderAgrees;
    RosterAgreesIff(src, h, g, now);
    MasterAgreesIff(src, h, g, now);
    OrderAgreesIff(src, h, g, now);
    BatteriesOfTwo(src, h, g, now);
    UndatedEqual(TwoPolls(src, h, g, now).value.batteries, Poll(src, h + g, now).value.batteries);
    forall s
      ensures Telemetry(Get(TwoPolls(src, h, g, now).value.batteries, s)) ==
              Telemetry(Get(Poll(src, h + g, now).value.batteries, s)) <==>
              (s in Assemble(h).parts && s in Assemble(g).parts ==>
                 MergeAgrees(Assemble(h).parts[s], Assemble(g).parts[s]))
    {
      MergeAgreesIff(h, g, s, now);
    }
  }
}
