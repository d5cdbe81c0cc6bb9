/** The held connection as a timed state machine: what reaches `on_update`, and when. */
module Throttle {
  import opened Bytes
  import opened Wrappers
  import opened Framing
  import opened Readings
  import opened Accumulation
  import opened Runs

  type Time = nat

  datatype Config = Config(address: Text, serial: Option<Text>, throttle: Time)

  /** One call of `on_update`. */
  datatype Delivery = Delivery(at: Time, reading: Cluster, session: nat)

  /** The stream's fields, followed by the callback that the event loop still has to make, which
      `call_later` sets and which both firing and `cancel` clear, and by history that only the statements
      below speak about: the time of the last event, the number of starts, every `on_update` call, and the time of the
      earliest change of the current connection that left a reading and has not been handed on. */
  datatype State = State(
    assembler: Option<Assembly>, flushHandle: Option<Time>, pendingUpdate: bool, stopping: bool,
    running: bool,
    timer: Option<Time>,
    clock: Time, session: nat, updates: seq<Delivery>, owed: Option<Time>)

  const INITIAL := State(None, None, false, false, false, None, 0, 0, [], None)

  datatype Event =
    | Start                      // async_start, when not running
    | Open                       // _async_open begins: a fresh assembler
    | Notify(data: seq<byte>)    // _on_notify
    | Tick                       // the throttle timer fires: _on_throttle_end
    | Teardown                   // _async_teardown after a drop
    | StopRequested              // async_stop begins
    | Stopped                    // async_stop returns

  function Current(cfg: Config, s: State, now: Time): Option<Cluster> {
    if s.assembler.None? then None
    else ReadingOf(s.assembler.value.book, cfg.address, cfg.serial, now)
  }

  // ---- the methods on the notification path ----

  /** `_flush`. */
  function Flush(cfg: Config, s: State, now: Time): State {
    match Current(cfg, s, now)
    case None => s
    case Some(r) => s.(updates := s.updates + [Delivery(now, r, s.session)], owed := None)
  }

  /** `_schedule_flush`. */
  function ScheduleFlush(cfg: Config, s: State, now: Time): State {
    if s.flushHandle.Some? then s.(pendingUpdate := true)
    else
      var due := Some(now + cfg.throttle);
      Flush(cfg, s, now).(flushHandle := due, timer := due)
  }

  /** `_on_throttle_end`. */
  function OnThrottleEnd(cfg: Config, s: State, now: Time): State {
    var t := s.(flushHandle := None);
    if s.pendingUpdate then ScheduleFlush(cfg, t.(pendingUpdate := false), now) else t
  }

  /** A change that leaves a reading is owed to the consumer from its first moment on. */
  function NoteChange(cfg: Config, s: State, now: Time): State {
    if s.owed.None? && Current(cfg, s, now).Some? then s.(owed := Some(now)) else s
  }

  /** `_on_notify`. */
  ghost function OnNotify(cfg: Config, s: State, data: seq<byte>, now: Time): State {
    if s.assembler.None? || s.stopping then s
    else
      var n := Notification(data, now);
      var fed := s.(assembler := Some(Fed(s.assembler.value, n)));
      if Changed(s.assembler.value, n) == {} then fed
      else ScheduleFlush(cfg, NoteChange(cfg, fed, now), now)
  }

  /** `_async_teardown`. */
  function OnTeardown(s: State): State {
    s.(assembler := None, owed := None)
  }

  /** `_cancel_flush`. */
  function CancelFlush(s: State): State {
    s.(flushHandle := None, pendingUpdate := false, timer := if s.flushHandle.Some? then None else s.timer)
  }

  // ---- events ----

  /** Events happen in time order; the timer fires once, and no earlier than armed; the run loop opens
      connections only between start and stop. */
  predicate Enabled(s: State, e: Event, now: Time) {
    && s.clock <= now
    && (e.Tick? ==> s.timer.Some? && s.timer.value <= now)
    && (e.Start? ==> !s.running)
    && (e.Open? ==> s.running && !s.stopping)
  }

  ghost function React(cfg: Config, s: State, e: Event, now: Time): State {
    match e
    case Start => s.(stopping := false, running := true, session := s.session + 1)
    case Open => s.(assembler := Some(FRESH), owed := None)
    case Notify(data) => OnNotify(cfg, s, data, now)
    case Tick => OnThrottleEnd(cfg, s.(timer := None), now)
    case Teardown => OnTeardown(s)
    case StopRequested => s.(stopping := true)
    case Stopped => CancelFlush(OnTeardown(s)).(stopping := true, running := false)
  }

  ghost function Next(cfg: Config, s: State, e: Event, now: Time): State {
    React(cfg, s, e, now).(clock := now)
  }

  datatype Timed = Timed(event: Event, at: Time)

  ghost function After(cfg: Config, trace: seq<Timed>): State {
    if trace == [] then INITIAL
    else
      var n := |trace| - 1;
      Next(cfg, After(cfg, trace[..n]), trace[n].event, trace[n].at)
  }

  predicate EndsConnection(e: Event) {
    e.Open? || e.Teardown? || e.Stopped?
  }

  ghost function HeardNext(cfg: Config, s: State, heard: seq<Stamped>, e: Event, now: Time): seq<Stamped> {
    if EndsConnection(e) || |Next(cfg, s, e, now).updates| > |s.updates| then []
    else if e.Notify? && s.assembler.Some? && !s.stopping then
      heard + StampAll(Frames(s.assembler.value.buffer + e.data), now)
    else heard
  }

  /** The frames that the assembler has taken in on the present connection since the last update. */
  ghost function HeardSince(cfg: Config, trace: seq<Timed>): seq<Stamped> {
    if trace == [] then []
    else
      var n := |trace| - 1;
      HeardNext(cfg, After(cfg, trace[..n]), HeardSince(cfg, trace[..n]), trace[n].event, trace[n].at)
  }

  ghost predicate Legal(cfg: Config, trace: seq<Timed>) {
    trace == [] ||
    var n := |trace| - 1;
    Legal(cfg, trace[..n]) && Enabled(After(cfg, trace[..n]), trace[n].event, trace[n].at)
  }

  lemma OneMoreEvent(cfg: Config, trace: seq<Timed>, x: Timed)
    ensures After(cfg, trace + [x]) == Next(cfg, After(cfg, trace), x.event, x.at)
    ensures Legal(cfg, trace + [x]) <==> Legal(cfg, trace) && Enabled(After(cfg, trace), x.event, x.at)
  {
    hide Next, Enabled;
    assert (trace + [x])[..|trace|] == trace;
  }

  // ---- what a feed without a change can do ----

  function GistOfBattery(b: Battery): Battery {
    b.(position := 0, updatedAt := 0)
  }

  /** A reading apart from its times, the positions, and the master that follows from the positions. */
  function GistOf(c: Cluster): Cluster {
    c.(masterSerial := None, batteries := map s | s in c.batteries :: GistOfBattery(c.batteries[s]),
       updatedAt := 0)
  }

  /** The same of an assembler's book. */
  predicate SameGist(b: Book, c: Book) {
    && b.roster == c.roster
    && VisibleOrder(b.order, b.parts) == VisibleOrder(c.order, c.parts)
    && (forall s :: s in b.parts && IsVisible(b.parts[s]) ==>
          s in c.parts && c.parts[s].(position := 0) == b.parts[s].(position := 0))
    && (forall s :: s in c.parts && IsVisible(c.parts[s]) ==>
          s in b.parts && c.parts[s].(position := 0) == b.parts[s].(position := 0))
  }

  lemma {:induction false} VisibleOrderSame(order: seq<Text>, x: map<Text, Part>, y: map<Text, Part>)
    requires forall s :: s in x && IsVisible(x[s]) <==> s in y && IsVisible(y[s])
    ensures VisibleOrder(order, x) == VisibleOrder(order, y)
    decreases |order|
  {
    hide IsVisible;
    if order != [] {
      VisibleOrderSame(order[..|order| - 1], x, y);
    }
  }

  lemma StepUntouchedOrder(b: Book, x: Stamped)
    requires !Touches(x.frame)
    ensures VisibleOrder(b.order, b.parts) == VisibleOrder(Step(b, x).order, Step(b, x).parts)
  {
    hide Interpret, IsTelemetry;
    var c := Step(b, x);
    VisibleOrderSame(b.order, b.parts, c.parts);
    if c.order != b.order {
      assert c.order[..|b.order|] == b.order;
    }
  }

  lemma StepUntouched(b: Book, x: Stamped)
    requires !Touches(x.frame)
    ensures SameGist(b, Step(b, x))
  {
    hide Interpret, IsTelemetry, VisibleOrder;
    StepUntouchedOrder(b, x);
  }

  lemma {:induction false} FoldUntouched(b: Book, h: seq<Stamped>)
    requires forall i :: 0 <= i < |h| ==> !Touches(h[i].frame)
    ensures SameGist(b, Fold(b, h))
    decreases |h|
  {
    hide Touches, Step;
    if h != [] {
      var n := |h| - 1;
      FoldUntouched(b, h[..n]);
      StepUntouched(Fold(b, h[..n]), h[n]);
    }
  }

  lemma NothingTouched(frames: seq<Frame>)
    requires TouchedBy(frames) == {}
    ensures forall i :: 0 <= i < |frames| ==> !Touches(frames[i])
  {
    hide Touches;
    assert forall i :: 0 <= i < |frames| && Touches(frames[i]) ==> frames[i].serial in TouchedBy(frames);
  }

  lemma UnchangedFeed(a: Assembly, n: Notification)
    requires Changed(a, n) == {}
    ensures SameGist(a.book, Fed(a, n).book)
  {
    hide Touches, Step, Frames, Leftover, SameGist, Fold;
    var frames := Frames(a.buffer + n.data);
    NothingTouched(frames);
    FoldUntouched(a.book, StampAll(frames, n.at));
  }

  lemma SameGistBatteries(b: Book, c: Book, at: Time, now: Time)
    requires SameGist(b, c)
    ensures BatteriesOf(b, at).Keys == BatteriesOf(c, now).Keys
    ensures forall s :: s in BatteriesOf(b, at) ==>
              GistOfBattery(BatteriesOf(b, at)[s]) == GistOfBattery(BatteriesOf(c, now)[s])
  {
    hide VisibleOrder;
  }

  lemma SameGistReading(cfg: Config, b: Book, c: Book, at: Time, now: Time)
    requires SameGist(b, c)
    ensures var r, q := ReadingOf(b, cfg.address, cfg.serial, at), ReadingOf(c, cfg.address, cfg.serial, now);
            (r.Some? <==> q.Some?) && (r.Some? ==> GistOf(r.value) == GistOf(q.value))
  {
    SameGistBatteries(b, c, at, now);
    hide FirstMaster, VisibleOrder, BatteriesOf, GistOfBattery;
    var x, y := BatteriesOf(b, at), BatteriesOf(c, now);
    assert x == map[] <==> x.Keys == {};
    assert y == map[] <==> y.Keys == {};
  }

  lemma ReadingAtAnyTime(cfg: Config, b: Book, at: Time, now: Time)
    ensures var r, q := ReadingOf(b, cfg.address, cfg.serial, at), ReadingOf(b, cfg.address, cfg.serial, now);
            (r.Some? <==> q.Some?) && (r.Some? ==> GistOf(r.value) == GistOf(q.value))
  {
    hide ReadingOf;
    SameGistReading(cfg, b, b, at, now);
  }

  lemma {:induction false} VisibleStays(b: Book, h: seq<Stamped>, s: Text)
    requires s in b.parts && IsVisible(b.parts[s])
    ensures s in Fold(b, h).parts && IsVisible(Fold(b, h).parts[s])
    decreases |h|
  {
    hide IsTelemetry;
    if h != [] {
      VisibleStays(b, h[..|h| - 1], s);
    }
  }

  lemma ReadingStays(cfg: Config, b: Book, h: seq<Stamped>, at: Time, now: Time)
    requires ReadingOf(b, cfg.address, cfg.serial, at).Some?
    ensures ReadingOf(Fold(b, h), cfg.address, cfg.serial, now).Some?
  {
    hide Fold, IsVisible, FirstMaster;
    var s :| s in BatteriesOf(b, at);
    VisibleStays(b, h, s);
    assert s in BatteriesOf(Fold(b, h), now);
  }

  // ---- what it can do all the same: move a battery ----

  /** No frame of the history has moved a battery shown, or the last one has moved it back. */
  predicate Unmoved(b: Batteries, h: seq<Stamped>) {
    forall s :: s in b ==> Last(h, PositionIn(s)) in {None, Some(b[s].position)}
  }

  /** Each battery is where the history last saw it, or where it was before. */
  predicate Follows(before: Batteries, after: Batteries, h: seq<Stamped>) {
    forall s :: s in before && s in after ==>
      after[s].position == GetOr(Last(h, PositionIn(s)), before[s].position)
  }

  /** The master named is the first gateway among the batteries listed, or the configured one. */
  predicate OwnMaster(cfg: Config, r: Cluster) {
    r.masterSerial == FirstMaster(r.order, r.batteries, cfg.serial)
  }

  lemma ReadingNamesOwnMaster(cfg: Config, b: Book, now: Time)
    ensures var r := ReadingOf(b, cfg.address, cfg.serial, now); r.Some? ==> OwnMaster(cfg, r.value)
  {}

  lemma SameGistKeys(r: Cluster, q: Cluster)
    requires GistOf(r) == GistOf(q)
    ensures r.batteries.Keys == q.batteries.Keys && r.order == q.order
    ensures forall s :: s in r.batteries ==> GistOfBattery(r.batteries[s]) == GistOfBattery(q.batteries[s])
  {
    hide GistOfBattery;
    assert GistOf(r).batteries.Keys == r.batteries.Keys && GistOf(q).batteries.Keys == q.batteries.Keys;
    assert forall s :: s in r.batteries ==> GistOf(r).batteries[s] == GistOfBattery(r.batteries[s]);
    assert forall s :: s in q.batteries ==> GistOf(q).batteries[s] == GistOfBattery(q.batteries[s]);
  }

  lemma UndatedBatteries(r: Cluster, q: Cluster)
    requires Undated(r).batteries == Undated(q).batteries
    ensures forall s :: s in r.batteries && s in q.batteries ==>
              r.batteries[s].position == q.batteries[s].position
  {
    assert forall s :: s in r.batteries ==> Undated(r).batteries[s].position == r.batteries[s].position;
    assert forall s :: s in q.batteries ==> Undated(q).batteries[s].position == q.batteries[s].position;
  }

  lemma SamePlaces(r: Cluster, q: Cluster)
    requires r.batteries.Keys == q.batteries.Keys
    requires forall s :: s in r.batteries ==>
               && GistOfBattery(r.batteries[s]) == GistOfBattery(q.batteries[s])
               && r.batteries[s].position == q.batteries[s].position
    ensures Undated(r).batteries == Undated(q).batteries
    ensures forall f :: FirstMaster(r.order, r.batteries, f) == FirstMaster(r.order, q.batteries, f)
  {
    forall f: Option<Text>
      ensures FirstMaster(r.order, r.batteries, f) == FirstMaster(r.order, q.batteries, f)
    {
      FirstMasterSame(r.order, r.batteries, q.batteries, f);
    }
    forall s | s in r.batteries
      ensures r.batteries[s].(updatedAt := 0) == q.batteries[s].(updatedAt := 0)
    {
      assert r.batteries[s].(updatedAt := 0) == GistOfBattery(r.batteries[s]).(position := r.batteries[s].position);
      assert q.batteries[s].(updatedAt := 0) == GistOfBattery(q.batteries[s]).(position := q.batteries[s].position);
    }
  }

  /** Two readings with one gist say the same, times aside, exactly if no battery has moved in between. */
  lemma SameSayingIff(cfg: Config, r: Cluster, q: Cluster, h: seq<Stamped>)
    requires GistOf(r) == GistOf(q) && OwnMaster(cfg, r) && OwnMaster(cfg, q)
    requires Follows(r.batteries, q.batteries, h)
    ensures Undated(r) == Undated(q) <==> Unmoved(r.batteries, h)
  {
    hide FirstMaster, GistOfBattery;
    SameGistKeys(r, q);
    if Unmoved(r.batteries, h) {
      SamePlaces(r, q);
      assert r.address == GistOf(r).address == GistOf(q).address == q.address;
      assert r.rosterCount == GistOf(r).rosterCount == GistOf(q).rosterCount == q.rosterCount;
    }
    if Undated(r) == Undated(q) {
      UndatedBatteries(r, q);
    }
  }

  lemma PositionsFollow(b: Book, h: seq<Stamped>, at: Time, now: Time)
    ensures Follows(BatteriesOf(b, at), BatteriesOf(Fold(b, h), now), h)
  {
    hide Fold, Last, IsVisible;
    forall s | s in BatteriesOf(b, at) && s in BatteriesOf(Fold(b, h), now)
      ensures BatteriesOf(Fold(b, h), now)[s].position ==
              GetOr(Last(h, PositionIn(s)), BatteriesOf(b, at)[s].position)
    {
      PositionAfter(b, h, s);
    }
  }

  /** Frames that change no battery leave the reading as it was in everything but its times, positions and
      master included, if and only if none of them moves a battery it shows. */
  lemma UntouchedReadingIff(cfg: Config, b: Book, h: seq<Stamped>, at: Time, now: Time)
    requires forall i :: 0 <= i < |h| ==> !Touches(h[i].frame)
    requires ReadingOf(b, cfg.address, cfg.serial, at).Some?
    ensures ReadingOf(Fold(b, h), cfg.address, cfg.serial, now).Some?
    ensures var r := ReadingOf(b, cfg.address, cfg.serial, at).value;
            Undated(r) == Undated(ReadingOf(Fold(b, h), cfg.address, cfg.serial, now).value) <==>
            Unmoved(r.batteries, h)
  {
    FoldUntouched(b, h);
    hide Fold, Touches, SameGist, GistOf, Undated, Unmoved, Follows, FirstMaster, OwnMaster;
    SameGistReading(cfg, b, Fold(b, h), at, now);
    ReadingNamesOwnMaster(cfg, b, at);
    ReadingNamesOwnMaster(cfg, Fold(b, h), now);
    PositionsFollow(b, h, at, now);
    SameSayingIff(cfg, ReadingOf(b, cfg.address, cfg.serial, at).value,
                  ReadingOf(Fold(b, h), cfg.address, cfg.serial, now).value, h);
  }

  /** The same of a feed that reports no change. */
  lemma UnchangedFeedIff(cfg: Config, a: Assembly, n: Notification, at: Time, now: Time)
    requires Changed(a, n) == {} && ReadingOf(a.book, cfg.address, cfg.serial, at).Some?
    ensures ReadingOf(Fed(a, n).book, cfg.address, cfg.serial, now).Some?
    ensures var r := ReadingOf(a.book, cfg.address, cfg.serial, at).value;
            Undated(r) == Undated(ReadingOf(Fed(a, n).book, cfg.address, cfg.serial, now).value) <==>
            Unmoved(r.batteries, StampAll(Frames(a.buffer + n.data), n.at))
  {
    hide Touches, Frames, Leftover, Fold, ReadingOf, Undated, Unmoved;
    var frames := Frames(a.buffer + n.data);
    NothingTouched(frames);
    UntouchedReadingIff(cfg, a.book, StampAll(frames, n.at), at, now);
  }

  // ---- invariants of every reachable state ----

  /** The handle held is that of the callback still to come; it never lies further ahead than one throttle
      interval; a pending update has a timer. */
  predicate TimerSound(cfg: Config, s: State) {
    && s.timer == s.flushHandle
    && (s.flushHandle.Some? ==> s.flushHandle.value <= s.clock + cfg.throttle)
    && (s.pendingUpdate ==> s.flushHandle.Some?)
    && (s.owed.Some? ==> s.owed.value <= s.clock)
  }

  /** Updates of one session are a throttle interval apart. */
  predicate PastSpaced(cfg: Config, s: State) {
    && (forall k :: 0 <= k < |s.updates| ==>
          s.updates[k].session <= s.session && s.updates[k].at <= s.clock)
    && (forall k :: 0 <= k < |s.updates| - 1 ==>
          && s.updates[k].session <= s.updates[k + 1].session
          && (s.updates[k].session == s.updates[k + 1].session ==>
                s.updates[k].at + cfg.throttle <= s.updates[k + 1].at))
  }

  /** The timer keeps the next update of the running session away for a throttle interval. */
  predicate NextGuarded(cfg: Config, s: State) {
    s.running && s.updates != [] && s.updates[|s.updates| - 1].session == s.session ==>
      var next := s.updates[|s.updates| - 1].at + cfg.throttle;
      if s.flushHandle.Some? then next <= s.flushHandle.value else next <= s.clock
  }

  predicate Spaced(cfg: Config, s: State) {
    PastSpaced(cfg, s) && NextGuarded(cfg, s)
  }

  /** Nothing is alive outside a session. */
  predicate Quiescent(s: State) {
    !s.running ==> s.assembler.None? && s.flushHandle.None? && !s.pendingUpdate
  }

  /** The latest update has the gist of the present reading. */
  predicate UpToDate(cfg: Config, s: State) {
    && s.updates != []
    && Current(cfg, s, s.clock).Some?
    && GistOf(s.updates[|s.updates| - 1].reading) == GistOf(Current(cfg, s, s.clock).value)
  }

  /** No state of a live connection is lost: it has been delivered, or a pending update is armed to
      deliver it within one throttle interval of the change. */
  predicate NothingLost(cfg: Config, s: State) {
    && (s.owed.Some? ==>
          && Current(cfg, s, s.clock).Some?
          && s.pendingUpdate
          && s.flushHandle.Some?
          && s.flushHandle.value <= s.owed.value + cfg.throttle)
    && (s.owed.None? && Current(cfg, s, s.clock).Some? ==> UpToDate(cfg, s))
  }

  // ---- one step at a time ----

  lemma TimerStep(cfg: Config, s: State, e: Event, now: Time)
    requires Enabled(s, e, now) && TimerSound(cfg, s)
    ensures TimerSound(cfg, Next(cfg, s, e, now))
  {
    hide Current, Fed, Changed;
  }

  lemma QuiescentStep(cfg: Config, s: State, e: Event, now: Time)
    requires Enabled(s, e, now) && Quiescent(s)
    ensures Quiescent(Next(cfg, s, e, now))
  {
    hide Current, Fed, Changed;
  }

  /** The earliest moment the next update of this session may go out. */
  predicate MayFlushAt(cfg: Config, s: State, now: Time) {
    s.running && s.updates != [] && s.updates[|s.updates| - 1].session == s.session ==>
      s.updates[|s.updates| - 1].at + cfg.throttle <= now
  }

  lemma SpacedSchedule(cfg: Config, s: State, now: Time)
    requires Spaced(cfg, s.(clock := now)) && s.flushHandle.None? && MayFlushAt(cfg, s, now)
    requires s.assembler.Some? ==> s.running
    ensures Spaced(cfg, ScheduleFlush(cfg, s, now).(clock := now))
  {
    hide ReadingOf;
  }

  lemma SpacedLater(cfg: Config, s: State, now: Time)
    requires Spaced(cfg, s) && s.clock <= now
    ensures Spaced(cfg, s.(clock := now))
    ensures s.flushHandle.None? ==> MayFlushAt(cfg, s, now)
    ensures s.flushHandle.Some? && s.flushHandle.value <= now ==>
              MayFlushAt(cfg, s, now) && Spaced(cfg, s.(clock := now, flushHandle := None))
  {
    PastLater(cfg, s, now, s.flushHandle);
    PastLater(cfg, s, now, None);
    hide PastSpaced;
  }

  lemma PastLater(cfg: Config, s: State, now: Time, handle: Option<Time>)
    requires PastSpaced(cfg, s) && s.clock <= now
    ensures PastSpaced(cfg, s.(clock := now, flushHandle := handle))
  {}

  /** Spacing is a matter of the updates, the session and the timer. */
  lemma SpacedSame(cfg: Config, s: State, t: State)
    requires Spaced(cfg, s) && t.updates == s.updates && t.clock == s.clock
    requires t.session >= s.session
    requires t.running && t.session == s.session ==> s.running && t.flushHandle == s.flushHandle
    ensures Spaced(cfg, t)
  {}

  lemma SpacedNotify(cfg: Config, s: State, data: seq<byte>, now: Time)
    requires s.clock <= now && Spaced(cfg, s) && (s.assembler.Some? ==> s.running)
    ensures Spaced(cfg, OnNotify(cfg, s, data, now).(clock := now))
  {
    hide Current, Fed, Changed, Spaced, MayFlushAt, ScheduleFlush;
    SpacedLater(cfg, s, now);
    var t := OnNotify(cfg, s, data, now).(clock := now);
    if s.assembler.Some? && !s.stopping {
      var n := Notification(data, now);
      var noted := NoteChange(cfg, s.(assembler := Some(Fed(s.assembler.value, n))), now);
      SpacedSame(cfg, s.(clock := now), noted.(clock := now));
      if Changed(s.assembler.value, n) == {} || s.flushHandle.Some? {
        NotifyKeepsTimer(cfg, s, data, now);
        SpacedSame(cfg, s.(clock := now), t);
      } else {
        MayFlushSame(cfg, s, noted, now);
        SpacedSchedule(cfg, noted, now);
      }
    }
  }

  lemma NotifyKeepsTimer(cfg: Config, s: State, data: seq<byte>, now: Time)
    requires s.assembler.Some? && !s.stopping
    requires Changed(s.assembler.value, Notification(data, now)) == {} || s.flushHandle.Some?
    ensures var t := OnNotify(cfg, s, data, now);
            && t.updates == s.updates && t.session == s.session && t.running == s.running
            && t.flushHandle == s.flushHandle
  {
    hide Current, Fed, Changed;
  }

  lemma MayFlushSame(cfg: Config, s: State, t: State, now: Time)
    requires MayFlushAt(cfg, s, now) && t.updates == s.updates && t.session == s.session
    requires t.running == s.running
    ensures MayFlushAt(cfg, t, now)
  {}

  lemma SpacedTick(cfg: Config, s: State, now: Time)
    requires Enabled(s, Tick, now) && TimerSound(cfg, s) && Spaced(cfg, s)
    requires s.assembler.Some? ==> s.running
    ensures Spaced(cfg, OnThrottleEnd(cfg, s.(timer := None), now).(clock := now))
  {
    hide Current, Spaced, MayFlushAt, ScheduleFlush;
    SpacedLater(cfg, s, now);
    var t := s.(flushHandle := None, pendingUpdate := false, timer := None);
    SpacedSame(cfg, s.(clock := now, flushHandle := None), t.(clock := now));
    MayFlushSame(cfg, s, t, now);
    if s.pendingUpdate {
      SpacedSchedule(cfg, t, now);
    } else {
      assert OnThrottleEnd(cfg, s.(timer := None), now) == t;
    }
  }

  lemma SpacedStep(cfg: Config, s: State, e: Event, now: Time)
    requires Enabled(s, e, now) && TimerSound(cfg, s) && Spaced(cfg, s)
    requires s.assembler.Some? ==> s.running
    ensures Spaced(cfg, Next(cfg, s, e, now))
  {
    hide Spaced, OnNotify, OnThrottleEnd;
    match e {
      case Notify(data) => SpacedNotify(cfg, s, data, now);
      case Tick => SpacedTick(cfg, s, now);
      case _ =>
        SpacedLater(cfg, s, now);
        SpacedSame(cfg, s.(clock := now), Next(cfg, s, e, now));
    }
  }

  /** Time passing changes nothing a consumer is told. */
  lemma CurrentAt(cfg: Config, s: State, at: Time, now: Time)
    ensures Current(cfg, s, at).Some? <==> Current(cfg, s, now).Some?
    ensures Current(cfg, s, at).Some? ==>
              GistOf(Current(cfg, s, at).value) == GistOf(Current(cfg, s, now).value)
  {
    hide ReadingOf, GistOf;
    if s.assembler.Some? {
      ReadingAtAnyTime(cfg, s.assembler.value.book, at, now);
    }
  }

  /** A flush of the present state settles the account. */
  lemma FlushSettles(cfg: Config, s: State, now: Time)
    requires s.flushHandle.None? && (s.owed.Some? ==> Current(cfg, s, now).Some?)
    ensures NothingLost(cfg, ScheduleFlush(cfg, s, now).(clock := now))
  {
    hide ReadingOf, GistOf;
  }

  lemma NotifyKeepsAccount(cfg: Config, s: State, data: seq<byte>, now: Time)
    requires s.clock <= now && TimerSound(cfg, s) && NothingLost(cfg, s)
    ensures NothingLost(cfg, OnNotify(cfg, s, data, now).(clock := now))
  {
    hide ReadingOf, GistOf, Fed, Changed;
    CurrentAt(cfg, s, s.clock, now);
    if s.assembler.Some? && !s.stopping {
      var n := Notification(data, now);
      var fed := s.(assembler := Some(Fed(s.assembler.value, n)));
      if Current(cfg, s, now).Some? {
        FedReadingStays(cfg, s.assembler.value, n, now);
      }
      if Changed(s.assembler.value, n) == {} {
        UnchangedFeed(s.assembler.value, n);
        SameGistReading(cfg, s.assembler.value.book, Fed(s.assembler.value, n).book, now, now);
      } else if s.flushHandle.None? {
        FlushSettles(cfg, NoteChange(cfg, fed, now), now);
      }
    }
  }

  lemma FedReadingStays(cfg: Config, a: Assembly, n: Notification, now: Time)
    requires ReadingOf(a.book, cfg.address, cfg.serial, now).Some?
    ensures ReadingOf(Fed(a, n).book, cfg.address, cfg.serial, now).Some?
  {
    hide ReadingOf, Frames, Leftover, Fold;
    ReadingStays(cfg, a.book, StampAll(Frames(a.buffer + n.data), n.at), now, now);
  }

  lemma NothingLostStep(cfg: Config, s: State, e: Event, now: Time)
    requires Enabled(s, e, now) && TimerSound(cfg, s) && Quiescent(s) && NothingLost(cfg, s)
    ensures NothingLost(cfg, Next(cfg, s, e, now))
  {
    hide ReadingOf, GistOf, Fed, Changed, OnNotify;
    CurrentAt(cfg, s, s.clock, now);
    match e {
      case Notify(data) => NotifyKeepsAccount(cfg, s, data, now);
      case Tick =>
        if s.pendingUpdate {
          FlushSettles(cfg, s.(flushHandle := None, pendingUpdate := false, timer := None), now);
        }
      case Open => FreshHasNoReading(cfg, now);
      case _ =>
    }
  }

  lemma FreshHasNoReading(cfg: Config, now: Time)
    ensures ReadingOf(EMPTY, cfg.address, cfg.serial, now).None?
  {}

  // ---- whole runs ----

  lemma {:induction false} Reachable(cfg: Config, trace: seq<Timed>)
    requires Legal(cfg, trace)
    ensures var s := After(cfg, trace);
            TimerSound(cfg, s) && Quiescent(s) && Spaced(cfg, s) && NothingLost(cfg, s)
  {
    hide Next, Enabled, NothingLost, Spaced, Quiescent, TimerSound;
    if trace == [] {
      InitialIsSound(cfg);
    } else {
      var n := |trace| - 1;
      var s, e, now := After(cfg, trace[..n]), trace[n].event, trace[n].at;
      Reachable(cfg, trace[..n]);
      TimerStep(cfg, s, e, now);
      QuiescentStep(cfg, s, e, now);
      LiveMeansRunning(s);
      SpacedStep(cfg, s, e, now);
      NothingLostStep(cfg, s, e, now);
    }
  }

  lemma LiveMeansRunning(s: State)
    requires Quiescent(s)
    ensures s.assembler.Some? ==> s.running
  {}

  lemma InitialIsSound(cfg: Config)
    ensures TimerSound(cfg, INITIAL) && Quiescent(INITIAL) && Spaced(cfg, INITIAL)
    ensures NothingLost(cfg, INITIAL)
  {}

  // ---- what the last update shows ----

  /** When nothing is owed, the batteries are where the frames heard since the last update put them, and
      where that update showed them if none was heard. */
  predicate Accounted(cfg: Config, s: State, heard: seq<Stamped>) {
    s.owed.None? && Current(cfg, s, s.clock).Some? ==>
      && s.updates != []
      && var last := s.updates[|s.updates| - 1].reading;
         OwnMaster(cfg, last) && Follows(last.batteries, Current(cfg, s, s.clock).value.batteries, heard)
  }

  lemma FollowsNothing(b: Batteries, c: Batteries)
    requires forall s :: s in b && s in c ==> c[s].position == b[s].position
    ensures Follows(b, c, [])
  {}

  lemma FollowsThen(a: Batteries, b: Batteries, c: Batteries, h: seq<Stamped>, g: seq<Stamped>)
    requires Follows(a, b, h) && Follows(b, c, g) && a.Keys == b.Keys
    ensures Follows(a, c, h + g)
  {
    hide Last;
    forall s | s in a && s in c
      ensures c[s].position == GetOr(Last(h + g, PositionIn(s)), a[s].position)
    {
      LastAppend(h, g, PositionIn(s));
    }
  }

  /** Time passing moves nothing. */
  lemma PositionsAt(cfg: Config, s: State, at: Time, now: Time)
    requires Current(cfg, s, at).Some? && Current(cfg, s, now).Some?
    ensures Follows(Current(cfg, s, at).value.batteries, Current(cfg, s, now).value.batteries, [])
    ensures Current(cfg, s, at).value.batteries.Keys == Current(cfg, s, now).value.batteries.Keys
  {
    hide FirstMaster, VisibleOrder;
    PositionsFollow(s.assembler.value.book, [], at, now);
    SameGistBatteries(s.assembler.value.book, s.assembler.value.book, at, now);
  }

  /** An update has just shown the present reading. */
  lemma AccountedOnDelivery(cfg: Config, s: State)
    requires s.updates != [] && Current(cfg, s, s.clock) == Some(s.updates[|s.updates| - 1].reading)
    ensures Accounted(cfg, s, [])
  {
    hide ReadingOf, FirstMaster;
    ReadingNamesOwnMaster(cfg, s.assembler.value.book, s.clock);
    FollowsNothing(s.updates[|s.updates| - 1].reading.batteries, s.updates[|s.updates| - 1].reading.batteries);
  }

  /** Nothing has been taken in or handed on. */
  lemma AccountedLater(cfg: Config, s: State, t: State, heard: seq<Stamped>)
    requires Accounted(cfg, s, heard) && NothingLost(cfg, s)
    requires t.assembler == s.assembler && t.updates == s.updates && (t.owed.None? ==> s.owed.None?)
    ensures Accounted(cfg, t, heard)
  {
    hide ReadingOf, GistOf, Follows, OwnMaster;
    CurrentAt(cfg, s, s.clock, t.clock);
    if t.owed.None? && Current(cfg, t, t.clock).Some? {
      var last := s.updates[|s.updates| - 1].reading;
      PositionsAt(cfg, s, s.clock, t.clock);
      SameGistKeys(last, Current(cfg, s, s.clock).value);
      FollowsThen(last.batteries, Current(cfg, s, s.clock).value.batteries,
                  Current(cfg, t, t.clock).value.batteries, heard, []);
      assert heard + [] == heard;
    }
  }

  /** A feed that changes nothing has been taken in. */
  lemma AccountedFeed(cfg: Config, s: State, n: Notification, heard: seq<Stamped>)
    requires Accounted(cfg, s, heard) && NothingLost(cfg, s) && s.assembler.Some?
    requires Changed(s.assembler.value, n) == {}
    ensures Accounted(cfg, s.(assembler := Some(Fed(s.assembler.value, n)), clock := n.at),
                      heard + StampAll(Frames(s.assembler.value.buffer + n.data), n.at))
  {
    hide ReadingOf, GistOf, Follows, OwnMaster, Fed, Changed, Frames;
    var b, t := s.assembler.value.book, s.(assembler := Some(Fed(s.assembler.value, n)), clock := n.at);
    UnchangedFeed(s.assembler.value, n);
    SameGistReading(cfg, b, Fed(s.assembler.value, n).book, s.clock, n.at);
    if t.owed.None? && Current(cfg, t, t.clock).Some? {
      var last := s.updates[|s.updates| - 1].reading;
      SameGistKeys(last, Current(cfg, s, s.clock).value);
      FeedMoves(cfg, s.assembler.value, n, s.clock, n.at);
      FollowsThen(last.batteries, Current(cfg, s, s.clock).value.batteries,
                  Current(cfg, t, t.clock).value.batteries, heard,
                  StampAll(Frames(s.assembler.value.buffer + n.data), n.at));
    }
  }

  lemma FeedMoves(cfg: Config, a: Assembly, n: Notification, at: Time, now: Time)
    requires ReadingOf(a.book, cfg.address, cfg.serial, at).Some?
    requires ReadingOf(Fed(a, n).book, cfg.address, cfg.serial, now).Some?
    ensures Follows(ReadingOf(a.book, cfg.address, cfg.serial, at).value.batteries,
                    ReadingOf(Fed(a, n).book, cfg.address, cfg.serial, now).value.batteries,
                    StampAll(Frames(a.buffer + n.data), n.at))
  {
    hide Follows, FirstMaster, VisibleOrder, Fold, Frames, Leftover, BatteriesOf;
    PositionsFollow(a.book, StampAll(Frames(a.buffer + n.data), n.at), at, now);
  }

  /** A flush either hands on the present reading or changes nothing but the timer. */
  lemma ScheduleCases(cfg: Config, s: State, now: Time)
    ensures var t := ScheduleFlush(cfg, s, now);
            && t.assembler == s.assembler
            && (t.updates == s.updates ||
                (Current(cfg, s, now).Some?
                 && t.updates == s.updates + [Delivery(now, Current(cfg, s, now).value, s.session)]))
            && (t.updates == s.updates ==> t.owed == s.owed)
            && (s.flushHandle.None? && Current(cfg, s, now).Some? ==> t.updates != s.updates)
  {
    hide ReadingOf;
  }

  lemma AccountedNotify(cfg: Config, s: State, data: seq<byte>, now: Time, heard: seq<Stamped>)
    requires s.clock <= now && NothingLost(cfg, s) && Accounted(cfg, s, heard)
    ensures Accounted(cfg, Next(cfg, s, Notify(data), now), HeardNext(cfg, s, heard, Notify(data), now))
  {
    hide ReadingOf, GistOf, Fed, Changed, Frames, ScheduleFlush, Accounted, NothingLost;
    var t := Next(cfg, s, Notify(data), now);
    if s.assembler.None? || s.stopping {
      AccountedLater(cfg, s, t, heard);
    } else {
      var n := Notification(data, now);
      if Changed(s.assembler.value, n) == {} {
        AccountedFeed(cfg, s, n, heard);
      } else {
        var noted := NoteChange(cfg, s.(assembler := Some(Fed(s.assembler.value, n))), now);
        ScheduleCases(cfg, noted, now);
        if t.updates == s.updates {
          OwedOrNothing(cfg, t, HeardNext(cfg, s, heard, Notify(data), now));
        } else {
          AccountedOnDelivery(cfg, t);
        }
      }
    }
  }

  lemma OwedOrNothing(cfg: Config, s: State, heard: seq<Stamped>)
    requires s.owed.Some? || Current(cfg, s, s.clock).None?
    ensures Accounted(cfg, s, heard)
  {}

  lemma AccountedStep(cfg: Config, s: State, e: Event, now: Time, heard: seq<Stamped>)
    requires Enabled(s, e, now) && NothingLost(cfg, s) && Accounted(cfg, s, heard)
    ensures Accounted(cfg, Next(cfg, s, e, now), HeardNext(cfg, s, heard, e, now))
  {
    hide ReadingOf, GistOf, OnNotify, ScheduleFlush, Accounted, NothingLost;
    var t := Next(cfg, s, e, now);
    match e {
      case Notify(data) => AccountedNotify(cfg, s, data, now, heard);
      case Tick =>
        if s.pendingUpdate {
          ScheduleCases(cfg, s.(flushHandle := None, pendingUpdate := false, timer := None), now);
        }
        if t.updates == s.updates {
          AccountedLater(cfg, s, t, heard);
        } else {
          AccountedOnDelivery(cfg, t);
        }
      case Open =>
        FreshHasNoReading(cfg, now);
        OwedOrNothing(cfg, t, []);
      case Start => AccountedLater(cfg, s, t, heard);
      case StopRequested => AccountedLater(cfg, s, t, heard);
      case _ => OwedOrNothing(cfg, t, []);
    }
  }

  lemma {:induction false} AlwaysAccounted(cfg: Config, trace: seq<Timed>)
    requires Legal(cfg, trace)
    ensures Accounted(cfg, After(cfg, trace), HeardSince(cfg, trace))
    decreases |trace|
  {
    hide Next, HeardNext, Enabled, Accounted, NothingLost, Spaced, Quiescent, TimerSound;
    if trace == [] {
      OwedOrNothing(cfg, INITIAL, []);
    } else {
      var n := |trace| - 1;
      AlwaysAccounted(cfg, trace[..n]);
      Reachable(cfg, trace[..n]);
      AccountedStep(cfg, After(cfg, trace[..n]), trace[n].event, trace[n].at, HeardSince(cfg, trace[..n]));
    }
  }

  /** In every reachable state of a live connection with a reading
      - a change not yet handed on is pending, and armed to go out within one throttle interval of the
        moment it happened;
      - if there is none, the last update has the gist of the present reading, and says all the present
        reading says, positions and master included, if and only if no telemetry frame heard since that
        update leaves a battery it shows at another position. */
  lemma NoLostUpdate(cfg: Config, trace: seq<Timed>)
    requires Legal(cfg, trace)
    ensures var s := After(cfg, trace);
            && (s.pendingUpdate ==> s.flushHandle.Some?)
            && (s.owed.Some? ==>
                  && s.pendingUpdate && s.flushHandle.Some?
                  && s.flushHandle.value <= s.owed.value + cfg.throttle)
            && (s.owed.None? && Current(cfg, s, s.clock).Some? ==>
                  && s.updates != []
                  && var last, present := s.updates[|s.updates| - 1].reading, Current(cfg, s, s.clock).value;
                     && GistOf(last) == GistOf(present)
                     && (Undated(last) == Undated(present) <==>
                         Unmoved(last.batteries, HeardSince(cfg, trace))))
  {
    hide Legal, After, HeardSince, GistOf, ReadingOf, OwnMaster, Follows, Unmoved, Undated;
    Reachable(cfg, trace);
    AlwaysAccounted(cfg, trace);
    var s := After(cfg, trace);
    if s.owed.None? && Current(cfg, s, s.clock).Some? {
      var last, present := s.updates[|s.updates| - 1].reading, Current(cfg, s, s.clock).value;
      ReadingNamesOwnMaster(cfg, s.assembler.value.book, s.clock);
      SameSayingIff(cfg, last, present, HeardSince(cfg, trace));
    }
  }

  /** The timer that a pending update waits for hands over the present state. */
  lemma TickDelivers(cfg: Config, trace: seq<Timed>, now: Time)
    requires Legal(cfg, trace) && Enabled(After(cfg, trace), Tick, now)
    requires After(cfg, trace).owed.Some?
    ensures var s, t := After(cfg, trace), Next(cfg, After(cfg, trace), Tick, now);
            && Current(cfg, s, now).Some?
            && t.updates == s.updates + [Delivery(now, Current(cfg, s, now).value, s.session)]
            && t.owed.None?
  {
    hide Legal, After, ReadingOf, GistOf;
    Reachable(cfg, trace);
    CurrentAt(cfg, After(cfg, trace), After(cfg, trace).clock, now);
  }

  /** A notification that changes the picture and leaves a reading to show for it. */
  ghost predicate IsChange(cfg: Config, s: State, e: Event, now: Time) {
    && e.Notify? && s.assembler.Some? && !s.stopping
    && Changed(s.assembler.value, Notification(e.data, now)) != {}
    && ReadingOf(Fed(s.assembler.value, Notification(e.data, now)).book, cfg.address, cfg.serial, now).Some?
  }

  /** Handed on since there were n updates, or still owed since t at the latest. */
  predicate DeliveredOrOwed(s: State, n: nat, t: Time) {
    |s.updates| > n || (|s.updates| == n && s.owed.Some? && s.owed.value <= t)
  }

  lemma ChangeIsNoted(cfg: Config, s: State, e: Event, now: Time)
    requires Enabled(s, e, now) && TimerSound(cfg, s) && NothingLost(cfg, s) && IsChange(cfg, s, e, now)
    ensures DeliveredOrOwed(Next(cfg, s, e, now), |s.updates|, now)
  {
    hide ReadingOf, GistOf, Fed, Changed, UpToDate;
  }

  lemma DebtIsKept(cfg: Config, s: State, e: Event, now: Time, n: nat, t: Time)
    requires Enabled(s, e, now) && DeliveredOrOwed(s, n, t) && !EndsConnection(e)
    ensures DeliveredOrOwed(Next(cfg, s, e, now), n, t)
  {
    hide ReadingOf, Fed, Changed;
  }

  lemma {:induction false} ChangeStaysNoted(cfg: Config, trace: seq<Timed>, k: nat)
    requires Legal(cfg, trace) && k < |trace|
    requires Legal(cfg, trace[..k]) && IsChange(cfg, After(cfg, trace[..k]), trace[k].event, trace[k].at)
    requires forall j :: k < j < |trace| ==> !EndsConnection(trace[j].event)
    ensures DeliveredOrOwed(After(cfg, trace), |After(cfg, trace[..k]).updates|, trace[k].at)
    decreases |trace|
  {
    hide Next, Enabled, IsChange, DeliveredOrOwed, EndsConnection, NothingLost, TimerSound, Spaced, Quiescent;
    var n := |trace| - 1;
    Reachable(cfg, trace[..n]);
    if k == n {
      ChangeIsNoted(cfg, After(cfg, trace[..n]), trace[n].event, trace[n].at);
    } else {
      assert trace[..n][..k] == trace[..k];
      ChangeStaysNoted(cfg, trace[..n], k);
      DebtIsKept(cfg, After(cfg, trace[..n]), trace[n].event, trace[n].at,
                 |After(cfg, trace[..k]).updates|, trace[k].at);
    }
  }

  lemma {:induction false} LegalPrefix(cfg: Config, trace: seq<Timed>, k: nat)
    requires Legal(cfg, trace) && k <= |trace|
    ensures Legal(cfg, trace[..k])
    decreases |trace|
  {
    hide Enabled, After;
    if k < |trace| {
      var n := |trace| - 1;
      LegalPrefix(cfg, trace[..n], k);
      assert trace[..n][..k] == trace[..k];
    } else {
      assert trace[..k] == trace;
    }
  }

  /** Throttling delays a change but never drops it: as long as its connection lasts, every change that
      left a reading has been followed by an update, or one is armed to go out at most one throttle
      interval after the change. */
  lemma EveryChangeIsCovered(cfg: Config, trace: seq<Timed>, k: nat)
    requires Legal(cfg, trace) && k < |trace|
    requires IsChange(cfg, After(cfg, trace[..k]), trace[k].event, trace[k].at)
    requires forall j :: k < j < |trace| ==> !EndsConnection(trace[j].event)
    ensures var s := After(cfg, trace);
            |s.updates| > |After(cfg, trace[..k]).updates| ||
            (s.pendingUpdate && s.flushHandle.Some? && s.flushHandle.value <= trace[k].at + cfg.throttle)
  {
    hide Legal, After, IsChange, EndsConnection, UpToDate, TimerSound, Spaced, Quiescent;
    LegalPrefix(cfg, trace, k);
    ChangeStaysNoted(cfg, trace, k);
    Reachable(cfg, trace);
  }

  /** Not handed on since there were n updates, and waiting for the timer. */
  predicate Waiting(cfg: Config, s: State, n: nat) {
    |s.updates| == n && s.pendingUpdate && s.flushHandle.Some? && Current(cfg, s, s.clock).Some?
  }

  lemma ChangeWaits(cfg: Config, s: State, e: Event, now: Time)
    requires IsChange(cfg, s, e, now)
    ensures s.flushHandle.None? ==> |Next(cfg, s, e, now).updates| > |s.updates|
    ensures s.flushHandle.Some? ==> Waiting(cfg, Next(cfg, s, e, now), |s.updates|)
  {
    hide ReadingOf, Fed, Changed;
  }

  lemma WaitingStep(cfg: Config, s: State, e: Event, now: Time, n: nat)
    requires Enabled(s, e, now) && Waiting(cfg, s, n) && !EndsConnection(e)
    ensures if e.Tick? then |Next(cfg, s, e, now).updates| > n else Waiting(cfg, Next(cfg, s, e, now), n)
  {
    hide ReadingOf, Fed, Changed;
    CurrentAt(cfg, s, s.clock, now);
    if e.Notify? && s.assembler.Some? {
      FedReadingStays(cfg, s.assembler.value, Notification(e.data, now), now);
    }
  }

  lemma UpdatesStay(cfg: Config, s: State, e: Event, now: Time)
    ensures |Next(cfg, s, e, now).updates| >= |s.updates|
  {
    hide ReadingOf, Fed, Changed;
  }

  predicate TickAfter(trace: seq<Timed>, k: nat) {
    exists j :: k < j < |trace| && trace[j].event.Tick?
  }

  lemma TickInPrefix(trace: seq<Timed>, k: nat)
    requires k < |trace| - 1
    ensures TickAfter(trace, k) <==> TickAfter(trace[..|trace| - 1], k) || trace[|trace| - 1].event.Tick?
  {
    var n := |trace| - 1;
    if j :| k < j < |trace[..n]| && trace[..n][j].event.Tick? {
      assert trace[j].event.Tick?;
    }
    if j :| k < j < |trace| && trace[j].event.Tick? && j != n {
      assert trace[..n][j].event.Tick?;
    }
  }

  lemma {:induction false} DeliveredOrWaiting(cfg: Config, trace: seq<Timed>, k: nat)
    requires Legal(cfg, trace) && k < |trace|
    requires IsChange(cfg, After(cfg, trace[..k]), trace[k].event, trace[k].at)
    requires forall j :: k < j < |trace| ==> !EndsConnection(trace[j].event)
    ensures var n := |After(cfg, trace[..k]).updates|;
            if After(cfg, trace[..k]).flushHandle.None? || TickAfter(trace, k)
            then |After(cfg, trace).updates| > n
            else Waiting(cfg, After(cfg, trace), n)
    decreases |trace|
  {
    hide Next, Enabled, IsChange, Waiting, EndsConnection, TickAfter;
    var n := |trace| - 1;
    if k == n {
      ChangeWaits(cfg, After(cfg, trace[..n]), trace[n].event, trace[n].at);
      NoTickAfterEnd(trace);
    } else {
      assert trace[..n][..k] == trace[..k];
      DeliveredOrWaiting(cfg, trace[..n], k);
      TickInPrefix(trace, k);
      UpdatesStay(cfg, After(cfg, trace[..n]), trace[n].event, trace[n].at);
      if !(After(cfg, trace[..k]).flushHandle.None? || TickAfter(trace[..n], k)) {
        WaitingStep(cfg, After(cfg, trace[..n]), trace[n].event, trace[n].at, |After(cfg, trace[..k]).updates|);
      }
    }
  }

  lemma NoTickAfterEnd(trace: seq<Timed>)
    requires trace != []
    ensures !TickAfter(trace, |trace| - 1)
  {}

  /** As long as its connection lasts, a change that left a reading has been handed on if and only if no
      timer was armed when it came or the timer has fired since. */
  lemma ChangeDeliveredIff(cfg: Config, trace: seq<Timed>, k: nat)
    requires Legal(cfg, trace) && k < |trace|
    requires IsChange(cfg, After(cfg, trace[..k]), trace[k].event, trace[k].at)
    requires forall j :: k < j < |trace| ==> !EndsConnection(trace[j].event)
    ensures |After(cfg, trace).updates| > |After(cfg, trace[..k]).updates| <==>
            After(cfg, trace[..k]).flushHandle.None? ||
            exists j :: k < j < |trace| && trace[j].event.Tick?
  {
    hide Legal, After, IsChange, EndsConnection;
    DeliveredOrWaiting(cfg, trace, k);
  }

  lemma StaysDown(cfg: Config, s: State, e: Event, now: Time)
    requires s.assembler.None? && !e.Open?
    ensures Next(cfg, s, e, now).assembler.None? && Next(cfg, s, e, now).updates == s.updates
  {
    hide ReadingOf, Fed, Changed;
  }

  /** Once its connection is torn down, nothing is handed on before the next one is opened: a change that
      was still waiting is lost. */
  lemma {:induction false} TeardownLosesWaiting(cfg: Config, before: seq<Timed>, drop: Time, later: seq<Timed>)
    requires Legal(cfg, before + [Timed(Teardown, drop)] + later)
    requires forall k :: 0 <= k < |later| ==> !later[k].event.Open?
    ensures var s := After(cfg, before + [Timed(Teardown, drop)] + later);
            s.assembler.None? && s.updates == After(cfg, before).updates
    decreases |later|
  {
    hide After, Legal, Next, Enabled;
    var head := before + [Timed(Teardown, drop)];
    OneMoreEvent(cfg, before, Timed(Teardown, drop));
    if later == [] {
      assert head + later == head;
      TornDown(cfg, After(cfg, before), drop);
    } else {
      var n := |later| - 1;
      assert head + later == head + later[..n] + [later[n]];
      OneMoreEvent(cfg, head + later[..n], later[n]);
      TeardownLosesWaiting(cfg, before, drop, later[..n]);
      StaysDown(cfg, After(cfg, head + later[..n]), later[n].event, later[n].at);
    }
  }

  lemma TornDown(cfg: Config, s: State, now: Time)
    ensures Next(cfg, s, Teardown, now).assembler.None? && Next(cfg, s, Teardown, now).updates == s.updates
  {}

  // ---- the timer fires once ----

  /** A timer that fires with nothing pending hands nothing on and is gone. */
  lemma QuietTickDisarms(cfg: Config, trace: seq<Timed>, t: Time)
    requires Legal(cfg, trace + [Timed(Tick, t)]) && !After(cfg, trace).pendingUpdate
    ensures var s := After(cfg, trace + [Timed(Tick, t)]);
            s.flushHandle.None? && s.timer.None? && s.updates == After(cfg, trace).updates
  {
    hide Legal, After, ReadingOf;
    OneMoreEvent(cfg, trace, Timed(Tick, t));
  }

  /** A timer that fires with an update pending settles it: the present reading goes out if there is one,
      nothing stays pending, and the timer is armed anew for one interval. */
  lemma PendingTickSettles(cfg: Config, trace: seq<Timed>, t: Time)
    requires Legal(cfg, trace + [Timed(Tick, t)]) && After(cfg, trace).pendingUpdate
    ensures var before, s := After(cfg, trace), After(cfg, trace + [Timed(Tick, t)]);
            && !s.pendingUpdate && s.timer == Some(t + cfg.throttle) && s.flushHandle == s.timer
            && s.updates == before.updates + match Current(cfg, before, t)
                                             case Some(r) => [Delivery(t, r, before.session)] case None => []
  {
    hide Legal, After, ReadingOf;
    OneMoreEvent(cfg, trace, Timed(Tick, t));
    var before := After(cfg, trace);
    if Current(cfg, before, t).None? {
      assert before.updates + [] == before.updates;
    }
  }

  /** While no timer is armed, a change goes out at once, alone, and arms the timer. */
  lemma ChangeGoesOutAtOnce(cfg: Config, trace: seq<Timed>, data: seq<byte>, now: Time)
    requires Legal(cfg, trace + [Timed(Notify(data), now)]) && After(cfg, trace).flushHandle.None?
    requires IsChange(cfg, After(cfg, trace), Notify(data), now)
    ensures var s, t := After(cfg, trace), After(cfg, trace + [Timed(Notify(data), now)]);
            && Current(cfg, t, now).Some?
            && t.updates == s.updates + [Delivery(now, Current(cfg, t, now).value, s.session)]
            && t.timer == Some(now + cfg.throttle)
  {
    hide Legal, After, ReadingOf, Fed, Changed;
    OneMoreEvent(cfg, trace, Timed(Notify(data), now));
  }

  /** So the first change after a quiet timer is handed on the moment it comes. */
  lemma ChangeAfterQuietTick(cfg: Config, trace: seq<Timed>, t: Time, data: seq<byte>, now: Time)
    requires Legal(cfg, trace + [Timed(Tick, t)] + [Timed(Notify(data), now)])
    requires !After(cfg, trace).pendingUpdate
    requires IsChange(cfg, After(cfg, trace + [Timed(Tick, t)]), Notify(data), now)
    ensures var s := After(cfg, trace + [Timed(Tick, t)] + [Timed(Notify(data), now)]);
            && Current(cfg, s, now).Some? && |s.updates| == |After(cfg, trace).updates| + 1
            && s.updates[|s.updates| - 1].reading == Current(cfg, s, now).value
            && s.updates[|s.updates| - 1].at == now
  {
    hide Legal, After, Current, IsChange;
    OneMoreEvent(cfg, trace + [Timed(Tick, t)], Timed(Notify(data), now));
    QuietTickDisarms(cfg, trace, t);
    ChangeGoesOutAtOnce(cfg, trace + [Timed(Tick, t)], data, now);
  }

  /** Every reported change, whether or not it leaves a reading, leaves a timer armed: for one throttle
      interval if there was none, and the one there was, with an update pending, if there was one. */
  lemma EveryChangeArms(cfg: Config, trace: seq<Timed>, data: seq<byte>, now: Time)
    requires Legal(cfg, trace + [Timed(Notify(data), now)])
    requires After(cfg, trace).assembler.Some? && !After(cfg, trace).stopping
    requires Changed(After(cfg, trace).assembler.value, Notification(data, now)) != {}
    ensures var s, t := After(cfg, trace), After(cfg, trace + [Timed(Notify(data), now)]);
            if s.timer.None? then t.timer == Some(now + cfg.throttle) && t.pendingUpdate == s.pendingUpdate
            else t.timer == s.timer && t.pendingUpdate && t.updates == s.updates
  {
    hide Legal, After, ReadingOf, Fed, Changed;
    OneMoreEvent(cfg, trace, Timed(Notify(data), now));
    hide Spaced, NothingLost, Quiescent;
    Reachable(cfg, trace);
  }

  /** A notification that reports no change hands nothing on and leaves timer and pending flag alone. */
  lemma NoChangeNoUpdate(cfg: Config, trace: seq<Timed>, data: seq<byte>, now: Time)
    requires var a := After(cfg, trace).assembler;
             a.Some? ==> Changed(a.value, Notification(data, now)) == {}
    ensures var s, t := After(cfg, trace), After(cfg, trace + [Timed(Notify(data), now)]);
            && t.updates == s.updates && t.timer == s.timer && t.flushHandle == s.flushHandle
            && t.pendingUpdate == s.pendingUpdate
  {
    hide After, ReadingOf, Fed, Changed;
    OneMoreEvent(cfg, trace, Timed(Notify(data), now));
  }

  /** A drop and a reopening leave the timer and what is pending as they were. */
  lemma ReopenKeepsTimer(cfg: Config, trace: seq<Timed>, t: Time, u: Time)
    ensures var s := After(cfg, trace);
            var c := After(cfg, trace + [Timed(Teardown, t)] + [Timed(Open, u)]);
            && c.timer == s.timer && c.flushHandle == s.flushHandle && c.pendingUpdate == s.pendingUpdate
            && c.updates == s.updates && c.assembler == Some(FRESH)
  {
    hide After;
    OneMoreEvent(cfg, trace, Timed(Teardown, t));
    OneMoreEvent(cfg, trace + [Timed(Teardown, t)], Timed(Open, u));
  }

  // ---- what is handed on comes from one connection ----

  ghost function TakenNext(s: State, taken: seq<Notification>, e: Event, now: Time): seq<Notification> {
    if EndsConnection(e) then []
    else if e.Notify? && s.assembler.Some? && !s.stopping then taken + [Notification(e.data, now)]
    else taken
  }

  /** The notifications taken in on the present connection. */
  ghost function Taken(cfg: Config, trace: seq<Timed>): seq<Notification> {
    if trace == [] then []
    else
      var n := |trace| - 1;
      TakenNext(After(cfg, trace[..n]), Taken(cfg, trace[..n]), trace[n].event, trace[n].at)
  }

  lemma RunOneMore(ns: seq<Notification>, n: Notification)
    ensures Run(ns + [n]) == Fed(Run(ns), n) && Run([]) == FRESH
  {
    hide Fed;
    assert (ns + [n])[..|ns|] == ns;
  }

  lemma RunStep(cfg: Config, s: State, taken: seq<Notification>, e: Event, now: Time)
    requires s.assembler.Some? ==> s.assembler.value == Run(taken)
    ensures var t := Next(cfg, s, e, now); t.assembler.Some? ==> t.assembler.value == Run(TakenNext(s, taken, e, now))
  {
    hide Current, Fed, Changed, Run;
    if e.Notify? {
      RunOneMore(taken, Notification(e.data, now));
    } else {
      RunOneMore([], Notification([], now));
    }
  }

  /** After any events, the assembler is the one that a run over the notifications of the present
      connection leaves. */
  lemma {:induction false} ConnectionIsRun(cfg: Config, trace: seq<Timed>)
    ensures var s := After(cfg, trace); s.assembler.Some? ==> s.assembler.value == Run(Taken(cfg, trace))
    decreases |trace|
  {
    hide Next, TakenNext, Run;
    if trace != [] {
      var n := |trace| - 1;
      ConnectionIsRun(cfg, trace[..n]);
      RunStep(cfg, After(cfg, trace[..n]), Taken(cfg, trace[..n]), trace[n].event, trace[n].at);
    }
  }

  /** An event hands on the reading that it leaves, or nothing. */
  lemma UpdateStep(cfg: Config, s: State, e: Event, now: Time)
    ensures var t := Next(cfg, s, e, now);
            || t.updates == s.updates
            || (!EndsConnection(e) && Current(cfg, t, now).Some?
                && t.updates == s.updates + [Delivery(now, Current(cfg, t, now).value, s.session)])
  {
    hide ReadingOf, Fed, Changed;
  }

  /** What an assembler fed these notifications shows at the time of the update. */
  ghost predicate Depicts(cfg: Config, ns: seq<Notification>, d: Delivery) {
    ReadingOf(Assemble(History(ns)), cfg.address, cfg.serial, d.at) == Some(d.reading)
  }

  lemma CurrentIsShown(cfg: Config, trace: seq<Timed>, d: Delivery)
    requires Current(cfg, After(cfg, trace), d.at) == Some(d.reading)
    ensures Depicts(cfg, Taken(cfg, trace), d)
    ensures Bare(History(Taken(cfg, trace))) == Frames(Stream(Taken(cfg, trace)))
  {
    hide After, Taken, Assemble, ReadingOf, Frames, Leftover, TouchedBy, Bare;
    ConnectionIsRun(cfg, trace);
    RunIsFold(Taken(cfg, trace));
  }

  lemma StopStep(s: State, cfg: Config, taken: seq<Notification>, e: Event, now: Time)
    requires s.stopping && !e.Start?
    ensures Next(cfg, s, e, now).stopping
    ensures TakenNext(s, taken, e, now) == [] || TakenNext(s, taken, e, now) == taken
  {
    hide OnThrottleEnd, ReadingOf;
    if e.Tick? {
      TickKeepsStopping(cfg, s, now);
    }
  }

  lemma TickKeepsStopping(cfg: Config, s: State, now: Time)
    ensures OnThrottleEnd(cfg, s.(timer := None), now).stopping == s.stopping
  {
    hide ReadingOf;
  }

  /** From the request to stop until the next start no notification is taken in. */
  lemma {:induction false} NothingTakenWhileStopping(cfg: Config, before: seq<Timed>, stop: Time, later: seq<Timed>)
    requires forall k :: 0 <= k < |later| ==> !later[k].event.Start?
    ensures var trace := before + [Timed(StopRequested, stop)] + later;
            && After(cfg, trace).stopping
            && (Taken(cfg, trace) == [] || Taken(cfg, trace) == Taken(cfg, before))
    decreases |later|
  {
    hide Next, TakenNext;
    var trace := before + [Timed(StopRequested, stop)] + later;
    if later == [] {
      assert trace[..|before|] == before && trace[|before|] == Timed(StopRequested, stop);
      StopRequestedStep(cfg, After(cfg, before), Taken(cfg, before), stop);
    } else {
      var m := |later| - 1;
      assert trace[..|trace| - 1] == before + [Timed(StopRequested, stop)] + later[..m];
      NothingTakenWhileStopping(cfg, before, stop, later[..m]);
      StopStep(After(cfg, trace[..|trace| - 1]), cfg, Taken(cfg, trace[..|trace| - 1]),
               trace[|trace| - 1].event, trace[|trace| - 1].at);
    }
  }

  lemma StopRequestedStep(cfg: Config, s: State, taken: seq<Notification>, now: Time)
    ensures Next(cfg, s, StopRequested, now).stopping
    ensures TakenNext(s, taken, StopRequested, now) == taken
  {}

  /** Every update there has ever been was the reading of the notifications that its connection had taken in
      by then, and so of the frames in their bytes. */
  lemma {:induction false} EveryUpdateIsItsConnection(cfg: Config, trace: seq<Timed>, k: nat) returns (m: nat)
    requires k < |After(cfg, trace).updates|
    ensures m <= |trace| && After(cfg, trace[..m]).updates == After(cfg, trace).updates[..k + 1]
    ensures Depicts(cfg, Taken(cfg, trace[..m]), After(cfg, trace).updates[k])
    ensures Bare(History(Taken(cfg, trace[..m]))) == Frames(Stream(Taken(cfg, trace[..m])))
    decreases |trace|
  {
    hide Next, Taken, Depicts, Current, Frames, Bare, EndsConnection;
    assert trace != [] by { NoUpdatesYet(cfg); }
    var n := |trace| - 1;
    var s, t := After(cfg, trace[..n]), After(cfg, trace);
    UpdateStep(cfg, s, trace[n].event, trace[n].at);
    if k < |s.updates| {
      m := EveryUpdateIsItsConnection(cfg, trace[..n], k);
      assert trace[..n][..m] == trace[..m];
      assert t.updates[..k + 1] == s.updates[..k + 1];
    } else {
      m := |trace|;
      assert trace[..m] == trace && t.updates[..k + 1] == t.updates;
      CurrentIsShown(cfg, trace, t.updates[k]);
    }
  }

  lemma NoUpdatesYet(cfg: Config)
    ensures After(cfg, []).updates == []
  {}

  lemma {:induction false} UpdatesGrow(cfg: Config, trace: seq<Timed>, m: nat)
    requires m <= |trace|
    ensures |After(cfg, trace[..m]).updates| <= |After(cfg, trace).updates|
    decreases |trace|
  {
    hide Next;
    var n := |trace| - 1;
    if m == |trace| {
      assert trace[..m] == trace;
    } else {
      assert trace[..n][..m] == trace[..m];
      UpdatesGrow(cfg, trace[..n], m);
      UpdatesStay(cfg, After(cfg, trace[..n]), trace[n].event, trace[n].at);
    }
  }

  /** The notification came in as one of these events. */
  predicate CameIn(n: Notification, events: seq<Timed>) {
    Timed(Notify(n.data), n.at) in events
  }

  lemma {:induction false} TakenIsLater(cfg: Config, before: seq<Timed>, end: Timed, later: seq<Timed>)
    requires EndsConnection(end.event)
    ensures forall n :: n in Taken(cfg, before + [end] + later) ==> CameIn(n, later)
    decreases |later|
  {
    hide After, EndsConnection;
    var trace := before + [end] + later;
    if later == [] {
      assert trace[..|before|] == before && trace[|before|] == end;
      TakenEnds(After(cfg, before), Taken(cfg, before), end.event, end.at);
    } else {
      var m := |later| - 1;
      assert trace[..|trace| - 1] == before + [end] + later[..m];
      TakenIsLater(cfg, before, end, later[..m]);
      assert later == later[..m] + [later[m]];
      assert trace[|trace| - 1] == later[m];
    }
  }

  lemma TakenEnds(s: State, taken: seq<Notification>, e: Event, now: Time)
    requires EndsConnection(e)
    ensures TakenNext(s, taken, e, now) == []
  {}

  /** Whatever is handed on after a connection has ended shows only what came in after it, though the timer
      and the pending flag outlive the connection: nothing of a change that was still waiting returns. */
  lemma OnlyLaterIsHandedOn(cfg: Config, before: seq<Timed>, end: Timed, later: seq<Timed>, k: nat)
    returns (ns: seq<Notification>)
    requires EndsConnection(end.event)
    requires |After(cfg, before).updates| <= k < |After(cfg, before + [end] + later).updates|
    ensures forall n :: n in ns ==> CameIn(n, later)
    ensures Depicts(cfg, ns, After(cfg, before + [end] + later).updates[k])
  {
    hide After, Taken, Depicts, CameIn, Next, Frames, Bare, EndsConnection;
    var trace := before + [end] + later;
    var m := EveryUpdateIsItsConnection(cfg, trace, k);
    OneMoreEvent(cfg, before, end);
    UpdateStep(cfg, After(cfg, before), end.event, end.at);
    var ended := |before| + 1;
    if m <= ended {
      assert (before + [end])[..m] == trace[..m];
      UpdatesGrow(cfg, before + [end], m);
      assert false;
    }
    assert trace[..m] == before + [end] + later[..m - ended];
    TakenIsLater(cfg, before, end, later[..m - ended]);
    ns := Taken(cfg, trace[..m]);
    forall n | n in ns
      ensures CameIn(n, later)
    {
      CameInEarlier(n, later, m - ended);
    }
  }

  lemma CameInEarlier(n: Notification, events: seq<Timed>, m: nat)
    requires m <= |events|
    ensures CameIn(n, events[..m]) ==> CameIn(n, events)
  {}

  lemma {:induction false} SpacedApart(cfg: Config, s: State, i: nat, j: nat)
    requires Spaced(cfg, s) && i <= j < |s.updates| && s.updates[i].session == s.updates[j].session
    ensures s.updates[i].at + (j - i) * cfg.throttle <= s.updates[j].at
    ensures forall k :: i <= k <= j ==> s.updates[k].session == s.updates[i].session
    decreases j - i
  {
    if i < j {
      SessionsAscend(cfg, s, i, j - 1);
      SpacedApart(cfg, s, i, j - 1);
      assert (j - i) * cfg.throttle == (j - 1 - i) * cfg.throttle + cfg.throttle;
    }
  }

  lemma {:induction false} SessionsAscend(cfg: Config, s: State, i: nat, j: nat)
    requires Spaced(cfg, s) && i <= j < |s.updates|
    ensures s.updates[i].session <= s.updates[j].session
    decreases j - i
  {
    if i < j {
      SessionsAscend(cfg, s, i, j - 1);
    }
  }

  lemma MulMonotone(a: nat, b: nat, t: nat)
    requires a <= b
    ensures a * t <= b * t
  {}

  lemma CountBound(n: nat, t: nat, w: nat)
    requires t > 0 && n * t <= w
    ensures n <= w / t
  {
    assert w < (w / t + 1) * t;
    if n > w / t {
      MulMonotone(w / t + 1, n, t);
    }
  }

  /** Between a start and the next stop, reconnects included, two updates are never closer than the
      throttle interval, and any window of length w sees at most w / throttle + 1 of them. */
  lemma UpdatesAreThrottled(cfg: Config, trace: seq<Timed>, i: nat, j: nat, w: nat)
    requires Legal(cfg, trace)
    requires i < j < |After(cfg, trace).updates|
    requires After(cfg, trace).updates[i].session == After(cfg, trace).updates[j].session
    ensures After(cfg, trace).updates[i].at + cfg.throttle <= After(cfg, trace).updates[j].at
    ensures After(cfg, trace).updates[j].at <= After(cfg, trace).updates[i].at + w && cfg.throttle > 0 ==>
              j - i + 1 <= w / cfg.throttle + 1
  {
    hide Legal, After;
    var s := After(cfg, trace);
    Reachable(cfg, trace);
    SpacedApart(cfg, s, i, j);
    MulMonotone(1, j - i, cfg.throttle);
    hide Spaced, NothingLost, TimerSound, Quiescent;
    if cfg.throttle > 0 && s.updates[j].at <= s.updates[i].at + w {
      CountBound(j - i, cfg.throttle, w);
    }
  }

  // ---- starting again ----

  /** A stopped stream can be started again, and the first change of the new connection that leaves a
      reading goes out at once: nothing of an earlier session throttles it. */
  lemma RestartDeliversAtOnce(cfg: Config, trace: seq<Timed>, t: Time, u: Time, data: seq<byte>, now: Time)
    requires Legal(cfg, trace) && !After(cfg, trace).running && After(cfg, trace).clock <= t <= u <= now
    ensures var s := After(cfg, trace);
            var c := Next(cfg, Next(cfg, s, Start, t), Open, u);
            && Enabled(s, Start, t) && Enabled(Next(cfg, s, Start, t), Open, u)
            && Enabled(c, Notify(data), now)
            && c.assembler == Some(FRESH) && !c.stopping
            && (IsChange(cfg, c, Notify(data), now) ==>
                  var d := Next(cfg, c, Notify(data), now);
                  && Current(cfg, d, now).Some?
                  && d.updates == s.updates + [Delivery(now, Current(cfg, d, now).value, s.session + 1)])
  {
    hide Legal, After, ReadingOf, Fed, Changed, NothingLost, Spaced, TimerSound;
    Reachable(cfg, trace);
  }

  // ---- after the stop ----

  /** Once `async_stop` has returned, whatever notifications, drops and repeated stops still come in
      before the next start, and no timer, calls `on_update`. */
  lemma {:induction false} SilentAfterStop(cfg: Config, before: seq<Timed>, stop: Time, later: seq<Timed>)
    requires Legal(cfg, before + [Timed(Stopped, stop)] + later)
    requires forall k :: 0 <= k < |later| ==> !later[k].event.Start?
    ensures var s := After(cfg, before + [Timed(Stopped, stop)] + later);
            && !s.running && s.stopping && Quiescent(s)
            && s.updates == After(cfg, before).updates
    decreases |later|
  {
    hide Current;
    var head := before + [Timed(Stopped, stop)];
    if later == [] {
      assert head + later == head && head[..|head| - 1] == before;
    } else {
      var n := |later| - 1;
      assert (head + later)[..|head + later| - 1] == head + later[..n];
      SilentAfterStop(cfg, before, stop, later[..n]);
    }
  }
}
