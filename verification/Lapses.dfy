/** Two runs of a held connection that show where its promises end. */
module Lapses {
  import opened Bytes
  import opened Wrappers
  import opened Framing
  import opened Encoding
  import opened Payloads
  import opened Accumulation
  import opened Runs
  import opened Throttle

  /** A telemetry frame of one battery, as it is built. */
  datatype Sent = Sent(header: Header, payload: seq<byte>) {
    predicate Is(s: Text, id: word, position: word) {
      && header.Valid() && |payload| <= MAX_PAYLOAD_LEN
      && header.msgId == id && header.position == position
      && DecodeAscii(header.serial) == s && Occurs(SERIAL_MARKER, s)
    }

    function OnTheWire(): seq<byte>
      requires header.Valid() && |payload| <= MAX_PAYLOAD_LEN
    {
      Wire(EncodeBody(header, payload))
    }

    function Frame(): Frame {
      Decoded(header, payload)
    }
  }

  lemma OneStep(b: Book, f: Frame, now: Time)
    ensures Fold(b, StampAll([f], now)) == Step(b, Stamped(f, now))
  {
    hide Step;
    var h := StampAll([f], now);
    assert h[..|h| - 1] == [];
    assert Fold(b, h[..|h| - 1]) == b;
  }

  lemma OneTouched(f: Frame)
    ensures TouchedBy([f]) == if Touches(f) then {f.serial} else {}
  {
    hide Touches;
    assert [f][0] == f;
  }

  /** A whole frame in one notification, with nothing left over from before. */
  lemma FeedOne(a: Assembly, x: Sent, now: Time)
    requires a.buffer == [] && x.header.Valid() && |x.payload| <= MAX_PAYLOAD_LEN
    ensures Fed(a, Notification(x.OnTheWire(), now)) == Assembly(Step(a.book, Stamped(x.Frame(), now)), [])
    ensures Changed(a, Notification(x.OnTheWire(), now)) == if Touches(x.Frame()) then {x.Frame().serial} else {}
  {
    hide Step, Touches, Frames, Leftover, Fold, TouchedBy, Wire, EncodeBody;
    RoundTrip(x.header, x.payload);
    assert a.buffer + x.OnTheWire() == x.OnTheWire();
    OneStep(a.book, x.Frame(), now);
    OneTouched(x.Frame());
  }

  lemma SummaryStep(x: Sent, s: Text, position: word, now: Time)
    requires x.Is(s, MSG_RT_SUMMARY, position) && |x.payload| >= 29
    ensures Touches(x.Frame())
    ensures var b := Step(EMPTY, Stamped(x.Frame(), now));
            && b.order == [s] && b.parts.Keys == {s}
            && IsVisible(b.parts[s]) && b.parts[s].position == position
  {
    hide Occurs, SummaryOf;
    assert x.Frame().MsgClass() == MSG_CLASS_REALTIME;
  }

  lemma UndecodedStep(b: Book, x: Sent, s: Text, position: word, now: Time)
    requires x.Is(s, MSG_RT_UNDECODED, position) && s in b.parts
    ensures !Touches(x.Frame())
    ensures Step(b, Stamped(x.Frame(), now)).order == b.order
    ensures Step(b, Stamped(x.Frame(), now)).parts == b.parts[s := b.parts[s].(position := position)]
  {
    hide Occurs;
    assert x.Frame().MsgClass() == MSG_CLASS_REALTIME;
  }

  /** A bank of one battery. */
  lemma LoneReading(cfg: Config, b: Book, s: Text, now: Time)
    requires b.order == [s] && b.parts.Keys == {s} && IsVisible(b.parts[s])
    ensures var r := ReadingOf(b, cfg.address, cfg.serial, now);
            && r.Some?
            && r.value.masterSerial == if Low(b.parts[s].position) == 0xA0 then Some(s) else cfg.serial
  {
    hide IsVisible;
    var batteries := BatteriesOf(b, now);
    assert b.order[..0] == [];
    assert VisibleOrder(b.order, b.parts) == [s];
    assert s in batteries && IsGateway(batteries, s) <==> Low(b.parts[s].position) == 0xA0;
    assert [s][1..] == [];
    assert FirstMaster([s], batteries, cfg.serial) ==
           if IsGateway(batteries, s) then Some(s) else cfg.serial;
  }

  const OPENED: seq<Timed> := [Timed(Start, 0), Timed(Open, 0)]

  lemma AfterOpening(cfg: Config)
    ensures Legal(cfg, OPENED)
    ensures After(cfg, OPENED) == INITIAL.(running := true, session := 1, assembler := Some(FRESH))
  {
    hide OnNotify, OnThrottleEnd;
    OneMoreEvent(cfg, [], Timed(Start, 0));
    OneMoreEvent(cfg, [Timed(Start, 0)], Timed(Open, 0));
    assert [] + [Timed(Start, 0)] == [Timed(Start, 0)];
    assert [Timed(Start, 0)] + [Timed(Open, 0)] == OPENED;
  }

  /** The first frame, a summary: handed on at once, and the timer armed. */
  lemma AfterFirst(cfg: Config, x: Sent, s: Text, position: word)
    requires x.Is(s, MSG_RT_SUMMARY, position) && |x.payload| >= 29
    ensures var trace := OPENED + [Timed(Notify(x.OnTheWire()), 0)];
            var t := After(cfg, trace);
            var b := Step(EMPTY, Stamped(x.Frame(), 0));
            && Legal(cfg, trace)
            && Current(cfg, t, 0).Some?
            && t == INITIAL.(running := true, session := 1, assembler := Some(Assembly(b, [])),
                             flushHandle := Some(cfg.throttle), timer := Some(cfg.throttle),
                             updates := [Delivery(0, Current(cfg, t, 0).value, 1)])
  {
    hide After, Legal, Step, ReadingOf, Touches, Fed, Changed, Sent.OnTheWire, IsVisible;
    AfterOpening(cfg);
    OneMoreEvent(cfg, OPENED, Timed(Notify(x.OnTheWire()), 0));
    FeedOne(FRESH, x, 0);
    SummaryStep(x, s, position, 0);
    LoneReading(cfg, Step(EMPTY, Stamped(x.Frame(), 0)), s, 0);
  }

  /** A battery that leaves the gateway's position with a frame nothing decodes: the feed reports no change,
      so no update follows, and the last one still names a master that the present reading does not. */
  lemma MovedGatewayIsNotReported(cfg: Config, s: Text, x: Sent, y: Sent)
    requires x.Is(s, MSG_RT_SUMMARY, 0x01A0) && |x.payload| >= 29 && y.Is(s, MSG_RT_UNDECODED, 0x01A1)
    requires cfg.serial != Some(s)
    ensures var trace := OPENED + [Timed(Notify(x.OnTheWire()), 0)] + [Timed(Notify(y.OnTheWire()), 0)];
            var t := After(cfg, trace);
            && Legal(cfg, trace)
            && t.owed.None? && !t.pendingUpdate && |t.updates| == 1
            && t.updates[0].reading.masterSerial == Some(s)
            && Current(cfg, t, 0).Some? && Current(cfg, t, 0).value.masterSerial == cfg.serial != Some(s)
  {
    hide After, Legal, Step, ReadingOf, Touches, Fed, Changed, Sent.OnTheWire, IsVisible;
    var before := OPENED + [Timed(Notify(x.OnTheWire()), 0)];
    var b := Step(EMPTY, Stamped(x.Frame(), 0));
    AfterFirst(cfg, x, s, 0x01A0);
    SummaryStep(x, s, 0x01A0, 0);
    LoneReading(cfg, b, s, 0);
    OneMoreEvent(cfg, before, Timed(Notify(y.OnTheWire()), 0));
    FeedOne(Assembly(b, []), y, 0);
    UndecodedStep(b, y, s, 0x01A1, 0);
    SameVisible(b.parts[s], 0x01A1);
    LoneReading(cfg, Step(b, Stamped(y.Frame(), 0)), s, 0);
  }

  lemma SameVisible(p: Part, position: word)
    ensures IsVisible(p.(position := position)) == IsVisible(p)
  {}

  /** A second change inside the throttle interval, then a drop: the timer still fires, but there is no
      reading left to hand on. */
  lemma DropLosesChange(cfg: Config, s: Text, x: Sent, y: Sent)
    requires x.Is(s, MSG_RT_SUMMARY, 0x01A0) && |x.payload| >= 29
    requires y.Is(s, MSG_RT_SUMMARY, 0x01A0) && |y.payload| >= 29
    ensures var first := OPENED + [Timed(Notify(x.OnTheWire()), 0)];
            var change := first + [Timed(Notify(y.OnTheWire()), 0)];
            var trace := change + [Timed(Teardown, 0)] + [Timed(Tick, cfg.throttle)];
            && Legal(cfg, trace)
            && IsChange(cfg, After(cfg, first), Notify(y.OnTheWire()), 0)
            && After(cfg, change).pendingUpdate
            && After(cfg, trace).updates == After(cfg, first).updates
            && !After(cfg, trace).pendingUpdate
  {
    hide After, Legal, Step, ReadingOf, Touches, Fed, Changed, Sent.OnTheWire, IsVisible;
    var first := OPENED + [Timed(Notify(x.OnTheWire()), 0)];
    var change := first + [Timed(Notify(y.OnTheWire()), 0)];
    var down := change + [Timed(Teardown, 0)];
    var b := Step(EMPTY, Stamped(x.Frame(), 0));
    AfterFirst(cfg, x, s, 0x01A0);
    SummaryStep(y, s, 0x01A0, 0);
    FeedOne(Assembly(b, []), y, 0);
    FedReadingStays(cfg, Assembly(b, []), Notification(y.OnTheWire(), 0), 0);
    OneMoreEvent(cfg, first, Timed(Notify(y.OnTheWire()), 0));
    OneMoreEvent(cfg, change, Timed(Teardown, 0));
    OneMoreEvent(cfg, down, Timed(Tick, cfg.throttle));
  }
}
