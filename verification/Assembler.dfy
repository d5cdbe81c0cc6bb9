/** `ReadingAssembler`: the mutable form of the fold over a frame history. */
module Assembler {
  import opened Bytes
  import opened Wrappers
  import opened Framing
  import opened Payloads
  import opened Readings
  import opened Accumulation
  import opened Runs
  import Masking
  import Parser
  import Tallying

  class ReadingAssembler {
    const address: Text
    const serial: Option<Text>
    const buffer: Parser.ByteBuffer
    const stats: Parser.ParseStats
    var parts: map<Text, Part>
    /** The keys of `parts` in insertion order, which a Python dict keeps. */
    var order: seq<Text>
    var roster: nat

    constructor (address: Text, serial: Option<Text>)
      ensures fresh(buffer) && fresh(stats)
      ensures this.address == address && this.serial == serial
      ensures State() == FRESH && stats.Counters() == Tallying.ZERO
    {
      this.address, this.serial := address, serial;
      buffer := new Parser.ByteBuffer();
      stats := new Parser.ParseStats();
      parts, order, roster := map[], [], 0;
    }

    ghost function Held(): Book
      reads this, stats
    {
      Book(parts, order, roster, stats.unhandled)
    }

    ghost function State(): Assembly
      reads this, buffer, stats
    {
      Assembly(Held(), buffer.data)
    }

    /** `feed`: one step of a run, for any bytes. */
    method Feed(data: seq<byte>, now: Stamp) returns (touched: set<Text>)
      modifies this, buffer, stats
      ensures State() == Fed(old(State()), Notification(data, now))
      ensures touched == Changed(old(State()), Notification(data, now))
      ensures stats.Counters() ==
              old(stats.Counters()).Plus(Tallying.TallyAll(old(buffer.data) + data))
    {
      hide Frames, Leftover, Interpret, IsTelemetry, TouchedBy, Tallying.TallyAll;
      hide Parser.ParseStats.Counters, Tallying.Counters.Plus;
      ghost var before := Held();
      ghost var all := buffer.data + data;
      buffer.Extend(data);
      touched := {};
      var frames := Parser.ParseFrames(buffer, stats);
      ghost var counted := stats.Counters();
      ghost var h := StampAll(frames, now);
      NothingTouchesNothing();
      assert Fold(before, h[..0]) == before && frames[..0] == [];
      for i := 0 to |frames|
        invariant Held() == Fold(before, h[..i])
        invariant touched == TouchedBy(frames[..i])
        invariant stats.Counters() == counted && buffer.data == Leftover(all)
      {
        assert h[..i + 1][..i] == h[..i];
        TouchedNext(frames, i);
        var changed := Take(frames[i], now);
        if changed {
          touched := touched + {frames[i].serial};
        }
      }
      assert h[..|frames|] == h && frames[..|frames|] == frames;
    }

    /** One turn of the loop in `feed`: everything one frame does. True if its battery changed. */
    method Take(frame: Frame, now: Stamp) returns (changed: bool)
      modifies this, stats`unhandled
      ensures Held() == Step(old(Held()), Stamped(frame, now))
      ensures changed == Touches(frame)
      ensures stats.Counters() == old(stats.Counters())
    {
      hide Occurs, Interpret, Parser.CountId;
      if frame.MsgClass() != MSG_CLASS_REALTIME || !Occurs(SERIAL_MARKER, frame.serial) {
        return false;
      }
      var part := NewPart(frame.position);
      if frame.serial in parts {
        part := parts[frame.serial];
      } else {
        order := order + [frame.serial];
      }
      part := part.(position := frame.position);
      var update := ReadPayload(frame);
      match update {
        case Cells(cells) => part := part.(cells := Some(cells), cellsAt := Some(now));
        case PackSummary(summary) => part := part.(summary := Some(summary));
        case Temperatures(temperatures) => part := part.(temperatures := Some(temperatures));
        case AlarmField(bits) => part := part.(alarmBits := Some(bits));
        case Relay(routes) => part := part.(relay := Some(routes));
        case Switches(routes) => part := part.(switches := Some(routes));
        case Roster(topology) =>
          if topology.Plausible() && topology.count > roster {
            roster := topology.count;
          }
        case Malformed =>
        case Unhandled => stats.NoteUnhandled(frame.msgId);
      }
      parts := parts[frame.serial := part];
      return !update.Malformed? && !update.Unhandled?;
    }

    /** `complete_count`: the size of the complete set. */
    method CompleteCount() returns (n: nat)
      ensures n == |CompleteSet(Held())|
    {
      n := 0;
      var todo := parts.Keys;
      ghost var done := {};
      while todo != {}
        invariant todo <= parts.Keys && done == parts.Keys - todo
        invariant n == |set s | s in done && IsComplete(parts[s])|
        decreases |todo|
      {
        var s :| s in todo;
        ghost var counted := set t | t in done && IsComplete(parts[t]);
        todo := todo - {s};
        done := done + {s};
        assert (set t | t in done && IsComplete(parts[t])) ==
               if IsComplete(parts[s]) then counted + {s} else counted;
        if IsComplete(parts[s]) {
          n := n + 1;
        }
      }
      assert CompleteSet(Held()) == set s | s in done && IsComplete(parts[s]);
    }

    /** `reading`: first the shown batteries, then the search for their master. */
    method Reading(now: Stamp) returns (r: Option<Cluster>)
      ensures r == ReadingOf(Held(), address, serial, now)
    {
      hide IsVisible, IsGateway;
      var batteries := map s | s in parts && IsVisible(parts[s]) :: BatteryOf(s, parts[s], now);
      var shown := VisibleOrder(order, parts);
      if batteries == map[] {
        return None;
      }
      var master := serial;
      var i := 0;
      while i < |shown|
        invariant i <= |shown|
        invariant master == serial
        invariant FirstMaster(shown, batteries, serial) == FirstMaster(shown[i..], batteries, serial)
      {
        if IsGateway(batteries, shown[i]) {
          master := Some(shown[i]);
          break;
        }
        i := i + 1;
      }
      return Some(Cluster(address, master, batteries, shown, RosterClaim(roster), now));
    }
  }

  /** The chain of message ids in `feed`, down to the decoder each one calls. */
  method ReadPayload(frame: Frame) returns (u: Update)
    ensures u == Interpret(frame)
  {
    hide DecodeCells, DecodeSummary, DecodeTemperatures, DecodeRoutes, RosterOf, Masking.Unmask;
    if frame.msgId == MSG_RT_CELLS {
      var cells := DecodeCells(frame.payload);
      return if cells.Ok? then Cells(cells.value) else Malformed;
    } else if frame.msgId == MSG_RT_SUMMARY {
      var summary := DecodeSummary(frame.payload);
      return if summary.Ok? then PackSummary(summary.value) else Malformed;
    } else if frame.msgId == MSG_RT_TEMPERATURES {
      return Temperatures(DecodeTemperatures(frame.payload));
    } else if frame.msgId == MSG_RT_ALARM && |frame.payload| == 8 {
      return AlarmField(Masking.Unmask(frame.payload));
    } else if frame.msgId == MSG_RT_RELAY {
      return Relay(DecodeRoutes(frame.payload));
    } else if frame.msgId == MSG_RT_SWITCH {
      return Switches(DecodeRoutes(frame.payload));
    } else if frame.msgId == MSG_RT_TOPOLOGY {
      var topology := DecodeTopology(frame.payload);
      return if topology.Ok? then Roster(topology.value) else Malformed;
    }
    return Unhandled;
  }

  lemma TouchedNext(frames: seq<Frame>, i: nat)
    requires i < |frames|
    ensures TouchedBy(frames[..i + 1]) ==
            TouchedBy(frames[..i]) + if Touches(frames[i]) then {frames[i].serial} else {}
  {
    hide Touches;
    assert frames[..i + 1] == frames[..i] + [frames[i]];
    TouchedAppend(frames[..i], [frames[i]]);
    assert TouchedBy([frames[i]]) == if Touches(frames[i]) then {frames[i].serial} else {} by {
      assert [frames[i]][0] == frames[i];
    }
  }
}
