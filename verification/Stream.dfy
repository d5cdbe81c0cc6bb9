/** `TensiteClusterStream`: the held connection, updating its fields as events arrive. */
module Stream {
  import opened Bytes
  import opened Wrappers
  import opened Accumulation
  import opened Runs
  import opened Throttle
  import Assembler
  import Tallying

  class TensiteClusterStream {
    const address: Text
    const serial: Option<Text>
    const updateThrottle: Time
    var assembler: Assembler.ReadingAssembler?
    var flushHandle: Option<Time>
    var pendingUpdate: bool
    var stopping: bool
    var running: bool
    /** The callback that the event loop still has to make. */
    ghost var timer: Option<Time>
    /** History: every call of `on_update`, the starts so far, the last event, the change still owed. */
    ghost var updates: seq<Delivery>
    ghost var session: nat
    ghost var clock: Time
    ghost var owed: Option<Time>

    constructor (address: Text, serial: Option<Text>, updateThrottle: Time)
      ensures Valid() && View() == INITIAL
      ensures Settings() == Config(address, serial, updateThrottle)
    {
      this.address, this.serial, this.updateThrottle := address, serial, updateThrottle;
      assembler, flushHandle, pendingUpdate, stopping, running := null, None, false, false, false;
      timer, updates, session, clock, owed := None, [], 0, 0, None;
    }

    function Settings(): Config {
      Config(address, serial, updateThrottle)
    }

    ghost function Owned(): set<object>
      reads this
    {
      if assembler == null then {} else {assembler, assembler.buffer, assembler.stats}
    }

    /** The assembler was built for this stream. */
    ghost predicate Valid()
      reads this
    {
      assembler != null ==> assembler.address == address && assembler.serial == serial
    }

    ghost function View(): State
      reads this, Owned()
    {
      State(if assembler == null then None else Some(assembler.State()), flushHandle, pendingUpdate,
            stopping, running, timer, clock, session, updates, owed)
    }

    /** `async_start` up to the creation of the run loop. */
    method AsyncStart(now: Time)
      requires Valid()
      modifies this
      ensures Valid()
      ensures old(running) ==> View() == old(View()).(clock := now)
      ensures !old(running) ==> View() == Next(Settings(), old(View()), Start, now)
    {
      clock := now;
      if running {
        return;
      }
      stopping := false;
      running := true;
      session := session + 1;
    }

    /** `_async_open` from its start: a fresh assembler per connection. */
    method AsyncOpen(now: Time)
      requires Valid()
      modifies this
      ensures Valid() && fresh(Owned())
      ensures View() == Next(Settings(), old(View()), Open, now)
    {
      assembler := new Assembler.ReadingAssembler(address, serial);
      owed, clock := None, now;
    }

    /** `_on_notify`. */
    method OnNotify(data: seq<byte>, now: Time)
      requires Valid()
      modifies this, Owned()
      ensures Valid() && Owned() == old(Owned())
      ensures View() == Next(Settings(), old(View()), Notify(data), now)
    {
      hide Fed, Changed, ReadingOf, Tallying.TallyAll, Throttle.ScheduleFlush;
      if assembler == null || stopping {
        clock := now;
        return;
      }
      var touched := assembler.Feed(data, now);
      if touched == {} {
        clock := now;
        return;
      }
      owed := NoteChange(Settings(), View(), now).owed;
      ScheduleFlush(now);
      clock := now;
    }

    /** `_schedule_flush`: flush and arm the timer, or wait for the one that is armed. */
    method ScheduleFlush(now: Time)
      requires Valid()
      modifies this`flushHandle, this`pendingUpdate, this`timer, this`updates, this`owed
      ensures View() == Throttle.ScheduleFlush(Settings(), old(View()), now)
    {
      hide ReadingOf;
      if flushHandle.Some? {
        pendingUpdate := true;
        return;
      }
      Flush(now);
      flushHandle := Some(now + updateThrottle);
      timer := flushHandle;
    }

    /** `_on_throttle_end`. */
    method OnThrottleEnd(now: Time)
      requires Valid() && Enabled(View(), Tick, now)
      modifies this
      ensures Valid() && Owned() == old(Owned())
      ensures View() == Next(Settings(), old(View()), Tick, now)
    {
      hide ReadingOf, Throttle.ScheduleFlush;
      timer := None;
      flushHandle := None;
      if pendingUpdate {
        pendingUpdate := false;
        ScheduleFlush(now);
      }
      clock := now;
    }

    /** `_flush`: one more delivery in the log, unless no battery is shown. */
    method Flush(now: Time)
      requires Valid()
      modifies this`updates, this`owed
      ensures View() == Throttle.Flush(Settings(), old(View()), now)
    {
      hide ReadingOf;
      if assembler == null {
        return;
      }
      var reading := assembler.Reading(now);
      if reading.None? {
        return;
      }
      updates := updates + [Delivery(now, reading.value, session)];
      owed := None;
    }

    /** `_async_teardown`. */
    method AsyncTeardown(now: Time)
      requires Valid()
      modifies this
      ensures Valid() && View() == Next(Settings(), old(View()), Teardown, now)
    {
      assembler, owed, clock := null, None, now;
    }

    /** `_cancel_flush`. */
    method CancelFlush()
      modifies this`flushHandle, this`pendingUpdate, this`timer
      ensures flushHandle == None && !pendingUpdate
      ensures timer == if old(flushHandle).Some? then None else old(timer)
    {
      if flushHandle.Some? {
        timer := None;
        flushHandle := None;
      }
      pendingUpdate := false;
    }

    /** `async_stop` up to its first suspension. */
    method RequestStop(now: Time)
      requires Valid()
      modifies this
      ensures Valid() && Owned() == old(Owned())
      ensures View() == Next(Settings(), old(View()), StopRequested, now)
    {
      stopping, clock := true, now;
    }

    /** The rest of `async_stop`, once the run loop is gone. */
    method FinishStop(now: Time)
      requires Valid()
      modifies this
      ensures Valid() && View() == Next(Settings(), old(View()), Stopped, now)
    {
      stopping, running := true, false;
      AsyncTeardown(now);
      CancelFlush();
    }
  }
}
