/**
 * `EventProcessor`: the debouncer in front of the normaliser. Raw events are
 * queued; a delay timer flushes the queue once no event arrived while it ran,
 * and a warning is logged once per burst that lasts longer than a minute.
 *
 * The lock, `Task.Delay` and `DateTime.Now` are abstracted: the current time
 * in ticks is a parameter, the pending delay task is the tick at which it is
 * due, and its continuation is the method `TimerFired`. The event handler and
 * the logger are the traces `handled` and `log`.
 */
module Processor {
  import opened FileEvents
  import opened Normalizer

  /** Events are emitted once changes have stopped for this many milliseconds. */
  const EventDelay: nat := 50

  /** One .NET tick is 100 ns. */
  const TicksPerMillisecond: nat := 10_000

  /** `TimeSpan.FromMinutes(1).Ticks`. */
  const EventSpamWarningThresholdTicks: nat := 600_000_000

  /** `TimeSpan.FromMinutes(1).TotalSeconds`. */
  const EventSpamWarningThresholdSeconds: nat := 60

  /** A message passed to the logger: the queue length and the latest path. */
  datatype LogEntry = SpamWarning(count: nat, seconds: nat, latestPath: string)

  /** `new EventNormalizer().Normalize(events)`: a fresh normaliser for one batch. */
  method NormalizeBatch(events: seq<FileChangedEvent>) returns (normalized: seq<FileChangedEvent>)
    ensures normalized == Normalized(events)
  {
    var normalizer := new EventNormalizer();
    normalized := normalizer.Normalize(events);
  }

  class EventProcessor {
    var events: seq<FileChangedEvent>
    /** `_delayTask`: the tick at which the pending delay ends, if one is pending. */
    var delayTask: Option<int>
    var lastEventTime: int
    var delayStarted: int
    var spamCheckStartTime: int
    var spamWarningLogged: bool
    /** Every event passed to the handler, in order. */
    var handled: seq<FileChangedEvent>
    /** Every message passed to the logger, in order. */
    var log: seq<LogEntry>
    /** Length of `log` when the current burst of queued events began. */
    ghost var burstStart: nat

    /**
     * A delay task is pending exactly while events are queued, and within a
     * burst the warning has been logged once if the flag is set, else never.
     */
    ghost predicate Valid()
      reads this
    {
      (delayTask.Some? <==> events != []) &&
      burstStart <= |log| &&
      (events != [] ==> |log| - burstStart == if spamWarningLogged then 1 else 0)
    }

    constructor ()
      ensures Valid()
      ensures events == [] && delayTask == None && handled == [] && log == []
      ensures lastEventTime == 0 && delayStarted == 0
      ensures spamCheckStartTime == 0 && !spamWarningLogged
    {
      events := [];
      delayTask := None;
      lastEventTime := 0;
      delayStarted := 0;
      spamCheckStartTime := 0;
      spamWarningLogged := false;
      handled := [];
      log := [];
      burstStart := 0;
    }

    /**
     * Queues `fileEvent`, received at tick `now`, after the spam check, and arms
     * the delay timer unless one is already pending.
     */
    method ProcessEvent(fileEvent: FileChangedEvent, now: int)
      requires Valid()
      modifies this
      ensures Valid()
      ensures events == old(events) + [fileEvent]
      ensures lastEventTime == now
      ensures old(delayTask).None? ==>
                delayStarted == now && delayTask == Some(now + EventDelay * TicksPerMillisecond)
      ensures old(delayTask).Some? ==>
                delayStarted == old(delayStarted) && delayTask == old(delayTask)
      ensures handled == old(handled)
      ensures old(events) == [] ==> !spamWarningLogged && spamCheckStartTime == now && log == old(log)
      ensures old(events) != [] ==> spamCheckStartTime == old(spamCheckStartTime)
      ensures old(events) != [] && !old(spamWarningLogged) &&
              old(spamCheckStartTime) + EventSpamWarningThresholdTicks < now ==>
                spamWarningLogged &&
                log == old(log) + [SpamWarning(|old(events)|, EventSpamWarningThresholdSeconds, fileEvent.fullPath)]
      ensures old(events) != [] && !(!old(spamWarningLogged) &&
              old(spamCheckStartTime) + EventSpamWarningThresholdTicks < now) ==>
                spamWarningLogged == old(spamWarningLogged) && log == old(log)
    {
      CheckForSpam(fileEvent, now);
      events := events + [fileEvent];
      lastEventTime := now;
      if delayTask.None? {
        delayStarted := lastEventTime;
        delayTask := Some(now + EventDelay * TicksPerMillisecond);
      }
    }

    /**
     * The continuation of the delay task, run at tick `now`: if no event came
     * in since the timer was armed, the queue is normalised by a fresh
     * normaliser and handed to the handler, and the queue is emptied;
     * otherwise the timer is re-armed and nothing is emitted.
     */
    method TimerFired(now: int)
      requires Valid()
      requires delayTask.Some? && delayTask.value <= now
      modifies this
      ensures Valid()
      ensures old(delayStarted) == old(lastEventTime) ==>
                handled == old(handled) + Normalized(old(events)) &&
                events == [] && delayTask == None && delayStarted == old(delayStarted)
      ensures old(delayStarted) != old(lastEventTime) ==>
                handled == old(handled) && events == old(events) &&
                delayStarted == old(lastEventTime) &&
                delayTask == Some(now + EventDelay * TicksPerMillisecond)
      ensures lastEventTime == old(lastEventTime) && log == old(log)
      ensures spamCheckStartTime == old(spamCheckStartTime) && spamWarningLogged == old(spamWarningLogged)
    {
      if delayStarted == lastEventTime {
        var normalized := NormalizeBatch(events);
        HandleAll(normalized);
        events := [];
        delayTask := None;
      } else {
        delayStarted := lastEventTime;
        delayTask := Some(now + EventDelay * TicksPerMillisecond);
      }
    }

    /** `foreach (var e in normalized) _handleEvent(e)`. */
    method HandleAll(normalized: seq<FileChangedEvent>)
      modifies this`handled
      ensures handled == old(handled) + normalized
    {
      for i := 0 to |normalized|
        invariant handled == old(handled) + normalized[..i]
      {
        handled := handled + [normalized[i]];
      }
      assert normalized[..|normalized|] == normalized;
    }

    /**
     * The first event of a burst resets the warning flag and starts the spam
     * clock; a later event logs the warning once the burst has lasted longer
     * than the threshold, unless it was logged already.
     */
    method CheckForSpam(fileEvent: FileChangedEvent, now: int)
      requires Valid()
      modifies this`spamWarningLogged, this`spamCheckStartTime, this`log, this`burstStart
      ensures events == [] ==>
                !spamWarningLogged && spamCheckStartTime == now && log == old(log) && burstStart == |log|
      ensures events != [] ==> spamCheckStartTime == old(spamCheckStartTime) && burstStart == old(burstStart)
      ensures events != [] && !old(spamWarningLogged) &&
              old(spamCheckStartTime) + EventSpamWarningThresholdTicks < now ==>
                spamWarningLogged &&
                log == old(log) + [SpamWarning(|events|, EventSpamWarningThresholdSeconds, fileEvent.fullPath)]
      ensures events != [] && !(!old(spamWarningLogged) &&
              old(spamCheckStartTime) + EventSpamWarningThresholdTicks < now) ==>
                spamWarningLogged == old(spamWarningLogged) && log == old(log)
      ensures burstStart <= |log| && |log| - burstStart == if spamWarningLogged then 1 else 0
    {
      if |events| == 0 {
        spamWarningLogged := false;
        spamCheckStartTime := now;
        burstStart := |log|;
      } else if !spamWarningLogged && spamCheckStartTime + EventSpamWarningThresholdTicks < now {
        spamWarningLogged := true;
        log := log + [SpamWarning(|events|, EventSpamWarningThresholdSeconds, fileEvent.fullPath)];
      }
    }
  }
}
