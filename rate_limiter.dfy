// The sync and AI-call rate limiter of the podcast pipeline: a small piece
// of persisted state (daily counters, last-event times, the day they belong
// to) with a daily reset, daily-quota checks, periodic checks that spread the
// daily quota over 24 hours, and the updates recorded after each event.
//
// Times are whole seconds since the epoch and the calendar day is a string;
// the clock is a parameter of every operation that reads it.

module RateLimits {
  import opened Wrappers

  const SecondsPerDay: int := 86400

  /**
   * The JSON state as loaded from storage: a key the file lacks is `None`.
   * A stored time that is null or empty reads as no time at all.
   */
  datatype StoredState = StoredState(
    videosSyncedToday: Option<int>,
    lastSyncTime: Option<int>,
    lastSyncDate: Option<string>,
    aiCallsToday: Option<int>,
    lastAiCallTime: Option<int>)

  /**
   * The answer of a periodic check: `Go` is `(True, 0)`, `Wait(m)` is
   * `(False, m)`, `Blocked` is a refusal with no finite wait, and `Raises`
   * is the `OverflowError` that `int(inf)` throws.
   */
  datatype Periodic = Go | Wait(minutes: int) | Blocked | Raises

  function Abs(x: int): nat {
    if x < 0 then -x else x
  }

  /** The minimum interval between two events, `24 * 3600 / max`, in seconds. */
  function Period(max: int): real
    requires max != 0
  {
    SecondsPerDay as real / max as real
  }

  /**
   * The period test without division: `elapsed >= 86400 / max` holds iff
   * this is at most 0, and when it is positive it is the numerator of the
   * remaining time over `|max|` seconds.
   */
  function Shortfall(max: int, elapsed: int): int {
    if max > 0 then SecondsPerDay - elapsed * max else elapsed * max - SecondsPerDay
  }

  /**
   * The periodic check as written (`can_sync_periodic`,
   * `can_ai_call_periodic`): no last time passes; a zero quota makes the
   * period infinite, which no elapsed time reaches, and the wait computed
   * from it overflows; otherwise the check passes once the period has
   * elapsed and else reports the whole minutes left, plus one.
   */
  function PeriodicAsWritten(max: int, last: Option<int>, now: int): (v: Periodic)
    ensures last.None? ==> v == Go
    ensures last.Some? && max == 0 ==> v == Raises
    ensures last.Some? && max != 0 ==>
              var period, elapsed := Period(max), (now - last.value) as real;
              if elapsed >= period then v == Go else v == Wait(((period - elapsed) / 60.0).Floor + 1)
  {
    match last
    case None => Go
    case Some(t) =>
      if max == 0 then Raises
      else
        var d := Shortfall(max, now - t);
        PeriodTest(max, now - t);
        if d <= 0 then Go
        else
          WaitMinutes(max, now - t);
          Wait(d / (60 * Abs(max)) + 1)
  }

  /**
   * The periodic check with the zero-quota case answered as evidently
   * intended: once an event has happened, a zero quota never lets another
   * through. Every other input gets the answer of the code as written.
   */
  function PeriodicCheck(max: int, last: Option<int>, now: int): (v: Periodic)
    ensures v != Raises
    ensures v == Go <==> last.None? || (max != 0 && (now - last.value) as real >= Period(max))
    ensures last.Some? && max == 0 ==> v == Blocked
    ensures v.Wait? ==> v.minutes >= 1 && v.minutes == ((Period(max) - (now - last.value) as real) / 60.0).Floor + 1
  {
    if last.Some? && max == 0 then Blocked else PeriodicAsWritten(max, last, now)
  }

  /** The corrected check and the code as written disagree exactly on a zero quota after an event. */
  lemma PeriodicCheckAgrees(max: int, last: Option<int>, now: int)
    ensures PeriodicCheck(max, last, now) == PeriodicAsWritten(max, last, now) <==> !(last.Some? && max == 0)
  {
  }

  /** A zero quota with a recorded event: the code as written raises instead of refusing. */
  lemma ZeroQuotaOverflows()
    ensures PeriodicAsWritten(0, Some(1000), 4600) == Raises
    ensures PeriodicCheck(0, Some(1000), 4600) == Blocked
  {
  }

  lemma PeriodTest(max: int, elapsed: int)
    requires max != 0
    ensures elapsed as real >= Period(max) <==> Shortfall(max, elapsed) <= 0
  {
    var m, e := max as real, elapsed as real;
    assert Period(max) * m == SecondsPerDay as real;
    if max > 0 {
      assert e >= Period(max) <==> e * m >= Period(max) * m;
    } else {
      assert e >= Period(max) <==> e * m <= Period(max) * m;
    }
  }

  /** `int((period - elapsed) / 60)` computed on integers, when the period has not elapsed. */
  lemma WaitMinutes(max: int, elapsed: int)
    requires max != 0 && Shortfall(max, elapsed) > 0
    ensures ((Period(max) - elapsed as real) / 60.0).Floor == Shortfall(max, elapsed) / (60 * Abs(max))
  {
    var d, b := Shortfall(max, elapsed), 60 * Abs(max);
    var m := max as real;
    assert (Period(max) - elapsed as real) * m == SecondsPerDay as real - elapsed as real * m;
    assert (Period(max) - elapsed as real) / 60.0 == d as real / b as real;
    FloorOfQuotient(d, b);
  }

  lemma FloorOfQuotient(a: int, b: int)
    requires a >= 0 && b > 0
    ensures (a as real / b as real).Floor == a / b
  {
    var q, r := a / b, a % b;
    assert a as real == q as real * b as real + r as real;
    assert a as real / b as real == q as real + r as real / b as real;
    assert 0.0 <= r as real / b as real < 1.0;
  }

  /**
   * `RateLimiter`: the limits it was built with and the state it keeps.
   * Persisting the state (`save_state`) is not part of this model.
   */
  class RateLimiter {
    const maxPerDay: int
    const maxAiCallsPerDay: int
    var videosSyncedToday: int
    var lastSyncTime: Option<int>
    var lastSyncDate: string
    var aiCallsToday: int
    var lastAiCallTime: Option<int>

    /**
     * Fills in each missing key with its default (0, no time, "", 0, no
     * time), then starts a new day when the stored day is not `today`:
     * both counters drop to 0 and the day becomes `today`.
     */
    constructor (stored: StoredState, maxVideosPerDay: int, maxAiCalls: int, today: string)
      ensures maxPerDay == maxVideosPerDay && maxAiCallsPerDay == maxAiCalls
      ensures lastSyncTime == stored.lastSyncTime && lastAiCallTime == stored.lastAiCallTime
      ensures lastSyncDate == today
      ensures stored.lastSyncDate.GetOr("") != today ==> videosSyncedToday == 0 && aiCallsToday == 0
      ensures stored.lastSyncDate.GetOr("") == today ==>
                videosSyncedToday == stored.videosSyncedToday.GetOr(0) && aiCallsToday == stored.aiCallsToday.GetOr(0)
    {
      maxPerDay := maxVideosPerDay;
      maxAiCallsPerDay := maxAiCalls;
      new;
      videosSyncedToday := stored.videosSyncedToday.GetOr(0);
      lastSyncTime := stored.lastSyncTime;
      lastSyncDate := stored.lastSyncDate.GetOr("");
      aiCallsToday := stored.aiCallsToday.GetOr(0);
      lastAiCallTime := stored.lastAiCallTime;
      if lastSyncDate != today {
        videosSyncedToday := 0;
        aiCallsToday := 0;
        lastSyncDate := today;
      }
    }

    /** The daily video quota is not used up; a quota of 0 or less never lets a video through. */
    function CanSyncDaily(): (r: bool)
      reads this
      ensures r <==> videosSyncedToday < maxPerDay
      ensures maxPerDay <= 0 && videosSyncedToday >= 0 ==> !r
    {
      videosSyncedToday < maxPerDay
    }

    /** The daily AI-call quota is not used up; a quota of 0 or less never lets a call through. */
    function CanAiCallDaily(): (r: bool)
      reads this
      ensures r <==> aiCallsToday < maxAiCallsPerDay
      ensures maxAiCallsPerDay <= 0 && aiCallsToday >= 0 ==> !r
    {
      aiCallsToday < maxAiCallsPerDay
    }

    /**
     * The periodic sync check at time `now`: the answer of the code as
     * written, except that a zero quota after a sync refuses where the code
     * as written raises.
     */
    function CanSyncPeriodic(now: int): (v: Periodic)
      reads this
      ensures v != Raises
      ensures lastSyncTime.None? ==> v == Go
      ensures lastSyncTime.Some? && maxPerDay == 0 ==>
                v == Blocked && PeriodicAsWritten(maxPerDay, lastSyncTime, now) == Raises
      ensures !(lastSyncTime.Some? && maxPerDay == 0) ==> v == PeriodicAsWritten(maxPerDay, lastSyncTime, now)
    {
      PeriodicCheck(maxPerDay, lastSyncTime, now)
    }

    /** The periodic AI-call check at time `now`, with the same zero-quota correction. */
    function CanAiCallPeriodic(now: int): (v: Periodic)
      reads this
      ensures v != Raises
      ensures lastAiCallTime.None? ==> v == Go
      ensures lastAiCallTime.Some? && maxAiCallsPerDay == 0 ==>
                v == Blocked && PeriodicAsWritten(maxAiCallsPerDay, lastAiCallTime, now) == Raises
      ensures !(lastAiCallTime.Some? && maxAiCallsPerDay == 0) ==>
                v == PeriodicAsWritten(maxAiCallsPerDay, lastAiCallTime, now)
    {
      PeriodicCheck(maxAiCallsPerDay, lastAiCallTime, now)
    }

    /**
     * Counts one more synced video and stamps the sync time; the AI fields
     * and the day stay as they were. The periodic check then waits a whole
     * period from `now`.
     */
    method RecordSuccess(now: int)
      modifies this
      ensures videosSyncedToday == old(videosSyncedToday) + 1 && lastSyncTime == Some(now)
      ensures lastSyncDate == old(lastSyncDate)
      ensures aiCallsToday == old(aiCallsToday) && lastAiCallTime == old(lastAiCallTime)
      ensures CanSyncDaily() <==> old(videosSyncedToday) + 1 < maxPerDay
      ensures maxPerDay > 0 ==> CanSyncPeriodic(now).Wait?
    {
      videosSyncedToday := videosSyncedToday + 1;
      lastSyncTime := Some(now);
      if maxPerDay > 0 { PeriodTest(maxPerDay, 0); }
    }

    /** The AI-call counterpart of `RecordSuccess`. */
    method RecordAiCall(now: int)
      modifies this
      ensures aiCallsToday == old(aiCallsToday) + 1 && lastAiCallTime == Some(now)
      ensures lastSyncDate == old(lastSyncDate)
      ensures videosSyncedToday == old(videosSyncedToday) && lastSyncTime == old(lastSyncTime)
      ensures CanAiCallDaily() <==> old(aiCallsToday) + 1 < maxAiCallsPerDay
      ensures maxAiCallsPerDay > 0 ==> CanAiCallPeriodic(now).Wait?
    {
      aiCallsToday := aiCallsToday + 1;
      lastAiCallTime := Some(now);
      if maxAiCallsPerDay > 0 { PeriodTest(maxAiCallsPerDay, 0); }
    }

    /** Zeroes both counters and nothing else: the day and the times stay. */
    method ResetDailyCounter()
      modifies this
      ensures videosSyncedToday == 0 && aiCallsToday == 0
      ensures lastSyncDate == old(lastSyncDate)
      ensures lastSyncTime == old(lastSyncTime) && lastAiCallTime == old(lastAiCallTime)
      ensures maxPerDay > 0 ==> CanSyncDaily()
      ensures maxAiCallsPerDay > 0 ==> CanAiCallDaily()
    {
      videosSyncedToday := 0;
      aiCallsToday := 0;
    }
  }
}
