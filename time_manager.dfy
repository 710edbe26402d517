/**
 * The clock service (`Time_Manager`): timestamp arithmetic on ISO text, the
 * network-time anchor and its bookkeeping, and the current-time choice
 * between the anchor and the real-time clock.
 *
 * Readings of the environment are parameters: the tick counter
 * (`time.ticks_ms()`), the real-time clock (`time.time()`), the link state
 * (`ethernet.isconnected()`) and the outcome of the HTTP time request.
 * `machine.reset()` restarts the device and never returns; the model records
 * that it was called and stops the calling operation there.
 */
module TimeManager {
  import opened Wrappers
  import opened Calendar
  import opened IsoText
  import opened Ticks

  /** `get_iso_timestamp`: the real-time clock reading as local ISO text. */
  function GetIsoTimestamp(rtcSeconds: int, tzOffset: int): string {
    Render(Localtime(rtcSeconds + tzOffset))
  }

  /**
   * `iso_add_ms`: the anchor text shifted by `deltaMs // 1000` seconds. (With a
   * positive divisor Dafny's `/` is floor division, as Python's `//` is.)
   */
  function IsoAddMs(anchor: string, deltaMs: int, tzOffset: int): string {
    var localAnchor := Mktime(ParseIso(anchor));
    var utcAnchor := localAnchor - tzOffset;
    var newUtc := utcAnchor + deltaMs / 1000;
    Render(Localtime(newUtc + tzOffset))
  }

  /** The time zone offset is subtracted and added back, so it cancels. */
  lemma IsoAddMsIgnoresOffset(anchor: string, deltaMs: int, tz1: int, tz2: int)
    ensures IsoAddMs(anchor, deltaMs, tz1) == IsoAddMs(anchor, deltaMs, tz2)
    ensures IsoAddMs(anchor, deltaMs, tz1) == Render(Localtime(Mktime(ParseIso(anchor)) + deltaMs / 1000))
  {
  }

  /** The shift, for an anchor that denotes instant `m`. */
  lemma IsoAddMsShift(anchor: string, m: int, deltaMs: int, tzOffset: int)
    requires Mktime(ParseIso(anchor)) == m
    ensures IsoAddMs(anchor, deltaMs, tzOffset) == Render(Localtime(m + deltaMs / 1000))
  {
    IsoAddMsIgnoresOffset(anchor, deltaMs, tzOffset, 0);
    SameShift(Mktime(ParseIso(anchor)), m, deltaMs, deltaMs);
  }

  /** The shift, for an anchor that denotes the instant date-time `t` denotes. */
  lemma IsoAddMsShiftAt(anchor: string, t: Civil, deltaMs: int, tzOffset: int)
    requires Mktime(ParseIso(anchor)) == Mktime(t)
    ensures IsoAddMs(anchor, deltaMs, tzOffset) == Render(Localtime(Mktime(t) + deltaMs / 1000))
  {
    IsoAddMsShift(anchor, Mktime(t), deltaMs, tzOffset);
  }

  /** Equal instants shifted by the same whole seconds are the same date-time. */
  lemma SameShift(a: int, b: int, d1: int, d2: int)
    requires a == b && d1 / 1000 == d2 / 1000
    ensures Localtime(a + d1 / 1000) == Localtime(b + d2 / 1000)
  {
  }

  /** Only whole seconds of the delta matter. */
  lemma IsoAddMsWholeSeconds(anchor: string, d1: int, d2: int, tzOffset: int)
    requires d1 / 1000 == d2 / 1000
    ensures IsoAddMs(anchor, d1, tzOffset) == IsoAddMs(anchor, d2, tzOffset)
  {
    IsoAddMsIgnoresOffset(anchor, d1, tzOffset, 0);
    IsoAddMsIgnoresOffset(anchor, d2, tzOffset, 0);
    SameShift(Mktime(ParseIso(anchor)), Mktime(ParseIso(anchor)), d1, d2);
  }

  /** A canonical text parses back to the date-time it renders. */
  lemma ParseRenderSelf(t: Civil)
    requires NonNegative(t)
    ensures ParseIso(Render(t)) == t
  {
    ParseRender(t, "");
    assert Render(t) + "" == Render(t);
  }

  /** A canonical text denotes the instant its date-time does. */
  lemma CanonicalInstant(t: Civil)
    requires NonNegative(t)
    ensures Mktime(ParseIso(Render(t))) == Mktime(t)
  {
    ParseRenderSelf(t);
  }

  lemma ValidNonNegative(t: Civil)
    requires Valid(t) && t.year >= 0
    ensures NonNegative(t)
  {
  }

  /** Rendering the date-time a valid date-time denotes renders that date-time. */
  lemma RenderLocaltimeMktime(t: Civil)
    requires Valid(t)
    ensures Render(Localtime(Mktime(t))) == Render(t)
  {
    LocaltimeMktime(t);
  }

  lemma BelowOneSecond(t: Civil, deltaMs: int)
    requires 0 <= deltaMs < 1000
    ensures Mktime(t) + deltaMs / 1000 == Mktime(t)
  {
  }

  /** An anchor denoting a valid date-time, shifted by less than a second, renders that date-time. */
  lemma IsoAddMsSubSecondAt(anchor: string, t: Civil, deltaMs: int, tzOffset: int)
    requires Valid(t) && Mktime(ParseIso(anchor)) == Mktime(t)
    requires 0 <= deltaMs < 1000
    ensures IsoAddMs(anchor, deltaMs, tzOffset) == Render(t)
  {
    IsoAddMsShiftAt(anchor, t, deltaMs, tzOffset);
    BelowOneSecond(t, deltaMs);
    RenderLocaltimeMktime(t);
  }

  /** A canonical anchor text shifted by less than a second is the anchor itself. */
  lemma IsoAddMsSubSecond(t: Civil, deltaMs: int, tzOffset: int)
    requires Valid(t) && t.year >= 0
    requires 0 <= deltaMs < 1000
    ensures IsoAddMs(Render(t), deltaMs, tzOffset) == Render(t)
  {
    ValidNonNegative(t);
    CanonicalInstant(t);
    IsoAddMsSubSecondAt(Render(t), t, deltaMs, tzOffset);
  }

  /**
   * The result denotes the instant the anchor denotes plus the whole seconds
   * of the delta, read back through `parse_iso` and `mktime`, as long as the
   * resulting year is written without a sign.
   */
  lemma IsoAddMsAdvances(anchor: string, deltaMs: int, tzOffset: int)
    requires Localtime(Mktime(ParseIso(anchor)) + deltaMs / 1000).year >= 0
    ensures Mktime(ParseIso(IsoAddMs(anchor, deltaMs, tzOffset))) == Mktime(ParseIso(anchor)) + deltaMs / 1000
  {
    IsoAddMsShiftAt(anchor, ParseIso(anchor), deltaMs, tzOffset);
    ValidNonNegative(Localtime(Mktime(ParseIso(anchor)) + deltaMs / 1000));
    CanonicalInstant(Localtime(Mktime(ParseIso(anchor)) + deltaMs / 1000));
  }

  /**
   * A canonical anchor text shifted by `deltaMs` is the text of the instant
   * `deltaMs // 1000` seconds after the one the anchor denotes.
   */
  lemma IsoAddMsCanonical(t: Civil, deltaMs: int, tzOffset: int)
    requires NonNegative(t)
    ensures IsoAddMs(Render(t), deltaMs, tzOffset) == Render(Localtime(Mktime(t) + deltaMs / 1000))
  {
    CanonicalInstant(t);
    IsoAddMsShiftAt(Render(t), t, deltaMs, tzOffset);
  }

  /** What the HTTP time request yields: the `iso` field of the response, or an error. */
  datatype Fetch = Fetched(iso: string) | FetchFailed

  /** What the environment shows at one attempt of the sync task. */
  datatype Attempt = Attempt(linkUp: bool, fetch: Fetch, ticks: int)

  /** How a call of `sync_ntp_task` ends: it returns, or the device restarts. */
  datatype TaskEnd = Returned(ok: bool) | DeviceReset

  /** `max_retries` of `sync_ntp_task`. */
  const MaxRetries: int := 3

  class Clock {
    /** `timezone_offset`, in seconds. */
    const tzOffset: int
    /** `boot_ticks`: the counter at construction. */
    const bootTicks: int
    /** `ntp_sync`. */
    var ntpSync: bool
    /** `sync_iso`: the anchor timestamp, `None` until the first sync. */
    var syncIso: Option<string>
    /** `sync_ticks`: the counter when the anchor was taken. */
    var syncTicks: Option<int>
    /** Whether `machine.reset()` has been called. */
    var resetTriggered: bool

    /** The anchor's two halves are set together, and a synced clock has one. */
    ghost predicate Valid()
      reads this
    {
      && IsTick(bootTicks)
      && (syncIso.Some? <==> syncTicks.Some?)
      && (syncTicks.Some? ==> IsTick(syncTicks.value))
      && (ntpSync ==> syncIso.Some?)
    }

    /** `Time_Manager(ethernet, timezone_offset)`, booted at counter value `bootTicks`. */
    constructor (timezoneHours: int, bootTicks: int)
      requires IsTick(bootTicks)
      ensures Valid()
      ensures tzOffset == timezoneHours * 3600 && this.bootTicks == bootTicks
      ensures !ntpSync && syncIso == None && syncTicks == None && !resetTriggered
    {
      tzOffset := timezoneHours * 3600;
      this.bootTicks := bootTicks;
      ntpSync := false;
      syncIso := None;
      syncTicks := None;
      resetTriggered := false;
    }

    /** The test `now()` makes: a non-empty anchor text and an anchor tick. */
    predicate Anchored()
      reads this
    {
      syncIso.Some? && syncIso.value != "" && syncTicks.Some?
    }

    /**
     * `sync_http_time`: on a successful request sets the anchor's text and tick
     * together and marks the clock synced; on failure leaves the anchor alone,
     * marks the clock unsynced and restarts the device.
     */
    method SyncHttpTime(fetch: Fetch, ticksNow: int) returns (ok: bool)
      requires Valid() && IsTick(ticksNow)
      modifies this
      ensures Valid()
      ensures ok == fetch.Fetched?
      ensures fetch.Fetched? ==>
        syncIso == Some(fetch.iso) && syncTicks == Some(ticksNow) && ntpSync && resetTriggered == old(resetTriggered)
      ensures fetch.FetchFailed? ==>
        syncIso == old(syncIso) && syncTicks == old(syncTicks) && !ntpSync && resetTriggered
    {
      match fetch
      case Fetched(iso) =>
        syncIso := Some(iso);
        syncTicks := Some(ticksNow);
        ntpSync := true;
        ok := true;
      case FetchFailed =>
        ntpSync := false;
        resetTriggered := true;
        ok := false;
    }

    /**
     * `sync_ntp_task`: up to `MaxRetries` attempts, each gated on the link.
     * A success returns at once, a failure restarts the device inside the
     * sync, and a down link leaves the loop; so the first attempt always
     * decides, and at most one request is ever made.
     */
    method SyncNtpTask(env: seq<Attempt>) returns (end: TaskEnd, fetches: nat)
      requires Valid()
      requires |env| == MaxRetries
      requires forall i :: 0 <= i < |env| ==> IsTick(env[i].ticks)
      modifies this
      ensures Valid()
      ensures fetches <= 1 && fetches <= MaxRetries
      ensures fetches == if env[0].linkUp then 1 else 0
      ensures end == if !env[0].linkUp then Returned(false)
                     else if env[0].fetch.Fetched? then Returned(true)
                     else DeviceReset
      ensures end == Returned(true) ==>
        ntpSync && syncIso == Some(env[0].fetch.iso) && syncTicks == Some(env[0].ticks)
      ensures end != Returned(true) ==>
        !ntpSync && syncIso == old(syncIso) && syncTicks == old(syncTicks)
      ensures resetTriggered == (old(resetTriggered) || end == DeviceReset)
    {
      fetches := 0;
      for attempt := 0 to MaxRetries
        invariant syncIso == old(syncIso) && syncTicks == old(syncTicks)
        invariant ntpSync == old(ntpSync) && resetTriggered == old(resetTriggered)
        invariant attempt > 0 ==> !env[0].linkUp
        invariant fetches == 0
      {
        if env[attempt].linkUp {
          var success := SyncHttpTime(env[attempt].fetch, env[attempt].ticks);
          fetches := fetches + 1;
          if success {
            return Returned(true), fetches;
          }
          // `machine.reset()` has been called: the device restarts here.
          return DeviceReset, fetches;
        } else {
          break;
        }
      }
      ntpSync := false;
      end := Returned(false);
    }

    /** `now()`: the anchor shifted by the ticks since it was taken, or the real-time clock. */
    function Now(ticksNow: int, rtcSeconds: int): string
      reads this
    {
      if Anchored() then
        IsoAddMs(syncIso.value, TicksDiff(ticksNow, syncTicks.value), tzOffset)
      else
        GetIsoTimestamp(rtcSeconds, tzOffset)
    }

    /** `uptime()`, in whole milliseconds. */
    function UptimeMs(ticksNow: int): (ms: int)
      reads this
      ensures -TicksHalf <= ms < TicksHalf
    {
      TicksDiff(ticksNow, bootTicks)
    }
  }

  /** Without an anchor, `now()` renders the real-time clock. */
  lemma NowWithoutAnchor(c: Clock, ticksNow: int, rtcSeconds: int)
    requires !c.Anchored()
    ensures c.Now(ticksNow, rtcSeconds) == GetIsoTimestamp(rtcSeconds, c.tzOffset)
  {
  }

  /**
   * With an anchor, `now()` shifts it by the true elapsed time since the
   * anchor tick, even across a wrap-around of the counter, as long as less
   * than half the counter period has passed.
   */
  lemma NowMeasuresElapsed(c: Clock, elapsedMs: int, rtcSeconds: int)
    requires c.Valid() && c.Anchored()
    requires 0 <= elapsedMs < TicksHalf
    ensures c.Now(TicksAdd(c.syncTicks.value, elapsedMs), rtcSeconds)
         == IsoAddMs(c.syncIso.value, elapsedMs, c.tzOffset)
  {
    TicksDiffElapsed(c.syncTicks.value, elapsedMs);
  }

  /**
   * With a canonical anchor, `now()` renders the anchor's instant advanced by
   * the whole seconds elapsed on the counter since the anchor was taken.
   */
  lemma NowCanonical(c: Clock, t: Civil, elapsedMs: int, rtcSeconds: int)
    requires c.Valid() && c.syncTicks.Some?
    requires c.syncIso == Some(Render(t)) && NonNegative(t)
    requires 0 <= elapsedMs < TicksHalf
    ensures c.Now(TicksAdd(c.syncTicks.value, elapsedMs), rtcSeconds)
         == Render(Localtime(Mktime(t) + elapsedMs / 1000))
  {
    RenderNonEmpty(t);
    NowMeasuresElapsed(c, elapsedMs, rtcSeconds);
    IsoAddMsCanonical(t, elapsedMs, c.tzOffset);
  }

  /** `uptime()` is the milliseconds since boot, across a wrap-around, while under half the period. */
  lemma UptimeMeasuresElapsed(c: Clock, elapsedMs: int)
    requires c.Valid()
    requires 0 <= elapsedMs < TicksHalf
    ensures c.UptimeMs(TicksAdd(c.bootTicks, elapsedMs)) == elapsedMs
  {
    TicksDiffElapsed(c.bootTicks, elapsedMs);
  }

  /** From half the counter period on, `uptime()` turns negative. */
  lemma UptimePastHalfPeriod(c: Clock, elapsedMs: int)
    requires c.Valid()
    requires TicksHalf <= elapsedMs < TicksPeriod
    ensures c.UptimeMs(TicksAdd(c.bootTicks, elapsedMs)) == elapsedMs - TicksPeriod < 0
  {
    TicksDiffPastHalf(c.bootTicks, elapsedMs);
  }

  /** Shifting a valid date-time forwards never moves it to an earlier year. */
  lemma ForwardShiftYear(t: Civil, elapsedMs: int)
    requires Valid(t) && elapsedMs >= 0
    ensures Localtime(Mktime(t) + elapsedMs / 1000).year >= t.year
  {
    MktimeFromYear(t, t.year);
    assert elapsedMs / 1000 >= 0;
    LocaltimeFromYear(Mktime(t) + elapsedMs / 1000, t.year);
  }

  /**
   * With the rendering of a valid date-time as anchor, the instant `now()`
   * shows is the anchor's instant plus the whole seconds elapsed.
   */
  lemma NowInstant(c: Clock, t: Civil, elapsedMs: int, rtcSeconds: int)
    requires c.Valid() && c.syncTicks.Some?
    requires c.syncIso == Some(Render(t)) && Valid(t) && t.year >= 0
    requires 0 <= elapsedMs < TicksHalf
    ensures Mktime(ParseIso(c.Now(TicksAdd(c.syncTicks.value, elapsedMs), rtcSeconds)))
         == Mktime(t) + elapsedMs / 1000
  {
    RenderNonEmpty(t);
    NowMeasuresElapsed(c, elapsedMs, rtcSeconds);
    CanonicalAdvances(t, elapsedMs, c.tzOffset);
  }

  /** The text of an instant from year 0 on reads back as that instant. */
  lemma RenderedInstant(s: int)
    requires Localtime(s).year >= 0
    ensures Mktime(ParseIso(Render(Localtime(s)))) == s
  {
    ValidNonNegative(Localtime(s));
    CanonicalInstant(Localtime(s));
  }

  /** A canonical anchor from year 0 on, shifted forwards, reads back as its instant plus the whole seconds. */
  lemma CanonicalAdvances(t: Civil, deltaMs: int, tzOffset: int)
    requires Valid(t) && t.year >= 0 && deltaMs >= 0
    ensures Mktime(ParseIso(IsoAddMs(Render(t), deltaMs, tzOffset))) == Mktime(t) + deltaMs / 1000
  {
    ValidNonNegative(t);
    IsoAddMsCanonical(t, deltaMs, tzOffset);
    ShiftedReadBack(t, deltaMs);
  }

  /** The text of a valid date-time shifted forwards reads back as the shifted instant. */
  lemma ShiftedReadBack(t: Civil, deltaMs: int)
    requires Valid(t) && t.year >= 0 && deltaMs >= 0
    ensures Mktime(ParseIso(Render(Localtime(Mktime(t) + deltaMs / 1000)))) == Mktime(t) + deltaMs / 1000
  {
    ForwardShiftYear(t, deltaMs);
    RenderedInstant(Mktime(t) + deltaMs / 1000);
  }

  /** Within half the counter period of the anchor tick, the time `now()` shows never goes back. */
  lemma NowMonotone(c: Clock, t: Civil, e1: int, e2: int, rtcSeconds: int)
    requires c.Valid() && c.syncTicks.Some?
    requires c.syncIso == Some(Render(t)) && Valid(t) && t.year >= 0
    requires 0 <= e1 <= e2 < TicksHalf
    ensures Mktime(ParseIso(c.Now(TicksAdd(c.syncTicks.value, e1), rtcSeconds)))
         <= Mktime(ParseIso(c.Now(TicksAdd(c.syncTicks.value, e2), rtcSeconds)))
  {
    NowInstant(c, t, e1, rtcSeconds);
    NowInstant(c, t, e2, rtcSeconds);
    assert e1 / 1000 <= e2 / 1000;
  }

  /**
   * Once half the counter period or more has passed since the anchor tick
   * with no new anchor, `ticks_diff` reads the elapsed time `TicksPeriod + back`
   * as the negative `back`, and `now()` shifts the anchor backwards.
   */
  lemma NowPastHalfPeriod(c: Clock, back: int, rtcSeconds: int)
    requires c.Valid() && c.Anchored()
    requires -TicksHalf <= back < 0
    ensures c.Now(TicksAdd(c.syncTicks.value, TicksPeriod + back), rtcSeconds)
         == IsoAddMs(c.syncIso.value, back, c.tzOffset)
  {
    assert TicksAdd(c.syncTicks.value, TicksPeriod + back) == TicksAdd(c.syncTicks.value, back);
    TicksDiffElapsed(c.syncTicks.value, back);
  }

  /** With a canonical anchor, past half the period `now()` renders an instant before the anchor's. */
  lemma NowPastHalfCanonical(c: Clock, t: Civil, back: int, rtcSeconds: int)
    requires c.Valid() && c.syncTicks.Some?
    requires c.syncIso == Some(Render(t)) && NonNegative(t)
    requires -TicksHalf <= back < 0
    ensures c.Now(TicksAdd(c.syncTicks.value, TicksPeriod + back), rtcSeconds)
         == Render(Localtime(Mktime(t) + back / 1000))
    ensures Mktime(t) + back / 1000 < Mktime(t)
  {
    RenderNonEmpty(t);
    NowPastHalfPeriod(c, back, rtcSeconds);
    IsoAddMsCanonical(t, back, c.tzOffset);
  }
}
