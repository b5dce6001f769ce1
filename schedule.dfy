/** The analysis scheduling policy of the plugin's enable step, as pure
    functions: which analysis tasks are handed to the host scheduler and with
    which delays, and when a tick of the periodic task recomputes.

    Delays are in server ticks (20 per second). The tick counts are Java
    `int` arithmetic and are written here with their 32-bit wrap-around. */
module AnalysisSchedule {
  import opened Options

  newtype int32 = x: int | -0x8000_0000 <= x < 0x8000_0000

  const TicksPerSecond: int := 20
  const MsPerTick: int := 50
  /** A cached snapshot younger than this (in milliseconds) is not recomputed
      by the periodic task. */
  const FreshnessMs: int := 60000
  /** The refresh-interval setting that switches the periodic task off. */
  const DisabledMinutes: int := -1
  /** The boot analysis runs 30 seconds after enabling. */
  const BootDelayTicks: int := 30 * 20
  /** The largest interval in minutes whose tick count fits in an int. */
  const MaxExactMinutes: int := 1789569

  /** Java int arithmetic: the low 32 bits of x, read as two's complement. */
  function Wrap(x: int): (r: int32)
    ensures (r as int - x) % 0x1_0000_0000 == 0
    ensures -0x8000_0000 <= x < 0x8000_0000 ==> r as int == x
  {
    ((x + 0x8000_0000) % 0x1_0000_0000 - 0x8000_0000) as int32
  }

  /** Numbers that agree modulo 2^32 wrap to the same int. */
  lemma WrapCongruent(x: int, y: int)
    requires (x - y) % 0x1_0000_0000 == 0
    ensures Wrap(x) == Wrap(y)
  {
    var k := (x - y) / 0x1_0000_0000;
    assert x + 0x8000_0000 == (y + 0x8000_0000) + 0x1_0000_0000 * k;
  }

  /** `analysisRefreshMinutes * 60 * 20`, evaluated left to right in int:
      an int that agrees with the exact tick count modulo 2^32. */
  function RefreshPeriodTicks(minutes: int32): (t: int32)
    ensures (t as int - minutes as int * 1200) % 0x1_0000_0000 == 0
  {
    var w := Wrap(minutes as int * 60);
    var k := (w as int - minutes as int * 60) / 0x1_0000_0000;
    assert w as int == minutes as int * 60 + 0x1_0000_0000 * k;
    var t := Wrap(w as int * 20);
    var j := (t as int - w as int * 20) / 0x1_0000_0000;
    assert t as int == w as int * 20 + 0x1_0000_0000 * j;
    assert t as int - minutes as int * 1200 == 0x1_0000_0000 * (j + 20 * k);
    t
  }

  /** Wrapping after each multiplication is wrapping the exact product once. */
  lemma RefreshPeriodTicksWrapsOnce(minutes: int32)
    ensures RefreshPeriodTicks(minutes) == Wrap(minutes as int * 1200)
  {
    var t := RefreshPeriodTicks(minutes);
    WrapCongruent(t as int, minutes as int * 1200);
  }

  /** Up to MaxExactMinutes the period is exactly minutes * 1200 ticks, which
      is the interval in minutes at 50 ms per tick. */
  lemma RefreshPeriodTicksExact(minutes: int32)
    requires 0 <= minutes as int <= MaxExactMinutes
    ensures RefreshPeriodTicks(minutes) as int == minutes as int * 60 * TicksPerSecond
    ensures RefreshPeriodTicks(minutes) as int * MsPerTick == minutes as int * 60000
    ensures minutes > 0 ==> RefreshPeriodTicks(minutes) > 0
  {
    RefreshPeriodTicksWrapsOnce(minutes);
  }

  /** One minute more and the product leaves the int range: the period
      handed to the scheduler turns negative. */
  lemma RefreshPeriodTicksOverflow()
    ensures RefreshPeriodTicks((MaxExactMinutes + 1) as int32) == -2147483296
  {
    RefreshPeriodTicksWrapsOnce((MaxExactMinutes + 1) as int32);
  }

  /** Past the first wrap the period is the exact product reduced into the
      int range, so it comes back positive, and can even be zero: twice the
      overflowing interval gives 704 ticks (about 35 seconds), and 2^28
      minutes give a period of 0 ticks. */
  lemma RefreshPeriodTicksRewraps()
    ensures RefreshPeriodTicks(3579140 as int32) == 704
    ensures RefreshPeriodTicks(0x1000_0000 as int32) == 0
  {
    RefreshPeriodTicksWrapsOnce(3579140 as int32);
    RefreshPeriodTicksWrapsOnce(0x1000_0000 as int32);
  }

  /** The body of the periodic task's run(): whether it calls updateCache,
      given whether a snapshot is cached, the wall clock and the snapshot's
      refresh date (both epoch milliseconds). */
  predicate PeriodicRunUpdates(cached: bool, now: int, refreshDate: int)
  {
    if !cached then true
    else now - refreshDate > FreshnessMs
  }

  /** Nothing cached: every tick recomputes. A snapshot is recomputed only
      once it is strictly older than FreshnessMs, so an age of exactly
      60000 ms, or less, is left alone. */
  lemma PeriodicRunGate(now: int, refreshDate: int)
    ensures PeriodicRunUpdates(false, now, refreshDate)
    ensures now - refreshDate <= FreshnessMs ==> !PeriodicRunUpdates(true, now, refreshDate)
    ensures now - refreshDate > FreshnessMs ==> PeriodicRunUpdates(true, now, refreshDate)
  {
  }

  /** A snapshot the periodic task would recompute at some time stays stale
      at every later time. */
  lemma PeriodicRunStaysStale(cached: bool, now: int, later: int, refreshDate: int)
    requires now <= later && PeriodicRunUpdates(cached, now, refreshDate)
    ensures PeriodicRunUpdates(cached, later, refreshDate)
  {
  }

  datatype TaskKind = BootAnalysis | PeriodicAnalysis

  /** A task handed to the host scheduler: run once after `delay` ticks when
      `period` is None (runTaskLater), or first after `delay` ticks and then
      every `period` ticks (runTaskTimerAsynchronously). */
  datatype TaskRequest = TaskRequest(kind: TaskKind, delay: int, period: Option<int>)

  const BootTask: TaskRequest := TaskRequest(BootAnalysis, BootDelayTicks, None)

  /** The repeating request: first run and period are one and the same
      Java int, congruent to minutes * 1200 modulo 2^32 (which fixes it to
      Wrap(minutes * 1200)). */
  function PeriodicTask(minutes: int32): (t: TaskRequest)
    ensures t.kind == PeriodicAnalysis && t.period == Some(t.delay)
    ensures (t.delay - minutes as int * 1200) % 0x1_0000_0000 == 0
    ensures -0x8000_0000 <= t.delay < 0x8000_0000
  {
    TaskRequest(PeriodicAnalysis, RefreshPeriodTicks(minutes) as int, Some(RefreshPeriodTicks(minutes) as int))
  }

  /** The analysis tasks the enable step schedules, in order, from the
      webserver, refresh-on-enable and refresh-interval settings. */
  function AnalysisTasks(webserverEnabled: bool, refreshOnEnable: bool, minutes: int32): (tasks: seq<TaskRequest>)
    ensures BootTask in tasks <==> webserverEnabled && refreshOnEnable
    ensures PeriodicTask(minutes) in tasks <==> webserverEnabled && minutes as int != DisabledMinutes
    ensures forall t :: t in tasks ==> t == BootTask || t == PeriodicTask(minutes)
    ensures |tasks| <= 2 && (|tasks| == 2 ==> tasks[0] == BootTask && tasks[1] == PeriodicTask(minutes))
  {
    if !webserverEnabled then []
    else
      (if refreshOnEnable then [BootTask] else [])
      + (if minutes as int != DisabledMinutes then [PeriodicTask(minutes)] else [])
  }
}
