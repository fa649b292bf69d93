/**
  The background service of main.py: one iteration of the fetch loop
  (lines 74-84), a bounded run of the loop after the initial alignment
  (lines 60-84), and the administrative `update_frequency` endpoint
  (lines 130-145).

  The fetch, the clock and the file system belong to the environment: each
  iteration receives the fetched snapshot (`{}` when the fetch failed), the
  rendered local time used for a missing time stamp, how long the fetch and
  append took, and whether the file I/O raised.
 */
module Service {
  import opened Values
  import opened CsvSchema
  import opened CsvHandler
  import opened Scheduler

  /** `fetch_interval = 3600` at start-up (line 38). */
  const InitialFetchInterval: int := 3600

  /** `time.sleep(3600)` at the end of every iteration, in microseconds. */
  const LoopSleep: int := SecondsPerHour * MicrosPerSecond

  /** The module-level state the loop and the endpoint touch: the clock, the
      CSV file, `latest_weather_data` and `fetch_interval`. */
  datatype ServiceState = ServiceState(clock: int, file: CsvFile, latest: Snapshot, fetchInterval: int)

  /** What the environment decides during one iteration. */
  datatype Tick = Tick(fetched: Snapshot, nowStamp: string, busy: nat, ioFails: bool)

  /** The append call an iteration makes. */
  function CallOf(t: Tick): Call {
    Call(t.fetched, t.nowStamp, t.ioFails)
  }

  function CallsOf(ticks: seq<Tick>): (calls: seq<Call>)
    ensures |calls| == |ticks|
    ensures forall j :: 0 <= j < |ticks| ==> calls[j] == CallOf(ticks[j])
  {
    seq(|ticks|, j requires 0 <= j < |ticks| => CallOf(ticks[j]))
  }

  /** One pass of the `while True` body: fetch, append whatever came back,
      then sleep a fixed hour. The append's result only chooses a log line. */
  function LoopStep(s: ServiceState, t: Tick): (r: ServiceState)
    ensures r.latest == t.fetched
    ensures r.file == Append(s.file, t.fetched, t.nowStamp, t.ioFails).file
    ensures r.fetchInterval == s.fetchInterval
    ensures r.clock - s.clock == t.busy + 3600 * MicrosPerSecond
  {
    var latest := t.fetched;
    var appended := Append(s.file, latest, t.nowStamp, t.ioFails);
    ServiceState(s.clock + t.busy + LoopSleep, appended.file, latest, s.fetchInterval)
  }

  /** The wake-up time after an iteration depends neither on `fetch_interval`,
      nor on the file, nor on what was fetched or whether the append succeeded. */
  lemma SleepIgnoresIntervalAndOutcome(s1: ServiceState, s2: ServiceState, t1: Tick, t2: Tick)
    requires s1.clock == s2.clock && t1.busy == t2.busy
    ensures LoopStep(s1, t1).clock == LoopStep(s2, t2).clock
  {
  }

  /** An empty fetch result is still appended: when the file I/O works, the
      file gains a row of defaults carrying the current time. */
  lemma EmptyFetchStillAppendsDefaults(s: ServiceState, t: Tick)
    requires t.fetched == map[] && !t.ioFails
    ensures var after := Content(LoopStep(s, t).file);
      && |after| > |Content(s.file)|
      && after[|after| - 1] == Data(RowOf(FormatCurrent(map[], t.nowStamp)))
      && after[|after| - 1].cells[0] == Str(t.nowStamp)
      && forall i :: 1 <= i < ColumnCount ==> after[|after| - 1].cells[i] == MeasurementDefault(i)
  {
    MissingCurrentDataGivesDefaults(t.fetched, t.nowStamp);
  }

  /** Sum of the time the first iterations spent fetching and appending. */
  function TotalBusy(ticks: seq<Tick>): nat
    decreases |ticks|
  {
    if |ticks| == 0 then 0 else TotalBusy(ticks[..|ticks| - 1]) + ticks[|ticks| - 1].busy
  }

  /** The `while True` loop, cut off after one iteration per tick. Returns
      the final state and the clock reading at the start of each iteration. */
  method RunLoop(start: ServiceState, ticks: seq<Tick>) returns (final: ServiceState, wakes: seq<int>)
    ensures |wakes| == |ticks|
    ensures final.file == AppendAll(start.file, CallsOf(ticks))
    ensures |ticks| > 0 ==> final.latest == ticks[|ticks| - 1].fetched
    ensures |ticks| == 0 ==> final == start
    ensures final.fetchInterval == start.fetchInterval
    ensures |ticks| > 0 ==> wakes[0] == start.clock
    // each later iteration starts one hour after the previous one finished
    ensures forall j :: 0 <= j < |wakes| - 1 ==> wakes[j + 1] == wakes[j] + ticks[j].busy + LoopSleep
    // the schedule only drifts later, by the total time spent working
    ensures forall j :: 0 <= j < |wakes| ==> wakes[j] == start.clock + j * MicrosPerHour + TotalBusy(ticks[..j])
  {
    var s := start;
    wakes := [];
    var k := 0;
    while k < |ticks|
      invariant 0 <= k <= |ticks|
      invariant |wakes| == k
      invariant s.file == AppendAll(start.file, CallsOf(ticks[..k]))
      invariant s.fetchInterval == start.fetchInterval
      invariant k > 0 ==> s.latest == ticks[k - 1].fetched
      invariant k == 0 ==> s == start
      invariant s.clock == start.clock + k * MicrosPerHour + TotalBusy(ticks[..k])
      invariant forall j :: 0 <= j < k ==> wakes[j] == start.clock + j * MicrosPerHour + TotalBusy(ticks[..j])
    {
      OneMoreTick(start.file, ticks, k);
      wakes := wakes + [s.clock];
      s := LoopStep(s, ticks[k]);
      k := k + 1;
    }
    assert ticks[..k] == ticks;
    forall j | 0 <= j < |wakes| - 1
      ensures wakes[j + 1] == wakes[j] + ticks[j].busy + LoopSleep
    {
      OneMoreTick(start.file, ticks, j);
    }
    final := s;
  }

  /** `background_fetch`, started when the module loads: the state begins
      with `latest_weather_data = {}` and `fetch_interval = 3600` (lines
      38-41), then comes the hour alignment and the loop. Alignment past
      `datetime.max` raises and ends the thread before its first iteration. */
  method RunService(now: Instant, file: CsvFile, ticks: seq<Tick>)
    returns (final: ServiceState, wakes: seq<int>)
    ensures InitialAlignment(now).None? ==> wakes == [] && final.file == file
    ensures InitialAlignment(now).Some? ==> |wakes| == |ticks|
    ensures InitialAlignment(now).Some? ==> final.file == AppendAll(file, CallsOf(ticks))
    ensures final.fetchInterval == InitialFetchInterval
    ensures |wakes| == 0 ==> final.latest == map[]
    ensures |wakes| > 0 ==> final.latest == ticks[|ticks| - 1].fetched
    // the first iteration starts at the first hour boundary strictly after `now`
    ensures |wakes| > 0 ==> now < wakes[0] <= now + MicrosPerHour && IsHourBoundary(wakes[0])
    ensures |wakes| > 0 ==> forall b :: now < b < wakes[0] ==> !IsHourBoundary(b)
    // then the process repeats every hour, drifting by the time spent working
    ensures forall j :: 0 <= j < |wakes| - 1 ==> wakes[j + 1] == wakes[j] + ticks[j].busy + LoopSleep
    ensures forall j :: 0 <= j < |wakes| ==> wakes[j] == wakes[0] + j * MicrosPerHour + TotalBusy(ticks[..j])
  {
    var alignment := InitialAlignment(now);
    if alignment.None? {
      return ServiceState(now, file, map[], InitialFetchInterval), [];
    }
    final, wakes := RunLoop(ServiceState(alignment.value.nextHour, file, map[], InitialFetchInterval), ticks);
  }

  /** What the run up to tick `k` tells about the run up to tick `k + 1`. */
  lemma OneMoreTick(file: CsvFile, ticks: seq<Tick>, k: nat)
    requires k < |ticks|
    ensures TotalBusy(ticks[..k + 1]) == TotalBusy(ticks[..k]) + ticks[k].busy
    ensures AppendAll(file, CallsOf(ticks[..k + 1]))
         == Append(AppendAll(file, CallsOf(ticks[..k])), ticks[k].fetched, ticks[k].nowStamp, ticks[k].ioFails).file
  {
    assert ticks[..k + 1][..k] == ticks[..k];
    assert CallsOf(ticks[..k + 1]) == CallsOf(ticks[..k]) + [CallOf(ticks[k])];
    AppendAllSnoc(file, CallsOf(ticks[..k]), CallOf(ticks[k]));
  }

  /** With no time spent working, every iteration starts exactly on an hour
      boundary, one hour after the previous one. */
  lemma WakesStayAlignedWithoutDrift(wakes: seq<int>, ticks: seq<Tick>)
    requires |wakes| <= |ticks|
    requires |wakes| > 0 ==> IsHourBoundary(wakes[0])
    requires forall j :: 0 <= j < |wakes| ==> wakes[j] == wakes[0] + j * MicrosPerHour + TotalBusy(ticks[..j])
    requires forall j :: 0 <= j < |ticks| ==> ticks[j].busy == 0
    ensures forall j :: 0 <= j < |wakes| ==> IsHourBoundary(wakes[j]) && wakes[j] == wakes[0] + j * MicrosPerHour
  {
    forall j | 0 <= j < |wakes|
      ensures IsHourBoundary(wakes[j]) && wakes[j] == wakes[0] + j * MicrosPerHour
    {
      NoBusyNoDrift(ticks[..j]);
    }
  }

  lemma {:induction false} NoBusyNoDrift(ticks: seq<Tick>)
    requires forall j :: 0 <= j < |ticks| ==> ticks[j].busy == 0
    ensures TotalBusy(ticks) == 0
    decreases |ticks|
  {
    if |ticks| > 0 {
      NoBusyNoDrift(ticks[..|ticks| - 1]);
    }
  }

  // ---------------------------------------------------------------------
  // The `update_frequency` endpoint
  // ---------------------------------------------------------------------

  /** The endpoint's answer: the confirmation, or the validation layer's
      rejection of a non-positive `seconds` (before the handler runs). */
  datatype Reply = Updated(message: string) | Rejected

  datatype UpdateResult = UpdateResult(state: ServiceState, reply: Reply)

  const MessagePrefix: string := "Data fetch frequency updated to every "
  const MessageSuffix: string := " seconds."

  /** `update_frequency(seconds)` behind `Query(..., gt=0)`. */
  function UpdateFrequency(s: ServiceState, seconds: int): (r: UpdateResult)
    ensures r.reply.Updated? <==> seconds > 0
    ensures r.reply.Updated? ==> r.state == s.(fetchInterval := seconds)
    ensures r.reply.Rejected? ==> r.state == s
  {
    if seconds <= 0 then UpdateResult(s, Rejected)
    else UpdateResult(s.(fetchInterval := seconds), Updated(MessagePrefix + DecimalString(seconds) + MessageSuffix))
  }

  /** `fetch_interval` stays positive under both the endpoint and the loop. */
  lemma IntervalStaysPositive(s: ServiceState, seconds: int, t: Tick)
    requires s.fetchInterval > 0
    ensures UpdateFrequency(s, seconds).state.fetchInterval > 0
    ensures LoopStep(s, t).fetchInterval > 0
  {
  }

  /** The confirmation message names the new interval: the text between the
      fixed prefix and suffix reads back as `seconds`. */
  lemma MessageNamesInterval(s: ServiceState, seconds: int)
    requires seconds > 0
    ensures var m := UpdateFrequency(s, seconds).reply.message;
      && |m| > |MessagePrefix| + |MessageSuffix|
      && m[..|MessagePrefix|] == MessagePrefix
      && m[|m| - |MessageSuffix|..] == MessageSuffix
      && AllDigits(m[|MessagePrefix|..|m| - |MessageSuffix|])
      && ParseDecimal(m[|MessagePrefix|..|m| - |MessageSuffix|]) == seconds
  {
    var digits := DecimalString(seconds);
    var m := MessagePrefix + digits + MessageSuffix;
    assert m[|MessagePrefix|..|m| - |MessageSuffix|] == digits;
    DecimalRoundTrip(seconds);
  }

  // ---------------------------------------------------------------------
  // Python's str(int) for the non-negative integers the message shows
  // ---------------------------------------------------------------------

  predicate IsDigit(c: char) {
    '0' <= c <= '9'
  }

  predicate AllDigits(s: string) {
    forall i :: 0 <= i < |s| ==> IsDigit(s[i])
  }

  function DigitChar(d: nat): (c: char)
    requires d < 10
    ensures IsDigit(c)
  {
    "0123456789"[d]
  }

  /** Decimal digits of `n`, most significant first, without leading zeros. */
  function DecimalString(n: nat): (s: string)
    ensures |s| > 0 && AllDigits(s)
    ensures s[0] == '0' ==> n == 0
  {
    if n < 10 then [DigitChar(n)] else DecimalString(n / 10) + [DigitChar(n % 10)]
  }

  /** The number a string of decimal digits denotes. */
  function ParseDecimal(s: string): nat
    requires AllDigits(s)
  {
    if |s| == 0 then 0
    else ParseDecimal(s[..|s| - 1]) * 10 + ((s[|s| - 1] as int) - ('0' as int))
  }

  lemma {:induction false} DecimalRoundTrip(n: nat)
    ensures ParseDecimal(DecimalString(n)) == n
  {
    if n >= 10 {
      DecimalRoundTrip(n / 10);
      var s := DecimalString(n);
      assert s[..|s| - 1] == DecimalString(n / 10);
    }
  }
}
