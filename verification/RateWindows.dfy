/**
 The fixed windows of aceapi_ai/ratelimit.py: requests per minute and per hour, counted in Redis keys
 that expire. The clock is read first and the counters are incremented up to a minute later.
 */
module RateWindows {
  type Time = real

  const MINUTE := 60
  const HOUR := 3600

  /** A counter key: its value and its time of expiry. */
  datatype Counter = Counter(count: nat, expires: Time)

  type Counters = map<int, Counter>

  datatype Limits = Limits(requestsPerMinute: int, hourlyBudget: int)

  datatype Outcome = Admitted | RateExceeded(retryAfter: int) | BudgetExceeded(retryAfter: int)

  /** int(time.time()), for a clock after the epoch. */
  function Seconds(t: Time): int {
    t.Floor
  }

  function Window(t: Time, length: int): int
    requires length > 0
  {
    Seconds(t) / length
  }

  function CountOf(counters: Counters, w: int): nat {
    if w in counters then counters[w].count else 0
  }

  /** INCR and EXPIRE on the key of a window, at a server time. */
  function Hit(counters: Counters, w: int, clock: Time, ttl: int): Counters {
    counters[w := Counter(CountOf(counters, w) + 1, clock + ttl as real)]
  }

  /** The keys left when the clock reaches a time. */
  function Expire(counters: Counters, clock: Time): Counters {
    map w | w in counters && counters[w].expires > clock :: counters[w]
  }

  function Decide(now: int, minuteCount: int, hourCount: int, limits: Limits): Outcome {
    if minuteCount > limits.requestsPerMinute then RateExceeded(60 - now % 60)
    else if hourCount > limits.hourlyBudget then BudgetExceeded(3600 - now % 3600)
    else Admitted
  }

  /** The two families of keys of one backend. */
  class CounterKeys {
    var minutes: Counters
    var hours: Counters

    constructor ()
      ensures minutes == map[] && hours == map[]
    {
      minutes, hours := map[], map[];
    }

    method Incr(w: int, hourly: bool, clock: Time) returns (count: nat)
      modifies this
      ensures hourly ==> minutes == old(minutes) && hours == Hit(old(hours), w, clock, 7200)
      ensures !hourly ==> hours == old(hours) && minutes == Hit(old(minutes), w, clock, 120)
      ensures count == CountOf(if hourly then hours else minutes, w)
    {
      if hourly {
        hours := hours[w := Counter(CountOf(hours, w) + 1, clock + 7200.0)];
        count := hours[w].count;
      } else {
        minutes := minutes[w := Counter(CountOf(minutes, w) + 1, clock + 120.0)];
        count := minutes[w].count;
      }
    }

    /** check_request: the clock read gave `read`, the pipeline runs at `clock`. */
    method CheckRequest(read: Time, clock: Time, limits: Limits) returns (r: Outcome)
      modifies this
      ensures minutes == Hit(old(minutes), Window(read, MINUTE), clock, 120)
      ensures hours == Hit(old(hours), Window(read, HOUR), clock, 7200)
      ensures r == Decide(Seconds(read), CountOf(minutes, Window(read, MINUTE)),
                         CountOf(hours, Window(read, HOUR)), limits)
    {
      var now := Seconds(read);
      var minuteCount := Incr(now / 60, false, clock);
      var hourCount := Incr(now / 3600, true, clock);
      if minuteCount > limits.requestsPerMinute {
        return RateExceeded(60 - now % 60);
      }
      if hourCount > limits.hourlyBudget {
        return BudgetExceeded(3600 - now % 3600);
      }
      return Admitted;
    }
  }

  /** Waiting the seconds a refusal names reaches the start of the next window of the kind refused. */
  lemma RetryReachesNextWindow(read: Time, minuteCount: int, hourCount: int, limits: Limits)
    ensures match Decide(Seconds(read), minuteCount, hourCount, limits)
            case RateExceeded(s) => 0 < s <= 60 && Window(read + s as real, MINUTE) == Window(read, MINUTE) + 1
            case BudgetExceeded(s) => 0 < s <= 3600 && Window(read + s as real, HOUR) == Window(read, HOUR) + 1
            case Admitted => minuteCount <= limits.requestsPerMinute && hourCount <= limits.hourlyBudget
  {
    var now := Seconds(read);
    assert (read + (60 - now % 60) as real).Floor == now + (60 - now % 60);
    assert (read + (3600 - now % 3600) as real).Floor == now + (3600 - now % 3600);
  }

  // Many workers.

  /** pending: clock values of requests whose pipeline has not run; hits and admitted: the clock values
      of those that ran; moments: when each of the admitted ones ran. */
  datatype World = World(
    clock: Time,
    minutes: Counters,
    hours: Counters,
    pending: multiset<Time>,
    hits: seq<Time>,
    admitted: seq<Time>,
    moments: seq<Time>)

  datatype Step = ReadClock | RunPipeline(read: Time) | GiveUp(read: Time) | Advance(time: Time)

  /** A pipeline runs less than a minute after its clock read. */
  ghost predicate Enabled(w: World, step: Step) {
    match step
    case ReadClock => true
    case RunPipeline(read) => read in w.pending && w.clock < read + 60.0
    case GiveUp(read) => read in w.pending
    case Advance(time) => w.clock <= time
  }

  /** What the caller of check_request gets from the counts that its own increments return. */
  function OutcomeOf(w: World, read: Time, limits: Limits): Outcome {
    var minutes := Hit(w.minutes, Window(read, MINUTE), w.clock, 120);
    var hours := Hit(w.hours, Window(read, HOUR), w.clock, 7200);
    Decide(Seconds(read), CountOf(minutes, Window(read, MINUTE)), CountOf(hours, Window(read, HOUR)), limits)
  }

  function Next(w: World, step: Step, limits: Limits): World {
    match step
    case ReadClock => w.(pending := w.pending + multiset{w.clock})
    case RunPipeline(read) =>
      w.(minutes := Hit(w.minutes, Window(read, MINUTE), w.clock, 120),
         hours := Hit(w.hours, Window(read, HOUR), w.clock, 7200),
         pending := w.pending - multiset{read},
         hits := w.hits + [read],
         admitted := if OutcomeOf(w, read, limits) == Admitted then w.admitted + [read] else w.admitted,
         moments := if OutcomeOf(w, read, limits) == Admitted then w.moments + [w.clock] else w.moments)
    case GiveUp(read) => w.(pending := w.pending - multiset{read})
    case Advance(time) => w.(clock := time, minutes := Expire(w.minutes, time), hours := Expire(w.hours, time))
  }

  ghost predicate Start(w: World) {
    && w.minutes == map[] && w.hours == map[] && w.pending == multiset{}
    && w.hits == [] && w.admitted == [] && w.moments == []
  }

  /** How many of the clock values fall into a window. */
  function InWindow(times: seq<Time>, length: int, w: int): nat
    requires length > 0
  {
    if times == [] then 0
    else InWindow(times[..|times| - 1], length, w) + if Window(times[|times| - 1], length) == w then 1 else 0
  }

  lemma {:induction false} InWindowAppend(times: seq<Time>, t: Time, length: int, w: int)
    requires length > 0
    ensures InWindow(times + [t], length, w) == InWindow(times, length, w) + if Window(t, length) == w then 1 else 0
  {
    assert (times + [t])[..|times|] == times;
  }

  /** As long as a request of the window may still come, its counter has counted every one so far. */
  ghost predicate Counts(counters: Counters, clock: Time, hits: seq<Time>, length: int)
    requires length > 0
  {
    && (forall w :: clock < (length * (w + 2)) as real ==> CountOf(counters, w) == InWindow(hits, length, w))
    && (forall w :: w in counters ==> (length * (w + 2)) as real <= counters[w].expires)
  }

  ghost predicate WithinLimit(hits: seq<Time>, admitted: seq<Time>, length: int, limit: int)
    requires length > 0
  {
    forall w :: InWindow(admitted, length, w) <= InWindow(hits, length, w)
             && (InWindow(admitted, length, w) == 0 || InWindow(admitted, length, w) <= limit)
  }

  /** Each admission comes less than a minute after its clock read. */
  ghost predicate Timely(stamps: seq<Time>, moments: seq<Time>) {
    |stamps| == |moments| && forall i :: 0 <= i < |stamps| ==> stamps[i] <= moments[i] < stamps[i] + 60.0
  }

  ghost predicate Invariant(w: World, limits: Limits) {
    && Timely(w.admitted, w.moments)
    && (forall t :: t in w.pending ==> t <= w.clock)
    && Counts(w.minutes, w.clock, w.hits, MINUTE)
    && Counts(w.hours, w.clock, w.hits, HOUR)
    && WithinLimit(w.hits, w.admitted, MINUTE, limits.requestsPerMinute)
    && WithinLimit(w.hits, w.admitted, HOUR, limits.hourlyBudget)
  }

  /** A window's start, and the end of the window after it. */
  function Begin(w: int, length: int): Time {
    (length * w) as real
  }

  predicate IsLength(length: int) {
    length == MINUTE || length == HOUR
  }

  lemma WindowSpan(t: Time, length: int)
    requires IsLength(length)
    ensures Begin(Window(t, length), length) <= t < Begin(Window(t, length) + 1, length)
    ensures Begin(Window(t, length) + 1, length) + 60.0 <= Begin(Window(t, length) + 2, length)
    ensures Begin(Window(t, length) + 2, length) == Begin(Window(t, length), length) + (2 * length) as real
  {
  }

  /** A pipeline adds one to both the counter and the count, and the key outlives its window and the next. */
  lemma {:induction false} HitKeepsCounts(counters: Counters, clock: Time, hits: seq<Time>, read: Time, length: int)
    requires IsLength(length) && Counts(counters, clock, hits, length)
    requires read <= clock < read + 60.0
    ensures Counts(Hit(counters, Window(read, length), clock, 2 * length), clock, hits + [read], length)
    ensures CountOf(Hit(counters, Window(read, length), clock, 2 * length), Window(read, length))
         == InWindow(hits, length, Window(read, length)) + 1
  {
    var w0 := Window(read, length);
    WindowSpan(read, length);
    var after := Hit(counters, w0, clock, 2 * length);
    forall w | clock < Begin(w + 2, length)
      ensures CountOf(after, w) == InWindow(hits + [read], length, w)
    {
      InWindowAppend(hits, read, length, w);
    }
  }

  /** No counter expires while a request of its window may still come. */
  lemma ExpireKeepsCounts(counters: Counters, clock: Time, hits: seq<Time>, time: Time, length: int)
    requires IsLength(length) && Counts(counters, clock, hits, length) && clock <= time
    ensures Counts(Expire(counters, time), time, hits, length)
    ensures forall w :: w in counters && w !in Expire(counters, time) ==> Begin(w + 2, length) <= time
  {
    var after := Expire(counters, time);
    forall w | time < Begin(w + 2, length)
      ensures CountOf(after, w) == InWindow(hits, length, w)
    {
      assert CountOf(counters, w) == InWindow(hits, length, w);
    }
  }

  lemma {:induction false} HitKeepsLimit(hits: seq<Time>, admitted: seq<Time>, read: Time, length: int,
      limit: int, admit: bool)
    requires IsLength(length) && WithinLimit(hits, admitted, length, limit)
    requires admit ==> InWindow(hits, length, Window(read, length)) + 1 <= limit
    ensures WithinLimit(hits + [read], if admit then admitted + [read] else admitted, length, limit)
  {
    var after := if admit then admitted + [read] else admitted;
    forall w
      ensures InWindow(after, length, w) <= InWindow(hits + [read], length, w)
      ensures InWindow(after, length, w) == 0 || InWindow(after, length, w) <= limit
    {
      InWindowAppend(hits, read, length, w);
      InWindowAppend(admitted, read, length, w);
      assert InWindow(admitted, length, w) <= InWindow(hits, length, w);
    }
  }

  /** An admitted request is within both limits, counting itself. */
  lemma AdmittedFits(w: World, read: Time, limits: Limits)
    requires Invariant(w, limits) && Enabled(w, RunPipeline(read)) && OutcomeOf(w, read, limits) == Admitted
    ensures InWindow(w.hits, MINUTE, Window(read, MINUTE)) + 1 <= limits.requestsPerMinute
    ensures InWindow(w.hits, HOUR, Window(read, HOUR)) + 1 <= limits.hourlyBudget
  {
    HitKeepsCounts(w.minutes, w.clock, w.hits, read, MINUTE);
    HitKeepsCounts(w.hours, w.clock, w.hits, read, HOUR);
  }

  lemma PipelineKeepsCounts(w: World, read: Time, limits: Limits)
    requires Invariant(w, limits) && Enabled(w, RunPipeline(read))
    ensures var n := Next(w, RunPipeline(read), limits);
            Counts(n.minutes, n.clock, n.hits, MINUTE) && Counts(n.hours, n.clock, n.hits, HOUR)
  {
    HitKeepsCounts(w.minutes, w.clock, w.hits, read, MINUTE);
    HitKeepsCounts(w.hours, w.clock, w.hits, read, HOUR);
  }

  lemma PipelineKeepsInvariant(w: World, read: Time, limits: Limits)
    requires Invariant(w, limits) && Enabled(w, RunPipeline(read))
    ensures Invariant(Next(w, RunPipeline(read), limits), limits)
  {
    var admit := OutcomeOf(w, read, limits) == Admitted;
    PipelineKeepsCounts(w, read, limits);
    if admit {
      AdmittedFits(w, read, limits);
    }
    HitKeepsLimit(w.hits, w.admitted, read, MINUTE, limits.requestsPerMinute, admit);
    HitKeepsLimit(w.hits, w.admitted, read, HOUR, limits.hourlyBudget, admit);
  }

  lemma StepKeepsInvariant(w: World, step: Step, limits: Limits)
    requires Invariant(w, limits) && Enabled(w, step)
    ensures Invariant(Next(w, step, limits), limits)
  {
    match step
    case ReadClock =>
    case RunPipeline(read) => PipelineKeepsInvariant(w, read, limits);
    case GiveUp(read) =>
    case Advance(time) =>
      ExpireKeepsCounts(w.minutes, w.clock, w.hits, time, MINUTE);
      ExpireKeepsCounts(w.hours, w.clock, w.hits, time, HOUR);
  }

  /** A run of the system: any steps, in any order, each possible when it is taken. */
  ghost predicate IsRun(worlds: seq<World>, steps: seq<Step>, limits: Limits) {
    && |worlds| == |steps| + 1
    && Start(worlds[0])
    && forall i :: 0 <= i < |steps| ==>
         Enabled(worlds[i], steps[i]) && worlds[i + 1] == Next(worlds[i], steps[i], limits)
  }

  lemma {:induction false} RunKeepsInvariant(worlds: seq<World>, steps: seq<Step>, limits: Limits, i: nat)
    requires IsRun(worlds, steps, limits) && i < |worlds|
    ensures Invariant(worlds[i], limits)
  {
    if i == 0 {
    } else {
      RunKeepsInvariant(worlds, steps, limits, i - 1);
      StepKeepsInvariant(worlds[i - 1], steps[i - 1], limits);
    }
  }

  lemma StepKeepsCounters(w: World, step: Step, limits: Limits, window: int)
    requires Invariant(w, limits) && Enabled(w, step)
    ensures var n := Next(w, step, limits);
            && (window in w.minutes && window !in n.minutes ==> Begin(window + 2, MINUTE) <= n.clock)
            && (window in w.hours && window !in n.hours ==> Begin(window + 2, HOUR) <= n.clock)
  {
    if step.Advance? {
      ExpireKeepsCounts(w.minutes, w.clock, w.hits, step.time, MINUTE);
      ExpireKeepsCounts(w.hours, w.clock, w.hits, step.time, HOUR);
    }
  }

  /**
   In every run a counter goes away only a whole window after its own has ended, and until then it has
   counted every request of its window whose pipeline ran.
   */
  lemma {:induction false} CountersOutliveWindows(worlds: seq<World>, steps: seq<Step>, limits: Limits,
      i: nat, window: int)
    requires IsRun(worlds, steps, limits) && i < |steps|
    ensures window in worlds[i].minutes && window !in worlds[i + 1].minutes ==>
              Begin(window + 2, MINUTE) <= worlds[i + 1].clock
    ensures window in worlds[i].hours && window !in worlds[i + 1].hours ==>
              Begin(window + 2, HOUR) <= worlds[i + 1].clock
    ensures worlds[i].clock < Begin(window + 2, MINUTE) ==>
              CountOf(worlds[i].minutes, window) == InWindow(worlds[i].hits, MINUTE, window)
    ensures worlds[i].clock < Begin(window + 2, HOUR) ==>
              CountOf(worlds[i].hours, window) == InWindow(worlds[i].hits, HOUR, window)
  {
    RunKeepsInvariant(worlds, steps, limits, i);
    StepKeepsCounters(worlds[i], steps[i], limits, window);
  }

  /** The counts that the increments of a pipeline return are those of the requests so far, and itself. */
  lemma PipelineCounts(w: World, read: Time, limits: Limits)
    requires Invariant(w, limits) && Enabled(w, RunPipeline(read))
    ensures OutcomeOf(w, read, limits) ==
            Decide(Seconds(read), InWindow(w.hits, MINUTE, Window(read, MINUTE)) + 1,
                   InWindow(w.hits, HOUR, Window(read, HOUR)) + 1, limits)
  {
    HitKeepsCounts(w.minutes, w.clock, w.hits, read, MINUTE);
    HitKeepsCounts(w.hours, w.clock, w.hits, read, HOUR);
  }

  /**
   In every run a request is admitted if and only if it is within both limits, counting all requests of its
   minute and of its hour that came before it; else it is refused for the minute first, and the wait that it
   is told ends with the window that was exhausted.
   */
  lemma {:induction false} AdmittedExactly(worlds: seq<World>, steps: seq<Step>, limits: Limits, i: nat, read: Time)
    requires IsRun(worlds, steps, limits) && i < |steps| && steps[i] == RunPipeline(read)
    ensures var w, n := worlds[i], worlds[i + 1];
            var inMinute := InWindow(w.hits, MINUTE, Window(read, MINUTE)) + 1;
            var inHour := InWindow(w.hits, HOUR, Window(read, HOUR)) + 1;
            var outcome := OutcomeOf(w, read, limits);
            && n.hits == w.hits + [read]
            && (if inMinute <= limits.requestsPerMinute && inHour <= limits.hourlyBudget
                then n.admitted == w.admitted + [read] && n.moments == w.moments + [w.clock] && outcome.Admitted?
                else n.admitted == w.admitted && n.moments == w.moments)
            && (inMinute > limits.requestsPerMinute ==>
                  outcome.RateExceeded? && Seconds(read) + outcome.retryAfter == 60 * (Window(read, MINUTE) + 1))
            && (inMinute <= limits.requestsPerMinute && inHour > limits.hourlyBudget ==>
                  outcome.BudgetExceeded? && Seconds(read) + outcome.retryAfter == 3600 * (Window(read, HOUR) + 1))
  {
    RunKeepsInvariant(worlds, steps, limits, i);
    assert Enabled(worlds[i], steps[i]) && worlds[i + 1] == Next(worlds[i], steps[i], limits);
    PipelineCounts(worlds[i], read, limits);
  }

  /** Each clock minute admits at most requests_per_minute, each clock hour at most hourly_budget. */
  lemma {:induction false} WindowsBounded(worlds: seq<World>, steps: seq<Step>, limits: Limits,
      i: nat, minute: int, hour: int)
    requires IsRun(worlds, steps, limits) && i < |worlds|
    ensures var n := InWindow(worlds[i].admitted, MINUTE, minute); n == 0 || n <= limits.requestsPerMinute
    ensures var n := InWindow(worlds[i].admitted, HOUR, hour); n == 0 || n <= limits.hourlyBudget
  {
    RunKeepsInvariant(worlds, steps, limits, i);
  }

  /** How many of the clock values lie in the sixty seconds from `from` on. */
  function InStretch(times: seq<Time>, from: Time): nat {
    if times == [] then 0
    else
      var last := times[|times| - 1];
      InStretch(times[..|times| - 1], from) + if from <= last < from + 60.0 then 1 else 0
  }

  lemma {:induction false} StretchInTwoMinutes(times: seq<Time>, from: Time)
    ensures InStretch(times, from)
         <= InWindow(times, MINUTE, Window(from, MINUTE)) + InWindow(times, MINUTE, Window(from, MINUTE) + 1)
  {
    if times == [] {
    } else {
      StretchInTwoMinutes(times[..|times| - 1], from);
      var last := times[|times| - 1];
      WindowSpan(from, MINUTE);
      WindowSpan(last, MINUTE);
    }
  }

  /** By the clock reads of the requests, any sixty seconds in a row admit at most twice the minute limit. */
  lemma {:induction false} StretchBounded(worlds: seq<World>, steps: seq<Step>, limits: Limits, i: nat, from: Time)
    requires IsRun(worlds, steps, limits) && i < |worlds|
    ensures var n := InStretch(worlds[i].admitted, from); n == 0 || n <= 2 * limits.requestsPerMinute
  {
    var m := Window(from, MINUTE);
    StretchInTwoMinutes(worlds[i].admitted, from);
    WindowsBounded(worlds, steps, limits, i, m, 0);
    WindowsBounded(worlds, steps, limits, i, m + 1, 0);
  }

  lemma {:induction false} StretchInThreeMinutes(stamps: seq<Time>, moments: seq<Time>, from: Time)
    requires Timely(stamps, moments)
    ensures var m := Window(from, MINUTE);
            InStretch(moments, from) <=
            InWindow(stamps, MINUTE, m - 1) + InWindow(stamps, MINUTE, m) + InWindow(stamps, MINUTE, m + 1)
  {
    if stamps == [] {
    } else {
      var n := |stamps| - 1;
      StretchInThreeMinutes(stamps[..n], moments[..n], from);
      WindowSpan(from, MINUTE);
      WindowSpan(stamps[n], MINUTE);
    }
  }

  /** By the moment of admission, any sixty seconds in a row admit at most three times the minute limit. */
  lemma {:induction false} MomentsBounded(worlds: seq<World>, steps: seq<Step>, limits: Limits, i: nat, from: Time)
    requires IsRun(worlds, steps, limits) && i < |worlds|
    ensures |worlds[i].moments| == |worlds[i].admitted|
    ensures var n := InStretch(worlds[i].moments, from); n == 0 || n <= 3 * limits.requestsPerMinute
  {
    var m := Window(from, MINUTE);
    RunKeepsInvariant(worlds, steps, limits, i);
    StretchInThreeMinutes(worlds[i].admitted, worlds[i].moments, from);
    WindowsBounded(worlds, steps, limits, i, m - 1, 0);
    WindowsBounded(worlds, steps, limits, i, m, 0);
    WindowsBounded(worlds, steps, limits, i, m + 1, 0);
  }
}
