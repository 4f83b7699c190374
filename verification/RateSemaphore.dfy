/**
 The concurrency control of aceapi_ai/ratelimit.py: a token semaphore on a Redis sorted set, shared by
 many workers that may crash. The script is proved against a function; the system of workers is a
 state machine whose steps may interleave in any order.
 */
module RateSemaphore {
  import opened Wrappers

  const STALE_SLOT_GRACE_SECONDS := 60

  /** A uuid4: never drawn twice. */
  type Token = nat

  type Time = real

  datatype Limits = Limits(maxConcurrency: int, maxQueryTimeout: int) {
    function StaleAfter(): int {
      maxQueryTimeout + STALE_SLOT_GRACE_SECONDS
    }
  }

  /** The sorted set and its time of expiry; a set without members does not exist. */
  datatype Key = Key(scores: map<Token, Time>, expires: Option<Time>)

  const NO_KEY := Key(map[], None)

  /** What a command sees of the key at a time: nothing once the key has expired. */
  function Live(key: Key, clock: Time): Key {
    if key.expires.Some? && key.expires.value <= clock then NO_KEY else key
  }

  /** Removing members; a set that becomes empty is gone with its time to live. */
  function Keep(key: Key, scores: map<Token, Time>): Key {
    if scores == map[] then NO_KEY else key.(scores := scores)
  }

  function Younger(scores: map<Token, Time>, bound: Time): (r: map<Token, Time>)
    ensures forall t :: t in r <==> t in scores && scores[t] > bound
    ensures forall t :: t in r ==> r[t] == scores[t]
  {
    map t | t in scores && scores[t] > bound :: scores[t]
  }

  /** The acquire script at a server time, called with the timestamp `now`: the new key, and whether it granted. */
  function Acquire(key: Key, clock: Time, now: Time, limits: Limits, token: Token): (Key, bool) {
    var left := Younger(key.scores, now - limits.StaleAfter() as real);
    if |left| >= limits.maxConcurrency then (Keep(key, left), false)
    else (Live(Key(left[token := now], Some(clock + (2 * limits.StaleAfter()) as real)), clock), true)
  }

  function Release(key: Key, token: Token): Key {
    Keep(key, key.scores - {token})
  }

  /** The sorted set as the script changes it. */
  class SortedSet {
    var scores: map<Token, Time>
    var expires: Option<Time>

    constructor ()
      ensures Value() == NO_KEY
    {
      scores, expires := map[], None;
    }

    function Value(): Key
      reads this
    {
      Key(scores, expires)
    }

    method RemoveRangeByScore(bound: Time)
      modifies this
      ensures Value() == Keep(old(Value()), Younger(old(scores), bound))
    {
      scores := map t | t in scores && scores[t] > bound :: scores[t];
      assert scores == Younger(old(scores), bound);
      if scores == map[] {
        expires := None;
      }
    }

    method Add(score: Time, token: Token)
      modifies this`scores
      ensures scores == old(scores)[token := score]
    {
      scores := scores[token := score];
    }

    method Expire(clock: Time, seconds: int)
      modifies this
      ensures Value() == Live(Key(old(scores), Some(clock + seconds as real)), clock)
    {
      expires := Some(clock + seconds as real);
      if seconds as real <= 0.0 {
        scores, expires := map[], None;
      }
    }

    /** ACQUIRE_SCRIPT: reap, compare, register, in one go. */
    method AcquireScript(clock: Time, now: Time, limits: Limits, token: Token) returns (granted: bool)
      modifies this
      ensures (Value(), granted) == Acquire(old(Value()), clock, now, limits, token)
    {
      RemoveRangeByScore(now - limits.StaleAfter() as real);
      if |scores| >= limits.maxConcurrency {
        return false;
      }
      Add(now, token);
      Expire(clock, 2 * limits.StaleAfter());
      return true;
    }

    /** ZREM, the release of a slot. */
    method Remove(token: Token)
      modifies this
      ensures Value() == Release(old(Value()), token)
    {
      scores := scores - {token};
      if scores == map[] {
        expires := None;
      }
    }
  }

  /** An acquire is refused exactly when max_concurrency tokens are younger than stale_after by its timestamp. */
  lemma RefusedWhenFull(key: Key, clock: Time, now: Time, limits: Limits, token: Token)
    ensures !Acquire(key, clock, now, limits, token).1 <==>
            |set t | t in key.scores && key.scores[t] > now - limits.StaleAfter() as real| >= limits.maxConcurrency
  {
    var left := Younger(key.scores, now - limits.StaleAfter() as real);
    assert left.Keys == set t | t in key.scores && key.scores[t] > now - limits.StaleAfter() as real;
  }

  /** A leaked slot is free again for any acquire at least stale_after seconds after its timestamp. */
  lemma StaleSlotReaped(key: Key, clock: Time, now: Time, limits: Limits, token: Token, leaked: Token)
    requires leaked in key.scores && leaked != token
    ensures leaked in Acquire(key, clock, now, limits, token).0.scores ==>
              key.scores[leaked] + limits.StaleAfter() as real > now
    ensures key.scores[leaked] + limits.StaleAfter() as real <= now ==>
              (Acquire(key, clock, now, limits, token)
            == Acquire(key.(scores := key.scores - {leaked}), clock, now, limits, token))
  {
    var bound := now - limits.StaleAfter() as real;
    if key.scores[leaked] <= bound {
      assert Younger(key.scores, bound) == Younger(key.scores - {leaked}, bound);
    }
  }

  // Many workers.

  /**
   reading: timestamps read, script not run yet. running: queries in progress, with the timestamp they
   passed. releasing: queries that are over, ZREM not sent yet. unreleased: every token ever granted and
   not taken back by a ZREM.
   */
  datatype World = World(
    clock: Time,
    key: Key,
    reading: map<Token, Time>,
    running: map<Token, Time>,
    releasing: set<Token>,
    unreleased: map<Token, Time>,
    issued: set<Token>)

  datatype Step =
    | ReadClock(token: Token)
    | RunScript(token: Token, replyLost: bool)
    | EndQuery(token: Token)
    | SendRelease(token: Token, arrives: bool)
    | Crash(token: Token)
    | Advance(time: Time)

  /** A query is over less than stale_after seconds after the timestamp it passed. */
  predicate InTime(stamp: Time, clock: Time, limits: Limits) {
    clock < stamp + limits.StaleAfter() as real
  }

  ghost predicate Enabled(w: World, step: Step, limits: Limits) {
    match step
    case ReadClock(token) => token !in w.issued
    case RunScript(token, replyLost) =>
      && token in w.reading
      && (Acquire(w.key, w.clock, w.reading[token], limits, token).1 && !replyLost ==>
            InTime(w.reading[token], w.clock, limits))
    case EndQuery(token) => token in w.running
    case SendRelease(token, arrives) => token in w.releasing
    case Crash(token) => token in w.issued
    case Advance(time) =>
      && w.clock <= time
      && forall t :: t in w.running ==> InTime(w.running[t], time, limits)
  }

  /** The script may run and its reply get lost: the caller then fails closed, and the token is leaked. */
  function Next(w: World, step: Step, limits: Limits): World
    requires Enabled(w, step, limits)
  {
    match step
    case ReadClock(token) => w.(reading := w.reading[token := w.clock], issued := w.issued + {token})
    case RunScript(token, replyLost) =>
      var (key, granted) := Acquire(w.key, w.clock, w.reading[token], limits, token);
      w.(key := key,
         reading := w.reading - {token},
         running := if granted && !replyLost then w.running[token := w.reading[token]] else w.running,
         unreleased := if granted then w.unreleased[token := w.reading[token]] else w.unreleased)
    case EndQuery(token) => w.(running := w.running - {token}, releasing := w.releasing + {token})
    case SendRelease(token, arrives) =>
      w.(releasing := w.releasing - {token},
         key := if arrives then Release(w.key, token) else w.key,
         unreleased := if arrives then w.unreleased - {token} else w.unreleased)
    case Crash(token) =>
      w.(reading := w.reading - {token}, running := w.running - {token}, releasing := w.releasing - {token})
    case Advance(time) => w.(clock := time, key := Live(w.key, time))
  }

  ghost predicate Start(w: World) {
    && w.key == NO_KEY && w.reading == map[] && w.running == map[]
    && w.releasing == {} && w.unreleased == map[] && w.issued == {}
  }

  /** The key at a time: only granted tokens, none from the future, and never expired before it is stale. */
  ghost predicate KeyInvariant(key: Key, clock: Time, limits: Limits, unreleased: map<Token, Time>) {
    && (forall t :: t in key.scores ==> t in unreleased && unreleased[t] == key.scores[t])
    && (forall t :: t in key.scores ==> key.scores[t] <= clock)
    && (key.scores != map[] ==> key.expires.Some? && |key.scores| <= limits.maxConcurrency)
    && (key.expires.Some? ==> forall t :: t in key.scores ==>
          key.scores[t] + limits.StaleAfter() as real + limits.StaleAfter() as real <= key.expires.value)
  }

  ghost predicate WorkersInvariant(w: World, limits: Limits) {
    && w.reading.Keys + w.running.Keys + w.releasing + w.unreleased.Keys <= w.issued
    && w.reading.Keys !! w.running.Keys && w.reading.Keys !! w.releasing && w.reading.Keys !! w.unreleased.Keys
    && w.running.Keys !! w.releasing
    && (forall t :: t in w.reading ==> w.reading[t] <= w.clock)
    && (forall t :: t in w.running ==> InTime(w.running[t], w.clock, limits))
  }

  /** No running query has lost its token. */
  ghost predicate Registered(running: map<Token, Time>, key: Key) {
    forall t :: t in running ==> t in key.scores && key.scores[t] == running[t]
  }

  ghost predicate Invariant(w: World, limits: Limits) {
    WorkersInvariant(w, limits) && KeyInvariant(w.key, w.clock, limits, w.unreleased) && Registered(w.running, w.key)
  }

  lemma SubsetSize<T>(a: set<T>, b: set<T>)
    requires a <= b
    ensures |a| <= |b|
  {
    assert b == a + (b - a);
  }

  lemma YoungerSize(scores: map<Token, Time>, bound: Time)
    ensures |Younger(scores, bound)| <= |scores|
  {
    SubsetSize(Younger(scores, bound).Keys, scores.Keys);
    assert |Younger(scores, bound)| == |Younger(scores, bound).Keys| && |scores| == |scores.Keys|;
  }

  /** Tokens whose query may still run stay, with their timestamps. */
  ghost predicate KeepsLive(before: map<Token, Time>, after: map<Token, Time>, clock: Time, limits: Limits) {
    forall t :: t in before && InTime(before[t], clock, limits) ==> t in after && after[t] == before[t]
  }

  lemma RefusedKeeps(key: Key, clock: Time, now: Time, limits: Limits, token: Token, unreleased: map<Token, Time>)
    requires KeyInvariant(key, clock, limits, unreleased) && now <= clock
    requires !Acquire(key, clock, now, limits, token).1
    ensures KeyInvariant(Acquire(key, clock, now, limits, token).0, clock, limits, unreleased)
  {
    YoungerSize(key.scores, now - limits.StaleAfter() as real);
  }

  lemma GrantedSize(key: Key, now: Time, limits: Limits, token: Token)
    requires |Younger(key.scores, now - limits.StaleAfter() as real)| < limits.maxConcurrency
    ensures |Younger(key.scores, now - limits.StaleAfter() as real)[token := now]| <= limits.maxConcurrency
  {
    var left := Younger(key.scores, now - limits.StaleAfter() as real);
    assert left[token := now].Keys == left.Keys + {token};
    assert |left| == |left.Keys| && |left[token := now]| == |left[token := now].Keys|;
  }

  lemma GrantedKeeps(key: Key, clock: Time, now: Time, limits: Limits, token: Token, unreleased: map<Token, Time>)
    requires KeyInvariant(key, clock, limits, unreleased) && token !in unreleased && now <= clock
    requires Acquire(key, clock, now, limits, token).1
    ensures KeyInvariant(Acquire(key, clock, now, limits, token).0, clock, limits, unreleased[token := now])
  {
    assert (2 * limits.StaleAfter()) as real == limits.StaleAfter() as real + limits.StaleAfter() as real;
    GrantedSize(key, now, limits, token);
  }

  /** The script keeps the key in order; a token is added to it only when the slot is granted. */
  lemma AcquireKeeps(key: Key, clock: Time, now: Time, limits: Limits, token: Token, unreleased: map<Token, Time>)
    requires KeyInvariant(key, clock, limits, unreleased) && token !in unreleased && now <= clock
    ensures var (after, granted) := Acquire(key, clock, now, limits, token);
            KeyInvariant(after, clock, limits, if granted then unreleased[token := now] else unreleased)
  {
    if Acquire(key, clock, now, limits, token).1 {
      GrantedKeeps(key, clock, now, limits, token, unreleased);
    } else {
      RefusedKeeps(key, clock, now, limits, token, unreleased);
    }
  }

  /** The script takes no slot from a query that may still run, and gives one to its caller when it grants. */
  lemma AcquireKeepsLive(key: Key, clock: Time, now: Time, limits: Limits, token: Token)
    requires token !in key.scores && now <= clock && (forall t :: t in key.scores ==> key.scores[t] <= clock)
    ensures var (after, granted) := Acquire(key, clock, now, limits, token);
            KeepsLive(if granted then key.scores[token := now] else key.scores, after.scores, clock, limits)
  {
    assert (2 * limits.StaleAfter()) as real == limits.StaleAfter() as real + limits.StaleAfter() as real;
  }

  lemma ReleaseKeeps(key: Key, clock: Time, limits: Limits, token: Token, unreleased: map<Token, Time>)
    requires KeyInvariant(key, clock, limits, unreleased)
    ensures KeyInvariant(Release(key, token), clock, limits, unreleased - {token})
    ensures forall t :: t in key.scores && t != token ==>
              t in Release(key, token).scores && Release(key, token).scores[t] == key.scores[t]
  {
    var left := key.scores - {token};
    SubsetSize(left.Keys, key.scores.Keys);
    assert |left| == |left.Keys| && |key.scores| == |key.scores.Keys|;
  }

  /** Expiry of the key removes only tokens that are stale already. */
  lemma ExpiryRemovesStale(key: Key, clock: Time, time: Time, limits: Limits, unreleased: map<Token, Time>)
    requires KeyInvariant(key, clock, limits, unreleased) && clock <= time
    ensures KeyInvariant(Live(key, time), time, limits, unreleased)
    ensures forall t :: t in key.scores && t !in Live(key, time).scores ==> !InTime(key.scores[t], time, limits)
  {
  }

  lemma ScriptKeepsWorkers(w: World, token: Token, replyLost: bool, limits: Limits)
    requires WorkersInvariant(w, limits) && Enabled(w, RunScript(token, replyLost), limits)
    ensures WorkersInvariant(Next(w, RunScript(token, replyLost), limits), limits)
  {
  }

  lemma ScriptKeepsKey(w: World, token: Token, replyLost: bool, limits: Limits)
    requires Invariant(w, limits) && Enabled(w, RunScript(token, replyLost), limits)
    ensures var n := Next(w, RunScript(token, replyLost), limits);
            KeyInvariant(n.key, n.clock, limits, n.unreleased)
  {
    AcquireKeeps(w.key, w.clock, w.reading[token], limits, token, w.unreleased);
  }

  lemma ScriptKeepsRegistered(w: World, token: Token, replyLost: bool, limits: Limits)
    requires Invariant(w, limits) && Enabled(w, RunScript(token, replyLost), limits)
    ensures var n := Next(w, RunScript(token, replyLost), limits); Registered(n.running, n.key)
  {
    var now := w.reading[token];
    AcquireKeepsLive(w.key, w.clock, now, limits, token);
    var (after, granted) := Acquire(w.key, w.clock, now, limits, token);
    LiveRegistered(w.running, w.key.scores, after, w.clock, limits, granted, replyLost, token, now);
  }

  lemma LiveRegistered(
      running: map<Token, Time>, before: map<Token, Time>, key: Key, clock: Time, limits: Limits,
      granted: bool, replyLost: bool, token: Token, now: Time)
    requires KeepsLive(if granted then before[token := now] else before, key.scores, clock, limits)
    requires token !in before && forall t :: t in running ==> t in before && before[t] == running[t]
    requires forall t :: t in running ==> InTime(running[t], clock, limits)
    requires granted && !replyLost ==> InTime(now, clock, limits)
    ensures Registered(if granted && !replyLost then running[token := now] else running, key)
  {
    var held := if granted then before[token := now] else before;
    var holders := if granted && !replyLost then running[token := now] else running;
    forall t | t in holders ensures t in key.scores && key.scores[t] == holders[t] {
      assert t in held && held[t] == holders[t] && InTime(held[t], clock, limits);
    }
  }

  lemma ReleaseKeepsWorkers(w: World, token: Token, arrives: bool, limits: Limits)
    requires WorkersInvariant(w, limits) && token in w.releasing
    ensures WorkersInvariant(Next(w, SendRelease(token, arrives), limits), limits)
  {
  }

  lemma StepKeepsWorkers(w: World, step: Step, limits: Limits)
    requires WorkersInvariant(w, limits) && Enabled(w, step, limits)
    ensures WorkersInvariant(Next(w, step, limits), limits)
  {
    match step
    case RunScript(token, replyLost) => ScriptKeepsWorkers(w, token, replyLost, limits);
    case SendRelease(token, arrives) => ReleaseKeepsWorkers(w, token, arrives, limits);
    case _ =>
  }

  lemma StepKeepsKey(w: World, step: Step, limits: Limits)
    requires Invariant(w, limits) && Enabled(w, step, limits)
    ensures var n := Next(w, step, limits); KeyInvariant(n.key, n.clock, limits, n.unreleased)
  {
    match step
    case RunScript(token, replyLost) => ScriptKeepsKey(w, token, replyLost, limits);
    case SendRelease(token, arrives) => ReleaseKeeps(w.key, w.clock, limits, token, w.unreleased);
    case Advance(time) => ExpiryRemovesStale(w.key, w.clock, time, limits, w.unreleased);
    case _ =>
  }

  lemma StepKeepsRegistered(w: World, step: Step, limits: Limits)
    requires Invariant(w, limits) && Enabled(w, step, limits)
    ensures var n := Next(w, step, limits); Registered(n.running, n.key)
  {
    match step
    case RunScript(token, replyLost) => ScriptKeepsRegistered(w, token, replyLost, limits);
    case SendRelease(token, arrives) => ReleaseKeeps(w.key, w.clock, limits, token, w.unreleased);
    case Advance(time) => ExpiryRemovesStale(w.key, w.clock, time, limits, w.unreleased);
    case _ =>
  }

  lemma StepKeepsInvariant(w: World, step: Step, limits: Limits)
    requires Invariant(w, limits) && Enabled(w, step, limits)
    ensures Invariant(Next(w, step, limits), limits)
  {
    StepKeepsWorkers(w, step, limits);
    StepKeepsKey(w, step, limits);
    StepKeepsRegistered(w, step, limits);
  }

  /** A run of the system: any steps, in any order, each possible when it is taken. */
  ghost predicate IsRun(worlds: seq<World>, steps: seq<Step>, limits: Limits) {
    && |worlds| == |steps| + 1
    && Start(worlds[0])
    && forall i :: 0 <= i < |steps| ==>
         Enabled(worlds[i], steps[i], limits) && worlds[i + 1] == Next(worlds[i], steps[i], limits)
  }

  lemma {:induction false} RunKeepsInvariant(worlds: seq<World>, steps: seq<Step>, limits: Limits, i: nat)
    requires IsRun(worlds, steps, limits) && i < |worlds|
    ensures Invariant(worlds[i], limits)
  {
    if i == 0 {
    } else {
      RunKeepsInvariant(worlds, steps, limits, i - 1);
      StepKeepsInvariant(worlds[i - 1], steps[i - 1], limits);
    }
  }

  /**
   Safety: whatever the interleaving, the crashes and the lost replies and releases, the number of
   queries that run at once never exceeds max_concurrency.
   */
  lemma ConcurrencyBounded(worlds: seq<World>, steps: seq<Step>, limits: Limits, i: nat)
    requires IsRun(worlds, steps, limits) && i < |worlds|
    ensures worlds[i].running == map[] || |worlds[i].running| <= limits.maxConcurrency
  {
    RunKeepsInvariant(worlds, steps, limits, i);
    var w := worlds[i];
    SubsetSize(w.running.Keys, w.key.scores.Keys);
    assert |w.running| == |w.running.Keys| && |w.key.scores| == |w.key.scores.Keys|;
    if w.running != map[] {
      var t :| t in w.running;
      assert t in w.key.scores;
    }
  }

  /** No running query's token is ever reaped, released by another or expired: it holds its slot to its end. */
  lemma RunningHoldsSlot(worlds: seq<World>, steps: seq<Step>, limits: Limits, i: nat, token: Token)
    requires IsRun(worlds, steps, limits) && i < |worlds| && token in worlds[i].running
    ensures token in worlds[i].key.scores && worlds[i].key.scores[token] == worlds[i].running[token]
  {
    RunKeepsInvariant(worlds, steps, limits, i);
  }

  /** What can cost a granted token its ZREM: a lost reply, a lost release or a crash. */
  ghost predicate Leaks(step: Step, token: Token) {
    step == RunScript(token, true) || step == SendRelease(token, false) || step == Crash(token)
  }

  ghost predicate Leaked(steps: seq<Step>, token: Token) {
    exists i :: 0 <= i < |steps| && Leaks(steps[i], token)
  }

  /** Every token that no ZREM took back belongs to a query that runs or is about to be released, or was leaked. */
  ghost predicate Accounted(w: World, steps: seq<Step>) {
    forall t :: t in w.unreleased ==> t in w.running || t in w.releasing || Leaked(steps, t)
  }

  lemma StepKeepsAccounted(w: World, steps: seq<Step>, step: Step, limits: Limits)
    requires Accounted(w, steps) && Enabled(w, step, limits)
    ensures Accounted(Next(w, step, limits), steps + [step])
  {
    var after := Next(w, step, limits);
    var all := steps + [step];
    forall t | t in after.unreleased ensures t in after.running || t in after.releasing || Leaked(all, t) {
      assert all[|steps|] == step;
      if i: nat :| i < |steps| && Leaks(steps[i], t) {
        assert all[i] == steps[i];
      }
    }
  }

  /** An ended query comes to be released: only leaks leave a token behind. */
  lemma {:induction false} RunAccounts(worlds: seq<World>, steps: seq<Step>, limits: Limits, i: nat)
    requires IsRun(worlds, steps, limits) && i < |worlds|
    ensures Accounted(worlds[i], steps[..i])
  {
    if i == 0 {
    } else {
      RunAccounts(worlds, steps, limits, i - 1);
      StepKeepsAccounted(worlds[i - 1], steps[..i - 1], steps[i - 1], limits);
      assert steps[..i - 1] + [steps[i - 1]] == steps[..i];
    }
  }

  /**
   A refusal, in any run: max_concurrency tokens are younger than stale_after, and each of them runs, is
   about to be released, or was leaked before.
   */
  lemma RefusalJustified(worlds: seq<World>, steps: seq<Step>, limits: Limits, i: nat, token: Token, replyLost: bool)
    requires IsRun(worlds, steps, limits) && i < |steps| && steps[i] == RunScript(token, replyLost)
    ensures var w := worlds[i];
            var now := w.reading[token];
            !Acquire(w.key, w.clock, now, limits, token).1 ==>
              |set t | t in w.unreleased && InTime(w.unreleased[t], now, limits)
                && (t in w.running || t in w.releasing || Leaked(steps[..i], t))| >= limits.maxConcurrency
  {
    RunKeepsInvariant(worlds, steps, limits, i);
    RunAccounts(worlds, steps, limits, i);
    var w := worlds[i];
    var now := w.reading[token];
    RefusedWhenFull(w.key, w.clock, now, limits, token);
    SubsetSize(set t | t in w.key.scores && w.key.scores[t] > now - limits.StaleAfter() as real,
               set t | t in w.unreleased && InTime(w.unreleased[t], now, limits)
                 && (t in w.running || t in w.releasing || Leaked(steps[..i], t)));
  }

  /** The young tokens are those of the running queries. */
  lemma YoungAreRunning(w: World, steps: seq<Step>, limits: Limits, now: Time)
    requires Invariant(w, limits) && Accounted(w, steps) && now <= w.clock
    requires w.releasing == {} && forall t :: !Leaked(steps, t)
    ensures (set t | t in w.key.scores && w.key.scores[t] > now - limits.StaleAfter() as real) == w.running.Keys
  {
    var young := set t | t in w.key.scores && w.key.scores[t] > now - limits.StaleAfter() as real;
    forall t ensures t in young <==> t in w.running.Keys {
      if t in w.running {
        assert InTime(w.running[t], w.clock, limits);
      }
    }
  }

  lemma RefusedIn(w: World, steps: seq<Step>, limits: Limits, now: Time, token: Token)
    requires Invariant(w, limits) && Accounted(w, steps) && now <= w.clock
    requires w.releasing == {} && forall t :: !Leaked(steps, t)
    ensures !Acquire(w.key, w.clock, now, limits, token).1 <==> |w.running| >= limits.maxConcurrency
  {
    RefusedWhenFull(w.key, w.clock, now, limits, token);
    YoungAreRunning(w, steps, limits, now);
    assert |w.running| == |w.running.Keys|;
  }

  /** Where nothing has leaked and no release is under way, a caller is refused exactly when all slots run. */
  lemma RefusedExactly(worlds: seq<World>, steps: seq<Step>, limits: Limits, i: nat, token: Token, replyLost: bool)
    requires IsRun(worlds, steps, limits) && i < |steps| && steps[i] == RunScript(token, replyLost)
    requires worlds[i].releasing == {} && forall t :: !Leaked(steps[..i], t)
    ensures var w := worlds[i];
            !Acquire(w.key, w.clock, w.reading[token], limits, token).1 <==> |w.running| >= limits.maxConcurrency
  {
    RunKeepsInvariant(worlds, steps, limits, i);
    RunAccounts(worlds, steps, limits, i);
    RefusedIn(worlds[i], steps[..i], limits, worlds[i].reading[token], token);
  }

  /** When time passes, only stale tokens expire with the key. */
  lemma ExpiryJustified(worlds: seq<World>, steps: seq<Step>, limits: Limits, i: nat, time: Time, token: Token)
    requires IsRun(worlds, steps, limits) && i < |steps| && steps[i] == Advance(time)
    requires token in worlds[i].key.scores && token !in worlds[i + 1].key.scores
    ensures worlds[i].key.scores[token] + limits.StaleAfter() as real <= time
  {
    RunKeepsInvariant(worlds, steps, limits, i);
    ExpiryRemovesStale(worlds[i].key, worlds[i].clock, time, limits, worlds[i].unreleased);
  }
}
