// Waiting for the server to plan a scan: submitted plans are asked for again after a sleep that
// honours Retry-After or backs off, until a terminal status, an error, an interrupt or the budget
// ends it; on any of the last three the abandoned plan is cancelled.
module PollLoop {

  import opened Wrappers

  const BUDGET := 300000
  const MIN_SLEEP := 100
  const MAX_BACKOFF := 1000
  const MAX_RETRY_AFTER := 60000

  datatype Status = Completed | Submitted | PlanFailed | Cancelled | Unknown

  /** A planning reply: its status, its plan id (empty if absent), and the Retry-After seconds of its header. */
  datatype Reply = Reply(status: Status, planId: string, retryAfter: Option<int>)

  datatype Fetch = FetchThrows | Fetches(reply: Reply)

  datatype Outcome = Planned(reply: Reply) | TimedOut | InterruptedSleep | FetchFailed

  function Min(a: int, b: int): (r: int) {
    if a < b then a else b
  }

  function Max(a: int, b: int): (r: int) {
    if a > b then a else b
  }

  /** Retry-After in milliseconds, or -1 if absent or negative. */
  function RetryAfterMs(retryAfter: Option<int>): (r: int) {
    if retryAfter.Some? && retryAfter.value >= 0 then retryAfter.value * 1000 else -1
  }

  function Sum(times: seq<nat>): (r: nat) {
    if times == [] then 0 else Sum(times[..|times| - 1]) + times[|times| - 1]
  }

  lemma SumSnoc(times: seq<nat>, time: nat)
    ensures Sum(times + [time]) == Sum(times) + time
  {
    assert (times + [time])[..|times|] == times;
  }

  // ---------- Bounds ----------

  /** Each sleep is within its clamp, and a whole number of slices. */
  predicate Clamped(sleeps: seq<nat>) {
    forall sleep :: sleep in sleeps ==> MIN_SLEEP <= sleep <= MAX_RETRY_AFTER && sleep % MIN_SLEEP == 0
  }

  /** The budget was not used up before the last sleep. */
  predicate WithinBudget(sleeps: seq<nat>) {
    sleeps != [] ==> Sum(sleeps[..|sleeps| - 1]) < BUDGET
  }

  lemma ClampedPrefix(sleeps: seq<nat>)
    requires Clamped(sleeps) && sleeps != []
    ensures Clamped(sleeps[..|sleeps| - 1])
  {
    var prefix := sleeps[..|sleeps| - 1];
    forall sleep | sleep in prefix ensures sleep in sleeps {
      var i :| 0 <= i < |prefix| && prefix[i] == sleep;
      assert sleeps[i] == sleep;
    }
  }

  lemma {:induction false} SumOfClamped(sleeps: seq<nat>)
    requires Clamped(sleeps)
    ensures MIN_SLEEP * |sleeps| <= Sum(sleeps) && Sum(sleeps) % MIN_SLEEP == 0
  {
    if sleeps != [] {
      assert sleeps[|sleeps| - 1] in sleeps;
      ClampedPrefix(sleeps);
      SumOfClamped(sleeps[..|sleeps| - 1]);
    }
  }

  /** All sleeps are whole slices, so the last one starts at 299900 ms at the latest and ends by 359900 ms. */
  lemma WaitIsBounded(sleeps: seq<nat>)
    requires Clamped(sleeps) && WithinBudget(sleeps)
    ensures Sum(sleeps) <= 359900 && |sleeps| <= 3000
  {
    if sleeps != [] {
      assert sleeps[|sleeps| - 1] in sleeps;
      ClampedPrefix(sleeps);
      SumOfClamped(sleeps[..|sleeps| - 1]);
    }
  }

  /** The n-th backoff, counting from 0: 100 ms, doubled each time up to a second. */
  function Backoff(n: nat): (r: nat) {
    if n == 0 then MIN_SLEEP else Min(Backoff(n - 1) * 2, MAX_BACKOFF)
  }

  lemma {:induction false} BackoffValues(n: nat)
    ensures Backoff(n) == if n == 0 then 100 else if n == 1 then 200 else if n == 2 then 400 else if n == 3 then 800 else 1000
  {
    if n > 0 {
      BackoffValues(n - 1);
    }
  }

  predicate BacksOff(sleeps: seq<nat>) {
    forall i :: 0 <= i < |sleeps| ==> sleeps[i] == Backoff(i)
  }

  lemma {:induction false} SumOfBackoffs(sleeps: seq<nat>)
    requires BacksOff(sleeps)
    ensures |sleeps| >= 4 ==> Sum(sleeps) == 1500 + 1000 * (|sleeps| - 4)
    ensures |sleeps| < 4 ==> Sum(sleeps) == [0, 100, 300, 700][|sleeps|]
  {
    if sleeps != [] {
      BackoffValues(|sleeps| - 1);
      SumOfBackoffs(sleeps[..|sleeps| - 1]);
    }
  }

  lemma BackoffIsBounded(sleeps: seq<nat>)
    requires BacksOff(sleeps) && WithinBudget(sleeps)
    ensures |sleeps| <= 303 && Sum(sleeps) <= 300500
    ensures Sum(sleeps) >= BUDGET ==> |sleeps| == 303 && Sum(sleeps) == 300500
  {
    SumOfBackoffs(sleeps);
    if sleeps != [] {
      SumOfBackoffs(sleeps[..|sleeps| - 1]);
    }
  }

  predicate AtOnce(sleeps: seq<nat>) {
    forall i :: 0 <= i < |sleeps| ==> sleeps[i] == MIN_SLEEP
  }

  lemma {:induction false} SumOfShortest(sleeps: seq<nat>)
    requires AtOnce(sleeps)
    ensures Sum(sleeps) == MIN_SLEEP * |sleeps|
  {
    if sleeps != [] {
      SumOfShortest(sleeps[..|sleeps| - 1]);
    }
  }

  // ---------- The loop ----------

  /** Sleeps in slices of at most 100 ms, looking for an interrupt before each. */
  method SleepInSlices(time: nat, interrupts: nat -> bool, from: nat) returns (slices: seq<nat>, interrupted: bool)
    ensures forall slice :: slice in slices ==> 0 < slice <= MIN_SLEEP
    ensures interrupted ==> Sum(slices) < time && interrupts(from + |slices|)
    ensures !interrupted ==> Sum(slices) == time
    ensures forall i: nat :: from <= i < from + |slices| ==> !interrupts(i)
    ensures if interrupted then MIN_SLEEP * |slices| < time else time <= MIN_SLEEP * |slices| < time + MIN_SLEEP
  {
    slices := [];
    var slept := 0;
    while slept < time
      invariant forall slice :: slice in slices ==> 0 < slice <= MIN_SLEEP
      invariant Sum(slices) == Min(slept, time) && slept == MIN_SLEEP * |slices| < time + MIN_SLEEP
      invariant forall i: nat :: from <= i < from + |slices| ==> !interrupts(i)
      decreases time - slept
    {
      if interrupts(from + |slices|) {
        return slices, true;
      }
      var slice := Min(MIN_SLEEP, time - slept);
      SumSnoc(slices, slice);
      slices := slices + [slice];
      slept := slept + MIN_SLEEP;
    }
    interrupted := false;
  }

  /** Cancelling asks the server to drop a plan, if there is one to name. */
  function Cancel(planId: string): (r: seq<string>) {
    if planId == "" then [] else [planId]
  }

  /** Every reply of the first n fetches that is still submitted repeats the plan id. */
  predicate RepeatsId(first: Reply, fetches: nat -> Fetch, n: nat) {
    forall i: nat :: i < n && fetches(i).Fetches? && fetches(i).reply.status.Submitted? ==>
                       fetches(i).reply.planId == first.planId
  }

  /** Every reply of the first n fetches carries this Retry-After, and so does the first reply. */
  predicate AlwaysSays(first: Reply, fetches: nat -> Fetch, n: nat, retryAfter: Option<int>) {
    && first.retryAfter == retryAfter
    && forall i: nat :: i < n && fetches(i).Fetches? ==> fetches(i).reply.retryAfter == retryAfter
  }

  /** The reply that the first n fetches, after the first reply, come to; one that throws tells nothing. */
  function Latest(first: Reply, fetches: nat -> Fetch, n: nat): (r: Reply) {
    if n == 0 then first
    else if fetches(n - 1).Fetches? then fetches(n - 1).reply
    else Latest(first, fetches, n - 1)
  }

  /** It is the reply of the last fetch that brought one, or the first reply if none did. */
  lemma {:induction false} LatestIsLastTold(first: Reply, fetches: nat -> Fetch, n: nat)
    ensures || (Latest(first, fetches, n) == first && forall i: nat :: i < n ==> !fetches(i).Fetches?)
            || exists k: nat :: k < n && fetches(k).Fetches? && Latest(first, fetches, n) == fetches(k).reply
                             && forall i: nat :: k < i < n ==> !fetches(i).Fetches?
  {
    if n > 0 && !fetches(n - 1).Fetches? {
      LatestIsLastTold(first, fetches, n - 1);
    }
  }

  /** The first n fetches all returned, and all but perhaps the last with a plan still submitted. */
  predicate Pending(fetches: nat -> Fetch, n: nat) {
    && (forall i: nat :: i < n ==> fetches(i).Fetches?)
    && forall i: nat :: i < n - 1 ==> fetches(i).reply.status.Submitted?
  }

  lemma LatestSays(first: Reply, fetches: nat -> Fetch, n: nat, retryAfter: Option<int>)
    requires Pending(fetches, n) && AlwaysSays(first, fetches, n, retryAfter)
    ensures Latest(first, fetches, n).retryAfter == retryAfter
  {
  }

  lemma SaysSoFar(first: Reply, fetches: nat -> Fetch, n: nat)
    ensures forall retryAfter :: AlwaysSays(first, fetches, n + 1, retryAfter) ==> AlwaysSays(first, fetches, n, retryAfter)
  {
  }

  /** While submitted replies repeat the plan id, it is the one last told after any number of them. */
  lemma {:induction false} LatestRepeats(first: Reply, fetches: nat -> Fetch, n: nat)
    requires RepeatsId(first, fetches, n)
    requires forall i: nat :: i < n ==> !fetches(i).Fetches? || fetches(i).reply.status.Submitted?
    ensures Latest(first, fetches, n).planId == first.planId
  {
    if n > 0 && !fetches(n - 1).Fetches? {
      LatestRepeats(first, fetches, n - 1);
    }
  }

  /** How long to sleep: what the server asks for, or the backoff, within the clamp. */
  function SleepFor(retryAfter: Option<int>, backoff: nat): (sleep: nat)
    requires Clamped([backoff]) && backoff <= MAX_BACKOFF
    ensures Clamped([sleep]) && MIN_SLEEP <= sleep
    ensures retryAfter.None? || retryAfter.value < 0 ==> sleep == backoff
    ensures retryAfter == Some(0) ==> sleep == 100
    ensures retryAfter.Some? && 1 <= retryAfter.value <= 60 ==> sleep == retryAfter.value * 1000
    ensures retryAfter.Some? && retryAfter.value > 60 ==> sleep == 60000
  {
    assert backoff in [backoff];
    var asked := RetryAfterMs(retryAfter);
    Min(Max(if asked >= 0 then asked else backoff, MIN_SLEEP), MAX_RETRY_AFTER)
  }

  /** The sleep before fetch i: what the last reply by then asks for, or the i-th backoff. */
  function SleepBefore(first: Reply, fetches: nat -> Fetch, i: nat): (sleep: nat) {
    BackoffIsClamped(i);
    SleepFor(Latest(first, fetches, i).retryAfter, Backoff(i))
  }

  /** One more sleep keeps what the sleeps so far are known by. */
  lemma OneMoreSleep(sleeps: seq<nat>, sleep: nat)
    requires Clamped(sleeps) && Sum(sleeps) < BUDGET && Clamped([sleep])
    ensures Clamped(sleeps + [sleep]) && WithinBudget(sleeps + [sleep])
    ensures Sum(sleeps + [sleep]) == Sum(sleeps) + sleep
    ensures BacksOff(sleeps) && sleep == Backoff(|sleeps|) ==> BacksOff(sleeps + [sleep])
    ensures AtOnce(sleeps) && sleep == MIN_SLEEP ==> AtOnce(sleeps + [sleep])
  {
    SumSnoc(sleeps, sleep);
    assert (sleeps + [sleep])[..|sleeps|] == sleeps;
  }

  lemma NextBackoff(n: nat)
    ensures Backoff(n + 1) == Min(Backoff(n) * 2, MAX_BACKOFF)
  {
  }

  /** What any number of sleeps and fetches, the last of which may have thrown, are known by. */
  predicate Attempted(first: Reply, fetches: nat -> Fetch, sleeps: seq<nat>, asked: seq<string>) {
    && |asked| == |sleeps| && Clamped(sleeps) && WithinBudget(sleeps)
    && (AlwaysSays(first, fetches, |asked|, None) ==> BacksOff(sleeps))
    && (AlwaysSays(first, fetches, |asked|, Some(0)) ==> AtOnce(sleeps))
    && (forall i: nat :: i < |asked| - 1 ==> fetches(i).Fetches? && fetches(i).reply.status.Submitted?)
    && (forall i :: 0 <= i < |asked| ==> asked[i] == Latest(first, fetches, i).planId)
    && (forall i :: 0 <= i < |asked| ==> sleeps[i] == SleepBefore(first, fetches, i))
  }

  /** Sleeping once more for a plan still submitted, and asking for it by the id last told. */
  lemma AttemptOnce(first: Reply, fetches: nat -> Fetch, sleeps: seq<nat>, asked: seq<string>, sleep: nat)
    requires Attempted(first, fetches, sleeps, asked) && Pending(fetches, |asked|) && Sum(sleeps) < BUDGET
    requires Clamped([Backoff(|sleeps|)]) && Backoff(|sleeps|) <= MAX_BACKOFF
    requires var latest := Latest(first, fetches, |asked|);
             latest.status.Submitted? && sleep == SleepFor(latest.retryAfter, Backoff(|sleeps|))
    ensures Attempted(first, fetches, sleeps + [sleep], asked + [Latest(first, fetches, |asked|).planId])
    ensures Sum(sleeps + [sleep]) == Sum(sleeps) + sleep
  {
    assert asked != [] ==> Latest(first, fetches, |asked|) == fetches(|asked| - 1).reply;
    hide Backoff, Sum, Clamped, WithinBudget, BacksOff, AtOnce, AlwaysSays, SleepFor, Latest;
    assert sleep == SleepBefore(first, fetches, |sleeps|);
    OneMoreSleep(sleeps, sleep);
    SaysSoFar(first, fetches, |asked|);
    if AlwaysSays(first, fetches, |asked|, None) {
      LatestSays(first, fetches, |asked|, None);
    }
    if AlwaysSays(first, fetches, |asked|, Some(0)) {
      LatestSays(first, fetches, |asked|, Some(0));
    }
  }

  lemma BackoffIsClamped(n: nat)
    ensures Clamped([Backoff(n)]) && Backoff(n) <= MAX_BACKOFF
  {
    BackoffValues(n);
  }

  /**
   * Polls until a terminal status, or throws: `asked` are the plan ids asked for, each the one last
   * told, `planId` is the one last told at the end, and `looks` counts the looks for an interrupt
   * that found none, one before each slice slept.
   */
  method Poll(first: Reply, fetches: nat -> Fetch, interrupts: nat -> bool)
    returns (sleeps: seq<nat>, asked: seq<string>, planId: string, looks: nat, outcome: Outcome)
    requires first.status.Submitted?
    ensures Attempted(first, fetches, sleeps, asked)
    ensures planId == Latest(first, fetches, |asked|).planId
    ensures outcome.TimedOut? ==> Sum(sleeps) >= BUDGET
    ensures outcome.Planned? ==> asked != [] && fetches(|asked| - 1) == Fetches(outcome.reply) && !outcome.reply.status.Submitted?
    ensures outcome.FetchFailed? <==> asked != [] && fetches(|asked| - 1).FetchThrows?
    ensures outcome.TimedOut? || outcome.InterruptedSleep? ==> Latest(first, fetches, |asked|).status.Submitted?
    ensures Looked(interrupts, looks, sleeps, outcome)
  {
    hide Backoff, Sum, Clamped, WithinBudget, BacksOff, AtOnce, AlwaysSays, SleepFor, Attempted;
    var result := first;
    var backoff: int := MIN_SLEEP;
    var elapsed := 0;
    sleeps, asked, looks := [], [], 0;
    NothingAttempted(first, fetches);
    while result.status.Submitted?
      invariant Attempted(first, fetches, sleeps, asked) && Pending(fetches, |asked|) && |asked| == |sleeps|
      invariant result == Latest(first, fetches, |asked|)
      invariant elapsed == Sum(sleeps) == MIN_SLEEP * looks && backoff == Backoff(|sleeps|)
      invariant forall i: nat :: i < looks ==> !interrupts(i)
      decreases BUDGET + MAX_RETRY_AFTER - elapsed
    {
      if elapsed >= BUDGET {
        return sleeps, asked, result.planId, looks, TimedOut;
      }
      BackoffIsClamped(|sleeps|);
      var sleep := SleepFor(result.retryAfter, backoff);
      ClampedAlone(sleep);
      var slices, interrupted := SleepInSlices(sleep, interrupts, looks);
      looks := looks + |slices|;
      if interrupted {
        return sleeps, asked, result.planId, looks, InterruptedSleep;
      }
      AttemptOnce(first, fetches, sleeps, asked, sleep);
      NextBackoff(|sleeps|);
      elapsed := elapsed + sleep;
      var fetched := fetches(|asked|);
      sleeps, asked := sleeps + [sleep], asked + [result.planId];
      if fetched.FetchThrows? {
        return sleeps, asked, result.planId, looks, FetchFailed;
      }
      result := fetched.reply;
      backoff := Min(backoff * 2, MAX_BACKOFF);
    }
    outcome := Planned(result);
    planId := result.planId;
  }

  /**
   * There was a look for an interrupt before every 100 ms slept, and the first that found one ended
   * the wait; a wait that ended otherwise slept in whole slices what its sleeps add up to.
   */
  ghost predicate Looked(interrupts: nat -> bool, looks: nat, sleeps: seq<nat>, outcome: Outcome) {
    && (forall i: nat :: i < looks ==> !interrupts(i))
    && if outcome.InterruptedSleep? then
         interrupts(looks) && Sum(sleeps) <= MIN_SLEEP * looks < Sum(sleeps) + MAX_RETRY_AFTER
       else MIN_SLEEP * looks == Sum(sleeps)
  }

  lemma ClampedAlone(sleep: nat)
    requires Clamped([sleep])
    ensures MIN_SLEEP <= sleep <= MAX_RETRY_AFTER && sleep % MIN_SLEEP == 0
  {
    assert sleep in [sleep];
  }

  lemma NothingAttempted(first: Reply, fetches: nat -> Fetch)
    ensures Attempted(first, fetches, [], []) && Pending(fetches, 0)
    ensures Sum([]) == 0 && Backoff(0) == MIN_SLEEP
  {
  }

  datatype Trace = Trace(sleeps: seq<nat>, looks: nat, asked: seq<string>, cancelled: seq<string>)

  /**
   * Every sleep is 100 to 60000 ms, and the whole wait at most 359900 ms and 3000 fetches; with no
   * Retry-After it is at most 300500 ms and 303 fetches, and exactly that if it times out, as it is
   * 3000 fetches if the server keeps asking to be asked at once. Every fetch asks for the plan last
   * told, and every abort, and nothing else, cancels the plan last told: while the server repeats its
   * plan id, that plan. No interrupt is missed for longer than a slice.
   */
  method AwaitPlan(first: Reply, fetches: nat -> Fetch, interrupts: nat -> bool) returns (trace: Trace, outcome: Outcome)
    ensures Clamped(trace.sleeps) && Sum(trace.sleeps) <= 359900
    ensures |trace.asked| == |trace.sleeps| <= 3000
    ensures AlwaysSays(first, fetches, |trace.asked|, None) ==> |trace.asked| <= 303 && Sum(trace.sleeps) <= 300500
    ensures outcome.TimedOut? ==> BUDGET <= Sum(trace.sleeps)
    ensures outcome.TimedOut? && AlwaysSays(first, fetches, |trace.asked|, None) ==>
              |trace.asked| == 303 && Sum(trace.sleeps) == 300500
    ensures outcome.TimedOut? && AlwaysSays(first, fetches, |trace.asked|, Some(0)) ==>
              |trace.asked| == 3000 && Sum(trace.sleeps) == BUDGET
    ensures forall i: nat :: i < |trace.asked| - 1 ==> fetches(i).Fetches? && fetches(i).reply.status.Submitted?
    ensures outcome.Planned? ==> !outcome.reply.status.Submitted?
    ensures outcome.Planned? ==>
              if trace.asked == [] then outcome.reply == first else fetches(|trace.asked| - 1) == Fetches(outcome.reply)
    ensures outcome.FetchFailed? <==> trace.asked != [] && fetches(|trace.asked| - 1).FetchThrows?
    ensures Looked(interrupts, trace.looks, trace.sleeps, outcome)
    ensures forall i :: 0 <= i < |trace.asked| ==> trace.asked[i] == Latest(first, fetches, i).planId
    ensures forall i :: 0 <= i < |trace.sleeps| ==> trace.sleeps[i] == SleepBefore(first, fetches, i)
    ensures var last := Latest(first, fetches, |trace.asked|).planId;
            trace.cancelled == if outcome.Planned? || last == "" then [] else [last]
    ensures RepeatsId(first, fetches, |trace.asked|) ==>
              && (forall id :: id in trace.asked ==> id == first.planId)
              && trace.cancelled == if outcome.Planned? || first.planId == "" then [] else [first.planId]
  {
    hide Backoff, BacksOff, AtOnce, AlwaysSays, SleepFor, SleepBefore, Latest, RepeatsId, WithinBudget;
    if !first.status.Submitted? {
      NothingAttempted(first, fetches);
      return Trace([], 0, [], []), Planned(first);
    }
    var sleeps, asked, planId, looks;
    sleeps, asked, planId, looks, outcome := Poll(first, fetches, interrupts);
    trace := Trace(sleeps, looks, asked, if outcome.Planned? then [] else Cancel(planId));
    WaitIsBounded(sleeps);
    if AlwaysSays(first, fetches, |asked|, None) {
      BackoffIsBounded(sleeps);
    }
    if AlwaysSays(first, fetches, |asked|, Some(0)) {
      SumOfShortest(sleeps);
    }
    if RepeatsId(first, fetches, |asked|) {
      RepeatedIds(first, fetches, asked, outcome);
    }
  }

  lemma RepeatedIds(first: Reply, fetches: nat -> Fetch, asked: seq<string>, outcome: Outcome)
    requires RepeatsId(first, fetches, |asked|)
    requires forall i :: 0 <= i < |asked| ==> asked[i] == Latest(first, fetches, i).planId
    requires forall i: nat :: i < |asked| - 1 ==> fetches(i).Fetches? && fetches(i).reply.status.Submitted?
    requires outcome.FetchFailed? ==> asked != [] && fetches(|asked| - 1).FetchThrows?
    requires outcome.TimedOut? || outcome.InterruptedSleep? ==> Latest(first, fetches, |asked|).status.Submitted?
    ensures forall id :: id in asked ==> id == first.planId
    ensures !outcome.Planned? ==> Latest(first, fetches, |asked|).planId == first.planId
  {
    forall i | 0 <= i < |asked| ensures asked[i] == first.planId {
      LatestRepeats(first, fetches, i);
    }
    if !outcome.Planned? {
      LatestRepeats(first, fetches, |asked|);
    }
  }
}
