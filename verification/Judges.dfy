// The judge's pacer and its retry loops, against an arbitrary clock and an arbitrary provider
// (evaluation/judges.py).
module Judges {
  import opened Blocks

  // ----- the pacer -----

  // Seconds between two releases; a rate that is not positive paces nothing.
  function MinInterval(rpm: int): (s: real)
    ensures s >= 0.0
  {
    if rpm > 0 then 60.0 / rpm as real else 0.0
  }

  class Pacer {
    const minIntervalS: real
    var nextAt: real

    constructor (rpm: int)
      ensures minIntervalS == MinInterval(rpm) && nextAt == 0.0
    {
      minIntervalS := MinInterval(rpm);
      nextAt := 0.0;
    }

    // `now` is what the clock reads on entry, `woken` what it reads after the sleep, if there is
    // one. Returns the reading the caller is released at: its turn or later, unless the sleep was cut
    // short; the next turn is one interval on.
    method Wait(now: real, woken: real) returns (released: real)
      modifies this`nextAt
      ensures (released, nextAt) == Waited(old(nextAt), minIntervalS, now, woken)
      ensures nextAt == released + minIntervalS
      ensures (old(nextAt) > now ==> woken >= old(nextAt)) ==> released >= now && released >= old(nextAt)
    {
      released := now;
      var delay := nextAt - now;
      if delay > 0.0 {
        released := woken;
      }
      nextAt := released + minIntervalS;
    }
  }

  function Waited(nextAt: real, interval: real, now: real, woken: real): (real, real) {
    var released := if nextAt - now > 0.0 then woken else now;
    (released, released + interval)
  }

  // One sequential caller's readings of the clock in one wait.
  datatype Call = Call(now: real, woken: real)

  // The releases of a run of sequential waits, and where the pacer stands after it.
  function Paced(interval: real, calls: seq<Call>): (r: (seq<real>, real))
    ensures |r.0| == |calls|
  {
    if calls == [] then ([], 0.0)
    else
      var (releases, nextAt) := Paced(interval, calls[..|calls| - 1]);
      var last := calls[|calls| - 1];
      var (released, next) := Waited(nextAt, interval, last.now, last.woken);
      (releases + [released], next)
  }

  // The sleep lasts at least the delay asked for.
  ghost predicate SleepsLongEnough(interval: real, calls: seq<Call>) {
    forall n :: 0 <= n < |calls| ==>
      var nextAt := Paced(interval, calls[..n]).1;
      nextAt > calls[n].now ==> calls[n].woken - calls[n].now >= nextAt - calls[n].now
  }

  lemma {:induction false} PacedNext(interval: real, calls: seq<Call>, n: nat)
    requires n < |calls| && SleepsLongEnough(interval, calls)
    ensures var releases := Paced(interval, calls).0;
            && (n > 0 ==> releases[n] >= releases[n - 1] + interval)
            && Paced(interval, calls[..n + 1]).1 == releases[n] + interval
  {
    var last := |calls| - 1;
    if n == last {
      assert calls[..n + 1] == calls;
      if n > 0 {
        PacedPrefix(interval, calls, n - 1);
        var before := calls[..n];
        assert before[..n] == before;
        assert forall k :: 0 <= k < n ==> before[..k] == calls[..k];
        PacedNext(interval, before, n - 1);
      }
    } else {
      var before := calls[..last];
      assert forall k :: 0 <= k <= last ==> before[..k] == calls[..k];
      PacedNext(interval, before, n);
    }
  }

  lemma PacedPrefix(interval: real, calls: seq<Call>, n: nat)
    requires n < |calls| - 1
    ensures Paced(interval, calls).0[n] == Paced(interval, calls[..|calls| - 1]).0[n]
  {
  }

  // k intervals.
  function Intervals(k: nat, interval: real): real { if k == 0 then 0.0 else Intervals(k - 1, interval) + interval }

  lemma {:induction false} ReleasesApart(interval: real, calls: seq<Call>, i: nat, j: nat)
    requires i <= j < |calls| && SleepsLongEnough(interval, calls)
    ensures var releases := Paced(interval, calls).0; releases[j] >= releases[i] + Intervals(j - i, interval)
    decreases j - i
  {
    if i < j {
      ReleasesApart(interval, calls, i, j - 1);
      PacedNext(interval, calls, j);
    }
  }

  lemma {:induction false} IntervalsAreMultiple(k: nat, interval: real)
    ensures Intervals(k, interval) == k as real * interval
  {
    if k > 0 {
      IntervalsAreMultiple(k - 1, interval);
      OneMore((k - 1) as real, interval);
      assert k as real == (k - 1) as real + 1.0;
    }
  }

  lemma OneMore(k: real, interval: real)
    ensures (k + 1.0) * interval == k * interval + interval
  {
  }

  lemma {:induction false} IntervalsGrow(k: nat, n: nat, interval: real)
    requires k <= n && interval >= 0.0
    ensures Intervals(k, interval) <= Intervals(n, interval)
    decreases n - k
  {
    if k < n {
      IntervalsGrow(k, n - 1, interval);
    }
  }

  // rpm intervals take a minute.
  lemma WholeMinute(rpm: int)
    requires rpm > 0
    ensures Intervals(rpm, MinInterval(rpm)) == 60.0
  {
    IntervalsAreMultiple(rpm, MinInterval(rpm));
    assert rpm as real * (60.0 / rpm as real) == 60.0;
  }

  predicate InWindow(release: real, start: real) { start <= release < start + 60.0 }

  // How many releases fall into the half-open minute from `start`.
  function Releases(releases: seq<real>, start: real): nat {
    if releases == [] then 0
    else
      Releases(releases[..|releases| - 1], start) +
      if InWindow(releases[|releases| - 1], start) then 1 else 0
  }

  lemma {:induction false} ReleasesBetween(releases: seq<real>, start: real, lo: nat, n: nat)
    requires forall i :: 0 <= i < |releases| && InWindow(releases[i], start) ==> lo <= i < lo + n
    ensures Releases(releases, start) <= n
    ensures |releases| <= lo + n ==> Releases(releases, start) <= if |releases| >= lo then |releases| - lo else 0
  {
    if releases != [] {
      ReleasesBetween(releases[..|releases| - 1], start, lo, n);
    }
  }

  // The rate limit, over every run: whatever the clock reads and however long the sleeps overrun,
  // no half-open window of sixty seconds holds more than rpm releases.
  lemma AtMostRpmPerMinute(rpm: int, calls: seq<Call>, start: real)
    requires rpm > 0 && SleepsLongEnough(MinInterval(rpm), calls)
    ensures Releases(Paced(MinInterval(rpm), calls).0, start) <= rpm
  {
    var releases := Paced(MinInterval(rpm), calls).0;
    var first := 0;
    while first < |releases| && !InWindow(releases[first], start)
      invariant 0 <= first <= |releases|
      invariant forall i :: 0 <= i < first ==> !InWindow(releases[i], start)
    {
      first := first + 1;
    }
    WholeMinute(rpm);
    forall j | 0 <= j < |releases| && InWindow(releases[j], start) ensures first <= j < first + rpm {
      ReleasesApart(MinInterval(rpm), calls, first, j);
      CloseTogether(MinInterval(rpm), rpm, releases[first], releases[j], j - first);
    }
    ReleasesBetween(releases, start, first, rpm);
  }

  // Two releases less than a minute apart have fewer than rpm intervals between them.
  lemma CloseTogether(interval: real, rpm: nat, r: real, s: real, k: nat)
    requires interval >= 0.0 && Intervals(rpm, interval) >= 60.0
    requires s >= r + Intervals(k, interval) && s < r + 60.0
    ensures k < rpm
  {
    if k >= rpm {
      IntervalsGrow(rpm, k, interval);
      assert false;
    }
  }

  // ----- one judged question -----

  // What the provider answers a call with: a completion, of which `parses` says whether it fits the
  // schema, a rate-limit refusal, or any other error.
  datatype Reply =
    | Completion(text: string, parses: bool)
    | RateLimited(retryAfter: Option<real>)
    | Failed(error: string)

  // The n-th call of the run gets the n-th reply, and the wait in front of it the n-th readings.
  type Provider = nat -> Reply

  type Clock = nat -> Call

  // What a judge works with: the provider, the clock, the pacer's interval, and how often a refused
  // call is made at most.
  datatype Desk = Desk(provider: Provider, clock: Clock, interval: real, attempts: nat)

  const BACKOFF_S := 8.0
  const MAX_BACKOFF_S := 64.0

  function Min(a: real, b: real): real { if a <= b then a else b }

  // The counters the run file reports; what was slept and recorded; when each call was sent, and
  // where the pacer stands.
  datatype Ledger = Ledger(calls: nat, failures: nat, rateLimited: nat, slept: seq<real>, recorded: nat,
                           sent: seq<real>, nextAt: real)

  const FRESH := Ledger(0, 0, 0, [], 0, [], 0.0)

  // One paced call: await self._pacer.wait(), then the send.
  function Called(k: Desk, s: Ledger): Ledger {
    var reading := k.clock(s.calls);
    var (released, next) := Waited(s.nextAt, k.interval, reading.now, reading.woken);
    s.(calls := s.calls + 1, sent := s.sent + [released], nextAt := next)
  }

  // The default backoff before re-send number `attempt`: doubling from eight, capped.
  function Backoff(attempt: nat): real {
    if attempt == 0 then BACKOFF_S else Min(Backoff(attempt - 1) * 2.0, MAX_BACKOFF_S)
  }

  function Delay(reply: Reply, attempt: nat): real
    requires reply.RateLimited?
  {
    Min(if reply.retryAfter.Some? then reply.retryAfter.value else Backoff(attempt), MAX_BACKOFF_S)
  }

  // _complete from its `attempt`-th try on: the reply it returns or raises, and the ledger after it.
  function Completed(k: Desk, attempt: nat, s: Ledger): (Reply, Ledger)
    requires attempt < k.attempts
    decreases k.attempts - attempt
  {
    var reply := k.provider(s.calls);
    var called := Called(k, s);
    if !reply.RateLimited? || attempt == k.attempts - 1 then (reply, called)
    else
      Completed(k, attempt + 1,
                called.(rateLimited := s.rateLimited + 1, slept := s.slept + [Delay(reply, attempt)]))
  }

  // _ask: at most two completions, the second with the repair instruction; a question whose second
  // reply is unusable too counts as a failure and yields no verdict. Either way it is recorded once.
  function Asked(k: Desk, s: Ledger): (Option<string>, Ledger)
    requires k.attempts > 0
  {
    var (first, s1) := Completed(k, 0, s);
    if first.Completion? && first.parses then (Some(first.text), s1.(recorded := s1.recorded + 1))
    else
      var (second, s2) := Completed(k, 0, s1);
      if second.Completion? && second.parses then (Some(second.text), s2.(recorded := s2.recorded + 1))
      else (None, s2.(failures := s2.failures + 1, recorded := s2.recorded + 1))
  }

  class Judge {
    const desk: Desk
    const pacer: Pacer
    var calls: nat
    var failures: nat
    var rateLimited: nat
    var recorded: nat
    ghost var slept: seq<real>
    ghost var sent: seq<real>

    ghost function State(): Ledger
      reads this, pacer
    {
      Ledger(calls, failures, rateLimited, slept, recorded, sent, pacer.nextAt)
    }

    ghost predicate Valid() {
      desk.attempts > 0 && pacer.minIntervalS == desk.interval
    }

    constructor (provider: Provider, clock: Clock, rpm: int, attempts: nat)
      requires attempts > 0
      ensures Valid() && fresh(pacer) && State() == FRESH
      ensures desk == Desk(provider, clock, MinInterval(rpm), attempts)
    {
      desk := Desk(provider, clock, MinInterval(rpm), attempts);
      pacer := new Pacer(rpm);
      calls, failures, rateLimited, slept, recorded, sent := 0, 0, 0, [], 0, [];
    }

    // One paced provider call.
    method Send() returns (reply: Reply)
      requires Valid()
      modifies this, pacer
      ensures reply == desk.provider(old(calls)) && State() == Called(desk, old(State()))
    {
      var reading := desk.clock(calls);
      var released := pacer.Wait(reading.now, reading.woken);
      reply := desk.provider(calls);
      calls, sent := calls + 1, sent + [released];
    }

    // A refused call is made again, at most as often as there are attempts; any other reply is
    // handed on as it is.
    method Complete() returns (reply: Reply)
      requires Valid()
      modifies this, pacer
      ensures (reply, State()) == Completed(desk, 0, old(State()))
    {
      var backoff := BACKOFF_S;
      var attempt := 0;
      while true
        invariant 0 <= attempt < desk.attempts && backoff == Backoff(attempt)
        invariant Completed(desk, attempt, State()) == Completed(desk, 0, old(State()))
        decreases desk.attempts - attempt
      {
        reply := Send();
        if !reply.RateLimited? || attempt == desk.attempts - 1 {
          return;
        }
        rateLimited := rateLimited + 1;
        slept := slept + [Min(if reply.retryAfter.Some? then reply.retryAfter.value else backoff, MAX_BACKOFF_S)];
        backoff := Min(backoff * 2.0, MAX_BACKOFF_S);
        attempt := attempt + 1;
      }
    }

    // A verdict from the first or the second completion, or none; the question is recorded once.
    method Ask() returns (verdict: Option<string>)
      requires Valid()
      modifies this, pacer
      ensures (verdict, State()) == Asked(desk, old(State()))
    {
      for attempt := 0 to 2
        invariant attempt == 0 ==> State() == old(State())
        invariant attempt == 1 ==>
                    var (first, s1) := Completed(desk, 0, old(State()));
                    !(first.Completion? && first.parses) && State() == s1
        invariant attempt < 2
      {
        var reply := Complete();
        if reply.Completion? && reply.parses {
          recorded := recorded + 1;
          return Some(reply.text);
        }
        if attempt == 0 {
          continue;
        }
        failures := failures + 1;
        recorded := recorded + 1;
        return None;
      }
      return None;
    }
  }

  // ----- what a refusal costs -----

  // The reply of _complete is the first of the next `attempts` replies that is not a rate-limit
  // refusal, and a refusal only if they all are; every refusal absorbed is counted and slept for, as
  // long as it asks or else twice as long as for the one before, and nothing else is touched.
  lemma {:induction false} CompletedIsFirstAnswer(k: Desk, attempt: nat, s: Ledger)
    requires attempt < k.attempts
    ensures var (reply, s') := Completed(k, attempt, s);
            var sends := s'.calls - s.calls;
            && 1 <= sends <= k.attempts - attempt
            && reply == k.provider(s.calls + sends - 1)
            && (forall m: nat :: s.calls <= m < s'.calls - 1 ==> k.provider(m).RateLimited?)
            && (reply.RateLimited? ==> sends == k.attempts - attempt)
            && s'.rateLimited == s.rateLimited + sends - 1
            && |s'.slept| == |s.slept| + sends - 1 && s.slept <= s'.slept
            && (forall i :: |s.slept| <= i < |s'.slept| ==>
                  s'.slept[i] == Slept(k.provider(s.calls + (i - |s.slept|)), attempt + (i - |s.slept|)))
            && s'.failures == s.failures && s'.recorded == s.recorded
    decreases k.attempts - attempt
  {
    var reply := k.provider(s.calls);
    SleepsAreExact(k, attempt, s);
    if reply.RateLimited? && attempt < k.attempts - 1 {
      CompletedIsFirstAnswer(k, attempt + 1, AfterRefusal(k, s, reply, attempt));
    }
  }

  function AfterRefusal(k: Desk, s: Ledger, reply: Reply, attempt: nat): Ledger
    requires reply.RateLimited?
  {
    Called(k, s).(rateLimited := s.rateLimited + 1, slept := s.slept + [Delay(reply, attempt)])
  }

  // What is slept before re-send number n when the provider names no time, written out.
  function Doubled(n: nat): real { if n == 0 then 8.0 else if n == 1 then 16.0 else if n == 2 then 32.0 else 64.0 }

  lemma {:induction false} BackoffIs(n: nat)
    ensures Backoff(n) == Doubled(n)
  {
    if n > 0 {
      BackoffIs(n - 1);
    }
  }

  // What the reply to try number n asks for, up to a minute and four seconds.
  function Slept(reply: Reply, n: nat): real {
    if reply.RateLimited? && reply.retryAfter.Some? then
      if reply.retryAfter.value < 64.0 then reply.retryAfter.value else 64.0
    else Doubled(n)
  }

  lemma {:induction false} SleepsAreExact(k: Desk, attempt: nat, s: Ledger)
    requires attempt < k.attempts
    ensures var s' := Completed(k, attempt, s).1;
            && s.slept <= s'.slept && |s'.slept| == |s.slept| + (s'.calls - s.calls) - 1
            && forall i :: |s.slept| <= i < |s'.slept| ==>
                 s'.slept[i] == Slept(k.provider(s.calls + (i - |s.slept|)), attempt + (i - |s.slept|))
    decreases k.attempts - attempt
  {
    var reply := k.provider(s.calls);
    if reply.RateLimited? && attempt < k.attempts - 1 {
      BackoffIs(attempt);
      SleepsAreExact(k, attempt + 1, AfterRefusal(k, s, reply, attempt));
    }
  }

  // Refusals use up the repair only where all the attempts are refused: the second completion is
  // asked for exactly when the first usable answer of the provider is malformed or an error, or when
  // none came.
  lemma RepairIsSpentOn(k: Desk, s: Ledger)
    requires k.attempts > 0
    ensures var (verdict, s') := Asked(k, s);
            var first := Completed(k, 0, s).0;
            && (first.Completion? && first.parses ==> verdict == Some(first.text))
            && s'.calls - s'.rateLimited
               == s.calls - s.rateLimited + (if first.Completion? && first.parses then 1 else 2)
            && s'.calls - s.calls <= 2 * k.attempts
            && s'.recorded == s.recorded + 1
            && s'.failures == s.failures + (if verdict.None? then 1 else 0)
  {
    CompletedIsFirstAnswer(k, 0, s);
    CompletedIsFirstAnswer(k, 0, Completed(k, 0, s).1);
  }

  // A run of n questions.
  function Questioned(k: Desk, n: nat): (seq<Option<string>>, Ledger)
    requires k.attempts > 0
  {
    if n == 0 then ([], FRESH)
    else
      var (verdicts, s) := Questioned(k, n - 1);
      var (verdict, s') := Asked(k, s);
      (verdicts + [verdict], s')
  }

  function Null(verdicts: seq<Option<string>>): nat {
    if verdicts == [] then 0
    else Null(verdicts[..|verdicts| - 1]) + if verdicts[|verdicts| - 1].None? then 1 else 0
  }

  // Over every run: each question is recorded once, the failures reported are the null verdicts,
  // and every call is a refusal absorbed, a question, or one question's single repair.
  lemma {:induction false} CallsAreAccountedFor(k: Desk, n: nat)
    requires k.attempts > 0
    ensures var (verdicts, s) := Questioned(k, n);
            && |verdicts| == n && s.recorded == n && s.failures == Null(verdicts)
            && s.rateLimited + n <= s.calls <= s.rateLimited + 2 * n
            && s.calls <= 2 * n * k.attempts
  {
    CallsAreBounded(k, n);
    if n > 0 {
      CallsAreAccountedFor(k, n - 1);
      var (verdicts, s) := Questioned(k, n - 1);
      RepairIsSpentOn(k, s);
      NullAppend(verdicts, Asked(k, s).0);
    }
  }

  lemma {:induction false} CallsAreBounded(k: Desk, n: nat)
    requires k.attempts > 0
    ensures Questioned(k, n).1.calls <= 2 * n * k.attempts
  {
    if n > 0 {
      CallsAreBounded(k, n - 1);
      RepairIsSpentOn(k, Questioned(k, n - 1).1);
      OneQuestionMore(n, k.attempts);
    }
  }

  lemma NullAppend(verdicts: seq<Option<string>>, verdict: Option<string>)
    ensures Null(verdicts + [verdict]) == Null(verdicts) + if verdict.None? then 1 else 0
  {
    assert (verdicts + [verdict])[..|verdicts|] == verdicts;
  }

  lemma OneQuestionMore(n: int, attempts: int)
    ensures 2 * n * attempts == 2 * (n - 1) * attempts + 2 * attempts
  {
  }

  // ----- the rate over a run of questions -----

  function Readings(clock: Clock, n: nat): (r: seq<Call>)
    ensures |r| == n && forall i :: 0 <= i < n ==> r[i] == clock(i)
  {
    seq(n, i requires 0 <= i < n => clock(i))
  }

  // The sends so far are the releases of as many sequential waits.
  ghost predicate SentInTurn(k: Desk, s: Ledger) {
    (s.sent, s.nextAt) == Paced(k.interval, Readings(k.clock, s.calls))
  }

  lemma CalledInTurn(k: Desk, s: Ledger)
    requires SentInTurn(k, s)
    ensures SentInTurn(k, Called(k, s))
  {
    var more := Readings(k.clock, s.calls + 1);
    assert more[..s.calls] == Readings(k.clock, s.calls);
  }

  lemma {:induction false} CompletedInTurn(k: Desk, attempt: nat, s: Ledger)
    requires attempt < k.attempts && SentInTurn(k, s)
    ensures SentInTurn(k, Completed(k, attempt, s).1)
    decreases k.attempts - attempt
  {
    CalledInTurn(k, s);
    var reply := k.provider(s.calls);
    if reply.RateLimited? && attempt < k.attempts - 1 {
      CompletedInTurn(k, attempt + 1, AfterRefusal(k, s, reply, attempt));
    }
  }

  lemma {:induction false} QuestionsInTurn(k: Desk, n: nat)
    requires k.attempts > 0
    ensures SentInTurn(k, Questioned(k, n).1)
  {
    if n == 0 {
      assert Readings(k.clock, 0) == [];
    } else {
      var s := Questioned(k, n - 1).1;
      QuestionsInTurn(k, n - 1);
      CompletedInTurn(k, 0, s);
      CompletedInTurn(k, 0, Completed(k, 0, s).1);
    }
  }

  // Over every run of questions, repairs and re-sends included, no half-open minute holds more than
  // rpm provider calls.
  lemma AtMostRpmCallsPerMinute(k: Desk, rpm: int, n: nat, start: real)
    requires k.attempts > 0 && rpm > 0 && k.interval == MinInterval(rpm)
    requires SleepsLongEnough(k.interval, Readings(k.clock, Questioned(k, n).1.calls))
    ensures Releases(Questioned(k, n).1.sent, start) <= rpm && |Questioned(k, n).1.sent| == Questioned(k, n).1.calls
  {
    QuestionsInTurn(k, n);
    AtMostRpmPerMinute(rpm, Readings(k.clock, Questioned(k, n).1.calls), start);
  }
}
