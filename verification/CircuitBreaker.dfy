/** The circuit breaker in front of the database and the retry loop that goes through it. */
module CircuitBreaker {
  datatype BreakerState = Closed | Open | HalfOpen

  const MAX_CONSECUTIVE_FAILURES: nat := 3
  /** In milliseconds. */
  const COOLDOWN: nat := 5000

  datatype Breaker = Breaker(state: BreakerState, failures: nat, openedAt: int)

  datatype Event = Check(at: int) | Success | Failure(at: int) | Reset

  function New(at: int): Breaker {
    Breaker(Closed, 0, at)
  }

  predicate Admits(b: Breaker, at: int) {
    b.state != Open || at - b.openedAt >= COOLDOWN
  }

  function Next(b: Breaker, e: Event): Breaker {
    match e
    case Check(at) => if b.state == Open && Admits(b, at) then b.(state := HalfOpen) else b
    case Success => if b.state == Open then b else b.(state := Closed, failures := 0)
    case Failure(at) =>
      var n := b.failures + 1;
      if b.state == HalfOpen || (b.state == Closed && n >= MAX_CONSECUTIVE_FAILURES) then Breaker(Open, n, at)
      else b.(failures := n)
    case Reset => b.(state := Closed, failures := 0)
  }

  function After(b: Breaker, events: seq<Event>): Breaker {
    if events == [] then b else Next(After(b, events[..|events| - 1]), events[|events| - 1])
  }

  /** The failures recorded since the last success or reset. */
  function Streak(events: seq<Event>): nat {
    if events == [] then 0
    else
      match events[|events| - 1]
      case Check(_) => Streak(events[..|events| - 1])
      case Failure(_) => Streak(events[..|events| - 1]) + 1
      case _ => 0
  }

  /** Closed is the state below the threshold, and while closed the count is the streak. */
  lemma {:induction false} ClosedIffBelowThreshold(at: int, events: seq<Event>)
    ensures var b := After(New(at), events);
            && (b.state == Closed <==> b.failures < MAX_CONSECUTIVE_FAILURES)
            && (b.state == Closed ==> b.failures == Streak(events))
  {
    if events != [] {
      ClosedIffBelowThreshold(at, events[..|events| - 1]);
    }
  }

  /** A closed breaker opens exactly at the third failure with no success or reset in between. */
  lemma OpensAtThirdFailure(at: int, events: seq<Event>, e: Event)
    requires After(New(at), events).state == Closed
    ensures After(New(at), events + [e]).state != Closed <==> Streak(events + [e]) == MAX_CONSECUTIVE_FAILURES
    ensures After(New(at), events + [e]).state != Closed ==>
      e.Failure? && After(New(at), events + [e]) == Breaker(Open, MAX_CONSECUTIVE_FAILURES, e.at)
  {
    ClosedIffBelowThreshold(at, events);
    assert (events + [e])[..|events|] == events;
  }

  /** Until the cooldown has passed an open breaker stays open and admits nothing, unless it is reset. */
  lemma {:induction false} NothingDuringCooldown(b: Breaker, events: seq<Event>)
    requires b.state == Open && Reset !in events
    requires forall e :: e in events && e.Check? ==> e.at - b.openedAt < COOLDOWN
    ensures After(b, events).state == Open && After(b, events).openedAt == b.openedAt
    ensures forall k :: 0 <= k < |events| && events[k].Check? ==> !Admits(After(b, events[..k]), events[k].at)
  {
    if events != [] {
      var n := |events| - 1;
      var init := events[..n];
      assert events == init + [events[n]];
      NothingDuringCooldown(b, init);
      forall k | 0 <= k < |events| && events[k].Check? ensures !Admits(After(b, events[..k]), events[k].at) {
        if k < n {
          assert init[..k] == events[..k] && init[k] == events[k];
        } else {
          assert events[k] in events;
        }
      }
    }
  }

  // ---- The state in terms of the history ----

  /** Event `k` opens the breaker: a failure while it is half-open, or the third of a streak. */
  ghost predicate OpensAt(at: int, events: seq<Event>, k: int) {
    && 0 <= k < |events| && events[k].Failure?
    && var before := After(New(at), events[..k]).state;
       before == HalfOpen || (before == Closed && Streak(events[..k + 1]) >= MAX_CONSECUTIVE_FAILURES)
  }

  /** Opened by event `k`, and since then neither reset nor asked after its cooldown. */
  ghost predicate OpenSince(at: int, events: seq<Event>, k: int) {
    && OpensAt(at, events, k)
    && forall i :: k < i < |events| ==>
         !events[i].Reset? && (events[i].Check? ==> events[i].at - events[k].at < COOLDOWN)
  }

  /** Check `k` found the breaker open and cooled down, and since then there have been only checks. */
  ghost predicate ProbingSince(at: int, events: seq<Event>, k: int) {
    && 0 <= k < |events| && events[k].Check?
    && After(New(at), events[..k]).state == Open
    && events[k].at - After(New(at), events[..k]).openedAt >= COOLDOWN
    && forall i :: k < i < |events| ==> events[i].Check?
  }

  /** After any history: open iff some failure opened the breaker and nothing since ended that; it is as old as that. */
  lemma {:induction false} OpenIff(at: int, events: seq<Event>)
    ensures After(New(at), events).state == Open <==> exists k :: OpenSince(at, events, k)
    ensures forall k :: OpenSince(at, events, k) ==> After(New(at), events).openedAt == events[k].at
  {
    if events != [] {
      var init, e := events[..|events| - 1], events[|events| - 1];
      assert events == init + [e];
      OpenIff(at, init);
      ClosedIffBelowThreshold(at, init);
      forall k ensures OpenSince(at, events, k) <==>
                       if k == |init| then OpensAt(at, events, k)
                       else OpenSince(at, init, k) && !e.Reset? && (e.Check? ==> e.at - events[k].at < COOLDOWN)
      {
        OpenSinceLonger(at, init, e, k);
      }
      assert events[..|init|] == init && events[..|init| + 1] == events;
    }
  }

  /** Half-open iff a check after the cooldown has made it so and its outcome is not known yet. */
  lemma {:induction false} HalfOpenIff(at: int, events: seq<Event>)
    ensures After(New(at), events).state == HalfOpen <==> exists k :: ProbingSince(at, events, k)
  {
    if events != [] {
      var init, e := events[..|events| - 1], events[|events| - 1];
      assert events == init + [e];
      HalfOpenIff(at, init);
      if k :| ProbingSince(at, init, k) && e.Check? {
        ProbingSinceLonger(at, init, e, k);
      }
      if k :| ProbingSince(at, events, k) {
        ProbingSinceLonger(at, init, e, k);
      }
      if After(New(at), init).state == Open && e.Check? && Admits(After(New(at), init), e.at) {
        assert ProbingSince(at, events, |init|);
      }
    }
  }

  lemma ProbingSinceLonger(at: int, init: seq<Event>, e: Event, k: int)
    ensures k != |init| ==> (ProbingSince(at, init + [e], k) <==> ProbingSince(at, init, k) && e.Check?)
  {
    var events := init + [e];
    if 0 <= k < |init| {
      assert events[..k] == init[..k] && events[k] == init[k] && events[|init|] == e;
      assert forall i :: k < i < |init| ==> events[i] == init[i];
    }
  }

  lemma OpenSinceLonger(at: int, init: seq<Event>, e: Event, k: int)
    ensures OpenSince(at, init + [e], k) <==>
            if k == |init| then OpensAt(at, init + [e], k)
            else OpenSince(at, init, k) && !e.Reset? && (e.Check? ==> e.at - init[k].at < COOLDOWN)
  {
    var events := init + [e];
    if 0 <= k < |init| {
      assert events[..k] == init[..k] && events[..k + 1] == init[..k + 1] && events[k] == init[k];
      assert forall i :: k < i < |init| ==> events[i] == init[i];
      assert events[|init|] == e;
    }
  }

  class CircuitBreaker {
    var state: BreakerState
    var failureCount: nat
    var openedAt: int
    ghost const createdAt: int
    ghost var events: seq<Event>

    constructor (now: int)
      ensures Valid() && events == [] && createdAt == now
    {
      state, failureCount, openedAt := Closed, 0, now;
      createdAt, events := now, [];
    }

    ghost function Value(): Breaker
      reads this
    {
      Breaker(state, failureCount, openedAt)
    }

    /** The fields are what the recorded events leave. */
    ghost predicate Valid()
      reads this
    {
      Value() == After(New(createdAt), events)
    }

    method AllowRequest(now: int) returns (allowed: bool)
      requires Valid()
      modifies this
      ensures Valid() && events == old(events) + [Check(now)] && Value() == Next(old(Value()), Check(now))
      ensures allowed <==> old(state) != Open || now - old(openedAt) >= COOLDOWN
      ensures state == if old(state) == Open && allowed then HalfOpen else old(state)
      ensures failureCount == old(failureCount) && openedAt == old(openedAt)
    {
      match state {
        case Closed => allowed := true;
        case HalfOpen => allowed := true;
        case Open =>
          if now - openedAt >= COOLDOWN {
            state := HalfOpen;
            allowed := true;
          } else {
            allowed := false;
          }
      }
      events := events + [Check(now)];
      assert events[..|events| - 1] == old(events);
    }

    method RecordSuccess()
      requires Valid()
      modifies this
      ensures Valid() && events == old(events) + [Success] && Value() == Next(old(Value()), Success)
      ensures if old(state) == Open then Value() == old(Value()) else state == Closed && failureCount == 0
    {
      match state {
        case HalfOpen => state, failureCount := Closed, 0;
        case Closed => failureCount := 0;
        case Open =>
      }
      events := events + [Success];
      assert events[..|events| - 1] == old(events);
    }

    method RecordFailure(now: int)
      requires Valid()
      modifies this
      ensures Valid() && events == old(events) + [Failure(now)] && Value() == Next(old(Value()), Failure(now))
      ensures failureCount == old(failureCount) + 1
      ensures var opens := old(state) == HalfOpen || (old(state) == Closed && failureCount >= 3);
              if opens then state == Open && openedAt == now else state == old(state) && openedAt == old(openedAt)
    {
      failureCount := failureCount + 1;
      match state {
        case Closed =>
          if failureCount >= MAX_CONSECUTIVE_FAILURES {
            state, openedAt := Open, now;
          }
        case HalfOpen =>
          state, openedAt := Open, now;
        case Open =>
      }
      events := events + [Failure(now)];
      assert events[..|events| - 1] == old(events);
    }

    method ResetBreaker()
      requires Valid()
      modifies this
      ensures Valid() && events == old(events) + [Reset] && Value() == Next(old(Value()), Reset)
      ensures state == Closed && failureCount == 0
    {
      state, failureCount := Closed, 0;
      events := events + [Reset];
      assert events[..|events| - 1] == old(events);
    }
  }

  // ---- Retrying ----

  const RETRY_MAX_ATTEMPTS: nat := 3

  /** How one call of the operation ends. */
  datatype Ending = Succeeds | FailsTransiently | FailsForGood

  datatype Result = Done | RejectedByBreaker | LastError(ending: Ending)

  /**
   * What attempt `k` meets: the time of its breaker check, its outcome, and the time a
   * failure is recorded; and what other tasks do to a shared breaker before the check
   * and during the call.
   */
  datatype Attempt = Attempt(before: seq<Event>, checkedAt: int, during: seq<Event>, ending: Ending, failedAt: int)

  /** The breaker attempt `a` asks, finds after its call, and leaves behind when it fails. */
  function Asked(b: Breaker, a: Attempt): Breaker {
    After(b, a.before)
  }

  function Called(b: Breaker, a: Attempt): Breaker {
    After(Next(Asked(b, a), Check(a.checkedAt)), a.during)
  }

  function AfterFailing(b: Breaker, a: Attempt): Breaker {
    Next(Called(b, a), Failure(a.failedAt))
  }

  /** The calls made, the answer and the breaker left behind, from attempt `k` on. */
  function Retried(b: Breaker, attempts: nat -> Attempt, k: nat): (nat, Result, Breaker)
    requires k <= RETRY_MAX_ATTEMPTS
    decreases RETRY_MAX_ATTEMPTS - k
  {
    var a := attempts(k);
    if !Admits(Asked(b, a), a.checkedAt) then (0, RejectedByBreaker, Next(Asked(b, a), Check(a.checkedAt)))
    else if a.ending == Succeeds then (1, Done, Next(Called(b, a), Success))
    else if a.ending == FailsForGood || k == RETRY_MAX_ATTEMPTS then (1, LastError(a.ending), AfterFailing(b, a))
    else
      var (calls, result, left) := Retried(AfterFailing(b, a), attempts, k + 1);
      (1 + calls, result, left)
  }

  method Perform(breaker: CircuitBreaker, e: Event)
    requires breaker.Valid()
    modifies breaker
    ensures breaker.Valid() && breaker.events == old(breaker.events) + [e]
    ensures breaker.Value() == Next(old(breaker.Value()), e)
  {
    match e {
      case Check(at) =>
        var _ := breaker.AllowRequest(at);
      case Success => breaker.RecordSuccess();
      case Failure(at) => breaker.RecordFailure(at);
      case Reset => breaker.ResetBreaker();
    }
  }

  /** Other tasks use the breaker in the meantime. */
  method Interfere(breaker: CircuitBreaker, others: seq<Event>)
    requires breaker.Valid()
    modifies breaker
    ensures breaker.Valid() && breaker.events == old(breaker.events) + others
    ensures breaker.Value() == After(old(breaker.Value()), others)
  {
    for n := 0 to |others|
      invariant breaker.Valid() && breaker.events == old(breaker.events) + others[..n]
      invariant breaker.Value() == After(old(breaker.Value()), others[..n])
    {
      assert others[..n + 1][..n] == others[..n];
      Perform(breaker, others[n]);
    }
    assert others[..|others|] == others;
  }

  /** The history has only grown. */
  ghost predicate Extends(before: seq<Event>, after: seq<Event>) {
    |before| <= |after| && forall i :: 0 <= i < |before| ==> after[i] == before[i]
  }

  /** The check and, if it admits, the call and the record of how it ended, with other tasks in between. */
  method TryOnce(breaker: CircuitBreaker, a: Attempt) returns (allowed: bool)
    requires breaker.Valid()
    modifies breaker
    ensures breaker.Valid() && Extends(old(breaker.events), breaker.events)
    ensures allowed <==> Admits(Asked(old(breaker.Value()), a), a.checkedAt)
    ensures breaker.Value() ==
      if !allowed then Next(Asked(old(breaker.Value()), a), Check(a.checkedAt))
      else if a.ending == Succeeds then Next(Called(old(breaker.Value()), a), Success)
      else AfterFailing(old(breaker.Value()), a)
  {
    Interfere(breaker, a.before);
    allowed := breaker.AllowRequest(a.checkedAt);
    if allowed {
      Interfere(breaker, a.during);
      match a.ending {
        case Succeeds => breaker.RecordSuccess();
        case _ => breaker.RecordFailure(a.failedAt);
      }
    }
  }

  method RetryWithBreaker(breaker: CircuitBreaker, attempts: nat -> Attempt) returns (calls: nat, result: Result)
    requires breaker.Valid()
    modifies breaker
    ensures breaker.Valid() && Extends(old(breaker.events), breaker.events)
    ensures (calls, result, breaker.Value()) == Retried(old(breaker.Value()), attempts, 0)
    ensures match result
            case Done => breaker.state == Open || (breaker.state == Closed && breaker.failureCount == 0)
            case RejectedByBreaker => breaker.state == Open
            case LastError(_) => breaker.failureCount > 0
  {
    calls := 0;
    for k := 0 to RETRY_MAX_ATTEMPTS + 1
      invariant breaker.Valid() && Extends(old(breaker.events), breaker.events)
      invariant k <= RETRY_MAX_ATTEMPTS ==>
        var (more, r, left) := Retried(breaker.Value(), attempts, k);
        Retried(old(breaker.Value()), attempts, 0) == (calls + more, r, left)
      invariant k <= RETRY_MAX_ATTEMPTS
    {
      var a := attempts(k);
      var allowed := TryOnce(breaker, a);
      if !allowed {
        return calls, RejectedByBreaker;
      }
      calls := calls + 1;
      if a.ending == Succeeds {
        return calls, Done;
      }
      if a.ending == FailsForGood || k == RETRY_MAX_ATTEMPTS {
        return calls, LastError(a.ending);
      }
    }
  }

  /** No other task uses the breaker, as when `retry` makes its own. */
  ghost predicate Undisturbed(attempts: nat -> Attempt) {
    forall k :: attempts(k).before == [] && attempts(k).during == []
  }

  /**
   * A fresh breaker of its own opens after the third failure, so the fourth call that
   * the documentation promises happens only if a whole cooldown passes before it.
   */
  lemma CallsOfFreshRetry(now: int, attempts: nat -> Attempt)
    requires Undisturbed(attempts)
    ensures var (calls, result, _) := Retried(New(now), attempts, 0);
            && 1 <= calls <= RETRY_MAX_ATTEMPTS + 1
            && (calls == RETRY_MAX_ATTEMPTS + 1 <==>
                  && attempts(0).ending == attempts(1).ending == attempts(2).ending == FailsTransiently
                  && attempts(3).checkedAt - attempts(2).failedAt >= COOLDOWN)
            && (result == RejectedByBreaker <==>
                  && attempts(0).ending == attempts(1).ending == attempts(2).ending == FailsTransiently
                  && attempts(3).checkedAt - attempts(2).failedAt < COOLDOWN)
  {
    var b1 := AfterFailing(New(now), attempts(0));
    var b2 := AfterFailing(b1, attempts(1));
    var b3 := AfterFailing(b2, attempts(2));
    assert b1.state == Closed && b1.failures == 1;
    assert b2.state == Closed && b2.failures == 2;
    assert b3 == Breaker(Open, 3, attempts(2).failedAt);
  }

  /**
   * Through any breaker, whatever other tasks do to it between the steps, there are at
   * most four calls, and none exactly when the first check finds it open and cooling down.
   */
  lemma {:induction false} CallsThroughAnyBreaker(b: Breaker, attempts: nat -> Attempt, k: nat)
    requires k <= RETRY_MAX_ATTEMPTS
    ensures Retried(b, attempts, k).0 <= RETRY_MAX_ATTEMPTS + 1 - k
    ensures var found := After(b, attempts(k).before);
            Retried(b, attempts, k).0 == 0 <==>
            found.state == Open && attempts(k).checkedAt - found.openedAt < COOLDOWN
    decreases RETRY_MAX_ATTEMPTS - k
  {
    if k < RETRY_MAX_ATTEMPTS {
      CallsThroughAnyBreaker(AfterFailing(b, attempts(k)), attempts, k + 1);
    }
  }

  /** The answer tells how the last call ended; only a transient failure is followed by another check. */
  lemma {:induction false} AnswerIsLastCall(b: Breaker, attempts: nat -> Attempt, k: nat)
    requires k <= RETRY_MAX_ATTEMPTS
    ensures var (calls, result, _) := Retried(b, attempts, k);
            && k + calls <= RETRY_MAX_ATTEMPTS + 1
            && AllTransient(attempts, k, k + calls - 1)
            && if calls == 0 then result == RejectedByBreaker
               else match attempts(k + calls - 1).ending
                    case Succeeds => result == Done
                    case FailsForGood => result == LastError(FailsForGood)
                    case FailsTransiently =>
                      result == if k + calls == RETRY_MAX_ATTEMPTS + 1 then LastError(FailsTransiently)
                                else RejectedByBreaker
    decreases RETRY_MAX_ATTEMPTS - k
  {
    if k < RETRY_MAX_ATTEMPTS && attempts(k).ending == FailsTransiently {
      AnswerIsLastCall(AfterFailing(b, attempts(k)), attempts, k + 1);
    }
  }

  // ---- A breaker of one's own ----

  predicate AllTransient(attempts: nat -> Attempt, from: nat, to: int) {
    forall j :: from <= j < to ==> attempts(j).ending == FailsTransiently
  }

  /** A whole cooldown passes between the failure before attempt `j` and its check. */
  predicate Cooled(attempts: nat -> Attempt, j: nat) {
    j > 0 ==> attempts(j).checkedAt - attempts(j - 1).failedAt >= COOLDOWN
  }

  predicate CoolsDown(attempts: nat -> Attempt, from: nat, to: nat) {
    forall j :: from <= j <= to ==> Cooled(attempts, j)
  }

  /** Once the breaker has opened at a failure of this retry, every further call takes a cooldown. */
  lemma {:induction false} CallsWhileOpen(b: Breaker, attempts: nat -> Attempt, k: nat, n: nat)
    requires Undisturbed(attempts) && 1 <= k <= n <= RETRY_MAX_ATTEMPTS
    requires b.state == Open && b.openedAt == attempts(k - 1).failedAt
    ensures Retried(b, attempts, k).0 > n - k <==> AllTransient(attempts, k, n) && CoolsDown(attempts, k, n)
    decreases n - k
  {
    CallsThroughAnyBreaker(b, attempts, k);
    assert Cooled(attempts, k) <==> Admits(b, attempts(k).checkedAt);
    if k < n && Admits(b, attempts(k).checkedAt) && attempts(k).ending == FailsTransiently {
      CallsWhileOpen(AfterFailing(b, attempts(k)), attempts, k + 1, n);
    }
  }

  /**
   * Exactly how far a retry gets through a closed breaker with fewer than three failures
   * on record: the first failures are free, every call after the breaker has opened takes
   * a whole cooldown.
   */
  lemma {:induction false} CallsWhileClosed(b: Breaker, attempts: nat -> Attempt, k: nat, n: nat)
    requires Undisturbed(attempts) && k <= n <= RETRY_MAX_ATTEMPTS
    requires b.state == Closed && b.failures < MAX_CONSECUTIVE_FAILURES
    ensures Retried(b, attempts, k).0 > n - k <==>
            && AllTransient(attempts, k, n)
            && CoolsDown(attempts, k + MAX_CONSECUTIVE_FAILURES - b.failures, n)
    decreases n - k
  {
    CallsThroughAnyBreaker(b, attempts, k);
    if k < n && attempts(k).ending == FailsTransiently {
      var next := AfterFailing(b, attempts(k));
      if next.state == Open {
        CallsWhileOpen(next, attempts, k + 1, n);
      } else {
        CallsWhileClosed(next, attempts, k + 1, n);
      }
    }
  }
}
