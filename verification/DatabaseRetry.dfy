/** Setting up the test databases with retries (hub/conftest.py,
    `_setup_databases_with_retry`). */
module DatabaseRetry {
  import opened Text

  /** One call of the wrapped function: it returns, raises an operational error
      (its message in lower case), or raises something else. */
  datatype Reply = Done | Operational(message: string) | Other

  predicate IsDns(m: string) {
    || Contains(m, "could not translate host name")
    || Contains(m, "temporary failure in name resolution")
    || Contains(m, "name or service not known")
  }

  predicate IsRecovery(m: string) {
    Contains(m, "recovery") || Contains(m, "starting up")
  }

  predicate IsTransient(m: string) {
    || Contains(m, "shutting down") || Contains(m, "connection closed") || Contains(m, "connection refused")
    || Contains(m, "server closed the connection") || Contains(m, "terminated abnormally")
    || IsDns(m) || IsRecovery(m) || Contains(m, "consistent recovery")
  }

  predicate IsSlow(m: string) { IsDns(m) || IsRecovery(m) }

  /** The loop's range, and the attempts and delays of the two kinds of transient
      error. */
  datatype Limits = Limits(range: nat, slow: nat, fast: nat, slowDelay: nat, fastFactor: nat)

  const CONFTEST := Limits(20, 15, 5, 10, 5)

  datatype End = Returned | Raised | FellThrough

  function MaxAttempts(l: Limits, m: string): nat { if IsSlow(m) then l.slow else l.fast }

  function Delay(l: Limits, m: string, attempt: nat): nat {
    if IsSlow(m) then l.slowDelay else l.fastFactor * attempt
  }

  /** How the loop ends from the given attempt on: the end, the last attempt made,
      and the seconds waited. */
  function Run(replies: nat -> Reply, l: Limits, attempt: nat): (End, nat, nat)
    requires attempt > 0
    decreases l.range + 1 - attempt
  {
    if attempt > l.range then (FellThrough, l.range, 0)
    else
      match replies(attempt)
      case Done => (Returned, attempt, 0)
      case Other => (Raised, attempt, 0)
      case Operational(m) =>
        if !IsTransient(m) || attempt >= MaxAttempts(l, m) then (Raised, attempt, 0)
        else
          var (end, last, waited) := Run(replies, l, attempt + 1);
          (end, last, Delay(l, m, attempt) + waited)
  }

  /** `_setup_databases_with_retry` */
  method SetupDatabases(replies: nat -> Reply, l: Limits) returns (end: End, attempts: nat, waited: nat)
    ensures (end, attempts, waited) == Run(replies, l, 1)
  {
    hide IsTransient, IsSlow;
    waited := 0;
    for attempt := 1 to l.range + 1
      invariant var (e, a, w) := Run(replies, l, attempt); Run(replies, l, 1) == (e, a, waited + w)
    {
      var reply := replies(attempt);
      if reply.Done? {
        return Returned, attempt, waited;
      }
      if reply.Other? || !IsTransient(reply.message) {
        return Raised, attempt, waited;
      }
      var maxAttempts := MaxAttempts(l, reply.message);
      if attempt >= maxAttempts {
        return Raised, attempt, waited;
      }
      waited := waited + Delay(l, reply.message, attempt);
    }
    return FellThrough, l.range, waited;
  }

  /** The reply is an error that the loop goes on after at this attempt. */
  predicate Retried(l: Limits, reply: Reply, attempt: nat) {
    reply.Operational? && IsTransient(reply.message) && attempt < MaxAttempts(l, reply.message)
  }

  /** The loop ends at its first reply that is not retried: it returns what that
      reply returned, or raises what it raised. */
  lemma {:induction false} EndsAtFirstFinalReply(replies: nat -> Reply, l: Limits, attempt: nat)
    requires 0 < attempt <= l.range
    ensures var (end, last, _) := Run(replies, l, attempt);
            && attempt <= last <= l.range
            && (forall k :: attempt <= k < last ==> Retried(l, replies(k), k))
            && (end == Returned <==> replies(last).Done?)
            && (end == FellThrough <==> Retried(l, replies(last), last))
            && (end == FellThrough ==> last == l.range)
    decreases l.range - attempt
  {
    hide IsTransient, IsSlow;
    if Retried(l, replies(attempt), attempt) && attempt < l.range {
      EndsAtFirstFinalReply(replies, l, attempt + 1);
    }
  }

  function Max(a: nat, b: nat): nat { if a < b then b else a }

  /** The most attempts that either kind of error allows. */
  function Most(l: Limits): nat { Max(1, Max(l.slow, l.fast)) }

  /** The longest wait after the given attempt, over the kinds that still allow
      another one. */
  function LongestDelay(l: Limits, attempt: nat): nat {
    Max(if attempt < l.slow then l.slowDelay else 0, if attempt < l.fast then l.fastFactor * attempt else 0)
  }

  function WorstWait(l: Limits, attempt: nat): nat
    decreases Most(l) - attempt
  {
    if attempt >= Most(l) then 0 else LongestDelay(l, attempt) + WorstWait(l, attempt + 1)
  }

  /** Whatever the replies: no more attempts than the larger allowance, no longer
      a wait than the worst mixture, and an answer before the range runs out. */
  lemma {:induction false} RunBounds(replies: nat -> Reply, l: Limits, attempt: nat)
    requires 0 < attempt <= Most(l) <= l.range
    ensures var (end, last, waited) := Run(replies, l, attempt);
            end != FellThrough && attempt <= last <= Most(l) && waited <= WorstWait(l, attempt)
    decreases Most(l) - attempt
  {
    hide IsTransient, IsSlow;
    var reply := replies(attempt);
    if reply.Operational? && IsTransient(reply.message) && attempt < MaxAttempts(l, reply.message) {
      RunBounds(replies, l, attempt + 1);
    }
  }

  const SLOW_MESSAGE := "recovery"
  const FAST_MESSAGE := "connection closed"

  lemma MessageKinds()
    ensures IsTransient(SLOW_MESSAGE) && IsSlow(SLOW_MESSAGE)
    ensures IsTransient(FAST_MESSAGE) && !IsSlow(FAST_MESSAGE)
  {
    var m := FAST_MESSAGE;
    assert OccursAt(SLOW_MESSAGE, "recovery", 0);
    assert OccursAt(FAST_MESSAGE, "connection closed", 0);
    assert "recovery"[4] == 'v' && "starting up"[7] == 'g';
    assert forall i :: 0 <= i < |m| ==> m[i] != 'v' && m[i] != 'g';
    ContainsNeeds(m, "recovery", 4);
    ContainsNeeds(m, "starting up", 7);
  }

  /** Replies that always choose the error with the longer wait. */
  function WorstReplies(l: Limits): nat -> Reply {
    k => Operational(
      if k < l.slow && (k >= l.fast || l.fastFactor * k <= l.slowDelay) then SLOW_MESSAGE
      else if k < l.fast then FAST_MESSAGE
      else SLOW_MESSAGE)
  }

  /** The worst wait and the most attempts are both reached, in one run, so that
      neither bound can be lowered. */
  lemma {:induction false} WorstIsReached(l: Limits, attempt: nat)
    requires 0 < attempt <= Most(l) <= l.range
    ensures Run(WorstReplies(l), l, attempt) == (Raised, Most(l), WorstWait(l, attempt))
    decreases Most(l) - attempt
  {
    hide IsTransient, IsSlow;
    MessageKinds();
    if attempt < Most(l) {
      WorstIsReached(l, attempt + 1);
    }
  }

  /** The range is exhausted by some sequence of errors exactly when it is shorter
      than the larger allowance. */
  lemma RangeSuffices(l: Limits)
    ensures (exists replies :: Run(replies, l, 1).0 == FellThrough) <==> l.range < Most(l)
  {
    if l.range < Most(l) {
      FallsThrough(l, 1);
      assert Run(WorstReplies(l), l, 1).0 == FellThrough;
    } else {
      forall replies ensures Run(replies, l, 1).0 != FellThrough {
        RunBounds(replies, l, 1);
      }
    }
  }

  lemma {:induction false} FallsThrough(l: Limits, attempt: nat)
    requires 0 < attempt <= l.range + 1 && l.range < Most(l)
    ensures Run(WorstReplies(l), l, attempt).0 == FellThrough
    decreases l.range + 1 - attempt
  {
    hide IsTransient, IsSlow;
    MessageKinds();
    if attempt <= l.range {
      FallsThrough(l, attempt + 1);
    }
  }

  /** The limits of the test configuration: at most 15 attempts and 155 seconds,
      both of them reached, and never a silent return after the loop. */
  lemma ConftestBounds(replies: nat -> Reply)
    ensures var (end, last, waited) := Run(replies, CONFTEST, 1);
            end != FellThrough && 1 <= last <= 15 && waited <= 155
    ensures Run(WorstReplies(CONFTEST), CONFTEST, 1) == (Raised, 15, 155)
  {
    hide IsTransient, IsSlow;
    RunBounds(replies, CONFTEST, 1);
    WorstIsReached(CONFTEST, 1);
    WorstTail(5);
    assert WorstWait(CONFTEST, 4) == 120;
    assert WorstWait(CONFTEST, 3) == 135;
    assert WorstWait(CONFTEST, 2) == 145;
  }

  lemma {:induction false} WorstTail(attempt: nat)
    requires 5 <= attempt <= 15
    ensures WorstWait(CONFTEST, attempt) == 10 * (15 - attempt)
    decreases 15 - attempt
  {
    if attempt < 15 {
      WorstTail(attempt + 1);
    }
  }

  ghost predicate SlowText(m: string) {
    || Contains(m, "could not translate host name") || Contains(m, "temporary failure in name resolution")
    || Contains(m, "name or service not known") || Contains(m, "recovery") || Contains(m, "starting up")
  }

  ghost predicate FastText(m: string) {
    || Contains(m, "shutting down") || Contains(m, "connection closed") || Contains(m, "connection refused")
    || Contains(m, "server closed the connection") || Contains(m, "terminated abnormally")
  }

  lemma {:induction false} SteadyFrom(m: string, l: Limits, attempt: nat)
    requires 0 < attempt <= MaxAttempts(l, m) <= l.range && IsTransient(m)
    ensures Run(_ => Operational(m), l, attempt).0 == Raised
    ensures Run(_ => Operational(m), l, attempt).1 == MaxAttempts(l, m)
    ensures Run(_ => Operational(m), l, attempt).2 == SteadyWait(m, l, attempt)
    decreases MaxAttempts(l, m) - attempt
  {
    hide IsTransient, IsSlow;
    if attempt < MaxAttempts(l, m) {
      SteadyFrom(m, l, attempt + 1);
    }
  }

  function SteadyWait(m: string, l: Limits, attempt: nat): nat
    decreases MaxAttempts(l, m) - attempt
  {
    if attempt >= MaxAttempts(l, m) then 0 else Delay(l, m, attempt) + SteadyWait(m, l, attempt + 1)
  }

  /** One error that never goes away, by its text: the host name and recovery errors
      are tried 15 times over 140 seconds, the connection errors five times over 50,
      any other is raised at once. */
  lemma SteadyError(m: string)
    ensures Run(_ => Operational(m), CONFTEST, 1) ==
            if SlowText(m) then (Raised, 15, 140) else if FastText(m) then (Raised, 5, 50) else (Raised, 1, 0)
  {
    Kinds(m);
    hide IsTransient, IsSlow, SlowText, FastText;
    if SlowText(m) {
      SteadyFrom(m, CONFTEST, 1);
      SlowWait(m, 1);
    } else if FastText(m) {
      SteadyFrom(m, CONFTEST, 1);
      assert SteadyWait(m, CONFTEST, 5) == 0 && SteadyWait(m, CONFTEST, 4) == 20;
      assert SteadyWait(m, CONFTEST, 3) == 35 && SteadyWait(m, CONFTEST, 2) == 45;
    }
  }

  lemma Kinds(m: string)
    ensures IsSlow(m) <==> SlowText(m)
    ensures IsTransient(m) <==> SlowText(m) || FastText(m)
  {
    ConsistentRecovery(m);
  }

  lemma ConsistentRecovery(m: string)
    ensures Contains(m, "consistent recovery") ==> Contains(m, "recovery")
  {
    if i :| 0 <= i <= |m| && OccursAt(m, "consistent recovery", i) {
      assert "consistent recovery"[11..] == "recovery";
      assert m[i + 11..i + 19] == m[i..i + 19][11..];
      assert OccursAt(m, "recovery", i + 11);
    }
  }

  lemma {:induction false} SlowWait(m: string, attempt: nat)
    requires IsSlow(m) && 0 < attempt <= 15
    ensures SteadyWait(m, CONFTEST, attempt) == 10 * (15 - attempt)
    decreases 15 - attempt
  {
    hide IsSlow;
    if attempt < 15 {
      SlowWait(m, attempt + 1);
    }
  }
}
