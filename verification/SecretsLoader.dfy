/** Loading secrets into the process environment with retries
    (hub/aws_secrets_loader.py). */
module SecretsLoader {
  import opened Text

  type Secrets = map<string, string>

  /** What the store, or the client in front of it, can raise. */
  datatype Failure = NonRetryable | Client(code: string) | Runtime | Transient | Unexpected

  datatype Read = Data(secrets: Secrets) | Raised(failure: Failure)

  /** Everything the outside world does during one attempt: building the client,
      and one reading per subsystem. */
  datatype Attempt = Attempt(client: Option<Failure>, readings: seq<Read>)

  const NOT_FOUND := "ResourceNotFoundException"

  /** A reading that the load goes on after. */
  predicate Passes(r: Read) {
    r.Data? || r.failure == Client(NOT_FOUND)
  }

  /** The readings up to n, later ones winning. */
  function Merged(readings: seq<Read>): Secrets {
    if readings == [] then map[]
    else
      var last := readings[|readings| - 1];
      Merged(readings[..|readings| - 1]) + if last.Data? then last.secrets else map[]
  }

  datatype Load = Loaded(secrets: Secrets) | Failed(failure: Failure)

  function FirstFailure(readings: seq<Read>): (i: nat)
    ensures i <= |readings| && (i < |readings| ==> !Passes(readings[i]))
    ensures forall j :: 0 <= j < i ==> Passes(readings[j])
  {
    if readings == [] || !Passes(readings[0]) then 0 else 1 + FirstFailure(readings[1..])
  }

  function LoadOnce(a: Attempt): Load {
    if a.client.Some? then Failed(a.client.value)
    else
      var i := FirstFailure(a.readings);
      if i < |a.readings| then Failed(a.readings[i].failure) else Loaded(Merged(a.readings))
  }

  /** Failures that are not retried. */
  predicate Fatal(f: Failure) {
    f.NonRetryable? || f.Runtime?
    || (f.Client? && (f.code == "AccessDeniedException" || f.code == "UnrecognizedClientException"))
  }

  datatype Outcome = Success | Refused | Exhausted

  /** How a load over the given attempts, from attempt i of n on, ends, and how
      many attempts have been made then. */
  function Run(attempts: nat -> Attempt, i: nat, n: nat): (Outcome, nat)
    requires i <= n
    decreases n - i
  {
    if i == n then (Exhausted, n)
    else
      match LoadOnce(attempts(i))
      case Loaded(_) => (Success, i + 1)
      case Failed(f) => if Fatal(f) then (Refused, i + 1) else Run(attempts, i + 1, n)
  }

  function Power2(k: nat): nat {
    if k == 0 then 1 else 2 * Power2(k - 1)
  }

  /** The first m back-off delays: 1, 2, 4, ... */
  function Delays(m: nat): seq<nat> {
    if m == 0 then [] else Delays(m - 1) + [Power2(m - 1)]
  }

  function Sum(s: seq<nat>): nat {
    if s == [] then 0 else Sum(s[..|s| - 1]) + s[|s| - 1]
  }

  /** How often a load of so many attempts has slept: before each but the first. */
  function SleepCount(made: nat): nat {
    if made == 0 then 0 else made - 1
  }

  class Process {
    var env: Secrets
    var sleeps: seq<nat>

    constructor (env: Secrets)
      ensures this.env == env && sleeps == []
    {
      this.env, sleeps := env, [];
    }

    /** `_inject_secrets`: key by key. */
    method InjectSecrets(secrets: Secrets)
      modifies this`env
      ensures env == old(env) + secrets
    {
      var todo := secrets.Keys;
      while todo != {}
        invariant todo <= secrets.Keys
        invariant env == old(env) + (secrets - todo)
        decreases todo
      {
        var key :| key in todo;
        env := env[key := secrets[key]];
        todo := todo - {key};
      }
    }

    /** `_do_load`: all secrets are collected before any is injected. */
    method DoLoad(a: Attempt) returns (failure: Option<Failure>)
      modifies this`env
      ensures LoadOnce(a).Failed? ==> failure == Some(LoadOnce(a).failure) && env == old(env)
      ensures LoadOnce(a).Loaded? ==> failure == None && env == old(env) + LoadOnce(a).secrets
    {
      if a.client.Some? {
        return a.client;
      }
      var merged: Secrets := map[];
      for i := 0 to |a.readings|
        invariant env == old(env)
        invariant merged == Merged(a.readings[..i]) && forall j :: 0 <= j < i ==> Passes(a.readings[j])
      {
        assert a.readings[..i + 1][..i] == a.readings[..i];
        match a.readings[i]
        case Data(secrets) =>
          merged := merged + secrets;
        case Raised(f) =>
          if f == Client(NOT_FOUND) {
            continue;
          }
          return Some(f);
      }
      assert a.readings[..|a.readings|] == a.readings;
      InjectSecrets(merged);
      return None;
    }

    /** `load_from_aws`, for any number of allowed attempts: a load that raises
        leaves the environment alone, one that returns lays the secrets of its
        one successful attempt over it, and the sleeps are the first back-offs. */
    method LoadFromAws(attempts: nat -> Attempt, n: nat) returns (outcome: Outcome, made: nat)
      modifies this
      ensures (outcome, made) == Run(attempts, 0, n) && made <= n
      ensures outcome != Success ==> env == old(env)
      ensures outcome == Success ==> made > 0 && LoadOnce(attempts(made - 1)).Loaded?
                                     && env == old(env) + LoadOnce(attempts(made - 1)).secrets
      ensures sleeps == old(sleeps) + Delays(SleepCount(made))
    {
      for attempt := 1 to n + 1
        invariant env == old(env)
        invariant Run(attempts, 0, n) == Run(attempts, attempt - 1, n)
        invariant sleeps == old(sleeps) + Delays(if attempt <= n then attempt - 1 else SleepCount(n))
      {
        var failure := DoLoad(attempts(attempt - 1));
        if failure.None? {
          return Success, attempt;
        }
        if Fatal(failure.value) {
          return Refused, attempt;
        }
        if attempt < n {
          var delay := Power2(attempt - 1);
          sleeps := sleeps + [delay];
        }
      }
      return Exhausted, n;
    }
  }

  /** The merge: a name is set exactly when some reading set it, and to the value
      of the last reading that did. */
  lemma {:induction false} MergeIsLaterWins(readings: seq<Read>, key: string)
    ensures key in Merged(readings) <==> exists i :: 0 <= i < |readings| && Sets(readings[i], key)
    ensures forall i :: 0 <= i < |readings| && SetsLast(readings, i, key)
                        ==> key in Merged(readings) && Merged(readings)[key] == readings[i].secrets[key]
  {
    if readings != [] {
      var init, last := readings[..|readings| - 1], readings[|readings| - 1];
      MergeIsLaterWins(init, key);
      if Sets(last, key) {
        assert Sets(readings[|init|], key);
      } else {
        assert forall i :: 0 <= i < |init| ==> init[i] == readings[i];
      }
    }
  }

  /** A reading that gives a value to the name. */
  predicate Sets(r: Read, key: string) {
    r.Data? && key in r.secrets
  }

  predicate SetsLast(readings: seq<Read>, i: nat, key: string)
    requires i < |readings|
  {
    Sets(readings[i], key) && forall j :: i < j < |readings| ==> !Sets(readings[j], key)
  }

  /** A load ends at the first attempt that loads or fails for good, and is
      exhausted exactly when every allowed attempt fails in a retryable way. */
  lemma {:induction false} RunExactly(attempts: nat -> Attempt, i: nat, n: nat)
    requires i <= n
    ensures var (outcome, made) := Run(attempts, i, n);
            && i <= made <= n
            && (forall k :: i <= k < made - 1 || (outcome == Exhausted && k == made - 1 && i <= k) ==>
                  LoadOnce(attempts(k)).Failed? && !Fatal(LoadOnce(attempts(k)).failure))
            && (outcome == Success ==> made > i && LoadOnce(attempts(made - 1)).Loaded?)
            && (outcome == Refused ==>
                  made > i && LoadOnce(attempts(made - 1)).Failed? && Fatal(LoadOnce(attempts(made - 1)).failure))
            && (outcome == Exhausted ==> made == n)
    decreases n - i
  {
    if i < n && LoadOnce(attempts(i)).Failed? && !Fatal(LoadOnce(attempts(i)).failure) {
      RunExactly(attempts, i + 1, n);
    }
  }

  lemma {:induction false} DelaysSum(m: nat)
    ensures |Delays(m)| == m && Sum(Delays(m)) == Power2(m) - 1
    ensures forall i :: 0 <= i < m ==> Delays(m)[i] == Power2(i) < Power2(m)
  {
    if m > 0 {
      DelaysSum(m - 1);
      assert Delays(m)[..m - 1] == Delays(m - 1);
    }
  }

  lemma {:induction false} PowerMonotone(a: nat, b: nat)
    requires a <= b
    ensures Power2(a) <= Power2(b)
    decreases b
  {
    if a < b {
      PowerMonotone(a, b - 1);
    }
  }

  /** With n attempts the delays are a prefix of 1, 2, 4, ..., 2^(n-2), so that
      they total at most 2^(n-1) - 1 seconds. */
  lemma TotalDelay(attempts: nat -> Attempt, n: nat)
    requires n > 0
    ensures var slept := Delays(SleepCount(Run(attempts, 0, n).1));
            && |slept| <= n - 1 && slept <= Delays(n - 1)
            && Sum(slept) <= Power2(n - 1) - 1
  {
    hide LoadOnce, Fatal, Run, Sum;
    RunExactly(attempts, 0, n);
    var m := SleepCount(Run(attempts, 0, n).1);
    DelaysSum(m);
    DelaysSum(n - 1);
    PowerMonotone(m, n - 1);
  }

  const RETRY_ATTEMPTS: nat := 3

  /** The documented third delay of four seconds never happens: with three
      attempts a load sleeps at most twice, three seconds in all. */
  lemma NoFourSecondDelay(attempts: nat -> Attempt)
    ensures var slept := Delays(SleepCount(Run(attempts, 0, RETRY_ATTEMPTS).1));
            4 !in slept && slept <= [1, 2] && Sum(slept) <= 3
  {
    TotalDelay(attempts, RETRY_ATTEMPTS);
    assert Delays(0) == [] && Delays(1) == [1] && Delays(2) == [1, 2];
    assert Power2(0) == 1 && Power2(1) == 2 && Power2(2) == 4;
  }

  /** What a failed attempt leads to, by what was raised: missing credentials, a
      runtime error and the two authorisation codes end the load, everything else
      is tried again. */
  lemma FailuresExactly(attempts: nat -> Attempt, i: nat, n: nat)
    requires i < n && LoadOnce(attempts(i)).Failed?
    ensures match LoadOnce(attempts(i)).failure
            case NonRetryable => Run(attempts, i, n) == (Refused, i + 1)
            case Runtime => Run(attempts, i, n) == (Refused, i + 1)
            case Client(code) =>
              Run(attempts, i, n) == if code in {"AccessDeniedException", "UnrecognizedClientException"}
                                     then (Refused, i + 1) else Run(attempts, i + 1, n)
            case Transient => Run(attempts, i, n) == Run(attempts, i + 1, n)
            case Unexpected => Run(attempts, i, n) == Run(attempts, i + 1, n)
  {
    hide LoadOnce;
  }

  /** What one attempt gives: without a client nothing; else the first reading that
      fails for another reason than that the secret does not exist; else all. */
  lemma LoadOnceExactly(a: Attempt)
    ensures a.client.Some? ==> LoadOnce(a) == Failed(a.client.value)
    ensures a.client.None? && (forall r :: r in a.readings ==>
                                 r.Data? || r.failure == Client("ResourceNotFoundException")) ==>
              LoadOnce(a) == Loaded(Merged(a.readings))
    ensures forall i :: 0 <= i < |a.readings| && a.client.None?
                        && a.readings[i].Raised? && a.readings[i].failure != Client("ResourceNotFoundException")
                        && (forall j :: 0 <= j < i ==> a.readings[j].Data? ||
                                                       a.readings[j].failure == Client("ResourceNotFoundException")) ==>
                        LoadOnce(a) == Failed(a.readings[i].failure)
  {
    hide Merged;
    var k := FirstFailure(a.readings);
    if k < |a.readings| {
      assert a.readings[k] in a.readings;
    }
  }

  /** Three transient failures: three attempts, sleeps of one and two seconds. */
  lemma ThreeTransientFailures(attempts: nat -> Attempt)
    requires forall k :: LoadOnce(attempts(k)) == Failed(Transient)
    ensures Run(attempts, 0, RETRY_ATTEMPTS) == (Exhausted, 3)
    ensures Delays(SleepCount(3)) == [1, 2]
  {
    hide LoadOnce;
    FailuresExactly(attempts, 0, 3);
    FailuresExactly(attempts, 1, 3);
    FailuresExactly(attempts, 2, 3);
    assert Run(attempts, 3, 3) == (Exhausted, 3);
    assert Delays(0) == [] && Delays(1) == [1] && Delays(2) == [1, 2];
  }
}
