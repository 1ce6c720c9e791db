/** The retry loop around every remote call of a prover (`_rpc` and `_acquire_stub` in
    modules/prover/circom/main.py and modules/prover/gnark/main.py). */
module Rpc {
  import opened Positional

  type Channel = nat

  datatype Code = Unavailable | DeadlineExceeded | Internal | OtherCode(number: int)

  /** What one attempt meets: acquire may raise (a closed pool, a cancelled wait), the call may return,
      fail with a status, or raise anything else (a cancellation included). */
  datatype Attempt =
    | NoChannel
    | Call(channel: Channel, outcome: Outcome)

  datatype Outcome = Response(value: int) | Status(code: Code) | OtherException

  datatype Result = Returned(value: int) | RaisedStatus(code: Code) | RaisedOther | RaisedByAcquire

  datatype Action = Acquired(channel: Channel) | Released(channel: Channel) | Slept(seconds: real)

  predicate Transient(a: Attempt) {
    a.Call? && a.outcome.Status? && a.outcome.code in {Unavailable, DeadlineExceeded, Internal}
  }

  function ResultOf(a: Attempt): Result {
    match a
    case NoChannel => RaisedByAcquire
    case Call(_, Response(v)) => Returned(v)
    case Call(_, Status(c)) => RaisedStatus(c)
    case Call(_, OtherException) => RaisedOther
  }

  function Doubled(base: real, times: nat): real {
    if times == 0 then base else 2.0 * Doubled(base, times - 1)
  }

  /** The pause after attempt number `attempt` (counted from 1). */
  function Backoff(baseMs: real, attempt: nat): real
    requires attempt >= 1
  {
    var backoff := Doubled(baseMs / 1000.0, attempt - 1);
    if backoff < 2.0 then backoff else 2.0
  }

  function TotalSleep(log: seq<Action>): real {
    if log == [] then 0.0
    else TotalSleep(log[..|log| - 1])
         + if log[|log| - 1].Slept? then log[|log| - 1].seconds else 0.0
  }

  /** Every acquisition is followed by the release of the same channel before anything else happens
      to channels: nothing is held at the end, and nothing is released twice or unacquired. */
  predicate Paired(log: seq<Action>)
    decreases log
  {
    || log == []
    || (log[0].Slept? && Paired(log[1..]))
    || (|log| >= 2 && log[0].Acquired? && log[1] == Released(log[0].channel) && Paired(log[2..]))
  }

  function Retries(retries: int): nat {
    if retries < 0 then 0 else retries
  }

  /** What one attempt does to channels. */
  function ActionsOf(a: Attempt): seq<Action> {
    if a.Call? then [Acquired(a.channel), Released(a.channel)] else []
  }

  /** The actions of the first `n` attempts when each but possibly the last is transient. */
  function LogOf(env: nat -> Attempt, baseMs: real, n: nat): seq<Action> {
    if n == 0 then []
    else
      var before := if n == 1 then [] else LogOf(env, baseMs, n - 1) + [Slept(Backoff(baseMs, n - 1))];
      before + ActionsOf(env(n - 1))
  }

  /** The attempt after `done` others fails transiently and a retry is left. */
  predicate Retried(env: nat -> Attempt, retries: int, done: nat) {
    Transient(env(done)) && done + 1 <= retries
  }

  /** `n` is where the loop stops: every earlier attempt is retried, and this one is not. */
  predicate StopsAt(env: nat -> Attempt, retries: int, n: nat) {
    && n >= 1
    && (forall k: nat :: k < n - 1 ==> Retried(env, retries, k))
    && !Retried(env, retries, n - 1)
  }

  /** The first attempt, counting on from `done`, that is not retried. */
  function FirstStop(env: nat -> Attempt, retries: int, done: nat): (n: nat)
    ensures n > done
    decreases if retries >= done then retries - done + 1 else 0
  {
    if Retried(env, retries, done) then FirstStop(env, retries, done + 1) else done + 1
  }

  /** The loop stops there and nowhere else. */
  lemma {:induction false} StopsAtFirst(env: nat -> Attempt, retries: int, done: nat, n: nat)
    requires n > done && forall k: nat :: k < done ==> Retried(env, retries, k)
    ensures StopsAt(env, retries, n) <==> n == FirstStop(env, retries, done)
    decreases if retries >= done then retries - done + 1 else 0
  {
    if Retried(env, retries, done) && n > done + 1 {
      StopsAtFirst(env, retries, done + 1, n);
    }
  }

  lemma {:induction false} PairedAppend(log: seq<Action>, more: seq<Action>)
    requires Paired(log) && Paired(more)
    ensures Paired(log + more)
    decreases log
  {
    if log == [] {
      assert log + more == more;
    } else if log[0].Slept? {
      PairedAppend(log[1..], more);
      assert (log + more)[1..] == log[1..] + more;
    } else {
      PairedAppend(log[2..], more);
      assert (log + more)[2..] == log[2..] + more;
    }
  }

  lemma {:induction false} TotalSleepAppend(log: seq<Action>, more: seq<Action>)
    ensures TotalSleep(log + more) == TotalSleep(log) + TotalSleep(more)
  {
    if more == [] {
      assert log + more == log;
    } else {
      TotalSleepAppend(log, more[..|more| - 1]);
      assert (log + more)[..|log + more| - 1] == log + more[..|more| - 1];
    }
  }

  lemma PairAlone(ch: Channel)
    ensures Paired([Acquired(ch), Released(ch)]) && TotalSleep([Acquired(ch), Released(ch)]) == 0.0
  {
    var pair := [Acquired(ch), Released(ch)];
    assert pair[2..] == [] && pair[..1] == [Acquired(ch)] && pair[..1][..0] == [];
    assert TotalSleep(pair[..1]) == 0.0;
  }

  lemma PauseAlone(seconds: real)
    ensures Paired([Slept(seconds)]) && TotalSleep([Slept(seconds)]) == seconds
  {
    assert [Slept(seconds)][1..] == [] && [Slept(seconds)][..0] == [];
  }

  lemma AttemptAlone(a: Attempt)
    ensures Paired(ActionsOf(a)) && TotalSleep(ActionsOf(a)) == 0.0
  {
    if a.Call? {
      PairAlone(a.channel);
    }
  }

  lemma BackoffBound(baseMs: real, attempt: nat)
    requires attempt >= 1
    ensures Backoff(baseMs, attempt) <= 2.0
  {
  }

  lemma {:induction false} LogBounds(env: nat -> Attempt, baseMs: real, n: nat)
    requires n >= 1
    ensures Paired(LogOf(env, baseMs, n))
    ensures TotalSleep(LogOf(env, baseMs, n)) <= 2.0 * (n - 1) as real
  {
    hide Paired, TotalSleep, Backoff, ActionsOf;
    var last := ActionsOf(env(n - 1));
    AttemptAlone(env(n - 1));
    if n > 1 {
      var seconds := Backoff(baseMs, n - 1);
      var before := LogOf(env, baseMs, n - 1);
      LogBounds(env, baseMs, n - 1);
      BackoffBound(baseMs, n - 1);
      PauseAlone(seconds);
      PairedAppend(before, [Slept(seconds)]);
      TotalSleepAppend(before, [Slept(seconds)]);
      PairedAppend(before + [Slept(seconds)], last);
      TotalSleepAppend(before + [Slept(seconds)], last);
    } else {
      assert [] + last == last;
    }
  }

  // ---- the log, entry by entry ----

  /** The pause after the attempt with `k` others before it: the base doubled k times, or two seconds. */
  function Pause(baseMs: real, k: nat): real {
    var pause := baseMs / 1000.0 * Pow(2, k) as real;
    if pause < 2.0 then pause else 2.0
  }

  lemma {:induction false} DoubledIs(base: real, times: nat)
    ensures Doubled(base, times) == base * Pow(2, times) as real
  {
    if times > 0 {
      DoubledIs(base, times - 1);
      PowStep(2, times);
    }
  }

  lemma BackoffIs(baseMs: real, k: nat)
    ensures Backoff(baseMs, k + 1) == Pause(baseMs, k)
  {
    hide Doubled, Pow;
    DoubledIs(baseMs / 1000.0, k);
  }

  /** The three entries of an attempt that is retried. */
  predicate RetriedAt(log: seq<Action>, k: nat, channel: Channel, pause: real) {
    && 3 * k + 2 < |log|
    && log[3 * k] == Acquired(channel) && log[3 * k + 1] == Released(channel) && log[3 * k + 2] == Slept(pause)
  }

  /** What a log of `n` attempts is: for each but the last its channel, acquired and released, and the pause
      after it; and for the last its channel, if it got one. */
  predicate LogIs(log: seq<Action>, env: nat -> Attempt, baseMs: real, n: nat)
    requires n >= 1
  {
    var last := env(n - 1);
    && |log| == 3 * (n - 1) + (if last.Call? then 2 else 0)
    && (forall k: nat :: k < n - 1 ==> env(k).Call? && RetriedAt(log, k, env(k).channel, Pause(baseMs, k)))
    && (last.Call? ==> log[3 * n - 3] == Acquired(last.channel) && log[3 * n - 2] == Released(last.channel))
  }

  lemma OneMoreAttempt(before: seq<Action>, env: nat -> Attempt, baseMs: real, n: nat)
    requires n >= 2 && LogIs(before, env, baseMs, n - 1) && env(n - 2).Call?
    ensures LogIs(before + [Slept(Pause(baseMs, n - 2))] + ActionsOf(env(n - 1)), env, baseMs, n)
  {
    hide Pause;
    var log := before + [Slept(Pause(baseMs, n - 2))] + ActionsOf(env(n - 1));
    forall k: nat | k < n - 1
      ensures RetriedAt(log, k, env(k).channel, Pause(baseMs, k))
    {
      if k < n - 2 {
        EarlierStays(before, log, k, env(k).channel, Pause(baseMs, k));
      }
    }
  }

  lemma EarlierStays(before: seq<Action>, log: seq<Action>, k: nat, channel: Channel, pause: real)
    requires before <= log && RetriedAt(before, k, channel, pause)
    ensures RetriedAt(log, k, channel, pause)
  {
    assert forall i :: 0 <= i < |before| ==> before[i] == log[i];
  }

  lemma {:induction false} LogIsSo(env: nat -> Attempt, baseMs: real, n: nat)
    requires n >= 1 && forall k: nat :: k < n - 1 ==> env(k).Call?
    ensures LogIs(LogOf(env, baseMs, n), env, baseMs, n)
  {
    hide Backoff, Pause;
    if n > 1 {
      hide LogIs, ActionsOf;
      LogIsSo(env, baseMs, n - 1);
      BackoffIs(baseMs, n - 2);
      OneMoreAttempt(LogOf(env, baseMs, n - 1), env, baseMs, n);
    }
  }

  /** An attempt that failed with a status worth another try. */
  predicate MayRetry(a: Attempt) {
    a.Call? && a.outcome.Status? && !a.outcome.code.OtherCode?
  }

  lemma StopMeans(env: nat -> Attempt, retries: int, n: nat)
    requires StopsAt(env, retries, n)
    ensures n >= 1 && n <= Retries(retries) + 1
    ensures forall k: nat :: k < n - 1 ==> MayRetry(env(k)) && env(k).Call? && k < retries
    ensures n <= retries ==> !MayRetry(env(n - 1))
  {
    forall k: nat | k < n - 1
      ensures MayRetry(env(k)) && env(k).Call? && k < retries
    {
      assert Retried(env, retries, k);
    }
    assert n > 1 ==> Retried(env, retries, n - 2);
  }

  /** One call with retries. It stops at the first attempt that is not transient or has no retry left
      and gives back that attempt's result; it makes at most retries + 1 attempts, sleeps at most two
      seconds per retry, and on every way out has released exactly the channels it acquired. */
  method CallWithRetries(env: nat -> Attempt, retries: int, baseMs: real)
    returns (result: Result, attempts: nat, log: seq<Action>)
    ensures StopsAt(env, retries, attempts) && attempts == FirstStop(env, retries, 0)
    ensures forall k: nat :: k < attempts - 1 ==> MayRetry(env(k)) && k < retries
    ensures attempts <= retries ==> !MayRetry(env(attempts - 1))
    ensures match env(attempts - 1)
            case NoChannel => result == RaisedByAcquire
            case Call(_, outcome) =>
              result == if outcome.Response? then Returned(outcome.value)
                        else if outcome.Status? then RaisedStatus(outcome.code) else RaisedOther
    ensures log == LogOf(env, baseMs, attempts) && LogIs(log, env, baseMs, attempts)
    ensures 1 <= attempts <= Retries(retries) + 1
    ensures Paired(log) && TotalSleep(log) <= 2.0 * Retries(retries) as real
  {
    hide LogOf, LogIs, Paired, TotalSleep, StopsAt, FirstStop, MayRetry;
    attempts, result, log := Attempts(env, retries, baseMs);
    StopsAtFirst(env, retries, 0, attempts);
    StopMeans(env, retries, attempts);
    LogIsSo(env, baseMs, attempts);
    LogBounds(env, baseMs, attempts);
  }

  method Attempts(env: nat -> Attempt, retries: int, baseMs: real)
    returns (attempts: nat, result: Result, log: seq<Action>)
    ensures StopsAt(env, retries, attempts)
    ensures result == ResultOf(env(attempts - 1))
    ensures log == LogOf(env, baseMs, attempts)
  {
    attempts := 0;
    log := [];
    while true
      invariant attempts >= 0
      invariant forall k: nat :: k < attempts ==> Retried(env, retries, k)
      invariant log == if attempts == 0 then []
                       else LogOf(env, baseMs, attempts) + [Slept(Backoff(baseMs, attempts))]
      decreases if retries - attempts >= 0 then retries - attempts + 1 else 0
    {
      attempts := attempts + 1;
      var attempt := env(attempts - 1);
      if attempt.NoChannel? {
        return attempts, RaisedByAcquire, log;
      }
      log := log + [Acquired(attempt.channel)];
      var outcome := attempt.outcome;
      log := log + [Released(attempt.channel)];
      match outcome {
        case Response(v) => return attempts, Returned(v), log;
        case OtherException => return attempts, RaisedOther, log;
        case Status(code) =>
          if attempts <= retries && code in {Unavailable, DeadlineExceeded, Internal} {
            log := log + [Slept(Backoff(baseMs, attempts))];
          } else {
            return attempts, RaisedStatus(code), log;
          }
      }
    }
  }
}
