/** The retry policy `translate_text` is decorated with: tenacity's
    `retry_if_exception_type`, `wait_exponential` and `stop_after_attempt`,
    as a recursion over the 1-based attempt number. Sleeping is not
    performed; the waits tenacity would sleep are computed values. */
module Retry {
  import opened Base

  const MaxAttempts: nat := 20
  const Multiplier: nat := 2
  const MinWait: nat := 4
  const MaxWait: nat := 60

  /** Only these two exception classes are retried. */
  predicate IsTransient(e: Error) {
    e.ResourceExhausted? || e.ServiceUnavailable?
  }

  predicate Transient<T>(r: Result<T>) {
    r.Raised? && IsTransient(r.error)
  }

  function Pow2(n: nat): (r: nat)
    ensures r >= 1
  {
    if n == 0 then 1 else 2 * Pow2(n - 1)
  }

  lemma {:induction false} Pow2Grows(a: nat, b: nat)
    requires a <= b
    ensures Pow2(a) <= Pow2(b)
    decreases b
  {
    if a < b {
      Pow2Grows(a, b - 1);
    }
  }

  function Min(a: int, b: int): int { if a <= b then a else b }
  function Max(a: int, b: int): int { if a >= b then a else b }

  /** The wait `wait_exponential(multiplier=2, min=4, max=60)` computes
      after attempt `attempt` failed: the clamp of 2 * 2^(attempt - 1). */
  function Wait(attempt: nat): (w: nat)
    requires 1 <= attempt
    ensures MinWait <= w <= MaxWait
  {
    Max(Max(0, MinWait), Min(Multiplier * Pow2(attempt - 1), MaxWait))
  }

  /** Later attempts never wait less. */
  lemma WaitGrows(a: nat, b: nat)
    requires 1 <= a <= b
    ensures Wait(a) <= Wait(b)
  {
    Pow2Grows(a - 1, b - 1);
  }

  /** The first waits are 4, 4, 8, 16, 32 and from the sixth attempt on the
      wait is pinned at the 60-second ceiling. */
  lemma WaitSchedule(attempt: nat)
    requires 1 <= attempt
    ensures attempt <= 2 ==> Wait(attempt) == 4
    ensures 3 <= attempt <= 5 ==> Wait(attempt) == Pow2(attempt)
    ensures 6 <= attempt ==> Wait(attempt) == 60
  {
    if 6 <= attempt {
      Pow2Grows(5, attempt - 1);
    }
  }

  /** The sleeps taken when the call settles on attempt `n`: one after each
      of the `n - 1` failed attempts before it, in order. */
  function Sleeps(n: nat): (s: seq<nat>)
    requires 1 <= n
    ensures |s| == n - 1
  {
    if n == 1 then [] else Sleeps(n - 1) + [Wait(n - 1)]
  }

  /** The `i`-th sleep is the wait after attempt `i + 1`, so every sleep
      lies between the floor and the ceiling. */
  lemma {:induction false} SleepsAreWaits(n: nat)
    requires 1 <= n
    ensures forall i :: 0 <= i < n - 1 ==> Sleeps(n)[i] == Wait(i + 1)
    ensures forall i :: 0 <= i < n - 1 ==> MinWait <= Sleeps(n)[i] <= MaxWait
    decreases n
  {
    if n > 1 {
      SleepsAreWaits(n - 1);
      var s := Sleeps(n);
      assert s == Sleeps(n - 1) + [Wait(n - 1)];
      forall i | 0 <= i < n - 1
        ensures s[i] == Wait(i + 1)
      {
        if i < n - 2 {
          assert s[i] == Sleeps(n - 1)[i];
        }
      }
    }
  }

  function Total(s: seq<nat>): nat {
    if s == [] then 0 else Total(s[..|s| - 1]) + s[|s| - 1]
  }

  /** However the call ends, tenacity sleeps at most 904 seconds in all
      (4 + 4 + 8 + 16 + 32 + 14 * 60, the sleeps before attempts 2 to 20). */
  lemma {:induction false} SleepBound(n: nat)
    requires 1 <= n <= MaxAttempts
    ensures Total(Sleeps(n)) <= 904
    ensures n == MaxAttempts ==> Total(Sleeps(n)) == 904
  {
    TotalSleeps(n);
  }

  /** Settling one attempt later adds one more wait. */
  lemma TotalStep(n: nat)
    requires 2 <= n
    ensures Total(Sleeps(n)) == Total(Sleeps(n - 1)) + Wait(n - 1)
  {
    var s := Sleeps(n);
    assert s[..|s| - 1] == Sleeps(n - 1);
  }

  /** The sleeps add up to 4, 8, 16, 32, 64 when the call settles on attempt
      1 to 6, and grow by 60 a step after that. */
  lemma TotalSleeps(n: nat)
    requires 1 <= n <= MaxAttempts
    ensures n == 1 ==> Total(Sleeps(n)) == 0
    ensures 2 <= n <= 6 ==> Total(Sleeps(n)) == Pow2(n)
    ensures 6 <= n ==> Total(Sleeps(n)) == 64 + 60 * (n - 6)
  {
    if n == 1 {
      assert Sleeps(1) == [];
    } else if n <= 6 {
      TotalDoubling(n);
    } else {
      TotalCapped(n);
    }
  }

  /** Before the ceiling each wait equals the total slept so far. */
  lemma {:induction false} TotalDoubling(n: nat)
    requires 2 <= n <= 6
    ensures Total(Sleeps(n)) == Pow2(n)
    decreases n
  {
    TotalStep(n);
    WaitSchedule(n - 1);
    if n == 2 {
      assert Sleeps(1) == [];
      assert Pow2(2) == 4;
    } else {
      TotalDoubling(n - 1);
      assert Pow2(n) == 2 * Pow2(n - 1);
    }
  }

  /** From the sixth attempt on every wait is the 60-second ceiling. */
  lemma {:induction false} TotalCapped(n: nat)
    requires 6 <= n
    ensures Total(Sleeps(n)) == 64 + 60 * (n - 6)
    decreases n
  {
    if n == 6 {
      TotalDoubling(6);
      assert Pow2(6) == 64;
    } else {
      TotalStep(n);
      WaitSchedule(n - 1);
      TotalCapped(n - 1);
    }
  }

  /** How a decorated call ends, with the number of attempts it took. */
  datatype Outcome<T> =
    | Returned(value: T, attempts: nat)     // an attempt returned
    | Reraised(error: Error, attempts: nat) // a non-transient exception, re-raised as is
    | GaveUp(last: Error, attempts: nat)    // the budget ran out: tenacity raises RetryError

  /** The last attempt accounts for the outcome. */
  predicate Settles<T(==)>(attempt: nat -> Result<T>, o: Outcome<T>) {
    match o
    case Returned(v, n) => attempt(n) == Ok(v)
    case Reraised(e, n) => attempt(n) == Raised(e) && !IsTransient(e)
    case GaveUp(e, n) => n == MaxAttempts && attempt(n) == Raised(e) && IsTransient(e)
  }

  /** `o` is what the policy makes of the attempts: it took between 1 and 20
      attempts, every attempt before the last raised a transient error, and
      the last one settles the outcome. */
  predicate Explains<T(==)>(attempt: nat -> Result<T>, o: Outcome<T>) {
    && 1 <= o.attempts <= MaxAttempts
    && (forall j :: 1 <= j < o.attempts ==> Transient(attempt(j)))
    && Settles(attempt, o)
  }

  /** The policy from attempt `k` on; `attempt(j)` is what the wrapped
      function does on its `j`-th call. */
  function Run<T(==)>(attempt: nat -> Result<T>, k: nat): (o: Outcome<T>)
    requires 1 <= k <= MaxAttempts
    ensures k <= o.attempts <= MaxAttempts
    ensures forall j :: k <= j < o.attempts ==> Transient(attempt(j))
    ensures Settles(attempt, o)
    decreases MaxAttempts - k
  {
    match attempt(k)
    case Ok(v) => Returned(v, k)
    case Raised(e) =>
      if !IsTransient(e) then Reraised(e, k)
      else if k >= MaxAttempts then GaveUp(e, k)
      else Run(attempt, k + 1)
  }

  function Retry<T(==)>(attempt: nat -> Result<T>): (o: Outcome<T>)
    ensures Explains(attempt, o)
  {
    Run(attempt, 1)
  }

  /** Only one outcome explains a given run of attempts, so `Retry` is
      exactly the outcome `Explains` describes. */
  lemma RetryUnique<T>(attempt: nat -> Result<T>, o: Outcome<T>)
    ensures Explains(attempt, o) <==> o == Retry(attempt)
  {
    var r := Retry(attempt);
    if Explains(attempt, o) {
      assert o.attempts == r.attempts;
    }
  }

  /** Nineteen transient failures followed by a success return that success. */
  lemma SucceedsOnLastAttempt<T>(attempt: nat -> Result<T>, v: T)
    requires forall j :: 1 <= j < MaxAttempts ==> Transient(attempt(j))
    requires attempt(MaxAttempts) == Ok(v)
    ensures Retry(attempt) == Returned(v, MaxAttempts)
  {
    RetryUnique(attempt, Returned(v, MaxAttempts));
  }

  /** Twenty transient failures end in RetryError after the twentieth attempt. */
  lemma GivesUpAfterBudget<T>(attempt: nat -> Result<T>)
    requires forall j :: 1 <= j <= MaxAttempts ==> Transient(attempt(j))
    ensures Retry(attempt).GaveUp? && Retry(attempt).attempts == MaxAttempts
    ensures attempt(MaxAttempts) == Raised(Retry(attempt).last)
  {
  }

  /** A non-transient exception on the first attempt is re-raised at once. */
  lemma OtherErrorsNotRetried<T>(attempt: nat -> Result<T>, e: Error)
    requires attempt(1) == Raised(e) && !IsTransient(e)
    ensures Retry(attempt) == Reraised(e, 1)
  {
    RetryUnique(attempt, Reraised(e, 1));
  }

  /** However a decorated call ends, it has slept at most 904 seconds. */
  lemma CallSleepBound<T>(attempt: nat -> Result<T>)
    ensures Total(Sleeps(Retry(attempt).attempts)) <= 904
  {
    SleepBound(Retry(attempt).attempts);
  }

  /** What the caller of the decorated function sees. */
  function Surface<T>(o: Outcome<T>): Result<T> {
    match o
    case Returned(v, _) => Ok(v)
    case Reraised(e, _) => Raised(e)
    case GaveUp(_, _) => Raised(RetryError)
  }
}
