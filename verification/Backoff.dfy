/** The reconnect loop: how long it sleeps after each failed open, and what it counts. */
module Backoff {
  import opened Powers

  /** One turn of the loop: the open fails, or it succeeds and the connection is held until it drops or
      until the stream is stopped. */
  datatype Attempt = Failed | Dropped | Stopped

  /** Consecutive failures that end just before attempt n. */
  function Failures(attempts: seq<Attempt>, n: nat): (f: nat)
    requires n <= |attempts|
    ensures f <= n
  {
    if n == 0 || !attempts[n - 1].Failed? then 0 else 1 + Failures(attempts, n - 1)
  }

  function Min(a: nat, b: nat): nat {
    if a <= b then a else b
  }

  /** The loop variable after f consecutive failures. */
  function BackoffAfter(initial: nat, max: nat, f: nat): nat {
    if f == 0 then initial else Min(BackoffAfter(initial, max, f - 1) * 2, max)
  }

  /** One sleep per failed attempt, each as long as the failures just before it call for. */
  function Sleeps(initial: nat, max: nat, attempts: seq<Attempt>, n: nat): seq<nat>
    requires n <= |attempts|
  {
    if n == 0 then []
    else if !attempts[n - 1].Failed? then Sleeps(initial, max, attempts, n - 1)
    else Sleeps(initial, max, attempts, n - 1) + [BackoffAfter(initial, max, Failures(attempts, n) - 1)]
  }

  /** `_run`: the outcome of each turn is given. The loop makes its turns in order until one ends with
      a stop; a connection that drops is a reconnect, one that a stop ends is none. */
  method Run(initial: nat, max: nat, attempts: seq<Attempt>)
    returns (sleeps: seq<nat>, reconnects: nat, made: nat)
    ensures made <= |attempts| && (made > 0 ==> Stopped !in attempts[..made - 1])
    ensures made == |attempts| || (made > 0 && attempts[made - 1] == Stopped)
    ensures sleeps == Sleeps(initial, max, attempts, made)
    ensures reconnects == |set i | 0 <= i < made && attempts[i] == Dropped|
  {
    sleeps, reconnects, made := [], 0, 0;
    var backoff := initial;
    var stopping := false;
    while !stopping && made < |attempts|
      invariant made <= |attempts|
      invariant stopping <==> made > 0 && attempts[made - 1] == Stopped
      invariant made > 0 ==> Stopped !in attempts[..made - 1]
      invariant sleeps == Sleeps(initial, max, attempts, made)
      invariant backoff == BackoffAfter(initial, max, Failures(attempts, made))
      invariant reconnects == |set i | 0 <= i < made && attempts[i] == Dropped|
      decreases |attempts| - made
    {
      ghost var drops := set i | 0 <= i < made && attempts[i] == Dropped;
      assert (set i | 0 <= i < made + 1 && attempts[i] == Dropped) ==
             if attempts[made] == Dropped then drops + {made} else drops;
      var attempt := attempts[made];
      made := made + 1;
      if attempt == Failed {
        sleeps := sleeps + [backoff];
        backoff := Min(backoff * 2, max);
        continue;
      }
      backoff := initial;
      stopping := attempt == Stopped;
      if !stopping {
        reconnects := reconnects + 1;
      }
    }
  }

  lemma {:induction false} ClosedForm(initial: nat, max: nat, f: nat)
    ensures BackoffAfter(initial, max, f) ==
            if f == 0 then initial else Min(initial * Power2(f), max)
    decreases f
  {
    if f > 0 {
      ClosedForm(initial, max, f - 1);
      assert initial * Power2(f) == initial * Power2(f - 1) * 2;
    }
  }

  /** The loop variable after f failures in a row, which is the sleep that the next failure causes, is
      `min(initial * 2^f, max)` for every f if and only if the initial backoff does not exceed the maximum. */
  lemma BackoffFormulaIff(initial: nat, max: nat)
    ensures (forall f: nat :: BackoffAfter(initial, max, f) == Min(initial * Power2(f), max)) <==>
            initial <= max
  {
    assert initial * Power2(0) == initial;
    if initial <= max {
      forall f: nat
        ensures BackoffAfter(initial, max, f) == Min(initial * Power2(f), max)
      {
        ClosedForm(initial, max, f);
      }
    } else {
      assert BackoffAfter(initial, max, 0) == initial;
    }
  }

  /** While opens keep failing the sleeps never get shorter, and never exceed the maximum. */
  lemma BackoffGrows(initial: nat, max: nat, f: nat)
    requires initial <= max
    ensures BackoffAfter(initial, max, f) <= BackoffAfter(initial, max, f + 1) <= max
  {
    ClosedForm(initial, max, f);
    ClosedForm(initial, max, f + 1);
    assert initial * Power2(f + 1) == initial * Power2(f) * 2;
    assert initial * Power2(0) == initial;
  }

  lemma {:induction false} SleepCount(initial: nat, max: nat, attempts: seq<Attempt>, n: nat)
    requires n <= |attempts|
    ensures |Sleeps(initial, max, attempts, n)| == |set i | 0 <= i < n && attempts[i] == Failed|
  {
    if n > 0 {
      SleepCount(initial, max, attempts, n - 1);
      var failed := set i | 0 <= i < n - 1 && attempts[i] == Failed;
      assert (set i | 0 <= i < n && attempts[i] == Failed) ==
             if attempts[n - 1] == Failed then failed + {n - 1} else failed;
    }
  }

  /** The n-th failure in a row after any successful open, or after the start, sleeps for
      `min(initial * 2^(n-1), max)`; the sleep is the last entry of the log at that moment. */
  lemma SleepAfterRun(initial: nat, max: nat, attempts: seq<Attempt>, at: nat, n: nat)
    requires initial <= max && 1 <= n <= at + 1 <= |attempts|
    requires forall i :: at + 1 - n <= i <= at ==> attempts[i] == Failed
    requires at + 1 == n || attempts[at - n] != Failed
    ensures Sleeps(initial, max, attempts, at + 1) ==
            Sleeps(initial, max, attempts, at) + [Min(initial * Power2(n - 1), max)]
  {
    RunLength(attempts, at, n);
    BackoffFormulaIff(initial, max);
  }

  lemma {:induction false} RunLength(attempts: seq<Attempt>, at: nat, n: nat)
    requires 1 <= n <= at + 1 <= |attempts|
    requires forall i :: at + 1 - n <= i <= at ==> attempts[i] == Failed
    requires at + 1 == n || attempts[at - n] != Failed
    ensures Failures(attempts, at + 1) == n
    decreases n
  {
    if n > 1 {
      RunLength(attempts, at - 1, n - 1);
    }
  }
}
