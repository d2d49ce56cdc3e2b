/** The exponential backoff schedule, written three ways, and the retry loop. */
module Backoff {
  import opened Arithmetic

  const SECOND: nat := 1_000_000_000   // time.Duration counts nanoseconds
  const SSH_RETRY_COUNT: nat := 10
  const SSH_RETRY_INITIAL_DELAY: nat := 2 * SECOND
  const SSH_RETRY_MAX_DELAY: nat := 60 * SECOND

  function Cap(wait: int, max: int): int {
    if wait > max then max else wait
  }

  /** Wait number k when each wait is doubled and capped after use. */
  function Stepwise(initial: nat, max: nat, k: nat): int {
    if k == 0 then initial else Cap(2 * Stepwise(initial, max, k - 1), max)
  }

  /** Wait number k computed directly. */
  function Closed(initial: nat, max: nat, k: nat): int {
    Cap(initial * Pow2(k), max)
  }

  /** The direct computation in int64, as the node bootstrap writes it. */
  function Closed64(initial: nat, max: nat, k: nat): int {
    Cap(Int64(initial * Int64(Pow2(k))), max)
  }

  lemma {:induction false} StepwiseIsClosed(initial: nat, max: nat, k: nat)
    requires initial <= max
    ensures Stepwise(initial, max, k) == Closed(initial, max, k)
  {
    if k > 0 {
      StepwiseIsClosed(initial, max, k - 1);
      OneMoreDoubling(initial, k);
    }
  }

  /** The two schedules agree at every retry exactly when the initial delay is within the maximum. */
  lemma SchedulesAgree(initial: nat, max: nat)
    ensures (forall k: nat :: Stepwise(initial, max, k) == Closed(initial, max, k)) <==> initial <= max
  {
    if initial <= max {
      forall k: nat ensures Stepwise(initial, max, k) == Closed(initial, max, k) { StepwiseIsClosed(initial, max, k); }
    } else {
      assert Stepwise(initial, max, 0) == initial && Closed(initial, max, 0) == max by { assert Pow2(0) == 1; }
    }
  }

  // ----- The direct computation in 64 bits

  /** The int64 waits 0..k are the direct ones. */
  ghost predicate ExactUpTo(initial: nat, max: nat, k: nat) {
    forall j: nat :: j <= k ==> ExactAt(initial, max, j)
  }

  predicate ExactAt(initial: nat, max: nat, k: nat) {
    Closed64(initial, max, k) == Closed(initial, max, k)
  }

  lemma ProductAtLeast(a: nat, b: nat)
    requires a > 0
    ensures b <= a * b && (a > 1 ==> 2 * b <= a * b)
  {
    assert a * b == (a - 1) * b + b;
    if a > 1 { assert a * b == (a - 2) * b + 2 * b; }
  }

  lemma OneMoreDoubling(initial: nat, k: nat)
    requires k > 0
    ensures initial * Pow2(k) == 2 * (initial * Pow2(k - 1))
  {
    DoubleFactor(Pow2(k - 1), initial);
  }

  lemma {:induction false} ProductMonotone(initial: nat, j: nat, k: nat)
    requires j <= k
    ensures initial * Pow2(j) <= initial * Pow2(k)
  {
    if j < k {
      ProductMonotone(initial, j, k - 1);
      OneMoreDoubling(initial, k);
    }
  }

  lemma ExactWhileItFits(initial: nat, max: nat, k: nat)
    requires initial * Pow2(k) < TWO_63
    ensures ExactAt(initial, max, k)
  {
    if initial > 0 { ProductAtLeast(initial, Pow2(k)); }
  }

  /** The first product that does not fit wraps to a negative number. */
  lemma FirstWrapIsNegative(initial: nat, max: nat, k: nat)
    requires TWO_63 <= initial * Pow2(k) < TWO_64
    ensures Closed64(initial, max, k) < 0
  {
    ProductAtLeast(initial, Pow2(k));
    assert initial == 1 || Pow2(k) < TWO_63;
  }

  lemma {:induction false} FirstWrap(initial: nat, k: nat) returns (j: nat)
    requires initial < TWO_63 <= initial * Pow2(k)
    ensures j <= k && TWO_63 <= initial * Pow2(j) < TWO_64
  {
    j := k;
    if initial * Pow2(k) >= TWO_64 {
      OneMoreDoubling(initial, k);
      j := FirstWrap(initial, k - 1);
    }
  }

  /** Delays are int64: all waits up to k are exact if and only if the last product fits. */
  lemma ExactExactlyWhileItFits(initial: nat, max: nat, k: nat)
    requires initial < TWO_63
    ensures ExactUpTo(initial, max, k) <==> initial * Pow2(k) < TWO_63
  {
    if initial * Pow2(k) < TWO_63 {
      forall j: nat | j <= k ensures ExactAt(initial, max, j) {
        ProductMonotone(initial, j, k);
        ExactWhileItFits(initial, max, j);
      }
    } else {
      var j := FirstWrap(initial, k);
      FirstWrapIsNegative(initial, max, j);
      assert !ExactAt(initial, max, j);
    }
  }

  /** The three schedules are one, wait by wait up to k, if and only if the last product fits. */
  lemma SchedulesAgreeIn64Bits(initial: nat, max: nat, k: nat)
    requires initial <= max < TWO_63
    ensures (forall j: nat :: j <= k ==> Closed64(initial, max, j) == Stepwise(initial, max, j)) <==>
            initial * Pow2(k) < TWO_63
  {
    ExactExactlyWhileItFits(initial, max, k);
    forall j: nat ensures Stepwise(initial, max, j) == Closed(initial, max, j) { StepwiseIsClosed(initial, max, j); }
    assert ExactUpTo(initial, max, k) <==>
           forall j: nat :: j <= k ==> Closed64(initial, max, j) == Stepwise(initial, max, j) by {
      if ExactUpTo(initial, max, k) {
        forall j: nat | j <= k ensures Closed64(initial, max, j) == Stepwise(initial, max, j) {
          assert ExactAt(initial, max, j);
        }
      }
    }
  }

  /** For the configured delays that is retry 32; ten are made. */
  lemma ConfiguredDelaysExactly(k: nat)
    ensures (forall j: nat :: j <= k ==> Closed64(SSH_RETRY_INITIAL_DELAY, SSH_RETRY_MAX_DELAY, j) ==
                                         Stepwise(SSH_RETRY_INITIAL_DELAY, SSH_RETRY_MAX_DELAY, j)) <==> k <= 32
  {
    SchedulesAgreeIn64Bits(SSH_RETRY_INITIAL_DELAY, SSH_RETRY_MAX_DELAY, k);
    Pow2Of32();
    assert Pow2(33) == 2 * Pow2(32);
    if k <= 32 { Pow2Monotone(k, 32); } else { Pow2Monotone(33, k); }
  }

  /** One retry later it would have wrapped to a negative duration. */
  lemma NextDelayOverflows()
    ensures Closed64(SSH_RETRY_INITIAL_DELAY, SSH_RETRY_MAX_DELAY, 33) < 0
  {
    Pow2Of32();
    assert Pow2(33) == 2 * Pow2(32);
    FirstWrapIsNegative(SSH_RETRY_INITIAL_DELAY, SSH_RETRY_MAX_DELAY, 33);
  }

  lemma Pow2Of32()
    ensures Pow2(32) == 0x1_0000_0000
  {
    assert Pow2(8) == 256;
    Pow2Sum(8, 8);
    Pow2Sum(16, 16);
  }

  // ----- retry.Do

  /** `scale` is the multiplication of a duration by the backoff factor, rounding included. */
  datatype Config = Config(maxRetries: int, initialWait: nat, maxWait: nat, scale: int -> int)

  /** How one call of fn ends; what counts as transient is IsRetryable's business. */
  datatype Outcome = Success | Transient(error: string) | Permanent(error: string)

  datatype DoResult = Done | Failed(error: string) | Cancelled

  function NextWait(cfg: Config, wait: int): int {
    Cap(cfg.scale(wait), cfg.maxWait)
  }

  /** Wait number k of the configured schedule. */
  function Schedule(cfg: Config, k: nat): int {
    if k == 0 then cfg.initialWait else NextWait(cfg, Schedule(cfg, k - 1))
  }

  /** Every wait of the schedule is at most this. */
  function LongestWait(cfg: Config): nat {
    if cfg.initialWait > cfg.maxWait then cfg.initialWait else cfg.maxWait
  }

  /**
   With backoff 2 the loop waits the stepwise schedule, hence the closed one.  Doubling need be exact only
   for the waits that occur; float64 doubles every duration up to 2^53 ns exactly.
   */
  lemma {:induction false} ScheduleOfDoubling(cfg: Config, k: nat)
    requires forall w: int :: 0 <= w <= LongestWait(cfg) ==> cfg.scale(w) == 2 * w
    ensures 0 <= Schedule(cfg, k) <= LongestWait(cfg)
    ensures Schedule(cfg, k) == Stepwise(cfg.initialWait, cfg.maxWait, k)
    ensures cfg.initialWait <= cfg.maxWait ==> Schedule(cfg, k) == Closed(cfg.initialWait, cfg.maxWait, k)
  {
    if k > 0 { ScheduleOfDoubling(cfg, k - 1); }
    if cfg.initialWait <= cfg.maxWait { StepwiseIsClosed(cfg.initialWait, cfg.maxWait, k); }
  }

  /**
   outcomes(k) is how call k ends, stopsBefore(k) and stopsWaiting(k) say whether the context is done
   before it and during the wait after it.
   */
  method Do(cfg: Config, outcomes: nat -> Outcome, stopsBefore: nat -> bool, stopsWaiting: nat -> bool)
    returns (r: DoResult, calls: nat, waits: seq<int>)
    ensures cfg.maxRetries >= 0 ==> calls <= cfg.maxRetries + 1
    ensures cfg.maxRetries < 0 ==> calls == 0 && r == Done
    ensures forall k :: 0 <= k < calls - 1 ==> outcomes(k).Transient?
    ensures r == Done && cfg.maxRetries >= 0 ==> calls > 0 && outcomes(calls - 1).Success?
    ensures calls > 0 && outcomes(calls - 1).Success? ==> r == Done
    ensures calls > 0 && outcomes(calls - 1).Permanent? ==> r == Failed(outcomes(calls - 1).error)
    ensures r.Failed? ==> calls > 0 && !outcomes(calls - 1).Success? && r.error == outcomes(calls - 1).error
    ensures r.Failed? && outcomes(calls - 1).Transient? ==> calls == cfg.maxRetries + 1
    ensures r == Cancelled ==> stopsBefore(calls) || (calls > 0 && stopsWaiting(calls - 1))
    ensures forall k :: 0 <= k < calls ==> !stopsBefore(k)
    ensures forall k :: 0 <= k < calls - 1 ==> !stopsWaiting(k)
    ensures |waits| <= calls && (calls > 0 ==> calls - 1 <= |waits|)
    ensures forall k :: 0 <= k < |waits| ==> waits[k] == Schedule(cfg, k)
  {
    var wait, lastErr := cfg.initialWait as int, "";
    calls, waits := 0, [];
    var attempt := 0;
    while attempt <= cfg.maxRetries
      invariant 0 <= attempt && calls == attempt == |waits|
      invariant attempt <= if cfg.maxRetries >= 0 then cfg.maxRetries else 0
      invariant forall k :: 0 <= k < calls ==> outcomes(k).Transient?
      invariant forall k :: 0 <= k < calls ==> !stopsBefore(k) && !stopsWaiting(k)
      invariant forall k :: 0 <= k < |waits| ==> waits[k] == Schedule(cfg, k)
      invariant wait == Schedule(cfg, attempt)
      decreases cfg.maxRetries - attempt
    {
      if stopsBefore(attempt) {
        return Cancelled, calls, waits;
      }
      calls := calls + 1;
      match outcomes(attempt) {
        case Success => return Done, calls, waits;
        case Permanent(e) => return Failed(e), calls, waits;
        case Transient(e) => lastErr := e;
      }
      if attempt == cfg.maxRetries {
        return Failed(lastErr), calls, waits;
      }
      waits := waits + [wait];
      if stopsWaiting(attempt) {
        return Cancelled, calls, waits;
      }
      wait := NextWait(cfg, wait);
      attempt := attempt + 1;
    }
    r := Done;
  }
}
