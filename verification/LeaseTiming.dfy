/** The renewal schedule keeps the lease from expiring. */
module LeaseTiming {
  import opened Options
  import opened LeaseProtocol
  import opened LeaseInvariant
  import opened LeaseSafety

  /** The k-th tick of a ticker started at `start`. */
  function Tick(start: int, period: int, k: nat): int {
    if k == 0 then start else Tick(start, period, k - 1) + period
  }

  /** A renewal of h, stamped at or after `tick`, lands within the request timeout of it. */
  predicate RenewsAt(states: seq<State>, steps: seq<Step>, i: nat, h: string, tick: int)
    requires |states| == |steps| + 1 && i < |steps|
  {
    && Lands?(states[i], steps[i])
    && var r := states[i].net[steps[i].id];
       r.Renew? && r.sender == h && tick <= r.stamp && states[i].clock <= tick + RENEW_REQUEST_TIMEOUT
  }

  ghost predicate Renews(states: seq<State>, steps: seq<Step>, h: string, tick: int)
    requires |states| == |steps| + 1
  {
    exists i :: 0 <= i < |steps| && RenewsAt(states, steps, i, h, tick)
  }

  /** Of any two consecutive ticks whose windows have passed by state m, one was renewed. */
  ghost predicate NoTwoMissed(states: seq<State>, steps: seq<Step>, h: string, start: int, period: int, m: nat)
    requires |states| == |steps| + 1 && m < |states|
  {
    forall k: nat :: 1 <= k && Tick(start, period, k) + period + RENEW_REQUEST_TIMEOUT < states[m].clock ==>
      Renews(states, steps, h, Tick(start, period, k)) || Renews(states, steps, h, Tick(start, period, k) + period)
  }

  /**
   Run h gets the lock at step a and still holds it at state m.  Its lease duration is a whole number
   of seconds, at least 90; the winning attempt took at most a period less the request timeout
   (RenewTime of the lease it won is the instant the attempt began); renewals keep to the ticker.
   */
  ghost predicate OnSchedule(states: seq<State>, steps: seq<Step>, a: nat, m: nat, h: string) {
    && Execution(states, steps) && PromptDeletes(states, steps) && a < m < |states|
    && steps[a] == Deliver(h) && h in states[0].runs && h in states[a].runs && h in states[m].runs
    && states[a].runs[h].phase.AwaitAcquire? && states[m].runs[h].phase.Holding?
    && h in states[a + 1].runs && states[a + 1].runs[h].phase.Holding?
    && states[a + 1].runs[h].won.Some? && states[a + 1].runs[h].won.value.renewTime.Some?
    && var d := states[0].runs[h].duration;
       && 90 * SECOND <= d < 0x8000_0000 * SECOND && d % SECOND == 0
       && states[a].clock - states[a + 1].runs[h].won.value.renewTime.value <= d / 3 - RENEW_REQUEST_TIMEOUT
       && NoTwoMissed(states, steps, h, states[a].clock, d / 3, m)
  }

  lemma {:induction false} ClockMonotone(states: seq<State>, steps: seq<Step>, i: nat, j: nat)
    requires Execution(states, steps) && i <= j < |states|
    ensures states[i].clock <= states[j].clock
    decreases j
  {
    if i < j {
      ClockMonotone(states, steps, i, j - 1);
      assert StepAt(states, steps, j - 1);
      StoreStep(states[j - 1], steps[j - 1]);
    }
  }

  lemma TickIsLater(start: int, period: nat, k: nat)
    requires 1 <= k
    ensures start + period <= Tick(start, period, k)
  {
    if k > 1 { TickIsLater(start, period, k - 1); }
  }

  /** Past the second tick's window, some tick lies two windows back. */
  lemma TickBehind(start: int, period: int, now: int, k: nat) returns (n: nat)
    requires 0 < period && 1 <= k && Tick(start, period, k) + period + RENEW_REQUEST_TIMEOUT < now
    ensures 1 <= n
    ensures Tick(start, period, n) + period + RENEW_REQUEST_TIMEOUT < now
    ensures now <= Tick(start, period, n) + 2 * period + RENEW_REQUEST_TIMEOUT
    decreases now - Tick(start, period, k)
  {
    if now <= Tick(start, period, k) + 2 * period + RENEW_REQUEST_TIMEOUT {
      n := k;
    } else {
      n := TickBehind(start, period, now, k + 1);
    }
  }

  predicate Fresh(s: State, h: string, uid: nat) {
    Names(s, h, uid) && !LeaseExpired(s.store.value, s.clock, 0)
  }

  /** The winning lease was stored at some state not after the reply. */
  lemma WinWasStored(states: seq<State>, steps: seq<Step>, a: nat, m: nat, h: string) returns (i: nat)
    requires OnSchedule(states, steps, a, m, h)
    ensures i <= a && states[i].store == states[a + 1].runs[h].won
    ensures HolderOf(states[i].store.value) == h
  {
    assert StepAt(states, steps, a);
    AlwaysRemembers(states, steps, a);
    AlwaysInv(states, steps, a + 1);
    assert RunOk(states[a + 1], h);
    var id := states[a].runs[h].phase.id;
    assert states[a].replies[id].Accepted? && states[a + 1].runs[h].won == states[a].replies[id].lease;
    assert WasStored(states, a, states[a + 1].runs[h].won.value);
    i :| 0 <= i <= a && states[i].store == Some(states[a + 1].runs[h].won.value);
  }

  /** The stored RenewTime is at least that of any renewal that landed while the run was named. */
  lemma RenewalIsKept(states: seq<State>, steps: seq<Step>, i: nat, n: nat, h: string, uid: nat, tick: int)
    requires Execution(states, steps) && i < n < |states| && h in states[0].runs
    requires RenewsAt(states, steps, i, h, tick)
    requires Names(states[i + 1], h, uid) && Names(states[n], h, uid)
    ensures states[n].store.value.renewTime.Some? && tick <= states[n].store.value.renewTime.value
  {
    assert StepAt(states, steps, i);
    StoreStep(states[i], steps[i]);
    RenewTimeMonotone(states, steps, i + 1, n);
  }

  lemma StoredDuration(states: seq<State>, steps: seq<Step>, n: nat, h: string, uid: nat)
    requires Execution(states, steps) && n < |states| && h in states[0].runs && Names(states[n], h, uid)
    ensures states[n].store.value.renewTime.Some?
    ensures states[n].store.value.durationSeconds == Some(Int32(states[0].runs[h].duration / SECOND))
  {
    AlwaysInv(states, steps, n);
    SameRuns(states, steps, n);
  }

  lemma WholeSeconds(d: nat)
    requires d < 0x8000_0000 * SECOND && d % SECOND == 0
    ensures Int32(d / SECOND) * SECOND == d
  {
  }

  /** Named at every state since the win, the run has an unexpired lease now. */
  lemma FreshNow(states: seq<State>, steps: seq<Step>, a: nat, m: nat, h: string, i: nat, n: nat)
    requires OnSchedule(states, steps, a, m, h)
    requires i <= a && i <= n <= m && states[i].store == states[a + 1].runs[h].won
    requires forall q :: i <= q <= n ==> Names(states[q], h, states[i].store.value.uid)
    ensures Fresh(states[n], h, states[i].store.value.uid)
  {
    var start, uid, d := states[a].clock, states[i].store.value.uid, states[0].runs[h].duration;
    var period, now := d / 3, states[n].clock;
    StoredDuration(states, steps, n, h, uid);
    WholeSeconds(d);
    RenewTimeMonotone(states, steps, i, n);
    assert Tick(start, period, 1) == Tick(start, period, 0) + period == start + period;
    assert 3 * period <= d && RENEW_REQUEST_TIMEOUT <= period;
    if Tick(start, period, 1) + period + RENEW_REQUEST_TIMEOUT < now {
      var k := TickBehind(start, period, now, 1);
      ClockMonotone(states, steps, n, m);
      TickIsLater(start, period, k);
      var tick := if Renews(states, steps, h, Tick(start, period, k)) then Tick(start, period, k)
                  else Tick(start, period, k) + period;
      assert Renews(states, steps, h, tick);
      var r :| 0 <= r < |steps| && RenewsAt(states, steps, r, h, tick);
      if n <= r { ClockMonotone(states, steps, n, r); }
      AlwaysInv(states, steps, r);
      assert RequestOk(states[r], states[r].net[steps[r].id]);
      if r < i { ClockMonotone(states, steps, r, a); }
      RenewalIsKept(states, steps, r, n, h, uid, tick);
    }
    assert now <= states[n].store.value.renewTime.value + d;
  }

  /** One more step leaves the run named: its lease was fresh, and it has not begun to release. */
  lemma NamedNext(states: seq<State>, steps: seq<Step>, a: nat, m: nat, h: string, uid: nat, n: nat)
    requires OnSchedule(states, steps, a, m, h) && n < m && Fresh(states[n], h, uid)
    ensures Names(states[n + 1], h, uid) && !SeizedAfterExpiry(states[n], steps[n], h)
  {
    AlwaysInv(states, steps, n);
    SameRuns(states, steps, n);
    assert StepAt(states, steps, n);
    StoredDuration(states, steps, n, h, uid);
    NamingStep(states[n], steps[n], h, uid);
    if Deletes(states[n], steps[n], h) {
      assert RequestOk(states[n], states[n].net[steps[n].id]);
      ReleaseStaysBegun(states, steps, n, m, h);
    }
  }

  lemma {:induction false} StaysFresh(states: seq<State>, steps: seq<Step>, a: nat, m: nat, h: string, i: nat, n: nat)
    requires OnSchedule(states, steps, a, m, h)
    requires i <= a && i <= n <= m && states[i].store == states[a + 1].runs[h].won
    requires HolderOf(states[i].store.value) == h
    ensures forall q :: i <= q <= n ==> Fresh(states[q], h, states[i].store.value.uid)
    decreases n
  {
    if i < n {
      StaysFresh(states, steps, a, m, h, i, n - 1);
      NamedNext(states, steps, a, m, h, states[i].store.value.uid, n - 1);
    }
    FreshNow(states, steps, a, m, h, i, n);
  }

  /** On schedule, the lease names its run and is unexpired from the win on, and nobody seizes it. */
  lemma LeaseNeverExpires(states: seq<State>, steps: seq<Step>, a: nat, m: nat, h: string)
    requires OnSchedule(states, steps, a, m, h)
    ensures forall q :: a < q <= m ==> Fresh(states[q], h, states[a + 1].runs[h].won.value.uid)
    ensures forall q :: a < q < m ==> !SeizedAfterExpiry(states[q], steps[q], h)
  {
    var i := WinWasStored(states, steps, a, m, h);
    StaysFresh(states, steps, a, m, h, i, m);
    forall q | a < q < m ensures !SeizedAfterExpiry(states[q], steps[q], h) {
      NamedNext(states, steps, a, m, h, states[i].store.value.uid, q);
    }
  }

  /** Runs that are on schedule at the same state are the same run: exclusion without an escape. */
  lemma OnScheduleExcludes(states: seq<State>, steps: seq<Step>, a: nat, g: string, b: nat, h: string, m: nat)
    requires OnSchedule(states, steps, a, m, g) && OnSchedule(states, steps, b, m, h)
    ensures g == h
  {
    LeaseNeverExpires(states, steps, a, m, g);
    LeaseNeverExpires(states, steps, b, m, h);
  }
}
