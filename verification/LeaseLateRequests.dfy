/**
 What requests can do that land after their sender stopped waiting.  A takeover keeps the UID, so a
 late Delete hits the new holder; a late Create makes a lock that nobody holds.
 */
module LeaseLateRequests {
  import opened Options
  import opened LeaseProtocol
  import opened LeaseInvariant
  import opened LeaseSafety

  const D: nat := 300 * SECOND
  const X_LEASE: Lease := NewLease("x", D, 0, 0, 0)
  const Y_LEASE: Lease := TakenOver(X_LEASE, "y", D, D + 1).(version := 1)

  // ----- Reachable states

  /** Some execution ends in s. */
  ghost predicate Reachable(s: State) {
    exists states, steps :: Execution(states, steps) && states[|steps|] == s
  }

  lemma ReachInit(s: State)
    requires Init(s)
    ensures Reachable(s)
  {
    assert Execution([s], []);
  }

  lemma ReachNext(s: State, e: Step)
    requires Reachable(s) && Enabled(s, e)
    ensures Reachable(Next(s, e))
  {
    var states, steps :| Execution(states, steps) && states[|steps|] == s;
    var states', steps' := states + [Next(s, e)], steps + [e];
    forall i | 0 <= i < |steps'| ensures StepAt(states', steps', i) {
      if i < |steps| { assert StepAt(states, steps, i); }
    }
    assert Execution(states', steps');
  }

  // ----- A late Delete

  function At(clock: int, store: Option<Lease>, next: nat, x: Run, y: Run,
              net: map<nat, Request>, replies: map<nat, Reply>, nextId: nat): State
  {
    State(clock, store, if next == 0 then 0 else 1, next, map["x" := x, "y" := y], net, replies, nextId)
  }

  const IDLE: Run := Run(D, Idle, None)
  const X_WON: Option<Lease> := Some(X_LEASE)
  const Y_WON: Option<Lease> := Some(Y_LEASE)
  const X_DELETING: Run := Run(D, AwaitDelete(1, X_LEASE), X_WON)
  const Y_SEIZING: Run := Run(D, AwaitAcquire(2), None)
  const DELETE: map<nat, Request> := map[1 := Delete("x", X_LEASE)]
  const R1: map<nat, Reply> := map[0 := Accepted(X_WON)]
  const R2: map<nat, Reply> := R1[2 := Accepted(Y_WON)]

  // x acquires the lock and asks to delete it; the lease expires; y takes it over; the Delete is still in flight
  const S0: State := At(0, None, 0, IDLE, IDLE, map[], map[], 0)
  const S1: State := At(0, None, 0, Run(D, Sampled(0), None), IDLE, map[], map[], 0)
  const S2: State := At(0, None, 0, Run(D, AwaitAcquire(0), None), IDLE, map[0 := Create("x", D, 0)], map[], 1)
  const S3: State := At(0, X_WON, 1, Run(D, AwaitAcquire(0), None), IDLE, map[], R1, 1)
  const S4: State := At(0, X_WON, 1, Run(D, Holding(Resting), X_WON), IDLE, map[], R1, 1)
  const S5: State := At(0, X_WON, 1, Run(D, Releasing, X_WON), IDLE, map[], R1, 1)
  const S6: State := At(0, X_WON, 1, X_DELETING, IDLE, DELETE, R1, 2)
  const S7: State := At(D + 1, X_WON, 1, X_DELETING, IDLE, DELETE, R1, 2)
  const S8: State := At(D + 1, X_WON, 1, X_DELETING, Run(D, Sampled(D + 1), None), DELETE, R1, 2)
  const S9: State := At(D + 1, X_WON, 1, X_DELETING, Y_SEIZING, DELETE[2 := TakeOver("y", D, D + 1, X_LEASE)], R1, 3)
  const S10: State := At(D + 1, Y_WON, 2, X_DELETING, Y_SEIZING, DELETE, R2, 3)
  const S11: State := At(D + 1, Y_WON, 2, X_DELETING, Run(D, Holding(Resting), Y_WON), DELETE, R2, 3)

  lemma Reach0() ensures Reachable(S0) { ReachInit(S0); }
  lemma Reach1() ensures Reachable(S1) { Reach0(); ReachNext(S0, Sample("x")); }
  lemma Reach2() ensures Reachable(S2) { Reach1(); ReachNext(S1, GetToAcquire("x")); }
  lemma Reach3() ensures Reachable(S3) { Reach2(); ReachNext(S2, Serve(0, false)); }
  lemma Reach4() ensures Reachable(S4) { Reach3(); ReachNext(S3, Deliver("x")); }
  lemma Reach5() ensures Reachable(S5) { Reach4(); ReachNext(S4, BeginRelease("x")); }
  lemma Reach6() ensures Reachable(S6) { Reach5(); ReachNext(S5, GetToRelease("x")); }
  lemma Reach7() ensures Reachable(S7) { Reach6(); ReachNext(S6, Advance(D + 1)); }
  lemma Reach8() ensures Reachable(S8) { Reach7(); ReachNext(S7, Sample("y")); }
  lemma Reach9() ensures Reachable(S9) { Reach8(); ReachNext(S8, GetToAcquire("y")); }
  lemma Reach10() ensures Reachable(S10) { Reach9(); ReachNext(S9, Serve(2, false)); }
  lemma Reach11() ensures Reachable(S11) { Reach10(); ReachNext(S10, Deliver("y")); }

  /** The program can get to where y holds the lock and x's Delete frees it. */
  lemma LateDeleteFreesAHeldLock()
    ensures Reachable(S11)
    ensures "y" in S11.runs && S11.runs["y"].phase == Holding(Resting) && Names(S11, "y", 0)
    ensures Enabled(S11, Serve(1, false)) && Deletes(S11, Serve(1, false), "x")
    ensures Next(S11, Serve(1, false)).store.None? && Next(S11, Serve(1, false)).runs == S11.runs
  {
    Reach11();
  }

  // ----- When a pending Delete can hit another run

  /** By time t the protocol can get to where the pending Delete `id` removes a lease that names g. */
  ghost predicate CanStrikeBy(s: State, id: nat, g: string, t: int) {
    exists states, steps :: Strikes(states, steps, s, id, g, t)
  }

  ghost predicate Strikes(states: seq<State>, steps: seq<Step>, s: State, id: nat, g: string, t: int) {
    && Continuation(states, steps) && states[0] == s
    && var last := states[|steps|];
       && last.clock <= t && id in s.net && id in last.net && last.net[id] == s.net[id] && s.net[id].Delete?
       && Names(last, g, s.net[id].read.uid) && Deletes(last, Serve(id, false), s.net[id].sender)
  }

  lemma {:induction false} KeepsInvAndSeen(states: seq<State>, steps: seq<Step>, j: nat, l: Lease)
    requires Continuation(states, steps) && j <= |steps| && Inv(states[0]) && Seen(states[0], l)
    ensures Inv(states[j]) && Seen(states[j], l) && states[j].runs.Keys == states[0].runs.Keys
  {
    if j > 0 {
      assert StepAt(states, steps, j - 1);
      KeepsInvAndSeen(states, steps, j - 1, l);
      NextKeepsInv(states[j - 1], steps[j - 1]);
      SeenStep(states[j - 1], steps[j - 1], l);
      StoreStep(states[j - 1], steps[j - 1]);
    }
  }

  /** Whoever else ends up in the incarnation got there after the lease stored now, and the one read, expired. */
  lemma StrikeIsLate(states: seq<State>, steps: seq<Step>, s: State, id: nat, g: string, t: int)
    requires Inv(s) && Strikes(states, steps, s, id, g, t)
    requires g != s.net[id].sender && Names(s, s.net[id].sender, s.net[id].read.uid)
    ensures LeaseExpired(s.store.value, t, 0) && LeaseExpired(s.net[id].read, t, 0)
  {
    assert RequestOk(s, s.net[id]);
    KeepsInvAndSeen(states, steps, |steps|, s.store.value);
    KeepsInvAndSeen(states, steps, |steps|, s.net[id].read);
  }

  ghost predicate CanSeize(s: State, g: string, t: int) {
    && g in s.runs && s.runs[g].phase.Idle? && s.clock <= t
    && s.store.Some? && Admissible(TakenOver(s.store.value, g, s.runs[g].duration, t))
  }

  /** Run g has waited until t, read the stored lease and sent its takeover. */
  function TakeoverSent(s: State, g: string, t: int): State
    requires g in s.runs && s.store.Some?
  {
    Send(s.(clock := t), g, TakeOver(g, s.runs[g].duration, t, s.store.value), AwaitAcquire(s.nextId))
  }

  lemma SendTakeover(s: State, g: string, t: int) returns (states: seq<State>)
    requires CanSeize(s, g, t) && LeaseExpired(s.store.value, t, s.runs[g].duration)
    ensures Continuation(states, [Advance(t), Sample(g), GetToAcquire(g)])
    ensures states[0] == s && states[3] == TakeoverSent(s, g, t)
  {
    var s1 := s.(clock := t);
    var s2 := Move(s1, g, Sampled(t));
    states := [s, s1, s2, TakeoverSent(s, g, t)];
    var steps := [Advance(t), Sample(g), GetToAcquire(g)];
    assert StepAt(states, steps, 0) && StepAt(states, steps, 1);
    assert StepAt(states, steps, 2) by {
      assert s2.runs[g := s2.runs[g].(phase := AwaitAcquire(s.nextId))] ==
             s.runs[g := s.runs[g].(phase := AwaitAcquire(s.nextId))];
    }
  }

  lemma ServeTakeover(s: State, id: nat, g: string, t: int)
    requires Inv(s) && id in s.net && s.net[id].Delete? && CanSeize(s, g, t)
    requires s.store.value.uid == s.net[id].read.uid
    ensures var s', e := TakeoverSent(s, g, t), Serve(s.nextId, false);
            && Enabled(s', e) && Next(s', e).clock == t && Next(s', e).net == s.net
            && Names(Next(s', e), g, s.net[id].read.uid) && Deletes(Next(s', e), Serve(id, false), s.net[id].sender)
  {
    var s' := TakeoverSent(s, g, t);
    assert s.nextId !in s.net;
    assert s'.net - {s.nextId} == s.net;
    assert Lands(s', s'.net[s.nextId]);
  }

  lemma SeizureReaches(s: State, id: nat, g: string, t: int)
    requires Inv(s) && id in s.net && s.net[id].Delete? && CanSeize(s, g, t)
    requires s.store.value.uid == s.net[id].read.uid && LeaseExpired(s.store.value, t, s.runs[g].duration)
    ensures CanStrikeBy(s, id, g, t)
  {
    var states := SendTakeover(s, g, t);
    ServeTakeover(s, id, g, t);
    var steps, e := [Advance(t), Sample(g), GetToAcquire(g)], Serve(s.nextId, false);
    OneStepMore(states, steps, e);
    assert Strikes(states + [Next(states[3], e)], steps + [e], s, id, g, t);
  }

  /**
   While the lease that a pending Delete read still names its run, the Delete can by time t come to
   remove the lock of another run g if and only if the stored lease is expired at t.
   */
  lemma LateDeleteExactly(s: State, id: nat, g: string, t: int)
    requires Inv(s) && id in s.net && s.net[id].Delete? && Names(s, s.net[id].sender, s.net[id].read.uid)
    requires g != s.net[id].sender && CanSeize(s, g, t)
    ensures CanStrikeBy(s, id, g, t) <==> LeaseExpired(s.store.value, t, 0)
    ensures CanStrikeBy(s, id, g, t) ==> LeaseExpired(s.net[id].read, t, 0)
    ensures s.store == Some(s.net[id].read) ==>
              (CanStrikeBy(s, id, g, t) <==> LeaseExpired(s.net[id].read, t, 0))
  {
    assert RequestOk(s, s.net[id]);
    if CanStrikeBy(s, id, g, t) {
      var states, steps :| Strikes(states, steps, s, id, g, t);
      StrikeIsLate(states, steps, s, id, g, t);
    }
    if LeaseExpired(s.store.value, t, 0) { SeizureReaches(s, id, g, t); }
  }

  // ----- A Create that lands after Release

  /** A Create of h is in flight that an empty store admits. */
  ghost predicate CreateCanLand(s: State, h: string) {
    exists id <- s.net :: s.net[id].Create? && s.net[id].sender == h && Admissible(Written(s, s.net[id]))
  }

  ghost predicate CanNameAgain(s: State, h: string) {
    exists states, steps :: NamesAtEnd(states, steps, s, h)
  }

  ghost predicate NamesAtEnd(states: seq<State>, steps: seq<Step>, s: State, h: string) {
    Continuation(states, steps) && states[0] == s && NamesRun(states[|steps|], h)
  }

  predicate NamesRun(s: State, h: string) {
    s.store.Some? && HolderOf(s.store.value) == h
  }

  ghost predicate QuietSince(s: State, s': State, h: string) {
    && Inv(s') && h in s'.runs && s'.runs[h].phase.Released?
    && forall id <- s'.net :: s'.net[id].sender == h ==> id in s.net && s.net[id] == s'.net[id]
  }

  lemma {:induction false} StaysQuiet(states: seq<State>, steps: seq<Step>, j: nat, h: string)
    requires Continuation(states, steps) && j <= |steps| && QuietSince(states[0], states[0], h)
    ensures QuietSince(states[0], states[j], h)
  {
    if j > 0 {
      var s, e := states[j - 1], steps[j - 1];
      StaysQuiet(states, steps, j - 1, h);
      assert StepAt(states, steps, j - 1);
      NextKeepsInv(s, e);
      ReleaseBegunStep(s, e, h);
      forall id <- states[j].net | states[j].net[id].sender == h ensures id in s.net && s.net[id] == states[j].net[id] {
        RequestStep(s, e, id);
      }
    }
  }

  lemma {:induction false} NamedAgainByCreate(states: seq<State>, steps: seq<Step>, j: nat, h: string)
    requires Continuation(states, steps) && j <= |steps| && QuietSince(states[0], states[0], h)
    requires states[0].store.None? && NamesRun(states[j], h)
    ensures CreateCanLand(states[0], h)
  {
    var s, e := states[j - 1], steps[j - 1];
    if NamesRun(s, h) {
      NamedAgainByCreate(states, steps, j - 1, h);
    } else {
      StaysQuiet(states, steps, j - 1, h);
      assert StepAt(states, steps, j - 1);
      NamedAgainStep(s, e, h, states[j].store.value.uid);
      var r := s.net[e.id];
      assert Admissible(Written(states[0], r)) by { assert Admissible(Written(s, r)); }
    }
  }

  lemma CreateLands(s: State, id: nat)
    requires id in s.net && s.net[id].Create? && Lands(s, s.net[id])
    ensures CanNameAgain(s, s.net[id].sender)
  {
    var s' := Next(s, Serve(id, false));
    assert StepAt([s, s'], [Serve(id, false)], 0);
    assert NamesAtEnd([s, s'], [Serve(id, false)], s, s.net[id].sender);
  }

  /**
   After Release returned nil and the store is empty, the run can come to be named again if and only
   if one of its Creates is still in flight: an orphan lock that nobody renews.
   */
  lemma OrphanExactly(s: State, h: string)
    requires Inv(s) && h in s.runs && s.runs[h].phase.Released? && s.store.None?
    ensures CanNameAgain(s, h) <==> CreateCanLand(s, h)
  {
    if CanNameAgain(s, h) {
      var states, steps :| NamesAtEnd(states, steps, s, h);
      NamedAgainByCreate(states, steps, |steps|, h);
    }
    if CreateCanLand(s, h) {
      var id :| id in s.net && s.net[id].Create? && s.net[id].sender == h && Admissible(Written(s, s.net[id]));
      CreateLands(s, id);
    }
  }

  // x gives up waiting for its first Create, wins with the second and releases; the first is still in flight
  const CREATE: map<nat, Request> := map[0 := Create("x", D, 0)]
  const Q1: map<nat, Reply> := map[1 := Accepted(X_WON)]
  const O3: State := At(0, None, 0, IDLE, IDLE, CREATE, map[], 1)
  const O4: State := At(0, None, 0, Run(D, Sampled(0), None), IDLE, CREATE, map[], 1)
  const O5: State := At(0, None, 0, Run(D, AwaitAcquire(1), None), IDLE, CREATE[1 := Create("x", D, 0)], map[], 2)
  const O6: State := At(0, X_WON, 1, Run(D, AwaitAcquire(1), None), IDLE, CREATE, Q1, 2)
  const O7: State := At(0, X_WON, 1, Run(D, Holding(Resting), X_WON), IDLE, CREATE, Q1, 2)
  const O8: State := At(0, X_WON, 1, Run(D, Releasing, X_WON), IDLE, CREATE, Q1, 2)
  const O9: State := At(0, X_WON, 1, Run(D, AwaitDelete(2, X_LEASE), X_WON), IDLE, CREATE[2 := Delete("x", X_LEASE)], Q1, 3)
  const O10: State := At(0, None, 1, Run(D, AwaitDelete(2, X_LEASE), X_WON), IDLE, CREATE, Q1[2 := Accepted(None)], 3)
  const O11: State := At(0, None, 1, Run(D, Released, X_WON), IDLE, CREATE, Q1[2 := Accepted(None)], 3)

  lemma Orphan3() ensures Reachable(O3) { Reach2(); ReachNext(S2, Fail("x")); }
  lemma Orphan4() ensures Reachable(O4) { Orphan3(); ReachNext(O3, Sample("x")); }
  lemma Orphan5() ensures Reachable(O5) { Orphan4(); ReachNext(O4, GetToAcquire("x")); }
  lemma Orphan6() ensures Reachable(O6) { Orphan5(); ReachNext(O5, Serve(1, false)); }
  lemma Orphan7() ensures Reachable(O7) { Orphan6(); ReachNext(O6, Deliver("x")); }
  lemma Orphan8() ensures Reachable(O8) { Orphan7(); ReachNext(O7, BeginRelease("x")); }
  lemma Orphan9() ensures Reachable(O9) { Orphan8(); ReachNext(O8, GetToRelease("x")); }
  lemma Orphan10() ensures Reachable(O10) { Orphan9(); ReachNext(O9, Serve(2, false)); }
  lemma Orphan11() ensures Reachable(O11) { Orphan10(); ReachNext(O10, Deliver("x")); }

  /** The program can get to where x has released and the store is empty, and from there to a lease that names x. */
  lemma LateCreateLeavesAnOrphan()
    ensures Reachable(O11)
    ensures "x" in O11.runs && O11.runs["x"].phase.Released? && O11.store.None? && CanNameAgain(O11, "x")
  {
    Orphan11();
    assert O11.net == CREATE && CREATE[0] == Create("x", D, 0);
    CreateLands(O11, 0);
  }
}
