/**
 What a run gets done when its requests are served: the partner of the safety theorems.  Each lemma
 gives the steps, which are all enabled, and the state they end in, field by field.
 */
module LeaseProgress {
  import opened Options
  import opened LeaseProtocol
  import opened LeaseInvariant
  import opened LeaseSafety
  import opened LeaseTiming

  /** From s these steps, one after the other, lead to s'. */
  ghost predicate Leads(s: State, steps: seq<Step>, s': State) {
    exists states :: Continuation(states, steps) && states[0] == s && states[|steps|] == s'
  }

  lemma LeadsNowhere(s: State)
    ensures Leads(s, [], s)
  {
    assert Continuation([s], []);
  }

  lemma LeadsOn(s: State, steps: seq<Step>, s': State, e: Step)
    requires Leads(s, steps, s') && Enabled(s', e)
    ensures Leads(s, steps + [e], Next(s', e))
  {
    var states :| Continuation(states, steps) && states[0] == s && states[|steps|] == s';
    OneStepMore(states, steps, e);
  }

  lemma LeadsFurther(s: State, first: seq<Step>, s': State, second: seq<Step>, s'': State)
    requires Leads(s, first, s') && Leads(s', second, s'')
    ensures Leads(s, first + second, s'')
  {
    var a :| Continuation(a, first) && a[0] == s && a[|first|] == s';
    var b :| Continuation(b, second) && b[0] == s' && b[|second|] == s'';
    var states, steps := a + b[1..], first + second;
    forall i | 0 <= i < |steps| ensures StepAt(states, steps, i) {
      if i < |first| { assert StepAt(a, first, i); } else { assert StepAt(b, second, i - |first|); }
    }
    assert Continuation(states, steps);
  }

  predicate RunIs(s: State, h: string, phase: Phase) {
    h in s.runs && s.runs[h].phase == phase
  }

  // ----- Acquire

  /** The seconds of a run's duration, when they fit the field. */
  predicate FitsInt32(s: State, h: string) {
    h in s.runs && s.runs[h].duration / 1_000_000 < 0x8000_0000
  }

  lemma Int32IsExact(x: int)
    requires 0 <= x < 0x8000_0000
    ensures Int32(x) == x
  {
  }

  /** The attempt samples the clock at t and reads the store at u. */
  function Attempt(h: string, t: int, u: int): seq<Step> {
    [Advance(t), Sample(h), Advance(u), GetToAcquire(h)]
  }

  function Attempted(s: State, h: string, t: int, u: int): State
    requires h in s.runs
  {
    AcquireRead(Move(s.(clock := t), h, Sampled(t)).(clock := u), h)
  }

  lemma AttemptLeads(s: State, h: string, t: int, u: int)
    requires RunIs(s, h, Idle) && s.clock <= t <= u
    ensures Leads(s, Attempt(h, t, u), Attempted(s, h, t, u))
  {
    var s1 := s.(clock := t);
    var s2 := Move(s1, h, Sampled(t));
    var s3 := s2.(clock := u);
    LeadsNowhere(s);
    LeadsOn(s, [], s, Advance(t));
    LeadsOn(s, [] + [Advance(t)], s1, Sample(h));
    LeadsOn(s, [] + [Advance(t)] + [Sample(h)], s2, Advance(u));
    LeadsOn(s, [] + [Advance(t)] + [Sample(h)] + [Advance(u)], s3, GetToAcquire(h));
    assert [] + [Advance(t)] + [Sample(h)] + [Advance(u)] + [GetToAcquire(h)] == Attempt(h, t, u);
  }

  /** A request that lands and whose reply arrives makes its run the holder. */
  lemma WinLeads(s: State, h: string, id: nat)
    requires RunIs(s, h, AwaitAcquire(id)) && id in s.net && Lands(s, s.net[id]) && !s.net[id].Delete?
    ensures exists s' :: Leads(s, [Serve(id, false), Deliver(h)], s') && RunIs(s', h, Holding(Resting)) &&
              s'.store == Some(Written(s, s.net[id])) && s'.runs[h].won == s'.store
  {
    var s1 := Next(s, Serve(id, false));
    var s2 := Next(s1, Deliver(h));
    LeadsNowhere(s);
    LeadsOn(s, [], s, Serve(id, false));
    LeadsOn(s, [] + [Serve(id, false)], s1, Deliver(h));
    assert [] + [Serve(id, false)] + [Deliver(h)] == [Serve(id, false), Deliver(h)];
  }

  function Winning(h: string, t: int, u: int, id: nat): seq<Step> {
    Attempt(h, t, u) + [Serve(id, false), Deliver(h)]
  }

  /** From t, u and the steps of a winning attempt: h holds the lock and the store is l. */
  ghost predicate Wins(s: State, h: string, t: int, u: int, l: Lease) {
    exists s' :: Leads(s, Winning(h, t, u, s.nextId), s') && RunIs(s', h, Holding(Resting)) &&
      s'.store == Some(l) && s'.runs[h].won == Some(l)
  }

  lemma AttemptWins(s: State, h: string, t: int, u: int, l: Lease)
    requires RunIs(s, h, Idle) && s.clock <= t <= u
    requires var s4 := Attempted(s, h, t, u);
             && RunIs(s4, h, AwaitAcquire(s.nextId)) && s.nextId in s4.net && Lands(s4, s4.net[s.nextId])
             && !s4.net[s.nextId].Delete? && Written(s4, s4.net[s.nextId]) == l
    ensures Wins(s, h, t, u, l)
  {
    var s4 := Attempted(s, h, t, u);
    AttemptLeads(s, h, t, u);
    WinLeads(s4, h, s.nextId);
    var s' :| Leads(s4, [Serve(s.nextId, false), Deliver(h)], s') && RunIs(s', h, Holding(Resting)) &&
              s'.store == Some(Written(s4, s4.net[s.nextId])) && s'.runs[h].won == s'.store;
    LeadsFurther(s, Attempt(h, t, u), s4, [Serve(s.nextId, false), Deliver(h)], s');
  }

  /** With no lease stored, an attempt creates one that is stamped with the instant it began. */
  lemma CreateWins(s: State, h: string, t: int, u: int)
    requires RunIs(s, h, Idle) && s.clock <= t <= u && s.store.None? && FitsInt32(s, h)
    ensures Wins(s, h, t, u,
                 Lease(Some(h), Some(s.runs[h].duration / 1_000_000), Some(t), Some(t), None, s.nextUid, s.nextVersion))
  {
    Int32IsExact(s.runs[h].duration / SECOND);
    AttemptWins(s, h, t, u,
                Lease(Some(h), Some(s.runs[h].duration / 1_000_000), Some(t), Some(t), None, s.nextUid, s.nextVersion));
  }

  /** The lease after which an attempt that began at t may take l over. */
  function ExpiryOf(l: Lease, fallback: int): int
    requires l.renewTime.Some? || l.acquireTime.Some?
  {
    var from := if l.renewTime.Some? then l.renewTime.value else l.acquireTime.value;
    from + if l.durationSeconds.Some? then l.durationSeconds.value * 1_000_000 else fallback
  }

  predicate MayTakeOver(l: Lease, fallback: int, t: int) {
    (l.renewTime.None? && l.acquireTime.None?) || t > ExpiryOf(l, fallback)
  }

  /** A lease past its expiry when the attempt began is taken over: same UID, one more transition. */
  lemma TakeoverWins(s: State, h: string, t: int, u: int)
    requires RunIs(s, h, Idle) && s.clock <= t <= u && s.store.Some? && FitsInt32(s, h)
    requires MayTakeOver(s.store.value, s.runs[h].duration, t) && 0 <= Transitions(s.store.value) < 0x7fff_ffff
    ensures var l := s.store.value;
            Wins(s, h, t, u,
                 Lease(Some(h), Some(s.runs[h].duration / 1_000_000), Some(t), Some(t),
                       Some(if l.transitions.Some? then l.transitions.value + 1 else 1), l.uid, s.nextVersion))
  {
    var l := s.store.value;
    Int32IsExact(s.runs[h].duration / SECOND);
    Int32IsExact(Transitions(l) + 1);
    AttemptWins(s, h, t, u,
                Lease(Some(h), Some(s.runs[h].duration / 1_000_000), Some(t), Some(t),
                      Some(if l.transitions.Some? then l.transitions.value + 1 else 1), l.uid, s.nextVersion));
  }

  /** A lease not past its expiry makes the attempt fail without a request; the run may try again. */
  lemma HeldLeaseIsLeft(s: State, h: string, t: int, u: int)
    requires RunIs(s, h, Idle) && s.clock <= t <= u && s.store.Some?
    requires !MayTakeOver(s.store.value, s.runs[h].duration, t)
    ensures Leads(s, Attempt(h, t, u), s.(clock := u))
  {
    AttemptLeads(s, h, t, u);
    assert s.runs[h := s.runs[h].(phase := Sampled(t))][h := s.runs[h].(phase := Idle)] == s.runs;
  }

  /** A run whose request was beaten by another one tries again; its request changes nothing. */
  lemma BeatenRunTriesAgain(s: State, h: string, id: nat)
    requires RunIs(s, h, AwaitAcquire(id)) && id in s.net && !Lands(s, s.net[id])
    ensures exists s' :: Leads(s, [Serve(id, false), Deliver(h)], s') && RunIs(s', h, Idle) && StoreIs(s', s)
  {
    var s1 := Next(s, Serve(id, false));
    LeadsNowhere(s);
    LeadsOn(s, [], s, Serve(id, false));
    LeadsOn(s, [] + [Serve(id, false)], s1, Deliver(h));
    assert [] + [Serve(id, false)] + [Deliver(h)] == [Serve(id, false), Deliver(h)];
  }

  // ----- Failures

  /** A failed or abandoned call is retried from the start of its attempt, and changes nothing else. */
  lemma FailureIsRetried(s: State, h: string)
    requires h in s.runs
    ensures Enabled(s, Fail(h)) <==>
              || s.runs[h].phase.Sampled? || s.runs[h].phase.AwaitAcquire? || s.runs[h].phase.AwaitDelete?
              || (s.runs[h].phase.Holding? && s.runs[h].phase != Holding(Resting))
    ensures Enabled(s, Fail(h)) ==>
              var retry := if s.runs[h].phase.Holding? then Holding(Resting)
                           else if s.runs[h].phase.AwaitDelete? then Releasing else Idle;
              Next(s, Fail(h)) == s.(runs := s.runs[h := Run(s.runs[h].duration, retry, s.runs[h].won)])
  {
  }

  // ----- Renew

  function Renewing(h: string, t: int, id: nat): seq<Step> {
    [GetToRenew(h), Advance(t), SendRenewal(h), Serve(id, false), Deliver(h)]
  }

  /** The run with its renewal sent at t, stamped with that instant. */
  function RenewalSent(s: State, h: string, t: int): State
    requires h in s.runs && s.store.Some?
  {
    Send(s.(clock := t), h, Renew(h, t, s.store.value), Holding(AwaitRenew(s.nextId)))
  }

  lemma SendingLeads(s: State, h: string, t: int)
    requires RunIs(s, h, Holding(Resting)) && s.store.Some? && HolderOf(s.store.value) == h && s.clock <= t
    ensures Leads(s, [GetToRenew(h), Advance(t), SendRenewal(h)], RenewalSent(s, h, t))
  {
    var s1 := Move(s, h, Holding(Read(s.store.value)));
    var s2 := s1.(clock := t);
    LeadsNowhere(s);
    LeadsOn(s, [], s, GetToRenew(h));
    LeadsOn(s, [] + [GetToRenew(h)], s1, Advance(t));
    LeadsOn(s, [] + [GetToRenew(h)] + [Advance(t)], s2, SendRenewal(h));
    assert [] + [GetToRenew(h)] + [Advance(t)] + [SendRenewal(h)] == [GetToRenew(h), Advance(t), SendRenewal(h)];
    assert s2.runs[h := s2.runs[h].(phase := Holding(AwaitRenew(s.nextId)))] ==
           s.runs[h := s.runs[h].(phase := Holding(AwaitRenew(s.nextId)))];
  }

  /** The store with the renewal handled, and the run back to waiting for its ticker. */
  lemma RenewalIsServed(s: State, h: string, t: int)
    requires Inv(s) && RunIs(s, h, Holding(Resting)) && s.store.Some? && HolderOf(s.store.value) == h && s.clock <= t
    ensures var s3, e := RenewalSent(s, h, t), Serve(s.nextId, false);
            && Lands?(s3, e) && s3.net[s.nextId] == Renew(h, t, s.store.value) && Enabled(s3, e)
            && Next(s3, e).store == Some(s.store.value.(renewTime := Some(t), version := s.nextVersion))
            && Enabled(Next(s3, e), Deliver(h))
  {
    assert s.nextId !in s.net;
    var s3 := RenewalSent(s, h, t);
    assert Lands(s3, s3.net[s.nextId]);
  }

  /**
   A renewal sent at t moves RenewTime to t and changes nothing else of the lease but its version; it is
   one that the schedule counts for tick t.
   */
  lemma RenewalExtends(s: State, h: string, t: int) returns (states: seq<State>)
    requires Inv(s) && RunIs(s, h, Holding(Resting)) && s.store.Some? && HolderOf(s.store.value) == h && s.clock <= t
    ensures Continuation(states, Renewing(h, t, s.nextId)) && states[0] == s
    ensures RunIs(states[5], h, Holding(Resting)) && states[5].clock == t
    ensures states[5].store == Some(s.store.value.(renewTime := Some(t), version := s.nextVersion))
    ensures RenewsAt(states, Renewing(h, t, s.nextId), 3, h, t)
  {
    var s3, three := RenewalSent(s, h, t), [GetToRenew(h), Advance(t), SendRenewal(h)];
    SendingLeads(s, h, t);
    RenewalIsServed(s, h, t);
    var sent :| Continuation(sent, three) && sent[0] == s && sent[3] == s3;
    var s4 := Next(s3, Serve(s.nextId, false));
    OneStepMore(sent, three, Serve(s.nextId, false));
    OneStepMore(sent + [s4], three + [Serve(s.nextId, false)], Deliver(h));
    states := sent + [s4] + [Next(s4, Deliver(h))];
    assert three + [Serve(s.nextId, false)] + [Deliver(h)] == Renewing(h, t, s.nextId);
  }

  /** A run that the store does not name renews nothing. */
  lemma LostLeaseIsNotRenewed(s: State, h: string)
    requires RunIs(s, h, Holding(Resting)) && (s.store.None? || HolderOf(s.store.value) != h)
    ensures Enabled(s, GetToRenew(h)) && Next(s, GetToRenew(h)) == s
  {
  }

  // ----- Release

  /** A run that the store names deletes its lease. */
  lemma ReleaseFrees(s: State, h: string)
    requires RunIs(s, h, Holding(Resting)) && s.store.Some? && HolderOf(s.store.value) == h
    ensures exists s' :: Leads(s, [BeginRelease(h), GetToRelease(h)] + [Serve(s.nextId, false), Deliver(h)], s') &&
              RunIs(s', h, Released) && s'.store.None?
  {
    var s1 := Next(s, BeginRelease(h));
    var s2 := Next(s1, GetToRelease(h));
    LeadsNowhere(s);
    LeadsOn(s, [], s, BeginRelease(h));
    LeadsOn(s, [] + [BeginRelease(h)], s1, GetToRelease(h));
    assert [] + [BeginRelease(h)] + [GetToRelease(h)] == [BeginRelease(h), GetToRelease(h)];
    ServedDeleteReleases(s2, h, s.nextId);
    var s' :| Leads(s2, [Serve(s.nextId, false), Deliver(h)], s') && RunIs(s', h, Released) &&
              (s'.store.Some? ==> s'.store == s2.store && s'.store.value.uid != s.store.value.uid);
    LeadsFurther(s, [BeginRelease(h), GetToRelease(h)], s2, [Serve(s.nextId, false), Deliver(h)], s');
  }

  /** Whatever the answer to the Delete, Release ends well; another incarnation stays. */
  lemma ServedDeleteReleases(s: State, h: string, id: nat)
    requires h in s.runs && s.runs[h].phase.AwaitDelete? && s.runs[h].phase.id == id
    requires id in s.net && s.net[id] == Delete(h, s.runs[h].phase.read)
    ensures exists s' :: Leads(s, [Serve(id, false), Deliver(h)], s') && RunIs(s', h, Released) &&
              (s'.store.Some? ==> s'.store == s.store && s'.store.value.uid != s.runs[h].phase.read.uid)
  {
    var s1 := Next(s, Serve(id, false));
    LeadsNowhere(s);
    LeadsOn(s, [], s, Serve(id, false));
    LeadsOn(s, [] + [Serve(id, false)], s1, Deliver(h));
    assert [] + [Serve(id, false)] + [Deliver(h)] == [Serve(id, false), Deliver(h)];
  }

  /** A run that the store does not name ends its Release without a request. */
  lemma ReleaseLeavesOthers(s: State, h: string)
    requires RunIs(s, h, Releasing) && (s.store.None? || HolderOf(s.store.value) != h)
    ensures Enabled(s, GetToRelease(h))
    ensures Next(s, GetToRelease(h)) == s.(runs := s.runs[h := Run(s.runs[h].duration, Released, s.runs[h].won)])
  {
  }
}
