/** Safety of the cluster lock over whole executions. */
module LeaseSafety {
  import opened Options
  import opened LeaseProtocol
  import opened LeaseInvariant

  // ----- Events of an execution

  /** Step e of state s makes a request take effect. */
  predicate Lands?(s: State, e: Step) {
    e.Serve? && e.id in s.net && Lands(s, s.net[e.id])
  }

  predicate Names(s: State, h: string, uid: nat) {
    s.store.Some? && s.store.value.uid == uid && HolderOf(s.store.value) == h
  }

  /** Another run takes over the lease that names h, at an instant when it is expired. */
  predicate SeizedAfterExpiry(s: State, e: Step, h: string) {
    && Lands?(s, e) && s.net[e.id].TakeOver? && s.net[e.id].sender != h
    && s.store.Some? && HolderOf(s.store.value) == h
    && LeaseExpired(s.store.value, s.clock, s.net[e.id].duration)
  }

  predicate Deletes(s: State, e: Step, h: string) {
    Lands?(s, e) && s.net[e.id].Delete? && s.net[e.id].sender == h
  }

  /** Every Delete that takes effect does so before the lease it read expires. */
  ghost predicate PromptDeletes(states: seq<State>, steps: seq<Step>)
    requires |states| == |steps| + 1
  {
    forall k :: 0 <= k < |steps| && Lands?(states[k], steps[k]) && states[k].net[steps[k].id].Delete? ==>
      !LeaseExpired(states[k].net[steps[k].id].read, states[k].clock, 0)
  }

  // ----- One step

  ghost predicate SameRunSet(s: State, s': State) {
    && s'.runs.Keys == s.runs.Keys && s.clock <= s'.clock
    && forall h <- s.runs :: s'.runs[h].duration == s.runs[h].duration
  }

  predicate StoreIs(s: State, t: State) {
    s.store == t.store && s.nextUid == t.nextUid && s.nextVersion == t.nextVersion
  }

  lemma ClientStep(s: State, e: Step)
    requires Enabled(s, e) && !e.Serve?
    ensures SameRunSet(s, Next(s, e)) && StoreIs(Next(s, e), s)
  {
  }

  /** The store changes only when a request lands, and then as that request says. */
  lemma StoreStep(s: State, e: Step)
    requires Enabled(s, e)
    ensures SameRunSet(s, Next(s, e))
    ensures StoreIs(Next(s, e), if Lands?(s, e) then Landed(s, s.net[e.id]) else s)
  {
    if !e.Serve? { ClientStep(s, e); }
  }

  /** The phase in which a run sends a request of this kind. */
  predicate Sends(p: Phase, r: Request) {
    match r
    case Create(_, _, _) => p.Sampled?
    case TakeOver(_, _, _, _) => p.Sampled?
    case Renew(_, _, _) => p.Holding?
    case Delete(_, _) => p.Releasing?
  }

  lemma RequestStep(s: State, e: Step, id: nat)
    requires Enabled(s, e) && id in Next(s, e).net
    ensures var r := Next(s, e).net[id];
            (id in s.net && s.net[id] == r) || (r.sender in s.runs && Sends(s.runs[r.sender].phase, r))
  {
  }

  lemma ReleaseBegunStep(s: State, e: Step, h: string)
    requires Enabled(s, e) && h in s.runs && ReleaseBegun(s.runs[h].phase)
    ensures h in Next(s, e).runs && ReleaseBegun(Next(s, e).runs[h].phase)
    ensures s.runs[h].phase.Released? ==> Next(s, e).runs[h] == s.runs[h]
  {
  }

  // ----- Takeover

  lemma TakeoverOnlyAfterExpiry(states: seq<State>, steps: seq<Step>, k: nat)
    requires Execution(states, steps) && k < |steps|
    requires Lands?(states[k], steps[k]) && states[k].net[steps[k].id].TakeOver?
    ensures var r := states[k].net[steps[k].id];
            && states[k].store == Some(r.read)
            && LeaseExpired(states[k].store.value, states[k].clock, r.duration)
  {
    AlwaysInv(states, steps, k);
    assert RequestOk(states[k], states[k].net[steps[k].id]);
  }

  // ----- The holder keeps the lease

  lemma NamingStep(s: State, e: Step, h: string, uid: nat)
    requires Inv(s) && Enabled(s, e) && h in s.runs && Names(s, h, uid)
    requires Lands?(s, e) && s.net[e.id].Delete? ==> !LeaseExpired(s.net[e.id].read, s.clock, 0)
    ensures Names(Next(s, e), h, uid) || SeizedAfterExpiry(s, e, h) || Deletes(s, e, h)
  {
    StoreStep(s, e);
    if Lands?(s, e) { assert RequestOk(s, s.net[e.id]); }
  }

  /** Step k ends the time in which incarnation `uid` names h: a takeover after expiry, or h's own Delete. */
  predicate LosesAt(states: seq<State>, steps: seq<Step>, k: nat, h: string, uid: nat)
    requires |states| == |steps| + 1 && k < |steps|
  {
    Names(states[k], h, uid) && (SeizedAfterExpiry(states[k], steps[k], h) || Deletes(states[k], steps[k], h))
  }

  /** Once stored, a run's lease names it until its own Delete or a takeover after expiry. */
  lemma {:induction false} NamedUntil(states: seq<State>, steps: seq<Step>, i: nat, j: nat, h: string, uid: nat)
    requires Execution(states, steps) && i <= j < |states| && PromptDeletes(states, steps)
    requires h in states[0].runs && Names(states[i], h, uid)
    ensures || Names(states[j], h, uid)
            || exists k :: i <= k < j && LosesAt(states, steps, k, h, uid)
    decreases j
  {
    if i < j {
      assert StepAt(states, steps, j - 1);
      NamedUntil(states, steps, i, j - 1, h, uid);
      if Names(states[j - 1], h, uid) {
        AlwaysInv(states, steps, j - 1);
        SameRuns(states, steps, j - 1);
        NamingStep(states[j - 1], steps[j - 1], h, uid);
        assert Names(states[j], h, uid) || LosesAt(states, steps, j - 1, h, uid);
      }
    }
  }

  lemma {:induction false} SameRuns(states: seq<State>, steps: seq<Step>, j: nat)
    requires Execution(states, steps) && j < |states|
    ensures states[j].runs.Keys == states[0].runs.Keys
    ensures forall h <- states[0].runs :: states[j].runs[h].duration == states[0].runs[h].duration
  {
    if j > 0 {
      assert StepAt(states, steps, j - 1);
      SameRuns(states, steps, j - 1);
      StoreStep(states[j - 1], steps[j - 1]);
    }
  }

  // ----- What a client remembers was stored

  ghost predicate WasStored(states: seq<State>, j: nat, l: Lease)
    requires j < |states|
  {
    exists i :: 0 <= i <= j && states[i].store == Some(l)
  }

  ghost predicate Remembers(states: seq<State>, j: nat)
    requires j < |states|
  {
    var s := states[j];
    && (forall id <- s.net :: !s.net[id].Create? ==> WasStored(states, j, s.net[id].read))
    && (forall id <- s.replies :: s.replies[id].Accepted? && s.replies[id].lease.Some? ==>
          WasStored(states, j, s.replies[id].lease.value))
    && (forall h <- s.runs :: s.runs[h].won.Some? ==> WasStored(states, j, s.runs[h].won.value))
    && (forall h <- s.runs :: s.runs[h].phase.Holding? && s.runs[h].phase.renewal.Read? ==>
          WasStored(states, j, s.runs[h].phase.renewal.lease))
  }

  lemma StillStored(states: seq<State>, j: nat)
    requires 0 < j < |states|
    ensures forall l :: WasStored(states, j - 1, l) ==> WasStored(states, j, l)
    ensures states[j].store.Some? ==> WasStored(states, j, states[j].store.value)
    ensures states[j - 1].store.Some? ==> WasStored(states, j, states[j - 1].store.value)
  {
  }

  /** Whatever a step makes a client remember is the lease stored now or remembered before. */
  lemma MemoryStep(s: State, e: Step)
    requires Enabled(s, e)
    ensures var s' := Next(s, e);
            && (forall id <- s'.net :: !s'.net[id].Create? ==>
                  || (id in s.net && s'.net[id] == s.net[id])
                  || s.store == Some(s'.net[id].read)
                  || (e.SendRenewal? && s'.net[id].read == s.runs[e.h].phase.renewal.lease))
            && (forall id <- s'.replies :: (id in s.replies && s'.replies[id] == s.replies[id])
                  || !s'.replies[id].Accepted? || s'.replies[id].lease == s'.store)
  {
  }

  lemma WonStep(s: State, e: Step, h: string)
    requires Enabled(s, e) && h in s.runs
    ensures var s' := Next(s, e);
            || s'.runs[h].won == s.runs[h].won
            || exists id <- s.replies :: s.replies[id].Accepted? && s'.runs[h].won == s.replies[id].lease
  {
  }

  lemma RenewalReadStep(s: State, e: Step, h: string)
    requires Enabled(s, e) && h in s.runs
    ensures var s' := Next(s, e);
            || s'.runs[h].phase == s.runs[h].phase
            || (s'.runs[h].phase.Holding? && s'.runs[h].phase.renewal.Read? ==>
                  s.store == Some(s'.runs[h].phase.renewal.lease))
  {
  }

  lemma {:induction false} AlwaysRemembers(states: seq<State>, steps: seq<Step>, j: nat)
    requires Execution(states, steps) && j < |states|
    ensures Remembers(states, j)
  {
    if j > 0 {
      assert StepAt(states, steps, j - 1);
      AlwaysRemembers(states, steps, j - 1);
      StillStored(states, j);
      var s, s', e := states[j - 1], states[j], steps[j - 1];
      MemoryStep(s, e);
      StoreStep(s, e);
      forall h <- s'.runs
        ensures s'.runs[h].won.Some? ==> WasStored(states, j, s'.runs[h].won.value)
        ensures s'.runs[h].phase.Holding? && s'.runs[h].phase.renewal.Read? ==>
                  WasStored(states, j, s'.runs[h].phase.renewal.lease)
      {
        WonStep(s, e, h);
        RenewalReadStep(s, e, h);
      }
    }
  }

  // ----- At most one holder

  lemma {:induction false} ReleaseStaysBegun(states: seq<State>, steps: seq<Step>, i: nat, j: nat, h: string)
    requires Execution(states, steps) && i <= j < |states|
    requires h in states[i].runs && ReleaseBegun(states[i].runs[h].phase)
    ensures h in states[j].runs && ReleaseBegun(states[j].runs[h].phase)
    decreases j
  {
    if i < j {
      assert StepAt(states, steps, j - 1);
      ReleaseStaysBegun(states, steps, i, j - 1, h);
      ReleaseBegunStep(states[j - 1], steps[j - 1], h);
    }
  }

  /** After `won` was stored for h, another run took over that incarnation from h, at its expiry. */
  ghost predicate SeizedSinceWin(states: seq<State>, steps: seq<Step>, k: nat, h: string, won: Lease)
    requires |states| == |steps| + 1 && k < |steps|
  {
    && WasStored(states, k, won) && HolderOf(won) == h
    && Names(states[k], h, won.uid) && SeizedAfterExpiry(states[k], steps[k], h)
  }

  /** By state j the lock that h holds there was taken over. */
  ghost predicate LockSeized(states: seq<State>, steps: seq<Step>, j: nat, h: string)
    requires |states| == |steps| + 1 && j < |states| && h in states[j].runs && states[j].runs[h].won.Some?
  {
    exists k :: 0 <= k < j && SeizedSinceWin(states, steps, k, h, states[j].runs[h].won.value)
  }

  lemma HolderWon(states: seq<State>, steps: seq<Step>, j: nat, h: string) returns (i: nat)
    requires Execution(states, steps) && j < |states|
    requires h in states[j].runs && states[j].runs[h].phase.Holding?
    ensures states[j].runs[h].won.Some? && HolderOf(states[j].runs[h].won.value) == h
    ensures i <= j && states[i].store == states[j].runs[h].won
  {
    AlwaysInv(states, steps, j);
    assert RunOk(states[j], h);
    AlwaysRemembers(states, steps, j);
    assert WasStored(states, j, states[j].runs[h].won.value);
    i :| 0 <= i <= j && states[i].store == states[j].runs[h].won;
  }

  lemma HolderDoesNotDelete(states: seq<State>, steps: seq<Step>, k: nat, j: nat, h: string)
    requires Execution(states, steps) && k < j < |states|
    requires h in states[j].runs && states[j].runs[h].phase.Holding?
    ensures !Deletes(states[k], steps[k], h)
  {
    if Deletes(states[k], steps[k], h) {
      AlwaysInv(states, steps, k);
      assert RequestOk(states[k], states[k].net[steps[k].id]);
      ReleaseStaysBegun(states, steps, k, j, h);
    }
  }

  /** A run that holds the lock is named by the store unless that lock was taken over after expiry. */
  lemma HolderIsNamed(states: seq<State>, steps: seq<Step>, j: nat, h: string)
    requires Execution(states, steps) && j < |states| && PromptDeletes(states, steps)
    requires h in states[j].runs && states[j].runs[h].phase.Holding?
    ensures states[j].runs[h].won.Some?
    ensures Names(states[j], h, states[j].runs[h].won.value.uid) || LockSeized(states, steps, j, h)
  {
    var i := HolderWon(states, steps, j, h);
    var w := states[j].runs[h].won.value;
    SameRuns(states, steps, j);
    NamedUntil(states, steps, i, j, h, w.uid);
    if !Names(states[j], h, w.uid) {
      var k :| i <= k < j && LosesAt(states, steps, k, h, w.uid);
      HolderDoesNotDelete(states, steps, k, j, h);
      assert WasStored(states, k, w);
      assert SeizedSinceWin(states, steps, k, h, w);
    }
  }

  /** Two runs hold the lock at once only after the lock of one of them was taken over at its expiry. */
  lemma MutualExclusion(states: seq<State>, steps: seq<Step>, j: nat, g: string, h: string)
    requires Execution(states, steps) && j < |states| && PromptDeletes(states, steps)
    requires g in states[j].runs && states[j].runs[g].phase.Holding?
    requires h in states[j].runs && states[j].runs[h].phase.Holding?
    requires g != h
    ensures states[j].runs[g].won.Some? && states[j].runs[h].won.Some?
    ensures LockSeized(states, steps, j, g) || LockSeized(states, steps, j, h)
  {
    HolderIsNamed(states, steps, j, g);
    HolderIsNamed(states, steps, j, h);
  }

  // ----- Release

  /** A Delete that lands removes the very incarnation its run had read as its own. */
  lemma DeletesOnlyWhatItRead(states: seq<State>, steps: seq<Step>, k: nat, h: string)
    requires Execution(states, steps) && k < |steps| && Deletes(states[k], steps[k], h)
    ensures var read := states[k].net[steps[k].id].read;
            && HolderOf(read) == h && WasStored(states, k, read)
            && states[k].store.value.uid == read.uid
            && states[k + 1].store.None?
  {
    assert StepAt(states, steps, k);
    AlwaysInv(states, steps, k);
    AlwaysRemembers(states, steps, k);
    assert RequestOk(states[k], states[k].net[steps[k].id]);
  }

  /** A Delete that removes a lease naming another run landed after the lease it read had expired. */
  lemma StrayDeleteIsLate(states: seq<State>, steps: seq<Step>, k: nat, h: string)
    requires Execution(states, steps) && k < |steps| && Deletes(states[k], steps[k], h)
    requires HolderOf(states[k].store.value) != h
    ensures LeaseExpired(states[k].net[steps[k].id].read, states[k].clock, 0)
  {
    AlwaysInv(states, steps, k);
    assert RequestOk(states[k], states[k].net[steps[k].id]);
  }

  /** After a run began to release, every renewal of its own still in flight was sent before that. */
  lemma {:induction false} NoRenewalSentAfterRelease(
    states: seq<State>, steps: seq<Step>, i: nat, j: nat, h: string, id: nat)
    requires Execution(states, steps) && i <= j < |states|
    requires h in states[i].runs && ReleaseBegun(states[i].runs[h].phase)
    requires id in states[j].net && states[j].net[id].Renew? && states[j].net[id].sender == h
    ensures id in states[i].net && states[i].net[id] == states[j].net[id]
    decreases j
  {
    if i < j {
      ReleaseStaysBegun(states, steps, i, j - 1, h);
      var s, e := states[j - 1], steps[j - 1];
      assert StepAt(states, steps, j - 1);
      RequestStep(s, e, id);
      NoRenewalSentAfterRelease(states, steps, i, j - 1, h, id);
    }
  }

  lemma {:induction false} ReleasedStays(states: seq<State>, steps: seq<Step>, i: nat, j: nat, h: string)
    requires Execution(states, steps) && i <= j < |states|
    requires h in states[i].runs && states[i].runs[h].phase.Released?
    ensures h in states[j].runs && states[j].runs[h] == states[i].runs[h]
    decreases j
  {
    if i < j {
      assert StepAt(states, steps, j - 1);
      ReleasedStays(states, steps, i, j - 1, h);
      ReleaseBegunStep(states[j - 1], steps[j - 1], h);
    }
  }

  /** Once Release has returned nil, the incarnation the run won never names it again. */
  lemma ReleasedForGood(states: seq<State>, steps: seq<Step>, i: nat, j: nat, h: string)
    requires Execution(states, steps) && i <= j < |states|
    requires h in states[i].runs && states[i].runs[h].phase.Released?
    ensures states[i].runs[h].won.Some?
    ensures WasStored(states, i, states[i].runs[h].won.value) && HolderOf(states[i].runs[h].won.value) == h
    ensures !Names(states[j], h, states[i].runs[h].won.value.uid)
  {
    ReleasedStays(states, steps, i, j, h);
    AlwaysInv(states, steps, i);
    AlwaysInv(states, steps, j);
    AlwaysRemembers(states, steps, i);
    assert RunOk(states[i], h) && RunOk(states[j], h);
  }

  lemma {:induction false} NothingSentAfterRelease(
    states: seq<State>, steps: seq<Step>, i: nat, j: nat, h: string, id: nat)
    requires Execution(states, steps) && i <= j < |states|
    requires h in states[i].runs && states[i].runs[h].phase.Released?
    requires id in states[j].net && states[j].net[id].sender == h
    ensures id in states[i].net && states[i].net[id] == states[j].net[id]
    decreases j
  {
    if i < j {
      ReleasedStays(states, steps, i, j - 1, h);
      assert StepAt(states, steps, j - 1);
      RequestStep(states[j - 1], steps[j - 1], id);
      NothingSentAfterRelease(states, steps, i, j - 1, h, id);
    }
  }

  /** After Release returned nil, only a Create can make the store name the run where it did not. */
  lemma NamedAgainStep(s: State, e: Step, h: string, uid: nat)
    requires Inv(s) && Enabled(s, e) && h in s.runs && s.runs[h].phase.Released?
    requires !Names(s, h, uid) && Names(Next(s, e), h, uid)
    ensures Lands?(s, e) && s.net[e.id].Create? && s.net[e.id].sender == h
  {
    StoreStep(s, e);
    assert RunOk(s, h);
    assert Lands?(s, e) && RequestOk(s, s.net[e.id]);
  }

  ghost predicate CreateInFlight(s: State, h: string) {
    exists id <- s.net :: s.net[id].Create? && s.net[id].sender == h
  }

  /** After Release returned nil, a lease names the run only if one did already or a Create was in flight. */
  lemma {:induction false} NamedAfterReleaseByCreate(
    states: seq<State>, steps: seq<Step>, i: nat, j: nat, h: string, uid: nat)
    requires Execution(states, steps) && i <= j < |states|
    requires h in states[i].runs && states[i].runs[h].phase.Released? && Names(states[j], h, uid)
    ensures Names(states[i], h, uid) || CreateInFlight(states[i], h)
    decreases j
  {
    if i < j {
      if Names(states[j - 1], h, uid) {
        NamedAfterReleaseByCreate(states, steps, i, j - 1, h, uid);
      } else {
        assert StepAt(states, steps, j - 1);
        AlwaysInv(states, steps, j - 1);
        ReleasedStays(states, steps, i, j - 1, h);
        NamedAgainStep(states[j - 1], steps[j - 1], h, uid);
        NothingSentAfterRelease(states, steps, i, j - 1, h, steps[j - 1].id);
      }
    }
  }

  // ----- One incarnation

  lemma SeenStep(s: State, e: Step, l: Lease)
    requires Inv(s) && Enabled(s, e) && Seen(s, l)
    ensures Seen(Next(s, e), l)
  {
    var s' := Next(s, e);
    StoreStep(s, e);
    if Lands?(s, e) {
      assert RequestOk(s, s.net[e.id]);
      SeenAfterLanding(s, s.net[e.id], l);
    }
  }

  /** The incarnation of a lease that was stored cannot come back once it is gone. */
  lemma IncarnationStep(s: State, e: Step, l: Lease)
    requires Inv(s) && Enabled(s, e) && Seen(s, l)
    requires Next(s, e).store.Some? && Next(s, e).store.value.uid == l.uid
    ensures s.store.Some? && s.store.value.uid == l.uid
  {
    StoreStep(s, e);
    if Lands?(s, e) { assert RequestOk(s, s.net[e.id]); }
  }

  lemma WriteStep(s: State, e: Step)
    requires Inv(s) && Enabled(s, e) && SameIncarnation(s, Next(s, e))
    ensures var a, b := s.store.value, Next(s, e).store.value;
            && (a.renewTime.Some? ==> b.renewTime.Some? && a.renewTime.value <= b.renewTime.value)
            && Transitions(b) == Transitions(a) + if Lands?(s, e) && s.net[e.id].TakeOver? then 1 else 0
  {
    StoreStep(s, e);
    if Lands?(s, e) { assert RequestOk(s, s.net[e.id]); }
  }

  lemma {:induction false} StoredIsSeen(states: seq<State>, steps: seq<Step>, i: nat, j: nat)
    requires Execution(states, steps) && i <= j < |states| && states[i].store.Some?
    ensures Seen(states[j], states[i].store.value)
    decreases j
  {
    AlwaysInv(states, steps, i);
    if i < j {
      assert StepAt(states, steps, j - 1);
      StoredIsSeen(states, steps, i, j - 1);
      AlwaysInv(states, steps, j - 1);
      SeenStep(states[j - 1], steps[j - 1], states[i].store.value);
    }
  }

  predicate SameIncarnation(s: State, s': State) {
    s.store.Some? && s'.store.Some? && s.store.value.uid == s'.store.value.uid
  }

  lemma StoredBefore(states: seq<State>, steps: seq<Step>, i: nat, j: nat)
    requires Execution(states, steps) && i < j < |states| && SameIncarnation(states[i], states[j])
    ensures SameIncarnation(states[i], states[j - 1])
  {
    var s, e := states[j - 1], steps[j - 1];
    assert StepAt(states, steps, j - 1);
    StoredIsSeen(states, steps, i, j - 1);
    AlwaysInv(states, steps, j - 1);
    IncarnationStep(s, e, states[i].store.value);
  }

  /** An incarnation stored at two instants is stored all the time between them. */
  lemma {:induction false} IncarnationIsContiguous(states: seq<State>, steps: seq<Step>, i: nat, k: nat, j: nat)
    requires Execution(states, steps) && i <= k <= j < |states| && SameIncarnation(states[i], states[j])
    ensures SameIncarnation(states[i], states[k])
    decreases j
  {
    if k < j {
      StoredBefore(states, steps, i, j);
      IncarnationIsContiguous(states, steps, i, k, j - 1);
    }
  }

  /** From the lease stored at a to the one stored at b, RenewTime does not fall and stays within the clock. */
  predicate RenewedSince(a: State, b: State)
    requires a.store.Some? && b.store.Some?
  {
    var r, q := a.store.value.renewTime, b.store.value.renewTime;
    (r.Some? ==> q.Some? && r.value <= q.value) && (q.Some? ==> q.value <= b.clock)
  }

  lemma StoredIsRenewed(states: seq<State>, steps: seq<Step>, j: nat)
    requires Execution(states, steps) && j < |states| && states[j].store.Some?
    ensures RenewedSince(states[j], states[j])
  {
    AlwaysInv(states, steps, j);
  }

  lemma RenewTimeStep(states: seq<State>, steps: seq<Step>, j: nat)
    requires Execution(states, steps) && 0 < j < |states| && SameIncarnation(states[j - 1], states[j])
    ensures RenewedSince(states[j - 1], states[j])
  {
    StoredIsRenewed(states, steps, j);
    AlwaysInv(states, steps, j - 1);
    assert StepAt(states, steps, j - 1);
    WriteStep(states[j - 1], steps[j - 1]);
  }

  /** Within an incarnation the stored RenewTime never decreases and is never ahead of the clock. */
  lemma {:induction false} RenewTimeMonotone(states: seq<State>, steps: seq<Step>, i: nat, j: nat)
    requires Execution(states, steps) && i <= j < |states| && SameIncarnation(states[i], states[j])
    ensures RenewedSince(states[i], states[j])
    decreases j
  {
    if i < j {
      StoredBefore(states, steps, i, j);
      RenewTimeMonotone(states, steps, i, j - 1);
      RenewTimeStep(states, steps, j);
    } else {
      StoredIsRenewed(states, steps, j);
    }
  }

  /** How many takeovers took effect in steps i..j. */
  ghost function Takeovers(states: seq<State>, steps: seq<Step>, i: nat, j: nat): nat
    requires |states| == |steps| + 1 && i <= j < |states|
    decreases j
  {
    if i == j then 0
    else Takeovers(states, steps, i, j - 1) +
         if Lands?(states[j - 1], steps[j - 1]) && states[j - 1].net[steps[j - 1].id].TakeOver? then 1 else 0
  }

  lemma {:induction false} TransitionsGrow(states: seq<State>, steps: seq<Step>, i: nat, j: nat)
    requires Execution(states, steps) && i <= j < |states| && SameIncarnation(states[i], states[j])
    ensures Transitions(states[j].store.value) ==
            Transitions(states[i].store.value) + Takeovers(states, steps, i, j)
    decreases j
  {
    if i < j {
      assert StepAt(states, steps, j - 1);
      StoredBefore(states, steps, i, j);
      TransitionsGrow(states, steps, i, j - 1);
      AlwaysInv(states, steps, j - 1);
      WriteStep(states[j - 1], steps[j - 1]);
    }
  }

  /** Since its creation, an incarnation's LeaseTransitions counts its takeovers. */
  lemma TransitionsCountTakeovers(states: seq<State>, steps: seq<Step>, c: nat, j: nat)
    requires Execution(states, steps) && c < j < |states|
    requires Lands?(states[c], steps[c]) && states[c].net[steps[c].id].Create?
    requires SameIncarnation(states[c + 1], states[j])
    ensures Transitions(states[j].store.value) == Takeovers(states, steps, c + 1, j)
  {
    assert StepAt(states, steps, c);
    TransitionsGrow(states, steps, c + 1, j);
  }
}
