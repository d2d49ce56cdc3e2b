/** What every step of the lock protocol keeps. */
module LeaseInvariant {
  import opened Options
  import opened LeaseProtocol

  /** A lease held by a run always carries both fields this reads. */
  function Deadline(l: Lease): int
    requires l.renewTime.Some? && l.durationSeconds.Some?
  {
    l.renewTime.value + l.durationSeconds.value * SECOND
  }

  ghost predicate LeaseOk(s: State, l: Lease) {
    && Admissible(l) && l.uid < s.nextUid && l.version < s.nextVersion
    && (l.renewTime.Some? ==> l.renewTime.value <= s.clock)
    && (HolderOf(l) in s.runs ==>
          l.renewTime.Some? && l.durationSeconds == Some(Int32(s.runs[HolderOf(l)].duration / SECOND)))
  }

  /** `l` was the stored lease at some instant: what its copies still say about the store. */
  ghost predicate Seen(s: State, l: Lease) {
    && LeaseOk(s, l)
    && (s.store.Some? ==>
          var cur := s.store.value;
          && LeaseOk(s, cur)
          && l.uid <= cur.uid && l.version <= cur.version
          && (l.version == cur.version ==> l == cur)
          && (l.uid == cur.uid && HolderOf(l) in s.runs ==>
                || (HolderOf(cur) == HolderOf(l) && Deadline(l) <= Deadline(cur))
                || s.clock > Deadline(l)))
  }

  ghost predicate RequestOk(s: State, r: Request) {
    && r.sender in s.runs
    && match r
       case Create(h, d, now) => now <= s.clock && d == s.runs[h].duration
       case TakeOver(h, d, now, read) =>
         now <= s.clock && d == s.runs[h].duration && Seen(s, read) && LeaseExpired(read, now, d)
       case Renew(h, stamp, read) =>
         && stamp <= s.clock && Seen(s, read) && HolderOf(read) == h
         && read.renewTime.value <= stamp
       case Delete(h, read) => Seen(s, read) && HolderOf(read) == h && ReleaseBegun(s.runs[h].phase)
  }

  predicate ReleaseBegun(p: Phase) {
    p.Releasing? || p.AwaitDelete? || p.Released? || p.ReleaseFailed?
  }

  predicate Locked(p: Phase) {
    p.Holding? || ReleaseBegun(p)
  }

  /** `w` is the lease that h's successful write stored; nothing older than it can still land. */
  ghost predicate Won(s: State, h: string, w: Lease) {
    && w.uid < s.nextUid && w.version < s.nextVersion && HolderOf(w) == h
    && w.renewTime.Some?
    && (s.store.Some? ==> w.uid <= s.store.value.uid && w.version <= s.store.value.version)
    && forall id <- s.net :: s.net[id].TakeOver? && s.net[id].sender == h ==> s.net[id].read.version < w.version
  }

  /** The incarnation `uid` is not stored with holder h. */
  predicate NotHeld(s: State, h: string, uid: nat) {
    s.store.None? || s.store.value.uid != uid || HolderOf(s.store.value) != h
  }

  predicate Gone(s: State, uid: nat) {
    s.store.Some? ==> s.store.value.uid != uid
  }

  ghost predicate AwaitOk(s: State, h: string, p: Phase) {
    match p
    case Sampled(now) => now <= s.clock
    case AwaitAcquire(id) =>
      && id < s.nextId
      && (id in s.net ==> s.net[id].sender == h && (s.net[id].Create? || s.net[id].TakeOver?))
      && (id in s.replies && s.replies[id].Accepted? ==>
            s.replies[id].lease.Some? && Won(s, h, s.replies[id].lease.value))
    case Holding(Read(l)) => Seen(s, l) && HolderOf(l) == h
    case AwaitDelete(id, read) =>
      && id < s.nextId && Seen(s, read) && HolderOf(read) == h
      && (id in s.net ==> s.net[id] == Delete(h, read))
      && (id in s.replies ==> Gone(s, read.uid))
    case _ => true
  }

  ghost predicate RunOk(s: State, h: string)
    requires h in s.runs
  {
    var run := s.runs[h];
    && AwaitOk(s, h, run.phase)
    && (Locked(run.phase) ==> run.won.Some? && Won(s, h, run.won.value))
    && (Locked(run.phase) && run.phase.AwaitDelete? ==> run.won.value.uid <= run.phase.read.uid)
    && (Locked(run.phase) && run.phase.Released? ==> NotHeld(s, h, run.won.value.uid))
  }

  ghost predicate Inv(s: State) {
    && (s.store.Some? ==> Seen(s, s.store.value))
    && (forall id <- s.net :: id < s.nextId && RequestOk(s, s.net[id]))
    && (forall id <- s.replies :: id < s.nextId)
    && (forall id <- s.net :: id !in s.replies)
    && (forall h <- s.runs :: RunOk(s, h))
  }

  lemma InitInv(s: State)
    requires Init(s)
    ensures Inv(s)
  {
  }

  // ----- The store stays as it is

  /** The clock may have moved, and runs may have begun to release. */
  ghost predicate SameStore(s: State, s': State) {
    && s'.store == s.store && s'.nextUid == s.nextUid && s'.nextVersion == s.nextVersion
    && s.clock <= s'.clock && s'.runs.Keys == s.runs.Keys
    && forall h <- s.runs ::
         && s'.runs[h].duration == s.runs[h].duration
         && (ReleaseBegun(s.runs[h].phase) ==> ReleaseBegun(s'.runs[h].phase))
  }

  lemma SeenFrame(s: State, s': State, l: Lease)
    requires SameStore(s, s') && Seen(s, l)
    ensures Seen(s', l)
  {
  }

  lemma RequestFrame(s: State, s': State, q: Request)
    requires SameStore(s, s') && RequestOk(s, q)
    ensures RequestOk(s', q)
  {
    if !q.Create? { SeenFrame(s, s', q.read); }
  }

  /** A run that did not move stays as it should be when others send or the network drops. */
  lemma RunFrame(s: State, s': State, g: string)
    requires SameStore(s, s') && s'.nextId >= s.nextId && g in s.runs && RunOk(s, g)
    requires s'.runs[g] == s.runs[g] && s'.replies == s.replies
    requires forall id <- s'.net ::
               (id in s.net && s'.net[id] == s.net[id]) || (id >= s.nextId && s'.net[id].sender != g)
    ensures RunOk(s', g)
  {
    match s.runs[g].phase
    case Holding(Read(l)) => SeenFrame(s, s', l);
    case AwaitDelete(_, read) => SeenFrame(s, s', read);
    case _ =>
  }

  lemma AdvanceKeepsInv(s: State, to: int)
    requires Inv(s) && s.clock <= to
    ensures Inv(s.(clock := to))
  {
    var s' := s.(clock := to);
    if s.store.Some? { SeenFrame(s, s', s.store.value); }
    forall id <- s'.net ensures RequestOk(s', s'.net[id]) { RequestFrame(s, s', s.net[id]); }
    forall h <- s'.runs ensures RunOk(s', h) { RunFrame(s, s', h); }
  }

  lemma DropKeepsInv(s: State, id: nat)
    requires Inv(s) && id in s.net
    ensures Inv(s.(net := s.net - {id}))
  {
    var s' := s.(net := s.net - {id});
    if s.store.Some? { SeenFrame(s, s', s.store.value); }
    forall i <- s'.net ensures RequestOk(s', s'.net[i]) { RequestFrame(s, s', s.net[i]); }
    forall h <- s'.runs ensures RunOk(s', h) { RunFrame(s, s', h); }
  }

  lemma SendKeepsInv(s: State, h: string, r: Request, phase: Phase)
    requires Inv(s) && h in s.runs && r.sender == h
    requires RunOk(Send(s, h, r, phase), h)
    requires RequestOk(Send(s, h, r, phase), r)
    requires ReleaseBegun(s.runs[h].phase) ==> ReleaseBegun(phase)
    ensures Inv(Send(s, h, r, phase))
  {
    var s' := Send(s, h, r, phase);
    if s.store.Some? { SeenFrame(s, s', s.store.value); }
    forall id <- s'.net ensures RequestOk(s', s'.net[id]) {
      if id != s.nextId { RequestFrame(s, s', s.net[id]); }
    }
    forall g <- s'.runs ensures RunOk(s', g) {
      if g != h { RunFrame(s, s', g); }
    }
  }

  lemma MoveKeepsInv(s: State, h: string, run: Run)
    requires Inv(s) && h in s.runs
    requires RunOk(s.(runs := s.runs[h := run]), h)
    requires run.duration == s.runs[h].duration
    requires ReleaseBegun(s.runs[h].phase) ==> ReleaseBegun(run.phase)
    ensures Inv(s.(runs := s.runs[h := run]))
  {
    var s' := s.(runs := s.runs[h := run]);
    if s.store.Some? { SeenFrame(s, s', s.store.value); }
    forall id <- s'.net ensures RequestOk(s', s'.net[id]) { RequestFrame(s, s', s.net[id]); }
    forall g <- s'.runs ensures RunOk(s', g) {
      if g != h { RunFrame(s, s', g); }
    }
  }

  // ----- A run moves

  lemma AcquireReadKeepsInv(s: State, h: string)
    requires Inv(s) && Enabled(s, GetToAcquire(h))
    ensures Inv(AcquireRead(s, h))
  {
    assert RunOk(s, h);
    var d, now := s.runs[h].duration, s.runs[h].phase.now;
    if s.store.None? {
      SendKeepsInv(s, h, Create(h, d, now), AwaitAcquire(s.nextId));
    } else if !LeaseExpired(s.store.value, now, d) {
      MoveKeepsInv(s, h, s.runs[h].(phase := Idle));
    } else {
      SendKeepsInv(s, h, TakeOver(h, d, now, s.store.value), AwaitAcquire(s.nextId));
    }
  }

  lemma RenewStepsKeepInv(s: State, e: Step)
    requires Inv(s) && Enabled(s, e) && (e.GetToRenew? || e.SendRenewal?)
    ensures Inv(Next(s, e))
  {
    var h := e.h;
    assert RunOk(s, h);
    if e.SendRenewal? {
      SendKeepsInv(s, h, Renew(h, s.clock, s.runs[h].phase.renewal.lease), Holding(AwaitRenew(s.nextId)));
    } else if s.store.Some? && HolderOf(s.store.value) == h {
      MoveKeepsInv(s, h, s.runs[h].(phase := Holding(Read(s.store.value))));
    }
  }

  lemma ReleaseReadKeepsInv(s: State, h: string)
    requires Inv(s) && Enabled(s, GetToRelease(h))
    ensures Inv(ReleaseRead(s, h))
  {
    assert RunOk(s, h);
    if s.store.None? || HolderOf(s.store.value) != h {
      MoveKeepsInv(s, h, s.runs[h].(phase := Released));
    } else {
      SendKeepsInv(s, h, Delete(h, s.store.value), AwaitDelete(s.nextId, s.store.value));
    }
  }

  lemma DeliveredKeepsInv(s: State, h: string)
    requires Inv(s) && Enabled(s, Deliver(h))
    ensures Inv(Delivered(s, h))
  {
    assert RunOk(s, h);
    var run := s.runs[h];
    var s' := Delivered(s, h);
    MoveKeepsInv(s, h, s'.runs[h]);
  }

  lemma LocalStepsKeepInv(s: State, e: Step)
    requires Inv(s) && Enabled(s, e)
    requires e.Sample? || e.BeginRelease? || e.Fail? || e.GiveUp?
    ensures Inv(Next(s, e))
  {
    assert RunOk(s, e.h);
    MoveKeepsInv(s, e.h, Next(s, e).runs[e.h]);
  }

  // ----- The store handles a request

  /** A copy of the stored lease stays a copy of what was stored when a write lands. */
  lemma SeenAfterLanding(s: State, r: Request, l: Lease)
    requires Seen(s, l) && RequestOk(s, r) && Lands(s, r)
    requires s.store.Some? ==> Seen(s, s.store.value)
    ensures Seen(Landed(s, r), l)
  {
  }

  lemma StoredAfterLanding(s: State, r: Request)
    requires RequestOk(s, r) && Lands(s, r)
    requires s.store.Some? ==> Seen(s, s.store.value)
    ensures Landed(s, r).store.Some? ==> Seen(Landed(s, r), Landed(s, r).store.value)
  {
  }

  lemma RequestAfterLanding(s: State, r: Request, q: Request)
    requires RequestOk(s, q) && RequestOk(s, r) && Lands(s, r)
    requires s.store.Some? ==> Seen(s, s.store.value)
    ensures RequestOk(Landed(s, r), q)
  {
    if !q.Create? { SeenAfterLanding(s, r, q.read); }
  }

  lemma SeenAfterServing(s: State, id: nat, lost: bool, l: Lease)
    requires Inv(s) && id in s.net && Seen(s, l)
    ensures Seen(Served(s, id, lost), l)
  {
    assert RequestOk(s, s.net[id]);
    if Lands(s, s.net[id]) { SeenAfterLanding(s, s.net[id], l); }
  }

  lemma RequestAfterServing(s: State, id: nat, lost: bool, q: Request)
    requires Inv(s) && id in s.net && RequestOk(s, q)
    ensures RequestOk(Served(s, id, lost), q)
  {
    assert RequestOk(s, s.net[id]);
    if Lands(s, s.net[id]) { RequestAfterLanding(s, s.net[id], q); }
  }

  lemma WonAfterServing(s: State, id: nat, h: string, w: Lease)
    requires Inv(s) && id in s.net && Won(s, h, w)
    ensures Won(Served(s, id, true), h, w)
  {
  }

  lemma NotHeldAfterServing(s: State, id: nat, h: string, w: Lease)
    requires Inv(s) && id in s.net && Won(s, h, w) && NotHeld(s, h, w.uid)
    ensures NotHeld(Served(s, id, true), h, w.uid)
  {
    assert RequestOk(s, s.net[id]);
  }

  lemma WinIsWon(s: State, id: nat)
    requires Inv(s) && id in s.net && Lands(s, s.net[id]) && (s.net[id].Create? || s.net[id].TakeOver?)
    ensures Served(s, id, true).store.Some?
    ensures Won(Served(s, id, true), s.net[id].sender, Served(s, id, true).store.value)
  {
    var s' := Served(s, id, true);
    forall i <- s'.net | s'.net[i].TakeOver?
      ensures s'.net[i].read.version < s'.store.value.version
    {
      assert RequestOk(s, s.net[i]);
    }
  }

  lemma AwaitAcquireAfterServing(s: State, id: nat, lost: bool, h: string)
    requires Inv(s) && id in s.net && h in s.runs && s.runs[h].phase.AwaitAcquire?
    ensures AwaitOk(Served(s, id, lost), h, s.runs[h].phase)
  {
    assert RunOk(s, h);
    var s', i := Served(s, id, lost), s.runs[h].phase.id;
    if i in s'.replies && s'.replies[i].Accepted? {
      if i == id {
        WinIsWon(s, id);
      } else {
        WonAfterServing(s, id, h, s.replies[i].lease.value);
      }
    }
  }

  lemma AwaitDeleteAfterServing(s: State, id: nat, lost: bool, h: string)
    requires Inv(s) && id in s.net && h in s.runs && s.runs[h].phase.AwaitDelete?
    ensures AwaitOk(Served(s, id, lost), h, s.runs[h].phase)
  {
    assert RunOk(s, h) && RequestOk(s, s.net[id]);
    SeenAfterServing(s, id, lost, s.runs[h].phase.read);
  }

  lemma AwaitAfterServing(s: State, id: nat, lost: bool, h: string)
    requires Inv(s) && id in s.net && h in s.runs
    ensures AwaitOk(Served(s, id, lost), h, s.runs[h].phase)
  {
    assert RunOk(s, h);
    match s.runs[h].phase
    case AwaitAcquire(_) => AwaitAcquireAfterServing(s, id, lost, h);
    case AwaitDelete(_, _) => AwaitDeleteAfterServing(s, id, lost, h);
    case Holding(Read(l)) => SeenAfterServing(s, id, lost, l);
    case _ =>
  }

  lemma RunAfterServing(s: State, id: nat, lost: bool, h: string)
    requires Inv(s) && id in s.net && h in s.runs
    ensures RunOk(Served(s, id, lost), h)
  {
    var s1, s', run := Served(s, id, true), Served(s, id, lost), s.runs[h];
    assert RunOk(s, h);
    AwaitAfterServing(s, id, lost, h);
    if Locked(run.phase) {
      WonAfterServing(s, id, h, run.won.value);
      assert Won(s', h, run.won.value) by { assert s'.net == s1.net && s'.store == s1.store; }
      if run.phase.Released? { NotHeldAfterServing(s, id, h, run.won.value); }
    }
  }

  lemma StoreAfterServing(s: State, id: nat, lost: bool)
    requires Inv(s) && id in s.net
    ensures Served(s, id, lost).store.Some? ==> Seen(Served(s, id, lost), Served(s, id, lost).store.value)
  {
    assert RequestOk(s, s.net[id]);
    if Lands(s, s.net[id]) { StoredAfterLanding(s, s.net[id]); }
  }

  lemma IdsAfterServing(s: State, id: nat, lost: bool)
    requires Inv(s) && id in s.net
    ensures var s' := Served(s, id, lost);
            && (forall i <- s'.net :: i in s.net && i < s'.nextId && s'.net[i] == s.net[i] && i !in s'.replies)
            && (forall i <- s'.replies :: i < s'.nextId)
            && s'.runs == s.runs
  {
  }

  lemma ServeKeepsInv(s: State, id: nat, lost: bool)
    requires Inv(s) && id in s.net
    ensures Inv(Served(s, id, lost))
  {
    var s' := Served(s, id, lost);
    StoreAfterServing(s, id, lost);
    IdsAfterServing(s, id, lost);
    forall i <- s'.net ensures RequestOk(s', s'.net[i]) { RequestAfterServing(s, id, lost, s.net[i]); }
    forall h <- s'.runs ensures RunOk(s', h) { RunAfterServing(s, id, lost, h); }
  }

  // ----- Every state of every execution

  lemma NextKeepsInv(s: State, e: Step)
    requires Inv(s) && Enabled(s, e)
    ensures Inv(Next(s, e))
  {
    match e
    case Advance(to) => AdvanceKeepsInv(s, to);
    case GetToAcquire(h) => AcquireReadKeepsInv(s, h);
    case GetToRenew(_) => RenewStepsKeepInv(s, e);
    case SendRenewal(_) => RenewStepsKeepInv(s, e);
    case GetToRelease(h) => ReleaseReadKeepsInv(s, h);
    case Deliver(h) => DeliveredKeepsInv(s, h);
    case Serve(id, lost) => ServeKeepsInv(s, id, lost);
    case Drop(id) => DropKeepsInv(s, id);
    case _ => LocalStepsKeepInv(s, e);
  }

  lemma {:induction false} AlwaysInv(states: seq<State>, steps: seq<Step>, i: nat)
    requires Execution(states, steps) && i < |states|
    ensures Inv(states[i])
  {
    if i == 0 {
      InitInv(states[0]);
    } else {
      AlwaysInv(states, steps, i - 1);
      assert StepAt(states, steps, i - 1);
      NextKeepsInv(states[i - 1], steps[i - 1]);
    }
  }
}
