/**
 The cluster lock as a step protocol: one stored Lease, a clock that only moves forward, and any
 number of runs.  A read is one step.  A write is sent in one step and takes effect, if at all, in a
 later one, so a request may land after its sender stopped waiting for it; the reply may be lost.
 */
module LeaseProtocol {
  import opened Options

  // The clock counts microseconds, the resolution of a Lease's MicroTime fields.
  const SECOND: int := 1_000_000
  const RENEW_REQUEST_TIMEOUT: int := 30 * SECOND

  /** Go's conversion to int32: the value modulo 2^32, read as signed. */
  function Int32(x: int): (r: int)
    ensures -0x8000_0000 <= r < 0x8000_0000
    ensures exists k :: r == x + k * 0x1_0000_0000
  {
    var k := -((x + 0x8000_0000) / 0x1_0000_0000);
    assert x + k * 0x1_0000_0000 == (x + 0x8000_0000) % 0x1_0000_0000 - 0x8000_0000;
    x + k * 0x1_0000_0000
  }

  datatype Lease = Lease(
    holder: Option<string>,
    durationSeconds: Option<int>,
    acquireTime: Option<int>,
    renewTime: Option<int>,
    transitions: Option<int>,
    uid: nat,
    version: nat)

  function HolderOf(l: Lease): string {
    if l.holder.None? then "" else l.holder.value
  }

  predicate LeaseExpired(l: Lease, now: int, fallback: int) {
    var renew := if l.renewTime.None? then l.acquireTime else l.renewTime;
    renew.None? ||
    var duration := if l.durationSeconds.None? then fallback else l.durationSeconds.value * SECOND;
    now > renew.value + duration
  }

  /** LeaseTransitions, with nil read as 0. */
  function Transitions(l: Lease): int {
    if l.transitions.None? then 0 else l.transitions.value
  }

  function ApplyLeaseSpec(l: Lease, holder: string, duration: nat, now: int): Lease {
    l.(holder := Some(holder),
       durationSeconds := Some(Int32(duration / SECOND)),
       acquireTime := Some(now),
       renewTime := Some(now))
  }

  function NewLease(holder: string, duration: nat, now: int, uid: nat, version: nat): Lease {
    ApplyLeaseSpec(Lease(None, None, None, None, None, uid, version), holder, duration, now)
  }

  function TakenOver(l: Lease, holder: string, duration: nat, now: int): Lease {
    ApplyLeaseSpec(l, holder, duration, now).(transitions := Some(Int32(Transitions(l) + 1)))
  }

  function Renewed(l: Lease, stamp: int): Lease {
    l.(renewTime := Some(stamp))
  }

  // ----- State

  /** A write in flight.  `read` is the object the client had read; Delete sends only its UID. */
  datatype Request =
    | Create(sender: string, duration: nat, now: int)
    | TakeOver(sender: string, duration: nat, now: int, read: Lease)
    | Renew(sender: string, stamp: int, read: Lease)
    | Delete(sender: string, read: Lease)

  /** Refused stands for AlreadyExists, Conflict and NotFound. */
  datatype Reply = Accepted(lease: Option<Lease>) | Refused

  datatype Renewal = Resting | Read(lease: Lease) | AwaitRenew(id: nat)

  datatype Phase =
    | Idle                                // about to make an acquire attempt
    | Sampled(now: int)                   // the attempt has sampled the clock
    | AwaitAcquire(id: nat)               // Create or takeover Update sent
    | Failed                              // AcquireLease returned an error
    | Holding(renewal: Renewal)           // AcquireLease returned the lock
    | Releasing                           // renewal stopped, about to read the lease
    | AwaitDelete(id: nat, read: Lease)   // Delete sent
    | Released                            // Release returned nil
    | ReleaseFailed                       // Release returned an error

  /** `won` records the lease whose write made the acquire succeed. */
  datatype Run = Run(duration: nat, phase: Phase, won: Option<Lease>)

  /** `runs` is keyed by holder identity, so identities are distinct. */
  datatype State = State(
    clock: int,
    store: Option<Lease>,
    nextUid: nat,
    nextVersion: nat,
    runs: map<string, Run>,
    net: map<nat, Request>,
    replies: map<nat, Reply>,
    nextId: nat)

  datatype Step =
    | Advance(to: int)
    | Sample(h: string)
    | GetToAcquire(h: string)
    | GetToRenew(h: string)
    | SendRenewal(h: string)
    | BeginRelease(h: string)
    | GetToRelease(h: string)
    | Deliver(h: string)               // a pending reply reaches its run
    | Fail(h: string)                  // a read fails, or the run stops waiting for a reply
    | GiveUp(h: string)                // the retries are over: return an error
    | Serve(id: nat, lost: bool)       // the store handles a request; its reply may be lost
    | Drop(id: nat)                    // a request that never takes effect

  /** What the API server admits, whatever else it may refuse: two non-negative int32 fields. */
  predicate Admissible(l: Lease) {
    && (l.durationSeconds.Some? ==> 0 <= l.durationSeconds.value < 0x8000_0000)
    && 0 <= Transitions(l) < 0x8000_0000
  }

  // ----- The store

  function Written(s: State, r: Request): Lease
    requires !r.Delete?
  {
    match r
    case Create(h, d, now) => NewLease(h, d, now, s.nextUid, s.nextVersion)
    case TakeOver(h, d, now, read) => TakenOver(read, h, d, now).(version := s.nextVersion)
    case Renew(_, stamp, read) => Renewed(read, stamp).(version := s.nextVersion)
  }

  /** Create needs an absent lease, Update the version that was read, Delete the UID that was read. */
  predicate Lands(s: State, r: Request) {
    match r
    case Create(_, _, _) => s.store.None? && Admissible(Written(s, r))
    case Delete(_, read) => s.store.Some? && s.store.value.uid == read.uid
    case _ => s.store.Some? && s.store.value.version == r.read.version && Admissible(Written(s, r))
  }

  function Landed(s: State, r: Request): State
    requires Lands(s, r)
  {
    if r.Delete? then s.(store := None)
    else s.(store := Some(Written(s, r)),
            nextVersion := s.nextVersion + 1,
            nextUid := if r.Create? then s.nextUid + 1 else s.nextUid)
  }

  // ----- Steps

  function Send(s: State, h: string, r: Request, phase: Phase): State
    requires h in s.runs
  {
    s.(net := s.net[s.nextId := r], nextId := s.nextId + 1,
       runs := s.runs[h := s.runs[h].(phase := phase)])
  }

  function Move(s: State, h: string, phase: Phase): State
    requires h in s.runs
  {
    s.(runs := s.runs[h := s.runs[h].(phase := phase)])
  }

  predicate Pending(p: Phase) {
    p.Sampled? || p.AwaitAcquire? || p.AwaitDelete? || (p.Holding? && !p.renewal.Resting?)
  }

  function Awaited(p: Phase): Option<nat> {
    match p
    case AwaitAcquire(id) => Some(id)
    case AwaitDelete(id, _) => Some(id)
    case Holding(AwaitRenew(id)) => Some(id)
    case _ => None
  }

  predicate Enabled(s: State, e: Step) {
    match e
    case Advance(to) => s.clock <= to
    case Serve(id, _) => id in s.net
    case Drop(id) => id in s.net
    case _ =>
      e.h in s.runs &&
      var p := s.runs[e.h].phase;
      match e
      case Sample(_) => p.Idle?
      case GetToAcquire(_) => p.Sampled?
      case GetToRenew(_) => p == Holding(Resting)
      case SendRenewal(_) => p.Holding? && p.renewal.Read?
      case BeginRelease(_) => p == Holding(Resting)
      case GetToRelease(_) => p.Releasing?
      case Deliver(_) => Awaited(p).Some? && Awaited(p).value in s.replies
      case Fail(_) => Pending(p)
      case GiveUp(_) => p.Idle? || p.Releasing?
      case _ => true
  }

  function Next(s: State, e: Step): State
    requires Enabled(s, e)
  {
    match e
    case Advance(to) => s.(clock := to)
    case Sample(h) => Move(s, h, Sampled(s.clock))
    case GetToAcquire(h) => AcquireRead(s, h)
    case GetToRenew(h) =>
      if s.store.Some? && HolderOf(s.store.value) == h then Move(s, h, Holding(Read(s.store.value))) else s
    case SendRenewal(h) =>
      Send(s, h, Renew(h, s.clock, s.runs[h].phase.renewal.lease), Holding(AwaitRenew(s.nextId)))
    case BeginRelease(h) => Move(s, h, Releasing)
    case GetToRelease(h) => ReleaseRead(s, h)
    case Deliver(h) => Delivered(s, h)
    case Fail(h) => Move(s, h, AfterFailure(s.runs[h].phase))
    case GiveUp(h) => Move(s, h, if s.runs[h].phase.Idle? then Failed else ReleaseFailed)
    case Serve(id, lost) => Served(s, id, lost)
    case Drop(id) => s.(net := s.net - {id})
  }

  function AcquireRead(s: State, h: string): State
    requires h in s.runs && s.runs[h].phase.Sampled?
  {
    var d, now := s.runs[h].duration, s.runs[h].phase.now;
    if s.store.None? then Send(s, h, Create(h, d, now), AwaitAcquire(s.nextId))
    else if !LeaseExpired(s.store.value, now, d) then Move(s, h, Idle)
    else Send(s, h, TakeOver(h, d, now, s.store.value), AwaitAcquire(s.nextId))
  }

  function ReleaseRead(s: State, h: string): State
    requires h in s.runs
  {
    if s.store.None? || HolderOf(s.store.value) != h then Move(s, h, Released)
    else Send(s, h, Delete(h, s.store.value), AwaitDelete(s.nextId, s.store.value))
  }

  function AfterFailure(p: Phase): Phase
    requires Pending(p)
  {
    match p
    case Sampled(_) => Idle
    case AwaitAcquire(_) => Idle
    case Holding(_) => Holding(Resting)
    case AwaitDelete(_, _) => Releasing
  }

  function Delivered(s: State, h: string): State
    requires Enabled(s, Deliver(h))
  {
    var run := s.runs[h];
    var reply := s.replies[Awaited(run.phase).value];
    match run.phase
    case AwaitAcquire(_) =>
      if reply.Accepted? then s.(runs := s.runs[h := Run(run.duration, Holding(Resting), reply.lease)])
      else Move(s, h, Idle)
    case AwaitDelete(_, _) => Move(s, h, Released)
    case Holding(_) => Move(s, h, Holding(Resting))
  }

  function Served(s: State, id: nat, lost: bool): State
    requires id in s.net
  {
    var r := s.net[id];
    var s' := (if Lands(s, r) then Landed(s, r) else s).(net := s.net - {id});
    if lost then s' else s'.(replies := s.replies[id := if Lands(s, r) then Accepted(s'.store) else Refused])
  }

  // ----- Executions

  /** Nothing has been sent yet; a lease left behind by someone else may be stored. */
  predicate Init(s: State) {
    && s.net == map[] && s.replies == map[]
    && (forall h <- s.runs :: s.runs[h].phase.Idle? && s.runs[h].won.None?)
    && (s.store.Some? ==>
          var l := s.store.value;
          && Admissible(l) && l.uid < s.nextUid && l.version < s.nextVersion
          && (l.renewTime.Some? ==> l.renewTime.value <= s.clock)
          && HolderOf(l) !in s.runs)
  }

  predicate StepAt(states: seq<State>, steps: seq<Step>, i: nat)
    requires |states| == |steps| + 1 && i < |steps|
  {
    Enabled(states[i], steps[i]) && states[i + 1] == Next(states[i], steps[i])
  }

  ghost predicate Execution(states: seq<State>, steps: seq<Step>) {
    && |states| == |steps| + 1
    && Init(states[0])
    && forall i :: 0 <= i < |steps| ==> StepAt(states, steps, i)
  }

  /** A run of the protocol from any state, not only from an initial one. */
  ghost predicate Continuation(states: seq<State>, steps: seq<Step>) {
    |states| == |steps| + 1 && forall i :: 0 <= i < |steps| ==> StepAt(states, steps, i)
  }

  lemma OneStepMore(states: seq<State>, steps: seq<Step>, e: Step)
    requires Continuation(states, steps) && Enabled(states[|steps|], e)
    ensures Continuation(states + [Next(states[|steps|], e)], steps + [e])
  {
    var states', steps' := states + [Next(states[|steps|], e)], steps + [e];
    forall i | 0 <= i < |steps'| ensures StepAt(states', steps', i) {
      if i < |steps| { assert StepAt(states, steps, i); }
    }
  }
}
