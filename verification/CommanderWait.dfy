/** The wait for a cluster to converge after an update. */
module CommanderWait {
  import opened Options
  import opened Text

  datatype Phase = Ready | Draft | Creating | Updating | Deleting | Failed | Joining | ReadyToJoin | Other(status: string)

  function MapStatusToPhase(lower: char -> char, status: string): Phase {
    var s := ToLower(lower, status);
    if s in {"in_sync", "insync", "ready", "running", "active"} then Ready
    else if s == "new" then Draft
    else if s in {"creating", "provisioning", "bootstrapping"} then Creating
    else if s in {"updating", "upgrading"} then Updating
    else if s in {"deleting", "terminating"} then Deleting
    else if s in {"failed", "error"} then Failed
    else if s == "joining" then Joining
    else if s in {"ready_to_join", "readytojoin"} then ReadyToJoin
    else Other(status)
  }

  predicate IsFailureStatus(lower: char -> char, status: string) {
    Contains(ToLower(lower, status), "fail")
  }

  datatype Approval = Approved | NotYet | CannotConverge
  datatype Observed = Observed(id: string, status: string, message: string)
  datatype Pause = Tick | Deadline | Cancelled

  /** One pass of the loop: change requests (None if listing failed), the read, and what ends the pause. */
  datatype Poll = Poll(approvals: Option<seq<Approval>>, read: Option<Observed>, pause: Pause)

  datatype Verdict =
    | Converged
    | CannotBeConverged
    | FailedPhase(status: string)
    | StuckFailing(status: string, seen: seq<string>)
    | TimedOut(status: string, seen: seq<string>)
    | ContextDone

  // ----- What the poll history says

  /** The statuses of the successful reads, oldest first. */
  function Reads(polls: seq<Poll>): seq<string> {
    if polls == [] then []
    else
      ReadsAfter(Reads(polls[..|polls| - 1]), polls[|polls| - 1])
  }

  function LastRead(h: seq<string>): string {
    if h == [] then "" else h[|h| - 1]
  }

  /** The history with equal neighbours merged; empty statuses at its start count as nothing. */
  function Merged(h: seq<string>): seq<string> {
    if h == [] then []
    else
      var front := h[..|h| - 1];
      if h[|h| - 1] == LastRead(front) then Merged(front) else Merged(front) + [h[|h| - 1]]
  }

  /** How many reads at the end of the history agree. */
  function TrailingRun(h: seq<string>): nat {
    if h == [] then 0
    else if |h| > 1 && h[|h| - 2] == h[|h| - 1] then TrailingRun(h[..|h| - 1]) + 1
    else 1
  }

  function FailingRun(lower: char -> char, h: seq<string>): nat {
    if h != [] && IsFailureStatus(lower, LastRead(h)) then TrailingRun(h) else 0
  }

  /** The id the loop knows before poll n. */
  function KnownId(id: string, polls: seq<Poll>): string {
    if polls == [] then id
    else
      var known, p := KnownId(id, polls[..|polls| - 1]), polls[|polls| - 1];
      if known == "" && p.read.Some? then p.read.value.id else known
  }

  /** How the latest of the reads `h` ends the wait, if it does. */
  function ReadVerdict(lower: char -> char, limit: int, h: seq<string>): Option<Verdict> {
    var status := LastRead(h);
    match MapStatusToPhase(lower, status)
    case Ready => Some(Converged)
    case Failed => Some(FailedPhase(status))
    case _ =>
      if IsFailureStatus(lower, status) && FailingRun(lower, h) >= limit then Some(StuckFailing(status, Merged(h))) else None
  }

  /** The reads after one more poll. */
  function ReadsAfter(before: seq<string>, p: Poll): seq<string> {
    if p.read.Some? then before + [p.read.value.status] else before
  }

  /** How one poll ends the wait, if it does: first its approvals, then its read, then its pause. */
  function PollVerdict(lower: char -> char, limit: int, known: string, before: seq<string>, p: Poll): Option<Verdict> {
    var h := ReadsAfter(before, p);
    if known != "" && p.approvals.Some? && CannotConverge in p.approvals.value then Some(CannotBeConverged)
    else if p.read.Some? && ReadVerdict(lower, limit, h).Some? then ReadVerdict(lower, limit, h)
    else
      match p.pause
      case Tick => None
      case Deadline => Some(TimedOut(LastRead(h), Merged(h)))
      case Cancelled => Some(ContextDone)
  }

  function EndsAt(lower: char -> char, limit: int, id: string, polls: seq<Poll>, n: nat): Option<Verdict>
    requires n < |polls|
  {
    PollVerdict(lower, limit, KnownId(id, polls[..n]), Reads(polls[..n]), polls[n])
  }

  // ----- What each verdict means

  predicate ReadsStatus(lower: char -> char, p: Poll, among: set<string>) {
    p.read.Some? && ToLower(lower, p.read.value.status) in among
  }

  predicate ReadsReady(lower: char -> char, p: Poll) {
    ReadsStatus(lower, p, {"in_sync", "insync", "ready", "running", "active"})
  }

  predicate ReadsFailed(lower: char -> char, p: Poll) {
    ReadsStatus(lower, p, {"failed", "error"})
  }

  /** The status read is another one, says "fail", and has been read `limit` times in a row. */
  predicate ReadsStuck(lower: char -> char, limit: int, p: Poll, h: seq<string>) {
    && p.read.Some? && !ReadsReady(lower, p) && !ReadsFailed(lower, p)
    && Contains(ToLower(lower, p.read.value.status), "fail") && TrailingRun(h) >= limit
  }

  /** Poll n with the reads up to it does not decide by its status. */
  predicate GoesOn(lower: char -> char, limit: int, p: Poll, h: seq<string>) {
    !ReadsReady(lower, p) && !ReadsFailed(lower, p) && !ReadsStuck(lower, limit, p, h)
  }

  /** What poll n must be like for the verdict v; None means that the wait goes on. */
  predicate Justifies(lower: char -> char, limit: int, id: string, polls: seq<Poll>, n: nat, v: Option<Verdict>)
    requires n < |polls|
  {
    var p, h := polls[n], Reads(polls[..n + 1]);
    match v
    case None => Approvable(id, polls, n) && GoesOn(lower, limit, p, h) && p.pause == Tick
    case Some(CannotBeConverged) => !Approvable(id, polls, n)
    case Some(Converged) => Approvable(id, polls, n) && ReadsReady(lower, p)
    case Some(FailedPhase(status)) =>
      Approvable(id, polls, n) && ReadsFailed(lower, p) && status == p.read.value.status
    case Some(StuckFailing(status, seen)) =>
      Approvable(id, polls, n) && ReadsStuck(lower, limit, p, h) && status == p.read.value.status && seen == Merged(h)
    case Some(TimedOut(status, seen)) =>
      && Approvable(id, polls, n) && GoesOn(lower, limit, p, h) && p.pause == Deadline
      && status == LastRead(h) && seen == Merged(h)
    case Some(ContextDone) => Approvable(id, polls, n) && GoesOn(lower, limit, p, h) && p.pause == Cancelled
  }

  /** The conditions exclude each other, so that each verdict comes exactly under its own. */
  lemma JustifiedIsUnique(
    lower: char -> char, limit: int, id: string, polls: seq<Poll>, n: nat, v: Option<Verdict>, v': Option<Verdict>)
    requires n < |polls| && Justifies(lower, limit, id, polls, n, v) && Justifies(lower, limit, id, polls, n, v')
    ensures v == v'
  {
  }

  lemma PhaseMeans(lower: char -> char, status: string)
    ensures var s, phase := ToLower(lower, status), MapStatusToPhase(lower, status);
            && (phase == Ready <==> s in {"in_sync", "insync", "ready", "running", "active"})
            && (phase == Failed <==> s in {"failed", "error"})
  {
    var s := ToLower(lower, status);
    if s in {"failed", "error"} { assert s[0] == 'f' || (s[0] == 'e' && |s| == 5); }
  }

  /** The verdict of the reads by the phase of the latest one. */
  lemma ReadVerdictByPhase(lower: char -> char, limit: int, before: seq<string>, status: string)
    ensures var v, h, phase := ReadVerdict(lower, limit, before + [status]), before + [status], MapStatusToPhase(lower, status);
            && (phase == Ready ==> v == Some(Converged))
            && (phase == Failed ==> v == Some(FailedPhase(status)))
            && (phase != Ready && phase != Failed ==>
                  v == if Contains(ToLower(lower, status), "fail") && TrailingRun(h) >= limit
                       then Some(StuckFailing(status, Merged(h))) else None)
  {
    assert LastRead(before + [status]) == status;
  }

  lemma ReadVerdictMeans(lower: char -> char, limit: int, p: Poll, before: seq<string>)
    requires p.read.Some?
    ensures var status := p.read.value.status;
            var v, h := ReadVerdict(lower, limit, before + [status]), before + [status];
            && (v == Some(Converged) <==> ReadsReady(lower, p))
            && (v == Some(FailedPhase(status)) <==> ReadsFailed(lower, p))
            && (v == Some(StuckFailing(status, Merged(h))) <==> ReadsStuck(lower, limit, p, h))
            && (v == None <==> GoesOn(lower, limit, p, h))
  {
    PhaseMeans(lower, p.read.value.status);
    ReadVerdictByPhase(lower, limit, before, p.read.value.status);
  }

  /** The verdict of a poll is the one that its conditions justify. */
  lemma VerdictIsJustified(lower: char -> char, limit: int, id: string, polls: seq<Poll>, n: nat)
    requires n < |polls|
    ensures Justifies(lower, limit, id, polls, n, EndsAt(lower, limit, id, polls, n))
  {
    var p, before := polls[n], Reads(polls[..n]);
    assert polls[..n + 1][..n] == polls[..n];
    assert Reads(polls[..n + 1]) == ReadsAfter(before, p);
    if p.read.Some? { ReadVerdictMeans(lower, limit, p, before); }
  }

  // ----- The loop

  method Approve(approvals: seq<Approval>) returns (cannot: bool)
    ensures cannot <==> CannotConverge in approvals
  {
    for i := 0 to |approvals|
      invariant CannotConverge !in approvals[..i]
    {
      if approvals[i].CannotConverge? {
        return true;
      }
    }
    return false;
  }

  /** Takes in one successful read and decides whether it ends the wait. */
  method TakeRead(lower: char -> char, limit: int, status: string, lastStatus: string, seen: seq<string>, failing: nat,
                  ghost before: seq<string>)
    returns (v: Option<Verdict>, statuses: seq<string>, failingPolls: nat)
    requires lastStatus == LastRead(before) && seen == Merged(before) && failing == FailingRun(lower, before)
    ensures v == ReadVerdict(lower, limit, before + [status])
    ensures statuses == Merged(before + [status])
    ensures v.None? ==> failingPolls == FailingRun(lower, before + [status])
  {
    ghost var h := before + [status];
    assert h[..|h| - 1] == before;
    EmptyIsNoFailure(lower);
    statuses, failingPolls := seen, failing;
    if status != lastStatus {
      statuses, failingPolls := statuses + [status], 0;
    }
    match MapStatusToPhase(lower, status) {
      case Ready => return Some(Converged), statuses, failingPolls;
      case Failed => return Some(FailedPhase(status)), statuses, failingPolls;
      case _ =>
    }
    if IsFailureStatus(lower, status) {
      failingPolls := failingPolls + 1;
      if failingPolls >= limit {
        return Some(StuckFailing(status, statuses)), statuses, failingPolls;
      }
    }
    v := None;
  }

  /** Runs the polls of a history; None when the history ends before the wait does. */
  method WaitForConvergence(lower: char -> char, limit: int, id: string, polls: seq<Poll>)
    returns (r: Option<Verdict>, n: nat)
    ensures n <= |polls| && forall k :: 0 <= k < n ==> (k < n - 1 || r.None?) ==> EndsAt(lower, limit, id, polls, k).None?
    ensures r.None? ==> n == |polls|
    ensures r.Some? ==> n > 0 && EndsAt(lower, limit, id, polls, n - 1) == r
    ensures r.Some? ==> Justifies(lower, limit, id, polls, n - 1, r)
    ensures forall k :: 0 <= k < n ==> (k < n - 1 || r.None?) ==> Justifies(lower, limit, id, polls, k, None)
  {
    var clusterId, lastStatus, statuses, failingPolls := id, "", [], 0;
    ghost var h: seq<string> := [];
    n := 0;
    assert polls[..0] == [];
    while n < |polls|
      invariant n <= |polls| && forall k :: 0 <= k < n ==> EndsAt(lower, limit, id, polls, k).None?
      invariant forall k :: 0 <= k < n ==> Justifies(lower, limit, id, polls, k, None)
      invariant clusterId == KnownId(id, polls[..n]) && h == Reads(polls[..n])
      invariant lastStatus == LastRead(h) && statuses == Merged(h) && failingPolls == FailingRun(lower, h)
    {
      HistoryStep(id, polls, n);
      r, clusterId, lastStatus, statuses, failingPolls :=
        TakePoll(lower, limit, polls[n], clusterId, lastStatus, statuses, failingPolls, h);
      VerdictIsJustified(lower, limit, id, polls, n);
      h, n := ReadsAfter(h, polls[n]), n + 1;
      if r.Some? {
        return;
      }
    }
    r := None;
  }

  lemma HistoryStep(id: string, polls: seq<Poll>, n: nat)
    requires n < |polls|
    ensures Reads(polls[..n + 1]) == ReadsAfter(Reads(polls[..n]), polls[n])
    ensures var known, p := KnownId(id, polls[..n]), polls[n];
            KnownId(id, polls[..n + 1]) == if known == "" && p.read.Some? then p.read.value.id else known
  {
    assert polls[..n + 1][..n] == polls[..n];
  }

  /** One pass of the loop. */
  method TakePoll(lower: char -> char, limit: int, p: Poll, id: string, last: string, seen: seq<string>, failing: nat,
                  ghost before: seq<string>)
    returns (v: Option<Verdict>, clusterId: string, lastStatus: string, statuses: seq<string>, failingPolls: nat)
    requires last == LastRead(before) && seen == Merged(before) && failing == FailingRun(lower, before)
    ensures v == PollVerdict(lower, limit, id, before, p)
    ensures v.None? ==>
              var h := ReadsAfter(before, p);
              && clusterId == (if id == "" && p.read.Some? then p.read.value.id else id)
              && lastStatus == LastRead(h) && statuses == Merged(h) && failingPolls == FailingRun(lower, h)
  {
    clusterId, lastStatus, statuses, failingPolls := id, last, seen, failing;
    if clusterId != "" && p.approvals.Some? {
      var cannot := Approve(p.approvals.value);
      if cannot {
        v := Some(CannotBeConverged);
        return;
      }
    }
    if p.read.Some? {
      v, statuses, failingPolls := TakeRead(lower, limit, p.read.value.status, lastStatus, statuses, failingPolls, before);
      lastStatus := p.read.value.status;
      if clusterId == "" {
        clusterId := p.read.value.id;
      }
      if v.Some? {
        return;
      }
    }
    match p.pause {
      case Cancelled => v := Some(ContextDone);
      case Deadline => v := Some(TimedOut(lastStatus, statuses));
      case Tick => v := None;
    }
  }

  lemma EmptyIsNoFailure(lower: char -> char)
    ensures !IsFailureStatus(lower, "")
  {
  }

  // ----- What the history functions mean

  /** Each successful read adds its status, in order, and a failed one adds nothing. */
  lemma {:induction false} ReadsOfParts(a: seq<Poll>, b: seq<Poll>)
    ensures Reads(a + b) == Reads(a) + Reads(b)
    ensures forall p :: Reads([p]) == if p.read.Some? then [p.read.value.status] else []
  {
    forall p ensures Reads([p]) == ReadsAfter(Reads([]), p) { assert [p][..0] == []; }
    if b == [] {
      assert a + b == a;
    } else {
      assert (a + b)[..|a + b| - 1] == a + b[..|b| - 1];
      ReadsOfParts(a, b[..|b| - 1]);
    }
  }

  /** The id is the one given, or else the first one read that is not empty. */
  lemma {:induction false} KnownIdMeans(id: string, polls: seq<Poll>)
    ensures id != "" ==> KnownId(id, polls) == id
    ensures id == "" ==>
              (KnownId(id, polls) == "" <==> forall k :: 0 <= k < |polls| && polls[k].read.Some? ==> polls[k].read.value.id == "")
    ensures id == "" && KnownId(id, polls) != "" ==> exists k :: 0 <= k < |polls| && FirstId(polls, k, KnownId(id, polls))
  {
    if polls != [] {
      var front := polls[..|polls| - 1];
      KnownIdMeans(id, front);
      if id == "" && KnownId(id, front) != "" {
        var k :| 0 <= k < |front| && FirstId(front, k, KnownId(id, front));
        assert FirstId(polls, k, KnownId(id, polls));
        assert polls[k].read.Some? && polls[k].read.value.id != "";
      } else if id == "" && KnownId(id, polls) != "" {
        assert FirstId(polls, |polls| - 1, KnownId(id, polls));
      }
    }
  }

  /** Poll k reads `id`, and every read before it an empty one. */
  predicate FirstId(polls: seq<Poll>, k: nat, id: string)
    requires k < |polls|
  {
    && polls[k].read.Some? && polls[k].read.value.id == id && id != ""
    && forall j :: 0 <= j < k && polls[j].read.Some? ==> polls[j].read.value.id == ""
  }

  lemma {:induction false} MergedHasNoRepeats(h: seq<string>)
    ensures Merged(h) != [] ==> Merged(h)[0] != ""
    ensures forall i :: 0 <= i < |Merged(h)| - 1 ==> Merged(h)[i] != Merged(h)[i + 1]
    ensures LastRead(Merged(h)) == LastRead(h)
  {
    if h != [] { MergedHasNoRepeats(h[..|h| - 1]); }
  }

  /** Merging loses nothing else: a status is listed exactly when it was read after the empty start. */
  lemma {:induction false} MergedKeepsStatuses(h: seq<string>, s: string)
    requires s != ""
    ensures s in Merged(h) <==> s in h
  {
    if h != [] {
      var front := h[..|h| - 1];
      MergedKeepsStatuses(front, s);
      assert h == front + [h[|h| - 1]];
      assert LastRead(front) == s ==> s in front;
    }
  }

  /** The history reads `status` from a to b. */
  predicate ReadsFrom(h: seq<string>, a: nat, b: nat, status: string) {
    a <= b <= |h| && forall i :: a <= i < b ==> h[i] == status
  }

  /** From cuts[j] to the next cut the history reads m[j]; before the first cut it reads empty statuses. */
  ghost predicate Blocks(h: seq<string>, m: seq<string>, cuts: seq<nat>) {
    && |cuts| == |m| + 1 && cuts[|m|] == |h| && ReadsFrom(h, 0, cuts[0], "")
    && forall j :: 0 <= j < |m| ==> cuts[j] < cuts[j + 1] && ReadsFrom(h, cuts[j], cuts[j + 1], m[j])
  }

  lemma LongerBlock(h: seq<string>, m: seq<string>, cuts: seq<nat>, s: string)
    requires Blocks(h, m, cuts) && s == LastRead(m)
    ensures Blocks(h + [s], m, cuts[|m| := |h| + 1])
  {
    var cuts' := cuts[|m| := |h| + 1];
    forall j | 0 <= j < |m| ensures cuts'[j] < cuts'[j + 1] && ReadsFrom(h + [s], cuts'[j], cuts'[j + 1], m[j]) {
      assert ReadsFrom(h, cuts[j], cuts[j + 1], m[j]);
    }
  }

  lemma NewBlock(h: seq<string>, m: seq<string>, cuts: seq<nat>, s: string)
    requires Blocks(h, m, cuts)
    ensures Blocks(h + [s], m + [s], cuts + [|h| + 1])
  {
    var m', cuts' := m + [s], cuts + [|h| + 1];
    forall j | 0 <= j < |m'| ensures cuts'[j] < cuts'[j + 1] && ReadsFrom(h + [s], cuts'[j], cuts'[j + 1], m'[j]) {
      if j < |m| { assert ReadsFrom(h, cuts[j], cuts[j + 1], m[j]); }
    }
  }

  /** The recorded statuses are those of the blocks that make up the history, in order. */
  lemma {:induction false} MergedIsBlocks(h: seq<string>) returns (cuts: seq<nat>)
    ensures Blocks(h, Merged(h), cuts)
  {
    if h == [] {
      cuts := [0];
    } else {
      var front, s := h[..|h| - 1], h[|h| - 1];
      cuts := MergedIsBlocks(front);
      MergedHasNoRepeats(front);
      if s == LastRead(front) { LongerBlock(front, Merged(front), cuts, s); } else { NewBlock(front, Merged(front), cuts, s); }
      assert front + [s] == h;
      cuts := if s == LastRead(front) then cuts[|Merged(front)| := |h|] else cuts + [|h|];
    }
  }

  lemma {:induction false} TrailingRunMeans(h: seq<string>)
    requires h != []
    ensures 1 <= TrailingRun(h) <= |h|
    ensures forall i :: |h| - TrailingRun(h) <= i < |h| ==> h[i] == h[|h| - 1]
    ensures TrailingRun(h) < |h| ==> h[|h| - TrailingRun(h) - 1] != h[|h| - 1]
  {
    if |h| > 1 { TrailingRunMeans(h[..|h| - 1]); }
  }

  /** The status of the latest read is one the wait does not stop at by itself. */
  predicate Undecided(lower: char -> char, h: seq<string>) {
    !MapStatusToPhase(lower, LastRead(h)).Ready? && !MapStatusToPhase(lower, LastRead(h)).Failed?
  }

  predicate Stuck(v: Option<Verdict>) {
    v.Some? && v.value.StuckFailing?
  }

  lemma StuckRead(lower: char -> char, limit: int, h: seq<string>)
    requires limit >= 1
    ensures Stuck(ReadVerdict(lower, limit, h)) <==> Undecided(lower, h) && FailingRun(lower, h) >= limit
  {
  }

  /** One more read makes the failing run at most one longer. */
  lemma RunGrowsByOne(lower: char -> char, h: seq<string>, s: string)
    ensures FailingRun(lower, h + [s]) <= FailingRun(lower, h) + 1
  {
    assert (h + [s])[..|h|] == h;
  }

  /** Change requests of the poll do not stop the wait. */
  predicate Approvable(id: string, polls: seq<Poll>, n: nat)
    requires n < |polls|
  {
    KnownId(id, polls[..n]) == "" || polls[n].approvals.None? || CannotConverge !in polls[n].approvals.value
  }

  /** The sticky-failure error comes exactly when the run of one failure status reaches the limit. */
  lemma StuckExactlyAtLimit(lower: char -> char, limit: int, id: string, polls: seq<Poll>, n: nat)
    requires limit >= 1 && n < |polls| && forall k :: 0 <= k < n ==> EndsAt(lower, limit, id, polls, k).None?
    ensures Stuck(EndsAt(lower, limit, id, polls, n)) <==>
              && Approvable(id, polls, n) && polls[n].read.Some?
              && Undecided(lower, Reads(polls[..n + 1])) && FailingRun(lower, Reads(polls[..n + 1])) == limit
  {
    var before, p := Reads(polls[..n]), polls[n];
    assert polls[..n + 1][..n] == polls[..n];
    assert Reads(polls[..n + 1]) == ReadsAfter(before, p);
    RunBelowLimit(lower, limit, id, polls, n);
    if p.read.Some? {
      StuckRead(lower, limit, before + [p.read.value.status]);
      RunGrowsByOne(lower, before, p.read.value.status);
    }
  }

  lemma {:induction false} RunBelowLimit(lower: char -> char, limit: int, id: string, polls: seq<Poll>, n: nat)
    requires limit >= 1 && n <= |polls| && forall k :: 0 <= k < n ==> EndsAt(lower, limit, id, polls, k).None?
    ensures FailingRun(lower, Reads(polls[..n])) < limit
  {
    if n > 0 {
      RunBelowLimit(lower, limit, id, polls, n - 1);
      assert polls[..n][..n - 1] == polls[..n - 1];
      assert EndsAt(lower, limit, id, polls, n - 1).None?;
    }
  }
}
