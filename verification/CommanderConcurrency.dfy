/**
 Any number of UpdateClusterValues calls, each setting one key, in any interleaving.  A call may return
 an error while its last PUT is still under way; the PUT may be handled at any later time.
 */
module CommanderConcurrency {
  import opened CommanderUpdate

  datatype Phase = Start | HasRead(revision: nat, cluster: Cluster) | Returned(ok: bool)

  datatype Caller = Caller(key: string, value: Json, puts: nat, phase: Phase)

  /** A PUT whose call has returned; it carries the revision and the cluster that were read. */
  datatype LatePut = LatePut(revision: nat, cluster: Cluster)

  datatype State = State(log: Log, callers: map<string, Caller>, late: map<string, LatePut>)

  datatype Step =
    | Fetch(w: string)
    | FetchFails(w: string)
    | Put(w: string, fate: PutFate)   // sent, and handled before the call goes on
    | GiveUp(w: string)               // sent, and the call returns an error before it is handled
    | Land(w: string)                 // a PUT of a call that gave up is handled

  predicate Enabled(s: State, e: Step) {
    && e.w in s.callers
    && match e
       case Land(_) => e.w in s.late
       case Put(_, _) => s.callers[e.w].phase.HasRead?
       case GiveUp(_) => s.callers[e.w].phase.HasRead?
       case _ => s.callers[e.w].phase.Start?
  }

  function To(s: State, w: string, c: Caller): State {
    s.(callers := s.callers[w := c])
  }

  /** The server accepts a PUT whose revision is current. */
  function Handled(s: State, w: string, revision: nat, cluster: Cluster): Log
    requires w in s.callers
  {
    if revision == |s.log| - 1
    then s.log + [Entry(w, Mutated(cluster, SetKey(s.callers[w].key, s.callers[w].value)))]
    else s.log
  }

  function Next(s: State, e: Step): State
    requires Enabled(s, e)
  {
    var w, c := e.w, s.callers[e.w];
    match e
    case Fetch(_) => To(s, w, c.(phase := HasRead(|s.log| - 1, s.log[|s.log| - 1].cluster)))
    case FetchFails(_) => To(s, w, c.(phase := Returned(false)))
    case Put(_, fate) => AfterPut(s, w, fate)
    case GiveUp(_) =>
      To(s, w, c.(puts := c.puts + 1, phase := Returned(false)))
        .(late := s.late[w := LatePut(c.phase.revision, c.phase.cluster)])
    case Land(_) => s.(log := Handled(s, w, s.late[w].revision, s.late[w].cluster), late := s.late - {w})
  }

  function AfterPut(s: State, w: string, fate: PutFate): State
    requires w in s.callers && s.callers[w].phase.HasRead?
  {
    var c := s.callers[w];
    var sent := c.(puts := c.puts + 1);
    if fate.NotHandled? then To(s, w, sent.(phase := Returned(false)))
    else
      var s' := s.(log := Handled(s, w, c.phase.revision, c.phase.cluster));
      if |s'.log| > |s.log| then To(s', w, sent.(phase := Returned(fate.Answered?)))
      else To(s', w, sent.(phase :=
        if fate.AnswerLost? || sent.puts == UPDATE_REVISION_RETRIES then Returned(false) else Start))
  }

  predicate Init(s: State) {
    |s.log| == 1 && s.log[0].writer !in s.callers && s.late == map[] &&
    forall w <- s.callers :: s.callers[w].puts == 0 && s.callers[w].phase.Start?
  }

  predicate StepAt(states: seq<State>, steps: seq<Step>, i: nat)
    requires |states| == |steps| + 1 && i < |steps|
  {
    Enabled(states[i], steps[i]) && states[i + 1] == Next(states[i], steps[i])
  }

  ghost predicate Execution(states: seq<State>, steps: seq<Step>) {
    |states| == |steps| + 1 && Init(states[0]) && forall i :: 0 <= i < |steps| ==> StepAt(states, steps, i)
  }

  // ----- What every step keeps

  predicate EntryOk(s: State, r: nat)
    requires 0 < r < |s.log|
  {
    && s.log[r].writer in s.callers
    && Applies(s.log, r, SetKey(s.callers[s.log[r].writer].key, s.callers[s.log[r].writer].value))
    && s.callers[s.log[r].writer].phase.Returned?
  }

  predicate Wrote(s: State, r: nat, w: string) {
    0 < r < |s.log| && s.log[r].writer == w
  }

  ghost predicate WroteOne(s: State, w: string) {
    exists r: nat :: Wrote(s, r, w)
  }

  ghost predicate CallerOk(s: State, w: string)
    requires w in s.callers
  {
    var c := s.callers[w];
    && c.puts <= UPDATE_REVISION_RETRIES && (!c.phase.Returned? ==> c.puts < UPDATE_REVISION_RETRIES)
    && (c.phase.HasRead? ==> c.phase.revision < |s.log| && c.phase.cluster == s.log[c.phase.revision].cluster)
    && (c.phase == Returned(true) ==> WroteOne(s, w))
  }

  /** A late PUT belongs to a call that returned an error and wrote nothing. */
  ghost predicate LateOk(s: State, w: string)
    requires w in s.late
  {
    && w in s.callers && s.callers[w].phase == Returned(false) && !WroteOne(s, w)
    && s.late[w].revision < |s.log| && s.late[w].cluster == s.log[s.late[w].revision].cluster
  }

  ghost predicate Inv(s: State) {
    && (forall r :: 0 < r < |s.log| ==> EntryOk(s, r))
    && (forall q, r :: 0 < q < r < |s.log| ==> s.log[q].writer != s.log[r].writer)
    && (forall w <- s.callers :: CallerOk(s, w))
    && (forall w <- s.late :: LateOk(s, w))
  }

  /** One more entry: the mutation of the newest revision by a call that wrote nothing before. */
  ghost predicate OneMoreEntry(s: State, log: Log, w: string) {
    && w in s.callers && !WroteOne(s, w)
    && log == s.log + [Entry(w, Mutated(s.log[|s.log| - 1].cluster, SetKey(s.callers[w].key, s.callers[w].value)))]
  }

  /** What a step of w leaves alone: the log but for one entry, and everything of the other calls. */
  ghost predicate StepOf(s: State, s': State, w: string) {
    && (s'.log == s.log || OneMoreEntry(s, s'.log, w))
    && w in s.callers && s'.callers.Keys == s.callers.Keys
    && (forall g <- s.callers :: s'.callers[g].key == s.callers[g].key && s'.callers[g].value == s.callers[g].value)
    && (forall g <- s.callers :: g != w ==> s'.callers[g] == s.callers[g])
    && (forall g <- s'.late :: g != w ==> g in s.late && s'.late[g] == s.late[g])
    && (s.callers[w].phase.Returned? ==> s'.callers[w] == s.callers[w])
    && (s'.log != s.log ==> s'.callers[w].phase.Returned? && w !in s'.late)
  }

  lemma WriterReturned(s: State, w: string)
    requires Inv(s) && w in s.callers && WroteOne(s, w)
    ensures s.callers[w].phase.Returned?
  {
    var r: nat :| Wrote(s, r, w);
    assert EntryOk(s, r);
  }

  lemma ActiveWroteNothing(s: State, w: string)
    requires Inv(s) && w in s.callers && (!s.callers[w].phase.Returned? || w in s.late)
    ensures !WroteOne(s, w)
  {
    if w in s.late {
      assert LateOk(s, w);
    } else if WroteOne(s, w) {
      WriterReturned(s, w);
    }
  }

  lemma HandledIsOneMore(s: State, w: string, revision: nat, cluster: Cluster)
    requires w in s.callers && !WroteOne(s, w) && revision < |s.log| && cluster == s.log[revision].cluster
    ensures var log := Handled(s, w, revision, cluster); log == s.log || OneMoreEntry(s, log, w)
  {
  }

  lemma ToIsStepOf(s: State, log: Log, w: string, c: Caller)
    requires w in s.callers && !s.callers[w].phase.Returned? && w !in s.late
    requires c.key == s.callers[w].key && c.value == s.callers[w].value
    requires log == s.log || (OneMoreEntry(s, log, w) && c.phase.Returned?)
    ensures StepOf(s, To(s.(log := log), w, c), w)
  {
  }

  lemma PutIsStepOf(s: State, w: string, fate: PutFate)
    requires Inv(s) && Enabled(s, Put(w, fate))
    ensures StepOf(s, AfterPut(s, w, fate), w)
  {
    assert CallerOk(s, w);
    ActiveWroteNothing(s, w);
    HandledIsOneMore(s, w, s.callers[w].phase.revision, s.callers[w].phase.cluster);
    assert w in s.late ==> LateOk(s, w);
    var s' := AfterPut(s, w, fate);
    ToIsStepOf(s, s'.log, w, s'.callers[w]);
    assert s' == To(s.(log := s'.log), w, s'.callers[w]);
  }

  lemma LandIsStepOf(s: State, w: string)
    requires Inv(s) && Enabled(s, Land(w))
    ensures StepOf(s, Next(s, Land(w)), w)
  {
    assert LateOk(s, w);
    HandledIsOneMore(s, w, s.late[w].revision, s.late[w].cluster);
  }

  lemma NextIsStepOf(s: State, e: Step)
    requires Inv(s) && Enabled(s, e)
    ensures StepOf(s, Next(s, e), e.w)
  {
    match e
    case Put(w, fate) => PutIsStepOf(s, w, fate);
    case Land(w) => LandIsStepOf(s, w);
    case _ =>
  }

  lemma EntriesKeep(s: State, s': State, w: string)
    requires Inv(s) && StepOf(s, s', w)
    ensures forall r :: 0 < r < |s'.log| ==> EntryOk(s', r)
    ensures forall q, r :: 0 < q < r < |s'.log| ==> s'.log[q].writer != s'.log[r].writer
  {
    forall r | 0 < r < |s'.log| ensures EntryOk(s', r) {
      if r < |s.log| { assert EntryOk(s, r); }
    }
    forall q, r | 0 < q < r < |s'.log| ensures s'.log[q].writer != s'.log[r].writer {
      if r == |s.log| { assert !Wrote(s, q, w); }
    }
  }

  lemma OtherCallsKeep(s: State, s': State, w: string, g: string)
    requires Inv(s) && StepOf(s, s', w) && g in s.callers && g != w
    ensures CallerOk(s', g) && (g in s'.late ==> LateOk(s', g))
  {
    assert CallerOk(s, g);
    if WroteOne(s, g) {
      var r: nat :| Wrote(s, r, g);
      assert Wrote(s', r, g);
    }
    if g in s'.late {
      assert LateOk(s, g);
      forall r: nat ensures !Wrote(s', r, g) { assert !Wrote(s, r, g); }
    }
  }

  lemma OwnCallKeeps(s: State, e: Step)
    requires Inv(s) && Enabled(s, e)
    ensures CallerOk(Next(s, e), e.w) && (e.w in Next(s, e).late ==> LateOk(Next(s, e), e.w))
  {
    var s', w := Next(s, e), e.w;
    assert CallerOk(s, w);
    if w in s.late { assert LateOk(s, w); }
    if s'.callers[w].phase == Returned(true) && !WroteOne(s, w) {
      assert Wrote(s', |s.log|, w);
    } else if WroteOne(s, w) {
      var r: nat :| Wrote(s, r, w);
      assert Wrote(s', r, w);
    }
    if w in s'.late {
      ActiveWroteNothing(s, w);
      forall r: nat ensures !Wrote(s', r, w) { assert !Wrote(s, r, w); }
    }
  }

  lemma NextKeepsInv(s: State, e: Step)
    requires Inv(s) && Enabled(s, e)
    ensures Inv(Next(s, e))
  {
    var s', w := Next(s, e), e.w;
    NextIsStepOf(s, e);
    EntriesKeep(s, s', w);
    OwnCallKeeps(s, e);
    forall g <- s.callers | g != w ensures CallerOk(s', g) && (g in s'.late ==> LateOk(s', g)) {
      OtherCallsKeep(s, s', w, g);
    }
    forall g <- s'.late ensures LateOk(s', g) {
      if g != w { assert LateOk(s, g); }
    }
  }

  lemma {:induction false} AlwaysInv(states: seq<State>, steps: seq<Step>, i: nat)
    requires Execution(states, steps) && i < |states|
    ensures Inv(states[i])
  {
    if i > 0 {
      AlwaysInv(states, steps, i - 1);
      assert StepAt(states, steps, i - 1);
      NextKeepsInv(states[i - 1], steps[i - 1]);
    }
  }

  // ----- No update is lost

  /** In every state each call that succeeded has exactly one accepted PUT, and at most five sent. */
  lemma OneAcceptedPut(states: seq<State>, steps: seq<Step>, i: nat, w: string)
    requires Execution(states, steps) && i < |states| && w in states[i].callers
    ensures states[i].callers[w].puts <= UPDATE_REVISION_RETRIES
    ensures forall q: nat, r: nat :: Wrote(states[i], q, w) && Wrote(states[i], r, w) ==> q == r
    ensures states[i].callers[w].phase == Returned(true) ==> WroteOne(states[i], w)
  {
    AlwaysInv(states, steps, i);
    assert CallerOk(states[i], w);
  }

  /** The key of a call that succeeded has its value, unless another call set the same key. */
  lemma NoLostUpdate(states: seq<State>, steps: seq<Step>, i: nat, w: string)
    requires Execution(states, steps) && i < |states|
    requires w in states[i].callers && states[i].callers[w].phase == Returned(true)
    requires forall g <- states[i].callers :: g != w ==> states[i].callers[g].key != states[i].callers[w].key
    ensures Holds(states[i].log[|states[i].log| - 1].cluster, states[i].callers[w].key, states[i].callers[w].value)
  {
    AlwaysInv(states, steps, i);
    var s := states[i];
    assert CallerOk(s, w);
    var r: nat :| Wrote(s, r, w);
    assert EntryOk(s, r);
    var none := s.callers[w];
    var keys := (k: nat) => if k < |s.log| && s.log[k].writer in s.callers then s.callers[s.log[k].writer].key else none.key;
    var values := (k: nat) => if k < |s.log| && s.log[k].writer in s.callers then s.callers[s.log[k].writer].value else none.value;
    forall k | r < k <= |s.log| - 1 ensures keys(k) != none.key && Applies(s.log, k, SetKey(keys(k), values(k))) {
      assert EntryOk(s, k) && s.log[r].writer != s.log[k].writer;
    }
    DistinctKeysSurvive(s.log, r, |s.log| - 1, none.key, none.value, keys, values);
  }

  // ----- What each call does

  /** Every accepted PUT, late or not, sets the key of its call in the revision before it and changes nothing else. */
  lemma EveryWriteSetsOneKey(states: seq<State>, steps: seq<Step>, i: nat, r: nat)
    requires Execution(states, steps) && i < |states| && 0 < r < |states[i].log|
    ensures states[i].log[r].writer in states[i].callers
    ensures var c := states[i].callers[states[i].log[r].writer];
            OnlyValuesChange(states[i].log[r - 1].cluster, states[i].log[r].cluster, m => m[c.key := c.value])
  {
    AlwaysInv(states, steps, i);
    assert EntryOk(states[i], r);
  }

  /** A call that nobody disturbs between its read and its PUT succeeds. */
  lemma UndisturbedCallSucceeds(s: State, w: string)
    requires w in s.callers && s.callers[w].phase.Start?
    ensures Enabled(s, Fetch(w)) && Enabled(Next(s, Fetch(w)), Put(w, Answered))
    ensures var s' := Next(Next(s, Fetch(w)), Put(w, Answered));
            && s'.callers[w].phase == Returned(true) && s'.callers[w].puts == s.callers[w].puts + 1
            && |s'.log| == |s.log| + 1 && s.log <= s'.log && s'.log[|s.log|].writer == w
  {
  }

  /** A PUT that meets a newer revision changes nothing, and the call reads again unless it was the fifth. */
  lemma ConflictIsRetried(s: State, w: string)
    requires w in s.callers && s.callers[w].phase.HasRead? && s.callers[w].phase.revision < |s.log| - 1
    ensures Enabled(s, Put(w, Answered))
    ensures var s' := Next(s, Put(w, Answered));
            && s'.log == s.log && s'.callers[w].puts == s.callers[w].puts + 1
            && s'.callers[w].phase == if s.callers[w].puts + 1 == 5 then Returned(false) else Start
  {
  }

  /** A call that gave up may have written all the same, once its PUT is handled. */
  lemma FailedCallMayHaveWritten(s: State, w: string)
    requires w in s.callers && s.callers[w].phase.Start?
    ensures Enabled(s, Fetch(w)) && Enabled(Next(s, Fetch(w)), GiveUp(w))
    ensures var s2 := Next(Next(s, Fetch(w)), GiveUp(w));
            && Enabled(s2, Land(w)) && s2.log == s.log && s2.callers[w].phase == Returned(false)
            && |Next(s2, Land(w)).log| == |s.log| + 1 && Next(s2, Land(w)).log[|s.log|].writer == w
  {
  }
}
