/** The level-by-level rollout: a level is configured in parallel, then waited for, then the next. */
module ModuleRollout {
  import opened Options
  import opened ModuleGraph
  import opened ModuleLevels

  /** The goroutines of a level run until each has ended well or badly; the barrier comes after. */
  datatype Stage = Configuring | Waiting | Returned(success: bool)

  datatype Rollout = Rollout(level: nat, stage: Stage, written: set<string>, ok: set<string>, failed: set<string>)

  datatype Event =
    | Write(name: string)         // a ModuleConfig or ModulePullOverride is created or updated
    | Configured(name: string)    // both writes of a module succeeded
    | ConfigFailed(name: string)
    | SeenReady(name: string)
    | ReadyFailed(name: string)
    | Barrier                     // every goroutine of the stage has ended

  type Levels = seq<seq<ModuleConfig>>

  function EnabledNames(level: seq<ModuleConfig>): set<string> {
    set m <- level | m.enabled :: m.name
  }

  /** The modules whose goroutines make up the current stage. */
  function Workers(levels: Levels, s: Rollout): set<string>
    requires s.level < |levels|
  {
    if s.stage.Configuring? then Names(levels[s.level]) else EnabledNames(levels[s.level])
  }

  predicate Possible(levels: Levels, s: Rollout, e: Event) {
    && s.level < |levels| && !s.stage.Returned?
    && match e
       case Barrier => Workers(levels, s) <= s.ok + s.failed
       case _ =>
         && e.name in Workers(levels, s) && e.name !in s.ok + s.failed
         && (e.Write? || e.Configured? || e.ConfigFailed? ==> s.stage.Configuring?)
         && (e.SeenReady? || e.ReadyFailed? ==> s.stage.Waiting?)
         && (e.Configured? ==> e.name in s.written)
  }

  function After(levels: Levels, s: Rollout, e: Event): Rollout
    requires Possible(levels, s, e)
  {
    match e
    case Write(n) => s.(written := s.written + {n})
    case Configured(n) => s.(ok := s.ok + {n})
    case SeenReady(n) => s.(ok := s.ok + {n})
    case ConfigFailed(n) => s.(failed := s.failed + {n})
    case ReadyFailed(n) => s.(failed := s.failed + {n})
    case Barrier =>
      if s.failed != {} then s.(stage := Returned(false))
      else if s.stage.Configuring? then s.(stage := Waiting, ok := {})
      else if s.level + 1 == |levels| then Rollout(s.level + 1, Returned(true), s.written, {}, {})
      else Rollout(s.level + 1, Configuring, s.written, {}, {})
  }

  predicate EventAt(levels: Levels, states: seq<Rollout>, events: seq<Event>, i: nat)
    requires |states| == |events| + 1 && i < |events|
  {
    Possible(levels, states[i], events[i]) && states[i + 1] == After(levels, states[i], events[i])
  }

  /** Any interleaving of a level's goroutines is a run. */
  ghost predicate IsRollout(levels: Levels, states: seq<Rollout>, events: seq<Event>) {
    && |states| == |events| + 1
    && states[0] == Rollout(0, if levels == [] then Returned(true) else Configuring, {}, {}, {})
    && forall i :: 0 <= i < |events| ==> EventAt(levels, states, events, i)
  }

  ghost predicate Happened(events: seq<Event>, i: nat, e: Event)
    requires i <= |events|
  {
    exists j :: 0 <= j < i && events[j] == e
  }

  /** Module m was configured and, if enabled, seen Ready. */
  ghost predicate Settled(events: seq<Event>, i: nat, m: ModuleConfig)
    requires i <= |events|
  {
    Happened(events, i, Configured(m.name)) && (m.enabled ==> Happened(events, i, SeenReady(m.name)))
  }

  ghost predicate Progress(levels: Levels, states: seq<Rollout>, events: seq<Event>, i: nat)
    requires |states| == |events| + 1 && i <= |events|
  {
    var s := states[i];
    && s.level <= |levels| && (s.level < |levels| || s.stage == Returned(true))
    && (s.stage == Returned(true) ==> s.level == |levels|)
    && (forall k :: 0 <= k < s.level ==> forall m <- levels[k] :: Settled(events, i, m))
    && (s.stage.Configuring? ==> forall n <- s.ok :: Happened(events, i, Configured(n)))
    && (s.stage.Waiting? ==>
          && (forall m <- levels[s.level] :: Happened(events, i, Configured(m.name)))
          && (forall n <- s.ok :: Happened(events, i, SeenReady(n))))
  }

  lemma StillHappened(events: seq<Event>, i: nat, e: Event)
    requires i < |events| && (Happened(events, i, e) || events[i] == e)
    ensures Happened(events, i + 1, e)
  {
  }

  lemma StillSettled(events: seq<Event>, i: nat, m: ModuleConfig)
    requires i < |events| && Settled(events, i, m)
    ensures Settled(events, i + 1, m)
  {
  }

  lemma ProgressStep(levels: Levels, states: seq<Rollout>, events: seq<Event>, i: nat)
    requires |states| == |events| + 1 && i < |events| && EventAt(levels, states, events, i)
    requires Progress(levels, states, events, i)
    ensures Progress(levels, states, events, i + 1)
  {
    var s, s' := states[i], states[i + 1];
    forall k | 0 <= k < s'.level ensures forall m <- levels[k] :: Settled(events, i + 1, m) {
      forall m <- levels[k] ensures Settled(events, i + 1, m) {
        if k < s.level {
          StillSettled(events, i, m);
        } else {
          assert m.name in Names(levels[k]);
          assert m.enabled ==> m.name in EnabledNames(levels[k]);
          StillSettled(events, i, m);
        }
      }
    }
    if s'.stage.Configuring? {
      forall n <- s'.ok ensures Happened(events, i + 1, Configured(n)) { StillHappened(events, i, Configured(n)); }
    } else if s'.stage.Waiting? {
      forall m <- levels[s'.level] ensures Happened(events, i + 1, Configured(m.name)) {
        assert m.name in Names(levels[s'.level]);
        StillHappened(events, i, Configured(m.name));
      }
      forall n <- s'.ok ensures Happened(events, i + 1, SeenReady(n)) { StillHappened(events, i, SeenReady(n)); }
    }
  }

  lemma {:induction false} AlwaysProgress(levels: Levels, states: seq<Rollout>, events: seq<Event>, i: nat)
    requires IsRollout(levels, states, events) && i <= |events|
    ensures Progress(levels, states, events, i)
  {
    if i > 0 {
      AlwaysProgress(levels, states, events, i - 1);
      assert EventAt(levels, states, events, i - 1);
      ProgressStep(levels, states, events, i - 1);
    }
  }

  /** Everything a module depends on, directly or through others, lies in an earlier level. */
  lemma {:induction false} TransitivelyEarlier(deps: Deps, levels: Levels, p: seq<string>, k: nat)
    requires SoundLevels(deps, levels) && Chain(deps, p, deps.Keys) && |p| > 1 && InLevel(levels, k, p[0])
    ensures Earlier(levels, k, p[|p| - 1])
    decreases |p|
  {
    assert Linked(deps, p, 1) && Earlier(levels, k, p[1]);
    if |p| > 2 {
      var j: nat :| j < k && InLevel(levels, j, p[1]);
      SubChain(deps, p, deps.Keys, 1, |p|);
      TransitivelyEarlier(deps, levels, p[1..|p|], j);
      var l: nat :| l < j && InLevel(levels, l, p[|p| - 1]);
      assert l < k;
    }
  }

  /** When a module is written, all it depends on was configured, and seen Ready where enabled. */
  lemma DependenciesComeFirst(ms: seq<ModuleConfig>, levels: Levels, states: seq<Rollout>, events: seq<Event>,
                              i: nat, p: seq<string>)
    requires SoundLevels(DepsOf(ms), levels) && forall level <- levels :: forall m <- level :: LastNamed(ms, m.name) == Some(m)
    requires IsRollout(levels, states, events) && i < |events|
    requires |p| > 1 && Chain(DepsOf(ms), p, Names(ms)) && events[i] == Write(p[0])
    ensures LastNamed(ms, p[|p| - 1]).Some? && Settled(events, i, LastNamed(ms, p[|p| - 1]).value)
  {
    AlwaysProgress(levels, states, events, i);
    assert EventAt(levels, states, events, i);
    var deps, k, d := DepsOf(ms), states[i].level, p[|p| - 1];
    assert InLevel(levels, k, p[0]);
    assert Chain(deps, p, deps.Keys);
    TransitivelyEarlier(deps, levels, p, k);
    var j: nat :| j < k && InLevel(levels, j, d);
    var m :| m in levels[j] && m.name == d;
    assert levels[j] in levels;
    assert Settled(events, i, m);
  }

  // ----- Errors stop the rollout

  ghost predicate FailedLevel(s: Rollout, k: nat) {
    s.level == k && (s.failed != {} || s.stage == Returned(false))
  }

  lemma {:induction false} FailureStays(levels: Levels, states: seq<Rollout>, events: seq<Event>, i: nat, j: nat, k: nat)
    requires IsRollout(levels, states, events) && i <= j <= |events| && FailedLevel(states[i], k)
    ensures FailedLevel(states[j], k)
    decreases j
  {
    if i < j {
      FailureStays(levels, states, events, i, j - 1, k);
      assert EventAt(levels, states, events, j - 1);
    }
  }

  /** After an error in a level, whatever is still written belongs to that level. */
  lemma NoWriteAfterError(deps: Deps, levels: Levels, states: seq<Rollout>, events: seq<Event>, i: nat, j: nat)
    requires SoundLevels(deps, levels) && IsRollout(levels, states, events) && i < j < |events|
    requires events[i].ConfigFailed? || events[i].ReadyFailed?
    requires events[j].Write?
    ensures forall k: nat :: InLevel(levels, k, events[j].name) ==> k == states[i].level
    ensures InLevel(levels, states[i].level, events[i].name)
  {
    assert EventAt(levels, states, events, i) && EventAt(levels, states, events, j);
    FailureStays(levels, states, events, i + 1, j, states[i].level);
    assert InLevel(levels, states[i].level, events[j].name);
    WorkersAreInLevel(levels, states[i]);
  }

  lemma WorkersAreInLevel(levels: Levels, s: Rollout)
    requires s.level < |levels|
    ensures Workers(levels, s) <= Names(levels[s.level])
  {
  }

  /** A rollout that returns without error has settled every module of the list. */
  lemma SuccessSettlesAll(ms: seq<ModuleConfig>, levels: Levels, states: seq<Rollout>, events: seq<Event>, i: nat, n: string)
    requires SoundLevels(DepsOf(ms), levels) && forall level <- levels :: forall m <- level :: LastNamed(ms, m.name) == Some(m)
    requires IsRollout(levels, states, events) && i <= |events| && states[i].stage == Returned(true)
    requires n in Names(ms)
    ensures LastNamed(ms, n).Some? && Settled(events, i, LastNamed(ms, n).value)
  {
    AlwaysProgress(levels, states, events, i);
    LastNamedIsListed(ms, n);
    assert Earlier(levels, |levels|, n);
    var k: nat :| k < |levels| && InLevel(levels, k, n);
    var m :| m in levels[k] && m.name == n;
    assert levels[k] in levels;
  }

  // ----- When an error is returned

  predicate Fails(e: Event) {
    e.ConfigFailed? || e.ReadyFailed?
  }

  ghost predicate FailedBefore(events: seq<Event>, i: nat)
    requires i <= |events|
  {
    exists k :: 0 <= k < i && Fails(events[k])
  }

  /** An error has a cause, and a cause is never forgotten. */
  lemma {:induction false} FailureIsRemembered(levels: Levels, states: seq<Rollout>, events: seq<Event>, i: nat)
    requires IsRollout(levels, states, events) && i <= |events|
    ensures FailedBefore(events, i) <==> states[i].failed != {} || states[i].stage == Returned(false)
    ensures states[i].stage == Returned(true) ==> states[i].failed == {}
  {
    if i > 0 {
      FailureIsRemembered(levels, states, events, i - 1);
      assert EventAt(levels, states, events, i - 1);
      if FailedBefore(events, i - 1) {
        var k :| 0 <= k < i - 1 && Fails(events[k]);
        assert k < i;
      } else if Fails(events[i - 1]) {
        assert i - 1 < i && events[i - 1].name in states[i].failed;
      }
    }
  }

  /** A rollout that has returned did so with an error exactly when some module failed. */
  lemma ErrorExactlyOnFailure(levels: Levels, states: seq<Rollout>, events: seq<Event>, i: nat)
    requires IsRollout(levels, states, events) && i <= |events| && states[i].stage.Returned?
    ensures states[i].stage == Returned(false) <==> FailedBefore(events, i)
  {
    FailureIsRemembered(levels, states, events, i);
  }

  /** Only modules of the current level that are enabled are waited for. */
  lemma OnlyEnabledAreAwaited(levels: Levels, states: seq<Rollout>, events: seq<Event>, i: nat)
    requires IsRollout(levels, states, events) && i < |events| && (events[i].SeenReady? || events[i].ReadyFailed?)
    ensures states[i].level < |levels|
    ensures exists m <- levels[states[i].level] :: m.name == events[i].name && m.enabled
  {
    assert EventAt(levels, states, events, i);
    assert events[i].name in EnabledNames(levels[states[i].level]);
  }

  lemma {:induction false} WrittenHappened(levels: Levels, states: seq<Rollout>, events: seq<Event>, i: nat, n: string)
    requires IsRollout(levels, states, events) && i <= |events| && n in states[i].written
    ensures Happened(events, i, Write(n))
  {
    if i > 0 {
      assert EventAt(levels, states, events, i - 1);
      if n in states[i - 1].written { WrittenHappened(levels, states, events, i - 1, n); }
      StillHappened(events, i - 1, Write(n));
    }
  }

  /** No module counts as configured that was not written. */
  lemma WrittenBeforeConfigured(levels: Levels, states: seq<Rollout>, events: seq<Event>, i: nat)
    requires IsRollout(levels, states, events) && i < |events| && events[i].Configured?
    ensures Happened(events, i, Write(events[i].name))
  {
    assert EventAt(levels, states, events, i);
    WrittenHappened(levels, states, events, i, events[i].name);
  }

  // ----- A rollout can always be completed

  /** A longer rollout without a further failure. */
  ghost predicate Extends(states: seq<Rollout>, events: seq<Event>, states': seq<Rollout>, events': seq<Event>) {
    && states <= states' && events <= events'
    && forall k :: |events| <= k < |events'| ==> !Fails(events'[k])
  }

  lemma OneEventMore(levels: Levels, states: seq<Rollout>, events: seq<Event>, e: Event)
    returns (states': seq<Rollout>, events': seq<Event>)
    requires IsRollout(levels, states, events) && Possible(levels, states[|events|], e) && !Fails(e)
    ensures IsRollout(levels, states', events') && Extends(states, events, states', events')
    ensures |events'| == |events| + 1 && states'[|events'|] == After(levels, states[|events|], e)
  {
    states', events' := states + [After(levels, states[|events|], e)], events + [e];
    forall i | 0 <= i < |events'| ensures EventAt(levels, states', events', i) {
      if i < |events| { assert EventAt(levels, states, events, i); }
    }
  }

  lemma FinishWorker(levels: Levels, states: seq<Rollout>, events: seq<Event>, n: string)
    returns (states': seq<Rollout>, events': seq<Event>)
    requires IsRollout(levels, states, events)
    requires var s := states[|events|];
             s.level < |levels| && !s.stage.Returned? && n in Workers(levels, s) && n !in s.ok + s.failed
    ensures IsRollout(levels, states', events') && Extends(states, events, states', events')
    ensures var s, s' := states[|events|], states'[|events'|];
            s'.level == s.level && s'.stage == s.stage && s'.failed == s.failed && s'.ok == s.ok + {n}
  {
    if states[|events|].stage.Configuring? {
      var st, ev := OneEventMore(levels, states, events, Write(n));
      states', events' := OneEventMore(levels, st, ev, Configured(n));
    } else {
      states', events' := OneEventMore(levels, states, events, SeenReady(n));
    }
  }

  lemma {:induction false} FinishStage(levels: Levels, states: seq<Rollout>, events: seq<Event>, todo: set<string>)
    returns (states': seq<Rollout>, events': seq<Event>)
    requires IsRollout(levels, states, events)
    requires var s := states[|events|];
             && s.level < |levels| && !s.stage.Returned? && s.failed == {}
             && todo <= Workers(levels, s) && Workers(levels, s) - todo <= s.ok
    ensures IsRollout(levels, states', events') && Extends(states, events, states', events')
    ensures var s, s' := states[|events|], states'[|events'|];
            s'.level == s.level && s'.stage == s.stage && s'.failed == {} && Workers(levels, s') <= s'.ok
    decreases |todo|
  {
    states', events' := states, events;
    if todo != {} {
      var n :| n in todo;
      if n !in states[|events|].ok {
        states', events' := FinishWorker(levels, states, events, n);
      }
      var st, ev := FinishStage(levels, states', events', todo - {n});
      states', events' := st, ev;
    }
  }

  lemma PassBarrier(levels: Levels, states: seq<Rollout>, events: seq<Event>)
    returns (states': seq<Rollout>, events': seq<Event>)
    requires IsRollout(levels, states, events)
    requires var s := states[|events|]; s.level < |levels| && !s.stage.Returned? && s.failed == {}
    ensures IsRollout(levels, states', events') && Extends(states, events, states', events')
    ensures var s, s' := states[|events|], states'[|events'|];
            && s'.failed == {}
            && if s.stage.Configuring? then s'.level == s.level && s'.stage == Waiting
               else s'.level == s.level + 1 && s'.stage == if s'.level == |levels| then Returned(true) else Configuring
  {
    var st, ev := FinishStage(levels, states, events, Workers(levels, states[|events|]));
    states', events' := OneEventMore(levels, st, ev, Barrier);
  }

  /** Whatever happened so far, if nothing failed and nothing fails any more, the rollout gets through. */
  lemma {:induction false} CanSucceed(levels: Levels, states: seq<Rollout>, events: seq<Event>)
    returns (states': seq<Rollout>, events': seq<Event>)
    requires IsRollout(levels, states, events) && !FailedBefore(events, |events|)
    ensures IsRollout(levels, states', events') && Extends(states, events, states', events')
    ensures states'[|events'|].stage == Returned(true)
    decreases |levels| - states[|events|].level, if states[|events|].stage.Configuring? then 1 else 0
  {
    states', events' := states, events;
    FailureIsRemembered(levels, states, events, |events|);
    AlwaysProgress(levels, states, events, |events|);
    if !states[|events|].stage.Returned? {
      var st, ev := PassBarrier(levels, states, events);
      assert !FailedBefore(ev, |ev|);
      AlwaysProgress(levels, st, ev, |ev|);
      states', events' := CanSucceed(levels, st, ev);
    }
  }
}
