/** What the level sort guarantees: cycles found exactly, levels equal to longest dependency chains. */
module ModuleLevels {
  import opened Options
  import opened ModuleGraph
  import opened ModuleNumbering

  type Deps = map<string, seq<string>>

  /** Each module of the path depends on the next one. */
  predicate Chain(deps: Deps, p: seq<string>, within: set<string>) {
    && |p| > 0
    && (forall i :: 0 <= i < |p| ==> p[i] in deps && p[i] in within)
    && (forall i :: 0 < i < |p| ==> Linked(deps, p, i))
  }

  predicate Linked(deps: Deps, p: seq<string>, i: nat)
    requires 0 < i < |p| && p[i - 1] in deps
  {
    p[i] in deps[p[i - 1]]
  }

  predicate Cycle(deps: Deps, p: seq<string>, within: set<string>) {
    |p| > 1 && Chain(deps, p, within) && p[0] == p[|p| - 1]
  }

  ghost predicate HasCycle(deps: Deps, within: set<string>) {
    exists p :: Cycle(deps, p, within)
  }

  predicate Closed(deps: Deps) {
    forall n <- deps :: forall d <- deps[n] :: d in deps
  }

  /** The dependency lists of a module list, by name. */
  ghost function DepsOf(ms: seq<ModuleConfig>): Deps {
    map n <- Names(ms) | LastNamed(ms, n).Some? :: LastNamed(ms, n).value.dependencies
  }

  // ----- Counting entries

  function CountIn(s: seq<string>, done: set<string>): nat {
    if s == [] then 0
    else CountIn(s[..|s| - 1], done) + if s[|s| - 1] in done then 1 else 0
  }

  lemma {:induction false} CountEdgesConcat(a: seq<Edge>, b: seq<Edge>, done: set<string>, n: string)
    ensures CountEdges(a + b, done, n) == CountEdges(a, done, n) + CountEdges(b, done, n)
  {
    if b == [] {
      assert a + b == a;
    } else {
      assert (a + b)[..|a + b| - 1] == a + b[..|b| - 1];
      CountEdgesConcat(a, b[..|b| - 1], done, n);
    }
  }

  lemma {:induction false} CountEdgesOfModule(m: ModuleConfig, k: nat, done: set<string>, n: string)
    requires k <= |m.dependencies|
    ensures CountEdges(EdgesOf(m, k), done, n) == if m.name == n then CountIn(m.dependencies[..k], done) else 0
  {
    if k > 0 {
      CountEdgesOfModule(m, k - 1, done, n);
      assert m.dependencies[..k][..k - 1] == m.dependencies[..k - 1];
      var e := Edge(m.dependencies[k - 1], m.name);
      assert (EdgesOf(m, k - 1) + [e])[..|EdgesOf(m, k - 1)|] == EdgesOf(m, k - 1);
    }
  }

  lemma {:induction false} AllCounted(s: seq<string>, done: set<string>)
    ensures CountIn(s, done) <= |s|
    ensures CountIn(s, done) == |s| <==> forall d <- s :: d in done
    ensures CountIn(s, done) == 0 <==> forall d <- s :: d !in done
  {
    if s != [] {
      AllCounted(s[..|s| - 1], done);
      assert s == s[..|s| - 1] + [s[|s| - 1]];
    }
  }

  // ----- Repeated names

  /** Some module named n has the entry d. */
  predicate Entry(ms: seq<ModuleConfig>, n: string, d: string) {
    exists m <- ms :: m.name == n && d in m.dependencies
  }

  /** A module named n that a later one replaces has the entry d. */
  predicate Shadowed(ms: seq<ModuleConfig>, n: string, d: string) {
    exists j :: 0 <= j < |ms| && ms[j].name == n && Entry(ms[..j], n, d)
  }

  lemma EntryOneMore(ms: seq<ModuleConfig>, n: string, d: string)
    requires ms != []
    ensures var m := ms[|ms| - 1];
            Entry(ms, n, d) <==> Entry(ms[..|ms| - 1], n, d) || (m.name == n && d in m.dependencies)
  {
    assert ms == ms[..|ms| - 1] + [ms[|ms| - 1]];
  }

  lemma ShadowedOneMore(ms: seq<ModuleConfig>, n: string, d: string)
    requires ms != []
    ensures var front := ms[..|ms| - 1];
            Shadowed(ms, n, d) <==> if ms[|ms| - 1].name == n then Entry(front, n, d) else Shadowed(front, n, d)
  {
    var front := ms[..|ms| - 1];
    if Shadowed(ms, n, d) {
      var j :| 0 <= j < |ms| && ms[j].name == n && Entry(ms[..j], n, d);
      if j < |front| { assert front[..j] == ms[..j] && front[j] == ms[j]; }
      var m :| m in ms[..j] && m.name == n && d in m.dependencies;
      assert m in front;
    }
    if Shadowed(front, n, d) {
      var j :| 0 <= j < |front| && front[j].name == n && Entry(front[..j], n, d);
      assert front[..j] == ms[..j] && front[j] == ms[j];
    }
  }

  lemma {:induction false} CountEdgesOfLast(ms: seq<ModuleConfig>, done: set<string>, n: string)
    requires ms != []
    ensures var front, m := ms[..|ms| - 1], ms[|ms| - 1];
            CountEdges(Edges(ms), done, n) ==
            CountEdges(Edges(front), done, n) + if m.name == n then CountIn(m.dependencies, done) else 0
  {
    var front, m := ms[..|ms| - 1], ms[|ms| - 1];
    CountEdgesConcat(Edges(front), EdgesOf(m, |m.dependencies|), done, n);
    CountEdgesOfModule(m, |m.dependencies|, done, n);
    assert m.dependencies[..|m.dependencies|] == m.dependencies;
  }

  lemma {:induction false} NoEntryCounted(ms: seq<ModuleConfig>, done: set<string>, n: string)
    ensures CountEdges(Edges(ms), done, n) == 0 <==> forall d <- done :: !Entry(ms, n, d)
  {
    if ms != [] {
      var front, m := ms[..|ms| - 1], ms[|ms| - 1];
      NoEntryCounted(front, done, n);
      CountEdgesOfLast(ms, done, n);
      AllCounted(m.dependencies, done);
      forall d <- done
        ensures Entry(ms, n, d) <==> Entry(front, n, d) || (m.name == n && d in m.dependencies)
      {
        EntryOneMore(ms, n, d);
      }
    }
  }

  /** What is recorded for n is its own list and, on top, the entries of the modules it replaced. */
  lemma {:induction false} CountEdgesByName(ms: seq<ModuleConfig>, done: set<string>, n: string)
    requires LastNamed(ms, n).Some?
    ensures CountIn(LastNamed(ms, n).value.dependencies, done) <= CountEdges(Edges(ms), done, n)
    ensures CountIn(LastNamed(ms, n).value.dependencies, done) == CountEdges(Edges(ms), done, n) <==>
            forall d <- done :: !Shadowed(ms, n, d)
  {
    var front, m := ms[..|ms| - 1], ms[|ms| - 1];
    CountEdgesOfLast(ms, done, n);
    forall d <- done
      ensures Shadowed(ms, n, d) <==> if m.name == n then Entry(front, n, d) else Shadowed(front, n, d)
    {
      ShadowedOneMore(ms, n, d);
    }
    if m.name == n { NoEntryCounted(front, done, n); } else { CountEdgesByName(front, done, n); }
  }

  lemma {:induction false} LastNamedIsListed(ms: seq<ModuleConfig>, n: string)
    ensures LastNamed(ms, n).Some? ==> LastNamed(ms, n).value in ms && LastNamed(ms, n).value.name == n
    ensures LastNamed(ms, n).Some? <==> n in Names(ms)
  {
    if ms != [] {
      LastNamedIsListed(ms[..|ms| - 1], n);
      ExtendNames(ms, ms[|ms| - 1].name);
    }
  }

  /** n starts a chain of `len` modules. */
  ghost predicate StartsChain(deps: Deps, n: string, len: nat) {
    exists p :: Chain(deps, p, deps.Keys) && p[0] == n && |p| == len
  }

  /** Entries of replaced modules do no harm: they name modules with chains at least as long as n's. */
  ghost predicate HarmlessRepeats(ms: seq<ModuleConfig>) {
    forall n, d, len: nat :: Shadowed(ms, n, d) && StartsChain(DepsOf(ms), n, len) ==> StartsChain(DepsOf(ms), d, len)
  }

  /** The modules that must remain after k rounds: those with a chain of more than k. */
  ghost function Deep(deps: Deps, k: nat): set<string> {
    set n <- deps | StartsChain(deps, n, k + 1)
  }

  /** When k rounds are done, the entries counted for what remains are those of its own lists. */
  ghost predicate Faithful(deps: Deps, es: seq<Edge>) {
    forall k: nat, n :: n in Deep(deps, k) ==>
      CountEdges(es, deps.Keys - Deep(deps, k), n) == CountIn(deps[n], deps.Keys - Deep(deps, k))
  }

  lemma HarmlessIsFaithful(ms: seq<ModuleConfig>)
    requires HarmlessRepeats(ms)
    ensures Faithful(DepsOf(ms), Edges(ms))
  {
    var deps := DepsOf(ms);
    forall k: nat, n | n in Deep(deps, k)
      ensures CountEdges(Edges(ms), deps.Keys - Deep(deps, k), n) == CountIn(deps[n], deps.Keys - Deep(deps, k))
    {
      CountEdgesByName(ms, deps.Keys - Deep(deps, k), n);
    }
  }

  lemma GraphIsClosed(g: Graph, ms: seq<ModuleConfig>)
    requires IsGraphOf(g, ms) && Resolved(ms)
    ensures g.dependencies == DepsOf(ms) && Closed(g.dependencies) && WellFormed(g, Edges(ms))
  {
    forall n <- g.modules ensures g.modules[n] in ms && g.modules[n].name == n {
      LastNamedIsListed(ms, n);
    }
  }

  /** A module has in-degree zero exactly when none of its dependencies remains. */
  lemma ZeroDegreeMeans(deps: Deps, es: seq<Edge>, k: nat, n: string)
    requires Faithful(deps, es) && Closed(deps) && n in Deep(deps, k)
    ensures n in ZeroDegree(deps, es, Deep(deps, k)) <==> forall d <- deps[n] :: d !in Deep(deps, k)
  {
    var done := deps.Keys - Deep(deps, k);
    AllCounted(deps[n], done);
    assert CountEdges(es, done, n) == CountIn(deps[n], done);
  }

  // ----- Levels

  /** The levels partition `r`, and a dependency inside `r` lies in an earlier level. */
  ghost predicate Levelling(deps: Deps, r: set<string>, levels: seq<set<string>>)
    requires r <= deps.Keys
  {
    && (forall k, n :: 0 <= k < |levels| && n in levels[k] ==> n in r)
    && (forall n <- r :: Before(levels, |levels|, n))
    && (forall j, k, n :: 0 <= j < k < |levels| && n in levels[j] ==> n !in levels[k])
    && (forall k, n, d :: 0 <= k < |levels| && n in levels[k] && d in r && d in deps[n] ==> Before(levels, k, d))
  }

  /** n is in one of the first k levels. */
  ghost predicate Before(levels: seq<set<string>>, k: nat, n: string)
    requires k <= |levels|
  {
    exists j :: 0 <= j < k && n in levels[j]
  }

  /** `first` is what remains in `r` with no dependency in `r`. */
  ghost predicate Ready(deps: Deps, r: set<string>, first: set<string>)
    requires r <= deps.Keys
  {
    first <= r && forall n <- r :: n !in first <==> Waits(deps, r, n)
  }

  ghost predicate Waits(deps: Deps, r: set<string>, n: string)
    requires n in deps
  {
    exists d :: d in deps[n] && d in r
  }

  lemma ZeroDegreeIsReady(deps: Deps, es: seq<Edge>, k: nat)
    requires Faithful(deps, es) && Closed(deps)
    ensures Ready(deps, Deep(deps, k), ZeroDegree(deps, es, Deep(deps, k)))
  {
    forall n <- Deep(deps, k) ensures n !in ZeroDegree(deps, es, Deep(deps, k)) <==> Waits(deps, Deep(deps, k), n) {
      ZeroDegreeMeans(deps, es, k, n);
    }
  }

  lemma LevellingCons(deps: Deps, r: set<string>, first: set<string>, rest: seq<set<string>>)
    requires r <= deps.Keys && Ready(deps, r, first) && Levelling(deps, r - first, rest)
    ensures Levelling(deps, r, [first] + rest)
  {
    var levels := [first] + rest;
    forall k, n | 0 <= k < |levels| && n in levels[k] ensures n in r {
      if k > 0 { assert n in rest[k - 1] && n in r - first; } else { assert n in first; }
    }
    forall j, k, n | 0 <= j < k < |levels| && n in levels[j] ensures n !in levels[k] {
      assert levels[k] == rest[k - 1] && (j > 0 ==> levels[j] == rest[j - 1]);
      assert n in rest[k - 1] ==> n in r - first;
    }
    forall n <- r ensures Before(levels, |levels|, n) {
      if n in first {
        assert n in levels[0];
      } else {
        assert Before(rest, |rest|, n);
        var k :| 0 <= k < |rest| && n in rest[k];
        assert n in levels[k + 1];
      }
    }
    forall k, n, d | 0 <= k < |levels| && n in levels[k] && d in r && d in deps[n] ensures Before(levels, k, d) {
      if k == 0 {
        assert false;
      } else if d in first {
        assert d in levels[0];
      } else {
        assert n in rest[k - 1] && Before(rest, k - 1, d);
        var j :| 0 <= j < k - 1 && d in rest[j];
        assert d in levels[j + 1];
      }
    }
  }

  /** Each level is what is ready once the earlier ones are gone. */
  ghost predicate Stages(deps: Deps, r: set<string>, levels: seq<set<string>>)
    requires r <= deps.Keys
    decreases |levels|
  {
    if levels == [] then r == {} else Ready(deps, r, levels[0]) && Stages(deps, r - levels[0], levels[1..])
  }

  /** Removing what is ready leaves the modules with longer chains. */
  lemma DeepStep(deps: Deps, k: nat, first: set<string>)
    requires Closed(deps) && Ready(deps, Deep(deps, k), first)
    ensures Deep(deps, k + 1) == Deep(deps, k) - first
  {
    forall n <- Deep(deps, k + 1) ensures n in Deep(deps, k) - first {
      var p :| Chain(deps, p, deps.Keys) && p[0] == n && |p| == k + 2;
      SubChain(deps, p, deps.Keys, 0, k + 1);
      SubChain(deps, p, deps.Keys, 1, k + 2);
      assert p[0..k + 1][0] == n && p[1..k + 2][0] == p[1] && Linked(deps, p, 1);
      assert Waits(deps, Deep(deps, k), n);
    }
    forall n <- Deep(deps, k) - first ensures n in Deep(deps, k + 1) {
      assert Waits(deps, Deep(deps, k), n);
      var d :| d in deps[n] && d in Deep(deps, k);
      var q :| Chain(deps, q, deps.Keys) && q[0] == d && |q| == k + 1;
      PrependChain(deps, n, q);
      assert ([n] + q)[0] == n;
    }
  }

  lemma DeepStart(deps: Deps)
    ensures Deep(deps, 0) == deps.Keys
  {
    forall n <- deps ensures StartsChain(deps, n, 1) { assert Chain(deps, [n], deps.Keys) && [n][0] == n; }
  }

  /** One round: the zero-degree modules are those ready, and the deeper ones remain. */
  lemma OneRound(deps: Deps, es: seq<Edge>, k: nat)
    requires Faithful(deps, es) && Closed(deps) && ZeroDegree(deps, es, Deep(deps, k)) != {}
    ensures var first := ZeroDegree(deps, es, Deep(deps, k));
            && Ready(deps, Deep(deps, k), first) && Deep(deps, k + 1) == Deep(deps, k) - first
            && |Deep(deps, k + 1)| < |Deep(deps, k)|
            && SortRounds(deps, es, Deep(deps, k)) == After([first], SortRounds(deps, es, Deep(deps, k + 1)))
  {
    ZeroDegreeIsReady(deps, es, k);
    DeepStep(deps, k, ZeroDegree(deps, es, Deep(deps, k)));
    RoundStep(deps, es, Deep(deps, k), []);
  }

  lemma StagesCons(deps: Deps, r: set<string>, first: set<string>, rest: seq<set<string>>)
    requires r <= deps.Keys && Ready(deps, r, first) && Stages(deps, r - first, rest)
    ensures Stages(deps, r, [first] + rest)
  {
    assert ([first] + rest)[1..] == rest;
  }

  lemma {:induction false} RoundsStage(deps: Deps, es: seq<Edge>, k: nat)
    requires Faithful(deps, es) && Closed(deps) && SortRounds(deps, es, Deep(deps, k)).Done?
    ensures Stages(deps, Deep(deps, k), SortRounds(deps, es, Deep(deps, k)).levels)
    decreases |Deep(deps, k)|
  {
    if Deep(deps, k) != {} {
      OneRound(deps, es, k);
      RoundsStage(deps, es, k + 1);
      StagesCons(deps, Deep(deps, k), ZeroDegree(deps, es, Deep(deps, k)), SortRounds(deps, es, Deep(deps, k + 1)).levels);
    }
  }

  lemma {:induction false} StagesLevel(deps: Deps, r: set<string>, levels: seq<set<string>>)
    requires r <= deps.Keys && Stages(deps, r, levels)
    ensures Levelling(deps, r, levels)
    decreases |levels|
  {
    if levels != [] {
      StagesLevel(deps, r - levels[0], levels[1..]);
      LevellingCons(deps, r, levels[0], levels[1..]);
      assert [levels[0]] + levels[1..] == levels;
    }
  }

  // ----- Chains

  lemma SubChain(deps: Deps, p: seq<string>, r: set<string>, i: nat, j: nat)
    requires Chain(deps, p, r) && i < j <= |p|
    ensures Chain(deps, p[i..j], r)
  {
    forall k | 0 < k < j - i ensures Linked(deps, p[i..j], k) { assert Linked(deps, p, i + k); }
  }

  lemma ExtendChain(deps: Deps, p: seq<string>, r: set<string>, d: string)
    requires Chain(deps, p, r) && d in deps && d in r && d in deps[p[|p| - 1]]
    ensures Chain(deps, p + [d], r)
  {
    forall k | 0 < k < |p| + 1 ensures Linked(deps, p + [d], k) {
      if k < |p| { assert Linked(deps, p, k); }
    }
  }

  lemma PrependChain(deps: Deps, n: string, q: seq<string>)
    requires Chain(deps, q, deps.Keys) && n in deps && q[0] in deps[n]
    ensures Chain(deps, [n] + q, deps.Keys)
  {
    forall i | 0 < i < |q| + 1 ensures Linked(deps, [n] + q, i) {
      if i > 1 { assert Linked(deps, q, i - 1); }
    }
  }

  lemma ReadyEndsChain(deps: Deps, r: set<string>, first: set<string>, p: seq<string>, i: nat)
    requires r <= deps.Keys && Ready(deps, r, first) && Chain(deps, p, r) && i < |p| && p[i] in first
    ensures i == |p| - 1
  {
    assert i + 1 < |p| ==> Linked(deps, p, i + 1);
  }

  /** n starts a chain of `len` modules inside `r`, and no longer one. */
  ghost predicate Longest(deps: Deps, r: set<string>, n: string, len: nat) {
    && (exists p :: Chain(deps, p, r) && p[0] == n && |p| == len)
    && (forall p :: Chain(deps, p, r) && p[0] == n ==> |p| <= len)
  }

  lemma LongestOfReady(deps: Deps, r: set<string>, first: set<string>, n: string)
    requires r <= deps.Keys && Ready(deps, r, first) && n in first
    ensures Longest(deps, r, n, 1)
  {
    assert Chain(deps, [n], r);
    forall p | Chain(deps, p, r) && p[0] == n ensures |p| <= 1 { ReadyEndsChain(deps, r, first, p, 0); }
  }

  lemma LongestGrows(deps: Deps, r: set<string>, first: set<string>, n: string, len: nat)
    requires r <= deps.Keys && Closed(deps) && Ready(deps, r, first) && len > 0
    requires Longest(deps, r - first, n, len)
    ensures Longest(deps, r, n, len + 1)
  {
    var p :| Chain(deps, p, r - first) && p[0] == n && |p| == len;
    assert Chain(deps, p, r);
    assert Waits(deps, r, p[len - 1]);
    var d :| d in deps[p[len - 1]] && d in r;
    ExtendChain(deps, p, r, d);
    assert (p + [d])[0] == n;
    forall q | Chain(deps, q, r) && q[0] == n ensures |q| <= len + 1 {
      if |q| > 1 {
        var front := q[0..|q| - 1];
        SubChain(deps, q, r, 0, |q| - 1);
        forall i | 0 <= i < |front| ensures front[i] in r - first {
          if front[i] in first { ReadyEndsChain(deps, r, first, q, i); }
        }
        assert Chain(deps, front, r - first);
      }
    }
  }

  /** A module's level is one less than the length of its longest chain. */
  lemma {:induction false} LevelIsLongestChain(deps: Deps, r: set<string>, levels: seq<set<string>>, k: nat, n: string)
    requires r <= deps.Keys && Closed(deps) && Stages(deps, r, levels)
    requires k < |levels| && n in levels[k]
    ensures Longest(deps, r, n, k + 1)
    decreases |levels|
  {
    if k == 0 {
      LongestOfReady(deps, r, levels[0], n);
    } else {
      LevelIsLongestChain(deps, r - levels[0], levels[1..], k - 1, n);
      LongestGrows(deps, r, levels[0], n, k);
    }
  }

  // ----- Cycles

  /** Along a chain the level falls at every step. */
  lemma {:induction false} ChainDescends(deps: Deps, r: set<string>, levels: seq<set<string>>, p: seq<string>, a: nat)
    requires r <= deps.Keys && Levelling(deps, r, levels) && Chain(deps, p, r)
    requires a < |levels| && p[0] in levels[a]
    ensures exists b :: 0 <= b <= a - (|p| - 1) && p[|p| - 1] in levels[b]
  {
    if |p| > 1 {
      assert Linked(deps, p, 1) && Before(levels, a, p[1]);
      var j :| 0 <= j < a && p[1] in levels[j];
      SubChain(deps, p, r, 1, |p|);
      assert p[1..] == p[1..|p|];
      ChainDescends(deps, r, levels, p[1..], j);
    }
  }

  lemma DoneMeansAcyclic(deps: Deps, es: seq<Edge>, p: seq<string>)
    requires Faithful(deps, es) && Closed(deps) && SortRounds(deps, es, deps.Keys).Done?
    ensures !Cycle(deps, p, deps.Keys)
  {
    if Cycle(deps, p, deps.Keys) {
      var levels := SortRounds(deps, es, deps.Keys).levels;
      DeepStart(deps);
      RoundsStage(deps, es, 0);
      StagesLevel(deps, deps.Keys, levels);
      assert Before(levels, |levels|, p[0]);
      var a :| 0 <= a < |levels| && p[0] in levels[a];
      ChainDescends(deps, deps.Keys, levels, p, a);
      assert false;
    }
  }

  /** Every module left over waits for one left over. */
  ghost predicate Blocked(deps: Deps, rest: set<string>) {
    rest != {} && forall n <- rest :: n in deps && Waits(deps, rest, n)
  }

  lemma {:induction false} StuckIsBlocked(deps: Deps, es: seq<Edge>, k: nat)
    requires Faithful(deps, es) && Closed(deps) && SortRounds(deps, es, Deep(deps, k)).Stuck?
    ensures SortRounds(deps, es, Deep(deps, k)).remaining <= deps.Keys
    ensures Blocked(deps, SortRounds(deps, es, Deep(deps, k)).remaining)
    decreases |Deep(deps, k)|
  {
    if ZeroDegree(deps, es, Deep(deps, k)) == {} {
      ZeroDegreeIsReady(deps, es, k);
    } else {
      OneRound(deps, es, k);
      StuckIsBlocked(deps, es, k + 1);
    }
  }

  lemma {:induction false} BlockedWalk(deps: Deps, rest: set<string>, len: nat) returns (p: seq<string>)
    requires Blocked(deps, rest) && len > 0
    ensures Chain(deps, p, rest) && |p| == len
  {
    if len == 1 {
      var n :| n in rest;
      p := [n];
    } else {
      var q := BlockedWalk(deps, rest, len - 1);
      assert Waits(deps, rest, q[len - 2]);
      var d :| d in deps[q[len - 2]] && d in rest;
      ExtendChain(deps, q, rest, d);
      p := q + [d];
    }
  }

  lemma {:induction false} Pigeonhole(p: seq<string>, s: set<string>)
    requires |p| > |s| && forall i :: 0 <= i < |p| ==> p[i] in s
    ensures exists i: nat, j: nat :: i < j < |p| && p[i] == p[j]
    decreases |p|
  {
    var last, front := p[|p| - 1], p[..|p| - 1];
    if last in front {
      var i :| 0 <= i < |front| && front[i] == last;
      assert p[i] == p[|p| - 1];
    } else {
      forall i | 0 <= i < |front| ensures front[i] in s - {last} { assert front[i] in front; }
      Pigeonhole(front, s - {last});
      var i: nat, j: nat :| i < j < |front| && front[i] == front[j];
      assert p[i] == p[j];
    }
  }

  /** A round with no zero-degree module exhibits a dependency cycle among the remaining modules. */
  lemma BlockedHasCycle(deps: Deps, rest: set<string>) returns (c: seq<string>)
    requires Blocked(deps, rest)
    ensures Cycle(deps, c, rest)
  {
    var p := BlockedWalk(deps, rest, |rest| + 1);
    Pigeonhole(p, rest);
    var i: nat, j: nat :| i < j < |p| && p[i] == p[j];
    c := CloseChain(deps, p, rest, i, j);
  }

  lemma CloseChain(deps: Deps, p: seq<string>, rest: set<string>, i: nat, j: nat) returns (c: seq<string>)
    requires Chain(deps, p, rest) && i < j < |p| && p[i] == p[j]
    ensures Cycle(deps, c, rest)
  {
    c := p[i..j + 1];
    SubChain(deps, p, rest, i, j + 1);
    assert c[0] == p[i] && c[|c| - 1] == p[j];
  }

  // ----- The sort of a module list

  /** Module n is in level k of the result. */
  predicate InLevel(levels: seq<seq<ModuleConfig>>, k: nat, n: string) {
    k < |levels| && n in Names(levels[k])
  }

  datatype SortOutcome = Ok(levels: seq<seq<ModuleConfig>>) | Missing(dep: string) | Loop(remaining: seq<string>)

  /** What a caller is promised about the levels of a module list. */
  ghost predicate SoundLevels(deps: Deps, levels: seq<seq<ModuleConfig>>) {
    && (forall level <- levels :: DistinctNames(level))
    && (forall n <- deps :: Earlier(levels, |levels|, n))
    && (forall k: nat, n :: InLevel(levels, k, n) ==> n in deps)
    && (forall j: nat, k: nat, n :: InLevel(levels, j, n) && InLevel(levels, k, n) ==> j == k)
    && (forall k: nat, n, d :: InLevel(levels, k, n) && n in deps && d in deps[n] ==> Earlier(levels, k, d))
    && (forall k: nat, n :: InLevel(levels, k, n) ==> Longest(deps, deps.Keys, n, k + 1))
  }

  /** Module n is in one of the first k levels of the result. */
  ghost predicate Earlier(levels: seq<seq<ModuleConfig>>, k: nat, n: string) {
    exists j: nat :: j < k && InLevel(levels, j, n)
  }

  lemma InLevelMeans(g: Graph, levels: seq<seq<ModuleConfig>>, sets: seq<set<string>>, k: nat, n: string)
    requires ListsAll(levels, g, sets)
    ensures InLevel(levels, k, n) <==> k < |sets| && n in sets[k]
  {
    if k < |levels| { assert Lists(levels[k], g, sets[k]); }
  }

  lemma EarlierMeans(g: Graph, levels: seq<seq<ModuleConfig>>, sets: seq<set<string>>, k: nat, n: string)
    requires ListsAll(levels, g, sets) && k <= |sets| && Before(sets, k, n)
    ensures Earlier(levels, k, n)
  {
    var j :| 0 <= j < k && n in sets[j];
    InLevelMeans(g, levels, sets, j, n);
  }

  lemma SortedIsSound(g: Graph, es: seq<Edge>, levels: seq<seq<ModuleConfig>>)
    requires WellFormed(g, es) && Faithful(g.dependencies, es) && Closed(g.dependencies)
    requires MatchesRounds(Sorted(levels), g, SortRounds(g.dependencies, es, g.modules.Keys))
    ensures SoundLevels(g.dependencies, levels)
  {
    var deps := g.dependencies;
    var sets := SortRounds(deps, es, deps.Keys).levels;
    DeepStart(deps);
    RoundsStage(deps, es, 0);
    StagesLevel(deps, deps.Keys, sets);
    forall level <- levels ensures DistinctNames(level) {
      var k :| 0 <= k < |levels| && levels[k] == level;
      assert Lists(levels[k], g, sets[k]);
    }
    forall n <- deps ensures Earlier(levels, |levels|, n) {
      EarlierMeans(g, levels, sets, |sets|, n);
    }
    forall k: nat, n | InLevel(levels, k, n)
      ensures n in deps && Longest(deps, deps.Keys, n, k + 1)
      ensures forall d <- deps[n] :: Earlier(levels, k, d)
    {
      InLevelMeans(g, levels, sets, k, n);
      LevelIsLongestChain(deps, deps.Keys, sets, k, n);
      forall d <- deps[n] ensures Earlier(levels, k, d) { EarlierMeans(g, levels, sets, k, d); }
    }
    forall j: nat, k: nat, n | InLevel(levels, j, n) && InLevel(levels, k, n) ensures j == k {
      InLevelMeans(g, levels, sets, j, n);
      InLevelMeans(g, levels, sets, k, n);
    }
  }

  lemma SortedIsAcyclic(ms: seq<ModuleConfig>)
    requires HarmlessRepeats(ms) && Closed(DepsOf(ms)) && SortRounds(DepsOf(ms), Edges(ms), DepsOf(ms).Keys).Done?
    ensures !HasCycle(DepsOf(ms), DepsOf(ms).Keys)
  {
    HarmlessIsFaithful(ms);
    forall p ensures !Cycle(DepsOf(ms), p, DepsOf(ms).Keys) { DoneMeansAcyclic(DepsOf(ms), Edges(ms), p); }
  }

  lemma CircularHasCycle(ms: seq<ModuleConfig>, remaining: set<string>)
    requires HarmlessRepeats(ms) && Closed(DepsOf(ms))
    requires SortRounds(DepsOf(ms), Edges(ms), DepsOf(ms).Keys) == Stuck(remaining)
    ensures HasCycle(DepsOf(ms), remaining) && HasCycle(DepsOf(ms), DepsOf(ms).Keys)
  {
    var deps := DepsOf(ms);
    HarmlessIsFaithful(ms);
    DeepStart(deps);
    StuckIsBlocked(deps, Edges(ms), 0);
    var c := BlockedHasCycle(deps, remaining);
    assert Cycle(deps, c, deps.Keys);
  }

  /** A module gets its level when its in-degree is zero, with exactly the earlier levels counted. */
  lemma {:induction false} LevelIsZeroDegree(
    deps: Deps, es: seq<Edge>, r: set<string>, sets: seq<set<string>>, k: nat, n: string) returns (done: set<string>)
    requires r <= deps.Keys && SortRounds(deps, es, r) == Done(sets) && k < |sets| && n in sets[k]
    ensures n in deps && |deps[n]| == CountEdges(es, done, n)
    ensures forall x <- deps :: x in done <==> x !in r || Before(sets, k, x)
    decreases k
  {
    if k == 0 {
      done := deps.Keys - r;
    } else {
      var first := ZeroDegree(deps, es, r);
      done := LevelIsZeroDegree(deps, es, r - first, sets[1..], k - 1, n);
      assert sets[0] == first;
      forall x <- deps ensures x in done <==> x !in r || Before(sets, k, x) {
        if Before(sets, k, x) {
          var j :| 0 <= j < k && x in sets[j];
          if j > 0 { assert x in sets[1..][j - 1]; }
        }
        if Before(sets[1..], k - 1, x) {
          var j :| 0 <= j < k - 1 && x in sets[1..][j];
          assert x in sets[j + 1];
        }
      }
    }
  }

  /** Every module ends up in some level, whatever was recorded. */
  lemma {:induction false} RoundsCover(deps: Deps, es: seq<Edge>, r: set<string>, n: string)
    requires r <= deps.Keys && n in r && SortRounds(deps, es, r).Done?
    ensures Before(SortRounds(deps, es, r).levels, |SortRounds(deps, es, r).levels|, n)
    decreases |r|
  {
    var first := ZeroDegree(deps, es, r);
    var sets := SortRounds(deps, es, r).levels;
    RoundStep(deps, es, r, []);
    var rest := SortRounds(deps, es, r - first).levels;
    assert sets == [first] + rest;
    if n in first {
      assert n in sets[0];
    } else {
      RoundsCover(deps, es, r - first, n);
      var j :| 0 <= j < |rest| && n in rest[j];
      assert n in sets[j + 1];
    }
  }

  /** A module that is not after its dependency d got its level by the entry of a module it replaced. */
  lemma UnorderedIsShadowed(ms: seq<ModuleConfig>, sets: seq<set<string>>, k: nat, n: string, d: string)
    requires SortRounds(DepsOf(ms), Edges(ms), DepsOf(ms).Keys) == Done(sets) && k < |sets| && n in sets[k]
    requires n in DepsOf(ms) && d in DepsOf(ms)[n] && d in DepsOf(ms) && !Before(sets, k, d)
    ensures exists x :: Shadowed(ms, n, x)
  {
    var done := LevelIsZeroDegree(DepsOf(ms), Edges(ms), DepsOf(ms).Keys, sets, k, n);
    AllCounted(DepsOf(ms)[n], done);
    CountEdgesByName(ms, done, n);
  }

  /** If every module of the chain was sorted after the next one, the last is in an earlier level. */
  lemma {:induction false} UnshadowedDescends(ms: seq<ModuleConfig>, sets: seq<set<string>>, p: seq<string>, a: nat)
    requires SortRounds(DepsOf(ms), Edges(ms), DepsOf(ms).Keys) == Done(sets) && a < |sets| && p != [] && p[0] in sets[a]
    requires Chain(DepsOf(ms), p, DepsOf(ms).Keys) && forall i, x :: 0 <= i < |p| ==> !Shadowed(ms, p[i], x)
    ensures exists b :: 0 <= b <= a - (|p| - 1) && p[|p| - 1] in sets[b]
    decreases |p|
  {
    if |p| > 1 {
      assert Linked(DepsOf(ms), p, 1);
      if !Before(sets, a, p[1]) { UnorderedIsShadowed(ms, sets, a, p[0], p[1]); }
      var j :| 0 <= j < a && p[1] in sets[j];
      SubChain(DepsOf(ms), p, DepsOf(ms).Keys, 1, |p|);
      assert p[1..] == p[1..|p|];
      UnshadowedDescends(ms, sets, p[1..], j);
    }
  }

  /** Modules are in one level only. */
  lemma {:induction false} RoundsDisjoint(deps: Deps, es: seq<Edge>, r: set<string>, j: nat, k: nat, n: string)
    requires r <= deps.Keys && SortRounds(deps, es, r).Done?
    requires j <= k < |SortRounds(deps, es, r).levels|
    requires n in SortRounds(deps, es, r).levels[j] && n in SortRounds(deps, es, r).levels[k]
    ensures n in r && j == k
    decreases |r|
  {
    var first := ZeroDegree(deps, es, r);
    RoundStep(deps, es, r, []);
    var rest := SortRounds(deps, es, r - first).levels;
    assert SortRounds(deps, es, r).levels == [first] + rest;
    if k > 0 { RoundsDisjoint(deps, es, r - first, if j > 0 then j - 1 else k - 1, k - 1, n); }
  }

  /** A cycle goes unseen only if a module on it replaced one with dependencies. */
  lemma HiddenCycleIsShadowed(ms: seq<ModuleConfig>, p: seq<string>)
    requires SortRounds(DepsOf(ms), Edges(ms), DepsOf(ms).Keys).Done? && Cycle(DepsOf(ms), p, DepsOf(ms).Keys)
    ensures exists i, x :: 0 <= i < |p| && Shadowed(ms, p[i], x)
  {
    var deps, es := DepsOf(ms), Edges(ms);
    var sets := SortRounds(deps, es, deps.Keys).levels;
    if forall i, x :: 0 <= i < |p| ==> !Shadowed(ms, p[i], x) {
      RoundsCover(deps, es, deps.Keys, p[0]);
      var a :| 0 <= a < |sets| && p[0] in sets[a];
      UnshadowedDescends(ms, sets, p, a);
      var b :| 0 <= b <= a - (|p| - 1) && p[|p| - 1] in sets[b];
      RoundsDisjoint(deps, es, deps.Keys, b, a, p[0]);
      assert false;
    }
  }

  /** Levels in the right order leave no shadowed entry in a level before its module. */
  lemma SoundMeansLaterShadows(g: Graph, ms: seq<ModuleConfig>, levels: seq<seq<ModuleConfig>>,
                               k: nat, n: string, j: nat, d: string)
    requires IsGraphOf(g, ms) && Resolved(ms) && SoundLevels(DepsOf(ms), levels)
    requires MatchesRounds(Sorted(levels), g, SortRounds(g.dependencies, Edges(ms), g.modules.Keys))
    requires Shadowed(ms, n, d) && InLevel(levels, k, n) && InLevel(levels, j, d)
    ensures k <= j
  {
    GraphIsClosed(g, ms);
    var deps := g.dependencies;
    var sets := SortRounds(deps, Edges(ms), deps.Keys).levels;
    InLevelMeans(g, levels, sets, k, n);
    InLevelMeans(g, levels, sets, j, d);
    if j < k {
      var done := LevelIsZeroDegree(deps, Edges(ms), deps.Keys, sets, k, n);
      assert Before(sets, k, d);
      forall x <- deps[n] ensures x in done {
        assert Earlier(levels, k, x);
        var i: nat :| i < k && InLevel(levels, i, x);
        InLevelMeans(g, levels, sets, i, x);
        assert Before(sets, k, x);
      }
      AllCounted(deps[n], done);
      CountEdgesByName(ms, done, n);
      assert false;
    }
  }

  lemma ChainOfLongest(deps: Deps, n: string, longest: nat, len: nat)
    requires Longest(deps, deps.Keys, n, longest)
    ensures StartsChain(deps, n, len) <==> 0 < len <= longest
  {
    if 0 < len <= longest {
      var p :| Chain(deps, p, deps.Keys) && p[0] == n && |p| == longest;
      SubChain(deps, p, deps.Keys, 0, len);
      assert p[0..len][0] == n;
    }
  }

  lemma LevelOf(deps: Deps, levels: seq<seq<ModuleConfig>>, n: string) returns (k: nat)
    requires SoundLevels(deps, levels) && n in deps
    ensures InLevel(levels, k, n) && Longest(deps, deps.Keys, n, k + 1)
  {
    assert Earlier(levels, |levels|, n);
    k :| k < |levels| && InLevel(levels, k, n);
  }

  lemma ShadowHasChain(g: Graph, ms: seq<ModuleConfig>, levels: seq<seq<ModuleConfig>>, n: string, d: string, len: nat)
    requires IsGraphOf(g, ms) && Resolved(ms) && SoundLevels(DepsOf(ms), levels)
    requires MatchesRounds(Sorted(levels), g, SortRounds(g.dependencies, Edges(ms), g.modules.Keys))
    requires Shadowed(ms, n, d) && StartsChain(DepsOf(ms), n, len)
    ensures StartsChain(DepsOf(ms), d, len)
  {
    ShadowedIsListed(ms, n, d);
    var k := LevelOf(DepsOf(ms), levels, n);
    var j := LevelOf(DepsOf(ms), levels, d);
    SoundMeansLaterShadows(g, ms, levels, k, n, j, d);
    ChainOfLongest(DepsOf(ms), n, k + 1, len);
    ChainOfLongest(DepsOf(ms), d, j + 1, len);
  }

  /** If the levels are right, the repeated names were harmless. */
  lemma SoundMeansHarmless(g: Graph, ms: seq<ModuleConfig>, levels: seq<seq<ModuleConfig>>)
    requires IsGraphOf(g, ms) && Resolved(ms) && SoundLevels(DepsOf(ms), levels)
    requires MatchesRounds(Sorted(levels), g, SortRounds(g.dependencies, Edges(ms), g.modules.Keys))
    ensures HarmlessRepeats(ms)
  {
    GraphIsClosed(g, ms);
    forall n, d, len: nat | Shadowed(ms, n, d) && StartsChain(DepsOf(ms), n, len) ensures StartsChain(DepsOf(ms), d, len) {
      ShadowHasChain(g, ms, levels, n, d, len);
    }
  }

  lemma ShadowedIsListed(ms: seq<ModuleConfig>, n: string, d: string)
    requires Resolved(ms) && Shadowed(ms, n, d)
    ensures n in DepsOf(ms) && d in DepsOf(ms)
  {
    var j :| 0 <= j < |ms| && ms[j].name == n && Entry(ms[..j], n, d);
    var m :| m in ms[..j] && m.name == n && d in m.dependencies;
    assert m in ms;
    LastNamedIsListed(ms, n);
    LastNamedIsListed(ms, d);
  }

  lemma LevelsHoldLast(g: Graph, ms: seq<ModuleConfig>, levels: seq<seq<ModuleConfig>>, sets: seq<set<string>>)
    requires IsGraphOf(g, ms) && ListsAll(levels, g, sets)
    ensures forall level <- levels :: forall m <- level :: LastNamed(ms, m.name) == Some(m)
  {
    forall level <- levels, m <- level ensures LastNamed(ms, m.name) == Some(m) {
      var k :| 0 <= k < |levels| && levels[k] == level;
      assert Lists(levels[k], g, sets[k]) && m.name in Names(level);
    }
  }

  /** Graph and sort together: missing dependency, cycle, or levels by longest chain. */
  method SortModules(ms: seq<ModuleConfig>) returns (r: SortOutcome)
    ensures r.Missing? <==> !Resolved(ms)
    ensures HarmlessRepeats(ms) ==> (r.Loop? <==> Resolved(ms) && HasCycle(DepsOf(ms), Names(ms)))
    ensures HarmlessRepeats(ms) && r.Loop? ==> HasCycle(DepsOf(ms), set n <- r.remaining)
    ensures r.Ok? ==> (SoundLevels(DepsOf(ms), r.levels) <==> HarmlessRepeats(ms))
    ensures Resolved(ms) && !HasCycle(DepsOf(ms), Names(ms)) ==>
              (r.Ok? && SoundLevels(DepsOf(ms), r.levels) <==> HarmlessRepeats(ms))
    ensures r.Ok? <==> Resolved(ms) && Numbered(DepsOf(ms), Edges(ms))
    ensures r.Ok? ==> forall p :: Cycle(DepsOf(ms), p, Names(ms)) ==> exists i, d :: 0 <= i < |p| && Shadowed(ms, p[i], d)
    ensures r.Ok? ==> forall level <- r.levels :: forall m <- level :: LastNamed(ms, m.name) == Some(m)
  {
    var b := BuildModuleGraph(ms);
    if b.MissingDependency? {
      return Missing(b.dep);
    }
    var g := b.graph;
    GraphIsClosed(g, ms);
    FinishesExactly(DepsOf(ms), Edges(ms));
    var s := TopologicalSortLevels(g, Edges(ms));
    match s
    case Sorted(levels) =>
      forall p | Cycle(DepsOf(ms), p, Names(ms)) ensures exists i, d :: 0 <= i < |p| && Shadowed(ms, p[i], d) {
        HiddenCycleIsShadowed(ms, p);
      }
      LevelsHoldLast(g, ms, levels, SortRounds(g.dependencies, Edges(ms), g.modules.Keys).levels);
      if HarmlessRepeats(ms) {
        HarmlessIsFaithful(ms);
        SortedIsSound(g, Edges(ms), levels);
        SortedIsAcyclic(ms);
      }
      if SoundLevels(DepsOf(ms), levels) { SoundMeansHarmless(g, ms, levels); }
      r := Ok(levels);
    case Circular(remaining) =>
      if HarmlessRepeats(ms) { CircularHasCycle(ms, set n <- remaining); }
      r := Loop(remaining);
  }

  /** Distinct names are harmless; so is a replaced module without dependencies. */
  lemma UnshadowedIsHarmless(ms: seq<ModuleConfig>)
    requires forall i, j :: 0 <= i < j < |ms| && ms[i].name == ms[j].name ==> ms[i].dependencies == []
    ensures HarmlessRepeats(ms)
  {
  }
}
