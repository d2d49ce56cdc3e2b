/** The module dependency graph and its sort into levels, as the program computes them. */
module ModuleGraph {
  import opened Options

  datatype ModuleConfig = ModuleConfig(name: string, enabled: bool, dependencies: seq<string>)

  datatype Graph = Graph(
    modules: map<string, ModuleConfig>,
    dependencies: map<string, seq<string>>,
    reverseDeps: map<string, seq<string>>)

  datatype BuildResult = Built(graph: Graph) | MissingDependency(dep: string, name: string)

  datatype SortResult = Sorted(levels: seq<seq<ModuleConfig>>) | Circular(remaining: seq<string>)

  // ----- What the input says

  function Names(ms: seq<ModuleConfig>): set<string> {
    set m <- ms :: m.name
  }

  predicate DistinctNames(ms: seq<ModuleConfig>) {
    forall i, j :: 0 <= i < j < |ms| ==> ms[i].name != ms[j].name
  }

  /** Every dependency names a module of the list. */
  predicate Resolved(ms: seq<ModuleConfig>) {
    forall m <- ms :: forall d <- m.dependencies :: d in Names(ms)
  }

  /** The module that a map filled in list order ends up with. */
  function LastNamed(ms: seq<ModuleConfig>, n: string): Option<ModuleConfig> {
    if ms == [] then None
    else if ms[|ms| - 1].name == n then Some(ms[|ms| - 1])
    else LastNamed(ms[..|ms| - 1], n)
  }

  /** One entry of a dependency list. */
  datatype Edge = Edge(dep: string, dependent: string)

  function EdgesOf(m: ModuleConfig, k: nat): seq<Edge>
    requires k <= |m.dependencies|
  {
    if k == 0 then [] else EdgesOf(m, k - 1) + [Edge(m.dependencies[k - 1], m.name)]
  }

  function Edges(ms: seq<ModuleConfig>): seq<Edge> {
    if ms == [] then []
    else Edges(ms[..|ms| - 1]) + EdgesOf(ms[|ms| - 1], |ms[|ms| - 1].dependencies|)
  }

  function Dependents(es: seq<Edge>, d: string): seq<string> {
    if es == [] then []
    else
      var e := es[|es| - 1];
      Dependents(es[..|es| - 1], d) + if e.dep == d then [e.dependent] else []
  }

  function Lookup(m: map<string, seq<string>>, k: string): seq<string> {
    if k in m then m[k] else []
  }

  ghost predicate Represents(reverseDeps: map<string, seq<string>>, es: seq<Edge>) {
    forall d :: Lookup(reverseDeps, d) == Dependents(es, d)
  }

  /** The maps hold the last module of each name; reverse dependencies hold every entry of the list. */
  ghost predicate IsGraphOf(g: Graph, ms: seq<ModuleConfig>) {
    && g.modules.Keys == g.dependencies.Keys == Names(ms)
    && (forall n <- g.modules :: LastNamed(ms, n) == Some(g.modules[n]))
    && (forall n <- g.modules :: g.dependencies[n] == g.modules[n].dependencies)
    && Represents(g.reverseDeps, Edges(ms))
  }

  // ----- Building the graph

  lemma RepresentsOneMore(reverseDeps: map<string, seq<string>>, es: seq<Edge>, e: Edge)
    requires Represents(reverseDeps, es)
    ensures Represents(reverseDeps[e.dep := Lookup(reverseDeps, e.dep) + [e.dependent]], es + [e])
  {
    var out := reverseDeps[e.dep := Lookup(reverseDeps, e.dep) + [e.dependent]];
    assert (es + [e])[..|es|] == es;
    forall d ensures Lookup(out, d) == Dependents(es + [e], d) {
      assert Lookup(reverseDeps, d) == Dependents(es, d);
    }
  }

  lemma OneMoreEdge(es: seq<Edge>, m: ModuleConfig, k: nat)
    requires k < |m.dependencies|
    ensures es + EdgesOf(m, k + 1) == es + EdgesOf(m, k) + [Edge(m.dependencies[k], m.name)]
  {
  }

  method AddReverseDeps(m: ModuleConfig, reverseDeps: map<string, seq<string>>, ghost es: seq<Edge>)
    returns (out: map<string, seq<string>>)
    requires Represents(reverseDeps, es)
    ensures Represents(out, es + EdgesOf(m, |m.dependencies|))
  {
    out := reverseDeps;
    ghost var cur := es;
    for k := 0 to |m.dependencies|
      invariant cur == es + EdgesOf(m, k) && Represents(out, cur)
    {
      var d := m.dependencies[k];
      OneMoreEdge(es, m, k);
      RepresentsOneMore(out, cur, Edge(d, m.name));
      out, cur := out[d := Lookup(out, d) + [m.name]], cur + [Edge(d, m.name)];
    }
  }

  method FillGraph(ms: seq<ModuleConfig>) returns (g: Graph)
    ensures IsGraphOf(g, ms)
  {
    g := Graph(map[], map[], map[]);
    for i := 0 to |ms|
      invariant IsGraphOf(g, ms[..i])
    {
      var m, upTo := ms[i], ms[..i + 1];
      assert upTo[..i] == ms[..i] && upTo[i] == m;
      ExtendNames(upTo, m.name);
      var reverseDeps := AddReverseDeps(m, g.reverseDeps, Edges(ms[..i]));
      g := Graph(g.modules[m.name := m], g.dependencies[m.name := m.dependencies], reverseDeps);
    }
    assert ms[..|ms|] == ms;
  }

  method BuildModuleGraph(ms: seq<ModuleConfig>) returns (r: BuildResult)
    ensures r.Built? <==> Resolved(ms)
    ensures r.Built? ==> IsGraphOf(r.graph, ms)
    ensures r.MissingDependency? ==>
              r.dep !in Names(ms) && exists m <- ms :: m.name == r.name && r.dep in m.dependencies
  {
    var g := FillGraph(ms);
    for i := 0 to |ms|
      invariant forall j :: 0 <= j < i ==> forall d <- ms[j].dependencies :: d in Names(ms)
    {
      for k := 0 to |ms[i].dependencies|
        invariant forall l :: 0 <= l < k ==> ms[i].dependencies[l] in Names(ms)
      {
        if ms[i].dependencies[k] !in g.modules {
          assert ms[i] in ms && ms[i].dependencies[k] in ms[i].dependencies;
          return MissingDependency(ms[i].dependencies[k], ms[i].name);
        }
      }
    }
    r := Built(g);
  }

  // ----- Sorting it

  /** Entries among `es` that make n wait for a module of `done`. */
  function CountEdges(es: seq<Edge>, done: set<string>, n: string): nat {
    if es == [] then 0
    else
      var e := es[|es| - 1];
      CountEdges(es[..|es| - 1], done, n) + if e.dep in done && e.dependent == n then 1 else 0
  }

  /** The modules whose in-degree is zero once `done` is processed. */
  function ZeroDegree(deps: map<string, seq<string>>, es: seq<Edge>, remaining: set<string>): set<string>
    requires remaining <= deps.Keys
  {
    set n <- remaining | |deps[n]| == CountEdges(es, deps.Keys - remaining, n)
  }

  datatype Rounds = Done(levels: seq<set<string>>) | Stuck(remaining: set<string>)

  /** The result of all rounds, given the levels found so far and the result of the rest. */
  function After(sets: seq<set<string>>, rest: Rounds): Rounds {
    match rest
    case Done(levels) => Done(sets + levels)
    case Stuck(remaining) => Stuck(remaining)
  }

  /** The sort as a function: no iteration order, any graph. */
  ghost function SortRounds(deps: map<string, seq<string>>, es: seq<Edge>, remaining: set<string>): Rounds
    requires remaining <= deps.Keys
  {
    if remaining == {} then Done([])
    else
      var level := ZeroDegree(deps, es, remaining);
      if level == {} then Stuck(remaining)
      else
        After([level], SortRounds(deps, es, remaining - level))
  }

  lemma {:induction false} CountEdgesAdds(es: seq<Edge>, done: set<string>, m: string, n: string)
    requires m !in done
    ensures CountEdges(es, done + {m}, n) == CountEdges(es, done, n) + CountEdges(es, {m}, n)
  {
    if es != [] { CountEdgesAdds(es[..|es| - 1], done, m, n); }
  }

  lemma {:induction false} CountEdgesOfOne(es: seq<Edge>, m: string, n: string)
    ensures multiset(Dependents(es, m))[n] == CountEdges(es, {m}, n)
  {
    if es != [] { CountEdgesOfOne(es[..|es| - 1], m, n); }
  }

  lemma {:induction false} CountEdgesOfNone(es: seq<Edge>, n: string)
    ensures CountEdges(es, {}, n) == 0
  {
    if es != [] { CountEdgesOfNone(es[..|es| - 1], n); }
  }

  /** The in-degree map after the modules outside it were processed. */
  ghost predicate Degrees(inDegree: map<string, int>, deps: map<string, seq<string>>, es: seq<Edge>) {
    && inDegree.Keys <= deps.Keys
    && forall n <- inDegree :: inDegree[n] == |deps[n]| - CountEdges(es, deps.Keys - inDegree.Keys, n)
  }

  /** `level` lists the modules named in `names`, each once. */
  ghost predicate Lists(level: seq<ModuleConfig>, g: Graph, names: set<string>) {
    && DistinctNames(level) && Names(level) == names && names <= g.modules.Keys
    && forall m <- level :: m == g.modules[m.name]
  }

  ghost predicate ListsAll(levels: seq<seq<ModuleConfig>>, g: Graph, sets: seq<set<string>>) {
    |levels| == |sets| && forall i :: 0 <= i < |levels| ==> Lists(levels[i], g, sets[i])
  }

  ghost predicate MatchesRounds(r: SortResult, g: Graph, rounds: Rounds) {
    match r
    case Sorted(levels) => rounds.Done? && ListsAll(levels, g, rounds.levels)
    case Circular(remaining) => rounds.Stuck? && (set n <- remaining) == rounds.remaining
  }

  /** A graph whose maps agree on keys and names, with its list of dependency entries. */
  ghost predicate WellFormed(g: Graph, es: seq<Edge>) {
    && g.modules.Keys == g.dependencies.Keys
    && (forall n <- g.modules :: g.modules[n].name == n)
    && Represents(g.reverseDeps, es)
  }

  method InDegrees(g: Graph, ghost es: seq<Edge>) returns (inDegree: map<string, int>)
    requires WellFormed(g, es)
    ensures inDegree.Keys == g.modules.Keys && Degrees(inDegree, g.dependencies, es)
  {
    inDegree := map[];
    var todo := g.modules.Keys;
    while todo != {}
      invariant todo <= g.modules.Keys && inDegree.Keys == g.modules.Keys - todo
      invariant forall n <- inDegree :: inDegree[n] == |g.dependencies[n]|
    {
      var name :| name in todo;
      inDegree := inDegree[name := |g.dependencies[name]|];
      todo := todo - {name};
    }
    forall n <- inDegree ensures CountEdges(es, g.dependencies.Keys - inDegree.Keys, n) == 0 {
      assert g.dependencies.Keys - inDegree.Keys == {};
      CountEdgesOfNone(es, n);
    }
  }

  /** The zero-degree modules among those already visited. */
  function ZeroVisited(inDegree: map<string, int>, todo: set<string>): set<string> {
    set n <- inDegree | n !in todo && inDegree[n] == 0
  }

  lemma ZeroVisitedStep(inDegree: map<string, int>, todo: set<string>, name: string)
    requires name in todo && name in inDegree
    ensures name !in ZeroVisited(inDegree, todo)
    ensures ZeroVisited(inDegree, todo - {name}) ==
            ZeroVisited(inDegree, todo) + if inDegree[name] == 0 then {name} else {}
  {
  }

  lemma ListsOneMore(level: seq<ModuleConfig>, g: Graph, names: set<string>, name: string)
    requires Lists(level, g, names) && name !in names && name in g.modules && g.modules[name].name == name
    ensures Lists(level + [g.modules[name]], g, names + {name})
  {
    var more := level + [g.modules[name]];
    assert more[..|level|] == level;
    ExtendNames(more, name);
    forall m <- level ensures m.name != name { assert m.name in Names(level); }
  }

  /** One pass over the in-degree map, in any order. */
  method CurrentLevel(g: Graph, inDegree: map<string, int>, ghost es: seq<Edge>) returns (level: seq<ModuleConfig>)
    requires WellFormed(g, es) && Degrees(inDegree, g.dependencies, es)
    ensures Lists(level, g, ZeroDegree(g.dependencies, es, inDegree.Keys))
    ensures |level| == 0 <==> ZeroDegree(g.dependencies, es, inDegree.Keys) == {}
  {
    level := [];
    var todo := inDegree.Keys;
    while todo != {}
      invariant todo <= inDegree.Keys && Lists(level, g, ZeroVisited(inDegree, todo))
    {
      var name :| name in todo;
      ZeroVisitedStep(inDegree, todo, name);
      if inDegree[name] == 0 {
        ListsOneMore(level, g, ZeroVisited(inDegree, todo), name);
        level := level + [g.modules[name]];
      }
      todo := todo - {name};
    }
    assert ZeroVisited(inDegree, {}) == ZeroDegree(g.dependencies, es, inDegree.Keys);
    if |level| > 0 { assert level[0].name in Names(level); }
  }

  lemma ExtendNames(level: seq<ModuleConfig>, name: string)
    requires level != [] && level[|level| - 1].name == name
    ensures Names(level) == Names(level[..|level| - 1]) + {name}
  {
    var rest := level[..|level| - 1];
    forall x | x in Names(level) ensures x in Names(rest) + {name} {
      var m :| m in level && m.name == x;
      assert m in rest || m == level[|level| - 1];
    }
    assert level[|level| - 1] in level;
    forall m <- rest ensures m in level {}
  }

  /** Drops a processed module and decrements its dependents, one list entry at a time. */
  method Process(g: Graph, inDegree: map<string, int>, name: string, ghost es: seq<Edge>) returns (out: map<string, int>)
    requires WellFormed(g, es) && Degrees(inDegree, g.dependencies, es) && name in inDegree
    ensures out.Keys == inDegree.Keys - {name} && Degrees(out, g.dependencies, es)
  {
    out := inDegree - {name};
    var dependents := Lookup(g.reverseDeps, name);
    for k := 0 to |dependents|
      invariant out.Keys == inDegree.Keys - {name}
      invariant forall n <- out :: out[n] == inDegree[n] - multiset(dependents[..k])[n]
    {
      var d := dependents[k];
      assert dependents[..k + 1] == dependents[..k] + [d];
      if d in out {
        out := out[d := out[d] - 1];
      }
    }
    assert dependents[..|dependents|] == dependents;
    ghost var done := g.dependencies.Keys - inDegree.Keys;
    assert g.dependencies.Keys - out.Keys == done + {name};
    forall n <- out ensures out[n] == |g.dependencies[n]| - CountEdges(es, done + {name}, n) {
      CountEdgesOfOne(es, name, n);
      CountEdgesAdds(es, done, name, n);
    }
  }

  method RemainingNames(inDegree: map<string, int>) returns (remaining: seq<string>)
    ensures (set n <- remaining) == inDegree.Keys
  {
    remaining := [];
    var todo := inDegree.Keys;
    while todo != {}
      invariant todo <= inDegree.Keys && (set n <- remaining) == inDegree.Keys - todo
    {
      var name :| name in todo;
      todo := todo - {name};
      assert (set n <- remaining + [name]) == (set n <- remaining) + {name};
      remaining := remaining + [name];
    }
  }

  lemma NextName(level: seq<ModuleConfig>, i: nat)
    requires i < |level| && DistinctNames(level)
    ensures level[i].name in Names(level) && level[i].name !in Names(level[..i])
    ensures Names(level[..i + 1]) == Names(level[..i]) + {level[i].name}
  {
    assert level[i] in level;
    assert level[..i + 1][..i] == level[..i];
    ExtendNames(level[..i + 1], level[i].name);
    forall m <- level[..i] ensures m.name != level[i].name {}
  }

  method ProcessLevel(g: Graph, inDegree: map<string, int>, level: seq<ModuleConfig>, ghost es: seq<Edge>)
    returns (out: map<string, int>)
    requires WellFormed(g, es) && Degrees(inDegree, g.dependencies, es)
    requires DistinctNames(level) && Names(level) <= inDegree.Keys
    ensures out.Keys == inDegree.Keys - Names(level) && Degrees(out, g.dependencies, es)
  {
    out := inDegree;
    for i := 0 to |level|
      invariant Degrees(out, g.dependencies, es)
      invariant out.Keys == inDegree.Keys - Names(level[..i])
    {
      NextName(level, i);
      out := Process(g, out, level[i].name, es);
    }
    assert level[..|level|] == level;
  }

  lemma RoundStep(deps: map<string, seq<string>>, es: seq<Edge>, remaining: set<string>, sets: seq<set<string>>)
    requires remaining <= deps.Keys && ZeroDegree(deps, es, remaining) != {}
    ensures var level := ZeroDegree(deps, es, remaining);
            && |remaining - level| < |remaining|
            && After(sets, SortRounds(deps, es, remaining))
               == After(sets + [level], SortRounds(deps, es, remaining - level))
  {
    var level := ZeroDegree(deps, es, remaining);
    AfterOneMore(sets, level, SortRounds(deps, es, remaining - level));
  }

  lemma AfterOneMore(sets: seq<set<string>>, level: set<string>, rest: Rounds)
    ensures After(sets + [level], rest) == After(sets, After([level], rest))
  {
    if rest.Done? { assert sets + ([level] + rest.levels) == sets + [level] + rest.levels; }
  }

  lemma LastRound(deps: map<string, seq<string>>, es: seq<Edge>, remaining: set<string>, sets: seq<set<string>>)
    requires remaining <= deps.Keys
    ensures remaining == {} ==> After(sets, SortRounds(deps, es, remaining)) == Done(sets)
    ensures remaining != {} && ZeroDegree(deps, es, remaining) == {} ==>
              After(sets, SortRounds(deps, es, remaining)) == Stuck(remaining)
  {
    if remaining == {} { assert sets + [] == sets; }
  }

  lemma ListsAllOneMore(
    levels: seq<seq<ModuleConfig>>, g: Graph, sets: seq<set<string>>, level: seq<ModuleConfig>, names: set<string>)
    requires ListsAll(levels, g, sets) && Lists(level, g, names)
    ensures ListsAll(levels + [level], g, sets + [names])
  {
  }

  /** Whatever order the maps are iterated in, the result is the one of SortRounds. */
  method TopologicalSortLevels(g: Graph, ghost es: seq<Edge>) returns (r: SortResult)
    requires WellFormed(g, es)
    ensures MatchesRounds(r, g, SortRounds(g.dependencies, es, g.modules.Keys))
  {
    var inDegree := InDegrees(g, es);
    var levels: seq<seq<ModuleConfig>> := [];
    ghost var sets: seq<set<string>> := [];
    ghost var all := SortRounds(g.dependencies, es, g.modules.Keys);
    while inDegree.Keys != {}
      invariant Degrees(inDegree, g.dependencies, es)
      invariant ListsAll(levels, g, sets)
      invariant all == After(sets, SortRounds(g.dependencies, es, inDegree.Keys))
      decreases |inDegree.Keys|
    {
      var currentLevel := CurrentLevel(g, inDegree, es);
      ghost var level := ZeroDegree(g.dependencies, es, inDegree.Keys);
      if |currentLevel| == 0 {
        LastRound(g.dependencies, es, inDegree.Keys, sets);
        var remaining := RemainingNames(inDegree);
        return Circular(remaining);
      }
      RoundStep(g.dependencies, es, inDegree.Keys, sets);
      ListsAllOneMore(levels, g, sets, currentLevel, level);
      levels, sets := levels + [currentLevel], sets + [level];
      inDegree := ProcessLevel(g, inDegree, currentLevel, es);
    }
    LastRound(g.dependencies, es, {}, sets);
    r := Sorted(levels);
  }
}
