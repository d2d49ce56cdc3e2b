/** Module lists that repeat a name, and what the level sort makes of them. */
module ModuleRepeats {
  import opened Options
  import opened ModuleGraph
  import opened ModuleLevels

  const B: ModuleConfig := ModuleConfig("b", true, [])
  const C: ModuleConfig := ModuleConfig("c", true, ["b"])
  const A1: ModuleConfig := ModuleConfig("a", true, ["b"])
  const A2: ModuleConfig := ModuleConfig("a", true, ["b", "c"])
  const REPEATED: seq<ModuleConfig> := [B, C, A1, A2]
  const RECORDED: seq<Edge> := [Edge("b", "c"), Edge("b", "a"), Edge("b", "a"), Edge("c", "a")]

  lemma RepeatedEdges()
    ensures Edges(REPEATED) == RECORDED
  {
    assert EdgesOf(C, 1) == EdgesOf(C, 0) + [Edge("b", "c")];
    assert EdgesOf(A1, 1) == EdgesOf(A1, 0) + [Edge("b", "a")];
    assert EdgesOf(A2, 2) == EdgesOf(A2, 1) + [Edge("c", "a")];
    assert EdgesOf(A2, 1) == EdgesOf(A2, 0) + [Edge("b", "a")];
    assert REPEATED[..3] == [B, C, A1] && [B, C, A1][..2] == [B, C] && [B, C][..1] == [B] && [B][..0] == [];
    assert Edges([B]) == Edges([]) + EdgesOf(B, 0);
    assert Edges([B, C]) == Edges([B]) + EdgesOf(C, 1);
    assert Edges([B, C, A1]) == Edges([B, C]) + EdgesOf(A1, 1);
  }

  lemma RepeatedCount(done: set<string>, n: string)
    ensures CountEdges(RECORDED, done, n) ==
            (if "b" in done && n == "c" then 1 else 0) + (if "b" in done && n == "a" then 2 else 0) +
            (if "c" in done && n == "a" then 1 else 0)
  {
    var r3, r2, r1 := RECORDED[..3], RECORDED[..2], RECORDED[..1];
    assert r3[..2] == r2 && r2[..1] == r1 && r1[..0] == [];
    assert CountEdges(r1, done, n) == if "b" in done && n == "c" then 1 else 0;
    assert CountEdges(r2, done, n) == CountEdges(r1, done, n) + if "b" in done && n == "a" then 1 else 0;
    assert CountEdges(r3, done, n) == CountEdges(r2, done, n) + if "b" in done && n == "a" then 1 else 0;
  }

  const REPEATED_DEPS: Deps := map["a" := ["b", "c"], "b" := [], "c" := ["b"]]

  lemma RepeatedNames()
    ensures Names(REPEATED) == {"a", "b", "c"}
  {
    assert B in REPEATED && C in REPEATED && A2 in REPEATED;
  }

  lemma RepeatedDeps()
    ensures Names(REPEATED) == {"a", "b", "c"} && DepsOf(REPEATED) == REPEATED_DEPS
  {
    RepeatedNames();
    assert REPEATED[..3] == [B, C, A1] && [B, C, A1][..2] == [B, C] && [B, C][..1] == [B];
    assert LastNamed(REPEATED, "a") == Some(A2);
    assert LastNamed(REPEATED, "c") == LastNamed([B, C, A1], "c") == LastNamed([B, C], "c") == Some(C);
    assert LastNamed(REPEATED, "b") == LastNamed([B, C, A1], "b") == LastNamed([B, C], "b") == LastNamed([B], "b") == Some(B);
  }

  lemma RepeatedRounds()
    ensures SortRounds(REPEATED_DEPS, RECORDED, {"a", "b", "c"}) == Done([{"b"}, {"a", "c"}])
  {
    var all: set<string>, deps := {"a", "b", "c"}, REPEATED_DEPS;
    assert deps.Keys - all == {} && deps.Keys - {"a", "c"} == {"b"};
    RepeatedCount({}, "a"); RepeatedCount({}, "b"); RepeatedCount({}, "c");
    RepeatedCount({"b"}, "a"); RepeatedCount({"b"}, "c");
    assert ZeroDegree(deps, RECORDED, all) == {"b"};
    assert ZeroDegree(deps, RECORDED, {"a", "c"}) == {"a", "c"};
    assert all - {"b"} == {"a", "c"} && {"a", "c"} - {"a", "c"} == {};
    assert SortRounds(deps, RECORDED, {"a", "c"}) == Done([{"a", "c"}] + []);
  }

  /** With shadowed dependencies the sort puts a module beside one it depends on. */
  lemma ShadowedDependenciesBreakOrder()
    ensures Resolved(REPEATED) && Names(REPEATED) == {"a", "b", "c"}
    ensures DepsOf(REPEATED) == REPEATED_DEPS && "c" in REPEATED_DEPS["a"]
    ensures SortRounds(REPEATED_DEPS, Edges(REPEATED), {"a", "b", "c"}) == Done([{"b"}, {"a", "c"}])
  {
    RepeatedDeps();
    RepeatedEdges();
    RepeatedRounds();
  }

  const LOOP: ModuleConfig := ModuleConfig("a", true, ["a"])
  const HIDDEN: seq<ModuleConfig> := [B, A1, LOOP]
  const HIDDEN_DEPS: Deps := map["a" := ["a"], "b" := []]
  const HIDDEN_EDGES: seq<Edge> := [Edge("b", "a"), Edge("a", "a")]

  lemma HiddenDeps()
    ensures Names(HIDDEN) == {"a", "b"} && DepsOf(HIDDEN) == HIDDEN_DEPS
  {
    assert HIDDEN[..2] == [B, A1] && [B, A1][..1] == [B];
    assert B in HIDDEN && LOOP in HIDDEN;
    assert Names(HIDDEN) == {"a", "b"};
    assert LastNamed(HIDDEN, "b") == LastNamed([B, A1], "b") == LastNamed([B], "b") == Some(B);
  }

  lemma HiddenEdges()
    ensures Edges(HIDDEN) == HIDDEN_EDGES
  {
    assert HIDDEN[..2] == [B, A1] && [B, A1][..1] == [B] && [B][..0] == [];
    assert EdgesOf(A1, 1) == EdgesOf(A1, 0) + [Edge("b", "a")];
    assert EdgesOf(LOOP, 1) == EdgesOf(LOOP, 0) + [Edge("a", "a")];
    assert Edges([B]) == Edges([]) + EdgesOf(B, 0);
    assert Edges([B, A1]) == Edges([B]) + EdgesOf(A1, 1);
  }

  lemma HiddenCount(done: set<string>, n: string)
    ensures CountEdges(HIDDEN_EDGES, done, n) ==
            (if "b" in done && n == "a" then 1 else 0) + (if "a" in done && n == "a" then 1 else 0)
  {
    var r1 := HIDDEN_EDGES[..1];
    assert r1[..0] == [];
    assert CountEdges(r1, done, n) == if "b" in done && n == "a" then 1 else 0;
  }

  /** A shadowed entry can stand in for a dependency of a module on itself, so that the cycle goes unseen. */
  lemma ShadowedDependenciesHideACycle()
    ensures Resolved(HIDDEN) && Names(HIDDEN) == {"a", "b"}
    ensures DepsOf(HIDDEN) == HIDDEN_DEPS && Cycle(HIDDEN_DEPS, ["a", "a"], {"a", "b"})
    ensures SortRounds(HIDDEN_DEPS, Edges(HIDDEN), {"a", "b"}) == Done([{"b"}, {"a"}])
  {
    HiddenDeps();
    HiddenEdges();
    var all: set<string>, deps := {"a", "b"}, HIDDEN_DEPS;
    assert deps.Keys - all == {} && deps.Keys - {"a"} == {"b"};
    HiddenCount({}, "a"); HiddenCount({}, "b"); HiddenCount({"b"}, "a");
    assert ZeroDegree(deps, HIDDEN_EDGES, all) == {"b"};
    assert ZeroDegree(deps, HIDDEN_EDGES, {"a"}) == {"a"};
    assert all - {"b"} == {"a"};
    assert SortRounds(deps, HIDDEN_EDGES, {"a"}) == Done([{"a"}] + []);
    assert Linked(HIDDEN_DEPS, ["a", "a"], 1);
  }

  // The same entries are recorded when the replaced module listed b twice
  const TWICE: ModuleConfig := ModuleConfig("a", true, ["b", "b"])
  const LAST: ModuleConfig := ModuleConfig("a", true, ["c"])
  const ALARM: seq<ModuleConfig> := [B, C, TWICE, LAST]
  const ALARM_DEPS: Deps := map["a" := ["c"], "b" := [], "c" := ["b"]]

  lemma AlarmEdges()
    ensures Edges(ALARM) == RECORDED
  {
    assert EdgesOf(C, 1) == EdgesOf(C, 0) + [Edge("b", "c")];
    assert EdgesOf(TWICE, 2) == EdgesOf(TWICE, 1) + [Edge("b", "a")];
    assert EdgesOf(TWICE, 1) == EdgesOf(TWICE, 0) + [Edge("b", "a")];
    assert EdgesOf(LAST, 1) == EdgesOf(LAST, 0) + [Edge("c", "a")];
    assert ALARM[..3] == [B, C, TWICE] && [B, C, TWICE][..2] == [B, C] && [B, C][..1] == [B] && [B][..0] == [];
    assert Edges([B]) == Edges([]) + EdgesOf(B, 0);
    assert Edges([B, C]) == Edges([B]) + EdgesOf(C, 1);
    assert Edges([B, C, TWICE]) == Edges([B, C]) + EdgesOf(TWICE, 2);
  }

  lemma AlarmNames()
    ensures Names(ALARM) == {"a", "b", "c"}
  {
    assert B in ALARM && C in ALARM && LAST in ALARM;
  }

  lemma AlarmDeps()
    ensures Names(ALARM) == {"a", "b", "c"} && DepsOf(ALARM) == ALARM_DEPS
  {
    AlarmNames();
    assert ALARM[..3] == [B, C, TWICE] && [B, C, TWICE][..2] == [B, C] && [B, C][..1] == [B];
    assert LastNamed(ALARM, "a") == Some(LAST);
    assert LastNamed(ALARM, "c") == LastNamed([B, C, TWICE], "c") == LastNamed([B, C], "c") == Some(C);
    assert LastNamed(ALARM, "b") == LastNamed([B, C, TWICE], "b") == LastNamed([B, C], "b") == LastNamed([B], "b") == Some(B);
  }

  function Depth(n: string): nat {
    if n == "a" then 2 else if n == "c" then 1 else 0
  }

  lemma {:induction false} AlarmDescends(p: seq<string>)
    requires Chain(ALARM_DEPS, p, {"a", "b", "c"})
    ensures Depth(p[|p| - 1]) + |p| - 1 <= Depth(p[0])
    decreases |p|
  {
    if |p| > 1 {
      assert Linked(ALARM_DEPS, p, 1);
      SubChain(ALARM_DEPS, p, {"a", "b", "c"}, 1, |p|);
      AlarmDescends(p[1..|p|]);
    }
  }

  lemma AlarmIsAcyclic()
    ensures !HasCycle(ALARM_DEPS, {"a", "b", "c"})
  {
    forall p | Chain(ALARM_DEPS, p, {"a", "b", "c"}) ensures |p| > 1 ==> p[0] != p[|p| - 1] { AlarmDescends(p); }
  }

  /** A shadowed entry can push an in-degree below zero, so that a cycle is reported where there is none. */
  lemma ShadowedDependenciesFeignACycle()
    ensures Resolved(ALARM) && Names(ALARM) == {"a", "b", "c"} && DepsOf(ALARM) == ALARM_DEPS
    ensures !HasCycle(ALARM_DEPS, {"a", "b", "c"})
    ensures SortRounds(ALARM_DEPS, Edges(ALARM), {"a", "b", "c"}) == Stuck({"a"})
  {
    AlarmDeps();
    AlarmEdges();
    AlarmIsAcyclic();
    AlarmRounds();
  }

  lemma AlarmRounds()
    ensures SortRounds(ALARM_DEPS, RECORDED, {"a", "b", "c"}) == Stuck({"a"})
  {
    var all: set<string>, deps := {"a", "b", "c"}, ALARM_DEPS;
    assert deps.Keys - all == {} && deps.Keys - {"a", "c"} == {"b"} && deps.Keys - {"a"} == {"b", "c"};
    RepeatedCount({}, "a"); RepeatedCount({}, "b"); RepeatedCount({}, "c");
    RepeatedCount({"b"}, "a"); RepeatedCount({"b"}, "c"); RepeatedCount({"b", "c"}, "a");
    assert ZeroDegree(deps, RECORDED, all) == {"b"};
    assert ZeroDegree(deps, RECORDED, {"a", "c"}) == {"c"};
    assert ZeroDegree(deps, RECORDED, {"a"}) == {};
    assert all - {"b"} == {"a", "c"} && {"a", "c"} - {"c"} == {"a"};
    assert SortRounds(deps, RECORDED, {"a"}) == Stuck({"a"});
    assert SortRounds(deps, RECORDED, {"a", "c"}) == Stuck({"a"});
  }
}
