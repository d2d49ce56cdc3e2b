/** When the rounds of the level sort finish, for any recorded entries, whether they agree with the lists or not. */
module ModuleNumbering {
  import opened ModuleGraph

  type Numbers = map<string, nat>

  function Below(number: Numbers, k: nat): set<string> {
    set n <- number | number[n] < k
  }

  /** As many recorded entries of n lie below k as its own list has. */
  predicate Even(deps: map<string, seq<string>>, es: seq<Edge>, number: Numbers, n: string, k: nat)
    requires n in deps
  {
    CountEdges(es, Below(number, k), n) == |deps[n]|
  }

  /** n is numbered by the first k, from `start` on, at which it is even. */
  ghost predicate FirstEven(deps: map<string, seq<string>>, es: seq<Edge>, number: Numbers, n: string, start: nat)
    requires n in deps && n in number
  {
    forall k: nat :: start <= k <= number[n] ==> (Even(deps, es, number, n, k) <==> k == number[n])
  }

  /** Every module is numbered by the first k at which it is even. */
  ghost predicate Numbering(deps: map<string, seq<string>>, es: seq<Edge>, number: Numbers) {
    number.Keys == deps.Keys && forall n <- deps :: FirstEven(deps, es, number, n, 0)
  }

  ghost predicate Numbered(deps: map<string, seq<string>>, es: seq<Edge>) {
    exists number :: Numbering(deps, es, number)
  }

  /** `number` extends what earlier rounds numbered and gives r numbers from k on. */
  ghost predicate Extends(deps: map<string, seq<string>>, es: seq<Edge>, r: set<string>, k: nat, base: Numbers, number: Numbers)
    requires r <= deps.Keys
  {
    && number.Keys == deps.Keys
    && (forall n <- base :: n in number && number[n] == base[n])
    && (forall n <- r :: n in number && number[n] >= k && FirstEven(deps, es, number, n, k))
  }

  lemma ExtendsOneRound(deps: map<string, seq<string>>, es: seq<Edge>, r: set<string>, k: nat, base: Numbers, number: Numbers)
    requires r <= deps.Keys && base.Keys == deps.Keys - r && forall n <- base :: base[n] < k
    requires var first := ZeroDegree(deps, es, r);
             Extends(deps, es, r - first, k + 1, base + map n <- first :: k, number)
    ensures Extends(deps, es, r, k, base, number)
  {
    var first := ZeroDegree(deps, es, r);
    var more := base + map n <- first :: k;
    forall n <- base ensures number[n] == base[n] { assert more[n] == base[n]; }
    forall n <- first ensures number[n] == k { assert more[n] == k; }
    assert Below(number, k) == deps.Keys - r;
    forall n <- r ensures FirstEven(deps, es, number, n, k) {
      assert Even(deps, es, number, n, k) <==> n in first;
      if n !in first { assert FirstEven(deps, es, number, n, k + 1); }
    }
  }

  /** Rounds that finish number the modules by their levels. */
  lemma {:induction false} RoundsNumber(deps: map<string, seq<string>>, es: seq<Edge>, r: set<string>, k: nat, base: Numbers)
    returns (number: Numbers)
    requires r <= deps.Keys && SortRounds(deps, es, r).Done?
    requires base.Keys == deps.Keys - r && forall n <- base :: base[n] < k
    ensures Extends(deps, es, r, k, base, number)
    decreases |r|
  {
    if r == {} {
      number := base;
    } else {
      var first := ZeroDegree(deps, es, r);
      RoundStep(deps, es, r, []);
      number := RoundsNumber(deps, es, r - first, k + 1, base + map n <- first :: k);
      ExtendsOneRound(deps, es, r, k, base, number);
    }
  }

  lemma {:induction false} Lowest(number: Numbers, r: set<string>) returns (n: string)
    requires r != {} && r <= number.Keys
    ensures n in r && forall m <- r :: number[n] <= number[m]
    decreases |r|
  {
    n :| n in r;
    if r != {n} {
      var m := Lowest(number, r - {n});
      if number[m] < number[n] { n := m; }
    }
  }

  /** In round k exactly the modules numbered k are processed, and there is one. */
  lemma NumberedRound(deps: map<string, seq<string>>, es: seq<Edge>, number: Numbers, k: nat)
    requires Numbering(deps, es, number)
    ensures var r := deps.Keys - Below(number, k);
            && r - ZeroDegree(deps, es, r) == deps.Keys - Below(number, k + 1)
            && (r != {} ==> ZeroDegree(deps, es, r) != {})
  {
    var r := deps.Keys - Below(number, k);
    assert deps.Keys - r == Below(number, k);
    forall n <- r ensures n in ZeroDegree(deps, es, r) <==> number[n] == k {
      assert FirstEven(deps, es, number, n, 0);
      assert Even(deps, es, number, n, k) <==> k == number[n];
    }
    if r != {} {
      var n := Lowest(number, r);
      assert Below(number, number[n]) == Below(number, k);
      assert FirstEven(deps, es, number, n, 0) && Even(deps, es, number, n, number[n]);
      assert Even(deps, es, number, n, k) <==> k == number[n];
      assert n in ZeroDegree(deps, es, r);
    }
  }

  lemma {:induction false} NumberedRoundsFinish(deps: map<string, seq<string>>, es: seq<Edge>, number: Numbers, k: nat)
    requires Numbering(deps, es, number)
    ensures SortRounds(deps, es, deps.Keys - Below(number, k)).Done?
    decreases |deps.Keys - Below(number, k)|
  {
    var r := deps.Keys - Below(number, k);
    if r != {} {
      NumberedRound(deps, es, number, k);
      RoundStep(deps, es, r, []);
      NumberedRoundsFinish(deps, es, number, k + 1);
    }
  }

  /** The sort returns levels if and only if the modules can be numbered so. */
  lemma FinishesExactly(deps: map<string, seq<string>>, es: seq<Edge>)
    ensures SortRounds(deps, es, deps.Keys).Done? <==> Numbered(deps, es)
  {
    if SortRounds(deps, es, deps.Keys).Done? {
      var number := RoundsNumber(deps, es, deps.Keys, 0, map[]);
      assert Numbering(deps, es, number);
    }
    if Numbered(deps, es) {
      var number :| Numbering(deps, es, number);
      NumberedRoundsFinish(deps, es, number, 0);
      assert Below(number, 0) == {};
      assert deps.Keys - Below(number, 0) == deps.Keys;
    }
  }
}
