/** Optimistic-locking update of a cluster's template input values. */
module CommanderUpdate {
  const UPDATE_REVISION_RETRIES: nat := 5
  const DEFAULT_REGISTRY_MODE: string := "Direct"

  datatype Json = Null | Text(text: string) | Number(number: int) | List(items: seq<Json>) | Object(fields: map<string, Json>)

  /** What a PUT replaces wholesale. */
  datatype Cluster = Cluster(name: string, template: string, registry: string, registryMode: string, values: Json)

  /** An accepted write; revision r of the cluster is entry r of the log. */
  datatype Entry = Entry(writer: string, cluster: Cluster)

  type Log = log: seq<Entry> | |log| > 0 witness [Entry("", Cluster("", "", "", "", Null))]

  type Mutation = map<string, Json> -> map<string, Json>

  function ValuesToMap(v: Json): map<string, Json> {
    match v
    case Object(fields) => fields
    case _ => map[]
  }

  function RegistryModeOrDefault(mode: string): string {
    if mode == "" then DEFAULT_REGISTRY_MODE else mode
  }

  /** The request built from the cluster that was read. */
  function Mutated(c: Cluster, mutate: Mutation): Cluster {
    c.(registryMode := RegistryModeOrDefault(c.registryMode), values := Object(mutate(ValuesToMap(c.values))))
  }

  /** How one PUT ends.  A handled PUT is accepted exactly when its revision is current. */
  datatype PutFate =
    | Answered              // handled, and the answer arrives
    | AnswerLost            // handled, but the answer is lost or cannot be decoded
    | NotHandled            // refused for another reason, or not handled before the call returns

  /** What the rest of the world does during one attempt. */
  datatype Round = Round(lookupFails: bool, beforeRead: seq<Entry>, readFails: bool, beforePut: seq<Entry>, fate: PutFate)

  datatype UpdateResult = Updated | ReadFailed | PutFailed | Exhausted

  /** Others write under other names. */
  ghost predicate Foreign(rounds: nat -> Round, me: string) {
    forall k: nat :: NotMine(rounds(k).beforeRead, me) && NotMine(rounds(k).beforePut, me)
  }

  predicate NotMine(es: seq<Entry>, me: string) {
    forall i :: 0 <= i < |es| ==> es[i].writer != me
  }

  lemma AppendForeign(start: Log, log: Log, es: seq<Entry>, me: string)
    requires start <= log && NotMine(log[|start|..], me) && NotMine(es, me)
    ensures start <= log + es && NotMine((log + es)[|start|..], me)
  {
    assert (log + es)[|start|..] == log[|start|..] + es;
  }

  /** A PUT keeps all of a cluster but its values, which are mutated, and an unset registry mode. */
  predicate OnlyValuesChange(before: Cluster, now: Cluster, mutate: Mutation) {
    && now.name == before.name && now.template == before.template && now.registry == before.registry
    && now.registryMode == (if before.registryMode == "" then "Direct" else before.registryMode)
    && now.values == Object(mutate(if before.values.Object? then before.values.fields else map[]))
  }

  /** The attempt reads the cluster, and its PUT is handled and answered. */
  predicate Completes(round: Round) {
    !round.lookupFails && !round.readFails && round.fate.Answered?
  }

  /** Rounds before k all ended in a conflict: someone wrote between the read and the PUT. */
  ghost predicate ConflictsUntil(rounds: nat -> Round, k: nat) {
    forall j: nat :: j < k ==> Completes(rounds(j)) && rounds(j).beforePut != []
  }

  /** How the rounds make the call end, and after how many PUTs. */
  ghost predicate Ends(rounds: nat -> Round, puts: nat, r: UpdateResult) {
    match r
    case Updated =>
      0 < puts <= 5 && ConflictsUntil(rounds, puts - 1) && Completes(rounds(puts - 1)) && rounds(puts - 1).beforePut == []
    case Exhausted => puts == 5 && ConflictsUntil(rounds, 5)
    case ReadFailed =>
      puts < 5 && ConflictsUntil(rounds, puts) && (rounds(puts).lookupFails || rounds(puts).readFails)
    case PutFailed =>
      && 0 < puts <= 5 && ConflictsUntil(rounds, puts - 1)
      && !rounds(puts - 1).lookupFails && !rounds(puts - 1).readFails && !rounds(puts - 1).fate.Answered?
  }

  /** The round that decides the call is the first that is no conflict. */
  function DecidedIn(puts: nat, r: UpdateResult): nat {
    if r.Exhausted? || r.ReadFailed? || puts == 0 then puts else puts - 1
  }

  lemma NoConflictDecides(rounds: nat -> Round, puts: nat, r: UpdateResult, k: nat)
    requires Ends(rounds, puts, r) && ConflictsUntil(rounds, k) && k <= 5
    ensures k <= DecidedIn(puts, r)
  {
  }

  /** The rounds decide the result: each comes exactly under its own condition. */
  lemma EndsExactly(rounds: nat -> Round, puts: nat, r: UpdateResult, puts': nat, r': UpdateResult)
    requires Ends(rounds, puts, r) && Ends(rounds, puts', r')
    ensures puts == puts' && r == r'
  {
    NoConflictDecides(rounds, puts, r, DecidedIn(puts', r'));
    NoConflictDecides(rounds, puts', r', DecidedIn(puts, r));
  }

  /** Entry r applies `mutate` to the very revision before it. */
  predicate Applies(log: Log, r: nat, mutate: Mutation) {
    0 < r < |log| && log[r].cluster == Mutated(log[r - 1].cluster, mutate)
  }

  ghost predicate WroteAt(start: Log, log: Log, me: string, r: nat) {
    |start| <= r < |log| && log[r].writer == me
  }

  lemma NoneMine(start: Log, log: Log, me: string)
    requires start <= log && NotMine(log[|start|..], me)
    ensures forall i: nat :: !WroteAt(start, log, me, i)
  {
    forall i: nat | |start| <= i < |log| ensures log[i].writer != me { assert log[i] == log[|start|..][i - |start|]; }
  }

  lemma OneMine(start: Log, log: Log, e: Entry)
    requires start <= log && NotMine(log[|start|..], e.writer)
    ensures start <= log + [e]
    ensures forall i: nat :: WroteAt(start, log + [e], e.writer, i) <==> i == |log|
  {
    NoneMine(start, log, e.writer);
    forall i: nat ensures WroteAt(start, log + [e], e.writer, i) <==> i == |log| {
      if i < |log| { assert !WroteAt(start, log, e.writer, i); }
    }
  }

  /**
   Whatever others write in between: at most one PUT of this call is accepted, exactly one if it
   succeeds, none if it gives up or fails to read; an accepted PUT is the mutation of the revision
   it replaced; at most five PUTs are sent.
   */
  method UpdateClusterValues(start: Log, rounds: nat -> Round, me: string, mutate: Mutation)
    returns (log: Log, puts: nat, r: UpdateResult)
    requires Foreign(rounds, me)
    ensures start <= log && puts <= UPDATE_REVISION_RETRIES
    ensures forall i: nat, j: nat :: WroteAt(start, log, me, i) && WroteAt(start, log, me, j) ==> i == j
    ensures forall i: nat :: WroteAt(start, log, me, i) ==> Applies(log, i, mutate)
    ensures forall i: nat :: WroteAt(start, log, me, i) ==> OnlyValuesChange(log[i - 1].cluster, log[i].cluster, mutate)
    ensures Ends(rounds, puts, r)
    ensures r.Updated? ==> exists i: nat :: WroteAt(start, log, me, i)
    ensures r.Exhausted? || r.ReadFailed? ==> forall i: nat :: !WroteAt(start, log, me, i)
    ensures r.Exhausted? ==> puts == UPDATE_REVISION_RETRIES
  {
    log, puts := start, 0;
    for attempt := 0 to UPDATE_REVISION_RETRIES
      invariant start <= log && puts == attempt
      invariant NotMine(log[|start|..], me)
      invariant ConflictsUntil(rounds, attempt)
    {
      var round := rounds(attempt);
      assert NotMine(round.beforeRead, me) && NotMine(round.beforePut, me);
      if round.lookupFails {
        NoneMine(start, log, me);
        return log, puts, ReadFailed;
      }
      AppendForeign(start, log, round.beforeRead, me);
      log := log + round.beforeRead;
      if round.readFails {
        NoneMine(start, log, me);
        return log, puts, ReadFailed;
      }
      var revision, cluster := |log| - 1, log[|log| - 1].cluster;
      var request := Mutated(cluster, mutate);
      AppendForeign(start, log, round.beforePut, me);
      log := log + round.beforePut;
      puts := puts + 1;
      NoneMine(start, log, me);
      if round.fate.NotHandled? {
        return log, puts, PutFailed;
      }
      var accepted := revision == |log| - 1;
      if accepted {
        OneMine(start, log, Entry(me, request));
        log := log + [Entry(me, request)];
      }
      if round.fate.AnswerLost? {
        return log, puts, PutFailed;
      }
      if accepted {
        assert WroteAt(start, log, me, |log| - 1);
        return log, puts, Updated;
      }
    }
    NoneMine(start, log, me);
    r := Exhausted;
  }

  // ----- Several writers

  function SetKey(key: string, value: Json): Mutation {
    m => m[key := value]
  }

  /** Field `key` of the cluster's values, read as the update reads it. */
  predicate Holds(c: Cluster, key: string, value: Json) {
    var m := ValuesToMap(c.values);
    key in m && m[key] == value
  }

  /** Every revision after i sets one key that is not `key`. */
  ghost predicate OthersSince(log: Log, i: nat, j: nat, key: string, keys: nat -> string, values: nat -> Json) {
    forall k :: i < k <= j < |log| ==> keys(k) != key && Applies(log, k, SetKey(keys(k), values(k)))
  }

  /** A key that one writer set, or that an object held before, outlives all writers of other keys. */
  lemma {:induction false} DistinctKeysSurvive(
    log: Log, i: nat, j: nat, key: string, value: Json, keys: nat -> string, values: nat -> Json)
    requires i <= j < |log| && OthersSince(log, i, j, key, keys, values)
    requires Applies(log, i, SetKey(key, value)) || Holds(log[i].cluster, key, value)
    ensures Holds(log[j].cluster, key, value)
    decreases j
  {
    if i < j {
      DistinctKeysSurvive(log, i, j - 1, key, value, keys, values);
      assert Applies(log, j, SetKey(keys(j), values(j)));
    }
  }
}
