/** Expansion of ${NAME} references in module pull overrides. */
module ModuleOverrides {
  import opened Options
  import opened Text

  predicate NameStart(c: char) {
    'A' <= c <= 'Z' || 'a' <= c <= 'z' || c == '_'
  }

  predicate NameChar(c: char) {
    NameStart(c) || '0' <= c <= '9'
  }

  predicate IsName(n: string) {
    n != "" && NameStart(n[0]) && forall c <- n :: NameChar(c)
  }

  /** The end of the run of name characters that starts at i. */
  function NameEnd(s: string, i: nat): (j: nat)
    requires i <= |s|
    ensures i <= j <= |s|
    decreases |s| - i
  {
    if i < |s| && NameChar(s[i]) then NameEnd(s, i + 1) else i
  }

  lemma {:induction false} NameEndMeans(s: string, i: nat)
    requires i <= |s|
    ensures forall k :: i <= k < NameEnd(s, i) ==> NameChar(s[k])
    decreases |s| - i
  {
    if i < |s| && NameChar(s[i]) { NameEndMeans(s, i + 1); }
  }

  /** The length of the reference at the start of s, 0 if there is none. */
  function RefLength(s: string): (m: nat)
    ensures m <= |s| && (m > 0 ==> m >= 4)
  {
    if |s| >= 4 && s[0] == '$' && s[1] == '{' && NameStart(s[2]) then
      var j := NameEnd(s, 3);
      if j < |s| && s[j] == '}' then j + 1 else 0
    else 0
  }

  lemma RefLengthMeans(s: string)
    requires RefLength(s) > 0
    ensures IsName(s[2..RefLength(s) - 1]) && s[..RefLength(s)] == "${" + s[2..RefLength(s) - 1] + "}"
  {
    NameEndMeans(s, 3);
    var m := RefLength(s);
    assert s[m - 1] == '}' && s[..m] == [s[0], s[1]] + s[2..m - 1] + [s[m - 1]];
    forall c <- s[2..m - 1] ensures NameChar(c) {
      var k :| 0 <= k < m - 3 && s[2..m - 1][k] == c;
      assert c == s[k + 2];
    }
  }

  /** The longest-match search of the pattern never misses a reference. */
  lemma RefLengthFinds(n: string, rest: string)
    requires IsName(n)
    ensures RefLength("${" + n + "}" + rest) == |n| + 3
  {
    var s := "${" + n + "}" + rest;
    assert forall k :: 2 <= k < 2 + |n| ==> s[k] == n[k - 2];
    assert s[2 + |n|] == '}' && s[2] == n[0];
    NameEndAt(s, 3, 2 + |n|);
  }

  lemma {:induction false} NameEndAt(s: string, i: nat, j: nat)
    requires i <= j < |s| && !NameChar(s[j]) && forall k :: i <= k < j ==> NameChar(s[k])
    ensures NameEnd(s, i) == j
    decreases j - i
  {
    if i < j { NameEndAt(s, i + 1, j); }
  }

  predicate Letter(c: char) {
    'A' <= c <= 'Z' || 'a' <= c <= 'z'
  }

  /** What stands between "${" and the next "}" is a reference exactly if it is a letter or underscore, then letters, digits and underscores. */
  lemma ReferencePattern(n: string, rest: string)
    requires '}' !in n
    ensures RefLength("${" + n + "}" + rest) > 0 <==>
            && n != "" && (Letter(n[0]) || n[0] == '_')
            && forall i :: 0 <= i < |n| ==> Letter(n[i]) || n[i] == '_' || '0' <= n[i] <= '9'
  {
    var s := "${" + n + "}" + rest;
    if IsName(n) { RefLengthFinds(n, rest); }
    if RefLength(s) > 0 {
      var m := RefLength(s);
      RefLengthMeans(s);
      assert s[2..|n| + 2] == n && s[|n| + 2] == '}';
      forall k | 2 <= k < |n| + 2 ensures s[k] != '}' { assert n[k - 2] in n; }
      forall k | 2 <= k < m - 1 ensures s[k] != '}' { assert s[2..m - 1][k - 2] in s[2..m - 1]; }
      assert IsName(n);
      forall i | 0 <= i < |n| ensures NameChar(n[i]) { assert n[i] in n; }
    }
  }

  // ----- Literal characters and references

  datatype Token = Lit(c: char) | Ref(name: string)

  /** Leftmost matches that do not overlap, and the characters between them. */
  function Tokens(s: string): seq<Token>
    decreases |s|
  {
    if s == [] then []
    else
      var m := RefLength(s);
      if m > 0 then [Ref(s[2..m - 1])] + Tokens(s[m..]) else [Lit(s[0])] + Tokens(s[1..])
  }

  function Source(ts: seq<Token>): string {
    if ts == [] then []
    else Written(ts[0]) + Source(ts[1..])
  }

  type Lookup = string -> Option<string>

  function Piece(t: Token, lookup: Lookup): string {
    match t
    case Lit(c) => [c]
    case Ref(n) => match lookup(n) case Some(v) => v case None => ""
  }

  /** Each reference gives the value of its variable, each literal itself. */
  function Expand(ts: seq<Token>, lookup: Lookup): string {
    if ts == [] then [] else Piece(ts[0], lookup) + Expand(ts[1..], lookup)
  }

  /** The text with all references removed. */
  function Stripped(ts: seq<Token>): string {
    if ts == [] then [] else if ts[0].Lit? then [ts[0].c] + Stripped(ts[1..]) else Stripped(ts[1..])
  }

  function UnsetNames(ts: seq<Token>, lookup: Lookup): seq<string> {
    if ts == [] then []
    else if ts[0].Ref? && lookup(ts[0].name).None? then [ts[0].name] + UnsetNames(ts[1..], lookup)
    else UnsetNames(ts[1..], lookup)
  }

  lemma {:induction false} ExpandOneMore(ts: seq<Token>, t: Token, lookup: Lookup)
    ensures Expand(ts + [t], lookup) == Expand(ts, lookup) + Piece(t, lookup)
  {
    if ts == [] {
      assert Expand([t], lookup) == Piece(t, lookup) + Expand([], lookup);
    } else {
      ExpandOneMore(ts[1..], t, lookup);
      var x, y, z := Piece(ts[0], lookup), Expand(ts[1..], lookup), Piece(t, lookup);
      assert (ts + [t])[1..] == ts[1..] + [t];
      assert Expand(ts + [t], lookup) == x + (y + z) == (x + y) + z;
    }
  }

  lemma {:induction false} StrippedOneMore(ts: seq<Token>, t: Token)
    ensures Stripped(ts + [t]) == if t.Lit? then Stripped(ts) + [t.c] else Stripped(ts)
  {
    if ts != [] {
      StrippedOneMore(ts[1..], t);
      assert (ts + [t])[1..] == ts[1..] + [t];
    }
  }

  lemma {:induction false} UnsetOneMore(ts: seq<Token>, t: Token, lookup: Lookup)
    ensures UnsetNames(ts + [t], lookup) ==
            if t.Ref? && lookup(t.name).None? then UnsetNames(ts, lookup) + [t.name] else UnsetNames(ts, lookup)
  {
    if ts != [] {
      UnsetOneMore(ts[1..], t, lookup);
      assert (ts + [t])[1..] == ts[1..] + [t];
    }
  }

  function Written(t: Token): string {
    match t case Lit(c) => [c] case Ref(n) => "${" + n + "}"
  }

  lemma FirstToken(s: string)
    requires s != []
    ensures Tokens(s) != [] && Tokens(s)[1..] == Tokens(s[Step(s)..])
    ensures Written(Tokens(s)[0]) == s[..Step(s)]
  {
    if RefLength(s) > 0 { RefLengthMeans(s); }
  }

  lemma SourceOf(s: string, k: nat, ts: seq<Token>)
    requires k <= |s| && ts != [] && Written(ts[0]) == s[..k] && Source(ts[1..]) == s[k..]
    ensures Source(ts) == s
  {
  }

  /** Nothing of the text is lost: putting the tokens back gives it again. */
  lemma {:induction false} TokensRoundTrip(s: string)
    ensures Source(Tokens(s)) == s
    decreases |s|
  {
    if s != [] {
      FirstToken(s);
      TokensRoundTrip(s[Step(s)..]);
      SourceOf(s, Step(s), Tokens(s));
    }
  }

  // ----- What an expansion is

  /** A piece of the text and what it becomes. */
  datatype Part = Part(from: string, to: string)

  function Froms(ps: seq<Part>): string {
    if ps == [] then [] else ps[0].from + Froms(ps[1..])
  }

  function Tos(ps: seq<Part>): string {
    if ps == [] then [] else ps[0].to + Tos(ps[1..])
  }

  ghost predicate StartsReference(s: string) {
    exists n, rest :: IsName(n) && s == "${" + n + "}" + rest
  }

  predicate IsLiteral(p: Part) {
    |p.from| == 1 && p.to == p.from
  }

  ghost predicate IsReference(p: Part, lookup: Lookup) {
    exists n :: IsName(n) && p.from == "${" + n + "}" && Gives(lookup, n, p.to)
  }

  /** A set variable gives its value, an unset one nothing. */
  predicate Gives(lookup: Lookup, n: string, value: string) {
    lookup(n) == Some(value) || (lookup(n).None? && value == "")
  }

  /** Each part is a reference with its value, or a character that stays where no reference starts. */
  ghost predicate Aligned(ps: seq<Part>, lookup: Lookup) {
    ps == [] ||
    ((IsReference(ps[0], lookup) || (IsLiteral(ps[0]) && !StartsReference(Froms(ps)))) && Aligned(ps[1..], lookup))
  }

  /** `out` is `s` cut into parts, each replaced on its own. */
  ghost predicate Splices(ps: seq<Part>, s: string, out: string, lookup: Lookup) {
    Froms(ps) == s && Tos(ps) == out && Aligned(ps, lookup)
  }

  lemma StartsReferenceMeans(s: string)
    ensures StartsReference(s) <==> RefLength(s) > 0
  {
    if StartsReference(s) {
      var n, rest :| IsName(n) && s == "${" + n + "}" + rest;
      RefLengthFinds(n, rest);
    }
    if RefLength(s) > 0 {
      RefLengthMeans(s);
      assert s == s[..RefLength(s)] + s[RefLength(s)..];
    }
  }

  lemma FirstTokenIsPart(s: string, lookup: Lookup)
    requires s != []
    ensures Tokens(s) != []
    ensures var p := Part(Written(Tokens(s)[0]), Piece(Tokens(s)[0], lookup));
            IsReference(p, lookup) || (IsLiteral(p) && !StartsReference(s))
  {
    StartsReferenceMeans(s);
    if RefLength(s) > 0 {
      RefLengthMeans(s);
      var n := s[2..RefLength(s) - 1];
      assert IsName(n) && Written(Tokens(s)[0]) == "${" + n + "}" && Gives(lookup, n, Piece(Tokens(s)[0], lookup));
    }
  }

  lemma SpliceMore(p: Part, ps: seq<Part>, s: string, out: string, lookup: Lookup)
    requires Splices(ps, s, out, lookup)
    requires IsReference(p, lookup) || (IsLiteral(p) && !StartsReference(p.from + s))
    ensures Splices([p] + ps, p.from + s, p.to + out, lookup)
  {
    assert ([p] + ps)[1..] == ps;
  }

  /** The expansion is such a splice. */
  lemma {:induction false} ExpandSplices(s: string, lookup: Lookup) returns (ps: seq<Part>)
    ensures Splices(ps, s, Expand(Tokens(s), lookup), lookup)
    decreases |s|
  {
    ps := [];
    if s != [] {
      FirstToken(s);
      FirstTokenIsPart(s, lookup);
      var p, rest := Part(Written(Tokens(s)[0]), Piece(Tokens(s)[0], lookup)), s[Step(s)..];
      assert s == p.from + rest;
      ps := ExpandSplices(rest, lookup);
      SpliceMore(p, ps, rest, Expand(Tokens(rest), lookup), lookup);
      ps := [p] + ps;
    }
  }

  lemma ReferenceFirst(n: string, rest: string)
    requires IsName(n)
    ensures var s := "${" + n + "}" + rest;
            && RefLength(s) == |n| + 3 && s[..|n| + 3] == "${" + n + "}" && s[|n| + 3..] == rest && s[2..|n| + 2] == n
  {
    RefLengthFinds(n, rest);
  }

  /** The first part is cut off where the first token ends, and becomes what that token becomes. */
  lemma FirstPart(p: Part, rest: string, lookup: Lookup)
    requires IsReference(p, lookup) || (IsLiteral(p) && !StartsReference(p.from + rest))
    ensures var s := p.from + rest;
            s != [] && s[Step(s)..] == rest && Tokens(s) != [] && p.to == Piece(Tokens(s)[0], lookup)
  {
    var s := p.from + rest;
    if IsReference(p, lookup) {
      var n :| IsName(n) && p.from == "${" + n + "}" && Gives(lookup, n, p.to);
      ReferenceFirst(n, rest);
    } else {
      StartsReferenceMeans(s);
      assert s[1..] == rest;
    }
  }

  /** There is no other: the cut and every replacement are forced. */
  lemma {:induction false} SpliceIsExpansion(ps: seq<Part>, lookup: Lookup)
    requires Aligned(ps, lookup)
    ensures Tos(ps) == Expand(Tokens(Froms(ps)), lookup)
  {
    if ps != [] {
      FirstPart(ps[0], Froms(ps[1..]), lookup);
      FirstToken(Froms(ps));
      SpliceIsExpansion(ps[1..], lookup);
    }
  }

  /**
   The expansion is the one text got by cutting the original into references and single characters and
   replacing each reference by its value: values go in as they are, other characters stay.
   */
  lemma ExpandInsertsVerbatim(s: string, out: string, lookup: Lookup)
    ensures out == Expand(Tokens(s), lookup) <==> exists ps :: Splices(ps, s, out, lookup)
  {
    if out == Expand(Tokens(s), lookup) {
      var ps := ExpandSplices(s, lookup);
    }
    if exists ps :: Splices(ps, s, out, lookup) {
      var ps :| Splices(ps, s, out, lookup);
      SpliceIsExpansion(ps, lookup);
    }
  }

  // ----- One override

  predicate Malformed(s: string) {
    Contains(Stripped(Tokens(s)), "${")
  }

  function Resolved(s: string, lookup: Lookup): string {
    if s == "" || Malformed(s) then s else Expand(Tokens(s), lookup)
  }

  /** The override raises no problem. */
  predicate Accepted(s: string, lookup: Lookup) {
    UnsetNames(Tokens(s), lookup) == [] && !Malformed(s)
  }

  /** The name of the reference at i. */
  function NameAt(s: string, i: nat): string
    requires i <= |s| && RefLength(s[i..]) > 0
  {
    s[i..][2..RefLength(s[i..]) - 1]
  }

  /** Every "${" starts a well-formed reference to a variable that is set. */
  predicate AllReferencesGood(s: string, lookup: Lookup) {
    forall i :: 0 <= i < |s| && OccursAt(s, "${", i) ==> RefLength(s[i..]) > 0 && lookup(NameAt(s, i)).Some?
  }

  function NextLiteral(ts: seq<Token>): Option<char> {
    if ts == [] then None else if ts[0].Lit? then Some(ts[0].c) else NextLiteral(ts[1..])
  }

  /** A dollar sign, then references, then an opening brace: "${" appears once they are removed. */
  predicate SplitOpener(ts: seq<Token>) {
    ts != [] && ((ts[0] == Lit('$') && |ts| > 1 && ts[1].Ref? && NextLiteral(ts[1..]) == Some('{')) || SplitOpener(ts[1..]))
  }

  predicate BareOpener(ts: seq<Token>) {
    ts != [] && ((ts[0] == Lit('$') && |ts| > 1 && ts[1] == Lit('{')) || BareOpener(ts[1..]))
  }

  lemma {:induction false} StrippedStart(ts: seq<Token>)
    ensures NextLiteral(ts).None? <==> Stripped(ts) == ""
    ensures NextLiteral(ts).Some? ==> Stripped(ts) != "" && Stripped(ts)[0] == NextLiteral(ts).value
  {
    if ts != [] && ts[0].Ref? { StrippedStart(ts[1..]); }
  }

  lemma ContainsAfter(c: char, s: string)
    ensures Contains([c] + s, "${") <==> (c == '$' && s != "" && s[0] == '{') || Contains(s, "${")
  {
    var t := [c] + s;
    if Contains(t, "${") {
      var i :| 0 <= i <= |t| && OccursAt(t, "${", i);
      assert t[i..i + 2] == "${";
      assert t[i] == "${"[0] && t[i + 1] == "${"[1];
      if i > 0 {
        assert s[i - 1] == t[i] && s[i] == t[i + 1];
        assert s[i - 1..i + 1] == "${";
        assert OccursAt(s, "${", i - 1);
      }
    }
    if c == '$' && s != "" && s[0] == '{' {
      assert t[0..2] == "${";
      assert OccursAt(t, "${", 0);
    }
    if Contains(s, "${") {
      var i :| 0 <= i <= |s| && OccursAt(s, "${", i);
      assert s[i..i + 2][0] == s[i] == t[i + 1] && s[i..i + 2][1] == s[i + 1] == t[i + 2];
      assert t[i + 1..i + 3] == "${";
      assert OccursAt(t, "${", i + 1);
    }
  }

  /** What the check on the stripped text finds. */
  lemma {:induction false} StrippedContains(ts: seq<Token>)
    ensures Contains(Stripped(ts), "${") <==> BareOpener(ts) || SplitOpener(ts)
  {
    if ts != [] {
      StrippedContains(ts[1..]);
      if ts[0].Lit? {
        ContainsAfter(ts[0].c, Stripped(ts[1..]));
        StrippedStart(ts[1..]);
      }
    }
  }

  lemma InsideReference(s: string, i: nat)
    requires RefLength(s) > 0 && 0 < i < RefLength(s)
    ensures s[i] != '$'
  {
    var m := RefLength(s);
    NameEndMeans(s, 3);
    assert i == 1 || i == 2 || i == m - 1 || NameChar(s[i]);
  }

  /** A "${" that starts no reference. */
  predicate BareAt(s: string, i: nat) {
    i < |s| && OccursAt(s, "${", i) && RefLength(s[i..]) == 0
  }

  /** A reference to a variable that is not set. */
  predicate UnsetAt(s: string, i: nat, lookup: Lookup) {
    i < |s| && OccursAt(s, "${", i) && RefLength(s[i..]) > 0 && lookup(NameAt(s, i)).None?
  }

  lemma Shift(s: string, k: nat, i: nat, lookup: Lookup)
    requires k <= i <= |s|
    ensures BareAt(s, i) <==> BareAt(s[k..], i - k)
    ensures UnsetAt(s, i, lookup) <==> UnsetAt(s[k..], i - k, lookup)
  {
    assert s[i..] == s[k..][i - k..];
    assert i + 2 <= |s| ==> s[i..i + 2] == s[k..][i - k..i - k + 2];
  }

  lemma Unshift(s: string, k: nat, i: nat, lookup: Lookup)
    requires k <= |s|
    ensures BareAt(s[k..], i) ==> BareAt(s, k + i)
    ensures UnsetAt(s[k..], i, lookup) ==> UnsetAt(s, k + i, lookup)
  {
    if k + i <= |s| { Shift(s, k, k + i, lookup); }
  }

  /** How far the first token of a text reaches. */
  function Step(s: string): (k: nat)
    requires s != []
    ensures 0 < k <= |s|
  {
    if RefLength(s) > 0 then RefLength(s) else 1
  }

  lemma WithinFirstToken(s: string, i: nat, lookup: Lookup)
    requires s != [] && i < Step(s)
    ensures BareAt(s, i) <==> i == 0 && RefLength(s) == 0 && OccursAt(s, "${", 0)
    ensures UnsetAt(s, i, lookup) <==> i == 0 && RefLength(s) > 0 && lookup(s[2..RefLength(s) - 1]).None?
  {
    assert s[0..] == s;
    var m := RefLength(s);
    if i > 0 {
      InsideReference(s, i);
      assert i + 2 <= |s| ==> s[i..i + 2][0] == s[i];
    } else if m > 0 {
      assert s[0..2] == "${";
      assert NameAt(s, 0) == s[2..m - 1];
    }
  }

  ghost predicate AnyBare(s: string) {
    exists i: nat :: BareAt(s, i)
  }

  ghost predicate AnyUnset(s: string, lookup: Lookup) {
    exists i: nat :: UnsetAt(s, i, lookup)
  }

  predicate FirstBare(s: string) {
    RefLength(s) == 0 && OccursAt(s, "${", 0)
  }

  lemma BareIsFirstOrLater(s: string, i: nat, lookup: Lookup)
    requires s != [] && BareAt(s, i)
    ensures FirstBare(s) || AnyBare(s[Step(s)..])
  {
    if i < Step(s) {
      WithinFirstToken(s, i, lookup);
    } else {
      Shift(s, Step(s), i, lookup);
    }
  }

  lemma AnyBareStep(s: string, lookup: Lookup)
    requires s != []
    ensures AnyBare(s) <==> FirstBare(s) || AnyBare(s[Step(s)..])
  {
    if i: nat :| BareAt(s, i) { BareIsFirstOrLater(s, i, lookup); }
    if FirstBare(s) { WithinFirstToken(s, 0, lookup); }
    if i: nat :| BareAt(s[Step(s)..], i) { Unshift(s, Step(s), i, lookup); }
  }

  predicate FirstUnset(s: string, lookup: Lookup) {
    RefLength(s) > 0 && lookup(s[2..RefLength(s) - 1]).None?
  }

  lemma UnsetIsFirstOrLater(s: string, i: nat, lookup: Lookup)
    requires s != [] && UnsetAt(s, i, lookup)
    ensures FirstUnset(s, lookup) || AnyUnset(s[Step(s)..], lookup)
  {
    if i < Step(s) {
      WithinFirstToken(s, i, lookup);
    } else {
      Shift(s, Step(s), i, lookup);
    }
  }

  lemma AnyUnsetStep(s: string, lookup: Lookup)
    requires s != []
    ensures AnyUnset(s, lookup) <==> FirstUnset(s, lookup) || AnyUnset(s[Step(s)..], lookup)
  {
    if i: nat :| UnsetAt(s, i, lookup) { UnsetIsFirstOrLater(s, i, lookup); }
    if FirstUnset(s, lookup) { WithinFirstToken(s, 0, lookup); }
    if i: nat :| UnsetAt(s[Step(s)..], i, lookup) { Unshift(s, Step(s), i, lookup); }
  }

  /** What the tokens show of the text: bare openers and unset variables. */
  lemma {:induction false} TokensShow(s: string, lookup: Lookup)
    ensures BareOpener(Tokens(s)) <==> AnyBare(s)
    ensures UnsetNames(Tokens(s), lookup) != [] <==> AnyUnset(s, lookup)
    decreases |s|
  {
    if s != [] {
      AnyBareStep(s, lookup);
      AnyUnsetStep(s, lookup);
      TokensShow(s[Step(s)..], lookup);
      assert Tokens(s)[1..] == Tokens(s[Step(s)..]);
      if RefLength(s) == 0 { LiteralBrace(s); }
    }
  }

  lemma LiteralBrace(s: string)
    requires s != [] && RefLength(s) == 0
    ensures (Tokens(s)[0] == Lit('$') && |Tokens(s)| > 1 && Tokens(s)[1] == Lit('{')) <==> OccursAt(s, "${", 0)
  {
    if |s| >= 2 {
      assert s[0..2] == [s[0], s[1]];
      assert RefLength(s[1..]) > 0 ==> s[1] == '$';
    }
  }

  /**
   An override is accepted exactly when every "${" starts a reference to a set variable and no dollar
   sign stands before references that an opening brace follows.
   */
  lemma AcceptedExactly(s: string, lookup: Lookup)
    ensures Accepted(s, lookup) <==> AllReferencesGood(s, lookup) && !SplitOpener(Tokens(s))
  {
    StrippedContains(Tokens(s));
    TokensShow(s, lookup);
    if AllReferencesGood(s, lookup) {
      assert forall i: nat :: !BareAt(s, i) && !UnsetAt(s, i, lookup);
    } else {
      var i :| 0 <= i < |s| && OccursAt(s, "${", i) && !(RefLength(s[i..]) > 0 && lookup(NameAt(s, i)).Some?);
      assert BareAt(s, i) || UnsetAt(s, i, lookup);
    }
  }

  /** A malformed override stays as it is, any other becomes its expansion. */
  lemma ResolvedExactly(s: string, out: string, lookup: Lookup)
    ensures out == Resolved(s, lookup) <==>
            if AnyBare(s) || SplitOpener(Tokens(s)) then out == s else exists ps :: Splices(ps, s, out, lookup)
  {
    StrippedContains(Tokens(s));
    TokensShow(s, lookup);
    ExpandInsertsVerbatim(s, out, lookup);
  }

  /** The check on the stripped text also refuses an override whose only "${" is a good reference. */
  lemma GoodOverrideRefused(lookup: Lookup)
    requires lookup("A") == Some("x")
    ensures AllReferencesGood("$${A}{", lookup) && !Accepted("$${A}{", lookup)
  {
    var s, rest := "$${A}{", "${A}{";
    assert s[1..] == rest;
    assert rest == "${" + "A" + "}" + "{";
    RefLengthFinds("A", "{");
    assert rest[4..] == "{" && rest[2..3] == "A" && "{"[1..] == [];
    assert Tokens("{") == [Lit('{')] + Tokens([]);
    assert Tokens(rest) == [Ref("A")] + Tokens("{");
    assert Tokens(s) == [Lit('$')] + Tokens(rest);
    var ts := Tokens(s);
    assert ts == [Lit('$'), Ref("A"), Lit('{')];
    assert ts[1..] == [Ref("A"), Lit('{')] && ts[1..][1..] == [Lit('{')];
    assert NextLiteral(ts[1..]) == NextLiteral(ts[1..][1..]) == Some('{');
    AcceptedExactly(s, lookup);
    forall i | 0 <= i < |s| && OccursAt(s, "${", i) ensures i == 1 {
      assert s[i..i + 2][0] == s[i] && s[i..i + 2][1] == s[i + 1];
    }
    assert NameAt(s, 1) == "A";
  }

  // ----- All modules

  class ModuleConfig {
    const name: string
    var pullOverride: string

    constructor (name: string, pullOverride: string)
      ensures this.name == name && this.pullOverride == pullOverride
    {
      this.name, this.pullOverride := name, pullOverride;
    }
  }

  datatype Problem = Unset(m: string, variable: string) | BadText(m: string, text: string)

  function UnsetProblems(m: string, names: seq<string>): seq<Problem> {
    if names == [] then [] else [Unset(m, names[0])] + UnsetProblems(m, names[1..])
  }

  function ProblemsOf(m: string, s: string, lookup: Lookup): seq<Problem> {
    if s == "" then []
    else UnsetProblems(m, UnsetNames(Tokens(s), lookup)) + if Malformed(s) then [BadText(m, s)] else []
  }

  lemma {:induction false} OneMoreUnset(m: string, names: seq<string>, n: string)
    ensures UnsetProblems(m, names + [n]) == UnsetProblems(m, names) + [Unset(m, n)]
  {
    if names == [] {
      assert UnsetProblems(m, [n]) == [Unset(m, n)] + UnsetProblems(m, []);
    } else {
      OneMoreUnset(m, names[1..], n);
      assert (names + [n])[1..] == names[1..] + [n];
    }
  }

  function LiteralPiece(t: Token): string {
    if t.Lit? then [t.c] else ""
  }

  function ProblemPiece(t: Token, m: string, lookup: Lookup): seq<Problem> {
    if t.Ref? && lookup(t.name).None? then [Unset(m, t.name)] else []
  }

  /** What one more token adds to each result of the scan. */
  lemma OneMoreToken(done: seq<Token>, t: Token, m: string, lookup: Lookup)
    ensures Expand(done + [t], lookup) == Expand(done, lookup) + Piece(t, lookup)
    ensures Stripped(done + [t]) == Stripped(done) + LiteralPiece(t)
    ensures UnsetProblems(m, UnsetNames(done + [t], lookup)) ==
            UnsetProblems(m, UnsetNames(done, lookup)) + ProblemPiece(t, m, lookup)
  {
    ExpandOneMore(done, t, lookup);
    StrippedOneMore(done, t);
    UnsetOneMore(done, t, lookup);
    if t.Ref? { OneMoreUnset(m, UnsetNames(done, lookup), t.name); }
  }

  /** The replacement callback: an unset variable gives nothing and is noted. */
  method ReplaceToken(t: Token, m: string, lookup: Lookup) returns (piece: string, literal: string, problems: seq<Problem>)
    ensures piece == Piece(t, lookup) && literal == LiteralPiece(t) && problems == ProblemPiece(t, m, lookup)
  {
    match t
    case Lit(c) =>
      piece, literal, problems := [c], [c], [];
    case Ref(n) =>
      var value := lookup(n);
      if value.Some? {
        piece, literal, problems := value.value, "", [];
      } else {
        piece, literal, problems := "", "", [Unset(m, n)];
      }
  }

  /** Goes through the matches, expanding references and noting unset variables. */
  method ReplaceTokens(ts: seq<Token>, m: string, lookup: Lookup) returns (r: string, stripped: string, problems: seq<Problem>)
    ensures r == Expand(ts, lookup) && stripped == Stripped(ts)
    ensures problems == UnsetProblems(m, UnsetNames(ts, lookup))
  {
    r, stripped, problems := "", "", [];
    ghost var done: seq<Token> := [];
    for i := 0 to |ts|
      invariant done == ts[..i]
      invariant r == Expand(done, lookup) && stripped == Stripped(done)
      invariant problems == UnsetProblems(m, UnsetNames(done, lookup))
    {
      OneMoreToken(done, ts[i], m, lookup);
      var piece, literal, unset := ReplaceToken(ts[i], m, lookup);
      r, stripped, problems := r + piece, stripped + literal, problems + unset;
      done := done + [ts[i]];
    }
    assert ts[..|ts|] == ts;
  }

  /** The text has a reference to v. */
  ghost predicate RefersTo(s: string, v: string) {
    exists i: nat :: ReferenceAt(s, i, v)
  }

  predicate ReferenceAt(s: string, i: nat, v: string) {
    i < |s| && OccursAt(s, "${", i) && RefLength(s[i..]) > 0 && NameAt(s, i) == v
  }

  lemma {:induction false} UnsetAmong(ts: seq<Token>, lookup: Lookup, only: Lookup, v: string)
    requires forall n :: only(n).None? <==> n == v
    ensures v in UnsetNames(ts, lookup) <==> lookup(v).None? && UnsetNames(ts, only) != []
  {
    if ts != [] { UnsetAmong(ts[1..], lookup, only, v); }
  }

  lemma UnsetExactly(s: string, v: string, lookup: Lookup)
    ensures v in UnsetNames(Tokens(s), lookup) <==> lookup(v).None? && RefersTo(s, v)
  {
    var only: Lookup := n => if n == v then None else Some("");
    UnsetAmong(Tokens(s), lookup, only, v);
    TokensShow(s, only);
    if AnyUnset(s, only) {
      var i: nat :| UnsetAt(s, i, only);
      assert ReferenceAt(s, i, v);
    }
    if RefersTo(s, v) {
      var i: nat :| ReferenceAt(s, i, v);
      assert UnsetAt(s, i, only);
    }
  }

  lemma {:induction false} UnsetProblemsMean(m: string, names: seq<string>, q: Problem)
    ensures q in UnsetProblems(m, names) <==> q.Unset? && q.m == m && q.variable in names
  {
    if names != [] {
      UnsetProblemsMean(m, names[1..], q);
      assert names == [names[0]] + names[1..];
    }
  }

  ghost predicate Applies(q: Problem, s: string, lookup: Lookup) {
    if q.Unset? then lookup(q.variable).None? && RefersTo(s, q.variable)
    else q.text == s && (AnyBare(s) || SplitOpener(Tokens(s)))
  }

  /** One problem for every unset variable referred to, and one if the override is malformed; no others. */
  lemma ProblemsExactly(m: string, s: string, lookup: Lookup, q: Problem)
    requires s != ""
    ensures q in ProblemsOf(m, s, lookup) <==> q.m == m && Applies(q, s, lookup)
  {
    UnsetProblemsMean(m, UnsetNames(Tokens(s), lookup), q);
    StrippedContains(Tokens(s));
    TokensShow(s, lookup);
    if q.Unset? { UnsetExactly(s, q.variable, lookup); }
  }

  // ----- The loop

  type Resolver = string -> string
  type Checker = (string, string) -> seq<Problem>

  ghost function ResolvedBy(lookup: Lookup): Resolver {
    s => Resolved(s, lookup)
  }

  ghost function ProblemsBy(lookup: Lookup): Checker {
    (m, s) => ProblemsOf(m, s, lookup)
  }

  /** The text after n visits; each visit works on what the one before left. */
  function Iterated(f: Resolver, s: string, n: nat): string {
    if n == 0 then s else f(Iterated(f, s, n - 1))
  }

  /** How often m is among the first k modules. */
  ghost function Visits(modules: seq<ModuleConfig?>, k: nat, m: ModuleConfig?): nat
    requires k <= |modules|
  {
    if k == 0 then 0 else Visits(modules, k - 1, m) + if modules[k - 1] == m then 1 else 0
  }

  type Overrides = map<ModuleConfig?, string>

  ghost function OverridesOf(modules: seq<ModuleConfig?>): Overrides
    reads modules
  {
    map m <- modules | m != null :: m.pullOverride
  }

  /** The text that visit i finds: what the earlier visits of the same module left of its override. */
  ghost function TextAt(modules: seq<ModuleConfig?>, texts: Overrides, f: Resolver, i: nat): string
    requires i < |modules|
  {
    if modules[i] in texts then Iterated(f, texts[modules[i]], Visits(modules, i, modules[i])) else ""
  }

  /** The problems of each visit. */
  ghost function VisitProblems(modules: seq<ModuleConfig?>, texts: Overrides, f: Resolver, p: Checker): nat -> seq<Problem> {
    (i: nat) => if i < |modules| && modules[i] != null then p(modules[i].name, TextAt(modules, texts, f, i)) else []
  }

  /** The problems of the first k visits, in list order. */
  function Joined(at: nat -> seq<Problem>, k: nat): seq<Problem> {
    if k == 0 then [] else Joined(at, k - 1) + at(k - 1)
  }

  predicate SpecifiesAt(f: Resolver, p: Checker, lookup: Lookup, m: string, s: string) {
    f(s) == Resolved(s, lookup) && p(m, s) == ProblemsOf(m, s, lookup)
  }

  ghost predicate Specifies(f: Resolver, p: Checker, lookup: Lookup) {
    forall m, s :: SpecifiesAt(f, p, lookup, m, s)
  }

  /** One module of the loop. */
  method ResolveOne(m: ModuleConfig, lookup: Lookup, ghost f: Resolver, ghost p: Checker) returns (problems: seq<Problem>)
    requires Specifies(f, p, lookup)
    modifies m
    ensures problems == p(m.name, old(m.pullOverride))
    ensures m.pullOverride == f(old(m.pullOverride))
  {
    assert SpecifiesAt(f, p, lookup, m.name, m.pullOverride);
    if m.pullOverride == "" {
      return [];
    }
    var original := m.pullOverride;
    var resolved, stripped, unset := ReplaceTokens(Tokens(original), m.name, lookup);
    problems := unset;
    if Contains(stripped, "${") {
      problems := problems + [BadText(m.name, original)];
      return;
    }
    m.pullOverride := resolved;
  }

  /** The modules hold what the first k visits made of their overrides. */
  ghost predicate VisitedUpTo(modules: seq<ModuleConfig?>, texts: Overrides, f: Resolver, k: nat)
    requires k <= |modules|
    reads modules
  {
    forall m <- modules :: m != null ==> m in texts && m.pullOverride == Iterated(f, texts[m], Visits(modules, k, m))
  }

  method ResolveAll(modules: seq<ModuleConfig?>, lookup: Lookup, ghost texts: Overrides, ghost f: Resolver, ghost p: Checker)
    returns (problems: seq<Problem>)
    requires Specifies(f, p, lookup) && texts == OverridesOf(modules)
    modifies modules
    ensures problems == Joined(VisitProblems(modules, texts, f, p), |modules|)
    ensures VisitedUpTo(modules, texts, f, |modules|)
  {
    problems := [];
    ghost var at := VisitProblems(modules, texts, f, p);
    for k := 0 to |modules|
      invariant problems == Joined(at, k)
      invariant VisitedUpTo(modules, texts, f, k)
    {
      var m := modules[k];
      var found: seq<Problem> := [];
      if m != null {
        assert m in modules && m.pullOverride == TextAt(modules, texts, f, k);
        found := ResolveOne(m, lookup, f, p);
      }
      assert found == at(k);
      problems := problems + found;
    }
  }

  /**
   Every visit of a module replaces its text by the expansion unless that is malformed, even if a variable
   in it is unset.  The problems come in list order.
   */
  method ResolveModulePullOverrides(modules: seq<ModuleConfig?>, lookup: Lookup) returns (problems: seq<Problem>)
    modifies modules
    ensures problems ==
            Joined(VisitProblems(modules, old(OverridesOf(modules)), ResolvedBy(lookup), ProblemsBy(lookup)), |modules|)
    ensures forall m <- modules :: m != null ==>
              m.pullOverride == Iterated(ResolvedBy(lookup), old(m.pullOverride), Visits(modules, |modules|, m))
  {
    BySpecifies(lookup);
    problems := ResolveAll(modules, lookup, OverridesOf(modules), ResolvedBy(lookup), ProblemsBy(lookup));
  }

  lemma BySpecifies(lookup: Lookup)
    ensures Specifies(ResolvedBy(lookup), ProblemsBy(lookup), lookup)
  {
  }

  // ----- Modules listed once

  /** No module object is listed twice, as when the list comes from a decoder. */
  ghost predicate ListedOnce(modules: seq<ModuleConfig?>) {
    forall i, j :: 0 <= i < j < |modules| && modules[i] != null ==> modules[i] != modules[j]
  }

  lemma {:induction false} VisitedOnce(modules: seq<ModuleConfig?>, k: nat, i: nat)
    requires ListedOnce(modules) && k <= |modules| && i < |modules| && modules[i] != null
    ensures Visits(modules, k, modules[i]) == if i < k then 1 else 0
  {
    if k > 0 { VisitedOnce(modules, k - 1, i); }
  }

  /** Then each module is checked and expanded once, from its own text. */
  lemma ListedOnceIsExpandedOnce(modules: seq<ModuleConfig?>, texts: Overrides, f: Resolver, i: nat)
    requires ListedOnce(modules) && i < |modules| && modules[i] != null && modules[i] in texts
    ensures TextAt(modules, texts, f, i) == texts[modules[i]]
    ensures Iterated(f, texts[modules[i]], Visits(modules, |modules|, modules[i])) == f(texts[modules[i]])
  {
    VisitedOnce(modules, i, i);
    VisitedOnce(modules, |modules|, i);
    assert Iterated(f, texts[modules[i]], 0) == texts[modules[i]];
  }

  function Reference(n: string): string {
    "${" + n + "}"
  }

  lemma OneReference(n: string, lookup: Lookup)
    requires IsName(n)
    ensures Resolved(Reference(n), lookup) == Piece(Ref(n), lookup)
  {
    var s := Reference(n);
    assert s == "${" + n + "}" + "";
    ReferenceFirst(n, "");
    assert s[|n| + 3..] == [];
    assert Tokens(s) == [Ref(n)] + Tokens([]);
    assert Stripped([Ref(n)]) == Stripped([]);
    assert Expand([Ref(n)], lookup) == Piece(Ref(n), lookup) + Expand([], lookup);
  }

  lemma {:induction false} FixedStays(f: Resolver, s: string, n: nat)
    requires f(s) == s
    ensures Iterated(f, s, n) == s
  {
    if n > 0 { FixedStays(f, s, n - 1); }
  }

  lemma {:induction false} IteratedFromSecond(f: Resolver, s: string, n: nat)
    ensures Iterated(f, s, n + 1) == Iterated(f, f(s), n)
  {
    if n > 0 { IteratedFromSecond(f, s, n - 1); }
  }

  lemma IteratedThrough(f: Resolver, a: string, b: string, c: string, n: nat)
    requires f(a) == b && f(b) == c && f(c) == c && a != b && b != c && n != 1
    ensures Iterated(f, a, n) != f(a)
  {
    if n > 1 {
      IteratedFromSecond(f, a, n - 1);
      IteratedFromSecond(f, b, n - 2);
      FixedStays(f, c, n - 2);
    }
  }

  /** A value that is a reference is expanded by the second visit. */
  lemma NestedIsExpandedAgain(a: string, b: string, lookup: Lookup, n: nat)
    requires IsName(a) && IsName(b) && lookup(a) == Some(Reference(b)) && lookup(b) == Some("") && n != 1
    ensures Iterated(ResolvedBy(lookup), Reference(a), n) != Resolved(Reference(a), lookup)
  {
    OneReference(a, lookup);
    OneReference(b, lookup);
    assert Reference(a)[2..|a| + 2] == a && Reference(b)[2..|b| + 2] == b;
    IteratedThrough(ResolvedBy(lookup), Reference(a), Reference(b), "", n);
  }

  /** The visits from the first to the n-th all leave the single expansion. */
  ghost predicate ExpandedOnce(f: Resolver, s: string, n: nat) {
    forall j: nat :: 1 <= j <= n ==> Iterated(f, s, j) == f(s)
  }

  lemma FixedAfterFirst(f: Resolver, s: string, n: nat)
    requires n >= 1
    ensures ExpandedOnce(f, s, n) <==> n == 1 || f(f(s)) == f(s)
  {
    IteratedFromSecond(f, s, 0);
    IteratedFromSecond(f, s, 1);
    IteratedFromSecond(f, f(s), 0);
    if f(f(s)) == f(s) {
      forall j: nat | 1 <= j <= n ensures Iterated(f, s, j) == f(s) {
        IteratedFromSecond(f, s, j - 1);
        FixedStays(f, f(s), j - 1);
      }
    } else if n > 1 {
      assert Iterated(f, s, 2) != f(s);
    }
  }

  /**
   For a given text and lookup, n visits expand no inserted value if and only if there is one visit or the
   expanded text is one that expansion leaves alone: empty, malformed, or equal to its own expansion.
   */
  lemma OneVisitExactly(s: string, lookup: Lookup, n: nat)
    requires n >= 1
    ensures ExpandedOnce(ResolvedBy(lookup), s, n) <==>
            n == 1 || var t := Resolved(s, lookup); t == "" || Malformed(t) || Expand(Tokens(t), lookup) == t
  {
    FixedAfterFirst(ResolvedBy(lookup), s, n);
    assert ResolvedBy(lookup)(s) == Resolved(s, lookup);
  }

  // ----- When the call succeeds

  /** The override that visit i finds is empty or accepted. */
  ghost predicate FineAt(modules: seq<ModuleConfig?>, texts: Overrides, lookup: Lookup, i: nat)
    requires i < |modules|
  {
    var text := TextAt(modules, texts, ResolvedBy(lookup), i);
    modules[i] == null || text == "" || Accepted(text, lookup)
  }

  lemma NoProblemsMeans(m: string, s: string, lookup: Lookup)
    ensures ProblemsOf(m, s, lookup) == [] <==> s == "" || Accepted(s, lookup)
  {
  }

  lemma FineMeansNoProblems(modules: seq<ModuleConfig?>, texts: Overrides, lookup: Lookup, i: nat)
    requires i < |modules|
    ensures FineAt(modules, texts, lookup, i) <==>
            VisitProblems(modules, texts, ResolvedBy(lookup), ProblemsBy(lookup))(i) == []
  {
    if modules[i] != null {
      NoProblemsMeans(modules[i].name, TextAt(modules, texts, ResolvedBy(lookup), i), lookup);
    }
  }

  lemma {:induction false} JoinedIsEmpty(at: nat -> seq<Problem>, k: nat)
    ensures Joined(at, k) == [] <==> forall i: nat :: i < k ==> at(i) == []
  {
    if k > 0 { JoinedIsEmpty(at, k - 1); }
  }

  /** No problem is reported exactly when every override is empty or accepted as its visit finds it. */
  lemma NoProblemsExactly(modules: seq<ModuleConfig?>, texts: Overrides, lookup: Lookup)
    ensures Joined(VisitProblems(modules, texts, ResolvedBy(lookup), ProblemsBy(lookup)), |modules|) == [] <==>
            forall i :: 0 <= i < |modules| ==> FineAt(modules, texts, lookup, i)
  {
    var at := VisitProblems(modules, texts, ResolvedBy(lookup), ProblemsBy(lookup));
    JoinedIsEmpty(at, |modules|);
    forall i | 0 <= i < |modules| ensures FineAt(modules, texts, lookup, i) <==> at(i) == [] {
      FineMeansNoProblems(modules, texts, lookup, i);
    }
  }
}
