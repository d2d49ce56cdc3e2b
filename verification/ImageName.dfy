/** The ClusterVirtualImage name derived from an image URL. */
module ImageName {
  import opened Text

  function LastPart(s: string): (r: string)
    ensures '/' !in r && |r| <= |s| && r == s[|s| - |r|..]
    ensures |r| < |s| ==> s[|s| - |r| - 1] == '/'
  {
    if s == [] then [] else if '/' in s then LastPart(s[1..]) else s
  }

  function TrimSuffix(s: string, t: string): string {
    if |t| <= |s| && s[|s| - |t|..] == t then s[..|s| - |t|] else s
  }

  function Hyphenated(s: string): (r: string)
    ensures |r| == |s| && forall i :: 0 <= i < |s| ==> r[i] == if s[i] == '_' || s[i] == '.' then '-' else s[i]
  {
    seq(|s|, i requires 0 <= i < |s| => if s[i] == '_' || s[i] == '.' then '-' else s[i])
  }

  /** strings.ReplaceAll(s, "--", "-"): occurrences are found left to right and do not overlap. */
  function ReplaceDouble(s: string): string {
    if |s| < 2 then s
    else if s[0] == '-' && s[1] == '-' then ['-'] + ReplaceDouble(s[2..])
    else [s[0]] + ReplaceDouble(s[1..])
  }

  function TrimLeft(s: string): (r: string)
    ensures |r| <= |s| && r == s[|s| - |r|..] && (r != [] ==> r[0] != '-')
    ensures forall i :: 0 <= i < |s| - |r| ==> s[i] == '-'
  {
    if s != [] && s[0] == '-' then TrimLeft(s[1..]) else s
  }

  function TrimRight(s: string): (r: string)
    ensures |r| <= |s| && r == s[..|r|] && (r != [] ==> r[|r| - 1] != '-')
    ensures forall i :: |r| <= i < |s| ==> s[i] == '-'
  {
    if s != [] && s[|s| - 1] == '-' then TrimRight(s[..|s| - 1]) else s
  }

  // ----- Collapsing hyphen runs

  /** Puts c in front of r, merging two hyphens that meet. */
  function Glue(c: char, r: string): string {
    if c == '-' && r != [] && r[0] == '-' then r else [c] + r
  }

  /** Every maximal run of hyphens becomes one hyphen. */
  function Collapse(s: string): string {
    if s == [] then [] else Glue(s[0], Collapse(s[1..]))
  }

  predicate DoubleAt(s: string, i: nat)
    requires 0 < i < |s|
  {
    s[i - 1] == '-' && s[i] == '-'
  }

  predicate NoDouble(s: string) {
    forall i :: 0 < i < |s| ==> !DoubleAt(s, i)
  }

  lemma NoDoubleIsNotContained(s: string)
    ensures NoDouble(s) <==> !Contains(s, "--")
  {
    if i: int :| 0 < i < |s| && DoubleAt(s, i) {
      assert s[i - 1..i - 1 + |"--"|] == "--";
      assert OccursAt(s, "--", i - 1);
    }
    if Contains(s, "--") {
      var i :| 0 <= i <= |s| && OccursAt(s, "--", i);
      assert s[i..i + 2][0] == '-' && s[i..i + 2][1] == '-';
      assert DoubleAt(s, i + 1);
    }
  }

  lemma {:induction false} ReplaceDoubleShrinks(s: string)
    ensures |ReplaceDouble(s)| <= |s|
    ensures !NoDouble(s) ==> |ReplaceDouble(s)| < |s|
  {
    if |s| >= 2 {
      if s[0] == '-' && s[1] == '-' {
        ReplaceDoubleShrinks(s[2..]);
      } else {
        ReplaceDoubleShrinks(s[1..]);
        if i: int :| 0 < i < |s| && DoubleAt(s, i) {
          assert DoubleAt(s[1..], i - 1);
        }
      }
    }
  }

  /** One replacement pass does not change what the runs collapse to. */
  lemma {:induction false} ReplaceDoubleCollapses(s: string)
    ensures Collapse(ReplaceDouble(s)) == Collapse(s)
  {
    if |s| >= 2 {
      if s[0] == '-' && s[1] == '-' {
        var r := ReplaceDouble(s[2..]);
        ReplaceDoubleCollapses(s[2..]);
        assert (['-'] + r)[1..] == r && s[1..][1..] == s[2..];
      } else {
        var r := ReplaceDouble(s[1..]);
        ReplaceDoubleCollapses(s[1..]);
        assert ([s[0]] + r)[1..] == r;
      }
    }
  }

  lemma {:induction false} CollapseIsIdentity(s: string)
    requires NoDouble(s)
    ensures Collapse(s) == s
  {
    if s != [] {
      assert NoDouble(s[1..]) by {
        forall i | 0 < i < |s[1..]| ensures !DoubleAt(s[1..], i) { assert !DoubleAt(s, i + 1); }
      }
      CollapseIsIdentity(s[1..]);
      if |s| > 1 { assert !DoubleAt(s, 1); }
    }
  }

  lemma {:induction false} CollapseHasNoDouble(s: string)
    ensures NoDouble(Collapse(s))
    ensures forall c <- Collapse(s) :: c in s
  {
    if s != [] {
      CollapseHasNoDouble(s[1..]);
      var r := Collapse(s[1..]);
      forall i | 0 < i < |Collapse(s)| ensures !DoubleAt(Collapse(s), i) {
        if Collapse(s) == r { assert !DoubleAt(r, i); } else if i > 1 { assert !DoubleAt(r, i - 1); }
      }
    }
  }

  // ----- The name

  /** The name with the runs collapsed at once. */
  function NameOf(lower: char -> char, url: string): string {
    var name := TrimRight(TrimLeft(Collapse(Hyphenated(ToLower(lower, Base(url))))));
    if name == "" then "image" else name
  }

  predicate Clean(s: string) {
    && s != "" && NoDouble(s) && s[0] != '-' && s[|s| - 1] != '-'
    && '.' !in s && '_' !in s && '/' !in s
  }

  function Base(url: string): string {
    TrimSuffix(TrimSuffix(LastPart(url), ".img"), ".qcow2")
  }

  /** c is the lower case of a character of the file name, other than a dot or an underscore. */
  predicate FromFile(lower: char -> char, url: string, c: char) {
    c != '.' && c != '_' && exists x <- LastPart(url) :: c == lower(x)
  }

  lemma DefaultCharacters(c: char)
    requires c in "image"
    ensures 'a' <= c <= 'z'
  {
  }

  lemma TrimmedCharacters(lower: char -> char, url: string, c: char)
    requires c in TrimRight(TrimLeft(Collapse(Hyphenated(ToLower(lower, Base(url))))))
    ensures c == '-' || FromFile(lower, url, c)
  {
    var base := Base(url);
    var h := Hyphenated(ToLower(lower, base));
    TrimmedMembers(Collapse(h), c);
    CollapseHasNoDouble(h);
    var i :| 0 <= i < |h| && h[i] == c;
    BaseMembers(url, base[i]);
  }

  lemma TrimmedMembers(s: string, c: char)
    requires c in TrimRight(TrimLeft(s))
    ensures c in s
  {
    assert c in TrimLeft(s);
  }

  lemma BaseMembers(url: string, c: char)
    requires c in Base(url)
    ensures c in LastPart(url)
  {
    assert c in TrimSuffix(LastPart(url), ".img");
  }

  lemma NameCharacters(lower: char -> char, url: string, c: char)
    requires c in NameOf(lower, url)
    ensures c == '-' || 'a' <= c <= 'z' || FromFile(lower, url, c)
  {
    if TrimRight(TrimLeft(Collapse(Hyphenated(ToLower(lower, Base(url)))))) == "" {
      DefaultCharacters(c);
    } else {
      TrimmedCharacters(lower, url, c);
    }
  }

  lemma SliceHasNoDouble(s: string, i: nat, j: nat)
    requires NoDouble(s) && i <= j <= |s|
    ensures NoDouble(s[i..j])
  {
    forall k | 0 < k < j - i ensures !DoubleAt(s[i..j], k) { assert !DoubleAt(s, i + k); }
  }

  lemma TrimmedHasNoDouble(s: string)
    requires NoDouble(s)
    ensures NoDouble(TrimRight(TrimLeft(s)))
  {
    var l := TrimLeft(s);
    SliceHasNoDouble(s, |s| - |l|, |s|);
    assert s[|s| - |l|..|s|] == l;
    SliceHasNoDouble(l, 0, |TrimRight(l)|);
    assert l[0..|TrimRight(l)|] == TrimRight(l);
  }

  lemma TrimmedHasNoEdgeHyphen(s: string)
    ensures var r := TrimRight(TrimLeft(s)); r != "" ==> r[0] != '-' && r[|r| - 1] != '-'
  {
    var l := TrimLeft(s);
    if TrimRight(l) != "" { assert TrimRight(l)[0] == l[0]; }
  }

  lemma NameShape(lower: char -> char, url: string)
    ensures var n := NameOf(lower, url); n != "" && NoDouble(n) && n[0] != '-' && n[|n| - 1] != '-'
  {
    var s := Collapse(Hyphenated(ToLower(lower, Base(url))));
    CollapseHasNoDouble(Hyphenated(ToLower(lower, Base(url))));
    TrimmedHasNoDouble(s);
    TrimmedHasNoEdgeHyphen(s);
    DefaultShape();
  }

  lemma DefaultShape()
    ensures NoDouble("image")
  {
  }

  lemma LowerIsStable(lower: char -> char, url: string, c: char)
    requires LowerCase(lower) && (c == '-' || 'a' <= c <= 'z' || FromFile(lower, url, c))
    ensures lower(c) == c && c != '/' && c != '.' && c != '_'
  {
    assert LowersOne(lower, c);
    if FromFile(lower, url, c) {
      var x :| x in LastPart(url) && c == lower(x);
      assert LowersOne(lower, x);
    }
  }

  lemma NameIsClean(lower: char -> char, url: string)
    requires LowerCase(lower)
    ensures Clean(NameOf(lower, url))
    ensures forall c <- NameOf(lower, url) :: lower(c) == c
  {
    NameShape(lower, url);
    var n := NameOf(lower, url);
    forall c <- n ensures lower(c) == c && c != '/' && c != '.' && c != '_' {
      NameCharacters(lower, url, c);
      LowerIsStable(lower, url, c);
    }
  }

  lemma {:induction false} TrimIsIdentity(s: string)
    requires s != "" ==> s[0] != '-' && s[|s| - 1] != '-'
    ensures TrimRight(TrimLeft(s)) == s
  {
  }

  lemma CleanHasNoSuffix(n: string, t: string)
    requires Clean(n) && t != "" && t[0] == '.'
    ensures TrimSuffix(n, t) == n
  {
    if |t| <= |n| && n[|n| - |t|..] == t {
      assert false;
    }
  }

  lemma CleanIsItsBase(n: string)
    requires Clean(n)
    ensures Base(n) == n
  {
    assert LastPart(n) == n;
    CleanHasNoSuffix(n, ".img");
    CleanHasNoSuffix(n, ".qcow2");
  }

  lemma CleanIsHyphenated(n: string)
    requires Clean(n)
    ensures Hyphenated(n) == n
  {
    assert forall i :: 0 <= i < |n| ==> n[i] in n;
  }

  lemma CleanIsItsOwnName(lower: char -> char, n: string)
    requires Clean(n) && forall c <- n :: lower(c) == c
    ensures NameOf(lower, n) == n
  {
    CleanIsItsBase(n);
    assert ToLower(lower, n) == n;
    CleanIsHyphenated(n);
    CollapseIsIdentity(n);
    TrimIsIdentity(n);
  }

  /** A name is its own name: normalising twice changes nothing. */
  lemma NameIsStable(lower: char -> char, url: string)
    requires LowerCase(lower)
    ensures NameOf(lower, NameOf(lower, url)) == NameOf(lower, url)
  {
    NameIsClean(lower, url);
    CleanIsItsOwnName(lower, NameOf(lower, url));
  }

  predicate FileCharacter(c: char) {
    'a' <= c <= 'z' || 'A' <= c <= 'Z' || '0' <= c <= '9' || c == '.' || c == '_' || c == '-'
  }

  /** The characters of a host name label. */
  predicate LabelCharacter(c: char) {
    'a' <= c <= 'z' || '0' <= c <= '9' || c == '-'
  }

  lemma NameIsALabel(lower: char -> char, url: string)
    requires LowerCase(lower) && forall c <- LastPart(url) :: FileCharacter(c)
    ensures Clean(NameOf(lower, url)) && forall c <- NameOf(lower, url) :: LabelCharacter(c)
  {
    NameIsClean(lower, url);
    forall c <- NameOf(lower, url) ensures LabelCharacter(c) {
      NameCharacters(lower, url, c);
      if FromFile(lower, url, c) {
        var x :| x in LastPart(url) && c == lower(x);
        assert FileCharacter(x) && LowersOne(lower, x);
      }
    }
  }

  // ----- The name by its words

  predicate Separator(c: char) {
    c == '-' || c == '_' || c == '.'
  }

  predicate AllSeparators(s: string) {
    forall i :: 0 <= i < |s| ==> Separator(s[i])
  }

  predicate IsWord(s: string) {
    s != "" && forall i :: 0 <= i < |s| ==> !Separator(s[i])
  }

  /** Words with separators between, before and after them; those between are not empty. */
  predicate Layout(ws: seq<string>, seps: seq<string>) {
    && |seps| == |ws| + 1 && (forall i :: 0 <= i < |seps| ==> AllSeparators(seps[i]))
    && (forall i :: 0 <= i < |ws| ==> IsWord(ws[i])) && (forall i :: 0 < i < |ws| ==> seps[i] != "")
  }

  function Spread(ws: seq<string>, seps: seq<string>): string
    requires |seps| == |ws| + 1
  {
    if ws == [] then seps[0] else seps[0] + (ws[0] + Spread(ws[1..], seps[1..]))
  }

  function Joined(ws: seq<string>): string {
    if ws == [] then "" else if |ws| == 1 then ws[0] else ws[0] + ("-" + Joined(ws[1..]))
  }

  /** What a run of separators becomes. */
  function Bar(sep: string): string {
    if sep == "" then "" else "-"
  }

  function Flat(s: string): string {
    Collapse(Hyphenated(s))
  }

  lemma HyphenatedConcat(a: string, b: string)
    ensures Hyphenated(a + b) == Hyphenated(a) + Hyphenated(b)
  {
  }

  lemma {:induction false} CollapseWord(w: string, r: string)
    requires forall i :: 0 <= i < |w| ==> w[i] != '-'
    ensures Collapse(w + r) == w + Collapse(r)
  {
    if w == "" {
      assert w + r == r;
    } else {
      CollapseWord(w[1..], r);
      assert (w + r)[1..] == w[1..] + r && w == [w[0]] + w[1..];
    }
  }

  lemma FlatWord(w: string, s: string)
    requires IsWord(w)
    ensures Flat(w + s) == w + Flat(s)
  {
    HyphenatedConcat(w, s);
    assert Hyphenated(w) == w;
    CollapseWord(w, Hyphenated(s));
  }

  lemma {:induction false} CollapseBar(hs: string, r: string)
    requires (forall i :: 0 <= i < |hs| ==> hs[i] == '-') && (r != "" ==> r[0] != '-')
    ensures Collapse(hs + r) == Bar(hs) + Collapse(r)
  {
    if hs == "" {
      assert hs + r == r;
    } else {
      CollapseBar(hs[1..], r);
      assert (hs + r)[1..] == hs[1..] + r;
      assert Collapse(r) != "" ==> r != "" && Collapse(r)[0] == r[0];
    }
  }

  lemma FlatSeparators(sep: string, s: string)
    requires AllSeparators(sep) && (s != "" ==> !Separator(s[0]))
    ensures Flat(sep + s) == Bar(sep) + Flat(s)
  {
    HyphenatedConcat(sep, s);
    CollapseBar(Hyphenated(sep), Hyphenated(s));
  }

  lemma LayoutOfRest(ws: seq<string>, seps: seq<string>)
    requires Layout(ws, seps) && ws != []
    ensures Layout(ws[1..], seps[1..])
  {
  }

  /** Hyphens for the separators, and the words as they are. */
  lemma {:induction false} FlatSpread(ws: seq<string>, seps: seq<string>)
    requires Layout(ws, seps)
    ensures ws == [] ==> Flat(Spread(ws, seps)) == Bar(seps[0])
    ensures ws != [] ==> Flat(Spread(ws, seps)) == Bar(seps[0]) + (Joined(ws) + Bar(seps[|ws|]))
    decreases |ws|
  {
    if ws == [] {
      FlatSeparators(seps[0], "");
      assert seps[0] + "" == seps[0] && Flat("") == "";
    } else {
      LayoutOfRest(ws, seps);
      var w, rest := ws[0], Spread(ws[1..], seps[1..]);
      FlatSpread(ws[1..], seps[1..]);
      FlatWord(w, rest);
      FlatSeparators(seps[0], w + rest);
      if |ws| == 1 {
        assert Flat(rest) == Bar(seps[1]);
      } else {
        var tail := Joined(ws[1..]) + Bar(seps[|ws|]);
        assert Flat(rest) == "-" + tail;
        assert w + ("-" + tail) == Joined(ws) + Bar(seps[|ws|]);
      }
    }
  }

  lemma {:induction false} JoinedEdges(ws: seq<string>)
    requires ws != [] && forall i :: 0 <= i < |ws| ==> IsWord(ws[i])
    ensures Joined(ws) != "" && Joined(ws)[0] != '-' && Joined(ws)[|Joined(ws)| - 1] != '-'
    decreases |ws|
  {
    assert IsWord(ws[0]);
    if |ws| > 1 { JoinedEdges(ws[1..]); }
  }

  lemma TrimLeftBar(a: string, l: string)
    requires a in {"", "-"} && l != "" && l[0] != '-'
    ensures TrimLeft(a + l) == l
  {
    if a == "" { assert a + l == l; } else { assert (a + l)[0] == '-' && (a + l)[1..] == l; }
  }

  lemma TrimRightBar(j: string, b: string)
    requires b in {"", "-"} && j != "" && j[|j| - 1] != '-'
    ensures TrimRight(j + b) == j
  {
    if b == "" { assert j + b == j; } else { assert (j + b)[|j|] == '-' && (j + b)[..|j|] == j; }
  }

  lemma TrimBars(a: string, j: string, b: string)
    requires a in {"", "-"} && b in {"", "-"} && j != "" && j[0] != '-' && j[|j| - 1] != '-'
    ensures TrimRight(TrimLeft(a + (j + b))) == j
  {
    TrimLeftBar(a, j + b);
    TrimRightBar(j, b);
  }

  lemma TrimBar(a: string)
    requires a in {"", "-"}
    ensures TrimRight(TrimLeft(a)) == ""
  {
    if a == "-" { assert a[1..] == ""; }
  }

  /** The name is the words of the lower-case file name without its extension, joined by single hyphens. */
  lemma NameIsJoinedWords(lower: char -> char, url: string, ws: seq<string>, seps: seq<string>)
    requires Layout(ws, seps) && ToLower(lower, Base(url)) == Spread(ws, seps)
    ensures NameOf(lower, url) == if ws == [] then "image" else Joined(ws)
  {
    FlatSpread(ws, seps);
    if ws == [] {
      TrimBar(Bar(seps[0]));
    } else {
      JoinedEdges(ws);
      TrimBars(Bar(seps[0]), Joined(ws), Bar(seps[|ws|]));
    }
  }

  /** Every text is laid out so. */
  lemma {:induction false} LayoutExists(s: string) returns (ws: seq<string>, seps: seq<string>)
    ensures Layout(ws, seps) && Spread(ws, seps) == s
  {
    if s == "" {
      ws, seps := [], [""];
    } else {
      var c := [s[0]];
      ws, seps := LayoutExists(s[1..]);
      assert s == c + s[1..];
      if Separator(s[0]) {
        PrefixSeparator(c, ws, seps);
        seps := seps[0 := c + seps[0]];
      } else if ws != [] && seps[0] == "" {
        PrefixWord(c, ws, seps);
        ws := ws[0 := c + ws[0]];
      } else {
        NewWord(c, ws, seps);
        ws, seps := [c] + ws, [""] + seps;
      }
    }
  }

  lemma PrefixSeparator(c: string, ws: seq<string>, seps: seq<string>)
    requires Layout(ws, seps) && |c| == 1 && Separator(c[0])
    ensures Layout(ws, seps[0 := c + seps[0]]) && Spread(ws, seps[0 := c + seps[0]]) == c + Spread(ws, seps)
  {
    var seps' := seps[0 := c + seps[0]];
    assert seps'[1..] == seps[1..];
    if ws != [] {
      var x := ws[0] + Spread(ws[1..], seps[1..]);
      assert c + (seps[0] + x) == (c + seps[0]) + x;
    }
  }

  lemma PrefixWord(c: string, ws: seq<string>, seps: seq<string>)
    requires Layout(ws, seps) && ws != [] && seps[0] == "" && |c| == 1 && !Separator(c[0])
    ensures Layout(ws[0 := c + ws[0]], seps) && Spread(ws[0 := c + ws[0]], seps) == c + Spread(ws, seps)
  {
    var ws' := ws[0 := c + ws[0]];
    assert ws'[1..] == ws[1..];
    var x := Spread(ws[1..], seps[1..]);
    assert "" + ((c + ws[0]) + x) == c + ("" + (ws[0] + x));
    assert IsWord(ws[0]);
  }

  lemma NewWord(c: string, ws: seq<string>, seps: seq<string>)
    requires Layout(ws, seps) && (ws != [] ==> seps[0] != "") && |c| == 1 && !Separator(c[0])
    ensures Layout([c] + ws, [""] + seps) && Spread([c] + ws, [""] + seps) == c + Spread(ws, seps)
  {
    assert ([c] + ws)[1..] == ws && ([""] + seps)[1..] == seps;
    assert "" + (c + Spread(ws, seps)) == c + Spread(ws, seps);
  }

  // ----- The file name

  lemma LastPartOf(prefix: string, f: string)
    requires '/' !in f
    ensures LastPart(prefix + "/" + f) == f
  {
    var s := prefix + "/" + f;
    var r := LastPart(s);
    assert s[|prefix|] == '/' && s[|s| - |f|..] == f;
    forall k | |s| - |r| <= k < |s| ensures s[k] != '/' { assert r[k - (|s| - |r|)] in r; }
    forall k | |prefix| < k < |s| ensures s[k] != '/' { assert f[k - |prefix| - 1] in f; }
  }

  lemma CutSuffix(s: string, t: string)
    ensures TrimSuffix(s + t, t) == s
  {
  }

  /** What follows the last slash, without ".img" and then without ".qcow2". */
  lemma ExtensionsAreCut(prefix: string, stem: string)
    requires '/' !in stem && '.' !in stem
    ensures Base(prefix + "/" + stem) == stem && Base(prefix + "/" + (stem + ".img")) == stem
    ensures Base(prefix + "/" + (stem + ".qcow2")) == stem && Base(prefix + "/" + (stem + ".qcow2" + ".img")) == stem
    ensures Base(prefix + "/" + (stem + ".img" + ".qcow2")) == stem + ".img"
  {
    LastPartOf(prefix, stem);
    LastPartOf(prefix, stem + ".img");
    LastPartOf(prefix, stem + ".qcow2");
    LastPartOf(prefix, stem + ".qcow2" + ".img");
    LastPartOf(prefix, stem + ".img" + ".qcow2");
    CutSuffix(stem, ".img");
    CutSuffix(stem, ".qcow2");
    CutSuffix(stem + ".qcow2", ".img");
    CutSuffix(stem + ".img", ".qcow2");
    StemHasNoExtension(stem);
    EndsOtherwise(stem + ".qcow2", ".img");
    EndsOtherwise(stem + ".img" + ".qcow2", ".img");
  }

  lemma StemHasNoExtension(stem: string)
    requires '.' !in stem
    ensures TrimSuffix(stem, ".img") == stem && TrimSuffix(stem, ".qcow2") == stem
  {
    if |stem| >= 4 { assert stem[|stem| - 4..][0] in stem && ".img"[0] == '.'; }
    if |stem| >= 6 { assert stem[|stem| - 6..][0] in stem && ".qcow2"[0] == '.'; }
  }

  lemma EndsOtherwise(s: string, t: string)
    requires s != "" && t != "" && s[|s| - 1] != t[|t| - 1]
    ensures TrimSuffix(s, t) == s
  {
    if |t| <= |s| { assert s[|s| - |t|..][|t| - 1] == s[|s| - 1]; }
  }

  method GetCVMINameFromImageURL(lower: char -> char, imageURL: string) returns (name: string)
    requires LowerCase(lower)
    ensures name == NameOf(lower, imageURL)
    ensures Clean(name)
  {
    name := TrimSuffix(TrimSuffix(LastPart(imageURL), ".img"), ".qcow2");
    name := Hyphenated(ToLower(lower, name));
    ghost var hyphenated := name;
    NoDoubleIsNotContained(name);
    while Contains(name, "--")
      invariant Collapse(name) == Collapse(hyphenated)
      invariant NoDouble(name) <==> !Contains(name, "--")
      decreases |name|
    {
      ReplaceDoubleShrinks(name);
      ReplaceDoubleCollapses(name);
      name := ReplaceDouble(name);
      NoDoubleIsNotContained(name);
    }
    CollapseIsIdentity(name);
    name := TrimRight(TrimLeft(name));
    if name == "" {
      name := "image";
    }
    NameIsClean(lower, imageURL);
  }
}
