/** Expansion of object-like macros with hidesets (C11 section 6.10.3.4, by Prosser's algorithm). */
module Macro {
  import opened Arith

  /** A token; bol and space are its layout flags. The end-of-file token that closes a list is implicit. */
  datatype Token = Token(name: string, ident: bool, hide: seq<string>, bol: bool, space: bool)

  /** Bodies of the macros in force; all are object-like. */
  type Table = map<string, seq<Token>>

  /** A token without its layout. */
  datatype Bare = Bare(name: string, ident: bool, hide: seq<string>)

  function Strip(t: Token): Bare { Bare(t.name, t.ident, t.hide) }

  function StripAll(s: seq<Token>): (r: seq<Bare>)
    ensures |r| == |s| && forall i :: 0 <= i < |s| ==> r[i] == Strip(s[i])
  { seq(|s|, i requires 0 <= i < |s| => Strip(s[i])) }

  /** The token names a macro it may still be replaced by. */
  predicate Calls(m: Table, t: Bare) { t.ident && t.name in m && t.name !in t.hide }

  /** A macro body with a hideset added to every token. */
  function WithHide(body: seq<Token>, hs: seq<string>): (r: seq<Bare>)
    ensures |r| == |body| && forall i :: 0 <= i < |body| ==> r[i] == Bare(body[i].name, body[i].ident, body[i].hide + hs)
  { seq(|body|, i requires 0 <= i < |body| => Bare(body[i].name, body[i].ident, body[i].hide + hs)) }

  function Replacement(m: Table, t: Bare): seq<Bare>
    requires Calls(m, t)
  { WithHide(m[t.name], t.hide + [t.name]) }

  // ---------- The measure: macro names a token may still meet ----------

  function Names(s: seq<string>): set<string> { set x | x in s }

  function Level(m: Table, t: Bare): nat { |m.Keys - Names(t.hide)| }

  /** Every token of a replacement may meet one name fewer. */
  lemma ReplacementLevel(m: Table, t: Bare, i: nat)
    requires Calls(m, t) && i < |Replacement(m, t)|
    ensures Level(m, Replacement(m, t)[i]) < Level(m, t)
  {
    var r := Replacement(m, t)[i];
    var a, b := m.Keys - Names(r.hide), m.Keys - Names(t.hide);
    assert t.name in r.hide by { assert r.hide[|r.hide| - 1] == t.name; }
    assert forall x :: x in t.hide ==> x in r.hide;
    assert t.name in b && t.name !in a;
    SubsetSize(a, b - {t.name});
    assert |b - {t.name}| == |b| - 1;
  }

  lemma ReplacementLevels(m: Table, t: Bare)
    requires Calls(m, t)
    ensures forall i :: 0 <= i < |Replacement(m, t)| ==> Level(m, Replacement(m, t)[i]) < Level(m, t)
  { forall i | 0 <= i < |Replacement(m, t)| ensures Level(m, Replacement(m, t)[i]) < Level(m, t) { ReplacementLevel(m, t, i); } }

  /** A bound on the length of all bodies. */
  ghost function Longest(m: Table): nat
    decreases |m|
  {
    if m.Keys == {} then 0
    else
      var k :| k in m.Keys;
      var rest := Longest(m - {k});
      if |m[k]| > rest then |m[k]| else rest
  }

  lemma {:induction false} LongestBounds(m: Table, x: string)
    requires x in m
    ensures |m[x]| <= Longest(m)
    decreases |m|
  {
    var k :| k in m.Keys && Longest(m) == (if |m[k]| > Longest(m - {k}) then |m[k]| else Longest(m - {k}));
    if x != k {
      assert (m - {k})[x] == m[x];
      LongestBounds(m - {k}, x);
    }
  }

  /** Weight of a token with u names still to meet, when bodies have at most b tokens. */
  function Weight(b: nat, u: nat): (w: nat)
    ensures w >= 1
  { if u == 0 then 1 else 1 + b * Weight(b, u - 1) }

  lemma {:induction false} WeightGrows(b: nat, u: nat, v: nat)
    requires u <= v && b >= 1
    ensures Weight(b, u) <= Weight(b, v)
    decreases v
  {
    if u < v {
      WeightGrows(b, u, v - 1);
      MulLe(1, b, Weight(b, v - 1));
    }
  }

  ghost function Total(m: Table, s: seq<Bare>): nat {
    if s == [] then 0 else Weight(Longest(m), Level(m, s[0])) + Total(m, s[1..])
  }

  lemma {:induction false} TotalAppend(m: Table, a: seq<Bare>, b: seq<Bare>)
    ensures Total(m, a + b) == Total(m, a) + Total(m, b)
  {
    if a == [] {
      assert a + b == b;
    } else {
      assert (a + b)[1..] == a[1..] + b;
      TotalAppend(m, a[1..], b);
    }
  }

  lemma OneMore(n: nat, w: nat)
    ensures (n + 1) * w == w + n * w
  {}

  lemma {:induction false} TotalAtMost(m: Table, s: seq<Bare>, u: nat)
    requires (forall i :: 0 <= i < |s| ==> Level(m, s[i]) <= u) && (s != [] ==> Longest(m) >= 1)
    ensures Total(m, s) <= |s| * Weight(Longest(m), u)
  {
    hide Weight, Longest, Level;
    if s != [] {
      WeightGrows(Longest(m), Level(m, s[0]), u);
      TotalAtMost(m, s[1..], u);
      OneMore(|s[1..]|, Weight(Longest(m), u));
    }
  }

  /** Replacing a token by its body makes the list lighter. */
  lemma ReplacementLighter(m: Table, t: Bare, rest: seq<Bare>)
    requires Calls(m, t)
    ensures Total(m, Replacement(m, t) + rest) < Total(m, [t] + rest)
  {
    hide Level;
    var body := Replacement(m, t);
    ReplacementLevels(m, t);
    TotalAppend(m, body, rest);
    assert ([t] + rest)[1..] == rest;
    LongestBounds(m, t.name);
    if body != [] {
      assert Level(m, body[0]) < Level(m, t);
      TotalAtMost(m, body, Level(m, t) - 1);
      MulLe(|body|, Longest(m), Weight(Longest(m), Level(m, t) - 1));
    }
  }

  // ---------- What a token stands for ----------

  /** The full expansion of one token: itself, or the expansions of its replacement's tokens. */
  function Full(m: Table, t: Bare): seq<Bare>
    decreases Level(m, t), 0
  {
    if !Calls(m, t) then [t]
    else
      ReplacementLevels(m, t);
      FullAll(m, Replacement(m, t), Level(m, t) - 1)
  }

  /** Token by token; u only bounds the levels. */
  function FullAll(m: Table, s: seq<Bare>, u: int): seq<Bare>
    requires forall i :: 0 <= i < |s| ==> Level(m, s[i]) <= u
    decreases u, |s|
  { if s == [] then [] else Full(m, s[0]) + FullAll(m, s[1..], u) }

  lemma {:induction false} BoundIrrelevant(m: Table, s: seq<Bare>, u: int, v: int)
    requires forall i :: 0 <= i < |s| ==> Level(m, s[i]) <= u
    requires forall i :: 0 <= i < |s| ==> Level(m, s[i]) <= v
    ensures FullAll(m, s, u) == FullAll(m, s, v)
    decreases |s|
  {
    hide Level;
    if s != [] { BoundIrrelevant(m, s[1..], u, v); }
  }

  lemma LevelBounds(m: Table, s: seq<Bare>)
    ensures forall i :: 0 <= i < |s| ==> Level(m, s[i]) <= |m.Keys|
  {}

  /** The expansion of a list. */
  function Expansion(m: Table, s: seq<Bare>): seq<Bare> { LevelBounds(m, s); FullAll(m, s, |m.Keys|) }

  lemma {:induction false} ExpansionAppend(m: Table, a: seq<Bare>, b: seq<Bare>)
    ensures Expansion(m, a + b) == Expansion(m, a) + Expansion(m, b)
    decreases |a|
  {
    hide Level;
    LevelBounds(m, a);
    LevelBounds(m, b);
    LevelBounds(m, a + b);
    if a == [] {
      assert a + b == b;
    } else {
      assert (a + b)[1..] == a[1..] + b;
      LevelBounds(m, a[1..]);
      LevelBounds(m, a[1..] + b);
      ExpansionAppend(m, a[1..], b);
    }
  }

  lemma ExpansionOne(m: Table, t: Bare)
    ensures Expansion(m, [t]) == if Calls(m, t) then Expansion(m, Replacement(m, t)) else [t]
  {
    hide Level;
    LevelBounds(m, [t]);
    assert [t][1..] == [] && FullAll(m, [], |m.Keys|) == [];
    assert Full(m, t) + [] == Full(m, t);
    if Calls(m, t) {
      ReplacementLevels(m, t);
      LevelBounds(m, Replacement(m, t));
      BoundIrrelevant(m, Replacement(m, t), Level(m, t) - 1, |m.Keys|);
    }
  }

  /** In the expansion every token that names a macro carries that name in its own hideset. */
  lemma {:induction false} ExpansionHidden(m: Table, s: seq<Bare>, u: int, i: nat)
    requires (forall k :: 0 <= k < |s| ==> Level(m, s[k]) <= u) && i < |FullAll(m, s, u)|
    ensures !Calls(m, FullAll(m, s, u)[i])
    decreases u, |s|
  {
    hide Level;
    if s != [] {
      var f := Full(m, s[0]);
      if i >= |f| {
        ExpansionHidden(m, s[1..], u, i - |f|);
      } else if Calls(m, s[0]) {
        ReplacementLevels(m, s[0]);
        ExpansionHidden(m, Replacement(m, s[0]), Level(m, s[0]) - 1, i);
      }
    }
  }

  /** So expanding twice is expanding once. */
  lemma {:induction false} NothingToDo(m: Table, s: seq<Bare>)
    requires forall i :: 0 <= i < |s| ==> !Calls(m, s[i])
    ensures Expansion(m, s) == s
  {
    if s != [] {
      assert [s[0]] + s[1..] == s;
      ExpansionAppend(m, [s[0]], s[1..]);
      ExpansionOne(m, s[0]);
      NothingToDo(m, s[1..]);
    }
  }

  lemma Idempotent(m: Table, s: seq<Bare>)
    ensures Expansion(m, Expansion(m, s)) == Expansion(m, s)
  {
    LevelBounds(m, s);
    forall i | 0 <= i < |Expansion(m, s)| ensures !Calls(m, Expansion(m, s)[i]) { ExpansionHidden(m, s, |m.Keys|, i); }
    NothingToDo(m, Expansion(m, s));
  }

  // ---------- Replacing tokens in any order ----------

  /** Token i of s, the name of a macro and not in its own hideset, gives way to the macro's body, each
      token with its own hideset, that of the name, and the name; the other tokens stay. */
  ghost predicate Rewrites(m: Table, s: seq<Bare>, i: nat, s': seq<Bare>) {
    && i < |s| && s[i].ident && s[i].name in m && s[i].name !in s[i].hide
    && var body := m[s[i].name];
       && |s'| == |s| - 1 + |body| && s'[..i] == s[..i] && s'[i + |body|..] == s[i + 1..]
       && forall j :: 0 <= j < |body| ==> s'[i + j] == Bare(body[j].name, body[j].ident, body[j].hide + (s[i].hide + [s[i].name]))
  }

  /** No token can be replaced any more. */
  ghost predicate Normal(m: Table, s: seq<Bare>) { forall i :: 0 <= i < |s| && s[i].ident && s[i].name in m ==> s[i].name in s[i].hide }

  ghost predicate BecomesInOne(m: Table, s: seq<Bare>, s': seq<Bare>) { exists i: nat :: Rewrites(m, s, i, s') }

  ghost predicate Rewriting(m: Table, steps: seq<seq<Bare>>) {
    steps != [] && forall k :: 0 <= k < |steps| - 1 ==> BecomesInOne(m, steps[k], steps[k + 1])
  }

  lemma RewriteParts(m: Table, s: seq<Bare>, i: nat, s': seq<Bare>)
    requires Rewrites(m, s, i, s')
    ensures Calls(m, s[i]) && s == s[..i] + [s[i]] + s[i + 1..] && s' == s[..i] + Replacement(m, s[i]) + s[i + 1..]
  {
    var body := m[s[i].name];
    assert s'[i..i + |body|] == Replacement(m, s[i]);
    assert s' == s'[..i] + s'[i..i + |body|] + s'[i + |body|..];
  }

  /** One replacement anywhere makes the text lighter and keeps its expansion. */
  lemma RewriteKeeps(m: Table, s: seq<Bare>, i: nat, s': seq<Bare>)
    requires Rewrites(m, s, i, s')
    ensures Expansion(m, s') == Expansion(m, s) && Total(m, s') < Total(m, s)
  {
    hide Expansion, Total, Replacement, Calls;
    RewriteParts(m, s, i, s');
    var a, t, b := s[..i], s[i], s[i + 1..];
    var r := Replacement(m, t);
    assert a + [t] + b == a + ([t] + b) && a + r + b == a + (r + b);
    ExpansionAppend(m, a, [t] + b);
    ExpansionAppend(m, [t], b);
    ExpansionAppend(m, a, r + b);
    ExpansionAppend(m, r, b);
    ExpansionOne(m, t);
    TotalAppend(m, a, [t] + b);
    TotalAppend(m, a, r + b);
    ReplacementLighter(m, t, b);
  }

  /** In whatever order tokens are replaced, only so many replacements are possible, and a text in which
      none is possible any more is the expansion. */
  lemma {:induction false} AnyOrder(m: Table, steps: seq<seq<Bare>>)
    requires Rewriting(m, steps)
    ensures |steps| <= Total(m, steps[0]) + 1
    ensures Normal(m, steps[|steps| - 1]) ==> steps[|steps| - 1] == Expansion(m, steps[0])
    decreases |steps|
  {
    hide Expansion, Total, Rewrites;
    if |steps| == 1 {
      if Normal(m, steps[0]) { NothingToDo(m, steps[0]); }
    } else {
      assert BecomesInOne(m, steps[0], steps[1]);
      var i: nat :| Rewrites(m, steps[0], i, steps[1]);
      RewriteKeeps(m, steps[0], i, steps[1]);
      var rest := steps[1..];
      forall k | 0 <= k < |rest| - 1 ensures BecomesInOne(m, rest[k], rest[k + 1]) {
        assert BecomesInOne(m, steps[k + 1], steps[k + 2]);
      }
      AnyOrder(m, rest);
    }
  }

  /** A macro whose body names no macro in force expands to exactly its body. */
  lemma PlainBody(m: Table, t: Bare)
    requires t.ident && t.name in m && t.name !in t.hide
    requires forall j :: 0 <= j < |m[t.name]| ==> !m[t.name][j].ident || m[t.name][j].name !in m
    ensures |Expansion(m, [t])| == |m[t.name]|
    ensures forall j :: 0 <= j < |m[t.name]| ==>
              Expansion(m, [t])[j] == Bare(m[t.name][j].name, m[t.name][j].ident, m[t.name][j].hide + (t.hide + [t.name]))
  {
    hide Expansion;
    ExpansionOne(m, t);
    NothingToDo(m, Replacement(m, t));
  }

  // ---------- The preprocessor ----------

  /** hideset_contains */
  method HidesetContains(hs: seq<string>, s: string) returns (r: bool)
    ensures r <==> s in hs
  {
    var i := 0;
    while i < |hs|
      invariant i <= |hs| && s !in hs[..i]
    {
      if hs[i] == s { return true; }
      i := i + 1;
    }
    r := false;
  }

  /** hideset_union: a copy of the first list, ending in the second. */
  method HidesetUnion(hs1: seq<string>, hs2: seq<string>) returns (r: seq<string>)
    ensures r == hs1 + hs2
  {
    r := [];
    var i := 0;
    while i < |hs1|
      invariant i <= |hs1| && r == hs1[..i]
    {
      r := r + [hs1[i]];
      i := i + 1;
    }
    r := r + hs2;
  }

  /** add_hideset: copies of the tokens with larger hidesets. */
  method AddHideset(toks: seq<Token>, hs: seq<string>) returns (r: seq<Token>)
    ensures StripAll(r) == WithHide(toks, hs)
    ensures |r| == |toks| && forall i :: 0 <= i < |toks| ==> SameLayout(r[i], toks[i])
  {
    r := [];
    var i := 0;
    while i < |toks|
      invariant i <= |toks| && |r| == i
      invariant forall j :: 0 <= j < i ==> r[j] == toks[j].(hide := toks[j].hide + hs)
    {
      var h := HidesetUnion(toks[i].hide, hs);
      r := r + [toks[i].(hide := h)];
      i := i + 1;
    }
  }

  /** append: a copy of the first list, ending in the second. */
  method Append(tok1: seq<Token>, tok2: seq<Token>) returns (r: seq<Token>)
    ensures r == tok1 + tok2
  {
    r := [];
    var i := 0;
    while i < |tok1|
      invariant i <= |tok1| && r == tok1[..i]
    {
      r := r + [tok1[i]];
      i := i + 1;
    }
    r := r + tok2;
  }

  predicate SameLayout(a: Token, b: Token) { a.bol == b.bol && a.space == b.space }

  /** expand_macro on the first token: replaced by its body unless hidden or no macro. The layout of
      the macro name goes to the first token of what follows, of the body or, if the body is empty, of
      the rest. */
  method ExpandMacro(m: Table, toks: seq<Token>) returns (ok: bool, rest: seq<Token>)
    requires toks != []
    ensures ok <==> toks[0].ident && toks[0].name in m && toks[0].name !in toks[0].hide
    ensures !ok ==> rest == toks
    ensures ok ==> Rewrites(m, StripAll(toks), 0, StripAll(rest))
    ensures ok ==> forall i :: 0 < i < |m[toks[0].name]| ==> SameLayout(rest[i], m[toks[0].name][i])
    ensures ok ==> forall i :: |m[toks[0].name]| <= i < |rest| && i > 0 ==> rest[i] == toks[i - |m[toks[0].name]| + 1]
    ensures ok && rest != [] ==> SameLayout(rest[0], toks[0])
  {
    hide Rewrites, Calls, StripAll, WithHide;
    var tok := toks[0];
    var hidden := HidesetContains(tok.hide, tok.name);
    if hidden { return false, toks; }
    if !tok.ident || tok.name !in m { return false, toks; }
    var hs := HidesetUnion(tok.hide, [tok.name]);
    var body := AddHideset(m[tok.name], hs);
    rest := Append(body, toks[1..]);
    ghost var joined := rest;
    if rest != [] { rest := rest[0 := rest[0].(bol := tok.bol, space := tok.space)]; }
    FirstReplaced(m, toks, body, joined, rest);
    ok := true;
  }

  lemma FirstReplaced(m: Table, toks: seq<Token>, body: seq<Token>, joined: seq<Token>, rest: seq<Token>)
    requires toks != [] && Calls(m, Strip(toks[0])) && StripAll(body) == WithHide(m[toks[0].name], toks[0].hide + [toks[0].name])
    requires joined == body + toks[1..] && |rest| == |joined| && forall k :: 0 <= k < |rest| ==> Strip(rest[k]) == Strip(joined[k])
    ensures Rewrites(m, StripAll(toks), 0, StripAll(rest))
  {
    var s, r, n := StripAll(toks), StripAll(rest), |body|;
    assert n == |StripAll(body)|;
    forall j | 0 <= j < n ensures r[j] == StripAll(body)[j] { assert joined[j] == body[j]; }
    assert r[..0] == s[..0] && r[n..] == s[1..];
  }

  /** preprocess2's main loop on text without directives: it ends for every table, recursive or not,
      and gives the expansion of each token in turn, whatever stands around it. */
  method Preprocess(m: Table, toks: seq<Token>) returns (out: seq<Token>)
    ensures StripAll(out) == Expansion(m, StripAll(toks)) && Normal(m, StripAll(out))
  {
    hide Expansion, Level, Replacement;
    var tok := toks;
    out := [];
    while tok != []
      invariant Expansion(m, StripAll(toks)) == StripAll(out) + Expansion(m, StripAll(tok))
      invariant forall i :: 0 <= i < |out| ==> !Calls(m, Strip(out[i]))
      decreases Total(m, StripAll(tok))
    {
      ghost var head, tail := Strip(tok[0]), StripAll(tok)[1..];
      assert StripAll(tok) == [head] + tail;
      ExpansionAppend(m, [head], tail);
      ExpansionOne(m, head);
      var ok, rest := ExpandMacro(m, tok);
      if ok {
        RewriteKeeps(m, StripAll(tok), 0, StripAll(rest));
        tok := rest;
      } else {
        LighterTail(m, head, tail);
        ghost var o := StripAll(out);
        out := out + [tok[0]];
        assert StripAll(out) == o + [head];
        tok := tok[1..];
        assert StripAll(tok) == tail;
      }
    }
    EmptyExpansion(m);
    assert StripAll(tok) == [];
  }

  lemma LighterTail(m: Table, t: Bare, rest: seq<Bare>)
    ensures Total(m, rest) < Total(m, [t] + rest)
  {}

  lemma EmptyExpansion(m: Table)
    ensures Expansion(m, []) == []
  {}
}
