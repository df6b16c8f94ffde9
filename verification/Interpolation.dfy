/** ${step.field} references in parameter strings. */
module Interpolation {
  import opened Text

  /** The printed values captured so far: step name, then field name. */
  type Env = map<string, map<string, string>>

  // ---- Regexp.ReplaceAllStringFunc -----------------------------------------

  /** The left-to-right scan: `m` gives the length of the match at the front (0 for none), `f` its replacement. */
  function ReplaceAll(s: string, m: string -> nat, f: string -> string): string
    decreases |s|
  {
    if s == "" then ""
    else if 0 < m(s) <= |s| then f(s[..m(s)]) + ReplaceAll(s[m(s)..], m, f)
    else [s[0]] + ReplaceAll(s[1..], m, f)
  }

  /** One step of the scan at the front of a concatenation. */
  lemma ReplaceFront(front: string, tail: string, m: string -> nat, f: string -> string) returns (n: nat, first: string)
    requires front != "" && m(front + tail) == m(front) <= |front|
    ensures 0 < n <= |front|
    ensures ReplaceAll(front, m, f) == first + ReplaceAll(front[n..], m, f)
    ensures ReplaceAll(front + tail, m, f) == first + ReplaceAll(front[n..] + tail, m, f)
  {
    n := if m(front) == 0 then 1 else m(front);
    first := if m(front) == 0 then [front[0]] else f(front[..n]);
    assert (front + tail)[n..] == front[n..] + tail;
    assert (front + tail)[..n] == front[..n];
  }

  lemma Reassociate(a: string, b: string, c: string)
    ensures a + (b + c) == a + b + c
  {
  }

  /** The tail never changes what matches before it. */
  ghost predicate Undisturbed(before: string, tail: string, m: string -> nat) {
    forall i | 0 <= i < |before| :: m(before[i..] + tail) == m(before[i..]) <= |before| - i
  }

  lemma UndisturbedFront(before: string, tail: string, m: string -> nat)
    requires Undisturbed(before, tail, m) && before != ""
    ensures m(before + tail) == m(before) <= |before|
  {
    assert before[0..] == before;
  }

  lemma UndisturbedSuffix(before: string, tail: string, m: string -> nat, n: nat)
    requires Undisturbed(before, tail, m) && n <= |before|
    ensures Undisturbed(before[n..], tail, m)
  {
    var front := before[n..];
    forall i | 0 <= i < |front| ensures m(front[i..] + tail) == m(front[i..]) <= |front| - i {
      assert front[i..] == before[n + i..];
    }
  }

  /** The scan of a concatenation splits. */
  lemma {:induction false} ReplaceSplits(before: string, tail: string, m: string -> nat, f: string -> string)
    requires Undisturbed(before, tail, m)
    ensures ReplaceAll(before + tail, m, f) == ReplaceAll(before, m, f) + ReplaceAll(tail, m, f)
    decreases |before|
  {
    if before == "" {
      assert before + tail == tail;
    } else {
      UndisturbedFront(before, tail, m);
      var n, first := ReplaceFront(before, tail, m, f);
      UndisturbedSuffix(before, tail, m, n);
      ReplaceSplits(before[n..], tail, m, f);
      Reassociate(first, ReplaceAll(before[n..], m, f), ReplaceAll(tail, m, f));
    }
  }

  lemma {:induction false} ReplaceNothing(s: string, m: string -> nat, f: string -> string)
    requires forall i | 0 <= i < |s| :: m(s[i..]) == 0
    ensures ReplaceAll(s, m, f) == s
    decreases |s|
  {
    if s != "" {
      assert s[0..] == s;
      forall i | 0 <= i < |s[1..]| ensures m(s[1..][i..]) == 0 {
        assert s[1..][i..] == s[i + 1..];
      }
      ReplaceNothing(s[1..], m, f);
    }
  }

  // ---- The reference pattern -----------------------------------------------

  predicate IsWordChar(c: char) {
    'a' <= c <= 'z' || 'A' <= c <= 'Z' || '0' <= c <= '9' || c == '_'
  }

  predicate IsWord(s: string) {
    s != "" && forall i | 0 <= i < |s| :: IsWordChar(s[i])
  }

  function Token(step: string, field: string): string {
    "${" + step + "." + field + "}"
  }

  /** The length of the longest run of word characters that starts at position i. */
  function WordLength(s: string, i: nat): (n: nat)
    requires i <= |s|
    ensures i + n <= |s|
    ensures forall j | i <= j < i + n :: IsWordChar(s[j])
    ensures i + n < |s| ==> !IsWordChar(s[i + n])
    decreases |s| - i
  {
    if i < |s| && IsWordChar(s[i]) then 1 + WordLength(s, i + 1) else 0
  }

  /** The reference the pattern matches at the front of s, if it matches there. */
  function MatchHere(s: string): Option<(string, string)> {
    if |s| < 2 || s[0] != '$' || s[1] != '{' then None
    else
      var dot := 2 + WordLength(s, 2);
      if dot == 2 || dot == |s| || s[dot] != '.' then None
      else
        var close := dot + 1 + WordLength(s, dot + 1);
        if close == dot + 1 || close == |s| || s[close] != '}' then None
        else Some((s[2..dot], s[dot + 1..close]))
  }

  function TokenLength(s: string): nat {
    match MatchHere(s)
    case None => 0
    case Some((step, field)) => |step| + |field| + 4
  }

  function Resolve(step: string, field: string, env: Env): string {
    if step in env && field in env[step] then env[step][field] else Token(step, field)
  }

  /** The replacement callback: it matches the token again to find its parts. */
  function ResolveToken(token: string, env: Env): string {
    match MatchHere(token)
    case None => token
    case Some((step, field)) => Resolve(step, field, env)
  }

  function Interpolate(s: string, env: Env): string {
    ReplaceAll(s, TokenLength, t => ResolveToken(t, env))
  }

  lemma TokenShape(step: string, field: string, i: nat)
    requires i < |step| + |field| + 4
    ensures |Token(step, field)| == |step| + |field| + 4
    ensures Token(step, field)[i] ==
      if i == 0 then '$' else if i == 1 then '{'
      else if i < 2 + |step| then step[i - 2] else if i == 2 + |step| then '.'
      else if i < |step| + |field| + 3 then field[i - |step| - 3] else '}'
  {
  }

  /** The pattern matches at the front exactly when a token of two words stands there. */
  lemma MatchIff(s: string, step: string, field: string)
    ensures MatchHere(s) == Some((step, field)) <==> IsWord(step) && IsWord(field) && HasPrefix(s, Token(step, field))
  {
    var t := Token(step, field);
    assert |t| == |step| + |field| + 4;
    if MatchHere(s) == Some((step, field)) {
      forall i | 0 <= i < |t| ensures s[i] == t[i] {
        TokenShape(step, field, i);
      }
    }
    if IsWord(step) && IsWord(field) && t <= s {
      TokenMatches(s, step, field);
    }
  }

  lemma TokenMatches(s: string, step: string, field: string)
    requires IsWord(step) && IsWord(field) && HasPrefix(s, Token(step, field))
    ensures MatchHere(s) == Some((step, field))
  {
    var dot := 2 + |step|;
    var close := dot + 1 + |field|;
    forall i | 0 <= i <= close
      ensures s[i] == Token(step, field)[i]
      ensures 2 <= i < dot ==> s[i] == step[i - 2]
      ensures dot < i < close ==> s[i] == field[i - dot - 1]
      ensures i == dot ==> s[i] == '.'
      ensures i == close ==> s[i] == '}'
      ensures i == 0 ==> s[i] == '$'
      ensures i == 1 ==> s[i] == '{'
    {
      TokenShape(step, field, i);
    }
    assert s[2..dot] == step && s[dot + 1..close] == field;
    WordEnds(s, 2, |step|);
    WordEnds(s, dot + 1, |field|);
  }

  lemma WordEnds(s: string, i: nat, n: nat)
    requires i + n < |s| && !IsWordChar(s[i + n])
    requires forall j | i <= j < i + n :: IsWordChar(s[j])
    ensures WordLength(s, i) == n
  {
  }

  lemma DollarHeadsToken(step: string, field: string, i: nat)
    requires IsWord(step) && IsWord(field) && 0 < i < |Token(step, field)|
    ensures Token(step, field)[i] != '$'
  {
    TokenShape(step, field, i);
    assert IsWordChar('$') == false;
  }

  /** No match at the front reaches across a '$'. */
  lemma MatchStopsAtDollar(before: string, rest: string)
    requires before != "" && rest != "" && rest[0] == '$'
    ensures MatchHere(before + rest) == MatchHere(before) && TokenLength(before) <= |before|
  {
    var s := before + rest;
    if MatchHere(before).Some? {
      var (p, q) := MatchHere(before).value;
      MatchIff(before, p, q);
      MatchIff(s, p, q);
    } else if MatchHere(s).Some? {
      var (p, q) := MatchHere(s).value;
      MatchIff(s, p, q);
      var n := |Token(p, q)|;
      assert s[|before|] == '$';
      if n > |before| {
        DollarHeadsToken(p, q, |before|);
        assert false;
      }
      assert before[..n] == s[..n];
      MatchIff(before, p, q);
    }
  }

  // ---- What the scan does --------------------------------------------------

  /** Scanning up to a '$' and from it on are independent. */
  lemma SplitsAtDollar(before: string, rest: string, env: Env)
    requires rest != "" && rest[0] == '$'
    ensures Interpolate(before + rest, env) == Interpolate(before, env) + Interpolate(rest, env)
  {
    forall i | 0 <= i < |before|
      ensures TokenLength(before[i..] + rest) == TokenLength(before[i..]) <= |before| - i
    {
      MatchStopsAtDollar(before[i..], rest);
    }
    ReplaceSplits(before, rest, TokenLength, t => ResolveToken(t, env));
  }

  lemma TokenAtFront(step: string, field: string, rest: string, env: Env)
    requires IsWord(step) && IsWord(field)
    ensures Interpolate(Token(step, field) + rest, env) == Resolve(step, field, env) + Interpolate(rest, env)
  {
    var t := Token(step, field);
    var s := t + rest;
    MatchIff(s, step, field);
    MatchIff(t, step, field);
    assert TokenLength(s) == |t| && s[..|t|] == t && s[|t|..] == rest;
  }

  /** Replacement splits around every occurrence of a token, wherever it stands: none is missed and none overlap. */
  lemma ReplacesEveryToken(before: string, step: string, field: string, after: string, env: Env)
    requires IsWord(step) && IsWord(field)
    ensures Interpolate(before + Token(step, field) + after, env)
         == Interpolate(before, env) + Resolve(step, field, env) + Interpolate(after, env)
  {
    var rest := Token(step, field) + after;
    assert before + Token(step, field) + after == before + rest;
    TokenShape(step, field, 0);
    SplitsAtDollar(before, rest, env);
    TokenAtFront(step, field, after, env);
  }

  /** A reference to a captured field gives way to its value, wherever it stands. */
  lemma ResolvedReplaced(before: string, step: string, field: string, after: string, env: Env)
    requires IsWord(step) && IsWord(field) && step in env && field in env[step]
    ensures Interpolate(before + Token(step, field) + after, env)
         == Interpolate(before, env) + env[step][field] + Interpolate(after, env)
  {
    ReplacesEveryToken(before, step, field, after, env);
  }

  /** A reference to a step or field that is not captured stays in place as it is. */
  lemma UnresolvedStays(before: string, step: string, field: string, after: string, env: Env)
    requires IsWord(step) && IsWord(field) && (step !in env || field !in env[step])
    ensures Interpolate(before + Token(step, field) + after, env)
         == Interpolate(before, env) + Token(step, field) + Interpolate(after, env)
  {
    ReplacesEveryToken(before, step, field, after, env);
  }

  ghost predicate TokenFree(s: string) {
    forall i, step, field | 0 <= i <= |s| && IsWord(step) && IsWord(field) :: !OccursAt(s, Token(step, field), i)
  }

  /** Text without a token comes through unchanged. */
  lemma KeepsOtherText(s: string, env: Env)
    requires TokenFree(s)
    ensures Interpolate(s, env) == s
  {
    forall i | 0 <= i < |s| ensures TokenLength(s[i..]) == 0 {
      if MatchHere(s[i..]).Some? {
        var (p, q) := MatchHere(s[i..]).value;
        MatchIff(s[i..], p, q);
        var n := |Token(p, q)|;
        assert s[i..i + n] == s[i..][..n];
        assert OccursAt(s, Token(p, q), i);
        assert false;
      }
    }
    ReplaceNothing(s, TokenLength, t => ResolveToken(t, env));
  }

  // ---- A second pass -------------------------------------------------------

  ghost predicate DollarFreeValues(env: Env) {
    forall step, field | step in env && field in env[step] :: '$' !in env[step][field]
  }

  /** Every '$' of s heads a token. */
  predicate DollarsHeadTokens(s: string) {
    forall i | 0 <= i < |s| && s[i] == '$' :: TokenLength(s[i..]) > 0
  }

  lemma DollarFreeFixed(v: string, rest: string, env: Env)
    requires '$' !in v
    ensures Interpolate(v + rest, env) == v + Interpolate(rest, env)
  {
    forall i | 0 <= i < |v|
      ensures TokenLength(v[i..] + rest) == TokenLength(v[i..]) == 0
    {
      assert (v[i..] + rest)[0] == v[i] && v[i..][0] == v[i];
    }
    ReplaceSplits(v, rest, TokenLength, t => ResolveToken(t, env));
    ReplaceNothing(v, TokenLength, t => ResolveToken(t, env));
  }

  lemma TextAtFront(s: string, env: Env)
    requires s != "" && TokenLength(s) == 0
    ensures Interpolate(s, env) == [s[0]] + Interpolate(s[1..], env)
  {
  }

  // ---- Values that survive a pass, whatever text follows them --------------

  /** A pass leaves v alone, whatever dollar-free text follows. */
  ghost predicate Settled(v: string, env: Env) {
    forall x | '$' !in x :: Interpolate(v + x, env) == v + x
  }

  /** v ends, at its last '$', in the beginning of a token that a pass would replace. */
  ghost predicate DanglesAt(v: string, env: Env, i: nat, step: string, field: string) {
    && i < |v| && v[i] == '$' && '$' !in v[i + 1..] && IsWord(step) && IsWord(field)
    && v[i..] < Token(step, field) && Resolve(step, field, env) != Token(step, field)
  }

  /** A pass leaves v alone, and v does not end in the beginning of a token that would be replaced. */
  ghost predicate SelfContained(v: string, env: Env) {
    Interpolate(v, env) == v && forall i, step, field :: !DanglesAt(v, env, i, step, field)
  }

  lemma DollarFreeAlone(x: string, env: Env)
    requires '$' !in x
    ensures Interpolate(x, env) == x
  {
    DollarFreeFixed(x, "", env);
    assert x + "" == x;
  }

  /** A '$' that heads no match is text. */
  lemma LoneDollar(u: string, env: Env)
    requires u != "" && u[0] == '$' && '$' !in u[1..] && MatchHere(u).None?
    ensures Interpolate(u, env) == u
  {
    TextAtFront(u, env);
    DollarFreeAlone(u[1..], env);
  }

  lemma {:induction false} LastDollar(v: string) returns (i: nat)
    requires '$' in v
    ensures i < |v| && v[i] == '$' && '$' !in v[i + 1..]
  {
    if v[|v| - 1] == '$' {
      i := |v| - 1;
    } else {
      var front := v[..|v| - 1];
      i := LastDollar(front);
      assert v[i + 1..] == front[i + 1..] + [v[|v| - 1]];
    }
  }

  /** No match of a text is a match of the beginning of a token. */
  lemma TokenBeginningNoMatch(u: string, step: string, field: string)
    requires IsWord(step) && IsWord(field) && u < Token(step, field)
    ensures MatchHere(u).None?
  {
    if MatchHere(u).Some? {
      var (p, q) := MatchHere(u).value;
      MatchIff(u, p, q);
      MatchIff(Token(step, field), p, q);
      MatchIff(Token(step, field), step, field);
      assert false;
    }
  }

  lemma TokenThenFixed(p: string, q: string, r: string, env: Env)
    requires IsWord(p) && IsWord(q) && '$' !in r
    ensures Interpolate(Token(p, q) + r, env) == Resolve(p, q, env) + r
  {
    TokenAtFront(p, q, r, env);
    DollarFreeAlone(r, env);
  }

  /** From its last '$' on, a value that holds a whole token there goes on independently of what follows. */
  lemma MatchedEnd(u: string, x: string, env: Env)
    requires u != "" && u[0] == '$' && '$' !in u[1..] && '$' !in x && MatchHere(u).Some?
    ensures Interpolate(u + x, env) == Interpolate(u, env) + x
  {
    var (p, q) := MatchHere(u).value;
    MatchIff(u, p, q);
    var r := u[|Token(p, q)|..];
    assert u == Token(p, q) + r;
    assert r == u[1..][|Token(p, q)| - 1..];
    TokenThenFixed(p, q, r, env);
    TokenThenFixed(p, q, r + x, env);
    Reassociate(Token(p, q), r, x);
    Reassociate(Resolve(p, q, env), r, x);
  }

  lemma ShorterThanToken(u: string, x: string, t: string)
    requires HasPrefix(u + x, t) && !HasPrefix(u, t)
    ensures u < t
  {
    assert u == (u + x)[..|u|] && t == (u + x)[..|t|];
  }

  /** What follows completes a token that stays. */
  lemma CompletedEnd(u: string, x: string, env: Env, p: string, q: string)
    requires u != "" && '$' !in u[1..] && '$' !in x && IsWord(p) && IsWord(q)
    requires HasPrefix(u + x, Token(p, q)) && Resolve(p, q, env) == Token(p, q)
    ensures Interpolate(u + x, env) == u + x
  {
    var s, t := u + x, Token(p, q);
    var r := s[|t|..];
    assert s == t + r;
    assert s[1..] == u[1..] + x && r == s[1..][|t| - 1..];
    TokenAtFront(p, q, r, env);
    DollarFreeAlone(r, env);
  }

  /** One that holds none stays as it is, unless what follows completes a token that is replaced. */
  lemma UnmatchedEnd(u: string, x: string, env: Env)
    requires u != "" && u[0] == '$' && '$' !in u[1..] && '$' !in x && MatchHere(u).None?
    requires forall p, q | IsWord(p) && IsWord(q) && u < Token(p, q) :: Resolve(p, q, env) == Token(p, q)
    ensures Interpolate(u + x, env) == u + x
  {
    if MatchHere(u + x).None? {
      assert (u + x)[1..] == u[1..] + x;
      LoneDollar(u + x, env);
    } else {
      var (p, q) := MatchHere(u + x).value;
      MatchIff(u + x, p, q);
      MatchIff(u, p, q);
      ShorterThanToken(u, x, Token(p, q));
      CompletedEnd(u, x, env, p, q);
    }
  }

  lemma HeadThenMatched(head: string, u: string, x: string, env: Env)
    requires u != "" && u[0] == '$' && '$' !in u[1..] && '$' !in x && MatchHere(u).Some?
    requires Interpolate(head + u, env) == head + u
    ensures Interpolate(head + (u + x), env) == head + (u + x)
  {
    SplitsAtDollar(head, u, env);
    SplitsAtDollar(head, u + x, env);
    MatchedEnd(u, x, env);
    Reassociate(Interpolate(head, env), Interpolate(u, env), x);
    Reassociate(head, u, x);
  }

  lemma HeadThenUnmatched(head: string, u: string, x: string, env: Env)
    requires u != "" && u[0] == '$' && '$' !in u[1..] && '$' !in x && MatchHere(u).None?
    requires Interpolate(head + u, env) == head + u
    requires forall p, q | IsWord(p) && IsWord(q) && u < Token(p, q) :: Resolve(p, q, env) == Token(p, q)
    ensures Interpolate(head + (u + x), env) == head + (u + x)
  {
    SplitsAtDollar(head, u, env);
    SplitsAtDollar(head, u + x, env);
    LoneDollar(u, env);
    SameEnd(Interpolate(head, env), head, u);
    UnmatchedEnd(u, x, env);
  }

  lemma SelfContainedSettles(v: string, env: Env, x: string)
    requires SelfContained(v, env) && '$' !in x
    ensures Interpolate(v + x, env) == v + x
  {
    if '$' !in v {
      DollarFreeAlone(v + x, env);
    } else {
      var i := LastDollar(v);
      var head, u := v[..i], v[i..];
      assert v == head + u && u[1..] == v[i + 1..];
      Reassociate(head, u, x);
      if MatchHere(u).Some? {
        HeadThenMatched(head, u, x, env);
      } else {
        forall p, q | IsWord(p) && IsWord(q) && u < Token(p, q) ensures Resolve(p, q, env) == Token(p, q) {
          assert !DanglesAt(v, env, i, p, q);
        }
        HeadThenUnmatched(head, u, x, env);
      }
    }
  }

  lemma SameEnd(a: string, b: string, u: string)
    requires a + u == b + u
    ensures a == b
  {
    assert a == (a + u)[..|a|];
    assert b == (b + u)[..|b|];
  }

  lemma SameStart(a: string, b: string, c: string)
    requires a + b == a + c
    ensures b == c
  {
    assert b == (a + b)[|a|..];
    assert c == (a + c)[|a|..];
  }

  lemma HeadStays(head: string, u: string, env: Env)
    requires u != "" && u[0] == '$' && '$' !in u[1..] && MatchHere(u).None? && Interpolate(head + u, env) == head + u
    ensures Interpolate(head, env) == head
  {
    LoneDollar(u, env);
    SplitsAtDollar(head, u, env);
    SameEnd(Interpolate(head, env), head, u);
  }

  lemma TokenStays(head: string, env: Env, step: string, field: string)
    requires IsWord(step) && IsWord(field)
    requires Interpolate(head, env) == head && Interpolate(head + Token(step, field), env) == head + Token(step, field)
    ensures Resolve(step, field, env) == Token(step, field)
  {
    TokenShape(step, field, 0);
    SplitsAtDollar(head, Token(step, field), env);
    TokenAlone(step, field, env);
    SameStart(head, Resolve(step, field, env), Token(step, field));
  }

  lemma TokenTail(step: string, field: string, n: nat)
    requires IsWord(step) && IsWord(field) && 0 < n <= |Token(step, field)|
    ensures '$' !in Token(step, field)[n..]
  {
    forall k | n <= k < |Token(step, field)| ensures Token(step, field)[k] != '$' {
      DollarHeadsToken(step, field, k);
    }
  }

  /** A settled value that ends in the beginning of a token can only do so if that token stays. */
  lemma SettledCompletes(head: string, u: string, env: Env, step: string, field: string)
    requires Settled(head + u, env) && IsWord(step) && IsWord(field)
    requires u != "" && u[0] == '$' && '$' !in u[1..] && u < Token(step, field)
    ensures Resolve(step, field, env) == Token(step, field)
  {
    var x := Token(step, field)[|u|..];
    assert u + x == Token(step, field) && head + u + "" == head + u && '$' !in "";
    TokenTail(step, field, |u|);
    TokenBeginningNoMatch(u, step, field);
    HeadStays(head, u, env);
    Reassociate(head, u, x);
    TokenStays(head, env, step, field);
  }

  lemma SettledDoesNotDangle(v: string, env: Env, i: nat, step: string, field: string)
    requires Settled(v, env)
    ensures !DanglesAt(v, env, i, step, field)
  {
    if DanglesAt(v, env, i, step, field) {
      var head, u := v[..i], v[i..];
      assert v == head + u && u[1..] == v[i + 1..];
      SettledCompletes(head, u, env, step, field);
      assert false;
    }
  }

  lemma SettledIff(v: string, env: Env)
    ensures Settled(v, env) <==> SelfContained(v, env)
  {
    if Settled(v, env) {
      assert v + "" == v && '$' !in "";
      forall i, step, field ensures !DanglesAt(v, env, i, step, field) {
        SettledDoesNotDangle(v, env, i, step, field);
      }
    }
    if SelfContained(v, env) {
      forall x | '$' !in x ensures Interpolate(v + x, env) == v + x {
        SelfContainedSettles(v, env, x);
      }
    }
  }

  lemma {:induction false} FirstDollar(w: string) returns (y: string, z: string)
    ensures w == y + z && '$' !in y && (z != "" ==> z[0] == '$')
  {
    if w == "" || w[0] == '$' {
      y, z := "", w;
    } else {
      y, z := FirstDollar(w[1..]);
      y := [w[0]] + y;
    }
  }

  lemma SettledThenDollar(v: string, y: string, z: string, env: Env)
    requires Settled(v, env) && '$' !in y && z != "" && z[0] == '$' && Interpolate(y + z, env) == y + z
    ensures Interpolate(v + (y + z), env) == v + (y + z)
  {
    Reassociate(v, y, z);
    SplitsAtDollar(v + y, z, env);
    DollarFreeFixed(y, z, env);
    SameStart(y, Interpolate(z, env), z);
  }

  /** A settled value in front of text that a pass leaves alone is left alone with it. */
  lemma SettledThen(v: string, w: string, env: Env)
    requires Settled(v, env) && Interpolate(w, env) == w
    ensures Interpolate(v + w, env) == v + w
  {
    var y, z := FirstDollar(w);
    if z != "" {
      SettledThenDollar(v, y, z, env);
    } else {
      assert w == y;
    }
  }

  // ---- When the second pass is the identity --------------------------------

  /** Every captured value that a token can name is self-contained. */
  ghost predicate Stable(env: Env) {
    forall step, field | IsWord(step) && IsWord(field) && step in env && field in env[step] ::
      SelfContained(env[step][field], env)
  }

  lemma {:induction false} StableSecondPass(s: string, env: Env)
    requires DollarsHeadTokens(s) && Stable(env)
    ensures Interpolate(Interpolate(s, env), env) == Interpolate(s, env)
    decreases |s|
  {
    if s == "" {
    } else if MatchHere(s).None? {
      DollarsOfSuffix(s, 0);
      DollarsOfSuffix(s, 1);
      StableSecondPass(s[1..], env);
      CharacterFirst(s, env);
    } else {
      var (p, q) := MatchHere(s).value;
      MatchIff(s, p, q);
      var n := |Token(p, q)|;
      assert s == Token(p, q) + s[n..];
      DollarsOfSuffix(s, n);
      StableSecondPass(s[n..], env);
      TokenFirst(p, q, s[n..], env);
    }
  }

  lemma CharacterFirst(s: string, env: Env)
    requires s != "" && s[0] != '$' && MatchHere(s).None?
    requires var w := Interpolate(s[1..], env); Interpolate(w, env) == w
    ensures var w := Interpolate(s, env); Interpolate(w, env) == w
  {
    TextAtFront(s, env);
    DollarFreeFixed([s[0]], Interpolate(s[1..], env), env);
  }

  lemma TokenFirst(p: string, q: string, rest: string, env: Env)
    requires IsWord(p) && IsWord(q) && Stable(env)
    requires var w := Interpolate(rest, env); Interpolate(w, env) == w
    ensures var w := Interpolate(Token(p, q) + rest, env); Interpolate(w, env) == w
  {
    var w := Interpolate(rest, env);
    TokenAtFront(p, q, rest, env);
    if p in env && q in env[p] {
      SettledIff(env[p][q], env);
      SettledThen(env[p][q], w, env);
    } else {
      TokenAtFront(p, q, w, env);
    }
  }

  /** A token followed by dollar-free text. */
  lemma TokenThenText(p: string, q: string, x: string)
    requires IsWord(p) && IsWord(q) && '$' !in x
    ensures DollarsHeadTokens(Token(p, q) + x)
  {
    var t := Token(p, q);
    var s := t + x;
    forall k | 0 < k < |s| ensures s[k] != '$' {
      if k < |t| {
        DollarHeadsToken(p, q, k);
      } else {
        assert s[k] == x[k - |t|];
      }
    }
    forall i | 0 <= i < |s| && s[i] == '$' ensures TokenLength(s[i..]) > 0 {
      assert s[0..] == s;
      MatchIff(s, p, q);
    }
  }

  lemma ValueSettles(p: string, q: string, env: Env)
    requires forall s | DollarsHeadTokens(s) :: Interpolate(Interpolate(s, env), env) == Interpolate(s, env)
    requires IsWord(p) && IsWord(q) && p in env && q in env[p]
    ensures Settled(env[p][q], env)
  {
    forall x | '$' !in x ensures Interpolate(env[p][q] + x, env) == env[p][q] + x {
      TokenThenText(p, q, x);
      TokenAtFront(p, q, x, env);
      DollarFreeAlone(x, env);
    }
  }

  /** Interpolating twice is interpolating once, for every text whose dollar signs all head tokens, exactly when each
      captured value survives a pass on its own and none ends in the beginning of a token that would be replaced. */
  lemma SecondPassIff(env: Env)
    ensures (forall s | DollarsHeadTokens(s) :: Interpolate(Interpolate(s, env), env) == Interpolate(s, env)) <==> Stable(env)
  {
    if Stable(env) {
      forall s | DollarsHeadTokens(s) ensures Interpolate(Interpolate(s, env), env) == Interpolate(s, env) {
        StableSecondPass(s, env);
      }
    }
    if forall s | DollarsHeadTokens(s) :: Interpolate(Interpolate(s, env), env) == Interpolate(s, env) {
      forall step, field | IsWord(step) && IsWord(field) && step in env && field in env[step]
        ensures SelfContained(env[step][field], env)
      {
        ValueSettles(step, field, env);
        SettledIff(env[step][field], env);
      }
    }
  }

  lemma DollarFreeSelfContained(v: string, env: Env)
    requires '$' !in v
    ensures SelfContained(v, env)
  {
    DollarFreeAlone(v, env);
  }

  /** In particular when '$' occurs neither outside tokens nor in the captured values. */
  lemma SecondPassIsIdentity(s: string, env: Env)
    requires DollarsHeadTokens(s) && DollarFreeValues(env)
    ensures Interpolate(Interpolate(s, env), env) == Interpolate(s, env)
  {
    forall step, field | IsWord(step) && IsWord(field) && step in env && field in env[step]
      ensures SelfContained(env[step][field], env)
    {
      DollarFreeSelfContained(env[step][field], env);
    }
    StableSecondPass(s, env);
  }

  lemma DollarsOfSuffix(s: string, n: nat)
    requires n <= |s| && DollarsHeadTokens(s)
    ensures DollarsHeadTokens(s[n..])
    ensures n < |s| && s[n] == '$' ==> TokenLength(s[n..]) > 0
    ensures n == 0 ==> s[n..] == s
  {
    forall i | 0 <= i < |s| - n && s[n..][i] == '$' ensures TokenLength(s[n..][i..]) > 0 {
      assert s[n..][i..] == s[n + i..];
    }
  }

  lemma TokenAlone(step: string, field: string, env: Env)
    requires IsWord(step) && IsWord(field)
    ensures Interpolate(Token(step, field), env) == Resolve(step, field, env)
    ensures step in env && field in env[step] ==> Interpolate(Token(step, field), env) == env[step][field]
    ensures step !in env || field !in env[step] ==> Interpolate(Token(step, field), env) == Token(step, field)
  {
    TokenAtFront(step, field, "", env);
    assert Token(step, field) + "" == Token(step, field);
  }

  lemma ValueCompletesToken(env: Env)
    requires env == map["a" := map["b" := Token("c", "d")], "c" := map["d" := "x"]]
    ensures Interpolate(Token("a", "b"), env) == Token("c", "d")
    ensures Interpolate(Token("c", "d"), env) == "x"
  {
    TokenAlone("a", "b", env);
    TokenAlone("c", "d", env);
  }

  lemma StrayDollarStays(step: string, field: string, env: Env)
    requires IsWord(step) && IsWord(field)
    ensures Interpolate("$" + Token(step, field), env) == "$" + Resolve(step, field, env)
  {
    TokenShape(step, field, 0);
    SplitsAtDollar("$", Token(step, field), env);
    TokenAlone(step, field, env);
    LoneDollar("$", env);
  }

  lemma DollarThenTail(step: string, field: string)
    ensures "$" + Token(step, field)[1..] == Token(step, field)
  {
    TokenShape(step, field, 0);
    assert Token(step, field) == Token(step, field)[..1] + Token(step, field)[1..];
    assert Token(step, field)[..1] == "$";
  }

  lemma StrayDollarStartsToken(env: Env)
    requires env == map["a" := map["b" := Token("c", "d")[1..]], "c" := map["d" := "x"]]
    ensures Interpolate("$" + Token("a", "b"), env) == Token("c", "d")
    ensures Interpolate(Token("c", "d"), env) == "x"
  {
    StrayDollarStays("a", "b", env);
    DollarThenTail("c", "d");
    TokenAlone("c", "d", env);
  }

  lemma ABHasOneDollar()
    ensures DollarsHeadTokens(Token("a", "b"))
  {
    var ab := Token("a", "b");
    forall i | 0 <= i < |ab| && ab[i] == '$' ensures TokenLength(ab[i..]) > 0 {
      if i > 0 {
        DollarHeadsToken("a", "b", i);
        assert false;
      }
      assert ab[0..] == ab;
      MatchIff(ab, "a", "b");
    }
  }

  lemma TailHasNoDollar()
    ensures '$' !in Token("c", "d")[1..]
  {
    forall i | 0 < i < |Token("c", "d")| ensures Token("c", "d")[i] != '$' {
      DollarHeadsToken("c", "d", i);
    }
  }

  ghost predicate SecondPassDiffers(s: string, env: Env) {
    Interpolate(Interpolate(s, env), env) != Interpolate(s, env)
  }

  /** The captured values must be free of '$': a value may itself be a token. */
  lemma ValueConditionNeeded() returns (s: string, env: Env)
    ensures DollarsHeadTokens(s) && SecondPassDiffers(s, env)
  {
    s, env := Token("a", "b"), map["a" := map["b" := Token("c", "d")], "c" := map["d" := "x"]];
    ABHasOneDollar();
    ValueCompletesToken(env);
    assert |Token("c", "d")| != |"x"|;
  }

  /** And so must the text around the tokens: a stray '$' may be completed by a value. */
  lemma TextConditionNeeded() returns (s: string, env: Env)
    ensures DollarFreeValues(env) && SecondPassDiffers(s, env)
  {
    var v := Token("c", "d")[1..];
    s, env := "$" + Token("a", "b"), map["a" := map["b" := v], "c" := map["d" := "x"]];
    TailHasNoDollar();
    StrayDollarStartsToken(env);
    assert |Token("c", "d")| != |"x"|;
  }
}
