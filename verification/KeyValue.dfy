/** The RRI message text: "key: value" lines. */
module KeyValue {
  import opened Text

  type Fields = map<string, seq<string>>

  /** strings.Split(msg, "\n"). */
  function Split(msg: string): (lines: seq<string>)
    ensures lines != []
  {
    if msg == "" then [""]
    else
      var tail := Split(msg[1..]);
      if msg[0] == '\n' then [""] + tail else [[msg[0]] + tail[0]] + tail[1..]
  }

  type Pair = (string, string)

  /** The key and value of one line, or nothing when it is blank or has no colon. */
  function Entry(line: string): seq<Pair> {
    var t := TrimSpace(line);
    match Index(t, ":")
    case None => []
    case Some(i) => [(ToLower(TrimSpace(t[..i])), TrimSpace(t[i + 1..]))]
  }

  function FlatMap(lines: seq<string>, f: string -> seq<Pair>): seq<Pair> {
    if lines == [] then [] else FlatMap(lines[..|lines| - 1], f) + f(lines[|lines| - 1])
  }

  function Pairs(lines: seq<string>): seq<Pair> {
    FlatMap(lines, Entry)
  }

  /** The values paired with a key, in order. */
  function Select(ps: seq<Pair>, key: string): seq<string> {
    if ps == [] then []
    else
      var last := ps[|ps| - 1];
      Select(ps[..|ps| - 1], key) + if last.0 == key then [last.1] else []
  }

  function Group(ps: seq<Pair>): Fields {
    map k | k in (set p | p in ps :: p.0) :: Select(ps, k)
  }

  function Parse(msg: string): Fields {
    Group(Pairs(Split(msg)))
  }

  function Values(m: Fields, key: string): seq<string> {
    if key in m then m[key] else []
  }

  /** Key-wise concatenation. */
  function Join(a: Fields, b: Fields): Fields {
    map k | k in a.Keys + b.Keys :: Values(a, k) + Values(b, k)
  }

  // ---- Parsing distributes over message concatenation -----------------------

  /** The lines of a text with one more character in front. */
  function Prepend(c: char, lines: seq<string>): (r: seq<string>)
    requires lines != []
    ensures r != []
  {
    if c == '\n' then [""] + lines else [[c] + lines[0]] + lines[1..]
  }

  lemma SplitCons(c: char, msg: string)
    ensures Split([c] + msg) == Prepend(c, Split(msg))
  {
    assert ([c] + msg)[1..] == msg;
  }

  lemma PrependConcat(c: char, lines: seq<string>, more: seq<string>)
    requires lines != []
    ensures Prepend(c, lines + more) == Prepend(c, lines) + more
  {
  }

  lemma {:induction false} SplitConcat(a: string, b: string)
    ensures Split(a + "\n" + b) == Split(a) + Split(b)
  {
    if a == "" {
      SplitCons('\n', b);
      assert a + "\n" + b == ['\n'] + b;
    } else {
      SplitConcat(a[1..], b);
      SplitCons(a[0], a[1..]);
      SplitCons(a[0], a[1..] + "\n" + b);
      PrependConcat(a[0], Split(a[1..]), Split(b));
      assert [a[0]] + a[1..] == a;
      assert a + "\n" + b == [a[0]] + (a[1..] + "\n" + b);
    }
  }

  lemma {:induction false} PairsConcat(a: seq<string>, b: seq<string>, f: string -> seq<Pair>)
    ensures FlatMap(a + b, f) == FlatMap(a, f) + FlatMap(b, f)
  {
    if b == [] {
      assert a + b == a;
    } else {
      PairsConcat(a, b[..|b| - 1], f);
      assert (a + b)[..|a + b| - 1] == a + b[..|b| - 1];
    }
  }

  lemma {:induction false} SelectConcat(a: seq<Pair>, b: seq<Pair>, key: string)
    ensures Select(a + b, key) == Select(a, key) + Select(b, key)
  {
    if b == [] {
      assert a + b == a;
    } else {
      SelectConcat(a, b[..|b| - 1], key);
      assert (a + b)[..|a + b| - 1] == a + b[..|b| - 1];
    }
  }

  lemma {:induction false} SelectEmptyIff(ps: seq<Pair>, key: string)
    ensures Select(ps, key) == [] <==> key !in Group(ps)
  {
    if ps != [] {
      var front := ps[..|ps| - 1];
      SelectEmptyIff(front, key);
      assert ps == front + [ps[|ps| - 1]];
    }
  }

  lemma GroupValues(ps: seq<Pair>, key: string)
    ensures Values(Group(ps), key) == Select(ps, key)
  {
    SelectEmptyIff(ps, key);
  }

  lemma GroupConcat(p: seq<Pair>, q: seq<Pair>)
    ensures Group(p + q) == Join(Group(p), Group(q))
  {
    forall k: string
      ensures k in Group(p + q) <==> k in Group(p) || k in Group(q)
      ensures Select(p + q, k) == Values(Group(p), k) + Values(Group(q), k)
    {
      SelectConcat(p, q, k);
      SelectEmptyIff(p + q, k);
      GroupValues(p, k);
      GroupValues(q, k);
    }
    assert Group(p + q).Keys == Join(Group(p), Group(q)).Keys;
  }

  /** Messages laid end to end parse to the key-wise concatenation of what each parses to. */
  lemma ParseConcat(a: string, b: string)
    ensures Parse(a + "\n" + b) == Join(Parse(a), Parse(b))
  {
    SplitConcat(a, b);
    PairsConcat(Split(a), Split(b), Entry);
    GroupConcat(Pairs(Split(a)), Pairs(Split(b)));
  }

  // ---- Round trip ----------------------------------------------------------

  predicate NormalKey(k: string) {
    ToLower(k) == k && Trimmed(k) && ':' !in k && '\n' !in k
  }

  predicate NormalValue(v: string) {
    Trimmed(v) && '\n' !in v
  }

  predicate Normal(m: Fields) {
    forall k | k in m :: NormalKey(k) && m[k] != [] && forall v | v in m[k] :: NormalValue(v)
  }

  function Line(k: string, v: string): string {
    k + ": " + v
  }

  function RenderValues(k: string, vals: seq<string>): string {
    if vals == [] then "" else RenderValues(k, vals[..|vals| - 1]) + Line(k, vals[|vals| - 1]) + "\n"
  }

  /** The text FormatKV writes when map iteration visits the keys in this order. */
  function Render(order: seq<string>, m: Fields): string
    requires forall k | k in order :: k in m
  {
    if order == [] then ""
    else
      var k := order[|order| - 1];
      Render(order[..|order| - 1], m) + RenderValues(k, m[k])
  }

  ghost predicate Enumerates(order: seq<string>, m: Fields) {
    && (forall k :: k in order <==> k in m)
    && (forall i, j | 0 <= i < j < |order| :: order[i] != order[j])
  }

  lemma {:induction false} SplitHasNoNewline(msg: string)
    ensures forall line | line in Split(msg) :: '\n' !in line
  {
    if msg != "" {
      SplitHasNoNewline(msg[1..]);
      var tail := Split(msg[1..]);
      assert '\n' !in tail[0];
      forall line | line in Split(msg) ensures '\n' !in line {
        if msg[0] != '\n' && line != [msg[0]] + tail[0] {
          assert line in tail[1..];
        }
      }
    }
  }

  lemma {:induction false} SplitOneLine(line: string)
    requires '\n' !in line
    ensures Split(line) == [line]
  {
    if line != "" {
      SplitOneLine(line[1..]);
      assert [line[0]] + line[1..] == line;
    }
  }

  lemma ColonIndex(t: string, i: nat)
    requires i < |t| && t[i] == ':' && ':' !in t[..i]
    ensures Index(t, ":") == Some(i)
  {
    assert OccursAt(t, ":", i);
    var r := Index(t, ":").value;
    assert t[r..r + 1][0] == ':';
    assert forall j | 0 <= j < i :: t[j] == t[..i][j];
  }

  lemma TrimAround(t: string, s: string, i: nat, n: nat)
    requires i <= n <= |s| && t == s[i..n] && t != "" && Trimmed(t)
    requires forall j | 0 <= j < i || n <= j < |s| :: IsSpace(s[j])
    ensures TrimSpace(s) == t
  {
    var i', n' := TrimSpaceWindow(s);
    assert s[i] == t[0] && s[n - 1] == t[|t| - 1];
    assert i' <= i && n <= n';
    var t' := TrimSpace(s);
    assert s[i'] == t'[0] && s[n' - 1] == t'[|t'| - 1];
  }

  /** What trimming leaves of a written line: without a value, the blank behind the colon goes too. */
  function Core(k: string, v: string): string {
    if v == "" then k + ":" else Line(k, v)
  }

  lemma CoreTrims(k: string, v: string)
    requires Trimmed(k) && NormalValue(v)
    ensures TrimSpace(Line(k, v)) == Core(k, v)
  {
    var line, t := Line(k, v), Core(k, v);
    assert line[|k|] == ':' && line[|k| + 1] == ' ';
    assert v != "" ==> line[|line| - 1] == v[|v| - 1];
    TrimAround(t, line, 0, |t|);
  }

  lemma CoreParts(k: string, v: string)
    requires ':' !in k && NormalValue(v)
    ensures var t := Core(k, v);
            Index(t, ":") == Some(|k|) && t[..|k|] == k && TrimSpace(t[|k| + 1..]) == v
  {
    var t := Core(k, v);
    assert t[..|k|] == k && t[|k|] == ':';
    ColonIndex(t, |k|);
    var tail := t[|k| + 1..];
    if v == "" {
      assert tail == "" && TrimSpace("") == "";
    } else {
      assert tail == [' '] + v;
      TrimAround(v, tail, 1, |tail|);
    }
  }

  /** A line made of a trimmed key and value parses back to them, the key in lower case. */
  lemma LineParses(k: string, v: string)
    requires Trimmed(k) && ':' !in k && NormalValue(v)
    ensures Entry(Line(k, v)) == [(ToLower(k), v)]
  {
    CoreTrims(k, v);
    CoreParts(k, v);
    TrimSpaceFixed(k);
  }

  function PairUp(k: string, vals: seq<string>): seq<Pair> {
    seq(|vals|, i requires 0 <= i < |vals| => (k, vals[i]))
  }

  lemma {:induction false} SelectPairUp(k: string, vals: seq<string>, key: string)
    ensures Select(PairUp(k, vals), key) == if key == k then vals else []
  {
    if vals != [] {
      var front := vals[..|vals| - 1];
      SelectPairUp(k, front, key);
      assert PairUp(k, vals)[..|vals| - 1] == PairUp(k, front);
      assert vals == front + [vals[|vals| - 1]];
    }
  }

  /** The pairs of a line that is followed by more text. */
  lemma PairsOfLine(line: string, rest: string)
    requires '\n' !in line
    ensures Pairs(Split(line + "\n" + rest)) == Entry(line) + Pairs(Split(rest))
  {
    SplitConcat(line, rest);
    SplitOneLine(line);
    PairsConcat([line], Split(rest), Entry);
    PairsOfOne(line);
  }

  lemma PairsOfOne(line: string)
    ensures Pairs([line]) == Entry(line)
  {
    assert [line][..0] == [];
    assert Pairs([line]) == Pairs([]) + Entry(line);
  }

  lemma RenderLast(k: string, vals: seq<string>, rest: string)
    requires vals != []
    ensures RenderValues(k, vals) + rest
         == RenderValues(k, vals[..|vals| - 1]) + (Line(k, vals[|vals| - 1]) + "\n" + rest)
  {
  }

  lemma PairsOfNormalLine(k: string, v: string, rest: string)
    requires NormalKey(k) && NormalValue(v)
    ensures Pairs(Split(Line(k, v) + "\n" + rest)) == [(k, v)] + Pairs(Split(rest))
  {
    PairsOfLine(Line(k, v), rest);
    LineParses(k, v);
  }

  lemma {:induction false} PairsOfValues(k: string, vals: seq<string>, rest: string)
    requires NormalKey(k) && forall v | v in vals :: NormalValue(v)
    ensures Pairs(Split(RenderValues(k, vals) + rest)) == PairUp(k, vals) + Pairs(Split(rest))
  {
    if vals == [] {
      assert RenderValues(k, vals) + rest == rest;
    } else {
      var front, v := vals[..|vals| - 1], vals[|vals| - 1];
      var tail := Line(k, v) + "\n" + rest;
      calc {
        Pairs(Split(RenderValues(k, vals) + rest));
        { RenderLast(k, vals, rest); }
        Pairs(Split(RenderValues(k, front) + tail));
        { PairsOfValues(k, front, tail); }
        PairUp(k, front) + Pairs(Split(tail));
        { PairsOfNormalLine(k, v, rest); }
        PairUp(k, front) + ([(k, v)] + Pairs(Split(rest)));
        { assert PairUp(k, vals) == PairUp(k, front) + [(k, v)]; }
        PairUp(k, vals) + Pairs(Split(rest));
      }
    }
  }

  function PairsInOrder(order: seq<string>, m: Fields): seq<Pair>
    requires forall k | k in order :: k in m
  {
    if order == [] then []
    else
      var k := order[|order| - 1];
      PairsInOrder(order[..|order| - 1], m) + PairUp(k, m[k])
  }

  lemma {:induction false} PairsOfRender(order: seq<string>, m: Fields, rest: string)
    requires Normal(m) && forall k | k in order :: k in m
    ensures Pairs(Split(Render(order, m) + rest)) == PairsInOrder(order, m) + Pairs(Split(rest))
  {
    if order == [] {
      assert "" + rest == rest;
    } else {
      var front, k := order[..|order| - 1], order[|order| - 1];
      assert Render(order, m) + rest == Render(front, m) + (RenderValues(k, m[k]) + rest);
      PairsOfRender(front, m, RenderValues(k, m[k]) + rest);
      PairsOfValues(k, m[k], rest);
    }
  }

  lemma {:induction false} SelectInOrder(order: seq<string>, m: Fields, key: string)
    requires forall k | k in order :: k in m
    requires forall i, j | 0 <= i < j < |order| :: order[i] != order[j]
    ensures Select(PairsInOrder(order, m), key) == if key in order then m[key] else []
  {
    if order != [] {
      var front, k := order[..|order| - 1], order[|order| - 1];
      SelectInOrder(front, m, key);
      SelectConcat(PairsInOrder(front, m), PairUp(k, m[k]), key);
      SelectPairUp(k, m[k], key);
      assert order == front + [k];
    }
  }

  lemma LowerKeeps(s: string)
    ensures ToLower(ToLower(s)) == ToLower(s)
    ensures Trimmed(s) ==> Trimmed(ToLower(s))
    ensures ':' !in s ==> ':' !in ToLower(s)
    ensures '\n' !in s ==> '\n' !in ToLower(s)
  {
  }

  lemma WindowKeeps(s: string, i: nat, n: nat, c: char)
    requires i <= n <= |s| && c !in s
    ensures c !in s[i..n]
  {
  }

  lemma EntryNormal(line: string)
    requires '\n' !in line
    ensures forall p | p in Entry(line) :: NormalKey(p.0) && NormalValue(p.1)
  {
    var i, n := TrimSpaceWindow(line);
    WindowKeeps(line, i, n, '\n');
    var t := TrimSpace(line);
    if Index(t, ":").Some? {
      var c := Index(t, ":").value;
      NoColonBefore(t, c);
      WindowKeeps(t, 0, c, '\n');
      WindowKeeps(t, c + 1, |t|, '\n');
      var ki, kn := TrimSpaceWindow(t[..c]);
      var vi, vn := TrimSpaceWindow(t[c + 1..]);
      WindowKeeps(t[..c], ki, kn, '\n');
      WindowKeeps(t[..c], ki, kn, ':');
      WindowKeeps(t[c + 1..], vi, vn, '\n');
      LowerKeeps(TrimSpace(t[..c]));
    }
  }

  lemma NoColonBefore(t: string, c: nat)
    requires Index(t, ":") == Some(c)
    ensures ':' !in t[..c]
  {
    forall j | 0 <= j < c ensures t[j] != ':' {
      assert !OccursAt(t, ":", j);
      assert t[j..j + 1] == [t[j]];
    }
  }

  lemma {:induction false} PairsNormal(lines: seq<string>)
    requires forall line | line in lines :: '\n' !in line
    ensures forall p | p in Pairs(lines) :: NormalKey(p.0) && NormalValue(p.1)
  {
    if lines != [] {
      PairsNormal(lines[..|lines| - 1]);
      EntryNormal(lines[|lines| - 1]);
    }
  }

  lemma {:induction false} SelectFrom(ps: seq<Pair>, key: string)
    ensures forall v | v in Select(ps, key) :: (key, v) in ps
  {
    if ps != [] {
      SelectFrom(ps[..|ps| - 1], key);
    }
  }

  /** Whatever the message, what the parser returns is in normal form. */
  lemma ParseNormal(msg: string)
    ensures Normal(Parse(msg))
  {
    var ps := Pairs(Split(msg));
    SplitHasNoNewline(msg);
    PairsNormal(Split(msg));
    forall k | k in Group(ps)
      ensures NormalKey(k) && Select(ps, k) != [] && forall v | v in Select(ps, k) :: NormalValue(v)
    {
      SelectEmptyIff(ps, k);
      SelectFrom(ps, k);
      assert (k, Select(ps, k)[0]) in ps;
    }
  }

  /** FormatKV followed by ParseKV gives the map back exactly when its keys and values are in normal form,
      in whatever order the keys were written. */
  lemma RoundTripIff(order: seq<string>, m: Fields)
    requires Enumerates(order, m)
    ensures Parse(Render(order, m)) == m <==> Normal(m)
  {
    ParseNormal(Render(order, m));
    if Normal(m) {
      PairsOfWhole(order, m);
      GroupInOrder(order, m);
    }
  }

  lemma PairsOfWhole(order: seq<string>, m: Fields)
    requires Normal(m) && forall k | k in order :: k in m
    ensures Pairs(Split(Render(order, m))) == PairsInOrder(order, m)
  {
    PairsOfRender(order, m, "");
    assert Render(order, m) + "" == Render(order, m);
    PairsOfNothing();
    assert PairsInOrder(order, m) + [] == PairsInOrder(order, m);
  }

  lemma GroupInOrder(order: seq<string>, m: Fields)
    requires Enumerates(order, m) && Normal(m)
    ensures Group(PairsInOrder(order, m)) == m
  {
    var ps := PairsInOrder(order, m);
    forall k: string
      ensures k in Group(ps) <==> k in m
      ensures k in m ==> Select(ps, k) == m[k]
    {
      SelectInOrder(order, m, k);
      SelectEmptyIff(ps, k);
    }
  }

  lemma PairsOfNothing()
    ensures Pairs(Split("")) == []
  {
    assert TrimSpace("") == "";
    assert Entry("") == [];
    assert Pairs([""]) == Pairs([""][..0]) + Entry("");
  }

  /** Parsing is a normalisation: formatting a parsed message and parsing it again changes nothing. */
  lemma ParseFormatParse(msg: string, order: seq<string>)
    requires Enumerates(order, Parse(msg))
    ensures Parse(Render(order, Parse(msg))) == Parse(msg)
  {
    ParseNormal(msg);
    RoundTripIff(order, Parse(msg));
  }

  // ---- The loops -----------------------------------------------------------

  lemma GroupOfOne(k: string, v: string)
    ensures Group([(k, v)]) == map[k := [v]]
  {
    var e := [(k, v)];
    assert e[..0] == [];
    assert Select(e, k) == Select(e[..0], k) + [v] == [v];
  }

  lemma JoinOne(m: Fields, k: string, v: string)
    ensures Join(m, map[k := [v]]) == m[k := Values(m, k) + [v]]
  {
    forall x | x in m.Keys + {k}
      ensures Values(m, x) + Values(map[k := [v]], x) == m[k := Values(m, k) + [v]][x]
    {
      assert Values(m, x) + [] == Values(m, x);
    }
  }

  lemma GroupStep(ps: seq<Pair>, e: seq<Pair>)
    requires |e| <= 1
    ensures e == [] ==> Group(ps + e) == Group(ps)
    ensures e != [] ==> Group(ps + e) == Group(ps)[e[0].0 := Values(Group(ps), e[0].0) + [e[0].1]]
  {
    if e == [] {
      assert ps + e == ps;
    } else {
      GroupConcat(ps, e);
      GroupOfOne(e[0].0, e[0].1);
      assert e == [(e[0].0, e[0].1)];
      JoinOne(Group(ps), e[0].0, e[0].1);
    }
  }

  lemma PairsStep(lines: seq<string>, n: nat)
    requires n < |lines|
    ensures Pairs(lines[..n + 1]) == Pairs(lines[..n]) + Entry(lines[n])
  {
    assert lines[..n + 1][..n] == lines[..n];
  }

  method ParseKV(msg: string) returns (result: Fields)
    ensures result == Parse(msg)
  {
    result := map[];
    var lines := Split(msg);
    for n := 0 to |lines|
      invariant result == Group(Pairs(lines[..n]))
    {
      PairsStep(lines, n);
      GroupStep(Pairs(lines[..n]), Entry(lines[n]));
      var line := TrimSpace(lines[n]);
      if line == "" {
        assert Index("", ":") == None;
        continue;
      }
      var colon := Index(line, ":");
      if colon.None? {
        continue;
      }
      var key := ToLower(TrimSpace(line[..colon.value]));
      var val := TrimSpace(line[colon.value + 1..]);
      result := result[key := Values(result, key) + [val]];
    }
    assert lines[..|lines|] == lines;
  }

  /** Go's map iteration order is unspecified; the loop picks keys one by one. */
  method FormatKV(fields: Fields) returns (text: string, ghost order: seq<string>)
    ensures Enumerates(order, fields) && text == Render(order, fields)
    ensures Parse(text) == fields <==> Normal(fields)
  {
    text, order := "", [];
    var left := fields.Keys;
    while left != {}
      invariant left <= fields.Keys
      invariant forall k :: k in order <==> k in fields && k !in left
      invariant forall i, j | 0 <= i < j < |order| :: order[i] != order[j]
      invariant text == Render(order, fields)
      decreases left
    {
      var k :| k in left;
      left := left - {k};
      var vals := fields[k];
      ghost var before := text;
      for n := 0 to |vals|
        invariant text == before + RenderValues(k, vals[..n])
      {
        assert vals[..n + 1][..n] == vals[..n];
        text := text + (Line(k, vals[n]) + "\n");
        assert text == before + (RenderValues(k, vals[..n]) + Line(k, vals[n]) + "\n");
      }
      assert vals[..|vals|] == vals;
      assert (order + [k])[..|order|] == order;
      order := order + [k];
    }
    RoundTripIff(order, fields);
  }

  /** The first value of a field, or "". */
  function FirstField(fields: Fields, key: string): string {
    var vals := Values(fields, ToLower(key));
    if vals == [] then "" else vals[0]
  }

  /** How one field is written. */
  lemma RenderOne(k: string, v: string)
    ensures Render([k], map[k := [v]]) == k + ": " + v + "\n"
  {
    assert [k][..0] == [] && [v][..0] == [];
    assert RenderValues(k, [v]) == "" + Line(k, v) + "\n";
  }

  // ---- Reading a message line by line --------------------------------------

  lemma NumbersAreNormal(n: nat)
    ensures NormalValue(Decimal(n))
  {
    var s := Decimal(n);
    assert s[0] in s && s[|s| - 1] in s;
  }

  lemma ParseNothing()
    ensures Parse("") == map[]
  {
    PairsOfNothing();
  }

  lemma ParseOneLine(k: string, v: string)
    requires Trimmed(k) && ':' !in k && '\n' !in k && NormalValue(v)
    ensures Parse(Line(k, v)) == map[ToLower(k) := [v]]
  {
    LineParses(k, v);
    SplitOneLine(Line(k, v));
    PairsOfOne(Line(k, v));
    GroupOfOne(ToLower(k), v);
  }

  /** A written line in front of a message adds its value in front of those the message has for that key. */
  lemma ParseLineFirst(k: string, v: string, rest: string)
    requires Trimmed(k) && ':' !in k && '\n' !in k && NormalValue(v)
    ensures Parse(Line(k, v) + "\n" + rest) == Join(map[ToLower(k) := [v]], Parse(rest))
  {
    ParseOneLine(k, v);
    ParseConcat(Line(k, v), rest);
  }

  lemma FirstOfJoin(k: string, v: string, m: Fields, key: string)
    ensures FirstField(Join(map[ToLower(k) := [v]], m), key) == if ToLower(key) == ToLower(k) then v else FirstField(m, key)
  {
    assert [] + Values(m, ToLower(key)) == Values(m, ToLower(key));
  }

  /** The first line that has a key gives the field, whatever case key and query are in. */
  lemma FirstLineWins(k: string, v: string, rest: string, key: string)
    requires Trimmed(k) && ':' !in k && '\n' !in k && NormalValue(v)
    ensures FirstField(Parse(Line(k, v) + "\n" + rest), key) == if ToLower(key) == ToLower(k) then v else FirstField(Parse(rest), key)
    ensures FirstField(Parse(""), key) == ""
  {
    ParseLineFirst(k, v, rest);
    FirstOfJoin(k, v, Parse(rest), key);
    ParseNothing();
  }

  predicate Writable(k: string) {
    Trimmed(k) && ':' !in k && '\n' !in k
  }

  lemma TwoLines(k: string, v: string, l: string, w: string)
    requires Writable(k) && Writable(l) && NormalValue(v) && NormalValue(w) && ToLower(k) != ToLower(l)
    ensures var m := Parse(Line(k, v) + "\n" + (Line(l, w) + "\n" + ""));
            FirstField(m, k) == v && FirstField(m, l) == w
  {
    var rest := Line(l, w) + "\n" + "";
    FirstLineWins(k, v, rest, k);
    FirstLineWins(k, v, rest, l);
    FirstLineWins(l, w, "", l);
  }

  lemma SameField(m: Fields, k: string, l: string)
    requires ToLower(k) == ToLower(l)
    ensures FirstField(m, k) == FirstField(m, l)
  {
  }
}
