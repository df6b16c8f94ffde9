/** The mock's domain:check reply: names read out of the request text and written into the response text. */
module DomainCheck {
  import opened Text
  import opened Markup

  const CLOSE := "</domain:name>"

  lemma CloseShape()
    ensures IsTag(CLOSE) && |CLOSE| == 14 && CLOSE[13] == '>' && CLOSE[0] == '<'
    ensures forall i | 0 <= i < 13 :: CLOSE[i] != '>'
  {
  }

  /** The trimmed names in document order, blanks dropped, repeats kept. */
  function RawNames(rest: string): seq<string>
    decreases |rest|
  {
    match Index(rest, CLOSE)
    case None => []
    case Some(end) =>
      NameBefore(rest[..end]) + RawNames(rest[end + |CLOSE|..])
  }

  /** The text after the last '>' of a segment, if there is one and it is not blank. */
  function NameBefore(segment: string): seq<string> {
    match LastIndex(segment, '>')
    case None => []
    case Some(open) =>
      var name := TrimSpace(segment[open + 1..]);
      if name == "" then [] else [name]
  }

  /** Keeps the first of equal elements. */
  function Dedup(names: seq<string>): seq<string> {
    if names == [] then []
    else
      var front := Dedup(names[..|names| - 1]);
      var last := names[|names| - 1];
      if last in front then front else front + [last]
  }

  function Extract(xml: string): seq<string> {
    Dedup(RawNames(xml))
  }

  lemma DedupAppend(raw: seq<string>, name: string)
    ensures Dedup(raw + [name]) == if name in Dedup(raw) then Dedup(raw) else Dedup(raw) + [name]
  {
    assert (raw + [name])[..|raw|] == raw;
  }

  lemma RawNamesTail(rest: string, end: nat)
    requires Index(rest, CLOSE) == Some(end)
    ensures RawNames(rest) == NameBefore(rest[..end]) + RawNames(rest[end + |CLOSE|..])
  {
  }

  lemma Regroup(raw: seq<string>, found: seq<string>, tail: seq<string>)
    ensures raw + (found + tail) == raw + found + tail
    ensures found == [] ==> raw + found + tail == raw + tail
  {
  }

  ghost predicate Lists(names: seq<string>, seen: set<string>) {
    forall n :: n in seen <==> n in names
  }

  method ExtractDomainNames(xml: string) returns (names: seq<string>)
    ensures names == Extract(xml)
  {
    names := [];
    var seen: set<string> := {};
    var rest := xml;
    ghost var raw: seq<string> := [];
    while true
      invariant raw + RawNames(rest) == RawNames(xml)
      invariant names == Dedup(raw)
      invariant Lists(names, seen)
      decreases |rest|
    {
      var endIdx := Index(rest, CLOSE);
      if endIdx.None? {
        break;
      }
      ghost var found := NameBefore(rest[..endIdx.value]);
      ghost var tail := RawNames(rest[endIdx.value + |CLOSE|..]);
      RawNamesTail(rest, endIdx.value);
      Regroup(raw, found, tail);
      var segment := rest[..endIdx.value];
      var openIdx := LastIndex(segment, '>');
      rest := rest[endIdx.value + |CLOSE|..];
      if openIdx.None? {
        continue;
      }
      var name := TrimSpace(segment[openIdx.value + 1..]);
      if name == "" {
        continue;
      }
      DedupAppend(raw, name);
      raw := raw + [name];
      if name !in seen {
        ListsMore(names, seen, name);
        names := names + [name];
        seen := seen + {name};
      }
    }
    assert raw + [] == raw;
  }

  lemma ListsMore(names: seq<string>, seen: set<string>, name: string)
    requires Lists(names, seen)
    ensures Lists(names + [name], seen + {name})
  {
  }

  // ---- What is extracted ---------------------------------------------------

  /** Dedup keeps the same elements, once each, in the order of their first occurrences. */
  lemma {:induction false} DedupMeaning(names: seq<string>)
    ensures forall n :: n in Dedup(names) <==> n in names
    ensures forall i, j | 0 <= i < j < |Dedup(names)| :: Dedup(names)[i] != Dedup(names)[j]
    ensures forall i, j | 0 <= i < j < |Dedup(names)| :: First(names, Dedup(names)[i]) < First(names, Dedup(names)[j])
  {
    if names != [] {
      var front, last := names[..|names| - 1], names[|names| - 1];
      DedupMeaning(front);
      var d := Dedup(names);
      assert names == front + [last];
      forall n | n in front ensures First(names, n) == First(front, n) < |front| {
        FirstOfPrefix(front, last, n);
      }
      if last !in front {
        FirstOfNew(front, last);
      }
    }
  }

  /** The index of the first occurrence, or the length. */
  function First(names: seq<string>, n: string): nat {
    if names == [] || names[0] == n then 0 else 1 + First(names[1..], n)
  }

  lemma {:induction false} FirstOfPrefix(front: seq<string>, last: string, n: string)
    requires n in front
    ensures First(front + [last], n) == First(front, n) < |front|
  {
    assert (front + [last])[0] == front[0];
    if front[0] != n {
      assert (front + [last])[1..] == front[1..] + [last];
      FirstOfPrefix(front[1..], last, n);
    }
  }

  lemma {:induction false} FirstOfNew(front: seq<string>, last: string)
    requires last !in front
    ensures First(front + [last], last) == |front|
  {
    if front != [] {
      assert (front + [last])[0] == front[0];
      assert (front + [last])[1..] == front[1..] + [last];
      FirstOfNew(front[1..], last);
    }
  }

  predicate GoodName(n: string) {
    n != "" && Trimmed(n) && '>' !in n
  }

  lemma NameBeforeGood(segment: string)
    ensures forall n | n in NameBefore(segment) :: GoodName(n)
  {
    var open := LastIndex(segment, '>');
    if open.Some? {
      var i, n := TrimSpaceWindow(segment[open.value + 1..]);
    }
  }

  lemma {:induction false} RawNamesGood(rest: string)
    ensures forall n | n in RawNames(rest) :: GoodName(n)
    decreases |rest|
  {
    var end := Index(rest, CLOSE);
    if end.Some? {
      RawNamesGood(rest[end.value + |CLOSE|..]);
      NameBeforeGood(rest[..end.value]);
      RawNamesTail(rest, end.value);
    }
  }

  /** Every extracted list is trimmed, non-blank, free of '>' and of repeats. */
  predicate GoodNames(names: seq<string>) {
    && (forall n | n in names :: GoodName(n))
    && (forall i, j | 0 <= i < j < |names| :: names[i] != names[j])
  }

  lemma ExtractGood(xml: string)
    ensures GoodNames(Extract(xml))
  {
    RawNamesGood(xml);
    DedupMeaning(RawNames(xml));
  }

  /** A '>' at i and the closing tag at j with no '>' between, where the first is not itself the end of a closing tag. */
  ghost predicate Between(xml: string, i: nat, j: nat) {
    && i < j <= |xml| && xml[i] == '>' && (forall k | i < k < j :: xml[k] != '>') && OccursAt(xml, CLOSE, j)
    && (i >= 13 ==> !OccursAt(xml, CLOSE, i - 13))
  }

  /** `name` is the non-blank text, trimmed, of such a place. */
  ghost predicate Place(xml: string, name: string, i: nat, j: nat) {
    Between(xml, i, j) && name == TrimSpace(xml[i + 1..j]) && name != ""
  }

  ghost predicate Stands(xml: string, name: string) {
    exists i: nat, j: nat :: Place(xml, name, i, j)
  }

  lemma CloseChars(s: string, i: nat)
    requires OccursAt(s, CLOSE, i)
    ensures s[i + 13] == '>' && forall k | i <= k < i + 13 :: s[k] != '>'
  {
    CloseShape();
    var t := s[i..i + 14];
    assert t[13] == s[i + 13];
    forall k | i <= k < i + 13 ensures s[k] != '>' {
      assert s[k] == t[k - i] == CLOSE[k - i];
    }
  }

  lemma BetweenShift(xml: string, n: nat, i: nat, j: nat)
    requires 14 <= n <= |xml| && OccursAt(xml, CLOSE, n - 14)
    ensures Between(xml[n..], i, j) <==> Between(xml, n + i, n + j)
    ensures i < j <= |xml| - n ==> xml[n..][i + 1..j] == xml[n + i + 1..n + j]
  {
    var rest := xml[n..];
    OccursInSuffix(xml, CLOSE, n, j);
    CloseShape();
    CloseChars(xml, n - 14);
    if i < j <= |rest| {
      assert rest[i] == xml[n + i];
      forall k | i < k < j ensures rest[k] == xml[n + k] {}
      forall k | n + i < k < n + j ensures xml[k] == rest[k - n] {}
      if i >= 13 {
        OccursInSuffix(xml, CLOSE, n, i - 13);
      } else {
        Mismatch(xml, CLOSE, n + i - 13, 12 - i);
      }
    }
  }

  lemma PlaceShift(xml: string, name: string, n: nat, i: nat, j: nat)
    requires 14 <= n <= |xml| && OccursAt(xml, CLOSE, n - 14)
    ensures Place(xml[n..], name, i, j) <==> Place(xml, name, n + i, n + j)
  {
    BetweenShift(xml, n, i, j);
  }

  lemma BetweenLater(xml: string, end: nat, i: nat, j: nat)
    requires Between(xml, i, j) && OccursAt(xml, CLOSE, end) && end < j
    ensures i >= end + 14
  {
    CloseChars(xml, end);
    CloseChars(xml, j);
  }

  lemma FirstBetween(xml: string, end: nat)
    requires Index(xml, CLOSE) == Some(end)
    ensures var open := LastIndex(xml[..end], '>');
            forall i: nat :: Between(xml, i, end) <==> open == Some(i)
  {
    var segment := xml[..end];
    var open := LastIndex(segment, '>');
    forall i: nat ensures Between(xml, i, end) <==> open == Some(i) {
      forall k | 0 <= k < end ensures xml[k] == segment[k] {}
      if i < end {
        assert segment[i] in segment;
        assert i >= 13 ==> !OccursAt(xml, CLOSE, i - 13);
      }
    }
  }

  lemma FirstNameIff(xml: string, name: string, end: nat)
    requires Index(xml, CLOSE) == Some(end)
    ensures name in NameBefore(xml[..end]) <==>
            exists i: nat :: Place(xml, name, i, end)
  {
    FirstBetween(xml, end);
    var open := LastIndex(xml[..end], '>');
    if open.Some? {
      assert xml[..end][open.value + 1..] == xml[open.value + 1..end];
      assert Between(xml, open.value, end);
      assert name in NameBefore(xml[..end]) ==> Place(xml, name, open.value, end);
    }
  }

  /** The scan picks the name up, now or later. */
  ghost predicate Reads(rest: string, name: string)
    decreases |rest|
  {
    match Index(rest, CLOSE)
    case None => false
    case Some(end) => ReadsFirst(rest, name, end) || Reads(rest[end + |CLOSE|..], name)
  }

  ghost predicate ReadsFirst(rest: string, name: string, end: nat) {
    end <= |rest| && name in NameBefore(rest[..end])
  }

  lemma InConcat(a: seq<string>, b: seq<string>, name: string)
    ensures name in a + b <==> name in a || name in b
  {
  }

  lemma {:induction false} RawNamesRead(rest: string, name: string)
    ensures name in RawNames(rest) <==> Reads(rest, name)
    decreases |rest|
  {
    var first := Index(rest, CLOSE);
    if first.Some? {
      var tail := rest[first.value + |CLOSE|..];
      RawNamesRead(tail, name);
      InConcat(NameBefore(rest[..first.value]), RawNames(tail), name);
    }
  }

  lemma LaterNameStands(xml: string, name: string, n: nat)
    requires 14 <= n <= |xml| && OccursAt(xml, CLOSE, n - 14) && Stands(xml[n..], name)
    ensures Stands(xml, name)
  {
    var i: nat, j: nat :| Place(xml[n..], name, i, j);
    PlaceShift(xml, name, n, i, j);
    assert Place(xml, name, n + i, n + j);
  }

  lemma PlaceOrder(xml: string, name: string, end: nat, i: nat, j: nat)
    requires Index(xml, CLOSE) == Some(end) && Place(xml, name, i, j)
    ensures j == end || (j > i >= end + 14)
  {
    if j != end {
      BetweenLater(xml, end, i, j);
    }
  }

  lemma PlaceFirst(xml: string, name: string, end: nat, i: nat)
    requires Index(xml, CLOSE) == Some(end) && Place(xml, name, i, end)
    ensures ReadsFirst(xml, name, end)
  {
    FirstNameIff(xml, name, end);
  }

  lemma PlaceBehind(xml: string, name: string, n: nat, i: nat, j: nat)
    requires 14 <= n <= |xml| && OccursAt(xml, CLOSE, n - 14) && n <= i < j && Place(xml, name, i, j)
    ensures Place(xml[n..], name, i - n, j - n)
  {
    var i', j' := i - n, j - n;
    assert n + i' == i && n + j' == j;
    PlaceShift(xml, name, n, i', j');
  }

  lemma PlaceFirstOrLater(xml: string, name: string, end: nat, i: nat, j: nat)
    requires Index(xml, CLOSE) == Some(end) && Place(xml, name, i, j)
    ensures ReadsFirst(xml, name, end) || Stands(xml[end + 14..], name)
  {
    PlaceOrder(xml, name, end, i, j);
    if j == end {
      PlaceFirst(xml, name, end, i);
    } else {
      PlaceBehind(xml, name, end + 14, i, j);
    }
  }

  lemma StandsFirstOrLater(xml: string, name: string, end: nat)
    requires Index(xml, CLOSE) == Some(end) && Stands(xml, name)
    ensures ReadsFirst(xml, name, end) || Stands(xml[end + 14..], name)
  {
    var i: nat, j: nat :| Place(xml, name, i, j);
    PlaceFirstOrLater(xml, name, end, i, j);
  }

  /** A name stands in a text when the scan's first step reads it or it stands in what follows. */
  lemma StandsIff(xml: string, name: string, end: nat)
    requires Index(xml, CLOSE) == Some(end)
    ensures Stands(xml, name) <==> ReadsFirst(xml, name, end) || Stands(xml[end + 14..], name)
  {
    if Stands(xml, name) {
      StandsFirstOrLater(xml, name, end);
    } else if ReadsFirst(xml, name, end) {
      FirstNameIff(xml, name, end);
    } else if Stands(xml[end + 14..], name) {
      LaterNameStands(xml, name, end + 14);
    }
  }

  lemma {:induction false} ReadsIffStands(xml: string, name: string)
    ensures Reads(xml, name) <==> Stands(xml, name)
    decreases |xml|
  {
    var end := Index(xml, CLOSE);
    if end.Some? {
      StandsIff(xml, name, end.value);
      ReadsIffStands(xml[end.value + |CLOSE|..], name);
    }
  }

  /** The extracted names are exactly those that stand in the text. */
  lemma ExtractIff(xml: string, name: string)
    ensures name in Extract(xml) <==> Stands(xml, name)
  {
    DedupMeaning(RawNames(xml));
    RawNamesRead(xml, name);
    ReadsIffStands(xml, name);
  }

  // ---- Their order ---------------------------------------------------------

  /** Some occurrence of the name ends at j. */
  ghost predicate EndsAt(xml: string, name: string, j: nat) {
    exists i: nat :: Place(xml, name, i, j)
  }

  /** The first occurrence of the name ends at j. */
  ghost predicate FirstEnd(xml: string, name: string, j: nat) {
    EndsAt(xml, name, j) && forall k: nat | EndsAt(xml, name, k) :: j <= k
  }

  function Shifted(ends: seq<nat>, n: nat): seq<nat> {
    seq(|ends|, k requires 0 <= k < |ends| => ends[k] + n)
  }

  /** Where the raw names end. */
  function RawEnds(xml: string): seq<nat>
    decreases |xml|
  {
    match Index(xml, CLOSE)
    case None => []
    case Some(end) =>
      (if NameBefore(xml[..end]) == [] then [] else [end]) + Shifted(RawEnds(xml[end + |CLOSE|..]), end + |CLOSE|)
  }

  ghost predicate Rising(ends: seq<nat>, from: nat) {
    (forall k | 0 <= k < |ends| :: from <= ends[k]) && forall k, l | 0 <= k < l < |ends| :: ends[k] < ends[l]
  }

  lemma RisingOn(first: seq<nat>, end: nat, rest: seq<nat>, n: nat)
    requires (first == [] || first == [end]) && end < n && Rising(rest, 0)
    ensures Rising(first + Shifted(rest, n), 0)
  {
  }

  lemma {:induction false} RawEndsRise(xml: string)
    ensures |RawEnds(xml)| == |RawNames(xml)| && Rising(RawEnds(xml), 0)
    decreases |xml|
  {
    var end := Index(xml, CLOSE);
    if end.Some? {
      var n := end.value + |CLOSE|;
      RawEndsRise(xml[n..]);
      RawNamesTail(xml, end.value);
      RisingOn(if NameBefore(xml[..end.value]) == [] then [] else [end.value], end.value, RawEnds(xml[n..]), n);
    }
  }

  lemma EndsLater(xml: string, name: string, n: nat, j: nat)
    requires 14 <= n <= |xml| && OccursAt(xml, CLOSE, n - 14)
    ensures EndsAt(xml[n..], name, j) ==> EndsAt(xml, name, n + j)
  {
    if EndsAt(xml[n..], name, j) {
      var i: nat :| Place(xml[n..], name, i, j);
      PlaceShift(xml, name, n, i, j);
      assert Place(xml, name, n + i, n + j);
    }
  }

  lemma PlaceEnds(xml: string, name: string, end: nat, i: nat, j: nat)
    requires Index(xml, CLOSE) == Some(end) && Place(xml, name, i, j)
    ensures j == end || (j >= end + 14 && EndsAt(xml[end + 14..], name, j - end - 14))
  {
    PlaceOrder(xml, name, end, i, j);
    if j != end {
      var n := end + 14;
      PlaceBehind(xml, name, n, i, j);
      assert EndsAt(xml[n..], name, j - n);
    }
  }

  lemma EndsEarlier(xml: string, name: string, end: nat, j: nat)
    requires Index(xml, CLOSE) == Some(end) && EndsAt(xml, name, j)
    ensures j == end || (j >= end + 14 && EndsAt(xml[end + 14..], name, j - end - 14))
  {
    var i: nat :| Place(xml, name, i, j);
    PlaceEnds(xml, name, end, i, j);
  }

  lemma EndsFirstIff(xml: string, name: string, end: nat)
    requires Index(xml, CLOSE) == Some(end)
    ensures EndsAt(xml, name, end) <==> name in NameBefore(xml[..end])
  {
    FirstNameIff(xml, name, end);
  }

  lemma EndsIff(xml: string, name: string, end: nat, j: nat)
    requires Index(xml, CLOSE) == Some(end)
    ensures EndsAt(xml, name, j) <==>
              if j == end then name in NameBefore(xml[..end])
              else j >= end + 14 && EndsAt(xml[end + 14..], name, j - end - 14)
  {
    if j == end {
      EndsFirstIff(xml, name, end);
    } else {
      if EndsAt(xml, name, j) {
        EndsEarlier(xml, name, end, j);
      }
      if j >= end + 14 {
        EndsLater(xml, name, end + 14, j - end - 14);
      }
    }
  }

  /** The k-th of these names ends at the k-th of these positions. */
  ghost predicate Listed(names: seq<string>, ends: seq<nat>, name: string, j: int) {
    exists k :: 0 <= k < |names| && k < |ends| && names[k] == name && ends[k] == j
  }

  lemma ListedOn(found: seq<string>, end: nat, names: seq<string>, ends: seq<nat>, n: nat, name: string, j: nat)
    requires |found| <= 1 && |names| == |ends|
    ensures Listed(found + names, (if found == [] then [] else [end]) + Shifted(ends, n), name, j)
       <==> (name in found && j == end) || Listed(names, ends, name, j - n)
  {
    var m := |found|;
    var all, places := found + names, (if found == [] then [] else [end]) + Shifted(ends, n);
    if Listed(names, ends, name, j - n) {
      var k :| 0 <= k < |names| && names[k] == name && ends[k] == j - n;
      assert all[m + k] == name && places[m + k] == j;
    }
    if name in found && j == end {
      assert all[0] == name && places[0] == j;
    }
    if Listed(all, places, name, j) {
      var k :| 0 <= k < |all| && k < |places| && all[k] == name && places[k] == j;
      if k >= m {
        assert names[k - m] == name && ends[k - m] == j - n;
      }
    }
  }

  /** The raw names with their ends are exactly the occurrences that end somewhere in the text. */
  lemma {:induction false} RawEndsIff(xml: string, name: string, j: nat)
    ensures EndsAt(xml, name, j) <==> Listed(RawNames(xml), RawEnds(xml), name, j)
    decreases |xml|
  {
    var end := Index(xml, CLOSE);
    if end.Some? {
      var n := end.value + |CLOSE|;
      var rest, found := xml[n..], NameBefore(xml[..end.value]);
      EndsIff(xml, name, end.value, j);
      RawEndsRise(rest);
      RawNamesTail(xml, end.value);
      if j >= n {
        RawEndsIff(rest, name, j - n);
      }
      ListedOn(found, end.value, RawNames(rest), RawEnds(rest), n, name, j);
    }
  }

  lemma {:induction false} FirstIs(names: seq<string>, n: string)
    requires n in names
    ensures First(names, n) < |names| && names[First(names, n)] == n
    ensures forall k | 0 <= k < First(names, n) :: names[k] != n
  {
    if names[0] != n {
      FirstIs(names[1..], n);
      forall k | 0 < k < First(names, n) ensures names[k] != n {
        assert names[k] == names[1..][k - 1];
      }
    }
  }

  /** The first occurrence of a name ends where its first raw entry says. */
  lemma RawFirstEnd(xml: string, name: string)
    requires name in RawNames(xml)
    ensures First(RawNames(xml), name) < |RawEnds(xml)| && FirstEnd(xml, name, RawEnds(xml)[First(RawNames(xml), name)])
  {
    var raw, ends := RawNames(xml), RawEnds(xml);
    var p := First(raw, name);
    RawEndsRise(xml);
    FirstIs(raw, name);
    RawEndsIff(xml, name, ends[p]);
    forall j: nat | EndsAt(xml, name, j) ensures ends[p] <= j {
      RawEndsIff(xml, name, j);
      var k :| 0 <= k < |raw| && k < |ends| && raw[k] == name && ends[k] == j;
    }
  }

  /** The extracted names stand in the order in which their first occurrences end in the text. */
  lemma ExtractOrder(xml: string, a: nat, b: nat) returns (p: nat, q: nat)
    requires a < b < |Extract(xml)|
    ensures FirstEnd(xml, Extract(xml)[a], p) && FirstEnd(xml, Extract(xml)[b], q) && p < q
  {
    var raw, names := RawNames(xml), Extract(xml);
    DedupMeaning(raw);
    assert names[a] in names && names[b] in names;
    RawFirstEnd(xml, names[a]);
    RawFirstEnd(xml, names[b]);
    RawEndsRise(xml);
    p, q := RawEnds(xml)[First(raw, names[a])], RawEnds(xml)[First(raw, names[b])];
  }

  // ---- The response --------------------------------------------------------

  const ITEM_TAG := "<domain:cd>"
  const NAME_TAG := "<domain:name avail=\"1\">"
  const ITEM_OPEN := ITEM_TAG + NAME_TAG
  const ITEM_CLOSE := "</domain:cd>"

  function Items(names: seq<string>): string {
    if names == [] then ""
    else ITEM_OPEN + names[0] + CLOSE + ITEM_CLOSE + Items(names[1..])
  }

  const HEAD: seq<string> := [
    "<?xml version=\"1.0\" encoding=\"" + "UTF-8\" standalone=\"no\"?>",
    "<epp xmlns=\"urn:ietf:params:xml:ns:epp-1.0\">",
    "<response>", "<result code=\"1000\">"]

  const HEAD_DATA: seq<string> := [
    "<msg>", "Command completed successfully</msg>", "</result>",
    "<resData>", "<domain:chkData xmlns:domain=\"" + "urn:ietf:params:xml:ns:domain-1.0\">"]

  function Foot(n: nat): seq<string> {
    ["</domain:chkData>", "</resData>", "<trID>", "<svTRID>", "mock-" + Decimal(n) + "</svTRID>", "</trID>",
     "</response>", "</epp>"]
  }

  /** The names a check reply lists: those asked for, or the stand-in when none was found. */
  function Answered(xml: string): seq<string> {
    if Extract(xml) == [] then ["example.com"] else Extract(xml)
  }

  /** domainCheckResp, with `n` drawn from the svTRID counter. */
  function Response(xml: string, n: nat): string {
    Flatten(HEAD) + Flatten(HEAD_DATA) + (Items(Answered(xml)) + Flatten(Foot(n)))
  }

  lemma HeadClean()
    ensures Clean(Flatten(HEAD), CLOSE) && Flatten(HEAD) != ""
  {
    CloseShape();
    PieceJoin("<?xml version=\"1.0\" encoding=\"", "UTF-8\" standalone=\"no\"?>", CLOSE);
    forall p | p in HEAD ensures Piece(p, CLOSE) {}
    PiecesClean(HEAD, CLOSE);
    assert |HEAD[0]| > 0;
  }

  lemma HeadDataClean()
    ensures Clean(Flatten(HEAD_DATA), CLOSE)
  {
    CloseShape();
    PieceJoin("<domain:chkData xmlns:domain=\"", "urn:ietf:params:xml:ns:domain-1.0\">", CLOSE);
    forall p | p in HEAD_DATA ensures Piece(p, CLOSE) {}
    PiecesClean(HEAD_DATA, CLOSE);
  }

  lemma FootClean(n: nat)
    ensures Clean(Flatten(Foot(n)), CLOSE)
  {
    CloseShape();
    assert '>' !in "mock-";
    PieceJoin(Decimal(n), "</svTRID>", CLOSE);
    PieceJoin("mock-", Decimal(n) + "</svTRID>", CLOSE);
    assert "mock-" + Decimal(n) + "</svTRID>" == "mock-" + (Decimal(n) + "</svTRID>");
    forall p | p in Foot(n) ensures Piece(p, CLOSE) {}
    PiecesClean(Foot(n), CLOSE);
  }

  lemma ItemPieces()
    ensures Piece(ITEM_TAG, CLOSE) && Piece(NAME_TAG, CLOSE) && Piece(ITEM_CLOSE, CLOSE)
  {
  }

  lemma ItemTextClean()
    ensures Clean(ITEM_CLOSE, CLOSE) && Clean(ITEM_OPEN, CLOSE)
  {
    CloseShape();
    ItemPieces();
    PieceClean(ITEM_CLOSE, CLOSE);
    PieceClean(ITEM_TAG, CLOSE);
    PieceClean(NAME_TAG, CLOSE);
    CleanConcat(ITEM_TAG, NAME_TAG, CLOSE);
  }

  /** The scan reads back the first name written after clean text. */
  lemma ReadsOneName(prefix: string, name: string, rest: string)
    requires Clean(prefix, CLOSE) && prefix != "" && GoodName(name)
    ensures RawNames(prefix + name + CLOSE + rest) == [name] + RawNames(rest)
  {
    var s := prefix + name + CLOSE + rest;
    var at := |prefix + name|;
    assert OccursAt(s, CLOSE, at);
    forall i: nat | i < at ensures !OccursAt(s, CLOSE, i) {
      NoEarlierClose(prefix, name, rest, i);
    }
    assert Index(s, CLOSE) == Some(at);
    assert s[at + |CLOSE|..] == rest;
    assert s[..at] == prefix + name;
    LastNameRead(prefix, name);
  }

  lemma LastNameRead(prefix: string, name: string)
    requires prefix != "" && prefix[|prefix| - 1] == '>' && GoodName(name)
    ensures NameBefore(prefix + name) == [name]
  {
    var segment := prefix + name;
    assert segment[|prefix| - 1] == '>' && segment[|prefix|..] == name;
    assert LastIndex(segment, '>') == Some(|prefix| - 1);
    TrimSpaceFixed(name);
  }

  lemma NoEarlierClose(prefix: string, name: string, rest: string, i: nat)
    requires Clean(prefix, CLOSE) && GoodName(name) && i < |prefix + name|
    ensures !OccursAt(prefix + name + CLOSE + rest, CLOSE, i)
  {
    var s := prefix + name + CLOSE + rest;
    var at := |prefix + name|;
    var g := i + 13;
    CloseShape();
    if g < |prefix| {
      assert s[..|prefix|] == prefix;
      OccursInPrefix(s, CLOSE, |prefix|, i);
    } else if g < at {
      assert s[g] == name[g - |prefix|];
      Mismatch(s, CLOSE, i, 13);
    } else {
      assert s[g] == CLOSE[g - at];
      Mismatch(s, CLOSE, i, 13);
    }
  }

  lemma ReadsNoItems(prefix: string, foot: string)
    requires Clean(prefix, CLOSE) && Clean(foot, CLOSE)
    ensures RawNames(prefix + (Items([]) + foot)) == []
  {
    assert Items([]) + foot == foot;
    CleanConcat(prefix, foot, CLOSE);
    assert Index(prefix + foot, CLOSE).None?;
  }

  lemma ReadsFirstItem(prefix: string, names: seq<string>, foot: string)
    requires Clean(prefix, CLOSE) && prefix != "" && names != [] && GoodName(names[0])
    ensures RawNames(prefix + (Items(names) + foot))
         == [names[0]] + RawNames(ITEM_CLOSE + (Items(names[1..]) + foot))
  {
    ItemTextClean();
    CleanConcat(prefix, ITEM_OPEN, CLOSE);
    ItemsSplit(prefix, names, foot);
    ReadsOneName(prefix + ITEM_OPEN, names[0], ITEM_CLOSE + (Items(names[1..]) + foot));
  }

  lemma {:induction false} ReadsItems(prefix: string, names: seq<string>, foot: string)
    requires Clean(prefix, CLOSE) && prefix != "" && Clean(foot, CLOSE) && forall n | n in names :: GoodName(n)
    ensures RawNames(prefix + (Items(names) + foot)) == names
    decreases |names|
  {
    if names == [] {
      ReadsNoItems(prefix, foot);
    } else {
      ReadsFirstItem(prefix, names, foot);
      ItemTextClean();
      ReadsItems(ITEM_CLOSE, names[1..], foot);
    }
  }

  lemma ItemsSplit(prefix: string, names: seq<string>, foot: string)
    requires names != []
    ensures prefix + (Items(names) + foot)
         == (prefix + ITEM_OPEN) + names[0] + CLOSE + (ITEM_CLOSE + (Items(names[1..]) + foot))
  {
    var a, b, c, d, e := ITEM_OPEN, names[0], CLOSE, ITEM_CLOSE, Items(names[1..]);
    assert Items(names) == a + b + c + d + e;
    assert prefix + (a + b + c + d + e + foot) == (prefix + a) + b + c + (d + (e + foot));
  }

  lemma {:induction false} DedupFixed(names: seq<string>)
    requires forall i, j | 0 <= i < j < |names| :: names[i] != names[j]
    ensures Dedup(names) == names
  {
    if names != [] {
      DedupFixed(names[..|names| - 1]);
    }
  }

  /** Reading the reply back gives exactly the names extracted from the request, or the stand-in when there were none. */
  lemma ResponseRoundTrip(xml: string, n: nat)
    ensures Extract(Response(xml, n)) == if Extract(xml) == [] then ["example.com"] else Extract(xml)
  {
    var names := Answered(xml);
    ExtractGood(xml);
    assert GoodNames(names);
    HeadClean();
    HeadDataClean();
    CleanConcat(Flatten(HEAD), Flatten(HEAD_DATA), CLOSE);
    FootClean(n);
    ReadsItems(Flatten(HEAD) + Flatten(HEAD_DATA), names, Flatten(Foot(n)));
    DedupFixed(names);
  }

  lemma ItemsStep(items: string, names: seq<string>, i: nat)
    requires i < |names|
    ensures items + Items(names[i..]) == items + (ITEM_OPEN + names[i] + CLOSE + ITEM_CLOSE) + Items(names[i + 1..])
  {
    assert names[i..][1..] == names[i + 1..];
  }

  method WriteItems(names: seq<string>) returns (items: string)
    ensures items == Items(names)
  {
    items := "";
    assert names[0..] == names;
    for i := 0 to |names|
      invariant items + Items(names[i..]) == Items(names)
    {
      ItemsStep(items, names, i);
      items := items + (ITEM_OPEN + names[i] + CLOSE + ITEM_CLOSE);
    }
  }

  method DomainCheckResp(xml: string, n: nat) returns (text: string)
    ensures text == Response(xml, n)
    ensures Extract(text) == Answered(xml)
  {
    var names := ExtractDomainNames(xml);
    if names == [] {
      names := ["example.com"];
    }
    var items := WriteItems(names);
    text := Flatten(HEAD) + Flatten(HEAD_DATA) + (items + Flatten(Foot(n)));
    ResponseRoundTrip(xml, n);
  }
}
