/** What a client reads off the EPP mock's replies: the result code and its own transaction identifier. */
module EppReplies {
  import opened Text
  import opened Markup
  import opened EppMockServer
  import DomainCheck

  const TAG := "clTRID>"

  lemma TagShape()
    ensures IsTag(TAG) && |TAG| == 7 && TAG[5] == 'D' && TAG[4] == 'I' && TAG[1] == 'l' && '<' !in TAG
  {
  }

  // ---- The reader of transaction identifiers -------------------------------

  /** An opening tag of that name stands at i, with a namespace prefix of n characters, and its text is closed. */
  predicate IdentifierAt(s: string, i: nat, n: nat) {
    && i < |s| && s[i] == '<' && n < |s| && IsPrefix(s, i + 1, n) && OccursAt(s, TAG, i + 1 + n)
    && Closed(s, i + 8 + n)
  }

  lemma {:induction false} EchoAtNone(s: string, i: nat, n: nat)
    requires i < |s| && forall m: nat :: !IdentifierAt(s, i, m)
    ensures EchoAt(s, i, n).None?
    decreases |s| - n
  {
    assert !IdentifierAt(s, i, n);
    if s[i] == '<' && n < |s| {
      EchoAtNone(s, i, n + 1);
    }
  }

  lemma {:induction false} EchoFromNone(s: string, i: nat)
    requires i <= |s| && forall j: nat, m: nat :: !IdentifierAt(s, j, m)
    ensures EchoFrom(s, i) == ""
    decreases |s| - i
  {
    if i < |s| {
      EchoAtNone(s, i, 0);
      EchoFromNone(s, i + 1);
    }
  }

  /** The reader gives the text of the first such tag. */
  lemma {:induction false} EchoFromFirst(s: string, i: nat, q: nat)
    requires i <= q && IdentifierAt(s, q, 0) && forall j: nat, m: nat | i <= j < q :: !IdentifierAt(s, j, m)
    ensures q + 8 <= TextEnd(s, q + 8) <= |s| && EchoFrom(s, i) == s[q + 8..TextEnd(s, q + 8)]
    decreases q - i
  {
    if i < q {
      EchoAtNone(s, i, 0);
      EchoFromFirst(s, i + 1, q);
    }
  }

  lemma {:induction false} TextEndAt(s: string, i: nat, e: nat)
    requires i <= e < |s| && s[e] == '<' && forall k | i <= k < e :: s[k] != '<'
    ensures TextEnd(s, i) == e
    decreases e - i
  {
    if i < e {
      TextEndAt(s, i + 1, e);
    }
  }

  lemma {:induction false} TextHasNoBracket(s: string, i: nat)
    requires i <= |s|
    ensures '<' !in s[i..TextEnd(s, i)]
    decreases |s| - i
  {
    if i < |s| && s[i] != '<' {
      TextHasNoBracket(s, i + 1);
      assert s[i..TextEnd(s, i)] == [s[i]] + s[i + 1..TextEnd(s, i)];
    }
  }

  lemma {:induction false} EchoAtHasNoBracket(s: string, i: nat, n: nat)
    requires i < |s| && EchoAt(s, i, n).Some?
    ensures '<' !in EchoAt(s, i, n).value
    decreases |s| - n
  {
    if IsPrefix(s, i + 1, n) && OccursAt(s, TAG, i + 1 + n) && Closed(s, i + 8 + n) {
      TextHasNoBracket(s, i + 8 + n);
    } else {
      EchoAtHasNoBracket(s, i, n + 1);
    }
  }

  lemma {:induction false} EchoHasNoBracket(s: string, i: nat)
    requires i <= |s|
    ensures '<' !in EchoFrom(s, i)
    decreases |s| - i
  {
    if i < |s| {
      if EchoAt(s, i, 0).Some? {
        EchoAtHasNoBracket(s, i, 0);
      } else {
        EchoHasNoBracket(s, i + 1);
      }
    }
  }

  // ---- Clean text around an identifier -------------------------------------

  /** Text in which the tag does not occur holds no identifier. */
  lemma CleanHasNone(s: string)
    requires Clean(s, TAG)
    ensures EchoClTRID(s) == ""
  {
    EchoFromNone(s, 0);
  }

  /** No identifier starts in clean text before a '<' at its end. */
  lemma NoneBefore(head: string, rest: string, i: nat, n: nat)
    requires Clean(head, TAG) && rest != "" && rest[0] == '<' && i < |head|
    ensures !IdentifierAt(head + rest, i, n)
  {
    var s, q, j := head + rest, |head|, i + 1 + n;
    assert s[q] == '<';
    TagShape();
    if j + 7 <= q {
      assert s[..q] == head;
      OccursInPrefix(s, TAG, q, j);
    } else if j <= q {
      assert TAG[q - j] in TAG;
      Mismatch(s, TAG, j, q - j);
    } else {
      assert i + 1 <= q <= i + n;
      assert !IsNameChar('<');
    }
  }

  /** The identifier written after clean text is the one read. */
  lemma ReadsIdentifier(head: string, id: string, tail: string)
    requires Clean(head, TAG) && '<' !in id
    ensures EchoClTRID(head + ("<clTRID>" + id + "</clTRID>" + tail)) == id
  {
    var rest := "<clTRID>" + id + "</clTRID>" + tail;
    var s, q := head + rest, |head|;
    IdentifierStands(head, id, tail);
    forall j: nat, m: nat | 0 <= j < q ensures !IdentifierAt(s, j, m) {
      NoneBefore(head, rest, j, m);
    }
    EchoFromFirst(s, 0, q);
  }

  lemma IdentifierStands(head: string, id: string, tail: string)
    requires '<' !in id
    ensures var s := head + ("<clTRID>" + id + "</clTRID>" + tail);
            var q, e := |head|, |head| + 8 + |id|;
            IdentifierAt(s, q, 0) && TextEnd(s, q + 8) == e && s[q + 8..e] == id
  {
    var open, close := "<clTRID>", "</clTRID>";
    var s := head + (open + id + close + tail);
    var q, e := |head|, |head| + 8 + |id|;
    assert |open| == 8 && open[0] == '<' && open[1..] == TAG;
    assert s[q..q + 8] == open && s[q + 8..e] == id && s[e..e + 9] == close;
    assert s[q] == open[0] && s[q + 1..q + 8] == open[1..];
    assert close[..2] == "</" && s[e..e + 2] == close[..2] && s[e] == close[0];
    forall k | q + 8 <= k < e ensures s[k] != '<' {
      assert s[k] == s[q + 8..e][k - q - 8];
    }
    TextEndAt(s, q + 8, e);
  }

  // ---- The replies ---------------------------------------------------------

  lemma OpeningClean()
    ensures Piece(XML, TAG) && Piece(EPP, TAG) && Piece("<response>", TAG)
  {
    PieceJoin("<?xml version=\"1.0\" encoding=\"", "UTF-8\" standalone=\"no\"?>", TAG);
  }

  lemma ResultClean(code: nat, msg: string)
    requires '>' !in msg
    ensures Piece("<result code=\"" + Decimal(code) + "\">", TAG) && Piece("<msg>", TAG) && Piece(msg + "</msg>", TAG)
    ensures Piece("</result>", TAG) && Piece("<trID>", TAG)
  {
    assert Piece("\">", TAG);
    PieceJoin(Decimal(code), "\">", TAG);
    PieceJoin("<result code=\"", Decimal(code) + "\">", TAG);
    assert "<result code=\"" + (Decimal(code) + "\">") == "<result code=\"" + Decimal(code) + "\">";
    PieceJoin(msg, "</msg>", TAG);
  }

  lemma HeadClean(code: nat, msg: string)
    requires '>' !in msg
    ensures Clean(Flatten(ReplyHead(code, msg)), TAG)
  {
    TagShape();
    OpeningClean();
    ResultClean(code, msg);
    PiecesClean(ReplyHead(code, msg), TAG);
  }

  lemma FootPieces(draw: nat)
    ensures Piece("<svTRID>", TAG) && Piece("mock-" + Decimal(draw) + "</svTRID>", TAG)
    ensures Piece("</trID>", TAG) && Piece("</response>", TAG) && Piece("</epp>", TAG)
  {
    assert Piece("</svTRID>", TAG);
    PieceJoin(Decimal(draw), "</svTRID>", TAG);
    PieceJoin("mock-", Decimal(draw) + "</svTRID>", TAG);
    assert "mock-" + (Decimal(draw) + "</svTRID>") == "mock-" + Decimal(draw) + "</svTRID>";
  }

  lemma FootClean(draw: nat)
    ensures Clean(Flatten(ReplyFoot(draw)), TAG)
  {
    TagShape();
    FootPieces(draw);
    PiecesClean(ReplyFoot(draw), TAG);
  }

  /** The client's transaction identifier comes back in the reply: read with the mock's own reader, the reply's is the
      request's, whatever code and message go with it. */
  lemma IdentifierReturned(code: nat, msg: string, xml: string, draw: nat)
    requires '>' !in msg
    ensures EchoClTRID(BuildResp(code, msg, EchoClTRID(xml), draw)) == EchoClTRID(xml)
  {
    var id := EchoClTRID(xml);
    var head, foot := Flatten(ReplyHead(code, msg)), Flatten(ReplyFoot(draw));
    HeadClean(code, msg);
    FootClean(draw);
    EchoHasNoBracket(xml, 0);
    if id == "" {
      TagShape();
      CleanConcat(head, foot, TAG);
      CleanHasNone(head + foot);
      assert BuildResp(code, msg, id, draw) == head + foot;
    } else {
      ReadsIdentifier(head, id, foot);
      assert BuildResp(code, msg, id, draw) == head + ("<clTRID>" + id + "</clTRID>" + foot);
    }
  }

  // ---- Result codes --------------------------------------------------------

  lemma {:induction false} PieceOccurs(pieces: seq<string>, k: nat, tail: string)
    requires k < |pieces|
    ensures exists i: nat :: OccursAt(Flatten(pieces) + tail, pieces[k], i)
  {
    var s := Flatten(pieces) + tail;
    var rest := pieces[0] + (Flatten(pieces[1..]) + tail);
    assert s == rest;
    if k == 0 {
      assert OccursAt(s, pieces[0], 0);
    } else {
      PieceOccurs(pieces[1..], k - 1, tail);
      var i: nat :| OccursAt(Flatten(pieces[1..]) + tail, pieces[1..][k - 1], i);
      assert rest[|pieces[0]|..] == Flatten(pieces[1..]) + tail;
      OccursInSuffix(s, pieces[k], |pieces[0]|, i);
      assert OccursAt(s, pieces[k], |pieces[0]| + i);
    }
  }

  /** The reply says so: a result element with that code, and the number drawn for it. */
  ghost predicate Says(text: string, code: nat) {
    exists i: nat :: OccursAt(text, "<result code=\"" + Decimal(code) + "\">", i)
  }

  lemma ReplySays(code: nat, msg: string, id: string, draw: nat)
    ensures Says(BuildResp(code, msg, id, draw), code)
  {
    var pieces, tail := ReplyHead(code, msg), TrID(id, draw);
    PieceOccurs(pieces, 3, tail);
    assert pieces[3] == "<result code=\"" + Decimal(code) + "\">";
    assert BuildResp(code, msg, id, draw) == Flatten(pieces) + tail;
  }

  lemma MessagesPlain()
    ensures '>' !in OK_MSG && '>' !in BYE_MSG && '>' !in DENIED_MSG
  {
    assert '>' !in "; ending session" && '>' !in "Authentication error" && '>' !in "; server closing connection";
  }

  /** What the mock answers says what it should: 2200 to a denied login, 1000 to an allowed one, 1500 to a logout, and the
      client's identifier comes back. */
  lemma RepliesSay(xml: string, st: Stamp)
    ensures Says(DenyText(xml, st), 2200) && EchoClTRID(DenyText(xml, st)) == EchoClTRID(xml)
    ensures Says(AllowText(xml, st), 1000) && EchoClTRID(AllowText(xml, st)) == EchoClTRID(xml)
    ensures Says(LogoutText(xml, st), 1500) && EchoClTRID(LogoutText(xml, st)) == EchoClTRID(xml)
  {
    var id := EchoClTRID(xml);
    MessagesPlain();
    ReplySays(2200, DENIED_MSG, id, st.draw);
    ReplySays(1000, OK_MSG, id, st.draw);
    ReplySays(1500, BYE_MSG, id, st.draw);
    IdentifierReturned(2200, DENIED_MSG, xml, st.draw);
    IdentifierReturned(1000, OK_MSG, xml, st.draw);
    IdentifierReturned(1500, BYE_MSG, xml, st.draw);
  }

  /** An object command other than a domain:check gets 1000 and its identifier back, one the mock does not know 2000. */
  lemma OperationsSay(xml: string, st: Stamp)
    requires !HasElement(xml, "hello")
    ensures !Contains(xml, "domain:check") && (Contains(xml, "domain:") || Contains(xml, "contact:") || Contains(xml, "host:")) ==>
              Says(NormalBody(xml, st), 1000) && EchoClTRID(NormalBody(xml, st)) == EchoClTRID(xml)
    ensures !Contains(xml, "domain:check") && !Contains(xml, "domain:") && !Contains(xml, "contact:") && !Contains(xml, "host:") ==>
              Says(NormalBody(xml, st), 2000)
  {
    RepliesSay(xml, st);
    ReplySays(2000, UNKNOWN_MSG, "", st.draw);
    assert NormalBody(xml, st)
        == if Contains(xml, "domain:check") then DomainCheck.Response(xml, st.draw)
           else if Contains(xml, "domain:") || Contains(xml, "contact:") || Contains(xml, "host:") then AllowText(xml, st)
           else BuildResp(2000, UNKNOWN_MSG, "", st.draw);
  }

  // ---- The domain:check reply ----------------------------------------------

  lemma CheckHeadClean()
    ensures Clean(Flatten(DomainCheck.HEAD), TAG)
  {
    TagShape();
    OpeningClean();
    forall p | p in DomainCheck.HEAD ensures Piece(p, TAG) {}
    PiecesClean(DomainCheck.HEAD, TAG);
  }

  lemma CheckDataClean()
    ensures Clean(Flatten(DomainCheck.HEAD_DATA), TAG)
  {
    TagShape();
    PieceJoin("<domain:chkData xmlns:domain=\"", "urn:ietf:params:xml:ns:domain-1.0\">", TAG);
    forall p | p in DomainCheck.HEAD_DATA ensures Piece(p, TAG) {}
    PiecesClean(DomainCheck.HEAD_DATA, TAG);
  }

  lemma CheckFootClean(n: nat)
    ensures Clean(Flatten(DomainCheck.Foot(n)), TAG)
  {
    TagShape();
    FootPieces(n);
    assert Piece("</domain:chkData>", TAG) && Piece("</resData>", TAG) && Piece("<trID>", TAG);
    forall p | p in DomainCheck.Foot(n) ensures Piece(p, TAG) {}
    PiecesClean(DomainCheck.Foot(n), TAG);
  }

  function ItemPieces(name: string): seq<string> {
    [DomainCheck.ITEM_TAG, DomainCheck.NAME_TAG, name + DomainCheck.CLOSE, DomainCheck.ITEM_CLOSE]
  }

  lemma ItemClean(name: string)
    requires '>' !in name
    ensures Clean(DomainCheck.ITEM_OPEN + name + DomainCheck.CLOSE + DomainCheck.ITEM_CLOSE, TAG)
  {
    TagShape();
    var a, b, c, d := DomainCheck.ITEM_TAG, DomainCheck.NAME_TAG, name + DomainCheck.CLOSE, DomainCheck.ITEM_CLOSE;
    assert Piece(DomainCheck.CLOSE, TAG);
    PieceJoin(name, DomainCheck.CLOSE, TAG);
    assert Piece(a, TAG) && Piece(b, TAG) && Piece(d, TAG);
    PieceClean(a, TAG);
    PieceClean(b, TAG);
    PieceClean(c, TAG);
    PieceClean(d, TAG);
    CleanConcat(a, b, TAG);
    CleanConcat(a + b, c, TAG);
    CleanConcat(a + b + c, d, TAG);
    assert a + b + c + d == DomainCheck.ITEM_OPEN + name + DomainCheck.CLOSE + DomainCheck.ITEM_CLOSE;
  }

  lemma {:induction false} ItemsClean(names: seq<string>)
    requires forall n | n in names :: '>' !in n
    ensures Clean(DomainCheck.Items(names), TAG)
  {
    if names != [] {
      TagShape();
      ItemClean(names[0]);
      ItemsClean(names[1..]);
      CleanConcat(DomainCheck.ITEM_OPEN + names[0] + DomainCheck.CLOSE + DomainCheck.ITEM_CLOSE, DomainCheck.Items(names[1..]), TAG);
    }
  }

  lemma CheckReplyClean(xml: string, n: nat)
    ensures Clean(DomainCheck.Response(xml, n), TAG)
  {
    var head, data := Flatten(DomainCheck.HEAD), Flatten(DomainCheck.HEAD_DATA);
    var items, foot := DomainCheck.Items(DomainCheck.Answered(xml)), Flatten(DomainCheck.Foot(n));
    TagShape();
    CheckHeadClean();
    CheckDataClean();
    CheckFootClean(n);
    AnsweredClean(xml);
    CleanConcat(head, data, TAG);
    CleanConcat(items, foot, TAG);
    CleanConcat(head + data, items + foot, TAG);
  }

  lemma AnsweredClean(xml: string)
    ensures Clean(DomainCheck.Items(DomainCheck.Answered(xml)), TAG)
  {
    DomainCheck.ExtractGood(xml);
    forall n | n in DomainCheck.Answered(xml) ensures '>' !in n {
      assert n in DomainCheck.Extract(xml) ==> DomainCheck.GoodName(n);
    }
    ItemsClean(DomainCheck.Answered(xml));
  }

  lemma CheckSays(head: string, data: string, rest: string)
    requires head == Flatten(DomainCheck.HEAD)
    ensures Says(head + data + rest, 1000)
  {
    ThousandPrints();
    PieceOccurs(DomainCheck.HEAD, 3, data + rest);
    assert head + (data + rest) == head + data + rest;
  }

  /** The domain:check reply says 1000 and carries no client identifier, whatever the request held. */
  lemma CheckReplySays(xml: string, n: nat)
    ensures Says(DomainCheck.Response(xml, n), 1000)
    ensures EchoClTRID(DomainCheck.Response(xml, n)) == ""
  {
    CheckReplyClean(xml, n);
    CleanHasNone(DomainCheck.Response(xml, n));
    CheckSays(Flatten(DomainCheck.HEAD), Flatten(DomainCheck.HEAD_DATA),
              DomainCheck.Items(DomainCheck.Answered(xml)) + Flatten(DomainCheck.Foot(n)));
  }

  lemma ThousandPrints()
    ensures "<result code=\"" + Decimal(1000) + "\">" == "<result code=\"1000\">"
  {
    assert Decimal(1000) == Decimal(100) + [Digit(0)] && Decimal(100) == Decimal(10) + [Digit(0)] && Decimal(10) == Decimal(1) + [Digit(0)];
    assert Decimal(1000) == "1000";
  }

  // ---- Mismatches ----------------------------------------------------------

  lemma OccursBetween(a: string, b: string, c: string)
    ensures Contains(a + b + c, b)
  {
    assert OccursAt(a + b + c, b, |a|);
  }

  /** A create that the profile mismatches is answered about another object; any other operation gets a plain 1000. */
  lemma MismatchesSay(xml: string, st: Stamp)
    ensures Contains(xml, "domain:create") ==>
              Contains(MismatchBody(xml, st), "<domain:name>mismatch-sentinel.example</domain:name>")
    ensures !Contains(xml, "domain:create") && Contains(xml, "contact:create") ==>
              Contains(MismatchBody(xml, st), "<contact:id>MISMATCH-C</contact:id>")
    ensures !Contains(xml, "domain:create") && !Contains(xml, "contact:create") ==>
              Says(MismatchBody(xml, st), 1000) && EchoClTRID(MismatchBody(xml, st)) == EchoClTRID(xml)
  {
    var id := EchoClTRID(xml);
    OccursBetween(PROLOG + OK_DATA + CREATED_DOMAIN, DOMAIN_SENTINEL,
                  "<domain:crDate>" + st.now + "</domain:crDate><domain:exDate>" + st.nextYear + "</domain:exDate></domain:creData>"
                  + "</resData><trID>" + TrID(id, st.draw));
    OccursBetween(PROLOG + OK_DATA + CREATED_CONTACT, CONTACT_SENTINEL,
                  "<contact:crDate>" + st.now + "</contact:crDate></contact:creData></resData><trID>" + TrID(id, st.draw));
    RepliesSay(xml, st);
  }

  // ---- Recognising frames --------------------------------------------------

  predicate IsLetter(c: char) {
    'A' <= c <= 'Z' || 'a' <= c <= 'z'
  }

  predicate IsNamespace(p: string) {
    && |p| >= 2 && (IsLetter(p[0]) || p[0] == '_') && p[|p| - 1] == ':'
    && forall k | 0 < k < |p| - 1 :: IsLetter(p[k]) || '0' <= p[k] <= '9' || p[k] in ['_', '.', '-']
  }

  /** The element stands at i: '<', perhaps a namespace, its name, and a character that ends the name. */
  predicate Stands(s: string, name: string, i: nat, namespace: string, end: char) {
    && (namespace == "" || IsNamespace(namespace)) && end in [' ', '\t', '\n', 0x0C as char, '\r', '/', '>']
    && OccursAt(s, "<" + namespace + name + [end], i)
  }

  lemma ElementStands(s: string, name: string, i: nat, n: nat)
    requires ElementAt(s, name, i, n)
    ensures Stands(s, name, i, s[i + 1..i + 1 + n], s[i + 1 + n + |name|])
  {
    var p, c := s[i + 1..i + 1 + n], s[i + 1 + n + |name|];
    var t := "<" + p + name + [c];
    assert |t| == n + |name| + 2;
    assert s[i..i + |t|] == [s[i]] + s[i + 1..i + 1 + n] + s[i + 1 + n..i + 1 + n + |name|] + [s[i + 1 + n + |name|]];
    if n > 0 {
      forall k | 0 <= k < n ensures p[k] == s[i + 1 + k] {}
    }
  }

  lemma ElementParts(p: string, name: string, c: char)
    ensures var t, n := "<" + p + name + [c], |p|;
            && |t| == n + |name| + 2 && t[0] == '<' && t[1..1 + n] == p
            && t[1 + n..1 + n + |name|] == name && t[1 + n + |name|] == c
  {
  }

  lemma StandsElement(s: string, name: string, i: nat, p: string, c: char)
    requires Stands(s, name, i, p, c)
    ensures ElementAt(s, name, i, |p|) && |p| < |s|
  {
    var t, n := "<" + p + name + [c], |p|;
    ElementParts(p, name, c);
    forall k | 0 <= k < |t| ensures s[i + k] == t[k] {
      assert s[i..i + |t|][k] == t[k];
    }
    assert s[i + 1 + n..i + 1 + n + |name|] == t[1 + n..1 + n + |name|];
    assert s[i + 1 + n + |name|] == t[1 + n + |name|];
    forall k | 0 <= k < n ensures s[i + 1 + k] == p[k] {
      assert t[1..1 + n][k] == t[1 + k];
    }
  }

  /** A frame is recognised by an element of that name, in any namespace or none. */
  lemma HasElementIff(s: string, name: string)
    ensures HasElement(s, name) <==> exists i: nat, p, c :: Stands(s, name, i, p, c)
  {
    if HasElement(s, name) {
      var i, n :| 0 <= i < |s| && 0 <= n < |s| && ElementAt(s, name, i, n);
      ElementStands(s, name, i, n);
    }
    if i: nat, p, c :| Stands(s, name, i, p, c) {
      StandsElement(s, name, i, p, c);
      assert 0 <= i < |s| && ElementAt(s, name, i, |p|);
    }
  }

  /** A frame with a login element is a login, whatever else it holds; else one with a logout element is a logout. */
  lemma ClassifyIff(xml: string)
    ensures Classify(xml) == LoginFrame <==> exists i: nat, p, c :: Stands(xml, "login", i, p, c)
    ensures Classify(xml) == LogoutFrame <==>
              (forall i: nat, p, c :: !Stands(xml, "login", i, p, c)) && exists i: nat, p, c :: Stands(xml, "logout", i, p, c)
  {
    HasElementIff(xml, "login");
    HasElementIff(xml, "logout");
  }
}
