/** The session loop of the standalone EPP mock server. */
module EppMockServer {
  import opened Text
  import opened Markup
  import opened FaultInjection
  import opened SessionLoop
  import DomainCheck

  // ---- Recognising frames --------------------------------------------------

  predicate IsNameStart(c: char) {
    'A' <= c <= 'Z' || 'a' <= c <= 'z' || c == '_'
  }

  predicate IsNameChar(c: char) {
    IsNameStart(c) || '0' <= c <= '9' || c == '.' || c == '-'
  }

  /** The optional namespace prefix "abc:" of the element patterns, as a length. */
  predicate IsPrefix(s: string, i: nat, n: nat) {
    n == 0 || (n >= 2 && i + n <= |s| && IsNameStart(s[i]) && s[i + n - 1] == ':'
               && forall k | i < k < i + n - 1 :: IsNameChar(s[k]))
  }

  predicate EndsName(c: char) {
    c == ' ' || c == '\t' || c == '\n' || c == 0x0C as char || c == '\r' || c == '/' || c == '>'
  }

  predicate ElementAt(s: string, name: string, i: nat, n: nat) {
    && i < |s| && s[i] == '<' && IsPrefix(s, i + 1, n) && OccursAt(s, name, i + 1 + n)
    && i + 1 + n + |name| < |s| && EndsName(s[i + 1 + n + |name|])
  }

  /** `<(prefix:)?name[\s/>]` somewhere in the text. */
  predicate HasElement(s: string, name: string) {
    exists i, n | 0 <= i < |s| && 0 <= n < |s| :: ElementAt(s, name, i, n)
  }

  /** The text of the first `<(prefix:)?clTRID>...</`, or "". */
  function EchoClTRID(s: string): string {
    EchoFrom(s, 0)
  }

  function EchoFrom(s: string, i: nat): string
    requires i <= |s|
    decreases |s| - i
  {
    if i == |s| then ""
    else
      match EchoAt(s, i, 0)
      case Some(text) => text
      case None => EchoFrom(s, i + 1)
  }

  function EchoAt(s: string, i: nat, n: nat): Option<string>
    requires i < |s|
    decreases |s| - n
  {
    if s[i] != '<' || n >= |s| then None
    else if IsPrefix(s, i + 1, n) && OccursAt(s, "clTRID>", i + 1 + n) && Closed(s, i + 8 + n) then
      Some(s[i + 8 + n..TextEnd(s, i + 8 + n)])
    else EchoAt(s, i, n + 1)
  }

  function TextEnd(s: string, i: nat): (e: nat)
    requires i <= |s|
    ensures i <= e <= |s|
    decreases |s| - i
  {
    if i < |s| && s[i] != '<' then TextEnd(s, i + 1) else i
  }

  predicate Closed(s: string, i: nat) {
    i <= |s| && OccursAt(s, "</", TextEnd(s, i))
  }

  datatype Kind = LoginFrame | LogoutFrame | OperationFrame

  function Classify(xml: string): Kind {
    if HasElement(xml, "login") then LoginFrame
    else if HasElement(xml, "logout") then LogoutFrame
    else OperationFrame
  }

  // ---- Response texts ------------------------------------------------------

  /** What the surroundings supply while one frame is handled: the next svTRID number and the clock. */
  datatype Stamp = Stamp(draw: nat, now: string, nextYear: string)

  const XML := "<?xml version=\"1.0\" encoding=\"" + "UTF-8\" standalone=\"no\"?>"
  const EPP := "<epp xmlns=\"urn:ietf:params:xml:ns:epp-1.0\">"

  /** A reply up to its transaction identifiers. */
  function ReplyHead(code: nat, msg: string): seq<string> {
    [XML, EPP, "<response>", "<result code=\"" + Decimal(code) + "\">", "<msg>", msg + "</msg>", "</result>", "<trID>"]
  }

  function ReplyFoot(draw: nat): seq<string> {
    ["<svTRID>", "mock-" + Decimal(draw) + "</svTRID>", "</trID>", "</response>", "</epp>"]
  }

  const PROLOG := XML + EPP

  function GreetingText(now: string): string {
    PROLOG + "<greeting><svID>Mock EPP Server</svID><svDate>" + now + "</svDate>"
    + "<svcMenu><version>1.0</version><lang>en</lang><objURI>urn:ietf:params:xml:ns:domain-1.0</objURI>"
    + "<objURI>urn:ietf:params:xml:ns:contact-1.0</objURI><objURI>urn:ietf:params:xml:ns:host-1.0</objURI></svcMenu>"
    + "</greeting></epp>"
  }

  function TrID(clTRID: string, draw: nat): string {
    if clTRID == "" then Flatten(ReplyFoot(draw)) else "<clTRID>" + clTRID + "</clTRID>" + Flatten(ReplyFoot(draw))
  }

  function BuildResp(code: nat, msg: string, clTRID: string, draw: nat): string {
    Flatten(ReplyHead(code, msg)) + TrID(clTRID, draw)
  }

  const OK_MSG := "Command completed successfully"
  const BYE_MSG := OK_MSG + "; ending session"
  const DENIED_MSG := "Authentication error" + "; server closing connection"
  const UNKNOWN_MSG := "Unknown command"

  function Resp1000(clTRID: string, draw: nat): string {
    BuildResp(1000, OK_MSG, clTRID, draw)
  }

  const OK_DATA := "<response><result code=\"1000\"><msg>Command completed successfully</msg></result><resData>"

  const CREATED_DOMAIN := "<domain:creData xmlns:domain=\"urn:ietf:params:xml:ns:domain-1.0\">"
  const CREATED_CONTACT := "<contact:creData xmlns:contact=\"urn:ietf:params:xml:ns:contact-1.0\">"
  const DOMAIN_SENTINEL := "<domain:name>mismatch-sentinel.example</domain:name>"
  const CONTACT_SENTINEL := "<contact:id>MISMATCH-C</contact:id>"

  function DomainMismatch(clTRID: string, st: Stamp): string {
    PROLOG + OK_DATA + CREATED_DOMAIN + DOMAIN_SENTINEL
    + ("<domain:crDate>" + st.now + "</domain:crDate><domain:exDate>" + st.nextYear + "</domain:exDate></domain:creData>"
       + "</resData><trID>" + TrID(clTRID, st.draw))
  }

  function ContactMismatch(clTRID: string, st: Stamp): string {
    PROLOG + OK_DATA + CREATED_CONTACT + CONTACT_SENTINEL
    + ("<contact:crDate>" + st.now + "</contact:crDate></contact:creData></resData><trID>" + TrID(clTRID, st.draw))
  }

  /** The dispatch table for operations: first needle wins. */
  function NormalBody(xml: string, st: Stamp): string {
    if HasElement(xml, "hello") then GreetingText(st.now)
    else if Contains(xml, "domain:check") then DomainCheck.Response(xml, st.draw)
    else if Contains(xml, "domain:") || Contains(xml, "contact:") || Contains(xml, "host:") then
      Resp1000(EchoClTRID(xml), st.draw)
    else BuildResp(2000, UNKNOWN_MSG, "", st.draw)
  }

  function MismatchBody(xml: string, st: Stamp): string {
    if Contains(xml, "domain:create") then DomainMismatch(EchoClTRID(xml), st)
    else if Contains(xml, "contact:create") then ContactMismatch(EchoClTRID(xml), st)
    else Resp1000(EchoClTRID(xml), st.draw)
  }

  function DenyText(xml: string, st: Stamp): string {
    BuildResp(2200, DENIED_MSG, EchoClTRID(xml), st.draw)
  }

  function LogoutText(xml: string, st: Stamp): string {
    BuildResp(1500, BYE_MSG, EchoClTRID(xml), st.draw)
  }

  function AllowText(xml: string, st: Stamp): string {
    Resp1000(EchoClTRID(xml), st.draw)
  }

  /** How frames are recognised and answered. The session logic is the same for any such table. */
  datatype Replies = Replies(
    classify: string -> Kind,
    greeting: string -> string,
    deny: (string, Stamp) -> string,
    allow: (string, Stamp) -> string,
    logout: (string, Stamp) -> string,
    normal: (string, Stamp) -> string,
    mismatch: (string, Stamp) -> string)

  const MOCK_REPLIES := Replies(Classify, GreetingText, DenyText, AllowText, LogoutText, NormalBody, MismatchBody)

  // ---- One frame -----------------------------------------------------------

  function LoginStep(p: Profile, r: Replies, e: State, xml: string, st: Stamp): Step {
    var e' := After(p, e, Login);
    match LoginDecision(p, e.logins + 1)
    case Hang => Step(e', None, false)
    case Disconnect => Step(e', None, true)
    case Deny => Step(e', Some(Framed(LoginReply, r.deny(xml, st))), false)
    case _ => Step(e', Some(Framed(LoginReply, r.allow(xml, st))), false)
  }

  function OperationStep(p: Profile, r: Replies, e: State, xml: string, st: Stamp): Step {
    var e' := After(p, e, Operation(xml));
    var verdict := OperationDecision(p, e.ops + 1, xml).0;
    if verdict == Disconnect then Step(e', None, true)
    else
      var body := if verdict == Mismatch then r.mismatch(xml, st) else r.normal(xml, st);
      var e'' := After(p, e', Response(body));
      match ResponseFate(p, e.fired, body)
      case Overclaimed(text) => Step(e'', Some(Overflow(text)), true)
      case Sent(text) => Step(e'', Some(Framed(OperationReply(!e.fired && e''.fired), text)), false)
  }

  function FrameStep(p: Profile, r: Replies, e: State, xml: string, st: Stamp): Step {
    match r.classify(xml)
    case LoginFrame => LoginStep(p, r, e, xml, st)
    case LogoutFrame => Step(e, Some(Framed(LogoutReply, r.logout(xml, st))), true)
    case OperationFrame => OperationStep(p, r, e, xml, st)
  }

  // ---- A whole session -----------------------------------------------------

  /** A connection's fixed surroundings: profile, reply table, the frames the client sends before it closes, and
      the stamp in force while each is handled. */
  datatype Setup = Setup(p: Profile, r: Replies, frames: seq<string>, stamps: nat -> Stamp)

  function Steps(s: Setup): Handler {
    (e: State, i: nat) =>
      if i < |s.frames| then FrameStep(s.p, s.r, e, s.frames[i], s.stamps(i)) else Step(e, None, true)
  }

  /** What a session writes after the greeting when `room` more writes succeed. */
  function Session(s: Setup, room: nat): seq<Written> {
    Loop(Steps(s), |s.frames|, INITIAL, 0, room)
  }

  /** Everything the server writes on one connection before it hangs up. */
  function Transcript(s: Setup, now: string, room: nat): seq<Written> {
    if s.p.disconnectAt == "pre-greeting" || room == 0 then []
    else [Framed(Greeting, s.r.greeting(now))]
         + if s.p.disconnectAt == "post-greeting" then [] else Session(s, room - 1)
  }

  method HandleConn(conn: Conn, s: Setup, now: string)
    requires conn.out == []
    modifies conn
    ensures conn.out == Transcript(s, now, old(conn.room))
  {
    var engine := new FaultEngine(s.p);
    var action := engine.OnConnect();
    if action == Disconnect {
      return;
    }
    var ok := conn.Write(Framed(Greeting, s.r.greeting(now)));
    if !ok {
      return;
    }
    action := engine.AfterGreeting();
    if action == Disconnect {
      return;
    }
    ServeFrames(engine, conn, s);
  }

  /** The loop over the frames, from the first one on. */
  method ServeFrames(engine: FaultEngine, conn: Conn, s: Setup)
    requires engine.View() == INITIAL && engine.profile == s.p
    modifies engine, conn
    ensures conn.out == old(conn.out) + Session(s, old(conn.room))
  {
    var i := 0;
    while i < |s.frames|
      invariant i <= |s.frames|
      invariant conn.out + Loop(Steps(s), |s.frames|, engine.View(), i, conn.room)
             == old(conn.out) + Session(s, old(conn.room))
    {
      ghost var e, out, room := engine.View(), conn.out, conn.room;
      var more := HandleFrame(engine, conn, s.r, s.frames[i], s.stamps(i));
      assert Steps(s)(e, i) == FrameStep(s.p, s.r, e, s.frames[i], s.stamps(i));
      PassKeeps(Steps(s), |s.frames|, e, i, out, room, conn.out, conn.room, more);
      if !more {
        assert conn.out + [] == conn.out;
        return;
      }
      i := i + 1;
    }
  }

  /** One pass of the loop: it writes what the step says, and goes on unless the step or a failed write stops it. */
  method HandleFrame(engine: FaultEngine, conn: Conn, r: Replies, xml: string, st: Stamp) returns (more: bool)
    modifies engine, conn
    ensures var step := FrameStep(engine.profile, r, old(engine.View()), xml, st);
            engine.View() == step.engine && Obeys(step, old(conn.out), old(conn.room), conn.out, conn.room, more)
  {
    var kind := r.classify(xml);
    if kind == LoginFrame {
      var action := engine.OnLoginAttempt();
      if action == Hang {
        return true;
      } else if action == Disconnect {
        return false;
      } else if action == Deny {
        more := conn.Write(Framed(LoginReply, r.deny(xml, st)));
        return;
      } else {
        more := conn.Write(Framed(LoginReply, r.allow(xml, st)));
        return;
      }
    }
    if kind == LogoutFrame {
      var _ := conn.Write(Framed(LogoutReply, r.logout(xml, st)));
      return false;
    }
    var verdict, delay := engine.OnOperation(xml);
    if verdict == Disconnect {
      return false;
    }
    var body: string;
    if verdict == Mismatch {
      body := r.mismatch(xml, st);
    } else {
      body := r.normal(xml, st);
    }
    var before := engine.faultFired;
    var text, action := engine.ApplyResponseFault(conn, body);
    if action == Disconnect {
      return false;
    }
    more := conn.Write(Framed(OperationReply(!before && engine.faultFired), text));
  }

  // ---- Session laws, for every profile and every sequence of frames --------

  lemma StepCounts(p: Profile, r: Replies, e: State, xml: string, st: Stamp)
    requires p.disconnectAfter > 0
    ensures CountKept(FrameStep(p, r, e, xml, st), e.ops, p.disconnectAfter)
  {
  }

  lemma FramesCount(s: Setup)
    requires s.p.disconnectAfter > 0
    ensures Counts(Steps(s), s.p.disconnectAfter)
  {
    forall e: State, i: nat ensures CountKept(Steps(s)(e, i), e.ops, s.p.disconnectAfter) {
      if i < |s.frames| {
        StepCounts(s.p, s.r, e, s.frames[i], s.stamps(i));
      }
    }
  }

  /** With a positive DisconnectAfter, at most that many operations are answered on a connection. */
  lemma AtMostDisconnectAfter(s: Setup, now: string, room: nat)
    requires s.p.disconnectAfter > 0
    ensures OperationCount(Transcript(s, now, room)) <= s.p.disconnectAfter
  {
    if room > 0 {
      FramesCount(s);
      LoopOperationBound(Steps(s), |s.frames|, s.p.disconnectAfter, INITIAL, 0, room - 1);
      CountStep(Framed(Greeting, s.r.greeting(now)), Session(s, room - 1));
      CountStep(Framed(Greeting, s.r.greeting(now)), []);
    }
  }

  /** What frame i is answered with, the latch aside, by a server that has seen so many logins and operations. */
  function Plain(s: Setup, logins: nat, ops: nat, i: nat): Written
    requires i < |s.frames|
  {
    var xml, st := s.frames[i], s.stamps(i);
    match s.r.classify(xml)
    case LoginFrame =>
      Framed(LoginReply, if LoginDecision(s.p, logins + 1) == Deny then s.r.deny(xml, st) else s.r.allow(xml, st))
    case LogoutFrame => Framed(LogoutReply, s.r.logout(xml, st))
    case OperationFrame =>
      var mismatched := OperationDecision(s.p, ops + 1, xml).0 == Mismatch;
      Framed(OperationReply(false), if mismatched then s.r.mismatch(xml, st) else s.r.normal(xml, st))
  }

  function PlainOf(s: Setup): (State, nat) -> Written {
    (e: State, i: nat) => if i < |s.frames| then Plain(s, e.logins, e.ops, i) else Overflow("")
  }

  lemma StepLatches(s: Setup, e: State, i: nat)
    requires i < |s.frames|
    ensures LatchKept(FrameStep(s.p, s.r, e, s.frames[i], s.stamps(i)), e.fired, s.p.malformedFrame, Plain(s, e.logins, e.ops, i))
  {
  }

  lemma FramesLatch(s: Setup)
    ensures Latches(Steps(s), s.p.malformedFrame, PlainOf(s))
  {
    forall e: State, i: nat ensures LatchKept(Steps(s)(e, i), e.fired, s.p.malformedFrame, PlainOf(s)(e, i)) {
      if i < |s.frames| {
        StepLatches(s, e, i);
      }
    }
  }

  // ---- The course of a session, told from the profile's fields -------------

  /** How many logins and operations stand among the first i frames. */
  function Logins(s: Setup, i: nat): nat {
    if i == 0 || i > |s.frames| then 0
    else Logins(s, i - 1) + if s.r.classify(s.frames[i - 1]) == LoginFrame then 1 else 0
  }

  function Operations(s: Setup, i: nat): nat {
    if i == 0 || i > |s.frames| then 0
    else Operations(s, i - 1) + if s.r.classify(s.frames[i - 1]) == OperationFrame then 1 else 0
  }

  /** Frame i is an operation the profile cuts off. */
  ghost predicate IsCutOff(s: Setup, i: nat)
    requires i < |s.frames|
  {
    s.r.classify(s.frames[i]) == OperationFrame && CutsOff(s.p, Operations(s, i) + 1, s.frames[i])
  }

  /** A frame gets no answer when it is a login under "hang" or "disconnect", or an operation that is cut off. */
  ghost predicate Unanswered(s: Setup, i: nat)
    requires i < |s.frames|
  {
    || (s.r.classify(s.frames[i]) == LoginFrame && (s.p.loginMode == "hang" || s.p.loginMode == "disconnect"))
    || IsCutOff(s, i)
  }

  /** A frame ends the session when it is a logout, a login under "disconnect", an operation that is cut off, or any
      operation under the length-overflow fault. */
  ghost predicate Ends(s: Setup, i: nat)
    requires i < |s.frames|
  {
    var kind := s.r.classify(s.frames[i]);
    || kind == LogoutFrame
    || (kind == LoginFrame && s.p.loginMode == "disconnect")
    || IsCutOff(s, i)
    || (kind == OperationFrame && s.p.malformedFrame == "length_overflow")
  }

  /** Frame i is a login the profile denies: all of them, or the first so many. */
  predicate IsDenied(s: Setup, i: nat)
    requires i < |s.frames|
  {
    && s.r.classify(s.frames[i]) == LoginFrame
    && (s.p.loginMode == "always" || (s.p.loginMode == "flap" && Logins(s, i) < s.p.loginFailCount))
  }

  /** What frame i is answered with. Only the first operation meets the malformed-frame fault. */
  ghost function Due(s: Setup, i: nat): Written
    requires i < |s.frames|
  {
    var xml, st := s.frames[i], s.stamps(i);
    match s.r.classify(xml)
    case LoginFrame => Framed(LoginReply, if IsDenied(s, i) then s.r.deny(xml, st) else s.r.allow(xml, st))
    case LogoutFrame => Framed(LogoutReply, s.r.logout(xml, st))
    case OperationFrame =>
      var text := if Mismatches(s.p, xml) then s.r.mismatch(xml, st) else s.r.normal(xml, st);
      var fault := if Operations(s, i) == 0 then s.p.malformedFrame else "";
      if fault == "length_overflow" then Overflow(text)
      else if fault == "invalid_xml" then Framed(OperationReply(true), INVALID_XML)
      else if fault == "garbage" then Framed(OperationReply(true), GARBAGE)
      else Framed(OperationReply(false), text)
  }

  ghost function CourseOf(s: Setup): Course {
    Course((i: nat) => i < |s.frames| && Unanswered(s, i),
           (i: nat) => i < |s.frames| && Ends(s, i),
           (i: nat) => if i < |s.frames| then Due(s, i) else Overflow(""))
  }

  /** Before frame i the engine has counted the logins and operations so far, and its latch is closed exactly when a
      corrupting profile has met an operation. Under the overflow fault no operation lies behind. */
  ghost predicate Known(s: Setup, e: State, i: nat) {
    && e.logins == Logins(s, i) && e.ops == Operations(s, i)
    && (e.fired <==> CorruptingKind(s.p.malformedFrame) && e.ops > 0)
    && (s.p.malformedFrame == "length_overflow" ==> e.ops == 0)
  }

  ghost function KnownOf(s: Setup): Invariant {
    (e: State, i: nat) => Known(s, e, i)
  }

  lemma LoginFollows(s: Setup, e: State, i: nat)
    requires i < |s.frames| && Known(s, e, i) && s.r.classify(s.frames[i]) == LoginFrame
    ensures StepFollows(Steps(s)(e, i), i, KnownOf(s), CourseOf(s))
  {
    LoginMeaning(s.p, e.logins + 1);
  }

  lemma LogoutFollows(s: Setup, e: State, i: nat)
    requires i < |s.frames| && Known(s, e, i) && s.r.classify(s.frames[i]) == LogoutFrame
    ensures StepFollows(Steps(s)(e, i), i, KnownOf(s), CourseOf(s))
  {
  }

  lemma OperationFollows(s: Setup, e: State, i: nat)
    requires i < |s.frames| && Known(s, e, i) && s.r.classify(s.frames[i]) == OperationFrame
    ensures StepFollows(Steps(s)(e, i), i, KnownOf(s), CourseOf(s))
  {
    VerdictIff(s.p, e.ops + 1, s.frames[i]);
    var step := Steps(s)(e, i);
    assert step == OperationStep(s.p, s.r, e, s.frames[i], s.stamps(i));
    assert step.write.None? <==> IsCutOff(s, i);
    assert step.stop == Ends(s, i);
    assert step.write.Some? ==> step.write.value == Due(s, i);
    assert !step.stop ==> Known(s, step.engine, i + 1);
  }

  lemma SessionFollows(s: Setup)
    ensures Follows(Steps(s), |s.frames|, KnownOf(s), CourseOf(s))
  {
    forall e: State, i: nat | i < |s.frames| && KnownOf(s)(e, i) ensures StepFollows(Steps(s)(e, i), i, KnownOf(s), CourseOf(s)) {
      match s.r.classify(s.frames[i])
      case LoginFrame => LoginFollows(s, e, i);
      case LogoutFrame => LogoutFollows(s, e, i);
      case OperationFrame => OperationFollows(s, e, i);
    }
  }

  lemma SessionSays(s: Setup, room: nat) returns (js: seq<nat>)
    ensures Heard(js, CourseOf(s), 0, |s.frames|) && Said(Session(s, room), js, CourseOf(s), room)
  {
    SessionFollows(s);
    js := LoopSays(Steps(s), |s.frames|, KnownOf(s), CourseOf(s), INITIAL, 0, room);
  }

  /** The transcript for every profile, every frame sequence and every number of writes that succeed. Unless cut short
      around the greeting, `js` are exactly the frames that no earlier frame ends the session before and that the
      profile does not leave unanswered, and they are answered in order with what is due to each. */
  lemma TranscriptAnswers(s: Setup, now: string, room: nat) returns (js: seq<nat>)
    ensures var ws := Transcript(s, now, room);
            if s.p.disconnectAt == "pre-greeting" || room == 0 then ws == []
            else
              && ws != [] && ws[0] == Framed(Greeting, s.r.greeting(now))
              && (s.p.disconnectAt == "post-greeting" ==> |ws| == 1)
              && (s.p.disconnectAt != "post-greeting" ==> Said(ws[1..], js, CourseOf(s), room - 1))
    ensures Heard(js, CourseOf(s), 0, |s.frames|)
  {
    js := SessionSays(s, if room == 0 then 0 else room - 1);
  }

  lemma DeniedGoesOn(s: Setup, i: nat)
    requires i < |s.frames| && IsDenied(s, i)
    ensures !Unanswered(s, i) && !Ends(s, i) && Due(s, i) == Framed(LoginReply, s.r.deny(s.frames[i], s.stamps(i)))
  {
    LoginMeaning(s.p, Logins(s, i) + 1);
  }

  lemma HeardIsSaid(ws: seq<Written>, js: seq<nat>, c: Course, n: nat, room: nat, i: nat) returns (k: nat)
    requires Heard(js, c, 0, n) && Said(ws, js, c, room) && room >= n
    requires i < n && Reached(c, i, 0) && !c.silent(i)
    ensures k < |ws| && ws[k] == c.reply(i)
  {
    HeardShort(js, c, n);
    assert i in js;
    k :| 0 <= k < |js| && js[k] == i;
  }

  lemma TranscriptParts(s: Setup, now: string, room: nat)
    requires room > 0
    ensures Transcript(s, now, room)
         == if s.p.disconnectAt == "pre-greeting" then []
            else [Framed(Greeting, s.r.greeting(now))]
                 + if s.p.disconnectAt == "post-greeting" then [] else Session(s, room - 1)
  {
  }

  lemma OneFurther(greeting: Written, ws: seq<Written>, k: nat)
    requires k < |ws|
    ensures ([greeting] + ws)[k + 1] == ws[k]
  {
  }

  lemma SessionAnswers(s: Setup, room: nat, i: nat) returns (k: nat)
    requires room >= |s.frames| && i < |s.frames| && Reached(CourseOf(s), i, 0) && !Unanswered(s, i)
    ensures k < |Session(s, room)| && Session(s, room)[k] == Due(s, i)
  {
    var js := SessionSays(s, room);
    k := HeardIsSaid(Session(s, room), js, CourseOf(s), |s.frames|, room, i);
  }

  /** Every reached frame that the profile does not leave unanswered gets what is due to it. */
  lemma FrameAnswered(s: Setup, now: string, room: nat, i: nat) returns (k: nat)
    requires s.p.disconnectAt != "pre-greeting" && s.p.disconnectAt != "post-greeting" && room > |s.frames|
    requires i < |s.frames| && Reached(CourseOf(s), i, 0) && !Unanswered(s, i)
    ensures 0 < k < |Transcript(s, now, room)| && Transcript(s, now, room)[k] == Due(s, i)
  {
    var j := SessionAnswers(s, room - 1, i);
    TranscriptParts(s, now, room);
    OneFurther(Framed(Greeting, s.r.greeting(now)), Session(s, room - 1), j);
    k := j + 1;
  }

  /** A denied login that is reached is answered with the denial, and the session goes on. */
  lemma DenialAnswered(s: Setup, now: string, room: nat, i: nat) returns (k: nat)
    requires s.p.disconnectAt != "pre-greeting" && s.p.disconnectAt != "post-greeting" && room > |s.frames|
    requires i < |s.frames| && Reached(CourseOf(s), i, 0) && IsDenied(s, i)
    ensures 0 < k < |Transcript(s, now, room)|
    ensures Transcript(s, now, room)[k] == Framed(LoginReply, s.r.deny(s.frames[i], s.stamps(i)))
    ensures Reached(CourseOf(s), i + 1, 0)
  {
    DeniedGoesOn(s, i);
    k := FrameAnswered(s, now, room, i);
  }

  lemma GreetingFirst(s: Setup, now: string, room: nat)
    requires |Transcript(s, now, room)| > 1
    ensures Transcript(s, now, room) == [Framed(Greeting, s.r.greeting(now))] + Session(s, room - 1) && room > 0
  {
    TranscriptParts(s, now, room);
  }

  lemma SessionCorruption(s: Setup, room: nat, greeting: Written, k: nat)
    requires k < |Session(s, room)| && greeting.Framed? && greeting.role.Greeting?
    ensures var ws, w := [greeting] + Session(s, room), Session(s, room)[k];
            && (IsCorrupted(w) <==> CorruptingKind(s.p.malformedFrame) && FirstOperation(ws, k + 1))
            && (IsCorrupted(w) ==> ShowsFault(w, s.p.malformedFrame))
            && (LastWords(w) ==> k + 1 == |ws| - 1)
  {
    FramesLatch(s);
    LoopCorruption(Steps(s), |s.frames|, s.p.malformedFrame, PlainOf(s), INITIAL, 0, room, k);
    FirstOperationShift(greeting, Session(s, room), k);
  }

  lemma OtherwisePlain(s: Setup, now: string, room: nat, k: nat)
    requires 0 < k < |Transcript(s, now, room)| && !IsCorrupted(Transcript(s, now, room)[k])
    ensures exists j: nat :: j < |s.frames| && Reached(CourseOf(s), j, 0) && Transcript(s, now, room)[k] == CourseOf(s).reply(j)
  {
    var js := TranscriptAnswers(s, now, room);
    assert Transcript(s, now, room)[1..][k - 1] == CourseOf(s).reply(js[k - 1]);
    assert js[k - 1] in js;
  }

  /** On a whole connection a write is corrupted, in the configured way, exactly when the profile corrupts and it is
      the first operation response; every other write after the greeting is what is due to some reached frame; and
      nothing follows an overflow frame or a logout response. */
  lemma TranscriptCorruption(s: Setup, now: string, room: nat, k: nat)
    requires k < |Transcript(s, now, room)|
    ensures var ws := Transcript(s, now, room);
            && (IsCorrupted(ws[k]) <==> CorruptingKind(s.p.malformedFrame) && FirstOperation(ws, k))
            && (IsCorrupted(ws[k]) ==> ShowsFault(ws[k], s.p.malformedFrame))
            && (k > 0 && !IsCorrupted(ws[k]) ==>
                  exists j: nat :: j < |s.frames| && Reached(CourseOf(s), j, 0) && ws[k] == CourseOf(s).reply(j))
            && (LastWords(ws[k]) ==> k == |ws| - 1)
  {
    if k > 0 {
      GreetingFirst(s, now, room);
      SessionCorruption(s, room - 1, Framed(Greeting, s.r.greeting(now)), k - 1);
      if !IsCorrupted(Transcript(s, now, room)[k]) {
        OtherwisePlain(s, now, room, k);
      }
    }
  }

  /** A failed write only cuts the transcript short: what does get out is a prefix of the undisturbed transcript. */
  lemma WriteFailureTruncates(s: Setup, now: string, room: nat)
    ensures Transcript(s, now, room) == Cut(Transcript(s, now, |s.frames| + 1), room)
  {
    var greeting, n := Framed(Greeting, s.r.greeting(now)), |s.frames|;
    if room > 0 {
      TranscriptParts(s, now, room);
      TranscriptParts(s, now, n + 1);
      CutFirst(greeting, Session(s, n), room - 1);
      CutFirst(greeting, [], room - 1);
      LoopLength(Steps(s), n, INITIAL, 0, n);
      LoopLength(Steps(s), n, INITIAL, 0, room - 1);
      if room - 1 <= n {
        LoopPrefix(Steps(s), n, INITIAL, 0, room - 1, n);
      } else {
        LoopPrefix(Steps(s), n, INITIAL, 0, n, room - 1);
      }
    }
  }

  lemma LaterFramesUnread(s: Setup, extra: seq<string>, room: nat)
    requires StateAt(Steps(s), |s.frames|).None?
    ensures Session(s.(frames := s.frames + extra), room) == Session(s, room)
  {
    var s' := s.(frames := s.frames + extra);
    forall e: State, k: nat | k < |s.frames| ensures Steps(s')(e, k) == Steps(s)(e, k) {
      assert s'.frames[k] == s.frames[k];
    }
    LaterFramesIgnored(Steps(s'), |s'.frames|, Steps(s), |s.frames|, INITIAL, 0, room);
  }

  lemma SameTranscript(s: Setup, s': Setup, now: string, room: nat)
    requires s.p == s'.p && s.r == s'.r && room > 0 && Session(s, room - 1) == Session(s', room - 1)
    ensures Transcript(s, now, room) == Transcript(s', now, room)
  {
    TranscriptParts(s, now, room);
    TranscriptParts(s', now, room);
  }

  /** Once a frame has ended the session - a logout, an overflow, a disconnect - no later frame changes what was written. */
  lemma NothingAfterTheEnd(s: Setup, extra: seq<string>, now: string, room: nat)
    requires StateAt(Steps(s), |s.frames|).None?
    ensures Transcript(s.(frames := s.frames + extra), now, room) == Transcript(s, now, room)
  {
    if room > 0 {
      LaterFramesUnread(s, extra, room - 1);
      SameTranscript(s, s.(frames := s.frames + extra), now, room);
    }
  }

  // ---- Without faults ------------------------------------------------------

  /** A fault-free server answers each frame on its own merits. */
  function Respond(r: Replies, xml: string, st: Stamp): Written {
    match r.classify(xml)
    case LoginFrame => Framed(LoginReply, r.allow(xml, st))
    case LogoutFrame => Framed(LogoutReply, r.logout(xml, st))
    case OperationFrame => Framed(OperationReply(false), r.normal(xml, st))
  }

  lemma FaultFreeStep(r: Replies, e: State, xml: string, st: Stamp)
    ensures var step := FrameStep(NO_FAULTS, r, e, xml, st);
            step.write == Some(Respond(r, xml, st)) && step.stop == (r.classify(xml) == LogoutFrame)
  {
  }

  function Reply(s: Setup): nat -> Written {
    (i: nat) => if i < |s.frames| then Respond(s.r, s.frames[i], s.stamps(i)) else Overflow("")
  }

  function IsLogout(s: Setup): nat -> bool {
    (i: nat) => i < |s.frames| && s.r.classify(s.frames[i]) == LogoutFrame
  }

  lemma FaultFreePure(s: Setup)
    requires s.p == NO_FAULTS
    ensures Pure(Steps(s), |s.frames|, Reply(s), IsLogout(s))
  {
    forall e: State, i: nat | i < |s.frames|
      ensures Steps(s)(e, i).write == Some(Reply(s)(i)) && Steps(s)(e, i).stop == IsLogout(s)(i)
    {
      FaultFreeStep(s.r, e, s.frames[i], s.stamps(i));
    }
  }

  /** How many frames a fault-free session handles: up to and including the first logout. */
  function Answered(s: Setup): (n: nat)
    ensures n <= |s.frames|
  {
    Handled(IsLogout(s), |s.frames|, 0)
  }

  /** A pure responder mapped over the frames up to the first logout. */
  function Responses(s: Setup): seq<Written> {
    seq(Answered(s), k requires 0 <= k < Answered(s) => Respond(s.r, s.frames[k], s.stamps(k)))
  }

  lemma FaultFreeSession(s: Setup, room: nat)
    requires s.p == NO_FAULTS && room >= |s.frames|
    ensures Session(s, room) == Responses(s)
  {
    FaultFreePure(s);
    PureLoop(Steps(s), |s.frames|, Reply(s), IsLogout(s), INITIAL, 0, room);
  }

  /** With the zero profile the transcript is the greeting, then a pure responder mapped over the frames up to the
      first logout. */
  lemma FaultFreeTranscript(s: Setup, now: string, room: nat)
    requires s.p == NO_FAULTS && room > |s.frames|
    ensures Transcript(s, now, room) == [Framed(Greeting, s.r.greeting(now))] + Responses(s)
  {
    FaultFreeSession(s, room - 1);
    assert |"pre-greeting"| > 0 && |"post-greeting"| > 0;
    TranscriptParts(s, now, room);
  }

  lemma ReplyAt(s: Setup, now: string, room: nat, k: nat)
    requires s.p == NO_FAULTS && room > |s.frames| && k < Answered(s)
    ensures var ws := Transcript(s, now, room); k + 1 < |ws| && ws[k + 1] == Respond(s.r, s.frames[k], s.stamps(k))
  {
    FaultFreeTranscript(s, now, room);
    assert Responses(s)[k] == Respond(s.r, s.frames[k], s.stamps(k));
  }

  /** The mock's own table on a domain:check. */
  predicate IsCheck(xml: string) {
    Classify(xml) == OperationFrame && !HasElement(xml, "hello") && Contains(xml, "domain:check")
  }

  lemma CheckReply(xml: string, st: Stamp)
    requires IsCheck(xml)
    ensures Respond(MOCK_REPLIES, xml, st) == Framed(OperationReply(false), DomainCheck.Response(xml, st.draw))
  {
    assert NormalBody(xml, st) == DomainCheck.Response(xml, st.draw);
  }

  /** A domain:check that a fault-free mock reaches is answered with exactly the names it asked for. */
  lemma ChecksAnswered(s: Setup, now: string, room: nat, k: nat)
    requires s.p == NO_FAULTS && s.r == MOCK_REPLIES && room > |s.frames|
    requires k < Answered(s) && IsCheck(s.frames[k])
    ensures var ws := Transcript(s, now, room);
            k + 1 < |ws| && ws[k + 1].Framed? && DomainCheck.Extract(ws[k + 1].text) == DomainCheck.Answered(s.frames[k])
  {
    ReplyAt(s, now, room, k);
    CheckReply(s.frames[k], s.stamps(k));
    DomainCheck.ResponseRoundTrip(s.frames[k], s.stamps(k).draw);
  }
}
