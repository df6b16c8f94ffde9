/** The session loop of the standalone RRI mock server: the same fault engine behind a different protocol. */
module RriMockServer {
  import opened Text
  import opened FaultInjection
  import opened SessionLoop
  import KeyValue

  function ActionOf(frame: string): string {
    ToUpper(KeyValue.FirstField(KeyValue.Parse(frame), "action"))
  }

  function SuccessText(draw: nat): string {
    "RESULT: success\nSTID: " + Decimal(draw) + "\n"
  }

  function FailText(draw: nat): string {
    "RESULT: failed\nSTID: " + Decimal(draw) + "\n"
  }

  datatype Kind = LoginFrame | LogoutFrame | QueryFrame

  function Classify(frame: string): Kind {
    if ActionOf(frame) == "LOGIN" then LoginFrame
    else if ActionOf(frame) == "LOGOUT" then LogoutFrame
    else QueryFrame
  }

  function FrameStep(p: Profile, e: State, kind: Kind, frame: string, draw: nat): Step {
    match kind
    case LoginFrame => (
      var e' := After(p, e, Login);
      match LoginDecision(p, e.logins + 1)
      case Hang => Step(e', None, false)
      case Disconnect => Step(e', None, true)
      case Deny => Step(e', Some(Framed(LoginReply, FailText(draw))), false)
      case _ => Step(e', Some(Framed(LoginReply, SuccessText(draw))), false))
    case LogoutFrame => Step(e, Some(Framed(LogoutReply, SuccessText(draw))), true)
    case QueryFrame =>
      var e' := After(p, e, Operation(frame));
      if OperationDecision(p, e.ops + 1, frame).0 == Disconnect then Step(e', None, true)
      else Step(e', Some(Framed(OperationReply(false), SuccessText(draw))), false)
  }

  /** `draws(i)` is the STID the shared counter gives out while frame i is handled. */
  datatype Setup = Setup(p: Profile, classify: string -> Kind, frames: seq<string>, draws: nat -> nat)

  function Steps(s: Setup): Handler {
    (e: State, i: nat) =>
      if i < |s.frames| then FrameStep(s.p, e, s.classify(s.frames[i]), s.frames[i], s.draws(i)) else Step(e, None, true)
  }

  /** RRI has no greeting: both disconnect points close the connection before the first frame. */
  function Transcript(s: Setup, room: nat): seq<Written> {
    if s.p.disconnectAt == "pre-greeting" || s.p.disconnectAt == "post-greeting" then []
    else Loop(Steps(s), |s.frames|, INITIAL, 0, room)
  }

  method HandleConn(conn: Conn, s: Setup)
    requires conn.out == []
    modifies conn
    ensures conn.out == Transcript(s, old(conn.room))
  {
    var engine := new FaultEngine(s.p);
    var action := engine.OnConnect();
    if action == Disconnect {
      return;
    }
    action := engine.AfterGreeting();
    if action == Disconnect {
      return;
    }
    var loggedIn := false;
    var i := 0;
    while i < |s.frames|
      invariant i <= |s.frames|
      invariant conn.out + Loop(Steps(s), |s.frames|, engine.View(), i, conn.room) == Transcript(s, old(conn.room))
    {
      ghost var e, out, room := engine.View(), conn.out, conn.room;
      var more, let := HandleFrame(engine, conn, s.classify(s.frames[i]), s.frames[i], s.draws(i));
      assert Steps(s)(e, i) == FrameStep(s.p, e, s.classify(s.frames[i]), s.frames[i], s.draws(i));
      PassKeeps(Steps(s), |s.frames|, e, i, out, room, conn.out, conn.room, more);
      if !more {
        assert conn.out + [] == conn.out;
        return;
      }
      loggedIn := loggedIn || let;   // tracked, never consulted
      i := i + 1;
    }
  }

  method HandleFrame(engine: FaultEngine, conn: Conn, kind: Kind, frame: string, draw: nat) returns (more: bool, let: bool)
    modifies engine, conn
    ensures var step := FrameStep(engine.profile, old(engine.View()), kind, frame, draw);
            engine.View() == step.engine && Obeys(step, old(conn.out), old(conn.room), conn.out, conn.room, more)
    ensures let ==> kind == LoginFrame && LoginDecision(engine.profile, old(engine.loginAttempts) + 1) == Allow
  {
    let := false;
    match kind {
      case LoginFrame =>
        var action := engine.OnLoginAttempt();
        if action == Hang {
          more := true;
        } else if action == Disconnect {
          more := false;
        } else if action == Deny {
          more := conn.Write(Framed(LoginReply, FailText(draw)));
        } else {
          let := true;
          more := conn.Write(Framed(LoginReply, SuccessText(draw)));
        }
      case LogoutFrame =>
        var _ := conn.Write(Framed(LogoutReply, SuccessText(draw)));
        more := false;
      case QueryFrame =>
        var verdict, delay := engine.OnOperation(frame);
        if verdict == Disconnect {
          return false, false;
        }
        more := conn.Write(Framed(OperationReply(false), SuccessText(draw)));
    }
  }

  // ---- The EPP-only faults do nothing here ---------------------------------

  /** A profile with the mismatch marks and the malformed-frame setting wiped out. */
  function WithoutEppFaults(p: Profile): Profile {
    p.(malformedFrame := "", faultMismatch := "",
       perOp := seq(|p.perOp|, i requires 0 <= i < |p.perOp| => p.perOp[i].(mismatch := false)))
  }

  lemma {:induction false} SameFirstMatch(p: Profile, frame: string, i: nat)
    requires i <= |p.perOp|
    ensures FirstMatch(WithoutEppFaults(p).perOp, frame, i) == FirstMatch(p.perOp, frame, i)
    decreases |p.perOp| - i
  {
    if i < |p.perOp| {
      SameFirstMatch(p, frame, i + 1);
    }
  }

  lemma SameStep(p: Profile, e: State, kind: Kind, frame: string, draw: nat)
    ensures FrameStep(WithoutEppFaults(p), e, kind, frame, draw) == FrameStep(p, e, kind, frame, draw)
  {
    SameFirstMatch(p, frame, 0);
  }

  /** The malformed-frame and mismatch faults of a profile, global or per rule, never show on an RRI connection. */
  lemma EppFaultsIgnored(s: Setup, room: nat)
    ensures Transcript(s.(p := WithoutEppFaults(s.p)), room) == Transcript(s, room)
  {
    var s' := s.(p := WithoutEppFaults(s.p));
    forall e: State, i: nat | i < |s.frames| ensures Steps(s')(e, i) == Steps(s)(e, i) {
      SameStep(s.p, e, s.classify(s.frames[i]), s.frames[i], s.draws(i));
    }
    SameLoop(Steps(s'), Steps(s), |s.frames|, INITIAL, 0, room);
  }

  // ---- Session laws --------------------------------------------------------

  lemma StepCounts(p: Profile, e: State, kind: Kind, frame: string, draw: nat)
    requires p.disconnectAfter > 0
    ensures CountKept(FrameStep(p, e, kind, frame, draw), e.ops, p.disconnectAfter)
  {
  }

  lemma FramesCount(s: Setup)
    requires s.p.disconnectAfter > 0
    ensures Counts(Steps(s), s.p.disconnectAfter)
  {
    forall e: State, i: nat ensures CountKept(Steps(s)(e, i), e.ops, s.p.disconnectAfter) {
      if i < |s.frames| {
        StepCounts(s.p, e, s.classify(s.frames[i]), s.frames[i], s.draws(i));
      }
    }
  }

  /** With a positive DisconnectAfter, at most that many queries are answered on a connection. */
  lemma AtMostDisconnectAfter(s: Setup, room: nat)
    requires s.p.disconnectAfter > 0
    ensures OperationCount(Transcript(s, room)) <= s.p.disconnectAfter
  {
    FramesCount(s);
    LoopOperationBound(Steps(s), |s.frames|, s.p.disconnectAfter, INITIAL, 0, room);
  }

  function Role(kind: Kind): Role {
    match kind case LoginFrame => LoginReply case LogoutFrame => LogoutReply case QueryFrame => OperationReply(false)
  }

  /** What frame i is answered with by a server that has seen so many logins. */
  function Plain(s: Setup, logins: nat, i: nat): Written
    requires i < |s.frames|
  {
    var kind := s.classify(s.frames[i]);
    var denied := kind == LoginFrame && LoginDecision(s.p, logins + 1) == Deny;
    Framed(Role(kind), if denied then FailText(s.draws(i)) else SuccessText(s.draws(i)))
  }

  function PlainOf(s: Setup): (State, nat) -> Written {
    (e: State, i: nat) => if i < |s.frames| then Plain(s, e.logins, i) else Overflow("")
  }

  lemma StepLatches(s: Setup, e: State, i: nat)
    requires i < |s.frames|
    ensures LatchKept(FrameStep(s.p, e, s.classify(s.frames[i]), s.frames[i], s.draws(i)), e.fired, "", Plain(s, e.logins, i))
  {
  }

  lemma FramesLatch(s: Setup)
    ensures Latches(Steps(s), "", PlainOf(s))
  {
    forall e: State, i: nat ensures LatchKept(Steps(s)(e, i), e.fired, "", PlainOf(s)(e, i)) {
      if i < |s.frames| {
        StepLatches(s, e, i);
      }
    }
  }

  /** How many logins and queries stand among the first i frames. */
  function Logins(s: Setup, i: nat): nat {
    if i == 0 || i > |s.frames| then 0 else Logins(s, i - 1) + if s.classify(s.frames[i - 1]) == LoginFrame then 1 else 0
  }

  function Queries(s: Setup, i: nat): nat {
    if i == 0 || i > |s.frames| then 0 else Queries(s, i - 1) + if s.classify(s.frames[i - 1]) == QueryFrame then 1 else 0
  }

  ghost predicate IsCutOff(s: Setup, i: nat)
    requires i < |s.frames|
  {
    s.classify(s.frames[i]) == QueryFrame && CutsOff(s.p, Queries(s, i) + 1, s.frames[i])
  }

  /** A frame gets no answer when it is a login under "hang" or "disconnect", or a query that is cut off. */
  ghost predicate Unanswered(s: Setup, i: nat)
    requires i < |s.frames|
  {
    || (s.classify(s.frames[i]) == LoginFrame && (s.p.loginMode == "hang" || s.p.loginMode == "disconnect"))
    || IsCutOff(s, i)
  }

  /** A frame ends the session when it is a logout, a login under "disconnect", or a query that is cut off. */
  ghost predicate Ends(s: Setup, i: nat)
    requires i < |s.frames|
  {
    var kind := s.classify(s.frames[i]);
    kind == LogoutFrame || (kind == LoginFrame && s.p.loginMode == "disconnect") || IsCutOff(s, i)
  }

  /** Frame i is a login the profile denies: all of them, or the first so many. */
  predicate IsDenied(s: Setup, i: nat)
    requires i < |s.frames|
  {
    && s.classify(s.frames[i]) == LoginFrame
    && (s.p.loginMode == "always" || (s.p.loginMode == "flap" && Logins(s, i) < s.p.loginFailCount))
  }

  /** What frame i is answered with: a failure when it is a denied login, else a success, under the STID drawn for it. */
  function Due(s: Setup, i: nat): Written
    requires i < |s.frames|
  {
    Framed(Role(s.classify(s.frames[i])), if IsDenied(s, i) then FailText(s.draws(i)) else SuccessText(s.draws(i)))
  }

  ghost function CourseOf(s: Setup): Course {
    Course((i: nat) => i < |s.frames| && Unanswered(s, i),
           (i: nat) => i < |s.frames| && Ends(s, i),
           (i: nat) => if i < |s.frames| then Due(s, i) else Overflow(""))
  }

  predicate Known(s: Setup, e: State, i: nat) {
    e.logins == Logins(s, i) && e.ops == Queries(s, i)
  }

  ghost function KnownOf(s: Setup): Invariant {
    (e: State, i: nat) => Known(s, e, i)
  }

  lemma LoginFollows(s: Setup, e: State, i: nat)
    requires i < |s.frames| && Known(s, e, i) && s.classify(s.frames[i]) == LoginFrame
    ensures StepFollows(Steps(s)(e, i), i, KnownOf(s), CourseOf(s))
  {
    LoginMeaning(s.p, e.logins + 1);
    var step := Steps(s)(e, i);
    assert step == FrameStep(s.p, e, LoginFrame, s.frames[i], s.draws(i));
    assert step.write.None? <==> Unanswered(s, i);
    assert step.stop == Ends(s, i);
    assert step.write.Some? ==> step.write.value == Due(s, i);
  }

  lemma QueryFollows(s: Setup, e: State, i: nat)
    requires i < |s.frames| && Known(s, e, i) && s.classify(s.frames[i]) == QueryFrame
    ensures StepFollows(Steps(s)(e, i), i, KnownOf(s), CourseOf(s))
  {
    VerdictIff(s.p, e.ops + 1, s.frames[i]);
    var step := Steps(s)(e, i);
    assert step == FrameStep(s.p, e, QueryFrame, s.frames[i], s.draws(i));
    assert step.write.None? <==> IsCutOff(s, i);
    assert step.stop == Ends(s, i);
    assert step.write.Some? ==> step.write.value == Due(s, i);
  }

  lemma LogoutFollows(s: Setup, e: State, i: nat)
    requires i < |s.frames| && Known(s, e, i) && s.classify(s.frames[i]) == LogoutFrame
    ensures StepFollows(Steps(s)(e, i), i, KnownOf(s), CourseOf(s))
  {
  }

  lemma SessionFollows(s: Setup)
    ensures Follows(Steps(s), |s.frames|, KnownOf(s), CourseOf(s))
  {
    forall e: State, i: nat | i < |s.frames| && KnownOf(s)(e, i) ensures StepFollows(Steps(s)(e, i), i, KnownOf(s), CourseOf(s)) {
      match s.classify(s.frames[i])
      case LoginFrame => LoginFollows(s, e, i);
      case LogoutFrame => LogoutFollows(s, e, i);
      case QueryFrame => QueryFollows(s, e, i);
    }
  }

  /** The transcript for every profile, every frame sequence and every number of writes that succeed: `js` are exactly
      the frames that no earlier frame ends the session before and that the profile does not leave unanswered, and they
      are answered in order with what is due to each. */
  lemma TranscriptAnswers(s: Setup, room: nat) returns (js: seq<nat>)
    ensures if s.p.disconnectAt == "pre-greeting" || s.p.disconnectAt == "post-greeting" then Transcript(s, room) == []
            else Said(Transcript(s, room), js, CourseOf(s), room)
    ensures Heard(js, CourseOf(s), 0, |s.frames|)
  {
    SessionFollows(s);
    js := LoopSays(Steps(s), |s.frames|, KnownOf(s), CourseOf(s), INITIAL, 0, room);
  }

  /** No reply is ever corrupted, whatever the profile: each is the success or failure text of some frame's STID, the
      failure only for a denied login. Nothing follows the reply to a LOGOUT. */
  lemma NeverCorrupted(s: Setup, room: nat, k: nat)
    requires k < |Transcript(s, room)|
    ensures var ws := Transcript(s, room);
            && (exists j: nat :: j < |s.frames| && ws[k] == CourseOf(s).reply(j)
                  && (ws[k].text == SuccessText(s.draws(j))
                      || (ws[k].text == FailText(s.draws(j)) && s.classify(s.frames[j]) == LoginFrame)))
            && (LastWords(ws[k]) ==> k == |ws| - 1)
  {
    FramesLatch(s);
    LoopCorruption(Steps(s), |s.frames|, "", PlainOf(s), INITIAL, 0, room, k);
    var js := TranscriptAnswers(s, room);
    assert js[k] in js;
    assert Transcript(s, room)[k] == CourseOf(s).reply(js[k]);
  }

  /** A failed write only cuts the transcript short. */
  lemma WriteFailureTruncates(s: Setup, room: nat)
    ensures Transcript(s, room) == Cut(Transcript(s, |s.frames|), room)
  {
    var n := |s.frames|;
    LoopLength(Steps(s), n, INITIAL, 0, n);
    LoopLength(Steps(s), n, INITIAL, 0, room);
    if room <= n {
      LoopPrefix(Steps(s), n, INITIAL, 0, room, n);
    } else {
      LoopPrefix(Steps(s), n, INITIAL, 0, n, room);
    }
  }

  /** Once a frame has ended the session - a LOGOUT or a disconnect - no later frame changes what was written. */
  lemma NothingAfterTheEnd(s: Setup, extra: seq<string>, room: nat)
    requires StateAt(Steps(s), |s.frames|).None?
    ensures Transcript(s.(frames := s.frames + extra), room) == Transcript(s, room)
  {
    var s' := s.(frames := s.frames + extra);
    forall e: State, k: nat | k < |s.frames| ensures Steps(s')(e, k) == Steps(s)(e, k) {
      assert s'.frames[k] == s.frames[k];
    }
    LaterFramesIgnored(Steps(s'), |s'.frames|, Steps(s), |s.frames|, INITIAL, 0, room);
  }

  lemma FaultFreeStep(e: State, kind: Kind, frame: string, draw: nat)
    ensures var step := FrameStep(NO_FAULTS, e, kind, frame, draw);
            step.write == Some(Framed(Role(kind), SuccessText(draw))) && step.stop == (kind == LogoutFrame)
  {
  }

  function Reply(s: Setup): nat -> Written {
    (i: nat) => if i < |s.frames| then Framed(Role(s.classify(s.frames[i])), SuccessText(s.draws(i))) else Overflow("")
  }

  function IsLogout(s: Setup): nat -> bool {
    (i: nat) => i < |s.frames| && s.classify(s.frames[i]) == LogoutFrame
  }

  lemma FaultFreePure(s: Setup)
    requires s.p == NO_FAULTS
    ensures Pure(Steps(s), |s.frames|, Reply(s), IsLogout(s))
  {
    forall e: State, i: nat | i < |s.frames|
      ensures Steps(s)(e, i).write == Some(Reply(s)(i)) && Steps(s)(e, i).stop == IsLogout(s)(i)
    {
      FaultFreeStep(e, s.classify(s.frames[i]), s.frames[i], s.draws(i));
    }
  }

  /** How many frames a fault-free session handles: up to and including the first LOGOUT. */
  function Answered(s: Setup): (n: nat)
    ensures n <= |s.frames|
  {
    Handled(IsLogout(s), |s.frames|, 0)
  }

  /** Without faults every frame up to the first LOGOUT is answered with success, logged in or not. */
  lemma FaultFreeTranscript(s: Setup, room: nat)
    requires s.p == NO_FAULTS && room >= |s.frames|
    ensures Transcript(s, room)
         == seq(Answered(s), k requires 0 <= k < Answered(s) =>
              Framed(Role(s.classify(s.frames[k])), SuccessText(s.draws(k))))
  {
    FaultFreePure(s);
    PureLoop(Steps(s), |s.frames|, Reply(s), IsLogout(s), INITIAL, 0, room);
    assert |"pre-greeting"| > 0 && |"post-greeting"| > 0;
  }

  // ---- What a client reads in a reply --------------------------------------

  function ResultText(verdict: string, draw: nat): string {
    KeyValue.Line("RESULT", verdict) + "\n" + (KeyValue.Line("STID", Decimal(draw)) + "\n" + "")
  }

  lemma TextsAreLines(draw: nat)
    ensures SuccessText(draw) == ResultText("success", draw) && FailText(draw) == ResultText("failed", draw)
  {
    var d := Decimal(draw);
    assert "RESULT: success\nSTID: " == KeyValue.Line("RESULT", "success") + "\nSTID: ";
    assert "RESULT: failed\nSTID: " == KeyValue.Line("RESULT", "failed") + "\nSTID: ";
    assert KeyValue.Line("STID", d) + "\n" + "" == "STID: " + d + "\n";
  }

  lemma KeysDiffer()
    ensures KeyValue.Writable("RESULT") && KeyValue.Writable("STID")
    ensures ToLower("RESULT") == ToLower("result") != ToLower("STID") == ToLower("stid")
  {
    assert |ToLower("RESULT")| != |ToLower("STID")|;
  }

  lemma ResultFields(verdict: string, draw: nat)
    requires KeyValue.NormalValue(verdict)
    ensures var m := KeyValue.Parse(ResultText(verdict, draw));
            KeyValue.FirstField(m, "result") == verdict && KeyValue.FirstField(m, "stid") == Decimal(draw)
  {
    KeysDiffer();
    KeyValue.NumbersAreNormal(draw);
    KeyValue.TwoLines("RESULT", verdict, "STID", Decimal(draw));
    var m := KeyValue.Parse(ResultText(verdict, draw));
    KeyValue.SameField(m, "RESULT", "result");
    KeyValue.SameField(m, "STID", "stid");
  }

  /** A client reads off each reply whether it succeeded and the STID drawn for it. */
  lemma ReplyFields(draw: nat)
    ensures var m := KeyValue.Parse(SuccessText(draw));
            KeyValue.FirstField(m, "result") == "success" && KeyValue.FirstField(m, "stid") == Decimal(draw)
    ensures var m := KeyValue.Parse(FailText(draw));
            KeyValue.FirstField(m, "result") == "failed" && KeyValue.FirstField(m, "stid") == Decimal(draw)
  {
    TextsAreLines(draw);
    ResultFields("success", draw);
    ResultFields("failed", draw);
  }

  // ---- The server's own classifier -----------------------------------------

  /** A frame written from fields in normal form, in any order, is classified by its action field in upper case. */
  lemma WrittenFrames(order: seq<string>, m: KeyValue.Fields)
    requires KeyValue.Enumerates(order, m) && KeyValue.Normal(m)
    ensures ActionOf(KeyValue.Render(order, m)) == ToUpper(KeyValue.FirstField(m, "action"))
    ensures Classify(KeyValue.Render(order, m)) == LogoutFrame <==> ToUpper(KeyValue.FirstField(m, "action")) == "LOGOUT"
    ensures Classify(KeyValue.Render(order, m)) == LoginFrame <==> ToUpper(KeyValue.FirstField(m, "action")) == "LOGIN"
  {
    KeyValue.RoundTripIff(order, m);
    assert |"LOGIN"| != |"LOGOUT"|;
  }

  /** A fault-free server closes right after the first frame that carries a logout action: of the frames a client
      writes, it answers that one and those before it, and no more. */
  lemma LogoutEndsSession(s: Setup, room: nat, k: nat, order: seq<string>, m: KeyValue.Fields)
    requires s.p == NO_FAULTS && s.classify == Classify && room >= |s.frames| && k < |s.frames|
    requires KeyValue.Enumerates(order, m) && KeyValue.Normal(m) && s.frames[k] == KeyValue.Render(order, m)
    requires ToUpper(KeyValue.FirstField(m, "action")) == "LOGOUT"
    requires forall j | 0 <= j < k :: ActionOf(s.frames[j]) != "LOGOUT"
    ensures var ws := Transcript(s, room); |ws| == k + 1 && ws[k] == Framed(LogoutReply, SuccessText(s.draws(k)))
  {
    WrittenFrames(order, m);
    FaultFreeTranscript(s, room);
    HandledUpTo(IsLogout(s), |s.frames|, 0, k);
  }
}
