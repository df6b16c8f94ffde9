/** Per-connection fault decisions of the standalone mock servers. */
module FaultInjection {
  import opened Text

  datatype Action = Allow | Deny | Hang | Disconnect | Mismatch

  datatype Rule = Rule(needle: string, delay: int, mismatch: bool, disconnect: bool)

  datatype Profile = Profile(
    loginMode: string, loginFailCount: int,
    disconnectAt: string, disconnectAfter: int,
    malformedFrame: string, faultMismatch: string,
    responseDelay: int, perOp: seq<Rule>)

  const NO_FAULTS := Profile("", 0, "", 0, "", "", 0, [])

  /** time.Duration arithmetic wraps at 64 bits. */
  function Wrap64(x: int): (r: int)
    ensures -0x8000_0000_0000_0000 <= r < 0x8000_0000_0000_0000
  {
    (x + 0x8000_0000_0000_0000) % 0x1_0000_0000_0000_0000 - 0x8000_0000_0000_0000
  }

  // ---- Decisions as functions of an index ----------------------------------

  function LoginDecision(p: Profile, attempt: nat): Action {
    if p.loginMode == "always" then Deny
    else if p.loginMode == "flap" then if attempt <= p.loginFailCount then Deny else Allow
    else if p.loginMode == "hang" then Hang
    else if p.loginMode == "disconnect" then Disconnect
    else Allow
  }

  predicate Applies(r: Rule, frame: string) {
    r.needle != "" && Contains(frame, r.needle)
  }

  /** The first rule that applies, from position i on. */
  function FirstMatch(rules: seq<Rule>, frame: string, i: nat): (r: Option<nat>)
    requires i <= |rules|
    ensures r.Some? ==> r.value < |rules|
    decreases |rules| - i
  {
    if i == |rules| then None
    else if Applies(rules[i], frame) then Some(i)
    else FirstMatch(rules, frame, i + 1)
  }

  predicate GlobalMismatch(p: Profile, frame: string) {
    p.faultMismatch != "" && Contains(frame, p.faultMismatch)
  }

  function OperationDecision(p: Profile, op: nat, frame: string): (Action, int) {
    if p.disconnectAfter > 0 && op > p.disconnectAfter then (Disconnect, 0)
    else
      match FirstMatch(p.perOp, frame, 0)
      case None => (if GlobalMismatch(p, frame) then Mismatch else Allow, p.responseDelay)
      case Some(i) =>
        var r := p.perOp[i];
        if r.disconnect then (Disconnect, 0)
        else (if r.mismatch then Mismatch else Allow, Wrap64(p.responseDelay + r.delay))
  }

  /** First match means: it applies, and no earlier rule does. */
  lemma {:induction false} FirstMatchMeaning(rules: seq<Rule>, frame: string, i: nat)
    requires i <= |rules|
    ensures forall k: nat :: FirstMatch(rules, frame, i) == Some(k) <==>
              i <= k < |rules| && Applies(rules[k], frame) && forall j | i <= j < k :: !Applies(rules[j], frame)
    decreases |rules| - i
  {
    if i < |rules| {
      FirstMatchMeaning(rules, frame, i + 1);
    }
  }

  /** A rule touches a frame when its needle is not empty and stands somewhere in it. */
  ghost predicate Touches(r: Rule, frame: string) {
    r.needle != "" && exists i: nat :: OccursAt(frame, r.needle, i)
  }

  ghost predicate FirstRule(p: Profile, frame: string, k: nat) {
    k < |p.perOp| && Touches(p.perOp[k], frame) && forall j | 0 <= j < k :: !Touches(p.perOp[j], frame)
  }

  /** The op-th operation of a connection is cut off: it is one too many, or its first rule disconnects. */
  ghost predicate CutsOff(p: Profile, op: nat, frame: string) {
    (p.disconnectAfter > 0 && op > p.disconnectAfter) || exists k: nat :: FirstRule(p, frame, k) && p.perOp[k].disconnect
  }

  /** A frame gets the wrong object: by its first rule, or by the global setting when no rule touches it. */
  ghost predicate Mismatches(p: Profile, frame: string) {
    || (exists k: nat :: FirstRule(p, frame, k) && p.perOp[k].mismatch)
    || ((forall k: nat :: !FirstRule(p, frame, k)) && p.faultMismatch != "" && exists i: nat :: OccursAt(frame, p.faultMismatch, i))
  }

  lemma ContainsIff(s: string, sub: string)
    ensures Contains(s, sub) <==> exists i: nat :: OccursAt(s, sub, i)
  {
    if i: nat :| OccursAt(s, sub, i) {
      assert 0 <= i <= |s|;
    }
  }

  lemma AppliesIff(r: Rule, frame: string)
    ensures Applies(r, frame) <==> Touches(r, frame)
  {
    ContainsIff(frame, r.needle);
  }

  lemma FirstRuleIff(p: Profile, frame: string, k: nat)
    ensures FirstMatch(p.perOp, frame, 0) == Some(k) <==> FirstRule(p, frame, k)
  {
    FirstMatchMeaning(p.perOp, frame, 0);
    forall r | r in p.perOp ensures Applies(r, frame) <==> Touches(r, frame) {
      AppliesIff(r, frame);
    }
  }

  /** The verdict on an operation, told from the profile's fields. */
  lemma VerdictIff(p: Profile, op: nat, frame: string)
    ensures var verdict := OperationDecision(p, op, frame).0;
            && (verdict == Disconnect <==> CutsOff(p, op, frame))
            && (verdict == Mismatch <==> !CutsOff(p, op, frame) && Mismatches(p, frame))
            && (verdict == Allow <==> !CutsOff(p, op, frame) && !Mismatches(p, frame))
  {
    forall k: nat ensures FirstMatch(p.perOp, frame, 0) == Some(k) <==> FirstRule(p, frame, k) {
      FirstRuleIff(p, frame, k);
    }
    ContainsIff(frame, p.faultMismatch);
    var m := FirstMatch(p.perOp, frame, 0);
    if m.Some? {
      assert FirstRule(p, frame, m.value);
    }
  }

  /** An operation within the limit is decided and delayed by its first rule on top of the global delay, or by the
      global settings when no rule touches it. */
  lemma OperationMeaning(p: Profile, op: nat, frame: string)
    requires p.disconnectAfter <= 0 || op <= p.disconnectAfter
    ensures forall k: nat | FirstRule(p, frame, k) ::
              OperationDecision(p, op, frame)
              == if p.perOp[k].disconnect then (Disconnect, 0)
                 else (if p.perOp[k].mismatch then Mismatch else Allow, Wrap64(p.responseDelay + p.perOp[k].delay))
    ensures (forall k: nat :: !FirstRule(p, frame, k)) ==>
              && OperationDecision(p, op, frame).1 == p.responseDelay
              && (OperationDecision(p, op, frame).0 == Mismatch
                  <==> p.faultMismatch != "" && exists i: nat :: OccursAt(frame, p.faultMismatch, i))
  {
    forall k: nat ensures FirstMatch(p.perOp, frame, 0) == Some(k) <==> FirstRule(p, frame, k) {
      FirstRuleIff(p, frame, k);
    }
    ContainsIff(frame, p.faultMismatch);
    var m := FirstMatch(p.perOp, frame, 0);
    if m.Some? {
      assert FirstRule(p, frame, m.value);
    }
  }

  /** Wrapping changes a duration by a multiple of 2^64 and keeps what fits. */
  lemma WrapMeaning(x: int) returns (k: int)
    ensures Wrap64(x) == x + k * 0x1_0000_0000_0000_0000
    ensures -0x8000_0000_0000_0000 <= x < 0x8000_0000_0000_0000 ==> Wrap64(x) == x
  {
    k := -((x + 0x8000_0000_0000_0000) / 0x1_0000_0000_0000_0000);
  }

  /** The verdict on the n-th login of a connection, told from the profile's fields. */
  lemma LoginMeaning(p: Profile, attempt: nat)
    ensures var verdict := LoginDecision(p, attempt);
            && (verdict == Deny <==> p.loginMode == "always" || (p.loginMode == "flap" && attempt <= p.loginFailCount))
            && (verdict == Hang <==> p.loginMode == "hang")
            && (verdict == Disconnect <==> p.loginMode == "disconnect")
            && verdict != Mismatch
  {
    assert |"always"| == 6 && |"flap"| == 4 && "hang"[0] == 'h' && "flap"[0] == 'f' && |"disconnect"| == 10;
  }

  const INVALID_XML := "<?xml version=\"1.0\"?><not valid xml<<<"
  const GARBAGE: string := [0xFF as char, 0xFE as char, 0x00 as char, 0x01 as char,
                            0xDE as char, 0xAD as char, 0xBE as char, 0xEF as char]

  predicate CorruptingKind(kind: string) {
    kind == "length_overflow" || kind == "invalid_xml" || kind == "garbage"
  }

  /** What becomes of the n-th response body (counting from 0) that reaches the fault stage. */
  datatype Fate = Sent(text: string) | Overclaimed(text: string)

  function ResponseFate(p: Profile, fired: bool, body: string): Fate {
    if fired then Sent(body)
    else if p.malformedFrame == "length_overflow" then Overclaimed(body)
    else if p.malformedFrame == "invalid_xml" then Sent(INVALID_XML)
    else if p.malformedFrame == "garbage" then Sent(GARBAGE)
    else Sent(body)
  }

  // ---- The engine ----------------------------------------------------------

  datatype State = State(logins: nat, ops: nat, fired: bool)

  const INITIAL := State(0, 0, false)

  datatype Query = Login | Operation(frame: string) | Response(body: string)
  datatype Answer = LoginAnswer(action: Action) | OperationAnswer(verdict: Action, delay: int) | ResponseAnswer(fate: Fate)

  function After(p: Profile, s: State, q: Query): State {
    match q
    case Login => s.(logins := s.logins + 1)
    case Operation(_) => s.(ops := s.ops + 1)
    case Response(_) => s.(fired := s.fired || CorruptingKind(p.malformedFrame))
  }

  function Reply(p: Profile, s: State, q: Query): Answer {
    match q
    case Login => LoginAnswer(LoginDecision(p, s.logins + 1))
    case Operation(frame) =>
      var (a, d) := OperationDecision(p, s.ops + 1, frame);
      OperationAnswer(a, d)
    case Response(body) => ResponseAnswer(ResponseFate(p, s.fired, body))
  }

  /** The raw frames a session puts on the wire, and how many more writes succeed. */
  datatype Written =
    | Framed(role: Role, text: string)
    | Overflow(text: string)            // a header claiming 100 bytes more than the text that follows
  datatype Role = Greeting | LoginReply | LogoutReply | OperationReply(corrupted: bool)

  class Conn {
    var out: seq<Written>
    var room: nat

    constructor (room: nat)
      ensures out == [] && this.room == room
    {
      out, this.room := [], room;
    }

    method Write(w: Written) returns (ok: bool)
      modifies this
      ensures ok <==> old(room) > 0
      ensures out == (if ok then old(out) + [w] else old(out)) && room == (if ok then old(room) - 1 else 0)
    {
      ok := room > 0;
      if ok {
        out, room := out + [w], room - 1;
      }
    }
  }

  class FaultEngine {
    const profile: Profile
    var loginAttempts: nat
    var opCount: nat
    var faultFired: bool

    function View(): State
      reads this
    {
      State(loginAttempts, opCount, faultFired)
    }

    constructor (profile: Profile)
      ensures this.profile == profile && View() == INITIAL
    {
      this.profile := profile;
      loginAttempts, opCount, faultFired := 0, 0, false;
    }

    method OnConnect() returns (a: Action)
      ensures a == if profile.disconnectAt == "pre-greeting" then Disconnect else Allow
    {
      a := if profile.disconnectAt == "pre-greeting" then Disconnect else Allow;
    }

    method AfterGreeting() returns (a: Action)
      ensures a == if profile.disconnectAt == "post-greeting" then Disconnect else Allow
    {
      a := if profile.disconnectAt == "post-greeting" then Disconnect else Allow;
    }

    method OnLoginAttempt() returns (a: Action)
      modifies this
      ensures LoginAnswer(a) == Reply(profile, old(View()), Login) && View() == After(profile, old(View()), Login)
    {
      loginAttempts := loginAttempts + 1;
      match profile.loginMode {
        case "always" => return Deny;
        case "flap" =>
          if loginAttempts <= profile.loginFailCount {
            return Deny;
          }
          return Allow;
        case "hang" => return Hang;
        case "disconnect" => return Disconnect;
        case _ => return Allow;
      }
    }

    method OnOperation(frame: string) returns (a: Action, delay: int)
      modifies this
      ensures OperationAnswer(a, delay) == Reply(profile, old(View()), Operation(frame))
      ensures View() == After(profile, old(View()), Operation(frame))
    {
      opCount := opCount + 1;
      if profile.disconnectAfter > 0 && opCount > profile.disconnectAfter {
        return Disconnect, 0;
      }
      delay := profile.responseDelay;
      for i := 0 to |profile.perOp|
        invariant delay == profile.responseDelay
        invariant FirstMatch(profile.perOp, frame, 0) == FirstMatch(profile.perOp, frame, i)
      {
        var rule := profile.perOp[i];
        if rule.needle == "" || !Contains(frame, rule.needle) {
          continue;
        }
        if rule.disconnect {
          return Disconnect, 0;
        }
        delay := Wrap64(delay + rule.delay);
        if rule.mismatch {
          return Mismatch, delay;
        }
        return Allow, delay;
      }
      if profile.faultMismatch != "" && Contains(frame, profile.faultMismatch) {
        return Mismatch, delay;
      }
      return Allow, delay;
    }

    /** Fires at most once. An overflow goes straight to the connection, and the caller must hang up. */
    method ApplyResponseFault(conn: Conn, body: string) returns (text: string, a: Action)
      modifies this, conn
      ensures View() == After(profile, old(View()), Response(body))
      ensures match ResponseFate(profile, old(faultFired), body)
              case Sent(t) => text == t && a == Allow && conn.out == old(conn.out) && conn.room == old(conn.room)
              case Overclaimed(t) =>
                && a == Disconnect
                && conn.out == (if old(conn.room) > 0 then old(conn.out) + [Overflow(t)] else old(conn.out))
                && conn.room == (if old(conn.room) > 0 then old(conn.room) - 1 else 0)
    {
      if faultFired || profile.malformedFrame == "" {
        return body, Allow;
      }
      match profile.malformedFrame {
        case "length_overflow" =>
          faultFired := true;
          var _ := conn.Write(Overflow(body));
          return "", Disconnect;
        case "invalid_xml" =>
          faultFired := true;
          return INVALID_XML, Allow;
        case "garbage" =>
          faultFired := true;
          return GARBAGE, Allow;
        case _ => return body, Allow;
      }
    }
  }

  // ---- Interleaved runs ----------------------------------------------------

  /** The answers to a sequence of queries, whatever their mix. */
  function Run(p: Profile, s: State, qs: seq<Query>): seq<Answer>
    decreases |qs|
  {
    if qs == [] then [] else [Reply(p, s, qs[0])] + Run(p, After(p, s, qs[0]), qs[1..])
  }

  function LoginAnswers(answers: seq<Answer>): seq<Answer> {
    if answers == [] then []
    else (if answers[0].LoginAnswer? then [answers[0]] else []) + LoginAnswers(answers[1..])
  }

  function OperationAnswers(answers: seq<Answer>): seq<Answer> {
    if answers == [] then []
    else (if answers[0].OperationAnswer? then [answers[0]] else []) + OperationAnswers(answers[1..])
  }

  function ResponseAnswers(answers: seq<Answer>): seq<Answer> {
    if answers == [] then []
    else (if answers[0].ResponseAnswer? then [answers[0]] else []) + ResponseAnswers(answers[1..])
  }

  function LoginCount(qs: seq<Query>): nat {
    if qs == [] then 0 else (if qs[0].Login? then 1 else 0) + LoginCount(qs[1..])
  }

  function Frames(qs: seq<Query>): seq<string> {
    if qs == [] then [] else (if qs[0].Operation? then [qs[0].frame] else []) + Frames(qs[1..])
  }

  function Bodies(qs: seq<Query>): seq<string> {
    if qs == [] then [] else (if qs[0].Response? then [qs[0].body] else []) + Bodies(qs[1..])
  }

  function LoginsAlone(p: Profile, done: nat, count: nat): seq<Answer> {
    seq(count, i requires 0 <= i < count => LoginAnswer(LoginDecision(p, done + i + 1)))
  }

  function OperationsAlone(p: Profile, done: nat, frames: seq<string>): seq<Answer> {
    seq(|frames|, i requires 0 <= i < |frames| =>
      var (a, d) := OperationDecision(p, done + i + 1, frames[i]); OperationAnswer(a, d))
  }

  /** A corrupted response, by the kind of fault. */
  function Corrupted(kind: string, body: string): Fate {
    if kind == "length_overflow" then Overclaimed(body)
    else if kind == "invalid_xml" then Sent(INVALID_XML)
    else Sent(GARBAGE)
  }

  /** Only the very first response can be corrupted; every other goes out as it is. */
  function ResponsesAlone(p: Profile, fired: bool, bodies: seq<string>): seq<Answer> {
    seq(|bodies|, i requires 0 <= i < |bodies| =>
      ResponseAnswer(if i == 0 && !fired && CorruptingKind(p.malformedFrame) then Corrupted(p.malformedFrame, bodies[i])
                     else Sent(bodies[i])))
  }

  lemma FirstLoginAlone(p: Profile, done: nat, count: nat)
    ensures LoginsAlone(p, done, count + 1) == [LoginAnswer(LoginDecision(p, done + 1))] + LoginsAlone(p, done + 1, count)
  {
  }

  lemma FirstOperationAlone(p: Profile, done: nat, frame: string, rest: seq<string>)
    ensures var (a, d) := OperationDecision(p, done + 1, frame);
            OperationsAlone(p, done, [frame] + rest) == [OperationAnswer(a, d)] + OperationsAlone(p, done + 1, rest)
  {
  }

  lemma FirstResponseAlone(p: Profile, fired: bool, body: string, rest: seq<string>)
    ensures ResponsesAlone(p, fired, [body] + rest)
         == [ResponseAnswer(ResponseFate(p, fired, body))]
            + ResponsesAlone(p, fired || CorruptingKind(p.malformedFrame), rest)
  {
  }

  lemma RunStep(p: Profile, s: State, qs: seq<Query>)
    requires qs != []
    ensures var run, rest := Run(p, s, qs), Run(p, After(p, s, qs[0]), qs[1..]);
            && LoginAnswers(run) == (if qs[0].Login? then [Reply(p, s, qs[0])] else []) + LoginAnswers(rest)
            && OperationAnswers(run) == (if qs[0].Operation? then [Reply(p, s, qs[0])] else []) + OperationAnswers(rest)
            && ResponseAnswers(run) == (if qs[0].Response? then [Reply(p, s, qs[0])] else []) + ResponseAnswers(rest)
  {
    var run := Run(p, s, qs);
    assert run[0] == Reply(p, s, qs[0]) && run[1..] == Run(p, After(p, s, qs[0]), qs[1..]);
  }

  lemma {:induction false} LoginsProject(p: Profile, s: State, qs: seq<Query>)
    ensures LoginAnswers(Run(p, s, qs)) == LoginsAlone(p, s.logins, LoginCount(qs))
    decreases |qs|
  {
    if qs != [] {
      LoginsProject(p, After(p, s, qs[0]), qs[1..]);
      RunStep(p, s, qs);
      if qs[0].Login? {
        FirstLoginAlone(p, s.logins, LoginCount(qs[1..]));
      }
    }
  }

  lemma {:induction false} OperationsProject(p: Profile, s: State, qs: seq<Query>)
    ensures OperationAnswers(Run(p, s, qs)) == OperationsAlone(p, s.ops, Frames(qs))
    decreases |qs|
  {
    if qs != [] {
      OperationsProject(p, After(p, s, qs[0]), qs[1..]);
      RunStep(p, s, qs);
      if qs[0].Operation? {
        FirstOperationAlone(p, s.ops, qs[0].frame, Frames(qs[1..]));
      }
    }
  }

  lemma {:induction false} ResponsesProject(p: Profile, s: State, qs: seq<Query>)
    ensures ResponseAnswers(Run(p, s, qs)) == ResponsesAlone(p, s.fired, Bodies(qs))
    decreases |qs|
  {
    if qs != [] {
      ResponsesProject(p, After(p, s, qs[0]), qs[1..]);
      RunStep(p, s, qs);
      if qs[0].Response? {
        FirstResponseAlone(p, s.fired, qs[0].body, Bodies(qs[1..]));
      }
    }
  }

  /** However logins, operations and responses interleave, the run is three independent runs: login answers
      depend on the login index only, operation answers on the operation index and frame, and of the
      responses only the first is ever corrupted, all others going out as they are. */
  lemma InterleavingProjects(p: Profile, s: State, qs: seq<Query>)
    ensures LoginAnswers(Run(p, s, qs)) == LoginsAlone(p, s.logins, LoginCount(qs))
    ensures OperationAnswers(Run(p, s, qs)) == OperationsAlone(p, s.ops, Frames(qs))
    ensures ResponseAnswers(Run(p, s, qs)) == ResponsesAlone(p, s.fired, Bodies(qs))
  {
    LoginsProject(p, s, qs);
    OperationsProject(p, s, qs);
    ResponsesProject(p, s, qs);
  }

  /** Flapping login: in any run the first loginFailCount attempts are denied and every later one is let in. */
  lemma FlapThenAllow(p: Profile, qs: seq<Query>)
    requires p.loginMode == "flap"
    ensures LoginAnswers(Run(p, INITIAL, qs))
         == seq(LoginCount(qs), i => LoginAnswer(if i < p.loginFailCount then Deny else Allow))
  {
    InterleavingProjects(p, INITIAL, qs);
    assert "flap" != "always" by { assert |"flap"| != |"always"|; }
  }
}
