/** The in-process RRI mock: connection goroutines sharing a user table, a script queue and an STID counter.
    Each shared access is one atomic step; a run is any sequence of steps. */
module InProcessRri {
  import opened Text
  import KeyValue

  datatype Item = Reply(text: string) | Malformed | Unknown

  datatype AutoReply = Success | LoginFirst | AuthFailed

  datatype Phase =
    | Reading                              // blocked in ReadRRIFrame
    | Checking(user: string, pass: string) // a LOGIN frame, before the user table is read
    | Answering(reply: AutoReply)          // an automatic reply, before its STID is drawn
    | Waiting(logout: bool)                // a post-login command, before a script item is received
    | Closed

  datatype Conn = Conn(loggedIn: bool, phase: Phase)

  datatype Event =
    | Pushed(item: Item)
    | Registered(user: string, digest: string)
    | FrameRead(c: nat, cmd: Command)
    | Checked(c: nat, ok: bool)                    // a LOGIN against the user table
    | Replied(c: nat, n: nat, reply: AutoReply)    // under the STID just drawn
    | Consumed(c: nat, item: Item)

  datatype State = State(
    script: seq<Item>, users: map<string, string>, stids: nat,
    conns: map<nat, Conn>, cancelled: bool, log: seq<Event>)

  const SCRIPT_ROOM := 32
  const EMPTY := State([], map[], 0, map[], false, [])

  /** The parts of a frame the server looks at; the action is in upper case. */
  datatype Command = Command(action: string, user: string, password: string)

  function Decoded(frame: string): Command {
    var fields := KeyValue.Parse(frame);
    Command(ToUpper(KeyValue.FirstField(fields, "action")), KeyValue.FirstField(fields, "user"),
            KeyValue.FirstField(fields, "password"))
  }

  /** The moves of the test goroutine and of each connection goroutine. */
  datatype Move =
    | Push(item: Item) | AddUser(user: string, digest: string) | Cancel
    | Accept(c: nat)
    | Read(c: nat, cmd: Command) | ReadFails(c: nat)
    | Check(c: nat) | Answer(c: nat, written: bool)
    | Consume(c: nat, written: bool) | GiveUp(c: nat)

  /** What a connection does next with the command it has read. */
  function PhaseAfterRead(loggedIn: bool, cmd: Command): Phase {
    if !loggedIn && cmd.action != "LOGIN" then Answering(LoginFirst)
    else if cmd.action == "LOGIN" then Checking(cmd.user, cmd.password)
    else Waiting(cmd.action == "LOGOUT")
  }

  function SetPhase(s: State, c: nat, phase: Phase): State
    requires c in s.conns
  {
    s.(conns := s.conns[c := s.conns[c].(phase := phase)])
  }

  function Note(s: State, e: Event): State {
    s.(log := s.log + [e])
  }

  predicate Enabled(s: State, m: Move) {
    match m
    case Push(_) => |s.script| < SCRIPT_ROOM
    case AddUser(_, _) => true
    case Cancel => true
    case Accept(c) => c !in s.conns
    case Read(c, _) => c in s.conns && s.conns[c].phase.Reading?
    case ReadFails(c) => c in s.conns && s.conns[c].phase.Reading?
    case Check(c) => c in s.conns && s.conns[c].phase.Checking?
    case Answer(c, _) => c in s.conns && s.conns[c].phase.Answering?
    case Consume(c, _) => c in s.conns && s.conns[c].phase.Waiting? && s.script != []
    case GiveUp(c) => c in s.conns && s.conns[c].phase.Waiting? && s.cancelled
  }

  /** One atomic step; a move that is not possible now leaves the state alone. */
  function Step(s: State, m: Move): State {
    if !Enabled(s, m) then s
    else
      match m
      case Push(item) => Note(s.(script := s.script + [item]), Pushed(item))
      case AddUser(user, digest) => Note(s.(users := s.users[user := digest]), Registered(user, digest))
      case Cancel => s.(cancelled := true)
      case Accept(c) => s.(conns := s.conns[c := Conn(false, Reading)])
      case Read(c, cmd) =>
        Note(SetPhase(s, c, PhaseAfterRead(s.conns[c].loggedIn, cmd)), FrameRead(c, cmd))
      case ReadFails(c) => SetPhase(s, c, Closed)
      case Check(c) => (
        var Checking(user, pass) := s.conns[c].phase;
        if user in s.users && s.users[user] == pass
        then Note(s.(conns := s.conns[c := Conn(true, Answering(Success))]), Checked(c, true))
        else Note(SetPhase(s, c, Answering(AuthFailed)), Checked(c, false)))
      case Answer(c, written) =>
        Note(SetPhase(s, c, if written then Reading else Closed).(stids := s.stids + 1),
             Replied(c, s.stids + 1, s.conns[c].phase.reply))
      case Consume(c, written) => (
        var item := s.script[0];
        var next := if !written || item.Unknown? || s.conns[c].phase.logout then Closed else Reading;
        Note(SetPhase(s, c, next).(script := s.script[1..]), Consumed(c, item)))
      case GiveUp(c) => SetPhase(s, c, Closed)
  }

  function Run(moves: seq<Move>): State {
    if moves == [] then EMPTY else Step(Run(moves[..|moves| - 1]), moves[|moves| - 1])
  }

  // ---- Conservation of the script ------------------------------------------

  function PushedItems(log: seq<Event>): seq<Item> {
    if log == [] then []
    else
      var e := log[|log| - 1];
      PushedItems(log[..|log| - 1]) + if e.Pushed? then [e.item] else []
  }

  function ConsumedItems(log: seq<Event>): seq<Item> {
    if log == [] then []
    else
      var e := log[|log| - 1];
      ConsumedItems(log[..|log| - 1]) + if e.Consumed? then [e.item] else []
  }

  function DrawnStids(log: seq<Event>): seq<nat> {
    if log == [] then []
    else
      var e := log[|log| - 1];
      DrawnStids(log[..|log| - 1]) + if e.Replied? then [e.n] else []
  }

  lemma LogGrows(log: seq<Event>, e: Event)
    ensures PushedItems(log + [e]) == PushedItems(log) + if e.Pushed? then [e.item] else []
    ensures ConsumedItems(log + [e]) == ConsumedItems(log) + if e.Consumed? then [e.item] else []
    ensures DrawnStids(log + [e]) == DrawnStids(log) + if e.Replied? then [e.n] else []
  {
    assert (log + [e])[..|log|] == log;
  }

  /** The event a step logs, if any. */
  function EventOf(s: State, m: Move): seq<Event> {
    if !Enabled(s, m) then []
    else
      match m
      case Push(item) => [Pushed(item)]
      case AddUser(user, digest) => [Registered(user, digest)]
      case Read(c, cmd) => [FrameRead(c, cmd)]
      case Check(c) => (
        var Checking(user, pass) := s.conns[c].phase;
        [Checked(c, user in s.users && s.users[user] == pass)])
      case Answer(c, _) => [Replied(c, s.stids + 1, s.conns[c].phase.reply)]
      case Consume(c, _) => [Consumed(c, s.script[0])]
      case _ => []
  }

  lemma StepLogs(s: State, m: Move)
    ensures Step(s, m).log == s.log + EventOf(s, m)
  {
  }

  ghost predicate Conserved(s: State) {
    ConsumedItems(s.log) + s.script == PushedItems(s.log)
  }

  lemma PutLast(taken: seq<Item>, queue: seq<Item>, item: Item)
    ensures taken + (queue + [item]) == taken + queue + [item]
  {
  }

  lemma TakeFirst(taken: seq<Item>, queue: seq<Item>)
    requires queue != []
    ensures taken + [queue[0]] + queue[1..] == taken + queue
  {
  }

  /** What a step does to the three lists read off the log. */
  lemma StepLists(s: State, m: Move)
    ensures var log, e := Step(s, m).log, EventOf(s, m);
            && PushedItems(log) == PushedItems(s.log) + (if e != [] && e[0].Pushed? then [e[0].item] else [])
            && ConsumedItems(log) == ConsumedItems(s.log) + (if e != [] && e[0].Consumed? then [e[0].item] else [])
            && DrawnStids(log) == DrawnStids(s.log) + (if e != [] && e[0].Replied? then [e[0].n] else [])
  {
    StepLogs(s, m);
    if EventOf(s, m) != [] {
      LogGrows(s.log, EventOf(s, m)[0]);
    }
  }

  /** The queue and the counter after a step. */
  lemma StepQueues(s: State, m: Move)
    ensures Step(s, m).script
         == if !Enabled(s, m) then s.script
            else if m.Push? then s.script + [m.item] else if m.Consume? then s.script[1..] else s.script
    ensures Step(s, m).stids == if m.Answer? && Enabled(s, m) then s.stids + 1 else s.stids
  {
  }

  lemma ConservedPush(log: seq<Item>, queue: seq<Item>, pushed: seq<Item>, item: Item)
    requires log + queue == pushed
    ensures log + (queue + [item]) == pushed + [item]
  {
    PutLast(log, queue, item);
  }

  lemma StepConserves(s: State, m: Move)
    requires Conserved(s)
    ensures Conserved(Step(s, m))
  {
    StepLists(s, m);
    StepQueues(s, m);
    if m.Push? && Enabled(s, m) {
      ConservedPush(ConsumedItems(s.log), s.script, PushedItems(s.log), m.item);
    } else if m.Consume? && Enabled(s, m) {
      TakeFirst(ConsumedItems(s.log), s.script);
    }
  }

  /** In every run the items handed out, in order, followed by those still queued, are the items pushed, in order:
      FIFO, each item to one connection, none lost or repeated. */
  lemma {:induction false} ScriptConserved(moves: seq<Move>)
    ensures Conserved(Run(moves))
  {
    if moves != [] {
      ScriptConserved(moves[..|moves| - 1]);
      StepConserves(Run(moves[..|moves| - 1]), moves[|moves| - 1]);
    }
  }

  ghost predicate CountsUp(s: State) {
    DrawnStids(s.log) == seq(s.stids, i => i + 1)
  }

  lemma OtherStepsDrawNothing(s: State, m: Move)
    requires !m.Answer? || !Enabled(s, m)
    ensures DrawnStids(Step(s, m).log) == DrawnStids(s.log) && Step(s, m).stids == s.stids
  {
    StepLists(s, m);
    StepQueues(s, m);
  }

  lemma AnswerDrawsNext(s: State, m: Move)
    requires m.Answer? && Enabled(s, m)
    ensures DrawnStids(Step(s, m).log) == DrawnStids(s.log) + [s.stids + 1] && Step(s, m).stids == s.stids + 1
  {
    assert EventOf(s, m) == [Replied(m.c, s.stids + 1, s.conns[m.c].phase.reply)];
    StepLists(s, m);
    StepQueues(s, m);
  }

  lemma CountGrows(n: nat)
    ensures seq(n, i => i + 1) + [n + 1] == seq(n + 1, i => i + 1)
  {
  }

  lemma StepCountsUp(s: State, m: Move)
    requires CountsUp(s)
    ensures CountsUp(Step(s, m))
  {
    if m.Answer? && Enabled(s, m) {
      AnswerDrawsNext(s, m);
      CountGrows(s.stids);
    } else {
      OtherStepsDrawNothing(s, m);
    }
  }

  /** STIDs are drawn 1, 2, 3, ... whichever connections draw them. */
  lemma {:induction false} StidsCountUp(moves: seq<Move>)
    ensures CountsUp(Run(moves))
  {
    if moves != [] {
      StidsCountUp(moves[..|moves| - 1]);
      StepCountsUp(Run(moves[..|moves| - 1]), moves[|moves| - 1]);
    }
  }

  function StidText(n: nat): string {
    "mock-" + Decimal(n)
  }

  function AutoText(reply: AutoReply, n: nat): string {
    match reply
    case Success => "RESULT: success\nSTID: " + StidText(n) + "\n"
    case LoginFirst => "RESULT: failed\nSTID: " + StidText(n) + ("\nERROR: " + "83000000010 Please login first" + "\n")
    case AuthFailed => "RESULT: failed\nSTID: " + StidText(n) + ("\nERROR: " + "83000000010 Authentication failed" + "\n")
  }

  function ErrorText(reply: AutoReply): string {
    match reply
    case Success => ""
    case LoginFirst => "83000000010 Please login first"
    case AuthFailed => "83000000010 Authentication failed"
  }

  lemma KeysDiffer()
    ensures KeyValue.Writable("RESULT") && KeyValue.Writable("STID") && KeyValue.Writable("ERROR")
    ensures ToLower("RESULT") == ToLower("result") && ToLower("STID") == ToLower("stid") && ToLower("ERROR") == ToLower("error")
    ensures ToLower("RESULT") != ToLower("STID") && ToLower("ERROR") != ToLower("STID") && ToLower("RESULT") != ToLower("ERROR")
  {
    assert |ToLower("STID")| == 4 && |ToLower("RESULT")| == 6 && |ToLower("ERROR")| == 5;
  }

  lemma ErrorsNormal(reply: AutoReply)
    ensures KeyValue.NormalValue(ErrorText(reply))
  {
  }

  lemma StidsNormal(n: nat)
    ensures KeyValue.NormalValue(StidText(n))
  {
    KeyValue.NumbersAreNormal(n);
    var s, d := StidText(n), Decimal(n);
    assert s[|s| - 1] == d[|d| - 1];
  }

  /** The last line of a failure. */
  function ErrorLine(reply: AutoReply): string {
    if reply.Success? then "" else KeyValue.Line("ERROR", ErrorText(reply)) + "\n" + ""
  }

  function Verdict(reply: AutoReply): string {
    if reply.Success? then "success" else "failed"
  }

  lemma Spliced(verdict: string, stid: string, tail: string)
    ensures KeyValue.Line("RESULT", verdict) + "\n" + (KeyValue.Line("STID", stid) + "\n" + tail)
         == ("RESULT: " + verdict + "\nSTID: ") + stid + ("\n" + tail)
  {
    var a, b := "RESULT", "STID";
    assert a + ": " + verdict + "\n" + (b + ": " + stid + "\n" + tail)
        == (a + ": " + verdict + ("\n" + b + ": ")) + stid + ("\n" + tail);
    assert "RESULT" + ": " == "RESULT: " && "\n" + "STID" + ": " == "\nSTID: ";
  }

  lemma SuccessIsLines(n: nat)
    ensures AutoText(Success, n) == ("RESULT: " + "success" + "\nSTID: ") + StidText(n) + ("\n" + "")
  {
    assert "RESULT: " + "success" + "\nSTID: " == "RESULT: success\nSTID: ";
  }

  lemma FailureIsLines(t: string, why: string)
    ensures "RESULT: failed\nSTID: " + t + ("\nERROR: " + why + "\n")
         == ("RESULT: " + "failed" + "\nSTID: ") + t + ("\n" + (KeyValue.Line("ERROR", why) + "\n" + ""))
  {
    assert "RESULT: " + "failed" + "\nSTID: " == "RESULT: failed\nSTID: ";
    var e := "ERROR";
    assert "\n" + (e + ": " + why + "\n" + "") == ("\n" + e + ": ") + why + "\n";
    assert "\n" + "ERROR" + ": " == "\nERROR: ";
  }

  lemma TextIsLines(reply: AutoReply, n: nat)
    ensures AutoText(reply, n)
         == KeyValue.Line("RESULT", Verdict(reply)) + "\n" + (KeyValue.Line("STID", StidText(n)) + "\n" + ErrorLine(reply))
  {
    Spliced(Verdict(reply), StidText(n), ErrorLine(reply));
    match reply
    case Success => SuccessIsLines(n);
    case LoginFirst => FailureIsLines(StidText(n), ErrorText(LoginFirst));
    case AuthFailed => FailureIsLines(StidText(n), ErrorText(AuthFailed));
  }

  lemma ErrorField(reply: AutoReply)
    ensures KeyValue.FirstField(KeyValue.Parse(ErrorLine(reply)), "ERROR") == ErrorText(reply)
  {
    KeysDiffer();
    ErrorsNormal(reply);
    KeyValue.FirstLineWins("ERROR", ErrorText(reply), "", "ERROR");
  }

  lemma ThreeFields(verdict: string, stid: string, tail: string)
    requires KeyValue.NormalValue(verdict) && KeyValue.NormalValue(stid)
    ensures var m := KeyValue.Parse(KeyValue.Line("RESULT", verdict) + "\n" + (KeyValue.Line("STID", stid) + "\n" + tail));
            && KeyValue.FirstField(m, "RESULT") == verdict && KeyValue.FirstField(m, "STID") == stid
            && KeyValue.FirstField(m, "ERROR") == KeyValue.FirstField(KeyValue.Parse(tail), "ERROR")
  {
    KeysDiffer();
    var rest := KeyValue.Line("STID", stid) + "\n" + tail;
    KeyValue.FirstLineWins("RESULT", verdict, rest, "RESULT");
    KeyValue.FirstLineWins("RESULT", verdict, rest, "STID");
    KeyValue.FirstLineWins("RESULT", verdict, rest, "ERROR");
    KeyValue.FirstLineWins("STID", stid, tail, "STID");
    KeyValue.FirstLineWins("STID", stid, tail, "ERROR");
  }

  /** A client reads off each automatic reply whether it succeeded, its STID, and why it failed. */
  lemma ReplyFields(reply: AutoReply, n: nat)
    ensures var m := KeyValue.Parse(AutoText(reply, n));
            && KeyValue.FirstField(m, "result") == (if reply.Success? then "success" else "failed")
            && KeyValue.FirstField(m, "stid") == "mock-" + Decimal(n)
            && KeyValue.FirstField(m, "error") == (if reply.Success? then "" else if reply.LoginFirst?
                                                   then "83000000010 Please login first"
                                                   else "83000000010 Authentication failed")
  {
    TextIsLines(reply, n);
    StidsNormal(n);
    ThreeFields(Verdict(reply), StidText(n), ErrorLine(reply));
    ErrorField(reply);
    KeysDiffer();
    var m := KeyValue.Parse(AutoText(reply, n));
    KeyValue.SameField(m, "RESULT", "result");
    KeyValue.SameField(m, "STID", "stid");
    KeyValue.SameField(m, "ERROR", "error");
  }

  /** No two automatic replies of a server carry the same STID text. */
  lemma StidsDistinct(moves: seq<Move>, i: nat, j: nat)
    requires i < j < |DrawnStids(Run(moves).log)|
    ensures StidText(DrawnStids(Run(moves).log)[i]) != StidText(DrawnStids(Run(moves).log)[j])
  {
    StidsCountUp(moves);
    var m, n := DrawnStids(Run(moves).log)[i], DrawnStids(Run(moves).log)[j];
    assert m == i + 1 && n == j + 1;
    if StidText(m) == StidText(n) {
      assert StidText(m)[5..] == Decimal(m) && StidText(n)[5..] == Decimal(n);
      DecimalInjective(m, n);
      assert false;
    }
  }

  // ---- What each connection does, read off the log -------------------------

  predicate Concerns(e: Event, c: nat) {
    !e.Pushed? && !e.Registered? && e.c == c
  }

  /** The last event of a connection. */
  function LastOf(log: seq<Event>, c: nat): Option<Event> {
    if log == [] then None
    else if Concerns(log[|log| - 1], c) then Some(log[|log| - 1])
    else LastOf(log[..|log| - 1], c)
  }

  /** The last command a connection sent. */
  function LastCommand(log: seq<Event>, c: nat): Option<Command> {
    if log == [] then None
    else
      var e := log[|log| - 1];
      if e.FrameRead? && e.c == c then Some(e.cmd) else LastCommand(log[..|log| - 1], c)
  }

  lemma LastGrows(log: seq<Event>, e: Event, c: nat)
    ensures LastOf(log + [e], c) == if Concerns(e, c) then Some(e) else LastOf(log, c)
    ensures LastCommand(log + [e], c) == if e.FrameRead? && e.c == c then Some(e.cmd) else LastCommand(log, c)
  {
    assert (log + [e])[..|log|] == log;
  }

  /** The user was last registered with this digest. */
  ghost predicate RegisteredAs(log: seq<Event>, user: string, digest: string) {
    exists k: nat :: k < |log| && log[k] == Registered(user, digest) && NotRegisteredAfter(log, user, k)
  }

  predicate NotRegisteredAfter(log: seq<Event>, user: string, k: nat) {
    forall m | k < m < |log| :: !(log[m].Registered? && log[m].user == user)
  }

  lemma RegistrationGrows(log: seq<Event>, e: Event, user: string, digest: string)
    ensures RegisteredAs(log + [e], user, digest)
       <==> if e.Registered? && e.user == user then e.digest == digest else RegisteredAs(log, user, digest)
  {
    var more := log + [e];
    if e.Registered? && e.user == user {
      if RegisteredAs(more, user, digest) {
        var k: nat :| k < |more| && more[k] == Registered(user, digest) && NotRegisteredAfter(more, user, k);
        assert more[|log|] == e;
      }
      if e.digest == digest {
        assert more[|log|] == Registered(user, digest) && NotRegisteredAfter(more, user, |log|);
      }
    } else {
      if RegisteredAs(log, user, digest) {
        var k: nat :| k < |log| && log[k] == Registered(user, digest) && NotRegisteredAfter(log, user, k);
        assert more[k] == Registered(user, digest) && NotRegisteredAfter(more, user, k);
      }
      if RegisteredAs(more, user, digest) {
        var k: nat :| k < |more| && more[k] == Registered(user, digest) && NotRegisteredAfter(more, user, k);
        forall m | k < m < |log| ensures !(log[m].Registered? && log[m].user == user) {
          assert more[m] == log[m];
        }
        assert log[k] == Registered(user, digest) && NotRegisteredAfter(log, user, k);
      }
    }
  }

  ghost predicate UsersKept(s: State) {
    forall user, digest :: RegisteredAs(s.log, user, digest) <==> user in s.users && s.users[user] == digest
  }

  lemma StepKeepsUsers(s: State, m: Move)
    requires UsersKept(s)
    ensures UsersKept(Step(s, m))
  {
    StepLogs(s, m);
    StepUsers(s, m);
    var t := Step(s, m);
    forall user, digest ensures RegisteredAs(t.log, user, digest) <==> user in t.users && t.users[user] == digest {
      if EventOf(s, m) != [] {
        RegistrationGrows(s.log, EventOf(s, m)[0], user, digest);
      }
    }
  }

  lemma StepUsers(s: State, m: Move)
    ensures Step(s, m).users == if m.AddUser? then s.users[m.user := m.digest] else s.users
    ensures EventOf(s, m) != [] && EventOf(s, m)[0].Registered? ==> m.AddUser? && EventOf(s, m)[0] == Registered(m.user, m.digest)
    ensures m.AddUser? ==> EventOf(s, m) == [Registered(m.user, m.digest)]
  {
  }

  lemma {:induction false} AllUsersKept(moves: seq<Move>)
    ensures UsersKept(Run(moves))
  {
    if moves != [] {
      AllUsersKept(moves[..|moves| - 1]);
      StepKeepsUsers(Run(moves[..|moves| - 1]), moves[|moves| - 1]);
    }
  }

  ghost predicate HasLoggedIn(log: seq<Event>, c: nat) {
    Checked(c, true) in log
  }

  /** The pending reply is the one the connection's last event calls for. */
  ghost predicate Called(log: seq<Event>, c: nat, reply: AutoReply) {
    match LastOf(log, c)
    case Some(Checked(_, ok)) => reply == if ok then Success else AuthFailed
    case Some(FrameRead(_, cmd)) => reply == LoginFirst && cmd.action != "LOGIN" && !HasLoggedIn(log, c)
    case _ => false
  }

  /** Why a connection stands where it stands. */
  ghost predicate Justified(s: State, c: nat) {
    c in s.conns ==>
      && (s.conns[c].loggedIn <==> HasLoggedIn(s.log, c))
      && match s.conns[c].phase
         case Reading => MayRead(s.log, c)
         case Checking(user, pass) => ExistsLogin(s.log, c, user, pass)
         case Answering(reply) => Called(s.log, c, reply)
         case Waiting(logout) => AwaitsItem(s.log, c) && (logout <==> LastCommand(s.log, c).value.action == "LOGOUT")
         case Closed => true
  }

  /** The connection's last event is a LOGIN frame with these credentials. */
  predicate ExistsLogin(log: seq<Event>, c: nat, user: string, pass: string) {
    match LastOf(log, c)
    case Some(FrameRead(_, cmd)) => cmd.action == "LOGIN" && cmd.user == user && cmd.password == pass
    case _ => false
  }

  /** The connection has logged in, and its last event is a command other than LOGIN. */
  ghost predicate AwaitsItem(log: seq<Event>, c: nat) {
    && HasLoggedIn(log, c) && LastCommand(log, c).Some?
    && match LastOf(log, c)
       case Some(FrameRead(_, cmd)) => cmd.action != "LOGIN" && LastCommand(log, c) == Some(cmd)
       case _ => false
  }

  /** The connection has done nothing yet, has been replied to, or took a usable item for a command other than LOGOUT. */
  predicate MayRead(log: seq<Event>, c: nat) {
    match LastOf(log, c)
    case None => true
    case Some(Replied(_, _, _)) => true
    case Some(Consumed(_, item)) => !item.Unknown? && LastCommand(log, c).Some? && LastCommand(log, c).value.action != "LOGOUT"
    case _ => false
  }

  /** A connection that was never accepted has no events. */
  ghost predicate Quiet(s: State, c: nat) {
    c !in s.conns ==> LastOf(s.log, c) == None && !HasLoggedIn(s.log, c)
  }

  lemma ReadJustified(s: State, m: Move, c: nat)
    requires m.Read? && Justified(s, c) && Quiet(s, c)
    ensures Justified(Step(s, m), c) && Quiet(Step(s, m), c)
  {
    StepLogs(s, m);
    if EventOf(s, m) != [] {
      LastGrows(s.log, EventOf(s, m)[0], c);
    }
  }

  lemma CheckJustified(s: State, m: Move, c: nat)
    requires m.Check? && Justified(s, c) && Quiet(s, c)
    ensures Justified(Step(s, m), c) && Quiet(Step(s, m), c)
  {
    StepLogs(s, m);
    if EventOf(s, m) != [] {
      LastGrows(s.log, EventOf(s, m)[0], c);
    }
  }

  lemma AnswerJustified(s: State, m: Move, c: nat)
    requires m.Answer? && Justified(s, c) && Quiet(s, c)
    ensures Justified(Step(s, m), c) && Quiet(Step(s, m), c)
  {
    StepLogs(s, m);
    if EventOf(s, m) != [] {
      LastGrows(s.log, EventOf(s, m)[0], c);
    }
  }

  lemma ConsumeJustified(s: State, m: Move, c: nat)
    requires m.Consume? && Justified(s, c) && Quiet(s, c)
    ensures Justified(Step(s, m), c) && Quiet(Step(s, m), c)
  {
    StepLogs(s, m);
    if EventOf(s, m) != [] {
      LastGrows(s.log, EventOf(s, m)[0], c);
    }
  }

  lemma OtherJustified(s: State, m: Move, c: nat)
    requires !m.Read? && !m.Check? && !m.Answer? && !m.Consume? && Justified(s, c) && Quiet(s, c)
    ensures Justified(Step(s, m), c) && Quiet(Step(s, m), c)
  {
    StepLogs(s, m);
    if EventOf(s, m) != [] {
      LastGrows(s.log, EventOf(s, m)[0], c);
    }
  }

  lemma StepJustified(s: State, m: Move, c: nat)
    requires Justified(s, c) && Quiet(s, c)
    ensures Justified(Step(s, m), c) && Quiet(Step(s, m), c)
  {
    match m
    case Read(_, _) => ReadJustified(s, m, c);
    case Check(_) => CheckJustified(s, m, c);
    case Answer(_, _) => AnswerJustified(s, m, c);
    case Consume(_, _) => ConsumeJustified(s, m, c);
    case _ => OtherJustified(s, m, c);
  }

  /** In every reachable state a connection's login state and position are justified by the log. */
  lemma {:induction false} AllJustified(moves: seq<Move>, c: nat)
    ensures Justified(Run(moves), c) && Quiet(Run(moves), c)
  {
    if moves != [] {
      AllJustified(moves[..|moves| - 1], c);
      StepJustified(Run(moves[..|moves| - 1]), moves[|moves| - 1], c);
    }
  }

  /** Event i of the log is earned by what its connection did before.
      A LOGIN is checked against the credentials registered last. An automatic reply is a success after a LOGIN that
      checked, a failure after one that did not, and "login first" after any other command before a login.
      An item is taken by a connection that has logged in, for a command other than LOGIN that nothing has answered.
      A frame is read first, after a reply, or after a usable item unless that answered a LOGOUT. */
  ghost predicate Earned(log: seq<Event>, i: nat) {
    i < |log| ==>
      var before := log[..i];
      match log[i]
      case Checked(c, ok) =>
        LastCommand(before, c).Some?
        && var cmd := LastCommand(before, c).value;
           ExistsLogin(before, c, cmd.user, cmd.password) && (ok <==> RegisteredAs(before, cmd.user, cmd.password))
      case Replied(c, _, reply) => Called(before, c, reply)
      case Consumed(c, _) => AwaitsItem(before, c)
      case FrameRead(c, _) => MayRead(before, c)
      case _ => true
  }

  /** A frame that is a connection's last event is its last command. */
  lemma {:induction false} FrameIsLastCommand(log: seq<Event>, c: nat)
    requires LastOf(log, c).Some? && LastOf(log, c).value.FrameRead?
    ensures LastOf(log, c) == Some(FrameRead(c, LastOf(log, c).value.cmd))
    ensures LastCommand(log, c) == Some(LastOf(log, c).value.cmd)
  {
    if !Concerns(log[|log| - 1], c) {
      FrameIsLastCommand(log[..|log| - 1], c);
    }
  }

  /** What a step logs is earned. */
  lemma StepEarns(s: State, m: Move)
    requires forall c: nat :: Justified(s, c)
    requires UsersKept(s) && EventOf(s, m) != []
    ensures Earned(s.log + EventOf(s, m), |s.log|)
  {
    var e := EventOf(s, m)[0];
    assert (s.log + [e])[..|s.log|] == s.log && (s.log + [e])[|s.log|] == e;
    assert EventOf(s, m) == [e];
    if e.Checked? {
      var Checking(user, pass) := s.conns[e.c].phase;
      assert Justified(s, e.c);
      FrameIsLastCommand(s.log, e.c);
    } else if e.Replied? || e.Consumed? || e.FrameRead? {
      assert Justified(s, e.c);
    }
  }

  /** In every run every event is earned. */
  lemma {:induction false} AllEarned(moves: seq<Move>, i: nat)
    ensures Earned(Run(moves).log, i)
  {
    if moves != [] {
      var m := moves[|moves| - 1];
      var front := moves[..|moves| - 1];
      var s := Run(front);
      StepLogs(s, m);
      if i < |s.log| {
        AllEarned(front, i);
        assert Run(moves).log[..i] == s.log[..i];
      } else if i == |s.log| && EventOf(s, m) != [] {
        AllUsersKept(front);
        forall c: nat ensures Justified(s, c) {
          AllJustified(front, c);
        }
        StepEarns(s, m);
      }
    }
  }

  /** The last command of a connection that nothing has answered. */
  ghost predicate Owed(log: seq<Event>, c: nat, cmd: Command) {
    LastOf(log, c) == Some(FrameRead(c, cmd))
  }

  /** A reply is right for the command it answers: "login first" for any command but LOGIN, before a login; else success
      or failure as the check of those credentials came out. */
  ghost predicate RightReply(log: seq<Event>, i: nat, c: nat, reply: AutoReply, cmd: Command) {
    if cmd.action != "LOGIN" then reply == LoginFirst && i <= |log| && !HasLoggedIn(log[..i], c)
    else exists k: nat :: k < i && Checks(log, k, c, cmd, reply)
  }

  lemma ReplyToFrame(log: seq<Event>, i: nat, k: nat)
    requires k < i < |log| && log[i].Replied? && Earned(log, i)
    requires LastOf(log[..i], log[i].c) == Some(log[k]) && log[k].FrameRead?
    ensures RightReply(log, i, log[i].c, log[i].reply, log[k].cmd)
  {
  }

  lemma ReplyToCheck(log: seq<Event>, i: nat, k: nat, cmd: Command)
    requires k < i < |log| && log[i].Replied? && Earned(log, i) && Earned(log, k)
    requires LastOf(log[..i], log[i].c) == Some(log[k]) && log[k].Checked? && log[k].c == log[i].c
    requires LastCommand(log[..k], log[i].c) == Some(cmd)
    ensures RightReply(log, i, log[i].c, log[i].reply, cmd)
  {
    var c := log[i].c;
    FrameIsLastCommand(log[..k], c);
    assert Checks(log, k, c, cmd, log[i].reply);
  }

  /** The automatic replies of a run. Each answers the connection's last command: a success exactly when that is a LOGIN
      whose credentials were registered when they were checked, "login first" exactly when it is any other command, then
      always before a login, and "authentication failed" for every other LOGIN. */
  lemma RepliesEarned(moves: seq<Move>, i: nat)
    requires i < |Run(moves).log| && Run(moves).log[i].Replied?
    ensures var log := Run(moves).log;
            LastCommand(log[..i], log[i].c).Some?
            && RightReply(log, i, log[i].c, log[i].reply, LastCommand(log[..i], log[i].c).value)
  {
    AllEarned(moves, i);
    var log := Run(moves).log;
    var c := log[i].c;
    var k := LastPlace(log[..i], c);
    AllEarned(moves, k);
    assert log[..i][..k] == log[..k];
    if log[k].FrameRead? {
      ReplyToFrame(log, i, k);
    } else {
      ReplyToCheck(log, i, k, LastCommand(log[..k], c).value);
    }
  }

  /** Check k of the log is of this LOGIN command; it succeeds, and the reply is a success, exactly when the credentials
      were registered then. */
  ghost predicate Checks(log: seq<Event>, k: nat, c: nat, cmd: Command, reply: AutoReply) {
    && k < |log| && log[k].Checked? && log[k].c == c && Owed(log[..k], c, cmd)
    && (log[k].ok <==> RegisteredAs(log[..k], cmd.user, cmd.password))
    && reply == if log[k].ok then Success else AuthFailed
  }

  /** Where a connection's last event stands. */
  lemma {:induction false} LastPlace(log: seq<Event>, c: nat) returns (k: nat)
    requires LastOf(log, c).Some?
    ensures k < |log| && log[k] == LastOf(log, c).value && Concerns(log[k], c)
    ensures forall m | k < m < |log| :: !Concerns(log[m], c)
    ensures LastCommand(log, c) == if log[k].FrameRead? then Some(log[k].cmd) else LastCommand(log[..k], c)
  {
    k := |log| - 1;
    if !Concerns(log[k], c) {
      k := LastPlace(log[..k], c);
      assert log[..|log| - 1][..k] == log[..k];
    }
  }

  /** No connection takes a scripted item before its first successful LOGIN, and each item taken answers a
      command of its own other than LOGIN, which nothing has answered yet. */
  lemma ConsumptionEarned(moves: seq<Move>, i: nat)
    requires i < |Run(moves).log| && Run(moves).log[i].Consumed?
    ensures var log := Run(moves).log;
            var c := log[i].c;
            && HasLoggedIn(log[..i], c)
            && exists cmd: Command :: cmd.action != "LOGIN" && Owed(log[..i], c, cmd)
  {
    AllEarned(moves, i);
    var log := Run(moves).log;
    var c := log[i].c;
    var cmd := LastCommand(log[..i], c).value;
    FrameIsLastCommand(log[..i], c);
    assert Owed(log[..i], c, cmd);
  }

  predicate ReadCommand(e: Event, c: nat) {
    e.FrameRead? && e.c == c && e.cmd.action != "LOGIN"
  }

  /** Between two items taken by one connection lies a command it read: each command takes at most one, LOGINs none. */
  lemma OneItemPerCommand(moves: seq<Move>, i: nat, k: nat)
    requires i < k < |Run(moves).log|
    requires Run(moves).log[i].Consumed? && Run(moves).log[k].Consumed? && Run(moves).log[i].c == Run(moves).log[k].c
    ensures exists j | i < j < k :: ReadCommand(Run(moves).log[j], Run(moves).log[k].c)
  {
    var log := Run(moves).log;
    ConsumptionEarned(moves, k);
    var cmd: Command :| cmd.action != "LOGIN" && Owed(log[..k], log[k].c, cmd);
    var j := LastPlace(log[..k], log[k].c);
    assert log[..k][i] == log[i];
    assert ReadCommand(log[j], log[k].c);
  }

  // ---- How a connection goes on --------------------------------------------

  predicate Stands(s: State, c: nat, phase: Phase) {
    c in s.conns && s.conns[c].phase == phase
  }

  /** After a LOGIN frame comes the check, after another one before a login the reply, and after one behind a login an
      item. The check is followed by its reply. */
  lemma CommandGoesOn(s: State, c: nat, cmd: Command)
    requires Enabled(s, Read(c, cmd))
    ensures var t := Step(s, Read(c, cmd));
            if cmd.action == "LOGIN" then Enabled(t, Check(c)) && Enabled(Step(t, Check(c)), Answer(c, true))
            else if !s.conns[c].loggedIn then Enabled(t, Answer(c, true))
            else s.script != [] ==> Enabled(t, Consume(c, true))
  {
  }

  /** A connection reads on after a reply exactly when it could be written. */
  lemma ReplyGoesOn(s: State, c: nat, written: bool)
    requires Enabled(s, Answer(c, written))
    ensures Stands(Step(s, Answer(c, written)), c, if written then Reading else Closed)
  {
  }

  /** A failed read, and the end of the test while an item is awaited, close a connection. */
  lemma FailuresClose(s: State, c: nat)
    ensures Enabled(s, ReadFails(c)) ==> Stands(Step(s, ReadFails(c)), c, Closed)
    ensures c in s.conns && s.conns[c].phase.Waiting? ==> Stands(Step(Step(s, Cancel), GiveUp(c)), c, Closed)
  {
  }

  /** A connection reads on after an item exactly when the item is usable, could be written, and did not answer a LOGOUT. */
  lemma ItemGoesOn(moves: seq<Move>, c: nat, written: bool)
    requires Enabled(Run(moves), Consume(c, written))
    ensures var s := Run(moves);
            && LastCommand(s.log, c).Some?
            && var goesOn := written && !s.script[0].Unknown? && LastCommand(s.log, c).value.action != "LOGOUT";
            Stands(Step(s, Consume(c, written)), c, if goesOn then Reading else Closed)
  {
    AllJustified(moves, c);
  }

  /** The script channel never holds more than 32 items. */
  lemma {:induction false} ScriptBounded(moves: seq<Move>)
    ensures |Run(moves).script| <= 32
  {
    if moves != [] {
      ScriptBounded(moves[..|moves| - 1]);
      StepQueues(Run(moves[..|moves| - 1]), moves[|moves| - 1]);
    }
  }

  // ---- Over whole runs -----------------------------------------------------

  predicate IsLoggedIn(s: State, c: nat) {
    c in s.conns && s.conns[c].loggedIn
  }

  lemma StepKeepsLogin(s: State, m: Move, c: nat)
    requires IsLoggedIn(s, c)
    ensures IsLoggedIn(Step(s, m), c)
  {
  }

  /** In every run a connection that was logged in at some point is logged in from then on. */
  lemma {:induction false} LoginNeverReverts(moves: seq<Move>, k: nat, c: nat)
    requires k <= |moves| && IsLoggedIn(Run(moves[..k]), c)
    ensures IsLoggedIn(Run(moves), c)
  {
    if k == |moves| {
      assert moves[..k] == moves;
    } else {
      var front := moves[..|moves| - 1];
      assert front[..k] == moves[..k];
      LoginNeverReverts(front, k, c);
      StepKeepsLogin(Run(front), moves[|moves| - 1], c);
    }
  }

  predicate IsClosed(s: State, c: nat) {
    c in s.conns && s.conns[c].phase.Closed?
  }

  lemma StepKeepsClosed(s: State, m: Move, c: nat)
    requires IsClosed(s, c)
    ensures IsClosed(Step(s, m), c)
    ensures Step(s, m).log == s.log + EventOf(s, m)
    ensures forall i | |s.log| <= i < |Step(s, m).log| :: !Concerns(Step(s, m).log[i], c)
  {
    StepLogs(s, m);
  }

  /** In every run a connection that has closed - after LOGOUT, an unusable item, a failed write or read - stays closed
      and no later event is its own. */
  lemma {:induction false} ClosedIsFinal(moves: seq<Move>, k: nat, c: nat)
    requires k <= |moves| && IsClosed(Run(moves[..k]), c)
    ensures var s, t := Run(moves[..k]), Run(moves);
            && IsClosed(t, c) && s.log <= t.log
            && forall i | |s.log| <= i < |t.log| :: !Concerns(t.log[i], c)
  {
    if k == |moves| {
      assert moves[..k] == moves;
    } else {
      var front := moves[..|moves| - 1];
      assert front[..k] == moves[..k];
      ClosedIsFinal(front, k, c);
      StepKeepsClosed(Run(front), moves[|moves| - 1], c);
    }
  }

  /** One connection's step touches no other connection. */
  lemma OthersUntouched(s: State, m: Move, c: nat)
    requires c in s.conns
    requires match m
             case Push(_) => true case AddUser(_, _) => true case Cancel => true case Accept(_) => true
             case Read(d, _) => d != c case ReadFails(d) => d != c case Check(d) => d != c
             case Answer(d, _) => d != c case Consume(d, _) => d != c case GiveUp(d) => d != c
    ensures c in Step(s, m).conns && Step(s, m).conns[c] == s.conns[c]
  {
  }

  // ---- The server object ---------------------------------------------------

  class MockRRIServer {
    var script: seq<Item>
    var users: map<string, string>
    var stidCounter: nat
    var conns: map<nat, Conn>
    var cancelled: bool
    ghost var log: seq<Event>

    ghost function View(): State
      reads this
    {
      State(script, users, stidCounter, conns, cancelled, log)
    }

    constructor ()
      ensures View() == EMPTY
    {
      script, users, stidCounter, conns, cancelled, log := [], map[], 0, map[], false, [];
    }

    method Enqueue(item: Item) returns (sent: bool)
      modifies this
      ensures View() == Step(old(View()), Push(item)) && sent == Enabled(old(View()), Push(item))
    {
      sent := |script| < SCRIPT_ROOM;
      if sent {
        script, log := script + [item], log + [Pushed(item)];
      }
    }

    method RegisterUser(user: string, digest: string)
      modifies this
      ensures View() == Step(old(View()), AddUser(user, digest))
    {
      users, log := users[user := digest], log + [Registered(user, digest)];
    }

    method Connect(c: nat)
      requires c !in conns
      modifies this
      ensures View() == Step(old(View()), Accept(c))
    {
      conns := conns[c := Conn(false, Reading)];
    }

    /** A frame has been read: the switch on login state and action. */
    method OnFrame(c: nat, frame: string)
      requires c in conns && conns[c].phase.Reading?
      modifies this
      ensures View() == Step(old(View()), Read(c, Decoded(frame)))
    {
      var fields := KeyValue.ParseKV(frame);
      var action := ToUpper(KeyValue.FirstField(fields, "action"));
      log := log + [FrameRead(c, Decoded(frame))];
      if !conns[c].loggedIn && action != "LOGIN" {
        conns := conns[c := conns[c].(phase := Answering(LoginFirst))];
      } else if action == "LOGIN" {
        var user, pass := KeyValue.FirstField(fields, "user"), KeyValue.FirstField(fields, "password");
        conns := conns[c := conns[c].(phase := Checking(user, pass))];
      } else {
        conns := conns[c := conns[c].(phase := Waiting(action == "LOGOUT"))];
      }
    }

    method HandleLogin(c: nat)
      requires c in conns && conns[c].phase.Checking?
      modifies this
      ensures View() == Step(old(View()), Check(c))
    {
      var Checking(user, pass) := conns[c].phase;
      if user in users && users[user] == pass {
        conns, log := conns[c := Conn(true, Answering(Success))], log + [Checked(c, true)];
      } else {
        conns, log := conns[c := conns[c].(phase := Answering(AuthFailed))], log + [Checked(c, false)];
      }
    }

    /** buildSuccessResponse or buildFailureResponse, then the write. */
    method SendAnswer(c: nat, written: bool) returns (text: string)
      requires c in conns && conns[c].phase.Answering?
      modifies this
      ensures View() == Step(old(View()), Answer(c, written))
      ensures text == AutoText(old(conns)[c].phase.reply, old(stidCounter) + 1)
    {
      stidCounter := stidCounter + 1;
      var reply := conns[c].phase.reply;
      text := AutoText(reply, stidCounter);
      conns := conns[c := conns[c].(phase := if written then Reading else Closed)];
      log := log + [Replied(c, stidCounter, reply)];
    }

    method Dispatch(c: nat, written: bool) returns (item: Item)
      requires c in conns && conns[c].phase.Waiting? && script != []
      modifies this
      ensures View() == Step(old(View()), Consume(c, written)) && item == old(script)[0]
    {
      item, script := script[0], script[1..];
      log := log + [Consumed(c, item)];
      if !written || item.Unknown? || conns[c].phase.logout {
        conns := conns[c := conns[c].(phase := Closed)];
      } else {
        conns := conns[c := conns[c].(phase := Reading)];
      }
    }
  }
}
