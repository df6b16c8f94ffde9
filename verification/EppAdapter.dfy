/** The EPP client adapter: one connection, login on every dial, one retry after a transport failure.
    The network's choices are inputs, and every observable act is appended to a trace. */
module EppAdapter {
  import opened Text

  // ---- The network's choices -----------------------------------------------

  /** What becomes of one written frame and the wait for its answer. */
  datatype Exchange =
    | WriteFails | ReadFails | Garbled | NoResponse
    | Result(code: int, usable: bool)   // `usable`: the result data the command needs is there and decodes

  datatype Welcome = NotRead | Unparsed | NoGreeting | Advertises(uris: seq<string>)

  datatype Dialing =
    | ConfigFails
    | DialFails
    | Connects(welcome: Welcome, loginEncodes: bool, login: Exchange)

  // ---- Commands and their results ------------------------------------------

  datatype Operation =
    | Hello                                    // Ping: no transaction identifier, any frame will do
    | Command(encodes: bool, needsData: bool)  // the twenty object commands and PollAck
    | PollRead(encodes: bool)                  // 1300, an empty queue, is reported as an error

  /** An EPPError carries the server's code and is never retried; everything else counts as transport failure. */
  datatype Outcome = Ok | EppError(code: int) | Transport

  function ResultToError(code: int): Outcome {
    if code < 2000 then Ok else EppError(code)
  }

  // ---- The trace -----------------------------------------------------------

  datatype Frame = LoginFrame(extensions: seq<string>, n: nat) | CommandFrame(n: nat) | LogoutFrame(n: nat) | HelloFrame

  datatype Event =
    | Dialled(c: nat)
    | Greeted(c: nat, uris: seq<string>)
    | Attempt(c: nat)                 // withConn runs its operation on connection c
    | Sent(c: nat, frame: Frame)      // written, perhaps not entirely
    | Answered(c: nat, code: int)
    | Hung(c: nat)                    // closed by the client

  datatype Client = Client(
    wanted: seq<string>,              // configured extensions
    conn: Option<nat>,
    extensions: seq<string>,          // last intersection with a greeting
    clTRID: nat,
    dialled: nat,                     // connections opened so far; their identities are 0, 1, ...
    trace: seq<Event>)

  function NewClient(wanted: seq<string>): Client {
    Client(wanted, None, [], 0, 0, [])
  }

  function Log(s: Client, e: Event): Client {
    s.(trace := s.trace + [e])
  }

  function Both(wanted: seq<string>, uris: seq<string>): seq<string> {
    if wanted == [] then []
    else
      var last := wanted[|wanted| - 1];
      Both(wanted[..|wanted| - 1], uris) + if last in uris then [last] else []
  }

  // ---- The session machine -------------------------------------------------

  function HangUp(s: Client): Client {
    if s.conn.None? then s else Log(s, Hung(s.conn.value)).(conn := None)
  }

  function ReadGreeting(s: Client, w: Welcome): (Client, Outcome)
    requires s.conn.Some?
  {
    match w
    case Advertises(uris) =>
      (Log(s, Greeted(s.conn.value, uris)).(extensions := Both(s.wanted, uris)), Ok)
    case _ => (s, Transport)
  }

  /** Writes a frame and reads the answer; only a decoded result code is an event. */
  function Converse(s: Client, f: Frame, x: Exchange): Client
    requires s.conn.Some?
  {
    var sent := Log(s, Sent(s.conn.value, f));
    if x.Result? then Log(sent, Answered(s.conn.value, x.code)) else sent
  }

  function NextID(s: Client): Client {
    s.(clTRID := s.clTRID + 1)
  }

  function SendLogin(s: Client, encodes: bool, x: Exchange): (Client, Outcome)
    requires s.conn.Some?
  {
    var s1 := NextID(s);
    if !encodes then (s1, Transport)
    else (Converse(s1, LoginFrame(s.extensions, s1.clTRID), x), if x.Result? then ResultToError(x.code) else Transport)
  }

  function Connect(s: Client): Client {
    Log(s, Dialled(s.dialled)).(conn := Some(s.dialled), dialled := s.dialled + 1)
  }

  /** What follows a successful connect: greeting, login, and the close when either fails. */
  function Enter(s: Client, w: Welcome, loginEncodes: bool, login: Exchange): (Client, Outcome)
    requires s.conn.Some?
  {
    var (s1, greeting) := ReadGreeting(s, w);
    if greeting != Ok then (HangUp(s1), greeting)
    else
      var (s2, accepted) := SendLogin(s1, loginEncodes, login);
      if accepted != Ok then (HangUp(s2), accepted) else (s2, Ok)
  }

  function Dial(s: Client, d: Dialing): (Client, Outcome) {
    match d
    case Connects(welcome, loginEncodes, login) => Enter(Connect(s), welcome, loginEncodes, login)
    case _ => (s, Transport)
  }

  function OperationOutcome(op: Operation, x: Exchange): Outcome {
    match op
    case Hello => if x.WriteFails? || x.ReadFails? then Transport else Ok
    case PollRead(_) =>
      if !x.Result? then Transport else if x.code == 1300 then EppError(1300) else ResultToError(x.code)
    case Command(_, needsData) =>
      if !x.Result? then Transport
      else if ResultToError(x.code) != Ok then ResultToError(x.code)
      else if needsData && !x.usable then Transport else Ok
  }

  /** One run of an operation on the held connection. */
  function Perform(s: Client, op: Operation, x: Exchange): (Client, Outcome)
    requires s.conn.Some?
  {
    var s0 := Log(s, Attempt(s.conn.value));
    match op
    case Hello => (Converse(s0, HelloFrame, x), OperationOutcome(op, x))
    case _ =>
      var s1 := NextID(s0);
      if !op.encodes then (s1, Transport)
      else (Converse(s1, CommandFrame(s1.clTRID), x), OperationOutcome(op, x))
  }

  function WithConn(s: Client, op: Operation, first: Exchange, d: Dialing, second: Exchange): (Client, Outcome)
    requires s.conn.Some?
  {
    var (s1, o1) := Perform(s, op, first);
    if o1 != Transport then (s1, o1)
    else
      var (s2, o2) := Dial(HangUp(s1), d);
      if o2 != Ok then (s2, o2)
      else
        DialConnects(HangUp(s1), d);
        Perform(s2, op, second)
  }

  function Logout(s: Client, encodes: bool, x: Exchange): (Client, Outcome) {
    if s.conn.None? then (s, Transport)
    else
      var s1 := NextID(s);
      if !encodes then (s1, Transport)
      else
        var s2 := Converse(s1, LogoutFrame(s1.clTRID), x);
        match x
        case Result(code, _) => (HangUp(s2), ResultToError(code))
        case NoResponse => (HangUp(s2), Transport)
        case _ => (s2, Transport)
  }

  /** A dial that succeeds holds the new connection; one that fails after connecting holds none. */
  lemma DialConnects(s: Client, d: Dialing)
    ensures var (s', o) := Dial(s, d);
            && (d.Connects? ==> s'.dialled == s.dialled + 1)
            && (d.Connects? ==> s'.conn == if o == Ok then Some(s.dialled) else None)
            && (!d.Connects? ==> s' == s && o == Transport)
            && s'.wanted == s.wanted
  {
  }

  // ---- The adapter object --------------------------------------------------

  class GenericEPPAdapter {
    const name: string
    const wanted: seq<string>
    var conn: Option<nat>
    var advertisedExt: seq<string>
    var clTRID: nat
    var dialled: nat                  // gives each dialled connection its identity
    ghost var trace: seq<Event>

    ghost function View(): Client
      reads this
    {
      Client(wanted, conn, advertisedExt, clTRID, dialled, trace)
    }

    constructor (name: string, wanted: seq<string>)
      ensures View() == NewClient(wanted) && this.name == name
    {
      this.name, this.wanted := name, wanted;
      conn, advertisedExt, clTRID, dialled, trace := None, [], 0, 0, [];
    }

    /** Sends one frame and waits; the exchange says how that goes. */
    method Exchanged(f: Frame, x: Exchange)
      requires conn.Some?
      modifies this`trace
      ensures View() == Converse(old(View()), f, x)
    {
      trace := trace + [Sent(conn.value, f)];
      if x.Result? {
        trace := trace + [Answered(conn.value, x.code)];
      }
    }

    method DoReadGreeting(w: Welcome) returns (o: Outcome)
      requires conn.Some?
      modifies this
      ensures (View(), o) == ReadGreeting(old(View()), w)
    {
      if !w.Advertises? {
        return Transport;
      }
      var filtered: seq<string> := [];
      for i := 0 to |wanted|
        invariant filtered == Both(wanted[..i], w.uris)
      {
        assert wanted[..i + 1][..i] == wanted[..i];
        if wanted[i] in w.uris {
          filtered := filtered + [wanted[i]];
        }
      }
      assert wanted[..|wanted|] == wanted;
      trace := trace + [Greeted(conn.value, w.uris)];
      advertisedExt := filtered;
      return Ok;
    }

    method NextClTRID() returns (id: string)
      modifies this`clTRID
      ensures View() == NextID(old(View()))
      ensures id == TransactionID(name, clTRID)
    {
      clTRID := clTRID + 1;
      id := TransactionID(name, clTRID);
    }

    method DoSendLogin(encodes: bool, x: Exchange) returns (o: Outcome)
      requires conn.Some?
      modifies this
      ensures (View(), o) == SendLogin(old(View()), encodes, x)
    {
      var id := NextClTRID();
      if !encodes {
        return Transport;
      }
      Exchanged(LoginFrame(advertisedExt, clTRID), x);
      return if x.Result? then ResultToError(x.code) else Transport;
    }

    method CloseConn()
      requires conn.Some?
      modifies this
      ensures View() == HangUp(old(View()))
    {
      trace := trace + [Hung(conn.value)];
      conn := None;
    }

    method DoDial(d: Dialing) returns (o: Outcome)
      modifies this
      ensures (View(), o) == Dial(old(View()), d)
    {
      if !d.Connects? {
        return Transport;
      }
      conn := Some(dialled);
      trace, dialled := trace + [Dialled(dialled)], dialled + 1;
      o := DoReadGreeting(d.welcome);
      if o != Ok {
        CloseConn();
        return;
      }
      o := DoSendLogin(d.loginEncodes, d.login);
      if o != Ok {
        CloseConn();
        return;
      }
    }

    method Reconnect(d: Dialing) returns (o: Outcome)
      modifies this
      ensures (View(), o) == Dial(HangUp(old(View())), d)
    {
      if conn.Some? {
        CloseConn();
      }
      o := DoDial(d);
    }

    method RunOperation(op: Operation, x: Exchange) returns (o: Outcome)
      requires conn.Some?
      modifies this
      ensures (View(), o) == Perform(old(View()), op, x)
    {
      trace := trace + [Attempt(conn.value)];
      if op.Hello? {
        Exchanged(HelloFrame, x);
        return OperationOutcome(op, x);
      }
      var id := NextClTRID();
      if !op.encodes {
        return Transport;
      }
      Exchanged(CommandFrame(clTRID), x);
      return OperationOutcome(op, x);
    }

    /** The connection must not be nil: the operation would dereference it. */
    method DoWithConn(op: Operation, first: Exchange, d: Dialing, second: Exchange) returns (o: Outcome)
      requires conn.Some?
      modifies this
      ensures (View(), o) == WithConn(old(View()), op, first, d, second)
    {
      o := RunOperation(op, first);
      if o == Transport {
        DialConnects(HangUp(View()), d);
        o := Reconnect(d);
        if o != Ok {
          return;
        }
        o := RunOperation(op, second);
      }
    }

    method Login(d: Dialing) returns (o: Outcome)
      modifies this
      ensures (View(), o) == Dial(old(View()), d)
    {
      o := DoDial(d);
    }

    method DoLogout(encodes: bool, x: Exchange) returns (o: Outcome)
      modifies this
      ensures (View(), o) == Logout(old(View()), encodes, x)
    {
      if conn.None? {
        return Transport;
      }
      var id := NextClTRID();
      if !encodes {
        return Transport;
      }
      Exchanged(LogoutFrame(clTRID), x);
      if x.WriteFails? || x.ReadFails? || x.Garbled? {
        return Transport;
      }
      CloseConn();
      if x.NoResponse? {
        return Transport;
      }
      return ResultToError(x.code);
    }

    method Close()
      modifies this
      ensures View() == HangUp(old(View()))
    {
      if conn.None? {
        return;
      }
      CloseConn();
    }
  }

  function TransactionID(name: string, n: nat): string {
    "gsd-" + name + "-" + Decimal(n)
  }
}
