/** What every sequence of adapter calls keeps, whatever the network does. */
module EppSafety {
  import opened Text
  import opened EppAdapter

  // ---- Runs ----------------------------------------------------------------

  /** The public calls, each with the network's choices while it lasts. */
  datatype Call =
    | LogIn(d: Dialing)
    | LogOut(encodes: bool, x: Exchange)
    | Close
    | Do(op: Operation, first: Exchange, d: Dialing, second: Exchange)

  /** An operation without a held connection dereferences nil, which ends the program. */
  predicate Possible(s: Client, call: Call) {
    call.Do? ==> s.conn.Some?
  }

  function Apply(s: Client, call: Call): Client
    requires Possible(s, call)
  {
    match call
    case LogIn(d) => Dial(s, d).0
    case LogOut(encodes, x) => Logout(s, encodes, x).0
    case Close => HangUp(s)
    case Do(op, first, d, second) => WithConn(s, op, first, d, second).0
  }

  /** The state after the calls, up to the first that cannot be made. */
  function Run(s: Client, calls: seq<Call>): Client
    decreases |calls|
  {
    if calls == [] || !Possible(s, calls[0]) then s else Run(Apply(s, calls[0]), calls[1..])
  }

  // ---- The life of one connection ------------------------------------------

  datatype Phase =
    | Unused | Fresh | Welcomed(uris: seq<string>) | LoginPending | Ready
    | Leaving   // a logout was sent and nothing has happened since
    | Left      // a logout was answered
    | Refused | Shut | Broken

  /** The order of acts on a connection: dial, greeting, one login that lists only configured extensions the greeting
      advertised, its acceptance, then operations and logouts, then the close. After an answered logout only the close
      is left; an unanswered one may be followed by another logout or by a further operation. */
  function Next(wanted: seq<string>, ph: Phase, e: Event): Phase {
    match (ph, e)
    case (Unused, Dialled(_)) => Fresh
    case (Fresh, Greeted(_, uris)) => Welcomed(uris)
    case (Welcomed(uris), Sent(_, LoginFrame(ext, _))) => if ext == Both(wanted, uris) then LoginPending else Broken
    case (LoginPending, Answered(_, code)) => if code < 2000 then Ready else Refused
    case (Ready, Attempt(_)) => Ready
    case (Ready, Sent(_, f)) => if f.LoginFrame? then Broken else if f.LogoutFrame? then Leaving else Ready
    case (Ready, Answered(_, _)) => Ready
    case (Leaving, Attempt(_)) => Ready
    case (Leaving, Sent(_, f)) => if f.LogoutFrame? then Leaving else Broken
    case (Leaving, Answered(_, _)) => Left
    case (_, Hung(_)) => if ph.Unused? || ph.Shut? || ph.Broken? then Broken else Shut
    case _ => Broken
  }

  function PhaseOf(wanted: seq<string>, trace: seq<Event>, c: nat): Phase {
    if trace == [] then Unused
    else
      var e := trace[|trace| - 1];
      var ph := PhaseOf(wanted, trace[..|trace| - 1], c);
      if e.c == c then Next(wanted, ph, e) else ph
  }

  function Phase'(s: Client, c: nat): Phase {
    PhaseOf(s.wanted, s.trace, c)
  }

  lemma LogPhase(s: Client, e: Event, c: nat)
    ensures Phase'(Log(s, e), c) == if e.c == c then Next(s.wanted, Phase'(s, c), e) else Phase'(s, c)
  {
    assert (s.trace + [e])[..|s.trace|] == s.trace;
  }

  // ---- The invariant -------------------------------------------------------

  function NumberOf(f: Frame): seq<nat> {
    if f.HelloFrame? then [] else [f.n]
  }

  /** The counters carried by the command frames of a trace, in order. */
  function Numbers(trace: seq<Event>): seq<nat> {
    if trace == [] then []
    else
      var e := trace[|trace| - 1];
      Numbers(trace[..|trace| - 1]) + if e.Sent? then NumberOf(e.frame) else []
  }

  predicate Increasing(ns: seq<nat>, top: nat) {
    && (forall i, j | 0 <= i < j < |ns| :: ns[i] < ns[j])
    && (forall i | 0 <= i < |ns| :: ns[i] <= top)
  }

  /** Holds between any two steps; `held` is the phase of the connection in hand. */
  ghost predicate Lawful(s: Client) {
    && (forall c: nat :: !Phase'(s, c).Broken?)
    && (forall c: nat | s.dialled <= c :: Phase'(s, c).Unused?)
    && (s.conn.Some? ==> s.conn.value < s.dialled)
    && Increasing(Numbers(s.trace), s.clTRID)
  }

  /** The state between public calls. */
  ghost predicate Safe(s: Client) {
    Lawful(s) && (s.conn.Some? ==> Usable(Phase'(s, s.conn.value)))
  }

  predicate Usable(ph: Phase) {
    ph.Ready? || ph.Leaving?
  }

  lemma LogLawful(s: Client, e: Event)
    requires Lawful(s) && e.c < s.dialled && !Next(s.wanted, Phase'(s, e.c), e).Broken?
    requires e.Sent? && !e.frame.HelloFrame? ==> e.frame.n == s.clTRID && forall n | n in Numbers(s.trace) :: n < s.clTRID
    ensures Lawful(Log(s, e))
    ensures Phase'(Log(s, e), e.c) == Next(s.wanted, Phase'(s, e.c), e)
    ensures forall c: nat | c != e.c :: Phase'(Log(s, e), c) == Phase'(s, c)
    ensures Numbers(Log(s, e).trace) == Numbers(s.trace) + if e.Sent? then NumberOf(e.frame) else []
  {
    forall c: nat
      ensures Phase'(Log(s, e), c) == if e.c == c then Next(s.wanted, Phase'(s, c), e) else Phase'(s, c)
    {
      LogPhase(s, e, c);
    }
    assert (s.trace + [e])[..|s.trace|] == s.trace;
    if e.Sent? && !e.frame.HelloFrame? {
      IncreasingAppend(Numbers(s.trace), e.frame.n, s.clTRID);
    }
  }

  lemma IncreasingAppend(ns: seq<nat>, n: nat, top: nat)
    requires Increasing(ns, top) && n <= top && forall m | m in ns :: m < n
    ensures Increasing(ns + [n], top)
  {
    forall i | 0 <= i < |ns| ensures ns[i] < n {
      assert ns[i] in ns;
    }
  }

  lemma SameTrace(s: Client, s': Client)
    requires s'.trace == s.trace && s'.wanted == s.wanted
    ensures forall c: nat :: Phase'(s', c) == Phase'(s, c)
  {
  }

  /** Drawing an identifier keeps the law and makes every earlier number smaller than the new one. */
  lemma NextIDLawful(s: Client)
    requires Lawful(s)
    ensures Lawful(NextID(s)) && forall n | n in Numbers(s.trace) :: n < NextID(s).clTRID
    ensures forall c: nat :: Phase'(NextID(s), c) == Phase'(s, c)
  {
    SameTrace(s, NextID(s));
  }

  /** May the frame be sent in this phase? */
  predicate Sendable(s: Client, ph: Phase, f: Frame) {
    match f
    case LoginFrame(ext, _) => ph.Welcomed? && ext == Both(s.wanted, ph.uris)
    case LogoutFrame(_) => Usable(ph)
    case _ => ph.Ready?
  }

  function PhaseAfter(f: Frame, x: Exchange): Phase {
    match f
    case LoginFrame(_, _) => if !x.Result? then LoginPending else if x.code < 2000 then Ready else Refused
    case LogoutFrame(_) => if x.Result? then Left else Leaving
    case _ => Ready
  }

  lemma SentLawful(s: Client, f: Frame)
    requires Lawful(s) && s.conn.Some? && Sendable(s, Phase'(s, s.conn.value), f)
    requires !f.HelloFrame? ==> f.n == s.clTRID && forall n | n in Numbers(s.trace) :: n < s.clTRID
    ensures var s' := Log(s, Sent(s.conn.value, f));
            && Lawful(s')
            && Phase'(s', s.conn.value) == PhaseAfter(f, ReadFails)
            && forall c: nat | c != s.conn.value :: Phase'(s', c) == Phase'(s, c)
  {
    LogLawful(s, Sent(s.conn.value, f));
  }

  lemma AnsweredLawful(s: Client, f: Frame, x: Exchange)
    requires Lawful(s) && s.conn.Some? && Phase'(s, s.conn.value) == PhaseAfter(f, ReadFails) && x.Result?
    ensures var s' := Log(s, Answered(s.conn.value, x.code));
            && Lawful(s')
            && Phase'(s', s.conn.value) == PhaseAfter(f, x)
            && forall c: nat | c != s.conn.value :: Phase'(s', c) == Phase'(s, c)
  {
    LogLawful(s, Answered(s.conn.value, x.code));
  }

  lemma ConverseLawful(s: Client, f: Frame, x: Exchange)
    requires Lawful(s) && s.conn.Some? && Sendable(s, Phase'(s, s.conn.value), f)
    requires !f.HelloFrame? ==> f.n == s.clTRID && forall n | n in Numbers(s.trace) :: n < s.clTRID
    ensures var s' := Converse(s, f, x);
            && Lawful(s')
            && s'.conn == s.conn && s'.dialled == s.dialled && s'.wanted == s.wanted
            && Phase'(s', s.conn.value) == PhaseAfter(f, x)
            && forall c: nat | c != s.conn.value :: Phase'(s', c) == Phase'(s, c)
  {
    SentLawful(s, f);
    if x.Result? {
      AnsweredLawful(Log(s, Sent(s.conn.value, f)), f, x);
    }
  }

  lemma HangUpLawful(s: Client)
    requires Lawful(s) && (s.conn.Some? ==> !Phase'(s, s.conn.value).Unused? && !Phase'(s, s.conn.value).Shut?)
    ensures Safe(HangUp(s)) && HangUp(s).conn.None?
    ensures forall c: nat :: Phase'(HangUp(s), c) == if s.conn == Some(c) then Shut else Phase'(s, c)
  {
    if s.conn.Some? {
      var t := Log(s, Hung(s.conn.value));
      LogLawful(s, Hung(s.conn.value));
      SameTrace(t, HangUp(s));
    }
  }

  lemma SendLoginLawful(s: Client, encodes: bool, x: Exchange)
    requires Lawful(s) && s.conn.Some?
    requires Phase'(s, s.conn.value).Welcomed? && s.extensions == Both(s.wanted, Phase'(s, s.conn.value).uris)
    ensures var (s', o) := SendLogin(s, encodes, x);
            && Lawful(s')
            && s'.conn == s.conn && s'.dialled == s.dialled && s'.wanted == s.wanted
            && Opened(Phase'(s', s.conn.value))
            && (o == Ok ==> Phase'(s', s.conn.value).Ready?)
            && forall c: nat | c != s.conn.value :: Phase'(s', c) == Phase'(s, c)
  {
    NextIDLawful(s);
    var s1 := NextID(s);
    if encodes {
      ConverseLawful(s1, LoginFrame(s.extensions, s1.clTRID), x);
    }
  }

  predicate Opened(ph: Phase) {
    !ph.Unused? && !ph.Shut? && !ph.Broken?
  }

  lemma ConnectLawful(s: Client)
    requires Safe(s)
    ensures var s1 := Connect(s);
            && Lawful(s1)
            && Phase'(s1, s.dialled).Fresh?
            && forall c: nat | c != s.dialled :: Phase'(s1, c) == Phase'(s, c)
  {
    var s0 := s.(conn := Some(s.dialled), dialled := s.dialled + 1);
    SameTrace(s, s0);
    LogLawful(s0, Dialled(s.dialled));
    assert Connect(s) == Log(s0, Dialled(s.dialled));
  }

  lemma GreetingLawful(s: Client, uris: seq<string>)
    requires Lawful(s) && s.conn.Some? && Phase'(s, s.conn.value).Fresh?
    ensures var s' := ReadGreeting(s, Advertises(uris)).0;
            && Lawful(s')
            && Phase'(s', s.conn.value) == Welcomed(uris) && s'.extensions == Both(s'.wanted, uris)
            && s'.conn == s.conn && s'.dialled == s.dialled && s'.wanted == s.wanted
            && forall c: nat | c != s.conn.value :: Phase'(s', c) == Phase'(s, c)
  {
    var t := Log(s, Greeted(s.conn.value, uris));
    LogLawful(s, Greeted(s.conn.value, uris));
    SameTrace(t, t.(extensions := Both(s.wanted, uris)));
  }

  /** A dial from a safe state ends safe, with the new connection ready or shut and every other one as it was. */
  lemma DialSafe(s: Client, d: Dialing)
    requires Safe(s)
    ensures var (s', o) := Dial(s, d);
            && Safe(s') && s'.wanted == s.wanted
            && (d.Connects? ==> Phase'(s', s.dialled) == if o == Ok then Ready else Shut)
            && forall c: nat | !(d.Connects? && c == s.dialled) :: Phase'(s', c) == Phase'(s, c)
  {
    if d.Connects? {
      var s1 := Connect(s);
      ConnectLawful(s);
      if !d.welcome.Advertises? {
        HangUpLawful(s1);
      } else {
        var s2 := ReadGreeting(s1, d.welcome).0;
        GreetingLawful(s1, d.welcome.uris);
        SendLoginLawful(s2, d.loginEncodes, d.login);
        HangUpLawful(SendLogin(s2, d.loginEncodes, d.login).0);
      }
    }
  }

  lemma CommandSafe(s: Client, encodes: bool, x: Exchange)
    requires Lawful(s) && s.conn.Some? && Phase'(s, s.conn.value).Ready?
    ensures var s1 := NextID(s);
            var s' := if encodes then Converse(s1, CommandFrame(s1.clTRID), x) else s1;
            && Lawful(s')
            && s'.conn == s.conn && s'.dialled == s.dialled && s'.wanted == s.wanted
            && forall c: nat :: Phase'(s', c) == Phase'(s, c)
  {
    NextIDLawful(s);
    if encodes {
      ConverseLawful(NextID(s), CommandFrame(s.clTRID + 1), x);
    }
  }

  /** A run of an operation leaves its connection ready - also one whose logout went unanswered - and the others alone. */
  lemma PerformSafe(s: Client, op: Operation, x: Exchange)
    requires Safe(s) && s.conn.Some?
    ensures var (s', o) := Perform(s, op, x);
            && Safe(s')
            && s'.conn == s.conn && s'.dialled == s.dialled && s'.wanted == s.wanted
            && forall c: nat :: Phase'(s', c) == if s.conn == Some(c) then Ready else Phase'(s, c)
  {
    LogLawful(s, Attempt(s.conn.value));
    var s0 := Log(s, Attempt(s.conn.value));
    if op.Hello? {
      ConverseLawful(s0, HelloFrame, x);
    } else {
      CommandSafe(s0, op.encodes, x);
    }
  }

  lemma LogoutSent(s: Client, x: Exchange)
    requires Safe(s) && s.conn.Some?
    ensures var s' := Converse(NextID(s), LogoutFrame(s.clTRID + 1), x);
            && Lawful(s')
            && s'.conn == s.conn && s'.dialled == s.dialled && s'.wanted == s.wanted
            && Phase'(s', s.conn.value) == (if x.Result? then Left else Leaving)
            && forall c: nat | s.conn != Some(c) :: Phase'(s', c) == Phase'(s, c)
  {
    NextIDLawful(s);
    ConverseLawful(NextID(s), LogoutFrame(s.clTRID + 1), x);
  }

  /** The state right after a logout went out and its answer, if any, came in. */
  function LogoutPending(s: Client, x: Exchange): Client
    requires s.conn.Some?
  {
    Converse(NextID(s), LogoutFrame(s.clTRID + 1), x)
  }

  lemma LogoutCases(s: Client, encodes: bool, x: Exchange)
    ensures Logout(s, encodes, x).0
         == if s.conn.None? then s
            else if !encodes then NextID(s)
            else if x.Result? || x.NoResponse? then HangUp(LogoutPending(s, x))
            else LogoutPending(s, x)
  {
  }

  lemma LogoutClosed(s: Client, x: Exchange)
    requires Safe(s) && s.conn.Some?
    ensures var s' := HangUp(LogoutPending(s, x));
            && Safe(s') && s'.dialled == s.dialled && s'.wanted == s.wanted && s'.conn.None?
            && forall c: nat :: Phase'(s', c) == if s.conn == Some(c) then Shut else Phase'(s, c)
  {
    LogoutSent(s, x);
    HangUpLawful(LogoutPending(s, x));
  }

  lemma LogoutSafe(s: Client, encodes: bool, x: Exchange)
    requires Safe(s)
    ensures var s' := Logout(s, encodes, x).0;
            && Safe(s') && s'.dialled == s.dialled && s'.wanted == s.wanted
            && (s'.conn == s.conn || s'.conn.None?)
            && forall c: nat :: Phase'(s', c) ==
                 if s.conn != Some(c) then Phase'(s, c)
                 else if s'.conn.None? then Shut
                 else if encodes then Leaving else Phase'(s, c)
  {
    LogoutCases(s, encodes, x);
    if s.conn.Some? {
      if !encodes {
        NextIDLawful(s);
      } else if x.Result? || x.NoResponse? {
        LogoutClosed(s, x);
      } else {
        LogoutSent(s, x);
      }
    }
  }

  lemma WithConnSafe(s: Client, op: Operation, first: Exchange, d: Dialing, second: Exchange)
    requires Safe(s) && s.conn.Some?
    ensures var s' := WithConn(s, op, first, d, second).0; Safe(s') && s'.wanted == s.wanted
  {
    PerformSafe(s, op, first);
    var (s1, o1) := Perform(s, op, first);
    if o1 == Transport {
      HangUpLawful(s1);
      DialSafe(HangUp(s1), d);
      var (s2, o2) := Dial(HangUp(s1), d);
      if o2 == Ok {
        DialConnects(HangUp(s1), d);
        PerformSafe(s2, op, second);
      }
    }
  }

  lemma ApplySafe(s: Client, call: Call)
    requires Safe(s) && Possible(s, call)
    ensures Safe(Apply(s, call)) && Apply(s, call).wanted == s.wanted
  {
    match call
    case LogIn(d) => DialSafe(s, d);
    case LogOut(encodes, x) => LogoutSafe(s, encodes, x);
    case Close => HangUpLawful(s);
    case Do(op, first, d, second) => WithConnSafe(s, op, first, d, second);
  }

  lemma {:induction false} RunSafe(s: Client, calls: seq<Call>)
    requires Safe(s)
    ensures Safe(Run(s, calls)) && Run(s, calls).wanted == s.wanted
    decreases |calls|
  {
    if calls != [] && Possible(s, calls[0]) {
      ApplySafe(s, calls[0]);
      RunSafe(Apply(s, calls[0]), calls[1..]);
    }
  }

  /** Every reachable state is safe: no connection ever breaks the protocol order, and a held connection has had
      its greeting read and its one login accepted. */
  lemma AlwaysSafe(wanted: seq<string>, calls: seq<Call>)
    ensures var s := Run(NewClient(wanted), calls); Safe(s) && s.wanted == wanted
  {
    RunSafe(NewClient(wanted), calls);
  }

  // ---- Read off the trace --------------------------------------------------

  /** Connection c was greeted, then sent a login listing exactly what was wanted and advertised, and the login
      was answered with a code below 2000, all within the first n events. */
  ghost predicate LoginAccepted(wanted: seq<string>, trace: seq<Event>, c: nat, n: nat) {
    exists g: nat, l: nat, a: nat :: AcceptedAt(wanted, trace, c, g, l, a) && a < n
  }

  ghost predicate AcceptedAt(wanted: seq<string>, trace: seq<Event>, c: nat, g: nat, l: nat, a: nat) {
    && g < l < a < |trace|
    && trace[g].Greeted? && trace[g].c == c
    && trace[l].Sent? && trace[l].c == c && trace[l].frame.LoginFrame?
    && trace[l].frame.extensions == Both(wanted, trace[g].uris)
    && trace[a].Answered? && trace[a].c == c && trace[a].code < 2000
  }

  /** What a phase says about the past. */
  lemma {:induction false} PhaseHistory(wanted: seq<string>, trace: seq<Event>, c: nat) returns (g: nat, l: nat, a: nat)
    ensures var ph := PhaseOf(wanted, trace, c);
            && (ph.Welcomed? ==> g < |trace| && trace[g] == Greeted(c, ph.uris))
            && (ph.LoginPending? ==>
                  g < l < |trace| && trace[g].Greeted? && trace[g].c == c && trace[l].Sent? && trace[l].c == c
                  && trace[l].frame.LoginFrame? && trace[l].frame.extensions == Both(wanted, trace[g].uris))
            && (Usable(ph) || ph.Left? ==> AcceptedAt(wanted, trace, c, g, l, a))
  {
    g, l, a := 0, 0, 0;
    if trace != [] {
      var n := |trace| - 1;
      var front := trace[..n];
      g, l, a := PhaseHistory(wanted, front, c);
      if trace[n].c == c {
        match PhaseOf(wanted, front, c)
        case Fresh => g := n;
        case Welcomed(_) => l := n;
        case LoginPending => a := n;
        case _ =>
      }
    }
  }

  lemma {:induction false} BrokenForever(wanted: seq<string>, trace: seq<Event>, c: nat, n: nat)
    requires n <= |trace| && !PhaseOf(wanted, trace, c).Broken?
    ensures !PhaseOf(wanted, trace[..n], c).Broken?
  {
    if n == |trace| {
      assert trace[..n] == trace;
    } else {
      BrokenForever(wanted, trace[..|trace| - 1], c, n);
      assert trace[..|trace| - 1][..n] == trace[..n];
    }
  }

  /** On a connection that never broke the order, a frame other than a login follows an accepted login. */
  lemma FrameAfterLogin(wanted: seq<string>, trace: seq<Event>, i: nat)
    requires i < |trace| && trace[i].Sent? && !trace[i].frame.LoginFrame? && !PhaseOf(wanted, trace, trace[i].c).Broken?
    ensures LoginAccepted(wanted, trace, trace[i].c, i)
  {
    var c := trace[i].c;
    BrokenForever(wanted, trace, c, i + 1);
    PhaseStep(wanted, trace, c, i);
    var g, l, a := PhaseHistory(wanted, trace[..i], c);
    assert AcceptedAt(wanted, trace, c, g, l, a);
  }

  /** No connection ever dialled carries an operation, hello or logout frame before its own accepted login. */
  lemma NoFrameBeforeLogin(wanted: seq<string>, calls: seq<Call>, i: nat)
    requires var t := Run(NewClient(wanted), calls).trace; i < |t| && t[i].Sent? && !t[i].frame.LoginFrame?
    ensures var t := Run(NewClient(wanted), calls).trace; LoginAccepted(wanted, t, t[i].c, i)
  {
    AlwaysSafe(wanted, calls);
    var s := Run(NewClient(wanted), calls);
    assert !Phase'(s, s.trace[i].c).Broken?;
    FrameAfterLogin(wanted, s.trace, i);
  }

  /** A connection in hand has had its greeting read and its login accepted. */
  lemma HeldConnectionLoggedIn(wanted: seq<string>, calls: seq<Call>)
    requires Run(NewClient(wanted), calls).conn.Some?
    ensures var s := Run(NewClient(wanted), calls); LoginAccepted(wanted, s.trace, s.conn.value, |s.trace|)
  {
    AlwaysSafe(wanted, calls);
    var s := Run(NewClient(wanted), calls);
    var g, l, a := PhaseHistory(wanted, s.trace, s.conn.value);
  }

  /** A login asks for an extension exactly when it is configured and was advertised on the same connection. */
  lemma {:induction false} BothMeaning(wanted: seq<string>, uris: seq<string>, uri: string)
    ensures uri in Both(wanted, uris) <==> uri in wanted && uri in uris
  {
    if wanted != [] {
      BothMeaning(wanted[..|wanted| - 1], uris, uri);
      assert wanted == wanted[..|wanted| - 1] + [wanted[|wanted| - 1]];
    }
  }

  /** `kept` is what stands in `wanted` at the given places, which rise and miss no advertised element. */
  ghost predicate KeptAt(wanted: seq<string>, uris: seq<string>, kept: seq<string>, places: seq<nat>) {
    && |places| == |kept|
    && (forall k | 0 <= k < |places| :: places[k] < |wanted| && kept[k] == wanted[places[k]])
    && (forall k, l | 0 <= k < l < |places| :: places[k] < places[l])
    && (forall a: nat | a < |wanted| && wanted[a] in uris :: a in places)
  }

  lemma KeptOn(wanted: seq<string>, last: string, uris: seq<string>, kept: seq<string>, places: seq<nat>)
    requires KeptAt(wanted, uris, kept, places)
    ensures last in uris ==> KeptAt(wanted + [last], uris, kept + [last], places + [|wanted|])
    ensures last !in uris ==> KeptAt(wanted + [last], uris, kept, places)
  {
    var all := wanted + [last];
    forall a: nat | a < |wanted| ensures all[a] == wanted[a] {}
    forall k | 0 <= k < |places| ensures places[k] in places {}
    assert |wanted| in places + [|wanted|];
    forall a | a in places ensures a in places + [|wanted|] {}
  }

  /** A login lists the common extensions in configured order. */
  lemma {:induction false} BothOrder(wanted: seq<string>, uris: seq<string>) returns (places: seq<nat>)
    ensures KeptAt(wanted, uris, Both(wanted, uris), places)
  {
    places := [];
    if wanted != [] {
      var n := |wanted| - 1;
      places := BothOrder(wanted[..n], uris);
      KeptOn(wanted[..n], wanted[n], uris, Both(wanted[..n], uris), places);
      assert wanted == wanted[..n] + [wanted[n]];
      if wanted[n] in uris {
        places := places + [n];
      }
    }
  }

  /** All command frames of an adapter's life carry strictly increasing counters and distinct identifiers. */
  lemma IdentifiersDistinct(wanted: seq<string>, calls: seq<Call>, name: string, i: nat, j: nat)
    requires i < j < |Numbers(Run(NewClient(wanted), calls).trace)|
    ensures var ns := Numbers(Run(NewClient(wanted), calls).trace);
            ns[i] < ns[j] && TransactionID(name, ns[i]) != TransactionID(name, ns[j])
  {
    AlwaysSafe(wanted, calls);
    var ns := Numbers(Run(NewClient(wanted), calls).trace);
    if TransactionID(name, ns[i]) == TransactionID(name, ns[j]) {
      var k := |"gsd-" + name + "-"|;
      assert TransactionID(name, ns[i])[k..] == Decimal(ns[i]);
      assert TransactionID(name, ns[j])[k..] == Decimal(ns[j]);
      DecimalInjective(ns[i], ns[j]);
      assert false;
    }
  }

  // ---- The retry policy ----------------------------------------------------

  function Attempts(trace: seq<Event>): nat {
    if trace == [] then 0
    else Attempts(trace[..|trace| - 1]) + if trace[|trace| - 1].Attempt? then 1 else 0
  }

  lemma LogAttempts(s: Client, e: Event)
    ensures Attempts(Log(s, e).trace) == Attempts(s.trace) + if e.Attempt? then 1 else 0
  {
    assert (s.trace + [e])[..|s.trace|] == s.trace;
  }

  lemma ConverseAttempts(s: Client, f: Frame, x: Exchange)
    requires s.conn.Some?
    ensures Attempts(Converse(s, f, x).trace) == Attempts(s.trace)
  {
    LogAttempts(s, Sent(s.conn.value, f));
    if x.Result? {
      LogAttempts(Log(s, Sent(s.conn.value, f)), Answered(s.conn.value, x.code));
    }
  }

  lemma HelloAttempts(s: Client, x: Exchange)
    requires s.conn.Some?
    ensures Attempts(Perform(s, Hello, x).0.trace) == Attempts(s.trace) + 1
  {
    var s0 := Log(s, Attempt(s.conn.value));
    LogAttempts(s, Attempt(s.conn.value));
    ConverseAttempts(s0, HelloFrame, x);
    assert Perform(s, Hello, x).0 == Converse(s0, HelloFrame, x);
  }

  lemma CommandAttempts(s: Client, op: Operation, x: Exchange)
    requires s.conn.Some? && !op.Hello?
    ensures Attempts(Perform(s, op, x).0.trace) == Attempts(s.trace) + 1
  {
    var s0 := Log(s, Attempt(s.conn.value));
    var s1 := NextID(s0);
    LogAttempts(s, Attempt(s.conn.value));
    ConverseAttempts(s1, CommandFrame(s1.clTRID), x);
    assert Perform(s, op, x).0 == if op.encodes then Converse(s1, CommandFrame(s1.clTRID), x) else s1;
  }

  lemma PerformAttempts(s: Client, op: Operation, x: Exchange)
    requires s.conn.Some?
    ensures Attempts(Perform(s, op, x).0.trace) == Attempts(s.trace) + 1
  {
    if op.Hello? {
      HelloAttempts(s, x);
    } else {
      CommandAttempts(s, op, x);
    }
  }

  lemma PerformKeeps(s: Client, op: Operation, x: Exchange)
    requires s.conn.Some?
    ensures var (s', o) := Perform(s, op, x);
            s'.conn == s.conn && s'.dialled == s.dialled && o == RunOutcome(op, x)
  {
  }

  lemma SendLoginAttempts(s: Client, encodes: bool, x: Exchange)
    requires s.conn.Some?
    ensures Attempts(SendLogin(s, encodes, x).0.trace) == Attempts(s.trace)
  {
    ConverseAttempts(NextID(s), LoginFrame(s.extensions, s.clTRID + 1), x);
  }

  lemma ReadGreetingAttempts(s: Client, w: Welcome)
    requires s.conn.Some?
    ensures Attempts(ReadGreeting(s, w).0.trace) == Attempts(s.trace)
  {
    if w.Advertises? {
      LogAttempts(s, Greeted(s.conn.value, w.uris));
    }
  }

  lemma EnterAttempts(s: Client, w: Welcome, loginEncodes: bool, login: Exchange)
    requires s.conn.Some?
    ensures Attempts(Enter(s, w, loginEncodes, login).0.trace) == Attempts(s.trace)
  {
    ReadGreetingAttempts(s, w);
    var s1 := ReadGreeting(s, w).0;
    HangUpAttempts(s1);
    SendLoginAttempts(s1, loginEncodes, login);
    HangUpAttempts(SendLogin(s1, loginEncodes, login).0);
  }

  lemma ConnectAttempts(s: Client)
    ensures Attempts(Connect(s).trace) == Attempts(s.trace)
  {
    LogAttempts(s, Dialled(s.dialled));
  }

  lemma DialAttempts(s: Client, d: Dialing)
    ensures Attempts(Dial(s, d).0.trace) == Attempts(s.trace)
  {
    if d.Connects? {
      calc {
        Attempts(Dial(s, d).0.trace);
        Attempts(Enter(Connect(s), d.welcome, d.loginEncodes, d.login).0.trace);
        { EnterAttempts(Connect(s), d.welcome, d.loginEncodes, d.login); }
        Attempts(Connect(s).trace);
        { ConnectAttempts(s); }
        Attempts(s.trace);
      }
    }
  }

  lemma HangUpAttempts(s: Client)
    ensures Attempts(HangUp(s).trace) == Attempts(s.trace)
  {
    if s.conn.Some? {
      LogAttempts(s, Hung(s.conn.value));
    }
  }

  /** How one run of an operation ends: a request that cannot be encoded fails like a lost connection. */
  function RunOutcome(op: Operation, x: Exchange): Outcome {
    if !op.Hello? && !op.encodes then Transport else OperationOutcome(op, x)
  }

  predicate NoAnswer(x: Exchange) {
    x.WriteFails? || x.ReadFails? || x.Garbled? || x.NoResponse?
  }

  /** The server answered with an error: 2000 or above, or the empty queue of a poll. */
  predicate ServerError(op: Operation, x: Exchange) {
    && !op.Hello? && op.encodes && x.Result?
    && (x.code >= 2000 || (op.PollRead? && x.code == 1300))
  }

  /** The run fails without a server error: a hello when the frame or the wait for an answer fails, any other operation
      when its request does not encode, nothing was answered, or a success lacks the data a command needs. */
  predicate TransportFails(op: Operation, x: Exchange) {
    match op
    case Hello => x.WriteFails? || x.ReadFails?
    case PollRead(encodes) => !encodes || NoAnswer(x)
    case Command(encodes, needsData) =>
      !encodes || NoAnswer(x) || (x.Result? && x.code < 2000 && needsData && !x.usable)
  }

  /** The three outcomes, told from the exchange alone. */
  lemma RunOutcomeIff(op: Operation, x: Exchange)
    ensures RunOutcome(op, x) == Transport <==> TransportFails(op, x)
    ensures forall code :: RunOutcome(op, x) == EppError(code) <==> ServerError(op, x) && code == x.code
    ensures RunOutcome(op, x) == Ok <==> !TransportFails(op, x) && !ServerError(op, x)
  {
  }

  /** How a dial ends. */
  function DialOutcome(d: Dialing): Outcome {
    if d.Connects? && d.welcome.Advertises? && d.loginEncodes && d.login.Result? then ResultToError(d.login.code)
    else Transport
  }

  /** The network lets the client in: it connects, greets, and answers the login with a code below 2000. */
  predicate Admits(d: Dialing) {
    d.Connects? && d.welcome.Advertises? && d.loginEncodes && d.login.Result? && d.login.code < 2000
  }

  lemma DialOutcomeIff(s: Client, d: Dialing)
    ensures Dial(s, d).1 == DialOutcome(d)
    ensures Dial(s, d).1 == Ok <==> Admits(d)
  {
  }

  /** The client once a transport failure has made it reconnect. */
  function AfterReconnect(s: Client, op: Operation, first: Exchange, d: Dialing): Client
    requires s.conn.Some?
  {
    Dial(HangUp(Perform(s, op, first).0), d).0
  }

  lemma ReconnectAttempts(s: Client, op: Operation, first: Exchange, d: Dialing)
    requires s.conn.Some?
    ensures var s' := AfterReconnect(s, op, first, d);
            && Attempts(s'.trace) == Attempts(s.trace) + 1
            && s'.dialled == s.dialled + (if d.Connects? then 1 else 0)
            && s'.conn == (if Admits(d) then Some(s.dialled) else None)
  {
    PerformAttempts(s, op, first);
    PerformKeeps(s, op, first);
    var s1 := Perform(s, op, first).0;
    HangUpAttempts(s1);
    DialAttempts(HangUp(s1), d);
    DialConnects(HangUp(s1), d);
    DialOutcomeIff(HangUp(s1), d);
  }

  /** The three ways a call goes. */
  lemma WithConnCases(s: Client, op: Operation, first: Exchange, d: Dialing, second: Exchange)
    requires s.conn.Some?
    ensures RunOutcome(op, first) != Transport ==> WithConn(s, op, first, d, second) == Perform(s, op, first)
    ensures RunOutcome(op, first) == Transport && !Admits(d) ==>
              WithConn(s, op, first, d, second) == (AfterReconnect(s, op, first, d), DialOutcome(d))
    ensures RunOutcome(op, first) == Transport && Admits(d) ==>
              && AfterReconnect(s, op, first, d).conn.Some?
              && WithConn(s, op, first, d, second) == Perform(AfterReconnect(s, op, first, d), op, second)
  {
    PerformKeeps(s, op, first);
    DialOutcomeIff(HangUp(Perform(s, op, first).0), d);
    ReconnectAttempts(s, op, first, d);
  }

  /** One call runs its operation once or twice and dials at most once. It runs twice exactly when the first run
      failed without a server error and the network admits the client again. The call succeeds exactly when its last
      run did, and returns the server error of its last run, if that met one. */
  lemma RetryPolicy(s: Client, op: Operation, first: Exchange, d: Dialing, second: Exchange)
    requires s.conn.Some?
    ensures var (s', o) := WithConn(s, op, first, d, second);
            var failed := TransportFails(op, first);
            var last := if failed then second else first;
            && Attempts(s'.trace) == Attempts(s.trace) + (if failed && Admits(d) then 2 else 1)
            && s'.dialled == s.dialled + (if failed && d.Connects? then 1 else 0)
            && (failed && !Admits(d) ==> o == DialOutcome(d))
            && (!failed || Admits(d) ==>
                  && (o == Ok <==> !TransportFails(op, last) && !ServerError(op, last))
                  && (forall code :: o == EppError(code) <==> ServerError(op, last) && code == last.code))
  {
    PerformAttempts(s, op, first);
    PerformKeeps(s, op, first);
    RunOutcomeIff(op, first);
    RunOutcomeIff(op, second);
    ReconnectAttempts(s, op, first, d);
    WithConnCases(s, op, first, d, second);
    if TransportFails(op, first) && Admits(d) {
      var s2 := AfterReconnect(s, op, first, d);
      PerformAttempts(s2, op, second);
      PerformKeeps(s2, op, second);
    }
  }

  /** The held connection is closed right after the first run exactly when that run failed without a server error. */
  lemma ReconnectsIff(s: Client, op: Operation, first: Exchange, d: Dialing, second: Exchange)
    requires s.conn.Some?
    ensures var once, t := Perform(s, op, first).0.trace, WithConn(s, op, first, d, second).0.trace;
            && (!TransportFails(op, first) ==> t == once)
            && (TransportFails(op, first) ==> once + [Hung(s.conn.value)] <= t)
  {
    PerformKeeps(s, op, first);
    RunOutcomeIff(op, first);
    WithConnCases(s, op, first, d, second);
    if TransportFails(op, first) {
      var s1 := HangUp(Perform(s, op, first).0);
      DialExtends(s1, d);
      if Admits(d) {
        PerformExtends(AfterReconnect(s, op, first, d), op, second);
      }
    }
  }

  lemma PerformExtends(s: Client, op: Operation, x: Exchange)
    requires s.conn.Some?
    ensures s.trace <= Perform(s, op, x).0.trace
  {
  }

  lemma DialExtends(s: Client, d: Dialing)
    ensures s.trace <= Dial(s, d).0.trace
  {
    if d.Connects? {
      EnterExtends(Connect(s), d.welcome, d.loginEncodes, d.login);
    }
  }

  lemma EnterExtends(s: Client, w: Welcome, loginEncodes: bool, login: Exchange)
    requires s.conn.Some?
    ensures s.trace <= Enter(s, w, loginEncodes, login).0.trace
  {
  }

  /** A call succeeds exactly when its last run did. */
  lemma SucceedsWithLastRun(s: Client, op: Operation, first: Exchange, d: Dialing, second: Exchange)
    requires s.conn.Some?
    ensures var (s', o) := WithConn(s, op, first, d, second);
            var last := if Attempts(s'.trace) == Attempts(s.trace) + 2 then second else first;
            o == Ok <==> !TransportFails(op, last) && !ServerError(op, last)
  {
    RetryPolicy(s, op, first, d, second);
  }

  /** A server error on the first run is returned at once, with the connection held, nothing dialled and nothing run
      again. */
  lemma ServerErrorNotRetried(s: Client, op: Operation, code: int, usable: bool, d: Dialing, second: Exchange)
    requires s.conn.Some? && !op.Hello? && op.encodes
    requires code >= 2000 || (op.PollRead? && code == 1300)
    ensures var (s', o) := WithConn(s, op, Result(code, usable), d, second);
            && o == EppError(code) && s'.conn == s.conn && s'.dialled == s.dialled
            && Attempts(s'.trace) == Attempts(s.trace) + 1
  {
    RetryPolicy(s, op, Result(code, usable), d, second);
    ConnectionAfterOperation(s, op, Result(code, usable), d, second);
  }

  /** After an operation the connection is gone exactly when it failed without a server error on a network that does not
      admit the client again; the next operation would then dereference nil. After a retry it is a new one. */
  lemma ConnectionAfterOperation(s: Client, op: Operation, first: Exchange, d: Dialing, second: Exchange)
    requires s.conn.Some?
    ensures WithConn(s, op, first, d, second).0.conn
         == if !TransportFails(op, first) then s.conn else if Admits(d) then Some(s.dialled) else None
  {
    PerformKeeps(s, op, first);
    RunOutcomeIff(op, first);
    ReconnectAttempts(s, op, first, d);
    WithConnCases(s, op, first, d, second);
    if TransportFails(op, first) && Admits(d) {
      PerformKeeps(AfterReconnect(s, op, first, d), op, second);
    }
  }

  /** How a logout ends: without a connection or a decodable response like a lost one, else as the response says. */
  lemma LogoutOutcomeIff(s: Client, encodes: bool, x: Exchange)
    ensures var o := Logout(s, encodes, x).1;
            && (o == Ok <==> s.conn.Some? && encodes && x.Result? && x.code < 2000)
            && (forall code :: o == EppError(code) <==> s.conn.Some? && encodes && x.Result? && x.code >= 2000 && code == x.code)
  {
  }

  /** The attempt, its frame under a fresh number if the request encodes, and the code of a decoded answer. */
  function RunEvents(c: nat, n: nat, op: Operation, x: Exchange): seq<Event> {
    if op.Hello? then [Attempt(c), Sent(c, HelloFrame)] + (if x.Result? then [Answered(c, x.code)] else [])
    else if !op.encodes then [Attempt(c)]
    else [Attempt(c), Sent(c, CommandFrame(n))] + (if x.Result? then [Answered(c, x.code)] else [])
  }

  /** What a run of an operation leaves on the trace. */
  lemma PerformTrace(s: Client, op: Operation, x: Exchange)
    requires s.conn.Some?
    ensures Perform(s, op, x).0.trace == s.trace + RunEvents(s.conn.value, s.clTRID + 1, op, x)
  {
  }

  /** An admitted dial leaves exactly this: dialled, greeted, a login that asks for what is both configured and
      advertised, accepted. */
  lemma AdmittedTrace(s: Client, d: Dialing)
    requires Admits(d)
    ensures Dial(s, d).0.trace
         == s.trace + [Dialled(s.dialled), Greeted(s.dialled, d.welcome.uris),
                       Sent(s.dialled, LoginFrame(Both(s.wanted, d.welcome.uris), s.clTRID + 1)),
                       Answered(s.dialled, d.login.code)]
  {
  }

  /** Logout gives the connection up exactly when a response could be decoded, whatever it said; a lost one keeps it. */
  lemma ConnectionAfterLogout(s: Client, encodes: bool, x: Exchange)
    requires s.conn.Some?
    ensures Logout(s, encodes, x).0.conn == if encodes && (x.NoResponse? || x.Result?) then None else s.conn
  {
  }

  /** An operation can follow a logout on the same connection exactly when no response to the logout was decoded; its
      frame then stands right behind. */
  lemma OperationAfterLogoutIff(s: Client, encodes: bool, x: Exchange, op: Operation, first: Exchange)
    requires s.conn.Some? && (op.Hello? || op.encodes)
    ensures var s1 := Logout(s, encodes, x).0;
            && (s1.conn.Some? <==> !encodes || x.WriteFails? || x.ReadFails? || x.Garbled?)
            && (s1.conn.Some? ==>
                  var t := Perform(s1, op, first).0.trace;
                  && |s1.trace| + 1 < |t| && t[..|s1.trace|] == s1.trace
                  && t[|s1.trace| + 1] == Sent(s.conn.value, if op.Hello? then HelloFrame else CommandFrame(s1.clTRID + 1)))
  {
  }

  lemma {:induction false} Untouched(wanted: seq<string>, trace: seq<Event>, c: nat, m: nat, n: nat)
    requires m <= n <= |trace| && forall k | m <= k < n :: trace[k].c != c
    ensures PhaseOf(wanted, trace[..n], c) == PhaseOf(wanted, trace[..m], c)
    decreases n
  {
    if m < n {
      assert trace[..n][..n - 1] == trace[..n - 1];
      Untouched(wanted, trace, c, m, n - 1);
    }
  }

  lemma PhaseStep(wanted: seq<string>, trace: seq<Event>, c: nat, n: nat)
    requires n < |trace| && trace[n].c == c
    ensures PhaseOf(wanted, trace[..n + 1], c) == Next(wanted, PhaseOf(wanted, trace[..n], c), trace[n])
  {
    assert trace[..n + 1][..n] == trace[..n];
  }

  /** Once a logout has been answered, the connection is left or shut. */
  lemma {:induction false} LeftForGood(wanted: seq<string>, trace: seq<Event>, c: nat, m: nat, n: nat)
    requires m <= n <= |trace| && !PhaseOf(wanted, trace, c).Broken? && PhaseOf(wanted, trace[..m], c).Left?
    ensures PhaseOf(wanted, trace[..n], c).Left? || PhaseOf(wanted, trace[..n], c).Shut?
    decreases n
  {
    if m < n {
      LeftForGood(wanted, trace, c, m, n - 1);
      BrokenForever(wanted, trace, c, n);
      if trace[n - 1].c == c {
        PhaseStep(wanted, trace, c, n - 1);
      } else {
        Untouched(wanted, trace, c, n - 1, n);
      }
    }
  }

  lemma AnsweredLogoutLeaves(wanted: seq<string>, trace: seq<Event>, c: nat, k: nat, i: nat)
    requires k < i < |trace| && !PhaseOf(wanted, trace, c).Broken?
    requires trace[k].Sent? && trace[k].frame.LogoutFrame? && trace[k].c == c && trace[i].Answered? && trace[i].c == c
    requires forall m | k < m < i :: trace[m].c != c
    ensures PhaseOf(wanted, trace[..i + 1], c).Left?
  {
    BrokenForever(wanted, trace, c, k + 1);
    PhaseStep(wanted, trace, c, k);
    Untouched(wanted, trace, c, k + 1, i);
    PhaseStep(wanted, trace, c, i);
  }

  lemma LeftThenClosed(wanted: seq<string>, trace: seq<Event>, c: nat, i: nat, j: nat)
    requires i < j < |trace| && !PhaseOf(wanted, trace, c).Broken? && trace[j].c == c
    requires PhaseOf(wanted, trace[..i + 1], c).Left?
    ensures trace[j].Hung?
  {
    LeftForGood(wanted, trace, c, i + 1, j);
    BrokenForever(wanted, trace, c, j + 1);
    PhaseStep(wanted, trace, c, j);
  }

  /** In every run, once a connection's logout has been answered nothing but its close follows on it. */
  lemma AnsweredLogoutIsFinal(wanted: seq<string>, calls: seq<Call>, k: nat, i: nat, j: nat)
    requires var t := Run(NewClient(wanted), calls).trace;
             && k < i < j < |t| && t[k].Sent? && t[k].frame.LogoutFrame? && t[i].Answered? && t[i].c == t[k].c == t[j].c
             && forall m | k < m < i :: t[m].c != t[k].c
    ensures Run(NewClient(wanted), calls).trace[j].Hung?
  {
    AlwaysSafe(wanted, calls);
    var s := Run(NewClient(wanted), calls);
    var c := s.trace[k].c;
    assert !Phase'(s, c).Broken?;
    AnsweredLogoutLeaves(wanted, s.trace, c, k, i);
    LeftThenClosed(wanted, s.trace, c, i, j);
  }

  // ---- Leaked connections --------------------------------------------------

  /** Open at the peer but no longer held. */
  ghost predicate Leaked(s: Client, c: nat) {
    !Phase'(s, c).Unused? && !Phase'(s, c).Shut? && s.conn != Some(c)
  }

  /** A call leaks exactly the connection a second Login overwrites: one still held when the new dial connects.
      No call ever closes a leaked connection. */
  lemma OnlyReloginLeaks(s: Client, call: Call, c: nat)
    requires Safe(s) && Possible(s, call)
    ensures Leaked(Apply(s, call), c) <==>
              Leaked(s, c) || (call.LogIn? && call.d.Connects? && s.conn == Some(c))
  {
    match call
    case LogIn(d) =>
      DialSafe(s, d);
      DialConnects(s, d);
    case LogOut(encodes, x) =>
      LogoutSafe(s, encodes, x);
    case Close =>
      HangUpLawful(s);
    case Do(op, first, d, second) =>
      PerformSafe(s, op, first);
      var (s1, o1) := Perform(s, op, first);
      if o1 == Transport {
        HangUpLawful(s1);
        var s2 := HangUp(s1);
        DialSafe(s2, d);
        DialConnects(s2, d);
        var (s3, o3) := Dial(s2, d);
        if o3 == Ok {
          PerformSafe(s3, op, second);
        }
      }
  }
}
