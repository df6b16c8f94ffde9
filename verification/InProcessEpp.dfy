/** The in-process EPP mock: connection goroutines draining a poll queue and a script queue they share.
    Each shared access is one atomic step; a run is any sequence of steps. */
module InProcessEpp {
  import opened Text

  datatype Item = Payload(xml: string) | Malformed | WrongCode(code: int) | Unknown

  /** Where a connection goroutine stands in its loop. */
  datatype Phase =
    | Draining   // about to look at the poll queue
    | Reading    // blocked in ReadFrame
    | Waiting    // a frame was read; about to receive a script item
    | Closed

  datatype Event =
    | Injected(poll: string) | Pushed(item: Item)
    | FrameRead(c: nat)
    | PollSent(c: nat, poll: string)
    | Answered(c: nat, item: Item)

  datatype State = State(polls: seq<string>, script: seq<Item>, conns: map<nat, Phase>, cancelled: bool, log: seq<Event>)

  const POLL_ROOM := 8
  const SCRIPT_ROOM := 32
  const EMPTY := State([], [], map[], false, [])

  datatype Move =
    | InjectPoll(xml: string) | Push(item: Item) | Cancel
    | Accept(c: nat)
    | Drain(c: nat, written: bool)
    | Read(c: nat) | ReadFails(c: nat)
    | Dispatch(c: nat, written: bool) | GiveUp(c: nat)

  predicate In(s: State, c: nat, phase: Phase) {
    c in s.conns && s.conns[c] == phase
  }

  predicate Enabled(s: State, m: Move) {
    match m
    case InjectPoll(_) => |s.polls| < POLL_ROOM
    case Push(_) => |s.script| < SCRIPT_ROOM
    case Cancel => true
    case Accept(c) => c !in s.conns
    case Drain(c, _) => In(s, c, Draining)
    case Read(c) => In(s, c, Reading)
    case ReadFails(c) => In(s, c, Reading)
    case Dispatch(c, _) => In(s, c, Waiting) && s.script != []
    case GiveUp(c) => In(s, c, Waiting) && s.cancelled
  }

  function At(s: State, c: nat, phase: Phase): map<nat, Phase> {
    s.conns[c := phase]
  }

  /** One atomic step; a move that is not possible now leaves the state alone. */
  function Step(s: State, m: Move): State {
    if !Enabled(s, m) then s
    else
      match m
      case InjectPoll(xml) => s.(polls := s.polls + [xml], log := s.log + [Injected(xml)])
      case Push(item) => s.(script := s.script + [item], log := s.log + [Pushed(item)])
      case Cancel => s.(cancelled := true)
      case Accept(c) => s.(conns := At(s, c, Draining))
      case Drain(c, written) =>
        if s.polls == [] then s.(conns := At(s, c, Reading))
        else s.(polls := s.polls[1..], conns := At(s, c, if written then Reading else Closed),
                log := s.log + [PollSent(c, s.polls[0])])
      case Read(c) => s.(conns := At(s, c, Waiting), log := s.log + [FrameRead(c)])
      case ReadFails(c) => s.(conns := At(s, c, Closed))
      case Dispatch(c, written) =>
        s.(script := s.script[1..],
           conns := At(s, c, if written && !s.script[0].Unknown? then Draining else Closed),
           log := s.log + [Answered(c, s.script[0])])
      case GiveUp(c) => s.(conns := At(s, c, Closed))
  }

  function Run(moves: seq<Move>): State {
    if moves == [] then EMPTY else Step(Run(moves[..|moves| - 1]), moves[|moves| - 1])
  }

  function EventOf(s: State, m: Move): seq<Event> {
    if !Enabled(s, m) then []
    else
      match m
      case InjectPoll(xml) => [Injected(xml)]
      case Push(item) => [Pushed(item)]
      case Drain(c, _) => if s.polls == [] then [] else [PollSent(c, s.polls[0])]
      case Read(c) => [FrameRead(c)]
      case Dispatch(c, _) => [Answered(c, s.script[0])]
      case _ => []
  }

  lemma StepLogs(s: State, m: Move)
    ensures Step(s, m).log == s.log + EventOf(s, m)
  {
  }

  // ---- Conservation of both queues -----------------------------------------

  function Polls(log: seq<Event>, sent: bool): seq<string> {
    if log == [] then []
    else
      var e := log[|log| - 1];
      Polls(log[..|log| - 1], sent)
      + if sent then (if e.PollSent? then [e.poll] else []) else (if e.Injected? then [e.poll] else [])
  }

  function Items(log: seq<Event>, sent: bool): seq<Item> {
    if log == [] then []
    else
      var e := log[|log| - 1];
      Items(log[..|log| - 1], sent)
      + if sent then (if e.Answered? then [e.item] else []) else (if e.Pushed? then [e.item] else [])
  }

  lemma LogGrows(log: seq<Event>, e: Event)
    ensures Polls(log + [e], true) == Polls(log, true) + if e.PollSent? then [e.poll] else []
    ensures Polls(log + [e], false) == Polls(log, false) + if e.Injected? then [e.poll] else []
    ensures Items(log + [e], true) == Items(log, true) + if e.Answered? then [e.item] else []
    ensures Items(log + [e], false) == Items(log, false) + if e.Pushed? then [e.item] else []
  {
    assert (log + [e])[..|log|] == log;
  }

  /** Sent, then still queued, is what was put in: both queues are FIFO and nothing is lost or repeated. */
  ghost predicate Conserved(s: State) {
    Polls(s.log, true) + s.polls == Polls(s.log, false) && Items(s.log, true) + s.script == Items(s.log, false)
  }

  lemma PutLast<T>(sent: seq<T>, queue: seq<T>, x: T)
    ensures sent + (queue + [x]) == sent + queue + [x]
  {
  }

  lemma TakeFirst<T>(sent: seq<T>, queue: seq<T>)
    requires queue != []
    ensures sent + [queue[0]] + queue[1..] == sent + queue
  {
  }

  lemma StepConservesPolls(s: State, m: Move)
    requires Polls(s.log, true) + s.polls == Polls(s.log, false)
    ensures var t := Step(s, m); Polls(t.log, true) + t.polls == Polls(t.log, false)
  {
    if EventOf(s, m) != [] {
      LogGrows(s.log, EventOf(s, m)[0]);
      if m.InjectPoll? {
        PutLast(Polls(s.log, true), s.polls, m.xml);
      } else if m.Drain? {
        TakeFirst(Polls(s.log, true), s.polls);
      }
    }
  }

  lemma StepConservesItems(s: State, m: Move)
    requires Items(s.log, true) + s.script == Items(s.log, false)
    ensures var t := Step(s, m); Items(t.log, true) + t.script == Items(t.log, false)
  {
    if EventOf(s, m) != [] {
      LogGrows(s.log, EventOf(s, m)[0]);
      if m.Push? {
        PutLast(Items(s.log, true), s.script, m.item);
      } else if m.Dispatch? {
        TakeFirst(Items(s.log, true), s.script);
      }
    }
  }

  lemma {:induction false} QueuesConserved(moves: seq<Move>)
    ensures Conserved(Run(moves))
  {
    if moves != [] {
      QueuesConserved(moves[..|moves| - 1]);
      var s := Run(moves[..|moves| - 1]);
      StepConservesPolls(s, moves[|moves| - 1]);
      StepConservesItems(s, moves[|moves| - 1]);
    }
  }

  // ---- One poll between two answers ----------------------------------------

  /** The last thing connection c read or wrote, by kind. */
  datatype Last = Start | Poll | Frame | Answer

  function LastOf(log: seq<Event>, c: nat): Last {
    if log == [] then Start
    else
      var e := log[|log| - 1];
      if e.PollSent? && e.c == c then Poll
      else if e.FrameRead? && e.c == c then Frame
      else if e.Answered? && e.c == c then Answer
      else LastOf(log[..|log| - 1], c)
  }

  lemma LastGrows(log: seq<Event>, e: Event, c: nat)
    ensures LastOf(log + [e], c) ==
      if e.PollSent? && e.c == c then Poll
      else if e.FrameRead? && e.c == c then Frame
      else if e.Answered? && e.c == c then Answer
      else LastOf(log, c)
  {
    assert (log + [e])[..|log|] == log;
  }

  /** The loop position fits the connection's history. */
  ghost predicate Placed(s: State, c: nat) {
    if c !in s.conns then LastOf(s.log, c) == Start
    else
      match s.conns[c]
      case Draining => LastOf(s.log, c) in {Start, Answer}
      case Reading => LastOf(s.log, c) in {Start, Answer, Poll}
      case Waiting => LastOf(s.log, c) == Frame
      case Closed => true
  }

  lemma StepPlaced(s: State, m: Move, c: nat)
    requires Placed(s, c)
    ensures Placed(Step(s, m), c)
  {
    StepLogs(s, m);
    if EventOf(s, m) != [] {
      LastGrows(s.log, EventOf(s, m)[0], c);
    }
  }

  lemma {:induction false} AllPlaced(moves: seq<Move>, c: nat)
    ensures Placed(Run(moves), c)
  {
    if moves != [] {
      AllPlaced(moves[..|moves| - 1], c);
      StepPlaced(Run(moves[..|moves| - 1]), moves[|moves| - 1], c);
    }
  }

  /** Every event of a connection fits what it did last: a poll follows its accept or an answer, an answer follows a frame. */
  predicate Fits(log: seq<Event>, i: nat) {
    i < |log| ==>
      && (log[i].PollSent? ==> LastOf(log[..i], log[i].c) in {Start, Answer})
      && (log[i].FrameRead? ==> LastOf(log[..i], log[i].c) in {Start, Answer, Poll})
      && (log[i].Answered? ==> LastOf(log[..i], log[i].c) == Frame)
  }

  lemma {:induction false} EveryEventFits(moves: seq<Move>, i: nat)
    ensures Fits(Run(moves).log, i)
  {
    if moves != [] {
      var m := moves[|moves| - 1];
      var front := moves[..|moves| - 1];
      var s := Run(front);
      StepLogs(s, m);
      if i < |s.log| {
        EveryEventFits(front, i);
        assert Run(moves).log[..i] == s.log[..i];
      } else if i < |Run(moves).log| {
        assert Run(moves).log[..i] == s.log;
        match m
        case Drain(c, _) => AllPlaced(front, c);
        case Read(c) => AllPlaced(front, c);
        case Dispatch(c, _) => AllPlaced(front, c);
        case _ =>
      }
    }
  }

  /** If the connection's last act is an answer or it has done nothing, a poll it sent earlier was followed by an answer. */
  lemma {:induction false} AnswerSince(log: seq<Event>, c: nat, i: nat)
    requires i < |log| && log[i].PollSent? && log[i].c == c && LastOf(log, c) in {Start, Answer}
    ensures exists j | i < j < |log| :: log[j].Answered? && log[j].c == c
  {
    var e := log[|log| - 1];
    if e.Answered? && e.c == c {
      assert log[|log| - 1].Answered?;
    } else {
      AnswerSince(log[..|log| - 1], c, i);
      var j :| i < j < |log| - 1 && log[..|log| - 1][j].Answered? && log[..|log| - 1][j].c == c;
      assert log[j].Answered? && log[j].c == c;
    }
  }

  /** Between two polls written on one connection lies a scripted response on it; so between two consecutive
      scripted responses at most one injected poll is written. */
  lemma OnePollPerAnswer(moves: seq<Move>, i: nat, k: nat)
    requires i < k < |Run(moves).log|
    requires Run(moves).log[i].PollSent? && Run(moves).log[k].PollSent? && Run(moves).log[i].c == Run(moves).log[k].c
    ensures exists j | i < j < k :: Run(moves).log[j].Answered? && Run(moves).log[j].c == Run(moves).log[k].c
  {
    var log := Run(moves).log;
    EveryEventFits(moves, k);
    AnswerSince(log[..k], log[k].c, i);
    var j :| i < j < k && log[..k][j].Answered? && log[..k][j].c == log[k].c;
    assert log[j].Answered? && log[j].c == log[k].c;
  }

  /** A frame is the last act since an answer only if it came after that answer. */
  lemma {:induction false} FrameSince(log: seq<Event>, c: nat, i: nat)
    requires i < |log| && log[i].Answered? && log[i].c == c && LastOf(log, c) == Frame
    ensures exists j | i < j < |log| :: log[j] == FrameRead(c)
  {
    var e := log[|log| - 1];
    if e != FrameRead(c) {
      FrameSince(log[..|log| - 1], c, i);
      var j :| i < j < |log| - 1 && log[..|log| - 1][j] == FrameRead(c);
      assert log[j] == FrameRead(c);
    }
  }

  /** Each scripted response answers a frame of its own. */
  lemma OneAnswerPerFrame(moves: seq<Move>, i: nat, k: nat)
    requires i < k < |Run(moves).log|
    requires Run(moves).log[i].Answered? && Run(moves).log[k].Answered? && Run(moves).log[i].c == Run(moves).log[k].c
    ensures exists j | i < j < k :: Run(moves).log[j] == FrameRead(Run(moves).log[k].c)
  {
    var log := Run(moves).log;
    EveryEventFits(moves, k);
    FrameSince(log[..k], log[k].c, i);
    var j :| i < j < k && log[..k][j] == FrameRead(log[k].c);
    assert log[j] == FrameRead(log[k].c);
  }

  /** A poll injected while a connection is reading or answering is not written there before its next scripted
      response: only a draining connection writes polls, and it got there by accepting or by answering. */
  lemma BlockedReaderSendsNoPoll(s: State, m: Move, c: nat)
    requires In(s, c, Reading) || In(s, c, Waiting)
    ensures forall e | e in EventOf(s, m) :: !(e.PollSent? && e.c == c)
    ensures In(Step(s, m), c, Draining) ==> EventOf(s, m) != [] && EventOf(s, m)[0].Answered? && EventOf(s, m)[0].c == c
  {
  }

  // ---- How a connection goes on --------------------------------------------

  /** A new connection looks at the poll queue, then reads, then waits for an item; after a usable item that could be
      written it looks at the poll queue again. A failed read or write, an unusable item and the end of the test while it waits close it. */
  lemma GoesOn(s: State, c: nat, written: bool)
    ensures Enabled(s, Accept(c)) ==> In(Step(s, Accept(c)), c, Draining)
    ensures Enabled(s, Drain(c, written)) ==>
              In(Step(s, Drain(c, written)), c, if s.polls == [] || written then Reading else Closed)
    ensures Enabled(s, Read(c)) ==> In(Step(s, Read(c)), c, Waiting)
    ensures Enabled(s, Dispatch(c, written)) ==>
              In(Step(s, Dispatch(c, written)), c, if written && !s.script[0].Unknown? then Draining else Closed)
    ensures Enabled(s, ReadFails(c)) ==> In(Step(s, ReadFails(c)), c, Closed)
    ensures In(s, c, Waiting) ==> In(Step(Step(s, Cancel), GiveUp(c)), c, Closed)
  {
  }

  lemma ReadThenDispatch(s: State, c: nat)
    requires In(s, c, Reading) && s.script != [] && !s.script[0].Unknown?
    ensures var t := Step(Step(s, Read(c)), Dispatch(c, true));
            In(t, c, Draining) && t.polls == s.polls && t.log == s.log + [FrameRead(c), Answered(c, s.script[0])]
  {
  }

  /** A poll that is queued while a connection is blocked reading goes out on it right after its next scripted response,
      if no other connection takes it before. */
  lemma QueuedPollGoesOut(s: State, c: nat)
    requires In(s, c, Reading) && s.polls != [] && s.script != [] && !s.script[0].Unknown?
    ensures var t := Step(Step(Step(s, Read(c)), Dispatch(c, true)), Drain(c, true));
            && t.log == s.log + [FrameRead(c), Answered(c, s.script[0]), PollSent(c, s.polls[0])]
            && t.polls == s.polls[1..] && In(t, c, Reading)
  {
    ReadThenDispatch(s, c);
  }

  /** The channels never hold more than 8 polls and 32 items. */
  lemma {:induction false} QueuesBounded(moves: seq<Move>)
    ensures |Run(moves).polls| <= 8 && |Run(moves).script| <= 32
  {
    if moves != [] {
      QueuesBounded(moves[..|moves| - 1]);
      StepBounded(Run(moves[..|moves| - 1]), moves[|moves| - 1]);
    }
  }

  lemma StepBounded(s: State, m: Move)
    requires |s.polls| <= 8 && |s.script| <= 32
    ensures |Step(s, m).polls| <= 8 && |Step(s, m).script| <= 32
  {
  }

  // ---- The server object ---------------------------------------------------

  class MockEPPServer {
    var pollCh: seq<string>
    var script: seq<Item>
    var conns: map<nat, Phase>
    var cancelled: bool
    ghost var log: seq<Event>

    ghost function View(): State
      reads this
    {
      State(pollCh, script, conns, cancelled, log)
    }

    constructor ()
      ensures View() == EMPTY
    {
      pollCh, script, conns, cancelled, log := [], [], map[], false, [];
    }

    method Inject(xml: string) returns (sent: bool)
      modifies this
      ensures View() == Step(old(View()), InjectPoll(xml)) && sent == Enabled(old(View()), InjectPoll(xml))
    {
      sent := |pollCh| < POLL_ROOM;
      if sent {
        pollCh, log := pollCh + [xml], log + [Injected(xml)];
      }
    }

    method Enqueue(item: Item) returns (sent: bool)
      modifies this
      ensures View() == Step(old(View()), Push(item)) && sent == Enabled(old(View()), Push(item))
    {
      sent := |script| < SCRIPT_ROOM;
      if sent {
        script, log := script + [item], log + [Pushed(item)];
      }
    }

    method Connect(c: nat)
      requires c !in conns
      modifies this
      ensures View() == Step(old(View()), Accept(c))
    {
      conns := conns[c := Draining];
    }

    /** The non-blocking select at the top of the loop. */
    method DrainPoll(c: nat, written: bool) returns (poll: Option<string>)
      requires c in conns && conns[c] == Draining
      modifies this
      ensures View() == Step(old(View()), Drain(c, written))
      ensures poll == if old(pollCh) == [] then None else Some(old(pollCh)[0])
    {
      if pollCh == [] {
        conns := conns[c := Reading];
        return None;
      }
      poll, pollCh := Some(pollCh[0]), pollCh[1..];
      log := log + [PollSent(c, poll.value)];
      conns := conns[c := if written then Reading else Closed];
    }

    method OnFrame(c: nat)
      requires c in conns && conns[c] == Reading
      modifies this
      ensures View() == Step(old(View()), Read(c))
    {
      conns, log := conns[c := Waiting], log + [FrameRead(c)];
    }

    method DispatchNext(c: nat, written: bool) returns (item: Item)
      requires c in conns && conns[c] == Waiting && script != []
      modifies this
      ensures View() == Step(old(View()), Dispatch(c, written)) && item == old(script)[0]
    {
      item, script := script[0], script[1..];
      log := log + [Answered(c, item)];
      if !written || item.Unknown? {
        conns := conns[c := Closed];
      } else {
        conns := conns[c := Draining];
      }
    }
  }
}
