/** wait_for_poll against a message queue. */
module WaitForPoll {
  import opened Text

  datatype Message = Message(id: string, kind: string)

  /** How an ack goes. When only its answer is lost, the server has dequeued the message but the client sees a failure. */
  datatype Ack = Acked | Refused | AnswerLost

  /** What surrounds the i-th poll: messages that arrive before it, a failure of the read, how the ack goes, and how
      far the clock moves while the poll (and the pause after an empty one) lasts. */
  datatype Turn = Turn(arrivals: seq<Message>, readFails: Option<int>, ack: Ack, elapsed: nat)

  datatype Outcome = Found(message: Message) | ReadError | AckError | Timeout | InvalidTimeout

  /** 1300, an empty queue, is retried; any other failed read ends the wait. */
  const EMPTY_QUEUE := 1300

  predicate Wanted(m: Message, matchType: string) {
    matchType == "" || m.kind == matchType
  }

  ghost predicate Advances(turns: nat -> Turn) {
    forall i :: turns(i).elapsed > 0
  }

  // ---- The wait as a function ----------------------------------------------

  function AfterAck(taken: nat, ack: Ack): nat {
    if ack.Refused? then taken else taken + 1
  }

  /** How a wait ends: its outcome, everything that was ever in the queue, how much of it is dequeued, and how many
      polls were made. */
  datatype End = End(outcome: Outcome, arrived: seq<Message>, taken: nat, polls: nat)

  ghost function Wait(turns: nat -> Turn, matchType: string, timeout: int, arrived: seq<Message>, taken: nat, clock: int, i: nat): End
    requires Advances(turns) && taken <= |arrived|
    decreases timeout - clock
  {
    if clock >= timeout then End(Timeout, arrived, taken, i)
    else
      var turn := turns(i);
      var all, later := arrived + turn.arrivals, clock + turn.elapsed;
      if turn.readFails.Some? && turn.readFails.value != EMPTY_QUEUE then End(ReadError, all, taken, i + 1)
      else if turn.readFails.Some? || taken == |all| then Wait(turns, matchType, timeout, all, taken, later, i + 1)
      else if !Wanted(all[taken], matchType) then
        Wait(turns, matchType, timeout, all, AfterAck(taken, turn.ack), later, i + 1)
      else End(if turn.ack.Acked? then Found(all[taken]) else AckError, all, AfterAck(taken, turn.ack), i + 1)
  }

  // ---- The program ---------------------------------------------------------

  /** The registrar's queue: PollRead shows the head, PollAck removes it. */
  class Queue {
    var messages: seq<Message>
    ghost var arrived: seq<Message>   // everything that ever was in the queue, in order
    ghost var taken: nat              // how many of them were dequeued

    ghost predicate Valid()
      reads this
    {
      taken <= |arrived| && messages == arrived[taken..]
    }

    constructor (initial: seq<Message>)
      ensures Valid() && arrived == initial && taken == 0
    {
      messages, arrived, taken := initial, initial, 0;
    }

    method Arrive(more: seq<Message>)
      requires Valid()
      modifies this
      ensures Valid() && arrived == old(arrived) + more && taken == old(taken)
    {
      messages, arrived := messages + more, arrived + more;
    }

    method PollRead() returns (m: Option<Message>)
      requires Valid()
      ensures m == if taken == |arrived| then None else Some(arrived[taken])
    {
      m := if messages == [] then None else Some(messages[0]);
    }

    /** Acknowledges the message shown last. */
    method PollAck(ack: Ack) returns (ok: bool)
      requires Valid() && taken < |arrived|
      modifies this
      ensures Valid() && arrived == old(arrived) && taken == AfterAck(old(taken), ack) && ok == ack.Acked?
    {
      if !ack.Refused? {
        messages, taken := messages[1..], taken + 1;
      }
      ok := ack.Acked?;
    }
  }

  /** `timeout` is the parsed duration, None when it does not parse. Each turn moves the clock. */
  method ExecWaitForPoll(q: Queue, timeout: Option<int>, matchType: string, turns: nat -> Turn)
      returns (outcome: Outcome, polls: nat)
    requires q.Valid() && Advances(turns)
    modifies q
    ensures q.Valid()
    ensures End(outcome, q.arrived, q.taken, polls)
         == if timeout.None? then End(InvalidTimeout, old(q.arrived), old(q.taken), 0)
            else Wait(turns, matchType, timeout.value, old(q.arrived), old(q.taken), 0, 0)
  {
    polls := 0;
    if timeout.None? {
      return InvalidTimeout, 0;
    }
    var clock := 0;
    while clock < timeout.value
      invariant q.Valid()
      invariant Wait(turns, matchType, timeout.value, q.arrived, q.taken, clock, polls)
             == Wait(turns, matchType, timeout.value, old(q.arrived), old(q.taken), 0, 0)
      decreases timeout.value - clock
    {
      var turn := turns(polls);
      polls := polls + 1;
      q.Arrive(turn.arrivals);
      clock := clock + turn.elapsed;
      if turn.readFails.Some? {
        if turn.readFails.value == EMPTY_QUEUE {
          continue;
        }
        outcome := ReadError;
        return;
      }
      var msg := q.PollRead();
      if msg.None? {
        continue;
      }
      if Wanted(msg.value, matchType) {
        var ok := q.PollAck(turn.ack);
        outcome := if ok then Found(msg.value) else AckError;
        return;
      }
      var _ := q.PollAck(turn.ack);   // best effort
    }
    outcome := Timeout;
  }

  // ---- What every wait keeps, whatever fails -------------------------------

  function Clock(turns: nat -> Turn, n: nat): nat {
    if n == 0 then 0 else Clock(turns, n - 1) + turns(n - 1).elapsed
  }

  /** Everything that was in the queue by the n-th poll. */
  function Arrived(turns: nat -> Turn, first: seq<Message>, n: nat): seq<Message> {
    if n == 0 then first else Arrived(turns, first, n - 1) + turns(n - 1).arrivals
  }

  ghost predicate NoneWanted(arrived: seq<Message>, from: nat, to: nat, matchType: string) {
    from <= to <= |arrived| && forall k | from <= k < to :: !Wanted(arrived[k], matchType)
  }

  /** How many of the dequeued messages were let go as unwanted: all, but for a wanted one that was acknowledged last,
      whether or not the client got to know. */
  function LetGo(turns: nat -> Turn, start: nat, end: End): nat {
    var acked := end.outcome.Found? || (end.outcome.AckError? && end.polls > 0 && turns(end.polls - 1).ack.AnswerLost?);
    if acked && start < end.taken then end.taken - 1 else end.taken
  }

  /** A wait dequeues unwanted messages only, in order; the one it returns is the first wanted one and goes last.
      A refused ack leaves the wanted message at the head, a lost answer to an ack has taken it off unseen, and a
      timeout means the clock ran out during the last poll. */
  ghost predicate Sound(turns: nat -> Turn, matchType: string, timeout: int, first: seq<Message>, start: nat, end: End) {
    && end.arrived == Arrived(turns, first, end.polls)
    && start <= end.taken <= |end.arrived|
    && NoneWanted(end.arrived, start, LetGo(turns, start, end), matchType)
    && (forall k: nat | k < end.polls :: Clock(turns, k) < timeout)
    && match end.outcome
       case Found(m) => start < end.taken && m == end.arrived[end.taken - 1] && Wanted(m, matchType)
       case AckError => end.polls > 0 && AckMissed(end, turns(end.polls - 1).ack, start, matchType)
       case ReadError => end.polls > 0 && turns(end.polls - 1).readFails.Some?
                         && turns(end.polls - 1).readFails != Some(1300)
       case Timeout => Clock(turns, end.polls) >= timeout
       case InvalidTimeout => false
  }

  ghost predicate AckMissed(end: End, ack: Ack, start: nat, matchType: string) {
    match ack
    case Acked => false
    case Refused => end.taken < |end.arrived| && Wanted(end.arrived[end.taken], matchType)
    case AnswerLost => start < end.taken <= |end.arrived| && Wanted(end.arrived[end.taken - 1], matchType)
  }

  /** After this turn the wait goes on: the queue was empty, or its head is unwanted. */
  predicate GoesOn(turn: Turn, all: seq<Message>, taken: nat, matchType: string)
    requires taken <= |all|
  {
    turn.readFails == Some(EMPTY_QUEUE) || (turn.readFails.None? && (taken == |all| || !Wanted(all[taken], matchType)))
  }

  function TakenNext(turn: Turn, all: seq<Message>, taken: nat): nat {
    if turn.readFails.None? && taken < |all| then AfterAck(taken, turn.ack) else taken
  }

  lemma WaitGoesOn(turns: nat -> Turn, matchType: string, timeout: int, first: seq<Message>, taken: nat, i: nat)
    requires Advances(turns) && taken <= |Arrived(turns, first, i)| && Clock(turns, i) < timeout
    requires GoesOn(turns(i), Arrived(turns, first, i + 1), taken, matchType)
    ensures var next := TakenNext(turns(i), Arrived(turns, first, i + 1), taken);
            && next <= |Arrived(turns, first, i + 1)|
            && Wait(turns, matchType, timeout, Arrived(turns, first, i), taken, Clock(turns, i), i)
            == Wait(turns, matchType, timeout, Arrived(turns, first, i + 1), next, Clock(turns, i + 1), i + 1)
  {
  }

  lemma NoneWantedNext(turn: Turn, arrived: seq<Message>, start: nat, taken: nat, matchType: string)
    requires NoneWanted(arrived, start, taken, matchType)
    requires var all := arrived + turn.arrivals; GoesOn(turn, all, taken, matchType)
    ensures var all := arrived + turn.arrivals; NoneWanted(all, start, TakenNext(turn, all, taken), matchType)
  {
  }

  lemma LastTurnSound(turns: nat -> Turn, matchType: string, timeout: int, first: seq<Message>, start: nat, taken: nat, i: nat)
    requires Advances(turns) && Clock(turns, i) < timeout
    requires NoneWanted(Arrived(turns, first, i), start, taken, matchType)
    requires forall k: nat | k < i :: Clock(turns, k) < timeout
    requires !GoesOn(turns(i), Arrived(turns, first, i + 1), taken, matchType)
    ensures Sound(turns, matchType, timeout, first, start,
                  Wait(turns, matchType, timeout, Arrived(turns, first, i), taken, Clock(turns, i), i))
  {
  }

  lemma {:induction false} WaitSoundFrom(turns: nat -> Turn, matchType: string, timeout: int, first: seq<Message>, start: nat, taken: nat, i: nat)
    requires Advances(turns)
    requires NoneWanted(Arrived(turns, first, i), start, taken, matchType)
    requires forall k: nat | k < i :: Clock(turns, k) < timeout
    ensures Sound(turns, matchType, timeout, first, start,
                  Wait(turns, matchType, timeout, Arrived(turns, first, i), taken, Clock(turns, i), i))
    decreases timeout - Clock(turns, i)
  {
    var turn, all := turns(i), Arrived(turns, first, i + 1);
    if Clock(turns, i) >= timeout {
      assert Wait(turns, matchType, timeout, Arrived(turns, first, i), taken, Clock(turns, i), i)
          == End(Timeout, Arrived(turns, first, i), taken, i);
    } else if GoesOn(turn, all, taken, matchType) {
      WaitGoesOn(turns, matchType, timeout, first, taken, i);
      NoneWantedNext(turn, Arrived(turns, first, i), start, taken, matchType);
      WaitSoundFrom(turns, matchType, timeout, first, start, TakenNext(turn, all, taken), i + 1);
    } else {
      LastTurnSound(turns, matchType, timeout, first, start, taken, i);
    }
  }

  lemma WaitSound(turns: nat -> Turn, matchType: string, timeout: int, first: seq<Message>, start: nat)
    requires Advances(turns) && start <= |first|
    ensures Sound(turns, matchType, timeout, first, start, Wait(turns, matchType, timeout, first, start, 0, 0))
  {
    WaitSoundFrom(turns, matchType, timeout, first, start, start, 0);
  }

  /** The message is not of the kind waited for; without a kind, every message is. */
  predicate OtherKind(m: Message, matchType: string) {
    matchType != "" && m.kind != matchType
  }

  /** A wait for a kind of message returns one of that kind and lets none of that kind go; a wait without a kind returns
      the first message there is. */
  lemma FoundKind(turns: nat -> Turn, matchType: string, timeout: int, first: seq<Message>, start: nat)
    requires Advances(turns) && start <= |first|
    ensures var end := Wait(turns, matchType, timeout, first, start, 0, 0);
            var gone := LetGo(turns, start, end);
            && start <= gone <= |end.arrived|
            && (forall k | start <= k < gone :: OtherKind(end.arrived[k], matchType))
            && (end.outcome.Found? ==> gone < |end.arrived| && end.outcome.message == end.arrived[gone])
            && (end.outcome.Found? ==> !OtherKind(end.outcome.message, matchType))
            && (matchType == "" ==> gone == start)
  {
    WaitSound(turns, matchType, timeout, first, start);
    var end := Wait(turns, matchType, timeout, first, start, 0, 0);
    var gone := LetGo(turns, start, end);
    assert NoneWanted(end.arrived, start, gone, matchType);
    forall k | start <= k < gone ensures OtherKind(end.arrived[k], matchType) {
      assert !Wanted(end.arrived[k], matchType);
    }
    assert start < gone ==> OtherKind(end.arrived[start], matchType);
  }

  // ---- When the wait succeeds ----------------------------------------------

  /** Every read shows the head of the queue and every ack goes through. */
  ghost predicate Reliable(turns: nat -> Turn) {
    Advances(turns) && forall i :: turns(i).readFails.None? && turns(i).ack.Acked?
  }

  /** How much is dequeued after n polls if each removes the head whenever there is one. */
  function Position(turns: nat -> Turn, first: seq<Message>, start: nat, n: nat): nat {
    if n == 0 then start
    else
      var p := Position(turns, first, start, n - 1);
      if p < |Arrived(turns, first, n)| then p + 1 else p
  }

  /** Poll n, counting from 0, is made in time and shows the first wanted message. */
  ghost predicate Hits(turns: nat -> Turn, matchType: string, timeout: int, first: seq<Message>, start: nat, n: nat) {
    var p, all := Position(turns, first, start, n), Arrived(turns, first, n + 1);
    Clock(turns, n) < timeout && p < |all| && Wanted(all[p], matchType) && NoneWanted(all, start, p, matchType)
  }

  ghost predicate SomeHit(turns: nat -> Turn, matchType: string, timeout: int, first: seq<Message>, start: nat, from: nat) {
    exists n: nat :: from <= n && Hits(turns, matchType, timeout, first, start, n)
  }

  lemma {:induction false} ClockGrows(turns: nat -> Turn, i: nat, n: nat)
    requires i <= n
    ensures Clock(turns, i) <= Clock(turns, n)
    decreases n
  {
    if i < n {
      ClockGrows(turns, i, n - 1);
    }
  }

  lemma {:induction false} PositionGrows(turns: nat -> Turn, first: seq<Message>, start: nat, i: nat, n: nat)
    requires i <= n
    ensures Position(turns, first, start, i) <= Position(turns, first, start, n)
    ensures Arrived(turns, first, i) <= Arrived(turns, first, n)
    decreases n
  {
    if i < n {
      PositionGrows(turns, first, start, i, n - 1);
    }
  }

  lemma WantedInside(early: seq<Message>, late: seq<Message>, start: nat, p: nat, q: nat, matchType: string)
    requires early <= late && start <= p < |early| && p < q && Wanted(early[p], matchType)
    ensures !NoneWanted(late, start, q, matchType)
  {
    if q <= |late| {
      assert late[p] == early[p];
    }
  }

  /** Once a wanted message has been dequeued or is about to be, no later poll is the first to show one. */
  lemma NoLaterHit(turns: nat -> Turn, matchType: string, timeout: int, first: seq<Message>, start: nat, i: nat, n: nat)
    requires i < n && start <= Position(turns, first, start, i) < |Arrived(turns, first, i + 1)|
    requires Wanted(Arrived(turns, first, i + 1)[Position(turns, first, start, i)], matchType)
    ensures !Hits(turns, matchType, timeout, first, start, n)
  {
    PositionGrows(turns, first, start, i + 1, n);
    PositionGrows(turns, first, start, i + 1, n + 1);
    WantedInside(Arrived(turns, first, i + 1), Arrived(turns, first, n + 1), start,
                 Position(turns, first, start, i), Position(turns, first, start, n), matchType);
  }

  /** One poll of a reliable queue. */
  lemma WaitStep(turns: nat -> Turn, matchType: string, timeout: int, first: seq<Message>, start: nat, i: nat)
    requires Reliable(turns) && Position(turns, first, start, i) <= |Arrived(turns, first, i)|
    ensures Position(turns, first, start, i + 1) <= |Arrived(turns, first, i + 1)|
    ensures var p, all := Position(turns, first, start, i), Arrived(turns, first, i + 1);
            Wait(turns, matchType, timeout, Arrived(turns, first, i), p, Clock(turns, i), i)
            == if Clock(turns, i) >= timeout then End(Timeout, Arrived(turns, first, i), p, i)
               else if p == |all| || !Wanted(all[p], matchType) then
                 Wait(turns, matchType, timeout, all, Position(turns, first, start, i + 1), Clock(turns, i + 1), i + 1)
               else End(Found(all[p]), all, Position(turns, first, start, i + 1), i + 1)
  {
    assert turns(i).readFails.None? && turns(i).ack.Acked?;
  }

  lemma TooLate(turns: nat -> Turn, matchType: string, timeout: int, first: seq<Message>, start: nat, i: nat)
    requires Clock(turns, i) >= timeout
    ensures !SomeHit(turns, matchType, timeout, first, start, i)
  {
    forall n: nat | i <= n ensures !Hits(turns, matchType, timeout, first, start, n) {
      ClockGrows(turns, i, n);
    }
  }

  /** What FoundIff says, from poll i on. */
  ghost predicate Decided(turns: nat -> Turn, matchType: string, timeout: int, first: seq<Message>, start: nat, i: nat, end: End) {
    && end.taken == Position(turns, first, start, end.polls)
    && (end.outcome.Found? || end.outcome.Timeout?)
    && (end.outcome.Found? <==> SomeHit(turns, matchType, timeout, first, start, i))
    && (end.outcome.Found? ==> end.polls > 0 && Hits(turns, matchType, timeout, first, start, end.polls - 1))
  }

  lemma {:induction false} FoundFrom(turns: nat -> Turn, matchType: string, timeout: int, first: seq<Message>, start: nat, i: nat)
    requires Reliable(turns)
    requires NoneWanted(Arrived(turns, first, i), start, Position(turns, first, start, i), matchType)
    ensures Decided(turns, matchType, timeout, first, start, i,
                    Wait(turns, matchType, timeout, Arrived(turns, first, i), Position(turns, first, start, i), Clock(turns, i), i))
    decreases timeout - Clock(turns, i)
  {
    var p, all := Position(turns, first, start, i), Arrived(turns, first, i + 1);
    WaitStep(turns, matchType, timeout, first, start, i);
    if Clock(turns, i) >= timeout {
      TooLate(turns, matchType, timeout, first, start, i);
    } else if p == |all| || !Wanted(all[p], matchType) {
      assert NoneWanted(all, start, Position(turns, first, start, i + 1), matchType);
      FoundFrom(turns, matchType, timeout, first, start, i + 1);
      HitLater(turns, matchType, timeout, first, start, i);
    } else {
      assert Hits(turns, matchType, timeout, first, start, i);
    }
  }

  lemma HitLater(turns: nat -> Turn, matchType: string, timeout: int, first: seq<Message>, start: nat, i: nat)
    requires !Hits(turns, matchType, timeout, first, start, i)
    ensures SomeHit(turns, matchType, timeout, first, start, i) <==> SomeHit(turns, matchType, timeout, first, start, i + 1)
  {
  }

  /** With reads and acks that work, the wait succeeds exactly when some poll in time shows the first wanted message;
      it returns that message at that poll, having dequeued everything before it. Otherwise it times out. */
  lemma FoundIff(turns: nat -> Turn, matchType: string, timeout: int, first: seq<Message>, start: nat)
    requires Reliable(turns) && start <= |first|
    ensures var end := Wait(turns, matchType, timeout, first, start, 0, 0);
            && (end.outcome.Found? <==> SomeHit(turns, matchType, timeout, first, start, 0))
            && (end.outcome.Found? ==> end.polls > 0 && Hits(turns, matchType, timeout, first, start, end.polls - 1))
            && (end.outcome.Found? || end.outcome.Timeout?)
            && end.taken == Position(turns, first, start, end.polls)
  {
    FoundFrom(turns, matchType, timeout, first, start, 0);
  }

  /** Two polls cannot both be the first to show a wanted message, so FoundIff names the poll and the message. */
  lemma HitUnique(turns: nat -> Turn, matchType: string, timeout: int, first: seq<Message>, start: nat, i: nat, n: nat)
    requires Hits(turns, matchType, timeout, first, start, i) && Hits(turns, matchType, timeout, first, start, n)
    ensures i == n
  {
    if i < n {
      NoLaterHit(turns, matchType, timeout, first, start, i, n);
    } else if n < i {
      NoLaterHit(turns, matchType, timeout, first, start, n, i);
    }
  }
}
