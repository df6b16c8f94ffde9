/** The loop the two standalone mock servers share: one frame at a time through a fault engine, until the session ends. */
module SessionLoop {
  import opened Text
  import opened FaultInjection

  /** What handling one frame does: the engine's new state, what is written if the write succeeds, and whether
      the session ends. */
  datatype Step = Step(engine: State, write: Option<Written>, stop: bool)

  /** What a server does with frame i in a given engine state. */
  type Handler = (State, nat) -> Step

  /** What is written for the frames i, ..., n - 1 when `room` more writes succeed. */
  function Loop(h: Handler, n: nat, e: State, i: nat, room: nat): seq<Written>
    requires i <= n
    decreases n - i
  {
    if i == n then []
    else
      var step := h(e, i);
      match step.write
      case None => if step.stop then [] else Loop(h, n, step.engine, i + 1, room)
      case Some(w) =>
        if room == 0 then []
        else [w] + if step.stop then [] else Loop(h, n, step.engine, i + 1, room - 1)
  }

  /** The write of a step happened, unless there was none or no room; the session goes on unless it was stopped. */
  ghost predicate Obeys(step: Step, out: seq<Written>, room: nat, out': seq<Written>, room': nat, more: bool) {
    match step.write
    case None => out' == out && room' == room && more == !step.stop
    case Some(w) => if room == 0 then out' == out && !more else out' == out + [w] && room' == room - 1 && more == !step.stop
  }

  /** One obedient pass leaves what is out plus what is still to come unchanged. */
  lemma PassKeeps(h: Handler, n: nat, e: State, i: nat,
                  out: seq<Written>, room: nat, out': seq<Written>, room': nat, more: bool)
    requires i < n && Obeys(h(e, i), out, room, out', room', more)
    ensures out + Loop(h, n, e, i, room) == out' + if more then Loop(h, n, h(e, i).engine, i + 1, room') else []
  {
    var step := h(e, i);
    if step.write.Some? && room > 0 {
      var rest := if more then Loop(h, n, step.engine, i + 1, room') else [];
      assert Loop(h, n, e, i, room) == [step.write.value] + rest;
      assert out + ([step.write.value] + rest) == out + [step.write.value] + rest;
    }
  }

  // ---- Failed writes -------------------------------------------------------

  function Cut(ws: seq<Written>, n: nat): seq<Written> {
    if |ws| <= n then ws else ws[..n]
  }

  lemma CutFirst(w: Written, ws: seq<Written>, n: nat)
    ensures Cut([w] + ws, n + 1) == [w] + Cut(ws, n)
  {
    if |ws| > n {
      assert ([w] + ws)[..n + 1] == [w] + ws[..n];
    }
  }

  lemma CutAll(ws: seq<Written>)
    ensures Cut(ws, 0) == []
  {
  }

  lemma {:induction false} LoopPrefix(h: Handler, n: nat, e: State, i: nat, room: nat, more: nat)
    requires i <= n && room <= more
    ensures Loop(h, n, e, i, room) == Cut(Loop(h, n, e, i, more), room)
    decreases n - i
  {
    if i < n {
      var step := h(e, i);
      if step.write.None? {
        if !step.stop {
          LoopPrefix(h, n, step.engine, i + 1, room, more);
        }
      } else if room == 0 {
        CutAll(Loop(h, n, e, i, more));
      } else {
        var rest := if step.stop then [] else Loop(h, n, step.engine, i + 1, more - 1);
        CutFirst(step.write.value, rest, room - 1);
        if !step.stop {
          LoopPrefix(h, n, step.engine, i + 1, room - 1, more - 1);
        }
      }
    }
  }

  lemma {:induction false} LoopLength(h: Handler, n: nat, e: State, i: nat, room: nat)
    requires i <= n
    ensures |Loop(h, n, e, i, room)| <= n - i
    decreases n - i
  {
    if i < n {
      var step := h(e, i);
      LoopLength(h, n, step.engine, i + 1, room);
      if room > 0 {
        LoopLength(h, n, step.engine, i + 1, room - 1);
      }
    }
  }

  // ---- Servers that agree, and sessions that have ended --------------------

  ghost predicate Agree(g: Handler, h: Handler, n: nat) {
    forall e: State, k: nat | k < n :: g(e, k) == h(e, k)
  }

  lemma {:induction false} SameLoop(g: Handler, h: Handler, n: nat, e: State, i: nat, room: nat)
    requires i <= n && Agree(g, h, n)
    ensures Loop(g, n, e, i, room) == Loop(h, n, e, i, room)
    decreases n - i
  {
    if i < n {
      var step := h(e, i);
      assert g(e, i) == step;
      SameLoop(g, h, n, step.engine, i + 1, room);
      if room > 0 {
        SameLoop(g, h, n, step.engine, i + 1, room - 1);
      }
    }
  }

  /** The engine state after the first i frames, or None when the session ended before. */
  function StateAt(h: Handler, i: nat): Option<State> {
    if i == 0 then Some(INITIAL)
    else
      match StateAt(h, i - 1)
      case None => None
      case Some(e) => if h(e, i - 1).stop then None else Some(h(e, i - 1).engine)
  }

  lemma {:induction false} LaterFramesIgnored(g: Handler, m: nat, h: Handler, n: nat, e: State, i: nat, room: nat)
    requires i < n <= m && Agree(g, h, n) && StateAt(h, i) == Some(e) && StateAt(h, n).None?
    ensures Loop(g, m, e, i, room) == Loop(h, n, e, i, room)
    decreases n - i
  {
    var step := h(e, i);
    assert g(e, i) == step;
    if !step.stop {
      assert StateAt(h, i + 1) == Some(step.engine);
      LaterFramesIgnored(g, m, h, n, step.engine, i + 1, room);
      if room > 0 {
        LaterFramesIgnored(g, m, h, n, step.engine, i + 1, room - 1);
      }
    }
  }

  // ---- Counting operation responses ----------------------------------------

  predicate IsOperation(w: Written) {
    w.Overflow? || w.role.OperationReply?
  }

  predicate IsCorrupted(w: Written) {
    w.Overflow? || (w.role.OperationReply? && w.role.corrupted)
  }

  function OperationCount(ws: seq<Written>): nat {
    if ws == [] then 0 else (if IsOperation(ws[0]) then 1 else 0) + OperationCount(ws[1..])
  }

  lemma CountStep(w: Written, ws: seq<Written>)
    ensures OperationCount([w] + ws) == (if IsOperation(w) then 1 else 0) + OperationCount(ws)
  {
    assert ([w] + ws)[1..] == ws;
  }

  /** The operation counter never falls, and an operation response raises it from below `top`. */
  predicate CountKept(step: Step, ops: nat, top: int) {
    && step.engine.ops >= ops
    && (step.write.Some? && IsOperation(step.write.value) ==> ops < top && step.engine.ops > ops)
  }

  ghost predicate Counts(h: Handler, top: int) {
    forall e: State, i: nat :: CountKept(h(e, i), e.ops, top)
  }

  lemma {:induction false} LoopOperationBound(h: Handler, n: nat, top: int, e: State, i: nat, room: nat)
    requires i <= n && Counts(h, top)
    ensures OperationCount(Loop(h, n, e, i, room)) <= if e.ops < top then top - e.ops else 0
    decreases n - i
  {
    if i < n {
      var step := h(e, i);
      assert CountKept(step, e.ops, top);
      var left := if step.write.Some? && room > 0 then room - 1 else room;
      var rest := if step.stop then [] else Loop(h, n, step.engine, i + 1, left);
      LoopOperationBound(h, n, top, step.engine, i + 1, left);
      if step.write.Some? && room > 0 {
        CountStep(step.write.value, rest);
        assert Loop(h, n, e, i, room) == [step.write.value] + rest;
      }
    }
  }

  // ---- The once-only latch -------------------------------------------------

  ghost predicate FirstOperation(ws: seq<Written>, i: nat) {
    i < |ws| && IsOperation(ws[i]) && forall j | 0 <= j < i :: !IsOperation(ws[j])
  }

  lemma FirstOperationShift(w: Written, rest: seq<Written>, k: nat)
    ensures FirstOperation([w] + rest, k + 1) <==> !IsOperation(w) && FirstOperation(rest, k)
  {
    var ws := [w] + rest;
    assert ws[0] == w;
    forall j | 0 <= j < |rest| ensures rest[j] == ws[j + 1] {}
    if FirstOperation(ws, k + 1) {
      forall j | 0 <= j < k ensures !IsOperation(rest[j]) {
        assert !IsOperation(ws[j + 1]);
      }
    }
  }

  predicate LastWords(w: Written) {
    w.Overflow? || w.role.LogoutReply?
  }

  /** The look of a corrupted response. */
  predicate ShowsFault(w: Written, kind: string) {
    && (w.Overflow? <==> kind == "length_overflow")
    && (kind == "invalid_xml" ==> w.text == INVALID_XML)
    && (kind == "garbage" ==> w.text == GARBAGE)
  }

  /** An operation response is corrupted exactly when the kind of fault asks for it and the latch is open, which
      closes it. Whatever is not corrupted is what a server without that fault writes, `plain`. */
  predicate LatchKept(step: Step, fired: bool, kind: string, plain: Written) {
    match step.write
    case None => step.engine.fired == fired
    case Some(w) =>
      && (IsCorrupted(w) <==> CorruptingKind(kind) && !fired && IsOperation(w))
      && (if IsCorrupted(w) then ShowsFault(w, kind) && plain.Framed? && plain.role.OperationReply? else w == plain)
      && step.engine.fired == (fired || (CorruptingKind(kind) && IsOperation(w)))
      && (LastWords(w) ==> step.stop)
  }

  ghost predicate Latches(h: Handler, kind: string, plain: (State, nat) -> Written) {
    forall e: State, i: nat :: LatchKept(h(e, i), e.fired, kind, plain(e, i))
  }

  /** From engine state e on, the corrupted writes are: the first operation write, if the latch is still open and
      the server corrupts; else none. The others are plain. Nothing follows an overflow frame or a logout response. */
  lemma {:induction false} LoopCorruption(h: Handler, n: nat, kind: string, plain: (State, nat) -> Written, e: State, i: nat, room: nat, k: nat)
    requires i <= n && Latches(h, kind, plain) && k < |Loop(h, n, e, i, room)|
    ensures var ws := Loop(h, n, e, i, room);
            && (IsCorrupted(ws[k]) <==> CorruptingKind(kind) && !e.fired && FirstOperation(ws, k))
            && (IsCorrupted(ws[k]) ==> ShowsFault(ws[k], kind))
            && (!IsCorrupted(ws[k]) ==> exists e': State, j: nat :: i <= j < n && ws[k] == plain(e', j))
            && (LastWords(ws[k]) ==> k == |ws| - 1)
    decreases n - i
  {
    var ws := Loop(h, n, e, i, room);
    var step := h(e, i);
    assert LatchKept(step, e.fired, kind, plain(e, i));
    if step.write.None? {
      assert ws == Loop(h, n, step.engine, i + 1, room);
      LoopCorruption(h, n, kind, plain, step.engine, i + 1, room, k);
    } else {
      assert ws[0] == step.write.value;
      if k > 0 {
        var rest := Loop(h, n, step.engine, i + 1, room - 1);
        assert ws == [ws[0]] + rest;
        LoopCorruption(h, n, kind, plain, step.engine, i + 1, room - 1, k - 1);
        FirstOperationShift(ws[0], rest, k - 1);
      }
    }
  }

  // ---- Which frames a session reaches, and which it answers ----------------

  /** A session told frame by frame: which frames get no answer, which end it, and what the others are answered with. */
  datatype Course = Course(silent: nat -> bool, last: nat -> bool, reply: nat -> Written)

  /** What is known of the engine's state before a frame. */
  type Invariant = (State, nat) -> bool

  /** In every state that can stand before a frame, the server does with the frame what the course says. */
  ghost predicate Follows(h: Handler, n: nat, known: Invariant, c: Course) {
    forall e: State, i: nat | i < n && known(e, i) :: StepFollows(h(e, i), i, known, c)
  }

  ghost predicate StepFollows(step: Step, i: nat, known: Invariant, c: Course) {
    && step.write == (if c.silent(i) then None else Some(c.reply(i)))
    && step.stop == c.last(i)
    && (!step.stop ==> known(step.engine, i + 1))
  }

  /** No earlier frame ends the session. */
  ghost predicate Reached(c: Course, i: nat, from: nat) {
    forall j: nat | from <= j < i :: !c.last(j)
  }

  /** `js` are exactly the frames that are reached and not met with silence, in order. */
  ghost predicate Heard(js: seq<nat>, c: Course, from: nat, n: nat) {
    && (forall k, l | 0 <= k < l < |js| :: js[k] < js[l])
    && (forall i: nat :: i in js <==> from <= i < n && Reached(c, i, from) && !c.silent(i))
  }

  /** The writes are the replies to those frames, or as many of them as could be written. */
  ghost predicate Said(ws: seq<Written>, js: seq<nat>, c: Course, room: nat) {
    && |ws| == (if |js| <= room then |js| else room)
    && forall k | 0 <= k < |ws| :: ws[k] == c.reply(js[k])
  }

  lemma ReachedOn(c: Course, i: nat, from: nat)
    requires from < i
    ensures Reached(c, i, from) <==> !c.last(from) && Reached(c, i, from + 1)
  {
  }

  lemma HeardFirst(js: seq<nat>, c: Course, from: nat, n: nat)
    requires from < n && Heard(js, c, from + 1, n) && !c.last(from)
    ensures Heard(if c.silent(from) then js else [from] + js, c, from, n)
  {
    forall i: nat | from < i ensures Reached(c, i, from) <==> Reached(c, i, from + 1) {
      ReachedOn(c, i, from);
    }
    var all := if c.silent(from) then js else [from] + js;
    forall i: nat ensures i in all <==> from <= i < n && Reached(c, i, from) && !c.silent(i) {
      assert i in js <==> from + 1 <= i < n && Reached(c, i, from + 1) && !c.silent(i);
    }
    forall k | 0 <= k < |js| ensures from < js[k] {
      assert js[k] in js;
    }
  }

  lemma HeardLast(c: Course, from: nat, n: nat)
    requires from < n && c.last(from)
    ensures Heard(if c.silent(from) then [] else [from], c, from, n)
  {
    forall i: nat | from < i ensures !Reached(c, i, from) {
      ReachedOn(c, i, from);
    }
  }

  lemma SaidFirst(w: Written, rest: seq<Written>, from: nat, js: seq<nat>, c: Course, room: nat)
    requires Said(rest, js, c, room) && w == c.reply(from)
    ensures Said([w] + rest, [from] + js, c, room + 1)
  {
    var ws, ks := [w] + rest, [from] + js;
    forall k | 0 <= k < |ws| ensures ws[k] == c.reply(ks[k]) {
      if k > 0 {
        assert ws[k] == rest[k - 1] && ks[k] == js[k - 1];
      }
    }
  }

  lemma {:induction false} RisingBelow(js: seq<nat>, n: nat)
    requires forall k, l | 0 <= k < l < |js| :: js[k] < js[l]
    requires forall k | 0 <= k < |js| :: js[k] < n
    ensures |js| <= n
  {
    if js != [] {
      RisingBelow(js[..|js| - 1], js[|js| - 1]);
    }
  }

  lemma HeardShort(js: seq<nat>, c: Course, n: nat)
    requires Heard(js, c, 0, n)
    ensures |js| <= n
  {
    forall k | 0 <= k < |js| ensures js[k] < n {
      assert js[k] in js;
    }
    RisingBelow(js, n);
  }

  /** Which frames a session hears does not depend on the server that follows its course. */
  lemma {:induction false} HeardFrames(c: Course, from: nat, n: nat) returns (js: seq<nat>)
    requires from <= n
    ensures Heard(js, c, from, n)
    decreases n - from
  {
    js := [];
    if from < n {
      if c.last(from) {
        HeardLast(c, from, n);
        js := if c.silent(from) then [] else [from];
      } else {
        js := HeardFrames(c, from + 1, n);
        HeardFirst(js, c, from, n);
        js := if c.silent(from) then js else [from] + js;
      }
    }
  }

  /** A server that follows a course answers exactly the frames the session hears, as far as its writes succeed. */
  lemma {:induction false} LoopSays(h: Handler, n: nat, known: Invariant, c: Course, e: State, i: nat, room: nat)
      returns (js: seq<nat>)
    requires i <= n && Follows(h, n, known, c) && known(e, i)
    ensures Heard(js, c, i, n) && Said(Loop(h, n, e, i, room), js, c, room)
    decreases n - i
  {
    js := [];
    if i < n {
      var step := h(e, i);
      assert StepFollows(step, i, known, c);
      if step.stop {
        HeardLast(c, i, n);
        js := if c.silent(i) then [] else [i];
        assert Loop(h, n, e, i, room) == if c.silent(i) || room == 0 then [] else [c.reply(i)];
      } else if step.write.None? {
        js := LoopSays(h, n, known, c, step.engine, i + 1, room);
        HeardFirst(js, c, i, n);
      } else if room == 0 {
        js := HeardFrames(c, i + 1, n);
        HeardFirst(js, c, i, n);
        js := [i] + js;
      } else {
        js := LoopSays(h, n, known, c, step.engine, i + 1, room - 1);
        HeardFirst(js, c, i, n);
        SaidFirst(step.write.value, Loop(h, n, step.engine, i + 1, room - 1), i, js, c, room - 1);
        js := [i] + js;
      }
    }
  }

  // ---- Pure responders -----------------------------------------------------

  /** How many of the frames from i on are handled: up to and including the first that is `last`. */
  function Handled(last: nat -> bool, n: nat, i: nat): (count: nat)
    requires i <= n
    ensures count <= n - i
    decreases n - i
  {
    if i == n then 0 else if last(i) then 1 else 1 + Handled(last, n, i + 1)
  }

  lemma {:induction false} HandledUpTo(last: nat -> bool, n: nat, i: nat, k: nat)
    requires i <= k < n && last(k) && forall j | i <= j < k :: !last(j)
    ensures Handled(last, n, i) == k + 1 - i
    decreases k - i
  {
    if i < k {
      HandledUpTo(last, n, i + 1, k);
    }
  }

  ghost predicate Pure(h: Handler, n: nat, reply: nat -> Written, last: nat -> bool) {
    forall e: State, i: nat | i < n :: h(e, i).write == Some(reply(i)) && h(e, i).stop == last(i)
  }

  lemma {:induction false} PureLoop(h: Handler, n: nat, reply: nat -> Written, last: nat -> bool, e: State, i: nat, room: nat)
    requires i <= n && Pure(h, n, reply, last) && room >= n - i
    ensures Loop(h, n, e, i, room)
         == seq(Handled(last, n, i), k requires 0 <= k < Handled(last, n, i) => reply(i + k))
    decreases n - i
  {
    if i < n {
      var step := h(e, i);
      if !step.stop {
        PureLoop(h, n, reply, last, step.engine, i + 1, room - 1);
      }
    }
  }
}
