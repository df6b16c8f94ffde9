/** What a client reads off a mock session: the session's writes as bytes, read back frame by frame. */
module MockWire {
  import opened Framing
  import opened FaultInjection
  import opened SessionLoop
  import EppMockServer

  /** `utf8` is Go's conversion of a string to its bytes. */
  function WireOf(utf8: string -> seq<byte>, w: Written): seq<byte> {
    match w
    case Framed(_, text) => Encode(Epp, utf8(text))
    case Overflow(text) => OverflowBytes(utf8(text))
  }

  function Stream(utf8: string -> seq<byte>, ws: seq<Written>): seq<byte> {
    if ws == [] then [] else WireOf(utf8, ws[0]) + Stream(utf8, ws[1..])
  }

  /** The payloads of the properly framed writes. */
  function Payloads(utf8: string -> seq<byte>, ws: seq<Written>): seq<seq<byte>> {
    if ws == [] then []
    else (if ws[0].Framed? then [utf8(ws[0].text)] else []) + Payloads(utf8, ws[1..])
  }

  /** How reading frame after frame ends. */
  function ReadError(w: Wire, p: seq<byte>): FrameError
    decreases |p|
  {
    match Decode(w, p)
    case Frame(_, rest) => ReadError(w, rest)
    case Failed(error, _) => error
  }

  ghost predicate Fits(utf8: string -> seq<byte>, ws: seq<Written>) {
    forall w | w in ws :: |utf8(w.text)| + HEADER + OVERCLAIM < U32
  }

  ghost predicate OverflowIsLast(ws: seq<Written>) {
    forall k | 0 <= k < |ws| && ws[k].Overflow? :: k == |ws| - 1
  }

  lemma ReadsFramed(utf8: string -> seq<byte>, w: Written, rest: seq<byte>)
    requires w.Framed? && |utf8(w.text)| + HEADER < U32
    ensures DecodeAll(Epp, WireOf(utf8, w) + rest) == [utf8(w.text)] + DecodeAll(Epp, rest)
    ensures ReadError(Epp, WireOf(utf8, w) + rest) == ReadError(Epp, rest)
  {
    DecodeOfEncode(Epp, utf8(w.text), rest);
  }

  lemma ReadsOverflow(utf8: string -> seq<byte>, w: Written)
    requires w.Overflow? && |utf8(w.text)| + HEADER + OVERCLAIM < U32
    ensures Decode(Epp, WireOf(utf8, w)) == Failed(ShortBody, [])
  {
    DecodeOfHeader(Epp, |utf8(w.text)| + HEADER + OVERCLAIM, utf8(w.text));
  }

  lemma {:induction false} StreamReads(utf8: string -> seq<byte>, ws: seq<Written>)
    requires Fits(utf8, ws) && OverflowIsLast(ws)
    ensures DecodeAll(Epp, Stream(utf8, ws)) == Payloads(utf8, ws)
    ensures ReadError(Epp, Stream(utf8, ws)) == if ws != [] && ws[|ws| - 1].Overflow? then ShortBody else ShortHeader
  {
    if ws != [] {
      var rest := ws[1..];
      if ws[0].Framed? {
        ReadsFramed(utf8, ws[0], Stream(utf8, rest));
        forall k | 0 <= k < |rest| && rest[k].Overflow? ensures k == |rest| - 1 {
          assert ws[k + 1].Overflow?;
        }
        StreamReads(utf8, rest);
      } else {
        ReadsOverflow(utf8, ws[0]);
        assert rest == [] && WireOf(utf8, ws[0]) + [] == WireOf(utf8, ws[0]);
      }
    }
  }

  /** The session reaches its fault stage under the length-overflow setting. */
  ghost predicate Overflows(s: EppMockServer.Setup, ws: seq<Written>) {
    s.p.malformedFrame == "length_overflow" && exists k: nat :: FirstOperation(ws, k)
  }

  lemma OverflowIff(s: EppMockServer.Setup, now: string, room: nat)
    ensures var ws := EppMockServer.Transcript(s, now, room);
            && OverflowIsLast(ws)
            && (ws != [] && ws[|ws| - 1].Overflow? <==> Overflows(s, ws))
  {
    var ws := EppMockServer.Transcript(s, now, room);
    forall k: nat | k < |ws|
      ensures ws[k].Overflow? ==> k == |ws| - 1
      ensures ws[k].Overflow? <==> s.p.malformedFrame == "length_overflow" && FirstOperation(ws, k)
    {
      EppMockServer.TranscriptCorruption(s, now, room, k);
    }
    if Overflows(s, ws) {
      var k: nat :| FirstOperation(ws, k);
      assert ws[k].Overflow?;
    }
  }

  /** A client that reads until the first failure gets exactly the properly framed responses of the session, in
      order, and is cut off inside a frame exactly when the session ended in a length overflow. */
  lemma ClientReads(utf8: string -> seq<byte>, s: EppMockServer.Setup, now: string, room: nat)
    requires Fits(utf8, EppMockServer.Transcript(s, now, room))
    ensures var ws := EppMockServer.Transcript(s, now, room);
            && DecodeAll(Epp, Stream(utf8, ws)) == Payloads(utf8, ws)
            && ReadError(Epp, Stream(utf8, ws)) == if Overflows(s, ws) then ShortBody else ShortHeader
  {
    OverflowIff(s, now, room);
    StreamReads(utf8, EppMockServer.Transcript(s, now, room));
  }
}
