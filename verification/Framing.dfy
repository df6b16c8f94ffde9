/** Length-prefixed frames: EPP counts the four header bytes, RRI does not. */
module Framing {
  import opened Text

  type byte = b: int | 0 <= b < 256

  const U32 := 0x1_0000_0000
  const HEADER := 4
  const RRI_MAX := 65536

  /** The k big-endian base-256 digits of n. */
  function BigEndian(n: nat, k: nat): (h: seq<byte>)
    ensures |h| == k
  {
    if k == 0 then [] else BigEndian(n / 256, k - 1) + [n % 256]
  }

  function Number(h: seq<byte>): nat {
    if h == [] then 0 else 256 * Number(h[..|h| - 1]) + h[|h| - 1]
  }

  function Pow256(k: nat): nat {
    if k == 0 then 1 else 256 * Pow256(k - 1)
  }

  lemma {:induction false} NumberBound(h: seq<byte>)
    ensures Number(h) < Pow256(|h|)
  {
    if h != [] {
      NumberBound(h[..|h| - 1]);
    }
  }

  /** Digits and number determine each other. */
  lemma {:induction false} BigEndianIff(h: seq<byte>, n: nat)
    requires n < Pow256(|h|)
    ensures Number(h) == n <==> h == BigEndian(n, |h|)
  {
    if h != [] {
      var front, last: int := h[..|h| - 1], h[|h| - 1];
      BigEndianIff(front, n / 256);
      assert Number(h) == 256 * Number(front) + last;
      assert h == front + [last];
      var digits := BigEndian(n / 256, |front|);
      assert BigEndian(n, |h|) == digits + [n % 256];
      assert digits == (digits + [n % 256])[..|front|] && front == (front + [last])[..|front|];
    }
  }

  /** binary.BigEndian.PutUint32. */
  function PutUint32(n: nat): (h: seq<byte>)
    requires n < U32
    ensures |h| == HEADER
  {
    BigEndian(n, HEADER)
  }

  /** binary.BigEndian.Uint32. */
  function Uint32(h: seq<byte>): nat
    requires |h| == HEADER
  {
    Number(h)
  }

  lemma Uint32Inverse(h: seq<byte>, n: nat)
    requires |h| == HEADER && n < U32
    ensures Uint32(h) == n <==> h == PutUint32(n)
    ensures Uint32(h) < U32
  {
    assert Pow256(HEADER) == U32;
    NumberBound(h);
    BigEndianIff(h, n);
  }

  /** The most significant byte comes first. */
  lemma HeaderBytes(n: nat)
    requires n < U32
    ensures PutUint32(n) == [(n / 0x100_0000) as byte, (n / 0x1_0000 % 0x100) as byte, (n / 0x100 % 0x100) as byte, (n % 0x100) as byte]
  {
    assert BigEndian(n / 0x100_0000, 1) == [(n / 0x100_0000) as byte];
    assert BigEndian(n / 0x1_0000, 2) == [(n / 0x100_0000) as byte, (n / 0x1_0000 % 0x100) as byte];
    assert BigEndian(n / 0x100, 3) == [(n / 0x100_0000) as byte, (n / 0x1_0000 % 0x100) as byte, (n / 0x100 % 0x100) as byte];
  }

  datatype Wire = Epp | Rri

  /** The header a writer puts before n payload bytes; the conversion to uint32 wraps. */
  function HeaderValue(w: Wire, n: nat): (h: nat)
    ensures h < U32
  {
    match w
    case Epp => (n + HEADER) % U32
    case Rri => n % U32
  }

  function Encode(w: Wire, payload: seq<byte>): seq<byte> {
    PutUint32(HeaderValue(w, |payload|)) + payload
  }

  /** The payload length a reader takes from a header, or None when it refuses the header. */
  function BodyLength(w: Wire, claimed: nat): Option<nat> {
    match w
    case Epp => if claimed < HEADER then None else Some(claimed - HEADER)
    case Rri => if claimed == 0 || claimed > RRI_MAX then None else Some(claimed)
  }

  /** The payload sizes each side promises to carry. */
  predicate Sendable(w: Wire, n: nat) {
    match w
    case Epp => n + HEADER < U32
    case Rri => 1 <= n <= RRI_MAX
  }

  /** The bounds in figures. */
  lemma SendableIff(n: nat)
    ensures Sendable(Epp, n) <==> n + 4 < 0x1_0000_0000
    ensures Sendable(Rri, n) <==> 1 <= n && n <= 65536
  {
  }

  datatype FrameError = ShortHeader | BadLength(claimed: nat) | ShortBody
  datatype Decoded =
    | Frame(body: seq<byte>, rest: seq<byte>)
    | Failed(error: FrameError, rest: seq<byte>)

  /** One frame read off `p`, all the bytes the peer sends before it closes. A read that comes up short drains the stream. */
  function Decode(w: Wire, p: seq<byte>): Decoded {
    if |p| < HEADER then Failed(ShortHeader, [])
    else
      var claimed := Uint32(p[..HEADER]);
      match BodyLength(w, claimed)
      case None => Failed(BadLength(claimed), p[HEADER..])
      case Some(n) =>
        if |p| < HEADER + n then Failed(ShortBody, [])
        else Frame(p[HEADER..HEADER + n], p[HEADER + n..])
  }

  /** The frames a reader gets by reading until the first failure. */
  function DecodeAll(w: Wire, p: seq<byte>): seq<seq<byte>>
    decreases |p|
  {
    match Decode(w, p)
    case Frame(body, rest) => [body] + DecodeAll(w, rest)
    case Failed(_, _) => []
  }

  function EncodeAll(w: Wire, payloads: seq<seq<byte>>): seq<byte> {
    if payloads == [] then [] else Encode(w, payloads[0]) + EncodeAll(w, payloads[1..])
  }

  // ---- What decoding means -------------------------------------------------

  lemma HeaderThen(n: nat, tail: seq<byte>)
    requires n < U32
    ensures var p := PutUint32(n) + tail; Uint32(p[..HEADER]) == n && p[HEADER..] == tail
  {
    var h := PutUint32(n);
    Uint32Inverse(h, n);
    assert (h + tail)[..HEADER] == h;
  }

  lemma DecodeOfHeader(w: Wire, n: nat, tail: seq<byte>)
    requires n < U32
    ensures Decode(w, PutUint32(n) + tail)
         == match BodyLength(w, n)
            case None => Failed(BadLength(n), tail)
            case Some(k) => if |tail| < k then Failed(ShortBody, []) else Frame(tail[..k], tail[k..])
  {
    HeaderThen(n, tail);
    var p := PutUint32(n) + tail;
    var len := BodyLength(w, n);
    if len.Some? && len.value <= |tail| {
      assert p[HEADER..HEADER + len.value] == p[HEADER..][..len.value];
      assert p[HEADER + len.value..] == p[HEADER..][len.value..];
    }
  }

  lemma Regroup(head: seq<byte>, body: seq<byte>, rest: seq<byte>)
    ensures head + body + rest == head + (body + rest)
    ensures (body + rest)[..|body|] == body && (body + rest)[|body|..] == rest
  {
  }

  /** The header of a sendable payload announces its length. */
  lemma HeaderAnnounces(w: Wire, n: nat)
    requires Sendable(w, n)
    ensures BodyLength(w, HeaderValue(w, n)) == Some(n)
  {
  }

  lemma DecodeOfAnnounced(w: Wire, n: nat, body: seq<byte>, rest: seq<byte>)
    requires n < U32 && BodyLength(w, n) == Some(|body|)
    ensures Decode(w, PutUint32(n) + (body + rest)) == Frame(body, rest)
  {
    Regroup([], body, rest);
    DecodeOfHeader(w, n, body + rest);
  }

  lemma DecodeOfEncode(w: Wire, body: seq<byte>, rest: seq<byte>)
    requires Sendable(w, |body|)
    ensures Decode(w, Encode(w, body) + rest) == Frame(body, rest)
  {
    var n := HeaderValue(w, |body|);
    HeaderAnnounces(w, |body|);
    DecodeOfAnnounced(w, n, body, rest);
    Regroup(PutUint32(n), body, rest);
    assert Encode(w, body) + rest == PutUint32(n) + (body + rest);
  }

  lemma Parts(p: seq<byte>, k: nat)
    requires HEADER + k <= |p|
    ensures p == p[..HEADER] + p[HEADER..HEADER + k] + p[HEADER + k..]
  {
  }

  lemma HeaderOf(h: seq<byte>)
    requires |h| == HEADER
    ensures Uint32(h) < U32 && PutUint32(Uint32(h)) == h
  {
    Uint32Inverse(h, 0);
    Uint32Inverse(h, Uint32(h));
  }

  lemma EncodeOfDecode(w: Wire, p: seq<byte>)
    requires Decode(w, p).Frame?
    ensures var d := Decode(w, p); Sendable(w, |d.body|) && p == Encode(w, d.body) + d.rest
  {
    var claimed := Uint32(p[..HEADER]);
    HeaderOf(p[..HEADER]);
    var n := BodyLength(w, claimed).value;
    assert HeaderValue(w, n) == claimed;
    Parts(p, n);
  }

  /** A reader yields `body` and leaves `rest` exactly when the stream is the encoding of a sendable `body`, then `rest`. */
  lemma DecodeIff(w: Wire, p: seq<byte>, body: seq<byte>, rest: seq<byte>)
    ensures Decode(w, p) == Frame(body, rest) <==> Sendable(w, |body|) && p == Encode(w, body) + rest
  {
    if Decode(w, p) == Frame(body, rest) {
      EncodeOfDecode(w, p);
    }
    if Sendable(w, |body|) && p == Encode(w, body) + rest {
      DecodeOfEncode(w, body, rest);
    }
  }

  /** A written frame reads back as itself exactly for the sizes the wire promises; beyond them the wrapped header shows. */
  lemma RoundTripIff(w: Wire, payload: seq<byte>)
    ensures Decode(w, Encode(w, payload)) == Frame(payload, []) <==> Sendable(w, |payload|)
  {
    assert Encode(w, payload) + [] == Encode(w, payload);
    DecodeIff(w, Encode(w, payload), payload, []);
  }

  /** Any list of sendable payloads written back to back is split into the same list. */
  lemma {:induction false} StreamRoundTrip(w: Wire, payloads: seq<seq<byte>>)
    requires forall d | d in payloads :: Sendable(w, |d|)
    ensures DecodeAll(w, EncodeAll(w, payloads)) == payloads
  {
    if payloads != [] {
      DecodeIff(w, EncodeAll(w, payloads), payloads[0], EncodeAll(w, payloads[1..]));
      StreamRoundTrip(w, payloads[1..]);
    }
  }

  lemma CutPayload(head: seq<byte>, payload: seq<byte>, cut: nat)
    requires |head| <= cut <= |head| + |payload|
    ensures (head + payload)[..cut] == head + payload[..cut - |head|]
  {
  }

  /** A stream cut anywhere inside a frame yields no frame. */
  lemma TruncationFails(w: Wire, payload: seq<byte>, cut: nat)
    requires Sendable(w, |payload|) && cut < |Encode(w, payload)|
    ensures Decode(w, Encode(w, payload)[..cut]) == Failed(if cut < HEADER then ShortHeader else ShortBody, [])
  {
    var n := HeaderValue(w, |payload|);
    if cut >= HEADER {
      CutPayload(PutUint32(n), payload, cut);
      HeaderAnnounces(w, |payload|);
      DecodeOfHeader(w, n, payload[..cut - HEADER]);
    }
  }

  lemma LongRriFrameReadAsEpp(front: seq<byte>, back: seq<byte>, rest: seq<byte>)
    requires |front| + HEADER < U32 && |back| == HEADER
    ensures Decode(Epp, PutUint32(|front| + HEADER) + (front + (back + rest))) == Frame(front, back + rest)
  {
    DecodeOfAnnounced(Epp, |front| + HEADER, front, back + rest);
  }

  lemma RriBytes(payload: seq<byte>, rest: seq<byte>)
    requires |payload| < U32
    ensures Encode(Rri, payload) + rest == PutUint32(|payload|) + (payload + rest)
  {
    Regroup(PutUint32(|payload|), payload, rest);
  }

  /** An RRI frame taken for an EPP frame loses its last four payload bytes to the next read, or is refused when shorter. */
  lemma RriFrameReadAsEpp(payload: seq<byte>, rest: seq<byte>)
    requires |payload| < U32
    ensures Decode(Epp, Encode(Rri, payload) + rest)
         == if |payload| < HEADER then Failed(BadLength(|payload|), payload + rest)
            else Frame(payload[..|payload| - HEADER], payload[|payload| - HEADER..] + rest)
  {
    RriBytes(payload, rest);
    if |payload| < HEADER {
      DecodeOfHeader(Epp, |payload|, payload + rest);
    } else {
      var front, back := payload[..|payload| - HEADER], payload[|payload| - HEADER..];
      assert payload == front + back;
      Regroup(front, back, rest);
      LongRriFrameReadAsEpp(front, back, rest);
    }
  }

  // ---- Deliberately broken frames ------------------------------------------

  const OVERCLAIM := 100

  /** The bytes of a length_overflow fault: a header that claims 100 bytes more than follow. */
  function OverflowBytes(body: seq<byte>): seq<byte> {
    PutUint32((|body| + HEADER + OVERCLAIM) % U32) + body
  }

  /** Those bytes followed by a close fail the Go reader, unless the claim wrapped to a size the body covers. */
  lemma OverflowFailsIff(body: seq<byte>)
    ensures Decode(Epp, OverflowBytes(body)).Failed?
       <==> |body| + HEADER + OVERCLAIM < U32 || (|body| + HEADER + OVERCLAIM) % U32 < HEADER
  {
    DecodeOfHeader(Epp, (|body| + HEADER + OVERCLAIM) % U32, body);
  }

  /** What the PHP client reads: it takes a length below four for an empty message instead of refusing it. */
  function PhpDecode(p: seq<byte>): Decoded {
    var d := Decode(Epp, p);
    if d.Failed? && d.error.BadLength? then Frame([], d.rest) else d
  }

  /** They fail the PHP reader exactly when the claim did not wrap. */
  lemma OverflowFailsPhpIff(body: seq<byte>)
    ensures PhpDecode(OverflowBytes(body)).Failed? <==> |body| + HEADER + OVERCLAIM < U32
  {
    DecodeOfHeader(Epp, (|body| + HEADER + OVERCLAIM) % U32, body);
  }

  const EPP_MALFORMED: seq<byte> := PutUint32(1)
  const RRI_MALFORMED: seq<byte> := [0, 0, 0, 0]

  lemma {:induction false} NumberOfZeros(h: seq<byte>)
    requires forall i | 0 <= i < |h| :: h[i] == 0
    ensures Number(h) == 0
  {
    if h != [] {
      NumberOfZeros(h[..|h| - 1]);
    }
  }

  /** The in-process mocks' malformed headers are refused at once; whatever follows stays unread. */
  lemma MalformedHeadersRefused(rest: seq<byte>)
    ensures Decode(Epp, EPP_MALFORMED + rest) == Failed(BadLength(1), rest)
    ensures Decode(Rri, RRI_MALFORMED + rest) == Failed(BadLength(0), rest)
  {
    DecodeOfHeader(Epp, 1, rest);
    NumberOfZeros(RRI_MALFORMED);
    Uint32Inverse(RRI_MALFORMED, 0);
    DecodeOfHeader(Rri, 0, rest);
  }

  // ---- Readers and writers -------------------------------------------------

  /** A connection being read: the bytes still to come before the peer closes it. */
  class Reader {
    var pending: seq<byte>

    constructor (bytes: seq<byte>)
      ensures pending == bytes
    {
      pending := bytes;
    }

    /** One read of at most `n` bytes. The chunk size is the network's choice; an empty chunk means closed. */
    method Read(n: nat) returns (chunk: seq<byte>)
      modifies this
      ensures chunk + pending == old(pending)
      ensures |chunk| <= n
      ensures chunk == [] <==> n == 0 || old(pending) == []
    {
      if n == 0 || pending == [] {
        return [];
      }
      var k: nat :| 0 < k <= n && k <= |pending|;
      chunk, pending := pending[..k], pending[k..];
    }

    /** io.ReadFull: fills the buffer chunk by chunk, or drains the stream. */
    method ReadFull(buf: array<byte>) returns (ok: bool)
      modifies this, buf
      ensures ok <==> buf.Length <= |old(pending)|
      ensures ok ==> buf[..] == old(pending)[..buf.Length] && pending == old(pending)[buf.Length..]
      ensures !ok ==> pending == []
    {
      var filled := 0;
      while filled < buf.Length
        invariant filled <= buf.Length && filled <= |old(pending)|
        invariant buf[..filled] == old(pending)[..filled]
        invariant pending == old(pending)[filled..]
      {
        var chunk := Read(buf.Length - filled);
        if chunk == [] {
          return false;
        }
        forall i | 0 <= i < |chunk| {
          buf[filled + i] := chunk[i];
        }
        assert old(pending)[..filled + |chunk|] == old(pending)[..filled] + chunk;
        filled := filled + |chunk|;
      }
      return true;
    }

    /** The PHP client's read_exact, which grows a string instead. */
    method ReadExact(n: int) returns (r: Option<seq<byte>>)
      modifies this
      ensures r.Some? <==> n <= |old(pending)|
      ensures r.Some? ==> r.value == (if n <= 0 then [] else old(pending)[..n]) && r.value + pending == old(pending)
      ensures r.None? ==> pending == []
    {
      var buf: seq<byte> := [];
      while |buf| < n
        invariant buf + pending == old(pending)
        invariant |buf| <= n || buf == []
        decreases n - |buf|
      {
        var chunk := Read(n - |buf|);
        if chunk == [] {
          return None;
        }
        buf := buf + chunk;
      }
      return Some(buf);
    }
  }

  method ReadFrame(r: Reader) returns (d: Decoded)
    modifies r
    ensures d == Decode(Epp, old(r.pending)) && r.pending == d.rest
  {
    var hdr := new byte[HEADER](_ => 0);
    var ok := r.ReadFull(hdr);
    if !ok {
      return Failed(ShortHeader, []);
    }
    var total := Uint32(hdr[..]);
    if total < HEADER {
      return Failed(BadLength(total), r.pending);
    }
    var body := new byte[total - HEADER](_ => 0);
    ok := r.ReadFull(body);
    if !ok {
      return Failed(ShortBody, []);
    }
    return Frame(body[..], r.pending);
  }

  /** The receive loop of a session: frames until the first failure, however the bytes were chunked. */
  method ReceiveAll(r: Reader) returns (frames: seq<seq<byte>>)
    modifies r
    ensures frames == DecodeAll(Epp, old(r.pending))
  {
    frames := [];
    while true
      invariant frames + DecodeAll(Epp, r.pending) == DecodeAll(Epp, old(r.pending))
      decreases |r.pending|
    {
      var d := ReadFrame(r);
      if d.Failed? {
        return;
      }
      frames := frames + [d.body];
    }
  }

  method ReadRriFrame(r: Reader) returns (d: Decoded)
    modifies r
    ensures d == Decode(Rri, old(r.pending)) && r.pending == d.rest
  {
    var hdr := new byte[HEADER](_ => 0);
    var ok := r.ReadFull(hdr);
    if !ok {
      return Failed(ShortHeader, []);
    }
    var payloadLen := Uint32(hdr[..]);
    if payloadLen == 0 {
      return Failed(BadLength(0), r.pending);
    }
    if payloadLen > RRI_MAX {
      return Failed(BadLength(payloadLen), r.pending);
    }
    var body := new byte[payloadLen](_ => 0);
    ok := r.ReadFull(body);
    if !ok {
      return Failed(ShortBody, []);
    }
    return Frame(body[..], r.pending);
  }

  method PhpRead(r: Reader) returns (d: Decoded)
    modifies r
    ensures d == PhpDecode(old(r.pending)) && r.pending == d.rest
  {
    var hdr := r.ReadExact(HEADER);
    if hdr.None? {
      return Failed(ShortHeader, []);
    }
    assert hdr.value == old(r.pending)[..HEADER];
    var len := Uint32(hdr.value);
    assert r.pending == old(r.pending)[HEADER..];
    var body := r.ReadExact(len - HEADER);
    if body.None? {
      return Failed(ShortBody, []);
    }
    return Frame(body.value, r.pending);
  }

  /** A connection being written: it takes `room` more bytes, then every write fails part-way. */
  class Writer {
    var sent: seq<byte>
    var room: nat

    constructor (room: nat)
      ensures sent == [] && this.room == room
    {
      sent, this.room := [], room;
    }

    method Write(data: seq<byte>) returns (ok: bool)
      modifies this
      ensures ok <==> |data| <= old(room)
      ensures var n := if ok then |data| else old(room);
              sent == old(sent) + data[..n] && room == old(room) - n
    {
      ok := |data| <= room;
      var n := if ok then |data| else room;
      sent, room := sent + data[..n], room - n;
    }
  }

  /** Header and payload reach the wire whole exactly when both fit; otherwise a prefix of the frame does. */
  method WriteFrame(w: Writer, data: seq<byte>) returns (ok: bool)
    modifies w
    ensures ok <==> |Encode(Epp, data)| <= old(w.room)
    ensures var n := if ok then |Encode(Epp, data)| else old(w.room);
            w.sent == old(w.sent) + Encode(Epp, data)[..n] && w.room == old(w.room) - n
  {
    ok := PutFrame(w, PutUint32((|data| + HEADER) % U32), data);
  }

  method WriteRriFrame(w: Writer, data: seq<byte>) returns (ok: bool)
    modifies w
    ensures ok <==> |Encode(Rri, data)| <= old(w.room)
    ensures var n := if ok then |Encode(Rri, data)| else old(w.room);
            w.sent == old(w.sent) + Encode(Rri, data)[..n] && w.room == old(w.room) - n
  {
    ok := PutFrame(w, PutUint32(|data| % U32), data);
  }

  method PutFrame(w: Writer, hdr: seq<byte>, data: seq<byte>) returns (ok: bool)
    modifies w
    ensures ok <==> |hdr + data| <= old(w.room)
    ensures var n := if ok then |hdr + data| else old(w.room);
            w.sent == old(w.sent) + (hdr + data)[..n] && w.room == old(w.room) - n
  {
    ok := w.Write(hdr);
    if !ok {
      assert (hdr + data)[..old(w.room)] == hdr[..old(w.room)];
      return;
    }
    ghost var left := w.room;
    ok := w.Write(data);
    ghost var n := if ok then |data| else left;
    assert (hdr + data)[..|hdr| + n] == hdr + data[..n];
  }
}
