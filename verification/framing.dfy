/** The length-prefixed framing shared by every connection: `sendmsg`,
    `recvall` and `recvmsg` as they appear in server.py, controller.py and
    controlled.py. A frame is a 4-byte big-endian length followed by exactly
    that many payload bytes. */
module Framing {
  import opened Base

  /** Size of the `struct.pack(">L", n)` header. */
  const HeaderSize: nat := 4

  /** `">L"` packs an unsigned 32-bit value; larger lengths raise `struct.error`. */
  const LengthLimit: nat := 0x1_0000_0000

  /** Largest chunk `recvall` asks the socket for in one `recv`. */
  const MaxChunk: nat := 4096

  function Min(a: nat, b: nat): nat
  {
    if a <= b then a else b
  }

  /** `struct.pack(">L", n)`: most significant byte first. */
  function EncodeLength(n: nat): (h: seq<byte>)
    requires n < LengthLimit
    ensures |h| == HeaderSize
  {
    [(n / 0x100_0000) as byte, (n / 0x1_0000 % 0x100) as byte,
     (n / 0x100 % 0x100) as byte, (n % 0x100) as byte]
  }

  /** `struct.unpack(">L", h)[0]`. */
  function DecodeLength(h: seq<byte>): (n: nat)
    requires |h| == HeaderSize
    ensures n < LengthLimit
  {
    ((h[0] as nat * 0x100 + h[1] as nat) * 0x100 + h[2] as nat) * 0x100 + h[3] as nat
  }

  lemma DecodeEncodeLength(n: nat)
    requires n < LengthLimit
    ensures DecodeLength(EncodeLength(n)) == n
  {
    var q1 := n / 0x100;
    var q2 := q1 / 0x100;
    var q3 := q2 / 0x100;
    assert n == q1 * 0x100 + n % 0x100;
    assert q1 == q2 * 0x100 + q1 % 0x100;
    assert q2 == q3 * 0x100 + q2 % 0x100;
    assert n / 0x1_0000 == q2 && n / 0x100_0000 == q3;
    assert q3 < 0x100;
  }

  lemma EncodeDecodeLength(h: seq<byte>)
    requires |h| == HeaderSize
    ensures EncodeLength(DecodeLength(h)) == h
  {
    var n := DecodeLength(h);
    var a, b, c, d := h[0] as nat, h[1] as nat, h[2] as nat, h[3] as nat;
    assert n == a * 0x100_0000 + b * 0x1_0000 + c * 0x100 + d;
    assert n / 0x100_0000 == a;
    assert n / 0x1_0000 == a * 0x100 + b;
    assert n / 0x100 == (a * 0x100 + b) * 0x100 + c;
    var e := EncodeLength(n);
    assert e[0] == h[0] && e[1] == h[1] && e[2] == h[2] && e[3] == h[3];
  }

  /** The bytes `sendmsg` hands to `sendall`: the packed length of the payload
      followed by the payload; `None` where `struct.pack` raises. */
  function Pack(payload: seq<byte>): (r: Option<seq<byte>>)
    ensures r.Some? <==> |payload| < LengthLimit
    ensures r.Some? ==> |r.value| == HeaderSize + |payload| && r.value[HeaderSize..] == payload
  {
    if |payload| < LengthLimit then Some(EncodeLength(|payload|) + payload) else None
  }

  /** `sendmsg(socket, value)`: serialise with `json.dumps(...).encode()` and frame it. */
  function SendMsg(dumps: Json -> seq<byte>, value: Json): (r: Option<seq<byte>>)
    ensures r.Some? <==> |dumps(value)| < LengthLimit
    ensures r.Some? ==> ReadFrame(r.value) == Frame(EncodeLength(|dumps(value)|), dumps(value), [])
  {
    var payload := dumps(value);
    if |payload| < LengthLimit then
      ReadPackedFrame(payload, []);
      assert Pack(payload).value + [] == Pack(payload).value;
      Pack(payload)
    else None
  }

  /** What reading one frame from a stream that ends after `b` yields. */
  datatype FrameRead =
    | Frame(header: seq<byte>, payload: seq<byte>, rest: seq<byte>)
    | ShortHeader
    | ShortBody

  /** Reading one frame off a byte stream that closes after `b`: first the
      4-byte header, then as many bytes as it declares. */
  function ReadFrame(b: seq<byte>): (r: FrameRead)
    ensures r.ShortHeader? <==> |b| < HeaderSize
    ensures r.ShortBody? <==>
      |b| >= HeaderSize && |b| < HeaderSize + DecodeLength(b[..HeaderSize])
    ensures r.Frame? ==>
      && |r.header| == HeaderSize
      && DecodeLength(r.header) == |r.payload|
      && b == r.header + r.payload + r.rest
  {
    if |b| < HeaderSize then ShortHeader
    else
      var n := DecodeLength(b[..HeaderSize]);
      if |b| - HeaderSize < n then ShortBody
      else
        assert b == b[..HeaderSize] + b[HeaderSize..HeaderSize + n] + b[HeaderSize + n..];
        Frame(b[..HeaderSize], b[HeaderSize..HeaderSize + n], b[HeaderSize + n..])
  }

  /** Framing round trip: a packed payload followed by anything is read back
      as that payload, its original header, and the untouched remainder. */
  lemma ReadPackedFrame(payload: seq<byte>, rest: seq<byte>)
    requires |payload| < LengthLimit
    ensures ReadFrame(Pack(payload).value + rest)
            == Frame(EncodeLength(|payload|), payload, rest)
  {
    var f := Pack(payload).value + rest;
    assert f[..HeaderSize] == EncodeLength(|payload|);
    DecodeEncodeLength(|payload|);
    assert f[HeaderSize..HeaderSize + |payload|] == payload;
    assert f[HeaderSize + |payload|..] == rest;
  }

  /** The converse direction: whatever a successful read returns is exactly a
      packed frame that was a prefix of the stream. */
  lemma ReadFrameIsPackedPrefix(b: seq<byte>)
    requires ReadFrame(b).Frame?
    ensures var f := ReadFrame(b);
      && Pack(f.payload) == Some(f.header + f.payload)
      && b == f.header + f.payload + f.rest
  {
    EncodeDecodeLength(ReadFrame(b).header);
  }

  /** The inbound side of a TCP socket: the bytes the peer still sends before
      it closes, and the chunk sizes the network happens to deliver them in
      (a `recv` never returns more than asked, nor an empty chunk before EOF). */
  datatype Stream = Stream(pending: seq<byte>, grants: seq<nat>)

  /** `sock.recv(max)`: a non-empty prefix of the pending bytes of at most
      `max` bytes, or `b''` once the peer has closed. */
  function Recv(s: Stream, max: nat): (res: (seq<byte>, Stream))
    ensures res.0 + res.1.pending == s.pending
    ensures |res.0| <= max
    ensures |res.0| == 0 <==> max == 0 || s.pending == []
  {
    if max == 0 || s.pending == [] then ([], s)
    else
      var avail := Min(max, |s.pending|);
      var k := if s.grants == [] || s.grants[0] == 0 || s.grants[0] > avail then avail
               else s.grants[0];
      (s.pending[..k], Stream(s.pending[k..], if s.grants == [] then [] else s.grants[1..]))
  }

  /** Every request size is positive and at most `bound`. */
  predicate AsksWithin(asks: seq<nat>, bound: nat)
  {
    forall i | 0 <= i < |asks| :: 0 < asks[i] <= bound
  }

  /** `recvall(sock, size)`: exactly the next `size` bytes of the stream and
      nothing beyond them, however the network chunks them; `None` (with the
      partial data lost) when the peer closes first. `asks` are the sizes
      handed to `recv`: each positive and at most `min(size, 4096)`. */
  method RecvAll(s: Stream, size: nat) returns (r: Option<seq<byte>>, s': Stream, asks: seq<nat>)
    ensures size <= |s.pending| ==> r == Some(s.pending[..size]) && s'.pending == s.pending[size..]
    ensures |s.pending| < size ==> r == None && s'.pending == []
    ensures AsksWithin(asks, Min(size, MaxChunk))
  {
    var data: seq<byte> := [];
    var cur := s;
    asks := [];
    while |data| < size
      invariant |data| <= size
      invariant data + cur.pending == s.pending
      invariant AsksWithin(asks, Min(size, MaxChunk))
      decreases size - |data|
    {
      var ask := Min(size - |data|, MaxChunk);
      asks := asks + [ask];
      var got := Recv(cur, ask);
      var packet := got.0;
      cur := got.1;
      if packet == [] {
        return None, cur, asks;
      }
      assert data + packet + cur.pending == s.pending;
      data := data + packet;
    }
    assert s.pending[..size] == data;
    return Some(data), cur, asks;
  }

  /** What `recvmsg` gives its caller. */
  datatype Received =
    | Message(value: Json)   // the decoded payload
    | NoMessage              // `None`: the stream ended
    | Raised                 // `recvmsg` raised (None.decode(), or a JSON decode error)

  /** `recvmsg` as server.py and controlled.py write it: only a short header
      yields `None`; a short body reaches `None.decode()` and raises. */
  function RecvMsgSpec(b: seq<byte>, parse: seq<byte> -> Parse): Received
  {
    match ReadFrame(b)
    case ShortHeader => NoMessage
    case ShortBody => Raised
    case Frame(_, payload, _) =>
      if parse(payload).Parsed? then Message(parse(payload).value) else Raised
  }

  /** `recvmsg` as controller.py writes it: a short body is checked for and
      yields `None` as well. */
  function RecvMsgCheckedSpec(b: seq<byte>, parse: seq<byte> -> Parse): Received
  {
    match ReadFrame(b)
    case ShortHeader => NoMessage
    case ShortBody => NoMessage
    case Frame(_, payload, _) =>
      if parse(payload).Parsed? then Message(parse(payload).value) else Raised
  }

  /** The bytes a completed `recvmsg` leaves in the stream. */
  function AfterFrame(b: seq<byte>): seq<byte>
  {
    match ReadFrame(b)
    case Frame(_, _, rest) => rest
    case _ => []
  }

  /** server.py / controlled.py `recvmsg` over a chunked stream, built from
      two `recvall` calls. */
  method RecvMsg(s: Stream, parse: seq<byte> -> Parse) returns (r: Received, s': Stream)
    ensures r == RecvMsgSpec(s.pending, parse)
    ensures s'.pending == AfterFrame(s.pending)
  {
    var sizeData, asks;
    sizeData, s', asks := RecvAll(s, HeaderSize);
    if sizeData == None {
      return NoMessage, s';
    }
    var size := DecodeLength(sizeData.value);
    var data;
    data, s', asks := RecvAll(s', size);
    if data == None {
      // `data.decode()` on None raises AttributeError
      assert ReadFrame(s.pending) == ShortBody;
      return Raised, s';
    }
    assert ReadFrame(s.pending).payload == data.value;
    var p := parse(data.value);
    if p.DecodeError? {
      return Raised, s';
    }
    return Message(p.value), s';
  }

  /** controller.py `recvmsg`: the same, with the `data is None` check. */
  method RecvMsgChecked(s: Stream, parse: seq<byte> -> Parse) returns (r: Received, s': Stream)
    ensures r == RecvMsgCheckedSpec(s.pending, parse)
    ensures s'.pending == AfterFrame(s.pending)
  {
    var sizeData, asks;
    sizeData, s', asks := RecvAll(s, HeaderSize);
    if sizeData == None {
      return NoMessage, s';
    }
    var size := DecodeLength(sizeData.value);
    var data;
    data, s', asks := RecvAll(s', size);
    if data == None {
      assert ReadFrame(s.pending) == ShortBody;
      return NoMessage, s';
    }
    assert ReadFrame(s.pending).payload == data.value;
    var p := parse(data.value);
    if p.DecodeError? {
      return Raised, s';
    }
    return Message(p.value), s';
  }

  /** Message round trip: whatever `sendmsg` writes, `recvmsg` (either
      variant) returns, provided the JSON codec round-trips the value. */
  lemma SendRecvRoundTrip(dumps: Json -> seq<byte>, parse: seq<byte> -> Parse,
                          v: Json, rest: seq<byte>)
    requires |dumps(v)| < LengthLimit
    requires parse(dumps(v)) == Parsed(v)
    ensures SendMsg(dumps, v).Some?
    ensures RecvMsgSpec(SendMsg(dumps, v).value + rest, parse) == Message(v)
    ensures RecvMsgCheckedSpec(SendMsg(dumps, v).value + rest, parse) == Message(v)
    ensures AfterFrame(SendMsg(dumps, v).value + rest) == rest
  {
    ReadPackedFrame(dumps(v), rest);
  }

  /** The two `recvmsg` variants differ only on a short body, where
      controller.py returns `None` and the other two raise. */
  lemma RecvMsgVariantsDiffer(b: seq<byte>, parse: seq<byte> -> Parse)
    ensures RecvMsgSpec(b, parse) != RecvMsgCheckedSpec(b, parse) <==> ReadFrame(b).ShortBody?
    ensures ReadFrame(b).ShortBody? ==> RecvMsgSpec(b, parse) == Raised
  {
  }
}
