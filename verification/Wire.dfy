/** Bytes on the wire: 32-bit little-endian integers, and the packets of the Source RCON Protocol as the server
    and the Python clients build and take apart ("Basic Packet Structure": size, id, type, body, two zero bytes). */
module Wire {
  import opened Basics

  type Byte = x: int | 0 <= x < 256
  type Int32 = x: int | -0x8000_0000 <= x < 0x8000_0000
  type UInt32 = x: int | 0 <= x < 0x1_0000_0000

  type Bytes = seq<Byte>

  // ---------- integers ----------

  function PackU32(x: UInt32): (b: Bytes)
    ensures |b| == 4
  {
    [x % 256, x / 256 % 256, x / 0x1_0000 % 256, x / 0x100_0000]
  }

  function UnpackU32(b: Bytes): UInt32
    requires |b| == 4
  {
    var b0: int, b1: int, b2: int, b3: int := b[0], b[1], b[2], b[3];
    b0 + 256 * b1 + 0x1_0000 * b2 + 0x100_0000 * b3
  }

  /** Two's complement. */
  function PackI32(x: Int32): (b: Bytes)
    ensures |b| == 4
  {
    PackU32(if x < 0 then x + 0x1_0000_0000 else x)
  }

  function UnpackI32(b: Bytes): Int32
    requires |b| == 4
  {
    var u := UnpackU32(b);
    if u >= 0x8000_0000 then u - 0x1_0000_0000 else u
  }

  lemma UnpackPackU32(x: UInt32)
    ensures UnpackU32(PackU32(x)) == x
  {
    var q := x / 256;
    assert x / 0x1_0000 == q / 256 && x / 0x100_0000 == q / 256 / 256;
  }

  lemma UnpackPackI32(x: Int32)
    ensures UnpackI32(PackI32(x)) == x
  {
    UnpackPackU32(if x < 0 then x + 0x1_0000_0000 else x);
  }

  /** The value of bytes, the least significant first. */
  function LittleEndian(b: Bytes): nat {
    if b == [] then 0 else b[0] + 256 * LittleEndian(b[1..])
  }

  /** Integers are little-endian, and two's complement when they have a sign. */
  lemma IntegersAreLittleEndian(b: Bytes)
    requires |b| == 4
    ensures UnpackU32(b) == LittleEndian(b)
    ensures UnpackI32(b) == LittleEndian(b) || UnpackI32(b) == LittleEndian(b) - 0x1_0000_0000
  {
    var c, d, e := b[1..], b[2..], b[3..];
    assert c[1..] == d && d[1..] == e && e[1..] == [];
    assert LittleEndian(e) == b[3];
    assert LittleEndian(d) == b[2] + 256 * LittleEndian(e);
    assert LittleEndian(c) == b[1] + 256 * LittleEndian(d);
  }

  // ---------- packets the server sends ----------

  const BODY_SIZE := 4096
  const PACKET_SIZE := 4108

  const AUTH: Int32 := 3
  const AUTH_RESPONSE: Int32 := 2
  const EXECCOMMAND: Int32 := 2
  const RESPONSE_VALUE: Int32 := 0

  datatype Message = Message(id: Int32, kind: Int32, body: Bytes)

  function Min(a: int, b: int): int { if a < b then a else b }

  /** How many bytes the server copies of a body and its terminating zero: all, but at most 4095. */
  function CopyLength(body: Bytes): (n: nat)
    ensures 1 <= n < BODY_SIZE && n <= |body| + 1
  {
    Min(|body| + 1, BODY_SIZE - 1)
  }

  /** The bytes of a reply. */
  function ReplyFrame(m: Message): (f: Bytes)
    ensures |f| == 13 + CopyLength(m.body)
  {
    PackI32(9 + CopyLength(m.body)) + PackI32(m.id) + PackI32(m.kind) + (m.body + [0])[..CopyLength(m.body)] + [0]
  }

  // ---------- how a client reads them ----------

  /** Result of the client's `receive_packet`: `None`, an exception, or a message and the unread stream. */
  datatype Received = NoPacket | Raised | Got(message: Message, rest: Bytes)

  /** What the client makes of the bytes that follow the size field: the last two are dropped unseen. */
  function Decode(data: Bytes): Option<Message> {
    if |data| < 8 then None
    else Some(Message(UnpackI32(data[..4]), UnpackI32(data[4..8]), if |data| < 10 then [] else data[8..|data| - 2]))
  }

  /** `receive_packet` on a stream that ends behind `stream`. */
  function ClientRead(stream: Bytes): Received {
    if |stream| < 4 then NoPacket
    else
      var size: int := UnpackI32(stream[..4]);
      if |stream| < 4 + size then NoPacket
      else
        var end := if size < 0 then 4 else 4 + size;
        match Decode(stream[4..end])
        case None => Raised
        case Some(m) => Got(m, stream[end..])
  }

  /** The part of a body that arrives. */
  function Seen(m: Message): Message {
    m.(body := m.body[..Min(|m.body|, 4094)])
  }

  /** What follows the size field of a reply. */
  function ReplyData(m: Message): (d: Bytes)
    ensures |d| == 9 + CopyLength(m.body)
  {
    PackI32(m.id) + PackI32(m.kind) + (m.body + [0])[..CopyLength(m.body)] + [0]
  }

  lemma ReplyFrameSplit(m: Message)
    ensures ReplyFrame(m) == PackI32(9 + CopyLength(m.body)) + ReplyData(m)
  {
  }

  lemma DecodeOfReply(m: Message)
    ensures Decode(ReplyData(m)) == Some(Seen(m))
  {
    var d := ReplyData(m);
    UnpackPackI32(m.id);
    UnpackPackI32(m.kind);
    assert d[..4] == PackI32(m.id);
    assert d[4..8] == PackI32(m.kind);
    var payload := (m.body + [0])[..CopyLength(m.body)];
    assert payload[..|payload| - 1] == Seen(m).body;
    assert d == d[..8] + (payload + [0]);
    assert d[8..|d| - 2] == payload[..|payload| - 1];
  }

  lemma ClientReadOf(size: Int32, data: Bytes, rest: Bytes)
    requires size == |data|
    ensures ClientRead(PackI32(size) + data + rest) ==
            match Decode(data) case None => Raised case Some(m) => Got(m, rest)
  {
    var s := PackI32(size) + data + rest;
    UnpackPackI32(size);
    assert s[..4] == PackI32(size);
    assert s[4..4 + size] == data;
    assert s[4 + size..] == rest;
  }

  /** One reply in front of anything: the client gets id, type and the first 4094 bytes of the body, and leaves
      the rest of the stream alone. */
  lemma ReplyIsSeen(m: Message, rest: Bytes)
    ensures ClientRead(ReplyFrame(m) + rest) == Got(Seen(m), rest)
  {
    ReplyFrameSplit(m);
    DecodeOfReply(m);
    ClientReadOf(9 + CopyLength(m.body), ReplyData(m), rest);
  }

  function Frames(ms: seq<Message>): Bytes {
    if ms == [] then [] else ReplyFrame(ms[0]) + Frames(ms[1..])
  }

  function SeenAll(ms: seq<Message>): seq<Message> {
    if ms == [] then [] else [Seen(ms[0])] + SeenAll(ms[1..])
  }

  /** `n` calls of `receive_packet`: the messages, and the unread stream. */
  function ReadMany(stream: Bytes, n: nat): Option<(seq<Message>, Bytes)> {
    if n == 0 then Some(([], stream))
    else
      match ClientRead(stream)
      case NoPacket => None
      case Raised => None
      case Got(m, rest) =>
        match ReadMany(rest, n - 1)
        case None => None
        case Some((ms, end)) => Some(([m] + ms, end))
  }

  lemma ReadManyStep(stream: Bytes, n: nat, m: Message, rest: Bytes, ms: seq<Message>, end: Bytes)
    requires ClientRead(stream) == Got(m, rest) && ReadMany(rest, n) == Some((ms, end))
    ensures ReadMany(stream, n + 1) == Some(([m] + ms, end))
  {
  }

  /** Main result: any number of replies written one behind the other are read back one by one, and the stream
      is used up to the last byte. */
  lemma {:induction false} FrameStreamRoundTrip(ms: seq<Message>, rest: Bytes)
    ensures ReadMany(Frames(ms) + rest, |ms|) == Some((SeenAll(ms), rest))
  {
    if ms == [] {
      assert Frames(ms) + rest == rest;
    } else {
      var more := Frames(ms[1..]) + rest;
      assert Frames(ms) + rest == ReplyFrame(ms[0]) + more;
      ReplyIsSeen(ms[0], more);
      FrameStreamRoundTrip(ms[1..], rest);
      ReadManyStep(Frames(ms) + rest, |ms| - 1, Seen(ms[0]), more, SeenAll(ms[1..]), rest);
    }
  }

  // ---------- packets the clients send ----------

  /** The client counts one byte too many: `|body| + 10` bytes follow the size field. */
  function RequestFrame(id: Int32, kind: Int32, body: Bytes): (f: Bytes)
    requires |body| + 11 < 0x8000_0000
    ensures |f| == |body| + 14
  {
    PackI32(|body| + 11) + PackI32(id) + PackI32(kind) + body + [0] + [0]
  }

  // ---------- how the server reads them ----------

  /** A packet as the handler sees it; the body is read as a C string. */
  datatype Packet = Packet(id: Int32, kind: Int32, body: Bytes)

  /** The bytes before the first zero. */
  function CString(b: Bytes): Bytes {
    if b == [] || b[0] == 0 then [] else [b[0]] + CString(b[1..])
  }

  /** What stands behind a zero does not matter. */
  lemma {:induction false} CStringOf(s: Bytes, rest: Bytes)
    ensures CString(s + ([0] + rest)) == CString(s)
  {
    var t := s + ([0] + rest);
    if s == [] {
      assert t == [0] + rest;
    } else {
      assert t[0] == s[0];
      assert t[1..] == s[1..] + ([0] + rest);
      CStringOf(s[1..], rest);
    }
  }

  /** A body without a zero is its own C string, any other one is cut off. */
  lemma {:induction false} CStringIsWhole(s: Bytes)
    ensures 0 !in CString(s) && |CString(s)| <= |s|
    ensures CString(s) == s <==> 0 !in s
  {
    if s != [] {
      CStringIsWhole(s[1..]);
      assert s == [s[0]] + s[1..];
    }
  }

  /** Bytes copied over part of a buffer. */
  function Overwrite(buffer: Bytes, at: nat, src: Bytes): (r: Bytes)
    requires at + |src| <= |buffer|
    ensures |r| == |buffer|
  {
    buffer[..at] + src + buffer[at + |src|..]
  }

  function PacketIn(buffer: Bytes): Packet
    requires |buffer| == PACKET_SIZE
  {
    Packet(UnpackI32(buffer[4..8]), UnpackI32(buffer[8..12]), CString(buffer[12..]))
  }

  /** The server's packet buffer and the unread bytes, or the end of the connection. */
  datatype Arrival = Broken | Arrived(buffer: Bytes, rest: Bytes)

  /** The plain receive branch. The buffer starts with whatever was in memory; `recv` delivers what it is asked for
      or what is there, if that is less. A negative size is a huge one once it is compared as unsigned. */
  function ReceivePlain(stale: Bytes, wire: Bytes): (a: Arrival)
    requires |stale| == PACKET_SIZE
    ensures a.Arrived? ==> |a.buffer| == PACKET_SIZE
  {
    var n := Min(4, |wire|);
    if n == 0 then Broken
    else
      var buffer := Overwrite(stale, 0, wire[..n]);
      var size: int := UnpackI32(buffer[..4]);
      if size < 0 || size > BODY_SIZE then Broken
      else
        var k := Min(size, |wire| - n);
        if k == 0 then Broken
        else Arrived(Overwrite(buffer, 4, wire[n..n + k]), wire[n + k..])
  }

  /** What follows the size field of a request. */
  function RequestData(id: Int32, kind: Int32, body: Bytes): (d: Bytes)
    ensures |d| == |body| + 10
  {
    PackI32(id) + PackI32(kind) + body + [0] + [0]
  }

  lemma RequestFrameSplit(id: Int32, kind: Int32, body: Bytes)
    requires |body| + 11 < 0x8000_0000
    ensures RequestFrame(id, kind, body) == PackI32(|body| + 11) + RequestData(id, kind, body)
  {
  }

  lemma SliceOfSlice(b: Bytes, lo: nat, hi: nat, i: nat, j: nat)
    requires lo <= hi <= |b| && i <= j <= hi - lo
    ensures b[lo..hi][i..j] == b[lo + i..lo + j]
  {
    var x, y := b[lo..hi][i..j], b[lo + i..lo + j];
    assert |x| == |y| && forall k | 0 <= k < |x| :: x[k] == y[k];
  }

  lemma SplitAt(b: Bytes, lo: nat, hi: nat)
    requires lo <= hi <= |b|
    ensures b[lo..] == b[lo..hi] + b[hi..]
  {
  }

  lemma PacketOfFields(buffer: Bytes, id: Int32, kind: Int32, body: Bytes)
    requires |buffer| == PACKET_SIZE && buffer[4..8] == PackI32(id) && buffer[8..12] == PackI32(kind)
    requires CString(buffer[12..]) == body
    ensures PacketIn(buffer) == Packet(id, kind, body)
  {
    UnpackPackI32(id);
    UnpackPackI32(kind);
  }

  lemma TerminatedBody(held: Bytes, body: Bytes, rest: Bytes)
    requires held == body + [0] + rest
    ensures CString(held) == CString(body)
  {
    assert held == body + ([0] + rest);
    CStringOf(body, rest);
  }

  /** The body in the buffer ends with the first zero, in the body itself or behind it. */
  lemma BodyInBuffer(buffer: Bytes, body: Bytes)
    requires |buffer| == PACKET_SIZE && |body| + 13 <= PACKET_SIZE && buffer[12..|body| + 13] == body + [0]
    ensures CString(buffer[12..]) == CString(body)
  {
    SplitAt(buffer, 12, |body| + 13);
    TerminatedBody(buffer[12..], body, buffer[|body| + 13..]);
  }

  lemma FieldsOfRequest(buffer: Bytes, id: Int32, kind: Int32, body: Bytes)
    requires |buffer| == PACKET_SIZE && |body| + 14 <= PACKET_SIZE
    requires buffer[4..|body| + 14] == RequestData(id, kind, body)
    ensures buffer[4..8] == PackI32(id) && buffer[8..12] == PackI32(kind) && buffer[12..|body| + 13] == body + [0]
  {
    var d := RequestData(id, kind, body);
    SliceOfSlice(buffer, 4, |body| + 14, 0, 4);
    SliceOfSlice(buffer, 4, |body| + 14, 4, 8);
    SliceOfSlice(buffer, 4, |body| + 14, 8, |body| + 9);
    assert d[0..4] == PackI32(id);
    assert d[4..8] == PackI32(kind);
    assert d[8..|body| + 9] == body + [0];
  }

  /** A buffer that holds request data from position 4 on is read as that request, its body up to the first zero. */
  lemma PacketOfRequest(buffer: Bytes, id: Int32, kind: Int32, body: Bytes)
    requires |buffer| == PACKET_SIZE && |body| + 14 <= PACKET_SIZE
    requires buffer[4..|body| + 14] == RequestData(id, kind, body)
    ensures PacketIn(buffer) == Packet(id, kind, CString(body))
  {
    FieldsOfRequest(buffer, id, kind, body);
    BodyInBuffer(buffer, body);
    PacketOfFields(buffer, id, kind, CString(body));
  }

  lemma WholeWhen(p: Packet, id: Int32, kind: Int32, body: Bytes)
    requires p == Packet(id, kind, CString(body))
    ensures p == Packet(id, kind, body) <==> 0 !in body
  {
    CStringIsWhole(body);
  }

  lemma RequestArrivesAt(stale: Bytes, id: Int32, kind: Int32, body: Bytes)
    requires |stale| == PACKET_SIZE && |body| + 11 < 0x8000_0000
    ensures var a := ReceivePlain(stale, RequestFrame(id, kind, body));
            && (a.Arrived? <==> |body| <= 4085)
            && (a.Arrived? ==> a.rest == [] && a.buffer[4..|body| + 14] == RequestData(id, kind, body))
  {
    var wire, d := RequestFrame(id, kind, body), RequestData(id, kind, body);
    RequestFrameSplit(id, kind, body);
    UnpackPackI32(|body| + 11);
    assert wire[..4] == PackI32(|body| + 11);
    var buffer := Overwrite(stale, 0, wire[..4]);
    assert buffer[..4] == wire[..4];
    if |body| <= 4085 {
      assert wire[4..4 + |d|] == d;
      assert Overwrite(buffer, 4, d)[4..|body| + 14] == d;
    }
  }

  /** Main result: alone on the wire, a request of the Python client is received although its size field is one too
      large and the buffer holds leftovers, exactly when its body has at most 4085 bytes; a longer one ends the
      connection. What is received is the body up to its first zero, so the whole of it exactly when it has none. */
  lemma RequestIsReceived(stale: Bytes, id: Int32, kind: Int32, body: Bytes)
    requires |stale| == PACKET_SIZE && |body| + 11 < 0x8000_0000
    ensures var a := ReceivePlain(stale, RequestFrame(id, kind, body));
            && (a.Arrived? <==> |body| <= 4085)
            && (a.Arrived? ==>
                  && a.rest == [] && PacketIn(a.buffer) == Packet(id, kind, CString(body))
                  && (PacketIn(a.buffer) == Packet(id, kind, body) <==> 0 !in body))
  {
    RequestArrivesAt(stale, id, kind, body);
    var a := ReceivePlain(stale, RequestFrame(id, kind, body));
    if a.Arrived? {
      PacketOfRequest(a.buffer, id, kind, body);
      WholeWhen(PacketIn(a.buffer), id, kind, body);
    }
  }
}
