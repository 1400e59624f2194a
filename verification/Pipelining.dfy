/** What both sides make of any bytes: with something behind the packet that is taken, and when a packet is not complete
    or malformed. It shows why the clients have to wait for each reply before they send again. */
module Pipelining {
  import opened Wire
  import opened SecureWire
  import opened Transport
  import opened RconServer

  // ---------- when a plain packet ends the connection ----------

  /** A plain packet arrives exactly when its size field is there, is from 1 to 4096, and anything follows it. */
  lemma PlainArrivesWhen(stale: Bytes, wire: Bytes)
    requires |stale| == PACKET_SIZE
    ensures ReceivePlain(stale, wire).Arrived? <==> |wire| > 4 && 1 <= UnpackI32(wire[..4]) <= BODY_SIZE
  {
    var n := Min(4, |wire|);
    assert Overwrite(stale, 0, wire[..n])[..n] == wire[..n];
  }

  // ---------- two requests at once ----------

  lemma FirstFields(id: Int32, kind: Int32, body: Bytes, more: Bytes)
    requires |body| <= 4085 && more != []
    ensures var wire := RequestFrame(id, kind, body) + more;
            && wire[..4] == PackI32(|body| + 11) && wire[4..|body| + 15] == RequestData(id, kind, body) + [more[0]]
            && wire[|body| + 15..] == more[1..]
  {
    RequestFrameSplit(id, kind, body);
    var wire := RequestFrame(id, kind, body) + more;
    assert wire == (PackI32(|body| + 11) + (RequestData(id, kind, body) + [more[0]])) + more[1..];
  }

  lemma PlainTakesSize(stale: Bytes, wire: Bytes, k: nat)
    requires |stale| == PACKET_SIZE && 4 + k <= |wire| && UnpackI32(wire[..4]) == k && 1 <= k <= BODY_SIZE
    ensures ReceivePlain(stale, wire)
         == Arrived(Overwrite(Overwrite(stale, 0, wire[..4]), 4, wire[4..4 + k]), wire[4 + k..])
  {
    var first := Overwrite(stale, 0, wire[..4]);
    OverwriteFront(stale, wire[..4], 0, 4);
    assert first[..4] == wire[..4] && Min(k, |wire| - 4) == k;
  }

  lemma TakenOver(first: Bytes, data: Bytes, next: Byte)
    requires |first| == PACKET_SIZE && |data| + 5 <= PACKET_SIZE
    ensures Overwrite(first, 4, data + [next])[4..4 + |data|] == data
  {
  }

  lemma RequestTaken(stale: Bytes, id: Int32, kind: Int32, body: Bytes, more: Bytes) returns (buffer: Bytes)
    requires |stale| == PACKET_SIZE && |body| <= 4085 && more != []
    ensures |buffer| == PACKET_SIZE && buffer[4..|body| + 14] == RequestData(id, kind, body)
    ensures ReceivePlain(stale, RequestFrame(id, kind, body) + more) == Arrived(buffer, more[1..])
  {
    var wire, d := RequestFrame(id, kind, body) + more, RequestData(id, kind, body);
    UnpackPackI32(|body| + 11);
    FirstFields(id, kind, body, more);
    PlainTakesSize(stale, wire, |body| + 11);
    var first := Overwrite(stale, 0, wire[..4]);
    buffer := Overwrite(first, 4, d + [more[0]]);
    TakenOver(first, d, more[0]);
  }

  /** With more bytes behind a plain request, the request is received all the same, and the first byte behind it is
      gone: the client's size field is one too large. */
  lemma RequestTakesAByteMore(stale: Bytes, id: Int32, kind: Int32, body: Bytes, more: Bytes)
    requires |stale| == PACKET_SIZE && |body| <= 4085 && more != []
    ensures var a := ReceivePlain(stale, RequestFrame(id, kind, body) + more);
            a.Arrived? && a.rest == more[1..] && PacketIn(a.buffer) == Packet(id, kind, CString(body))
  {
    var buffer := RequestTaken(stale, id, kind, body, more);
    PacketOfRequest(buffer, id, kind, body);
  }

  lemma SizeOfSecond(id: Int32, kind: Int32, body: Bytes)
    requires |body| + 11 < 0x8000_0000
    ensures RequestFrame(id, kind, body)[1..][..4][3] == PackI32(id)[0]
  {
    var frame := RequestFrame(id, kind, body);
    assert frame[4] == PackI32(id)[0];
  }

  /** A top byte that is not zero makes a size out of range. */
  lemma TopByteIsTooMuch(b: Bytes)
    requires |b| == 4 && b[3] != 0
    ensures !(1 <= UnpackI32(b) <= BODY_SIZE)
  {
  }

  lemma LowByteOfId(id: Int32)
    requires id % 256 != 0
    ensures PackI32(id)[0] != 0
  {
  }

  /** Main result: of two plain requests sent at once the first is received, and the second ends the connection, unless
      the number of the second is a multiple of 256. */
  lemma SecondRequestEndsConnection(stale: Bytes, next: Bytes, id: Int32, kind: Int32, body: Bytes,
                                    id2: Int32, kind2: Int32, body2: Bytes)
    requires |stale| == PACKET_SIZE && |next| == PACKET_SIZE
    requires |body| <= 4085 && |body2| + 11 < 0x8000_0000 && id2 % 256 != 0
    ensures var a := ReceivePlain(stale, RequestFrame(id, kind, body) + RequestFrame(id2, kind2, body2));
            && a.Arrived? && PacketIn(a.buffer) == Packet(id, kind, CString(body))
            && ReceivePlain(next, a.rest).Broken?
  {
    var more := RequestFrame(id2, kind2, body2);
    RequestTakesAByteMore(stale, id, kind, body, more);
    SizeOfSecond(id2, kind2, body2);
    LowByteOfId(id2);
    TopByteIsTooMuch(more[1..][..4]);
    PlainArrivesWhen(next, more[1..]);
  }

  /** The encrypted branch takes its frame and nothing else. */
  lemma SecureTakesItsFrame(cipher: Cipher, key: Bytes, nonce: Bytes, stale: Bytes,
                            id: Int32, kind: Int32, body: Bytes, more: Bytes)
    requires Sound(cipher) && |nonce| == NONCE_SIZE && |stale| == PACKET_SIZE && |body| <= 8150
    ensures var frame := SecureFrame(Sealed(cipher, key, nonce, RequestFrame(id, kind, body)));
            var a := ReceiveSecure(cipher, key, stale, frame + more);
            && a.Arrived? && ReceiveSecure(cipher, key, stale, frame) == Arrived(a.buffer, [])
            && a.rest == more
  {
    var packet := RequestFrame(id, kind, body);
    var data := Sealed(cipher, key, nonce, packet);
    OpenedOfSealed(cipher, key, nonce, packet);
    RequestIsReceivedSecurely(cipher, key, nonce, stale, id, kind, body);
    ReceiveSecureOf(cipher, key, stale, data, packet);
    ReadSecureOf(cipher, key, data, more);
    var wire := SecureFrame(data) + more;
    assert Overwrite(Zeros(4), 0, wire[..4]) == wire[..4];
    assert Overwrite(Zeros(|data|), 0, wire[4..4 + |data|]) == data;
  }

  // ---------- encrypted requests in a queue ----------

  /** The requests from `i` on, one behind the other. */
  function QueueFrom(link: Link, ps: seq<Packet>, nonces: seq<Bytes>, i: nat): Bytes
    requires i <= |ps| == |nonces| && forall p :: p in ps ==> |p.body| <= 8150
    decreases |ps| - i
  {
    if i == |ps| then [] else RequestBytes(link, nonces[i], ps[i]) + QueueFrom(link, ps, nonces, i + 1)
  }

  lemma FirstOfQueue(link: Link, nonce: Bytes, stale: Bytes, p: Packet, more: Bytes)
    requires link.Secure? && SoundLink(link) && |nonce| == NONCE_SIZE && |stale| == PACKET_SIZE
    requires |p.body| <= 8150 && Readable(link, p.body)
    ensures var a := ServerReceive(link, stale, RequestBytes(link, nonce, p) + more);
            a.Arrived? && a.rest == more && PacketIn(a.buffer) == p.(body := CString(p.body))
  {
    SecureTakesItsFrame(link.cipher, link.key, nonce, stale, p.id, p.kind, p.body, more);
    RequestIsHeard(link, nonce, stale, p);
  }

  /** What the handler has after `k` turns on this queue. */
  ghost predicate Served(link: Link, ps: seq<Packet>, nonces: seq<Bytes>, k: nat, r: Reception)
    requires k <= |ps| == |nonces| && forall p :: p in ps ==> |p.body| <= 8150
  {
    && !r.broken && r.wire == QueueFrom(link, ps, nonces, k) && |r.packets| == k
    && forall i | 0 <= i < k :: r.packets[i] == ps[i].(body := CString(ps[i].body))
  }

  lemma QueueStep(link: Link, ps: seq<Packet>, nonces: seq<Bytes>, k: nat)
    requires k < |ps| == |nonces| && forall p :: p in ps ==> |p.body| <= 8150
    ensures QueueFrom(link, ps, nonces, k) ==
            RequestBytes(link, nonces[k], ps[k]) + QueueFrom(link, ps, nonces, k + 1)
  {
  }

  lemma ServedOneMore(link: Link, ps: seq<Packet>, nonces: seq<Bytes>, k: nat, before: Reception, a: Arrival)
    requires k < |ps| == |nonces| && (forall p :: p in ps ==> |p.body| <= 8150)
    requires Served(link, ps, nonces, k, before)
    requires a.Arrived? && |a.buffer| == PACKET_SIZE && a.rest == QueueFrom(link, ps, nonces, k + 1)
    requires PacketIn(a.buffer) == ps[k].(body := CString(ps[k].body))
    ensures Served(link, ps, nonces, k + 1, ReceptionStep(before, a))
  {
    var p := PacketIn(a.buffer);
    assert ReceptionStep(before, a) == Reception(before.packets + [p], a.rest, false);
  }

  lemma OneTurnMore(link: Link, stale: seq<Bytes>, turns: seq<Turn>, wire: Bytes)
    requires |stale| == |turns| > 0 && Buffers(stale) && turns[|turns| - 1].arrival == []
    ensures var n := |turns| - 1;
            var before := Receptions(link, stale[..n], turns[..n], wire);
            Receptions(link, stale, turns, wire) ==
            ReceptionStep(before, ServerReceive(link, stale[n], before.wire))
  {
    var n := |turns| - 1;
    var before := Receptions(link, stale[..n], turns[..n], wire);
    assert before.wire + turns[n].arrival == before.wire;
  }

  /** Main result: encrypted requests sent all at once are received one in each turn, in order, and none is lost. */
  lemma {:induction false} QueueIsServed(link: Link, ps: seq<Packet>, nonces: seq<Bytes>, stale: seq<Bytes>,
                                         turns: seq<Turn>)
    requires link.Secure? && SoundLink(link) && |ps| == |nonces| && |stale| == |turns| <= |ps| && Buffers(stale)
    requires forall p :: p in ps ==> |p.body| <= 8150 && Readable(link, p.body)
    requires (forall n :: n in nonces ==> |n| == NONCE_SIZE) && forall t :: t in turns ==> t.arrival == []
    ensures Served(link, ps, nonces, |turns|, Receptions(link, stale, turns, QueueFrom(link, ps, nonces, 0)))
    decreases turns
  {
    if turns != [] {
      var n := |turns| - 1;
      var wire := QueueFrom(link, ps, nonces, 0);
      var before := Receptions(link, stale[..n], turns[..n], wire);
      QueueIsServed(link, ps, nonces, stale[..n], turns[..n]);
      assert turns[n] in turns && ps[n] in ps && nonces[n] in nonces && stale[n] in stale;
      OneTurnMore(link, stale, turns, wire);
      QueueStep(link, ps, nonces, n);
      FirstOfQueue(link, nonces[n], stale[n], ps[n], QueueFrom(link, ps, nonces, n + 1));
      ServedOneMore(link, ps, nonces, n, before, ServerReceive(link, stale[n], before.wire));
    }
  }

  // ---------- what the client makes of any stream ----------

  /** A plain stream gives nothing until the packet is complete, an exception when there is no room for id and type,
      and otherwise the body without its last two bytes. */
  lemma PlainStreamMeans(stream: Bytes)
    requires |stream| >= 4
    ensures var size: int, r := UnpackI32(stream[..4]), ClientRead(stream);
            && (r.NoPacket? <==> |stream| < 4 + size)
            && (r.Raised? <==> size < 8 && 4 + size <= |stream|)
            && (r.Got? ==> r.message.body == stream[12..12 + (if size < 10 then 0 else size - 10)]
                           && r.rest == stream[4 + size..])
  {
    var size: int := UnpackI32(stream[..4]);
    if 10 <= size && 4 + size <= |stream| {
      SliceOfSlice(stream, 4, 4 + size, 8, size - 2);
    }
  }

  /** An encrypted stream gives nothing until the packet is complete, or when it cannot be opened. */
  lemma SecureStreamMeans(cipher: Cipher, key: Bytes, stream: Bytes)
    requires |stream| >= 4
    ensures var size: int, r := UnpackU32(stream[..4]), ClientReadSecure(cipher, key, stream);
            && (r.NoPacket? <==> |stream| < 4 + size || Opened(cipher, key, stream[4..4 + size]).None?)
            && (!r.NoPacket? ==>
                  var packet := Opened(cipher, key, stream[4..4 + size]).value;
                  && (r.Raised? <==> |packet| < 12)
                  && (r.Got? ==> r.message.body == packet[12..12 + (if |packet| < 14 then 0 else |packet| - 14)]
                                 && r.rest == stream[4 + size..]))
  {
    var size: int := UnpackU32(stream[..4]);
    if 4 + size <= |stream| && Opened(cipher, key, stream[4..4 + size]).Some? {
      var packet := Opened(cipher, key, stream[4..4 + size]).value;
      if |packet| >= 14 {
        SliceOfSlice(packet, 4, |packet|, 8, |packet| - 6);
        assert packet[4..|packet|] == packet[4..];
      }
    }
  }

  lemma LessThanAHeader(cipher: Cipher, key: Bytes, stream: Bytes)
    requires |stream| < 4
    ensures ClientRead(stream) == NoPacket && ClientReadSecure(cipher, key, stream) == NoPacket
  {
  }
}
