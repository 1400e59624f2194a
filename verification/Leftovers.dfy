/** What the memory of a packet buffer can contribute to a packet: the buffer is not cleared before a packet is
    received into it, so a short packet is completed by whatever was there. */
module Leftovers {
  import opened Wire
  import opened SecureWire
  import opened Transport

  // ---------- what is put into the buffer ----------

  /** What an arrival puts at the front of the packet buffer, and what it leaves unread. */
  datatype Taken = Nothing | Front(bytes: Bytes, rest: Bytes)

  function TakenPlain(wire: Bytes): (t: Taken)
    ensures t.Front? ==> 4 < |t.bytes| <= PACKET_SIZE
  {
    if |wire| < 4 then Nothing
    else
      var size: int := UnpackI32(wire[..4]);
      if size < 0 || size > BODY_SIZE then Nothing
      else
        var k := Min(size, |wire| - 4);
        if k == 0 then Nothing else Front(wire[..4 + k], wire[4 + k..])
  }

  function TakenSecure(cipher: Cipher, key: Bytes, wire: Bytes): (t: Taken)
    ensures t.Front? ==> 4 <= |t.bytes| <= PACKET_SIZE
  {
    var n := Min(4, |wire|);
    if n == 0 then Nothing
    else
      var size: int := UnpackU32(Overwrite(Zeros(4), 0, wire[..n]));
      if size > MAX_ENCRYPTED then Nothing
      else
        var k := Min(size, |wire| - n);
        if k == 0 then Nothing
        else
          match Opened(cipher, key, Overwrite(Zeros(size), 0, wire[n..n + k]))
          case None => Nothing
          case Some(packet) =>
            if |packet| < 4 then Nothing else Front(packet[..Min(|packet|, PACKET_SIZE)], wire[n + k..])
  }

  function TakenFrom(link: Link, wire: Bytes): (t: Taken)
    ensures t.Front? ==> 4 <= |t.bytes| <= PACKET_SIZE
  {
    match link
    case Plain => TakenPlain(wire)
    case Secure(cipher, key) => TakenSecure(cipher, key, wire)
  }

  lemma OverwriteTwice(b: Bytes, x: Bytes, y: Bytes)
    requires |x| + |y| <= |b|
    ensures Overwrite(Overwrite(b, 0, x), |x|, y) == Overwrite(b, 0, x + y)
  {
  }

  lemma PlainParts(stale: Bytes, wire: Bytes, k: nat)
    requires |stale| == PACKET_SIZE && 4 + k <= |wire| && k <= BODY_SIZE
    ensures Overwrite(Overwrite(stale, 0, wire[..4]), 4, wire[4..4 + k]) == Overwrite(stale, 0, wire[..4 + k])
  {
    OverwriteTwice(stale, wire[..4], wire[4..4 + k]);
    assert wire[..4] + wire[4..4 + k] == wire[..4 + k];
  }

  lemma PlainTakes(stale: Bytes, wire: Bytes)
    requires |stale| == PACKET_SIZE
    ensures ReceivePlain(stale, wire) ==
            match TakenPlain(wire)
            case Nothing => Broken
            case Front(bytes, rest) => Arrived(Overwrite(stale, 0, bytes), rest)
  {
    if |wire| >= 4 {
      assert Overwrite(stale, 0, wire[..4])[..4] == wire[..4];
      var size: int := UnpackI32(wire[..4]);
      if 0 <= size <= BODY_SIZE {
        PlainParts(stale, wire, Min(size, |wire| - 4));
      }
    }
  }

  /** Whether a packet arrives, and what it puts where, does not depend on the buffer; the rest of the buffer stays. */
  lemma ReceiveTakes(link: Link, stale: Bytes, wire: Bytes)
    requires |stale| == PACKET_SIZE
    ensures ServerReceive(link, stale, wire) ==
            match TakenFrom(link, wire)
            case Nothing => Broken
            case Front(bytes, rest) => Arrived(Overwrite(stale, 0, bytes), rest)
  {
    match link
    case Plain => PlainTakes(stale, wire);
    case Secure(_, _) =>
  }

  // ---------- when the leftovers do not matter ----------

  /** Id and type have arrived, and so has the zero that ends the body, or the whole buffer. */
  predicate Complete(bytes: Bytes) { |bytes| >= 12 && (|bytes| == PACKET_SIZE || 0 in bytes[12..]) }

  /** The packet is the same whatever the buffer held. */
  ghost predicate Determined(bytes: Bytes)
    requires |bytes| <= PACKET_SIZE
  {
    forall a, b: Bytes | |a| == PACKET_SIZE && |b| == PACKET_SIZE ::
      PacketIn(Overwrite(a, 0, bytes)) == PacketIn(Overwrite(b, 0, bytes))
  }

  lemma BehindFront(stale: Bytes, bytes: Bytes)
    requires |stale| == PACKET_SIZE && 12 <= |bytes| <= PACKET_SIZE
    ensures Overwrite(stale, 0, bytes)[12..] == bytes[12..] + stale[|bytes|..]
  {
  }

  lemma ZeroEnds(s: Bytes, rest: Bytes)
    requires 0 in s
    ensures CString(s + rest) == CString(s)
  {
    var n :| 0 <= n < |s| && s[n] == 0;
    assert s + rest == s[..n] + ([0] + (s[n + 1..] + rest));
    assert s == s[..n] + ([0] + s[n + 1..]);
    CStringOf(s[..n], s[n + 1..] + rest);
    CStringOf(s[..n], s[n + 1..]);
  }

  /** The packet as far as it has arrived. */
  function PacketOf(bytes: Bytes): Packet
    requires |bytes| >= 12
  {
    Packet(UnpackI32(bytes[4..8]), UnpackI32(bytes[8..12]), CString(bytes[12..]))
  }

  lemma CompleteIsPacket(stale: Bytes, bytes: Bytes)
    requires |stale| == PACKET_SIZE && |bytes| <= PACKET_SIZE && Complete(bytes)
    ensures PacketIn(Overwrite(stale, 0, bytes)) == PacketOf(bytes)
  {
    OverwriteFront(stale, bytes, 4, 8);
    OverwriteFront(stale, bytes, 8, 12);
    BehindFront(stale, bytes);
    if 0 in bytes[12..] {
      ZeroEnds(bytes[12..], stale[|bytes|..]);
    } else {
      assert bytes[12..] + stale[|bytes|..] == bytes[12..];
    }
  }

  lemma UnpackIsInjective(a: Bytes, b: Bytes)
    requires |a| == |b| == 4 && UnpackI32(a) == UnpackI32(b)
    ensures a[3] == b[3]
  {
    TopByte(a);
    TopByte(b);
  }

  lemma TopByte(a: Bytes)
    requires |a| == 4
    ensures UnpackU32(a) / 0x100_0000 == a[3]
  {
  }

  function Ones(n: nat): (b: Bytes)
    ensures |b| == n
  {
    seq(n, _ => 1)
  }

  /** A packet cut off before the end of its type can be completed to different types. */
  lemma ShortIsOpen(bytes: Bytes)
    requires |bytes| < 12
    ensures !Determined(bytes)
  {
    var a, b := Overwrite(Zeros(PACKET_SIZE), 0, bytes), Overwrite(Ones(PACKET_SIZE), 0, bytes);
    assert a[8..12][3] == 0 && b[8..12][3] == 1;
    if PacketIn(a) == PacketIn(b) {
      UnpackIsInjective(a[8..12], b[8..12]);
    }
    assert |Zeros(PACKET_SIZE)| == PACKET_SIZE && |Ones(PACKET_SIZE)| == PACKET_SIZE;
  }

  /** A body without a zero can be completed to different bodies. */
  lemma EndlessIsOpen(bytes: Bytes)
    requires 12 <= |bytes| < PACKET_SIZE && 0 !in bytes[12..]
    ensures !Determined(bytes)
  {
    var zeros, ones := Zeros(PACKET_SIZE), Ones(PACKET_SIZE);
    BehindFront(zeros, bytes);
    BehindFront(ones, bytes);
    assert zeros[|bytes|..] == [0] + zeros[|bytes| + 1..];
    CStringOf(bytes[12..], zeros[|bytes| + 1..]);
    CStringIsWhole(bytes[12..]);
    assert 0 !in bytes[12..] + ones[|bytes|..];
    CStringIsWhole(bytes[12..] + ones[|bytes|..]);
  }

  /** Main result: the packet does not depend on what the buffer held exactly when it is complete. */
  lemma DeterminedWhenComplete(bytes: Bytes)
    requires |bytes| <= PACKET_SIZE
    ensures Determined(bytes) <==> Complete(bytes)
  {
    if Complete(bytes) {
      forall a, b: Bytes | |a| == PACKET_SIZE && |b| == PACKET_SIZE
        ensures PacketIn(Overwrite(a, 0, bytes)) == PacketIn(Overwrite(b, 0, bytes))
      {
        CompleteIsPacket(a, bytes);
        CompleteIsPacket(b, bytes);
      }
    } else if |bytes| < 12 {
      ShortIsOpen(bytes);
    } else {
      EndlessIsOpen(bytes);
    }
  }

  /** The requests of the Python clients are complete. */
  lemma RequestsAreComplete(link: Link, nonce: Bytes, p: Packet)
    requires SoundLink(link) && |nonce| == NONCE_SIZE && Fits(link, p.body) && Readable(link, p.body)
    ensures var t := TakenFrom(link, RequestBytes(link, nonce, p)); t.Front? && Complete(t.bytes)
  {
    var t := TakenFrom(link, RequestBytes(link, nonce, p));
    RequestIsHeard(link, nonce, Zeros(PACKET_SIZE), p);
    ReceiveTakes(link, Zeros(PACKET_SIZE), RequestBytes(link, nonce, p));
    forall stale: Bytes | |stale| == PACKET_SIZE
      ensures PacketIn(Overwrite(stale, 0, t.bytes)) == p.(body := CString(p.body))
    {
      RequestIsHeard(link, nonce, stale, p);
      ReceiveTakes(link, stale, RequestBytes(link, nonce, p));
    }
    DeterminedWhenComplete(t.bytes);
  }

  // ---------- what short packets can be completed to ----------

  /** From the type on, as far as they go, these bytes are those. */
  predicate Shows(bytes: Bytes, fields: Bytes) {
    forall k | 8 <= k < |bytes| && k - 8 < |fields| :: bytes[k] == fields[k - 8]
  }

  /** Type and body with its zero. */
  function Fields(kind: Int32, body: Bytes): Bytes { PackI32(kind) + body + [0] }

  lemma PackUnpackI32(b: Bytes)
    requires |b| == 4
    ensures PackI32(UnpackI32(b)) == b
  {
    var b0: int, b1: int, b2: int, b3: int := b[0], b[1], b[2], b[3];
    var u: int := UnpackU32(b);
    assert u % 256 == b0 && u / 256 == b1 + 256 * b2 + 0x1_0000 * b3;
    assert u / 256 % 256 == b1 && u / 0x1_0000 == b2 + 256 * b3;
    assert u / 0x1_0000 % 256 == b2 && u / 0x100_0000 == b3;
  }

  lemma KindShows(buffer: Bytes, kind: Int32)
    requires |buffer| == PACKET_SIZE
    ensures PacketIn(buffer).kind == kind <==> Shows(buffer, PackI32(kind))
  {
    PackUnpackI32(buffer[8..12]);
    UnpackPackI32(kind);
    if Shows(buffer, PackI32(kind)) {
      assert buffer[8..12] == PackI32(kind);
    }
    if PacketIn(buffer).kind == kind {
      assert forall k | 8 <= k < 12 :: buffer[k] == buffer[8..12][k - 8];
    }
  }

  /** The C string is the front of the text, and a zero follows if anything does. */
  lemma {:induction false} CStringIsFront(s: Bytes)
    ensures |CString(s)| <= |s| && s[..|CString(s)|] == CString(s)
    ensures |CString(s)| < |s| ==> s[|CString(s)|] == 0
  {
    if s != [] && s[0] != 0 {
      CStringIsFront(s[1..]);
      assert s == [s[0]] + s[1..];
    }
  }

  lemma FrontAndZero(held: Bytes, n: nat)
    requires n < |held| && held[n] == 0
    ensures held == held[..n] + ([0] + held[n + 1..])
  {
  }

  lemma BodyEnds(held: Bytes, body: Bytes)
    requires 0 !in body && |body| <= |held| && held[..|body|] == body && (|body| < |held| ==> held[|body|] == 0)
    ensures CString(held) == body
  {
    CStringIsWhole(body);
    if |body| < |held| {
      FrontAndZero(held, |body|);
      CStringOf(body, held[|body| + 1..]);
    } else {
      assert held == body;
    }
  }

  lemma BodyIs(held: Bytes, body: Bytes)
    ensures CString(held) == body <==>
            0 !in body && |body| <= |held| && held[..|body|] == body && (|body| < |held| ==> held[|body|] == 0)
  {
    if CString(held) == body {
      CStringIsFront(held);
      CStringIsWhole(held);
    } else if 0 !in body && |body| <= |held| && held[..|body|] == body && (|body| < |held| ==> held[|body|] == 0) {
      BodyEnds(held, body);
    }
  }

  lemma FieldsShow(buffer: Bytes, kind: Int32, body: Bytes)
    requires |buffer| == PACKET_SIZE && |body| <= BODY_SIZE
    ensures Shows(buffer, Fields(kind, body)) <==>
            Shows(buffer, PackI32(kind)) && buffer[12..][..|body|] == body
            && (|body| < BODY_SIZE ==> buffer[12..][|body|] == 0)
  {
    var fields := Fields(kind, body);
    assert forall k | 0 <= k < 4 :: fields[k] == PackI32(kind)[k];
    assert forall k | 4 <= k < 4 + |body| :: fields[k] == body[k - 4];
    assert fields[4 + |body|] == 0;
    if Shows(buffer, fields) {
      forall k | 0 <= k < |body|
        ensures buffer[12..][k] == body[k]
      {
        assert buffer[12 + k] == fields[k + 4];
      }
    } else if buffer[12..][..|body|] == body {
      assert forall k | 12 <= k < 12 + |body| :: buffer[k] == buffer[12..][..|body|][k - 12];
    }
  }

  lemma PacketShows(buffer: Bytes, kind: Int32, body: Bytes)
    requires |buffer| == PACKET_SIZE
    ensures PacketIn(buffer).kind == kind && PacketIn(buffer).body == body <==>
            0 !in body && |body| <= BODY_SIZE && Shows(buffer, Fields(kind, body))
  {
    KindShows(buffer, kind);
    BodyIs(buffer[12..], body);
    if |body| <= BODY_SIZE {
      FieldsShow(buffer, kind, body);
    }
  }

  /** A buffer with these fields in their place. */
  function Filled(fields: Bytes): (stale: Bytes)
    ensures |stale| == PACKET_SIZE
  {
    seq(PACKET_SIZE, k => if 8 <= k < 8 + |fields| then fields[k - 8] else 0)
  }

  lemma CompletedShows(stale: Bytes, bytes: Bytes, fields: Bytes)
    requires |stale| == PACKET_SIZE && |bytes| <= PACKET_SIZE
    ensures Shows(Overwrite(stale, 0, bytes), fields) ==> Shows(bytes, fields)
    ensures Shows(bytes, fields) ==> Shows(Overwrite(Filled(fields), 0, bytes), fields)
  {
    var buffer := Overwrite(stale, 0, bytes);
    assert forall k | 0 <= k < |bytes| :: buffer[k] == bytes[k];
  }

  /** Over some contents of the buffer these bytes are read as a packet of this type and body. */
  ghost predicate ReadableAs(bytes: Bytes, kind: Int32, body: Bytes)
    requires |bytes| <= PACKET_SIZE
  {
    exists stale: Bytes :: && |stale| == PACKET_SIZE
                           && PacketIn(Overwrite(stale, 0, bytes)).kind == kind
                           && PacketIn(Overwrite(stale, 0, bytes)).body == body
  }

  /** Main result: some contents of the buffer complete these bytes to a packet of this type and body exactly when the
      body has no zero and is not too long, and the bytes agree with type and body as far as they go. */
  lemma ReadableExactlyWhen(bytes: Bytes, kind: Int32, body: Bytes)
    requires |bytes| <= PACKET_SIZE
    ensures ReadableAs(bytes, kind, body) <==>
            0 !in body && |body| <= BODY_SIZE && Shows(bytes, Fields(kind, body))
  {
    var fields := Fields(kind, body);
    if ReadableAs(bytes, kind, body) {
      var stale: Bytes :| && |stale| == PACKET_SIZE
                          && PacketIn(Overwrite(stale, 0, bytes)).kind == kind
                          && PacketIn(Overwrite(stale, 0, bytes)).body == body;
      PacketShows(Overwrite(stale, 0, bytes), kind, body);
      CompletedShows(stale, bytes, fields);
    }
    if 0 !in body && |body| <= BODY_SIZE && Shows(bytes, fields) {
      CompletedShows(Filled(fields), bytes, fields);
      PacketShows(Overwrite(Filled(fields), 0, bytes), kind, body);
    }
  }

  /** A packet that ends behind its id is completed by what is left of the packet before, be it a login. */
  lemma LeftoversCanLogIn(id: Int32, password: Bytes)
    requires 0 !in password && |password| <= BODY_SIZE
    ensures exists stale ::
              && |stale| == PACKET_SIZE
              && ServerReceive(Plain, stale, PackI32(4) + PackI32(id)).Arrived?
              && PacketIn(ServerReceive(Plain, stale, PackI32(4) + PackI32(id)).buffer) == Packet(id, AUTH, password)
  {
    var wire := PackI32(4) + PackI32(id);
    TakenShort(id);
    ReadableExactlyWhen(wire, AUTH, password);
    var stale: Bytes :| && |stale| == PACKET_SIZE
                        && PacketIn(Overwrite(stale, 0, wire)).kind == AUTH
                        && PacketIn(Overwrite(stale, 0, wire)).body == password;
    PlainTakes(stale, wire);
    OverwriteFront(stale, wire, 4, 8);
    assert wire[4..8] == PackI32(id);
    UnpackPackI32(id);
    assert ServerReceive(Plain, stale, wire).Arrived?;
  }

  lemma TakenShort(id: Int32)
    ensures TakenPlain(PackI32(4) + PackI32(id)) == Front(PackI32(4) + PackI32(id), [])
  {
    var wire := PackI32(4) + PackI32(id);
    UnpackPackI32(4);
    assert wire[..4] == PackI32(4) && wire[..8] == wire;
  }
}
