/** The encrypted framing: a 32-bit length, a nonce of 12 bytes, the ciphertext and a tag of 16 bytes. The cipher
    itself is abstract (an authenticated cipher in the sense of section 7 of NIST SP 800-38D). */
module SecureWire {
  import opened Basics
  import opened Wire

  const NONCE_SIZE := 12
  const TAG_SIZE := 16
  const MAX_ENCRYPTED := 8192

  /** `seal(key, nonce, plain)` is the ciphertext and the tag, `open(key, nonce, ciphertext, tag)` the plaintext if
      the tag is right. */
  datatype Cipher = Cipher(seal: (Bytes, Bytes, Bytes) -> (Bytes, Bytes),
                           open: (Bytes, Bytes, Bytes, Bytes) -> Option<Bytes>)

  /** What is assumed of the cipher: ciphertexts as long as the plaintext, tags of 16 bytes, and what was sealed can
      be opened. */
  ghost predicate Sound(cipher: Cipher) {
    forall key, nonce, plain :: SealsWell(cipher, key, nonce, plain)
  }

  ghost predicate SealsWell(cipher: Cipher, key: Bytes, nonce: Bytes, plain: Bytes) {
    var (ciphertext, tag) := cipher.seal(key, nonce, plain);
    && |ciphertext| == |plain| && |tag| == TAG_SIZE
    && cipher.open(key, nonce, ciphertext, tag) == Some(plain)
  }

  // ---------- layout ----------

  /** What `Encrypt` returns, and what the client's library appends the tag to. */
  function Sealed(cipher: Cipher, key: Bytes, nonce: Bytes, plain: Bytes): Bytes {
    var (ciphertext, tag) := cipher.seal(key, nonce, plain);
    nonce + ciphertext + tag
  }

  /** What `Decrypt` returns; the client takes the same parts. */
  function Opened(cipher: Cipher, key: Bytes, data: Bytes): Option<Bytes> {
    var n := |data|;
    if n < NONCE_SIZE + TAG_SIZE then None
    else cipher.open(key, data[..NONCE_SIZE], data[NONCE_SIZE..n - TAG_SIZE], data[n - TAG_SIZE..])
  }

  lemma PartsOf(nonce: Bytes, ciphertext: Bytes, tag: Bytes)
    requires |nonce| == NONCE_SIZE && |tag| == TAG_SIZE
    ensures var data := nonce + ciphertext + tag;
            && data[..NONCE_SIZE] == nonce
            && data[NONCE_SIZE..|data| - TAG_SIZE] == ciphertext
            && data[|data| - TAG_SIZE..] == tag
  {
  }

  /** Decrypting takes apart exactly what encrypting put together. */
  lemma OpenedOfSealed(cipher: Cipher, key: Bytes, nonce: Bytes, plain: Bytes)
    requires Sound(cipher) && |nonce| == NONCE_SIZE
    ensures |Sealed(cipher, key, nonce, plain)| == |plain| + 28
    ensures Opened(cipher, key, Sealed(cipher, key, nonce, plain)) == Some(plain)
  {
    assert SealsWell(cipher, key, nonce, plain);
    var (ciphertext, tag) := cipher.seal(key, nonce, plain);
    PartsOf(nonce, ciphertext, tag);
  }

  /** The length is cast to 32 bits. */
  function SecureFrame(data: Bytes): Bytes { PackU32(|data| % 0x1_0000_0000) + data }

  lemma FrameOfSmall(data: Bytes)
    requires |data| < 0x1_0000_0000
    ensures SecureFrame(data) == PackU32(|data|) + data
  {
  }

  // ---------- the client's side ----------

  /** `receive_packet` in encrypted mode on a stream that ends behind `stream`: the size field inside the packet is
      not looked at. */
  function ClientReadSecure(cipher: Cipher, key: Bytes, stream: Bytes): Received {
    if |stream| < 4 then NoPacket
    else
      var size: int := UnpackU32(stream[..4]);
      if |stream| < 4 + size then NoPacket
      else
        match Opened(cipher, key, stream[4..4 + size])
        case None => NoPacket
        case Some(packet) =>
          if |packet| < 4 then Raised
          else
            match Decode(packet[4..])
            case None => Raised
            case Some(m) => Got(m, stream[4 + size..])
  }

  lemma ReadSecureOf(cipher: Cipher, key: Bytes, data: Bytes, rest: Bytes)
    requires |data| < 0x1_0000_0000
    ensures var s := SecureFrame(data) + rest;
            |s| >= 4 + |data| && UnpackU32(s[..4]) == |data| && s[4..4 + |data|] == data && s[4 + |data|..] == rest
  {
    var s := SecureFrame(data) + rest;
    UnpackPackU32(|data|);
    assert s[..4] == PackU32(|data|);
  }

  /** Main result: whatever the bytes of a packet, as long as its size field tells its length, a client gets the
      same packet from the encrypted framing as from the plain one, and as much of the stream is left. */
  lemma TransportIsTransparent(cipher: Cipher, key: Bytes, nonce: Bytes, data: Bytes, rest: Bytes)
    requires Sound(cipher) && |nonce| == NONCE_SIZE && |data| < 0x7fff_ff00
    ensures var packet := PackI32(|data|) + data;
            ClientReadSecure(cipher, key, SecureFrame(Sealed(cipher, key, nonce, packet)) + rest) ==
            ClientRead(packet + rest)
  {
    var packet := PackI32(|data|) + data;
    OpenedOfSealed(cipher, key, nonce, packet);
    ReadSecureOf(cipher, key, Sealed(cipher, key, nonce, packet), rest);
    ClientReadOf(|data|, data, rest);
    assert packet[4..] == data;
  }

  // ---------- the server's side ----------

  function Zeros(n: nat): (b: Bytes)
    ensures |b| == n
  {
    seq(n, _ => 0)
  }

  /** The encrypted receive branch. */
  function ReceiveSecure(cipher: Cipher, key: Bytes, stale: Bytes, wire: Bytes): (a: Arrival)
    requires |stale| == PACKET_SIZE
    ensures a.Arrived? ==> |a.buffer| == PACKET_SIZE
  {
    var n := Min(4, |wire|);
    if n == 0 then Broken
    else
      var size: int := UnpackU32(Overwrite(Zeros(4), 0, wire[..n]));
      if size > MAX_ENCRYPTED then Broken
      else
        var k := Min(size, |wire| - n);
        if k == 0 then Broken
        else
          match Opened(cipher, key, Overwrite(Zeros(size), 0, wire[n..n + k]))
          case None => Broken
          case Some(packet) =>
            if |packet| < 4 then Broken
            else Arrived(Overwrite(stale, 0, packet[..Min(|packet|, PACKET_SIZE)]), wire[n + k..])
  }

  lemma ReceiveSecureOf(cipher: Cipher, key: Bytes, stale: Bytes, data: Bytes, packet: Bytes)
    requires |stale| == PACKET_SIZE && 0 < |data| < 0x1_0000_0000
    requires Opened(cipher, key, data) == Some(packet) && |packet| >= 4
    ensures ReceiveSecure(cipher, key, stale, SecureFrame(data)) ==
            if |data| > MAX_ENCRYPTED then Broken
            else Arrived(Overwrite(stale, 0, packet[..Min(|packet|, PACKET_SIZE)]), [])
  {
    var wire := SecureFrame(data);
    ReadSecureOf(cipher, key, data, []);
    assert wire + [] == wire;
    assert Overwrite(Zeros(4), 0, wire[..4]) == wire[..4];
    if |data| <= MAX_ENCRYPTED {
      assert Overwrite(Zeros(|data|), 0, wire[4..4 + |data|]) == data;
    }
  }

  lemma OverwriteFront(b: Bytes, src: Bytes, lo: nat, hi: nat)
    requires lo <= hi <= |src| <= |b|
    ensures Overwrite(b, 0, src)[lo..hi] == src[lo..hi]
  {
    var r := Overwrite(b, 0, src);
    assert forall k | 0 <= k < |src| :: r[k] == src[k];
    assert |r[lo..hi]| == |src[lo..hi]| && forall k | 0 <= k < hi - lo :: r[lo..hi][k] == src[lo..hi][k];
  }

  lemma RequestFields(id: Int32, kind: Int32, body: Bytes)
    requires |body| + 11 < 0x8000_0000
    ensures var packet := RequestFrame(id, kind, body);
            packet[4..8] == PackI32(id) && packet[8..12] == PackI32(kind) && packet[12..] == body + ([0] + [0])
  {
  }

  /** Where the first zero is in a body with zeros behind it. */
  function ZeroAt(body: Bytes): (n: nat)
    ensures n <= |body| && CString(body) == body[..n] && 0 !in body[..n]
    ensures n < |body| ==> body[n] == 0
  {
    if body == [] || body[0] == 0 then 0
    else
      assert body == [body[0]] + body[1..];
      1 + ZeroAt(body[1..])
  }

  /** A request copied into the packet buffer, cut off at its end, when the zero that ends its body is copied too. */
  lemma CopiedRequest(stale: Bytes, id: Int32, kind: Int32, body: Bytes, z: nat)
    requires |stale| == PACKET_SIZE && |body| + 11 < 0x8000_0000
    requires z <= |body| && z < BODY_SIZE && (z < |body| ==> body[z] == 0)
    ensures var packet := RequestFrame(id, kind, body);
            var buffer := Overwrite(stale, 0, packet[..Min(|packet|, PACKET_SIZE)]);
            buffer[4..8] == PackI32(id) && buffer[8..12] == PackI32(kind) && buffer[12..13 + z] == body[..z] + [0]
  {
    var packet, n := RequestFrame(id, kind, body), Min(|body| + 14, PACKET_SIZE);
    var buffer := Overwrite(stale, 0, packet[..n]);
    RequestFields(id, kind, body);
    OverwriteFront(stale, packet[..n], 4, 8);
    OverwriteFront(stale, packet[..n], 8, 12);
    OverwriteFront(stale, packet[..n], 12, 13 + z);
    SliceOfSlice(packet, 0, n, 4, 8);
    SliceOfSlice(packet, 0, n, 8, 12);
    SliceOfSlice(packet, 0, n, 12, 13 + z);
    assert packet[0..n] == packet[..n];
    RequestUpTo(packet, body, z);
  }

  lemma RequestUpTo(packet: Bytes, body: Bytes, z: nat)
    requires |packet| == |body| + 14 && packet[12..] == body + ([0] + [0])
    requires z <= |body| && (z < |body| ==> body[z] == 0)
    ensures packet[12..13 + z] == body[..z] + [0]
  {
    SliceOfSlice(packet, 12, |packet|, 0, z + 1);
    assert packet[12..|packet|] == packet[12..];
  }

  lemma CopiedPacket(stale: Bytes, id: Int32, kind: Int32, body: Bytes)
    requires |stale| == PACKET_SIZE && |body| + 11 < 0x8000_0000 && ZeroAt(body) < BODY_SIZE
    ensures var packet := RequestFrame(id, kind, body);
            PacketIn(Overwrite(stale, 0, packet[..Min(|packet|, PACKET_SIZE)])) == Packet(id, kind, CString(body))
  {
    var packet, z := RequestFrame(id, kind, body), ZeroAt(body);
    var buffer := Overwrite(stale, 0, packet[..Min(|packet|, PACKET_SIZE)]);
    CopiedRequest(stale, id, kind, body, z);
    BodyInBuffer(buffer, body[..z]);
    CStringIsWhole(body[..z]);
    PacketOfFields(buffer, id, kind, body[..z]);
  }

  /** Main result: alone on the wire, an encrypted request of the Python client ends the connection exactly when its
      body has more than 8150 bytes. What is received is the body up to its first zero, so the whole of it exactly
      when it has none, as long as the zero that ends it is within the buffer. */
  lemma RequestIsReceivedSecurely(cipher: Cipher, key: Bytes, nonce: Bytes, stale: Bytes,
                                  id: Int32, kind: Int32, body: Bytes)
    requires Sound(cipher) && |nonce| == NONCE_SIZE && |stale| == PACKET_SIZE && |body| + 11 < 0x8000_0000
    ensures var data := Sealed(cipher, key, nonce, RequestFrame(id, kind, body));
            var a := ReceiveSecure(cipher, key, stale, SecureFrame(data));
            && (a.Arrived? <==> |body| <= 8150)
            && (a.Arrived? ==> a.rest == [])
            && (a.Arrived? && ZeroAt(body) < BODY_SIZE ==>
                  && PacketIn(a.buffer) == Packet(id, kind, CString(body))
                  && (PacketIn(a.buffer) == Packet(id, kind, body) <==> 0 !in body))
  {
    var packet := RequestFrame(id, kind, body);
    OpenedOfSealed(cipher, key, nonce, packet);
    ReceiveSecureOf(cipher, key, stale, Sealed(cipher, key, nonce, packet), packet);
    if ZeroAt(body) < BODY_SIZE {
      CopiedPacket(stale, id, kind, body);
      WholeWhen(Packet(id, kind, CString(body)), id, kind, body);
    }
  }
}
