/** The two transports, plain and encrypted, behind one interface. */
module Transport {
  import opened Wire
  import opened SecureWire

  datatype Link = Plain | Secure(cipher: Cipher, key: Bytes)

  ghost predicate SoundLink(link: Link) { link.Secure? ==> Sound(link.cipher) }

  /** The longest body a request may have to be received whole. */
  function Limit(link: Link): nat { if link.Plain? then 4085 else 4095 }

  predicate Sendable(link: Link, body: Bytes) { 0 !in body && |body| <= Limit(link) }

  /** Longer requests end the connection. */
  predicate Fits(link: Link, body: Bytes) { |body| <= if link.Plain? then 4085 else 8150 }

  /** A request that does not end the connection has the zero that ends its body within the server's buffer; otherwise
      the server would read on behind it. */
  predicate Readable(link: Link, body: Bytes) { Fits(link, body) ==> ZeroAt(body) < BODY_SIZE }

  function RequestBytes(link: Link, nonce: Bytes, p: Packet): Bytes
    requires |p.body| + 11 < 0x8000_0000
  {
    match link
    case Plain => RequestFrame(p.id, p.kind, p.body)
    case Secure(cipher, key) => SecureFrame(Sealed(cipher, key, nonce, RequestFrame(p.id, p.kind, p.body)))
  }

  function ReplyBytes(link: Link, nonce: Bytes, m: Message): Bytes {
    match link
    case Plain => ReplyFrame(m)
    case Secure(cipher, key) => SecureFrame(Sealed(cipher, key, nonce, ReplyFrame(m)))
  }

  function ServerReceive(link: Link, stale: Bytes, wire: Bytes): (a: Arrival)
    requires |stale| == PACKET_SIZE
    ensures a.Arrived? ==> |a.buffer| == PACKET_SIZE
  {
    match link
    case Plain => ReceivePlain(stale, wire)
    case Secure(cipher, key) => ReceiveSecure(cipher, key, stale, wire)
  }

  function ClientReceive(link: Link, stream: Bytes): Received {
    match link
    case Plain => ClientRead(stream)
    case Secure(cipher, key) => ClientReadSecure(cipher, key, stream)
  }

  /** A request alone on the wire arrives exactly when it fits, with its body up to the first zero, whatever the
      packet buffer held. */
  lemma RequestIsHeard(link: Link, nonce: Bytes, stale: Bytes, p: Packet)
    requires SoundLink(link) && |nonce| == NONCE_SIZE && |stale| == PACKET_SIZE
    requires |p.body| + 11 < 0x8000_0000 && Readable(link, p.body)
    ensures RequestBytes(link, nonce, p) != []
    ensures var a := ServerReceive(link, stale, RequestBytes(link, nonce, p));
            && (a.Arrived? <==> Fits(link, p.body))
            && (a.Arrived? ==> a.rest == [] && PacketIn(a.buffer) == p.(body := CString(p.body)))
  {
    match link
    case Plain => RequestIsReceived(stale, p.id, p.kind, p.body);
    case Secure(cipher, key) => RequestIsReceivedSecurely(cipher, key, nonce, stale, p.id, p.kind, p.body);
  }

  /** A request that can be sent arrives as it was meant. */
  lemma RequestArrives(link: Link, nonce: Bytes, stale: Bytes, p: Packet)
    requires SoundLink(link) && |nonce| == NONCE_SIZE && |stale| == PACKET_SIZE && Sendable(link, p.body)
    ensures RequestBytes(link, nonce, p) != []
    ensures var a := ServerReceive(link, stale, RequestBytes(link, nonce, p));
            a.Arrived? && a.rest == [] && PacketIn(a.buffer) == p
  {
    CStringIsWhole(p.body);
    RequestIsHeard(link, nonce, stale, p);
  }

  /** A reply in front of anything is collected, its body cut off after 4094 bytes. */
  lemma ReplyArrives(link: Link, nonce: Bytes, m: Message, rest: Bytes)
    requires SoundLink(link) && |nonce| == NONCE_SIZE
    ensures ReplyBytes(link, nonce, m) != []
    ensures ClientReceive(link, ReplyBytes(link, nonce, m) + rest) == Got(Seen(m), rest)
  {
    ReplyIsSeen(m, rest);
    match link
    case Plain =>
    case Secure(cipher, key) =>
      ReplyFrameSplit(m);
      TransportIsTransparent(cipher, key, nonce, ReplyData(m), rest);
  }
}
