/** The server's side of the RCON connection as the program has it: sockets, the packet buffer, the table of failed
    logins, and the loop of a handler thread. */
module RconServer {
  import opened Basics
  import opened Wire
  import opened SecureWire
  import opened Transport
  import opened Access
  import opened Protocol
  import opened AesKey
  import opened AesCrypto
  import opened Memory
  import M = ServerMachine

  /** The server's end of a connection. `Recv` delivers what it is asked for, or what is there if that is less;
      nothing means that the peer is gone. */
  class Socket {
    var incoming: Bytes
    var outgoing: Bytes

    constructor ()
      ensures incoming == [] && outgoing == []
    {
      incoming, outgoing := [], [];
    }

    method Recv(n: nat) returns (chunk: Bytes)
      modifies this`incoming
      ensures chunk == old(incoming)[..Min(n, |old(incoming)|)]
      ensures incoming == old(incoming)[Min(n, |old(incoming)|)..]
    {
      var k := Min(n, |incoming|);
      chunk := incoming[..k];
      incoming := incoming[k..];
    }

    method Send(data: Bytes)
      modifies this`outgoing
      ensures outgoing == old(outgoing) + data
    {
      outgoing := outgoing + data;
    }

    /** The network. */
    method Deliver(data: Bytes)
      modifies this`incoming
      ensures incoming == old(incoming) + data
    {
      incoming := incoming + data;
    }
  }

  /** What one turn of a handler depends on from outside: the bytes that arrive, what a command returns, the nonce
      of the reply. */
  datatype Turn = Turn(arrival: Bytes, response: Bytes, nonce: Bytes)

  // ---------- what the loop of a handler amounts to ----------

  /** The packets received so far, the bytes left over, and whether receiving has failed. */
  datatype Reception = Reception(packets: seq<Packet>, wire: Bytes, broken: bool)

  predicate Buffers(stale: seq<Bytes>) { forall b :: b in stale ==> |b| == PACKET_SIZE }

  /** Receiving once; a failure is for good. */
  function ReceptionStep(before: Reception, a: Arrival): Reception
    requires a.Arrived? ==> |a.buffer| == PACKET_SIZE
  {
    if before.broken then before
    else
      match a
      case Broken => Reception(before.packets, [], true)
      case Arrived(buffer, rest) => Reception(before.packets + [PacketIn(buffer)], rest, false)
  }

  /** Receiving once for each turn, into packet buffers that held `stale`. */
  ghost function Receptions(link: Link, stale: seq<Bytes>, turns: seq<Turn>, wire: Bytes): Reception
    requires |stale| == |turns| && Buffers(stale)
  {
    if turns == [] then Reception([], wire, false)
    else
      var n := |turns| - 1;
      var before := Receptions(link, stale[..n], turns[..n], wire);
      ReceptionStep(before, ServerReceive(link, stale[n], before.wire + turns[n].arrival))
  }

  /** What one packet does to the table of failed logins. */
  function TableNext(failed: map<string, nat>, ip: string, a: Action): map<string, nat> {
    match a
    case Accept => Forgiven(failed, ip)
    case Reject => Recorded(failed, ip)
    case _ => failed
  }

  /** The table after a connection that received these packets. */
  function TableAfter(failed: map<string, nat>, ip: string, password: Bytes, got: seq<Packet>): map<string, nat> {
    if got == [] then failed
    else
      var n := |got| - 1;
      TableNext(TableAfter(failed, ip, password, got[..n]), ip, ActionAt(password, got, n))
  }

  /** Replies as they are sent, each with its nonce. */
  function ReplyStream(link: Link, nonces: seq<Bytes>, ms: seq<Message>): Bytes
    requires |nonces| == |ms|
  {
    if ms == [] then []
    else
      var n := |ms| - 1;
      ReplyStream(link, nonces[..n], ms[..n]) + ReplyBytes(link, nonces[n], ms[n])
  }

  /** What a handler has done: the packets received, the commands run, the replies sent and their nonces. */
  datatype History = History(got: seq<Packet>, ran: seq<Execution>, sent: seq<Message>, nonces: seq<Bytes>)

  /** The history is what its packets call for, and only the last of them may have ended the connection. */
  predicate AsCalledFor(password: Bytes, h: History) {
    && (h.got == [] || AllGoOn(password, h.got[..|h.got| - 1]))
    && RanAsAsked(password, h.got, h.ran)
    && h.sent == Replies(password, h.got, h.ran)
    && |h.nonces| == |h.sent|
  }

  /** One more packet, acted upon. */
  function Next(password: Bytes, h: History, p: Packet, turn: Turn): History {
    var a := Decide(password, Authenticated(password, h.got), p);
    var ran := if a.Execute? then h.ran + [Execution(|h.got|, p.body, turn.response)] else h.ran;
    match ReplyTo(p, a, turn.response)
    case None => History(h.got + [p], ran, h.sent, h.nonces)
    case Some(m) => History(h.got + [p], ran, h.sent + [m], h.nonces + [turn.nonce])
  }

  lemma NextExecuted(password: Bytes, h: History, p: Packet, turn: Turn)
    requires Decide(password, Authenticated(password, h.got), p).Execute?
    ensures Next(password, h, p, turn)
         == History(h.got + [p], h.ran + [Execution(|h.got|, p.body, turn.response)],
                    h.sent + [Message(p.id, RESPONSE_VALUE, turn.response)], h.nonces + [turn.nonce])
  {
  }

  lemma ExecutedAsCalledFor(password: Bytes, h: History, p: Packet, turn: Turn)
    requires RanAsAsked(password, h.got, h.ran) && h.sent == Replies(password, h.got, h.ran)
    requires Decide(password, Authenticated(password, h.got), p).Execute?
    ensures var n := Next(password, h, p, turn);
            RanAsAsked(password, n.got, n.ran) && n.sent == Replies(password, n.got, n.ran)
  {
    NextExecuted(password, h, p, turn);
    OneMoreAsAsked(password, h.got, p, h.ran, turn.response);
    RepliesExecuted(password, h.got, h.ran, p, Execution(|h.got|, p.body, turn.response));
  }

  lemma OthersAsCalledFor(password: Bytes, h: History, p: Packet, turn: Turn)
    requires RanAsAsked(password, h.got, h.ran) && h.sent == Replies(password, h.got, h.ran)
    requires !Decide(password, Authenticated(password, h.got), p).Execute?
    ensures var n := Next(password, h, p, turn);
            RanAsAsked(password, n.got, n.ran) && n.sent == Replies(password, n.got, n.ran)
  {
    StillAsAsked(password, h.got, p, h.ran);
    RepliesStep(password, h.got, h.ran, p);
  }

  /** One more packet keeps the history as called for, as long as no earlier one ended the connection. */
  lemma NextAsCalledFor(password: Bytes, h: History, p: Packet, turn: Turn)
    requires AsCalledFor(password, h) && AllGoOn(password, h.got)
    ensures AsCalledFor(password, Next(password, h, p, turn))
  {
    assert (h.got + [p])[..|h.got|] == h.got;
    if Decide(password, Authenticated(password, h.got), p).Execute? {
      ExecutedAsCalledFor(password, h, p, turn);
    } else {
      OthersAsCalledFor(password, h, p, turn);
    }
  }

  lemma NextGoesOn(password: Bytes, h: History, p: Packet, turn: Turn)
    requires AllGoOn(password, h.got)
    ensures var a := Decide(password, Authenticated(password, h.got), p);
            && Next(password, h, p, turn).got == h.got + [p]
            && (AllGoOn(password, h.got + [p]) <==> GoesOn(a))
            && (GoesOn(a) ==> (Authenticated(password, h.got + [p]) <==> Authenticated(password, h.got) || a.Accept?))
  {
    AuthenticatedStep(password, h.got, p);
  }

  /** The bytes of one reply, or none. */
  function ReplyOut(link: Link, nonce: Bytes, reply: Option<Message>): Bytes {
    match reply
    case None => []
    case Some(m) => ReplyBytes(link, nonce, m)
  }

  lemma NextStream(link: Link, password: Bytes, h: History, p: Packet, turn: Turn)
    requires |h.nonces| == |h.sent|
    ensures var next := Next(password, h, p, turn);
            && |next.nonces| == |next.sent|
            && ReplyStream(link, next.nonces, next.sent)
            == ReplyStream(link, h.nonces, h.sent)
               + ReplyOut(link, turn.nonce,
                          ReplyTo(p, Decide(password, Authenticated(password, h.got), p), turn.response))
  {
  }

  lemma TableGrows(failed: map<string, nat>, ip: string, password: Bytes, got: seq<Packet>, p: Packet)
    ensures TableAfter(failed, ip, password, got + [p])
         == TableNext(TableAfter(failed, ip, password, got), ip, Decide(password, Authenticated(password, got), p))
  {
  }

  /** Where the loop of a handler is: its flags, the bytes left to read while it goes on, the bytes sent and the
      table. */
  datatype Loop = Loop(goOn: bool, authenticated: bool, wire: Bytes, out: Bytes, failed: map<string, nat>)

  /** One turn of the loop, into a packet buffer that held `stale`. */
  function AfterTurn(link: Link, password: Bytes, ip: string, l: Loop, stale: Bytes, turn: Turn): Loop
    requires |stale| == PACKET_SIZE
  {
    match ServerReceive(link, stale, l.wire + turn.arrival)
    case Broken => l.(goOn := false, wire := [])
    case Arrived(buffer, rest) =>
      var p := PacketIn(buffer);
      var a := Decide(password, l.authenticated, p);
      Loop(GoesOn(a), l.authenticated || a.Accept?, if GoesOn(a) then rest else [],
           l.out + ReplyOut(link, turn.nonce, ReplyTo(p, a, turn.response)), TableNext(l.failed, ip, a))
  }

  function HistoryAfter(link: Link, password: Bytes, l: Loop, h: History, stale: Bytes, turn: Turn): History
    requires |stale| == PACKET_SIZE
  {
    match ServerReceive(link, stale, l.wire + turn.arrival)
    case Broken => h
    case Arrived(buffer, _) => Next(password, h, PacketIn(buffer), turn)
  }

  /** What was sent and recorded is what the packets call for. */
  predicate HistoryFits(link: Link, password: Bytes, ip: string, failed: map<string, nat>, h: History, l: Loop) {
    && AsCalledFor(password, h)
    && l.out == ReplyStream(link, h.nonces, h.sent)
    && l.failed == TableAfter(failed, ip, password, h.got)
    && (l.goOn ==> AllGoOn(password, h.got) && l.authenticated == Authenticated(password, h.got))
  }

  /** The packets are what the turns brought, and the loop goes on as long as it should. */
  ghost predicate Received(link: Link, password: Bytes, stale: seq<Bytes>, turns: seq<Turn>, h: History, l: Loop)
    requires |stale| == |turns| && Buffers(stale)
  {
    var r := Receptions(link, stale, turns, []);
    && h.got == r.packets
    && (if l.goOn then !r.broken && l.wire == r.wire else r.broken || !AllGoOn(password, h.got))
  }

  /** After these turns, with these buffers, the loop has received what the turns brought, has run, sent and
      recorded what the packets call for, and goes on as long as it should. */
  ghost predicate LoopFollows(link: Link, password: Bytes, ip: string, failed: map<string, nat>,
                              stale: seq<Bytes>, turns: seq<Turn>, h: History, l: Loop)
    requires |stale| == |turns| && Buffers(stale)
  {
    HistoryFits(link, password, ip, failed, h, l) && Received(link, password, stale, turns, h, l)
  }

  lemma TurnFits(link: Link, password: Bytes, ip: string, failed: map<string, nat>,
                 h: History, l: Loop, stale: Bytes, turn: Turn)
    requires |stale| == PACKET_SIZE && HistoryFits(link, password, ip, failed, h, l) && l.goOn
    ensures HistoryFits(link, password, ip, failed, HistoryAfter(link, password, l, h, stale, turn),
                 AfterTurn(link, password, ip, l, stale, turn))
  {
    match ServerReceive(link, stale, l.wire + turn.arrival)
    case Broken =>
    case Arrived(full, _) =>
      var p := PacketIn(full);
      NextAsCalledFor(password, h, p, turn);
      NextGoesOn(password, h, p, turn);
      NextStream(link, password, h, p, turn);
      TableGrows(failed, ip, password, h.got, p);
  }

  lemma TurnReceives(link: Link, password: Bytes, ip: string, stale: seq<Bytes>, turns: seq<Turn>,
                     h: History, l: Loop)
    requires |stale| == |turns| > 0 && Buffers(stale) && AsCalledFor(password, h)
    requires l.goOn && AllGoOn(password, h.got) && l.authenticated == Authenticated(password, h.got)
    requires Received(link, password, stale[..|turns| - 1], turns[..|turns| - 1], h, l)
    ensures var n := |turns| - 1;
            Received(link, password, stale, turns, HistoryAfter(link, password, l, h, stale[n], turns[n]),
                     AfterTurn(link, password, ip, l, stale[n], turns[n]))
  {
    var n := |turns| - 1;
    match ServerReceive(link, stale[n], l.wire + turns[n].arrival)
    case Broken =>
    case Arrived(full, _) => NextGoesOn(password, h, PacketIn(full), turns[n]);
  }

  /** The loop after these turns; it stops for good when it stops. */
  function LoopAfter(link: Link, password: Bytes, ip: string, failed: map<string, nat>,
                     stale: seq<Bytes>, turns: seq<Turn>): Loop
    requires |stale| == |turns| && Buffers(stale)
  {
    if turns == [] then Loop(true, false, [], [], failed)
    else
      var n := |turns| - 1;
      var before := LoopAfter(link, password, ip, failed, stale[..n], turns[..n]);
      if before.goOn then AfterTurn(link, password, ip, before, stale[n], turns[n]) else before
  }

  /** The loop went on until the last of these turns. */
  predicate WentOn(link: Link, password: Bytes, ip: string, failed: map<string, nat>,
                   stale: seq<Bytes>, turns: seq<Turn>)
    requires |stale| == |turns| && Buffers(stale)
  {
    turns == [] || LoopAfter(link, password, ip, failed, stale[..|turns| - 1], turns[..|turns| - 1]).goOn
  }

  lemma PrefixesGrow(stale: seq<Bytes>, turns: seq<Turn>, i: nat, buffer: Bytes)
    requires |stale| == i < |turns|
    ensures turns[..i + 1][..i] == turns[..i] && (stale + [buffer])[..i] == stale
  {
  }

  lemma LoopGrows(link: Link, password: Bytes, ip: string, failed: map<string, nat>,
                  stale: seq<Bytes>, turns: seq<Turn>, i: nat, buffer: Bytes)
    requires |stale| == i < |turns| && Buffers(stale) && |buffer| == PACKET_SIZE
    requires LoopAfter(link, password, ip, failed, stale, turns[..i]).goOn
    ensures LoopAfter(link, password, ip, failed, stale + [buffer], turns[..i + 1])
         == AfterTurn(link, password, ip, LoopAfter(link, password, ip, failed, stale, turns[..i]), buffer, turns[i])
    ensures WentOn(link, password, ip, failed, stale + [buffer], turns[..i + 1])
  {
    PrefixesGrow(stale, turns, i, buffer);
  }

  /** Main result on the loop: what it has received, run, sent and recorded is what the packets call for. */
  lemma {:induction false} LoopDoesItsWork(link: Link, password: Bytes, ip: string, failed: map<string, nat>,
                                           stale: seq<Bytes>, turns: seq<Turn>) returns (h: History)
    requires |stale| == |turns| && Buffers(stale) && WentOn(link, password, ip, failed, stale, turns)
    ensures LoopFollows(link, password, ip, failed, stale, turns, h,
                        LoopAfter(link, password, ip, failed, stale, turns))
    decreases turns
  {
    if turns == [] {
      h := History([], [], [], []);
    } else {
      var n := |turns| - 1;
      var before := LoopAfter(link, password, ip, failed, stale[..n], turns[..n]);
      h := LoopDoesItsWork(link, password, ip, failed, stale[..n], turns[..n]);
      TurnFits(link, password, ip, failed, h, before, stale[n], turns[n]);
      TurnReceives(link, password, ip, stale, turns, h, before);
      h := HistoryAfter(link, password, before, h, stale[n], turns[n]);
    }
  }

  lemma OverwriteInside(b: Bytes, at: nat, src: Bytes)
    requires at + |src| <= |b|
    ensures Overwrite(b, at, src)[at..at + |src|] == src
  {
  }

  lemma OverwriteOutside(b: Bytes, at: nat, src: Bytes, lo: nat, hi: nat)
    requires at + |src| <= |b| && lo <= hi <= |b| && (hi <= at || at + |src| <= lo)
    ensures Overwrite(b, at, src)[lo..hi] == b[lo..hi]
  {
  }

  /** The used part of the buffer is the reply when each field is in its place. */
  lemma FieldsMakeFrame(b: Bytes, m: Message)
    requires |b| == PACKET_SIZE
    requires var n := CopyLength(m.body);
             && b[..4] == PackI32(9 + n) && b[4..8] == PackI32(m.id) && b[8..12] == PackI32(m.kind)
             && b[12..12 + n] == (m.body + [0])[..n] && b[12 + n] == 0
    ensures b[..13 + CopyLength(m.body)] == ReplyFrame(m)
  {
  }

  lemma TwoPieces(wire: Bytes, n: nat, k: nat)
    requires n + k <= |wire|
    ensures wire[n..][..k] == wire[n..n + k] && wire[n..][k..] == wire[n + k..]
  {
  }

  // ---------- the server ----------

  class RCONServer {
    const config: M.Config
    const secure: bool
    const crypto: AESCrypto
    var running: bool
    var failedAttempts: map<string, nat>

    /** A started server: in encrypted mode the cipher has its key. */
    ghost predicate Valid()
      reads this, crypto
    {
      crypto.Valid() && (secure ==> crypto.initialized)
    }

    ghost function Way(): Link
      reads crypto
    {
      if secure then Secure(crypto.cipher, crypto.keyBytes) else Plain
    }

    constructor (config: M.Config, secure: bool, crypto: AESCrypto)
      ensures !running && failedAttempts == map[]
      ensures this.config == config && this.secure == secure && this.crypto == crypto
    {
      this.config, this.secure, this.crypto := config, secure, crypto;
      running, failedAttempts := false, map[];
    }

    /** A server starts once, when its socket can be bound and listens, and in encrypted mode only with a key the
        cipher accepts. */
    method Start(hexKey: string, listens: bool) returns (started: bool)
      requires crypto.Valid()
      modifies this`running, crypto
      ensures started <==> !old(running) && listens && (secure ==> |hexKey| == 64)
      ensures running == (old(running) || started)
      ensures started ==> Valid() && Way() == if secure then Secure(crypto.cipher, BytesOfHex(hexKey)) else Plain
      ensures old(running) || !listens ==>
                crypto.initialized == old(crypto.initialized) && crypto.keyBytes == old(crypto.keyBytes)
    {
      if running || !listens {
        return false;
      }
      if secure {
        var ok := crypto.Initialize(hexKey);
        if !ok {
          return false;
        }
      }
      running := true;
      return true;
    }

    /** The counters of failed logins outlive a stop. */
    method Stop()
      requires crypto.Valid()
      modifies this`running, crypto
      ensures !running && crypto.Valid()
      ensures old(running) && secure ==> !crypto.initialized && crypto.keyBytes == []
      ensures !(old(running) && secure) ==>
                crypto.initialized == old(crypto.initialized) && crypto.keyBytes == old(crypto.keyBytes)
    {
      if !running {
        return;
      }
      running := false;
      if secure {
        crypto.Cleanup();
      }
    }

    method IsIPBlocked(ip: string) returns (blocked: bool)
      ensures blocked <==> Blocked(failedAttempts, config.maxFailedAttempts, ip)
    {
      if config.maxFailedAttempts <= 0 {
        return false;
      }
      return ip in failedAttempts && failedAttempts[ip] >= config.maxFailedAttempts;
    }

    method RecordFailedAttempt(ip: string)
      modifies this`failedAttempts
      ensures failedAttempts == Recorded(old(failedAttempts), ip)
    {
      var count := if ip in failedAttempts then failedAttempts[ip] else 0;
      failedAttempts := failedAttempts[ip := count + 1];
    }

    method ResetFailedAttempts(ip: string)
      modifies this`failedAttempts
      ensures failedAttempts == Forgiven(old(failedAttempts), ip)
    {
      failedAttempts := map a | a in failedAttempts && a != ip :: failedAttempts[a];
    }

    /** The listener's two checks of an accepted socket. */
    method Admit(ip: string) returns (admitted: bool)
      ensures admitted <==> AddressAllowed(config.allowedIPs, ip)
                            && !Blocked(failedAttempts, config.maxFailedAttempts, ip)
    {
      var allowed := IsIPAllowed(config.allowedIPs, ip);
      if !allowed {
        return false;
      }
      var blocked := IsIPBlocked(ip);
      return !blocked;
    }

    /** The reply as bytes: a packet buffer, whatever was in it, is filled field by field, and the used part taken. */
    method FillPacket(m: Message) returns (used: Bytes)
      ensures used == ReplyFrame(m)
    {
      var packet := new Byte[PACKET_SIZE];
      PutField(packet, 4, PackI32(m.id));
      PutField(packet, 8, PackI32(m.kind));
      assert packet[4..8] == PackI32(m.id);
      var bodyLen := |m.body| + 1;
      if bodyLen > BODY_SIZE - 1 {
        bodyLen := BODY_SIZE - 1;
      }
      PutField(packet, 12, (m.body + [0])[..bodyLen]);
      PutField(packet, 12 + bodyLen, [0]);
      PutField(packet, 0, PackI32(8 + bodyLen + 1));
      FieldsMakeFrame(packet[..], m);
      used := packet[..4 + 8 + bodyLen + 1];
    }

    /** Writes a field and leaves the rest of the buffer alone. */
    static method PutField(packet: array<Byte>, at: nat, field: Bytes)
      requires packet.Length == PACKET_SIZE && at + |field| <= PACKET_SIZE
      modifies packet
      ensures packet[at..at + |field|] == field
      ensures forall lo, hi | 0 <= lo <= hi <= PACKET_SIZE && (hi <= at || at + |field| <= lo) ::
                packet[lo..hi] == old(packet[lo..hi])
    {
      ghost var before := packet[..];
      Copy(packet, at, field);
      OverwriteInside(before, at, field);
      forall lo, hi | 0 <= lo <= hi <= PACKET_SIZE && (hi <= at || at + |field| <= lo)
        ensures packet[lo..hi] == old(packet[lo..hi])
      {
        OverwriteOutside(before, at, field, lo, hi);
        assert packet[lo..hi] == packet[..][lo..hi] && old(packet[lo..hi]) == before[lo..hi];
      }
    }

    method SendPacket(sock: Socket, m: Message, nonce: Bytes)
      requires Valid() && |nonce| == NONCE_SIZE
      modifies sock`outgoing
      ensures sock.outgoing == old(sock.outgoing) + ReplyBytes(Way(), nonce, m)
    {
      var used := FillPacket(m);
      if secure {
        var encrypted := crypto.Encrypt(used, nonce);
        if encrypted != [] {
          FrameOfSmall(encrypted);
          sock.Send(PackU32(|encrypted|));
          sock.Send(encrypted);
        }
      } else {
        sock.Send(used);
      }
    }

    /** The plain branch: size field, then as many bytes as it says. */
    method ReceivePlainly(sock: Socket, packet: array<Byte>) returns (ok: bool)
      requires packet.Length == PACKET_SIZE
      modifies sock`incoming, packet
      ensures match ReceivePlain(old(packet[..]), old(sock.incoming))
              case Broken => !ok
              case Arrived(buffer, rest) => ok && packet[..] == buffer && sock.incoming == rest
    {
      ghost var wire := sock.incoming;
      var first := sock.Recv(4);
      if |first| == 0 {
        return false;
      }
      assert sock.incoming == wire[|first|..];
      Copy(packet, 0, first);
      var size: int := UnpackI32(packet[..4]);
      if size < 0 || size > BODY_SIZE {
        return false;
      }
      var chunk := sock.Recv(size);
      if |chunk| == 0 {
        return false;
      }
      Copy(packet, 4, chunk);
      TwoPieces(wire, |first|, |chunk|);
      return true;
    }

    /** The encrypted branch up to the decrypted packet. */
    method ReceiveEncrypted(sock: Socket) returns (data: Option<Bytes>)
      modifies sock`incoming
      ensures var wire := old(sock.incoming);
              var n := Min(4, |wire|);
              var size: int := UnpackU32(Overwrite(Zeros(4), 0, wire[..n]));
              var k := Min(size, |wire| - n);
              if n == 0 || size > MAX_ENCRYPTED || k == 0 then data == None
              else data == Some(Overwrite(Zeros(size), 0, wire[n..n + k])) && sock.incoming == wire[n + k..]
    {
      ghost var wire := sock.incoming;
      var first := sock.Recv(4);
      if |first| == 0 {
        return None;
      }
      var sizeField := new Byte[4](_ => 0);
      assert sizeField[..] == Zeros(4);
      Copy(sizeField, 0, first);
      var encryptedSize: int := UnpackU32(sizeField[..]);
      if encryptedSize > 8192 {
        return None;
      }
      var encryptedData := new Byte[encryptedSize](_ => 0);
      assert encryptedData[..] == Zeros(encryptedSize);
      var chunk := sock.Recv(encryptedSize);
      if |chunk| == 0 {
        return None;
      }
      Copy(encryptedData, 0, chunk);
      TwoPieces(wire, |first|, |chunk|);
      return Some(encryptedData[..]);
    }

    /** One packet from the socket into the buffer, or the end of the connection. */
    method ReceivePacket(sock: Socket, packet: array<Byte>) returns (ok: bool)
      requires Valid() && packet.Length == PACKET_SIZE
      modifies sock`incoming, packet
      ensures match ServerReceive(Way(), old(packet[..]), old(sock.incoming))
              case Broken => !ok
              case Arrived(buffer, rest) => ok && packet[..] == buffer && sock.incoming == rest
    {
      if secure {
        var data := ReceiveEncrypted(sock);
        if data == None {
          return false;
        }
        var decrypted := crypto.Decrypt(data.value);
        if |decrypted| < 4 {
          return false;
        }
        var copySize := if |decrypted| < PACKET_SIZE then |decrypted| else PACKET_SIZE;
        Copy(packet, 0, decrypted[..copySize]);
        return true;
      }
      ok := ReceivePlainly(sock, packet);
    }

    /** The body of the packet as a C string. */
    method ReadBody(packet: array<Byte>) returns (s: Bytes)
      requires packet.Length == PACKET_SIZE
      ensures s == CString(packet[12..])
    {
      s := [];
      var i := 12;
      while i < PACKET_SIZE && packet[i] != 0
        invariant 12 <= i <= PACKET_SIZE
        invariant CString(packet[12..]) == s + CString(packet[i..])
      {
        assert packet[i..][1..] == packet[i + 1..];
        s := s + [packet[i]];
        i := i + 1;
      }
    }

    /** The branches of the loop for one packet. */
    method HandlePacket(sock: Socket, ip: string, p: Packet, authenticated: bool, turn: Turn)
      returns (authenticated': bool, goOn: bool)
      requires Valid() && |turn.nonce| == NONCE_SIZE
      modifies sock`outgoing, this`failedAttempts
      ensures var a := Decide(config.password, authenticated, p);
              && goOn == GoesOn(a)
              && authenticated' == (authenticated || a.Accept?)
              && sock.outgoing == old(sock.outgoing) + ReplyOut(Way(), turn.nonce, ReplyTo(p, a, turn.response))
              && failedAttempts == TableNext(old(failedAttempts), ip, a)
    {
      authenticated', goOn := authenticated, true;
      if p.kind == AUTH {
        if p.body == config.password {
          authenticated' := true;
          ResetFailedAttempts(ip);
          SendPacket(sock, Message(p.id, AUTH_RESPONSE, []), turn.nonce);
        } else {
          RecordFailedAttempt(ip);
          SendPacket(sock, Message(-1, AUTH_RESPONSE, []), turn.nonce);
          goOn := false;
        }
      } else if p.kind == EXECCOMMAND {
        if !authenticated {
          goOn := false;
        } else {
          SendPacket(sock, Message(p.id, RESPONSE_VALUE, turn.response), turn.nonce);
        }
      }
    }

    /** One turn of the loop: a fresh packet buffer, whatever its memory held, is filled and acted upon. */
    method TakeTurn(sock: Socket, ip: string, turn: Turn, authenticated: bool)
      returns (authenticated': bool, goOn: bool, ghost stale: Bytes)
      requires Valid() && |turn.nonce| == NONCE_SIZE
      modifies sock, this`failedAttempts
      ensures |stale| == PACKET_SIZE
      ensures var l := Loop(true, authenticated, old(sock.incoming), old(sock.outgoing), old(failedAttempts));
              var l' := AfterTurn(Way(), config.password, ip, l, stale, turn);
              && goOn == l'.goOn && authenticated' == l'.authenticated
              && (goOn ==> sock.incoming == l'.wire) && sock.outgoing == l'.out && failedAttempts == l'.failed
    {
      var packet := new Byte[PACKET_SIZE];
      stale, authenticated', goOn := packet[..], authenticated, false;
      sock.Deliver(turn.arrival);
      var ok := ReceivePacket(sock, packet);
      if ok {
        var body := ReadBody(packet);
        var p := Packet(UnpackI32(packet[4..8]), UnpackI32(packet[8..12]), body);
        assert p == PacketIn(packet[..]);
        authenticated', goOn := HandlePacket(sock, ip, p, authenticated, turn);
      }
    }

    /** The loop of a handler thread on a fresh socket, left alone by the others. Turn by turn something arrives;
        behind the last turn the peer is gone.
        The packets received are those the turns bring, until one ends the connection; the commands run, the replies
        sent and the table of failed logins are what those packets call for. */
    method HandleClient(sock: Socket, ip: string, turns: seq<Turn>)
      returns (ghost h: History, ghost stale: seq<Bytes>)
      requires Valid() && running && sock.incoming == [] && sock.outgoing == []
      requires forall t :: t in turns ==> |t.nonce| == NONCE_SIZE
      modifies sock, this`failedAttempts
      ensures |stale| <= |turns| && Buffers(stale)
      ensures var r := Receptions(Way(), stale, turns[..|stale|], []);
              && h.got == r.packets
              && (r.broken || |stale| == |turns| || !AllGoOn(config.password, h.got))
      ensures AsCalledFor(config.password, h)
      ensures sock.outgoing == ReplyStream(Way(), h.nonces, h.sent)
      ensures failedAttempts == TableAfter(old(failedAttempts), ip, config.password, h.got)
    {
      stale := [];
      var authenticated, goOn, i := false, true, 0;
      ghost var l := Loop(true, false, [], [], failedAttempts);
      while running && goOn && i < |turns|
        invariant i == |stale| <= |turns| && Buffers(stale) && Valid()
        invariant l == LoopAfter(Way(), config.password, ip, old(failedAttempts), stale, turns[..i])
        invariant WentOn(Way(), config.password, ip, old(failedAttempts), stale, turns[..i])
        invariant goOn == l.goOn && authenticated == l.authenticated
        invariant (goOn ==> sock.incoming == l.wire) && sock.outgoing == l.out && failedAttempts == l.failed
        decreases |turns| - i
      {
        ghost var buffer;
        authenticated, goOn, buffer := TakeTurn(sock, ip, turns[i], authenticated);
        LoopGrows(Way(), config.password, ip, old(failedAttempts), stale, turns, i, buffer);
        l := AfterTurn(Way(), config.password, ip, l, buffer, turns[i]);
        stale := stale + [buffer];
        i := i + 1;
      }
      h := LoopDoesItsWork(Way(), config.password, ip, old(failedAttempts), stale, turns[..i]);
    }
  }
}
