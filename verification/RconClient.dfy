/** The Python clients. `scripts/rcon_client.py` is the plain case of `scripts/rcon_secure.py`, so one class stands
    for both. */
module RconClient {
  import opened Basics
  import opened Wire
  import opened SecureWire
  import opened Transport
  import opened Protocol
  import opened Access
  import opened RconServer
  import opened AesKey

  /** A connected socket pair with a handler at the other end. What the client has written and the handler has not
      read is `toServer`; what the handler has sent and the client has not read is `toClient`. */
  class Connection {
    const server: RCONServer
    const far: Socket
    const ip: string
    var open: bool
    var authenticated: bool
    var toServer: Bytes
    var toClient: Bytes

    ghost predicate Valid()
      reads this, far, server, server.crypto
    {
      server.Valid() && server.running && far.incoming == [] && far.outgoing == []
    }

    /** A connection the server has let in. */
    constructor (server: RCONServer, far: Socket, ip: string)
      requires server.Valid() && server.running && far.incoming == [] && far.outgoing == []
      ensures Valid() && open && !authenticated && toServer == [] && toClient == []
      ensures this.server == server && this.far == far && this.ip == ip
    {
      this.server, this.far, this.ip := server, far, ip;
      open, authenticated, toServer, toClient := true, false, [], [];
    }

    /** What is sent behind the end of the handler is lost. */
    method SendAll(data: Bytes)
      modifies this`toServer
      ensures toServer == old(toServer) + if open then data else []
    {
      if open {
        toServer := toServer + data;
      }
    }

    /** The four bytes of a length come in one piece, unless the connection ends before. */
    method RecvHeader() returns (header: Bytes)
      modifies this`toClient
      ensures header == old(toClient)[..Min(4, |old(toClient)|)]
      ensures toClient == old(toClient)[Min(4, |old(toClient)|)..]
    {
      var k := Min(4, |toClient|);
      header, toClient := toClient[..k], toClient[k..];
    }

    /** Anything else comes in pieces of any length; an empty piece means the end of the connection. */
    method Recv(n: nat) returns (chunk: Bytes)
      requires n > 0
      modifies this`toClient
      ensures old(toClient) == chunk + toClient && |chunk| <= n
      ensures chunk == [] ==> old(toClient) == []
    {
      if toClient == [] {
        return [];
      }
      assert 1 <= 1 <= n && 1 <= |toClient|;
      var k: nat :| 1 <= k <= n && k <= |toClient|;
      chunk, toClient := toClient[..k], toClient[k..];
    }

    /** Where the handler is. */
    ghost function Handler(): Loop
      reads this, server
    {
      Loop(open, authenticated, toServer, toClient, server.failedAttempts)
    }

    /** While the client waits, the handler takes a turn on what has arrived, if it is in its loop and something
        has. */
    method Serve(response: Bytes, nonce: Bytes) returns (ghost stale: Bytes)
      requires Valid() && |nonce| == NONCE_SIZE
      modifies this, far, server`failedAttempts
      ensures Valid() && |stale| == PACKET_SIZE
      ensures Handler() ==
              if old(open) && old(toServer) != [] then
                AfterTurn(server.Way(), server.config.password, ip, old(Handler()).(wire := []), stale,
                          Turn(old(toServer), response, nonce))
              else old(Handler())
    {
      if open && toServer != [] {
        far.outgoing := toClient;
        authenticated, open, stale := server.TakeTurn(far, ip, Turn(toServer, response, nonce), authenticated);
        toServer := if open then far.incoming else [];
        toClient := far.outgoing;
        far.incoming, far.outgoing := [], [];
      } else {
        stale := Zeros(PACKET_SIZE);
      }
    }
  }

  /** What the handler hears of a request: its body up to the first zero, or the end of the connection. */
  function Heard(link: Link, p: Packet): Option<Packet> {
    if Fits(link, p.body) then Some(p.(body := CString(p.body))) else None
  }

  /** The handler after a request alone on the wire. */
  function AfterRequest(link: Link, password: Bytes, ip: string, l: Loop, p: Packet, response: Bytes, nonce: Bytes)
    : Loop
  {
    match Heard(link, p)
    case None => l.(goOn := false)
    case Some(q) =>
      var a := Decide(password, l.authenticated, q);
      Loop(GoesOn(a), l.authenticated || a.Accept?, [], ReplyOut(link, nonce, ReplyTo(q, a, response)),
           TableNext(l.failed, ip, a))
  }

  lemma TurnOnRequest(link: Link, password: Bytes, ip: string, l: Loop, stale: Bytes, p: Packet, turn: Turn,
                      nonce: Bytes)
    requires SoundLink(link) && |nonce| == NONCE_SIZE && |stale| == PACKET_SIZE
    requires |p.body| + 11 < 0x8000_0000 && Readable(link, p.body)
    requires l.wire == [] && l.out == [] && turn.arrival == RequestBytes(link, nonce, p)
    ensures turn.arrival != []
    ensures AfterTurn(link, password, ip, l, stale, turn) ==
            AfterRequest(link, password, ip, l, p, turn.response, turn.nonce)
  {
    RequestIsHeard(link, nonce, stale, p);
    assert l.wire + turn.arrival == turn.arrival;
  }

  /** What the client makes of the reply, or of none. */
  lemma ReplyOutArrives(link: Link, nonce: Bytes, reply: Option<Message>)
    requires SoundLink(link) && |nonce| == NONCE_SIZE
    ensures ClientReceive(link, ReplyOut(link, nonce, reply))
         == match reply case None => NoPacket case Some(m) => Got(Seen(m), [])
  {
    match reply
    case None =>
    case Some(m) =>
      ReplyArrives(link, nonce, m, []);
      assert ReplyBytes(link, nonce, m) + [] == ReplyBytes(link, nonce, m);
  }

  // ---------- a whole session ----------

  predicate WorkFits(link: Link, work: seq<(Bytes, Bytes)>) { forall k | 0 <= k < |work| :: Fits(link, work[k].0) }

  /** Commands are answered, with the first 4094 bytes of what the server made of them, until the first that is too
      long. */
  function Answers(link: Link, loggedIn: bool, work: seq<(Bytes, Bytes)>): seq<Option<Bytes>> {
    if work == [] then []
    else
      var n := |work| - 1;
      Answers(link, loggedIn, work[..n])
      + [if loggedIn && WorkFits(link, work) then Some(work[n].1[..Min(|work[n].1|, 4094)]) else None]
  }

  lemma AnswersGrow(link: Link, loggedIn: bool, work: seq<(Bytes, Bytes)>, i: nat)
    requires i < |work|
    ensures WorkFits(link, work[..i + 1]) <==> WorkFits(link, work[..i]) && Fits(link, work[i].0)
    ensures Answers(link, loggedIn, work[..i + 1]) ==
            Answers(link, loggedIn, work[..i])
            + [if loggedIn && WorkFits(link, work[..i + 1]) then Some(work[i].1[..Min(|work[i].1|, 4094)]) else None]
  {
    var next := work[..i + 1];
    assert next[..i] == work[..i] && next[i] == work[i];
    if WorkFits(link, next) {
      assert forall k | 0 <= k < i :: work[..i][k] == next[k];
    }
  }

  /** What that means for each command. */
  lemma {:induction false} AnswersAt(link: Link, loggedIn: bool, work: seq<(Bytes, Bytes)>, k: nat)
    requires k < |work|
    ensures |Answers(link, loggedIn, work)| == |work|
    ensures Answers(link, loggedIn, work)[k] ==
            if loggedIn && forall j | 0 <= j <= k :: Fits(link, work[j].0)
            then Some(work[k].1[..Min(|work[k].1|, 4094)]) else None
    decreases work
  {
    var n := |work| - 1;
    if n > 0 {
      AnswersAt(link, loggedIn, work[..n], if k < n then k else 0);
    }
  }

  /** The lengths of a key that the library takes. */
  const KEY_SIZES := {16, 24, 32}

  class RCONClient {
    const password: Bytes
    const encrypted: bool
    const cipher: Cipher
    const key: Bytes
    const sock: Connection
    var requestId: int

    ghost function Way(): Link { if encrypted then Secure(cipher, key) else Plain }

    ghost predicate Valid()
      reads this
    {
      SoundLink(Way()) && 0 <= requestId < 0x8000_0000
    }

    constructor (sock: Connection, password: Bytes, cipher: Cipher, key: Option<Bytes>)
      requires Sound(cipher)
      ensures Valid() && requestId == 0
      ensures this.sock == sock && this.password == password
      ensures Way() == match key case None => Plain case Some(k) => Secure(cipher, k)
    {
      this.sock, this.password, this.cipher, requestId := sock, password, cipher, 0;
      encrypted := key.Some?;
      this.key := if key.Some? then key.value else [];
    }

    /** A client from the text of a key: plain without one, none at all when the text is no key. */
    static method Create(sock: Connection, password: Bytes, cipher: Cipher, keyText: string)
      returns (client: Option<RCONClient>)
      requires Sound(cipher)
      ensures client.Some? <==> keyText == "" || (FromHex(keyText).Some? && |FromHex(keyText).value| in KEY_SIZES)
      ensures client.Some? ==>
                && fresh(client.value) && client.value.Valid() && client.value.requestId == 0
                && client.value.sock == sock && client.value.password == password
                && client.value.Way() == if keyText == "" then Plain else Secure(cipher, FromHex(keyText).value)
    {
      var bytes := FromHex(keyText);
      if keyText != "" && (bytes == None || |bytes.value| !in KEY_SIZES) {
        return None;
      }
      var made := new RCONClient(sock, password, cipher, if keyText == "" then None else bytes);
      client := Some(made);
    }

    /** The packet, piece by piece. */
    static method BuildRequest(size: Int32, id: Int32, kind: Int32, bodyBytes: Bytes) returns (packet: Bytes)
      ensures packet == PackI32(size) + PackI32(id) + PackI32(kind) + bodyBytes + [0]
    {
      packet := PackI32(size);
      packet := packet + PackI32(id);
      packet := packet + PackI32(kind);
      packet := packet + bodyBytes;
      packet := packet + [0];
    }

    /** Sends a request and counts it; a number that does not fit into 32 bits is refused by the packing. */
    method SendPacket(kind: Int32, body: Bytes, nonce: Bytes) returns (sent: bool)
      requires Valid() && |nonce| == NONCE_SIZE
      modifies this`requestId, sock`toServer
      ensures sent <==> |body| + 11 < 0x8000_0000 && old(requestId) + 1 < 0x8000_0000
      ensures sent ==>
                && Valid() && requestId == old(requestId) + 1
                && sock.toServer ==
                   old(sock.toServer)
                   + if sock.open then RequestBytes(Way(), nonce, Packet(requestId, kind, body)) else []
      ensures !sent ==> sock.toServer == old(sock.toServer)
    {
      requestId := requestId + 1;
      var bodyBytes := body + [0];
      var packetSize := |bodyBytes| + 10;
      if packetSize >= 0x8000_0000 || requestId >= 0x8000_0000 {
        return false;
      }
      var packet := BuildRequest(packetSize, requestId, kind, bodyBytes);
      assert packet == RequestFrame(requestId, kind, body);
      if encrypted {
        OpenedOfSealed(cipher, key, nonce, packet);
        var encryptedPacket := Sealed(cipher, key, nonce, packet);
        FrameOfSmall(encryptedPacket);
        sock.SendAll(PackU32(|encryptedPacket|) + encryptedPacket);
      } else {
        sock.SendAll(packet);
      }
      return true;
    }

    /** Reads until there are `size` bytes, in pieces as they come; nothing if the connection ends before. */
    method ReadFully(size: int) returns (data: Option<Bytes>)
      modifies sock`toClient
      ensures var stream, n := old(sock.toClient), if size < 0 then 0 else size;
              if |stream| < n then data == None
              else data == Some(stream[..n]) && sock.toClient == stream[n..]
    {
      ghost var stream := sock.toClient;
      var read := [];
      while |read| < size
        invariant stream == read + sock.toClient
        invariant |read| <= if size < 0 then 0 else size
        decreases size - |read|
      {
        var chunk := sock.Recv(size - |read|);
        if chunk == [] {
          return None;
        }
        read := read + chunk;
      }
      return Some(read);
    }

    /** One packet: nothing, an exception of the unpacking, or a message. However the bytes are cut into pieces, it
        is what the stream holds. */
    method ReceivePacket() returns (r: Received)
      modifies sock`toClient
      ensures r == ClientReceive(Way(), old(sock.toClient))
      ensures r.Got? ==> sock.toClient == r.rest
      ensures old(sock.toClient) == [] ==> sock.toClient == []
    {
      ghost var stream := sock.toClient;
      var header := sock.RecvHeader();
      if |header| < 4 {
        return NoPacket;
      }
      var size: int := if encrypted then UnpackU32(header) else UnpackI32(header);
      ghost var end := 4 + (if size < 0 then 0 else size);
      var data := ReadFully(size);
      if data == None {
        return NoPacket;
      }
      assert data.value == stream[4..end];
      var fields := data.value;
      if encrypted {
        var packet := Opened(cipher, key, data.value);
        if packet == None {
          return NoPacket;
        }
        if |packet.value| < 4 {
          return Raised;
        }
        fields := packet.value[4..];
      }
      if |fields| < 8 {
        return Raised;
      }
      var body := if |fields| < 10 then [] else fields[8..|fields| - 2];
      return Got(Message(UnpackI32(fields[..4]), UnpackI32(fields[4..8]), body), sock.toClient);
    }

    /** The client talks to a server with the same key, and nothing is in flight. */
    ghost predicate AtRest()
      reads this, sock, sock.far, sock.server, sock.server.crypto
    {
      && Valid() && sock.Valid() && Way() == sock.server.Way()
      && sock.toServer == [] && sock.toClient == []
    }

    /** The body of a request can be sent and has an end the server finds. */
    ghost predicate Speakable(body: Bytes) { |body| + 11 < 0x8000_0000 && Readable(Way(), body) }

    /** Sends a request and lets the handler take its turn: it hears the body up to its first zero, or gives up the
        connection when it is too long. */
    method Ask(kind: Int32, body: Bytes, response: Bytes, nonces: (Bytes, Bytes))
      requires AtRest() && requestId + 1 < 0x8000_0000 && Speakable(body)
      requires |nonces.0| == NONCE_SIZE && |nonces.1| == NONCE_SIZE
      modifies this`requestId, sock, sock.far, sock.server`failedAttempts
      ensures Valid() && sock.Valid() && requestId == old(requestId) + 1
      ensures sock.Handler() ==
              if old(sock.open) then
                AfterRequest(Way(), sock.server.config.password, sock.ip, old(sock.Handler()),
                             Packet(requestId, kind, body), response, nonces.1)
              else old(sock.Handler())
    {
      ghost var before := sock.Handler();
      var sent := SendPacket(kind, body, nonces.0);
      ghost var p := Packet(requestId, kind, body);
      ghost var turn := Turn(sock.toServer, response, nonces.1);
      ghost var stale := sock.Serve(response, nonces.1);
      if before.goOn {
        TurnOnRequest(Way(), sock.server.config.password, sock.ip, before, stale, p, turn, nonces.0);
      }
    }

    /** A request and its reply: the client gets the reply to what the handler heard, or nothing, and nothing is in
        flight afterwards. */
    method Exchange(kind: Int32, body: Bytes, response: Bytes, nonces: (Bytes, Bytes)) returns (r: Received)
      requires AtRest() && requestId + 1 < 0x8000_0000 && Speakable(body)
      requires |nonces.0| == NONCE_SIZE && |nonces.1| == NONCE_SIZE
      modifies this`requestId, sock, sock.far, sock.server`failedAttempts
      ensures AtRest() && requestId == old(requestId) + 1
      ensures !old(sock.open) ==> r == NoPacket && sock.Handler() == old(sock.Handler())
      ensures old(sock.open) && !Fits(Way(), body) ==>
                r == NoPacket && sock.Handler() == old(sock.Handler()).(goOn := false)
      ensures old(sock.open) && Fits(Way(), body) ==>
                var p := Packet(requestId, kind, CString(body));
                var a := Decide(sock.server.config.password, old(sock.authenticated), p);
                && r == (match ReplyTo(p, a, response) case None => NoPacket case Some(m) => Got(Seen(m), []))
                && sock.open == GoesOn(a) && sock.authenticated == (old(sock.authenticated) || a.Accept?)
                && sock.server.failedAttempts == TableNext(old(sock.server.failedAttempts), sock.ip, a)
    {
      Ask(kind, body, response, nonces);
      ghost var p := Packet(requestId, kind, CString(body));
      ReplyOutArrives(Way(), nonces.1,
                      ReplyTo(p, Decide(sock.server.config.password, old(sock.authenticated), p), response));
      r := ReceivePacket();
    }

    /** Succeeds exactly when the handler is there, the request fits, and what is heard of the password is the
        server's; a wrong one ends the connection. */
    method Authenticate(nonces: (Bytes, Bytes)) returns (ok: bool)
      requires AtRest() && requestId + 1 < 0x8000_0000 && Speakable(password)
      requires |nonces.0| == NONCE_SIZE && |nonces.1| == NONCE_SIZE
      modifies this`requestId, sock, sock.far, sock.server`failedAttempts
      ensures AtRest() && requestId == old(requestId) + 1
      ensures ok <==> old(sock.open) && Fits(Way(), password) && CString(password) == sock.server.config.password
      ensures sock.open == ok && (ok ==> sock.authenticated)
      ensures sock.server.failedAttempts ==
              if !old(sock.open) || !Fits(Way(), password) then old(sock.server.failedAttempts)
              else if ok then Forgiven(old(sock.server.failedAttempts), sock.ip)
              else Recorded(old(sock.server.failedAttempts), sock.ip)
    {
      var response := Exchange(AUTH, password, [], nonces);
      ok := response.Got? && response.message.id != -1;
    }

    /** The first 4094 bytes of what the server made of this very command, or nothing when the handler is gone, nobody
        is logged in, or the request is too long, which ends the connection. */
    method ExecuteCommand(command: Bytes, response: Bytes, nonces: (Bytes, Bytes)) returns (answer: Option<Bytes>)
      requires AtRest() && requestId + 1 < 0x8000_0000 && Speakable(command)
      requires |nonces.0| == NONCE_SIZE && |nonces.1| == NONCE_SIZE
      modifies this`requestId, sock, sock.far, sock.server`failedAttempts
      ensures AtRest() && requestId == old(requestId) + 1
      ensures var heard := old(sock.open && sock.authenticated) && Fits(Way(), command);
              && answer == (if heard then Some(response[..Min(|response|, 4094)]) else None)
              && sock.open == heard
      ensures sock.authenticated == old(sock.authenticated)
      ensures sock.server.failedAttempts == old(sock.server.failedAttempts)
    {
      var r := Exchange(EXECCOMMAND, command, response, nonces);
      answer := if r.Got? then Some(r.message.body) else None;
    }

    /** The login of a session on this connection succeeds. */
    ghost predicate GoodPassword()
      reads sock
    {
      sock.open && Fits(Way(), password) && CString(password) == sock.server.config.password
    }

    /** A whole session: a login, then the commands one after the other; `work` gives each command with what the
        server makes of it. */
    method Converse(work: seq<(Bytes, Bytes)>, nonces: (Bytes, Bytes)) returns (answers: seq<Option<Bytes>>)
      requires AtRest() && requestId + 1 + |work| < 0x8000_0000
      requires Speakable(password) && forall w :: w in work ==> Speakable(w.0)
      requires |nonces.0| == NONCE_SIZE && |nonces.1| == NONCE_SIZE
      modifies this`requestId, sock, sock.far, sock.server`failedAttempts
      ensures AtRest() && answers == Answers(Way(), old(GoodPassword()), work)
    {
      var loggedIn := Authenticate(nonces);
      answers := [];
      for i := 0 to |work|
        invariant AtRest() && requestId == old(requestId) + 1 + i
        invariant sock.open == (loggedIn && WorkFits(Way(), work[..i])) && (loggedIn ==> sock.authenticated)
        invariant answers == Answers(Way(), loggedIn, work[..i])
      {
        AnswersGrow(Way(), loggedIn, work, i);
        var answer := ExecuteCommand(work[i].0, work[i].1, nonces);
        answers := answers + [answer];
      }
      assert work[..|work|] == work;
    }
  }

  // ---------- one key text at both ends ----------

  lemma KeyBytesMatch(cipher: Cipher, keyText: string)
    requires |keyText| == 64
    ensures FromHex(keyText).Some? && Secure(cipher, FromHex(keyText).value) == Secure(cipher, BytesOfHex(keyText)) <==>
            AllHexDigits(keyText)
    ensures AllHexDigits(keyText) ==> |FromHex(keyText).value| in KEY_SIZES
  {
    KeyTextsAgree(keyText);
    BytesOfHexLength(keyText);
  }

  /** A stopped server is started with a key text, and a client is made from the same text and let in. They
      understand each other exactly when the text consists of hexadecimal digits, or when there is none and the
      server does not encrypt. */
  method Connect(server: RCONServer, ip: string, password: Bytes, keyText: string)
    returns (started: bool, client: Option<RCONClient>)
    requires server.crypto.Valid() && !server.running
    modifies server`running, server.crypto
    ensures started <==> (server.secure ==> |keyText| == 64)
    ensures started ==>
              (client.Some? && client.value.AtRest() <==>
               if server.secure then AllHexDigits(keyText) else keyText == "")
    ensures client.Some? ==>
              && started && fresh(client.value) && fresh(client.value.sock) && fresh(client.value.sock.far)
              && client.value.requestId == 0 && client.value.password == password && client.value.sock.open
              && client.value.sock.server == server
    ensures started && server.secure ==> server.Way() == Secure(server.crypto.cipher, BytesOfHex(keyText))
  {
    started := server.Start(keyText, true);
    client := None;
    if started {
      var far := new Socket();
      var sock := new Connection(server, far, ip);
      client := RCONClient.Create(sock, password, server.crypto.cipher, keyText);
      if server.secure {
        KeyBytesMatch(server.crypto.cipher, keyText);
      }
    }
  }

  /** With a generated key a whole session goes through, encrypted with the random bytes themselves. */
  method FirstSession(server: RCONServer, ip: string, password: Bytes, random: Bytes,
                      work: seq<(Bytes, Bytes)>, nonces: (Bytes, Bytes)) returns (answers: seq<Option<Bytes>>)
    requires server.crypto.Valid() && !server.running && server.secure && |random| == 32
    requires 1 + |work| < 0x8000_0000 && |nonces.0| == NONCE_SIZE && |nonces.1| == NONCE_SIZE
    requires var way := Secure(server.crypto.cipher, random);
             Readable(way, password) && |password| + 11 < 0x8000_0000
             && forall w :: w in work ==> Readable(way, w.0) && |w.0| + 11 < 0x8000_0000
    modifies server, server.crypto
    ensures var way := Secure(server.crypto.cipher, random);
            answers == Answers(way, Fits(way, password) && CString(password) == server.config.password, work)
  {
    var keyText := GenerateAESKey(Some(random));
    KeyBytesSurvive(random);
    GeneratedKeyAgrees(random);
    AgreedTextIsDigits(keyText, random);
    var started, client := Connect(server, ip, password, keyText);
    answers := client.value.Converse(work, nonces);
  }
}
