/** One Python client talking to its handler on the server, plain or encrypted, byte by byte: the client asks, the
    handler receives, acts and replies, the client collects. Every sequence of labels is a run; a step that would
    block changes nothing. */
module Session {
  import opened Basics
  import opened Wire
  import opened SecureWire
  import opened Transport
  import opened Protocol

  // ---------- the machine ----------

  /** A client and its handler: what was asked, received, run and collected, and the bytes in flight. */
  datatype State = State(
    asked: seq<Packet>,               // the requests sent, in order
    waiting: bool,                    // the client is in `receive_packet`
    collected: seq<Option<Message>>,  // what `receive_packet` returned, in order
    toServer: Bytes,
    toClient: Bytes,
    open: bool,                       // the handler is in its loop
    authenticated: bool,
    got: seq<Packet>,                 // the packets the handler received, in order
    responses: seq<Bytes>)            // for each of them what its command returned, if it was run

  datatype Label =
    | Ask(kind: Int32, body: Bytes, nonce: Bytes)            // `send_packet`
    | Serve(stale: Bytes, response: Bytes, nonce: Bytes)     // one turn of the handler's loop
    | Collect                                                // `receive_packet` returns

  const FIRST := State([], false, [], [], [], true, false, [], [])

  /** The client asks only when it is not waiting, in AUTH and EXECCOMMAND packets, with bodies that fit. */
  function AskStep(link: Link, s: State, kind: Int32, body: Bytes, nonce: Bytes): State {
    if !s.waiting && (kind == AUTH || kind == EXECCOMMAND) && Sendable(link, body) && |nonce| == NONCE_SIZE
       && |s.asked| + 1 < 0x8000_0000 then
      var p := Packet(|s.asked| + 1, kind, body);
      s.(asked := s.asked + [p], waiting := true,
         toServer := if s.open then s.toServer + RequestBytes(link, nonce, p) else s.toServer)
    else s
  }

  /** The handler receives a packet, acts on it and replies. */
  function ServeStep(link: Link, password: Bytes, s: State, stale: Bytes, response: Bytes, nonce: Bytes): State {
    if s.open && s.toServer != [] && |stale| == PACKET_SIZE && |nonce| == NONCE_SIZE then
      match ServerReceive(link, stale, s.toServer)
      case Broken => s.(open := false, toServer := [])
      case Arrived(buffer, rest) => Served(link, password, s.(toServer := rest), PacketIn(buffer), response, nonce)
    else s
  }

  function Served(link: Link, password: Bytes, s: State, p: Packet, response: Bytes, nonce: Bytes): State {
    var a := Decide(password, s.authenticated, p);
    s.(got := s.got + [p], responses := s.responses + [response],
       open := GoesOn(a), authenticated := s.authenticated || a.Accept?,
       toClient := match ReplyTo(p, a, response)
                   case None => s.toClient
                   case Some(m) => s.toClient + ReplyBytes(link, nonce, m))
  }

  /** The client gets its reply, or nothing when the connection has ended; otherwise it goes on waiting. */
  function CollectStep(link: Link, s: State): State {
    if !s.waiting then s
    else
      match ClientReceive(link, s.toClient)
      case Got(m, rest) => s.(waiting := false, collected := s.collected + [Some(m)], toClient := rest)
      case Raised => s.(waiting := false, collected := s.collected + [None])
      case NoPacket => if s.open then s else s.(waiting := false, collected := s.collected + [None])
  }

  function Step(link: Link, password: Bytes, s: State, l: Label): State {
    match l
    case Ask(kind, body, nonce) => AskStep(link, s, kind, body, nonce)
    case Serve(stale, response, nonce) => ServeStep(link, password, s, stale, response, nonce)
    case Collect => CollectStep(link, s)
  }

  function Run(link: Link, password: Bytes, labels: seq<Label>): State {
    if labels == [] then FIRST
    else Step(link, password, Run(link, password, labels[..|labels| - 1]), labels[|labels| - 1])
  }

  // ---------- lock step ----------

  /** What the client ought to collect for its question `k`: the reply to it, as far as it is seen, while the
      connection goes on, and nothing once it has ended. */
  function Expected(password: Bytes, asked: seq<Packet>, responses: seq<Bytes>, k: nat): Option<Message>
    requires k < |asked|
  {
    if AllGoOn(password, asked[..k]) then
      match ReplyTo(asked[k], ActionAt(password, asked, k), if k < |responses| then responses[k] else [])
      case None => None
      case Some(m) => Some(Seen(m))
    else None
  }

  ghost predicate IsRequest(link: Link, p: Packet, wire: Bytes) {
    |p.body| <= 4095 && exists nonce :: |nonce| == NONCE_SIZE && wire == RequestBytes(link, nonce, p)
  }

  ghost predicate IsReply(link: Link, m: Message, wire: Bytes) {
    exists nonce :: |nonce| == NONCE_SIZE && wire == ReplyBytes(link, nonce, m)
  }

  predicate GoodAsk(link: Link, p: Packet, k: nat) {
    p.id == k + 1 && (p.kind == AUTH || p.kind == EXECCOMMAND) && Sendable(link, p.body)
  }

  /** The handler's side: it has received the first questions, and is in its loop exactly while none of them ended
      the connection. */
  predicate HandlerFollows(password: Bytes, s: State) {
    && |s.got| == |s.responses| <= |s.asked| && s.got == s.asked[..|s.got|]
    && (s.open ==> AllGoOn(password, s.got) && s.authenticated == Authenticated(password, s.got))
    && (!s.open ==> !AllGoOn(password, s.got))
    && (forall k | 0 <= k < |s.got| - 1 :: GoesOn(ActionAt(password, s.got, k)))
  }

  /** The client's side: what it has collected is what it ought to have. */
  predicate ClientFollows(link: Link, password: Bytes, s: State) {
    && |s.asked| == |s.collected| + (if s.waiting then 1 else 0)
    && (forall k | 0 <= k < |s.asked| :: GoodAsk(link, s.asked[k], k))
    && (forall k | 0 <= k < |s.collected| :: s.collected[k] == Expected(password, s.asked, s.responses, k))
  }

  /** Nobody waits for anything. */
  predicate AtRest(s: State) {
    !s.waiting && s.toServer == [] && s.toClient == [] && (s.open ==> |s.got| == |s.asked|)
  }

  /** The last question is in flight. */
  ghost predicate Asking(link: Link, s: State) {
    && s.waiting && s.open && |s.asked| == |s.got| + 1 && s.toClient == []
    && IsRequest(link, s.asked[|s.got|], s.toServer)
  }

  /** The reply to the last question is in flight. */
  ghost predicate Answering(link: Link, password: Bytes, s: State) {
    && s.waiting && s.asked != [] && |s.got| == |s.asked| && s.toServer == []
    && exists m :: IsReply(link, m, s.toClient)
                   && Expected(password, s.asked, s.responses, |s.asked| - 1) == Some(Seen(m))
  }

  /** The client waits for a reply that will never come. */
  predicate Hopeless(password: Bytes, s: State) {
    && s.waiting && s.asked != [] && !s.open && s.toServer == [] && s.toClient == []
    && Expected(password, s.asked, s.responses, |s.asked| - 1) == None
  }

  /** At most one frame is in flight, and it is the one the two sides are about. */
  ghost predicate LockStep(link: Link, password: Bytes, s: State) {
    AtRest(s) || Asking(link, s) || Answering(link, password, s) || Hopeless(password, s)
  }

  ghost predicate Follows(link: Link, password: Bytes, s: State) {
    HandlerFollows(password, s) && ClientFollows(link, password, s) && LockStep(link, password, s)
  }

  // ---------- the three kinds of step ----------

  /** A further question, or a further response, changes nothing about the earlier ones. */
  lemma ExpectedStays(password: Bytes, asked: seq<Packet>, p: Packet, responses: seq<Bytes>, response: Bytes, k: nat)
    requires k < |asked|
    ensures Expected(password, asked + [p], responses, k) == Expected(password, asked, responses, k)
    ensures k < |responses| ==>
              Expected(password, asked, responses + [response], k) == Expected(password, asked, responses, k)
  {
    assert (asked + [p])[..k] == asked[..k];
  }

  /** Nothing is expected behind the end of the connection. */
  lemma NothingBehindEnd(password: Bytes, asked: seq<Packet>, n: nat, responses: seq<Bytes>, k: nat)
    requires n <= k < |asked| && !AllGoOn(password, asked[..n])
    ensures Expected(password, asked, responses, k) == None
  {
    assert asked[..k][..n] == asked[..n];
    PrefixGoesOn(password, asked[..k], n);
  }

  lemma AskFollows(link: Link, password: Bytes, s: State, kind: Int32, body: Bytes, nonce: Bytes)
    requires Follows(link, password, s)
    ensures Follows(link, password, AskStep(link, s, kind, body, nonce))
  {
    var t := AskStep(link, s, kind, body, nonce);
    if t != s {
      var p := t.asked[|s.asked|];
      assert t.asked[..|t.got|] == s.asked[..|s.got|];
      forall k | 0 <= k < |s.collected|
        ensures t.collected[k] == Expected(password, t.asked, t.responses, k)
      {
        ExpectedStays(password, s.asked, p, s.responses, [], k);
      }
      if s.open {
        assert t.toServer == RequestBytes(link, nonce, p);
        assert Asking(link, t);
      } else {
        NothingBehindEnd(password, t.asked, |s.got|, t.responses, |s.asked|);
        assert Hopeless(password, t);
      }
    }
  }

  lemma AnswerArrives(link: Link, password: Bytes, s: State)
    requires SoundLink(link) && Answering(link, password, s)
    ensures Expected(password, s.asked, s.responses, |s.asked| - 1).Some?
    ensures ClientReceive(link, s.toClient)
         == Got(Expected(password, s.asked, s.responses, |s.asked| - 1).value, [])
  {
    var m :| IsReply(link, m, s.toClient)
             && Expected(password, s.asked, s.responses, |s.asked| - 1) == Some(Seen(m));
    var nonce :| |nonce| == NONCE_SIZE && s.toClient == ReplyBytes(link, nonce, m);
    ReplyArrives(link, nonce, m, []);
    assert s.toClient + [] == s.toClient;
  }

  /** The client is done with its last question. */
  lemma CollectedFollows(link: Link, password: Bytes, s: State)
    requires HandlerFollows(password, s) && ClientFollows(link, password, s) && s.waiting && s.toServer == []
    requires s.open ==> |s.got| == |s.asked|
    ensures var answer := Expected(password, s.asked, s.responses, |s.asked| - 1);
            Follows(link, password, s.(waiting := false, collected := s.collected + [answer], toClient := []))
  {
  }

  lemma CollectFollows(link: Link, password: Bytes, s: State)
    requires SoundLink(link) && Follows(link, password, s)
    ensures Follows(link, password, CollectStep(link, s))
  {
    if Answering(link, password, s) {
      AnswerArrives(link, password, s);
      CollectedFollows(link, password, s);
    } else if Hopeless(password, s) {
      CollectedFollows(link, password, s);
    } else if s.waiting {
      assert ClientReceive(link, []) == NoPacket;
    }
  }

  /** The handler gets the question that is in flight. */
  lemma QuestionArrives(link: Link, s: State, stale: Bytes)
    requires SoundLink(link) && Asking(link, s) && |stale| == PACKET_SIZE
    requires Sendable(link, s.asked[|s.got|].body)
    ensures var a := ServerReceive(link, stale, s.toServer);
            a.Arrived? && a.rest == [] && PacketIn(a.buffer) == s.asked[|s.got|]
  {
    var p := s.asked[|s.got|];
    var nonce :| |nonce| == NONCE_SIZE && s.toServer == RequestBytes(link, nonce, p);
    RequestArrives(link, nonce, stale, p);
  }

  lemma HandlerServes(link: Link, password: Bytes, s: State, p: Packet, response: Bytes, nonce: Bytes)
    requires HandlerFollows(password, s) && s.open && |s.asked| == |s.got| + 1 && p == s.asked[|s.got|]
    ensures HandlerFollows(password, Served(link, password, s, p, response, nonce))
  {
    assert s.got + [p] == s.asked;
    ActionOfPrefix(password, s.got, p);
    AuthenticatedStep(password, s.got, p);
  }

  /** What is expected for the question just received. */
  lemma ExpectedNow(password: Bytes, s: State, p: Packet, response: Bytes)
    requires HandlerFollows(password, s) && s.open && |s.asked| == |s.got| + 1 && p == s.asked[|s.got|]
    ensures Expected(password, s.asked, s.responses + [response], |s.got|)
         == match ReplyTo(p, Decide(password, s.authenticated, p), response)
            case None => None
            case Some(m) => Some(Seen(m))
  {
  }

  lemma ServedIsExpected(link: Link, password: Bytes, s: State, p: Packet, response: Bytes, nonce: Bytes)
    requires HandlerFollows(password, s) && s.open && s.waiting && |s.asked| == |s.got| + 1 && p == s.asked[|s.got|]
    requires p.kind == AUTH || p.kind == EXECCOMMAND
    requires s.toServer == [] && s.toClient == [] && |nonce| == NONCE_SIZE
    ensures LockStep(link, password, Served(link, password, s, p, response, nonce))
  {
    ExpectedNow(password, s, p, response);
    var t := Served(link, password, s, p, response, nonce);
    var a := Decide(password, s.authenticated, p);
    match ReplyTo(p, a, response)
    case None =>
      assert a.Refuse?;
      assert Hopeless(password, t);
    case Some(m) =>
      assert t.toClient == ReplyBytes(link, nonce, m);
      assert IsReply(link, m, t.toClient);
      assert Answering(link, password, t);
  }

  lemma ServedClientFollows(link: Link, password: Bytes, s: State, p: Packet, response: Bytes, nonce: Bytes)
    requires ClientFollows(link, password, s) && |s.collected| <= |s.responses|
    ensures ClientFollows(link, password, Served(link, password, s, p, response, nonce))
  {
    forall k | 0 <= k < |s.collected|
      ensures s.collected[k] == Expected(password, s.asked, s.responses + [response], k)
    {
      ExpectedStays(password, s.asked, p, s.responses, response, k);
    }
  }

  lemma ServedFollows(link: Link, password: Bytes, s: State, response: Bytes, nonce: Bytes)
    requires HandlerFollows(password, s) && ClientFollows(link, password, s)
    requires s.open && s.waiting && |s.asked| == |s.got| + 1 && s.toServer == [] && s.toClient == []
    requires |nonce| == NONCE_SIZE
    ensures Follows(link, password, Served(link, password, s, s.asked[|s.got|], response, nonce))
  {
    var p := s.asked[|s.got|];
    assert GoodAsk(link, p, |s.got|);
    HandlerServes(link, password, s, p, response, nonce);
    ServedIsExpected(link, password, s, p, response, nonce);
    ServedClientFollows(link, password, s, p, response, nonce);
  }

  lemma ServeFollows(link: Link, password: Bytes, s: State, stale: Bytes, response: Bytes, nonce: Bytes)
    requires SoundLink(link) && Follows(link, password, s)
    ensures Follows(link, password, ServeStep(link, password, s, stale, response, nonce))
  {
    if s.open && s.toServer != [] && |stale| == PACKET_SIZE && |nonce| == NONCE_SIZE {
      assert Asking(link, s);
      assert GoodAsk(link, s.asked[|s.got|], |s.got|);
      QuestionArrives(link, s, stale);
      ServedFollows(link, password, s.(toServer := []), response, nonce);
    }
  }

  /** Main result: in every run, plain or encrypted, at most one frame is in flight, the handler has received exactly
      the questions in the order they were asked, and the client has collected for each of them exactly what it
      ought to. */
  lemma {:induction false} SessionsFollow(link: Link, password: Bytes, labels: seq<Label>)
    requires SoundLink(link)
    ensures Follows(link, password, Run(link, password, labels))
  {
    if labels == [] {
      assert AtRest(FIRST);
    } else {
      var s := Run(link, password, labels[..|labels| - 1]);
      SessionsFollow(link, password, labels[..|labels| - 1]);
      match labels[|labels| - 1]
      case Ask(kind, body, nonce) => AskFollows(link, password, s, kind, body, nonce);
      case Serve(stale, response, nonce) => ServeFollows(link, password, s, stale, response, nonce);
      case Collect => CollectFollows(link, password, s);
    }
  }

  // ---------- what a user of the client gets ----------

  /** What `authenticate` returns. */
  predicate LoggedIn(answer: Option<Message>) { answer.Some? && answer.value.id != -1 }

  /** First a login, then commands. */
  predicate LoginThenCommands(asked: seq<Packet>, password: Bytes) {
    && (asked != [] ==> asked[0].kind == AUTH && asked[0].body == password)
    && forall k | 0 < k < |asked| :: asked[k].kind == EXECCOMMAND
  }

  lemma {:induction false} StaysLoggedIn(asked: seq<Packet>, password: Bytes, k: nat)
    requires LoginThenCommands(asked, password) && k <= |asked|
    ensures AllGoOn(password, asked[..k]) && (k > 0 ==> Authenticated(password, asked[..k]))
    decreases k
  {
    if k > 0 {
      StaysLoggedIn(asked, password, k - 1);
      assert asked[..k] == asked[..k - 1] + [asked[k - 1]];
      AuthenticatedStep(password, asked[..k - 1], asked[k - 1]);
    }
  }

  /** Main result: with the right password `authenticate` succeeds, and every command returns the first 4094 bytes
      of what the server made of exactly that command. */
  lemma CommandsAreAnswered(link: Link, password: Bytes, labels: seq<Label>, k: nat)
    requires SoundLink(link)
    requires var s := Run(link, password, labels);
             LoginThenCommands(s.asked, password) && k < |s.collected|
    ensures var s := Run(link, password, labels);
            && |s.collected| <= |s.got| == |s.responses| <= |s.asked| && s.got[k] == s.asked[k]
            && (k == 0 ==> LoggedIn(s.collected[0]))
            && (k > 0 ==>
                  && s.collected[k].Some?
                  && s.collected[k].value.id == k + 1
                  && s.collected[k].value.body == s.responses[k][..Min(|s.responses[k]|, 4094)])
  {
    SessionsFollow(link, password, labels);
    var s := Run(link, password, labels);
    StaysLoggedIn(s.asked, password, k);
    StaysLoggedIn(s.asked, password, |s.got|);
    assert GoodAsk(link, s.asked[k], k);
  }

  /** Main result: when the first question is a login with a wrong password, `authenticate` fails, and no later
      question is answered or even received. */
  lemma WrongPasswordEnds(link: Link, password: Bytes, labels: seq<Label>, k: nat)
    requires SoundLink(link)
    requires var s := Run(link, password, labels);
             k < |s.collected| && s.asked != [] && s.asked[0].kind == AUTH && s.asked[0].body != password
    ensures var s := Run(link, password, labels);
            && !LoggedIn(s.collected[0]) && |s.got| <= 1 && (k > 0 ==> s.collected[k] == None)
  {
    SessionsFollow(link, password, labels);
    var s := Run(link, password, labels);
    var first := s.asked[..1];
    assert ActionAt(password, first, 0).Reject?;
    assert ActionAt(password, s.asked, 0).Reject?;
    assert s.got != [] ==> s.got[0] == s.asked[0];
    assert s.got != [] ==> ActionAt(password, s.got, 0).Reject?;
    if k > 0 {
      NothingBehindEnd(password, s.asked, 1, s.responses, k);
    }
  }
}
