/** The RCON server as a state machine: one listener thread, any number of handler threads, a shared table of
    failed logins under a mutex. Every label is one step of one thread; every sequence of labels is a run, so a
    statement about all sequences is one about all interleavings. A step that is not possible changes nothing. */
module ServerMachine {
  import opened Basics
  import opened Wire
  import opened Access
  import opened Protocol

  datatype Config = Config(password: Bytes, allowedIPs: string, maxFailedAttempts: int)

  /** Where a handler thread is. */
  datatype Pc =
    | Looping                          // at the top of its loop, about to look whether the server is running
    | Waiting                          // in the receive
    | Holding(p: Packet)               // a packet has been received
    | Replying(m: Message, last: bool) // a reply is to be sent; after the last one the loop is left
    | Closing                          // out of the loop, socket still open
    | Erasing                          // socket closed, still listed among the clients
    | Done

  /** A connection: what it has received, run and sent, and whether a failed login was recorded for it. */
  datatype Conn = Conn(ip: string, pc: Pc, authenticated: bool, failed: bool,
                       got: seq<Packet>, ran: seq<Execution>, sent: seq<Message>)

  /** Where the listener thread is: at the top of its loop, behind its test of the running flag, or with the
      connection it just accepted. */
  datatype Listener = Idle | Listening | Accepted(ip: string) | Allowed(ip: string) | Passed(ip: string)

  /** What happens under the mutex of the failure table. */
  datatype MutexOp = Failure(conn: nat, ip: string) | Success(conn: nat, ip: string)

  datatype State = State(running: bool, listener: Listener, conns: seq<Conn>, failed: map<string, nat>,
                         log: seq<MutexOp>)

  datatype Label =
    | Listen                         // the listener sees that the server is running
    | Nothing                        // nobody connects for a second
    | Connect(ip: string)            // accept returns a socket
    | CheckAllowed                   // the whitelist
    | CheckBlocked                   // the failure table, under its mutex
    | Register                       // listed among the clients, handler started
    | Test(c: nat)                   // the handler looks whether the server is running
    | Receive(c: nat, p: Packet)     // a packet arrives
    | Hangup(c: nat)                 // the receive fails, or the packet is malformed
    | Act(c: nat, response: Bytes)   // the handler deals with its packet; a command returns `response`
    | Send(c: nat)
    | Close(c: nat)
    | Erase(c: nat)
    | Stop                           // clears the running flag; threads notice when they look at it

  const INITIAL := State(true, Idle, [], map[], [])

  // ---------- steps ----------

  /** The position of the packet received last. */
  function Newest(got: seq<Packet>): nat { if got == [] then 0 else |got| - 1 }

  function NewConn(ip: string): Conn { Conn(ip, Looping, false, false, [], [], []) }

  function At(s: State, c: nat, x: Conn): State
    requires c < |s.conns|
  {
    s.(conns := s.conns[c := x])
  }

  /** A handler deals with the packet it holds. Recording a failure and forgiving failures happen under the
      mutex; everything else is local to the thread. */
  function ActStep(cfg: Config, s: State, c: nat, response: Bytes): State
    requires c < |s.conns| && s.conns[c].pc.Holding?
  {
    var x := s.conns[c];
    var p := x.pc.p;
    match Decide(cfg.password, x.authenticated, p)
    case Accept =>
      At(s, c, x.(authenticated := true, pc := Replying(Message(p.id, AUTH_RESPONSE, []), false)))
      .(failed := Forgiven(s.failed, x.ip), log := s.log + [Success(c, x.ip)])
    case Reject =>
      At(s, c, x.(failed := true, pc := Replying(Message(-1, AUTH_RESPONSE, []), true)))
      .(failed := Recorded(s.failed, x.ip), log := s.log + [Failure(c, x.ip)])
    case Execute(command) =>
      At(s, c, x.(ran := x.ran + [Execution(Newest(x.got), command, response)],
                  pc := Replying(Message(p.id, RESPONSE_VALUE, response), false)))
    case Refuse => At(s, c, x.(pc := Closing))
    case Ignore => At(s, c, x.(pc := Looping))
  }

  /** The steps of handler `c`. */
  function HandlerStep(cfg: Config, s: State, l: Label, c: nat): State
    requires c < |s.conns|
  {
    var x := s.conns[c];
    match l
    case Test(_) => if x.pc.Looping? then At(s, c, x.(pc := if s.running then Waiting else Closing)) else s
    case Receive(_, p) => if x.pc.Waiting? then At(s, c, x.(pc := Holding(p), got := x.got + [p])) else s
    case Hangup(_) => if x.pc.Waiting? then At(s, c, x.(pc := Closing)) else s
    case Act(_, response) => if x.pc.Holding? then ActStep(cfg, s, c, response) else s
    case Send(_) =>
      if x.pc.Replying? then
        At(s, c, x.(sent := x.sent + [x.pc.m], pc := if x.pc.last then Closing else Looping))
      else s
    case Close(_) => if x.pc.Closing? then At(s, c, x.(pc := Erasing)) else s
    case Erase(_) => if x.pc.Erasing? then At(s, c, x.(pc := Done)) else s
    case _ => s
  }

  /** The steps of the listener. */
  function ListenerStep(cfg: Config, s: State, l: Label): State {
    match l
    case Listen => if s.listener.Idle? && s.running then s.(listener := Listening) else s
    case Nothing => if s.listener.Listening? then s.(listener := Idle) else s
    case Connect(ip) => if s.listener.Listening? then s.(listener := Accepted(ip)) else s
    case CheckAllowed =>
      if s.listener.Accepted? then
        s.(listener := if AddressAllowed(cfg.allowedIPs, s.listener.ip) then Allowed(s.listener.ip) else Idle)
      else s
    case CheckBlocked =>
      if s.listener.Allowed? then
        s.(listener := if Blocked(s.failed, cfg.maxFailedAttempts, s.listener.ip) then Idle else Passed(s.listener.ip))
      else s
    case Register =>
      if s.listener.Passed? then s.(conns := s.conns + [NewConn(s.listener.ip)], listener := Idle) else s
    case _ => s
  }

  /** The handler a label belongs to. */
  function HandlerOf(l: Label): Option<nat> {
    match l
    case Test(c) => Some(c)
    case Receive(c, _) => Some(c)
    case Hangup(c) => Some(c)
    case Act(c, _) => Some(c)
    case Send(c) => Some(c)
    case Close(c) => Some(c)
    case Erase(c) => Some(c)
    case _ => None
  }

  function Step(cfg: Config, s: State, l: Label): State {
    match HandlerOf(l)
    case Some(c) => if c < |s.conns| then HandlerStep(cfg, s, l, c) else s
    case None => if l.Stop? then s.(running := false) else ListenerStep(cfg, s, l)
  }

  /** The state after a sequence of steps from `s`. */
  function After(cfg: Config, s: State, labels: seq<Label>): State {
    if labels == [] then s
    else Step(cfg, After(cfg, s, labels[..|labels| - 1]), labels[|labels| - 1])
  }

  /** The state after a run of the server. */
  function Run(cfg: Config, labels: seq<Label>): State { After(cfg, INITIAL, labels) }

  lemma {:induction false} AfterAppends(cfg: Config, s: State, a: seq<Label>, b: seq<Label>)
    ensures After(cfg, s, a + b) == After(cfg, After(cfg, s, a), b)
    decreases b
  {
    if b == [] {
      assert a + b == a;
    } else {
      AfterAppends(cfg, s, a, b[..|b| - 1]);
      assert (a + b)[..|a + b| - 1] == a + b[..|b| - 1];
    }
  }

  // ---------- every connection on its own ----------

  /** Between two packets. */
  predicate GoesOnWell(password: Bytes, x: Conn) {
    && AllGoOn(password, x.got) && !x.failed
    && x.authenticated == Authenticated(password, x.got)
    && RanAsAsked(password, x.got, x.ran) && x.sent == Replies(password, x.got, x.ran)
  }

  /** What a connection has done is what its own packets call for, at each point of its handler, whatever the
      other threads do meanwhile. */
  predicate ConnFollows(password: Bytes, x: Conn) {
    match x.pc
    case Looping => GoesOnWell(password, x)
    case Waiting => GoesOnWell(password, x)
    case Holding(p) =>
      x.got != [] &&
      var before := x.got[..|x.got| - 1];
      && x.got[|x.got| - 1] == p
      && AllGoOn(password, before) && !x.failed
      && x.authenticated == Authenticated(password, before)
      && RanAsAsked(password, before, x.ran) && x.sent == Replies(password, before, x.ran)
    case Replying(m, last) =>
      && x.got != [] && AllGoOn(password, x.got[..|x.got| - 1])
      && last == !AllGoOn(password, x.got) && x.failed == last
      && (!last ==> x.authenticated == Authenticated(password, x.got))
      && (last ==> m.id == -1)
      && RanAsAsked(password, x.got, x.ran) && x.sent + [m] == Replies(password, x.got, x.ran)
    case _ =>
      && (x.got == [] || AllGoOn(password, x.got[..|x.got| - 1]))
      && (AllGoOn(password, x.got) ==> !x.failed)
      && RanAsAsked(password, x.got, x.ran) && x.sent == Replies(password, x.got, x.ran)
  }

  predicate AllFollow(cfg: Config, s: State) {
    forall c | 0 <= c < |s.conns| :: ConnFollows(cfg.password, s.conns[c])
  }

  lemma ReceiveFollows(password: Bytes, x: Conn, p: Packet)
    requires ConnFollows(password, x) && x.pc.Waiting?
    ensures ConnFollows(password, x.(pc := Holding(p), got := x.got + [p]))
  {
  }

  lemma HangupFollows(password: Bytes, x: Conn)
    requires ConnFollows(password, x) && (x.pc.Looping? || x.pc.Waiting?)
    ensures ConnFollows(password, x.(pc := Closing))
  {
    var y := x.(pc := Closing);
    assert y.got == x.got && y.ran == x.ran && y.sent == x.sent && y.failed == x.failed;
    if x.got != [] {
      PrefixGoesOn(password, x.got, |x.got| - 1);
    }
  }

  /** Dealing with a packet without running a command. */
  lemma ActFollows(password: Bytes, x: Conn, y: Conn)
    requires ConnFollows(password, x) && x.pc.Holding?
    requires y == (match Decide(password, x.authenticated, x.pc.p)
                   case Accept =>
                     x.(authenticated := true, pc := Replying(Message(x.pc.p.id, AUTH_RESPONSE, []), false))
                   case Reject => x.(failed := true, pc := Replying(Message(-1, AUTH_RESPONSE, []), true))
                   case Execute(_) => y
                   case Refuse => x.(pc := Closing)
                   case Ignore => x.(pc := Looping))
    requires !Decide(password, x.authenticated, x.pc.p).Execute?
    ensures ConnFollows(password, y)
  {
    var before, p := x.got[..|x.got| - 1], x.pc.p;
    assert before + [p] == x.got;
    AuthenticatedStep(password, before, p);
    ExecutedStep(password, before, p);
    RepliesStep(password, before, x.ran, p);
    StillAsAsked(password, before, p, x.ran);
  }

  /** Running a command. */
  lemma ExecuteFollows(password: Bytes, x: Conn, response: Bytes)
    requires ConnFollows(password, x) && x.pc.Holding?
    requires Decide(password, x.authenticated, x.pc.p).Execute?
    ensures ConnFollows(password, x.(ran := x.ran + [Execution(Newest(x.got), x.pc.p.body, response)],
                                     pc := Replying(Message(x.pc.p.id, RESPONSE_VALUE, response), false)))
  {
    var before, p := x.got[..|x.got| - 1], x.pc.p;
    var run := Execution(|before|, p.body, response);
    assert before + [p] == x.got;
    AuthenticatedStep(password, before, p);
    OneMoreAsAsked(password, before, p, x.ran, response);
    RepliesExecuted(password, before, x.ran, p, run);
  }

  /** A handler leaves the listener and the other connections alone. */
  lemma HandlerIsLocal(cfg: Config, s: State, l: Label, c: nat)
    requires c < |s.conns|
    ensures var t := HandlerStep(cfg, s, l, c);
            t.listener == s.listener && |t.conns| == |s.conns| && t.conns == s.conns[c := t.conns[c]]
  {
  }

  lemma ActStepFollows(cfg: Config, s: State, c: nat, response: Bytes)
    requires c < |s.conns| && s.conns[c].pc.Holding? && ConnFollows(cfg.password, s.conns[c])
    ensures var t := ActStep(cfg, s, c, response);
            |t.conns| == |s.conns| && ConnFollows(cfg.password, t.conns[c])
  {
    var x := s.conns[c];
    if Decide(cfg.password, x.authenticated, x.pc.p).Execute? {
      ExecuteFollows(cfg.password, x, response);
    } else {
      ActFollows(cfg.password, x, ActStep(cfg, s, c, response).conns[c]);
    }
  }

  lemma HandlerStepFollows(cfg: Config, s: State, l: Label, c: nat)
    requires c < |s.conns| && ConnFollows(cfg.password, s.conns[c])
    ensures var t := HandlerStep(cfg, s, l, c);
            |t.conns| == |s.conns| && ConnFollows(cfg.password, t.conns[c])
  {
    var x := s.conns[c];
    match l
    case Test(_) => if x.pc.Looping? { HangupFollows(cfg.password, x); }
    case Receive(_, p) => if x.pc.Waiting? { ReceiveFollows(cfg.password, x, p); }
    case Hangup(_) => if x.pc.Waiting? { HangupFollows(cfg.password, x); }
    case Act(_, response) => if x.pc.Holding? { ActStepFollows(cfg, s, c, response); }
    case Send(_) => if x.pc.Replying? { SendFollows(cfg.password, x); }
    case Close(_) => CloseFollows(cfg.password, x);
    case Erase(_) => CloseFollows(cfg.password, x);
    case _ =>
  }

  lemma CloseFollows(password: Bytes, x: Conn)
    requires ConnFollows(password, x)
    ensures x.pc.Closing? ==> ConnFollows(password, x.(pc := Erasing))
    ensures x.pc.Erasing? ==> ConnFollows(password, x.(pc := Done))
  {
  }

  lemma SendFollows(password: Bytes, x: Conn)
    requires ConnFollows(password, x) && x.pc.Replying?
    ensures ConnFollows(password, x.(sent := x.sent + [x.pc.m], pc := if x.pc.last then Closing else Looping))
  {
  }

  /** Main result: in every run, every connection has run and sent exactly what its own packets call for; the
      interleaving with other connections shows nowhere in it. */
  lemma {:induction false} ConnectionsFollow(cfg: Config, labels: seq<Label>)
    ensures AllFollow(cfg, Run(cfg, labels))
  {
    if labels != [] {
      var before, l := labels[..|labels| - 1], labels[|labels| - 1];
      ConnectionsFollow(cfg, before);
      StepFollows(cfg, Run(cfg, before), l);
    }
  }

  lemma StepFollows(cfg: Config, s: State, l: Label)
    requires AllFollow(cfg, s)
    ensures AllFollow(cfg, Step(cfg, s, l))
  {
    match HandlerOf(l)
    case Some(c) =>
      if c < |s.conns| {
        HandlerStepFollows(cfg, s, l, c);
        HandlerIsLocal(cfg, s, l, c);
      }
    case None =>
  }

  // ---------- authentication before execution ----------

  /** Main result: in every run, each command executed on a connection was asked for by a packet of that connection,
      an earlier packet of the same connection was an AUTH with the configured password, and no AUTH in between
      or before carried anything else. */
  lemma AuthenticationPrecedesExecution(cfg: Config, labels: seq<Label>, c: nat, i: nat)
    requires c < |Run(cfg, labels).conns| && i < |Run(cfg, labels).conns[c].ran|
    ensures var x := Run(cfg, labels).conns[c];
            var at := x.ran[i].at;
            && at < |x.got| && x.got[at].kind == EXECCOMMAND && x.ran[i].command == x.got[at].body
            && (exists j :: 0 <= j < at && x.got[j].kind == AUTH && x.got[j].body == cfg.password)
            && (forall j | 0 <= j < at && x.got[j].kind == AUTH :: x.got[j].body == cfg.password)
  {
    ConnectionsFollow(cfg, labels);
    var x := Run(cfg, labels).conns[c];
    var got := if x.pc.Holding? then x.got[..|x.got| - 1] else x.got;
    ExecutedInRange(cfg.password, got);
    var at := x.ran[i].at;
    assert ActionAt(cfg.password, got, at).Execute?;
    AuthenticatedMeans(cfg.password, got[..at]);
    GoodSoFar(cfg.password, x, at);
    var j :| 0 <= j < at && got[..at][j].kind == AUTH && got[..at][j].body == cfg.password;
    assert x.got[j] == got[..at][j];
  }

  /** Before the last packet of a connection no AUTH failed. */
  lemma GoodSoFar(password: Bytes, x: Conn, at: nat)
    requires ConnFollows(password, x) && at < |x.got|
    ensures forall j | 0 <= j < at && x.got[j].kind == AUTH :: x.got[j].body == password
  {
    var before := x.got[..|x.got| - 1];
    forall j | 0 <= j < at && x.got[j].kind == AUTH
      ensures x.got[j].body == password
    {
      assert before[j] == x.got[j];
      if x.pc.Looping? || x.pc.Waiting? {
        OnlyGoodPasswords(password, x.got, j);
      } else {
        OnlyGoodPasswords(password, before, j);
      }
    }
  }

  // ---------- replies ----------

  /** The packets a connection has finished with, except for a reply still to be sent. */
  function Handled(x: Conn): seq<Packet> {
    if x.pc.Holding? && x.got != [] then x.got[..|x.got| - 1] else x.got
  }

  /** What has been sent, with the reply that is on its way. */
  function SentOrSending(x: Conn): seq<Message> {
    if x.pc.Replying? then x.sent + [x.pc.m] else x.sent
  }

  /** Main result: in every run, the replies on a connection are, in order, one for each AUTH and one for each
      executed command, nothing else is answered, each reply fits its packet, and a reply to a failed AUTH is
      the last one. */
  lemma ReplyDiscipline(cfg: Config, labels: seq<Label>, c: nat)
    requires c < |Run(cfg, labels).conns|
    ensures var x := Run(cfg, labels).conns[c];
            var got, sent := Handled(x), SentOrSending(x);
            var at := AnsweredAt(cfg.password, got);
            && |sent| == |at|
            && (forall i | 0 <= i < |sent| ::
                  at[i] < |got| && ReplyFits(cfg.password, got, x.ran, at[i], sent[i]))
            && (forall i, j | 0 <= i < j < |at| :: at[i] < at[j])
            && (forall k | 0 <= k < |got| ::
                  k in at <==> got[k].kind == AUTH
                               || (got[k].kind == EXECCOMMAND && Authenticated(cfg.password, got[..k])))
            && (forall i | 0 <= i < |sent| && ActionAt(cfg.password, got, at[i]).Reject? :: i == |sent| - 1)
  {
    ConnectionsFollow(cfg, labels);
    var x := Run(cfg, labels).conns[c];
    var got := Handled(x);
    RepliesFit(cfg.password, got, x.ran);
    AnsweredMeans(cfg.password, got);
    var at := AnsweredAt(cfg.password, got);
    forall i | 0 <= i < |at| && ActionAt(cfg.password, got, at[i]).Reject?
      ensures i == |at| - 1
    {
      RejectIsLast(cfg.password, x, at[i]);
      GreatestIsLast(at, i, |got|);
    }
  }

  lemma GreatestIsLast(at: seq<nat>, i: nat, n: nat)
    requires forall i, j | 0 <= i < j < |at| :: at[i] < at[j]
    requires forall j | 0 <= j < |at| :: at[j] < n
    requires i < |at| && at[i] == n - 1
    ensures i == |at| - 1
  {
    assert at[|at| - 1] < n;
  }

  lemma RejectIsLast(password: Bytes, x: Conn, k: nat)
    requires ConnFollows(password, x) && k < |Handled(x)| && ActionAt(password, Handled(x), k).Reject?
    ensures k == |Handled(x)| - 1
  {
    var got := Handled(x);
    GoesOnBeforeLast(password, x);
    assert !GoesOn(ActionAt(password, got, k));
  }

  /** Of the packets a connection has dealt with, all but the last let it go on. */
  lemma GoesOnBeforeLast(password: Bytes, x: Conn)
    requires ConnFollows(password, x)
    ensures forall k | 0 <= k < |Handled(x)| - 1 :: GoesOn(ActionAt(password, Handled(x), k))
  {
    if !x.pc.Looping? && !x.pc.Waiting? && !x.pc.Holding? && x.got != [] {
      PrefixGoesOn(password, x.got, |x.got| - 1);
    }
  }
}
