/** What the server does about one packet, and what a whole sequence of packets on one connection amounts to. */
module Protocol {
  import opened Basics
  import opened Wire

  /** The branches of the handler for one packet. */
  datatype Action =
    | Accept                  // right password: authenticated, failures forgiven, reply with the request id
    | Reject                  // wrong password: failure recorded, reply with id -1, connection ends
    | Execute(command: Bytes) // command run, reply with its response
    | Refuse                  // command before authentication: connection ends without a reply
    | Ignore                  // any other type

  function Decide(password: Bytes, authenticated: bool, p: Packet): Action {
    if p.kind == AUTH then if p.body == password then Accept else Reject
    else if p.kind == EXECCOMMAND then if authenticated then Execute(p.body) else Refuse
    else Ignore
  }

  /** Whether the handler goes on receiving. */
  predicate GoesOn(a: Action) { !a.Reject? && !a.Refuse? }

  /** The reply to a packet, if there is one; `response` is what the command returned. */
  function ReplyTo(p: Packet, a: Action, response: Bytes): Option<Message> {
    match a
    case Accept => Some(Message(p.id, AUTH_RESPONSE, []))
    case Reject => Some(Message(-1, AUTH_RESPONSE, []))
    case Execute(_) => Some(Message(p.id, RESPONSE_VALUE, response))
    case Refuse => None
    case Ignore => None
  }

  // ---------- the packets of one connection ----------

  /** Whether a connection that received these packets is authenticated: the last AUTH decides. */
  predicate Authenticated(password: Bytes, got: seq<Packet>) {
    if got == [] then false
    else
      var p := got[|got| - 1];
      if p.kind == AUTH then p.body == password else Authenticated(password, got[..|got| - 1])
  }

  function ActionAt(password: Bytes, got: seq<Packet>, k: nat): Action
    requires k < |got|
  {
    Decide(password, Authenticated(password, got[..k]), got[k])
  }

  /** All packets are dealt with without ending the connection. */
  predicate AllGoOn(password: Bytes, got: seq<Packet>) {
    forall k | 0 <= k < |got| :: GoesOn(ActionAt(password, got, k))
  }

  /** A command that was run: which packet asked for it, and what it returned. */
  datatype Execution = Execution(at: nat, command: Bytes, response: Bytes)

  /** The positions of the packets whose command is run, in order. */
  function ExecutedAt(password: Bytes, got: seq<Packet>): seq<nat> {
    if got == [] then []
    else
      var n := |got| - 1;
      ExecutedAt(password, got[..n]) + (if ActionAt(password, got, n).Execute? then [n] else [])
  }

  /** The positions of the packets that are answered, in order. */
  function AnsweredAt(password: Bytes, got: seq<Packet>): seq<nat> {
    if got == [] then []
    else
      var n := |got| - 1;
      var a := ActionAt(password, got, n);
      AnsweredAt(password, got[..n]) + (if a.Accept? || a.Reject? || a.Execute? then [n] else [])
  }

  /** The commands run were those of the packets that were to be run, in order. */
  predicate RanAsAsked(password: Bytes, got: seq<Packet>, ran: seq<Execution>) {
    && |ran| == |ExecutedAt(password, got)|
    && forall i | 0 <= i < |ran| ::
         && ran[i].at == ExecutedAt(password, got)[i]
         && ran[i].at < |got|
         && ran[i].command == got[ran[i].at].body
  }

  /** The replies to these packets, given what the commands returned. */
  function Replies(password: Bytes, got: seq<Packet>, ran: seq<Execution>): seq<Message> {
    if got == [] then []
    else
      var n := |got| - 1;
      var a := ActionAt(password, got, n);
      if a.Execute? && ran != [] then
        Replies(password, got[..n], ran[..|ran| - 1]) + [Message(got[n].id, RESPONSE_VALUE, ran[|ran| - 1].response)]
      else
        Replies(password, got[..n], ran)
        + (match ReplyTo(got[n], a, []) case None => [] case Some(m) => [m])
  }

  // ---------- adding a packet ----------

  lemma ActionOfPrefix(password: Bytes, got: seq<Packet>, p: Packet)
    ensures forall k | 0 <= k < |got| :: ActionAt(password, got + [p], k) == ActionAt(password, got, k)
    ensures ActionAt(password, got + [p], |got|) == Decide(password, Authenticated(password, got), p)
    ensures (got + [p])[..|got|] == got
  {
    forall k | 0 <= k < |got|
      ensures ActionAt(password, got + [p], k) == ActionAt(password, got, k)
    {
      assert (got + [p])[..k] == got[..k];
    }
    assert (got + [p])[..|got|] == got;
  }

  /** While the connection goes on, it is authenticated after a packet exactly when the password was accepted
      with that packet or it was authenticated before. */
  lemma AuthenticatedStep(password: Bytes, got: seq<Packet>, p: Packet)
    ensures var a := Decide(password, Authenticated(password, got), p);
            Authenticated(password, got + [p]) <==> a.Accept? || (!a.Reject? && Authenticated(password, got))
    ensures AllGoOn(password, got + [p]) <==>
            AllGoOn(password, got) && GoesOn(Decide(password, Authenticated(password, got), p))
  {
    ActionOfPrefix(password, got, p);
    var all := got + [p];
    if AllGoOn(password, all) {
      forall k | 0 <= k < |got|
        ensures GoesOn(ActionAt(password, got, k))
      {
        assert GoesOn(ActionAt(password, all, k));
      }
      assert GoesOn(ActionAt(password, all, |got|));
    }
  }

  /** The actions on a prefix are those of the whole. */
  lemma PrefixGoesOn(password: Bytes, got: seq<Packet>, n: nat)
    requires n <= |got|
    ensures AllGoOn(password, got[..n]) <==> forall k | 0 <= k < n :: GoesOn(ActionAt(password, got, k))
  {
    assert forall k | 0 <= k < n :: ActionAt(password, got[..n], k) == ActionAt(password, got, k) by {
      forall k | 0 <= k < n
        ensures ActionAt(password, got[..n], k) == ActionAt(password, got, k)
      {
        assert got[..n][..k] == got[..k];
      }
    }
    if AllGoOn(password, got[..n]) {
      assert forall k | 0 <= k < n :: GoesOn(ActionAt(password, got[..n], k));
    }
  }

  lemma ExecutedStep(password: Bytes, got: seq<Packet>, p: Packet)
    ensures ExecutedAt(password, got + [p]) ==
            ExecutedAt(password, got)
            + (if Decide(password, Authenticated(password, got), p).Execute? then [|got|] else [])
  {
  }

  lemma StillAsAsked(password: Bytes, got: seq<Packet>, p: Packet, ran: seq<Execution>)
    requires RanAsAsked(password, got, ran) && !Decide(password, Authenticated(password, got), p).Execute?
    ensures RanAsAsked(password, got + [p], ran)
  {
  }

  lemma OneMoreAsAsked(password: Bytes, got: seq<Packet>, p: Packet, ran: seq<Execution>, response: Bytes)
    requires RanAsAsked(password, got, ran) && Decide(password, Authenticated(password, got), p).Execute?
    ensures RanAsAsked(password, got + [p], ran + [Execution(|got|, p.body, response)])
  {
  }

  lemma RepliesStep(password: Bytes, got: seq<Packet>, ran: seq<Execution>, p: Packet)
    requires !Decide(password, Authenticated(password, got), p).Execute?
    ensures Replies(password, got + [p], ran) ==
            Replies(password, got, ran)
            + (match ReplyTo(p, Decide(password, Authenticated(password, got), p), [])
               case None => [] case Some(m) => [m])
  {
  }

  lemma RepliesExecuted(password: Bytes, got: seq<Packet>, ran: seq<Execution>, p: Packet, x: Execution)
    requires Decide(password, Authenticated(password, got), p).Execute?
    ensures Replies(password, got + [p], ran + [x]) ==
            Replies(password, got, ran) + [Message(p.id, RESPONSE_VALUE, x.response)]
  {
  }

  /** A packet of another type is taken, and nothing else: the connection goes on as before, and no reply is sent. */
  lemma OtherTypesDoNothing(password: Bytes, got: seq<Packet>, p: Packet, ran: seq<Execution>)
    requires p.kind != AUTH && p.kind != EXECCOMMAND
    ensures AllGoOn(password, got + [p]) <==> AllGoOn(password, got)
    ensures Authenticated(password, got + [p]) <==> Authenticated(password, got)
    ensures Replies(password, got + [p], ran) == Replies(password, got, ran)
    ensures ExecutedAt(password, got + [p]) == ExecutedAt(password, got)
  {
    AuthenticatedStep(password, got, p);
    RepliesStep(password, got, ran, p);
    ExecutedStep(password, got, p);
  }

  // ---------- what the definitions mean ----------

  /** An authenticated connection got the password in an earlier packet. */
  lemma {:induction false} AuthenticatedMeans(password: Bytes, got: seq<Packet>)
    requires Authenticated(password, got)
    ensures exists i :: 0 <= i < |got| && got[i].kind == AUTH && got[i].body == password
                        && forall j | i < j < |got| :: got[j].kind != AUTH
  {
    var n := |got| - 1;
    if got[n].kind == AUTH {
      assert got[n].body == password;
    } else {
      AuthenticatedMeans(password, got[..n]);
      var i :| 0 <= i < n && got[..n][i].kind == AUTH && got[..n][i].body == password
               && forall j | i < j < n :: got[..n][j].kind != AUTH;
      forall j | i < j < |got|
        ensures got[j].kind != AUTH
      {
        assert j < n ==> got[..n][j] == got[j];
      }
    }
  }

  /** No AUTH packet of a connection that goes on carries anything but the password. */
  lemma OnlyGoodPasswords(password: Bytes, got: seq<Packet>, k: nat)
    requires AllGoOn(password, got) && k < |got| && got[k].kind == AUTH
    ensures got[k].body == password
  {
    assert GoesOn(ActionAt(password, got, k));
  }

  /** Which packets are answered: AUTH always, a command when the connection is authenticated by then. */
  lemma {:induction false} AnsweredMeans(password: Bytes, got: seq<Packet>)
    ensures var at := AnsweredAt(password, got);
            && (forall i | 0 <= i < |at| :: at[i] < |got|)
            && (forall i, j | 0 <= i < j < |at| :: at[i] < at[j])
            && (forall k | 0 <= k < |got| ::
                  k in at <==> got[k].kind == AUTH
                               || (got[k].kind == EXECCOMMAND && Authenticated(password, got[..k])))
  {
    if got != [] {
      var n := |got| - 1;
      var before := got[..n];
      AnsweredMeans(password, before);
      assert before + [got[n]] == got;
      var at := AnsweredAt(password, before);
      forall k | 0 <= k < |got|
        ensures k in AnsweredAt(password, got) <==>
                got[k].kind == AUTH || (got[k].kind == EXECCOMMAND && Authenticated(password, got[..k]))
      {
        if k < n {
          assert before[..k] == got[..k] && before[k] == got[k];
        } else {
          assert forall i | 0 <= i < |at| :: at[i] != n;
        }
      }
    }
  }

  /** The reply to the `i`-th answered packet. */
  predicate ReplyFits(password: Bytes, got: seq<Packet>, ran: seq<Execution>, k: nat, m: Message)
    requires k < |got|
  {
    match ActionAt(password, got, k)
    case Accept => m == Message(got[k].id, AUTH_RESPONSE, [])
    case Reject => m == Message(-1, AUTH_RESPONSE, [])
    case Execute(_) => exists x :: x in ran && x.at == k && m == Message(got[k].id, RESPONSE_VALUE, x.response)
    case Refuse => false
    case Ignore => false
  }

  lemma FitsLater(password: Bytes, got: seq<Packet>, ran: seq<Execution>, k: nat, m: Message, p: Packet,
                  ran': seq<Execution>)
    requires k < |got| && ReplyFits(password, got, ran, k, m)
    requires forall x :: x in ran ==> x in ran'
    ensures ReplyFits(password, got + [p], ran', k, m)
  {
    ActionOfPrefix(password, got, p);
  }

  /** The replies fit the packets at these positions. */
  predicate AllFit(password: Bytes, got: seq<Packet>, ran: seq<Execution>, at: seq<nat>, replies: seq<Message>) {
    && |replies| == |at|
    && forall i | 0 <= i < |replies| :: at[i] < |got| && ReplyFits(password, got, ran, at[i], replies[i])
  }

  lemma AllFitLater(password: Bytes, got: seq<Packet>, ran: seq<Execution>, at: seq<nat>, replies: seq<Message>,
                    p: Packet, ran': seq<Execution>)
    requires AllFit(password, got, ran, at, replies) && forall x :: x in ran ==> x in ran'
    ensures AllFit(password, got + [p], ran', at, replies)
  {
    forall i | 0 <= i < |replies|
      ensures ReplyFits(password, got + [p], ran', at[i], replies[i])
    {
      FitsLater(password, got, ran, at[i], replies[i], p, ran');
    }
  }

  lemma OneMoreFits(password: Bytes, got: seq<Packet>, ran: seq<Execution>, at: seq<nat>, replies: seq<Message>,
                    k: nat, m: Message)
    requires AllFit(password, got, ran, at, replies) && k < |got| && ReplyFits(password, got, ran, k, m)
    ensures AllFit(password, got, ran, at + [k], replies + [m])
  {
  }

  lemma ExecutedFits(password: Bytes, got: seq<Packet>, p: Packet, ran: seq<Execution>)
    requires RanAsAsked(password, got + [p], ran) && Decide(password, Authenticated(password, got), p).Execute?
    requires ran != [] && AllFit(password, got, ran[..|ran| - 1], AnsweredAt(password, got),
                                 Replies(password, got, ran[..|ran| - 1]))
    ensures AllFit(password, got + [p], ran, AnsweredAt(password, got + [p]), Replies(password, got + [p], ran))
  {
    var ran', x := ran[..|ran| - 1], ran[|ran| - 1];
    var at, replies := AnsweredAt(password, got), Replies(password, got, ran');
    ActionOfPrefix(password, got, p);
    RanBefore(password, got, p, ran);
    AllFitLater(password, got, ran', at, replies, p, ran);
    assert x in ran && ran' + [x] == ran;
    RepliesExecuted(password, got, ran', p, x);
    OneMoreFits(password, got + [p], ran, at, replies, |got|, Message(p.id, RESPONSE_VALUE, x.response));
  }

  lemma OtherFits(password: Bytes, got: seq<Packet>, p: Packet, ran: seq<Execution>)
    requires !Decide(password, Authenticated(password, got), p).Execute?
    requires AllFit(password, got, ran, AnsweredAt(password, got), Replies(password, got, ran))
    ensures AllFit(password, got + [p], ran, AnsweredAt(password, got + [p]), Replies(password, got + [p], ran))
  {
    var a := Decide(password, Authenticated(password, got), p);
    var at, replies := AnsweredAt(password, got), Replies(password, got, ran);
    ActionOfPrefix(password, got, p);
    AllFitLater(password, got, ran, at, replies, p, ran);
    RepliesStep(password, got, ran, p);
    if ReplyTo(p, a, []).Some? {
      OneMoreFits(password, got + [p], ran, at, replies, |got|, ReplyTo(p, a, []).value);
    }
  }

  /** Main result on the replies of one connection: one for each answered packet, in order, each fitting its
      packet. */
  lemma {:induction false} RepliesFit(password: Bytes, got: seq<Packet>, ran: seq<Execution>)
    requires RanAsAsked(password, got, ran)
    ensures AllFit(password, got, ran, AnsweredAt(password, got), Replies(password, got, ran))
    decreases got
  {
    if got != [] {
      var before, p := got[..|got| - 1], got[|got| - 1];
      assert before + [p] == got;
      RanBefore(password, before, p, ran);
      if Decide(password, Authenticated(password, before), p).Execute? {
        RepliesFit(password, before, ran[..|ran| - 1]);
        ExecutedFits(password, before, p, ran);
      } else {
        RepliesFit(password, before, ran);
        OtherFits(password, before, p, ran);
      }
    }
  }

  lemma RanBefore(password: Bytes, got: seq<Packet>, p: Packet, ran: seq<Execution>)
    requires RanAsAsked(password, got + [p], ran)
    ensures Decide(password, Authenticated(password, got), p).Execute? ==>
              ran != [] && ran[|ran| - 1].at == |got| && RanAsAsked(password, got, ran[..|ran| - 1])
    ensures !Decide(password, Authenticated(password, got), p).Execute? ==> RanAsAsked(password, got, ran)
  {
    ExecutedStep(password, got, p);
    ExecutedInRange(password, got);
    var at := ExecutedAt(password, got);
    assert forall i | 0 <= i < |at| :: ExecutedAt(password, got + [p])[i] == at[i];
  }

  lemma {:induction false} ExecutedInRange(password: Bytes, got: seq<Packet>)
    ensures forall i | 0 <= i < |ExecutedAt(password, got)| ::
              var k := ExecutedAt(password, got)[i];
              k < |got| && ActionAt(password, got, k).Execute?
  {
    if got != [] {
      var n := |got| - 1;
      ExecutedInRange(password, got[..n]);
      assert got[..n] + [got[n]] == got;
      ActionOfPrefix(password, got[..n], got[n]);
    }
  }
}
