/** What the failure counters and the block check amount to over whole runs of the server: exact counters, a bound
    on how far the limit can be overshot, a lockout nothing lifts, and the whitelist. */
module Lockout {
  import opened Wire
  import opened Access
  import opened Protocol
  import opened ServerMachine

  // ---------- exact counters ----------

  /** The failures of an address since it last logged in, in the order of the mutex. */
  function FailuresSince(log: seq<MutexOp>, ip: string): nat {
    if log == [] then 0
    else
      var op, before := log[|log| - 1], FailuresSince(log[..|log| - 1], ip);
      if op.ip != ip then before
      else if op.Success? then 0
      else before + 1
  }

  predicate IsReset(op: MutexOp, ip: string) { op.Success? && op.ip == ip }

  function FailuresFrom(log: seq<MutexOp>, start: nat, ip: string): set<nat> {
    set i: nat | start <= i < |log| && log[i].Failure? && log[i].ip == ip
  }

  /** `FailuresSince` counts the failures of the address behind its last reset. */
  lemma {:induction false} FailuresSinceMeans(log: seq<MutexOp>, ip: string)
    ensures exists start: nat ::
              && start <= |log|
              && (start > 0 ==> IsReset(log[start - 1], ip))
              && (forall i | start <= i < |log| :: !IsReset(log[i], ip))
              && FailuresSince(log, ip) == |FailuresFrom(log, start, ip)|
  {
    if log == [] {
      assert FailuresFrom(log, 0, ip) == {};
    } else {
      var n := |log| - 1;
      var before := log[..n];
      FailuresSinceMeans(before, ip);
      var start: nat :| && start <= n
                        && (start > 0 ==> IsReset(before[start - 1], ip))
                        && (forall i | start <= i < n :: !IsReset(before[i], ip))
                        && FailuresSince(before, ip) == |FailuresFrom(before, start, ip)|;
      if IsReset(log[n], ip) {
        assert FailuresFrom(log, n + 1, ip) == {};
        assert n + 1 > 0 ==> IsReset(log[n + 1 - 1], ip);
      } else {
        FailuresFromStep(log, start, ip);
        assert forall i | start <= i < n :: log[i] == before[i];
        assert start > 0 ==> log[start - 1] == before[start - 1];
      }
    }
  }

  lemma FailuresFromGrows(before: seq<MutexOp>, op: MutexOp, start: nat, ip: string)
    requires start <= |before| && !IsReset(op, ip)
    ensures FailuresFrom(before + [op], start, ip)
         == FailuresFrom(before, start, ip) + (if op.ip == ip then {|before|} else {})
  {
  }

  lemma FailuresFromStep(log: seq<MutexOp>, start: nat, ip: string)
    requires start < |log| && !IsReset(log[|log| - 1], ip)
    ensures |FailuresFrom(log, start, ip)|
         == |FailuresFrom(log[..|log| - 1], start, ip)| + (if log[|log| - 1].ip == ip then 1 else 0)
  {
    var n := |log| - 1;
    FailuresFromGrows(log[..n], log[n], start, ip);
    assert log == log[..n] + [log[n]];
    assert n !in FailuresFrom(log[..n], start, ip);
  }

  /** The table says of every address what the log says. */
  ghost predicate Exact(s: State) {
    forall ip: string ::
      && (ip in s.failed <==> FailuresSince(s.log, ip) > 0)
      && Failures(s.failed, ip) == FailuresSince(s.log, ip)
  }

  /** What one step does to the table and to its log. */
  predicate LogStep(cfg: Config, s: State, t: State, l: Label) {
    || (t.failed == s.failed && t.log == s.log)
    || (l.Act? && l.c < |s.conns| && s.conns[l.c].pc.Holding? &&
        var x := s.conns[l.c];
        match Decide(cfg.password, x.authenticated, x.pc.p)
        case Accept => t.failed == Forgiven(s.failed, x.ip) && t.log == s.log + [Success(l.c, x.ip)]
        case Reject =>
          && t.failed == Recorded(s.failed, x.ip) && t.log == s.log + [Failure(l.c, x.ip)]
          && |t.conns| == |s.conns| && t.conns[l.c].failed
        case _ => false)
  }

  lemma StepLogs(cfg: Config, s: State, l: Label)
    ensures LogStep(cfg, s, Step(cfg, s, l), l)
  {
  }

  lemma StepKeepsExact(cfg: Config, s: State, t: State, l: Label)
    requires Exact(s) && LogStep(cfg, s, t, l)
    ensures Exact(t)
  {
  }

  /** Main result: in every run and interleaving the table holds, for every address, the number of its failures
      since its last successful login. */
  lemma {:induction false} CountersAreExact(cfg: Config, labels: seq<Label>)
    ensures Exact(Run(cfg, labels))
  {
    if labels != [] {
      var before, l := labels[..|labels| - 1], labels[|labels| - 1];
      CountersAreExact(cfg, before);
      StepLogs(cfg, Run(cfg, before), l);
      StepKeepsExact(cfg, Run(cfg, before), Run(cfg, labels), l);
    }
  }

  // ---------- one failure for each connection ----------

  /** Every record belongs to a connection and to its address, and no connection has two failures. */
  predicate LogFits(s: State) {
    && (forall i | 0 <= i < |s.log| ::
          && s.log[i].conn < |s.conns|
          && s.log[i].ip == s.conns[s.log[i].conn].ip
          && (s.log[i].Failure? ==> s.conns[s.log[i].conn].failed))
    && (forall i, j | 0 <= i < j < |s.log| && s.log[i].Failure? && s.log[j].Failure? ::
          s.log[i].conn != s.log[j].conn)
  }

  /** Connections stay, with their address, and a failure is not forgotten by its connection. */
  predicate ConnsStay(s: State, t: State) {
    && |s.conns| <= |t.conns|
    && forall c | 0 <= c < |s.conns| ::
         t.conns[c].ip == s.conns[c].ip && (s.conns[c].failed ==> t.conns[c].failed)
  }

  lemma HandlerKeepsConn(cfg: Config, s: State, l: Label, c: nat)
    requires c < |s.conns|
    ensures var t := HandlerStep(cfg, s, l, c);
            |t.conns| == |s.conns| && t.conns[c].ip == s.conns[c].ip && (s.conns[c].failed ==> t.conns[c].failed)
  {
  }

  lemma StepKeepsConns(cfg: Config, s: State, l: Label)
    ensures ConnsStay(s, Step(cfg, s, l))
  {
    match HandlerOf(l)
    case Some(c) =>
      if c < |s.conns| {
        HandlerKeepsConn(cfg, s, l, c);
        HandlerIsLocal(cfg, s, l, c);
      }
    case None =>
  }

  lemma StepKeepsLogFits(cfg: Config, s: State, t: State, l: Label)
    requires LogFits(s) && AllFollow(cfg, s) && LogStep(cfg, s, t, l) && ConnsStay(s, t)
    ensures LogFits(t)
  {
  }

  /** Main result: in every run each connection has at most one failure on record, under its own address. */
  lemma {:induction false} AtMostOneFailure(cfg: Config, labels: seq<Label>)
    ensures LogFits(Run(cfg, labels))
  {
    if labels != [] {
      var before, l := labels[..|labels| - 1], labels[|labels| - 1];
      AtMostOneFailure(cfg, before);
      ConnectionsFollow(cfg, before);
      StepLogs(cfg, Run(cfg, before), l);
      StepKeepsConns(cfg, Run(cfg, before), l);
      StepKeepsLogFits(cfg, Run(cfg, before), Run(cfg, labels), l);
    }
  }

  // ---------- how far the limit can be overshot ----------

  /** A socket that is still open; with `all` false, only while no failure was recorded for it. */
  predicate Counts(x: Conn, ip: string, all: bool) {
    x.ip == ip && !x.pc.Erasing? && !x.pc.Done? && (all || !x.failed)
  }

  function One(b: bool): nat { if b then 1 else 0 }

  function CountConns(conns: seq<Conn>, ip: string, all: bool): nat {
    if conns == [] then 0
    else
      var n := |conns| - 1;
      CountConns(conns[..n], ip, all) + One(Counts(conns[n], ip, all))
  }

  /** The live connections of an address, with the one that passed the block check and is being registered. */
  function Live(s: State, ip: string): nat {
    CountConns(s.conns, ip, true) + One(s.listener == Passed(ip))
  }

  /** Those of them that can still fail a login. */
  function Risky(s: State, ip: string): nat {
    CountConns(s.conns, ip, false) + One(s.listener == Passed(ip))
  }

  lemma {:induction false} CountUpdated(conns: seq<Conn>, c: nat, x: Conn, ip: string, all: bool)
    requires c < |conns|
    ensures CountConns(conns[c := x], ip, all) + One(Counts(conns[c], ip, all))
         == CountConns(conns, ip, all) + One(Counts(x, ip, all))
  {
    var n := |conns| - 1;
    if c == n {
      assert conns[c := x][..n] == conns[..n];
    } else {
      assert conns[c := x][..n] == conns[..n][c := x];
      CountUpdated(conns[..n], c, x, ip, all);
    }
  }

  lemma CountAppended(conns: seq<Conn>, x: Conn, ip: string, all: bool)
    ensures CountConns(conns + [x], ip, all) == CountConns(conns, ip, all) + One(Counts(x, ip, all))
  {
  }

  lemma {:induction false} RiskyAreLive(conns: seq<Conn>, ip: string)
    ensures CountConns(conns, ip, false) <= CountConns(conns, ip, true)
  {
    if conns != [] {
      RiskyAreLive(conns[..|conns| - 1], ip);
    }
  }

  /** Dealing with a packet: a failure takes the risk of its own connection away, a login clears the counter. */
  lemma ActRisk(cfg: Config, s: State, c: nat, response: Bytes, ip: string)
    requires c < |s.conns| && s.conns[c].pc.Holding? && !s.conns[c].failed
    ensures var t := ActStep(cfg, s, c, response);
            && |t.conns| == |s.conns|
            && (|| Failures(t.failed, ip) + One(Counts(t.conns[c], ip, false))
                   <= Failures(s.failed, ip) + One(Counts(s.conns[c], ip, false))
                || Failures(t.failed, ip) == 0)
  {
  }

  /** One handler's step: its connection is no riskier than before, unless the counter is clear. */
  lemma HandlerRisk(cfg: Config, s: State, l: Label, c: nat, ip: string)
    requires c < |s.conns| && ConnFollows(cfg.password, s.conns[c])
    ensures var t := HandlerStep(cfg, s, l, c);
            && |t.conns| == |s.conns|
            && (|| Failures(t.failed, ip) + One(Counts(t.conns[c], ip, false))
                   <= Failures(s.failed, ip) + One(Counts(s.conns[c], ip, false))
                || Failures(t.failed, ip) == 0)
  {
    if l.Act? && s.conns[c].pc.Holding? {
      ActRisk(cfg, s, c, l.response, ip);
    }
  }

  lemma ListenerRisk(cfg: Config, s: State, l: Label, ip: string)
    requires cfg.maxFailedAttempts > 0
    ensures var t := ListenerStep(cfg, s, l);
            && t.failed == s.failed
            && (Risky(t, ip) <= Risky(s, ip) || Failures(t.failed, ip) < cfg.maxFailedAttempts)
  {
  }

  lemma StepRisk(cfg: Config, s: State, l: Label, ip: string)
    requires AllFollow(cfg, s) && cfg.maxFailedAttempts > 0
    ensures var t := Step(cfg, s, l);
            || Failures(t.failed, ip) + Risky(t, ip) <= Failures(s.failed, ip) + Risky(s, ip)
            || Failures(t.failed, ip) < cfg.maxFailedAttempts
  {
    match HandlerOf(l)
    case Some(c) =>
      if c < |s.conns| {
        HandlerRisk(cfg, s, l, c, ip);
        HandlerIsLocal(cfg, s, l, c);
        CountUpdated(s.conns, c, HandlerStep(cfg, s, l, c).conns[c], ip, false);
      }
    case None =>
      if !l.Stop? {
        ListenerRisk(cfg, s, l, ip);
      }
  }

  /** Main result: when at every moment of a run an address has at most `p` live connections, its recorded failures
      and the connections that can still fail never make more than the limit and `p - 1` together. */
  lemma {:induction false} OvershootIsBounded(cfg: Config, labels: seq<Label>, ip: string, p: nat)
    requires cfg.maxFailedAttempts > 0
    requires forall k | 0 <= k <= |labels| :: Live(Run(cfg, labels[..k]), ip) <= p
    ensures var s := Run(cfg, labels);
            Failures(s.failed, ip) + Risky(s, ip) <= cfg.maxFailedAttempts - 1 + p
  {
    var s := Run(cfg, labels);
    assert labels[..|labels|] == labels;
    RiskyAreLive(s.conns, ip);
    if labels != [] {
      var before, l := labels[..|labels| - 1], labels[|labels| - 1];
      forall k | 0 <= k <= |before|
        ensures Live(Run(cfg, before[..k]), ip) <= p
      {
        assert before[..k] == labels[..k];
      }
      OvershootIsBounded(cfg, before, ip, p);
      ConnectionsFollow(cfg, before);
      StepRisk(cfg, Run(cfg, before), l, ip);
    }
  }

  /** With one connection at a time the limit is never exceeded. */
  lemma LimitHoldsOneByOne(cfg: Config, labels: seq<Label>, ip: string)
    requires cfg.maxFailedAttempts > 0
    requires forall k | 0 <= k <= |labels| :: Live(Run(cfg, labels[..k]), ip) <= 1
    ensures Failures(Run(cfg, labels).failed, ip) <= cfg.maxFailedAttempts
  {
    OvershootIsBounded(cfg, labels, ip, 1);
  }

  // ---------- a lockout is final ----------

  /** A connection of the address whose handler has or may get another packet. */
  predicate InPlay(x: Conn, ip: string) {
    x.ip == ip && (x.pc.Looping? || x.pc.Waiting? || x.pc.Holding? || (x.pc.Replying? && !x.pc.last))
  }

  /** The address has used up its attempts and has no connection in play. */
  predicate LockedOut(cfg: Config, s: State, ip: string) {
    && Blocked(s.failed, cfg.maxFailedAttempts, ip)
    && s.listener != Passed(ip)
    && forall c | 0 <= c < |s.conns| :: !InPlay(s.conns[c], ip)
  }

  /** No connection of the address has been added. */
  predicate NoneAdded(s: State, t: State, ip: string) {
    && |s.conns| <= |t.conns|
    && forall c | |s.conns| <= c < |t.conns| :: t.conns[c].ip != ip
  }

  lemma LockedHandler(cfg: Config, s: State, l: Label, c: nat, ip: string)
    requires c < |s.conns| && !InPlay(s.conns[c], ip)
    ensures var t := HandlerStep(cfg, s, l, c);
            && |t.conns| == |s.conns| && !InPlay(t.conns[c], ip)
            && Failures(t.failed, ip) == Failures(s.failed, ip) && (ip in t.failed <==> ip in s.failed)
  {
    if l.Act? && s.conns[c].pc.Holding? {
      LockedAct(cfg, s, c, l.response, ip);
    }
  }

  /** A handler that deals with a packet does not work for the address. */
  lemma LockedAct(cfg: Config, s: State, c: nat, response: Bytes, ip: string)
    requires c < |s.conns| && s.conns[c].pc.Holding? && s.conns[c].ip != ip
    ensures var t := ActStep(cfg, s, c, response);
            && |t.conns| == |s.conns| && t.conns[c].ip != ip
            && Failures(t.failed, ip) == Failures(s.failed, ip) && (ip in t.failed <==> ip in s.failed)
  {
  }

  lemma LockedHandlerStep(cfg: Config, s: State, l: Label, c: nat, ip: string)
    requires c < |s.conns| && LockedOut(cfg, s, ip)
    ensures var t := HandlerStep(cfg, s, l, c);
            LockedOut(cfg, t, ip) && NoneAdded(s, t, ip) && Failures(t.failed, ip) == Failures(s.failed, ip)
  {
    LockedHandler(cfg, s, l, c, ip);
    HandlerIsLocal(cfg, s, l, c);
  }

  lemma LockedListenerStep(cfg: Config, s: State, l: Label, ip: string)
    requires LockedOut(cfg, s, ip)
    ensures var t := ListenerStep(cfg, s, l);
            LockedOut(cfg, t, ip) && NoneAdded(s, t, ip) && Failures(t.failed, ip) == Failures(s.failed, ip)
  {
  }

  lemma LockedStep(cfg: Config, s: State, l: Label, ip: string)
    requires LockedOut(cfg, s, ip)
    ensures var t := Step(cfg, s, l);
            LockedOut(cfg, t, ip) && NoneAdded(s, t, ip) && Failures(t.failed, ip) == Failures(s.failed, ip)
  {
    match HandlerOf(l)
    case Some(c) => if c < |s.conns| { LockedHandlerStep(cfg, s, l, c, ip); }
    case None => if !l.Stop? { LockedListenerStep(cfg, s, l, ip); }
  }

  lemma NoneAddedLater(s: State, t: State, u: State, ip: string)
    requires NoneAdded(s, t, ip) && NoneAdded(t, u, ip) && ConnsStay(t, u)
    ensures NoneAdded(s, u, ip)
  {
  }

  lemma OneMoreStep(cfg: Config, labels: seq<Label>, l: Label)
    ensures Run(cfg, labels + [l]) == Step(cfg, Run(cfg, labels), l)
  {
  }

  /** Main result: once an address is blocked and has no connection in play, whatever happens later, its counter
      stays as it is, it stays blocked, and no connection from it is ever accepted again. */
  lemma {:induction false} LockoutIsFinal(cfg: Config, labels: seq<Label>, later: seq<Label>, ip: string)
    requires LockedOut(cfg, Run(cfg, labels), ip)
    ensures var s, t := Run(cfg, labels), Run(cfg, labels + later);
            LockedOut(cfg, t, ip) && NoneAdded(s, t, ip) && Failures(t.failed, ip) == Failures(s.failed, ip)
    decreases later
  {
    if later == [] {
      assert labels + later == labels;
    } else {
      var before, l := later[..|later| - 1], later[|later| - 1];
      var t := Run(cfg, labels + before);
      LockoutIsFinal(cfg, labels, before, ip);
      LockedStep(cfg, t, l, ip);
      StepKeepsConns(cfg, t, l);
      NoneAddedLater(Run(cfg, labels), t, Step(cfg, t, l), ip);
      OneMoreStep(cfg, labels + before, l);
      assert labels + later == (labels + before) + [l];
    }
  }

  // ---------- the whitelist ----------

  predicate AllAllowed(cfg: Config, s: State) {
    && (forall c | 0 <= c < |s.conns| :: AddressAllowed(cfg.allowedIPs, s.conns[c].ip))
    && (s.listener.Allowed? || s.listener.Passed? ==> AddressAllowed(cfg.allowedIPs, s.listener.ip))
  }

  lemma ListenerKeepsAllowed(cfg: Config, s: State, l: Label)
    requires AllAllowed(cfg, s)
    ensures AllAllowed(cfg, ListenerStep(cfg, s, l))
  {
  }

  lemma StepKeepsAllowed(cfg: Config, s: State, l: Label)
    requires AllAllowed(cfg, s)
    ensures AllAllowed(cfg, Step(cfg, s, l))
  {
    match HandlerOf(l)
    case Some(c) =>
      if c < |s.conns| {
        StepKeepsConns(cfg, s, l);
        HandlerIsLocal(cfg, s, l, c);
      }
    case None => if !l.Stop? { ListenerKeepsAllowed(cfg, s, l); }
  }

  /** Main result: in every run every connection comes from an address the whitelist admits. */
  lemma {:induction false} OnlyAllowedConnect(cfg: Config, labels: seq<Label>)
    ensures AllAllowed(cfg, Run(cfg, labels))
  {
    if labels != [] {
      var before, l := labels[..|labels| - 1], labels[|labels| - 1];
      OnlyAllowedConnect(cfg, before);
      StepKeepsAllowed(cfg, Run(cfg, before), l);
    }
  }

  // ---------- who is let in ----------

  /** The listener's way from a connecting address to a handler. */
  function Admitting(cfg: Config, s: State, ip: string): State {
    var accepted := Step(cfg, Step(cfg, s, Listen), Connect(ip));
    Step(cfg, Step(cfg, Step(cfg, accepted, CheckAllowed), CheckBlocked), Register)
  }

  /** An address that connects gets a handler exactly when the whitelist admits it and its failures are below the
      limit, if there is one; nothing else changes. */
  lemma AdmittedExactlyWhen(cfg: Config, s: State, ip: string)
    requires s.running && s.listener.Idle?
    ensures var good := AddressAllowed(cfg.allowedIPs, ip)
                        && (cfg.maxFailedAttempts > 0 ==> Failures(s.failed, ip) < cfg.maxFailedAttempts);
            Admitting(cfg, s, ip) == if good then s.(conns := s.conns + [NewConn(ip)]) else s
  {
    var checked := Step(cfg, Step(cfg, Step(cfg, s, Listen), Connect(ip)), CheckAllowed);
    if AddressAllowed(cfg.allowedIPs, ip) {
      assert checked == s.(listener := Allowed(ip));
    } else {
      assert checked == s;
    }
  }

  // ---------- after a stop ----------

  lemma StoppedStep(cfg: Config, s: State, l: Label)
    requires !s.running && s.listener.Idle?
    ensures var t := Step(cfg, s, l); !t.running && t.listener.Idle? && |t.conns| == |s.conns|
  {
  }

  /** Once the flag is cleared and the listener has noticed, nobody connects any more. */
  lemma {:induction false} StoppedAdmitsNobody(cfg: Config, s: State, later: seq<Label>)
    requires !s.running && s.listener.Idle?
    ensures var t := After(cfg, s, later); !t.running && t.listener.Idle? && |t.conns| == |s.conns|
    decreases later
  {
    if later != [] {
      var before := later[..|later| - 1];
      StoppedAdmitsNobody(cfg, s, before);
      StoppedStep(cfg, After(cfg, s, before), later[|later| - 1]);
    }
  }
}
