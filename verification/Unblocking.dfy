/** When a block of an address can still be lifted: a handler that is already past the block check may let its client
    log in, and a login clears the counter. */
module Unblocking {
  import opened Wire
  import opened Access
  import opened Protocol
  import opened ServerMachine

  /** The handler of this connection may yet accept a password. */
  predicate MayLogIn(cfg: Config, running: bool, x: Conn) {
    match x.pc
    case Looping => running
    case Waiting => true
    case Holding(p) =>
      var a := Decide(cfg.password, x.authenticated, p);
      a.Accept? || (GoesOn(a) && running)
    case Replying(_, last) => !last && running
    case _ => false
  }

  /** No connection of the address may log in, and none is about to be registered in a running server. */
  predicate NoHope(cfg: Config, s: State, ip: string) {
    && (s.listener == Passed(ip) ==> !s.running)
    && forall c | 0 <= c < |s.conns| && s.conns[c].ip == ip :: !MayLogIn(cfg, s.running, s.conns[c])
  }

  predicate IsBlocked(cfg: Config, s: State, ip: string) { Blocked(s.failed, cfg.maxFailedAttempts, ip) }

  // ---------- without hope the block stays ----------

  lemma ActKeepsBlock(cfg: Config, s: State, c: nat, response: Bytes, ip: string)
    requires c < |s.conns| && s.conns[c].pc.Holding? && IsBlocked(cfg, s, ip)
    requires s.conns[c].ip == ip ==> !MayLogIn(cfg, s.running, s.conns[c])
    ensures var t := ActStep(cfg, s, c, response);
            && IsBlocked(cfg, t, ip) && t.running == s.running && |t.conns| == |s.conns|
            && t.conns[c].ip == s.conns[c].ip
            && (s.conns[c].ip == ip ==> !MayLogIn(cfg, s.running, t.conns[c]))
  {
  }

  lemma HandlerKeepsBlock(cfg: Config, s: State, l: Label, c: nat, ip: string)
    requires c < |s.conns| && IsBlocked(cfg, s, ip)
    requires s.conns[c].ip == ip ==> !MayLogIn(cfg, s.running, s.conns[c])
    ensures var t := HandlerStep(cfg, s, l, c);
            && IsBlocked(cfg, t, ip) && t.running == s.running && |t.conns| == |s.conns|
            && t.conns[c].ip == s.conns[c].ip
            && (s.conns[c].ip == ip ==> !MayLogIn(cfg, s.running, t.conns[c]))
  {
    if l.Act? && s.conns[c].pc.Holding? {
      ActKeepsBlock(cfg, s, c, l.response, ip);
    }
  }

  lemma ListenerKeepsBlock(cfg: Config, s: State, l: Label, ip: string)
    requires IsBlocked(cfg, s, ip) && NoHope(cfg, s, ip)
    ensures var t := ListenerStep(cfg, s, l); IsBlocked(cfg, t, ip) && NoHope(cfg, t, ip)
  {
  }

  lemma StepKeepsBlock(cfg: Config, s: State, l: Label, ip: string)
    requires IsBlocked(cfg, s, ip) && NoHope(cfg, s, ip)
    ensures var t := Step(cfg, s, l); IsBlocked(cfg, t, ip) && NoHope(cfg, t, ip)
  {
    match HandlerOf(l)
    case Some(c) =>
      if c < |s.conns| {
        HandlerKeepsBlock(cfg, s, l, c, ip);
        HandlerIsLocal(cfg, s, l, c);
      }
    case None => if !l.Stop? { ListenerKeepsBlock(cfg, s, l, ip); }
  }

  lemma {:induction false} BlockStays(cfg: Config, s: State, later: seq<Label>, ip: string)
    requires IsBlocked(cfg, s, ip) && NoHope(cfg, s, ip)
    ensures var t := After(cfg, s, later); IsBlocked(cfg, t, ip) && NoHope(cfg, t, ip)
    decreases later
  {
    if later != [] {
      var before := later[..|later| - 1];
      BlockStays(cfg, s, before, ip);
      StepKeepsBlock(cfg, After(cfg, s, before), later[|later| - 1], ip);
    }
  }

  // ---------- with hope it can be lifted ----------

  lemma OneStepFirst(cfg: Config, s: State, l: Label, rest: seq<Label>)
    ensures After(cfg, s, [l] + rest) == After(cfg, Step(cfg, s, l), rest)
  {
    AfterAppends(cfg, s, [l], rest);
    assert [l][..0] == [];
    assert After(cfg, s, [l]) == Step(cfg, After(cfg, s, []), l);
  }

  lemma LoginFromAccept(cfg: Config, s: State, c: nat) returns (later: seq<Label>)
    requires c < |s.conns| && s.conns[c].pc.Holding?
    requires Decide(cfg.password, s.conns[c].authenticated, s.conns[c].pc.p).Accept?
    ensures s.conns[c].ip !in After(cfg, s, later).failed
  {
    later := [Act(c, [])] + [];
    OneStepFirst(cfg, s, Act(c, []), []);
  }

  lemma LoginFromWaiting(cfg: Config, s: State, c: nat) returns (later: seq<Label>)
    requires c < |s.conns| && s.conns[c].pc.Waiting?
    ensures s.conns[c].ip !in After(cfg, s, later).failed
  {
    var l := Receive(c, Packet(0, AUTH, cfg.password));
    later := LoginFromAccept(cfg, Step(cfg, s, l), c);
    OneStepFirst(cfg, s, l, later);
    later := [l] + later;
  }

  lemma LoginFromLooping(cfg: Config, s: State, c: nat) returns (later: seq<Label>)
    requires c < |s.conns| && s.conns[c].pc.Looping? && s.running
    ensures s.conns[c].ip !in After(cfg, s, later).failed
  {
    later := LoginFromWaiting(cfg, Step(cfg, s, Test(c)), c);
    OneStepFirst(cfg, s, Test(c), later);
    later := [Test(c)] + later;
  }

  lemma LoginFromReplying(cfg: Config, s: State, c: nat) returns (later: seq<Label>)
    requires c < |s.conns| && s.conns[c].pc.Replying? && !s.conns[c].pc.last && s.running
    ensures s.conns[c].ip !in After(cfg, s, later).failed
  {
    later := LoginFromLooping(cfg, Step(cfg, s, Send(c)), c);
    OneStepFirst(cfg, s, Send(c), later);
    later := [Send(c)] + later;
  }

  lemma LoginFromHolding(cfg: Config, s: State, c: nat) returns (later: seq<Label>)
    requires c < |s.conns| && s.conns[c].pc.Holding? && s.running
    requires GoesOn(Decide(cfg.password, s.conns[c].authenticated, s.conns[c].pc.p))
    ensures s.conns[c].ip !in After(cfg, s, later).failed
  {
    var t := Step(cfg, s, Act(c, []));
    if t.conns[c].pc.Replying? {
      later := LoginFromReplying(cfg, t, c);
    } else {
      later := LoginFromLooping(cfg, t, c);
    }
    OneStepFirst(cfg, s, Act(c, []), later);
    later := [Act(c, [])] + later;
  }

  lemma LoginFromConn(cfg: Config, s: State, c: nat) returns (later: seq<Label>)
    requires c < |s.conns| && MayLogIn(cfg, s.running, s.conns[c])
    ensures s.conns[c].ip !in After(cfg, s, later).failed
  {
    match s.conns[c].pc
    case Looping => later := LoginFromLooping(cfg, s, c);
    case Waiting => later := LoginFromWaiting(cfg, s, c);
    case Holding(p) =>
      if Decide(cfg.password, s.conns[c].authenticated, p).Accept? {
        later := LoginFromAccept(cfg, s, c);
      } else {
        later := LoginFromHolding(cfg, s, c);
      }
    case Replying(_, _) => later := LoginFromReplying(cfg, s, c);
  }

  lemma LoginFromPassed(cfg: Config, s: State, ip: string) returns (later: seq<Label>)
    requires s.listener == Passed(ip) && s.running
    ensures ip !in After(cfg, s, later).failed
  {
    later := LoginFromLooping(cfg, Step(cfg, s, Register), |s.conns|);
    OneStepFirst(cfg, s, Register, later);
    later := [Register] + later;
  }

  lemma HopeLifts(cfg: Config, s: State, ip: string) returns (later: seq<Label>)
    requires !NoHope(cfg, s, ip)
    ensures !IsBlocked(cfg, After(cfg, s, later), ip)
  {
    if s.listener == Passed(ip) && s.running {
      later := LoginFromPassed(cfg, s, ip);
    } else {
      var c :| 0 <= c < |s.conns| && s.conns[c].ip == ip && MayLogIn(cfg, s.running, s.conns[c]);
      later := LoginFromConn(cfg, s, c);
    }
  }

  /** Main result: from any state on, an address stays blocked whatever happens exactly when it is blocked and there
      is no hope left for it. */
  lemma BlockedForGood(cfg: Config, s: State, ip: string)
    ensures (forall later :: IsBlocked(cfg, After(cfg, s, later), ip)) <==>
            IsBlocked(cfg, s, ip) && NoHope(cfg, s, ip)
  {
    if IsBlocked(cfg, s, ip) && NoHope(cfg, s, ip) {
      forall later
        ensures IsBlocked(cfg, After(cfg, s, later), ip)
      {
        BlockStays(cfg, s, later, ip);
      }
    } else if NoHope(cfg, s, ip) {
      assert After(cfg, s, []) == s;
    } else {
      var later := HopeLifts(cfg, s, ip);
    }
  }
}
