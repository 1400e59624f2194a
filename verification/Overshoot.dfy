/** The bound on failed logins is sharp: the block check and the record of a failure are separate steps, so
    connections that got in before the limit was reached may all still fail. */
module Overshoot {
  import opened Wire
  import opened Access
  import opened ServerMachine
  import opened Lockout

  /** Some run leads to `s` and never has more than `p` live connections of the address. */
  ghost predicate Reached(cfg: Config, ip: string, p: nat, s: State) {
    exists labels :: Leads(cfg, ip, p, labels, s)
  }

  ghost predicate Leads(cfg: Config, ip: string, p: nat, labels: seq<Label>, s: State) {
    && Run(cfg, labels) == s
    && forall k | 0 <= k <= |labels| :: Live(Run(cfg, labels[..k]), ip) <= p
  }

  lemma ReachedStep(cfg: Config, ip: string, p: nat, s: State, l: Label)
    requires Reached(cfg, ip, p, s) && Live(Step(cfg, s, l), ip) <= p
    ensures Reached(cfg, ip, p, Step(cfg, s, l))
  {
    var labels :| Leads(cfg, ip, p, labels, s);
    var more := labels + [l];
    OneMoreStep(cfg, labels, l);
    forall k | 0 <= k <= |more|
      ensures Live(Run(cfg, more[..k]), ip) <= p
    {
      if k == |more| {
        assert more[..k] == more;
      } else {
        assert more[..k] == labels[..k];
      }
    }
    assert Leads(cfg, ip, p, more, Step(cfg, s, l));
  }

  /** `f` failures on record, and the last `w` connections are the live ones, all at the top of their loops. */
  predicate Ready(s: State, ip: string, w: nat, f: nat) {
    && s.running && s.listener.Idle? && Failures(s.failed, ip) == f
    && CountConns(s.conns, ip, true) == w <= |s.conns|
    && forall c | |s.conns| - w <= c < |s.conns| :: s.conns[c].ip == ip && s.conns[c].pc.Looping?
  }

  /** The steps that let a connection in. */
  lemma ConnectSteps(cfg: Config, ip: string, s: State)
    requires s.running && s.listener.Idle? && AddressAllowed(cfg.allowedIPs, ip)
    requires Failures(s.failed, ip) < cfg.maxFailedAttempts
    ensures Step(cfg, s, Listen) == s.(listener := Listening)
    ensures Step(cfg, s.(listener := Listening), Connect(ip)) == s.(listener := Accepted(ip))
    ensures Step(cfg, s.(listener := Accepted(ip)), CheckAllowed) == s.(listener := Allowed(ip))
    ensures Step(cfg, s.(listener := Allowed(ip)), CheckBlocked) == s.(listener := Passed(ip))
    ensures Step(cfg, s.(listener := Passed(ip)), Register) == s.(conns := s.conns + [NewConn(ip)])
  {
  }

  lemma PassIsReached(cfg: Config, ip: string, p: nat, s: State)
    requires Reached(cfg, ip, p, s) && s.running && s.listener.Idle? && CountConns(s.conns, ip, true) < p
    requires AddressAllowed(cfg.allowedIPs, ip) && Failures(s.failed, ip) < cfg.maxFailedAttempts
    ensures Reached(cfg, ip, p, s.(listener := Passed(ip)))
  {
    ConnectSteps(cfg, ip, s);
    ReachedStep(cfg, ip, p, s, Listen);
    ReachedStep(cfg, ip, p, s.(listener := Listening), Connect(ip));
    ReachedStep(cfg, ip, p, s.(listener := Accepted(ip)), CheckAllowed);
    ReachedStep(cfg, ip, p, s.(listener := Allowed(ip)), CheckBlocked);
  }

  lemma OneMoreReady(s: State, ip: string, w: nat, f: nat)
    requires Ready(s, ip, w, f)
    ensures Ready(s.(conns := s.conns + [NewConn(ip)]), ip, w + 1, f)
  {
    CountAppended(s.conns, NewConn(ip), ip, true);
  }

  /** Another connection gets in. */
  lemma OneMoreConnects(cfg: Config, ip: string, p: nat, s: State, w: nat, f: nat) returns (t: State)
    requires Reached(cfg, ip, p, s) && Ready(s, ip, w, f)
    requires AddressAllowed(cfg.allowedIPs, ip) && f < cfg.maxFailedAttempts && w < p
    ensures Reached(cfg, ip, p, t) && Ready(t, ip, w + 1, f)
  {
    PassIsReached(cfg, ip, p, s);
    t := s.(conns := s.conns + [NewConn(ip)]);
    OneMoreReady(s, ip, w, f);
    ConnectSteps(cfg, ip, s);
    ReachedStep(cfg, ip, p, s.(listener := Passed(ip)), Register);
  }

  const SORRY := Message(-1, AUTH_RESPONSE, [])

  function Wrong(cfg: Config): Packet { Packet(0, AUTH, cfg.password + [1]) }

  /** A connection at the top of its loop while its handler deals with a wrong password. */
  function Failing(cfg: Config, x: Conn, n: nat): Conn {
    if n == 0 then x.(pc := Waiting)
    else if n == 1 then x.(pc := Holding(Wrong(cfg)), got := x.got + [Wrong(cfg)])
    else if n == 2 then Failing(cfg, x, 1).(failed := true, pc := Replying(SORRY, true))
    else if n == 3 then Failing(cfg, x, 2).(sent := x.sent + [SORRY], pc := Closing)
    else Failing(cfg, x, 3).(pc := Erasing)
  }

  /** The table and its log with one failure more. */
  function OneFailed(s: State, c: nat): State
    requires c < |s.conns|
  {
    s.(failed := Recorded(s.failed, s.conns[c].ip), log := s.log + [Failure(c, s.conns[c].ip)])
  }

  lemma FailSteps(cfg: Config, s: State, c: nat)
    requires s.running && c < |s.conns| && s.conns[c].pc.Looping?
    ensures var x := s.conns[c];
            && Step(cfg, s, Test(c)) == At(s, c, Failing(cfg, x, 0))
            && Step(cfg, At(s, c, Failing(cfg, x, 0)), Receive(c, Wrong(cfg))) == At(s, c, Failing(cfg, x, 1))
            && Step(cfg, At(s, c, Failing(cfg, x, 1)), Act(c, [])) == At(OneFailed(s, c), c, Failing(cfg, x, 2))
  {
    assert |Wrong(cfg).body| != |cfg.password|;
  }

  lemma EndSteps(cfg: Config, s: State, c: nat, x: Conn)
    requires c < |s.conns|
    ensures Step(cfg, At(s, c, Failing(cfg, x, 2)), Send(c)) == At(s, c, Failing(cfg, x, 3))
    ensures Step(cfg, At(s, c, Failing(cfg, x, 3)), Close(c)) == At(s, c, Failing(cfg, x, 4))
  {
  }

  /** A step that changes one live connection does not add to the live ones. */
  lemma ReachedLocally(cfg: Config, ip: string, p: nat, s: State, c: nat, u: State, y: Conn, l: Label, v: State)
    requires c < |s.conns| && Counts(s.conns[c], ip, true) && s.listener.Idle? && CountConns(s.conns, ip, true) <= p
    requires Reached(cfg, ip, p, u) && v == Step(cfg, u, l)
    requires v.listener.Idle? && v.conns == s.conns[c := y]
    ensures Reached(cfg, ip, p, v)
  {
    CountUpdated(s.conns, c, y, ip, true);
    ReachedStep(cfg, ip, p, u, l);
  }

  lemma FailIsReached(cfg: Config, ip: string, p: nat, s: State, c: nat)
    requires Reached(cfg, ip, p, s) && s.running && s.listener.Idle? && CountConns(s.conns, ip, true) <= p
    requires c < |s.conns| && s.conns[c].ip == ip && s.conns[c].pc.Looping?
    ensures Reached(cfg, ip, p, At(OneFailed(s, c), c, Failing(cfg, s.conns[c], 2)))
  {
    var x := s.conns[c];
    var x0, x1, x2 := Failing(cfg, x, 0), Failing(cfg, x, 1), Failing(cfg, x, 2);
    FailSteps(cfg, s, c);
    ReachedLocally(cfg, ip, p, s, c, s, x0, Test(c), At(s, c, x0));
    ReachedLocally(cfg, ip, p, s, c, At(s, c, x0), x1, Receive(c, Wrong(cfg)), At(s, c, x1));
    ReachedLocally(cfg, ip, p, s, c, At(s, c, x1), x2, Act(c, []), At(OneFailed(s, c), c, x2));
  }

  lemma EndIsReached(cfg: Config, ip: string, p: nat, s: State, c: nat)
    requires s.listener.Idle? && CountConns(s.conns, ip, true) <= p
    requires c < |s.conns| && s.conns[c].ip == ip && s.conns[c].pc.Looping?
    requires Reached(cfg, ip, p, At(OneFailed(s, c), c, Failing(cfg, s.conns[c], 2)))
    ensures Reached(cfg, ip, p, At(OneFailed(s, c), c, Failing(cfg, s.conns[c], 4)))
  {
    var x, after := s.conns[c], OneFailed(s, c);
    var x3, x4 := Failing(cfg, x, 3), Failing(cfg, x, 4);
    EndSteps(cfg, after, c, x);
    ReachedLocally(cfg, ip, p, s, c, At(after, c, Failing(cfg, x, 2)), x3, Send(c), At(after, c, x3));
    ReachedLocally(cfg, ip, p, s, c, At(after, c, x3), x4, Close(c), At(after, c, x4));
  }

  lemma OneLessReady(cfg: Config, ip: string, s: State, w: nat, f: nat, c: nat)
    requires Ready(s, ip, w, f) && w > 0 && c == |s.conns| - w
    ensures Ready(At(OneFailed(s, c), c, Failing(cfg, s.conns[c], 4)), ip, w - 1, f + 1)
  {
    CountUpdated(s.conns, c, Failing(cfg, s.conns[c], 4), ip, true);
  }

  lemma FirstReady(s: State, ip: string, w: nat, f: nat)
    requires Ready(s, ip, w, f) && w > 0
    ensures var c := |s.conns| - w;
            && s.running && s.listener.Idle? && CountConns(s.conns, ip, true) == w
            && 0 <= c < |s.conns| && s.conns[c].ip == ip && s.conns[c].pc.Looping?
  {
  }

  /** The handler of one of them gets a wrong password and goes on to close its socket. */
  lemma OneFails(cfg: Config, ip: string, p: nat, s: State, w: nat, f: nat) returns (t: State)
    requires Reached(cfg, ip, p, s) && Ready(s, ip, w, f) && 0 < w <= p
    ensures Reached(cfg, ip, p, t) && Ready(t, ip, w - 1, f + 1)
  {
    FirstReady(s, ip, w, f);
    var c := |s.conns| - w;
    FailIsReached(cfg, ip, p, s, c);
    EndIsReached(cfg, ip, p, s, c);
    OneLessReady(cfg, ip, s, w, f, c);
    t := At(OneFailed(s, c), c, Failing(cfg, s.conns[c], 4));
  }

  /** `f` connections, one after the other, fail. */
  lemma {:induction false} FailOneByOne(cfg: Config, ip: string, p: nat, f: nat) returns (s: State)
    requires AddressAllowed(cfg.allowedIPs, ip) && f <= cfg.maxFailedAttempts && p > 0
    ensures Reached(cfg, ip, p, s) && Ready(s, ip, 0, f)
    decreases f
  {
    if f == 0 {
      s := INITIAL;
      var none: seq<Label> := [];
      assert none[..0] == none;
      assert Leads(cfg, ip, p, none, s);
    } else {
      s := FailOneByOne(cfg, ip, p, f - 1);
      s := OneMoreConnects(cfg, ip, p, s, 0, f - 1);
      s := OneFails(cfg, ip, p, s, 1, f - 1);
    }
  }

  /** `w` connections get in before the next one fails. */
  lemma {:induction false} ConnectTogether(cfg: Config, ip: string, p: nat, w: nat, f: nat) returns (s: State)
    requires AddressAllowed(cfg.allowedIPs, ip) && f < cfg.maxFailedAttempts && w <= p && p > 0
    ensures Reached(cfg, ip, p, s) && Ready(s, ip, w, f)
    decreases w
  {
    if w == 0 {
      s := FailOneByOne(cfg, ip, p, f);
    } else {
      s := ConnectTogether(cfg, ip, p, w - 1, f);
      s := OneMoreConnects(cfg, ip, p, s, w - 1, f);
    }
  }

  lemma {:induction false} FailTogether(cfg: Config, ip: string, p: nat, s: State, w: nat, f: nat) returns (t: State)
    requires Reached(cfg, ip, p, s) && Ready(s, ip, w, f) && w <= p
    ensures Reached(cfg, ip, p, t) && Ready(t, ip, 0, f + w)
    decreases w
  {
    if w == 0 {
      t := s;
    } else {
      t := OneFails(cfg, ip, p, s, w, f);
      t := FailTogether(cfg, ip, p, t, w - 1, f + 1);
    }
  }

  /** Main result: for every limit and every number `p` of simultaneous connections there is a run in which the
      failures of one address reach the limit plus `p - 1`, so the limit alone is no bound. */
  lemma BoundIsReached(cfg: Config, ip: string, p: nat)
    requires cfg.maxFailedAttempts > 0 && p > 0 && AddressAllowed(cfg.allowedIPs, ip)
    ensures exists labels ::
              && (forall k | 0 <= k <= |labels| :: Live(Run(cfg, labels[..k]), ip) <= p)
              && Failures(Run(cfg, labels).failed, ip) == cfg.maxFailedAttempts - 1 + p
  {
    var s := ConnectTogether(cfg, ip, p, p, cfg.maxFailedAttempts - 1);
    var t := FailTogether(cfg, ip, p, s, p, cfg.maxFailedAttempts - 1);
    var labels :| Leads(cfg, ip, p, labels, t);
  }
}
