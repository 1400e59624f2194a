/** What a connection has really sent when a command is run on it. A packet may be completed by what its buffer held
    before, so a command can be run although no login was sent; this says exactly when. */
module SentLogin {
  import opened Wire
  import opened SecureWire
  import opened Transport
  import opened Protocol
  import opened RconServer
  import opened Leftovers

  // ---------- what is put into the buffers ----------

  /** Nothing is longer than the packet buffer. */
  predicate Small(fronts: seq<Bytes>) { forall f :: f in fronts ==> |f| <= PACKET_SIZE }

  /** What the turns of a handler put into its buffers, whatever these held. */
  datatype Feed = Feed(fronts: seq<Bytes>, wire: Bytes, broken: bool)

  function FeedStep(before: Feed, t: Taken): Feed {
    if before.broken then before
    else
      match t
      case Nothing => Feed(before.fronts, [], true)
      case Front(bytes, rest) => Feed(before.fronts + [bytes], rest, false)
  }

  function FeedOf(link: Link, turns: seq<Turn>): (f: Feed)
    ensures Small(f.fronts)
  {
    if turns == [] then Feed([], [], false)
    else
      var before := FeedOf(link, turns[..|turns| - 1]);
      FeedStep(before, TakenFrom(link, before.wire + turns[|turns| - 1].arrival))
  }

  /** These bytes, completed by the buffers they were put into. */
  function Completed(stale: seq<Bytes>, fronts: seq<Bytes>): (got: seq<Packet>)
    requires |stale| >= |fronts| && Buffers(stale) && Small(fronts)
    ensures |got| == |fronts|
  {
    if fronts == [] then []
    else
      var n := |fronts| - 1;
      Completed(stale[..n], fronts[..n]) + [PacketIn(Overwrite(stale[n], 0, fronts[n]))]
  }

  lemma {:induction false} CompletedAt(stale: seq<Bytes>, fronts: seq<Bytes>, i: nat)
    requires |stale| >= |fronts| && Buffers(stale) && Small(fronts)
    requires i < |fronts|
    ensures Completed(stale, fronts)[i] == PacketIn(Overwrite(stale[i], 0, fronts[i]))
    decreases fronts
  {
    var n := |fronts| - 1;
    if i < n {
      CompletedAt(stale[..n], fronts[..n], i);
      assert stale[..n][i] == stale[i] && fronts[..n][i] == fronts[i];
    }
  }

  lemma CompletedGrows(stale: seq<Bytes>, fronts: seq<Bytes>, more: seq<Bytes>, bytes: Bytes)
    requires |stale| == |fronts| < |more| && more[..|stale|] == stale && Buffers(more)
    requires |bytes| <= PACKET_SIZE && Small(fronts)
    ensures Completed(more, fronts + [bytes]) ==
            Completed(stale, fronts) + [PacketIn(Overwrite(more[|fronts|], 0, bytes))]
  {
    assert (fronts + [bytes])[..|fronts|] == fronts;
  }

  lemma {:induction false} CompletedByFirst(stale: seq<Bytes>, n: nat, fronts: seq<Bytes>)
    requires |fronts| <= n <= |stale| && Buffers(stale) && Small(fronts)
    ensures Completed(stale[..n], fronts) == Completed(stale, fronts)
  {
    if fronts != [] {
      var m := |fronts| - 1;
      assert stale[..n][..m] == stale[..m];
    }
  }

  /** Feed and reception go together. */
  predicate Together(r: Reception, f: Feed, stale: seq<Bytes>)
    requires Buffers(stale) && Small(f.fronts)
  {
    && r.wire == f.wire && r.broken == f.broken && |f.fronts| <= |stale|
    && (!f.broken ==> |f.fronts| == |stale|)
    && r.packets == Completed(stale, f.fronts)
  }

  lemma TogetherGrows(r: Reception, f: Feed, stale: seq<Bytes>, t: Taken, a: Arrival)
    requires stale != [] && Buffers(stale) && Small(f.fronts)
    requires Together(r, f, stale[..|stale| - 1]) && (t.Front? ==> |t.bytes| <= PACKET_SIZE)
    requires a == match t case Nothing => Broken
                          case Front(bytes, rest) => Arrived(Overwrite(stale[|stale| - 1], 0, bytes), rest)
    ensures Together(ReceptionStep(r, a), FeedStep(f, t), stale)
  {
    var n := |stale| - 1;
    CompletedByFirst(stale, n, f.fronts);
    if !f.broken && t.Front? {
      CompletedGrows(stale[..n], f.fronts, stale, t.bytes);
    }
  }

  lemma FeedTurn(link: Link, turns: seq<Turn>)
    requires turns != []
    ensures var f := FeedOf(link, turns[..|turns| - 1]);
            FeedOf(link, turns) == FeedStep(f, TakenFrom(link, f.wire + turns[|turns| - 1].arrival))
  {
  }

  lemma ReceptionTurn(link: Link, stale: seq<Bytes>, turns: seq<Turn>)
    requires |stale| == |turns| > 0 && Buffers(stale)
    ensures var n := |turns| - 1;
            var r := Receptions(link, stale[..n], turns[..n], []);
            Receptions(link, stale, turns, []) ==
            ReceptionStep(r, ServerReceive(link, stale[n], r.wire + turns[n].arrival))
  {
  }

  lemma StepTogether(link: Link, r: Reception, f: Feed, stale: seq<Bytes>, arrival: Bytes)
    requires stale != [] && Buffers(stale) && Small(f.fronts)
    requires Together(r, f, stale[..|stale| - 1])
    ensures Together(ReceptionStep(r, ServerReceive(link, stale[|stale| - 1], r.wire + arrival)),
                     FeedStep(f, TakenFrom(link, f.wire + arrival)), stale)
  {
    var wire := f.wire + arrival;
    ReceiveTakes(link, stale[|stale| - 1], wire);
    TogetherGrows(r, f, stale, TakenFrom(link, wire), ServerReceive(link, stale[|stale| - 1], wire));
  }

  /** The packets a handler receives are what its turns put into its buffers, completed by what these held. */
  lemma {:induction false} ReceptionsAreFeed(link: Link, stale: seq<Bytes>, turns: seq<Turn>)
    requires |stale| == |turns| && Buffers(stale)
    ensures Together(Receptions(link, stale, turns, []), FeedOf(link, turns), stale)
    decreases turns
  {
    if turns != [] {
      var n := |turns| - 1;
      ReceptionsAreFeed(link, stale[..n], turns[..n]);
      FeedTurn(link, turns);
      ReceptionTurn(link, stale, turns);
      StepTogether(link, Receptions(link, stale[..n], turns[..n], []), FeedOf(link, turns[..n]), stale,
                   turns[n].arrival);
    }
  }

  /** These bytes are a login: AUTH is their type, and the password their body up to its zero or to their end. */
  predicate IsLogin(bytes: Bytes, password: Bytes) {
    |bytes| >= 12 && PacketOf(bytes).kind == AUTH && PacketOf(bytes).body == password
  }

  /** Before turn `at` some bytes sent were a login with this password. */
  ghost predicate LoginSentBefore(fronts: seq<Bytes>, at: nat, password: Bytes) {
    exists j :: 0 <= j < at && j < |fronts| && IsLogin(fronts[j], password)
  }

  // ---------- what a packet can be taken for ----------

  predicate MayBeLogin(bytes: Bytes, password: Bytes) {
    0 !in password && |password| <= BODY_SIZE && Shows(bytes, Fields(AUTH, password))
  }

  predicate MayBeCommand(bytes: Bytes) { Shows(bytes, PackI32(EXECCOMMAND)) }

  predicate MayBeIgnored(bytes: Bytes) {
    |bytes| < 12 || UnpackI32(bytes[8..12]) !in {AUTH, EXECCOMMAND}
  }

  /** A connection that is logged in may go on after this packet. */
  predicate MayPass(bytes: Bytes, password: Bytes) {
    MayBeLogin(bytes, password) || MayBeCommand(bytes) || MayBeIgnored(bytes)
  }

  predicate AllMayBeIgnored(fronts: seq<Bytes>) { forall k | 0 <= k < |fronts| :: MayBeIgnored(fronts[k]) }

  /** A connection that sent this may be logged in: all packets up to one that may be a login may be ignored, and
      after each later one it may go on. */
  predicate MayBeIn(fronts: seq<Bytes>, password: Bytes) {
    fronts != [] &&
    var n := |fronts| - 1;
    || (AllMayBeIgnored(fronts[..n]) && MayBeLogin(fronts[n], password))
    || (MayBeIn(fronts[..n], password) && MayPass(fronts[n], password))
  }

  /** A buffer that makes these bytes a packet of this kind. */
  predicate Makes(stale: Bytes, bytes: Bytes, password: Bytes, a: Action)
    requires |bytes| <= PACKET_SIZE
  {
    |stale| == PACKET_SIZE &&
    var p := PacketIn(Overwrite(stale, 0, bytes));
    match a
    case Accept => p.kind == AUTH && p.body == password
    case Execute(_) => p.kind == EXECCOMMAND
    case _ => p.kind !in {AUTH, EXECCOMMAND}
  }

  lemma TakenFor(stale: Bytes, bytes: Bytes, password: Bytes)
    requires |stale| == PACKET_SIZE && |bytes| <= PACKET_SIZE
    ensures Makes(stale, bytes, password, Accept) ==> MayBeLogin(bytes, password)
    ensures Makes(stale, bytes, password, Execute([])) ==> MayBeCommand(bytes)
    ensures Makes(stale, bytes, password, Ignore) ==> MayBeIgnored(bytes)
  {
    var buffer := Overwrite(stale, 0, bytes);
    if Makes(stale, bytes, password, Accept) {
      assert ReadableAs(bytes, AUTH, password);
      ReadableExactlyWhen(bytes, AUTH, password);
    }
    if Makes(stale, bytes, password, Execute([])) {
      KindShows(buffer, EXECCOMMAND);
      CompletedShows(stale, bytes, PackI32(EXECCOMMAND));
    }
    if |bytes| >= 12 {
      OverwriteFront(stale, bytes, 8, 12);
    }
  }

  lemma LoginBuffer(bytes: Bytes, password: Bytes) returns (stale: Bytes)
    requires |bytes| <= PACKET_SIZE && MayBeLogin(bytes, password)
    ensures Makes(stale, bytes, password, Accept)
  {
    ReadableExactlyWhen(bytes, AUTH, password);
    stale :| && |stale| == PACKET_SIZE
             && PacketIn(Overwrite(stale, 0, bytes)).kind == AUTH
             && PacketIn(Overwrite(stale, 0, bytes)).body == password;
  }

  lemma CommandBuffer(bytes: Bytes, password: Bytes) returns (stale: Bytes)
    requires |bytes| <= PACKET_SIZE && MayBeCommand(bytes)
    ensures Makes(stale, bytes, password, Execute([]))
  {
    stale := Filled(PackI32(EXECCOMMAND));
    CompletedShows(stale, bytes, PackI32(EXECCOMMAND));
    KindShows(Overwrite(stale, 0, bytes), EXECCOMMAND);
  }

  lemma IgnoredBuffer(bytes: Bytes, password: Bytes) returns (stale: Bytes)
    requires |bytes| <= PACKET_SIZE && MayBeIgnored(bytes)
    ensures Makes(stale, bytes, password, Ignore)
  {
    stale := Ones(PACKET_SIZE);
    var buffer := Overwrite(stale, 0, bytes);
    if |bytes| < 12 {
      assert buffer[8..12][3] == 1;
      TopByte(buffer[8..12]);
    } else {
      OverwriteFront(stale, bytes, 8, 12);
    }
  }

  lemma PassingBuffer(bytes: Bytes, password: Bytes) returns (stale: Bytes, a: Action)
    requires |bytes| <= PACKET_SIZE && MayPass(bytes, password)
    ensures a in {Accept, Execute([]), Ignore} && Makes(stale, bytes, password, a)
  {
    if MayBeLogin(bytes, password) {
      a := Accept;
      stale := LoginBuffer(bytes, password);
    } else if MayBeCommand(bytes) {
      a := Execute([]);
      stale := CommandBuffer(bytes, password);
    } else {
      a := Ignore;
      stale := IgnoredBuffer(bytes, password);
    }
  }

  // ---------- who may be logged in ----------

  lemma LastCompleted(stale: seq<Bytes>, fronts: seq<Bytes>)
    requires |stale| >= |fronts| > 0 && Buffers(stale) && Small(fronts)
    ensures var n := |fronts| - 1;
            Completed(stale, fronts) ==
            Completed(stale[..n], fronts[..n]) + [PacketIn(Overwrite(stale[n], 0, fronts[n]))]
  {
  }

  /** One more packet on a connection that goes on. */
  lemma InStep(password: Bytes, got: seq<Packet>, stale: Bytes, bytes: Bytes)
    requires |stale| == PACKET_SIZE && |bytes| <= PACKET_SIZE
    requires AllGoOn(password, got + [PacketIn(Overwrite(stale, 0, bytes))])
    ensures AllGoOn(password, got)
    ensures var all := got + [PacketIn(Overwrite(stale, 0, bytes))];
            if Authenticated(password, all) then
              MayBeLogin(bytes, password) || (Authenticated(password, got) && MayPass(bytes, password))
            else !Authenticated(password, got) && MayBeIgnored(bytes)
  {
    AuthenticatedStep(password, got, PacketIn(Overwrite(stale, 0, bytes)));
    TakenFor(stale, bytes, password);
  }

  lemma MayBeInGrows(fronts: seq<Bytes>, password: Bytes)
    requires fronts != []
    ensures var n := |fronts| - 1;
            && (AllMayBeIgnored(fronts) <==> AllMayBeIgnored(fronts[..n]) && MayBeIgnored(fronts[n]))
            && (MayBeIn(fronts, password) <==>
                  || (AllMayBeIgnored(fronts[..n]) && MayBeLogin(fronts[n], password))
                  || (MayBeIn(fronts[..n], password) && MayPass(fronts[n], password)))
  {
    assert forall k | 0 <= k < |fronts| - 1 :: fronts[..|fronts| - 1][k] == fronts[k];
  }

  /** Packet `j` may be the login, all before it may be ignored, and after each one behind it the connection may go
      on. */
  predicate LoggedInBy(fronts: seq<Bytes>, password: Bytes, j: nat)
    requires j < |fronts|
  {
    && MayBeLogin(fronts[j], password)
    && (forall k | 0 <= k < j :: MayBeIgnored(fronts[k]))
    && (forall k | j < k < |fronts| :: MayPass(fronts[k], password))
  }

  lemma LoggedInByGrows(fronts: seq<Bytes>, password: Bytes, j: nat)
    requires j < |fronts|
    ensures var n := |fronts| - 1;
            LoggedInBy(fronts, password, j) <==>
            if j == n then AllMayBeIgnored(fronts[..n]) && MayBeLogin(fronts[n], password)
            else LoggedInBy(fronts[..n], password, j) && MayPass(fronts[n], password)
  {
    var n := |fronts| - 1;
    assert forall k | 0 <= k < n :: fronts[..n][k] == fronts[k];
  }

  /** Who may be logged in, said without recursion. */
  lemma {:induction false} MayBeInMeans(fronts: seq<Bytes>, password: Bytes)
    ensures MayBeIn(fronts, password) <==> exists j :: 0 <= j < |fronts| && LoggedInBy(fronts, password, j)
    decreases fronts
  {
    if fronts != [] {
      var n := |fronts| - 1;
      MayBeInMeans(fronts[..n], password);
      forall j | 0 <= j <= n
        ensures LoggedInBy(fronts, password, j) <==>
                if j == n then AllMayBeIgnored(fronts[..n]) && MayBeLogin(fronts[n], password)
                else LoggedInBy(fronts[..n], password, j) && MayPass(fronts[n], password)
      {
        LoggedInByGrows(fronts, password, j);
      }
      assert LoggedInBy(fronts, password, n) <==> AllMayBeIgnored(fronts[..n]) && MayBeLogin(fronts[n], password);
    }
  }

  /** A connection that goes on and is logged in may be so, and one that is not has sent only what may be ignored. */
  lemma {:induction false} InMayBeIn(password: Bytes, stale: seq<Bytes>, fronts: seq<Bytes>)
    requires |stale| >= |fronts| && Buffers(stale) && Small(fronts)
    requires AllGoOn(password, Completed(stale, fronts))
    ensures if Authenticated(password, Completed(stale, fronts)) then MayBeIn(fronts, password)
            else AllMayBeIgnored(fronts)
    decreases fronts
  {
    if fronts != [] {
      var n := |fronts| - 1;
      LastCompleted(stale, fronts);
      InStep(password, Completed(stale[..n], fronts[..n]), stale[n], fronts[n]);
      InMayBeIn(password, stale[..n], fronts[..n]);
      MayBeInGrows(fronts, password);
    }
  }

  /** A buffer more. */
  lemma OneMoreBuffer(password: Bytes, stale: seq<Bytes>, fronts: seq<Bytes>, buffer: Bytes, a: Action)
    requires |stale| + 1 == |fronts| && Buffers(stale) && Small(fronts)
    requires Makes(buffer, fronts[|fronts| - 1], password, a) && a in {Accept, Execute([]), Ignore}
    requires var before := Completed(stale, fronts[..|fronts| - 1]);
             AllGoOn(password, before) && (a.Execute? ==> Authenticated(password, before))
    ensures Buffers(stale + [buffer])
    ensures var before, all := Completed(stale, fronts[..|fronts| - 1]), Completed(stale + [buffer], fronts);
            AllGoOn(password, all) && (Authenticated(password, all) <==> a.Accept? || Authenticated(password, before))
  {
    var n := |fronts| - 1;
    var p := PacketIn(Overwrite(buffer, 0, fronts[n]));
    assert (stale + [buffer])[..n] == stale;
    LastCompleted(stale + [buffer], fronts);
    AuthenticatedStep(password, Completed(stale, fronts[..n]), p);
  }

  lemma {:induction false} BuildOut(password: Bytes, fronts: seq<Bytes>) returns (stale: seq<Bytes>)
    requires Small(fronts) && AllMayBeIgnored(fronts)
    ensures |stale| == |fronts| && Buffers(stale)
    ensures AllGoOn(password, Completed(stale, fronts)) && !Authenticated(password, Completed(stale, fronts))
    decreases fronts
  {
    if fronts == [] {
      stale := [];
    } else {
      var n := |fronts| - 1;
      MayBeInGrows(fronts, password);
      var before := BuildOut(password, fronts[..n]);
      var buffer := IgnoredBuffer(fronts[n], password);
      OneMoreBuffer(password, before, fronts, buffer, Ignore);
      stale := before + [buffer];
    }
  }

  /** Buffers in which a connection that may be logged in is. */
  lemma {:induction false} BuildIn(password: Bytes, fronts: seq<Bytes>) returns (stale: seq<Bytes>)
    requires Small(fronts) && MayBeIn(fronts, password)
    ensures |stale| == |fronts| && Buffers(stale)
    ensures AllGoOn(password, Completed(stale, fronts)) && Authenticated(password, Completed(stale, fronts))
    decreases fronts
  {
    var n := |fronts| - 1;
    if AllMayBeIgnored(fronts[..n]) && MayBeLogin(fronts[n], password) {
      var before := BuildOut(password, fronts[..n]);
      var buffer := LoginBuffer(fronts[n], password);
      OneMoreBuffer(password, before, fronts, buffer, Accept);
      stale := before + [buffer];
    } else {
      var before := BuildIn(password, fronts[..n]);
      var buffer, a := PassingBuffer(fronts[n], password);
      OneMoreBuffer(password, before, fronts, buffer, a);
      stale := before + [buffer];
    }
  }

  // ---------- histories ----------

  lemma {:induction false} HistoryExists(password: Bytes, got: seq<Packet>) returns (h: History)
    requires AllGoOn(password, got)
    ensures AsCalledFor(password, h) && h.got == got
    decreases got
  {
    if got == [] {
      h := History([], [], [], []);
    } else {
      var before, p := got[..|got| - 1], got[|got| - 1];
      assert before + [p] == got;
      AuthenticatedStep(password, before, p);
      h := HistoryExists(password, before);
      NextAsCalledFor(password, h, p, Turn([], [], []));
      NextGoesOn(password, h, p, Turn([], [], []));
      h := Next(password, h, p, Turn([], [], []));
    }
  }

  /** The packet at this position had its command run. */
  ghost predicate RanAt(h: History, at: nat) { exists i :: 0 <= i < |h.ran| && h.ran[i].at == at }

  lemma CommandRuns(password: Bytes, got: seq<Packet>, p: Packet) returns (h: History)
    requires AllGoOn(password, got) && Authenticated(password, got) && p.kind == EXECCOMMAND
    ensures AsCalledFor(password, h) && h.got == got + [p] && RanAt(h, |got|)
  {
    var before := HistoryExists(password, got);
    var turn := Turn([], [], []);
    NextAsCalledFor(password, before, p, turn);
    NextExecuted(password, before, p, turn);
    h := Next(password, before, p, turn);
    assert h.ran[|before.ran|].at == |got|;
  }

  /** A command that was run was run on a logged-in connection that had gone on so far. */
  lemma RanWhenIn(password: Bytes, h: History, at: nat)
    requires AsCalledFor(password, h) && RanAt(h, at)
    ensures at < |h.got| && h.got[at].kind == EXECCOMMAND
    ensures AllGoOn(password, h.got[..at]) && Authenticated(password, h.got[..at])
  {
    var i :| 0 <= i < |h.ran| && h.ran[i].at == at;
    ExecutedInRange(password, h.got);
    assert ActionAt(password, h.got, at).Execute?;
    PrefixGoesOn(password, h.got, |h.got| - 1);
    PrefixGoesOn(password, h.got, at);
  }

  // ---------- when a command may be run ----------

  /** With some buffers a handler that receives these turns, or the first of them, runs the command of the packet
      at this position. */
  ghost predicate MayRunAt(link: Link, password: Bytes, turns: seq<Turn>, at: nat) {
    exists n: nat, stale, h ::
      && n <= |turns| && |stale| == n && Buffers(stale)
      && AsCalledFor(password, h) && h.got == Receptions(link, stale, turns[..n], []).packets && RanAt(h, at)
  }

  /** Every turn brings a packet until one breaks the connection. */
  lemma {:induction false} FeedLength(link: Link, turns: seq<Turn>)
    ensures var f := FeedOf(link, turns);
            if f.broken then |f.fronts| < |turns| else |f.fronts| == |turns|
    decreases turns
  {
    if turns != [] {
      FeedLength(link, turns[..|turns| - 1]);
    }
  }

  /** This feed may have come out of that one. */
  predicate Extends(f: Feed, before: Feed) {
    && |before.fronts| <= |f.fronts| && f.fronts[..|before.fronts|] == before.fronts
    && (before.broken ==> f == before)
  }

  lemma StepExtends(f: Feed, before: Feed, t: Taken)
    requires Extends(f, before)
    ensures Extends(FeedStep(f, t), before)
  {
  }

  lemma {:induction false} FeedExtends(link: Link, turns: seq<Turn>, n: nat)
    requires n <= |turns|
    ensures Extends(FeedOf(link, turns), FeedOf(link, turns[..n]))
    decreases turns
  {
    if n == |turns| {
      assert turns[..n] == turns;
    } else {
      var fewer := turns[..|turns| - 1];
      FeedExtends(link, fewer, n);
      assert fewer[..n] == turns[..n];
      var f := FeedOf(link, fewer);
      StepExtends(f, FeedOf(link, turns[..n]), TakenFrom(link, f.wire + turns[|turns| - 1].arrival));
    }
  }

  /** After fewer turns there are fewer packets, but the same ones. */
  lemma FeedPrefix(link: Link, turns: seq<Turn>, n: nat)
    requires n <= |turns|
    ensures var before, all := FeedOf(link, turns[..n]).fronts, FeedOf(link, turns).fronts;
            |before| <= n && |before| <= |all| && before == all[..|before|]
            && (n <= |all| ==> |before| == n)
  {
    FeedLength(link, turns[..n]);
    FeedExtends(link, turns, n);
  }

  /** The packets received after some of the turns are the first fronts, completed by the buffers. */
  lemma PacketsOfPrefix(link: Link, stale: seq<Bytes>, turns: seq<Turn>, n: nat) returns (m: nat)
    requires n <= |turns| && |stale| == n && Buffers(stale)
    ensures m <= n && m <= |FeedOf(link, turns).fronts|
    ensures n <= |FeedOf(link, turns).fronts| ==> m == n
    ensures Receptions(link, stale, turns[..n], []).packets == Completed(stale, FeedOf(link, turns).fronts[..m])
  {
    m := |FeedOf(link, turns[..n]).fronts|;
    FeedPrefix(link, turns, n);
    ReceptionsAreFeed(link, stale, turns[..n]);
  }

  lemma FewerFronts(fronts: seq<Bytes>, m: nat, at: nat)
    requires at <= m <= |fronts|
    ensures fronts[..m][..at] == fronts[..at] && (at < m ==> fronts[..m][at] == fronts[at])
  {
  }

  lemma {:induction false} CompletedPrefix(stale: seq<Bytes>, fronts: seq<Bytes>, at: nat)
    requires |stale| >= |fronts| && at <= |fronts| && Buffers(stale) && Small(fronts)
    ensures Completed(stale, fronts)[..at] == Completed(stale[..at], fronts[..at])
    decreases fronts
  {
    if at == |fronts| {
      assert fronts[..at] == fronts;
      CompletedByFirst(stale, at, fronts);
    } else {
      var n := |fronts| - 1;
      LastCompleted(stale, fronts);
      CompletedPrefix(stale[..n], fronts[..n], at);
      FewerFronts(stale, n, at);
      FewerFronts(fronts, n, at);
    }
  }

  lemma CompletedOneMore(stale: seq<Bytes>, fronts: seq<Bytes>, at: nat, buffer: Bytes)
    requires |stale| == at < |fronts| && Buffers(stale) && |buffer| == PACKET_SIZE && Small(fronts)
    ensures Buffers(stale + [buffer])
    ensures Completed(stale + [buffer], fronts[..at + 1]) ==
            Completed(stale, fronts[..at]) + [PacketIn(Overwrite(buffer, 0, fronts[at]))]
  {
    assert (stale + [buffer])[..at] == stale && fronts[..at + 1][..at] == fronts[..at];
    LastCompleted(stale + [buffer], fronts[..at + 1]);
  }

  lemma CommandWasMeant(stale: seq<Bytes>, fronts: seq<Bytes>, at: nat)
    requires |stale| >= |fronts| && at < |fronts| && Buffers(stale) && Small(fronts)
    ensures Completed(stale, fronts)[at].kind == EXECCOMMAND ==> MayBeCommand(fronts[at])
  {
    CompletedAt(stale, fronts, at);
    TakenFor(stale[at], fronts[at], []);
  }

  lemma InWasMeant(password: Bytes, stale: seq<Bytes>, fronts: seq<Bytes>, at: nat)
    requires |stale| >= |fronts| && at < |fronts| && Buffers(stale) && Small(fronts)
    requires AllGoOn(password, Completed(stale, fronts)[..at])
    requires Authenticated(password, Completed(stale, fronts)[..at])
    ensures MayBeIn(fronts[..at], password)
  {
    CompletedPrefix(stale, fronts, at);
    InMayBeIn(password, stale[..at], fronts[..at]);
  }

  lemma RunIsMeant(password: Bytes, stale: seq<Bytes>, fronts: seq<Bytes>, h: History, at: nat)
    requires |stale| >= |fronts| && Buffers(stale) && Small(fronts)
    ensures AsCalledFor(password, h) && h.got == Completed(stale, fronts) && RanAt(h, at) ==>
              at < |fronts| && MayBeIn(fronts[..at], password) && MayBeCommand(fronts[at])
  {
    if AsCalledFor(password, h) && h.got == Completed(stale, fronts) && RanAt(h, at) {
      RanWhenIn(password, h, at);
      InWasMeant(password, stale, fronts, at);
      CommandWasMeant(stale, fronts, at);
    }
  }

  lemma RunMeansMayRun(link: Link, password: Bytes, turns: seq<Turn>, at: nat)
    ensures MayRunAt(link, password, turns, at) ==>
              var fronts := FeedOf(link, turns).fronts;
              at < |fronts| && MayBeIn(fronts[..at], password) && MayBeCommand(fronts[at])
  {
    if MayRunAt(link, password, turns, at) {
      var n: nat, stale, h :|
        && n <= |turns| && |stale| == n && Buffers(stale)
        && AsCalledFor(password, h) && h.got == Receptions(link, stale, turns[..n], []).packets && RanAt(h, at);
      var fronts := FeedOf(link, turns).fronts;
      var m := PacketsOfPrefix(link, stale, turns, n);
      RunIsMeant(password, stale, fronts[..m], h, at);
      FewerFronts(fronts, m, at);
    }
  }

  /** Buffers and a history in which the command is run. */
  lemma BuildRun(password: Bytes, fronts: seq<Bytes>, at: nat) returns (stale: seq<Bytes>, h: History)
    requires Small(fronts) && at < |fronts| && MayBeIn(fronts[..at], password) && MayBeCommand(fronts[at])
    ensures |stale| == at + 1 && Buffers(stale) && AsCalledFor(password, h) && RanAt(h, at)
    ensures h.got == Completed(stale, fronts[..at + 1])
  {
    var before := BuildIn(password, fronts[..at]);
    var buffer := CommandBuffer(fronts[at], password);
    CompletedOneMore(before, fronts, at, buffer);
    h := CommandRuns(password, Completed(before, fronts[..at]), PacketIn(Overwrite(buffer, 0, fronts[at])));
    stale := before + [buffer];
  }

  lemma MayRunMeansRun(link: Link, password: Bytes, turns: seq<Turn>, fronts: seq<Bytes>, at: nat)
    requires fronts == FeedOf(link, turns).fronts
    requires at < |fronts| && MayBeIn(fronts[..at], password) && MayBeCommand(fronts[at])
    ensures MayRunAt(link, password, turns, at)
  {
    var stale, h := BuildRun(password, fronts, at);
    FeedLength(link, turns);
    var m := PacketsOfPrefix(link, stale, turns, at + 1);
  }

  /** Main result: the command of a packet may be run, with some contents of the buffers, exactly when the bytes sent
      before may have logged the connection in and its own may be a command. */
  lemma RunsExactlyWhen(link: Link, password: Bytes, turns: seq<Turn>, at: nat)
    ensures MayRunAt(link, password, turns, at) <==>
            var fronts := FeedOf(link, turns).fronts;
            at < |fronts| && MayBeIn(fronts[..at], password) && MayBeCommand(fronts[at])
  {
    RunMeansMayRun(link, password, turns, at);
    var fronts := FeedOf(link, turns).fronts;
    if at < |fronts| && MayBeIn(fronts[..at], password) && MayBeCommand(fronts[at]) {
      MayRunMeansRun(link, password, turns, fronts, at);
    }
  }

  // ---------- when every command follows a login that was sent ----------

  /** Whatever the buffers held, a command is run only behind bytes sent on the connection that are a login. */
  ghost predicate LoginsAreSent(link: Link, password: Bytes, turns: seq<Turn>) {
    forall at: nat | MayRunAt(link, password, turns, at) ::
      LoginSentBefore(FeedOf(link, turns).fronts, at, password)
  }

  /** Where the bytes may have logged the connection in and may be a command, a login was sent. */
  ghost predicate NoFreeCommand(fronts: seq<Bytes>, password: Bytes) {
    forall at | 0 <= at < |fronts| && MayBeIn(fronts[..at], password) && MayBeCommand(fronts[at]) ::
      LoginSentBefore(fronts, at, password)
  }

  /** Main result: every command run on a connection follows a login sent on that very connection, whatever the
      buffers held, exactly when its bytes leave room for no other command. */
  lemma LoginsAreSentExactlyWhen(link: Link, password: Bytes, turns: seq<Turn>)
    ensures LoginsAreSent(link, password, turns) <==> NoFreeCommand(FeedOf(link, turns).fronts, password)
  {
    forall at: nat
      ensures MayRunAt(link, password, turns, at) <==>
              var fronts := FeedOf(link, turns).fronts;
              at < |fronts| && MayBeIn(fronts[..at], password) && MayBeCommand(fronts[at])
    {
      RunsExactlyWhen(link, password, turns, at);
    }
  }

  lemma CompleteLogin(bytes: Bytes, password: Bytes)
    requires |bytes| <= PACKET_SIZE && Complete(bytes) && MayBeLogin(bytes, password)
    ensures IsLogin(bytes, password)
  {
    var stale := LoginBuffer(bytes, password);
    CompleteIsPacket(stale, bytes);
  }

  predicate AllComplete(fronts: seq<Bytes>) { forall k | 0 <= k < |fronts| :: Complete(fronts[k]) }

  /** In particular it is so when every packet of the connection is complete. */
  lemma CommandsFollowSentLogin(link: Link, password: Bytes, turns: seq<Turn>)
    requires AllComplete(FeedOf(link, turns).fronts)
    ensures LoginsAreSent(link, password, turns)
  {
    var fronts := FeedOf(link, turns).fronts;
    forall at | 0 <= at < |fronts| && MayBeIn(fronts[..at], password) && MayBeCommand(fronts[at])
      ensures LoginSentBefore(fronts, at, password)
    {
      MayBeInMeans(fronts[..at], password);
      var j :| 0 <= j < at && LoggedInBy(fronts[..at], password, j);
      CompleteLogin(fronts[j], password);
    }
    LoginsAreSentExactlyWhen(link, password, turns);
  }

  // ---------- a command without a login ----------

  lemma TakenRequest(id: Int32, kind: Int32, body: Bytes)
    requires |body| <= 4085
    ensures TakenPlain(RequestFrame(id, kind, body)) == Front(RequestFrame(id, kind, body), [])
    ensures RequestFrame(id, kind, body)[8..12] == PackI32(kind)
  {
    var wire := RequestFrame(id, kind, body);
    UnpackPackI32(|body| + 11);
    assert wire[..4] == PackI32(|body| + 11) && wire[..|body| + 14] == wire;
  }

  lemma FeedOfOne(link: Link, turn: Turn, bytes: Bytes)
    requires TakenFrom(link, turn.arrival) == Front(bytes, [])
    ensures FeedOf(link, [turn]) == Feed([bytes], [], false)
  {
    FeedTurn(link, [turn]);
    assert FeedOf(link, [turn][..0]) == Feed([], [], false) && [] + turn.arrival == turn.arrival;
  }

  lemma FeedOfTwo(link: Link, first: Turn, second: Turn, a: Bytes, b: Bytes)
    requires TakenFrom(link, first.arrival) == Front(a, []) && TakenFrom(link, second.arrival) == Front(b, [])
    ensures FeedOf(link, [first, second]).fronts == [a, b]
  {
    FeedOfOne(link, first, a);
    FeedTurn(link, [first, second]);
    assert [first, second][..1] == [first] && [] + second.arrival == second.arrival;
  }

  lemma ShortIsNoLogin(a: Bytes, b: Bytes, password: Bytes)
    requires |a| == 8 && 0 !in password && |password| <= BODY_SIZE
    ensures MayBeIn([a, b][..1], password) && !LoginSentBefore([a, b], 1, password)
  {
    assert [a, b][..1] == [a];
    assert MayBeLogin(a, password);
  }

  lemma CommandIsCommand(b: Bytes)
    requires |b| >= 12 && b[8..12] == PackI32(EXECCOMMAND)
    ensures MayBeCommand(b)
  {
    assert forall k | 8 <= k < 12 :: b[k] == b[8..12][k - 8];
  }

  /** Eight bytes and a command, and no login, may have the command run. */
  lemma CommandWithoutLogin(id: Int32, password: Bytes, command: Bytes, first: Turn, second: Turn)
    requires 0 !in password && |password| <= BODY_SIZE && |command| <= 4085
    requires first.arrival == PackI32(4) + PackI32(id)
    requires second.arrival == RequestFrame(id, EXECCOMMAND, command)
    ensures MayRunAt(Plain, password, [first, second], 1)
    ensures !LoginSentBefore(FeedOf(Plain, [first, second]).fronts, 1, password)
  {
    TakenShort(id);
    TakenRequest(id, EXECCOMMAND, command);
    FeedOfTwo(Plain, first, second, first.arrival, second.arrival);
    ShortIsNoLogin(first.arrival, second.arrival, password);
    CommandIsCommand(second.arrival);
    MayRunMeansRun(Plain, password, [first, second], [first.arrival, second.arrival], 1);
  }
}
