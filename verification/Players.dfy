/** Online players, kicking, and the pass of the enforcement thread over them. */
module Players {
  import opened Text
  import opened BanFormat
  import opened BanStore

  /** An online player; `kickable` says that the kick call reaches him (he has a controller whose class
      offers the travel function). */
  datatype Player = Player(id: string, kickable: bool)

  // ---------- kicking ----------

  /** The first player from position `i` on whose id contains `id`, the number of players if there is none. */
  ghost function FirstMatch(players: seq<Player>, id: string, i: nat): (k: nat)
    requires i <= |players|
    ensures i <= k <= |players|
    ensures k < |players| ==> Contains(players[k].id, id)
    ensures forall j | i <= j < k :: !Contains(players[j].id, id)
    decreases |players| - i
  {
    if i == |players| || Contains(players[i].id, id) then i else FirstMatch(players, id, i + 1)
  }

  function Without(players: seq<Player>, k: nat): seq<Player>
    requires k < |players|
  {
    players[..k] + players[k + 1..]
  }

  /** The players left after a kick request. */
  ghost function Kick(players: seq<Player>, id: string): seq<Player> {
    var k := FirstMatch(players, id, 0);
    if k < |players| && players[k].kickable then Without(players, k) else players
  }

  ghost predicate KickSucceeds(players: seq<Player>, id: string) {
    var k := FirstMatch(players, id, 0);
    k < |players| && players[k].kickable
  }

  /** A kick succeeds exactly when somebody goes. */
  lemma KickSucceedsWhen(players: seq<Player>, id: string)
    ensures KickSucceeds(players, id) <==> Kick(players, id) != players
    ensures KickSucceeds(players, id) ==> |Kick(players, id)| == |players| - 1
  {
  }

  // ---------- one enforcement pass ----------

  /** The players left when those of `snapshot` are judged one after the other. */
  ghost function Enforce(entries: seq<BanEntry>, snapshot: seq<Player>, players: seq<Player>): seq<Player>
    decreases snapshot
  {
    if snapshot == [] then players
    else
      var next := if Banned(entries, snapshot[0].id) then Kick(players, snapshot[0].id) else players;
      Enforce(entries, snapshot[1..], next)
  }

  /** Nobody is banned for having no id. */
  lemma NoIdNoBan(entries: seq<BanEntry>)
    ensures !Banned(entries, "")
  {
  }

  /** Whom a pass is meant to remove. */
  ghost predicate Goes(entries: seq<BanEntry>, p: Player) { Banned(entries, p.id) && p.kickable }

  ghost predicate LeftAlone(entries: seq<BanEntry>, players: seq<Player>) {
    forall p :: p in players ==> !Goes(entries, p)
  }

  /** Everybody but the banned players who can be kicked. */
  ghost function Spared(entries: seq<BanEntry>, players: seq<Player>): seq<Player> {
    if players == [] then []
    else (if Goes(entries, players[0]) then [] else [players[0]])
         + Spared(entries, players[1..])
  }

  /** Account ids as the game hands them out: distinct, not empty, all of one length. */
  predicate UniformIds(players: seq<Player>) {
    && (forall i | 0 <= i < |players| :: players[i].id != "")
    && (forall i | 0 <= i < |players| :: |players[i].id| == |players[0].id|)
    && (forall i, j | 0 <= i < j < |players| :: players[i].id != players[j].id)
  }

  lemma ContainsOfEqualLength(s: string, pat: string)
    requires |s| == |pat|
    ensures Contains(s, pat) <==> s == pat
  {
    if Contains(s, pat) {
      var k: nat :| OccursAt(s, pat, k);
      assert s[k..k + |pat|] == s;
    }
    if s == pat {
      assert s[0..0 + |pat|] == pat;
      assert OccursAt(s, pat, 0);
    }
  }

  /** With uniform ids a kick hits exactly the player named. */
  lemma KickHitsNamed(players: seq<Player>, i: nat)
    requires UniformIds(players) && i < |players|
    ensures FirstMatch(players, players[i].id, 0) == i
  {
    var id := players[i].id;
    forall j | 0 <= j <= i
      ensures Contains(players[j].id, id) <==> j == i
    {
      ContainsOfEqualLength(players[j].id, id);
    }
  }

  lemma {:induction false} SparedKeeps(entries: seq<BanEntry>, players: seq<Player>)
    ensures forall p :: p in Spared(entries, players) <==>
                          p in players && !Goes(entries, p)
  {
    if players != [] {
      SparedKeeps(entries, players[1..]);
      assert forall p :: p in players <==> p == players[0] || p in players[1..];
    }
  }

  lemma {:induction false} SparedAll(entries: seq<BanEntry>, players: seq<Player>)
    requires LeftAlone(entries, players)
    ensures Spared(entries, players) == players
  {
    if players != [] {
      assert players[0] in players;
      SparedAll(entries, players[1..]);
      assert [players[0]] + players[1..] == players;
    }
  }

  // ---------- ids of any kind ----------

  /** Whoever is judged banned is so because his id holds the id of an entry, not because it is
      a piece of one. */
  ghost predicate BannedByWholeEntry(entries: seq<BanEntry>, players: seq<Player>) {
    forall p | p in players && Banned(entries, p.id) :: exists e :: e in entries && Contains(p.id, e.accountId)
  }

  lemma ContainsIsTransitive(a: string, b: string, c: string)
    requires Contains(a, b) && Contains(b, c)
    ensures Contains(a, c)
  {
    var i: nat :| OccursAt(a, b, i);
    var j: nat :| OccursAt(b, c, j);
    forall k: nat | k < |c|
      ensures a[i + j + k] == c[k]
    {
      OccursAgrees(a, b, i, j + k);
      OccursAgrees(b, c, j, k);
    }
    assert a[i + j..i + j + |c|] == c;
    assert OccursAt(a, c, i + j);
  }

  ghost function Unbanned(entries: seq<BanEntry>, players: seq<Player>): seq<Player> {
    if players == [] then []
    else (if Banned(entries, players[0].id) then [] else [players[0]]) + Unbanned(entries, players[1..])
  }

  lemma {:induction false} UnbannedConcat(entries: seq<BanEntry>, a: seq<Player>, b: seq<Player>)
    ensures Unbanned(entries, a + b) == Unbanned(entries, a) + Unbanned(entries, b)
  {
    if a == [] {
      assert a + b == b;
    } else {
      assert (a + b)[1..] == a[1..] + b;
      UnbannedConcat(entries, a[1..], b);
    }
  }

  /** A kick for this id can only take a banned player. */
  ghost predicate TakesOnlyBanned(entries: seq<BanEntry>, players: seq<Player>, id: string) {
    forall u | u in players && !Banned(entries, u.id) && u.kickable :: !Contains(u.id, id)
  }

  /** No banned player's id is a part of the id of an unbanned player within reach of a kick. */
  ghost predicate KicksAreSafe(entries: seq<BanEntry>, snapshot: seq<Player>, players: seq<Player>) {
    forall p | p in snapshot && Banned(entries, p.id) :: TakesOnlyBanned(entries, players, p.id)
  }

  lemma WithoutSplits(entries: seq<BanEntry>, players: seq<Player>, k: nat)
    requires k < |players|
    ensures Unbanned(entries, players) ==
            Unbanned(entries, players[..k]) + Unbanned(entries, [players[k]]) + Unbanned(entries, players[k + 1..])
    ensures Unbanned(entries, Without(players, k)) ==
            Unbanned(entries, players[..k]) + Unbanned(entries, players[k + 1..])
  {
    assert players == (players[..k] + [players[k]]) + players[k + 1..];
    UnbannedConcat(entries, players[..k] + [players[k]], players[k + 1..]);
    UnbannedConcat(entries, players[..k], [players[k]]);
    UnbannedConcat(entries, players[..k], players[k + 1..]);
  }

  lemma UnbannedOne(entries: seq<BanEntry>, p: Player)
    ensures Unbanned(entries, [p]) == if Banned(entries, p.id) then [] else [p]
  {
    assert [p][1..] == [];
  }

  lemma WithoutBanned(entries: seq<BanEntry>, players: seq<Player>, k: nat)
    requires k < |players| && Banned(entries, players[k].id)
    ensures Unbanned(entries, Without(players, k)) == Unbanned(entries, players)
  {
    WithoutSplits(entries, players, k);
    UnbannedOne(entries, players[k]);
  }

  lemma KickSparesUnbanned(entries: seq<BanEntry>, players: seq<Player>, id: string)
    requires TakesOnlyBanned(entries, players, id)
    ensures Unbanned(entries, Kick(players, id)) == Unbanned(entries, players)
  {
    var k := FirstMatch(players, id, 0);
    if k < |players| && players[k].kickable {
      assert players[k] in players;
      WithoutBanned(entries, players, k);
    }
  }

  lemma KickOnlyRemoves(entries: seq<BanEntry>, players: seq<Player>, id: string)
    ensures forall p :: p in Kick(players, id) ==> p in players
    ensures |Unbanned(entries, Kick(players, id))| <= |Unbanned(entries, players)|
  {
    var k := FirstMatch(players, id, 0);
    if k < |players| && players[k].kickable {
      WithoutSplits(entries, players, k);
    }
  }

  lemma {:induction false} SafePassSpares(entries: seq<BanEntry>, snapshot: seq<Player>, players: seq<Player>)
    requires KicksAreSafe(entries, snapshot, players)
    ensures Unbanned(entries, Enforce(entries, snapshot, players)) == Unbanned(entries, players)
    decreases snapshot
  {
    if snapshot != [] {
      var p := snapshot[0];
      assert p in snapshot;
      var next := if Banned(entries, p.id) then Kick(players, p.id) else players;
      if Banned(entries, p.id) {
        KickSparesUnbanned(entries, players, p.id);
        KickOnlyRemoves(entries, players, p.id);
      }
      assert KicksAreSafe(entries, snapshot[1..], next);
      SafePassSpares(entries, snapshot[1..], next);
    }
  }

  lemma {:induction false} PassOnlyRemoves(entries: seq<BanEntry>, snapshot: seq<Player>, players: seq<Player>)
    ensures |Unbanned(entries, Enforce(entries, snapshot, players))| <= |Unbanned(entries, players)|
    decreases snapshot
  {
    if snapshot != [] {
      var next := if Banned(entries, snapshot[0].id) then Kick(players, snapshot[0].id) else players;
      KickOnlyRemoves(entries, players, snapshot[0].id);
      PassOnlyRemoves(entries, snapshot[1..], next);
    }
  }

  /** The kick meant for `p` takes `u`, who is first in the list. */
  lemma PassTakesFirst(entries: seq<BanEntry>, u: Player, p: Player, rest: seq<Player>)
    requires Banned(entries, p.id) && !Banned(entries, u.id) && u.kickable && Contains(u.id, p.id)
    ensures var all := [u, p] + rest;
            |Unbanned(entries, Enforce(entries, all, all))| < |Unbanned(entries, all)|
  {
    var all := [u, p] + rest;
    assert all[1..] == [p] + rest && ([p] + rest)[1..] == rest;
    assert FirstMatch(all, p.id, 0) == 0;
    assert Kick(all, p.id) == [p] + rest;
    assert Enforce(entries, all, all) == Enforce(entries, [p] + rest, all) == Enforce(entries, rest, [p] + rest);
    PassOnlyRemoves(entries, rest, [p] + rest);
  }

  lemma TakeOut(players: seq<Player>, x: Player) returns (rest: seq<Player>)
    requires x in players
    ensures multiset([x] + rest) == multiset(players)
  {
    var i :| 0 <= i < |players| && players[i] == x;
    rest := players[..i] + players[i + 1..];
    assert players == players[..i] + [x] + players[i + 1..];
  }

  lemma TakeOutTwo(players: seq<Player>, u: Player, p: Player) returns (rest: seq<Player>)
    requires u in players && p in players && u != p
    ensures multiset([u, p] + rest) == multiset(players)
  {
    var others := TakeOut(players, u);
    assert p in multiset([u] + others);
    rest := TakeOut(others, p);
    assert [u, p] + rest == [u] + ([p] + rest);
  }

  /** A pass over these players, in whatever order they are found, removes no unbanned one. */
  ghost predicate SparesInAnyOrder(entries: seq<BanEntry>, players: seq<Player>) {
    forall ps | multiset(ps) == multiset(players) ::
      Unbanned(entries, Enforce(entries, ps, ps)) == Unbanned(entries, ps)
  }

  lemma SameMembers(a: seq<Player>, b: seq<Player>)
    requires multiset(a) == multiset(b)
    ensures forall p :: p in a <==> p in b
  {
    assert forall p :: p in a <==> p in multiset(a);
    assert forall p :: p in b <==> p in multiset(b);
  }

  lemma UnsafePassFails(entries: seq<BanEntry>, players: seq<Player>, p: Player, u: Player)
    requires p in players && Banned(entries, p.id)
    requires u in players && !Banned(entries, u.id) && u.kickable && Contains(u.id, p.id)
    ensures !SparesInAnyOrder(entries, players)
  {
    var rest := TakeOutTwo(players, u, p);
    PassTakesFirst(entries, u, p, rest);
  }

  /** Main result: with ids of any kind, a pass removes no unbanned player, whatever the order the players are found
      in, exactly when no banned player's id is a part of the id of an unbanned player within reach of a kick. */
  lemma PassSparesExactlyWhenSafe(entries: seq<BanEntry>, players: seq<Player>)
    ensures SparesInAnyOrder(entries, players) <==> KicksAreSafe(entries, players, players)
  {
    if KicksAreSafe(entries, players, players) {
      forall ps | multiset(ps) == multiset(players)
        ensures Unbanned(entries, Enforce(entries, ps, ps)) == Unbanned(entries, ps)
      {
        SameMembers(ps, players);
        SafePassSpares(entries, ps, ps);
      }
    } else {
      var p :| p in players && Banned(entries, p.id) && !TakesOnlyBanned(entries, players, p.id);
      var u :| u in players && !Banned(entries, u.id) && u.kickable && Contains(u.id, p.id);
      UnsafePassFails(entries, players, p, u);
    }
  }

  /** In particular nobody unbanned is removed when everybody banned is so for holding an entry. */
  lemma PassSparesUnbanned(entries: seq<BanEntry>, snapshot: seq<Player>, players: seq<Player>)
    requires BannedByWholeEntry(entries, snapshot)
    ensures Unbanned(entries, Enforce(entries, snapshot, players)) == Unbanned(entries, players)
  {
    forall p, u: Player | p in snapshot && Banned(entries, p.id) && Contains(u.id, p.id)
      ensures Banned(entries, u.id)
    {
      var e :| e in entries && Contains(p.id, e.accountId);
      ContainsIsTransitive(u.id, p.id, e.accountId);
      var at: nat :| OccursAt(u.id, p.id, at);
    }
    SafePassSpares(entries, snapshot, players);
  }

  /** And otherwise it may happen: `a` is judged banned for being a piece of `abc`, and the kick meant
      for him hits `xa`, who is not banned. */
  lemma PassMayHitUnbanned()
    ensures var entries := [BanEntry("abc", "", 0)];
            var players := [Player("xa", true), Player("a", true)];
            !Banned(entries, "xa") && Enforce(entries, players, players) == [Player("a", true)]
  {
    var entries := [BanEntry("abc", "", 0)];
    var xa, a := Player("xa", true), Player("a", true);
    var players := [xa, a];
    NotBannedXa(entries);
    assert "abc"[0..0 + 1] == "a";
    assert OccursAt("abc", "a", 0);
    assert entries[0] in entries;
    assert Banned(entries, "a");
    assert "xa"[1..1 + 1] == "a";
    assert OccursAt("xa", "a", 1);
    assert FirstMatch(players, "a", 0) == 0;
    assert Kick(players, "a") == [a];
    assert players[1..] == [a] && [a][1..] == [];
    assert Enforce(entries, [a], players) == Enforce(entries, [], [a]);
  }

  lemma NotBannedXa(entries: seq<BanEntry>)
    requires entries == [BanEntry("abc", "", 0)]
    ensures !Banned(entries, "xa")
  {
    forall k: nat
      ensures !OccursAt("abc", "xa", k)
    {
      OccursAgrees("abc", "xa", k, 0);
    }
  }

  // ---------- when a pass is exact ----------

  /** A kick for this banned player can hit `m` only if `m` is banned as well, and `m` is no shield for him. */
  ghost predicate HitsRight(entries: seq<BanEntry>, p: Player, m: Player) {
    Banned(entries, p.id) && Contains(m.id, p.id) ==>
      (m.kickable ==> Banned(entries, m.id)) && (p.kickable ==> m.kickable)
  }

  /** Whoever's id holds the id of a banned player is banned too if a kick reaches him, and if it reaches the banned
      one it reaches him. */
  ghost predicate KicksHitRight(entries: seq<BanEntry>, players: seq<Player>) {
    forall p, m | p in players && m in players :: HitsRight(entries, p, m)
  }

  lemma ContainsItself(s: string)
    ensures Contains(s, s)
  {
    ContainsOfEqualLength(s, s);
  }

  /** The players judged already and left alone cannot be hit: a kick for `p` hits `p`, or nobody. */
  lemma KickPassesBy(entries: seq<BanEntry>, done: seq<Player>, p: Player, rest: seq<Player>)
    requires Banned(entries, p.id) && KicksHitRight(entries, done + [p] + rest) && LeftAlone(entries, done)
    ensures Kick(done + [p] + rest, p.id) == if p.kickable then done + rest else done + [p] + rest
  {
    var all := done + [p] + rest;
    var k := FirstMatch(all, p.id, 0);
    assert all[|done|] == p && p in all;
    ContainsItself(p.id);
    assert HitsRight(entries, p, all[k]);
    if k < |done| {
      assert all[k] == done[k] && done[k] in done;
    } else {
      assert k == |done|;
      assert Without(all, k) == done + rest;
    }
  }

  lemma Fewer(entries: seq<BanEntry>, all: seq<Player>, fewer: seq<Player>)
    requires KicksHitRight(entries, all) && forall p :: p in fewer ==> p in all
    ensures KicksHitRight(entries, fewer)
  {
  }

  lemma Regrouped(done: seq<Player>, p: Player, more: seq<Player>)
    ensures (done + [p]) + more == done + ([p] + more)
  {
  }

  lemma JudgeOne(entries: seq<BanEntry>, done: seq<Player>, p: Player, more: seq<Player>)
    requires KicksHitRight(entries, done + [p] + more) && LeftAlone(entries, done)
    ensures Enforce(entries, [p] + more, done + [p] + more) ==
            Enforce(entries, more, if Goes(entries, p) then done + more else done + [p] + more)
  {
    assert ([p] + more)[1..] == more;
    if Banned(entries, p.id) {
      KickPassesBy(entries, done, p, more);
    }
  }

  lemma SparedOne(entries: seq<BanEntry>, p: Player, more: seq<Player>)
    ensures Spared(entries, [p] + more) ==
            if Goes(entries, p) then Spared(entries, more) else [p] + Spared(entries, more)
  {
    assert ([p] + more)[1..] == more && [] + Spared(entries, more) == Spared(entries, more);
  }

  lemma {:induction false} JudgeRest(entries: seq<BanEntry>, done: seq<Player>, rest: seq<Player>,
                                     all: seq<Player>)
    requires all == done + rest && KicksHitRight(entries, all) && LeftAlone(entries, done)
    ensures Enforce(entries, rest, all) == done + Spared(entries, rest)
    decreases rest
  {
    if rest != [] {
      var p, more := rest[0], rest[1..];
      assert rest == [p] + more;
      Regrouped(done, p, more);
      JudgeOne(entries, done, p, more);
      SparedOne(entries, p, more);
      if Goes(entries, p) {
        Fewer(entries, all, done + more);
        JudgeRest(entries, done, more, done + more);
      } else {
        JudgeRest(entries, done + [p], more, all);
        Regrouped(done, p, Spared(entries, more));
      }
    }
  }

  /** One pass with nobody joining leaves exactly the players who are not banned or cannot be kicked, in their
      order. */
  lemma PassIsExact(entries: seq<BanEntry>, players: seq<Player>)
    requires KicksHitRight(entries, players)
    ensures Enforce(entries, players, players) == Spared(entries, players)
  {
    assert [] + players == players && [] + Spared(entries, players) == Spared(entries, players);
    JudgeRest(entries, [], players, players);
  }

  /** Who is left after a pass. */
  lemma PassRemovesBanned(entries: seq<BanEntry>, players: seq<Player>)
    requires KicksHitRight(entries, players)
    ensures forall p :: p in Enforce(entries, players, players) <==>
                          p in players && !Goes(entries, p)
  {
    PassIsExact(entries, players);
    SparedKeeps(entries, players);
  }

  /** A second pass changes nothing. */
  lemma SecondPassIsIdle(entries: seq<BanEntry>, players: seq<Player>)
    requires KicksHitRight(entries, players)
    ensures var left := Enforce(entries, players, players);
            Enforce(entries, left, left) == left
  {
    PassIsExact(entries, players);
    SparedKeeps(entries, players);
    var left := Spared(entries, players);
    Fewer(entries, players, left);
    SparedAll(entries, left);
    PassIsExact(entries, left);
  }

  /** With ids as the game hands them out every kick hits right. */
  lemma UniformKicksHitRight(entries: seq<BanEntry>, players: seq<Player>)
    requires UniformIds(players)
    ensures KicksHitRight(entries, players)
  {
    forall p, m | p in players && m in players
      ensures HitsRight(entries, p, m)
    {
      var i :| 0 <= i < |players| && players[i] == p;
      var j :| 0 <= j < |players| && players[j] == m;
      ContainsOfEqualLength(m.id, p.id);
      assert i < j || j < i || p == m;
    }
  }

  /** A pass over these players, in whatever order they are found, leaves exactly the players it should. */
  ghost predicate ExactInAnyOrder(entries: seq<BanEntry>, players: seq<Player>) {
    forall ps | multiset(ps) == multiset(players) :: Enforce(entries, ps, ps) == Spared(entries, ps)
  }

  lemma {:induction false} SparedUnbanned(entries: seq<BanEntry>, players: seq<Player>)
    ensures Unbanned(entries, Spared(entries, players)) == Unbanned(entries, players)
  {
    if players != [] {
      var p, more := players[0], Spared(entries, players[1..]);
      SparedUnbanned(entries, players[1..]);
      UnbannedOne(entries, p);
      UnbannedConcat(entries, [p], more);
      assert [] + more == more;
    }
  }

  lemma ExactSpares(entries: seq<BanEntry>, players: seq<Player>)
    requires ExactInAnyOrder(entries, players)
    ensures SparesInAnyOrder(entries, players)
  {
    forall ps | multiset(ps) == multiset(players)
      ensures Unbanned(entries, Enforce(entries, ps, ps)) == Unbanned(entries, ps)
    {
      SparedUnbanned(entries, ps);
    }
  }

  /** A kick cannot reach `p` behind a shield. */
  lemma ShieldedFromKick(m: Player, p: Player, others: seq<Player>, id: string) returns (left: seq<Player>)
    requires !m.kickable && p.kickable && Contains(m.id, p.id) && p in others
    ensures Kick([m] + others, id) == [m] + left && p in left
  {
    var all := [m] + others;
    var k := FirstMatch(all, id, 0);
    left := others;
    if k < |all| && all[k].kickable {
      assert k > 0 && !Contains(all[0].id, id);
      if Contains(p.id, id) {
        ContainsIsTransitive(m.id, p.id, id);
      }
      assert others[k - 1] != p;
      left := others[..k - 1] + others[k..];
      assert others == others[..k - 1] + [others[k - 1]] + others[k..];
      assert Without(all, k) == [m] + left;
    }
  }

  /** A player without a controller whose id holds that of `p` shields him for good. */
  lemma {:induction false} ShieldedForGood(entries: seq<BanEntry>, snapshot: seq<Player>, m: Player, p: Player,
                                           others: seq<Player>)
    requires !m.kickable && p.kickable && Contains(m.id, p.id) && p in others
    ensures p in Enforce(entries, snapshot, [m] + others)
    decreases snapshot
  {
    if snapshot != [] {
      var left := others;
      if Banned(entries, snapshot[0].id) {
        left := ShieldedFromKick(m, p, others, snapshot[0].id);
      }
      ShieldedForGood(entries, snapshot[1..], m, p, left);
    }
  }

  lemma ShieldSpoilsPass(entries: seq<BanEntry>, players: seq<Player>, p: Player, m: Player)
    requires p in players && m in players && Banned(entries, p.id) && Contains(m.id, p.id)
    requires p.kickable && !m.kickable
    ensures !ExactInAnyOrder(entries, players)
  {
    var rest := TakeOutTwo(players, m, p);
    var others := [p] + rest;
    assert [m, p] + rest == [m] + others && p in others;
    ShieldedForGood(entries, [m] + others, m, p, others);
    SparedKeeps(entries, [m] + others);
  }

  /** Main result: with ids of any kind, a pass leaves exactly the players who are not banned or cannot be kicked,
      whatever the order they are found in, exactly when every kick hits right. */
  lemma PassExactWhenKicksHitRight(entries: seq<BanEntry>, players: seq<Player>)
    ensures ExactInAnyOrder(entries, players) <==> KicksHitRight(entries, players)
  {
    if KicksHitRight(entries, players) {
      forall ps | multiset(ps) == multiset(players)
        ensures Enforce(entries, ps, ps) == Spared(entries, ps)
      {
        SameMembers(ps, players);
        Fewer(entries, players, ps);
        PassIsExact(entries, ps);
      }
    } else {
      var p, m :| p in players && m in players && !HitsRight(entries, p, m);
      if m.kickable && !Banned(entries, m.id) {
        UnsafePassFails(entries, players, p, m);
        if ExactInAnyOrder(entries, players) {
          ExactSpares(entries, players);
        }
      } else {
        ShieldSpoilsPass(entries, players, p, m);
      }
    }
  }

  // ---------- the engine ----------

  /** The part of the engine that knows the players. */
  class Engine {
    var players: seq<Player>

    constructor (players: seq<Player>)
      ensures this.players == players
    {
      this.players := players;
    }

    method GetAllPlayers() returns (all: seq<Player>)
      ensures all == players
    {
      all := players;
    }

    method KickPlayer(id: string) returns (kicked: bool)
      modifies this
      ensures players == Kick(old(players), id)
      ensures kicked <==> KickSucceeds(old(players), id)
    {
      var all := GetAllPlayers();
      ghost var target := FirstMatch(all, id, 0);
      for i := 0 to |all|
        invariant players == all && i <= target
      {
        FindIsLeftmost(all[i].id, id);
        var found := FindIn(all[i].id, id, 0);
        if found.Some? {
          if !all[i].kickable {
            return false;
          }
          players := Without(players, i);
          return true;
        }
      }
      return false;
    }

    /** One pass of the enforcement thread. */
    method EnforceBans(bans: BanList)
      requires bans as object != this
      modifies this
      ensures players == Enforce(bans.entries, old(players), old(players))
    {
      var snapshot := GetAllPlayers();
      assert snapshot[0..] == snapshot;
      for i := 0 to |snapshot|
        invariant Enforce(bans.entries, snapshot[i..], players) == Enforce(bans.entries, snapshot, old(players))
      {
        var p := snapshot[i];
        assert snapshot[i..][1..] == snapshot[i + 1..];
        if p.id == "" {
          continue;
        }
        var banned := bans.IsBanned(p.id);
        if banned {
          var kicked := KickPlayer(p.id);
        }
      }
    }
  }
}
