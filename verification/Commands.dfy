/** The ban and unban commands: how their arguments are read and what they do to list, file and players. */
module Commands {
  import opened Basics
  import opened Text
  import opened BanFormat
  import opened BanStore
  import opened Players

  // ---------- arguments ----------

  /** The account id and the reason of a ban command. */
  datatype BanArgs = BanArgs(id: string, reason: string)

  /** The id ends at the first space; blanks in front of the reason are dropped. */
  ghost function SplitAtSpace(rest: string): BanArgs {
    match Find(rest, " ")
    case None => BanArgs(rest, "")
    case Some(sp) => BanArgs(rest[..sp], StripLeft(rest[sp + 1..]))
  }

  /** What a ban command names, `None` when there is nothing but blanks. */
  ghost function ParseBan(args: string): Option<BanArgs> {
    if StripLeft(args) == "" then None else Some(SplitAtSpace(StripLeft(args)))
  }

  /** The full id of the first online player whose id contains the given text, or the text itself. */
  ghost function Resolve(online: seq<Player>, id: string): string {
    var k := FirstMatch(online, id, 0);
    if k < |online| then online[k].id else id
  }

  /** An id that a ban command names is not empty and holds no space; a reason has no blank in front. */
  lemma BanArgsShape(args: string)
    ensures ParseBan(args).Some? ==>
              && ParseBan(args).value.id != "" && ' ' !in ParseBan(args).value.id
              && (ParseBan(args).value.reason == "" || !Blank(ParseBan(args).value.reason[0]))
    ensures ParseBan(args).None? <==> forall i | 0 <= i < |args| :: Blank(args[i])
  {
    var rest := StripLeft(args);
    StripLeftIsSuffix(args);
    var k: nat :| k <= |args| && rest == args[k..] && forall j | 0 <= j < k :: Blank(args[j]);
    if rest != "" {
      assert args[k] == rest[0];
      FindIsLeftmost(rest, " ");
      var sp := Find(rest, " ");
      if sp.Some? {
        FindSingleBefore(rest, ' ');
        StripLeftIsSuffix(rest[sp.value + 1..]);
      } else {
        forall i: nat | i < |rest|
          ensures rest[i] != ' '
        {
          assert !OccursAt(rest, " ", i);
          assert rest[i..i + 1] == [rest[i]];
        }
      }
    }
  }

  /** What a ban command means by the text it names: the id of the first online player whose id contains it, and the
      text itself when there is none. */
  ghost predicate Names(online: seq<Player>, typed: string, target: string) {
    || (exists k :: && 0 <= k < |online| && Contains(online[k].id, typed) && target == online[k].id
                    && forall j | 0 <= j < k :: !Contains(online[j].id, typed))
    || (target == typed && forall j | 0 <= j < |online| :: !Contains(online[j].id, typed))
  }

  lemma ResolveNames(online: seq<Player>, typed: string, target: string)
    ensures Names(online, typed, target) <==> target == Resolve(online, typed)
  {
    var k := FirstMatch(online, typed, 0);
    if j :| && 0 <= j < |online| && Contains(online[j].id, typed) && target == online[j].id
            && forall i | 0 <= i < j :: !Contains(online[i].id, typed) {
      assert j == k;
    }
  }

  lemma NoSpaceNoSplit(id: string)
    requires ' ' !in id
    ensures Find(id, " ") == None
  {
    FindIsLeftmost(id, " ");
    if Find(id, " ").Some? {
      OccursAgrees(id, " ", Find(id, " ").value, 0);
    }
  }

  /** Main result: behind leading blanks, the id is what stands before the first space, and the reason what stands
      behind it and any further blanks. */
  lemma BanLineIs(a: string, id: string, b: string, reason: string)
    requires AllBlank(a) && AllBlank(b) && id != "" && !Blank(id[0]) && ' ' !in id
    requires reason == "" || !Blank(reason[0])
    ensures ParseBan(a + id) == Some(BanArgs(id, ""))
    ensures ParseBan(a + (id + " " + (b + reason))) == Some(BanArgs(id, reason))
  {
    var rest := id + " " + (b + reason);
    StripLeftOf(a, id);
    NoSpaceNoSplit(id);
    StripLeftOf(a, rest);
    assert rest == id + [' '] + (b + reason);
    FindSingle(id, ' ', b + reason);
    assert rest[..|id|] == id && rest[|id| + 1..] == b + reason;
    StripLeftOf(b, reason);
  }

  /** What the lines of the two commands do to the list. */
  lemma BanLineBans(a: string, id: string, b: string, reason: string, online: seq<Player>, now: Time, target: string)
    requires AllBlank(a) && AllBlank(b) && id != "" && !Blank(id[0]) && ' ' !in id
    requires (reason == "" || !Blank(reason[0])) && Names(online, id, target)
    ensures EventOf(BanLine(a + (id + " " + (b + reason)), online, now)) == Ban(target, reason, now)
    ensures EventOf(BanLine(a + id, online, now)) == Ban(target, "", now)
  {
    BanLineIs(a, id, b, reason);
    ResolveNames(online, id, target);
  }

  /** Who is banned for a part of his id is the one who is kicked: no earlier player's id holds the whole id. */
  lemma BanKicksTheNamed(online: seq<Player>, typed: string, k: nat)
    requires k < |online| && Contains(online[k].id, typed)
    requires forall j | 0 <= j < k :: !Contains(online[j].id, typed)
    ensures Names(online, typed, online[k].id)
    ensures Kick(online, online[k].id) == if online[k].kickable then Without(online, k) else online
  {
    ContainsItself(online[k].id);
    forall j | 0 <= j < k
      ensures !Contains(online[j].id, online[k].id)
    {
      if Contains(online[j].id, online[k].id) {
        ContainsIsTransitive(online[j].id, online[k].id, typed);
      }
    }
    assert FirstMatch(online, online[k].id, 0) == k;
  }

  /** An unban takes its text as it is, blanks at the end included. */
  lemma UnbanLineUnbans(a: string, id: string)
    requires AllBlank(a) && (id == "" || !Blank(id[0]))
    ensures EventOf(UnbanLine(a + id)) == Unban(id)
  {
    StripLeftOf(a, id);
  }

  // ---------- replies ----------

  function BanReply(id: string, reason: string, added: bool, kicked: bool): string {
    (if added then "Banned " + id + (if reason == "" then "" else " (" + reason + ")") + "\n"
     else id + " was already banned\n")
    + (if kicked then "Player was online and has been kicked\n" else "")
  }

  function UnbanReply(id: string, removed: bool): string {
    if id == "" then "Usage: unban <account_id>\n"
    else if removed then "Unbanned " + id + "\n"
    else "No exact ban entry for " + id + "\n"
  }

  /** What the replies begin with, and what a kick adds to one. */
  lemma BanReplyTells(id: string, reason: string, kicked: bool)
    ensures reason != "" ==> "Banned " + id + " (" + reason + ")\n" <= BanReply(id, reason, true, kicked)
    ensures "Banned " + id + "\n" <= BanReply(id, "", true, kicked)
    ensures id + " was already banned\n" <= BanReply(id, reason, false, kicked)
  {
  }

  lemma KickIsTold(id: string, reason: string, added: bool)
    ensures BanReply(id, reason, added, true)
         == BanReply(id, reason, added, false) + "Player was online and has been kicked\n"
  {
  }

  lemma UnbanReplyTells(id: string)
    requires id != ""
    ensures "Unbanned " <= UnbanReply(id, true) && "No exact ban entry for " <= UnbanReply(id, false)
  {
  }

  // ---------- whole runs of commands ----------

  datatype Command =
    | BanLine(args: string, online: seq<Player>, now: Time)
    | UnbanLine(args: string)
    | RestartServer

  /** What a command line does to the ban list; a ban without an id does nothing. */
  ghost function EventOf(c: Command): Event {
    match c
    case BanLine(args, online, now) =>
      (match ParseBan(args)
       case None => Ban("", "", now)
       case Some(a) => Ban(Resolve(online, a.id), a.reason, now))
    case UnbanLine(args) => Unban(StripLeft(args))
    case RestartServer => Restart
  }

  ghost function EventsOf(cs: seq<Command>): (evs: seq<Event>)
    ensures |evs| == |cs|
    ensures forall i | 0 <= i < |cs| :: evs[i] == EventOf(cs[i])
  {
    if cs == [] then [] else EventsOf(cs[..|cs| - 1]) + [EventOf(cs[|cs| - 1])]
  }

  /** What the file can carry, in terms of what was typed and who is online: behind its leading blanks the line
      has no quote, backslash or control character, online ids have none either, and the reason is not the
      word accountId. */
  ghost predicate FileCarries(c: Command) {
    match c
    case BanLine(args, online, now) =>
      && PlainText(StripLeft(args))
      && (forall i | 0 <= i < |online| :: online[i].id != "" && PlainText(online[i].id))
      && (ParseBan(args).Some? ==> ParseBan(args).value.reason != "accountId")
    case _ => true
  }

  lemma StripKeepsPlain(s: string)
    requires PlainText(s)
    ensures PlainText(StripLeft(s))
  {
    StripLeftIsSuffix(s);
    var k: nat :| k <= |s| && StripLeft(s) == s[k..];
    assert forall x :: x in s[k..] ==> x in s;
  }

  lemma SplitKeepsPlain(rest: string)
    requires PlainText(rest)
    ensures PlainText(SplitAtSpace(rest).id) && PlainText(SplitAtSpace(rest).reason)
  {
    var sp := Find(rest, " ");
    if sp.Some? {
      var tail := rest[sp.value + 1..];
      assert forall x :: x in tail ==> x in rest;
      assert forall x :: x in rest[..sp.value] ==> x in rest;
      StripKeepsPlain(tail);
    }
  }

  lemma CarriedIsPlain(c: Command)
    requires FileCarries(c)
    ensures PlainBan(EventOf(c))
  {
    if c.BanLine? && ParseBan(c.args).Some? {
      BanArgsShape(c.args);
      SplitKeepsPlain(StripLeft(c.args));
    }
  }

  lemma CarriedRunIsPlain(cs: seq<Command>)
    requires forall i | 0 <= i < |cs| :: FileCarries(cs[i])
    ensures forall i | 0 <= i < |cs| :: PlainBan(EventsOf(cs)[i])
  {
    forall i | 0 <= i < |cs|
      ensures PlainBan(EventsOf(cs)[i])
    {
      CarriedIsPlain(cs[i]);
    }
  }

  /** Main result: over every run of ban and unban commands and restarts whose texts the file can carry, memory
      and file agree, and ids stay non-empty and distinct. */
  lemma CommandsKeepAgreement(cs: seq<Command>)
    requires forall i | 0 <= i < |cs| :: FileCarries(cs[i])
    ensures InStep(Run(EventsOf(cs))) && DistinctIds(Run(EventsOf(cs)).entries)
  {
    CarriedRunIsPlain(cs);
    DiskAndMemoryAgree(EventsOf(cs));
  }

  /** A restart at the end of such a run changes nothing. */
  lemma CommandsSurviveRestart(cs: seq<Command>)
    requires forall i | 0 <= i < |cs| :: FileCarries(cs[i])
    ensures Reload(Run(EventsOf(cs))) == Run(EventsOf(cs))
  {
    CarriedRunIsPlain(cs);
    ReloadAnyTime(EventsOf(cs));
  }

  // ---------- ban against unban, ban against enforcement ----------

  /** After a ban command the resolved id is banned, whether it was before or not. */
  lemma BanTakesEffect(s: Store, id: string, reason: string, now: Time)
    requires id != ""
    ensures Banned(AddTo(s, id, reason, now).entries, id)
  {
    var es := AddTo(s, id, reason, now).entries;
    var i := IndexOf(s.entries, id);
    var e := if i < |s.entries| then s.entries[i] else BanEntry(id, reason, now);
    assert es[i] == e && e in es;
    ContainsOfEqualLength(id, id);
  }

  /** Unbanning the text that was banned restores the list exactly when the text was not expanded to the id of
      an online player: unban takes no part of an id. */
  lemma UnbanUndoesBan(s: Store, online: seq<Player>, id: string, reason: string, now: Time)
    requires id != "" && !HasId(s.entries, id)
    requires Resolve(online, id) != "" && !HasId(s.entries, Resolve(online, id))
    ensures RemoveFrom(AddTo(s, Resolve(online, id), reason, now), id).entries == s.entries <==>
            Resolve(online, id) == id
  {
    var r := Resolve(online, id);
    if r == id {
      RemoveUndoesAdd(s, id, reason, now);
    } else {
      var added := s.entries + [BanEntry(r, reason, now)];
      forall k | 0 <= k < |added|
        ensures added[k].accountId != id
      {
        assert k < |s.entries| ==> added[k] == s.entries[k];
      }
      assert IndexOf(added, id) == |added|;
      assert |added| == |s.entries| + 1;
    }
  }

  // ---------- the commands ----------

  /** The loop that erases blanks from the front. */
  method EraseLeadingBlanks(s: string) returns (t: string)
    ensures t == StripLeft(s)
  {
    t := s;
    while t != "" && (t[0] == ' ' || t[0] == '\t')
      invariant StripLeft(t) == StripLeft(s)
      decreases |t|
    {
      t := t[1..];
    }
  }

  method SplitBan(rest: string) returns (id: string, reason: string)
    ensures BanArgs(id, reason) == SplitAtSpace(rest)
  {
    id, reason := rest, "";
    var sp := FindIn(rest, " ", 0);
    if sp.Some? {
      id := rest[..sp.value];
      reason := EraseLeadingBlanks(rest[sp.value + 1..]);
    }
  }

  method ComposeReply(id: string, reason: string, added: bool, kicked: bool) returns (response: string)
    ensures response == BanReply(id, reason, added, kicked)
  {
    if added {
      response := "Banned " + id;
      if reason != "" {
        response := response + (" (" + reason + ")");
      }
      response := response + "\n";
    } else {
      response := id + " was already banned\n";
    }
    if kicked {
      response := response + "Player was online and has been kicked\n";
    }
  }

  method ResolveId(engine: Engine, id: string) returns (resolved: string)
    ensures resolved == Resolve(engine.players, id) && Names(engine.players, id, resolved)
  {
    var players := engine.GetAllPlayers();
    ghost var target := FirstMatch(players, id, 0);
    ResolveNames(players, id, Resolve(players, id));
    for i := 0 to |players|
      invariant i <= target
    {
      FindIsLeftmost(players[i].id, id);
      var found := FindIn(players[i].id, id, 0);
      if found.Some? {
        return players[i].id;
      }
    }
    return id;
  }

  method ExecuteBan(bans: BanList, engine: Engine, args: string, now: Time) returns (response: string)
    requires bans as object != engine
    modifies bans, engine
    ensures bans.View() == Step(old(bans.View()), EventOf(BanLine(args, old(engine.players), now)))
    ensures ParseBan(args).None? ==>
              engine.players == old(engine.players) && response == "Usage: ban <account_id> [reason]\n"
    ensures ParseBan(args).Some? ==>
              var a := ParseBan(args).value;
              var id := Resolve(old(engine.players), a.id);
              && Names(old(engine.players), a.id, id)
              && engine.players == Kick(old(engine.players), id)
              && response == BanReply(id, a.reason, id != "" && !HasId(old(bans.entries), id),
                                      KickSucceeds(old(engine.players), id))
  {
    var rest := EraseLeadingBlanks(args);
    if rest == "" {
      return "Usage: ban <account_id> [reason]\n";
    }
    var id, reason := SplitBan(rest);
    var resolved := ResolveId(engine, id);
    ResolveNames(engine.players, id, resolved);
    var added := bans.Add(resolved, reason, now);
    var kicked := engine.KickPlayer(resolved);
    response := ComposeReply(resolved, reason, added, kicked);
  }

  method ExecuteUnban(bans: BanList, args: string) returns (response: string)
    modifies bans
    ensures bans.View() == Step(old(bans.View()), EventOf(UnbanLine(args)))
    ensures var id := StripLeft(args);
            response == UnbanReply(id, HasId(old(bans.entries), id))
  {
    var id := EraseLeadingBlanks(args);
    if id == "" {
      return "Usage: unban <account_id>\n";
    }
    var removed := bans.Remove(id);
    if removed {
      response := "Unbanned " + id + "\n";
    } else {
      response := "No exact ban entry for " + id + "\n";
    }
  }
}
