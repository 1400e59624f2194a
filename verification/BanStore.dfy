/** The ban list in memory and on disk: what each operation does to the two, and how they stay in step. */
module BanStore {
  import opened Basics
  import opened Text
  import opened BanFormat

  /** The entries in memory and the contents of the ban file, `None` while there is no file. */
  datatype Store = Store(entries: seq<BanEntry>, file: Option<string>)

  // ---------- what the operations do ----------

  /** Position of the entry whose id is exactly `id`, the number of entries if there is none. */
  function IndexOf(entries: seq<BanEntry>, id: string): (i: nat)
    ensures i <= |entries|
    ensures i < |entries| ==> entries[i].accountId == id
    ensures forall j | 0 <= j < i :: entries[j].accountId != id
  {
    if entries == [] || entries[0].accountId == id then 0 else 1 + IndexOf(entries[1..], id)
  }

  predicate HasId(entries: seq<BanEntry>, id: string) { IndexOf(entries, id) < |entries| }

  function Saved(entries: seq<BanEntry>): Store { Store(entries, Some(Render(entries))) }

  function AddTo(s: Store, id: string, reason: string, now: Time): Store {
    if id == "" || HasId(s.entries, id) then s
    else Saved(s.entries + [BanEntry(id, reason, now)])
  }

  function RemoveFrom(s: Store, id: string): Store {
    var i := IndexOf(s.entries, id);
    if id == "" || i == |s.entries| then s
    else Saved(s.entries[..i] + s.entries[i + 1..])
  }

  /** What the server knows after a restart. */
  ghost function Reload(s: Store): Store {
    match s.file
    case None => s.(entries := [])
    case Some(text) => s.(entries := Scan(text))
  }

  /** Substring matching in both directions, as enforcement uses it. */
  ghost predicate Banned(entries: seq<BanEntry>, id: string) {
    id != "" && exists e :: e in entries && (Contains(id, e.accountId) || Contains(e.accountId, id))
  }

  // ---------- whole runs ----------

  datatype Event = Ban(id: string, reason: string, now: Time) | Unban(id: string) | Restart

  ghost function Step(s: Store, ev: Event): Store {
    match ev
    case Ban(id, reason, now) => AddTo(s, id, reason, now)
    case Unban(id) => RemoveFrom(s, id)
    case Restart => Reload(s)
  }

  /** The store after a run that starts without a ban file. */
  ghost function Run(events: seq<Event>): Store {
    if events == [] then Store([], None)
    else Step(Run(events[..|events| - 1]), events[|events| - 1])
  }

  predicate DistinctIds(entries: seq<BanEntry>) {
    && (forall i | 0 <= i < |entries| :: entries[i].accountId != "")
    && (forall i, j | 0 <= i < j < |entries| :: entries[i].accountId != entries[j].accountId)
  }

  /** The file says what memory says; no file means no entries. */
  predicate InStep(s: Store) {
    match s.file
    case None => s.entries == []
    case Some(text) => text == Render(s.entries)
  }

  predicate AllPlain(entries: seq<BanEntry>) {
    forall i | 0 <= i < |entries| :: PlainEntry(entries[i])
  }

  /** A ban whose texts the file can carry; a ban without an id has no effect. */
  predicate PlainBan(ev: Event) {
    ev.Ban? && ev.id != "" ==> PlainEntry(BanEntry(ev.id, ev.reason, ev.now))
  }

  lemma AddKeepsInStep(s: Store, id: string, reason: string, now: Time)
    requires InStep(s) && DistinctIds(s.entries)
    ensures var s' := AddTo(s, id, reason, now);
            && InStep(s') && DistinctIds(s'.entries)
            && (PlainBan(Ban(id, reason, now)) && AllPlain(s.entries) ==> AllPlain(s'.entries))
  {
  }

  lemma DroppingKeeps(es: seq<BanEntry>, i: nat)
    requires i < |es| && DistinctIds(es)
    ensures DistinctIds(es[..i] + es[i + 1..])
    ensures AllPlain(es) ==> AllPlain(es[..i] + es[i + 1..])
  {
  }

  lemma RemoveKeepsInStep(s: Store, id: string)
    requires InStep(s) && DistinctIds(s.entries)
    ensures InStep(RemoveFrom(s, id)) && DistinctIds(RemoveFrom(s, id).entries)
    ensures AllPlain(s.entries) ==> AllPlain(RemoveFrom(s, id).entries)
  {
    if id != "" && HasId(s.entries, id) {
      DroppingKeeps(s.entries, IndexOf(s.entries, id));
    }
  }

  /** Bans and unbans keep file and memory in step whatever the texts are. */
  lemma EditKeepsInStep(s: Store, ev: Event)
    requires !ev.Restart? && InStep(s) && DistinctIds(s.entries)
    ensures InStep(Step(s, ev)) && DistinctIds(Step(s, ev).entries)
    ensures PlainBan(ev) && AllPlain(s.entries) ==> AllPlain(Step(s, ev).entries)
  {
    match ev
    case Ban(id, reason, now) => AddKeepsInStep(s, id, reason, now);
    case Unban(id) => RemoveKeepsInStep(s, id);
  }

  /** A restart changes nothing exactly when every entry is plain. */
  lemma RestartIsHarmless(s: Store)
    requires InStep(s)
    ensures Reload(s) == s <==> AllPlain(s.entries)
  {
    if s.file.Some? {
      ReloadIsExact(s.entries);
      forall e | e in s.entries && AllPlain(s.entries)
        ensures PlainEntry(e)
      {
        var i :| 0 <= i < |s.entries| && s.entries[i] == e;
      }
    }
  }

  /** Starting up depends on the file alone: what the list held before is forgotten. */
  lemma ReloadForgets(s: Store, t: Store)
    requires s.file == t.file
    ensures Reload(s) == Reload(t)
    ensures s.file == None ==> Reload(s).entries == []
  {
  }

  /** Main result: over every run whose bans are plain, the file is absent only while the list is empty
      and otherwise equals the printed list, and ids are non-empty and pairwise distinct. */
  lemma {:induction false} DiskAndMemoryAgree(events: seq<Event>)
    requires forall i | 0 <= i < |events| :: PlainBan(events[i])
    ensures InStep(Run(events)) && DistinctIds(Run(events).entries) && AllPlain(Run(events).entries)
  {
    if events != [] {
      var before := events[..|events| - 1];
      DiskAndMemoryAgree(before);
      if events[|events| - 1].Restart? {
        RestartIsHarmless(Run(before));
      } else {
        EditKeepsInStep(Run(before), events[|events| - 1]);
      }
    }
  }

  /** At any point of such a run reloading changes nothing. */
  lemma ReloadAnyTime(events: seq<Event>)
    requires forall i | 0 <= i < |events| :: PlainBan(events[i])
    ensures Reload(Run(events)) == Run(events)
  {
    DiskAndMemoryAgree(events);
    RestartIsHarmless(Run(events));
  }

  /** Main result: with texts of any kind, as long as the server is not restarted, file and memory agree and
      ids stay distinct; and the first restart is harmless exactly when all entries are plain by then. */
  lemma {:induction false} AgreeUntilRestart(events: seq<Event>)
    requires forall i | 0 <= i < |events| :: !events[i].Restart?
    ensures InStep(Run(events)) && DistinctIds(Run(events).entries)
    ensures Run(events + [Restart]) == Run(events) <==> AllPlain(Run(events).entries)
  {
    if events != [] {
      var before := events[..|events| - 1];
      AgreeUntilRestart(before);
      EditKeepsInStep(Run(before), events[|events| - 1]);
    }
    assert (events + [Restart])[..|events|] == events;
    RestartIsHarmless(Run(events));
  }

  /** Restarts inside a plain run can be left out. */
  lemma {:induction false} RestartsAreInvisible(events: seq<Event>)
    requires forall i | 0 <= i < |events| :: PlainBan(events[i])
    ensures Run(events) == Run(WithoutRestarts(events))
  {
    if events != [] {
      var before, last := events[..|events| - 1], events[|events| - 1];
      RestartsAreInvisible(before);
      if last.Restart? {
        ReloadAnyTime(before);
      } else {
        var kept := WithoutRestarts(before);
        assert (kept + [last])[..|kept + [last]| - 1] == kept;
      }
    }
  }

  ghost function WithoutRestarts(events: seq<Event>): seq<Event> {
    if events == [] then []
    else
      var before, last := WithoutRestarts(events[..|events| - 1]), events[|events| - 1];
      if last.Restart? then before else before + [last]
  }

  /** Removing an id that was just added gives back the list. */
  lemma RemoveUndoesAdd(s: Store, id: string, reason: string, now: Time)
    requires id != "" && !HasId(s.entries, id)
    ensures RemoveFrom(AddTo(s, id, reason, now), id).entries == s.entries
  {
    var added := AddTo(s, id, reason, now).entries;
    var i := IndexOf(added, id);
    assert added[|s.entries|].accountId == id;
    assert forall j | 0 <= j < |s.entries| :: added[j] == s.entries[j];
    assert added[..i] + added[i + 1..] == s.entries;
  }

  /** Exact removal: only the entry of that id goes, and nobody of that id is left. */
  lemma RemoveIsExact(s: Store, id: string)
    requires DistinctIds(s.entries) && id != ""
    ensures !HasId(RemoveFrom(s, id).entries, id)
    ensures forall e :: e in RemoveFrom(s, id).entries <==> e in s.entries && e.accountId != id
  {
  }

  // ---------- the class ----------

  /** `BanList` with the contents of its file. The mutex makes every method one step. */
  class BanList {
    var entries: seq<BanEntry>
    var file: Option<string>

    function View(): Store
      reads this
    {
      Store(entries, file)
    }

    constructor (file: Option<string>)
      ensures this.file == file && entries == []
    {
      this.file := file;
      entries := [];
    }

    static method EscapeText(s: string) returns (out: string)
      ensures out == EscapeJson(s)
    {
      out := "";
      assert s[0..] == s;
      for i := 0 to |s|
        invariant out + EscapeJson(s[i..]) == EscapeJson(s)
      {
        var c := s[i];
        var piece := [c];
        if c == '"' {
          piece := "\\\"";
        } else if c == '\\' {
          piece := "\\\\";
        } else if c == '\n' {
          piece := "\\n";
        } else if c == '\r' {
          piece := "\\r";
        } else if c == '\t' {
          piece := "\\t";
        } else if c as int < 0x20 {
          piece := "\\u00" + [HexDigit(c as int / 16), HexDigit(c as int % 16)];
        }
        EscapeNext(out, s, i);
        out := out + piece;
      }
    }

    static method PrintLine(e: BanEntry, last: bool) returns (line: string)
      ensures line == Line(EscapeJson(e.accountId), EscapeJson(e.reason), ToDecimal(e.timestamp), last)
    {
      var id := EscapeText(e.accountId);
      var reason := EscapeText(e.reason);
      line := "  {\"accountId\": \"" + id + "\", ";
      line := line + "\"reason\": \"" + reason + "\", ";
      line := line + "\"timestamp\": " + ToDecimal(e.timestamp) + "}";
      if !last {
        line := line + ",";
      }
      line := line + "\r\n";
    }

    /** Prints all entries over the file. */
    method SaveLocked()
      modifies this`file
      ensures file == Some(Render(entries))
    {
      var out := "[\r\n";
      var i := 0;
      assert entries[0..] == entries;
      while i < |entries|
        invariant i <= |entries|
        invariant out + Body(entries[i..]) == Render(entries)
      {
        var line := PrintLine(entries[i], i + 1 == |entries|);
        BodyNext(out, entries, i);
        out := out + line;
        i := i + 1;
      }
      out := out + "]\r\n";
      file := Some(out);
    }

    method IsBanned(id: string) returns (banned: bool)
      ensures banned <==> Banned(entries, id)
    {
      if id == "" {
        return false;
      }
      for i := 0 to |entries|
        invariant forall j | 0 <= j < i ::
                    !Contains(id, entries[j].accountId) && !Contains(entries[j].accountId, id)
      {
        FindIsLeftmost(id, entries[i].accountId);
        FindIsLeftmost(entries[i].accountId, id);
        var inId := FindIn(id, entries[i].accountId, 0);
        var inEntry := FindIn(entries[i].accountId, id, 0);
        if inId.Some? || inEntry.Some? {
          assert entries[i] in entries;
          return true;
        }
      }
      return false;
    }

    method Add(id: string, reason: string, now: Time) returns (added: bool)
      modifies this
      ensures View() == AddTo(old(View()), id, reason, now)
      ensures added <==> id != "" && !HasId(old(entries), id)
    {
      if id == "" {
        return false;
      }
      for i := 0 to |entries|
        invariant forall j | 0 <= j < i :: entries[j].accountId != id
      {
        if entries[i].accountId == id {
          return false;
        }
      }
      entries := entries + [BanEntry(id, reason, now)];
      SaveLocked();
      return true;
    }

    method Remove(id: string) returns (removed: bool)
      modifies this
      ensures View() == RemoveFrom(old(View()), id)
      ensures removed <==> id != "" && HasId(old(entries), id)
    {
      if id == "" {
        return false;
      }
      var i := 0;
      while i < |entries| && entries[i].accountId != id
        invariant i <= |entries|
        invariant forall j | 0 <= j < i :: entries[j].accountId != id
      {
        i := i + 1;
      }
      if i == |entries| {
        return false;
      }
      entries := entries[..i] + entries[i + 1..];
      SaveLocked();
      return true;
    }

    /** Loads the file. */
    method Initialize()
      modifies this
      ensures View() == Reload(old(View()))
    {
      entries := [];
      if file.None? {
        return;
      }
      entries := ReadEntries(KEYS, file.value);
      EntriesFromIsScan(BAN_SCANNER, KEYS, file.value);
    }

    /** The scanner's loop, in absolute positions. */
    static method ReadEntries(keys: Keys, data: string) returns (entries: seq<BanEntry>)
      ensures entries == EntriesFrom(keys, data, 0)
    {
      entries := [];
      var i := 0;
      while i < |data|
        invariant i <= |data|
        invariant entries + EntriesFrom(keys, data, i) == EntriesFrom(keys, data, 0)
        decreases |data| - i
      {
        var found, next := ReadNext(keys, data, i);
        NextRead(keys, data, i, entries, found, next);
        if next.None? {
          return;
        }
        entries := entries + found;
        i := next.value;
      }
      NothingAtEnd(keys, data);
    }

    /** What the next account key brings, and where to go on. */
    static method ReadNext(keys: Keys, data: string, i: nat) returns (found: seq<BanEntry>, next: Option<nat>)
      requires i <= |data|
      ensures (found, next) == NextAt(keys, data, i)
      ensures next.Some? ==> i < next.value <= |data|
    {
      var quotes := FindId(keys.account, data, i);
      if quotes.None? {
        return [], None;
      }
      var q1, q2 := quotes.value.0, quotes.value.1;
      found := ReadEntry(keys, data, q1, q2);
      next := Some(q2 + 1);
    }

    static method ReadEntry(keys: Keys, data: string, q1: nat, q2: nat) returns (found: seq<BanEntry>)
      requires q1 + 1 <= q2 < |data|
      ensures found == Loaded(keys, Cut(data[q1 + 1..q2], data[q2..]))
    {
      found := [];
      var id := data[q1 + 1..q2];
      var reason := ReadReason(keys, data, q2);
      var timestamp := ReadTimestamp(keys, data, q2);
      if id != "" {
        found := [BanEntry(id, reason, timestamp)];
      }
      ReasonAtIsIn(keys, data, q2);
      TimeAtIsIn(keys, data, q2);
    }

    /** The quotes around the next account id. */
    static method FindId(account: string, data: string, i: nat) returns (quotes: Option<(nat, nat)>)
      requires i <= |data|
      ensures quotes == IdAt(account, data, i)
    {
      quotes := None;
      var accKey := FindIn(data, account, i);
      if accKey.Some? {
        var q1 := FindIn(data, "\"", accKey.value + |account|);
        if q1.Some? {
          var q2 := FindIn(data, "\"", q1.value + 1);
          if q2.Some? {
            quotes := Some((q1.value, q2.value));
          }
        }
      }
    }

    /** The reason between `q2` and the next account key. */
    static method ReadReason(keys: Keys, data: string, q2: nat) returns (reason: string)
      requires q2 <= |data|
      ensures reason == ReasonAt(keys, data, q2)
    {
      reason := "";
      var reasonKey := FindIn(data, keys.reason, q2);
      var nextAcc := FindIn(data, keys.account, q2);
      if reasonKey.Some? && (nextAcc.None? || reasonKey.value < nextAcc.value) {
        var r1 := FindIn(data, "\"", reasonKey.value + |keys.reason|);
        if r1.Some? {
          var r2 := FindIn(data, "\"", r1.value + 1);
          if r2.Some? {
            reason := data[r1.value + 1..r2.value];
          }
        }
      }
    }

    /** The timestamp between `q2` and the next account key. */
    static method ReadTimestamp(keys: Keys, data: string, q2: nat) returns (timestamp: Time)
      requires q2 <= |data|
      ensures timestamp == TimeAt(keys, data, q2)
    {
      timestamp := 0;
      var tsKey := FindIn(data, keys.timestamp, q2);
      var nextAcc := FindIn(data, keys.account, q2);
      if tsKey.Some? && (nextAcc.None? || tsKey.value < nextAcc.value) {
        timestamp := ReadNumber(data, tsKey.value);
      }
    }

    /** The number between the next colon and the delimiter behind it. */
    static method ReadNumber(data: string, from: nat) returns (number: Time)
      requires from <= |data|
      ensures number == NumberAt(data, from)
    {
      number := 0;
      var colon := FindIn(data, ":", from);
      if colon.Some? {
        ColonIsNoDelimiter(data, from);
        var end := FindAny(data[colon.value..], ",}\n");
        if end.Some? {
          number := TimeOf(data[colon.value + 1..][..end.value - 1]);
        }
      }
    }
  }

  // ---------- printing piece by piece ----------

  lemma EscapeNext(out: string, s: string, i: nat)
    requires i < |s|
    ensures out + EscapeJson(s[i..]) == out + EscapeChar(s[i]) + EscapeJson(s[i + 1..])
  {
  }

  function Line(id: string, reason: string, ts: string, last: bool): string {
    "  {\"accountId\": \"" + id + "\", " + "\"reason\": \"" + reason + "\", " + "\"timestamp\": " + ts + "}"
    + (if last then "" else ",") + "\r\n"
  }

  lemma LineLiterals()
    ensures "  {\"accountId\": \"" == "  {" + Quoted("accountId") + ": " + "\""
    ensures "\", " + "\"reason\": \"" == "\"" + ", " + Quoted("reason") + ": " + "\""
    ensures "\", " + "\"timestamp\": " == "\"" + ", " + Quoted("timestamp") + ": "
  {
  }

  lemma Regroup(a: string, id: string, b: string, c: string, reason: string, d: string, e: string, ts: string,
                f: string)
    ensures a + id + b + c + reason + d + e + ts + f == a + (id + ((b + c) + (reason + ((d + e) + (ts + f)))))
  {
  }

  lemma RegroupTail(reason: string, ts: string, rest: string)
    ensures AfterId(reason, ts, rest) ==
            ("\"" + ", " + Quoted("reason") + ": " + "\"") + (reason
            + (("\"" + ", " + Quoted("timestamp") + ": ") + (ts + ("}" + rest))))
  {
  }

  /** The line written for an entry is the specified one. */
  lemma LineIsEntry(e: BanEntry, last: bool, rest: string)
    ensures Line(EscapeJson(e.accountId), EscapeJson(e.reason), ToDecimal(e.timestamp), last) + rest
         == EntryText(e, LineEnd(last) + rest)
  {
    var id, reason, ts := EscapeJson(e.accountId), EscapeJson(e.reason), ToDecimal(e.timestamp);
    LineOf(id, reason, ts, last, rest);
    RegroupTail(reason, ts, LineEnd(last) + rest);
    RegroupFront(id, AfterId(reason, ts, LineEnd(last) + rest));
  }

  lemma RegroupFront(id: string, tail: string)
    ensures "  {" + Quoted("accountId") + ": " + "\"" + (id + tail)
         == "  {" + (Quoted("accountId") + (": " + ("\"" + (id + tail))))
  {
    Nested("  {", Quoted("accountId"), ": ", "\"", id + tail);
  }

  lemma Nested(a: string, b: string, c: string, d: string, e: string)
    ensures a + b + c + d + e == a + (b + (c + (d + e)))
  {
  }

  lemma LineOf(id: string, reason: string, ts: string, last: bool, rest: string)
    ensures Line(id, reason, ts, last) + rest ==
            ("  {" + Quoted("accountId") + ": " + "\"") + (id
            + (("\"" + ", " + Quoted("reason") + ": " + "\"") + (reason
            + (("\"" + ", " + Quoted("timestamp") + ": ") + (ts + ("}" + (LineEnd(last) + rest)))))))
  {
    LineLiterals();
    var f := "}" + (LineEnd(last) + rest);
    LineTail(id, reason, ts, last, rest);
    Regroup("  {\"accountId\": \"", id, "\", ", "\"reason\": \"", reason, "\", ", "\"timestamp\": ", ts, f);
  }

  lemma LineTail(id: string, reason: string, ts: string, last: bool, rest: string)
    ensures Line(id, reason, ts, last) + rest ==
            "  {\"accountId\": \"" + id + "\", " + "\"reason\": \"" + reason + "\", " + "\"timestamp\": " + ts
            + ("}" + (LineEnd(last) + rest))
  {
  }

  lemma BodyLine(entries: seq<BanEntry>)
    requires entries != []
    ensures var e := entries[0];
            Body(entries) == Line(EscapeJson(e.accountId), EscapeJson(e.reason), ToDecimal(e.timestamp), |entries| == 1)
                             + Body(entries[1..])
  {
    LineIsEntry(entries[0], |entries| == 1, Body(entries[1..]));
  }

  lemma ConcatRegroups(a: string, b: string, c: string)
    ensures a + (b + c) == a + b + c
  {
  }

  lemma BodyNext(out: string, entries: seq<BanEntry>, i: nat)
    requires i < |entries|
    ensures var e := entries[i];
            out + Body(entries[i..]) ==
            out + Line(EscapeJson(e.accountId), EscapeJson(e.reason), ToDecimal(e.timestamp), i + 1 == |entries|)
            + Body(entries[i + 1..])
  {
    var e := entries[i];
    BodyLine(entries[i..]);
    assert entries[i..][1..] == entries[i + 1..];
    ConcatRegroups(out, Line(EscapeJson(e.accountId), EscapeJson(e.reason), ToDecimal(e.timestamp), i + 1 == |entries|),
                   Body(entries[i + 1..]));
  }

  // ---------- absolute positions and suffixes ----------

  lemma DropDrop(s: string, i: nat, j: nat)
    requires i <= j <= |s|
    ensures s[i..][j - i..] == s[j..]
  {
  }

  /** The positions of the next two quotes. */
  ghost function QuotesAt(data: string, from: nat): (r: Option<(nat, nat)>)
    requires from <= |data|
    ensures r.Some? ==> from < r.value.0 + 1 <= r.value.1 < |data|
  {
    match FindFrom(data, "\"", from)
    case None => None
    case Some(q1) =>
      match FindFrom(data, "\"", q1 + 1)
      case None => None
      case Some(q2) => Some((q1, q2))
  }

  /** The quotes around the next value behind `pat`. */
  ghost function ValueAt(data: string, from: nat, pat: string): (r: Option<(nat, nat)>)
    requires from <= |data|
    ensures r.Some? ==> from < r.value.0 + 1 <= r.value.1 < |data|
  {
    match FindFrom(data, pat, from)
    case None => None
    case Some(key) => QuotesAt(data, key + |pat|)
  }

  ghost function IdAt(account: string, data: string, from: nat): (r: Option<(nat, nat)>)
    requires from <= |data|
    ensures r.Some? ==> from < r.value.0 + 1 <= r.value.1 < |data|
  {
    ValueAt(data, from, account)
  }

  ghost function ReasonAt(keys: Keys, data: string, q2: nat): string
    requires q2 <= |data|
  {
    if Before(FindFrom(data, keys.reason, q2), FindFrom(data, keys.account, q2)) then
      match ValueAt(data, q2, keys.reason)
      case None => ""
      case Some((r1, r2)) => data[r1 + 1..r2]
    else ""
  }

  /** The number behind the next colon. */
  ghost function NumberAt(data: string, from: nat): Time
    requires from <= |data|
  {
    match FindFrom(data, ":", from)
    case None => 0
    case Some(colon) =>
      match FindAny(data[colon + 1..], ",}\n")
      case None => 0
      case Some(end) => TimeOf(data[colon + 1..][..end])
  }

  ghost function TimeAt(keys: Keys, data: string, q2: nat): Time
    requires q2 <= |data|
  {
    var key := FindFrom(data, keys.timestamp, q2);
    if Before(key, FindFrom(data, keys.account, q2)) then NumberAt(data, key.value) else 0
  }

  /** The value between two quotes, and the text from the second one on. */
  ghost function CutAt(data: string, quotes: Option<(nat, nat)>): Option<Cut>
    requires quotes.Some? ==> quotes.value.0 + 1 <= quotes.value.1 < |data|
  {
    match quotes
    case None => None
    case Some((q1, q2)) => Some(Cut(data[q1 + 1..q2], data[q2..]))
  }

  lemma NextQuotedNone(s: string)
    requires Find(s, "\"") == None || Find(s[Find(s, "\"").value + 1..], "\"") == None
    ensures NextQuoted(s) == None
  {
  }

  lemma QuotesFound(data: string, from: nat, q1: nat, q2: nat)
    requires from <= q1 < q2 < |data|
    requires Find(data[from..], "\"") == Some(q1 - from)
    requires Find(data[q1 + 1..], "\"") == Some(q2 - (q1 + 1))
    ensures NextQuoted(data[from..]) == Some(Cut(data[q1 + 1..q2], data[q2..]))
  {
    var s, n := data[from..], q2 - (q1 + 1);
    DropDrop(data, from, q1 + 1);
    NextQuotedAt(s, q1 - from, n);
    DropDrop(data, q1 + 1, q2);
    assert data[q1 + 1..][..n] == data[q1 + 1..q2];
  }

  lemma SecondQuoteMissing(data: string, from: nat, q1: nat)
    requires from <= q1 < |data|
    requires Find(data[from..], "\"") == Some(q1 - from)
    requires Find(data[q1 + 1..], "\"") == None
    ensures NextQuoted(data[from..]) == None
  {
  }

  lemma QuotesAtIsNext(data: string, from: nat)
    requires from <= |data|
    ensures NextQuoted(data[from..]) == CutAt(data, QuotesAt(data, from))
  {
    FindFromSuffix(data, "\"", from);
    var q1 := FindFrom(data, "\"", from);
    if q1.None? {
      NextQuotedNone(data[from..]);
    } else {
      FindFromSuffix(data, "\"", q1.value + 1);
      var q2 := FindFrom(data, "\"", q1.value + 1);
      if q2.None? {
        SecondQuoteMissing(data, from, q1.value);
      } else {
        QuotesFound(data, from, q1.value, q2.value);
      }
    }
  }

  lemma QuotedBehindNone(s: string, pat: string)
    requires Find(s, pat) == None
    ensures QuotedBehind(s, pat) == None
  {
  }

  lemma ValueAtKey(data: string, from: nat, pat: string, key: nat)
    requires from <= |data| && FindFrom(data, pat, from) == Some(key)
    ensures ValueAt(data, from, pat) == QuotesAt(data, key + |pat|)
  {
  }

  lemma ValueAtIsBehind(data: string, from: nat, pat: string)
    requires from <= |data|
    ensures QuotedBehind(data[from..], pat) == CutAt(data, ValueAt(data, from, pat))
  {
    FindFromSuffix(data, pat, from);
    var key := FindFrom(data, pat, from);
    if key.None? {
      QuotedBehindNone(data[from..], pat);
    } else {
      ValueAtKey(data, from, pat, key.value);
      QuotedBehindAt(data[from..], pat, key.value - from);
      DropDrop(data, from, key.value + |pat|);
      QuotesAtIsNext(data, key.value + |pat|);
    }
  }

  lemma BeforeAt(data: string, from: nat, key: string, stop: string)
    requires from <= |data|
    ensures Before(FindFrom(data, key, from), FindFrom(data, stop, from)) <==>
            Before(Find(data[from..], key), Find(data[from..], stop))
  {
    FindFromSuffix(data, key, from);
    FindFromSuffix(data, stop, from);
  }

  lemma ReasonAtIsIn(keys: Keys, data: string, q2: nat)
    requires q2 <= |data|
    ensures ReasonAt(keys, data, q2) == ReasonIn(keys, data[q2..])
  {
    BeforeAt(data, q2, keys.reason, keys.account);
    ValueAtIsBehind(data, q2, keys.reason);
  }

  lemma NumberAtIsNext(data: string, from: nat)
    requires from <= |data|
    ensures NumberAt(data, from) == TimeAfterColon(data[from..])
  {
    FindFromSuffix(data, ":", from);
    var colon := FindFrom(data, ":", from);
    if colon.Some? {
      DropDrop(data, from, colon.value + 1);
    }
  }

  /** The delimiter is looked for from the colon on, which is no delimiter itself. */
  lemma ColonIsNoDelimiter(data: string, from: nat)
    requires from <= |data| && FindFrom(data, ":", from).Some?
    ensures var colon := FindFrom(data, ":", from).value;
            FindAny(data[colon..], ",}\n") == Shift(1, FindAny(data[colon + 1..], ",}\n"))
  {
    var colon := FindFrom(data, ":", from).value;
    var behind := data[colon..];
    assert behind[0] == ':' && behind[1..] == data[colon + 1..];
  }

  lemma TimeAtIsIn(keys: Keys, data: string, q2: nat)
    requires q2 <= |data|
    ensures TimeAt(keys, data, q2) == TimeIn(keys, data[q2..])
  {
    BeforeAt(data, q2, keys.timestamp, keys.account);
    FindFromSuffix(data, keys.timestamp, q2);
    var key := FindFrom(data, keys.timestamp, q2);
    if key.Some? {
      DropDrop(data, q2, key.value);
      NumberAtIsNext(data, key.value);
    }
  }

  lemma ScanWithRound(scanner: Scanner, data: string, i: nat, q1: nat, q2: nat)
    requires i <= |data| && IdAt(scanner.account, data, i) == Some((q1, q2))
    ensures ScanWith(scanner, data[i..]) ==
            scanner.load(Cut(data[q1 + 1..q2], data[q2..])) + ScanWith(scanner, data[q2 + 1..])
  {
    ValueAtIsBehind(data, i, scanner.account);
    ScanStep(scanner, data[i..], Cut(data[q1 + 1..q2], data[q2..]));
    DropDrop(data, q2, q2 + 1);
  }

  lemma ScanWithEnd(scanner: Scanner, data: string, i: nat)
    requires i <= |data| && IdAt(scanner.account, data, i) == None
    ensures ScanWith(scanner, data[i..]) == []
  {
    ValueAtIsBehind(data, i, scanner.account);
    ScanNone(scanner, data[i..]);
  }

  // ---------- the loop of the scanner ----------

  /** One round of the loop: what is loaded, and where to go on. */
  ghost function NextAt(keys: Keys, data: string, i: nat): (r: (seq<BanEntry>, Option<nat>))
    requires i <= |data|
    ensures r.1.Some? ==> i < r.1.value <= |data|
  {
    match IdAt(keys.account, data, i)
    case None => ([], None)
    case Some((q1, q2)) => (Loaded(keys, Cut(data[q1 + 1..q2], data[q2..])), Some(q2 + 1))
  }

  /** All rounds from `i` on. */
  ghost function EntriesFrom(keys: Keys, data: string, i: nat): seq<BanEntry>
    requires i <= |data|
    decreases |data| - i
  {
    var (found, next) := NextAt(keys, data, i);
    if next.None? then [] else found + EntriesFrom(keys, data, next.value)
  }

  lemma NextRead(keys: Keys, data: string, i: nat, entries: seq<BanEntry>, found: seq<BanEntry>, next: Option<nat>)
    requires i <= |data| && (found, next) == NextAt(keys, data, i)
    ensures next.None? ==> entries + EntriesFrom(keys, data, i) == entries
    ensures next.Some? ==>
              entries + EntriesFrom(keys, data, i) == (entries + found) + EntriesFrom(keys, data, next.value)
  {
  }

  lemma NothingAtEnd(keys: Keys, data: string)
    ensures EntriesFrom(keys, data, |data|) == []
  {
  }

  /** Two readings that agree round by round agree from any position on. */
  lemma {:induction false} SameRounds(f: nat -> seq<BanEntry>, g: nat -> seq<BanEntry>, n: nat, i: nat)
    requires i <= n && forall k: nat | k <= n :: SameRound(f, g, n, k)
    ensures f(i) == g(i)
    decreases n - i
  {
    assert SameRound(f, g, n, i);
    if !(f(i) == [] == g(i)) {
      var found, j: nat :| i < j <= n && f(i) == found + f(j) && g(i) == found + g(j);
      SameRounds(f, g, n, j);
    }
  }

  ghost predicate SameRound(f: nat -> seq<BanEntry>, g: nat -> seq<BanEntry>, n: nat, i: nat) {
    f(i) == [] == g(i) || exists found, j: nat :: i < j <= n && f(i) == found + f(j) && g(i) == found + g(j)
  }

  lemma SomeRound(scanner: Scanner, keys: Keys, data: string, i: nat, q1: nat, q2: nat)
    requires i <= |data| && scanner.account == keys.account && IdAt(keys.account, data, i) == Some((q1, q2))
    requires LoadsAt(scanner, keys, data, Some((q1, q2)))
    ensures ScanWith(scanner, data[i..]) == NextAt(keys, data, i).0 + ScanWith(scanner, data[q2 + 1..])
    ensures NextAt(keys, data, i).1 == Some(q2 + 1)
  {
    ScanWithRound(scanner, data, i, q1, q2);
  }

  /** One round of the positions is one round of the suffixes. */
  lemma OneRound(scanner: Scanner, keys: Keys, data: string, i: nat)
    requires i <= |data| && scanner.account == keys.account
    requires LoadsAt(scanner, keys, data, IdAt(keys.account, data, i))
    ensures var (found, next) := NextAt(keys, data, i);
            ScanWith(scanner, data[i..]) == if next.None? then [] else found + ScanWith(scanner, data[next.value..])
  {
    var quotes := IdAt(keys.account, data, i);
    if quotes.None? {
      ScanWithEnd(scanner, data, i);
    } else {
      SomeRound(scanner, keys, data, i, quotes.value.0, quotes.value.1);
    }
  }

  /** The scanner pushes what the loop pushes for these quotes. */
  ghost predicate LoadsAt(scanner: Scanner, keys: Keys, data: string, quotes: Option<(nat, nat)>)
    requires quotes.Some? ==> quotes.value.0 + 1 <= quotes.value.1 < |data|
  {
    match CutAt(data, quotes)
    case None => true
    case Some(cut) => scanner.load(cut) == Loaded(keys, cut)
  }

  lemma LoadsEverywhere(scanner: Scanner, keys: Keys, data: string, quotes: Option<(nat, nat)>)
    requires quotes.Some? ==> quotes.value.0 + 1 <= quotes.value.1 < |data|
    requires forall cut :: scanner.load(cut) == Loaded(keys, cut)
    ensures LoadsAt(scanner, keys, data, quotes)
  {
  }

  lemma EntriesRound(keys: Keys, data: string, i: nat)
    requires i <= |data|
    ensures var (found, next) := NextAt(keys, data, i);
            EntriesFrom(keys, data, i) == if next.None? then [] else found + EntriesFrom(keys, data, next.value)
  {
  }

  lemma RoundsAgree(scanner: Scanner, keys: Keys, data: string, f: nat -> seq<BanEntry>, g: nat -> seq<BanEntry>,
                    i: nat)
    requires i <= |data| && scanner.account == keys.account
    requires forall cut :: scanner.load(cut) == Loaded(keys, cut)
    requires forall k: nat | k <= |data| :: f(k) == EntriesFrom(keys, data, k)
    requires forall k: nat | k <= |data| :: g(k) == ScanWith(scanner, data[k..])
    ensures SameRound(f, g, |data|, i)
  {
    LoadsEverywhere(scanner, keys, data, IdAt(keys.account, data, i));
    OneRound(scanner, keys, data, i);
    EntriesRound(keys, data, i);
    var (found, next) := NextAt(keys, data, i);
    if next.Some? {
      var j: nat := next.value;
      assert f(i) == found + f(j) && g(i) == found + g(j);
    }
  }

  /** The loop reads what the scanner reads. */
  lemma EntriesFromIsScan(scanner: Scanner, keys: Keys, data: string)
    requires scanner.account == keys.account
    requires forall cut :: scanner.load(cut) == Loaded(keys, cut)
    ensures EntriesFrom(keys, data, 0) == ScanWith(scanner, data)
  {
    var f: nat -> seq<BanEntry> := (k: nat) => if k <= |data| then EntriesFrom(keys, data, k) else [];
    var g: nat -> seq<BanEntry> := (k: nat) => if k <= |data| then ScanWith(scanner, data[k..]) else [];
    forall k: nat | k <= |data|
      ensures SameRound(f, g, |data|, k)
    {
      RoundsAgree(scanner, keys, data, f, g, k);
    }
    SameRounds(f, g, |data|, 0);
    assert data[0..] == data;
  }
}
