/** The text of the ban file: the JSON printer, the quote-hunting scanner that reads it back,
    and the exact set of ban lists that survive the trip. */
module BanFormat {
  import opened Basics
  import opened Text

  const INT64_LIMIT: int := 0x8000_0000_0000_0000

  /** Seconds since the epoch in a 64-bit `time_t`. */
  type Time = t: int | -INT64_LIMIT <= t < INT64_LIMIT

  datatype BanEntry = BanEntry(accountId: string, reason: string, timestamp: Time)

  // ---------- printing ----------

  function EscapeChar(c: char): (s: string)
    ensures s != ""
  {
    if c == '"' then "\\\""
    else if c == '\\' then "\\\\"
    else if c == '\n' then "\\n"
    else if c == '\r' then "\\r"
    else if c == '\t' then "\\t"
    else if c as int < 0x20 then "\\u00" + [HexDigit(c as int / 16), HexDigit(c as int % 16)]
    else [c]
  }

  function EscapeJson(s: string): string {
    if s == "" then "" else EscapeChar(s[0]) + EscapeJson(s[1..])
  }

  function Quoted(s: string): string { "\"" + s + "\"" }

  /** The part of a printed entry that starts at the closing quote of the account id. */
  function AfterId(reason: string, timestamp: string, rest: string): string {
    "\"" + (", " + (Quoted("reason") + (": " + (Quoted(reason)
    + (", " + (Quoted("timestamp") + (": " + (timestamp + ("}" + rest)))))))))
  }

  /** One printed entry followed by `rest`. */
  function EntryText(e: BanEntry, rest: string): string {
    "  {" + (Quoted("accountId") + (": " + ("\"" + (EscapeJson(e.accountId)
    + AfterId(EscapeJson(e.reason), ToDecimal(e.timestamp), rest)))))
  }

  /** What follows the closing brace of an entry: a comma unless it is the last one, and a line end. */
  function LineEnd(last: bool): string { if last then "\r\n" else ",\r\n" }

  /** The entries, one to a line, and the closing bracket. */
  function Body(entries: seq<BanEntry>): string {
    if entries == [] then "]\r\n"
    else EntryText(entries[0], LineEnd(|entries| == 1) + Body(entries[1..]))
  }

  function Render(entries: seq<BanEntry>): string { "[\r\n" + Body(entries) }

  // ---------- scanning ----------

  /** The quoted keys the scanner looks for. */
  datatype Keys = Keys(account: string, reason: string, timestamp: string)

  const KEYS := Keys(Quoted("accountId"), Quoted("reason"), Quoted("timestamp"))

  /** A key counts for the current entry only if no later account key comes first. */
  predicate Before(key: Option<nat>, next: Option<nat>) {
    key.Some? && (next.None? || key.value < next.value)
  }

  /** A quoted value and the text from its closing quote on. */
  datatype Cut = Cut(value: string, tail: string)

  /** What stands between the next two quotes. */
  ghost function NextQuoted(s: string): (r: Option<Cut>)
    ensures r.Some? ==> |r.value.value| + |r.value.tail| + 1 <= |s| && r.value.tail != ""
  {
    match Find(s, "\"")
    case None => None
    case Some(q1) =>
      match Find(s[q1 + 1..], "\"")
      case None => None
      case Some(q2) => Some(Cut(s[q1 + 1..][..q2], s[q1 + 1..][q2..]))
  }

  /** The reason found in `tail`, the text from the closing quote of the account id. */
  ghost function ReasonIn(keys: Keys, tail: string): string {
    if Before(Find(tail, keys.reason), Find(tail, keys.account)) then
      match QuotedBehind(tail, keys.reason)
      case None => ""
      case Some(cut) => cut.value
    else ""
  }

  /** `std::stoll` with every exception swallowed: anything unreadable leaves zero. */
  function TimeOf(text: string): Time {
    match ParseNumber(text)
    case None => 0
    case Some(n) => if -INT64_LIMIT <= n < INT64_LIMIT then n else 0
  }

  /** The number between the next colon and the delimiter behind it. */
  ghost function TimeAfterColon(s: string): Time {
    match Find(s, ":")
    case None => 0
    case Some(colon) =>
      match FindAny(s[colon + 1..], ",}\n")
      case None => 0
      case Some(end) => TimeOf(s[colon + 1..][..end])
  }

  ghost function TimeIn(keys: Keys, tail: string): Time {
    var key := Find(tail, keys.timestamp);
    if Before(key, Find(tail, keys.account)) then TimeAfterColon(tail[key.value..]) else 0
  }

  /** The next quoted value behind the first occurrence of `pat`. */
  ghost function QuotedBehind(s: string, pat: string): (r: Option<Cut>)
    ensures r.Some? ==> |pat| + |r.value.value| + |r.value.tail| + 1 <= |s| && r.value.tail != ""
  {
    match Find(s, pat)
    case None => None
    case Some(key) => NextQuoted(s[key + |pat|..])
  }

  /** What the scanner's loop depends on: the key that starts an entry, and what is pushed for an id. */
  datatype Scanner = Scanner(account: string, load: Cut -> seq<BanEntry>)

  /** The entries read from `s`. The scanner looks for the account key, takes what stands between the next
      two quotes for the id, and goes on just behind the second one. */
  ghost function ScanWith(scanner: Scanner, s: string): seq<BanEntry>
    decreases |s|
  {
    match QuotedBehind(s, scanner.account)
    case None => []
    case Some(cut) => scanner.load(cut) + ScanWith(scanner, cut.tail[1..])
  }

  /** The entry pushed for an account id and the text behind it; an empty id is dropped. */
  ghost function Loaded(keys: Keys, cut: Cut): seq<BanEntry> {
    if cut.value == "" then []
    else [BanEntry(cut.value, ReasonIn(keys, cut.tail), TimeIn(keys, cut.tail))]
  }

  ghost const BAN_SCANNER := Scanner(KEYS.account, cut => Loaded(KEYS, cut))

  ghost function Scan(s: string): seq<BanEntry> { ScanWith(BAN_SCANNER, s) }

  // ---------- the scanner on arbitrary text ----------

  predicate QuoteFree(s: string) { '"' !in s }

  predicate CleanEntry(e: BanEntry) {
    e.accountId != "" && QuoteFree(e.accountId) && QuoteFree(e.reason)
  }

  lemma NextQuotedIsQuoteFree(s: string)
    ensures NextQuoted(s).Some? ==> QuoteFree(NextQuoted(s).value.value) && NextQuoted(s).value.tail[0] == '"'
  {
    if NextQuoted(s).Some? {
      FindSingleBefore(s[Find(s, "\"").value + 1..], '"');
    }
  }

  lemma QuotedBehindIsQuoteFree(s: string, pat: string)
    ensures QuotedBehind(s, pat).Some? ==> QuoteFree(QuotedBehind(s, pat).value.value)
  {
    if Find(s, pat).Some? {
      NextQuotedIsQuoteFree(s[Find(s, pat).value + |pat|..]);
    }
  }

  lemma LoadedIsClean(keys: Keys, cut: Cut)
    requires QuoteFree(cut.value)
    ensures forall e :: e in Loaded(keys, cut) ==> CleanEntry(e)
  {
    QuotedBehindIsQuoteFree(cut.tail, keys.reason);
  }

  lemma {:induction false} ScanIsClean(scanner: Scanner, s: string)
    requires forall cut: Cut, e | QuoteFree(cut.value) && e in scanner.load(cut) :: CleanEntry(e)
    ensures forall e :: e in ScanWith(scanner, s) ==> CleanEntry(e)
    decreases |s|
  {
    var next := QuotedBehind(s, scanner.account);
    if next.None? {
      ScanNone(scanner, s);
    } else {
      QuotedBehindIsQuoteFree(s, scanner.account);
      ScanIsClean(scanner, next.value.tail[1..]);
      ScanStep(scanner, s, next.value);
    }
  }

  lemma LoadedLength(keys: Keys, cut: Cut)
    ensures |Loaded(keys, cut)| == if cut.value == "" then 0 else 1
  {
  }

  lemma {:induction false} ScanIsShort(scanner: Scanner, s: string)
    requires |scanner.account| == 11
    requires forall cut: Cut :: |scanner.load(cut)| == if cut.value == "" then 0 else 1
    ensures 14 * |ScanWith(scanner, s)| <= |s|
    decreases |s|
  {
    var next := QuotedBehind(s, scanner.account);
    if next.None? {
      ScanNone(scanner, s);
    } else {
      ScanIsShort(scanner, next.value.tail[1..]);
      ScanStep(scanner, s, next.value);
    }
  }

  /** On every input: loaded ids are non-empty, nothing loaded holds a quote, and each loaded entry
      accounts for fourteen characters of the file (a key, two quotes and one id character). */
  lemma ScanIsBounded(s: string)
    ensures forall e :: e in Scan(s) ==> CleanEntry(e)
    ensures 14 * |Scan(s)| <= |s|
  {
    forall cut: Cut | QuoteFree(cut.value)
      ensures forall e :: e in BAN_SCANNER.load(cut) ==> CleanEntry(e)
    {
      LoadedIsClean(KEYS, cut);
    }
    ScanIsClean(BAN_SCANNER, s);
    ScanIsShort(BAN_SCANNER, s);
  }

  // ---------- where a quoted key can be found in printed text ----------

  lemma KeySkipsPlain(a: string, s: string, key: string)
    requires QuoteFree(a)
    ensures Find(a + s, Quoted(key)) == Shift(|a|, Find(s, Quoted(key)))
  {
    FindSkips(a, s, Quoted(key));
  }

  /** Between quotes, a value is taken for a key exactly when it is that key. */
  lemma QuotedPrefix(v: string, s: string, key: string)
    requires QuoteFree(v) && QuoteFree(key)
    ensures OccursAt(Quoted(v) + s, Quoted(key), 0) <==> v == key
  {
    if v == key {
      assert (Quoted(v) + s)[0..|v| + 2] == Quoted(key);
    } else if OccursAt(Quoted(v) + s, Quoted(key), 0) {
      QuotedPrefixDiffers(v, s, key);
      assert false;
    }
  }

  lemma QuotedPrefixDiffers(v: string, s: string, key: string)
    requires QuoteFree(v) && QuoteFree(key)
    requires OccursAt(Quoted(v) + s, Quoted(key), 0)
    ensures v == key
  {
    var t := Quoted(v) + s;
    var n := if |key| < |v| then |key| else |v|;
    forall i: nat | i < |key| + 2
      ensures t[i] == Quoted(key)[i]
    {
      OccursAgrees(t, Quoted(key), 0, i);
    }
    assert t[|key| + 1] == '"' && t[|v| + 1] == '"';
    forall i | 0 <= i < n
      ensures v[i] == key[i]
    {
      assert t[i + 1] == v[i] && Quoted(key)[i + 1] == key[i];
    }
  }

  /** A closing quote does not open a key when the next character does not start it. */
  lemma KeySkipsQuote(s: string, key: string)
    requires s != "" && key != "" && s[0] != key[0]
    ensures Find("\"" + s, Quoted(key)) == Shift(1, Find(s, Quoted(key)))
  {
    var t := "\"" + s;
    OccursAgrees(t, Quoted(key), 0, 1);
    FindStep(t, Quoted(key));
    assert t[1..] == s;
  }

  lemma KeyInQuoted(v: string, s: string, key: string)
    requires QuoteFree(v) && QuoteFree(key) && key != ""
    requires s != "" && s[0] != key[0]
    ensures Find(Quoted(v) + s, Quoted(key)) ==
            if v == key then Some(0) else Shift(|v| + 2, Find(s, Quoted(key)))
  {
    var t := Quoted(v) + s;
    QuotedPrefix(v, s, key);
    if v == key {
      FindIsAt(t, Quoted(key), 0, 0);
    } else {
      FindStep(t, Quoted(key));
      assert t[1..] == v + ("\"" + s);
      KeySkipsPlain(v, "\"" + s, key);
      KeySkipsQuote(s, key);
    }
  }

  /** Where each of the three keys is first seen from the closing quote of a printed id. */
  lemma KeysAfterId(reason: string, ts: string, rest: string, key: string)
    requires QuoteFree(reason) && QuoteFree(ts)
    requires key in ["reason", "timestamp", "accountId"]
    ensures Find(AfterId(reason, ts, rest), Quoted(key)) ==
            if key == "reason" then Some(3)
            else if reason == key then Some(13)
            else if key == "timestamp" then Some(17 + |reason|)
            else Shift(31 + |reason| + |ts|, Find(rest, Quoted(key)))
  {
    KeyBeforeReason(reason, ts, rest, key);
    if key != "reason" {
      KeyFromReason(reason, ts, rest, key);
    }
  }

  /** The text from the opening quote of the printed reason. */
  function FromReason(reason: string, ts: string, rest: string): string {
    Quoted(reason) + (", " + FromTimestamp(ts, rest))
  }

  function FromTimestamp(ts: string, rest: string): string {
    Quoted("timestamp") + (": " + (ts + ("}" + rest)))
  }

  /** A quoted value behind a separator either is the key or is passed over. */
  lemma KeyPast(sep: string, v: string, s: string, key: string)
    requires QuoteFree(sep) && QuoteFree(v) && QuoteFree(key) && key != ""
    requires s != "" && s[0] != key[0]
    ensures Find(sep + (Quoted(v) + s), Quoted(key)) ==
            if v == key then Some(|sep|) else Shift(|sep| + |v| + 2, Find(s, Quoted(key)))
  {
    KeySkipsPlain(sep, Quoted(v) + s, key);
    KeyInQuoted(v, s, key);
  }

  lemma KeyBeforeReason(reason: string, ts: string, rest: string, key: string)
    requires key in ["reason", "timestamp", "accountId"]
    ensures Find(AfterId(reason, ts, rest), Quoted(key)) ==
            if key == "reason" then Some(3) else Shift(13, Find(FromReason(reason, ts, rest), Quoted(key)))
  {
    var s := FromReason(reason, ts, rest);
    var t := ", " + (Quoted("reason") + (": " + s));
    KeyPast(", ", "reason", ": " + s, key);
    KeySkipsPlain(": ", s, key);
    KeySkipsQuote(t, key);
  }

  lemma KeyFromTimestamp(ts: string, rest: string, key: string)
    requires QuoteFree(ts)
    requires key in ["timestamp", "accountId"]
    ensures Find(FromTimestamp(ts, rest), Quoted(key)) ==
            if key == "timestamp" then Some(0) else Shift(14 + |ts|, Find(rest, Quoted(key)))
  {
    KeyInQuoted("timestamp", ": " + (ts + ("}" + rest)), key);
    KeySkipsPlain(": ", ts + ("}" + rest), key);
    KeySkipsPlain(ts, "}" + rest, key);
    KeySkipsPlain("}", rest, key);
  }

  lemma KeyFromReason(reason: string, ts: string, rest: string, key: string)
    requires QuoteFree(reason) && QuoteFree(ts)
    requires key in ["timestamp", "accountId"]
    ensures Find(FromReason(reason, ts, rest), Quoted(key)) ==
            if reason == key then Some(0)
            else Shift(|reason| + 4, Find(FromTimestamp(ts, rest), Quoted(key)))
    ensures Find(FromTimestamp(ts, rest), Quoted(key)) ==
            if key == "timestamp" then Some(0) else Shift(14 + |ts|, Find(rest, Quoted(key)))
  {
    var s := FromTimestamp(ts, rest);
    KeyInQuoted(reason, ", " + s, key);
    KeySkipsPlain(", ", s, key);
    KeyFromTimestamp(ts, rest, key);
  }

  // ---------- one printed entry ----------

  lemma NextQuotedAt(s: string, q1: nat, q2: nat)
    requires Find(s, "\"") == Some(q1) && Find(s[q1 + 1..], "\"") == Some(q2)
    ensures NextQuoted(s) == Some(Cut(s[q1 + 1..][..q2], s[q1 + 1..][q2..]))
  {
  }

  lemma QuotedParts(a: string, v: string, s: string)
    ensures a + (Quoted(v) + s) == a + "\"" + (v + "\"" + s)
    ensures (a + "\"" + (v + "\"" + s))[|a| + 1..] == v + "\"" + s
    ensures (v + "\"" + s)[..|v|] == v
    ensures (v + "\"" + s)[|v|..] == "\"" + s
  {
  }

  lemma NextQuotedOf(a: string, v: string, s: string)
    requires QuoteFree(a) && QuoteFree(v)
    ensures NextQuoted(a + (Quoted(v) + s)) == Some(Cut(v, "\"" + s))
  {
    QuotedParts(a, v, s);
    FindSingle(a, '"', v + "\"" + s);
    FindSingle(v, '"', s);
    NextQuotedAt(a + (Quoted(v) + s), |a|, |v|);
  }

  /** A key found at `k` followed by a separator and a quoted value. */
  lemma QuotedBehindOf(s: string, pat: string, k: nat, a: string, v: string, rest: string)
    requires Find(s, pat) == Some(k)
    requires s[k + |pat|..] == a + (Quoted(v) + rest)
    requires QuoteFree(a) && QuoteFree(v)
    ensures QuotedBehind(s, pat) == Some(Cut(v, "\"" + rest))
  {
    NextQuotedOf(a, v, rest);
  }

  /** The reason read from a printed entry is the printed one. */
  lemma ReasonOfPrinted(reason: string, ts: string, rest: string)
    requires QuoteFree(reason) && QuoteFree(ts)
    ensures ReasonIn(KEYS, AfterId(reason, ts, rest)) == reason
  {
    var tail := AfterId(reason, ts, rest);
    KeysAfterId(reason, ts, rest, "reason");
    KeysAfterId(reason, ts, rest, "accountId");
    assert tail[3 + 8..] == ": " + (Quoted(reason) + (", " + FromTimestamp(ts, rest)));
    QuotedBehindOf(tail, Quoted("reason"), 3, ": ", reason, ", " + FromTimestamp(ts, rest));
  }

  lemma TimeAfterColonAt(s: string, colon: nat, end: nat)
    requires Find(s, ":") == Some(colon) && FindAny(s[colon + 1..], ",}\n") == Some(end)
    ensures TimeAfterColon(s) == TimeOf(s[colon + 1..][..end])
  {
  }

  lemma ColonParts(before: string, text: string, rest: string)
    ensures before + (": " + (text + ("}" + rest))) == before + ":" + ((" " + text) + ("}" + rest))
    ensures (before + ":" + ((" " + text) + ("}" + rest)))[|before| + 1..] == (" " + text) + ("}" + rest)
    ensures ((" " + text) + ("}" + rest))[..1 + |text|] == " " + (text + "")
  {
  }

  lemma TimeAfterColonOf(before: string, ts: Time, rest: string)
    requires ':' !in before
    ensures TimeAfterColon(before + (": " + (ToDecimal(ts) + ("}" + rest)))) == ts
  {
    var text := ToDecimal(ts);
    ColonParts(before, text, rest);
    FindSingle(before, ':', (" " + text) + ("}" + rest));
    DecimalChars(ts);
    FindAnySkips(" " + text, "}" + rest, ",}\n");
    TimeAfterColonAt(before + (": " + (text + ("}" + rest))), |before|, 1 + |text|);
    ParseOfDecimal(ts, "");
  }

  lemma TimeInAt(keys: Keys, tail: string, k: nat)
    requires Find(tail, keys.timestamp) == Some(k) && Before(Some(k), Find(tail, keys.account))
    ensures TimeIn(keys, tail) == TimeAfterColon(tail[k..])
  {
  }

  lemma TimestampPlace(reason: string, ts: string, rest: string)
    requires QuoteFree(reason) && QuoteFree(ts) && reason != "accountId"
    ensures var tail := AfterId(reason, ts, rest);
            var k := if reason == "timestamp" then 13 else 17 + |reason|;
            Find(tail, KEYS.timestamp) == Some(k) && Before(Some(k), Find(tail, KEYS.account))
  {
    KeysAfterId(reason, ts, rest, "timestamp");
    KeysAfterId(reason, ts, rest, "accountId");
  }

  lemma TimeBehindKey(reason: string, ts: Time, rest: string)
    requires reason == "timestamp"
    ensures TimeAfterColon(AfterId(reason, ToDecimal(ts), rest)[13..]) == ts
  {
    TimestampText(reason, ToDecimal(ts), rest);
    TimeAfterColonOf(Quoted("timestamp") + ", " + Quoted("timestamp"), ts, rest);
  }

  lemma TimeBehindReason(reason: string, ts: Time, rest: string)
    ensures TimeAfterColon(AfterId(reason, ToDecimal(ts), rest)[17 + |reason|..]) == ts
  {
    TimestampText(reason, ToDecimal(ts), rest);
    TimeAfterColonOf(Quoted("timestamp"), ts, rest);
  }

  /** The timestamp read from a printed entry is the printed one, unless the reason is the account key. */
  lemma TimeOfPrinted(reason: string, ts: Time, rest: string)
    requires QuoteFree(reason) && reason != "accountId"
    ensures TimeIn(KEYS, AfterId(reason, ToDecimal(ts), rest)) == ts
  {
    var text := ToDecimal(ts);
    DecimalChars(ts);
    TimestampPlace(reason, text, rest);
    TimeInAt(KEYS, AfterId(reason, text, rest), if reason == "timestamp" then 13 else 17 + |reason|);
    if reason == "timestamp" {
      TimeBehindKey(reason, ts, rest);
    } else {
      TimeBehindReason(reason, ts, rest);
    }
  }

  /** The text from the place where the timestamp key is found. */
  lemma TimestampText(reason: string, ts: string, rest: string)
    ensures AfterId(reason, ts, rest)[17 + |reason|..] == Quoted("timestamp") + (": " + (ts + ("}" + rest)))
    ensures reason == "timestamp" ==>
              AfterId(reason, ts, rest)[13..]
              == Quoted("timestamp") + ", " + Quoted("timestamp") + (": " + (ts + ("}" + rest)))
  {
  }

  // ---------- escaping ----------

  /** A character that JSON printing leaves alone. */
  predicate PlainChar(c: char) { c != '"' && c != '\\' && c as int >= 0x20 }

  predicate PlainText(s: string) { forall c :: c in s ==> PlainChar(c) }

  lemma EscapeHead(s: string)
    requires s != ""
    ensures EscapeJson(s) == EscapeChar(s[0]) + EscapeJson(s[1..])
    ensures forall c :: c in EscapeJson(s) <==> c in EscapeChar(s[0]) || c in EscapeJson(s[1..])
    ensures forall c :: c in s <==> c == s[0] || c in s[1..]
  {
  }

  lemma {:induction false} EscapeQuotes(s: string)
    ensures QuoteFree(EscapeJson(s)) <==> QuoteFree(s)
    ensures EscapeJson(s) == "" <==> s == ""
  {
    if s != "" {
      EscapeHead(s);
      EscapeQuotes(s[1..]);
      if s[0] == '"' {
        assert EscapeChar(s[0])[1] == '"';
      }
    }
  }

  lemma {:induction false} EscapeLength(s: string)
    ensures |EscapeJson(s)| >= |s|
    ensures |EscapeJson(s)| == |s| <==> PlainText(s)
  {
    if s != "" {
      EscapeHead(s);
      EscapeLength(s[1..]);
      assert PlainChar(s[0]) <==> |EscapeChar(s[0])| == 1;
      assert PlainText(s) <==> PlainChar(s[0]) && PlainText(s[1..]);
    }
  }

  lemma {:induction false} EscapeOfPlain(s: string)
    requires PlainText(s)
    ensures EscapeJson(s) == s
  {
    if s != "" {
      EscapeHead(s);
      assert PlainChar(s[0]);
      EscapeOfPlain(s[1..]);
      assert s == [s[0]] + s[1..];
    }
  }

  /** Escaping keeps exactly the plain texts as they are, and a quote survives in some form. */
  lemma EscapeKeeps(s: string)
    ensures EscapeJson(s) == s <==> PlainText(s)
    ensures QuoteFree(EscapeJson(s)) <==> QuoteFree(s)
    ensures EscapeJson(s) == "" <==> s == ""
  {
    EscapeQuotes(s);
    EscapeLength(s);
    if PlainText(s) {
      EscapeOfPlain(s);
    }
  }

  /** Only the word itself is printed as the account key. */
  lemma EscapedKey(s: string)
    requires QuoteFree(s)
    ensures EscapeJson(s) == "accountId" <==> s == "accountId"
  {
    if EscapeJson(s) == "accountId" {
      EscapeFreeOfBackslash(s);
    } else if s == "accountId" {
      EscapeOfPlain(s);
    }
  }

  lemma {:induction false} EscapeFreeOfBackslash(s: string)
    requires '\\' !in EscapeJson(s)
    ensures EscapeJson(s) == s
  {
    if s != "" {
      EscapeHead(s);
      assert EscapeChar(s[0])[0] in EscapeChar(s[0]);
      EscapeFreeOfBackslash(s[1..]);
      assert s == [s[0]] + s[1..];
    }
  }

  // ---------- the round trip ----------

  /** The entry with its texts as printed. */
  function Escaped(e: BanEntry): BanEntry {
    e.(accountId := EscapeJson(e.accountId), reason := EscapeJson(e.reason))
  }

  function EscapedAll(entries: seq<BanEntry>): seq<BanEntry> {
    if entries == [] then [] else [Escaped(entries[0])] + EscapedAll(entries[1..])
  }

  /** What an administrator has to keep to for an entry to come back from the file. */
  predicate Restorable(e: BanEntry) {
    CleanEntry(e) && e.reason != "accountId"
  }

  lemma QuotedBehindAt(s: string, pat: string, k: nat)
    requires Find(s, pat) == Some(k)
    ensures QuotedBehind(s, pat) == NextQuoted(s[k + |pat|..])
  {
  }

  lemma QuotedBehindSame(s: string, t: string, pat: string, k: nat, j: nat)
    requires Find(s, pat) == Some(k) && Find(t, pat) == Some(j)
    requires s[k + |pat|..] == t[j + |pat|..]
    ensures QuotedBehind(s, pat) == QuotedBehind(t, pat)
  {
  }

  lemma QuotedBehindSkips(a: string, s: string, pat: string)
    requires Find(a + s, pat) == Shift(|a|, Find(s, pat))
    ensures QuotedBehind(a + s, pat) == QuotedBehind(s, pat)
  {
    if Find(s, pat).Some? {
      var t, k := a + s, Find(s, pat).value;
      assert t[|a| + k + |pat|..] == s[k + |pat|..];
      QuotedBehindSame(t, s, pat, |a| + k, k);
    }
  }

  lemma ScanFollowsNextId(scanner: Scanner, s: string, t: string)
    requires QuotedBehind(s, scanner.account) == QuotedBehind(t, scanner.account)
    ensures ScanWith(scanner, s) == ScanWith(scanner, t)
  {
  }

  lemma ScanStep(scanner: Scanner, s: string, cut: Cut)
    requires QuotedBehind(s, scanner.account) == Some(cut)
    ensures ScanWith(scanner, s) == scanner.load(cut) + ScanWith(scanner, cut.tail[1..])
  {
  }

  lemma ScanNone(scanner: Scanner, s: string)
    requires QuotedBehind(s, scanner.account) == None
    ensures ScanWith(scanner, s) == []
  {
  }

  /** Text in front of which nothing looks like an account key is invisible to the scanner. */
  lemma ScanSkips(a: string, s: string)
    requires Find(a + s, Quoted("accountId")) == Shift(|a|, Find(s, Quoted("accountId")))
    ensures Scan(a + s) == Scan(s)
  {
    QuotedBehindSkips(a, s, Quoted("accountId"));
    ScanFollowsNextId(BAN_SCANNER, a + s, s);
  }

  /** Behind the id of a printed entry the scanner sees nothing, or, when the reason is the account key,
      one bogus entry called `timestamp`. */
  lemma ScanAfterId(reason: string, ts: string, rest: string)
    requires QuoteFree(reason) && QuoteFree(ts)
    ensures reason != "accountId" ==> Scan(AfterId(reason, ts, rest)[1..]) == Scan(rest)
    ensures reason == "accountId" ==> |Scan(AfterId(reason, ts, rest)[1..])| == 1 + |Scan(rest)|
  {
    if reason != "accountId" {
      ScanSkipsReason(reason, ts, rest);
    } else {
      BogusEntry(ts, rest);
    }
  }

  lemma AfterIdSplit(reason: string, ts: string, rest: string)
    ensures var a := AfterId(reason, ts, "");
            AfterId(reason, ts, rest)[1..] == a[1..] + rest && |a| == 31 + |reason| + |ts|
  {
  }

  lemma ScanSkipsReason(reason: string, ts: string, rest: string)
    requires QuoteFree(reason) && QuoteFree(ts) && reason != "accountId"
    ensures Scan(AfterId(reason, ts, rest)[1..]) == Scan(rest)
  {
    KeysAfterId(reason, ts, rest, "accountId");
    FindOneOff(AfterId(reason, ts, rest), "accountId");
    AfterIdSplit(reason, ts, rest);
    ScanSkips(AfterId(reason, ts, "")[1..], rest);
  }

  /** Dropping one character in front of the first occurrence moves it by one. */
  lemma FindOneOff(s: string, key: string)
    requires s != "" && Find(s, Quoted(key)) != Some(0)
    ensures Find(s, Quoted(key)) == Shift(1, Find(s[1..], Quoted(key)))
  {
    FindStep(s, Quoted(key));
  }

  lemma BogusId(ts: string, rest: string)
    requires QuoteFree(ts)
    ensures QuotedBehind(AfterId("accountId", ts, rest)[1..], KEYS.account)
         == Some(Cut("timestamp", "\"" + (": " + (ts + ("}" + rest)))))
  {
    var tail := AfterId("accountId", ts, rest);
    var s, more := tail[1..], ": " + (ts + ("}" + rest));
    KeysAfterId("accountId", ts, rest, "accountId");
    FindOneOff(tail, "accountId");
    assert s[12 + 11..] == ", " + (Quoted("timestamp") + more);
    QuotedBehindOf(s, Quoted("accountId"), 12, ", ", "timestamp", more);
  }

  lemma ScanFromColon(ts: string, rest: string)
    requires QuoteFree(ts)
    ensures Scan(": " + (ts + ("}" + rest))) == Scan(rest)
  {
    var a := ": " + ts + "}";
    assert ": " + (ts + ("}" + rest)) == a + rest;
    KeySkipsPlain(a, rest, "accountId");
    ScanSkips(a, rest);
  }

  lemma BogusEntry(ts: string, rest: string)
    requires QuoteFree(ts)
    ensures |Scan(AfterId("accountId", ts, rest)[1..])| == 1 + |Scan(rest)|
  {
    var more := ": " + (ts + ("}" + rest));
    var cut := Cut("timestamp", "\"" + more);
    BogusId(ts, rest);
    ScanStep(BAN_SCANNER, AfterId("accountId", ts, rest)[1..], cut);
    assert cut.tail[1..] == more;
    ScanFromColon(ts, rest);
  }

  lemma QuotedSplit(id: string, tail: string)
    requires tail != "" && tail[0] == '"'
    ensures "\"" + (id + tail) == Quoted(id) + tail[1..]
    ensures "\"" + tail[1..] == tail
  {
  }

  lemma DropKey(a: string, b: string, s: string)
    ensures (a + (b + s))[|a| + |b|..] == s
  {
  }

  lemma IdBehindKey(id: string, tail: string)
    requires QuoteFree(id)
    requires tail != "" && tail[0] == '"'
    ensures QuotedBehind("  {" + (Quoted("accountId") + (": " + ("\"" + (id + tail)))), KEYS.account)
         == Some(Cut(id, tail))
  {
    var after := ": " + ("\"" + (id + tail));
    QuotedSplit(id, tail);
    KeyPast("  {", "accountId", after, "accountId");
    DropKey("  {", Quoted("accountId"), after);
    QuotedBehindOf("  {" + (Quoted("accountId") + after), Quoted("accountId"), 3, ": ", id, tail[1..]);
  }

  /** The first id found in a printed entry is its own. */
  lemma IdOfPrinted(e: BanEntry, rest: string)
    requires CleanEntry(e)
    ensures QuotedBehind(EntryText(e, rest), KEYS.account) ==
            Some(Cut(EscapeJson(e.accountId), AfterId(EscapeJson(e.reason), ToDecimal(e.timestamp), rest)))
  {
    EscapeKeeps(e.accountId);
    IdBehindKey(EscapeJson(e.accountId), AfterId(EscapeJson(e.reason), ToDecimal(e.timestamp), rest));
  }

  /** What the scanner pushes for a printed entry. */
  lemma LoadedOfPrinted(e: BanEntry, rest: string)
    requires CleanEntry(e)
    ensures var cut := Cut(EscapeJson(e.accountId), AfterId(EscapeJson(e.reason), ToDecimal(e.timestamp), rest));
            && |Loaded(KEYS, cut)| == 1
            && (e.reason != "accountId" ==> Loaded(KEYS, cut) == [Escaped(e)])
  {
    var cut := Cut(EscapeJson(e.accountId), AfterId(EscapeJson(e.reason), ToDecimal(e.timestamp), rest));
    EscapeKeeps(e.accountId);
    LoadedLength(KEYS, cut);
    if e.reason != "accountId" {
      EscapeKeeps(e.reason);
      EscapedKey(e.reason);
      DecimalChars(e.timestamp);
      ReasonOfPrinted(EscapeJson(e.reason), ToDecimal(e.timestamp), rest);
      TimeOfPrinted(EscapeJson(e.reason), e.timestamp, rest);
    }
  }

  lemma ScanStepWith(s: string, cut: Cut, found: seq<BanEntry>, rest: string)
    requires QuotedBehind(s, KEYS.account) == Some(cut) && Loaded(KEYS, cut) == found
    requires cut.tail != "" && Scan(cut.tail[1..]) == Scan(rest)
    ensures Scan(s) == found + Scan(rest)
  {
    ScanStep(BAN_SCANNER, s, cut);
  }

  lemma ScanStepCount(s: string, cut: Cut, rest: string)
    requires QuotedBehind(s, KEYS.account) == Some(cut) && |Loaded(KEYS, cut)| == 1
    requires cut.tail != "" && |Scan(cut.tail[1..])| == 1 + |Scan(rest)|
    ensures |Scan(s)| == 2 + |Scan(rest)|
  {
  }

  /** Scanning a printed entry gives that entry and what follows it. */
  lemma ScanEntry(e: BanEntry, rest: string)
    requires Restorable(e)
    ensures Scan(EntryText(e, rest)) == [Escaped(e)] + Scan(rest)
  {
    var tail := AfterId(EscapeJson(e.reason), ToDecimal(e.timestamp), rest);
    EscapeKeeps(e.reason);
    EscapedKey(e.reason);
    DecimalChars(e.timestamp);
    IdOfPrinted(e, rest);
    LoadedOfPrinted(e, rest);
    ScanAfterId(EscapeJson(e.reason), ToDecimal(e.timestamp), rest);
    ScanStepWith(EntryText(e, rest), Cut(EscapeJson(e.accountId), tail), [Escaped(e)], rest);
  }

  lemma ScanEntryCount(e: BanEntry, rest: string, tail: string)
    requires CleanEntry(e) && tail == AfterId(EscapeJson(e.reason), ToDecimal(e.timestamp), rest) && tail != ""
    requires |Scan(tail[1..])| == 1 + |Scan(rest)|
    ensures |Scan(EntryText(e, rest))| == 2 + |Scan(rest)|
  {
    IdOfPrinted(e, rest);
    LoadedOfPrinted(e, rest);
    ScanStepCount(EntryText(e, rest), Cut(EscapeJson(e.accountId), tail), rest);
  }

  lemma QuoteFreeDecimal(n: int)
    ensures QuoteFree(ToDecimal(n))
  {
    DecimalChars(n);
  }

  /** A reason that reads accountId costs one bogus entry. */
  lemma ScanKeyReason(e: BanEntry, rest: string)
    requires CleanEntry(e) && e.reason == "accountId"
    ensures |Scan(EntryText(e, rest))| == 2 + |Scan(rest)|
  {
    var ts := ToDecimal(e.timestamp);
    EscapedKey(e.reason);
    QuoteFreeDecimal(e.timestamp);
    BogusEntry(ts, rest);
    ScanEntryCount(e, rest, AfterId("accountId", ts, rest));
  }

  lemma ScanLineEnd(last: bool, rest: string)
    ensures Scan(LineEnd(last) + rest) == Scan(rest)
  {
    KeySkipsPlain(LineEnd(last), rest, "accountId");
    ScanSkips(LineEnd(last), rest);
  }

  lemma ScanClosing()
    ensures Scan("]\r\n") == []
  {
  }

  /** The scanner's view of the first printed entry and of all the others. */
  lemma ScanFirst(entries: seq<BanEntry>)
    requires entries != [] && CleanEntry(entries[0])
    ensures entries[0].reason != "accountId" ==>
              Scan(Body(entries)) == [Escaped(entries[0])] + Scan(Body(entries[1..]))
    ensures entries[0].reason == "accountId" ==>
              |Scan(Body(entries))| == 2 + |Scan(Body(entries[1..]))|
  {
    var rest := LineEnd(|entries| == 1) + Body(entries[1..]);
    ScanLineEnd(|entries| == 1, Body(entries[1..]));
    if entries[0].reason != "accountId" {
      ScanEntry(entries[0], rest);
    } else {
      ScanKeyReason(entries[0], rest);
    }
  }

  lemma {:induction false} ScanBody(entries: seq<BanEntry>)
    requires forall e :: e in entries ==> Restorable(e)
    ensures Scan(Body(entries)) == EscapedAll(entries)
  {
    ScanClosing();
    if entries != [] {
      assert entries[0] in entries;
      ScanFirst(entries);
      ScanBody(entries[1..]);
    }
  }

  /** How many entries have the account key for their reason. */
  function KeyReasons(entries: seq<BanEntry>): nat {
    if entries == [] then 0
    else (if entries[0].reason == "accountId" then 1 else 0) + KeyReasons(entries[1..])
  }

  /** Each such reason brings one entry too many. */
  lemma {:induction false} ScanBodyCount(entries: seq<BanEntry>)
    requires forall e :: e in entries ==> CleanEntry(e)
    ensures |Scan(Body(entries))| == |entries| + KeyReasons(entries)
  {
    ScanClosing();
    if entries != [] {
      assert entries[0] in entries;
      ScanFirst(entries);
      ScanBodyCount(entries[1..]);
    }
  }

  lemma {:induction false} KeyReasonsZero(entries: seq<BanEntry>)
    ensures KeyReasons(entries) == 0 <==> forall e :: e in entries ==> e.reason != "accountId"
  {
    if entries != [] {
      KeyReasonsZero(entries[1..]);
      assert forall e :: e in entries <==> e == entries[0] || e in entries[1..];
    }
  }

  lemma ScanOfRender(entries: seq<BanEntry>)
    ensures Scan(Render(entries)) == Scan(Body(entries))
  {
    KeySkipsPlain("[\r\n", Body(entries), "accountId");
    ScanSkips("[\r\n", Body(entries));
  }

  lemma {:induction false} EscapedAt(entries: seq<BanEntry>)
    ensures |EscapedAll(entries)| == |entries|
    ensures forall i | 0 <= i < |entries| :: EscapedAll(entries)[i] == Escaped(entries[i])
  {
    if entries != [] {
      EscapedAt(entries[1..]);
    }
  }

  /** The entries that a file scanned back to equal length can hold. */
  lemma OnlyCleanEntries(entries: seq<BanEntry>)
    requires Scan(Render(entries)) == EscapedAll(entries)
    ensures forall e :: e in entries ==> CleanEntry(e)
  {
    ScanIsBounded(Render(entries));
    EscapedAt(entries);
    forall e | e in entries
      ensures CleanEntry(e)
    {
      var i :| 0 <= i < |entries| && entries[i] == e;
      assert EscapedAll(entries)[i] in Scan(Render(entries));
      EscapeKeeps(e.accountId);
      EscapeKeeps(e.reason);
    }
  }

  /** Main result: a written list is read back, order and timestamps kept and texts in their escaped form,
      exactly when ids are non-empty, no id or reason holds a quote, and no reason is the word accountId. */
  lemma ReloadRestoresEscaped(entries: seq<BanEntry>)
    ensures Scan(Render(entries)) == EscapedAll(entries) <==> forall e :: e in entries ==> Restorable(e)
  {
    ScanOfRender(entries);
    if forall e :: e in entries ==> Restorable(e) {
      ScanBody(entries);
    }
    if Scan(Render(entries)) == EscapedAll(entries) {
      OnlyCleanEntries(entries);
      ScanBodyCount(entries);
      EscapedAt(entries);
      KeyReasonsZero(entries);
    }
  }

  /** An entry whose texts are non-special as well. */
  predicate PlainEntry(e: BanEntry) {
    e.accountId != "" && PlainText(e.accountId) && PlainText(e.reason) && e.reason != "accountId"
  }

  lemma PlainIsRestorable(entries: seq<BanEntry>)
    ensures (forall e :: e in entries ==> PlainEntry(e)) <==>
            (forall e :: e in entries ==> Restorable(e)) && EscapedAll(entries) == entries
  {
    EscapedAt(entries);
    forall i | 0 <= i < |entries|
      ensures Escaped(entries[i]) == entries[i] && Restorable(entries[i]) <==> PlainEntry(entries[i])
    {
      EscapeKeeps(entries[i].accountId);
      EscapeKeeps(entries[i].reason);
    }
    if (forall e :: e in entries ==> Restorable(e)) && EscapedAll(entries) == entries {
      forall e | e in entries
        ensures PlainEntry(e)
      {
        var i :| 0 <= i < |entries| && entries[i] == e;
        assert EscapedAll(entries)[i] == Escaped(e);
      }
    }
  }

  /** Main result: a written list is read back unchanged exactly when, in addition, no text holds
      a backslash or a control character. */
  lemma ReloadIsExact(entries: seq<BanEntry>)
    ensures Scan(Render(entries)) == entries <==> forall e :: e in entries ==> PlainEntry(e)
  {
    PlainIsRestorable(entries);
    ReloadRestoresEscaped(entries);
    if Scan(Render(entries)) == entries {
      ScanIsBounded(Render(entries));
      ScanOfRender(entries);
      ScanBodyCount(entries);
      KeyReasonsZero(entries);
    }
  }
}
