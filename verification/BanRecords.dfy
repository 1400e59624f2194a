/** Ban files written by other hands: what the scanner makes of records whose keys come in any order, are missing or
    come twice, with any text without quotes between them. */
module BanRecords {
  import opened Basics
  import opened Text
  import opened BanFormat

  // ---------- records ----------

  /** What may stand behind the id of a record: a reason, or a time with the character that ends it. In front of each
      key is a gap, between key and value a separator. */
  datatype Part =
    | Reason(gap: string, sep: string, text: string)
    | Stamp(gap: string, sep: string, blanks: string, time: int, delim: char)

  datatype Record = Record(sep: string, id: string, parts: seq<Part>, end: string)

  /** What follows the timestamp key. */
  function StampText(p: Part): string
    requires p.Stamp?
  {
    p.sep + (":" + (p.blanks + (ToDecimal(p.time) + [p.delim])))
  }

  function PartText(p: Part, s: string): string {
    match p
    case Reason(gap, sep, text) => gap + (Quoted("reason") + (sep + (Quoted(text) + s)))
    case Stamp(gap, _, _, _, _) => gap + (Quoted("timestamp") + (StampText(p) + s))
  }

  function PartsText(parts: seq<Part>, s: string): string {
    if parts == [] then s else PartText(parts[0], PartsText(parts[1..], s))
  }

  function RecordText(r: Record, rest: string): string {
    Quoted("accountId") + (r.sep + (Quoted(r.id) + PartsText(r.parts, r.end + rest)))
  }

  function FileText(rs: seq<Record>): string {
    if rs == [] then "" else RecordText(rs[0], FileText(rs[1..]))
  }

  const KEYWORDS := ["accountId", "reason", "timestamp"]

  /** Text that makes no key of the quotes around it. */
  predicate Gap(g: string) { QuoteFree(g) && g !in KEYWORDS }

  predicate GoodPart(p: Part) {
    match p
    case Reason(gap, sep, text) =>
      Gap(gap) && Gap(sep) && QuoteFree(text) && text != "accountId" && text != "timestamp"
    case Stamp(gap, sep, blanks, _, delim) =>
      Gap(gap) && QuoteFree(sep) && ':' !in sep && AllBlank(blanks) && delim in ",}\n"
  }

  predicate GoodRecord(r: Record) {
    QuoteFree(r.sep) && QuoteFree(r.id) && Gap(r.end) && forall p :: p in r.parts ==> GoodPart(p)
  }

  /** What the parts say: the first reason and the first time, and the defaults without one. A time that does not fit
      into 64 bits is none. */
  function ReasonOf(parts: seq<Part>): string {
    if parts == [] then ""
    else if parts[0].Reason? then parts[0].text
    else ReasonOf(parts[1..])
  }

  function StampOf(parts: seq<Part>): Time {
    if parts == [] then 0
    else if parts[0].Stamp? then
      var t := parts[0].time;
      if -INT64_LIMIT <= t < INT64_LIMIT then t else 0
    else StampOf(parts[1..])
  }

  function Meant(r: Record): seq<BanEntry> {
    if r.id == "" then [] else [BanEntry(r.id, ReasonOf(r.parts), StampOf(r.parts))]
  }

  function MeantAll(rs: seq<Record>): seq<BanEntry> {
    if rs == [] then [] else Meant(rs[0]) + MeantAll(rs[1..])
  }

  // ---------- behind a closing quote ----------

  /** The closing quote in front of this text opens no key. */
  predicate Behind(s: string, key: string) { !OccursAt("\"" + s, Quoted(key), 0) }

  lemma KeyBegins(s: string, key: string)
    requires OccursAt("\"" + s, Quoted(key), 0)
    ensures |s| > |key| && s[..|key|] == key && s[|key|] == '"'
  {
    var t := "\"" + s;
    OccursAgrees(t, Quoted(key), 0, |key| + 1);
    forall i | 0 <= i < |key|
      ensures s[i] == key[i]
    {
      OccursAgrees(t, Quoted(key), 0, i + 1);
    }
  }

  lemma GapIsKey(g: string, s: string, key: string)
    requires QuoteFree(g) && QuoteFree(key) && (s == "" || s[0] == '"')
    requires OccursAt("\"" + (g + s), Quoted(key), 0)
    ensures g == key
  {
    var t := g + s;
    KeyBegins(t, key);
    assert forall i | 0 <= i < |g| :: t[i] == g[i] && g[i] in g;
    assert forall i | 0 <= i < |key| :: t[..|key|][i] == key[i] && key[i] in key;
    assert |t| > |g| ==> t[|g|] == '"';
    assert t[..|g|] == g;
  }

  lemma GapBehind(g: string, s: string, key: string)
    requires QuoteFree(g) && g != key && QuoteFree(key) && (s == "" || s[0] == '"')
    ensures Behind(g + s, key)
  {
    if !Behind(g + s, key) {
      GapIsKey(g, s, key);
    }
  }

  lemma ColonIsInKey(h: string, s: string, key: string)
    requires QuoteFree(h) && ':' in h
    requires OccursAt("\"" + (h + s), Quoted(key), 0)
    ensures ':' in key
  {
    var t := h + s;
    KeyBegins(t, key);
    assert forall i | 0 <= i < |h| :: t[i] == h[i] && h[i] in h;
    var i :| 0 <= i < |h| && h[i] == ':';
    assert t[..|key|][i] == key[i];
  }

  lemma ColonBehind(h: string, s: string, key: string)
    requires QuoteFree(h) && ':' in h && ':' !in key
    ensures Behind(h + s, key)
  {
    if !Behind(h + s, key) {
      ColonIsInKey(h, s, key);
    }
  }

  lemma QuotedThen(v: string, s: string, key: string)
    requires QuoteFree(v) && QuoteFree(key) && key != "" && Behind(s, key)
    ensures Find(Quoted(v) + s, Quoted(key)) ==
            if v == key then Some(0) else Shift(|v| + 2, Find(s, Quoted(key)))
  {
    var t := Quoted(v) + s;
    QuotedPrefix(v, s, key);
    if v == key {
      FindIsAt(t, Quoted(key), 0, 0);
    } else {
      FindStep(t, Quoted(key));
      assert t[1..] == v + ("\"" + s);
      KeySkipsPlain(v, "\"" + s, key);
      FindStep("\"" + s, Quoted(key));
      assert ("\"" + s)[1..] == s;
    }
  }

  // ---------- where the keys are found ----------

  predicate Ends(rest: string) { rest == "" || Quoted("accountId") <= rest }

  lemma KeywordsAreFree(key: string)
    requires key in KEYWORDS
    ensures QuoteFree(key) && key != "" && ':' !in key
  {
  }

  lemma PartsBehind(parts: seq<Part>, end: string, rest: string, key: string)
    requires (forall p :: p in parts ==> GoodPart(p)) && Gap(end) && Ends(rest) && key in KEYWORDS
    ensures Behind(PartsText(parts, end + rest), key)
  {
    KeywordsAreFree(key);
    if parts == [] {
      GapBehind(end, rest, key);
    } else {
      var p, s := parts[0], PartsText(parts[1..], end + rest);
      assert p in parts;
      match p
      case Reason(gap, sep, text) => GapBehind(gap, Quoted("reason") + (sep + (Quoted(text) + s)), key);
      case Stamp(gap, _, _, _, _) => GapBehind(gap, Quoted("timestamp") + (StampText(p) + s), key);
    }
  }

  lemma StampTextIsFree(p: Part)
    requires p.Stamp? && GoodPart(p)
    ensures QuoteFree(StampText(p)) && ':' in StampText(p)
  {
    DecimalChars(p.time);
    assert StampText(p)[|p.sep|] == ':';
  }

  lemma KeyInTwo(gap: string, word: string, sep: string, text: string, s: string, key: string)
    requires QuoteFree(gap) && QuoteFree(word) && QuoteFree(sep) && QuoteFree(text) && QuoteFree(key) && key != ""
    requires sep != key && (word != key ==> text != key) && Behind(s, key)
    ensures Find(gap + (Quoted(word) + (sep + (Quoted(text) + s))), Quoted(key)) ==
            if word == key then Some(|gap|) else Shift(|gap| + |word| + |sep| + |text| + 4, Find(s, Quoted(key)))
  {
    var value := Quoted(text) + s;
    KeySkipsPlain(gap, Quoted(word) + (sep + value), key);
    GapBehind(sep, value, key);
    QuotedThen(word, sep + value, key);
    if word != key {
      KeySkipsPlain(sep, value, key);
      QuotedThen(text, s, key);
    }
  }

  lemma KeyInReason(p: Part, s: string, key: string)
    requires p.Reason? && GoodPart(p) && key in KEYWORDS && Behind(s, key)
    ensures Find(PartText(p, s), Quoted(key)) ==
            if key == "reason" then Some(|p.gap|) else Shift(|PartText(p, "")|, Find(s, Quoted(key)))
  {
    KeywordsAreFree(key);
    KeywordsAreFree("reason");
    KeyInTwo(p.gap, "reason", p.sep, p.text, s, key);
  }

  lemma KeyInOne(gap: string, word: string, h: string, s: string, key: string)
    requires QuoteFree(gap) && QuoteFree(word) && QuoteFree(h) && QuoteFree(key) && key != ""
    requires ':' in h && ':' !in key
    ensures Find(gap + (Quoted(word) + (h + s)), Quoted(key)) ==
            if word == key then Some(|gap|) else Shift(|gap| + |word| + |h| + 2, Find(s, Quoted(key)))
  {
    KeySkipsPlain(gap, Quoted(word) + (h + s), key);
    ColonBehind(h, s, key);
    QuotedThen(word, h + s, key);
    KeySkipsPlain(h, s, key);
  }

  lemma StampLength(p: Part)
    requires p.Stamp?
    ensures |PartText(p, "")| == |p.gap| + |"timestamp"| + |StampText(p)| + 2
  {
  }

  lemma KeyInStamp(p: Part, s: string, key: string)
    requires p.Stamp? && GoodPart(p) && key in KEYWORDS
    ensures Find(PartText(p, s), Quoted(key)) ==
            if key == "timestamp" then Some(|p.gap|) else Shift(|PartText(p, "")|, Find(s, Quoted(key)))
  {
    KeywordsAreFree(key);
    KeywordsAreFree("timestamp");
    StampTextIsFree(p);
    StampLength(p);
    KeyInOne(p.gap, "timestamp", StampText(p), s, key);
  }

  lemma PartSplits(p: Part, s: string)
    ensures PartText(p, s) == PartText(p, "") + s
  {
    match p
    case Reason(gap, sep, text) => ReasonSplits(gap, Quoted("reason"), sep, Quoted(text), s);
    case Stamp(gap, _, _, _, _) => ReasonSplits(gap, Quoted("timestamp"), StampText(p), "", s);
  }

  lemma ReasonSplits(a: string, b: string, c: string, d: string, s: string)
    ensures a + (b + (c + (d + s))) == a + (b + (c + (d + ""))) + s
    ensures d == "" ==> d + s == s
  {
    assert d + "" == d;
  }

  /** A text in front of which neither the key nor the account key begins can be left out. */
  lemma ReasonSkips(a: string, s: string)
    requires Find(a + s, KEYS.reason) == Shift(|a|, Find(s, KEYS.reason))
    requires Find(a + s, KEYS.account) == Shift(|a|, Find(s, KEYS.account))
    ensures ReasonIn(KEYS, a + s) == ReasonIn(KEYS, s)
  {
    QuotedBehindSkips(a, s, KEYS.reason);
  }

  lemma TimeSkips(a: string, s: string)
    requires Find(a + s, KEYS.timestamp) == Shift(|a|, Find(s, KEYS.timestamp))
    requires Find(a + s, KEYS.account) == Shift(|a|, Find(s, KEYS.account))
    ensures TimeIn(KEYS, a + s) == TimeIn(KEYS, s)
  {
    var key := Find(s, KEYS.timestamp);
    if key.Some? {
      assert (a + s)[|a| + key.value..] == s[key.value..];
    }
  }

  // ---------- the end of a record ----------

  lemma EndKeys(end: string, rest: string)
    requires Gap(end) && Ends(rest)
    ensures Find(end + rest, KEYS.account) == if rest == "" then None else Some(|end|)
    ensures !Before(Find(end + rest, KEYS.reason), Find(end + rest, KEYS.account))
    ensures !Before(Find(end + rest, KEYS.timestamp), Find(end + rest, KEYS.account))
  {
    KeySkipsPlain(end, rest, "accountId");
    KeySkipsPlain(end, rest, "reason");
    KeySkipsPlain(end, rest, "timestamp");
    if rest != "" {
      assert OccursAt(rest, KEYS.account, 0);
      FindIsAt(rest, KEYS.account, 0, 0);
    }
  }

  lemma PartInFront(p: Part, s: string) returns (x: string)
    requires GoodPart(p) && Behind(s, "accountId")
    ensures PartText(p, s) == x + s && Find(x + s, KEYS.account) == Shift(|x|, Find(s, KEYS.account))
  {
    x := PartText(p, "");
    PartSplits(p, s);
    if p.Reason? {
      KeyInReason(p, s, "accountId");
    } else {
      KeyInStamp(p, s, "accountId");
    }
  }

  lemma InFrontOfFront(x: string, a: string, rest: string, pat: string)
    requires Find(x + (a + rest), pat) == Shift(|x|, Find(a + rest, pat))
    requires Find(a + rest, pat) == Shift(|a|, Find(rest, pat))
    ensures Find((x + a) + rest, pat) == Shift(|x + a|, Find(rest, pat))
    ensures x + (a + rest) == (x + a) + rest
  {
    Regrouped(x, a, rest);
  }

  /** In the parts of a record there is no account key. */
  lemma {:induction false} PartsInFront(parts: seq<Part>, end: string, rest: string) returns (a: string)
    requires (forall p :: p in parts ==> GoodPart(p)) && Gap(end) && Ends(rest)
    ensures PartsText(parts, end + rest) == a + rest
    ensures Find(a + rest, KEYS.account) == Shift(|a|, Find(rest, KEYS.account))
    decreases parts
  {
    if parts == [] {
      a := end;
      KeySkipsPlain(end, rest, "accountId");
    } else {
      assert parts[0] in parts && forall q :: q in parts[1..] ==> q in parts;
      a := PartsInFront(parts[1..], end, rest);
      PartsBehind(parts[1..], end, rest, "accountId");
      var x := PartInFront(parts[0], a + rest);
      InFrontOfFront(x, a, rest, KEYS.account);
      a := x + a;
    }
  }

  lemma Regrouped(a: string, b: string, c: string)
    ensures a + (b + c) == (a + b) + c
  {
  }

  // ---------- what is read ----------

  lemma ReasonIsRead(p: Part, s: string)
    requires p.Reason? && GoodPart(p) && Behind(s, "accountId") && Behind(s, "reason")
    ensures ReasonIn(KEYS, PartText(p, s)) == p.text
  {
    var t := PartText(p, s);
    KeyInReason(p, s, "reason");
    KeyInReason(p, s, "accountId");
    DropKey(p.gap, Quoted("reason"), p.sep + (Quoted(p.text) + s));
    QuotedBehindOf(t, KEYS.reason, |p.gap|, p.sep, p.text, s);
  }

  lemma {:induction false} ReasonOfParts(parts: seq<Part>, end: string, rest: string)
    requires (forall p :: p in parts ==> GoodPart(p)) && Gap(end) && Ends(rest)
    ensures ReasonIn(KEYS, PartsText(parts, end + rest)) == ReasonOf(parts)
    decreases parts
  {
    if parts == [] {
      EndKeys(end, rest);
    } else {
      var p, s := parts[0], PartsText(parts[1..], end + rest);
      assert p in parts && forall q :: q in parts[1..] ==> q in parts;
      PartsBehind(parts[1..], end, rest, "accountId");
      PartsBehind(parts[1..], end, rest, "reason");
      if p.Reason? {
        ReasonIsRead(p, s);
      } else {
        KeyInStamp(p, s, "reason");
        KeyInStamp(p, s, "accountId");
        PartSplits(p, s);
        ReasonSkips(PartText(p, ""), s);
        ReasonOfParts(parts[1..], end, rest);
      }
    }
  }

  lemma NumberBehindBlanks(blanks: string, n: string, t: int)
    requires AllBlank(blanks) && n != "" && !IsSpace(n[0]) && ParseSigned(n) == Some(t)
    ensures ParseNumber(blanks + n) == Some(t)
  {
    SkipSpaceOf(blanks, n);
  }

  lemma NoDelimiter(blanks: string, n: string)
    requires AllBlank(blanks) && forall c :: c in n ==> IsDigit(c) || c == '-'
    ensures forall c :: c in ",}\n" ==> c !in blanks + n
  {
  }

  lemma NumberBetween(blanks: string, t: int)
    requires AllBlank(blanks)
    ensures TimeOf(blanks + ToDecimal(t)) == if -INT64_LIMIT <= t < INT64_LIMIT then t else 0
    ensures forall c :: c in ",}\n" ==> c !in blanks + ToDecimal(t)
  {
    ParseOfSigned(t, "");
    assert ToDecimal(t) + "" == ToDecimal(t);
    DecimalChars(t);
    NumberBehindBlanks(blanks, ToDecimal(t), t);
    NoDelimiter(blanks, ToDecimal(t));
  }

  /** A time without digits is none. */
  lemma UnreadableTime(ws: string, t: string)
    requires AllSpace(ws) && (t == "" || !IsSpace(t[0])) && !StartsNumber(t)
    ensures TimeOf(ws + t) == 0
  {
    NumberExactlyWhen(ws, t);
  }

  /** With fewer than two quotes left there is no quoted value. */
  lemma NoQuotedValue(a: string, b: string)
    requires QuoteFree(a) && QuoteFree(b)
    ensures NextQuoted(a) == None && NextQuoted(a + "\"" + b) == None
  {
    NoQuote(a);
    NoQuote(b);
    FindSingle(a, '"', b);
    assert (a + "\"" + b)[|a| + 1..] == b;
  }

  /** A reason that is not closed before the text ends is none. */
  lemma UnclosedReason(s: string, k: nat, a: string, b: string)
    requires Find(s, KEYS.reason) == Some(k) && QuoteFree(a) && QuoteFree(b)
    requires s[k + |KEYS.reason|..] == a || s[k + |KEYS.reason|..] == a + "\"" + b
    ensures ReasonIn(KEYS, s) == ""
  {
    NoQuotedValue(a, b);
    QuotedBehindAt(s, KEYS.reason, k);
  }

  lemma NoQuote(a: string)
    requires QuoteFree(a)
    ensures Find(a, "\"") == None
  {
    FindIsLeftmost(a, "\"");
    if Find(a, "\"").Some? {
      OccursAgrees(a, "\"", Find(a, "\"").value, 0);
    }
  }

  lemma ColonThenNumber(before: string, number: string, delim: char, s: string)
    requires ':' !in before && delim in ",}\n" && forall c :: c in ",}\n" ==> c !in number
    ensures TimeAfterColon(before + (":" + (number + ([delim] + s)))) == TimeOf(number)
  {
    var t, more := before + (":" + (number + ([delim] + s))), number + ([delim] + s);
    assert t == before + [':'] + more;
    FindSingle(before, ':', more);
    assert t[|before| + 1..] == more;
    FindAnySkips(number, [delim] + s, ",}\n");
    assert FindAny([delim] + s, ",}\n") == Some(0);
    assert more[..|number|] == number;
    TimeAfterColonAt(t, |before|, |number|);
  }

  lemma StampRegrouped(k: string, sep: string, blanks: string, n: string, d: string, s: string)
    ensures k + ((sep + (":" + (blanks + (n + d)))) + s) == (k + sep) + (":" + ((blanks + n) + (d + s)))
  {
  }

  lemma StampIsRead(p: Part, s: string)
    requires p.Stamp? && GoodPart(p)
    ensures TimeIn(KEYS, PartText(p, s)) == if -INT64_LIMIT <= p.time < INT64_LIMIT then p.time else 0
  {
    var t := PartText(p, s);
    KeyInStamp(p, s, "timestamp");
    KeyInStamp(p, s, "accountId");
    TimeInAt(KEYS, t, |p.gap|);
    assert t[|p.gap|..] == Quoted("timestamp") + (StampText(p) + s);
    StampRegrouped(Quoted("timestamp"), p.sep, p.blanks, ToDecimal(p.time), [p.delim], s);
    NumberBetween(p.blanks, p.time);
    ColonThenNumber(Quoted("timestamp") + p.sep, p.blanks + ToDecimal(p.time), p.delim, s);
  }

  lemma {:induction false} StampOfParts(parts: seq<Part>, end: string, rest: string)
    requires (forall p :: p in parts ==> GoodPart(p)) && Gap(end) && Ends(rest)
    ensures TimeIn(KEYS, PartsText(parts, end + rest)) == StampOf(parts)
    decreases parts
  {
    if parts == [] {
      EndKeys(end, rest);
    } else {
      var p, s := parts[0], PartsText(parts[1..], end + rest);
      assert p in parts && forall q :: q in parts[1..] ==> q in parts;
      if p.Stamp? {
        StampIsRead(p, s);
      } else {
        PartsBehind(parts[1..], end, rest, "accountId");
        PartsBehind(parts[1..], end, rest, "timestamp");
        KeyInReason(p, s, "timestamp");
        KeyInReason(p, s, "accountId");
        PartSplits(p, s);
        TimeSkips(PartText(p, ""), s);
        StampOfParts(parts[1..], end, rest);
      }
    }
  }

  // ---------- records and files ----------

  lemma ClosingQuote(s: string)
    requires forall key :: key in KEYWORDS ==> Behind(s, key)
    ensures ReasonIn(KEYS, "\"" + s) == ReasonIn(KEYS, s)
    ensures TimeIn(KEYS, "\"" + s) == TimeIn(KEYS, s)
  {
    assert Behind(s, KEYWORDS[0]) && Behind(s, KEYWORDS[1]) && Behind(s, KEYWORDS[2]);
    assert ("\"" + s)[1..] == s;
    FindStep("\"" + s, KEYS.account);
    FindStep("\"" + s, KEYS.reason);
    FindStep("\"" + s, KEYS.timestamp);
    ReasonSkips("\"", s);
    TimeSkips("\"", s);
  }

  lemma LoadedRecord(r: Record, rest: string)
    requires GoodRecord(r) && Ends(rest)
    ensures Loaded(KEYS, Cut(r.id, "\"" + PartsText(r.parts, r.end + rest))) == Meant(r)
  {
    forall key | key in KEYWORDS
      ensures Behind(PartsText(r.parts, r.end + rest), key)
    {
      PartsBehind(r.parts, r.end, rest, key);
    }
    ClosingQuote(PartsText(r.parts, r.end + rest));
    ReasonOfParts(r.parts, r.end, rest);
    StampOfParts(r.parts, r.end, rest);
  }

  lemma IdOfRecord(r: Record, rest: string)
    requires GoodRecord(r)
    ensures QuotedBehind(RecordText(r, rest), KEYS.account)
         == Some(Cut(r.id, "\"" + PartsText(r.parts, r.end + rest)))
  {
    var t, more := RecordText(r, rest), PartsText(r.parts, r.end + rest);
    assert OccursAt(t, KEYS.account, 0);
    FindIsAt(t, KEYS.account, 0, 0);
    DropKey("", KEYS.account, r.sep + (Quoted(r.id) + more));
    assert "" + t == t;
    QuotedBehindOf(t, KEYS.account, 0, r.sep, r.id, more);
  }

  /** Main result: in front of the next record, or of the end, a record is read as what it says; what it does not say
      is not taken from the records behind it. */
  lemma RecordIsRead(r: Record, rest: string)
    requires GoodRecord(r) && Ends(rest)
    ensures Scan(RecordText(r, rest)) == Meant(r) + Scan(rest)
  {
    var more := PartsText(r.parts, r.end + rest);
    var cut := Cut(r.id, "\"" + more);
    IdOfRecord(r, rest);
    LoadedRecord(r, rest);
    var a := PartsInFront(r.parts, r.end, rest);
    ScanSkips(a, rest);
    assert cut.tail[1..] == more;
    ScanStepWith(RecordText(r, rest), cut, Meant(r), rest);
  }

  /** Main result: a file of such records, behind any text without quotes, is read record by record. */
  lemma {:induction false} RecordsAreRead(rs: seq<Record>)
    requires forall r :: r in rs ==> GoodRecord(r)
    ensures Scan(FileText(rs)) == MeantAll(rs) && Ends(FileText(rs))
    decreases rs
  {
    if rs == [] {
      KeySkipsPlain("", "", "accountId");
      EndKeys("", "");
      assert "" + "" == "";
      ScanNone(BAN_SCANNER, "");
    } else {
      assert rs[0] in rs && forall r :: r in rs[1..] ==> r in rs;
      RecordsAreRead(rs[1..]);
      RecordIsRead(rs[0], FileText(rs[1..]));
    }
  }

  lemma FileIsRead(front: string, rs: seq<Record>)
    requires QuoteFree(front) && forall r :: r in rs ==> GoodRecord(r)
    ensures Scan(front + FileText(rs)) == MeantAll(rs)
  {
    RecordsAreRead(rs);
    KeySkipsPlain(front, FileText(rs), "accountId");
    ScanSkips(front, FileText(rs));
  }
}
