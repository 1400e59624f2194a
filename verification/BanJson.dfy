/** The printed ban file is faithful JSON: the reader gets exactly the list back that was printed. */
module BanJson {
  import opened Basics
  import opened Text
  import opened BanFormat
  import opened JsonReader

  function EntryJson(e: BanEntry): Json {
    Obj([("accountId", Str(e.accountId)), ("reason", Str(e.reason)), ("timestamp", Num(e.timestamp))])
  }

  function EntriesJson(entries: seq<BanEntry>): seq<Json> {
    if entries == [] then [] else [EntryJson(entries[0])] + EntriesJson(entries[1..])
  }

  /** The entry a JSON object stands for. */
  function EntryOf(j: Json): Option<BanEntry> {
    match j
    case Obj(m) =>
      if |m| == 3 && m[0].0 == "accountId" && m[1].0 == "reason" && m[2].0 == "timestamp" then
        match (m[0].1, m[1].1, m[2].1)
        case (Str(id), Str(reason), Num(n)) =>
          if -INT64_LIMIT <= n < INT64_LIMIT then Some(BanEntry(id, reason, n)) else None
        case _ => None
      else None
    case _ => None
  }

  /** The entries the items of an array stand for. */
  function EntriesOf(items: seq<Json>): Option<seq<BanEntry>> {
    if items == [] then Some([])
    else
      match (EntryOf(items[0]), EntriesOf(items[1..]))
      case (Some(e), Some(more)) => Some([e] + more)
      case _ => None
  }

  /** What a JSON reader makes of a ban file. */
  function ReadBanFile(text: string): Option<seq<BanEntry>> {
    match ReadText(text)
    case Some(Arr(items)) => EntriesOf(items)
    case _ => None
  }

  // ---------- tokens of printed text ----------

  lemma LexStep(s: string, token: Token, rest: string)
    requires s != "" && !Ws(s[0]) && NextToken(s) == Good(token, rest)
    ensures Lex(s) == PutTokens([token], Lex(rest))
  {
    SkipNothing(s);
  }

  lemma SkipWsTwice(ws: string, s: string)
    requires forall i | 0 <= i < |ws| :: Ws(ws[i])
    ensures SkipWs(ws + s) == SkipWs(s)
  {
    var n := WsEnd(s, 0);
    WsStops(s, 0);
    SkipWsOf(ws + s[..n], s[n..]);
    assert ws + s == ws + s[..n] + s[n..];
  }

  lemma {:induction false} WsStops(s: string, from: nat)
    requires from <= |s|
    ensures var end := WsEnd(s, from);
            (forall i | from <= i < end :: Ws(s[i])) && (end == |s| || !Ws(s[end]))
    decreases |s| - from
  {
    if from < |s| && Ws(s[from]) {
      WsStops(s, from + 1);
    }
  }

  lemma LexSkips(ws: string, s: string)
    requires forall i | 0 <= i < |ws| :: Ws(ws[i])
    ensures Lex(ws + s) == Lex(s)
  {
    SkipWsTwice(ws, s);
  }

  lemma LexMark(c: char, s: string)
    requires Structural(c)
    ensures Lex([c] + s) == PutTokens([Mark(c)], Lex(s))
  {
    assert ([c] + s)[1..] == s;
    LexStep([c] + s, Mark(c), s);
  }

  lemma LexText(text: string, s: string)
    ensures Lex(Quoted(EscapeJson(text)) + s) == PutTokens([Text(text)], Lex(s))
  {
    var t := Quoted(EscapeJson(text)) + s;
    assert t[1..] == EscapeJson(text) + ("\"" + s);
    ReadOfEscaped(text, s);
    LexStep(t, Text(text), s);
  }

  lemma LexName(name: string, s: string)
    requires PlainText(name)
    ensures Lex(Quoted(name) + s) == PutTokens([Text(name)], Lex(s))
  {
    EscapeOfPlain(name);
    LexText(name, s);
  }

  lemma ReadNatOf(n: nat, rest: string)
    requires rest == "" || !NumberChar(rest[0])
    ensures ReadNat(Digits(n) + rest) == Good(n, rest)
  {
    var d := Digits(n);
    DigitsRoundTrip(n);
    LeadingDigitsOf(d, rest);
    assert (d + rest)[|d|..] == rest;
    if |d| > 1 {
      assert n >= 10;
    }
  }

  lemma ReadNegative(n: int, rest: string)
    requires n < 0
    requires rest == "" || !NumberChar(rest[0])
    ensures ReadNumber("-" + (Digits(-n) + rest)) == Good(n, rest)
  {
    ReadNatOf(-n, rest);
    assert ("-" + (Digits(-n) + rest))[1..] == Digits(-n) + rest;
  }

  lemma ReadUnsigned(s: string, n: int, rest: string)
    requires s != "" && IsDigit(s[0]) && ReadNat(s) == Good(n, rest)
    ensures ReadNumber(s) == Good(n, rest)
  {
  }

  lemma ReadNumberOf(n: int, rest: string)
    requires rest == "" || !NumberChar(rest[0])
    ensures ReadNumber(ToDecimal(n) + rest) == Good(n, rest)
    ensures (ToDecimal(n) + rest)[0] == '-' || IsDigit((ToDecimal(n) + rest)[0])
  {
    if n < 0 {
      ReadNegative(n, rest);
      assert ToDecimal(n) + rest == "-" + (Digits(-n) + rest);
    } else {
      DigitsFirst(n, rest);
      ReadNatOf(n, rest);
      ReadUnsigned(Digits(n) + rest, n, rest);
    }
  }

  lemma LexNumber(n: int, s: string)
    requires s == "" || !NumberChar(s[0])
    ensures Lex(ToDecimal(n) + s) == PutTokens([Number(n)], Lex(s))
  {
    ReadNumberOf(n, s);
    LexStep(ToDecimal(n) + s, Number(n), s);
  }

  /** A mark and a blank. */
  lemma LexMarkBlank(c: char, s: string)
    requires Structural(c)
    ensures Lex([c, ' '] + s) == PutTokens([Mark(c)], Lex(s))
  {
    assert [c, ' '] + s == [c] + (" " + s);
    LexMark(c, " " + s);
    LexSkips(" ", s);
  }

  /** Four texts lexed one after the other. */
  lemma PutFour(a: Token, b: Token, c: Token, d: Token, r0: Option<seq<Token>>, r1: Option<seq<Token>>,
                r2: Option<seq<Token>>, r3: Option<seq<Token>>, r4: Option<seq<Token>>)
    requires r0 == PutTokens([a], r1) && r1 == PutTokens([b], r2)
    requires r2 == PutTokens([c], r3) && r3 == PutTokens([d], r4)
    ensures r0 == PutTokens([a, b, c, d], r4)
  {
    if r4.Some? {
      assert [a] + ([b] + ([c] + ([d] + r4.value))) == [a, b, c, d] + r4.value;
    }
  }

  lemma PutTwice(a: seq<Token>, b: seq<Token>, r: Option<seq<Token>>)
    ensures PutTokens(a, PutTokens(b, r)) == PutTokens(a + b, r)
  {
    if r.Some? {
      assert a + (b + r.value) == a + b + r.value;
    }
  }

  /** A printed text member and the comma behind it. */
  lemma LexTextMember(name: string, text: string, s: string)
    requires PlainText(name)
    ensures Lex(Quoted(name) + (": " + (Quoted(EscapeJson(text)) + (", " + s)))) ==
            PutTokens([Text(name), Mark(':'), Text(text), Mark(',')], Lex(s))
  {
    var s3 := ", " + s;
    var s2 := Quoted(EscapeJson(text)) + s3;
    var s1 := ": " + s2;
    LexName(name, s1);
    LexMarkBlank(':', s2);
    LexText(text, s3);
    LexMarkBlank(',', s);
    PutFour(Text(name), Mark(':'), Text(text), Mark(','), Lex(Quoted(name) + s1), Lex(s1), Lex(s2), Lex(s3), Lex(s));
  }

  /** A printed number member and the brace behind it. */
  lemma LexNumberMember(name: string, n: int, s: string)
    requires PlainText(name)
    ensures Lex(Quoted(name) + (": " + (ToDecimal(n) + ("}" + s)))) ==
            PutTokens([Text(name), Mark(':'), Number(n), Mark('}')], Lex(s))
  {
    var s3 := "}" + s;
    var s2 := ToDecimal(n) + s3;
    var s1 := ": " + s2;
    LexName(name, s1);
    LexMarkBlank(':', s2);
    LexNumber(n, s3);
    LexMark('}', s);
    PutFour(Text(name), Mark(':'), Number(n), Mark('}'), Lex(Quoted(name) + s1), Lex(s1), Lex(s2), Lex(s3), Lex(s));
  }

  function MemberTokens(e: BanEntry): (ts: seq<Token>)
    ensures |ts| == 12
  {
    [Text("accountId"), Mark(':'), Text(e.accountId), Mark(',')]
    + ([Text("reason"), Mark(':'), Text(e.reason), Mark(',')]
    + [Text("timestamp"), Mark(':'), Number(e.timestamp), Mark('}')])
  }

  function EntryTokens(e: BanEntry): (ts: seq<Token>)
    ensures |ts| == 13
  {
    [Mark('{')] + MemberTokens(e)
  }

  /** A printed entry behind its opening brace. */
  function MembersText(e: BanEntry, rest: string): string {
    Quoted("accountId") + (": " + (Quoted(EscapeJson(e.accountId)) + (", "
    + (Quoted("reason") + (": " + (Quoted(EscapeJson(e.reason)) + (", "
    + (Quoted("timestamp") + (": " + (ToDecimal(e.timestamp) + ("}" + rest)))))))))))
  }

  lemma EntryTextSplit(e: BanEntry, rest: string)
    ensures EntryText(e, rest) == "  " + ("{" + MembersText(e, rest))
  {
    assert "\"" + (EscapeJson(e.accountId) + AfterId(EscapeJson(e.reason), ToDecimal(e.timestamp), rest))
        == Quoted(EscapeJson(e.accountId)) + AfterId(EscapeJson(e.reason), ToDecimal(e.timestamp), rest)[1..];
  }

  lemma LexMembers(e: BanEntry, rest: string)
    ensures Lex(MembersText(e, rest)) == PutTokens(MemberTokens(e), Lex(rest))
  {
    var r := Lex(rest);
    var s3 := Quoted("timestamp") + (": " + (ToDecimal(e.timestamp) + ("}" + rest)));
    var s2 := Quoted("reason") + (": " + (Quoted(EscapeJson(e.reason)) + (", " + s3)));
    var t3 := [Text("timestamp"), Mark(':'), Number(e.timestamp), Mark('}')];
    var t2 := [Text("reason"), Mark(':'), Text(e.reason), Mark(',')];
    assert Lex(s3) == PutTokens(t3, r) by {
      LexNumberMember("timestamp", e.timestamp, rest);
    }
    assert Lex(s2) == PutTokens(t2 + t3, r) by {
      LexTextMember("reason", e.reason, s3);
      PutTwice(t2, t3, r);
    }
    LexTextMember("accountId", e.accountId, s2);
    PutTwice([Text("accountId"), Mark(':'), Text(e.accountId), Mark(',')], t2 + t3, r);
  }

  lemma LexEntry(e: BanEntry, rest: string)
    ensures Lex(EntryText(e, rest)) == PutTokens(EntryTokens(e), Lex(rest))
  {
    LexMembers(e, rest);
    LexMark('{', MembersText(e, rest));
    PutTwice([Mark('{')], MemberTokens(e), Lex(rest));
    EntryTextSplit(e, rest);
    LexSkips("  ", "{" + MembersText(e, rest));
  }

  /** The tokens of the entries and the closing bracket. */
  function BodyTokens(entries: seq<BanEntry>): seq<Token> {
    if entries == [] then [Mark(']')]
    else EntryTokens(entries[0]) + ((if |entries| == 1 then [] else [Mark(',')]) + BodyTokens(entries[1..]))
  }

  lemma LexClosing()
    ensures Lex("]\r\n") == Some([Mark(']')])
  {
    assert "]\r\n" == "]" + "\r\n";
    LexMark(']', "\r\n");
    LexSkips("\r\n", "");
    assert "\r\n" + "" == "\r\n";
    assert Lex("") == Some([]);
    assert [Mark(']')] + [] == [Mark(']')];
  }

  /** A mark and white space behind it. */
  lemma LexMarkWs(t: string, c: char, ws: string, s: string)
    requires Structural(c) && t == [c] + (ws + s) && forall i | 0 <= i < |ws| :: Ws(ws[i])
    ensures Lex(t) == PutTokens([Mark(c)], Lex(s))
  {
    LexSkips(ws, s);
    LexMark(c, ws + s);
  }

  lemma MarkAndBreak(c: char, s: string)
    ensures [c, '\r', '\n'] + s == [c] + ("\r\n" + s)
    ensures forall i | 0 <= i < 2 :: Ws("\r\n"[i])
  {
  }

  lemma LexComma(s: string)
    ensures Lex(",\r\n" + s) == PutTokens([Mark(',')], Lex(s))
  {
    MarkAndBreak(',', s);
    LexMarkWs(",\r\n" + s, ',', "\r\n", s);
  }

  lemma LexLineEnd(last: bool, s: string)
    ensures Lex(LineEnd(last) + s) == PutTokens(if last then [] else [Mark(',')], Lex(s))
  {
    if last {
      LexSkips("\r\n", s);
      PutNothing(Lex(s));
    } else {
      LexComma(s);
    }
  }

  lemma PutNothing(r: Option<seq<Token>>)
    ensures PutTokens([], r) == r
  {
    if r.Some? {
      assert [] + r.value == r.value;
    }
  }

  lemma {:induction false} LexBody(entries: seq<BanEntry>)
    ensures Lex(Body(entries)) == Some(BodyTokens(entries))
  {
    if entries == [] {
      LexClosing();
    } else {
      LexBody(entries[1..]);
      LexLineEnd(|entries| == 1, Body(entries[1..]));
      LexEntry(entries[0], LineEnd(|entries| == 1) + Body(entries[1..]));
    }
  }

  // ---------- the grammar on those tokens ----------

  lemma ParseMembersStep(ts: seq<Token>, i: nat, v: Json, more: seq<(string, Json)>, end: nat)
    requires i + 4 <= |ts|
    requires ts[i].Text? && ts[i + 1] == Mark(':') && ts[i + 3] == Mark(',')
    requires ParseValue(ts, i + 2) == Done(v, i + 3)
    requires ParseMembers(ts, i + 4) == Done(more, end)
    ensures ParseMembers(ts, i) == Done([(ts[i].s, v)] + more, end)
  {
  }

  lemma ParseMembersLast(ts: seq<Token>, i: nat, v: Json)
    requires i + 4 <= |ts|
    requires ts[i].Text? && ts[i + 1] == Mark(':') && ts[i + 3] == Mark('}')
    requires ParseValue(ts, i + 2) == Done(v, i + 3)
    ensures ParseMembers(ts, i) == Done([(ts[i].s, v)], i + 4)
  {
  }

  lemma ParseObject(ts: seq<Token>, i: nat, members: seq<(string, Json)>, end: nat)
    requires i + 1 < |ts| && ts[i] == Mark('{') && ts[i + 1].Text?
    requires ParseMembers(ts, i + 1) == Done(members, end)
    ensures ParseValue(ts, i) == Done(Obj(members), end)
  {
  }

  lemma ParseEntry(ts: seq<Token>, i: nat, e: BanEntry)
    requires i + 13 <= |ts| && ts[i..i + 13] == EntryTokens(e)
    ensures ParseValue(ts, i) == Done(EntryJson(e), i + 13)
  {
    var t := ts[i..i + 13];
    EntryTokensAt(e);
    assert ts[i] == t[0] && ts[i + 1] == t[1] && ts[i + 2] == t[2] && ts[i + 3] == t[3] && ts[i + 4] == t[4];
    assert ts[i + 5] == t[5] && ts[i + 6] == t[6] && ts[i + 7] == t[7] && ts[i + 8] == t[8];
    assert ts[i + 9] == t[9] && ts[i + 10] == t[10] && ts[i + 11] == t[11] && ts[i + 12] == t[12];
    ParseMembersLast(ts, i + 9, Num(e.timestamp));
    var m3 := [("timestamp", Num(e.timestamp))];
    ParseMembersStep(ts, i + 5, Str(e.reason), m3, i + 13);
    var m2 := [("reason", Str(e.reason))] + m3;
    ParseMembersStep(ts, i + 1, Str(e.accountId), m2, i + 13);
    var m1 := [("accountId", Str(e.accountId))] + m2;
    ParseObject(ts, i, m1, i + 13);
    assert m1 == EntryJson(e).members;
  }

  lemma EntryTokensAt(e: BanEntry)
    ensures var t := EntryTokens(e);
            && t[0] == Mark('{') && t[1] == Text("accountId") && t[2] == Mark(':') && t[3] == Text(e.accountId)
            && t[4] == Mark(',') && t[5] == Text("reason") && t[6] == Mark(':') && t[7] == Text(e.reason)
            && t[8] == Mark(',') && t[9] == Text("timestamp") && t[10] == Mark(':')
            && t[11] == Number(e.timestamp) && t[12] == Mark('}')
  {
  }

  lemma ParseItemsStep(ts: seq<Token>, i: nat, v: Json, j: nat, more: seq<Json>, end: nat)
    requires ParseValue(ts, i) == Done(v, j) && IsMark(ts, j, ',')
    requires ParseItems(ts, j + 1) == Done(more, end)
    ensures ParseItems(ts, i) == Done([v] + more, end)
  {
  }

  lemma ParseItemsLast(ts: seq<Token>, i: nat, v: Json, j: nat)
    requires ParseValue(ts, i) == Done(v, j) && IsMark(ts, j, ']')
    ensures ParseItems(ts, i) == Done([v], j + 1)
  {
  }

  lemma {:induction false} ParseBody(before: seq<Token>, entries: seq<BanEntry>)
    requires entries != []
    ensures var ts := before + BodyTokens(entries);
            ParseItems(ts, |before|) == Done(EntriesJson(entries), |ts|)
    decreases entries
  {
    var ts := before + BodyTokens(entries);
    var i, e := |before|, entries[0];
    assert ts[i..i + 13] == EntryTokens(e);
    ParseEntry(ts, i, e);
    if |entries| == 1 {
      assert BodyTokens(entries[1..]) == [Mark(']')];
      ParseItemsLast(ts, i, EntryJson(e), i + 13);
      assert EntriesJson(entries) == [EntryJson(e)];
    } else {
      var before' := before + EntryTokens(e) + [Mark(',')];
      assert ts == before' + BodyTokens(entries[1..]);
      ParseBody(before', entries[1..]);
      ParseItemsStep(ts, i, EntryJson(e), i + 13, EntriesJson(entries[1..]), |ts|);
    }
  }

  lemma {:induction false} EntriesOfJson(entries: seq<BanEntry>)
    ensures EntriesOf(EntriesJson(entries)) == Some(entries)
  {
    if entries != [] {
      EntriesOfJson(entries[1..]);
      EntriesOfStep(EntryJson(entries[0]), entries[0], EntriesJson(entries[1..]), entries[1..]);
      assert [entries[0]] + entries[1..] == entries;
    }
  }

  lemma EntriesOfStep(item: Json, e: BanEntry, items: seq<Json>, more: seq<BanEntry>)
    requires EntryOf(item) == Some(e) && EntriesOf(items) == Some(more)
    ensures EntriesOf([item] + items) == Some([e] + more)
  {
    assert ([item] + items)[1..] == items;
  }

  lemma PrintedIsArray(entries: seq<BanEntry>)
    ensures ReadText(Render(entries)) == Some(Arr(EntriesJson(entries)))
  {
    LexRender(entries);
    var ts := [Mark('[')] + BodyTokens(entries);
    if entries != [] {
      ParseBody([Mark('[')], entries);
      EntryTokensAt(entries[0]);
      assert ts[1] == Mark('{');
    }
    ParseRender(ts, EntriesJson(entries));
  }

  /** Main result: for every list of entries, whatever bytes its texts hold, the printed file is a JSON text
      that stands for exactly those entries, in order. */
  lemma PrintedFileIsFaithful(entries: seq<BanEntry>)
    ensures ReadBanFile(Render(entries)) == Some(entries)
  {
    PrintedIsArray(entries);
    EntriesOfJson(entries);
  }

  lemma LexRender(entries: seq<BanEntry>)
    ensures Lex(Render(entries)) == Some([Mark('[')] + BodyTokens(entries))
  {
    LexBody(entries);
    LexOpening(Body(entries));
  }

  lemma LexOpening(s: string)
    ensures Lex("[\r\n" + s) == PutTokens([Mark('[')], Lex(s))
  {
    MarkAndBreak('[', s);
    LexMarkWs("[\r\n" + s, '[', "\r\n", s);
  }

  lemma ParseRender(ts: seq<Token>, items: seq<Json>)
    requires |ts| > 1 && ts[0] == Mark('[')
    requires ts[1] == Mark(']') ==> items == [] && |ts| == 2
    requires ts[1] != Mark(']') ==> ParseItems(ts, 1) == Done(items, |ts|)
    ensures ParseValue(ts, 0) == Done(Arr(items), |ts|)
  {
  }

  /** The file determines the list. */
  lemma RenderIsInjective(a: seq<BanEntry>, b: seq<BanEntry>)
    requires Render(a) == Render(b)
    ensures a == b
  {
    PrintedFileIsFaithful(a);
    PrintedFileIsFaithful(b);
  }
}
