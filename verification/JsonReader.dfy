/** A reader for JSON texts after sections 2 to 7 of RFC 8259: a lexer that turns the text into tokens and a
    grammar over the tokens. It is restricted to integer numbers and to the values the ban file uses (objects,
    arrays, numbers and strings); characters from 0x20 up are opaque. It judges the ban-file printer
    independently of the scanner. */
module JsonReader {
  import opened Basics
  import opened Text
  import opened BanFormat

  datatype Json =
    | Str(text: string)
    | Num(n: int)
    | Arr(items: seq<Json>)
    | Obj(members: seq<(string, Json)>)

  datatype Read<+T> = Bad | Good(value: T, rest: string)

  // ---------- section 2: white space ----------

  predicate Ws(c: char) { c == ' ' || c == '\t' || c == '\n' || c == '\r' }

  function WsEnd(s: string, from: nat): (end: nat)
    requires from <= |s|
    ensures from <= end <= |s|
    decreases |s| - from
  {
    if from < |s| && Ws(s[from]) then WsEnd(s, from + 1) else from
  }

  function SkipWs(s: string): (r: string)
    ensures |r| <= |s|
  {
    s[WsEnd(s, 0)..]
  }

  lemma {:induction false} WsEndAt(s: string, from: nat, end: nat)
    requires from <= end <= |s|
    requires forall i | from <= i < end :: Ws(s[i])
    requires end == |s| || !Ws(s[end])
    ensures WsEnd(s, from) == end
    decreases end - from
  {
    if from < end {
      WsEndAt(s, from + 1, end);
    }
  }

  lemma SkipWsOf(ws: string, s: string)
    requires forall i | 0 <= i < |ws| :: Ws(ws[i])
    requires s == "" || !Ws(s[0])
    ensures SkipWs(ws + s) == s
  {
    WsEndAt(ws + s, 0, |ws|);
  }

  lemma SkipNothing(s: string)
    requires s == "" || !Ws(s[0])
    ensures SkipWs(s) == s
  {
    WsEndAt(s, 0, 0);
  }

  // ---------- section 7: strings ----------

  /** The character written as four hex digits; code units of surrogate pairs are not accepted. */
  function UnicodeEscape(s: string): Read<char> {
    if |s| < 4 || !IsHexDigit(s[0]) || !IsHexDigit(s[1]) || !IsHexDigit(s[2]) || !IsHexDigit(s[3]) then Bad
    else
      var code := 4096 * HexValue(s[0]) + 256 * HexValue(s[1]) + 16 * HexValue(s[2]) + HexValue(s[3]);
      if code < 0xD800 then Good(code as char, s[4..]) else Bad
  }

  /** One character of a string, escaped or not; the control characters must be escaped. */
  function ReadChar(s: string): (r: Read<char>)
    requires s != ""
    ensures r.Good? ==> |r.rest| < |s|
  {
    if s[0] == '\\' then
      if |s| < 2 then Bad
      else if s[1] == '"' || s[1] == '\\' || s[1] == '/' then Good(s[1], s[2..])
      else if s[1] == 'b' then Good(8 as char, s[2..])
      else if s[1] == 'f' then Good(12 as char, s[2..])
      else if s[1] == 'n' then Good('\n', s[2..])
      else if s[1] == 'r' then Good('\r', s[2..])
      else if s[1] == 't' then Good('\t', s[2..])
      else if s[1] == 'u' then UnicodeEscape(s[2..])
      else Bad
    else if s[0] as int < 0x20 then Bad
    else Good(s[0], s[1..])
  }

  /** The rest of a string, behind its opening quote. */
  function ReadChars(s: string): (r: Read<string>)
    ensures r.Good? ==> |r.rest| < |s|
    decreases |s|
  {
    if s == "" then Bad
    else if s[0] == '"' then Good("", s[1..])
    else
      match ReadChar(s)
      case Bad => Bad
      case Good(c, rest) => PutFront(c, ReadChars(rest))
  }

  function PutFront(c: char, r: Read<string>): Read<string> {
    match r
    case Bad => Bad
    case Good(cs, rest) => Good([c] + cs, rest)
  }

  // ---------- section 6: integers ----------

  /** A character that would go on with a number. */
  predicate NumberChar(c: char) { IsDigit(c) || c == '.' || c == 'e' || c == 'E' }

  /** No leading zeros, and no fraction or exponent behind the digits. */
  function ReadNat(s: string): (r: Read<int>)
    ensures r.Good? ==> |r.rest| < |s|
  {
    var d := LeadingDigits(s);
    if d == "" || !(d <= s) || (d[0] == '0' && |d| > 1) then Bad
    else if s[|d|..] != "" && NumberChar(s[|d|]) then Bad
    else Good(ValueOf(d), s[|d|..])
  }

  function ReadNumber(s: string): (r: Read<int>)
    ensures r.Good? ==> |r.rest| < |s|
  {
    if s != "" && s[0] == '-' then
      match ReadNat(s[1..])
      case Bad => Bad
      case Good(n, rest) => Good(-n, rest)
    else ReadNat(s)
  }

  // ---------- section 2: tokens ----------

  datatype Token = Mark(c: char) | Text(s: string) | Number(n: int)

  predicate Structural(c: char) {
    c == '[' || c == ']' || c == '{' || c == '}' || c == ':' || c == ','
  }

  function NextToken(s: string): (r: Read<Token>)
    requires s != ""
    ensures r.Good? ==> |r.rest| < |s|
  {
    if Structural(s[0]) then Good(Mark(s[0]), s[1..])
    else if s[0] == '"' then
      match ReadChars(s[1..])
      case Bad => Bad
      case Good(text, rest) => Good(Text(text), rest)
    else
      match ReadNumber(s)
      case Bad => Bad
      case Good(n, rest) => Good(Number(n), rest)
  }

  /** The tokens of a text, with white space between them ignored. */
  function Lex(s: string): Option<seq<Token>>
    decreases |s|
  {
    var t := SkipWs(s);
    if t == "" then Some([])
    else
      match NextToken(t)
      case Bad => None
      case Good(token, rest) => PutTokens([token], Lex(rest))
  }

  function PutTokens(tokens: seq<Token>, r: Option<seq<Token>>): Option<seq<Token>> {
    match r
    case None => None
    case Some(more) => Some(tokens + more)
  }

  // ---------- sections 3 to 5: values, objects, arrays ----------

  /** A value and the position behind its last token. */
  datatype Parse<+T> = Fail | Done(value: T, next: nat)

  predicate IsMark(ts: seq<Token>, i: nat, c: char) {
    i < |ts| && ts[i] == Mark(c)
  }

  function ParseValue(ts: seq<Token>, i: nat): (r: Parse<Json>)
    ensures r.Done? ==> i < r.next <= |ts|
    decreases |ts| - i, 0
  {
    if i >= |ts| then Fail
    else
      match ts[i]
      case Text(s) => Done(Str(s), i + 1)
      case Number(n) => Done(Num(n), i + 1)
      case Mark(c) =>
        if c == '[' then
          if IsMark(ts, i + 1, ']') then Done(Arr([]), i + 2)
          else
            match ParseItems(ts, i + 1)
            case Fail => Fail
            case Done(items, next) => Done(Arr(items), next)
        else if c == '{' then
          if IsMark(ts, i + 1, '}') then Done(Obj([]), i + 2)
          else
            match ParseMembers(ts, i + 1)
            case Fail => Fail
            case Done(members, next) => Done(Obj(members), next)
        else Fail
  }

  /** One or more values with commas between them, and the closing bracket. */
  function ParseItems(ts: seq<Token>, i: nat): (r: Parse<seq<Json>>)
    ensures r.Done? ==> i < r.next <= |ts|
    decreases |ts| - i, 1
  {
    match ParseValue(ts, i)
    case Fail => Fail
    case Done(v, j) =>
      if IsMark(ts, j, ']') then Done([v], j + 1)
      else if IsMark(ts, j, ',') then
        match ParseItems(ts, j + 1)
        case Fail => Fail
        case Done(more, end) => Done([v] + more, end)
      else Fail
  }

  /** One or more names, each with a colon and a value, and the closing brace. */
  function ParseMembers(ts: seq<Token>, i: nat): (r: Parse<seq<(string, Json)>>)
    ensures r.Done? ==> i < r.next <= |ts|
    decreases |ts| - i, 1
  {
    if i < |ts| && ts[i].Text? && IsMark(ts, i + 1, ':') then
      match ParseValue(ts, i + 2)
      case Fail => Fail
      case Done(v, j) =>
        if IsMark(ts, j, '}') then Done([(ts[i].s, v)], j + 1)
        else if IsMark(ts, j, ',') then
          match ParseMembers(ts, j + 1)
          case Fail => Fail
          case Done(more, end) => Done([(ts[i].s, v)] + more, end)
        else Fail
    else Fail
  }

  /** A whole JSON text is one value and nothing else. */
  function ReadText(s: string): Option<Json> {
    match Lex(s)
    case None => None
    case Some(ts) =>
      match ParseValue(ts, 0)
      case Fail => None
      case Done(v, next) => if next == |ts| then Some(v) else None
  }

  // ---------- strings come back ----------

  lemma UnicodeOf(c: char, s: string)
    requires c as int < 0x20
    ensures UnicodeEscape("00" + [HexDigit(c as int / 16), HexDigit(c as int % 16)] + s) == Good(c, s)
  {
    var hi, lo := c as int / 16, c as int % 16;
    var t := "00" + [HexDigit(hi), HexDigit(lo)] + s;
    assert HexValue(t[2]) == hi && HexValue(t[3]) == lo;
    assert t[4..] == s;
  }

  lemma ReadEscaped(c: char, s: string)
    ensures ReadChar(EscapeChar(c) + s) == Good(c, s)
    ensures EscapeChar(c)[0] != '"'
  {
    var t := EscapeChar(c) + s;
    if c == '"' || c == '\\' || c == '\n' || c == '\r' || c == '\t' {
      assert t[2..] == s;
    } else if c as int < 0x20 {
      UnicodeOf(c, s);
      assert t[2..] == "00" + [HexDigit(c as int / 16), HexDigit(c as int % 16)] + s;
    } else {
      assert t[1..] == s;
    }
  }

  /** Reading undoes escaping, for every text and whatever follows. */
  lemma ReadCharsStep(s: string, c: char, rest: string)
    requires s != "" && s[0] != '"' && ReadChar(s) == Good(c, rest)
    ensures ReadChars(s) == PutFront(c, ReadChars(rest))
  {
  }

  lemma {:induction false} ReadOfEscaped(s: string, rest: string)
    ensures ReadChars(EscapeJson(s) + ("\"" + rest)) == Good(s, rest)
  {
    var t := EscapeJson(s) + ("\"" + rest);
    if s == "" {
      assert t == "\"" + rest;
      assert t[1..] == rest;
    } else {
      var more := EscapeJson(s[1..]) + ("\"" + rest);
      assert t == EscapeChar(s[0]) + more;
      ReadEscaped(s[0], more);
      assert t[0] == EscapeChar(s[0])[0];
      ReadCharsStep(t, s[0], more);
      ReadOfEscaped(s[1..], rest);
      assert [s[0]] + s[1..] == s;
    }
  }

  /** No two texts are escaped alike. */
  lemma EscapeIsInjective(a: string, b: string)
    requires EscapeJson(a) == EscapeJson(b)
    ensures a == b
  {
    ReadOfEscaped(a, "");
    ReadOfEscaped(b, "");
  }
}
