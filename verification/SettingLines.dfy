/** Settings files as people write them: what one line does, with any blanks in it, and lines one after the other. */
module SettingLines {
  import opened Basics
  import opened Text
  import opened Wire
  import opened ConfigFile
  import opened SavedKey

  /** A line with a key, blanks around it, and whatever stands behind the equals sign. */
  function LineWith(a: string, key: string, b: string, value: string): string { a + key + b + "=" + value }

  lemma BlankChars(a: string)
    requires AllBlank(a)
    ensures '=' !in a && '\n' !in a && (a != "" ==> Blank(a[0]))
  {
    assert a != "" ==> a[0] in a;
  }

  /** Blanks around the key and around the value are dropped. */
  lemma PaddedLineSplits(a: string, key: string, b: string, value: string)
    requires AllBlank(a) && AllBlank(b) && GoodKey(key)
    ensures SplitLine(LineWith(a, key, b, value)) == Some((key, Trim(value)))
  {
    var line, front := LineWith(a, key, b, value), a + key + b;
    BlankChars(a);
    BlankChars(b);
    assert line == front + ['='] + value;
    FindSingle(front, '=', value);
    TrimOf(a, key, b);
    assert line[..|front|] == front && line[|front| + 1..] == value;
    assert line[0] == if a == "" then key[0] else a[0];
  }

  /** A text of one line, with a line feed behind it or not. */
  lemma LoadOneLine(s: Settings, line: string)
    requires '\n' !in line
    ensures LoadFrom(s, Some(line + "\n")) == ApplyLine(s, line)
    ensures line != "" ==> LoadFrom(s, Some(line)) == ApplyLine(s, line)
  {
    LinesOfOne(line);
    assert [line][1..] == [];
    assert LoadLines(s, [line]) == ApplyLine(s, line);
    if line != "" {
      LinesOfLast(line);
    }
  }

  /** A line with blanks around key and value, alone in a file. */
  lemma LoadPadded(s: Settings, a: string, key: string, b: string, c: string, value: string, d: string)
    requires AllBlank(a) && AllBlank(b) && AllBlank(c) && AllBlank(d) && GoodKey(key) && Clean(value)
    ensures LoadFrom(s, Some(LineWith(a, key, b, c + value + d))) == Set(s, key, value)
    ensures LoadFrom(s, Some(LineWith(a, key, b, c + value + d) + "\n")) == Set(s, key, value)
  {
    var line := LineWith(a, key, b, c + value + d);
    BlankChars(a);
    BlankChars(b);
    BlankChars(c);
    BlankChars(d);
    PaddedLineSplits(a, key, b, c + value + d);
    TrimOf(c, value, d);
    LoadOneLine(s, line);
  }

  predicate FitsInt32(n: int) { -0x8000_0000 <= n < 0x8000_0000 }

  lemma DecimalIsClean(n: int)
    ensures Clean(ToDecimal(n)) && Stoi(ToDecimal(n)) == if FitsInt32(n) then Some(n) else None
  {
    var t := ToDecimal(n);
    ParseOfDecimal(n, "");
    assert t + "" == t;
    DecimalChars(n);
    assert t[0] in t && t[|t| - 1] in t;
  }

  lemma StoiOf(value: string, n: int)
    requires ParseNumber(value) == Some(n)
    ensures Stoi(value) == if FitsInt32(n) then Some(n) else None
  {
  }

  /** `stoi` reads white space, a sign or none, digits, and ignores the rest; what does not fit is refused. */
  lemma StoiReads(ws: string, t: string, d: string, rest: string)
    requires AllSpace(ws) && AllDigits(d) && d != "" && (rest == "" || !IsDigit(rest[0])) && t == d + rest
    ensures var n := ValueOf(d);
            && Stoi(ws + t) == (if FitsInt32(n) then Some(n) else None)
            && Stoi(ws + ("+" + t)) == (if FitsInt32(n) then Some(n) else None)
            && Stoi(ws + ("-" + t)) == (if FitsInt32(-n) then Some(-n) else None)
  {
    var n := ValueOf(d);
    NumberIsRead(ws, t, d, rest);
    StoiOf(ws + t, n);
    StoiOf(ws + ("+" + t), n);
    StoiOf(ws + ("-" + t), -n);
  }

  // ---------- the ten keys ----------

  /** Main result: such a line with a number changes exactly the setting it names, or throws when the number does not
      fit into 32 bits. */
  lemma NumberLine(s: Settings, a: string, b: string, c: string, n: int, d: string)
    requires AllBlank(a) && AllBlank(b) && AllBlank(c) && AllBlank(d)
    ensures LoadFrom(s, Some(LineWith(a, "Port", b, c + ToDecimal(n) + d)))
         == if FitsInt32(n) then Loaded(s.(port := n)) else Threw(s)
    ensures LoadFrom(s, Some(LineWith(a, "MaxFailedAttempts", b, c + ToDecimal(n) + d)))
         == if FitsInt32(n) then Loaded(s.(maxFailedAttempts := n)) else Threw(s)
    ensures LoadFrom(s, Some(LineWith(a, "Timeout", b, c + ToDecimal(n) + d)))
         == if FitsInt32(n) then Loaded(s.(timeout := n)) else Threw(s)
  {
    KeysAreGood();
    MoreKeysAreGood();
    DecimalIsClean(n);
    LoadPadded(s, a, "Port", b, c, ToDecimal(n), d);
    LoadPadded(s, a, "MaxFailedAttempts", b, c, ToDecimal(n), d);
    LoadPadded(s, a, "Timeout", b, c, ToDecimal(n), d);
  }

  /** A line with a text changes exactly the setting it names. */
  lemma TextLine(s: Settings, a: string, f: Field, b: string, c: string, value: string, d: string)
    requires AllBlank(a) && AllBlank(b) && AllBlank(c) && AllBlank(d) && Clean(value)
    ensures LoadFrom(s, Some(LineWith(a, KeyOf(f), b, c + value + d)))
         == Loaded(match f
                   case Password => s.(password := value)
                   case LogFile => s.(logFile := value)
                   case BindAddress => s.(bindAddress := value)
                   case AllowedIPs => s.(allowedIPs := value)
                   case AesKeyText => s.(aesKey := value))
  {
    KeysOfFields(f);
    SetTexts(s, value);
    LoadPadded(s, a, KeyOf(f), b, c, value, d);
  }

  /** A switch is on exactly for the values `true` and `1`. */
  lemma TruthLine(s: Settings, a: string, b: string, c: string, value: string, d: string)
    requires AllBlank(a) && AllBlank(b) && AllBlank(c) && AllBlank(d) && Clean(value)
    ensures LoadFrom(s, Some(LineWith(a, "EnableLogging", b, c + value + d)))
         == Loaded(s.(enableLogging := value in {"true", "1"}))
    ensures LoadFrom(s, Some(LineWith(a, "Enabled", b, c + value + d)))
         == Loaded(s.(secureRconEnabled := value in {"true", "1"}))
  {
    MoreKeysAreGood();
    LastKeysAreGood();
    LoadPadded(s, a, "EnableLogging", b, c, value, d);
    LoadPadded(s, a, "Enabled", b, c, value, d);
  }

  // ---------- lines that do nothing, lines that throw ----------

  const KNOWN_KEYS := {"Port", "MaxFailedAttempts", "Timeout", "Password", "LogFile", "BindAddress", "AllowedIPs",
                       "AESKey", "EnableLogging", "Enabled"}

  /** Empty lines, comments and lines without an equals sign do nothing. */
  lemma IdleLine(s: Settings, line: string)
    requires line == "" || line[0] in "#;" || '=' !in line
    ensures ApplyLine(s, line) == Loaded(s)
  {
    if line != "" && '=' !in line {
      FindIsLeftmost(line, "=");
      if Find(line, "=").Some? {
        OccursAgrees(line, "=", Find(line, "=").value, 0);
      }
    }
  }

  /** An unknown key does nothing. */
  lemma UnknownKey(s: Settings, a: string, key: string, b: string, value: string)
    requires AllBlank(a) && AllBlank(b) && GoodKey(key) && key !in KNOWN_KEYS
    ensures ApplyLine(s, LineWith(a, key, b, value)) == Loaded(s)
  {
    PaddedLineSplits(a, key, b, value);
  }

  /** Behind a first line the rest is loaded over what it made, unless it throws. */
  lemma LoadLineThenRest(s: Settings, line: string, rest: string)
    requires '\n' !in line
    ensures LoadFrom(s, Some(line + "\n" + rest)) ==
            match ApplyLine(s, line) case Threw(t) => Threw(t) case Loaded(t) => LoadFrom(t, Some(rest))
  {
    LinesSplit(line, rest);
    LinesOfOne(line);
    LoadConcat(s, [line], Lines(rest));
    assert [line][1..] == [];
    assert LoadLines(s, [line]) == ApplyLine(s, line);
  }

  lemma ThrowingLineKeeps(s: Settings, line: string)
    requires Throws(line)
    ensures ApplyLine(s, line) == Threw(s)
  {
  }

  /** The lines in front of one that throws keep their effect; those behind it have none. */
  lemma LoadStopsAt(s: Settings, before: seq<string>, bad: string, after: seq<string>)
    requires LoadLines(s, before).Loaded? && Throws(bad)
    ensures LoadLines(s, before + [bad] + after) == Threw(LoadLines(s, before).settings)
  {
    var t := LoadLines(s, before).settings;
    assert before + [bad] + after == before + ([bad] + after);
    LoadConcat(s, before, [bad] + after);
    ThrowingLineKeeps(t, bad);
    assert ([bad] + after)[0] == bad;
    assert LoadLines(t, [bad] + after) == Threw(t);
  }
}
