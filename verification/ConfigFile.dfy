/** The settings file: what `Save` writes, what `Load` makes of any text, and exactly which settings survive. */
module ConfigFile {
  import opened Basics
  import opened Text
  import opened Wire

  datatype Settings = Settings(
    port: Int32, password: string, enableLogging: bool, logFile: string, bindAddress: string, allowedIPs: string,
    maxFailedAttempts: Int32, timeout: Int32, secureRconEnabled: bool, aesKey: string)

  /** Loading ends normally, or with an exception of `stoi`, the lines before having had their effect. */
  datatype Outcome = Loaded(settings: Settings) | Threw(settings: Settings)

  // ---------- loading ----------

  /** `std::stoi`: a number at the start of the text that fits into 32 bits, or an exception. */
  function Stoi(value: string): Option<Int32> {
    match ParseNumber(value)
    case None => None
    case Some(n) => if -0x8000_0000 <= n < 0x8000_0000 then Some(n) else None
  }

  function Truth(value: string): bool { value == "true" || value == "1" }

  /** One setting. */
  function Set(s: Settings, key: string, value: string): Outcome {
    if key == "Port" then
      match Stoi(value) case None => Threw(s) case Some(n) => Loaded(s.(port := n))
    else if key == "Password" then Loaded(s.(password := value))
    else if key == "EnableLogging" then Loaded(s.(enableLogging := Truth(value)))
    else if key == "LogFile" then Loaded(s.(logFile := value))
    else if key == "BindAddress" then Loaded(s.(bindAddress := value))
    else if key == "AllowedIPs" then Loaded(s.(allowedIPs := value))
    else if key == "MaxFailedAttempts" then
      match Stoi(value) case None => Threw(s) case Some(n) => Loaded(s.(maxFailedAttempts := n))
    else if key == "Timeout" then
      match Stoi(value) case None => Threw(s) case Some(n) => Loaded(s.(timeout := n))
    else if key == "Enabled" then Loaded(s.(secureRconEnabled := Truth(value)))
    else if key == "AESKey" then Loaded(s.(aesKey := value))
    else Loaded(s)
  }

  /** Where a line has its key and its value; comments, empty lines and lines without `=` have none. */
  ghost function SplitLine(line: string): Option<(string, string)> {
    if line == "" || line[0] == '#' || line[0] == ';' then None
    else
      match Find(line, "=")
      case None => None
      case Some(pos) => Some((Trim(line[..pos]), Trim(line[pos + 1..])))
  }

  ghost function ApplyLine(s: Settings, line: string): Outcome {
    match SplitLine(line)
    case None => Loaded(s)
    case Some((key, value)) => Set(s, key, value)
  }

  ghost function LoadLines(s: Settings, lines: seq<string>): Outcome
    decreases |lines|
  {
    if lines == [] then Loaded(s)
    else
      match ApplyLine(s, lines[0])
      case Threw(t) => Threw(t)
      case Loaded(t) => LoadLines(t, lines[1..])
  }

  /** A character in front of the lines behind it. */
  function Push(c: char, rest: seq<string>): (lines: seq<string>)
    ensures lines != []
  {
    if c == '\n' then [""] + rest
    else if rest == [] then [[c]]
    else [[c] + rest[0]] + rest[1..]
  }

  lemma PushConcat(c: char, rest: seq<string>, more: seq<string>)
    requires c == '\n' || rest != []
    ensures Push(c, rest + more) == Push(c, rest) + more
  {
  }

  /** The lines `getline` delivers: the pieces between line feeds, without an empty one behind the last. */
  function Lines(text: string): (lines: seq<string>)
    ensures text != "" ==> lines != []
  {
    if text == "" then [] else Push(text[0], Lines(text[1..]))
  }

  /** Loading a text over settings made before; a file that cannot be opened changes nothing. */
  ghost function LoadFrom(s: Settings, file: Option<string>): Outcome {
    match file
    case None => Loaded(s)
    case Some(text) => LoadLines(s, Lines(text))
  }

  lemma {:induction false} NoFeedsInLines(text: string)
    ensures forall i | 0 <= i < |Lines(text)| :: '\n' !in Lines(text)[i]
  {
    if text != "" {
      NoFeedsInLines(text[1..]);
    }
  }

  /** A line feed ends the lines before it. */
  lemma {:induction false} LinesSplit(a: string, b: string)
    ensures Lines(a + "\n" + b) == Lines(a + "\n") + Lines(b)
  {
    var t := a + "\n" + b;
    if a == "" {
      assert t[1..] == b;
      assert (a + "\n")[1..] == "";
    } else {
      LinesSplit(a[1..], b);
      assert t[1..] == a[1..] + "\n" + b;
      assert (a + "\n")[1..] == a[1..] + "\n";
      PushConcat(a[0], Lines(a[1..] + "\n"), Lines(b));
    }
  }

  lemma {:induction false} LinesOfOne(a: string)
    requires '\n' !in a
    ensures Lines(a + "\n") == [a]
  {
    if a == "" {
      assert (a + "\n")[1..] == "";
    } else {
      assert a[0] in a;
      LinesOfOne(a[1..]);
      assert (a + "\n")[1..] == a[1..] + "\n";
      assert (a + "\n")[0] == a[0];
      assert [a[0]] + a[1..] == a;
    }
  }

  lemma {:induction false} LinesOfLast(a: string)
    requires '\n' !in a && a != ""
    ensures Lines(a) == [a]
  {
    assert a[0] in a;
    assert [a[0]] + a[1..] == a;
    if |a| > 1 {
      LinesOfLast(a[1..]);
      assert [a[1..]][1..] == [];
    } else {
      assert a[1..] == "" && a == [a[0]];
    }
  }

  /** The first line starts with whatever comes before the first line feed. */
  lemma {:induction false} FirstLineStarts(p: string, q: string)
    requires '\n' !in p && p + q != ""
    ensures p <= Lines(p + q)[0]
  {
    if p != "" {
      assert (p + q)[1..] == p[1..] + q;
      assert (p + q)[0] == p[0] && p[0] in p;
      assert p == [p[0]] + p[1..];
      if p[1..] + q != "" {
        FirstLineStarts(p[1..], q);
      }
    }
  }

  // ---------- saving ----------

  function BoolText(b: bool): string { if b then "true" else "false" }

  /** A setting as it is written: notes, then its key and value. */
  datatype Entry = Entry(notes: seq<string>, key: string, value: string)

  function Pair(key: string, value: string): string { key + "=" + value }

  function LinesOfEntry(e: Entry): seq<string> { e.notes + [Pair(e.key, e.value)] }

  /** The settings in the order they are written, with the notes before each. */
  function Entries(notes: seq<seq<string>>, c: Settings): (es: seq<Entry>)
    requires |notes| == 10
    ensures |es| == 10
  {
    [Entry(notes[0], "BindAddress", c.bindAddress),
     Entry(notes[1], "Port", ToDecimal(c.port)),
     Entry(notes[2], "Password", c.password),
     Entry(notes[3], "AllowedIPs", c.allowedIPs),
     Entry(notes[4], "MaxFailedAttempts", ToDecimal(c.maxFailedAttempts)),
     Entry(notes[5], "Timeout", ToDecimal(c.timeout)),
     Entry(notes[6], "EnableLogging", BoolText(c.enableLogging)),
     Entry(notes[7], "LogFile", c.logFile),
     Entry(notes[8], "Enabled", BoolText(c.secureRconEnabled)),
     Entry(notes[9], "AESKey", c.aesKey)]
  }

  function LinesFrom(es: seq<Entry>, i: nat): seq<string>
    requires i <= |es|
    decreases |es| - i
  {
    if i == |es| then [] else LinesOfEntry(es[i]) + LinesFrom(es, i + 1)
  }

  function SavedLines(notes: seq<seq<string>>, c: Settings): seq<string>
    requires |notes| == 10
  {
    LinesFrom(Entries(notes, c), 0)
  }

  function TextOf(lines: seq<string>): string {
    if lines == [] then "" else TextOf(lines[..|lines| - 1]) + (lines[|lines| - 1] + "\n")
  }

  // ---------- from text to lines ----------

  /** What `getline` makes of lines that may hold line feeds themselves. */
  function Split(lines: seq<string>): seq<string> {
    if lines == [] then [] else Split(lines[..|lines| - 1]) + Lines(lines[|lines| - 1] + "\n")
  }

  lemma {:induction false} LinesBehind(lines: seq<string>, rest: string)
    ensures Lines(TextOf(lines) + rest) == Split(lines) + Lines(rest)
  {
    if lines == [] {
      assert TextOf(lines) + rest == rest;
    } else {
      var before, last := lines[..|lines| - 1], lines[|lines| - 1];
      LinesBehind(before, last + "\n" + rest);
      LinesSplit(last, rest);
      LineInFront(TextOf(before), last, rest);
      SplitStep(Split(before), Lines(last + "\n"), Lines(rest));
    }
  }

  lemma LineInFront(before: string, last: string, rest: string)
    ensures before + (last + "\n") + rest == before + (last + "\n" + rest)
  {
  }

  lemma SplitStep(before: seq<string>, last: seq<string>, rest: seq<string>)
    ensures before + (last + rest) == (before + last) + rest
  {
  }

  lemma LinesOfText(lines: seq<string>)
    ensures Lines(TextOf(lines)) == Split(lines)
  {
    LinesBehind(lines, "");
    assert TextOf(lines) + "" == TextOf(lines);
  }

  lemma {:induction false} SplitKeeps(lines: seq<string>)
    requires forall l :: l in lines ==> '\n' !in l
    ensures Split(lines) == lines
  {
    if lines != [] {
      var n := |lines| - 1;
      SplitKeeps(lines[..n]);
      LinesOfOne(lines[n]);
      assert lines == lines[..n] + [lines[n]];
    }
  }

  lemma {:induction false} FirstPiece(lines: seq<string>, l: string)
    requires l in lines
    ensures Lines(l + "\n")[0] in Split(lines)
  {
    var n := |lines| - 1;
    if l == lines[n] {
      assert Lines(l + "\n")[0] in Lines(l + "\n");
    } else {
      assert l in lines[..n];
      FirstPiece(lines[..n], l);
    }
  }

  lemma {:induction false} SplitHasNoFeeds(lines: seq<string>)
    ensures forall l :: l in Split(lines) ==> '\n' !in l
  {
    if lines != [] {
      SplitHasNoFeeds(lines[..|lines| - 1]);
      NoFeedsInLines(lines[|lines| - 1] + "\n");
    }
  }

  // ---------- from lines to settings ----------

  lemma {:induction false} LoadConcat(s: Settings, a: seq<string>, b: seq<string>)
    ensures LoadLines(s, a + b) == match LoadLines(s, a) case Threw(t) => Threw(t) case Loaded(t) => LoadLines(t, b)
    decreases |a|
  {
    if a == [] {
      assert a + b == b;
    } else {
      assert (a + b)[1..] == a[1..] + b;
      match ApplyLine(s, a[0])
      case Threw(_) =>
      case Loaded(t) => LoadConcat(t, a[1..], b);
    }
  }

  lemma {:induction false} NotesAreSkipped(s: Settings, notes: seq<string>)
    requires forall n :: n in notes ==> SplitLine(n) == None
    ensures LoadLines(s, notes) == Loaded(s)
    decreases |notes|
  {
    if notes != [] {
      assert notes[0] in notes;
      NotesAreSkipped(s, notes[1..]);
    }
  }

  predicate GoodKey(key: string) {
    key != "" && key[0] != '#' && key[0] != ';' && '=' !in key && '\n' !in key && Trimmed(key)
  }

  /** The first `=` ends the key; the value may hold more of them. */
  lemma PairSplits(key: string, value: string)
    requires GoodKey(key)
    ensures SplitLine(Pair(key, value)) == Some((key, Trim(value)))
  {
    var line := Pair(key, value);
    FindSingle(key, '=', value);
    assert line == key + ['='] + value;
    assert line[..|key|] == key && line[|key| + 1..] == value;
    TrimKeeps(key);
  }

  predicate Clean(text: string) { '\n' !in text && Trimmed(text) }

  lemma LoadEntry(s: Settings, e: Entry)
    requires GoodKey(e.key) && (forall n :: n in e.notes ==> SplitLine(n) == None)
    ensures LoadLines(s, LinesOfEntry(e)) == Set(s, e.key, Trim(e.value))
  {
    var pair := [Pair(e.key, e.value)];
    NotesAreSkipped(s, e.notes);
    LoadConcat(s, e.notes, pair);
    PairSplits(e.key, e.value);
    assert pair[1..] == [];
    assert LoadLines(s, pair) == ApplyLine(s, pair[0]);
  }

  // ---------- the entries that are written ----------

  predicate GoodEntry(e: Entry) {
    GoodKey(e.key) && forall n :: n in e.notes ==> Skipped(n)
  }

  /** Empty, a comment, or without `=`; and one line. */
  predicate Skipped(note: string) {
    '\n' !in note && (note == "" || note[0] == '#' || '=' !in note)
  }

  lemma SkippedHasNoPair(note: string)
    requires Skipped(note)
    ensures SplitLine(note) == None
  {
    if '=' !in note {
      FindIsLeftmost(note, "=");
      if Find(note, "=").Some? {
        OccursAgrees(note, "=", Find(note, "=").value, 0);
      }
    }
  }

  predicate GoodNotes(notes: seq<seq<string>>) {
    |notes| == 10 && forall i | 0 <= i < 10 :: forall n :: n in notes[i] ==> Skipped(n)
  }

  lemma KeysAreGood()
    ensures GoodKey("BindAddress") && GoodKey("Port") && GoodKey("Password") && GoodKey("AllowedIPs")
  {
  }

  lemma MoreKeysAreGood()
    ensures GoodKey("MaxFailedAttempts") && GoodKey("Timeout") && GoodKey("EnableLogging")
  {
  }

  lemma LastKeysAreGood()
    ensures GoodKey("LogFile") && GoodKey("Enabled") && GoodKey("AESKey")
  {
  }

  lemma EntriesAreGood(notes: seq<seq<string>>, c: Settings)
    requires GoodNotes(notes)
    ensures forall i | 0 <= i < 10 :: GoodEntry(Entries(notes, c)[i])
  {
    KeysAreGood();
    MoreKeysAreGood();
    LastKeysAreGood();
  }

  /** All entries from `i` on, one after the other. */
  function SetFrom(s: Settings, es: seq<Entry>, i: nat): Outcome
    requires i <= |es|
    decreases |es| - i
  {
    if i == |es| then Loaded(s)
    else
      match Set(s, es[i].key, Trim(es[i].value))
      case Threw(t) => Threw(t)
      case Loaded(t) => SetFrom(t, es, i + 1)
  }

  lemma LoadGoodEntry(s: Settings, e: Entry)
    requires GoodEntry(e)
    ensures LoadLines(s, LinesOfEntry(e)) == Set(s, e.key, Trim(e.value))
  {
    forall n | n in e.notes
      ensures SplitLine(n) == None
    {
      SkippedHasNoPair(n);
    }
    LoadEntry(s, e);
  }

  lemma {:induction false} LoadEntries(s: Settings, es: seq<Entry>, i: nat)
    requires i <= |es| && forall k | i <= k < |es| :: GoodEntry(es[k])
    ensures LoadLines(s, LinesFrom(es, i)) == SetFrom(s, es, i)
    decreases |es| - i
  {
    if i < |es| {
      LoadGoodEntry(s, es[i]);
      LoadConcat(s, LinesOfEntry(es[i]), LinesFrom(es, i + 1));
      match Set(s, es[i].key, Trim(es[i].value))
      case Threw(_) =>
      case Loaded(t) => LoadEntries(t, es, i + 1);
    }
  }

  /** What each of the keys does. */
  lemma SetNumbers(s: Settings, n: Int32)
    ensures Set(s, "Port", Trim(ToDecimal(n))) == Loaded(s.(port := n))
    ensures Set(s, "MaxFailedAttempts", Trim(ToDecimal(n))) == Loaded(s.(maxFailedAttempts := n))
    ensures Set(s, "Timeout", Trim(ToDecimal(n))) == Loaded(s.(timeout := n))
  {
    NumberSurvives(n);
  }

  lemma NumberSurvives(n: Int32)
    ensures Trim(ToDecimal(n)) == ToDecimal(n) && Stoi(ToDecimal(n)) == Some(n) && '\n' !in ToDecimal(n)
  {
    var t := ToDecimal(n);
    ParseOfDecimal(n, "");
    assert t + "" == t;
    DecimalChars(n);
    assert t[0] in t && t[|t| - 1] in t;
    TrimKeeps(t);
  }

  lemma SetTexts(s: Settings, v: string)
    ensures Set(s, "Password", v) == Loaded(s.(password := v))
    ensures Set(s, "LogFile", v) == Loaded(s.(logFile := v))
    ensures Set(s, "BindAddress", v) == Loaded(s.(bindAddress := v))
    ensures Set(s, "AllowedIPs", v) == Loaded(s.(allowedIPs := v))
    ensures Set(s, "AESKey", v) == Loaded(s.(aesKey := v))
  {
  }

  lemma SetTruths(s: Settings, b: bool)
    ensures Set(s, "EnableLogging", Trim(BoolText(b))) == Loaded(s.(enableLogging := b))
    ensures Set(s, "Enabled", Trim(BoolText(b))) == Loaded(s.(secureRconEnabled := b))
  {
  }

  lemma TruthSurvives(b: bool)
    ensures Trim(BoolText(b)) == BoolText(b) && Truth(BoolText(b)) == b && '\n' !in BoolText(b)
  {
  }

  // ---------- the round trip ----------

  /** Settings with their texts trimmed. */
  function Neat(c: Settings): Settings {
    c.(password := Trim(c.password), logFile := Trim(c.logFile), bindAddress := Trim(c.bindAddress),
       allowedIPs := Trim(c.allowedIPs), aesKey := Trim(c.aesKey))
  }

  lemma FirstFive(s: Settings, notes: seq<seq<string>>, c: Settings) returns (t: Settings)
    requires |notes| == 10
    ensures t == s.(bindAddress := Trim(c.bindAddress), port := c.port, password := Trim(c.password),
                    allowedIPs := Trim(c.allowedIPs), maxFailedAttempts := c.maxFailedAttempts)
    ensures SetFrom(s, Entries(notes, c), 0) == SetFrom(t, Entries(notes, c), 5)
  {
    var es := Entries(notes, c);
    t := s;
    SetTexts(t, Trim(c.bindAddress));
    assert SetFrom(t, es, 0) == SetFrom(t.(bindAddress := Trim(c.bindAddress)), es, 1);
    t := t.(bindAddress := Trim(c.bindAddress));
    SetNumbers(t, c.port);
    assert SetFrom(t, es, 1) == SetFrom(t.(port := c.port), es, 2);
    t := t.(port := c.port);
    SetTexts(t, Trim(c.password));
    assert SetFrom(t, es, 2) == SetFrom(t.(password := Trim(c.password)), es, 3);
    t := t.(password := Trim(c.password));
    SetTexts(t, Trim(c.allowedIPs));
    assert SetFrom(t, es, 3) == SetFrom(t.(allowedIPs := Trim(c.allowedIPs)), es, 4);
    t := t.(allowedIPs := Trim(c.allowedIPs));
    SetNumbers(t, c.maxFailedAttempts);
    assert SetFrom(t, es, 4) == SetFrom(t.(maxFailedAttempts := c.maxFailedAttempts), es, 5);
    t := t.(maxFailedAttempts := c.maxFailedAttempts);
  }

  lemma LastFive(s: Settings, notes: seq<seq<string>>, c: Settings)
    requires |notes| == 10
    ensures SetFrom(s, Entries(notes, c), 5)
         == Loaded(s.(timeout := c.timeout, enableLogging := c.enableLogging, logFile := Trim(c.logFile),
                      secureRconEnabled := c.secureRconEnabled, aesKey := Trim(c.aesKey)))
  {
    var es := Entries(notes, c);
    var t := s;
    SetNumbers(t, c.timeout);
    assert SetFrom(t, es, 5) == SetFrom(t.(timeout := c.timeout), es, 6);
    t := t.(timeout := c.timeout);
    SetTruths(t, c.enableLogging);
    assert SetFrom(t, es, 6) == SetFrom(t.(enableLogging := c.enableLogging), es, 7);
    t := t.(enableLogging := c.enableLogging);
    SetTexts(t, Trim(c.logFile));
    assert SetFrom(t, es, 7) == SetFrom(t.(logFile := Trim(c.logFile)), es, 8);
    t := t.(logFile := Trim(c.logFile));
    SetTruths(t, c.secureRconEnabled);
    assert SetFrom(t, es, 8) == SetFrom(t.(secureRconEnabled := c.secureRconEnabled), es, 9);
    t := t.(secureRconEnabled := c.secureRconEnabled);
    SetTexts(t, Trim(c.aesKey));
    assert SetFrom(t, es, 9) == SetFrom(t.(aesKey := Trim(c.aesKey)), es, 10);
  }

  predicate OneLine(c: Settings) {
    && '\n' !in c.password && '\n' !in c.logFile && '\n' !in c.bindAddress && '\n' !in c.allowedIPs
    && '\n' !in c.aesKey
  }

  lemma ValuesAreOneLine(notes: seq<seq<string>>, c: Settings)
    requires |notes| == 10 && OneLine(c)
    ensures forall i | 0 <= i < 10 :: '\n' !in Entries(notes, c)[i].value
  {
    NumberSurvives(c.port);
    NumberSurvives(c.maxFailedAttempts);
    NumberSurvives(c.timeout);
    TruthSurvives(c.enableLogging);
    TruthSurvives(c.secureRconEnabled);
  }

  lemma {:induction false} LinesAreOneLine(es: seq<Entry>, i: nat)
    requires i <= |es|
    requires forall k | i <= k < |es| :: GoodEntry(es[k]) && '\n' !in es[k].value
    ensures forall l :: l in LinesFrom(es, i) ==> '\n' !in l
    decreases |es| - i
  {
    if i < |es| {
      LinesAreOneLine(es, i + 1);
      assert GoodEntry(es[i]);
      assert forall n :: n in es[i].notes ==> Skipped(n);
    }
  }

  /** When no text holds a line feed, loading what was saved gives the settings with their texts trimmed. */
  lemma LoadOfSaved(prior: Settings, notes: seq<seq<string>>, c: Settings)
    requires GoodNotes(notes) && OneLine(c)
    ensures LoadFrom(prior, Some(TextOf(SavedLines(notes, c)))) == Loaded(Neat(c))
  {
    var es := Entries(notes, c);
    EntriesAreGood(notes, c);
    ValuesAreOneLine(notes, c);
    LinesAreOneLine(es, 0);
    LinesOfText(SavedLines(notes, c));
    SplitKeeps(SavedLines(notes, c));
    LoadEntries(prior, es, 0);
    var t := FirstFive(prior, notes, c);
    LastFive(t, notes, c);
  }

  // ---------- which settings survive ----------

  /** The five settings that are texts. */
  datatype Field = Password | LogFile | BindAddress | AllowedIPs | AesKeyText

  function KeyOf(f: Field): string {
    match f
    case Password => "Password"
    case LogFile => "LogFile"
    case BindAddress => "BindAddress"
    case AllowedIPs => "AllowedIPs"
    case AesKeyText => "AESKey"
  }

  function Get(s: Settings, f: Field): string {
    match f
    case Password => s.password
    case LogFile => s.logFile
    case BindAddress => s.bindAddress
    case AllowedIPs => s.allowedIPs
    case AesKeyText => s.aesKey
  }

  lemma KeysOfFields(f: Field)
    ensures GoodKey(KeyOf(f))
  {
  }

  /** A setting leaves a text alone or makes it its value. */
  lemma SetOrKeep(s: Settings, key: string, value: string, f: Field)
    ensures Get(Set(s, key, value).settings, f) in {Get(s, f), value}
  {
  }

  lemma SetMakes(s: Settings, value: string, f: Field)
    ensures Get(Set(s, KeyOf(f), value).settings, f) == value
  {
    SetTexts(s, value);
  }

  /** A line that is one keeps clean texts clean, and a line that starts with a key makes its text clean. */
  lemma LineCleans(s: Settings, line: string, f: Field)
    requires '\n' !in line && ApplyLine(s, line).Loaded?
    requires Clean(Get(s, f)) || Pair(KeyOf(f), "") <= line
    ensures Clean(Get(ApplyLine(s, line).settings, f))
  {
    var key := KeyOf(f);
    KeysOfFields(f);
    if Pair(key, "") <= line {
      var value := line[|key| + 1..];
      assert line == Pair(key, value);
      PairSplits(key, value);
    }
    match SplitLine(line)
    case None =>
    case Some((k, v)) =>
      var pos := Find(line, "=").value;
      TrimKeeps(line[pos + 1..]);
      SetOrKeep(s, k, v, f);
      if k == key {
        SetMakes(s, v, f);
      }
  }

  lemma {:induction false} LinesClean(s: Settings, lines: seq<string>, f: Field)
    requires (forall l :: l in lines ==> '\n' !in l) && LoadLines(s, lines).Loaded?
    requires Clean(Get(s, f)) || exists l :: l in lines && Pair(KeyOf(f), "") <= l
    ensures Clean(Get(LoadLines(s, lines).settings, f))
    decreases |lines|
  {
    if lines != [] {
      assert lines[0] in lines;
      var t := ApplyLine(s, lines[0]).settings;
      if Clean(Get(s, f)) || Pair(KeyOf(f), "") <= lines[0] {
        LineCleans(s, lines[0], f);
      } else {
        var l :| l in lines && Pair(KeyOf(f), "") <= l;
        assert l in lines[1..];
      }
      LinesClean(t, lines[1..], f);
    }
  }

  /** Wherever an entry is written, some line starts with its key. */
  lemma PairIsFound(lines: seq<string>, key: string, value: string)
    requires Pair(key, value) in lines && '\n' !in key
    ensures exists l :: l in Split(lines) && Pair(key, "") <= l
  {
    var l := Pair(key, value);
    FirstPiece(lines, l);
    assert l + "\n" == Pair(key, "") + (value + "\n");
    FirstLineStarts(Pair(key, ""), value + "\n");
  }

  lemma {:induction false} EntryIsWritten(es: seq<Entry>, i: nat, k: nat)
    requires i <= k < |es|
    ensures Pair(es[k].key, es[k].value) in LinesFrom(es, i)
    decreases |es| - i
  {
    if i < k {
      EntryIsWritten(es, i + 1, k);
    } else {
      assert Pair(es[k].key, es[k].value) in LinesOfEntry(es[i]);
    }
  }

  function PlaceOf(f: Field): nat {
    match f
    case Password => 2
    case LogFile => 7
    case BindAddress => 0
    case AllowedIPs => 3
    case AesKeyText => 9
  }

  /** Whatever was saved, what is loaded from it has clean texts. */
  lemma LoadedIsClean(prior: Settings, notes: seq<seq<string>>, c: Settings, f: Field)
    requires |notes| == 10
    requires LoadFrom(prior, Some(TextOf(SavedLines(notes, c)))).Loaded?
    ensures Clean(Get(LoadFrom(prior, Some(TextOf(SavedLines(notes, c)))).settings, f))
  {
    var es, k, lines := Entries(notes, c), PlaceOf(f), SavedLines(notes, c);
    KeysOfFields(f);
    assert es[k].key == KeyOf(f);
    EntryIsWritten(es, 0, k);
    LinesOfText(lines);
    SplitHasNoFeeds(lines);
    PairIsFound(lines, KeyOf(f), es[k].value);
    LinesClean(prior, Split(lines), f);
  }

  /** Main result: over any settings made before, loading what was saved brings back all ten settings exactly when
      no text holds a line feed or has a blank at either end; `=`, `#` and empty texts do no harm. */
  lemma SettingsSurvive(prior: Settings, notes: seq<seq<string>>, c: Settings)
    requires GoodNotes(notes)
    ensures LoadFrom(prior, Some(TextOf(SavedLines(notes, c)))) == Loaded(c)
            <==> forall f: Field :: Clean(Get(c, f))
  {
    var outcome := LoadFrom(prior, Some(TextOf(SavedLines(notes, c))));
    if outcome == Loaded(c) {
      forall f: Field
        ensures Clean(Get(c, f))
      {
        LoadedIsClean(prior, notes, c, f);
      }
    }
    if forall f: Field :: Clean(Get(c, f)) {
      CleanIsNeat(c);
      LoadOfSaved(prior, notes, c);
    }
  }

  lemma CleanIsNeat(c: Settings)
    requires forall f: Field :: Clean(Get(c, f))
    ensures Neat(c) == c && OneLine(c)
  {
    forall f: Field
      ensures Trim(Get(c, f)) == Get(c, f) && '\n' !in Get(c, f)
    {
      TrimKeeps(Get(c, f));
    }
    assert Get(c, Password) == c.password && Get(c, LogFile) == c.logFile && Get(c, BindAddress) == c.bindAddress;
    assert Get(c, AllowedIPs) == c.allowedIPs && Get(c, AesKeyText) == c.aesKey;
  }
}
