/** When a saved settings file can be loaded at all, and what becomes of the key in it. */
module SavedKey {
  import opened Basics
  import opened Text
  import opened Wire
  import opened AesKey
  import opened ConfigFile
  import opened RconConfig

  // ---------- lines that throw ----------

  predicate NumberKey(key: string) { key == "Port" || key == "MaxFailedAttempts" || key == "Timeout" }

  /** A line that sets a number to something `stoi` cannot read. */
  ghost predicate Throws(line: string) {
    match SplitLine(line)
    case None => false
    case Some((key, value)) => NumberKey(key) && Stoi(value).None?
  }

  lemma SetThrows(s: Settings, key: string, value: string)
    ensures Set(s, key, value).Threw? <==> NumberKey(key) && Stoi(value).None?
  {
  }

  lemma ApplyThrows(s: Settings, line: string)
    ensures ApplyLine(s, line).Threw? <==> Throws(line)
  {
    if SplitLine(line).Some? {
      SetThrows(s, SplitLine(line).value.0, SplitLine(line).value.1);
    }
  }

  /** Loading throws exactly when there is such a line, whatever was set before. */
  lemma {:induction false} LoadThrows(s: Settings, lines: seq<string>)
    ensures LoadLines(s, lines).Threw? <==> exists l :: l in lines && Throws(l)
    decreases |lines|
  {
    if lines != [] {
      ApplyThrows(s, lines[0]);
      assert lines[0] in lines;
      match ApplyLine(s, lines[0])
      case Threw(_) =>
      case Loaded(t) =>
        LoadThrows(t, lines[1..]);
        assert forall l :: l in lines <==> l == lines[0] || l in lines[1..];
    }
  }

  // ---------- the lines of a saved file ----------

  /** The first line of a text, and the lines behind its first line feed. */
  function FirstLine(text: string): string { Lines(text + "\n")[0] }

  function LaterLines(text: string): seq<string> { Lines(text + "\n")[1..] }

  lemma PushInFront(c: char, p: string, first: string, later: seq<string>)
    requires c != '\n'
    ensures Push(c, [p + first] + later) == [([c] + p) + first] + later
  {
    assert ([p + first] + later)[1..] == later;
    assert [c] + (p + first) == ([c] + p) + first;
  }

  lemma FrontStep(p: string, q: string)
    requires p != ""
    ensures (p + q)[0] == p[0] && (p + q)[1..] == p[1..] + q && [p[0]] + p[1..] == p
  {
  }

  /** Text without a line feed in front goes to the first line. */
  lemma {:induction false} LinesInFront(p: string, q: string)
    requires '\n' !in p && q != ""
    ensures Lines(p + q) == [p + Lines(q)[0]] + Lines(q)[1..]
  {
    var first, later := Lines(q)[0], Lines(q)[1..];
    if p == "" {
      assert p + q == q && p + first == first;
    } else {
      FrontStep(p, q);
      assert p[0] in p;
      LinesInFront(p[1..], q);
      PushInFront(p[0], p[1..], first, later);
    }
  }

  lemma {:induction false} SplitMembers(lines: seq<string>, l: string)
    ensures l in Split(lines) <==> exists line :: line in lines && l in Lines(line + "\n")
  {
    if lines != [] {
      var n := |lines| - 1;
      SplitMembers(lines[..n], l);
      assert forall line :: line in lines <==> line in lines[..n] || line == lines[n];
    }
  }

  lemma {:induction false} EntryMembers(es: seq<Entry>, i: nat, line: string)
    requires i <= |es|
    ensures line in LinesFrom(es, i) <==> exists k :: i <= k < |es| && line in LinesOfEntry(es[k])
    decreases |es| - i
  {
    if i < |es| {
      EntryMembers(es, i + 1, line);
      assert line in LinesFrom(es, i) <==> line in LinesOfEntry(es[i]) || line in LinesFrom(es, i + 1);
      if k :| i <= k < |es| && line in LinesOfEntry(es[k]) {
        assert k == i || line in LinesFrom(es, i + 1);
      }
    }
  }

  /** What is written for this entry holds a line that throws. */
  ghost predicate EntryThrows(e: Entry) {
    exists line, l :: line in LinesOfEntry(e) && l in Lines(line + "\n") && Throws(l)
  }

  lemma SavedThrows(es: seq<Entry>)
    ensures (exists l :: l in Split(LinesFrom(es, 0)) && Throws(l)) <==>
            (exists k :: 0 <= k < |es| && EntryThrows(es[k]))
  {
    var lines := LinesFrom(es, 0);
    if l :| l in Split(lines) && Throws(l) {
      SplitMembers(lines, l);
      var line :| line in lines && l in Lines(line + "\n");
      EntryMembers(es, 0, line);
      var k :| 0 <= k < |es| && line in LinesOfEntry(es[k]);
      assert EntryThrows(es[k]);
    }
    if k :| 0 <= k < |es| && EntryThrows(es[k]) {
      var line, l :| line in LinesOfEntry(es[k]) && l in Lines(line + "\n") && Throws(l);
      EntryMembers(es, 0, line);
      SplitMembers(lines, l);
    }
  }

  ghost predicate AnyThrows(lines: seq<string>) { exists l :: l in lines && Throws(l) }

  lemma NoteIsHarmless(note: string)
    requires Skipped(note)
    ensures !AnyThrows(Lines(note + "\n"))
  {
    LinesOfOne(note);
    SkippedHasNoPair(note);
  }

  lemma PairLines(key: string, value: string)
    requires GoodKey(key)
    ensures Lines(Pair(key, value) + "\n") == [Pair(key, FirstLine(value))] + LaterLines(value)
  {
    assert Pair(key, value) + "\n" == (key + "=") + (value + "\n");
    LinesInFront(key + "=", value + "\n");
  }

  lemma FirstOrLater(first: string, later: seq<string>)
    ensures AnyThrows([first] + later) <==> Throws(first) || AnyThrows(later)
  {
    assert forall l :: l in [first] + later <==> l == first || l in later;
  }

  lemma PairThrows(key: string, value: string)
    requires GoodKey(key)
    ensures AnyThrows(Lines(Pair(key, value) + "\n")) <==>
            (NumberKey(key) && Stoi(Trim(FirstLine(value))).None?) || AnyThrows(LaterLines(value))
  {
    PairLines(key, value);
    PairSplits(key, FirstLine(value));
    FirstOrLater(Pair(key, FirstLine(value)), LaterLines(value));
  }

  lemma EntryThrowsWhen(e: Entry)
    requires GoodEntry(e)
    ensures EntryThrows(e) <==>
            (NumberKey(e.key) && Stoi(Trim(FirstLine(e.value))).None?) || AnyThrows(LaterLines(e.value))
  {
    var pair := Pair(e.key, e.value);
    PairThrows(e.key, e.value);
    forall note | note in e.notes
      ensures !AnyThrows(Lines(note + "\n"))
    {
      NoteIsHarmless(note);
    }
    assert pair in LinesOfEntry(e);
    assert forall line :: line in LinesOfEntry(e) ==> line in e.notes || line == pair;
    if AnyThrows(Lines(pair + "\n")) {
      var l :| l in Lines(pair + "\n") && Throws(l);
    }
    if EntryThrows(e) {
      var line, l :| line in LinesOfEntry(e) && l in Lines(line + "\n") && Throws(l);
      assert AnyThrows(Lines(line + "\n"));
    }
  }

  /** An entry on one line throws only when it is a number that cannot be read. */
  lemma OneLineEntry(e: Entry)
    requires GoodEntry(e) && '\n' !in e.value && (NumberKey(e.key) ==> Stoi(Trim(e.value)).Some?)
    ensures !EntryThrows(e)
  {
    LinesOfOne(e.value);
    EntryThrowsWhen(e);
  }

  // ---------- when loading throws ----------

  /** Behind a line feed some text goes on with a line that throws. */
  ghost predicate HidesBadNumber(c: Settings) {
    exists f: Field :: AnyThrows(LaterLines(Get(c, f)))
  }

  lemma TextEntryThrows(notes: seq<seq<string>>, c: Settings, f: Field)
    requires GoodNotes(notes)
    ensures EntryThrows(Entries(notes, c)[PlaceOf(f)]) <==> AnyThrows(LaterLines(Get(c, f)))
  {
    EntriesAreGood(notes, c);
    var e := Entries(notes, c)[PlaceOf(f)];
    assert e.key == KeyOf(f) && e.value == Get(c, f);
    EntryThrowsWhen(e);
  }

  lemma NumberEntries(notes: seq<seq<string>>, c: Settings)
    requires GoodNotes(notes)
    ensures var es := Entries(notes, c); !EntryThrows(es[1]) && !EntryThrows(es[4]) && !EntryThrows(es[5])
  {
    EntriesAreGood(notes, c);
    NumberSurvives(c.port);
    NumberSurvives(c.maxFailedAttempts);
    NumberSurvives(c.timeout);
    OneLineEntry(Entries(notes, c)[1]);
    OneLineEntry(Entries(notes, c)[4]);
    OneLineEntry(Entries(notes, c)[5]);
  }

  lemma TruthEntries(notes: seq<seq<string>>, c: Settings)
    requires GoodNotes(notes)
    ensures var es := Entries(notes, c); !EntryThrows(es[6]) && !EntryThrows(es[8])
  {
    EntriesAreGood(notes, c);
    TruthSurvives(c.enableLogging);
    TruthSurvives(c.secureRconEnabled);
    OneLineEntry(Entries(notes, c)[6]);
    OneLineEntry(Entries(notes, c)[8]);
  }

  lemma EntriesThrow(notes: seq<seq<string>>, c: Settings)
    requires GoodNotes(notes)
    ensures (exists k :: 0 <= k < 10 && EntryThrows(Entries(notes, c)[k])) <==> HidesBadNumber(c)
  {
    var es := Entries(notes, c);
    if k :| 0 <= k < 10 && EntryThrows(es[k]) {
      NumberEntries(notes, c);
      TruthEntries(notes, c);
      if k in {0, 2, 3, 7, 9} {
        var f := if k == 0 then BindAddress else if k == 2 then Password else if k == 3 then AllowedIPs
                 else if k == 7 then LogFile else AesKeyText;
        TextEntryThrows(notes, c, f);
      }
    }
    if f :| AnyThrows(LaterLines(Get(c, f))) {
      TextEntryThrows(notes, c, f);
    }
  }

  /** Main result: whatever was set before, loading what was saved throws exactly when, behind a line feed, some text
      goes on with a line that sets a number to something unreadable. */
  lemma LoadOfSavedThrows(prior: Settings, notes: seq<seq<string>>, c: Settings)
    requires GoodNotes(notes)
    ensures LoadFrom(prior, Some(TextOf(SavedLines(notes, c)))).Threw? <==> HidesBadNumber(c)
  {
    LinesOfText(SavedLines(notes, c));
    LoadThrows(prior, Split(SavedLines(notes, c)));
    SavedThrows(Entries(notes, c));
    EntriesThrow(notes, c);
  }

  // ---------- the key ----------

  /** The key is what the file ends with. */
  lemma {:induction false} LastLine(es: seq<Entry>, i: nat) returns (front: seq<string>)
    requires i < |es|
    ensures LinesFrom(es, i) == front + [Pair(es[|es| - 1].key, es[|es| - 1].value)]
    decreases |es| - i
  {
    if i == |es| - 1 {
      front := es[i].notes;
    } else {
      front := LastLine(es, i + 1);
      front := LinesOfEntry(es[i]) + front;
    }
  }

  lemma LoadLast(s: Settings, lines: seq<string>, front: seq<string>, key: string)
    requires lines == front + [Pair("AESKey", key)] && '\n' !in key
    ensures match LoadLines(s, Split(lines)) case Threw(_) => true case Loaded(t) => t.aesKey == Trim(key)
  {
    var last := Pair("AESKey", key);
    LastKeysAreGood();
    assert lines[..|lines| - 1] == front;
    LinesOfOne(last);
    LoadConcat(s, Split(front), [last]);
    match LoadLines(s, Split(front))
    case Threw(_) =>
    case Loaded(t) =>
      PairSplits("AESKey", key);
      assert [last][1..] == [];
      assert LoadLines(t, [last]) == ApplyLine(t, last);
      SetTexts(t, Trim(key));
  }

  lemma HexIsClean(random: Bytes)
    ensures Clean(HexOf(random))
  {
  }

  predicate KeyIs(t: Settings, random: Bytes) { |t.aesKey| == 64 && BytesOfHex(t.aesKey) == random }

  /** Main result: 32 random bytes printed as the key, saved, loaded and decoded are the same 32 bytes again, and
      the text has the 64 characters the cipher asks for, exactly when no text hides a line that throws. */
  lemma KeySurvivesTheTrip(prior: Settings, notes: seq<seq<string>>, c: Settings, random: Bytes)
    requires GoodNotes(notes) && |random| == 32 && c.aesKey == HexOf(random)
    ensures var o := LoadFrom(prior, Some(TextOf(SavedLines(notes, c))));
            o.Loaded? && KeyIs(o.settings, random) <==> !HidesBadNumber(c)
  {
    KeyBytesSurvive(random);
    HexIsClean(random);
    TrimKeeps(c.aesKey);
    var front := LastLine(Entries(notes, c), 0);
    LinesOfText(SavedLines(notes, c));
    LoadLast(prior, SavedLines(notes, c), front, c.aesKey);
    LoadOfSavedThrows(prior, notes, c);
  }

  /** In particular it survives when no text holds a line feed. */
  lemma GeneratedKeySurvives(prior: Settings, c: Settings, random: Bytes)
    requires |random| == 32 && c.aesKey == HexOf(random) && OneLine(c)
    ensures var o := LoadFrom(prior, Some(SavedText(c)));
            o.Loaded? && KeyIs(o.settings, random)
  {
    NotesAreGood();
    LoadOfSaved(prior, Notes(), c);
    KeyBytesSurvive(random);
    HexIsClean(random);
    TrimKeeps(c.aesKey);
  }

  lemma BadPortThrows()
    ensures Throws("Port=y")
  {
    KeysAreGood();
    PairSplits("Port", "y");
    assert "Port=y" == Pair("Port", "y");
    TrimKeeps("y");
    assert LeadingDigits("y") == "";
  }

  lemma HiddenLine(c: Settings, first: string, bad: string)
    requires c.password == first + "\n" + bad && '\n' !in first && '\n' !in bad && Throws(bad)
    ensures HidesBadNumber(c)
  {
    assert c.password + "\n" == first + "\n" + (bad + "\n");
    LinesSplit(first, bad + "\n");
    LinesOfOne(first);
    LinesOfOne(bad);
    assert LaterLines(c.password) == [bad];
    assert AnyThrows(LaterLines(Get(c, Password)));
  }

  lemma BadPassword()
    ensures "x\nPort=y" == "x" + "\n" + "Port=y" && '\n' !in "x" && '\n' !in "Port=y"
  {
  }

  lemma BadPasswordHides(c: Settings)
    requires c.password == "x\nPort=y"
    ensures HidesBadNumber(c)
  {
    BadPassword();
    BadPortThrows();
    HiddenLine(c, "x", "Port=y");
  }

  /** A password with a line feed can hide such a line, and then the key is lost. */
  lemma PasswordCanLoseKey(prior: Settings, notes: seq<seq<string>>, c: Settings)
    requires GoodNotes(notes) && c.password == "x\nPort=y"
    ensures LoadFrom(prior, Some(TextOf(SavedLines(notes, c)))).Threw?
  {
    BadPasswordHides(c);
    LoadOfSavedThrows(prior, notes, c);
  }
}
