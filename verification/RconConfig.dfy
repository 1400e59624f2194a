/** The configuration object: ten fields, loaded line by line and saved as a commented file. */
module RconConfig {
  import opened Basics
  import opened Text
  import opened Wire
  import opened AesKey
  import opened ConfigFile

  // ---------- the fixed lines of the file ----------

  function Title(): string { "# Windrose RCON Configuration" }

  function Hint(): string { "# Generated automatically - edit as needed" }

  function AboutTimeout(): string { "# Idle/auth timeout in seconds" }

  // Longer literals are in pieces: the verifier looks at their characters one by one and gives up on long ones.

  function AboutBinding(): string { "# Bind to 127.0.0.1 to " + "restrict to localhost only " + "(recommended)" }

  function AboutAddresses(): string { "# Comma separated IP " + "whitelist. Empty = allow all" }

  function AboutAttempts(): string { "# Max failed auth attempts " + "before IP is blocked" }

  function AboutEncryption(): string { "# Enable AES-256-GCM " + "encryption. Needs custom client!" }

  function AboutKey(): string { "# Auto-generated 256-bit " + "encryption key. " + "Keep this secret!" }

  function Notes(): (notes: seq<seq<string>>)
    ensures |notes| == 10
  {
    [[Title(), Hint(), "", "[RCON]", AboutBinding()], [], [], [AboutAddresses()], [AboutAttempts()], [AboutTimeout()],
     [], [], ["", "[SecureRCON]", AboutEncryption()], [AboutKey()]]
  }

  lemma TitleIsSkipped()
    ensures Skipped(Title())
  {
  }

  lemma HintIsSkipped()
    ensures Skipped(Hint())
  {
  }

  lemma AboutTimeoutIsSkipped()
    ensures Skipped(AboutTimeout())
  {
  }

  lemma AboutBindingIsSkipped()
    ensures Skipped(AboutBinding())
  {
  }

  lemma AboutAddressesIsSkipped()
    ensures Skipped(AboutAddresses())
  {
  }

  lemma AboutAttemptsIsSkipped()
    ensures Skipped(AboutAttempts())
  {
  }

  lemma AboutEncryptionIsSkipped()
    ensures Skipped(AboutEncryption())
  {
  }

  lemma AboutKeyIsSkipped()
    ensures Skipped(AboutKey())
  {
  }

  lemma SectionsAreSkipped()
    ensures Skipped("") && Skipped("[RCON]") && Skipped("[SecureRCON]")
  {
  }

  lemma NotesAreGood()
    ensures GoodNotes(Notes())
  {
    TitleIsSkipped();
    HintIsSkipped();
    AboutBindingIsSkipped();
    AboutAddressesIsSkipped();
    AboutAttemptsIsSkipped();
    AboutTimeoutIsSkipped();
    AboutEncryptionIsSkipped();
    AboutKeyIsSkipped();
    SectionsAreSkipped();
  }

  /** The text of the settings file. */
  function SavedText(c: Settings): string { TextOf(SavedLines(Notes(), c)) }

  /** Main result for the file as it is written. */
  lemma SavedSettingsSurvive(prior: Settings, c: Settings)
    ensures LoadFrom(prior, Some(SavedText(c))) == Loaded(c) <==> forall f: Field :: Clean(Get(c, f))
  {
    NotesAreGood();
    SettingsSurvive(prior, Notes(), c);
  }

  // ---------- reading line by line ----------

  /** The part of the text from `pos` on: its first line ends at the next line feed or at the end. */
  lemma NextLine(text: string, pos: nat)
    requires pos < |text|
    ensures var feed := FindFrom(text, "\n", pos);
            if feed.None? then Lines(text[pos..]) == [text[pos..]]
            else Lines(text[pos..]) == [text[pos..feed.value]] + Lines(text[feed.value + 1..])
  {
    var s := text[pos..];
    FindFromSuffix(text, "\n", pos);
    FindIsLeftmost(s, "\n");
    var feed := FindFrom(text, "\n", pos);
    if feed.None? {
      NoFeedAtAll(s);
      LinesOfLast(s);
    } else {
      var n := feed.value - pos;
      FindSingleBefore(s, '\n');
      assert s[..n] == text[pos..feed.value];
      assert s == s[..n] + "\n" + text[feed.value + 1..];
      LinesSplit(s[..n], text[feed.value + 1..]);
      LinesOfOne(s[..n]);
    }
  }

  lemma NoFeedAtAll(s: string)
    requires forall k: nat :: !OccursAt(s, "\n", k)
    ensures '\n' !in s
  {
    forall i: nat | i < |s|
      ensures s[i] != '\n'
    {
      assert !OccursAt(s, "\n", i);
      assert s[i..i + 1] == [s[i]];
    }
  }

  lemma LoadNext(s: Settings, line: string, rest: seq<string>)
    ensures var o := ApplyLine(s, line);
            LoadLines(s, [line] + rest) == if o.Loaded? then LoadLines(o.settings, rest) else o
  {
  }

  /** Where the line that starts at `pos` ends. */
  ghost function LineEnd(text: string, pos: nat): (end: nat)
    requires pos < |text|
    ensures pos <= end <= |text|
  {
    var feed := FindFrom(text, "\n", pos);
    if feed.None? then |text| else feed.value
  }

  function Behind(text: string, end: nat): nat { if end < |text| then end + 1 else end }

  /** Loading goes on behind the line, unless the line throws. */
  lemma LoadLineAt(s: Settings, text: string, pos: nat)
    requires pos < |text|
    ensures var end := LineEnd(text, pos);
            var o := ApplyLine(s, text[pos..end]);
            LoadLines(s, Lines(text[pos..])) ==
            if o.Loaded? then LoadLines(o.settings, Lines(text[Behind(text, end)..])) else o
  {
    var end := LineEnd(text, pos);
    var rest := Lines(text[Behind(text, end)..]);
    NextLine(text, pos);
    assert text[pos..|text|] == text[pos..];
    assert [text[pos..]] + [] == [text[pos..]];
    assert Lines(text[pos..]) == [text[pos..end]] + rest;
    LoadNext(s, text[pos..end], rest);
  }

  // ---------- the file being written ----------

  lemma {:induction false} OneMoreEntry(es: seq<Entry>, e: Entry, i: nat)
    requires i <= |es|
    ensures LinesFrom(es + [e], i) == LinesFrom(es, i) + LinesOfEntry(e)
    decreases |es| - i
  {
    if i == |es| {
      assert LinesFrom(es + [e], i + 1) == [];
    } else {
      OneMoreEntry(es, e, i + 1);
    }
  }

  lemma OneMoreLine(lines: seq<string>, line: string)
    ensures TextOf(lines + [line]) == TextOf(lines) + (line + "\n")
  {
  }

  class OutFile {
    var text: string
    ghost var entries: seq<Entry>

    ghost predicate Valid()
      reads this
    {
      text == TextOf(LinesFrom(entries, 0))
    }

    constructor ()
      ensures Valid() && entries == []
    {
      text, entries := "", [];
    }

    /** Notes, then a setting. */
    method Put(notes: seq<string>, key: string, value: string)
      requires Valid()
      modifies this
      ensures Valid() && entries == old(entries) + [Entry(notes, key, value)]
    {
      ghost var before := LinesFrom(entries, 0);
      assert before + notes[..0] == before;
      for i := 0 to |notes|
        invariant text == TextOf(before + notes[..i]) && entries == old(entries)
      {
        OneMoreLine(before + notes[..i], notes[i]);
        assert before + notes[..i + 1] == (before + notes[..i]) + [notes[i]];
        text := text + (notes[i] + "\n");
      }
      OneMoreLine(before + notes, Pair(key, value));
      OneMoreEntry(entries, Entry(notes, key, value), 0);
      assert before + notes[..|notes|] == before + notes;
      assert (before + notes) + [Pair(key, value)] == before + (notes + [Pair(key, value)]);
      text := text + (key + "=" + value + "\n");
      entries := entries + [Entry(notes, key, value)];
    }
  }

  // ---------- the configuration ----------

  const DEFAULTS := Settings(27065, "windrose_admin", true, "windrosercon\\rcon.log", "0.0.0.0", "", 5, 60, false, "")

  class RCONConfig {
    var port: Int32
    var password: string
    var enableLogging: bool
    var logFile: string
    var bindAddress: string
    var allowedIPs: string
    var maxFailedAttempts: Int32
    var timeout: Int32
    var secureRconEnabled: bool
    var aesKey: string

    ghost function Current(): Settings
      reads this
    {
      Settings(port, password, enableLogging, logFile, bindAddress, allowedIPs, maxFailedAttempts, timeout,
               secureRconEnabled, aesKey)
    }

    constructor ()
      ensures Current() == DEFAULTS
    {
      port, password, enableLogging, logFile := 27065, "windrose_admin", true, "windrosercon\\rcon.log";
      bindAddress, allowedIPs, maxFailedAttempts, timeout := "0.0.0.0", "", 5, 60;
      secureRconEnabled, aesKey := false, "";
    }

    /** Reads the file line by line; a number that cannot be read ends it with an exception. */
    method Load(file: Option<string>) returns (ok: bool)
      modifies this
      ensures var o := LoadFrom(old(Current()), file);
              ok == o.Loaded? && Current() == o.settings
    {
      if file == None {
        return true;
      }
      var text, pos := file.value, 0;
      assert text[0..] == text;
      while pos < |text|
        invariant pos <= |text|
        invariant LoadLines(old(Current()), Lines(text)) == LoadLines(Current(), Lines(text[pos..]))
      {
        LoadLineAt(Current(), text, pos);
        var feed := FindIn(text, "\n", pos);
        var end := if feed.None? then |text| else feed.value;
        ok := ReadLine(text[pos..end]);
        if !ok {
          return false;
        }
        pos := Behind(text, end);
      }
      assert text[pos..] == "";
      return true;
    }

    /** One line of the file. */
    method ReadLine(line: string) returns (ok: bool)
      modifies this
      ensures var o := ApplyLine(old(Current()), line);
              ok == o.Loaded? && Current() == o.settings
    {
      if line == "" || line[0] == '#' || line[0] == ';' {
        return true;
      }
      var pos := FindIn(line, "=", 0);
      if pos == None {
        return true;
      }
      ok := Assign(Trim(line[..pos.value]), Trim(line[pos.value + 1..]));
    }

    method Assign(key: string, value: string) returns (ok: bool)
      modifies this
      ensures var o := Set(old(Current()), key, value);
              ok == o.Loaded? && Current() == o.settings
    {
      ok := true;
      var number := Stoi(value);
      if key == "Port" {
        if number == None {
          return false;
        }
        port := number.value;
      } else if key == "Password" {
        password := value;
      } else if key == "EnableLogging" {
        enableLogging := value == "true" || value == "1";
      } else if key == "LogFile" {
        logFile := value;
      } else if key == "BindAddress" {
        bindAddress := value;
      } else if key == "AllowedIPs" {
        allowedIPs := value;
      } else if key == "MaxFailedAttempts" {
        if number == None {
          return false;
        }
        maxFailedAttempts := number.value;
      } else if key == "Timeout" {
        if number == None {
          return false;
        }
        timeout := number.value;
      } else if key == "Enabled" {
        secureRconEnabled := value == "true" || value == "1";
      } else if key == "AESKey" {
        aesKey := value;
      }
    }

    /** Writes the settings, each behind its notes. */
    method WriteTo(out: OutFile, notes: seq<seq<string>>)
      requires out.Valid() && out.entries == [] && |notes| == 10
      modifies out
      ensures out.Valid() && out.entries == Entries(notes, Current())
    {
      out.Put(notes[0], "BindAddress", bindAddress);
      out.Put(notes[1], "Port", ToDecimal(port));
      out.Put(notes[2], "Password", password);
      out.Put(notes[3], "AllowedIPs", allowedIPs);
      out.Put(notes[4], "MaxFailedAttempts", ToDecimal(maxFailedAttempts));
      out.Put(notes[5], "Timeout", ToDecimal(timeout));
      out.Put(notes[6], "EnableLogging", BoolText(enableLogging));
      out.Put(notes[7], "LogFile", logFile);
      out.Put(notes[8], "Enabled", BoolText(secureRconEnabled));
      out.Put(notes[9], "AESKey", aesKey);
    }

    /** Writes the file; without a key one is made from random bytes first, if there are any. */
    method Save(random: Option<Bytes>) returns (file: string)
      requires random.Some? ==> |random.value| == 32
      modifies this
      ensures file == SavedText(Current())
      ensures Current() == old(Current()).(aesKey := if old(aesKey) == "" && random.Some? then HexOf(random.value)
                                                     else old(aesKey))
    {
      if aesKey == "" {
        aesKey := GenerateAESKey(random);
      }
      var out := new OutFile();
      WriteTo(out, Notes());
      file := out.text;
    }
  }
}
