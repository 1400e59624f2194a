/** Who may connect: the address whitelist and the counters of failed logins. */
module Access {
  import opened Text

  // ---------- the whitelist ----------

  /** The pieces of a text between commas; there is always one more than there are commas. */
  function SplitCommas(list: string): (parts: seq<string>)
    ensures parts != []
  {
    if list == "" then [""]
    else
      var parts := SplitCommas(list[1..]);
      if list[0] == ',' then [""] + parts else [[list[0]] + parts[0]] + parts[1..]
  }

  /** The address is one of the entries between the commas, blanks around it aside. */
  predicate EntryIn(list: string, ip: string) {
    ip != "" && exists entry :: entry in SplitCommas(list) && Trim(entry) == ip
  }

  /** An empty list lets everybody in; otherwise the address has to be an entry. */
  predicate AddressAllowed(list: string, ip: string) {
    list == "" || EntryIn(list, ip)
  }

  /** Pieces put together again give the text, and no piece holds a comma. */
  function JoinCommas(parts: seq<string>): string {
    if parts == [] then ""
    else if |parts| == 1 then parts[0]
    else parts[0] + "," + JoinCommas(parts[1..])
  }

  lemma {:induction false} SplitJoins(list: string)
    ensures JoinCommas(SplitCommas(list)) == list
    ensures forall i | 0 <= i < |SplitCommas(list)| :: ',' !in SplitCommas(list)[i]
  {
    if list != "" {
      var rest := SplitCommas(list[1..]);
      SplitJoins(list[1..]);
      if list[0] == ',' {
        assert ([""] + rest)[1..] == rest;
        assert JoinCommas([""] + rest) == "" + "," + list[1..];
      } else {
        var first := [list[0]] + rest[0];
        assert ([first] + rest[1..])[1..] == rest[1..];
        if |rest| > 1 {
          assert first + "," + JoinCommas(rest[1..]) == [list[0]] + (rest[0] + "," + JoinCommas(rest[1..]));
        }
      }
    }
  }

  /** A piece without commas in front of a comma, or at the end, is the first piece. */
  lemma {:induction false} SplitFirst(piece: string, rest: string)
    requires ',' !in piece
    ensures SplitCommas(piece) == [piece]
    ensures SplitCommas(piece + "," + rest) == [piece] + SplitCommas(rest)
  {
    var s := piece + "," + rest;
    if piece == "" {
      assert s[1..] == rest;
    } else {
      SplitFirst(piece[1..], rest);
      assert s[1..] == piece[1..] + "," + rest;
      assert [piece[0]] + piece[1..] == piece;
      assert s[0] == piece[0];
    }
  }

  /** The part of the list from `start` on: its first entry ends at the next comma or at the end. */
  lemma SplitFrom(list: string, start: nat)
    requires start <= |list|
    ensures var comma := FindFrom(list, ",", start);
            if comma.None? then SplitCommas(list[start..]) == [list[start..]]
            else SplitCommas(list[start..]) == [list[start..comma.value]] + SplitCommas(list[comma.value + 1..])
  {
    var s := list[start..];
    FindFromSuffix(list, ",", start);
    FindIsLeftmost(s, ",");
    var comma := FindFrom(list, ",", start);
    if comma.None? {
      forall i: nat | i < |s|
        ensures s[i] != ','
      {
        assert !OccursAt(s, ",", i);
        assert s[i..i + 1] == [s[i]];
      }
      SplitFirst(s, "");
    } else {
      var n := comma.value - start;
      FindSingleBefore(s, ',');
      assert s[..n] == list[start..comma.value];
      assert s == s[..n] + "," + list[comma.value + 1..];
      SplitFirst(s[..n], list[comma.value + 1..]);
    }
  }

  method TrimEntry(s: string) returns (entry: string)
    ensures entry == Trim(s)
  {
    entry := s;
    while entry != "" && (entry[0] == ' ' || entry[0] == '\t')
      invariant StripLeft(entry) == StripLeft(s)
      decreases |entry|
    {
      entry := entry[1..];
    }
    while entry != "" && (entry[|entry| - 1] == ' ' || entry[|entry| - 1] == '\t')
      invariant StripRight(entry) == Trim(s)
      decreases |entry|
    {
      entry := entry[..|entry| - 1];
    }
  }

  lemma EntryInStep(first: string, list: string, rest: string, ip: string)
    requires SplitCommas(list) == [first] + SplitCommas(rest)
    ensures EntryIn(list, ip) <==> (ip != "" && Trim(first) == ip) || EntryIn(rest, ip)
  {
  }

  lemma EntryInNothing(ip: string)
    ensures !EntryIn("", ip)
  {
  }

  /** The whitelist loop decides exactly whether the address is allowed. */
  method IsIPAllowed(list: string, ip: string) returns (allowed: bool)
    ensures allowed <==> AddressAllowed(list, ip)
  {
    if list == "" {
      return true;
    }
    var start := 0;
    assert list[0..] == list;
    while start < |list|
      invariant start <= |list| + 1
      invariant EntryIn(list, ip) <==> start <= |list| && EntryIn(list[start..], ip)
      decreases |list| + 1 - start
    {
      SplitFrom(list, start);
      var comma := FindIn(list, ",", start);
      var end := if comma.None? then |list| else comma.value;
      var entry := TrimEntry(list[start..end]);
      assert list[start..|list|] == list[start..];
      if comma.Some? {
        EntryInStep(list[start..end], list[start..], list[end + 1..], ip);
      }
      if entry != "" && entry == ip {
        return true;
      }
      start := end + 1;
    }
    if start == |list| {
      assert list[start..] == "";
      EntryInNothing(ip);
    }
    return false;
  }

  // ---------- lists as they are written ----------

  /** Pieces without commas put together are the pieces of the list. */
  lemma {:induction false} JoinSplits(parts: seq<string>)
    requires parts != [] && forall i | 0 <= i < |parts| :: ',' !in parts[i]
    ensures SplitCommas(JoinCommas(parts)) == parts
  {
    SplitFirst(parts[0], JoinCommas(parts[1..]));
    if |parts| > 1 {
      JoinSplits(parts[1..]);
      assert [parts[0]] + parts[1..] == parts;
    }
  }

  /** An address with blanks around it. */
  datatype Listing = Listing(before: string, address: string, behind: string)

  function Written(l: Listing): string { l.before + l.address + l.behind }

  function WrittenAll(ls: seq<Listing>): (parts: seq<string>)
    ensures |parts| == |ls| && forall i | 0 <= i < |ls| :: parts[i] == Written(ls[i])
  {
    if ls == [] then [] else [Written(ls[0])] + WrittenAll(ls[1..])
  }

  predicate GoodListing(l: Listing) {
    AllBlank(l.before) && AllBlank(l.behind) && Trimmed(l.address) && ',' !in l.address
  }

  lemma WrittenIsTrimmed(l: Listing)
    requires GoodListing(l)
    ensures Trim(Written(l)) == l.address && ',' !in Written(l)
  {
    TrimOf(l.before, l.address, l.behind);
    assert forall c :: c in Written(l) ==> c in l.before || c in l.address || c in l.behind;
  }

  /** Main result: a list of addresses between commas, with any blanks around them, admits exactly these addresses;
      empty places admit nobody. */
  lemma ListedAreAllowed(ls: seq<Listing>, ip: string)
    requires ls != [] && forall l :: l in ls ==> GoodListing(l)
    ensures var list := JoinCommas(WrittenAll(ls));
            list != "" ==> (AddressAllowed(list, ip) <==> ip != "" && exists l :: l in ls && l.address == ip)
  {
    var parts := WrittenAll(ls);
    forall i | 0 <= i < |ls|
      ensures Trim(parts[i]) == ls[i].address && ',' !in parts[i]
    {
      assert ls[i] in ls;
      WrittenIsTrimmed(ls[i]);
    }
    JoinSplits(parts);
    if entry :| entry in parts && Trim(entry) == ip {
      var i :| 0 <= i < |parts| && parts[i] == entry;
      assert ls[i] in ls;
    }
    if l :| l in ls && l.address == ip {
      var i :| 0 <= i < |ls| && ls[i] == l;
      assert parts[i] in parts;
    }
  }

  lemma PieceIsWritten(p: string) returns (l: Listing)
    requires ',' !in p
    ensures GoodListing(l) && Written(l) == p
  {
    var i, j := BlanksAround(p);
    l := Listing(p[..i], p[i..j], p[j..]);
    assert forall c :: c in p[i..j] ==> c in p;
  }

  /** Every list can be read that way. */
  lemma ListIsWritten(list: string) returns (ls: seq<Listing>)
    ensures ls != [] && (forall l :: l in ls ==> GoodListing(l)) && JoinCommas(WrittenAll(ls)) == list
  {
    SplitJoins(list);
    var parts := SplitCommas(list);
    ls := [];
    for i := 0 to |parts|
      invariant |ls| == i && (forall l :: l in ls ==> GoodListing(l))
      invariant forall k | 0 <= k < i :: Written(ls[k]) == parts[k]
    {
      var l := PieceIsWritten(parts[i]);
      ls := ls + [l];
    }
    assert WrittenAll(ls) == parts;
  }

  lemma EmptyListAdmitsAll(ip: string)
    ensures AddressAllowed("", ip)
  {
  }

  // ---------- failed logins ----------

  /** How many failures are on record for an address. */
  function Failures(failed: map<string, nat>, ip: string): nat {
    if ip in failed then failed[ip] else 0
  }

  predicate Blocked(failed: map<string, nat>, maxFailed: int, ip: string) {
    maxFailed > 0 && ip in failed && failed[ip] >= maxFailed
  }

  /** Without a limit the block check refuses nobody. */
  lemma NoLimitNoBlock(failed: map<string, nat>, maxFailed: int, ip: string)
    requires maxFailed <= 0
    ensures !Blocked(failed, maxFailed, ip)
  {
  }

  function Recorded(failed: map<string, nat>, ip: string): map<string, nat> {
    failed[ip := Failures(failed, ip) + 1]
  }

  function Forgiven(failed: map<string, nat>, ip: string): map<string, nat> {
    failed - {ip}
  }
}
