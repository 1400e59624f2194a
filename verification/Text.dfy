/** String searching, trimming and decimal conversion, as the C++ standard library defines them.
    Text is modelled as `string` with one `char` for each byte. */
module Text {
  import opened Basics

  /** A search result found in a suffix, seen from `ahead` characters earlier. */
  function Shift(ahead: nat, r: Option<nat>): Option<nat> {
    match r
    case None => None
    case Some(k) => Some(ahead + k)
  }

  // ---------- searching ----------

  predicate OccursAt(s: string, pat: string, k: nat) {
    k + |pat| <= |s| && s[k..k + |pat|] == pat
  }

  /** Position `r` is where `pat` first occurs at or behind `from`, `None` when it does not. */
  ghost predicate Leftmost(s: string, pat: string, from: nat, r: Option<nat>) {
    match r
    case None => forall k: nat | from <= k :: !OccursAt(s, pat, k)
    case Some(i) => from <= i && OccursAt(s, pat, i) && forall k: nat | from <= k < i :: !OccursAt(s, pat, k)
  }

  lemma {:induction false} LeftmostExists(s: string, pat: string, from: nat)
    requires from <= |s|
    ensures exists r :: Leftmost(s, pat, from, r)
    decreases |s| - from
  {
    if OccursAt(s, pat, from) {
      assert Leftmost(s, pat, from, Some(from));
    } else if from == |s| {
      assert Leftmost(s, pat, from, None);
    } else {
      LeftmostExists(s, pat, from + 1);
      var r :| Leftmost(s, pat, from + 1, r);
      assert Leftmost(s, pat, from, r);
    }
  }

  /** The result of `s.find(pat, from)`, with `None` for `npos`. */
  ghost function FindFrom(s: string, pat: string, from: nat): (r: Option<nat>)
    requires from <= |s|
    ensures r.Some? ==> from <= r.value && r.value + |pat| <= |s|
  {
    LeftmostExists(s, pat, from);
    var r :| Leftmost(s, pat, from, r);
    r
  }

  /** The result of `s.find(pat)`. */
  ghost function Find(s: string, pat: string): (r: Option<nat>)
    ensures r.Some? ==> r.value + |pat| <= |s|
  {
    FindFrom(s, pat, 0)
  }

  /** The library's search, position by position. */
  method FindIn(s: string, pat: string, from: nat) returns (r: Option<nat>)
    requires from <= |s|
    ensures r == FindFrom(s, pat, from)
    ensures r.Some? ==> from <= r.value && r.value + |pat| <= |s|
  {
    FindFromIsLeftmost(s, pat, from);
    var k := from;
    while k + |pat| <= |s|
      invariant from <= k
      invariant forall j: nat | from <= j < k :: !OccursAt(s, pat, j)
    {
      if s[k..k + |pat|] == pat {
        FindIsAt(s, pat, from, k);
        return Some(k);
      }
      k := k + 1;
    }
    return None;
  }

  /** First position holding one of the characters of `stops`: `s.find_first_of(stops)`. */
  function FindAny(s: string, stops: string): (r: Option<nat>)
    ensures r.Some? ==> r.value < |s|
  {
    if s == "" then None
    else if s[0] in stops then Some(0)
    else Shift(1, FindAny(s[1..], stops))
  }

  /** `pat` is a substring of `s`. */
  ghost predicate Contains(s: string, pat: string) {
    exists k: nat :: OccursAt(s, pat, k)
  }

  lemma OccursAgrees(s: string, pat: string, k: nat, i: nat)
    requires i < |pat|
    ensures OccursAt(s, pat, k) ==> k + i < |s| && s[k + i] == pat[i]
  {
  }

  lemma FindFromIsLeftmost(s: string, pat: string, from: nat)
    requires from <= |s|
    ensures Leftmost(s, pat, from, FindFrom(s, pat, from))
  {
  }

  /** The search returns the leftmost occurrence, and fails only when there is none. */
  lemma FindIsLeftmost(s: string, pat: string)
    ensures Leftmost(s, pat, 0, Find(s, pat))
    ensures Find(s, pat).Some? <==> Contains(s, pat)
  {
  }

  lemma FindIsAt(s: string, pat: string, from: nat, k: nat)
    requires from <= k && OccursAt(s, pat, k)
    requires forall j: nat | from <= j < k :: !OccursAt(s, pat, j)
    ensures FindFrom(s, pat, from) == Some(k)
  {
  }

  lemma OccursInSuffix(s: string, pat: string, from: nat, k: nat)
    requires from <= |s|
    ensures OccursAt(s, pat, from + k) <==> OccursAt(s[from..], pat, k)
  {
  }

  /** Searching from a position is searching the suffix that starts there. */
  lemma FindFromSuffix(s: string, pat: string, from: nat)
    requires from <= |s|
    ensures FindFrom(s, pat, from) == Shift(from, Find(s[from..], pat))
  {
    var r, q := FindFrom(s, pat, from), Find(s[from..], pat);
    FindFromIsLeftmost(s, pat, from);
    FindFromIsLeftmost(s[from..], pat, 0);
    if r.Some? {
      OccursInSuffix(s, pat, from, r.value - from);
    }
    if q.Some? {
      OccursInSuffix(s, pat, from, q.value);
    }
  }

  lemma FindStep(s: string, pat: string)
    requires s != "" && !OccursAt(s, pat, 0)
    ensures Find(s, pat) == Shift(1, Find(s[1..], pat))
  {
    FindFromSuffix(s, pat, 1);
  }

  /** A pattern cannot start inside text that lacks its first character. */
  lemma FindSkips(a: string, s: string, pat: string)
    requires pat != "" && pat[0] !in a
    ensures Find(a + s, pat) == Shift(|a|, Find(s, pat))
  {
    var t := a + s;
    FindFromIsLeftmost(t, pat, 0);
    FindFromIsLeftmost(t, pat, |a|);
    FindFromSuffix(t, pat, |a|);
    assert t[|a|..] == s;
    var r := FindFrom(t, pat, 0);
    assert forall i | 0 <= i < |a| :: a[i] != pat[0];
    if r.Some? {
      OccursAgrees(t, pat, r.value, 0);
    }
  }

  /** The search for one of several characters finds the first of them, and nothing only when there is none. */
  lemma {:induction false} FindAnyIsFirst(s: string, stops: string)
    ensures match FindAny(s, stops)
            case None => forall c :: c in s ==> c !in stops
            case Some(k) => s[k] in stops && forall c :: c in s[..k] ==> c !in stops
  {
    if s != "" && s[0] !in stops {
      FindAnyIsFirst(s[1..], stops);
      if FindAny(s[1..], stops).Some? {
        var k := FindAny(s[1..], stops).value;
        assert s[..k + 1] == [s[0]] + s[1..][..k];
      }
    }
  }

  lemma {:induction false} FindAnySkips(a: string, s: string, stops: string)
    requires forall c :: c in stops ==> c !in a
    ensures FindAny(a + s, stops) == Shift(|a|, FindAny(s, stops))
  {
    if a == "" {
      assert a + s == s;
    } else {
      assert (a + s)[1..] == a[1..] + s;
      assert (a + s)[0] == a[0] && a[0] in a;
      FindAnySkips(a[1..], s, stops);
    }
  }

  lemma FindSingle(a: string, c: char, s: string)
    requires c !in a
    ensures Find(a + [c] + s, [c]) == Some(|a|)
  {
    var t := [c] + s;
    assert a + [c] + s == a + t;
    FindSkips(a, t, [c]);
    assert t[0..1] == [c];
    FindIsAt(t, [c], 0, 0);
  }

  /** Text before the first occurrence of a single character never holds that character. */
  lemma FindSingleBefore(s: string, c: char)
    requires Find(s, [c]).Some?
    ensures c !in s[..Find(s, [c]).value] && s[Find(s, [c]).value] == c
  {
    FindIsLeftmost(s, [c]);
    var k := Find(s, [c]).value;
    assert s[k..k + 1][0] == c;
    forall j | 0 <= j < k
      ensures s[j] != c
    {
      assert !OccursAt(s, [c], j);
      assert s[j..j + 1] == [s[j]];
    }
  }

  // ---------- trimming ----------

  predicate Blank(c: char) { c == ' ' || c == '\t' }

  function StripLeft(s: string): string {
    if s != "" && Blank(s[0]) then StripLeft(s[1..]) else s
  }

  function StripRight(s: string): string {
    if s != "" && Blank(s[|s| - 1]) then StripRight(s[..|s| - 1]) else s
  }

  function Trim(s: string): string { StripRight(StripLeft(s)) }

  /** No blank at either end. */
  predicate Trimmed(s: string) {
    s == "" || (!Blank(s[0]) && !Blank(s[|s| - 1]))
  }

  lemma {:induction false} StripLeftIsSuffix(s: string)
    ensures exists k: nat ::
              k <= |s| && StripLeft(s) == s[k..] && (forall j | 0 <= j < k :: Blank(s[j]))
    ensures StripLeft(s) == "" || !Blank(StripLeft(s)[0])
  {
    if s != "" && Blank(s[0]) {
      StripLeftIsSuffix(s[1..]);
      var k: nat :| k <= |s[1..]| && StripLeft(s[1..]) == s[1..][k..] && forall j | 0 <= j < k :: Blank(s[1..][j]);
      assert s[1..][k..] == s[k + 1..];
      forall j | 0 <= j < k + 1
        ensures Blank(s[j])
      {
        if j > 0 {
          assert s[1..][j - 1] == s[j];
        }
      }
    } else {
      assert s[0..] == s;
    }
  }

  lemma {:induction false} StripRightIsPrefix(s: string)
    ensures exists k: nat ::
              k <= |s| && StripRight(s) == s[..k] && (forall j | k <= j < |s| :: Blank(s[j]))
    ensures StripRight(s) == "" || !Blank(StripRight(s)[|StripRight(s)| - 1])
    decreases |s|
  {
    if s != "" && Blank(s[|s| - 1]) {
      var t := s[..|s| - 1];
      StripRightIsPrefix(t);
      var k: nat :| k <= |t| && StripRight(t) == t[..k] && forall j | k <= j < |t| :: Blank(t[j]);
      assert t[..k] == s[..k];
      forall j | k <= j < |s|
        ensures Blank(s[j])
      {
        if j < |t| {
          assert t[j] == s[j];
        }
      }
    } else {
      assert s[..|s|] == s;
    }
  }

  predicate AllBlank(s: string) { forall c :: c in s ==> Blank(c) }

  lemma {:induction false} StripLeftOf(a: string, t: string)
    requires AllBlank(a) && (t == "" || !Blank(t[0]))
    ensures StripLeft(a + t) == t
  {
    if a == "" {
      assert a + t == t;
    } else {
      assert a[0] in a && forall c :: c in a[1..] ==> c in a;
      assert (a + t)[0] == a[0] && (a + t)[1..] == a[1..] + t;
      StripLeftOf(a[1..], t);
    }
  }

  lemma {:induction false} StripRightOf(t: string, b: string)
    requires AllBlank(b) && (t == "" || !Blank(t[|t| - 1]))
    ensures StripRight(t + b) == t
    decreases b
  {
    if b == "" {
      assert t + b == t;
    } else {
      var n := |b| - 1;
      assert b[n] in b && forall c :: c in b[..n] ==> c in b;
      assert (t + b)[|t + b| - 1] == b[n] && (t + b)[..|t + b| - 1] == t + b[..n];
      StripRightOf(t, b[..n]);
    }
  }

  /** Trimming takes the blanks around a text away and nothing else. */
  lemma TrimOf(a: string, t: string, b: string)
    requires AllBlank(a) && AllBlank(b) && Trimmed(t)
    ensures Trim(a + t + b) == t
  {
    if t == "" {
      assert a + t + b == (a + b) + "";
      StripLeftOf(a + b, "");
    } else {
      assert a + t + b == a + (t + b);
      StripLeftOf(a, t + b);
      StripRightOf(t, b);
    }
  }

  lemma CutLeft(s: string) returns (i: nat)
    ensures i <= |s| && AllBlank(s[..i]) && StripLeft(s) == s[i..] && (i < |s| ==> !Blank(s[i]))
  {
    StripLeftIsSuffix(s);
    i :| i <= |s| && StripLeft(s) == s[i..] && forall k | 0 <= k < i :: Blank(s[k]);
    assert i < |s| ==> s[i..][0] == s[i];
  }

  lemma CutRight(t: string) returns (m: nat)
    ensures m <= |t| && AllBlank(t[m..]) && StripRight(t) == t[..m] && (m > 0 ==> !Blank(t[m - 1]))
  {
    StripRightIsPrefix(t);
    m :| m <= |t| && StripRight(t) == t[..m] && forall k | m <= k < |t| :: Blank(t[k]);
    assert m > 0 ==> t[..m][m - 1] == t[m - 1];
  }

  lemma Slices(s: string, i: nat, m: nat)
    requires i + m <= |s|
    ensures s[i..][..m] == s[i..i + m] && s[i..][m..] == s[i + m..]
  {
  }

  /** The blanks around a text and what is between them. */
  lemma BlanksAround(s: string) returns (i: nat, j: nat)
    ensures i <= j <= |s| && AllBlank(s[..i]) && AllBlank(s[j..]) && Trimmed(s[i..j]) && Trim(s) == s[i..j]
  {
    i := CutLeft(s);
    var m := CutRight(s[i..]);
    j := i + m;
    Slices(s, i, m);
  }

  lemma SliceMembers(s: string, i: nat, j: nat)
    requires i <= j <= |s|
    ensures forall c :: c in s[i..j] ==> c in s
  {
  }

  /** Trimming leaves a text without blank ends, keeps such texts, and invents no character. */
  lemma TrimKeeps(s: string)
    ensures Trimmed(Trim(s))
    ensures Trimmed(s) <==> Trim(s) == s
    ensures forall c :: c in Trim(s) ==> c in s
  {
    var i, j := BlanksAround(s);
    SliceMembers(s, i, j);
    if Trimmed(s) {
      assert "" + s + "" == s;
      TrimOf("", s, "");
    }
  }

  /** Trimming yields the slice between the blanks at the two ends. */
  lemma TrimIsSlice(s: string)
    ensures Trimmed(Trim(s)) && (Trimmed(s) <==> Trim(s) == s)
    ensures exists i: nat, j: nat ::
              i <= j <= |s| && Trim(s) == s[i..j] && AllBlank(s[..i]) && AllBlank(s[j..])
  {
    TrimKeeps(s);
    var i, j := BlanksAround(s);
  }

  // ---------- numbers ----------

  function HexDigit(n: nat): (c: char)
    requires n < 16
    ensures n < 10 ==> c as int == '0' as int + n
    ensures n >= 10 ==> c as int == 'a' as int + n - 10
  {
    if n < 10 then ('0' as int + n) as char else ('a' as int + n - 10) as char
  }

  predicate IsDigit(c: char) { '0' <= c <= '9' }

  predicate IsHexDigit(c: char) { IsDigit(c) || 'a' <= c <= 'f' || 'A' <= c <= 'F' }

  function HexValue(c: char): (v: nat)
    requires IsHexDigit(c)
    ensures v < 16
  {
    if IsDigit(c) then c as int - '0' as int
    else if c >= 'a' then c as int - 'a' as int + 10
    else c as int - 'A' as int + 10
  }

  function DigitOf(d: nat): (c: char)
    requires d < 10
    ensures IsDigit(c) && c as int == '0' as int + d
  {
    ('0' as int + d) as char
  }

  function Digits(n: nat): (s: string)
    ensures |s| > 0
  {
    if n < 10 then [DigitOf(n)] else Digits(n / 10) + [DigitOf(n % 10)]
  }

  /** `std::to_string` of an integer. */
  function ToDecimal(n: int): string {
    if n < 0 then "-" + Digits(-n) else Digits(n)
  }

  predicate AllDigits(s: string) { forall c :: c in s ==> IsDigit(c) }

  function ValueOf(s: string): (v: int)
    requires AllDigits(s)
    ensures v >= 0
  {
    if s == "" then 0
    else
      assert s[|s| - 1] in s;
      ValueOf(s[..|s| - 1]) * 10 + (s[|s| - 1] as int - '0' as int)
  }

  /** Where the digits that start at `from` end. */
  function DigitsEnd(s: string, from: nat): (end: nat)
    requires from <= |s|
    ensures from <= end <= |s| && AllDigits(s[from..end])
    decreases |s| - from
  {
    if from == |s| || !IsDigit(s[from]) then from
    else
      var end := DigitsEnd(s, from + 1);
      assert s[from..end] == [s[from]] + s[from + 1..end];
      end
  }

  function LeadingDigits(s: string): (d: string)
    ensures AllDigits(d)
  {
    assert s[0..DigitsEnd(s, 0)] == s[..DigitsEnd(s, 0)];
    s[..DigitsEnd(s, 0)]
  }

  /** White space as `std::isspace` of the C locale sees it. */
  predicate IsSpace(c: char) {
    c == ' ' || 9 <= c as int <= 13
  }

  function SkipSpace(s: string): string {
    if s != "" && IsSpace(s[0]) then SkipSpace(s[1..]) else s
  }

  /** The leading digits as a number; anything behind them is ignored. */
  function ParseDigits(t: string): Option<int> {
    var d := LeadingDigits(t);
    if d == "" then None else Some(ValueOf(d))
  }

  function Negated(r: Option<int>): Option<int> {
    match r
    case None => None
    case Some(n) => Some(-n)
  }

  /** An optional sign and digits. */
  function ParseSigned(t: string): Option<int> {
    if t == "" then None
    else if t[0] == '-' then Negated(ParseDigits(t[1..]))
    else if t[0] == '+' then ParseDigits(t[1..])
    else ParseDigits(t)
  }

  /** The number at the start of `s` as `std::stoll` and `std::stoi` read it, after any white space.
      No digits is their `invalid_argument` case. */
  function ParseNumber(s: string): Option<int> { ParseSigned(SkipSpace(s)) }

  lemma {:induction false} DigitsRoundTrip(n: nat)
    ensures AllDigits(Digits(n)) && ValueOf(Digits(n)) == n
    ensures Digits(n)[0] == '0' <==> n == 0
  {
    if n >= 10 {
      DigitsRoundTrip(n / 10);
      var front, back := Digits(n / 10), [DigitOf(n % 10)];
      assert forall c :: c in front + back ==> c in front || c in back;
      assert (front + back)[..|front + back| - 1] == front;
    } else {
      var s := Digits(n);
      assert s[..|s| - 1] == "";
    }
  }

  lemma {:induction false} DigitsEndAt(s: string, from: nat, end: nat)
    requires from <= end <= |s|
    requires forall i | from <= i < end :: IsDigit(s[i])
    requires end == |s| || !IsDigit(s[end])
    ensures DigitsEnd(s, from) == end
    decreases end - from
  {
    if from < end {
      DigitsEndAt(s, from + 1, end);
    }
  }

  lemma LeadingDigitsOf(d: string, rest: string)
    requires AllDigits(d)
    requires rest == "" || !IsDigit(rest[0])
    ensures LeadingDigits(d + rest) == d
  {
    forall i | 0 <= i < |d|
      ensures IsDigit((d + rest)[i])
    {
      assert d[i] in d;
    }
    DigitsEndAt(d + rest, 0, |d|);
  }

  lemma ParseDigitsOf(d: string, rest: string)
    requires AllDigits(d) && d != ""
    requires rest == "" || !IsDigit(rest[0])
    ensures ParseDigits(d + rest) == Some(ValueOf(d))
  {
    LeadingDigitsOf(d, rest);
  }

  lemma ParseSignedDigits(n: int, s: string)
    requires s != "" && ParseDigits(s) == Some(n) && IsDigit(s[0])
    ensures ParseSigned(s) == Some(n)
    ensures ParseSigned("-" + s) == Some(-n)
  {
  }

  lemma ParseSignedPlus(n: int, s: string)
    requires s != "" && ParseDigits(s) == Some(n)
    ensures ParseSigned("+" + s) == Some(n)
  {
    assert ("+" + s)[1..] == s;
  }

  lemma DigitsFirst(n: nat, rest: string)
    ensures IsDigit((Digits(n) + rest)[0])
  {
  }

  lemma ParseOfDigits(n: nat, rest: string)
    requires rest == "" || !IsDigit(rest[0])
    ensures ParseDigits(Digits(n) + rest) == Some(n)
  {
    DigitsRoundTrip(n);
    ParseDigitsOf(Digits(n), rest);
  }

  lemma ParseOfSigned(n: int, rest: string)
    requires rest == "" || !IsDigit(rest[0])
    ensures ParseSigned(ToDecimal(n) + rest) == Some(n)
    ensures !IsSpace((ToDecimal(n) + rest)[0])
  {
    var v: nat := if n < 0 then -n else n;
    ParseOfDigits(v, rest);
    DigitsFirst(v, rest);
    ParseSignedDigits(v, Digits(v) + rest);
    if n < 0 {
      assert ToDecimal(n) + rest == "-" + (Digits(v) + rest);
    }
  }

  /** Printing an integer and reading it back, after an optional blank and before any non-digit. */
  lemma ParseOfDecimal(n: int, rest: string)
    requires rest == "" || !IsDigit(rest[0])
    ensures ParseNumber(ToDecimal(n) + rest) == Some(n)
    ensures ParseNumber(" " + (ToDecimal(n) + rest)) == Some(n)
  {
    var s := ToDecimal(n) + rest;
    ParseOfSigned(n, rest);
    assert (" " + s)[1..] == s;
  }

  /** A printed integer consists of digits and at most a minus sign. */
  lemma DecimalChars(n: int)
    ensures forall c :: c in ToDecimal(n) ==> IsDigit(c) || c == '-'
    ensures ToDecimal(n) != ""
  {
    DigitsRoundTrip(if n < 0 then -n else n);
  }

  // ---------- numbers of any form ----------

  predicate AllSpace(s: string) { forall c :: c in s ==> IsSpace(c) }

  lemma {:induction false} SkipSpaceOf(ws: string, t: string)
    requires AllSpace(ws) && (t == "" || !IsSpace(t[0]))
    ensures SkipSpace(ws + t) == t
  {
    if ws == "" {
      assert ws + t == t;
    } else {
      assert ws[0] in ws && forall c :: c in ws[1..] ==> c in ws;
      assert (ws + t)[0] == ws[0] && (ws + t)[1..] == ws[1..] + t;
      SkipSpaceOf(ws[1..], t);
    }
  }

  lemma SignedIsRead(t: string, n: int)
    requires ParseDigits(t) == Some(n) && t != "" && IsDigit(t[0])
    ensures ParseSigned(t) == Some(n) && ParseSigned("+" + t) == Some(n) && ParseSigned("-" + t) == Some(-n)
  {
    ParseSignedDigits(n, t);
    ParseSignedPlus(n, t);
  }

  /** White space, a sign or none, digits, and anything behind them. */
  lemma NumberIsRead(ws: string, t: string, d: string, rest: string)
    requires AllSpace(ws) && AllDigits(d) && d != "" && (rest == "" || !IsDigit(rest[0])) && t == d + rest
    ensures ParseNumber(ws + t) == Some(ValueOf(d))
    ensures ParseNumber(ws + ("+" + t)) == Some(ValueOf(d))
    ensures ParseNumber(ws + ("-" + t)) == Some(-ValueOf(d))
  {
    ParseDigitsOf(d, rest);
    assert d[0] in d && t[0] == d[0];
    SignedIsRead(t, ValueOf(d));
    SkipSpaceOf(ws, t);
    SkipSpaceOf(ws, "+" + t);
    SkipSpaceOf(ws, "-" + t);
  }

  /** Where digits begin, a sign aside. */
  predicate StartsNumber(t: string) {
    t != "" && (IsDigit(t[0]) || (t[0] in "+-" && |t| > 1 && IsDigit(t[1])))
  }

  lemma LeadingDigitsNone(t: string)
    ensures LeadingDigits(t) == "" <==> t == "" || !IsDigit(t[0])
  {
  }

  /** There is a number exactly where digits begin behind the white space. */
  lemma NumberExactlyWhen(ws: string, t: string)
    requires AllSpace(ws) && (t == "" || !IsSpace(t[0]))
    ensures ParseNumber(ws + t).Some? <==> StartsNumber(t)
  {
    SkipSpaceOf(ws, t);
    if t != "" {
      LeadingDigitsNone(t);
      LeadingDigitsNone(t[1..]);
    }
  }

  lemma {:induction false} ZerosAreNothing(zeros: string, d: string)
    requires (forall c :: c in zeros ==> c == '0') && AllDigits(d)
    ensures AllDigits(zeros + d) && ValueOf(zeros + d) == ValueOf(d)
    decreases |zeros| + |d|
  {
    assert forall c :: c in zeros + d ==> c in zeros || c in d;
    if d != "" {
      var n := |d| - 1;
      assert forall c :: c in d[..n] ==> c in d;
      ZerosAreNothing(zeros, d[..n]);
      assert (zeros + d)[..|zeros + d| - 1] == zeros + d[..n];
    } else if zeros != "" {
      var n := |zeros| - 1;
      assert zeros + d == zeros && zeros[..n] + d == zeros[..n];
      assert zeros[n] in zeros && forall c :: c in zeros[..n] ==> c in zeros;
      ZerosAreNothing(zeros[..n], d);
    }
  }
}
