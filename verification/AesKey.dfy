/** The key as text: the hexadecimal printer of the configuration and the `strtol` decoder of the cipher. */
module AesKey {
  import opened Basics
  import opened Text
  import opened Wire

  // ---------- printing ----------

  /** Two lower-case digits for each byte. */
  function HexOf(bytes: Bytes): string {
    if bytes == [] then "" else [HexDigit(bytes[0] / 16), HexDigit(bytes[0] % 16)] + HexOf(bytes[1..])
  }

  lemma {:induction false} HexOfAppends(bytes: Bytes, b: Byte)
    ensures HexOf(bytes + [b]) == HexOf(bytes) + [HexDigit(b / 16), HexDigit(b % 16)]
  {
    if bytes == [] {
      assert [b][1..] == [];
    } else {
      HexOfAppends(bytes[1..], b);
      assert (bytes + [b])[1..] == bytes[1..] + [b];
    }
  }

  /** The key generator: text of the random bytes, or nothing when the system has none to give. */
  method GenerateAESKey(random: Option<Bytes>) returns (hexKey: string)
    requires random.Some? ==> |random.value| == 32
    ensures hexKey == match random case None => "" case Some(bytes) => HexOf(bytes)
  {
    hexKey := "";
    if random == None {
      return;
    }
    var bytes := random.value;
    for i := 0 to 32
      invariant hexKey == HexOf(bytes[..i])
    {
      HexOfAppends(bytes[..i], bytes[i]);
      assert bytes[..i + 1] == bytes[..i] + [bytes[i]];
      hexKey := hexKey + [HexDigit(bytes[i] / 16)];
      hexKey := hexKey + [HexDigit(bytes[i] % 16)];
    }
    assert bytes[..32] == bytes;
  }

  // ---------- decoding ----------

  /** The number at the start of the text, as far as there are digits. */
  function HexRun(s: string, sofar: int): int {
    if s != "" && IsHexDigit(s[0]) then HexRun(s[1..], sofar * 16 + HexValue(s[0])) else sofar
  }

  /** `strtol(piece, nullptr, 16)`: white space, a sign, digits, anything else ignored; no digits give 0. A `0x`
      prefix would need a third character. */
  function Strtol16(piece: string): int
    requires |piece| <= 2
  {
    var t := SkipSpace(piece);
    if t != "" && t[0] == '-' then -HexRun(t[1..], 0)
    else if t != "" && t[0] == '+' then HexRun(t[1..], 0)
    else HexRun(t, 0)
  }

  /** The cast to `uint8_t`. */
  function ByteOf(piece: string): Byte
    requires |piece| <= 2
  {
    Strtol16(piece) % 256
  }

  /** The bytes of a text, two characters at a time; a last single character makes a byte of its own. */
  function BytesOfHex(hex: string): Bytes {
    if hex == "" then []
    else if |hex| == 1 then [ByteOf(hex)]
    else [ByteOf(hex[..2])] + BytesOfHex(hex[2..])
  }

  lemma {:induction false} BytesOfHexAppends(done: string, piece: string)
    requires |done| % 2 == 0 && 1 <= |piece| <= 2
    ensures BytesOfHex(done + piece) == BytesOfHex(done) + [ByteOf(piece)]
    decreases |done|
  {
    if done == "" {
      assert done + piece == piece;
      assert |piece| == 2 ==> piece[..2] == piece && piece[2..] == "";
    } else {
      BytesOfHexAppends(done[2..], piece);
      assert (done + piece)[..2] == done[..2];
      assert (done + piece)[2..] == done[2..] + piece;
    }
  }

  method HexToBytes(hex: string) returns (bytes: Bytes)
    ensures bytes == BytesOfHex(hex)
  {
    bytes := [];
    var i := 0;
    while i < |hex|
      invariant i % 2 == 0 && i <= |hex| + 1
      invariant bytes == BytesOfHex(hex[..Min(i, |hex|)])
      decreases |hex| + 1 - i
    {
      var byteString := hex[i..Min(i + 2, |hex|)];
      BytesOfHexAppends(hex[..i], byteString);
      assert hex[..i] + byteString == hex[..Min(i + 2, |hex|)];
      bytes := bytes + [ByteOf(byteString)];
      i := i + 2;
    }
    assert hex[..|hex|] == hex;
  }

  // ---------- the round trip ----------

  lemma ByteOfPair(pair: string)
    requires |pair| == 2 && IsHexDigit(pair[0]) && IsHexDigit(pair[1])
    ensures ByteOf(pair) == HexValue(pair[0]) * 16 + HexValue(pair[1])
  {
    var first := HexValue(pair[0]);
    assert HexRun(pair, 0) == HexRun(pair[1..], first);
    assert pair[1..] == [pair[1]];
    assert HexRun(pair[1..], first) == HexRun(pair[1..][1..], first * 16 + HexValue(pair[1]));
    assert pair[1..][1..] == "";
  }

  lemma ByteOfDigits(b: Byte)
    ensures ByteOf([HexDigit(b / 16), HexDigit(b % 16)]) == b
  {
    ByteOfPair([HexDigit(b / 16), HexDigit(b % 16)]);
  }

  predicate IsLowerHex(c: char) { IsDigit(c) || 'a' <= c <= 'f' }

  predicate Canonical(hex: string) { |hex| % 2 == 0 && forall c :: c in hex ==> IsLowerHex(c) }

  /** Main result: decoding undoes printing, for any bytes; the text has two lower-case digits for each of them. */
  lemma {:induction false} KeyBytesSurvive(bytes: Bytes)
    ensures BytesOfHex(HexOf(bytes)) == bytes
    ensures |HexOf(bytes)| == 2 * |bytes| && Canonical(HexOf(bytes))
  {
    if bytes != [] {
      var pair, rest := [HexDigit(bytes[0] / 16), HexDigit(bytes[0] % 16)], HexOf(bytes[1..]);
      KeyBytesSurvive(bytes[1..]);
      ByteOfDigits(bytes[0]);
      assert (pair + rest)[..2] == pair;
      assert (pair + rest)[2..] == rest;
    }
  }

  lemma PairOfDigits(pair: string)
    requires |pair| == 2 && IsLowerHex(pair[0]) && IsLowerHex(pair[1])
    ensures [HexDigit(ByteOf(pair) / 16), HexDigit(ByteOf(pair) % 16)] == pair
  {
    ByteOfPair(pair);
    var high: nat, low: nat := HexValue(pair[0]), HexValue(pair[1]);
    assert (high * 16 + low) / 16 == high && (high * 16 + low) % 16 == low;
  }

  /** Main result: a text is the print of the bytes it decodes to exactly when it consists of pairs of lower-case
      digits. */
  lemma {:induction false} KeyTextSurvives(hex: string)
    ensures HexOf(BytesOfHex(hex)) == hex <==> Canonical(hex)
    decreases |hex|
  {
    if HexOf(BytesOfHex(hex)) == hex {
      KeyBytesSurvive(BytesOfHex(hex));
    }
    if Canonical(hex) {
      CanonicalSurvives(hex);
    }
  }

  lemma {:induction false} CanonicalSurvives(hex: string)
    requires Canonical(hex)
    ensures HexOf(BytesOfHex(hex)) == hex
    decreases |hex|
  {
    if hex != "" {
      assert forall c :: c in hex[2..] ==> c in hex;
      CanonicalSurvives(hex[2..]);
      assert hex[0] in hex && hex[1] in hex;
      PairOfDigits(hex[..2]);
      assert BytesOfHex(hex)[1..] == BytesOfHex(hex[2..]);
      assert hex == hex[..2] + hex[2..];
    }
  }

  lemma {:induction false} BytesOfHexLength(hex: string)
    ensures |BytesOfHex(hex)| == (|hex| + 1) / 2
    decreases |hex|
  {
    if |hex| > 1 {
      BytesOfHexLength(hex[2..]);
    }
  }

  // ---------- the client's reading of the text ----------

  /** `bytes.fromhex`: pairs of digits with white space between them, or an exception. */
  function FromHex(text: string): Option<Bytes> {
    if text == "" then Some([])
    else if IsSpace(text[0]) then FromHex(text[1..])
    else if |text| == 1 || !IsHexDigit(text[0]) || !IsHexDigit(text[1]) then None
    else
      match FromHex(text[2..])
      case None => None
      case Some(bytes) => Some([HexValue(text[0]) * 16 + HexValue(text[1])] + bytes)
  }

  predicate AllHexDigits(text: string) { forall c :: c in text ==> IsHexDigit(c) }

  /** There are at most half as many bytes as characters, and only digits give so many. */
  lemma {:induction false} FromHexIsShort(text: string)
    requires FromHex(text).Some?
    ensures 2 * |FromHex(text).value| <= |text|
    ensures 2 * |FromHex(text).value| == |text| ==> AllHexDigits(text)
    decreases |text|
  {
    if text != "" {
      if IsSpace(text[0]) {
        FromHexIsShort(text[1..]);
      } else {
        FromHexIsShort(text[2..]);
        assert forall c :: c in text ==> c == text[0] || c == text[1] || c in text[2..];
      }
    }
  }

  lemma {:induction false} DigitsAgree(text: string)
    requires AllHexDigits(text) && |text| % 2 == 0
    ensures FromHex(text) == Some(BytesOfHex(text))
    decreases |text|
  {
    if text != "" {
      assert text[0] in text && text[1] in text && forall c :: c in text[2..] ==> c in text;
      DigitsAgree(text[2..]);
      ByteOfPair(text[..2]);
    }
  }

  lemma HalfIsWhole(n: nat, m: nat)
    requires n == (m + 1) / 2 && 2 * n <= m
    ensures 2 * n == m && m % 2 == 0
  {
  }

  lemma AgreedTextIsDigits(text: string, bytes: Bytes)
    requires FromHex(text) == Some(bytes) && |bytes| == (|text| + 1) / 2
    ensures |text| % 2 == 0 && AllHexDigits(text)
  {
    FromHexIsShort(text);
    HalfIsWhole(|bytes|, |text|);
  }

  /** Main result: the client reads the same bytes from a text as the server exactly when it consists of pairs of
      hexadecimal digits. */
  lemma KeyTextsAgree(text: string)
    ensures FromHex(text) == Some(BytesOfHex(text)) <==> |text| % 2 == 0 && AllHexDigits(text)
  {
    if FromHex(text) == Some(BytesOfHex(text)) {
      BytesOfHexLength(text);
      AgreedTextIsDigits(text, BytesOfHex(text));
    } else if |text| % 2 == 0 && AllHexDigits(text) {
      DigitsAgree(text);
    }
  }

  /** So they agree about every generated key. */
  lemma GeneratedKeyAgrees(random: Bytes)
    ensures FromHex(HexOf(random)) == Some(random)
  {
    KeyBytesSurvive(random);
    KeyTextsAgree(HexOf(random));
  }

  // ---------- any two characters ----------

  lemma RunOfTwo(s: string)
    requires |s| <= 2
    ensures HexRun(s, 0) == if s == "" || !IsHexDigit(s[0]) then 0
                            else if |s| == 1 || !IsHexDigit(s[1]) then HexValue(s[0])
                            else 16 * HexValue(s[0]) + HexValue(s[1])
  {
    if |s| > 0 && IsHexDigit(s[0]) {
      var first := HexValue(s[0]);
      assert HexRun(s, 0) == HexRun(s[1..], first);
      if |s| > 1 && IsHexDigit(s[1]) {
        assert HexRun(s[1..], first) == HexRun(s[1..][1..], 16 * first + HexValue(s[1]));
        assert s[1..][1..] == "";
      }
    }
  }

  lemma SpaceThen(a: char, b: char)
    requires IsSpace(a)
    ensures SkipSpace([a, b]) == if IsSpace(b) then "" else [b]
  {
    assert [a, b][1..] == [b] && [b][1..] == "";
    assert SkipSpace([a, b]) == SkipSpace([b]);
    assert SkipSpace([b]) == if IsSpace(b) then SkipSpace([b][1..]) else [b];
  }

  lemma SignThen(a: char, b: char)
    requires a == '+' || a == '-'
    ensures Strtol16([a, b]) == if a == '-' then -HexRun([b], 0) else HexRun([b], 0)
  {
    assert [a, b][1..] == [b];
  }

  /** Main result: what two characters of a key text are decoded to, whatever they are. A character that is no digit
      ends the number; a blank or a sign may stand in front of one digit. */
  lemma PairMeans(a: char, b: char)
    ensures ByteOf([a, b]) ==
            if IsHexDigit(a) then if IsHexDigit(b) then 16 * HexValue(a) + HexValue(b) else HexValue(a)
            else if !IsHexDigit(b) then 0
            else if IsSpace(a) || a == '+' then HexValue(b)
            else if a == '-' then (256 - HexValue(b)) % 256
            else 0
  {
    RunOfTwo([b]);
    if IsSpace(a) {
      SpaceThen(a, b);
      RunOfTwo("");
      assert [b][1..] == "";
    } else if a == '+' || a == '-' {
      SignThen(a, b);
    } else {
      RunOfTwo([a, b]);
    }
  }

  function Lower(c: char): char { if 'A' <= c <= 'F' then (c as int + 32) as char else c }

  function LowerAll(text: string): (low: string)
    ensures |low| == |text| && forall i | 0 <= i < |text| :: low[i] == Lower(text[i])
  {
    if text == "" then "" else [Lower(text[0])] + LowerAll(text[1..])
  }

  lemma LowerMeansTheSame(c: char)
    ensures IsHexDigit(Lower(c)) <==> IsHexDigit(c)
    ensures IsHexDigit(c) ==> HexValue(Lower(c)) == HexValue(c)
    ensures IsSpace(Lower(c)) <==> IsSpace(c)
    ensures (Lower(c) == '+' <==> c == '+') && (Lower(c) == '-' <==> c == '-')
  {
  }

  lemma LowerSingle(c: char)
    ensures ByteOf([Lower(c)]) == ByteOf([c])
  {
    LowerMeansTheSame(c);
    RunOfTwo([c]);
    RunOfTwo([Lower(c)]);
    assert [c][1..] == "" && [Lower(c)][1..] == "";
  }

  /** Upper and lower case of a key text decode alike. */
  lemma {:induction false} CaseDoesNotMatter(text: string)
    ensures BytesOfHex(LowerAll(text)) == BytesOfHex(text)
    decreases |text|
  {
    var low := LowerAll(text);
    if |text| == 1 {
      LowerSingle(text[0]);
      assert text == [text[0]] && low == [Lower(text[0])];
    } else if |text| > 1 {
      assert text[..2] == [text[0], text[1]] && low[..2] == [Lower(text[0]), Lower(text[1])];
      PairMeans(text[0], text[1]);
      PairMeans(Lower(text[0]), Lower(text[1]));
      LowerMeansTheSame(text[0]);
      LowerMeansTheSame(text[1]);
      CaseDoesNotMatter(text[2..]);
      assert LowerAll(text[2..]) == low[2..];
    }
  }

  /** The client reads over white space between pairs of digits. */
  lemma {:induction false} FromHexJoins(a: string, ws: string, b: string)
    requires FromHex(a).Some? && forall c :: c in ws ==> IsSpace(c)
    ensures FromHex(a + ws + b) ==
            match FromHex(b) case None => None case Some(more) => Some(FromHex(a).value + more)
    decreases |a| + |ws|
  {
    var t := a + ws + b;
    if a == "" && ws == "" {
      assert t == b;
      if FromHex(b).Some? {
        assert FromHex(a).value + FromHex(b).value == FromHex(b).value;
      }
    } else if a == "" {
      assert ws[0] in ws && forall c :: c in ws[1..] ==> c in ws;
      assert t[0] == ws[0] && t[1..] == "" + ws[1..] + b;
      FromHexJoins("", ws[1..], b);
    } else if IsSpace(a[0]) {
      assert t[0] == a[0] && t[1..] == a[1..] + ws + b;
      FromHexJoins(a[1..], ws, b);
    } else {
      assert t[0] == a[0] && t[1] == a[1] && t[2..] == a[2..] + ws + b;
      FromHexJoins(a[2..], ws, b);
      if FromHex(b).Some? {
        var first := [HexValue(a[0]) * 16 + HexValue(a[1])];
        assert first + (FromHex(a[2..]).value + FromHex(b).value) == FromHex(a).value + FromHex(b).value;
      }
    }
  }
}
