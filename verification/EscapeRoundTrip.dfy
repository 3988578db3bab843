/** unescape reads back what escape prints: exactly when the text has no character whose escape unescape does not know. */
module EscapeRoundTrip {
  import opened MachineInts
  import opened Rfc3629
  import opened NumericStrings
  import Utf8Encoding
  import opened Utf8Escape
  import Utf8Unescape

  /** The UTF-8 text of a sequence of characters. */
  function Octets(us: seq<Scalar>): seq<byte> {
    if us == [] then [] else Utf8Encoding.Encode(us[0]) + Octets(us[1..])
  }

  lemma {:induction false} OctetsOfScalars(s: seq<byte>)
    requires WellFormed(s)
    ensures Octets(Scalars(s)) == s
  {
    if s != [] {
      var k := LeadingChar(s);
      WellFormedStep(s);
      OctetsOfScalars(s[k..]);
      Utf8Encoding.EncodeValue(s[..k]);
      assert Scalars(s)[1..] == Scalars(s[k..]);
      assert s == s[..k] + s[k..];
    }
  }

  // ----- hexadecimal digits -----

  /** The bytes of hexadecimal digits denote the printed number. */
  lemma {:induction false} FixedHexDenotes(x: nat, k: nat)
    requires k <= 8 && x < Utf8Unescape.Pow16(k)
    ensures var c := Ascii(FixedHex(x, k));
            && |c| == k && (forall i | 0 <= i < k :: Utf8Unescape.IsHexDigit(c[i]))
            && Utf8Unescape.HexNumber(c) == x
  {
    if k > 0 {
      var c, front := Ascii(FixedHex(x, k)), Ascii(FixedHex(x / 16, k - 1));
      FixedHexDenotes(x / 16, k - 1);
      DigitByte(x % 16);
      assert c == front + [Low8(DigitChar(x % 16) as int)];
      assert c[..k - 1] == front;
    }
  }

  lemma DigitByte(d: nat)
    requires d < 16
    ensures var b := Low8(DigitChar(d) as int); Utf8Unescape.IsHexDigit(b) && Utf8Unescape.HexValue(b) == d
  {
  }

  lemma {:induction false} HexRunFull(c: seq<byte>, rest: seq<byte>)
    requires forall i | 0 <= i < |c| :: Utf8Unescape.IsHexDigit(c[i])
    ensures Utf8Unescape.HexRun(c + rest, |c|) == |c|
  {
    if c != [] {
      assert (c + rest)[1..] == c[1..] + rest;
      HexRunFull(c[1..], rest);
    }
  }

  /** Four printed digits at the front of a text are read back. */
  lemma Hex4Read(v: u16, rest: seq<byte>)
    ensures |Hex4(v)| == 4
    ensures Utf8Unescape.HexRun(Hex4(v) + rest, 4) == 4
    ensures Utf8Unescape.EscapeValue(Hex4(v)) == v
  {
    FixedHexDenotes(v, 4);
    HexRunFull(Hex4(v), rest);
  }

  // ----- one character -----

  /** The characters whose escapes \\, \" and \/ have no branch in unescape. */
  predicate IsQuoted(u: int) { u == 0x5C || u == 0x22 || u == 0x2F }

  const PREFIX: seq<byte> := [0x5C, 0x75]

  lemma PrefixIs()
    ensures Ascii("\\u") == PREFIX
  {
  }

  /** A code printed as \uXXXX is read as one round, unless it is the first half of a pair. */
  lemma HexRound(v: u16, rest: seq<byte>)
    requires !(0xD800 <= v <= 0xDBFF)
    ensures Utf8Unescape.ReadRound(PREFIX + Hex4(v) + rest) == Utf8Unescape.Round(v, 6)
  {
    hide Utf8Unescape.HexRun, Utf8Unescape.EscapeValue, Hex4, Utf8Unescape.SecondHalf;
    var s := PREFIX + Hex4(v) + rest;
    Hex4Read(v, rest);
    assert s[2..] == Hex4(v) + rest && s[2..6] == Hex4(v);
    assert s[0] == 0x5C && s[1] == 0x75;
  }

  /** A pair printed as \uD8XX\uDCXX is read as one round. */
  lemma PairRound(high: u16, low: u16, rest: seq<byte>)
    requires 0xD800 <= high <= 0xDBFF && 0xDC00 <= low <= 0xDFFF
    ensures Utf8Unescape.ReadRound(PREFIX + Hex4(high) + PREFIX + Hex4(low) + rest)
         == Utf8Unescape.Round((high as int - 0xD800) * 0x400 + (low as int - 0xDC00) + 0x1_0000, 12)
  {
    hide Utf8Unescape.HexRun, Utf8Unescape.EscapeValue, Hex4;
    var s := PREFIX + Hex4(high) + PREFIX + Hex4(low) + rest;
    Hex4Read(high, PREFIX + Hex4(low) + rest);
    Hex4Read(low, rest);
    assert s[2..] == Hex4(high) + (PREFIX + Hex4(low) + rest) && s[2..6] == Hex4(high);
    assert s[0] == 0x5C && s[1] == 0x75 && s[6] == 0x5C && s[7] == 0x75;
    assert s[8..] == Hex4(low) + rest && s[8..12] == Hex4(low);
    assert Utf8Unescape.SkipSecondPrefix(s, 6) == 8;
  }

  /** The escape text of a character, in terms of the reading rounds. */
  lemma EscapeShape(u: Scalar, strictJSON: bool)
    ensures 0xFFFF < u ==>
              var x: int := u - 0x1_0000;
              EscapeCode(u, strictJSON) == PREFIX + Hex4(x / 0x400 + 0xD800) + PREFIX + Hex4(x % 0x400 + 0xDC00)
    ensures (u < 32 || u == 0x7F || 0x80 <= u <= 0xFFFF) && (u !in [7, 8, 9, 10, 11, 12, 13] || (strictJSON && u in [7, 11]))
            ==> EscapeCode(u, strictJSON) == PREFIX + Hex4(u)
    ensures 32 <= u < 0x7F && !IsQuoted(u) ==> EscapeCode(u, strictJSON) == [u]
  {
    hide EscapeCode, Named, Ascii, Hex4;
    PrefixIs();
    if u in [0, 7, 11] {
      SmallHex();
      EscapeNamed(u, strictJSON);
    } else if u !in {0x0A, 0x09, 0x0D, 0x08, 0x0C, 0x0B, 0x07, 0x5C, 0x22, 0x2F, 0} {
      EscapeOther(u, strictJSON);
    }
  }

  lemma SmallHex()
    ensures Ascii("\\u0000") == PREFIX + Hex4(0) && Ascii("\\u0007") == PREFIX + Hex4(7) && Ascii("\\u000B") == PREFIX + Hex4(11)
  {
    FixedSmall(0);
    FixedSmall(7);
    FixedSmall(11);
  }

  lemma FixedSmall(v: u16)
    requires v < 16
    ensures FixedHex(v, 4) == "000" + [DigitChar(v)]
  {
    hide DigitChar, Repeat;
    var x: nat := v;
    FixedZero(3);
    assert x / 16 == 0 && x % 16 == x;
    assert FixedHex(x, 4) == FixedHex(0, 3) + [DigitChar(x)];
    assert Repeat('0', 3) == ['0', '0', '0'];
  }

  /** unescape undoes escape on one character, whatever text follows. */
  lemma CharacterReadBack(u: Scalar, strictJSON: bool, rest: seq<byte>)
    requires !IsQuoted(u)
    ensures Utf8Unescape.ReadRound(EscapeCode(u, strictJSON) + rest)
         == Utf8Unescape.Round(u, |EscapeCode(u, strictJSON)|)
  {
    if u in [7, 8, 9, 10, 11, 12, 13] && !(strictJSON && u in [7, 11]) {
      ControlReadBack(u, strictJSON, rest);
    } else {
      EscapeShape(u, strictJSON);
      if u > 0xFFFF {
        PairReadBack(u, rest);
      } else if u < 32 || u >= 0x7F {
        hide *;
        HexRound(u, rest);
        Hex4Size(u);
      } else {
        LiteralRound(u, rest);
      }
    }
  }

  lemma ControlReadBack(u: Scalar, strictJSON: bool, rest: seq<byte>)
    requires u in [7, 8, 9, 10, 11, 12, 13] && !(strictJSON && u in [7, 11])
    ensures Utf8Unescape.ReadRound(EscapeCode(u, strictJSON) + rest)
         == Utf8Unescape.Round(u, |EscapeCode(u, strictJSON)|)
  {
    hide Utf8Unescape.ReadU, Utf8Unescape.HexRun;
    var s := EscapeCode(u, strictJSON) + rest;
    assert |EscapeCode(u, strictJSON)| == 2 && s[0] == 0x5C && Utf8Unescape.Control(s[1]) == u;
  }

  lemma PairReadBack(u: Scalar, rest: seq<byte>)
    requires u > 0xFFFF
    ensures var x: int := u - 0x1_0000;
            var c := PREFIX + Hex4(x / 0x400 + 0xD800) + PREFIX + Hex4(x % 0x400 + 0xDC00);
            |c| == 12 && Utf8Unescape.ReadRound(c + rest) == Utf8Unescape.Round(u, 12)
  {
    hide Hex4, Utf8Unescape.ReadRound;
    var x: int := u - 0x1_0000;
    var high, low := x / 0x400, x % 0x400;
    PairRound(high + 0xD800, low + 0xDC00, rest);
    Hex4Size(high + 0xD800);
    Hex4Size(low + 0xDC00);
    assert (high + 0xD800 - 0xD800) * 0x400 + (low + 0xDC00 - 0xDC00) + 0x1_0000 == u;
  }

  lemma LiteralRound(u: Scalar, rest: seq<byte>)
    requires u < 0x80 && u != 0x5C
    ensures Utf8Unescape.ReadRound([u] + rest) == Utf8Unescape.Round(u, 1)
  {
  }

  lemma Hex4Size(v: u16)
    ensures |Hex4(v)| == 4
  {
  }

  // ----- texts without quoted characters -----

  lemma UnescapedRound(s: seq<byte>, size: nat, ch: u32)
    requires s != [] && Utf8Unescape.ReadRound(s) == Utf8Unescape.Round(ch, size)
    ensures size <= |s|
    ensures Utf8Unescape.Unescaped(s) == Utf8Encoding.Encode(Signed32(ch)) + Utf8Unescape.Unescaped(s[size..])
  {
  }

  lemma CharacterThrough(u: Scalar, strictJSON: bool, rest: seq<byte>)
    requires !IsQuoted(u)
    ensures Utf8Unescape.Unescaped(EscapeCode(u, strictJSON) + rest)
         == Utf8Encoding.Encode(u) + Utf8Unescape.Unescaped(rest)
  {
    var c := EscapeCode(u, strictJSON);
    EscapeNotEmpty(u, strictJSON);
    hide *;
    CharacterReadBack(u, strictJSON, rest);
    UnescapedRound(c + rest, |c|, u);
    assert (c + rest)[|c|..] == rest;
    SignedScalar(u);
  }

  lemma EscapeNotEmpty(u: Scalar, strictJSON: bool)
    ensures EscapeCode(u, strictJSON) != []
  {
  }

  lemma SignedScalar(u: Scalar)
    ensures Signed32(u) == u
  {
  }

  /** unescape undoes escape on a text without quoted characters. */
  lemma {:induction false} PlainTextReadBack(us: seq<Scalar>, strictJSON: bool)
    requires forall k | 0 <= k < |us| :: !IsQuoted(us[k])
    ensures Utf8Unescape.Unescaped(EscapedAll(us, strictJSON)) == Octets(us)
  {
    if us != [] {
      PlainTextReadBack(us[1..], strictJSON);
      hide EscapeCode, Utf8Unescape.ReadRound;
      CharacterThrough(us[0], strictJSON, EscapedAll(us[1..], strictJSON));
    }
  }

  // ----- texts with quoted characters -----

  /** Characters escape copies as they are. */
  predicate IsPlain(u: int) { 0x20 <= u < 0x7F && !IsQuoted(u) }

  /** The first byte of an encoded character. */
  lemma FirstOctet(ch: i32)
    ensures var c := Utf8Encoding.Encode(ch);
            && (0 <= ch < 0x80 ==> c == [ch])
            && (0x80 <= ch <= 0x10FFFF ==> |c| >= 2 && c[0] >= 0xC0)
            && (ch > 0x10FFFF ==> c == []) && (ch < 0 ==> |c| == 1)
  {
  }

  /** A character that is not copied is escaped with a backslash. */
  lemma EscapeStarts(u: Scalar, strictJSON: bool)
    ensures if IsPlain(u) then EscapeCode(u, strictJSON) == [u]
            else |EscapeCode(u, strictJSON)| >= 2 && EscapeCode(u, strictJSON)[0] == 0x5C
    ensures IsQuoted(u) ==> EscapeCode(u, strictJSON) == [0x5C, u]
  {
  }

  /** A quoted character, and whatever follows it, comes out with a backslash in front. */
  lemma BackslashStays(second: byte, rest: seq<byte>)
    requires second != 0x75 && second != 0x55 && Utf8Unescape.Control(second) == 0
    ensures Utf8Unescape.Unescaped([0x5C, second] + rest) == [0x5C] + Utf8Unescape.Unescaped([second] + rest)
  {
    hide Utf8Encoding.Encode, Utf8Unescape.Unescaped, Utf8Unescape.Control, Utf8Unescape.ReadU, Utf8Unescape.HexRun;
    var s := [0x5C, second] + rest;
    assert s[0] == 0x5C && s[1] == second;
    assert Utf8Unescape.ReadRound(s) == Utf8Unescape.Round(0x5C, 1);
    UnescapedRound(s, 1, 0x5C);
    FirstOctet(0x5C);
    SignedScalar(0x5C);
    assert s[1..] == [second] + rest;
  }

  lemma BackslashAlone()
    ensures Utf8Unescape.Unescaped([0x5C]) == [0x5C]
  {
    assert Utf8Unescape.ReadRound([0x5C]) == Utf8Unescape.Round(0x5C, 1);
  }

  /** No text is put out with more plain characters in front than it had. */
  lemma {:induction false} NoExtraPrefix(w: seq<byte>, us: seq<Scalar>, strictJSON: bool)
    requires w != [] && forall k | 0 <= k < |w| :: IsPlain(w[k])
    ensures Utf8Unescape.Unescaped(EscapedAll(us, strictJSON)) != w + Octets(us)
    decreases |us|
  {
    var out := Utf8Unescape.Unescaped(EscapedAll(us, strictJSON));
    if us != [] && out == w + Octets(us) {
      var u, rest := us[0], us[1..];
      assert EscapedAll(us, strictJSON) == EscapeCode(u, strictJSON) + EscapedAll(rest, strictJSON);
      if IsQuoted(u) {
        QuotedStarts(u, EscapedAll(rest, strictJSON), strictJSON);
        assert false;
      } else {
        CharacterThrough(u, strictJSON, EscapedAll(rest, strictJSON));
        FirstOctet(u);
        Rotate(w, Utf8Encoding.Encode(u), Utf8Unescape.Unescaped(EscapedAll(rest, strictJSON)), Octets(rest));
        NoExtraPrefix(w[1..] + [w[0]], rest, strictJSON);
      }
    }
  }

  lemma QuotedStarts(u: Scalar, rest: seq<byte>, strictJSON: bool)
    requires IsQuoted(u)
    ensures var out := Utf8Unescape.Unescaped(EscapeCode(u, strictJSON) + rest); out != [] && out[0] == 0x5C
  {
    EscapeStarts(u, strictJSON);
    BackslashStays(u, rest);
  }

  lemma Rotate(w: seq<byte>, c: seq<byte>, out: seq<byte>, rest: seq<byte>)
    requires w != [] && c != [] && c + out == w + (c + rest)
    ensures c[0] == w[0]
    ensures |c| == 1 ==> out == w[1..] + [w[0]] + rest
  {
    assert (c + out)[0] == (w + (c + rest))[0];
    if |c| == 1 {
      assert (c + out)[1..] == out && (w + (c + rest))[1..] == w[1..] + (c + rest);
    }
  }

  function Backslashes(j: nat): seq<byte> {
    seq(j, i => 0x5C)
  }

  /** What unescape makes of a backslash that no branch consumed, followed by an escaped text. */
  function AfterBackslash(us: seq<Scalar>, strictJSON: bool): seq<byte> {
    Utf8Unescape.Unescaped([0x5C] + EscapedAll(us, strictJSON))
  }

  /** The hexadecimal digits an escaped text starts with are characters of the text itself. */
  lemma {:induction false} DigitsAreText(us: seq<Scalar>, n: nat, strictJSON: bool)
    requires var e := EscapedAll(us, strictJSON);
             n <= |e| && forall k | 0 <= k < n :: Utf8Unescape.IsHexDigit(e[k])
    ensures var e := EscapedAll(us, strictJSON);
            && n <= |us| && e[n..] == EscapedAll(us[n..], strictJSON)
            && Octets(us) == e[..n] + Octets(us[n..])
            && forall k | 0 <= k < n :: IsPlain(e[k])
  {
    var e := EscapedAll(us, strictJSON);
    if n == 0 {
      assert us[0..] == us && e[0..] == e && e[..0] == [];
      return;
    }
    hide *;
    HeadIsPlain(us, strictJSON);
    var x, rest, e' := us[0], us[1..], EscapedAll(us[1..], strictJSON);
    assert forall k | 0 <= k < n - 1 :: e'[k] == e[k + 1];
    DigitsAreText(rest, n - 1, strictJSON);
    RestSlices(us, n);
    ConsText(x, e', EscapedAll(us[n..], strictJSON), Octets(rest), Octets(us[n..]), n);
  }

  lemma ConsText(x: byte, e: seq<byte>, tail: seq<byte>, octets: seq<byte>, octetsTail: seq<byte>, n: nat)
    requires 1 <= n <= |e| + 1 && e[n - 1..] == tail && octets == e[..n - 1] + octetsTail
    requires IsPlain(x) && forall k | 0 <= k < n - 1 :: IsPlain(e[k])
    ensures ([x] + e)[n..] == tail && [x] + octets == ([x] + e)[..n] + octetsTail
    ensures forall k | 0 <= k < n :: IsPlain(([x] + e)[k])
  {
    hide IsPlain;
    ConsSlices(x, e, n, octetsTail);
  }

  lemma RestSlices<T>(s: seq<T>, n: nat)
    requires 1 <= n <= |s|
    ensures s[n..] == s[1..][n - 1..]
  {
  }

  lemma HeadIsPlain(us: seq<Scalar>, strictJSON: bool)
    requires EscapedAll(us, strictJSON) != [] && Utf8Unescape.IsHexDigit(EscapedAll(us, strictJSON)[0])
    ensures us != [] && IsPlain(us[0])
    ensures EscapedAll(us, strictJSON) == [us[0]] + EscapedAll(us[1..], strictJSON)
    ensures Octets(us) == [us[0]] + Octets(us[1..])
  {
    hide EscapeCode, Utf8Encoding.Encode;
    EscapeStarts(us[0], strictJSON);
    FirstOctet(us[0]);
  }

  lemma ConsSlices(x: byte, s: seq<byte>, n: nat, t: seq<byte>)
    requires 1 <= n <= |s| + 1
    ensures ([x] + s)[n..] == s[n - 1..]
    ensures [x] + (s[..n - 1] + t) == ([x] + s)[..n] + t
    ensures forall k | 0 <= k < n :: ([x] + s)[k] == if k == 0 then x else s[k - 1]
  {
    assert ([x] + s)[..n] == [x] + s[..n - 1];
  }

  /**
   A hexadecimal escape made of the text's own digits never puts the text out again: whatever it yields differs at
   the first byte, or leaves the digits to be made up for by the rest.
   */
  lemma DigitsLost(x: byte, out: seq<byte>, us: seq<Scalar>, n: nat, strictJSON: bool)
    requires IsPlain(x) && (out == [] || out[0] != x || (out == [x] && n > 0))
    requires var e := EscapedAll(us, strictJSON);
             n <= |e| && forall k | 0 <= k < n :: Utf8Unescape.IsHexDigit(e[k])
    ensures out + Utf8Unescape.Unescaped(EscapedAll(us, strictJSON)[n..]) != [x] + Octets(us)
  {
    hide EscapedAll, Octets, Utf8Unescape.Unescaped, Utf8Unescape.IsHexDigit;
    var e := EscapedAll(us, strictJSON);
    DigitsAreText(us, n, strictJSON);
    var rest := Utf8Unescape.Unescaped(e[n..]);
    if out == [] {
      NoExtraPrefix([x] + e[..n], us[n..], strictJSON);
      assert [x] + Octets(us) == ([x] + e[..n]) + Octets(us[n..]);
      assert out + rest == rest;
    } else if out[0] != x {
      assert (out + rest)[0] == out[0];
    } else {
      NoExtraPrefix(e[..n], us[n..], strictJSON);
      assert (out + rest)[1..] == rest && ([x] + Octets(us))[1..] == Octets(us);
    }
  }

  /** The second half of a pair only ever leads to a character outside ASCII. */
  lemma SurrogateRound(s: seq<byte>, high: u32, at: nat)
    requires 0xD800 <= high <= 0xDBFF && at <= |s|
    ensures 0xD800 <= Utf8Unescape.SecondHalf(s, high, at).ch <= 0x10FFFF
  {
  }

  /** What follows "\u" or "\U" in an escaped text is read up to its last digit. */
  lemma RoundOfU(e: seq<byte>)
    ensures var s, n := [0x5C, 0x75] + e, Utf8Unescape.HexRun(e, 4);
            var r, ch := Utf8Unescape.ReadRound(s), Utf8Unescape.EscapeValue(e[..n]);
            && (n == 0 ==> ch == 0x5C) && ch <= 0xFFFF
            && (if 0xD800 <= ch <= 0xDBFF then 0xD800 <= r.ch <= 0x10FFFF else r == Utf8Unescape.Round(ch, 2 + n))
  {
    hide Utf8Unescape.HexRun, Utf8Unescape.HexNumber, Utf8Unescape.SecondHalf;
    var s, n := [0x5C, 0x75] + e, Utf8Unescape.HexRun(e, 4);
    assert s[0] == 0x5C && s[1] == 0x75 && s[2..] == e && s[2..2 + n] == e[..n];
    var ch := Utf8Unescape.EscapeValue(e[..n]);
    if 0xD800 <= ch <= 0xDBFF {
      SurrogateRound(s, ch, 2 + n);
    }
  }

  lemma RoundOfCapitalU(e: seq<byte>)
    ensures var s, n := [0x5C, 0x55] + e, Utf8Unescape.HexRun(e, 8);
            Utf8Unescape.ReadRound(s) == Utf8Unescape.Round(Utf8Unescape.EscapeValue(e[..n]), 2 + n)
    ensures Utf8Unescape.EscapeValue([]) == 0x5C
  {
    hide Utf8Unescape.HexRun, Utf8Unescape.HexNumber;
    var s, n := [0x5C, 0x55] + e, Utf8Unescape.HexRun(e, 8);
    assert s[0] == 0x5C && s[1] == 0x55 && s[2..] == e && s[2..2 + n] == e[..n];
  }

  lemma LetterU(us: seq<Scalar>, strictJSON: bool)
    ensures Utf8Unescape.Unescaped([0x5C, 0x75] + EscapedAll(us, strictJSON)) != [0x75] + Octets(us)
  {
    hide *;
    var e := EscapedAll(us, strictJSON);
    var s, n := [0x5C, 0x75] + e, Utf8Unescape.HexRun(e, 4);
    var r := Utf8Unescape.ReadRound(s);
    RoundOfU(e);
    SignedSmall(r.ch);
    FirstOctet(Signed32(r.ch));
    UnescapedRound(s, r.size, r.ch);
    var out := Utf8Encoding.Encode(Signed32(r.ch));
    if r.ch >= 0x80 {
      assert (out + Utf8Unescape.Unescaped(s[r.size..]))[0] == out[0];
    } else {
      assert s[2 + n..] == e[n..];
      PlainLetters();
      DigitsLost(0x75, out, us, n, strictJSON);
    }
  }

  lemma SignedSmall(ch: u32)
    ensures ch < 0x8000_0000 ==> Signed32(ch) == ch
  {
  }

  lemma PlainLetters()
    ensures IsPlain(0x75) && IsPlain(0x55)
  {
  }

  lemma LetterCapitalU(us: seq<Scalar>, strictJSON: bool)
    ensures Utf8Unescape.Unescaped([0x5C, 0x55] + EscapedAll(us, strictJSON)) != [0x55] + Octets(us)
  {
    hide *;
    var e := EscapedAll(us, strictJSON);
    var s, n := [0x5C, 0x55] + e, Utf8Unescape.HexRun(e, 8);
    var ch := Utf8Unescape.EscapeValue(e[..n]);
    RoundOfCapitalU(e);
    SignedSmall(ch);
    FirstOctet(Signed32(ch));
    UnescapedRound(s, 2 + n, ch);
    assert s[2 + n..] == e[n..];
    PlainLetters();
    var out := Utf8Encoding.Encode(Signed32(ch));
    assert n == 0 ==> e[..n] == [];
    DigitsLost(0x55, out, us, n, strictJSON);
  }

  /** Behind a backslash no branch consumed, a text never comes out as it was, however many backslashes were put out before. */
  lemma {:induction false} NeverAfterBackslash(us: seq<Scalar>, j: nat, strictJSON: bool)
    ensures Octets(us) != Backslashes(j) + AfterBackslash(us, strictJSON)
    decreases |us|
  {
    hide *;
    if us == [] {
      EmptyTexts(strictJSON);
      BackslashAlone();
      assert [0x5C] + EscapedAll([], strictJSON) == [0x5C];
    } else {
      var x, rest, e := us[0], us[1..], EscapedAll(us[1..], strictJSON);
      TextStep(us, strictJSON);
      FirstOctet(x);
      if x == 0x5C {
        BackslashBackslash(us, strictJSON);
        NeverAfterBackslash(rest, j + 1, strictJSON);
        MoveBackslash(j, Octets(rest), AfterBackslash(rest, strictJSON));
      } else if j > 0 {
        BackslashFirst(j);
        assert (Backslashes(j) + AfterBackslash(us, strictJSON))[0] == 0x5C;
      } else {
        NoBackslashes(AfterBackslash(us, strictJSON));
        FirstCharacterLost(us, strictJSON);
      }
    }
  }

  lemma EmptyTexts(strictJSON: bool)
    ensures Octets([]) == [] && EscapedAll([], strictJSON) == []
    ensures AfterBackslash([], strictJSON) == Utf8Unescape.Unescaped([0x5C] + EscapedAll([], strictJSON))
  {
  }

  lemma TextStep(us: seq<Scalar>, strictJSON: bool)
    requires us != []
    ensures EscapedAll(us, strictJSON) == EscapeCode(us[0], strictJSON) + EscapedAll(us[1..], strictJSON)
    ensures Octets(us) == Utf8Encoding.Encode(us[0]) + Octets(us[1..])
  {
  }

  lemma BackslashFirst(j: nat)
    requires j > 0
    ensures |Backslashes(j)| == j && Backslashes(j)[0] == 0x5C
  {
  }

  lemma NoBackslashes(s: seq<byte>)
    ensures Backslashes(0) + s == s
  {
  }

  lemma MoveBackslash(j: nat, text: seq<byte>, after: seq<byte>)
    requires text != Backslashes(j + 1) + after
    ensures [0x5C] + text != Backslashes(j) + ([0x5C, 0x5C] + after)
  {
    assert Backslashes(j) + ([0x5C, 0x5C] + after) == [0x5C] + (Backslashes(j + 1) + after);
    assert ([0x5C] + text)[1..] == text;
    assert ([0x5C] + (Backslashes(j + 1) + after))[1..] == Backslashes(j + 1) + after;
  }

  /** An escaped backslash behind a backslash: two are put out and the last one is left over again. */
  lemma BackslashBackslash(us: seq<Scalar>, strictJSON: bool)
    requires us != [] && us[0] == 0x5C
    ensures AfterBackslash(us, strictJSON) == [0x5C, 0x5C] + AfterBackslash(us[1..], strictJSON)
  {
    hide EscapeCode, Utf8Unescape.Unescaped, Octets;
    var e := EscapedAll(us[1..], strictJSON);
    EscapeStarts(0x5C, strictJSON);
    assert [0x5C] + EscapedAll(us, strictJSON) == [0x5C, 0x5C] + ([0x5C] + e);
    BackslashStays(0x5C, [0x5C] + e);
    assert [0x5C] + ([0x5C] + e) == [0x5C, 0x5C] + e;
    BackslashStays(0x5C, e);
  }

  /** Behind a backslash, the first character of a text is lost or changed unless it is a backslash itself. */
  lemma FirstCharacterLost(us: seq<Scalar>, strictJSON: bool)
    requires us != [] && us[0] != 0x5C
    ensures Octets(us) != AfterBackslash(us, strictJSON)
  {
    hide *;
    var x, e, c := us[0], EscapedAll(us[1..], strictJSON), EscapeCode(us[0], strictJSON);
    AfterBackslashIs(us, strictJSON);
    TextStep(us, strictJSON);
    EscapeStarts(x, strictJSON);
    FirstOctet(x);
    Classes(x);
    if !IsPlain(x) {
      assert [0x5C] + (c + e) == [0x5C, 0x5C] + (c + e)[1..];
      assert [0x5C] + (c + e)[1..] == c + e;
      ControlLetters();
      BackslashStays(0x5C, (c + e)[1..]);
      assert AfterBackslash(us, strictJSON)[0] == 0x5C;
      assert Octets(us)[0] == Utf8Encoding.Encode(x)[0] != 0x5C;
    } else {
      assert [0x5C] + (c + e) == [0x5C, x] + e;
      if x == 0x75 {
        LetterU(us[1..], strictJSON);
      } else if x == 0x55 {
        LetterCapitalU(us[1..], strictJSON);
      } else if Utf8Unescape.Control(x) == 0 {
        BackslashStays(x, e);
        assert AfterBackslash(us, strictJSON)[0] == 0x5C && Octets(us)[0] == x;
      } else {
        ControlRound(x, e);
        assert AfterBackslash(us, strictJSON)[0] == Utf8Unescape.Control(x) && Octets(us)[0] == x;
      }
    }
  }

  lemma AfterBackslashIs(us: seq<Scalar>, strictJSON: bool)
    ensures AfterBackslash(us, strictJSON) == Utf8Unescape.Unescaped([0x5C] + EscapedAll(us, strictJSON))
  {
  }

  lemma Classes(x: int)
    ensures IsQuoted(x) <==> x == 0x5C || x == 0x22 || x == 0x2F
    ensures IsPlain(x) <==> 0x20 <= x < 0x7F && !IsQuoted(x)
  {
  }

  lemma ControlLetters()
    ensures Utf8Unescape.Control(0x5C) == 0
  {
  }

  lemma ControlRound(x: byte, e: seq<byte>)
    requires Utf8Unescape.Control(x) != 0
    ensures Utf8Unescape.Control(x) < 0x20
    ensures Utf8Unescape.Unescaped([0x5C, x] + e) == [Utf8Unescape.Control(x)] + Utf8Unescape.Unescaped(e)
  {
    hide Utf8Encoding.Encode, Utf8Unescape.Unescaped, Utf8Unescape.ReadU, Utf8Unescape.HexRun;
    var s := [0x5C, x] + e;
    assert s[0] == 0x5C && s[1] == x;
    assert Utf8Unescape.ReadRound(s) == Utf8Unescape.Round(Utf8Unescape.Control(x), 2);
    UnescapedRound(s, 2, Utf8Unescape.Control(x));
    FirstOctet(Utf8Unescape.Control(x));
    assert s[2..] == e;
  }

  /** unescape(escape(s)) gives the characters back exactly when none of them is quoted. */
  lemma {:induction false} TextReadBackIffUnquoted(us: seq<Scalar>, strictJSON: bool)
    ensures Utf8Unescape.Unescaped(EscapedAll(us, strictJSON)) == Octets(us)
       <==> forall k | 0 <= k < |us| :: !IsQuoted(us[k])
  {
    hide *;
    if us == [] {
      EmptyTexts(strictJSON);
      Utf8Unescape.UnescapedEmpty();
      return;
    }
    TextStep(us, strictJSON);
    var x, rest, e := us[0], us[1..], EscapedAll(us[1..], strictJSON);
    FirstOctet(x);
    EscapeStarts(x, strictJSON);
    Classes(x);
    if IsQuoted(x) {
      QuotedLetters(x);
      BackslashStays(x, e);
      assert Utf8Unescape.Unescaped(EscapedAll(us, strictJSON))[0] == 0x5C && Octets(us)[0] == x;
      assert IsQuoted(us[0]);
      if x == 0x5C {
        NeverAfterBackslash(rest, 0, strictJSON);
        NoBackslashes(AfterBackslash(rest, strictJSON));
        AfterBackslashIs(rest, strictJSON);
        CutFirst(Octets(rest), AfterBackslash(rest, strictJSON));
      }
    } else {
      TextReadBackIffUnquoted(rest, strictJSON);
      CharacterThrough(x, strictJSON, e);
      CutPrefix(Utf8Encoding.Encode(x), Utf8Unescape.Unescaped(e), Octets(rest));
      assert forall k | 0 < k < |us| :: us[k] == rest[k - 1];
      assert forall k | 0 <= k < |rest| :: rest[k] == us[k + 1];
    }
  }

  lemma QuotedLetters(x: byte)
    requires IsQuoted(x)
    ensures Utf8Unescape.Control(x) == 0
  {
  }

  lemma CutFirst(a: seq<byte>, b: seq<byte>)
    requires a != b
    ensures [0x5C] + a != [0x5C] + b
  {
    assert ([0x5C] + a)[1..] == a && ([0x5C] + b)[1..] == b;
  }

  lemma CutPrefix(c: seq<byte>, a: seq<byte>, b: seq<byte>)
    ensures c + a == c + b <==> a == b
  {
    assert (c + a)[|c|..] == a && (c + b)[|c|..] == b;
  }

  /**
   For well-formed UTF-8 and both values of strictJSON, unescape(escape(s)) == s exactly when s contains no
   backslash, double quote or slash.
   */
  lemma RoundTripIffUnquoted(s: seq<byte>, strictJSON: bool)
    requires WellFormed(s)
    ensures Utf8Unescape.Unescaped(Escaped(s, strictJSON)) == s <==> forall k | 0 <= k < |s| :: !IsQuoted(s[k])
  {
    EscapedByCharacter(s, strictJSON);
    OctetsOfScalars(s);
    TextReadBackIffUnquoted(Scalars(s), strictJSON);
    QuotedBytes(Scalars(s));
  }

  /** Quoted characters are single bytes, and no other character has such a byte in it. */
  lemma {:induction false} QuotedBytes(us: seq<Scalar>)
    ensures (forall k | 0 <= k < |us| :: !IsQuoted(us[k])) <==> (forall k | 0 <= k < |Octets(us)| :: !IsQuoted(Octets(us)[k]))
  {
    if us != [] {
      var c, rest := Utf8Encoding.Encode(us[0]), us[1..];
      QuotedBytes(rest);
      QuotedOctets(us[0]);
      assert Octets(us) == c + Octets(rest);
      assert forall k | 0 <= k < |c| :: Octets(us)[k] == c[k];
      assert forall k | 0 <= k < |Octets(rest)| :: Octets(us)[|c| + k] == Octets(rest)[k];
      assert forall k | 0 <= k < |rest| :: us[k + 1] == rest[k];
    }
  }

  lemma QuotedOctets(u: Scalar)
    ensures !IsQuoted(u) <==> forall k | 0 <= k < |Utf8Encoding.Encode(u)| :: !IsQuoted(Utf8Encoding.Encode(u)[k])
  {
    if u < 0x80 {
      assert Utf8Encoding.Encode(u) == [u];
    } else {
      var c := Utf8Encoding.Encode(u);
      Utf8Encoding.EncoderMatchesRfc(u);
      assert forall k | 0 <= k < |c| :: c[k] >= 0x80;
    }
  }
}
