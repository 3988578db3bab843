/** What escape prints, read as a JSON string body. */
module EscapeJson {
  import opened MachineInts
  import opened Rfc3629
  import opened Options
  import opened NumericStrings
  import opened Utf8Escape
  import Utf8Unescape
  import EscapeRoundTrip
  import opened Rfc8259

  /** The four printed digits of a unit are read as that unit. */
  lemma UnitOfHex4(v: u16, rest: seq<byte>)
    ensures |Hex4(v)| == 4 && HasUnit(Hex4(v) + rest) && Unit(Hex4(v) + rest) == v
  {
    var c := Hex4(v);
    EscapeRoundTrip.FixedHexDenotes(v, 4);
    assert forall k | 0 <= k < 4 :: Utf8Unescape.IsHexDigit(c[k]) && (c + rest)[k] == c[k];
    HexNumber4(c);
  }

  lemma HexNumber4(c: seq<byte>)
    requires |c| == 4 && forall k | 0 <= k < 4 :: Utf8Unescape.IsHexDigit(c[k])
    ensures HasUnit(c) && Utf8Unescape.HexNumber(c) == Unit(c)
  {
    HexNumberStep(c, 4);
    HexNumberStep(c, 3);
    HexNumberStep(c, 2);
    HexNumberStep(c, 1);
    hide Utf8Unescape.HexNumber;
    assert c[..4] == c && c[..0] == [];
    assert forall k | 0 <= k < 4 :: Utf8Unescape.HexValue(c[k]) == HexDigit(c[k]);
  }

  lemma HexNumberStep(c: seq<byte>, k: nat)
    requires 1 <= k <= |c| <= 8
    ensures Utf8Unescape.HexNumber(c[..k]) == Utf8Unescape.HexNumber(c[..k - 1]) * 16 + Utf8Unescape.HexValue(c[k - 1])
    ensures k == 1 ==> Utf8Unescape.HexNumber(c[..0]) == 0
  {
    assert c[..k][..k - 1] == c[..k - 1];
  }

  lemma HexChar(v: u16, rest: seq<byte>)
    requires !(0xD800 <= v <= 0xDFFF)
    ensures NextChar(EscapeRoundTrip.PREFIX + Hex4(v) + rest) == Some(Char(v, 6))
  {
    hide Hex4, HasUnit, Unit;
    UnitOfHex4(v, rest);
    var s := EscapeRoundTrip.PREFIX + Hex4(v) + rest;
    assert s[0] == 0x5C && s[1] == 0x75 && s[2..] == Hex4(v) + rest;
  }

  lemma PairChar(u: Scalar, rest: seq<byte>)
    requires u > 0xFFFF
    ensures var x: int := u - 0x1_0000;
            var c := EscapeRoundTrip.PREFIX + Hex4(x / 0x400 + 0xD800) + EscapeRoundTrip.PREFIX + Hex4(x % 0x400 + 0xDC00);
            |c| == 12 && NextChar(c + rest) == Some(Char(u, 12))
  {
    hide Hex4, HasUnit, Unit;
    var x: int := u - 0x1_0000;
    var high, low := x / 0x400 + 0xD800, x % 0x400 + 0xDC00;
    var tail := EscapeRoundTrip.PREFIX + Hex4(low) + rest;
    UnitOfHex4(high, tail);
    UnitOfHex4(low, rest);
    var s := EscapeRoundTrip.PREFIX + Hex4(high) + EscapeRoundTrip.PREFIX + Hex4(low) + rest;
    assert s[0] == 0x5C && s[1] == 0x75 && s[2..] == Hex4(high) + tail;
    assert s[6] == 0x5C && s[7] == 0x75 && s[8..] == Hex4(low) + rest;
  }

  /** The escape of a character is one JSON character that denotes it, except for \a and \v outside strict mode. */
  lemma EscapeIsChar(u: Scalar, strictJSON: bool, rest: seq<byte>)
    ensures NextChar(EscapeCode(u, strictJSON) + rest)
         == if !strictJSON && u in [7, 11] then None else Some(Char(u, |EscapeCode(u, strictJSON)|))
  {
    if EscapeRoundTrip.IsQuoted(u) || u in [8, 9, 10, 12, 13] || (!strictJSON && u in [7, 11]) {
      ShortEscapeIsChar(u, strictJSON, rest);
    } else {
      EscapeRoundTrip.EscapeShape(u, strictJSON);
      if u > 0xFFFF {
        PairChar(u, rest);
      } else if u < 32 || u >= 0x7F {
        hide EscapeCode, Hex4, NextChar;
        HexChar(u, rest);
        EscapeRoundTrip.Hex4Size(u);
      } else {
        assert ([u] + rest)[0] == u;
      }
    }
  }

  lemma ShortEscapeIsChar(u: Scalar, strictJSON: bool, rest: seq<byte>)
    requires EscapeRoundTrip.IsQuoted(u) || u in [8, 9, 10, 12, 13] || (!strictJSON && u in [7, 11])
    ensures NextChar(EscapeCode(u, strictJSON) + rest)
         == if u in [7, 11] then None else Some(Char(u, |EscapeCode(u, strictJSON)|))
  {
    hide HasUnit, UnicodeEscape;
    var s := EscapeCode(u, strictJSON) + rest;
    assert |EscapeCode(u, strictJSON)| == 2 && s[0] == 0x5C && s[1] == EscapeCode(u, strictJSON)[1];
  }

  predicate IsPrintableAscii(s: seq<byte>) {
    forall k | 0 <= k < |s| :: 0x20 <= s[k] <= 0x7E
  }

  lemma EscapePrintable(u: Scalar, strictJSON: bool)
    ensures IsPrintableAscii(EscapeCode(u, strictJSON))
  {
    if u in [7, 8, 9, 10, 11, 12, 13] && !(strictJSON && u in [7, 11]) {
      LetterPrintable(u, strictJSON);
    } else {
      EscapeRoundTrip.EscapeShape(u, strictJSON);
      PrefixPrintable();
      if u > 0xFFFF {
        hide *;
        var x: int := u - 0x1_0000;
        HexPrintable(x / 0x400 + 0xD800);
        HexPrintable(x % 0x400 + 0xDC00);
        PrintableAppend(EscapeRoundTrip.PREFIX, Hex4(x / 0x400 + 0xD800));
        PrintableAppend(EscapeRoundTrip.PREFIX + Hex4(x / 0x400 + 0xD800), EscapeRoundTrip.PREFIX);
        PrintableAppend(EscapeRoundTrip.PREFIX + Hex4(x / 0x400 + 0xD800) + EscapeRoundTrip.PREFIX, Hex4(x % 0x400 + 0xDC00));
      } else if u < 32 || u >= 0x7F {
        hide *;
        HexPrintable(u);
        PrintableAppend(EscapeRoundTrip.PREFIX, Hex4(u));
      } else if EscapeRoundTrip.IsQuoted(u) {
        EscapeRoundTrip.EscapeStarts(u, strictJSON);
        assert EscapeCode(u, strictJSON) == [0x5C, u];
      }
    }
  }

  lemma PrefixPrintable()
    ensures IsPrintableAscii(EscapeRoundTrip.PREFIX)
  {
  }

  lemma LetterPrintable(u: Scalar, strictJSON: bool)
    requires u in [7, 8, 9, 10, 11, 12, 13] && !(strictJSON && u in [7, 11])
    ensures IsPrintableAscii(EscapeCode(u, strictJSON))
  {
    assert |EscapeCode(u, strictJSON)| == 2;
  }

  lemma HexPrintable(v: u16)
    ensures IsPrintableAscii(Hex4(v))
  {
    EscapeRoundTrip.FixedHexDenotes(v, 4);
  }

  /** A text's escape is a JSON string body denoting the text, unless it has \a or \v and the mode is not strict. */
  lemma {:induction false} TextDenoted(us: seq<Scalar>, strictJSON: bool)
    ensures IsPrintableAscii(EscapedAll(us, strictJSON))
    ensures Denoted(EscapedAll(us, strictJSON))
         == if !strictJSON && (7 in us || 11 in us) then None else Some(us)
  {
    if us != [] {
      hide EscapeCode, NextChar;
      var u, rest := us[0], us[1..];
      var c, e := EscapeCode(u, strictJSON), EscapedAll(rest, strictJSON);
      TextDenoted(rest, strictJSON);
      EscapePrintable(u, strictJSON);
      EscapeIsChar(u, strictJSON, e);
      EscapeRoundTrip.EscapeNotEmpty(u, strictJSON);
      assert EscapedAll(us, strictJSON) == c + e;
      hide *;
      DenotedStep(c, e);
      PrintableAppend(c, e);
      assert us == [u] + rest;
    }
  }

  lemma DenotedStep(c: seq<byte>, e: seq<byte>)
    requires c != []
    ensures NextChar(c + e) == None ==> Denoted(c + e) == None
    ensures forall u: Scalar :: NextChar(c + e) == Some(Char(u, |c|)) ==>
              Denoted(c + e) == if Denoted(e) == None then None else Some([u] + Denoted(e).value)
  {
    hide NextChar;
    assert (c + e)[|c|..] == e;
  }

  lemma PrintableAppend(c: seq<byte>, e: seq<byte>)
    requires IsPrintableAscii(c) && IsPrintableAscii(e)
    ensures IsPrintableAscii(c + e)
  {
  }

  /**
   For well-formed UTF-8, escape prints printable ASCII. With strictJSON the result is a legal JSON string body that
   denotes exactly the characters of s; without it, that holds if and only if s has no U+0007 and no U+000B.
   */
  lemma EscapeIsJson(s: seq<byte>, strictJSON: bool)
    requires WellFormed(s)
    ensures IsPrintableAscii(Escaped(s, strictJSON))
    ensures Denoted(Escaped(s, strictJSON)) == Some(Scalars(s))
       <==> strictJSON || (7 !in Scalars(s) && 11 !in Scalars(s))
    ensures strictJSON || (7 !in Scalars(s) && 11 !in Scalars(s)) || Denoted(Escaped(s, strictJSON)) == None
  {
    EscapedByCharacter(s, strictJSON);
    TextDenoted(Scalars(s), strictJSON);
  }
}
