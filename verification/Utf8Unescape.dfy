/** poco/UTF8String.cpp, UTF8::unescape: reading back text with backslash escapes. */
module Utf8Unescape {
  import opened MachineInts
  import Utf8Encoding

  const BACKSLASH: byte := 0x5C

  predicate IsHexDigit(b: byte) { 0x30 <= b <= 0x39 || 0x41 <= b <= 0x46 || 0x61 <= b <= 0x66 }

  function HexValue(b: byte): (v: nat)
    ensures v < 16
  {
    if 0x30 <= b <= 0x39 then b - 0x30 else if 0x41 <= b <= 0x46 then b - 0x37 else if 0x61 <= b <= 0x66 then b - 0x57 else 0
  }

  /** How many hexadecimal digits s starts with, at most limit. */
  function HexRun(s: seq<byte>, limit: nat): (n: nat)
    ensures n <= |s| && n <= limit && forall k | 0 <= k < n :: IsHexDigit(s[k])
    ensures n < limit && n < |s| ==> !IsHexDigit(s[n])
  {
    if limit == 0 || s == [] || !IsHexDigit(s[0]) then 0 else 1 + HexRun(s[1..], limit - 1)
  }

  /** 16^k */
  function Pow16(k: nat): nat
    requires k <= 8
  {
    [1, 0x10, 0x100, 0x1000, 0x1_0000, 0x10_0000, 0x100_0000, 0x1000_0000, 0x1_0000_0000][k]
  }

  /** strtol(digits, NULL, 16) on at most eight digits. */
  function HexNumber(digits: seq<byte>): (v: nat)
    requires |digits| <= 8
    ensures v < Pow16(|digits|)
  {
    if digits == [] then 0
    else HexNumber(digits[..|digits| - 1]) * 16 + HexValue(digits[|digits| - 1])
  }

  /** One round of the loop: the character it appends and the bytes it consumes. */
  datatype Round = Round(ch: u32, size: nat)

  /** The value of a hexadecimal escape, a backslash when it has no digits. */
  function EscapeValue(digits: seq<byte>): u32
    requires |digits| <= 8
  {
    if digits == [] then BACKSLASH
    else
      assert HexNumber(digits) < Pow16(|digits|) <= 0x1_0000_0000;
      HexNumber(digits)
  }

  /** Past the "\u" in front of the second half of a surrogate pair, as far as it is there. */
  function SkipSecondPrefix(s: seq<byte>, at: nat): (next: nat)
    requires at <= |s|
    ensures at <= next <= |s|
  {
    if at == |s| || s[at] != BACKSLASH then at
    else if at + 1 == |s| || s[at + 1] != 0x75 then at + 1
    else at + 2
  }

  /** The second half of a pair, looked for behind the first half and its prefix; an unfit half is swallowed. */
  function SecondHalf(s: seq<byte>, high: u32, at: nat): (r: Round)
    requires 0xD800 <= high <= 0xDBFF && at <= |s|
    ensures at <= r.size <= |s|
  {
    var start := SkipSecondPrefix(s, at);
    var n := HexRun(s[start..], 4);
    var low := EscapeValue(s[start..start + n]);
    if n > 0 && 0xDC00 <= low <= 0xDFFF then Round((high - 0xD800) * 0x400 + (low - 0xDC00) + 0x1_0000, start + n)
    else Round(high, start + n)
  }

  /** s stands at "\u". */
  function ReadU(s: seq<byte>): (r: Round)
    requires |s| >= 2
    ensures 2 <= r.size <= |s|
  {
    var n := HexRun(s[2..], 4);
    var ch := EscapeValue(s[2..2 + n]);
    if 0xD800 <= ch <= 0xDBFF then SecondHalf(s, ch, 2 + n) else Round(ch, 2 + n)
  }

  /** The control character of a one-letter escape, 0 for any other letter. */
  function Control(letter: byte): byte {
    if letter == 0x6E then 0x0A
    else if letter == 0x74 then 0x09
    else if letter == 0x72 then 0x0D
    else if letter == 0x62 then 0x08
    else if letter == 0x66 then 0x0C
    else if letter == 0x76 then 0x0B
    else if letter == 0x61 then 0x07
    else 0
  }

  /** (UInt32) of a signed char. */
  function SignExtended(b: byte): u32 {
    if b < 0x80 then b else 0xFFFF_FF00 + (b as int)
  }

  /**
   The byte behind a backslash; a string's end reads as NUL. A letter no branch knows leaves the backslash to stand
   for itself and is not consumed.
   */
  function ReadRound(s: seq<byte>): (r: Round)
    requires s != []
    ensures 1 <= r.size <= |s|
  {
    if s[0] != BACKSLASH then Round(SignExtended(s[0]), 1)
    else
      var letter := if |s| > 1 then s[1] else 0;
      if Control(letter) != 0 then Round(Control(letter), 2)
      else if letter == 0x75 then ReadU(s)
      else if letter == 0x55 then
        var n := HexRun(s[2..], 8);
        Round(EscapeValue(s[2..2 + n]), 2 + n)
      else Round(BACKSLASH, 1)
  }

  /** unescape on any byte string. */
  function Unescaped(s: seq<byte>): seq<byte> {
    if s == [] then []
    else Utf8Encoding.Encode(Signed32(ReadRound(s).ch)) + Unescaped(s[ReadRound(s).size..])
  }

  // ----- the method -----

  /** while (it != end && isHexDigit(*it) && dno < limit) digs[dno++] = *it++ */
  method ReadDigits(s: seq<byte>, start: nat, limit: nat, digs: array<byte>) returns (dno: nat)
    requires start <= |s| && limit < digs.Length
    modifies digs
    ensures dno == HexRun(s[start..], limit) && start + dno <= |s| && digs[..dno] == s[start..start + dno]
  {
    hide HexRun;
    var it := start;
    dno := 0;
    while it != |s| && IsHexDigit(s[it]) && dno < limit
      invariant it == start + dno <= |s| && dno <= limit
      invariant HexRun(s[start..], limit) == dno + HexRun(s[it..], limit - dno)
      invariant digs[..dno] == s[start..it]
      decreases limit - dno
    {
      HexRunStep(s, it, limit - dno);
      digs[dno] := s[it];
      dno, it := dno + 1, it + 1;
    }
  }

  lemma HexRunStep(s: seq<byte>, it: nat, limit: nat)
    requires it < |s| && IsHexDigit(s[it]) && limit > 0
    ensures HexRun(s[it..], limit) == 1 + HexRun(s[it + 1..], limit - 1)
  {
    assert s[it..][1..] == s[it + 1..];
  }

  lemma Slices(s: seq<byte>, a: nat, b: nat, n: nat)
    requires a <= b && b + n <= |s|
    ensures s[b..] == s[a..][b - a..] && s[b..b + n] == s[a..][b - a..b - a + n]
  {
  }

  /** A surrogate pair: the other half is fetched. */
  method UnescapeSecondHalf(s: seq<byte>, start: nat, high: u32, from: nat, digs: array<byte>) returns (ch: u32, it: nat)
    requires start <= from <= |s| && 0xD800 <= high <= 0xDBFF && digs.Length == 5
    modifies digs
    ensures var r := SecondHalf(s[start..], high, from - start); ch == r.ch && it == start + r.size
  {
    hide HexRun, HexNumber, EscapeValue;
    ghost var rest := s[start..];
    ch, it := high, from;
    if !(it == |s| || s[it] != BACKSLASH) {
      it := it + 1;
      if !(it == |s| || s[it] != 0x75) {
        it := it + 1;
      }
    }
    assert it - start == SkipSecondPrefix(rest, from - start);
    var dno := ReadDigits(s, it, 4, digs);
    Slices(s, start, it, dno);
    it := it + dno;
    if dno > 0 {
      var temp: int := EscapeValue(digs[..dno]);
      if 0xDC00 <= temp <= 0xDFFF {
        ch := (ch - 0xD800) * 0x400 + (temp - 0xDC00) + 0x1_0000;
      }
    }
  }

  method UnescapeU(s: seq<byte>, start: nat) returns (ch: u32, it: nat)
    requires start + 2 <= |s|
    ensures var r := ReadU(s[start..]); ch == r.ch && it == start + r.size
  {
    hide HexRun, HexNumber, SecondHalf, SkipSecondPrefix;
    ghost var rest := s[start..];
    var digs := new byte[5];
    it := start + 2;
    assert s[it..] == rest[2..];
    var dno := ReadDigits(s, it, 4, digs);
    assert s[it..it + dno] == rest[2..2 + dno];
    it := it + dno;
    ch := BACKSLASH;
    if dno > 0 {
      ch := EscapeValue(digs[..dno]);
    }
    if 0xD800 <= ch <= 0xDBFF {
      ch, it := UnescapeSecondHalf(s, start, ch, it, digs);
    }
  }

  method UnescapeRound(s: seq<byte>, start: nat) returns (ch: u32, it: nat)
    requires start < |s|
    ensures var r := ReadRound(s[start..]); ch == r.ch && it == start + r.size
  {
    hide HexRun, HexNumber, ReadU, Low32;
    ghost var rest := s[start..];
    ch := SignExtended(s[start]);
    it := start + 1;
    if s[start] != BACKSLASH {
      return;
    }
    ch := BACKSLASH;
    var letter := if it == |s| then 0 else s[it];
    if letter == 0x6E {
      ch, it := 0x0A, it + 1;
    } else if letter == 0x74 {
      ch, it := 0x09, it + 1;
    } else if letter == 0x72 {
      ch, it := 0x0D, it + 1;
    } else if letter == 0x62 {
      ch, it := 0x08, it + 1;
    } else if letter == 0x66 {
      ch, it := 0x0C, it + 1;
    } else if letter == 0x76 {
      ch, it := 0x0B, it + 1;
    } else if letter == 0x61 {
      ch, it := 0x07, it + 1;
    } else if letter == 0x75 {
      ch, it := UnescapeU(s, start);
    } else if letter == 0x55 {
      var digs := new byte[9];
      it := it + 1;
      assert s[it..] == rest[2..];
      var dno := ReadDigits(s, it, 8, digs);
      assert s[it..it + dno] == rest[2..2 + dno];
      it := it + dno;
      if dno > 0 {
        ch := EscapeValue(digs[..dno]);
      }
    }
  }

  method Unescape(s: seq<byte>) returns (result: seq<byte>)
    ensures result == Unescaped(s)
  {
    hide *;
    result := [];
    var it := 0;
    assert s[0..] == s;
    while it != |s|
      invariant it <= |s| && Unescaped(s) == result + Unescaped(s[it..])
      decreases |s| - it
    {
      UnescapedStep(s, it);
      var ch, next := UnescapeRound(s, it);
      it := next;
      var utf8 := new byte[4];
      var sz := Utf8Encoding.Convert(Signed32(ch), utf8, 4);
      result := result + utf8[..sz];
    }
    UnescapedEmpty();
  }

  lemma UnescapedStep(s: seq<byte>, at: nat)
    requires at < |s|
    ensures var r := ReadRound(s[at..]);
            && 1 <= r.size && at + r.size <= |s|
            && Unescaped(s[at..]) == Utf8Encoding.Encode(Signed32(r.ch)) + Unescaped(s[at + r.size..])
  {
    assert s[at..][ReadRound(s[at..]).size..] == s[at + ReadRound(s[at..]).size..];
  }

  lemma UnescapedEmpty()
    ensures Unescaped([]) == []
  {
  }
}
