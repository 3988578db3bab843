/**
 What unescape makes of any text, escape by escape: raw bytes, one-letter escapes, hexadecimal escapes of any length and
 case, surrogate halves, and backslashes that nothing follows up. Together these cases cover every input.
 */
module UnescapeReading {
  import opened MachineInts
  import opened Utf8Unescape
  import opened Rfc3629
  import Utf8Encoding

  lemma TextStep(s: seq<byte>, rest: seq<byte>, n: nat, ch: u32)
    requires n <= |s| && s[n..] == rest && s != [] && ReadRound(s) == Round(ch, n)
    ensures Unescaped(s) == Utf8Encoding.Encode(Signed32(ch)) + Unescaped(rest)
  {
  }

  /** Bytes without a backslash are copied, whatever they are. */
  lemma {:induction false} RawBytesCopied(a: seq<byte>, rest: seq<byte>)
    requires 0x5C !in a
    ensures Unescaped(a + rest) == a + Unescaped(rest)
  {
    if a == [] {
      assert a + rest == rest;
    } else {
      hide *;
      RawStep(a[0], a[1..] + rest);
      RawBytesCopied(a[1..], rest);
      Joined(a, rest);
      Joined(a, Unescaped(rest));
    }
  }

  lemma Joined(a: seq<byte>, b: seq<byte>)
    requires a != []
    ensures a + b == [a[0]] + (a[1..] + b)
  {
  }

  lemma RawStep(b: byte, rest: seq<byte>)
    requires b != 0x5C
    ensures Unescaped([b] + rest) == [b] + Unescaped(rest)
  {
    assert ([b] + rest)[1..] == rest;
    RawByte(b);
    TextStep([b] + rest, rest, 1, SignExtended(b));
  }

  lemma RawByte(b: byte)
    ensures Utf8Encoding.Encode(Signed32(SignExtended(b))) == [b]
  {
  }

  /** The one-letter escapes: \a \b \f \n \r \t \v. */
  lemma ControlsRead(rest: seq<byte>)
    ensures Unescaped([0x5C, 0x61] + rest) == [0x07] + Unescaped(rest)
    ensures Unescaped([0x5C, 0x62] + rest) == [0x08] + Unescaped(rest)
    ensures Unescaped([0x5C, 0x66] + rest) == [0x0C] + Unescaped(rest)
    ensures Unescaped([0x5C, 0x6E] + rest) == [0x0A] + Unescaped(rest)
    ensures Unescaped([0x5C, 0x72] + rest) == [0x0D] + Unescaped(rest)
    ensures Unescaped([0x5C, 0x74] + rest) == [0x09] + Unescaped(rest)
    ensures Unescaped([0x5C, 0x76] + rest) == [0x0B] + Unescaped(rest)
  {
    hide *;
    ControlRead(0x61, 0x07, rest);
    ControlRead(0x62, 0x08, rest);
    ControlRead(0x66, 0x0C, rest);
    ControlRead(0x6E, 0x0A, rest);
    ControlRead(0x72, 0x0D, rest);
    ControlRead(0x74, 0x09, rest);
    ControlRead(0x76, 0x0B, rest);
  }

  lemma ControlRead(letter: byte, control: byte, rest: seq<byte>)
    requires (letter, control) in [(0x61, 0x07), (0x62, 0x08), (0x66, 0x0C), (0x6E, 0x0A), (0x72, 0x0D), (0x74, 0x09), (0x76, 0x0B)]
    ensures Unescaped([0x5C, letter] + rest) == [control] + Unescaped(rest)
  {
    var s := [0x5C, letter] + rest;
    assert s[0] == 0x5C && s[1] == letter && s[2..] == rest;
    assert ReadRound(s) == Round(control, 2);
    hide ReadRound, Unescaped, Utf8Encoding.Encode;
    TextStep(s, rest, 2, control);
    SmallByte(control);
  }

  lemma SmallByte(b: byte)
    requires b < 0x80
    ensures Utf8Encoding.Encode(Signed32(b)) == [b]
  {
  }

  /** A backslash in front of any other byte but u and U, or at the end, stands for itself; the byte is read next. */
  lemma BackslashAloneRead(rest: seq<byte>)
    requires rest == [] || rest[0] !in [0x61, 0x62, 0x66, 0x6E, 0x72, 0x74, 0x76, 0x75, 0x55]
    ensures Unescaped([0x5C] + rest) == [0x5C] + Unescaped(rest)
  {
    var s := [0x5C] + rest;
    assert s[1..] == rest;
    RawByte(0x5C);
    TextStep(s, rest, 1, 0x5C);
  }

  /** The hexadecimal digits, in either case, and no other byte. */
  lemma HexTable(b: byte, v: nat)
    ensures IsHexDigit(b) && HexValue(b) == v
       <==> v < 16 && (b as char == "0123456789abcdef"[v] || b as char == "0123456789ABCDEF"[v])
  {
  }

  /** The number of a run of hexadecimal digits. */
  lemma HexNumberIs(digits: seq<byte>, b: byte)
    requires |digits| < 8
    ensures HexNumber([]) == 0 && HexNumber(digits + [b]) == 16 * HexNumber(digits) + HexValue(b)
  {
    assert (digits + [b])[..|digits|] == digits;
  }

  /** All digits of a run of at most limit: full, or nothing that goes on with the run behind it. */
  predicate IsRun(digits: seq<byte>, limit: nat, rest: seq<byte>) {
    && |digits| <= limit && (forall k | 0 <= k < |digits| :: IsHexDigit(digits[k]))
    && (|digits| == limit || rest == [] || !IsHexDigit(rest[0]))
  }

  lemma {:induction false} RunIs(digits: seq<byte>, limit: nat, rest: seq<byte>)
    requires IsRun(digits, limit, rest)
    ensures HexRun(digits + rest, limit) == |digits|
  {
    if digits == [] {
      assert digits + rest == rest;
    } else {
      assert (digits + rest)[1..] == digits[1..] + rest;
      RunIs(digits[1..], limit - 1, rest);
    }
  }

  /** What an escape with these digits puts out: a backslash without any, and else convert of their number as an int. */
  function DigitsText(digits: seq<byte>): seq<byte>
    requires |digits| <= 8
  {
    NumberText(if digits == [] then 0x5C else HexNumber(digits))
  }

  /** A number up to U+10FFFF as a character, a greater one not at all, and one that is negative as an int truncated. */
  function NumberText(v: nat): seq<byte> {
    if v <= 0x10_FFFF then Utf8Encoding.Encode(v) else if v < 0x8000_0000 then [] else [v % 0x100]
  }

  lemma NumberTextIs(v: u32)
    ensures Utf8Encoding.Encode(Signed32(v)) == NumberText(v)
  {
  }

  /** \U and up to eight digits. */
  lemma CapitalURead(digits: seq<byte>, rest: seq<byte>)
    requires IsRun(digits, 8, rest)
    ensures Unescaped([0x5C, 0x55] + digits + rest) == DigitsText(digits) + Unescaped(rest)
  {
    var s := [0x5C, 0x55] + digits + rest;
    RunIs(digits, 8, rest);
    assert s[2..] == digits + rest && s[2..2 + |digits|] == digits && s[2 + |digits|..] == rest;
    var v := EscapeValue(digits);
    assert ReadRound(s) == Round(v, 2 + |digits|);
    hide ReadRound, Unescaped, HexNumber;
    TextStep(s, rest, 2 + |digits|, v);
    NumberTextIs(v);
  }

  /** \u and up to four digits, when they are not the first half of a surrogate pair. */
  lemma URead(digits: seq<byte>, rest: seq<byte>)
    requires IsRun(digits, 4, rest) && !(|digits| == 4 && 0xD800 <= HexNumber(digits) <= 0xDBFF)
    ensures Unescaped([0x5C, 0x75] + digits + rest) == DigitsText(digits) + Unescaped(rest)
  {
    var s := [0x5C, 0x75] + digits + rest;
    RunIs(digits, 4, rest);
    assert s[2..] == digits + rest && s[2..2 + |digits|] == digits && s[2 + |digits|..] == rest;
    var v := EscapeValue(digits);
    assert v < 0xD800 || |digits| == 4;
    assert ReadRound(s) == Round(v, 2 + |digits|);
    hide ReadRound, Unescaped, HexNumber;
    TextStep(s, rest, 2 + |digits|, v);
    NumberTextIs(v);
  }

  /** How much of "\u" stands behind a first half: both, a backslash that no u follows, or nothing. */
  predicate IsPrefix(prefix: seq<byte>, tail: seq<byte>) {
    || prefix == [0x5C, 0x75]
    || (prefix == [0x5C] && (tail == [] || tail[0] != 0x75))
    || (prefix == [] && (tail == [] || tail[0] != 0x5C))
  }

  /**
   The first half of a pair: whatever of "\u" and of up to four digits follows is taken with it. Digits that are a second
   half make the character of the pair; without, the first half is put out alone.
   */
  lemma PairRead(first: seq<byte>, prefix: seq<byte>, second: seq<byte>, rest: seq<byte>)
    requires IsRun(first, 4, prefix + second + rest) && |first| == 4 && 0xD800 <= HexNumber(first) <= 0xDBFF
    requires IsPrefix(prefix, second + rest) && IsRun(second, 4, rest)
    ensures var high, low := HexNumber(first), HexNumber(second);
            Unescaped([0x5C, 0x75] + first + prefix + second + rest)
            == (if second != [] && 0xDC00 <= low <= 0xDFFF then
                  Utf8Encoding.Encode((high - 0xD800) * 1024 + (low - 0xDC00) + 65536)
                else Utf8Encoding.Encode(high))
               + Unescaped(rest)
  {
    hide *;
    var s := [0x5C, 0x75] + first + prefix + second + rest;
    var at := 6 + |prefix|;
    Slices2(first, prefix, second, rest);
    RunIs(first, 4, prefix + second + rest);
    RunIs(second, 4, rest);
    PrefixSkipped(s, prefix, second + rest);
    var r := HalvesRead(s, first, prefix, second, rest);
    PairRound(s, first);
    TextStep(s, rest, at + |second|, r.ch);
    UnsignedNumber(r.ch);
  }

  lemma UnsignedNumber(v: u32)
    requires v < 0x8000_0000
    ensures Signed32(v) == v
  {
  }

  lemma PrefixSkipped(s: seq<byte>, prefix: seq<byte>, tail: seq<byte>)
    requires |s| >= 6 && s[6..] == prefix + tail && IsPrefix(prefix, tail)
    ensures SkipSecondPrefix(s, 6) == 6 + |prefix|
  {
    assert forall k | 6 <= k < |s| :: s[k] == s[6..][k - 6];
  }

  lemma PairRound(s: seq<byte>, first: seq<byte>)
    requires |s| >= 6 && s[0] == 0x5C && s[1] == 0x75 && HexRun(s[2..], 4) == 4 && s[2..6] == first
    requires 0xD800 <= HexNumber(first) <= 0xDBFF
    ensures ReadRound(s) == SecondHalf(s, HexNumber(first), 6)
  {
    hide HexRun, HexNumber, SecondHalf;
  }

  lemma HalvesRead(s: seq<byte>, first: seq<byte>, prefix: seq<byte>, second: seq<byte>, rest: seq<byte>) returns (r: Round)
    requires |s| >= 6 + |prefix| && |first| == 4 && |second| <= 4 && 0xD800 <= HexNumber(first) <= 0xDBFF
    requires SkipSecondPrefix(s, 6) == 6 + |prefix| && s[6 + |prefix|..] == second + rest
    requires HexRun(second + rest, 4) == |second|
    ensures r == SecondHalf(s, HexNumber(first), 6) && r.size == 6 + |prefix| + |second|
    ensures var high, low := HexNumber(first), HexNumber(second);
            r.ch == if second != [] && 0xDC00 <= low <= 0xDFFF then (high - 0xD800) * 1024 + (low - 0xDC00) + 65536 else high
  {
    var at := 6 + |prefix|;
    assert s[at..at + |second|] == (second + rest)[..|second|] == second;
    hide HexRun, HexNumber, SkipSecondPrefix;
    r := SecondHalf(s, HexNumber(first), 6);
  }

  lemma Slices2(first: seq<byte>, prefix: seq<byte>, second: seq<byte>, rest: seq<byte>)
    requires |first| == 4
    ensures var s, at := [0x5C, 0x75] + first + prefix + second + rest, 6 + |prefix|;
            && s[0] == 0x5C && s[1] == 0x75 && s[2..] == first + (prefix + second + rest) && s[2..6] == first
            && s[6..] == prefix + second + rest
            && s[at..] == second + rest && s[at..at + |second|] == second && s[at + |second|..] == rest
  {
  }
}
