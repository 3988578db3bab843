/** poco/UTF8String.cpp, UTF8::escape: printing UTF-8 text as ASCII with backslash escapes. */
module Utf8Escape {
  import opened MachineInts
  import opened Rfc3629
  import opened NumericStrings

  // ----- the source's reading of its input -----

  /** How many continuation bytes s starts with, at most limit. */
  function Continuations(s: seq<byte>, limit: nat): (n: nat)
    ensures n <= |s| && n <= limit
  {
    if limit == 0 || s == [] || !Tail(s[0]) then 0 else 1 + Continuations(s[1..], limit - 1)
  }

  /** The bytes escape takes for one character: any byte, and up to five continuation bytes behind it. */
  function SequenceSize(s: seq<byte>): (n: nat)
    requires s != []
    ensures 1 <= n <= |s| && n <= 6
  {
    1 + Continuations(s[1..], 5)
  }

  /** ch <<= 6, ch += byte over a sequence, in 32 bits. */
  function Gathered(c: seq<byte>): u32 {
    if c == [] then 0 else Low32(Low32(Gathered(c[..|c| - 1]) * 0x40) + c[|c| - 1])
  }

  /** offsetsFromUTF8 */
  function Offset(size: nat): u32
    requires 1 <= size <= 6
  {
    [0x0, 0x3080, 0xE_2080, 0x3C8_2080, 0xFA08_2080, 0x8208_2080][size - 1]
  }

  function CodeOf(c: seq<byte>): u32
    requires 1 <= |c| <= 6
  {
    Low32(Gathered(c) - Offset(|c|))
  }

  // ----- one character -----

  /** The bytes of a string literal. */
  function Ascii(s: string): seq<byte> {
    seq(|s|, i requires 0 <= i < |s| => Low8(s[i] as int))
  }

  /** The last k hexadecimal digits of x, in upper case. */
  function FixedHex(x: nat, k: nat): (s: string)
    ensures |s| == k
  {
    if k == 0 then "" else FixedHex(x / 16, k - 1) + [DigitChar(x % 16)]
  }

  /** Four hexadecimal digits. */
  function Hex4(v: u16): seq<byte> { Ascii(FixedHex(v, 4)) }

  /** The escape of a character that has one of its own, "" otherwise. */
  function Named(ch: u32, strictJSON: bool): string {
    if ch == 0x0A then "\\n"
    else if ch == 0x09 then "\\t"
    else if ch == 0x0D then "\\r"
    else if ch == 0x08 then "\\b"
    else if ch == 0x0C then "\\f"
    else if ch == 0x0B then (if strictJSON then "\\u000B" else "\\v")
    else if ch == 0x07 then (if strictJSON then "\\u0007" else "\\a")
    else if ch == 0x5C then "\\\\"
    else if ch == 0x22 then "\\\""
    else if ch == 0x2F then "\\/"
    else if ch == 0 then "\\u0000"
    else ""
  }

  /** What escape appends for one character. */
  function EscapeCode(ch: u32, strictJSON: bool): seq<byte> {
    if Named(ch, strictJSON) != "" then Ascii(Named(ch, strictJSON))
    else if ch < 32 || ch == 0x7F then Ascii("\\u") + Hex4(ch)
    else if ch > 0xFFFF then
      var rest := ch - 0x1_0000;
      Ascii("\\u") + Hex4(rest / 0x400 % 0x400 + 0xD800) + Ascii("\\u") + Hex4(rest % 0x400 + 0xDC00)
    else if ch >= 0x80 then Ascii("\\u") + Hex4(ch)
    else [ch]
  }

  /** escape on any byte string. */
  function Escaped(s: seq<byte>, strictJSON: bool): seq<byte> {
    if s == [] then []
    else
      var n := SequenceSize(s);
      EscapeCode(CodeOf(s[..n]), strictJSON) + Escaped(s[n..], strictJSON)
  }

  // ----- the method -----

  const NF_MAX_INT_STRING_LEN: nat := 32

  /** NumberFormatter::appendHex(str, value, 4) for the values escape passes. */
  method AppendHex(str: seq<byte>, value: u16) returns (appended: seq<byte>)
    ensures appended == str + Hex4(value)
  {
    var result := new char[NF_MAX_INT_STRING_LEN];
    FormattedHex4(value);
    var printed := UIntToStr(value, 0x10, result, NF_MAX_INT_STRING_LEN, false, 4, '0', '\0');
    appended := str + Ascii(result[..printed.size]);
  }

  /** The chain of tests on one character. */
  method EscapeCharacter(code: u32, strictJSON: bool) returns (result: seq<byte>)
    ensures result == EscapeCode(code, strictJSON)
  {
    hide EscapeCode, Named, Ascii, Hex4;
    EscapeNamed(code, strictJSON);
    if code !in {0x0A, 0x09, 0x0D, 0x08, 0x0C, 0x0B, 0x07, 0x5C, 0x22, 0x2F, 0} {
      EscapeOther(code, strictJSON);
    }
    var ch := code;
    result := [];
    if ch == 0x0A {
      result := result + Ascii("\\n");
    } else if ch == 0x09 {
      result := result + Ascii("\\t");
    } else if ch == 0x0D {
      result := result + Ascii("\\r");
    } else if ch == 0x08 {
      result := result + Ascii("\\b");
    } else if ch == 0x0C {
      result := result + Ascii("\\f");
    } else if ch == 0x0B {
      result := result + Ascii(if strictJSON then "\\u000B" else "\\v");
    } else if ch == 0x07 {
      result := result + Ascii(if strictJSON then "\\u0007" else "\\a");
    } else if ch == 0x5C {
      result := result + Ascii("\\\\");
    } else if ch == 0x22 {
      result := result + Ascii("\\\"");
    } else if ch == 0x2F {
      result := result + Ascii("\\/");
    } else if ch == 0 {
      result := result + Ascii("\\u0000");
    } else if ch < 32 || ch == 0x7F {
      result := result + Ascii("\\u");
      result := AppendHex(result, Low16(ch));
    } else if ch > 0xFFFF {
      ch := ch - 0x1_0000;
      result := result + Ascii("\\u");
      result := AppendHex(result, Low16(ch / 0x400 % 0x400) + 0xD800);
      result := result + Ascii("\\u");
      result := AppendHex(result, Low16(ch % 0x400) + 0xDC00);
    } else if ch >= 0x80 {
      result := result + Ascii("\\u");
      result := AppendHex(result, Low16(ch));
    } else {
      result := result + [Low8(ch)];
    }
  }

  lemma EscapeNamed(ch: u32, strictJSON: bool)
    ensures ch == 0x0A ==> EscapeCode(ch, strictJSON) == Ascii("\\n")
    ensures ch == 0x09 ==> EscapeCode(ch, strictJSON) == Ascii("\\t")
    ensures ch == 0x0D ==> EscapeCode(ch, strictJSON) == Ascii("\\r")
    ensures ch == 0x08 ==> EscapeCode(ch, strictJSON) == Ascii("\\b")
    ensures ch == 0x0C ==> EscapeCode(ch, strictJSON) == Ascii("\\f")
    ensures ch == 0x0B ==> EscapeCode(ch, strictJSON) == Ascii(if strictJSON then "\\u000B" else "\\v")
    ensures ch == 0x07 ==> EscapeCode(ch, strictJSON) == Ascii(if strictJSON then "\\u0007" else "\\a")
    ensures ch == 0x5C ==> EscapeCode(ch, strictJSON) == Ascii("\\\\")
    ensures ch == 0x22 ==> EscapeCode(ch, strictJSON) == Ascii("\\\"")
    ensures ch == 0x2F ==> EscapeCode(ch, strictJSON) == Ascii("\\/")
    ensures ch == 0 ==> EscapeCode(ch, strictJSON) == Ascii("\\u0000")
  {
    hide Ascii;
  }

  lemma EscapeOther(ch: u32, strictJSON: bool)
    requires ch !in {0x0A, 0x09, 0x0D, 0x08, 0x0C, 0x0B, 0x07, 0x5C, 0x22, 0x2F, 0}
    ensures EscapeCode(ch, strictJSON)
         == if ch < 32 || ch == 0x7F then Ascii("\\u") + Hex4(Low16(ch))
            else if ch > 0xFFFF then
              var rest := ch - 0x1_0000;
              Ascii("\\u") + Hex4(Low16(rest / 0x400 % 0x400) + 0xD800) + Ascii("\\u") + Hex4(Low16(rest % 0x400) + 0xDC00)
            else if ch >= 0x80 then Ascii("\\u") + Hex4(Low16(ch))
            else [Low8(ch)]
  {
    hide Ascii, Hex4;
  }

  lemma FormattedHex4(v: u16)
    ensures Formatted(v, 16, false, 4, '0', '\0') == FixedHex(v, 4)
  {
    hide Body, Repeat, DigitChar;
    PaddedHex(v, 4, 0x1_0000);
  }

  /** Zero-padding the digits of a value below 16^k to k places gives its last k digits. */
  lemma {:induction false} PaddedHex(x: nat, k: nat, bound: nat)
    requires x < bound && bound == (match k case 1 => 0x10 case 2 => 0x100 case 3 => 0x1000 case 4 => 0x1_0000 case _ => 0)
    ensures Repeat('0', k - |Body(x, 16, '\0', 0)|) + Body(x, 16, '\0', 0) == FixedHex(x, k)
    ensures |Body(x, 16, '\0', 0)| <= k
    decreases k
  {
    hide Body;
    BodySplit(x, 16, '\0', 0);
    if k > 1 {
      if x / 16 == 0 {
        FixedZero(k - 1);
      } else {
        PaddedHex(x / 16, k - 1, bound / 16);
      }
    }
  }

  lemma {:induction false} FixedZero(k: nat)
    ensures FixedHex(0, k) == Repeat('0', k)
  {
    if k > 0 {
      FixedZero(k - 1);
      RepeatLast(k);
    }
  }

  lemma {:induction false} RepeatLast(k: nat)
    requires k > 0
    ensures Repeat('0', k) == Repeat('0', k - 1) + ['0']
  {
  }

  /** After sz bytes of the character at start. */
  ghost predicate Taking(s: seq<byte>, start: nat, sz: nat, ch: u32)
    requires start + sz <= |s| && start < |s| && sz <= 6
  {
    && ch == Gathered(s[start..start + sz])
    && (sz > 0 ==> SequenceSize(s[start..]) == sz + Continuations(s[start + sz..], 6 - sz))
  }

  lemma SequenceStart(s: seq<byte>, start: nat)
    requires start < |s|
    ensures Taking(s, start, 0, 0)
  {
    assert s[start..start] == [];
  }

  lemma SequenceStep(s: seq<byte>, start: nat, sz: nat, ch: u32)
    requires start + sz < |s| && sz < 6 && Taking(s, start, sz, ch)
    requires sz == 0 || 0x80 <= s[start + sz] <= 0xBF
    ensures Taking(s, start, sz + 1, Low32(Low32(ch * 0x40) + s[start + sz]))
  {
    hide Low32;
    var it := start + sz;
    GatheredStep(s[start..it + 1], sz + 1);
    assert s[start..it + 1][..sz] == s[start..it];
    assert s[start..it + 1][..sz + 1] == s[start..it + 1];
    assert s[it..][1..] == s[it + 1..];
  }

  lemma SequenceEnd(s: seq<byte>, start: nat, sz: nat, ch: u32)
    requires 1 <= sz <= 6 && start + sz <= |s| && Taking(s, start, sz, ch)
    requires start + sz == |s| || !(0x80 <= s[start + sz] <= 0xBF) || sz == 6
    ensures SequenceSize(s[start..]) == sz && CodeOf(s[start..][..sz]) == Low32(ch - Offset(sz))
  {
    assert s[start..][..sz] == s[start..start + sz];
  }

  /** The do loop: the bytes of one character and the number they make. */
  method TakeSequence(s: seq<byte>, start: nat) returns (ch: u32, it: nat)
    requires start < |s|
    ensures var n := SequenceSize(s[start..]);
            it == start + n <= |s| && ch == CodeOf(s[start..][..n])
  {
    SequenceStart(s, start);
    hide *;
    var sz := 0;
    ch, it := 0, start;
    // The first round of the do loop is unconditional.
    while sz == 0 || (it != |s| && 0x80 <= s[it] <= 0xBF && sz < 6)
      invariant 0 <= sz <= 6 && it == start + sz <= |s|
      invariant Taking(s, start, sz, ch)
      decreases 6 - sz
    {
      SequenceStep(s, start, sz, ch);
      ch := Low32(ch * 0x40);
      ch := Low32(ch + s[it]);
      it, sz := it + 1, sz + 1;
    }
    SequenceEnd(s, start, sz, ch);
    ch := Low32(ch - Offset(sz));
  }

  lemma EscapedStep(s: seq<byte>, start: nat, strictJSON: bool)
    requires start < |s|
    ensures var n := SequenceSize(s[start..]);
            && start + n <= |s|
            && Escaped(s[start..], strictJSON) == EscapeCode(CodeOf(s[start..][..n]), strictJSON) + Escaped(s[start + n..], strictJSON)
  {
    assert s[start..][SequenceSize(s[start..])..] == s[start + SequenceSize(s[start..])..];
  }

  method Escape(s: seq<byte>, strictJSON: bool := false) returns (result: seq<byte>)
    ensures result == Escaped(s, strictJSON)
  {
    hide *;
    result := [];
    var it := 0;
    assert s[0..] == s;
    while it != |s|
      invariant it <= |s| && Escaped(s, strictJSON) == result + Escaped(s[it..], strictJSON)
      decreases |s| - it
    {
      EscapedStep(s, it, strictJSON);
      var ch, next := TakeSequence(s, it);
      it := next;
      var escape := EscapeCharacter(ch, strictJSON);
      result := result + escape;
    }
    EscapedEmpty(strictJSON);
  }

  lemma EscapedEmpty(strictJSON: bool)
    ensures Escaped([], strictJSON) == []
  {
  }

  // ----- any input -----

  /** The bytes taken for one character: any byte and the continuation bytes behind it, at most six in all. */
  lemma {:induction false} ContinuationsAre(s: seq<byte>, limit: nat)
    ensures var n := Continuations(s, limit);
            && n <= limit && n <= |s| && (forall k | 0 <= k < n :: 128 <= s[k] < 192)
            && (n == limit || n == |s| || !(128 <= s[n] < 192))
  {
    if limit > 0 && s != [] {
      ContinuationsAre(s[1..], limit - 1);
    }
  }

  /** The marks of the lead bytes of one to six bytes, as in the older definition of UTF-8. */
  const MARKS: seq<int> := [0, 0xC0, 0xE0, 0xF0, 0xF8, 0xFC]

  /** The payload bits of a sequence put together: the first byte less its mark, and the others less 0x80. */
  function Payloads(c: seq<byte>, mark: int): int
    requires c != []
  {
    if |c| == 1 then c[0] as int - mark else Payloads(c[..|c| - 1], mark) * 64 + (c[|c| - 1] as int - 128)
  }

  /** The code of any sequence is the number of its payload bits, in 32 bits, even when it is no character. */
  lemma CodeIs(c: seq<byte>)
    requires 1 <= |c| <= 6
    ensures CodeOf(c) == Low32(Payloads(c, MARKS[|c| - 1]))
  {
    var mark := MARKS[|c| - 1];
    GatheredIs(c);
    PayloadsAre(c, mark);
    OffsetIs(|c|);
    LowDifference(Raw(c), Marked(|c|, mark));
    hide *;
  }

  /** What the marks of n bytes add up to. */
  function Marked(n: nat, mark: int): int
    requires n > 0
  {
    if n == 1 then mark else Marked(n - 1, mark) * 64 + 128
  }

  lemma OffsetIs(n: nat)
    requires 1 <= n <= 6
    ensures Offset(n) == Low32(Marked(n, MARKS[n - 1]))
  {
    var m := MARKS[n - 1];
    assert Marked(1, m) == m && (n >= 2 ==> Marked(2, m) == m * 64 + 128);
    assert n >= 3 ==> Marked(3, m) == (m * 64 + 128) * 64 + 128;
    assert n >= 4 ==> Marked(4, m) == ((m * 64 + 128) * 64 + 128) * 64 + 128;
    assert n >= 5 ==> Marked(5, m) == (((m * 64 + 128) * 64 + 128) * 64 + 128) * 64 + 128;
    assert n >= 6 ==> Marked(6, m) == ((((m * 64 + 128) * 64 + 128) * 64 + 128) * 64 + 128) * 64 + 128;
  }

  lemma LowDifference(a: int, b: int)
    ensures Low32(Low32(a - b)) == Low32(Low32(a) - Low32(b)) == Low32(a - b)
  {
    var p, q := a / 0x1_0000_0000, b / 0x1_0000_0000;
    assert a == p * 0x1_0000_0000 + Low32(a) && b == q * 0x1_0000_0000 + Low32(b);
    assert a - b == (Low32(a) - Low32(b) as int) + (p - q) * 0x1_0000_0000;
  }

  lemma {:induction false} PayloadsAre(c: seq<byte>, mark: int)
    requires c != []
    ensures Payloads(c, mark) == Raw(c) - Marked(|c|, mark)
  {
    if |c| > 1 {
      PayloadsAre(c[..|c| - 1], mark);
    }
  }

  function Raw(c: seq<byte>): int {
    if c == [] then 0 else Raw(c[..|c| - 1]) * 64 + c[|c| - 1]
  }

  lemma {:induction false} GatheredIs(c: seq<byte>)
    ensures Gathered(c) == Low32(Raw(c))
  {
    if c != [] {
      GatheredIs(c[..|c| - 1]);
      LowStep(Raw(c[..|c| - 1]), c[|c| - 1]);
    }
  }

  lemma LowStep(a: int, b: byte)
    ensures Low32(Low32(Low32(a) * 64) + b) == Low32(a * 64 + b)
  {
    var p := a / 0x1_0000_0000;
    assert a == p * 0x1_0000_0000 + Low32(a);
    var x: int := Low32(a) * 64;
    var q := x / 0x1_0000_0000;
    assert x == q * 0x1_0000_0000 + Low32(x);
    assert a * 64 + b == Low32(x) + b + (64 * p + q) * 0x1_0000_0000;
  }

  // ----- well-formed input -----

  /** escape, character by character. */
  function EscapedAll(us: seq<Scalar>, strictJSON: bool): seq<byte> {
    if us == [] then [] else EscapeCode(us[0], strictJSON) + EscapedAll(us[1..], strictJSON)
  }

  lemma {:induction false} ContinuationsOf(c: seq<byte>, rest: seq<byte>, limit: nat)
    requires |c| <= limit && forall k | 0 <= k < |c| :: Tail(c[k])
    requires rest == [] || !Tail(rest[0])
    ensures Continuations(c + rest, limit) == |c|
  {
    if c == [] {
      assert c + rest == rest;
    } else {
      assert (c + rest)[1..] == c[1..] + rest;
      ContinuationsOf(c[1..], rest, limit - 1);
    }
  }

  /** The gathered number less its offset is the value of the character. */
  lemma CodeOfChar(c: seq<byte>)
    requires IsChar(c)
    ensures CodeOf(c) == Value(c)
  {
    hide Gathered, Low32;
    var g := GatheredNumber(c);
    OffsetOf(|c|);
    NoWrap(g - Offset(|c|));
  }

  lemma NoWrap(x: int)
    requires 0 <= x < 0x1_0000_0000
    ensures Low32(x) == x
  {
  }

  lemma OffsetOf(size: nat)
    requires 1 <= size <= 4
    ensures Offset(size) == if size == 1 then 0 else if size == 2 then 0x3080 else if size == 3 then 0xE_2080 else 0x3C8_2080
  {
  }

  /** Up to four bytes are gathered without wrapping. */
  lemma {:induction false} GatheredNumber(c: seq<byte>) returns (g: int)
    requires |c| <= 4
    ensures g == Gathered(c)
    ensures 0 <= g < if |c| == 0 then 1 else if |c| == 1 then 0x100 else if |c| == 2 then 0x4100 else if |c| == 3 then 0x10_4100 else 0x410_4100
    ensures |c| > 0 ==> var lead: int := c[0]; |c| == 1 ==> g == lead
    ensures |c| == 2 ==> var lead: int, b1: int := c[0], c[1]; g == lead * 0x40 + b1
    ensures |c| == 3 ==> var lead: int, b1: int, b2: int := c[0], c[1], c[2]; g == (lead * 0x40 + b1) * 0x40 + b2
    ensures |c| == 4 ==>
              var lead: int, b1: int, b2: int, b3: int := c[0], c[1], c[2], c[3];
              g == ((lead * 0x40 + b1) * 0x40 + b2) * 0x40 + b3
  {
    if c == [] {
      g := 0;
    } else {
      hide *;
      var front, last: int := c[..|c| - 1], c[|c| - 1];
      var h := GatheredNumber(front);
      GatheredStep(c, |c|);
      assert c[..|c|] == c;
      NoWrap(h * 0x40);
      NoWrap(h * 0x40 + last);
      g := h * 0x40 + last;
    }
  }

  lemma GatheredStep(c: seq<byte>, k: nat)
    requires 1 <= k <= |c|
    ensures Gathered(c[..k]) == Low32(Low32(Gathered(c[..k - 1]) * 0x40) + c[k - 1])
  {
    assert c[..k][..k - 1] == c[..k - 1];
  }

  /** On well-formed input the bytes taken together are exactly the encoded characters. */
  lemma {:induction false} EscapedByCharacter(s: seq<byte>, strictJSON: bool)
    requires WellFormed(s)
    ensures Escaped(s, strictJSON) == EscapedAll(Scalars(s), strictJSON)
  {
    if s != [] {
      hide *;
      CharacterTaken(s);
      EscapedByCharacter(s[LeadingChar(s)..], strictJSON);
      EscapedFirst(s, Scalars(s), strictJSON);
    }
  }

  /** escape takes exactly the first encoded character. */
  lemma CharacterTaken(s: seq<byte>)
    requires WellFormed(s) && s != []
    ensures var k := LeadingChar(s);
            && k > 0 && SequenceSize(s) == k && CodeOf(s[..k]) == Value(s[..k])
            && WellFormed(s[k..]) && Scalars(s) == [Value(s[..k])] + Scalars(s[k..])
  {
    var k := LeadingChar(s);
    WellFormedStep(s);
    var c, rest := s[..k], s[k..];
    NoTailFirst(rest);
    assert IsChar(c) && forall j | 1 <= j < k :: Tail(c[j]);
    hide LeadingChar, WellFormed, Value, CodeOf, IsChar, Scalars, Tail;
    assert s[1..] == c[1..] + rest;
    ContinuationsOf(c[1..], rest, 5);
    CodeOfChar(c);
  }

  lemma EscapedFirst(s: seq<byte>, us: seq<Scalar>, strictJSON: bool)
    requires s != [] && us != []
    ensures Escaped(s, strictJSON)
         == EscapeCode(CodeOf(s[..SequenceSize(s)]), strictJSON) + Escaped(s[SequenceSize(s)..], strictJSON)
    ensures EscapedAll(us, strictJSON) == EscapeCode(us[0], strictJSON) + EscapedAll(us[1..], strictJSON)
  {
  }

  lemma NoTailFirst(s: seq<byte>)
    requires WellFormed(s)
    ensures s == [] || !Tail(s[0])
  {
  }
}
