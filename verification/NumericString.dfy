/** poco/NumericString.h: printing integers into a character buffer and parsing them back. */
module NumericStrings {

  // ----- specification of printing -----

  /** C++ integer division, which truncates toward zero. */
  function TruncDiv(a: int, b: int): int
    requires b > 0
  {
    if a >= 0 then a / b else -((-a) / b)
  }

  function Abs(x: int): nat { if x >= 0 then x else -x }

  /** The digit table: remainders from -15 to 15 index it at 0 to 30. */
  const DIGITS: string := "FEDCBA9876543210123456789ABCDEF"

  /** The character of a digit below 16. */
  function DigitChar(d: nat): char
    requires d < 16
  {
    if d < 10 then '0' + d as char else 'A' + (d - 10) as char
  }

  /** A separator is printed in base 10 only; '\0' means none. */
  predicate Separates(base: nat, thSep: char) { base == 10 && thSep != '\0' }

  /**
   The digits of m, most significant first. With a separator, one stands in front of every third digit counted
   from the right; count says how many digits of the current group are already printed to the right.
   */
  function Body(m: nat, base: nat, thSep: char, count: nat): (s: string)
    requires 2 <= base <= 16 && count < 3
    ensures s != ""
    decreases m, 1
  {
    var digit := [DigitChar(m % base)];
    var last := if Separates(base, thSep) && count == 2 then [thSep] + digit else digit;
    BodyRest(m, base, thSep, count) + last
  }

  /** What the digit loop still prints to the left of the last digit of m and the separator due with it. */
  function BodyRest(m: nat, base: nat, thSep: char, count: nat): string
    requires 2 <= base <= 16 && count < 3
    decreases m, 0
  {
    QuotientShrinks(m, base);
    if m / base == 0 then "" else Body(m / base, base, thSep, NextCount(base, thSep, count))
  }

  /** How many digits of the group stand to the right of the next digit. */
  function NextCount(base: nat, thSep: char, count: nat): (n: nat)
    requires count < 3
    ensures n < 3
  {
    if Separates(base, thSep) then (count + 1) % 3 else count
  }

  function Repeat(c: char, n: int): (s: string)
    ensures |s| == if n > 0 then n else 0
    ensures forall k | 0 <= k < |s| :: s[k] == c
  {
    if n <= 0 then "" else [c] + Repeat(c, n - 1)
  }

  function PrefixText(base: nat, prefix: bool): string {
    if prefix && base == 8 then "0" else if prefix && base == 16 then "0x" else ""
  }

  function SignText(value: int): string { if value < 0 then "-" else "" }

  /** The whole text: zeros go between sign or prefix and digits, any other fill goes in front. */
  function Formatted(value: int, base: nat, prefix: bool, width: int, fill: char, thSep: char): (s: string)
    requires 2 <= base <= 16
    ensures s != ""
  {
    var head := SignText(value) + PrefixText(base, prefix);
    var body := Body(Abs(value), base, thSep, 0);
    Spaces(|head| + |body|, width, fill) + head + Zeros(|head| + |body|, width, fill) + body
  }

  /** Padding in front of the text, for any fill but '0'. */
  function Spaces(length: nat, width: int, fill: char): string {
    if fill == '0' then "" else Repeat(fill, width - length)
  }

  /** Padding between sign or prefix and the digits, for the fill '0'. */
  function Zeros(length: nat, width: int, fill: char): string {
    if fill == '0' then Repeat('0', width - length) else ""
  }

  // ----- printing -----

  function Reversed(s: string): (r: string)
    ensures |r| == |s| && forall k | 0 <= k < |s| :: r[k] == s[|s| - 1 - k]
  {
    if s == "" then "" else Reversed(s[1..]) + [s[0]]
  }

  /** The first cur characters of the buffer hold the end of text, last character first. */
  ghost predicate Holds(buffer: seq<char>, cur: nat, text: string) {
    && cur <= |text| && cur <= |buffer|
    && forall k | 0 <= k < cur :: buffer[k] == text[|text| - 1 - k]
  }

  /** *ptr++ = c through Impl::Ptr: false stands for the RangeException past the end of the buffer. */
  method Put(buffer: array<char>, cur: nat, size: nat, c: char, ghost text: string) returns (ok: bool)
    requires size <= buffer.Length && cur <= size
    requires Holds(buffer[..], cur, text) && cur < |text| && text[|text| - 1 - cur] == c
    modifies buffer
    ensures ok == (cur < size)
    ensures !ok ==> buffer[..] == old(buffer[..])
    ensures ok ==> buffer[..] == old(buffer[..])[cur := c] && Holds(buffer[..], cur + 1, text)
  {
    if cur + 1 > size {
      return false;
    }
    buffer[cur] := c;
    return true;
  }

  /** while (ptr - result < width) *ptr++ = c */
  method PutFill(buffer: array<char>, start: nat, size: nat, width: int, c: char, ghost text: string)
    returns (ok: bool, cur: nat)
    requires size <= buffer.Length && start <= size && Holds(buffer[..], start, text)
    requires width <= |text| && forall k | |text| - width <= k < |text| - start :: text[k] == c
    modifies buffer
    ensures !ok ==> |text| > size
    ensures ok ==> cur == (if start < width then width else start) <= size && Holds(buffer[..], cur, text)
    ensures buffer[size..] == old(buffer[size..])
  {
    cur, ok := start, true;
    while cur < width
      invariant start <= cur <= size && (start < width ==> cur <= width) && (start >= width ==> cur == start)
      invariant Holds(buffer[..], cur, text)
      invariant buffer[size..] == old(buffer[size..])
    {
      ok := Put(buffer, cur, size, c, text);
      if !ok {
        return;
      }
      cur := cur + 1;
    }
  }

  /** "FEDC...0...CDEF"[15 + r] is the digit of |r|. */
  function DigitAt(r: int): (c: char)
    requires -15 <= r <= 15
    ensures c == DigitChar(Abs(r))
  {
    DigitTable(r);
    DIGITS[15 + r]
  }

  /** The digit loop: repeated truncating division, a separator after every third digit. */
  method PutDigits(v: int, base: nat, thSep: char, buffer: array<char>, size: nat, ghost lead: string, ghost text: string)
    returns (ok: bool, cur: nat, tmpVal: int)
    requires 2 <= base <= 16 && size <= buffer.Length
    requires text == lead + Body(Abs(v), base, thSep, 0)
    modifies buffer
    ensures !ok ==> |text| > size
    ensures ok ==> cur == |Body(Abs(v), base, thSep, 0)| <= size && Holds(buffer[..], cur, text)
    ensures ok ==> (tmpVal < 0 <==> v < 0)
    ensures buffer[size..] == old(buffer[size..])
  {
    hide *;
    var value, thCount := v, 0;
    cur := 0;
    HoldsNothing(buffer[..], text);
    assert text[..|text|] == text;
    while true
      invariant 0 <= thCount < 3 && (!(base == 10 && thSep != '\0') ==> thCount == 0)
      invariant cur <= |text| && text[..|text| - cur] == lead + Body(Abs(value), base, thSep, thCount)
      invariant cur <= size && Holds(buffer[..], cur, text)
      invariant value < 0 <==> v < 0
      invariant buffer[size..] == old(buffer[size..])
      decreases Abs(value)
    {
      tmpVal := value;
      value := TruncDiv(value, base);
      DigitOfRemainder(tmpVal, base);
      BodySplit(Abs(tmpVal), base, thSep, thCount);
      ghost var rest := lead + BodyRest(Abs(tmpVal), base, thSep, thCount);
      ghost var separated := if base == 10 && thSep != '\0' && thCount == 2 then rest + [thSep] else rest;
      assert text[..|text| - cur] == separated + [DigitChar(Abs(tmpVal) % base)];
      ok := Put(buffer, cur, size, DigitAt(Remainder(tmpVal, value, base)), text);
      if !ok {
        return;
      }
      cur := cur + 1;
      assert text[..|text| - cur] == separated;
      if thSep != '\0' && base == 10 {
        thCount := thCount + 1;
        if thCount == 3 {
          ok := Put(buffer, cur, size, thSep, text);
          if !ok {
            return;
          }
          cur, thCount := cur + 1, 0;
        }
      }
      assert text[..|text| - cur] == rest;
      if value == 0 {
        return;
      }
    }
  }

  lemma BodySplit(m: nat, base: nat, thSep: char, count: nat)
    requires 2 <= base <= 16 && count < 3
    ensures var separated := BodyRest(m, base, thSep, count) + if base == 10 && thSep != '\0' && count == 2 then [thSep] else "";
            Body(m, base, thSep, count) == separated + [DigitChar(m % base)]
    ensures NextCount(base, thSep, count)
         == if !(base == 10 && thSep != '\0') then count else if count == 2 then 0 else count + 1
    ensures BodyRest(m, base, thSep, count)
         == if m / base == 0 then "" else Body(m / base, base, thSep, NextCount(base, thSep, count))
  {
  }

  lemma QuotientShrinks(m: nat, base: nat)
    requires base >= 2
    ensures m / base == 0 <==> m < base
    ensures m > 0 ==> m / base < m
  {
    assert m == m / base * base + m % base;
  }

  /** tmpVal - value * base */
  function Remainder(tmpVal: int, value: int, base: nat): int { tmpVal - value * base }

  lemma HoldsNothing(buffer: seq<char>, text: string)
    ensures Holds(buffer, 0, text)
  {
  }

  /** The table turns the remainder of truncating division into the digit of the magnitude. */
  lemma DigitOfRemainder(v: int, base: nat)
    requires 2 <= base <= 16
    ensures var r := Remainder(v, TruncDiv(v, base), base);
            -15 <= r <= 15 && DigitAt(r) == DigitChar(Abs(v) % base)
    ensures Abs(TruncDiv(v, base)) == Abs(v) / base
    ensures TruncDiv(v, base) != 0 ==> (TruncDiv(v, base) < 0 <==> v < 0)
    ensures Abs(v) / base == 0 <==> TruncDiv(v, base) == 0
    ensures TruncDiv(v, base) != 0 ==> Abs(TruncDiv(v, base)) < Abs(v)
  {
    QuotientShrinks(Abs(v), base);
    RemainderMagnitude(v, base);
  }

  lemma RemainderMagnitude(v: int, base: nat)
    requires 2 <= base <= 16
    ensures Abs(v - TruncDiv(v, base) * base) == Abs(v) % base
    ensures Abs(TruncDiv(v, base)) == Abs(v) / base
    ensures TruncDiv(v, base) != 0 ==> (TruncDiv(v, base) < 0 <==> v < 0)
  {
    var m := Abs(v);
    var q := m / base;
    DivModIdentity(m, base);
    if v < 0 {
      NegateProduct(q, base);
    }
  }

  lemma DivModIdentity(m: nat, base: nat)
    requires base > 0
    ensures m == m / base * base + m % base && 0 <= m % base < base && m / base >= 0
  {
  }

  lemma NegateProduct(a: int, b: int)
    ensures (-a) * b == -(a * b)
  {
  }

  lemma DigitTable(r: int)
    requires -15 <= r <= 15
    ensures DIGITS[15 + r] == DigitChar(Abs(r))
  {
  }

  /** Prefix and sign, behind the digits because the buffer is filled from the right end of the text. */
  method PutHead(negative: bool, base: nat, prefix: bool, buffer: array<char>, start: nat, size: nat,
                 ghost lead: string, ghost text: string)
    returns (ok: bool, cur: nat)
    requires size <= buffer.Length && start <= size && Holds(buffer[..], start, text)
    requires start <= |text|
             && text[..|text| - start] == lead + SignText(if negative then -1 else 0) + PrefixText(base, prefix)
    modifies buffer
    ensures !ok ==> |text| > size
    ensures ok ==> cur == |text| - |lead| <= size && Holds(buffer[..], cur, text)
    ensures buffer[size..] == old(buffer[size..])
  {
    cur := start;
    ghost var rest := text[..|text| - start];
    assert forall k | 0 <= k < |rest| :: text[k] == rest[k];
    ok := true;
    if prefix && base == 8 {
      ok := Put(buffer, cur, size, '0', text);
      if !ok {
        return;
      }
      cur := cur + 1;
    } else if prefix && base == 16 {
      ok := Put(buffer, cur, size, 'x', text);
      if !ok {
        return;
      }
      cur := cur + 1;
      ok := Put(buffer, cur, size, '0', text);
      if !ok {
        return;
      }
      cur := cur + 1;
    }
    if negative {
      ok := Put(buffer, cur, size, '-', text);
      if !ok {
        return;
      }
      cur := cur + 1;
    }
  }

  /** Zeros, prefix, sign and outer padding, once the digits are written. */
  method PutRest(ghost value: int, negative: bool, base: nat, prefix: bool, width: int, fill: char,
                 buffer: array<char>, start: nat, size: nat, ghost body: string, ghost text: string)
    returns (ok: bool, cur: nat)
    requires size <= buffer.Length && start == |body| <= size && Holds(buffer[..], start, text)
    requires negative <==> value < 0
    requires var head := SignText(value) + PrefixText(base, prefix);
             var length := |head| + |body|;
             text == Spaces(length, width, fill) + head + Zeros(length, width, fill) + body
    modifies buffer
    ensures !ok ==> |text| > size
    ensures ok ==> cur == |text| <= size && Holds(buffer[..], cur, text)
    ensures buffer[size..] == old(buffer[size..])
  {
    hide *;
    RestLayout(value, negative, base, prefix, width, fill, body, text);
    ok, cur := true, start;
    var w := width;
    if '0' == fill {
      if negative {
        w := w - 1;
      }
      if prefix && base == 8 {
        w := w - 1;
      }
      if prefix && base == 16 {
        w := w - 2;
      }
      ok, cur := PutFill(buffer, cur, size, w, fill, text);
      if !ok {
        return;
      }
    }
    ghost var spaces := Spaces(HeadSize(negative, base, prefix) + |body|, width, fill);
    ok, cur := PutHead(negative, base, prefix, buffer, cur, size, spaces, text);
    if !ok {
      return;
    }
    if '0' != fill {
      ok, cur := PutFill(buffer, cur, size, w, fill, text);
    }
  }

  function HeadSize(negative: bool, base: nat, prefix: bool): nat {
    (if negative then 1 else 0) + if prefix && base == 8 then 1 else if prefix && base == 16 then 2 else 0
  }

  /** Where the paddings lie in the text. */
  lemma RestLayout(value: int, negative: bool, base: nat, prefix: bool, width: int, fill: char, body: string, text: string)
    requires negative <==> value < 0
    requires var head := SignText(value) + PrefixText(base, prefix);
             var length := |head| + |body|;
             text == Spaces(length, width, fill) + head + Zeros(length, width, fill) + body
    ensures HeadSize(negative, base, prefix)
         == (if negative then 1 else 0) + if prefix && base == 8 then 1 else if prefix && base == 16 then 2 else 0
    ensures var h := HeadSize(negative, base, prefix);
            var spaces := Spaces(h + |body|, width, fill);
            var numeral := if fill == '0' && |body| < width - h then width - h else |body|;
            && |spaces| + h + numeral == |text|
            && text[..|text| - numeral] == spaces + SignText(if negative then -1 else 0) + PrefixText(base, prefix)
            && (fill == '0' ==> width - h <= |text| && spaces == ""
                                && forall k | |text| - (width - h) <= k < |text| - |body| :: text[k] == '0')
            && (fill != '0' ==> width <= |text| && |text| == (if h + |body| < width then width else h + |body|)
                                && forall k | |text| - width <= k < |spaces| :: text[k] == fill)
    ensures |SignText(if negative then -1 else 0) + PrefixText(base, prefix)| == HeadSize(negative, base, prefix)
  {
    HeadIs(value, negative, base, prefix);
    var head, h := SignText(value) + PrefixText(base, prefix), HeadSize(negative, base, prefix);
    hide *;
    var spaces, zeros := Spaces(h + |body|, width, fill), Zeros(h + |body|, width, fill);
    Paddings(h + |body|, width, fill);
    Pieces(spaces, head, zeros, body, text);
    HeadParts(spaces, SignText(value), PrefixText(base, prefix));
  }

  lemma HeadIs(value: int, negative: bool, base: nat, prefix: bool)
    requires negative <==> value < 0
    ensures SignText(value) == SignText(if negative then -1 else 0)
    ensures |SignText(value) + PrefixText(base, prefix)| == HeadSize(negative, base, prefix)
         == (if negative then 1 else 0) + if prefix && base == 8 then 1 else if prefix && base == 16 then 2 else 0
  {
  }

  lemma HeadParts(spaces: string, sign: string, prefix: string)
    ensures spaces + (sign + prefix) == spaces + sign + prefix
  {
  }

  lemma Paddings(length: nat, width: int, fill: char)
    ensures |Spaces(length, width, fill)| == if fill == '0' || width <= length then 0 else width - length
    ensures |Zeros(length, width, fill)| == if fill != '0' || width <= length then 0 else width - length
    ensures forall k | 0 <= k < |Spaces(length, width, fill)| :: Spaces(length, width, fill)[k] == fill
    ensures forall k | 0 <= k < |Zeros(length, width, fill)| :: Zeros(length, width, fill)[k] == '0'
  {
  }

  lemma Pieces(spaces: string, head: string, zeros: string, body: string, text: string)
    requires text == spaces + head + zeros + body
    ensures text[..|spaces| + |head|] == spaces + head
    ensures forall k | 0 <= k < |spaces| :: text[k] == spaces[k]
    ensures forall k | |spaces| + |head| <= k < |text| - |body| :: text[k] == zeros[k - |spaces| - |head|]
  {
  }

  /** The terminator and the reversal. */
  method Finish(buffer: array<char>, cur: nat, ghost text: string)
    requires cur == |text| < buffer.Length && Holds(buffer[..], cur, text)
    modifies buffer
    ensures buffer[..] == text + ['\0'] + old(buffer[cur + 1..])
  {
    hide *;
    HoldsReversed(buffer[..], cur, text);
    ghost var before := buffer[..];
    buffer[cur] := '\0';
    assert buffer[..cur] == before[..cur] && buffer[cur..] == ['\0'] + before[cur + 1..];
    ReverseInPlace(buffer, cur);
  }

  lemma PrintedParts(buffer: seq<char>, text: string, tail: seq<char>, size: nat)
    requires buffer == text + ['\0'] + tail && size <= |buffer|
    ensures buffer[..|text|] == text && buffer[|text|] == '\0'
    ensures |text| < size ==> buffer[size..] == tail[size - |text| - 1..]
  {
  }

  lemma HoldsReversed(buffer: seq<char>, cur: nat, text: string)
    requires cur == |text| <= |buffer| && Holds(buffer, cur, text)
    ensures Reversed(buffer[..cur]) == text
  {
  }

  /** The reversal of the first n characters, from both ends. */
  method ReverseInPlace(buffer: array<char>, n: nat)
    requires n <= buffer.Length
    modifies buffer
    ensures buffer[..] == Reversed(old(buffer[..n])) + old(buffer[n..])
  {
    var ptrr, ptr := 0, n - 1;
    while ptrr < ptr
      invariant 0 <= ptrr <= n && ptr == n - 1 - ptrr && ptrr <= ptr + 2
      invariant forall k | 0 <= k < buffer.Length ::
                  buffer[k] == if k < n && (k < ptrr || ptr < k) then old(buffer[n - 1 - k]) else old(buffer[k])
    {
      var tmp := buffer[ptr];
      buffer[ptr] := buffer[ptrr];
      buffer[ptrr] := tmp;
      ptr, ptrr := ptr - 1, ptrr + 1;
    }
  }

  lemma FormattedLayout(value: int, base: nat, prefix: bool, width: int, fill: char, thSep: char)
    requires 2 <= base <= 16
    ensures var text, body := Formatted(value, base, prefix, width, fill, thSep), Body(Abs(value), base, thSep, 0);
            var head := SignText(value) + PrefixText(base, prefix);
            && text == Spaces(|head| + |body|, width, fill) + head + Zeros(|head| + |body|, width, fill) + body
            && |body| <= |text| && text == text[..|text| - |body|] + body
  {
  }

  datatype Outcome = Printed(size: nat) | BadBase | RangeException

  /**
   intToStr. The contract asks only that a text that fills the given size exactly leave room for the
   terminator, which is written without a bounds check.
   */
  method IntToStr(value: int, base: nat, result: array<char>, size: nat,
                  prefix: bool, width: int, fill: char, thSep: char) returns (o: Outcome)
    requires 0 < size <= result.Length
    requires 2 <= base <= 16 && |Formatted(value, base, prefix, width, fill, thSep)| == size ==> size < result.Length
    modifies result
    ensures o.BadBase? <==> !(2 <= base <= 16)
    ensures o.BadBase? ==> result[..] == old(result[..])[0 := '\0']
    ensures o.RangeException? <==> 2 <= base <= 16 && |Formatted(value, base, prefix, width, fill, thSep)| > size
    ensures o.RangeException? ==> result[size..] == old(result[size..])
    ensures o.Printed? ==>
              var text := Formatted(value, base, prefix, width, fill, thSep);
              && o.size == |text| && result[..o.size] == text && result[o.size] == '\0'
              && (o.size < size ==> result[size..] == old(result[size..]))
  {
    if base < 2 || base > 16 {
      result[0] := '\0';
      return BadBase;
    }
    hide *;
    ghost var text, body := Formatted(value, base, prefix, width, fill, thSep), Body(Abs(value), base, thSep, 0);
    FormattedLayout(value, base, prefix, width, fill, thSep);
    var ok, cur, tmpVal := PutDigits(value, base, thSep, result, size, text[..|text| - |body|], text);
    if !ok {
      return RangeException;
    }
    ok, cur := PutRest(value, tmpVal < 0, base, prefix, width, fill, result, cur, size, body, text);
    if !ok {
      return RangeException;
    }
    ghost var tail := result[cur + 1..];
    Finish(result, cur, text);
    PrintedParts(result[..], text, tail, size);
    return Printed(cur);
  }

  /** uIntToStr: the same for unsigned types, without the sign. */
  method UIntToStr(value: nat, base: nat, result: array<char>, size: nat,
                   prefix: bool, width: int, fill: char, thSep: char) returns (o: Outcome)
    requires 0 < size <= result.Length
    requires 2 <= base <= 16 && |Formatted(value, base, prefix, width, fill, thSep)| == size ==> size < result.Length
    modifies result
    ensures o.BadBase? <==> !(2 <= base <= 16)
    ensures o.BadBase? ==> result[..] == old(result[..])[0 := '\0']
    ensures o.RangeException? <==> 2 <= base <= 16 && |Formatted(value, base, prefix, width, fill, thSep)| > size
    ensures o.RangeException? ==> result[size..] == old(result[size..])
    ensures o.Printed? ==>
              var text := Formatted(value, base, prefix, width, fill, thSep);
              && o.size == |text| && result[..o.size] == text && result[o.size] == '\0'
              && (o.size < size ==> result[size..] == old(result[size..]))
  {
    if base < 2 || base > 16 {
      result[0] := '\0';
      return BadBase;
    }
    hide *;
    ghost var text, body := Formatted(value, base, prefix, width, fill, thSep), Body(Abs(value), base, thSep, 0);
    FormattedLayout(value, base, prefix, width, fill, thSep);
    var ok, cur, _ := PutDigits(value, base, thSep, result, size, text[..|text| - |body|], text);
    if !ok {
      return RangeException;
    }
    ok, cur := PutRest(value, false, base, prefix, width, fill, result, cur, size, body, text);
    if !ok {
      return RangeException;
    }
    ghost var tail := result[cur + 1..];
    Finish(result, cur, text);
    PrintedParts(result[..], text, tail, size);
    return Printed(cur);
  }
}
