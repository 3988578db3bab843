/** poco/NumericString.h, strToInt: parsing with an overflow check, and what it has to do with printing. */
module NumericParsing {
  import opened Options
  import opened NumericStrings

  /** The range of the integer type the template is instantiated with: unsigned, or two's complement. */
  datatype IntType = IntType(min: int, max: int) {
    predicate Valid() {
      max > 0 && (min == 0 || min == -max - 1)
    }

    /** Conversion to the type. */
    function Wrap(x: int): int
      requires Valid()
    {
      (x - min) % (max - min + 1) + min
    }
  }

  lemma WrapInRange(t: IntType, x: int)
    requires t.Valid() && t.min <= x <= t.max
    ensures t.Wrap(x) == x
  {
    SmallRemainder(x - t.min, t.max - t.min + 1);
  }

  lemma SmallRemainder(a: nat, n: nat)
    requires a < n
    ensures a % n == a
  {
  }

  /** The digits the switch accepts: 0 to 7 in every base, 8 and 9 in bases 10 and 16, letters in base 16. */
  function DigitOf(c: char, base: nat): Option<nat> {
    if '0' <= c <= '7' then Some((c - '0') as nat)
    else if '8' <= c <= '9' && (base == 10 || base == 16) then Some((c - '0') as nat)
    else if 'a' <= c <= 'f' && base == 16 then Some(10 + (c - 'a') as nat)
    else if 'A' <= c <= 'F' && base == 16 then Some(10 + (c - 'A') as nat)
    else None
  }

  /** Characters skipped as thousand separators. */
  predicate IsSkipped(c: char, base: nat, thSep: char) {
    base == 10 && c == thSep && c in ['.', ',', ' ']
  }

  predicate IsSpace(c: char) { c in [' ', '\t', '\n', '\r', '\U{000B}', '\U{000C}'] }

  function SkipSpaces(s: string): string {
    if s != "" && IsSpace(s[0]) then SkipSpaces(s[1..]) else s
  }

  /** The character loop from the accumulated result on; significant says that a digit other than a leading zero was read. */
  function Scan(t: IntType, base: nat, thSep: char, s: string, result: int, significant: bool): Option<int>
    requires t.Valid() && base > 0
  {
    if s == "" || s[0] == '\0' then Some(result)
    else if s[0] == '0' && !significant then Scan(t, base, thSep, s[1..], result, significant)
    else match DigitOf(s[0], base)
      case Some(d) =>
        if result > t.max / base then None
        else Scan(t, base, thSep, s[1..], t.Wrap(result * base + d), true)
      case None =>
        if IsSkipped(s[0], base, thSep) then Scan(t, base, thSep, s[1..], result, significant) else None
  }

  lemma ScanDigit(t: IntType, base: nat, thSep: char, s: string, result: int, significant: bool)
    requires t.Valid() && base > 0
    requires s != "" && DigitOf(s[0], base).Some? && (s[0] == '0' ==> significant)
    ensures Scan(t, base, thSep, s, result, significant)
         == if result > t.max / base then None
            else Scan(t, base, thSep, s[1..], t.Wrap(result * base + DigitOf(s[0], base).value), true)
  {
  }

  lemma ScanSkip(t: IntType, base: nat, thSep: char, s: string, result: int, significant: bool)
    requires t.Valid() && base > 0
    requires s != "" && ((s[0] == '0' && !significant) || IsSkipped(s[0], base, thSep))
    ensures Scan(t, base, thSep, s, result, significant) == Scan(t, base, thSep, s[1..], result, significant)
  {
  }

  lemma ScanStops(t: IntType, base: nat, thSep: char, s: string, result: int, significant: bool)
    requires t.Valid() && base > 0
    requires s == "" || s[0] == '\0' || (DigitOf(s[0], base).None? && !IsSkipped(s[0], base, thSep))
    ensures Scan(t, base, thSep, s, result, significant) == if s == "" || s[0] == '\0' then Some(result) else None
  {
  }

  /** strToInt on the characters up to the terminator: None for false. */
  function ParseInt(s: string, t: IntType, base: nat, thSep: char): Option<int>
    requires t.Valid() && base > 0
  {
    var p := SkipSpaces(s);
    if p == "" || p[0] == '\0' then None
    else if base == 10 && p[0] == '-' then
      if t.min >= 0 then None
      else
        match Scan(t, base, thSep, p[1..], 0, false)
        case None => None
        case Some(r) => Some(t.Wrap(-r))
    else if p[0] == '+' then Scan(t, base, thSep, p[1..], 0, false)
    else Scan(t, base, thSep, p, 0, false)
  }

  method StrToInt(pStr: string, t: IntType, base: nat, thSep: char) returns (ok: bool, result: int)
    requires t.Valid() && base > 0
    ensures ok <==> ParseInt(pStr, t, base, thSep).Some?
    ensures ok ==> result == ParseInt(pStr, t, base, thSep).value
  {
    var at := 0;
    result := 0;
    assert pStr[0..] == pStr;
    while at < |pStr| && IsSpace(pStr[at])
      invariant at <= |pStr| && SkipSpaces(pStr) == SkipSpaces(pStr[at..])
    {
      at := at + 1;
    }
    assert SkipSpaces(pStr) == pStr[at..];
    if at == |pStr| || pStr[at] == '\0' {
      return false, result;
    }
    var sign := 1;
    if base == 10 && pStr[at] == '-' {
      if t.min >= 0 {
        return false, result;
      }
      sign, at := -1, at + 1;
    } else if pStr[at] == '+' {
      at := at + 1;
    }
    var scan := ScanLoop(pStr, at, t, base, thSep);
    if scan.None? {
      return false, result;
    }
    result := scan.value;
    if sign < 0 && base == 10 {
      result := t.Wrap(result * sign);
    }
    ok := true;
  }

  /** The character loop of strToInt. */
  method ScanLoop(pStr: string, start: nat, t: IntType, base: nat, thSep: char) returns (scan: Option<int>)
    requires t.Valid() && base > 0 && start <= |pStr|
    ensures scan == Scan(t, base, thSep, pStr[start..], 0, false)
  {
    hide Scan, IntType.Wrap;
    var at, result, significant, limitCheck := start, 0, false, t.max / base;
    while at < |pStr| && pStr[at] != '\0'
      invariant at <= |pStr|
      invariant Scan(t, base, thSep, pStr[start..], 0, false) == Scan(t, base, thSep, pStr[at..], result, significant)
    {
      var c := pStr[at];
      assert pStr[at..][1..] == pStr[at + 1..];
      if c == '0' && !significant {
        ScanSkip(t, base, thSep, pStr[at..], result, significant);
      } else {
        match DigitOf(c, base) {
          case Some(d) =>
            ScanDigit(t, base, thSep, pStr[at..], result, significant);
            significant := true;
            if result > limitCheck {
              return None;
            }
            result := t.Wrap(result * base + d);
          case None =>
            if !IsSkipped(c, base, thSep) {
              ScanStops(t, base, thSep, pStr[at..], result, significant);
              return None;
            }
            ScanSkip(t, base, thSep, pStr[at..], result, significant);
        }
      }
      at := at + 1;
    }
    ScanStops(t, base, thSep, pStr[at..], result, significant);
    return Some(result);
  }

  // ----- the value of a numeral -----

  /** The digit a character stands for, in any base that has it, by its ASCII code. */
  function NumeralDigit(c: char): Option<nat> {
    var code := c as int;
    if 48 <= code <= 57 then Some(code - 48)
    else if 65 <= code <= 70 then Some(code - 55)
    else if 97 <= code <= 102 then Some(code - 87)
    else None
  }

  /** The sixteen digits in order, in either case, and no other character. */
  lemma DigitTable(c: char, k: nat)
    ensures NumeralDigit(c) == Some(k)
       <==> k < 16 && (c == "0123456789abcdef"[k] || c == "0123456789ABCDEF"[k])
  {
  }

  /** The digits that strToInt reads: all sixteen in base 16, ten in base 10, and eight in any other base. */
  lemma DigitOfIs(c: char, base: nat)
    ensures DigitOf(c, base)
         == match NumeralDigit(c)
            case Some(d) => if d < (if base == 16 then 16 else if base == 10 then 10 else 8) then Some(d) else None
            case None => None
  {
  }

  /** What strToInt skips: white space in front, the characters 9 to 13 and 32. */
  lemma SpacesAre(c: char)
    ensures IsSpace(c) <==> 9 <= c as int <= 13 || c as int == 32
  {
  }

  /** And in base 10 the separator, when that is a comma, a full stop or a space. */
  lemma SeparatorsAre(c: char, base: nat, thSep: char)
    ensures IsSkipped(c, base, thSep) <==> base == 10 && c == thSep && c as int in {32, 44, 46}
  {
  }

  /** A legal numeral: digits below the base and skipped separators. In bases 9 and 11 to 15 only those below 8 are read. */
  predicate IsNumeral(s: string, base: nat, thSep: char) {
    forall k | 0 <= k < |s| :: IsNumeralChar(s[k], base, thSep)
  }

  predicate IsNumeralChar(c: char, base: nat, thSep: char) {
    match NumeralDigit(c)
    case Some(d) => d < base && (d < 8 || base in {10, 16})
    case None => IsSkipped(c, base, thSep)
  }

  /** strToInt reads the digits of a numeral for what they are. */
  lemma ReadAsIs(c: char, base: nat, thSep: char)
    requires IsNumeralChar(c, base, thSep)
    ensures DigitOf(c, base) == NumeralDigit(c)
  {
    DigitOfIs(c, base);
  }

  /** The number a numeral denotes after digits that denote acc. */
  function Value(s: string, base: nat, acc: nat): nat {
    if s == "" then acc
    else
      match NumeralDigit(s[0])
      case Some(d) => Value(s[1..], base, acc * base + d)
      case None => Value(s[1..], base, acc)
  }

  lemma {:induction false} ValueAppend(a: string, b: string, base: nat, acc: nat)
    ensures Value(a + b, base, acc) == Value(b, base, Value(a, base, acc))
  {
    if a == "" {
      assert a + b == b;
    } else {
      assert (a + b)[1..] == a[1..] + b;
      match NumeralDigit(a[0])
      case Some(d) => ValueAppend(a[1..], b, base, acc * base + d);
      case None => ValueAppend(a[1..], b, base, acc);
    }
  }

  lemma {:induction false} ValueGrows(s: string, base: nat, acc: nat)
    requires base >= 1
    ensures acc <= Value(s, base, acc)
  {
    if s != "" {
      match NumeralDigit(s[0])
      case Some(d) =>
        assert acc <= acc * base;
        ValueGrows(s[1..], base, acc * base + d);
      case None =>
        ValueGrows(s[1..], base, acc);
    }
  }

  /** A numeral that fits the type is read exactly: neither the limit check nor a wrap gets in the way. */
  lemma {:induction false} ScanExact(t: IntType, base: nat, thSep: char, s: string, acc: nat, significant: bool)
    requires t.Valid() && base >= 1 && IsNumeral(s, base, thSep)
    requires significant || acc == 0
    requires Value(s, base, acc) <= t.max
    ensures Scan(t, base, thSep, s, acc, significant) == Some(Value(s, base, acc))
  {
    if s == "" {
      ScanStops(t, base, thSep, s, acc, significant);
    } else {
      assert IsNumeralChar(s[0], base, thSep) && IsNumeral(s[1..], base, thSep);
      ReadAsIs(s[0], base, thSep);
      assert s[0] == '0' ==> NumeralDigit(s[0]) == Some(0);
      hide Scan, DigitOf, NumeralDigit, IntType.Wrap;
      match DigitOf(s[0], base)
      case Some(d) =>
        if s[0] == '0' && !significant {
          ScanSkip(t, base, thSep, s, acc, significant);
          ScanExact(t, base, thSep, s[1..], acc, significant);
        } else {
          ValueGrows(s[1..], base, acc * base + d);
          QuotientBound(acc, base, d, t.max);
          WrapInRange(t, acc * base + d);
          ScanDigit(t, base, thSep, s, acc, significant);
          ScanExact(t, base, thSep, s[1..], acc * base + d, true);
        }
      case None =>
        ScanSkip(t, base, thSep, s, acc, significant);
        ScanExact(t, base, thSep, s[1..], acc, significant);
    }
  }

  lemma QuotientBound(acc: nat, base: nat, d: nat, max: nat)
    requires base >= 1 && acc * base + d <= max
    ensures acc <= max / base
  {
    QuotientMonotonic(acc * base, max, base);
    QuotientUnique(acc * base, base, acc, 0);
  }

  lemma QuotientMonotonic(x: nat, y: nat, base: nat)
    requires base >= 1 && x <= y
    ensures x / base <= y / base
  {
    var qx, qy := x / base, y / base;
    assert x == qx * base + x % base && y == qy * base + y % base;
    assert qx * base < (qy + 1) * base;
    CancelFactor(qx, qy + 1, base);
  }

  lemma CancelFactor(a: int, b: int, c: nat)
    requires a * c < b * c
    ensures a < b
  {
  }

  /** In a base that divides max + 1, a numeral that does not fit is refused. */
  lemma {:induction false} ScanOverflow(t: IntType, base: nat, thSep: char, s: string, acc: nat, significant: bool)
    requires t.Valid() && base >= 1 && IsNumeral(s, base, thSep)
    requires (t.max + 1) % base == 0
    requires significant || acc == 0
    requires acc <= t.max < Value(s, base, acc)
    ensures Scan(t, base, thSep, s, acc, significant) == None
  {
    hide Scan, IntType.Wrap;
    assert IsNumeralChar(s[0], base, thSep) && IsNumeral(s[1..], base, thSep);
    ReadAsIs(s[0], base, thSep);
    match DigitOf(s[0], base)
    case Some(d) =>
      if s[0] == '0' && !significant {
        ScanSkip(t, base, thSep, s, acc, significant);
        ScanOverflow(t, base, thSep, s[1..], acc, significant);
      } else {
        ScanDigit(t, base, thSep, s, acc, significant);
        if acc <= t.max / base {
          NextDigitFits(acc, base, d, t.max);
          WrapInRange(t, acc * base + d);
          ScanOverflow(t, base, thSep, s[1..], acc * base + d, true);
        }
      }
    case None =>
      ScanSkip(t, base, thSep, s, acc, significant);
      ScanOverflow(t, base, thSep, s[1..], acc, significant);
  }

  lemma NextDigitFits(acc: nat, base: nat, d: nat, max: nat)
    requires base >= 1 && d < base && acc <= max / base && (max + 1) % base == 0
    ensures acc * base + d <= max
  {
    var q := (max + 1) / base;
    assert max + 1 == q * base;
    assert max / base == q - 1 by {
      assert max == (q - 1) * base + (base - 1);
      QuotientUnique(max, base, q - 1, base - 1);
    }
    assert acc * base <= (q - 1) * base;
  }

  lemma QuotientUnique(x: nat, base: nat, q: int, r: nat)
    requires base >= 1 && x == q * base + r && r < base
    ensures x / base == q
  {
    var q' := x / base;
    assert x == q' * base + x % base;
    assert q' * base < (q + 1) * base && q * base < (q' + 1) * base;
    CancelFactor(q', q + 1, base);
    CancelFactor(q, q' + 1, base);
  }

  /** A numeral the way strToInt may meet it: optional white space, then a digit or separator first. */
  predicate IsUnsignedText(spaces: string, s: string, base: nat, thSep: char) {
    && s != "" && IsNumeral(s, base, thSep) && !IsSpace(s[0])
    && forall k | 0 <= k < |spaces| :: IsSpace(spaces[k])
  }

  lemma {:induction false} SkipSpacesPrefix(spaces: string, s: string)
    requires forall k | 0 <= k < |spaces| :: IsSpace(spaces[k])
    requires s != "" && !IsSpace(s[0])
    ensures SkipSpaces(spaces + s) == s
  {
    if spaces == "" {
      assert spaces + s == s;
    } else {
      assert (spaces + s)[1..] == spaces[1..] + s;
      SkipSpacesPrefix(spaces[1..], s);
    }
  }

  lemma ParseUnsigned(spaces: string, s: string, t: IntType, base: nat, thSep: char)
    requires t.Valid() && base >= 1 && IsUnsignedText(spaces, s, base, thSep)
    ensures ParseInt(spaces + s, t, base, thSep) == Scan(t, base, thSep, s, 0, false)
  {
    SkipSpacesPrefix(spaces, s);
    assert IsNumeralChar(s[0], base, thSep);
  }

  /** A numeral is read with its exact value if and only if that value fits the type, in every base. */
  lemma ParsedExactlyIffFits(spaces: string, s: string, t: IntType, base: nat, thSep: char)
    requires t.Valid() && base >= 1 && IsUnsignedText(spaces, s, base, thSep)
    ensures ParseInt(spaces + s, t, base, thSep) == Some(Value(s, base, 0)) <==> Value(s, base, 0) <= t.max
  {
    ParseUnsigned(spaces, s, t, base, thSep);
    if Value(s, base, 0) <= t.max {
      ScanExact(t, base, thSep, s, 0, false);
    } else {
      ScanInRange(t, base, thSep, s, 0, false);
    }
  }

  lemma {:induction false} ScanInRange(t: IntType, base: nat, thSep: char, s: string, result: int, significant: bool)
    requires t.Valid() && base >= 1 && t.min <= result <= t.max
    ensures var r := Scan(t, base, thSep, s, result, significant); r.Some? ==> t.min <= r.value <= t.max
  {
    hide Scan, IntType.Wrap;
    if s == "" || s[0] == '\0' || (DigitOf(s[0], base).None? && !IsSkipped(s[0], base, thSep)) {
      ScanStops(t, base, thSep, s, result, significant);
    } else if DigitOf(s[0], base).None? || (s[0] == '0' && !significant) {
      ScanSkip(t, base, thSep, s, result, significant);
      ScanInRange(t, base, thSep, s[1..], result, significant);
    } else {
      ScanDigit(t, base, thSep, s, result, significant);
      var x := result * base + DigitOf(s[0], base).value;
      WrapLandsInRange(t, x);
      ScanInRange(t, base, thSep, s[1..], t.Wrap(x), true);
    }
  }

  lemma WrapLandsInRange(t: IntType, x: int)
    requires t.Valid()
    ensures t.min <= t.Wrap(x) <= t.max
  {
  }

  /** In a base that divides max + 1 the overflow check is exact: success means that the value fits. */
  lemma OverflowCheckExact(spaces: string, s: string, t: IntType, base: nat, thSep: char)
    requires t.Valid() && base >= 1 && (t.max + 1) % base == 0 && IsUnsignedText(spaces, s, base, thSep)
    ensures ParseInt(spaces + s, t, base, thSep)
         == if Value(s, base, 0) <= t.max then Some(Value(s, base, 0)) else None
  {
    ParseUnsigned(spaces, s, t, base, thSep);
    if Value(s, base, 0) <= t.max {
      ScanExact(t, base, thSep, s, 0, false);
    } else {
      ScanOverflow(t, base, thSep, s, 0, false);
    }
  }

  // ----- printed text is parsed back -----

  /** The bases whose digits strToInt reads. */
  predicate IsParsedBase(base: nat) { 2 <= base <= 8 || base == 10 || base == 16 }

  lemma PrintedDigit(d: nat, base: nat)
    requires IsParsedBase(base) && d < base
    ensures DigitOf(DigitChar(d), base) == Some(d) == NumeralDigit(DigitChar(d))
  {
    DigitOfIs(DigitChar(d), base);
  }

  /** The digits printed for m are a legal numeral that denotes m. */
  lemma {:induction false} BodyDenotes(m: nat, base: nat, thSep: char, count: nat)
    requires IsParsedBase(base) && count < 3 && thSep in ['\0', ',']
    ensures var body := Body(m, base, thSep, count);
            IsNumeral(body, base, ',') && Value(body, base, 0) == m
    decreases m
  {
    hide Body, BodyRest, Value, IsNumeral;
    BodySplit(m, base, thSep, count);
    QuotientShrinks(m, base);
    var rest := BodyRest(m, base, thSep, count);
    if m / base == 0 {
      EmptyDenotes(base);
    } else {
      BodyDenotes(m / base, base, thSep, if base == 10 && thSep != '\0' then (count + 1) % 3 else count);
    }
    DigitDenotes(rest, if base == 10 && thSep != '\0' && count == 2 then [thSep] else "", m, base);
  }

  lemma EmptyDenotes(base: nat)
    ensures IsNumeral("", base, ',') && Value("", base, 0) == 0
  {
  }

  lemma DigitDenotes(rest: string, sep: string, m: nat, base: nat)
    requires IsParsedBase(base) && (sep == "" || (sep == "," && base == 10))
    requires IsNumeral(rest, base, ',') && Value(rest, base, 0) == m / base
    ensures var body := rest + sep + [DigitChar(m % base)];
            IsNumeral(body, base, ',') && Value(body, base, 0) == m
  {
    var digit := [DigitChar(m % base)];
    PrintedDigit(m % base, base);
    ValueAppend(rest, sep, base, 0);
    ValueAppend(rest + sep, digit, base, 0);
    assert Value(digit, base, m / base) == Value("", base, m / base * base + m % base);
    DivModIdentity(m, base);
  }

  /** Leading zeros change nothing. */
  lemma {:induction false} ZerosDenoteNothing(zeros: string, s: string, base: nat)
    requires forall k | 0 <= k < |zeros| :: zeros[k] == '0'
    ensures Value(zeros + s, base, 0) == Value(s, base, 0)
  {
    if zeros == "" {
      assert zeros + s == s;
    } else {
      assert (zeros + s)[1..] == zeros[1..] + s;
      ZerosDenoteNothing(zeros[1..], s, base);
    }
  }

  /** The part of the printed text after spaces and sign, for anything but a prefixed hexadecimal number. */
  lemma NumeralDenotes(m: nat, base: nat, prefix: bool, zeros: string, thSep: char)
    requires IsParsedBase(base) && thSep in ['\0', ',']
    requires forall k | 0 <= k < |zeros| :: zeros[k] == '0'
    ensures var numeral := PrefixText(base, prefix) + zeros + Body(m, base, thSep, 0);
            numeral != "" && (!(prefix && base == 16) ==> IsNumeral(numeral, base, ',') && Value(numeral, base, 0) == m)
  {
    var body := Body(m, base, thSep, 0);
    BodyDenotes(m, base, thSep, 0);
    if !(prefix && base == 16) {
      var allZeros := PrefixText(base, prefix) + zeros;
      ZerosDenoteNothing(allZeros, body, base);
      assert forall k | 0 <= k < |allZeros| :: IsNumeralChar(allZeros[k], base, ',');
    }
  }

  /**
   Printing and parsing back gives the value exactly when no "0x" was asked for. The type's most negative value is
   excluded, because parsing it overflows a signed type; negative values are parsed in base 10 only.
   */
  lemma PrintParseRoundTrip(v: int, t: IntType, base: nat, prefix: bool, width: int, fill: char, thSep: char)
    requires t.Valid() && t.min <= v <= t.max && -v <= t.max
    requires IsParsedBase(base) && (v < 0 ==> base == 10)
    requires fill in [' ', '0'] && thSep in ['\0', ',']
    ensures ParseInt(Formatted(v, base, prefix, width, fill, thSep), t, base, ',')
         == if prefix && base == 16 then None else Some(v)
  {
    hide *;
    ParsedBaseRange(base);
    var spaces, zeros := FormattedParts(v, base, prefix, width, fill, thSep);
    var rest := zeros + Body(Abs(v), base, thSep, 0);
    var numeral := PrefixText(base, prefix) + zeros + Body(Abs(v), base, thSep, 0);
    NumeralDenotes(Abs(v), base, prefix, zeros, thSep);
    Texts(v, base, prefix);
    if prefix && base == 16 {
      HexPrefixRefused(spaces, v, rest, t);
      assert SignText(v) + numeral == SignText(v) + ("0x" + rest);
    } else if v < 0 {
      RangeOfType(t);
      SignedExactlyIffFits(spaces, numeral, t, base, ',');
    } else {
      assert SignText(v) + numeral == numeral;
      NumeralStarts(numeral, base);
      UnsignedText(spaces, numeral, base);
      ParsedExactlyIffFits(spaces, numeral, t, base, ',');
    }
  }

  lemma ParsedBaseRange(base: nat)
    requires IsParsedBase(base)
    ensures 2 <= base <= 16
  {
  }

  lemma Texts(v: int, base: nat, prefix: bool)
    ensures SignText(v) == (if v < 0 then "-" else "") && Abs(v) == (if v < 0 then -v else v)
    ensures prefix && base == 16 ==> PrefixText(base, prefix) == "0x"
  {
  }

  /** The printed text is white space, a sign, a prefix, zeros and digits. */
  lemma FormattedParts(v: int, base: nat, prefix: bool, width: int, fill: char, thSep: char)
    returns (spaces: string, zeros: string)
    requires 2 <= base <= 16 && fill in [' ', '0']
    ensures Formatted(v, base, prefix, width, fill, thSep)
         == spaces + (SignText(v) + (PrefixText(base, prefix) + zeros + Body(Abs(v), base, thSep, 0)))
    ensures forall k | 0 <= k < |spaces| :: IsSpace(spaces[k])
    ensures forall k | 0 <= k < |zeros| :: zeros[k] == '0'
  {
    hide *;
    var body := Body(Abs(v), base, thSep, 0);
    var head := SignText(v) + PrefixText(base, prefix);
    FormattedLayout(v, base, prefix, width, fill, thSep);
    spaces, zeros := Spaces(|head| + |body|, width, fill), Zeros(|head| + |body|, width, fill);
    Paddings(|head| + |body|, width, fill);
    Regroup(spaces, SignText(v), PrefixText(base, prefix), zeros, body);
  }

  lemma Paddings(length: nat, width: int, fill: char)
    requires fill in [' ', '0']
    ensures forall k | 0 <= k < |Spaces(length, width, fill)| :: IsSpace(Spaces(length, width, fill)[k])
    ensures forall k | 0 <= k < |Zeros(length, width, fill)| :: Zeros(length, width, fill)[k] == '0'
  {
  }

  lemma Regroup(a: string, b: string, c: string, d: string, e: string)
    ensures a + (b + c) + d + e == a + (b + (c + d + e))
  {
  }

  lemma UnsignedText(spaces: string, s: string, base: nat)
    requires IsParsedBase(base) && s != "" && IsNumeral(s, base, ',') && !IsSpace(s[0])
    requires forall k | 0 <= k < |spaces| :: IsSpace(spaces[k])
    ensures base >= 2 && IsUnsignedText(spaces, s, base, ',')
  {
  }

  lemma NumeralStarts(s: string, base: nat)
    requires s != "" && IsNumeral(s, base, ',')
    ensures !IsSpace(s[0])
  {
    assert IsNumeralChar(s[0], base, ',');
  }

  lemma HexPrefixRefused(spaces: string, v: int, s: string, t: IntType)
    requires t.Valid() && v >= 0 && forall k | 0 <= k < |spaces| :: IsSpace(spaces[k])
    ensures ParseInt(spaces + (SignText(v) + ("0x" + s)), t, 16, ',') == None
  {
    var p := "0x" + s;
    assert SignText(v) + p == p;
    SkipSpacesPrefix(spaces, p);
    assert p[1..][0] == 'x';
    ScanSkip(t, 16, ',', p, 0, false);
    ScanStops(t, 16, ',', p[1..], 0, false);
  }

  /** Conversion to the type lands in its range, a multiple of the range's size away. */
  lemma WrapIs(t: IntType, x: int)
    requires t.Valid()
    ensures t.min <= t.Wrap(x) <= t.max && exists k: int :: x == t.Wrap(x) + Turns(t, k)
  {
    var size := t.max - t.min + 1;
    var k := (x - t.min) / size;
    assert x - t.min == size * k + (x - t.min) % size;
    assert x == t.Wrap(x) + Turns(t, k);
  }

  function Turns(t: IntType, k: int): int { (t.max - t.min + 1) * k }

  // ----- plain decimals -----

  /** The decimal digits of m without leading zeros. */
  predicate IsPlain(s: string, m: nat) {
    s != "" && (forall k | 0 <= k < |s| :: '0' <= s[k] <= '9') && (s[0] == '0' ==> s == "0") && Value(s, 10, 0) == m
  }

  lemma {:induction false} BodyIsPlain(m: nat)
    ensures IsPlain(Body(m, 10, '\0', 0), m) && (m > 0 ==> Body(m, 10, '\0', 0)[0] != '0')
  {
    BodySplit(m, 10, '\0', 0);
    BodyDenotes(m, 10, '\0', 0);
    QuotientShrinks(m, 10);
    if m / 10 != 0 {
      BodyIsPlain(m / 10);
    }
  }

  /** lexical_cast<string> of a number: its sign and its plain digits, nothing else. */
  lemma PlainDecimal(v: int)
    ensures var s := Formatted(v, 10, false, -1, ' ', '\0');
            if v < 0 then s[0] == '-' && IsPlain(s[1..], -v) else IsPlain(s, v)
  {
    BodyIsPlain(Abs(v));
    hide Body, Value;
    var body := Body(Abs(v), 10, '\0', 0);
    assert Formatted(v, 10, false, -1, ' ', '\0') == SignText(v) + body;
    assert if v < 0 then (SignText(v) + body)[1..] == body else SignText(v) + body == body;
  }

  // ----- what is refused -----

  /** A character that is no digit of the base and no separator makes the scan fail, wherever it stands. */
  lemma {:induction false} ScanRefuses(
    t: IntType, base: nat, thSep: char, s: string, k: nat, result: int, significant: bool
  )
    requires t.Valid() && base >= 1 && k < |s| && forall i | 0 <= i <= k :: s[i] != '\0'
    requires DigitOf(s[k], base).None? && !IsSkipped(s[k], base, thSep)
    ensures Scan(t, base, thSep, s, result, significant) == None
  {
    hide DigitOf, IsSkipped, IntType.Wrap;
    if k > 0 {
      if DigitOf(s[0], base).Some? {
        ScanRefuses(t, base, thSep, s[1..], k - 1, t.Wrap(result * base + DigitOf(s[0], base).value), true);
      }
      ScanRefuses(t, base, thSep, s[1..], k - 1, result, significant);
    } else {
      DigitOfIs(s[0], base);
    }
  }

  /** strToInt refuses such a text: the digits 8 and 9 and the letters in all bases but 10 and 16 are such characters. */
  lemma BadCharacterRefused(spaces: string, s: string, t: IntType, base: nat, thSep: char, k: nat)
    requires t.Valid() && base >= 1 && forall i | 0 <= i < |spaces| :: IsSpace(spaces[i])
    requires k < |s| && !IsSpace(s[0]) && s[0] !in {'+', '-'} && forall i | 0 <= i <= k :: s[i] != '\0'
    requires match NumeralDigit(s[k])
             case Some(d) => d >= (if base == 16 then 16 else if base == 10 then 10 else 8)
             case None => !IsSkipped(s[k], base, thSep)
    ensures ParseInt(spaces + s, t, base, thSep) == None
  {
    hide DigitOf, Scan;
    DigitOfIs(s[k], base);
    SeparatorsAre(s[k], base, thSep);
    SkipSpacesPrefix(spaces, s);
    ScanRefuses(t, base, thSep, s, k, 0, false);
  }

  // ----- where the overflow check is not exact -----

  lemma DigitAdds(s: string, base: nat, v: nat)
    requires s != "" && base >= 2 && v > 0 && DigitOf(s[0], base).Some?
    ensures Value(s, base, v) > v
  {
    var next := v * base + DigitOf(s[0], base).value;
    assert Value(s, base, v) == Value(s[1..], base, next);
    hide *;
    ValueGrows(s[1..], base, next);
    AtLeastTwice(v, base);
  }

  lemma AtLeastTwice(v: nat, base: nat)
    requires base >= 2
    ensures v * base >= v * 2
  {
  }

  /** Behind the value, no digit can follow that leaves it as it is. */
  lemma {:induction false} NoMoreDigits(t: IntType, base: nat, thSep: char, s: string, tail: string, v: nat, result: int)
    requires t.Valid() && base >= 2 && IsNumeral(s, base, thSep) && v > 0 && Value(s, base, v) == v
    ensures Scan(t, base, thSep, s + tail, result, true) == Scan(t, base, thSep, tail, result, true)
  {
    if s == "" {
      assert s + tail == tail;
    } else {
      hide Scan;
      assert (s + tail)[0] == s[0] && (s + tail)[1..] == s[1..] + tail;
      assert IsNumeralChar(s[0], base, thSep) && IsNumeral(s[1..], base, thSep);
      assert DigitOf(s[0], base).None? by {
        if DigitOf(s[0], base).Some? {
          DigitAdds(s, base, v);
        }
      }
      ScanSkip(t, base, thSep, s + tail, result, true);
      NoMoreDigits(t, base, thSep, s[1..], tail, v, result);
    }
  }

  /** In a base that does not divide max + 1 that value passes the limit check, wraps, and the scan goes on. */
  lemma {:induction false} ScanWraps(
    t: IntType, base: nat, thSep: char, s: string, tail: string, acc: nat, significant: bool
  )
    requires t.Valid() && base >= 2 && (t.max + 1) % base != 0 && IsNumeral(s, base, thSep)
    requires (significant || acc == 0) && acc <= t.max && Value(s, base, acc) == t.max + 1
    ensures Scan(t, base, thSep, s + tail, acc, significant) == Scan(t, base, thSep, tail, t.Wrap(t.max + 1), true)
  {
    assert s != "";
    hide *;
    NumeralStep(s, tail, base, thSep, acc);
    if DigitOf(s[0], base).None? || (s[0] == '0' && !significant) {
      ScanSkip(t, base, thSep, s + tail, acc, significant);
      ScanWraps(t, base, thSep, s[1..], tail, acc, significant);
    } else {
      var v := DigitTaken(t, base, thSep, s, tail, acc, significant);
      if v <= t.max {
        ScanWraps(t, base, thSep, s[1..], tail, v, true);
      } else {
        NoMoreDigits(t, base, thSep, s[1..], tail, v, t.Wrap(v));
      }
    }
  }

  /** One digit of such a numeral: it stays in range, or it is the last one and wraps. */
  lemma DigitTaken(t: IntType, base: nat, thSep: char, s: string, tail: string, acc: nat, significant: bool) returns (v: nat)
    requires t.Valid() && base >= 2 && (t.max + 1) % base != 0 && s != "" && IsNumeral(s, base, thSep)
    requires acc <= t.max && Value(s, base, acc) == t.max + 1
    requires DigitOf(s[0], base).Some? && (s[0] == '0' ==> significant)
    ensures v <= t.max + 1 && Value(s[1..], base, v) == t.max + 1
    ensures Scan(t, base, thSep, s + tail, acc, significant)
         == Scan(t, base, thSep, s[1..] + tail, if v <= t.max then v else t.Wrap(v), true)
  {
    hide *;
    var d := DigitOf(s[0], base).value;
    v := acc * base + d;
    RangeOfType(t);
    NumeralStep(s, tail, base, thSep, acc);
    ValueGrows(s[1..], base, v);
    ScanDigit(t, base, thSep, s + tail, acc, significant);
    PassesLimit(acc, base, d, t.max);
    if v <= t.max {
      WrapInRange(t, v);
    }
  }

  lemma PassesLimit(acc: nat, base: nat, d: nat, max: nat)
    requires base >= 2 && d < base && acc * base + d <= max + 1 && (max + 1) % base != 0
    ensures acc <= max / base
  {
    if acc * base + d <= max {
      QuotientBound(acc, base, d, max);
    } else {
      LastDigit(acc, base, d, max);
    }
  }

  lemma NumeralStep(s: string, tail: string, base: nat, thSep: char, acc: nat)
    requires s != "" && IsNumeral(s, base, thSep)
    ensures (s + tail)[0] == s[0] && (s + tail)[1..] == s[1..] + tail && IsNumeral(s[1..], base, thSep)
    ensures match DigitOf(s[0], base)
            case Some(d) => d < base && Value(s, base, acc) == Value(s[1..], base, acc * base + d)
            case None => IsSkipped(s[0], base, thSep) && Value(s, base, acc) == Value(s[1..], base, acc)
    ensures s[0] == '0' ==> DigitOf(s[0], base) == Some(0) && (acc == 0 ==> Value(s, base, acc) == Value(s[1..], base, acc))
  {
    assert IsNumeralChar(s[0], base, thSep);
  }

  lemma LastDigit(acc: nat, base: nat, d: nat, max: nat)
    requires base >= 2 && d < base && acc * base + d == max + 1 && (max + 1) % base != 0
    ensures acc <= max / base
  {
    NoRemainder(acc, base);
    assert d == 0 ==> acc * base == max + 1;
    QuotientBound(acc, base, d - 1, max);
  }

  lemma NoRemainder(q: nat, base: nat)
    requires base > 0
    ensures q * base % base == 0
  {
    QuotientUnique(q * base, base, q, 0);
    assert q * base == q * base / base * base + q * base % base;
  }

  /** Every numeral of the smallest value that does not fit is accepted there, wrapped. */
  lemma SmallestOverflowAccepted(spaces: string, s: string, t: IntType, base: nat, thSep: char)
    requires t.Valid() && base >= 2 && (t.max + 1) % base != 0
    requires IsUnsignedText(spaces, s, base, thSep) && Value(s, base, 0) == t.max + 1
    ensures ParseInt(spaces + s, t, base, thSep) == Some(t.Wrap(t.max + 1))
  {
    hide Scan, IntType.Wrap;
    ParseUnsigned(spaces, s, t, base, thSep);
    ScanWraps(t, base, thSep, s, "", 0, false);
    assert s + "" == s;
    ScanStops(t, base, thSep, "", t.Wrap(t.max + 1), true);
  }

  lemma JoinedText(spaces: string, s: string, tail: string, base: nat, thSep: char)
    requires IsUnsignedText(spaces, s, base, thSep) && IsNumeral(tail, base, thSep)
    ensures IsNumeral(s, base, thSep) && IsUnsignedText(spaces, s + tail, base, thSep)
  {
    hide IsNumeralChar;
  }

  /** For an unsigned type the digits behind it are then read as a number of their own. */
  lemma OverflowReadsOn(spaces: string, s: string, tail: string, t: IntType, base: nat, thSep: char)
    requires t.Valid() && t.min == 0 && base >= 2 && (t.max + 1) % base != 0
    requires IsUnsignedText(spaces, s, base, thSep) && Value(s, base, 0) == t.max + 1
    requires IsNumeral(tail, base, thSep) && Value(tail, base, 0) <= t.max
    ensures ParseInt(spaces + (s + tail), t, base, thSep) == Some(Value(tail, base, 0))
  {
    hide *;
    WrappedOnce(t);
    JoinedText(spaces, s, tail, base, thSep);
    ParseUnsigned(spaces, s + tail, t, base, thSep);
    ScanWraps(t, base, thSep, s, tail, 0, false);
    ScanExact(t, base, thSep, tail, 0, true);
  }

  /** The result that an exact overflow check would give. */
  function Exact(s: string, t: IntType, base: nat): Option<int> {
    if Value(s, base, 0) <= t.max then Some(Value(s, base, 0)) else None
  }

  /** The overflow check is exact for all numerals if and only if the base divides max + 1. */
  lemma OverflowCheckExactIff(t: IntType, base: nat)
    requires t.Valid() && IsParsedBase(base)
    ensures (t.max + 1) % base == 0
       <==> forall s | IsUnsignedText("", s, base, ',') :: ParseInt(s, t, base, ',') == Exact(s, t, base)
  {
    ParsedBaseRange(base);
    var m := Body(t.max + 1, base, '\0', 0);
    BodyDenotes(t.max + 1, base, '\0', 0);
    BodySplit(t.max + 1, base, '\0', 0);
    NumeralStarts(m, base);
    UnsignedText("", m, base);
    hide ParseInt, Body, BodyRest, Value, IsUnsignedText;
    if (t.max + 1) % base == 0 {
      forall s | IsUnsignedText("", s, base, ',')
        ensures ParseInt(s, t, base, ',') == Exact(s, t, base)
      {
        OverflowCheckExact("", s, t, base, ',');
        assert "" + s == s;
      }
    } else {
      SmallestOverflowAccepted("", m, t, base, ',');
      assert "" + m == m;
    }
  }

  // ----- signs -----

  /**
   A numeral behind a plus sign is read exactly if and only if it fits. One behind a minus sign is refused for an
   unsigned type, and otherwise read exactly if and only if its value is at most max, or is max + 1 and gets past the
   limit check.
   */
  lemma SignedExactlyIffFits(spaces: string, s: string, t: IntType, base: nat, thSep: char)
    requires t.Valid() && base >= 2 && IsNumeral(s, base, thSep)
    requires forall k | 0 <= k < |spaces| :: IsSpace(spaces[k])
    ensures ParseInt(spaces + ("+" + s), t, base, thSep) == Some(Value(s, base, 0)) <==> Value(s, base, 0) <= t.max
    ensures base == 10 && t.min == 0 ==> ParseInt(spaces + ("-" + s), t, base, thSep) == None
    ensures base == 10 && t.min < 0 ==>
              (ParseInt(spaces + ("-" + s), t, base, thSep) == Some(-(Value(s, base, 0) as int))
               <==> Value(s, base, 0) <= t.max || (Value(s, base, 0) == t.max + 1 && (t.max + 1) % 10 != 0))
  {
    SignSkipped(spaces, s, t, base, thSep);
    SignedScan(s, t, base, thSep);
  }

  lemma SignSkipped(spaces: string, s: string, t: IntType, base: nat, thSep: char)
    requires t.Valid() && base >= 2 && forall k | 0 <= k < |spaces| :: IsSpace(spaces[k])
    ensures ParseInt(spaces + ("+" + s), t, base, thSep) == Scan(t, base, thSep, s, 0, false)
    ensures base == 10 ==>
              ParseInt(spaces + ("-" + s), t, base, thSep)
              == if t.min == 0 then None else Negated(t, Scan(t, base, thSep, s, 0, false))
  {
    hide Scan, IntType.Wrap;
    var plus, minus := "+" + s, "-" + s;
    SkipSpacesPrefix(spaces, plus);
    SkipSpacesPrefix(spaces, minus);
    assert plus[1..] == s && minus[1..] == s;
  }

  /** result *= sign */
  function Negated(t: IntType, r: Option<int>): Option<int>
    requires t.Valid()
  {
    match r
    case None => None
    case Some(x) => Some(t.Wrap(-x))
  }

  /** One above the largest value is the smallest. */
  lemma WrappedOnce(t: IntType)
    requires t.Valid()
    ensures t.Wrap(t.max + 1) == t.min && (t.min < 0 ==> -t.min == t.max + 1)
  {
  }

  lemma SignedScan(s: string, t: IntType, base: nat, thSep: char)
    requires t.Valid() && base >= 2 && IsNumeral(s, base, thSep)
    ensures var v, r := Value(s, base, 0), Scan(t, base, thSep, s, 0, false);
            && (r == Some(v) <==> v <= t.max)
            && (t.min < 0 ==> (Negated(t, r) == Some(-(v as int))
                               <==> v <= t.max || (v == t.max + 1 && (t.max + 1) % base != 0)))
  {
    hide *;
    var v, r := Value(s, base, 0), Scan(t, base, thSep, s, 0, false);
    RangeOfType(t);
    WrappedOnce(t);
    ScanInRange(t, base, thSep, s, 0, false);
    if v <= t.max {
      ScanExact(t, base, thSep, s, 0, false);
      NegatedIs(t, r, v);
    } else if v == t.max + 1 && (t.max + 1) % base != 0 {
      ScanWraps(t, base, thSep, s, "", 0, false);
      assert s + "" == s;
      ScanStops(t, base, thSep, "", t.min, true);
      NegatedIs(t, r, v);
    } else if v == t.max + 1 {
      ScanOverflow(t, base, thSep, s, 0, false);
      NegatedIs(t, r, v);
    } else {
      NegatedIs(t, r, v);
    }
  }

  lemma RangeOfType(t: IntType)
    requires t.Valid()
    ensures t.min <= 0 < t.max && (t.min < 0 ==> t.min == -t.max - 1)
  {
  }

  lemma NegatedIs(t: IntType, r: Option<int>, v: nat)
    requires t.Valid() && (r.Some? ==> t.min <= r.value <= t.max)
    ensures r == None ==> Negated(t, r) == None
    ensures r == Some(v) && t.min < 0 ==> Negated(t, r) == Some(-(v as int))
    ensures r == Some(t.min) && t.min < 0 ==> Negated(t, r) == Some(t.min)
    ensures v > t.max + 1 && t.min < 0 ==> Negated(t, r) != Some(-(v as int))
  {
    WrappedOnce(t);
    if r.Some? {
      WrapLandsInRange(t, -r.value);
      if t.min < 0 && r.value > t.min {
        WrapInRange(t, -r.value);
      }
    }
  }
}
