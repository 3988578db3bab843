/** poco/NumericString.h: where intToStr puts separators, and that its callers' buffers are large enough. */
module NumericLayout {
  import opened Strings
  import opened NumericStrings

  predicate IsDecimal(c: char) { '0' <= c <= '9' }

  /** Taking the separators out leaves the plain digits. */
  lemma {:induction false} SeparatorsOnlyAdded(m: nat, thSep: char, count: nat)
    requires count < 3 && thSep != '\0' && !IsDecimal(thSep)
    ensures Without(Body(m, 10, thSep, count), thSep) == Body(m, 10, '\0', 0)
    decreases m
  {
    hide Body, BodyRest, Without;
    BodySplit(m, 10, thSep, count);
    BodySplit(m, 10, '\0', 0);
    QuotientShrinks(m, 10);
    var sep, digit := if count == 2 then [thSep] else "", [DigitChar(m % 10)];
    if m / 10 != 0 {
      SeparatorsOnlyAdded(m / 10, thSep, if count == 2 then 0 else count + 1);
    }
    WithoutShort(thSep, DigitChar(m % 10));
    WithoutAppend(BodyRest(m, 10, thSep, count), sep, thSep);
    WithoutAppend(BodyRest(m, 10, thSep, count) + sep, digit, thSep);
  }

  lemma WithoutShort(c: char, d: char)
    requires c != d
    ensures Without("", c) == "" && Without([c], c) == "" && Without([d], c) == [d]
  {
  }

  /**
   Counted from the right, every fourth character is a separator and all others are digits. The last of them
   may stand in front of the first digit: a number of three, six, ... digits is printed with a leading separator.
   */
  lemma {:induction false} SeparatorPositions(m: nat, thSep: char, count: nat, k: nat)
    requires count < 3 && thSep != '\0' && !IsDecimal(thSep)
    requires k < |Body(m, 10, thSep, count)|
    ensures var body := Body(m, 10, thSep, count);
            if (count + k) % 4 == 3 then body[|body| - 1 - k] == thSep else IsDecimal(body[|body| - 1 - k])
    decreases m
  {
    var tail := if count == 2 then 2 else 1;
    BodySplit(m, 10, thSep, count);
    if k >= tail {
      QuotientShrinks(m, 10);
      SeparatorPositions(m / 10, thSep, (count + 1) % 3, k - tail);
    }
  }

  /** How many separators d digits get, count digits of a group being behind them. */
  lemma {:induction false} SeparatedLength(m: nat, thSep: char, count: nat)
    requires count < 3 && thSep != '\0'
    ensures var d := |Body(m, 10, '\0', 0)|; d > 0 && |Body(m, 10, thSep, count)| == d + (d + count) / 3
    decreases m
  {
    hide Body, BodyRest;
    BodySplit(m, 10, thSep, count);
    BodySplit(m, 10, '\0', 0);
    QuotientShrinks(m, 10);
    if m / 10 != 0 {
      SeparatedLength(m / 10, thSep, (count + 1) % 3);
    }
  }

  /** A separator stands in front of the first digit exactly when the digits fill their groups of three. */
  lemma LeadingSeparatorIff(m: nat, thSep: char)
    requires thSep != '\0' && !IsDecimal(thSep)
    ensures var body, d := Body(m, 10, thSep, 0), |Body(m, 10, '\0', 0)|;
            body != "" && (body[0] == thSep <==> d % 3 == 0)
  {
    hide Body;
    SeparatedLength(m, thSep, 0);
    SeparatorPositions(m, thSep, 0, |Body(m, 10, thSep, 0)| - 1);
    FullGroups(|Body(m, 10, '\0', 0)|);
  }

  lemma FullGroups(d: nat)
    requires d > 0
    ensures (d + d / 3 - 1) % 4 == 3 <==> d % 3 == 0
  {
    assert d + d / 3 == 4 * (d / 3) + d % 3;
  }

  // ----- the buffer of POCO_MAX_INT_STRING_LEN characters -----

  const POCO_MAX_INT_STRING_LEN: nat := 65

  function Pow2(k: nat): (p: int)
    ensures p > 0
  {
    if k == 0 then 1 else 2 * Pow2(k - 1)
  }

  /** A number of k bits has at most k digits. */
  lemma {:induction false} BodyLength(m: nat, base: nat, thSep: char, k: nat)
    requires 2 <= base <= 16 && base != 10 && k >= 1 && m < Pow2(k)
    ensures |Body(m, base, thSep, 0)| <= k
    ensures base == 2 && Pow2(k - 1) <= m ==> |Body(m, base, thSep, 0)| == k
  {
    BodySplit(m, base, thSep, 0);
    QuotientShrinks(m, base);
    if m / base != 0 {
      QuotientHalves(m, base, Pow2(k - 1));
      BodyLength(m / base, base, thSep, k - 1);
    }
  }

  lemma QuotientHalves(m: nat, base: nat, bound: nat)
    requires base >= 2 && m < 2 * bound
    ensures m / base < bound
    ensures base == 2 && bound <= m ==> 2 * (m / base) >= bound - 1
  {
    var q, r := m / base, m % base;
    assert m == q * base + r;
    Doubles(q, base);
  }

  lemma Doubles(q: nat, base: nat)
    requires base >= 2
    ensures q * 2 <= q * base && (base == 2 ==> q * base == q * 2)
  {
  }

  /** In base 8 and above three bits make a digit, and every third digit may bring a separator. */
  lemma {:induction false} BodyLengthOctal(m: nat, base: nat, thSep: char, count: nat, k: nat)
    requires 8 <= base <= 16 && k >= 1 && count < 3 && m < Pow2(3 * k)
    ensures 3 * |Body(m, base, thSep, count)| <= 4 * k + count
    decreases k
  {
    BodySplit(m, base, thSep, count);
    QuotientShrinks(m, base);
    if m / base != 0 {
      EightTimes(k);
      QuotientEighth(m, base, Pow2(3 * (k - 1)));
      if k > 1 {
        BodyLengthOctal(m / base, base, thSep,
                        if !(base == 10 && thSep != '\0') then count else if count == 2 then 0 else count + 1, k - 1);
      }
    }
  }

  lemma EightTimes(k: nat)
    requires k >= 1
    ensures Pow2(3 * k) == 8 * Pow2(3 * (k - 1))
  {
    assert Pow2(3 * k) == 2 * Pow2(3 * k - 1) == 4 * Pow2(3 * k - 2);
  }

  lemma QuotientEighth(m: nat, base: nat, bound: nat)
    requires base >= 8 && m < 8 * bound
    ensures m / base < bound
  {
    var q, r := m / base, m % base;
    assert m == q * base + r;
    EightAtMost(q, base);
  }

  lemma EightAtMost(q: nat, base: nat)
    requires base >= 8
    ensures q * 8 <= q * base
  {
  }

  /**
   For every 64-bit value and every width below the buffer size the text and its terminator fit the buffer, with
   one exception: the most negative value in base 2.
   */
  lemma FitsBuffer(v: int, base: nat, prefix: bool, width: int, fill: char, thSep: char)
    requires 2 <= base <= 16 && -Pow2(63) <= v < Pow2(64) && width < POCO_MAX_INT_STRING_LEN
    ensures |Formatted(v, base, prefix, width, fill, thSep)| < POCO_MAX_INT_STRING_LEN
       <==> !(base == 2 && v == -Pow2(63))
  {
    hide Body, Pow2;
    var m := Abs(v);
    PowerFacts();
    if base >= 8 {
      BodyLengthOctal(m, base, thSep, 0, 22);
    } else if v >= 0 {
      BodyLength(m, base, thSep, 64);
    } else if m < Pow2(63) {
      BodyLength(m, base, thSep, 63);
    } else if base == 2 {
      BodyLength(m, base, thSep, 64);
    } else {
      BodySplit(m, base, thSep, 0);
      QuotientThird(m, base, Pow2(62));
      BodyLength(m / base, base, thSep, 62);
    }
    FormattedLength(v, base, prefix, width, fill, thSep);
  }

  lemma QuotientThird(m: nat, base: nat, bound: nat)
    requires base >= 3 && m == 2 * bound && bound > 0
    ensures m / base < bound
  {
    var q := m / base;
    assert m == q * base + m % base && q * 3 <= q * base;
  }

  lemma FormattedLength(v: int, base: nat, prefix: bool, width: int, fill: char, thSep: char)
    requires 2 <= base <= 16
    ensures var n := (if v < 0 then 1 else 0) + (if prefix && base == 8 then 1 else if prefix && base == 16 then 2 else 0)
                     + |Body(Abs(v), base, thSep, 0)|;
            |Formatted(v, base, prefix, width, fill, thSep)| == if n < width then width else n
  {
  }

  lemma PowerFacts()
    ensures Pow2(64) == 2 * Pow2(63) == 4 * Pow2(62) && Pow2(64) <= Pow2(66) && Pow2(62) > 0
  {
    assert Pow2(66) == 2 * Pow2(65) == 4 * Pow2(64);
  }
}
