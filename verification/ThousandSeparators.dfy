/** poco/NumericString.cpp, insertThousandSep: grouping the integer part of a printed number in place. */
module ThousandSeparators {
  import opened Strings

  predicate IsDigit(c: char) { '0' <= c <= '9' }

  /** std::string::find(char), with |s| for npos. */
  function Find(s: string, c: char): (i: nat)
    ensures i <= |s| && (i < |s| ==> s[i] == c) && forall k | 0 <= k < i :: s[k] != c
  {
    if s == "" || s[0] == c then 0 else 1 + Find(s[1..], c)
  }

  /** The last place of c in s, 0 when there is none. */
  function FindBack(s: string, c: char): (i: nat)
    ensures i < |s| || i == 0
  {
    if s == "" then 0 else if s[|s| - 1] == c then |s| - 1 else FindBack(s[..|s| - 1], c)
  }

  /** Where the exponent starts, |s| when there is none. */
  function ExponentAt(s: string): (i: nat)
    ensures i <= |s|
  {
    if Find(s, 'e') < |s| then Find(s, 'e') else Find(s, 'E')
  }

  /** The last character of the stretch that is grouped. */
  function GroupingEnd(s: string, decSep: char): (i: nat)
    requires s != ""
    ensures i < |s|
  {
    var stop := ExponentAt(s);
    if Find(s, decSep) < |s| then FindBack(s[..stop], decSep)
    else if stop == |s| then |s| - 1
    else stop
  }

  /** The right-to-left walk over left with count digits of the current group behind it. */
  function Grouped(left: string, count: nat, thSep: char): string
    requires count < 3
    decreases 3 * |left| + 2 * count
  {
    if |left| <= 1 then left
    else
      var chr, rest := left[|left| - 1], left[..|left| - 1];
      if !IsDigit(chr) then Grouped(rest, count, thSep) + [chr]
      else if count == 2 && IsDigit(rest[|rest| - 1]) then Grouped(rest + [thSep], 0, thSep) + [chr]
      else Grouped(rest, (count + 1) % 3, thSep) + [chr]
  }

  /** Grouping s[..end] and keeping s[end..]. */
  function GroupedFrom(s: string, it: nat, count: nat, thSep: char): string
    requires it < |s| && count < 3
  {
    Grouped(s[..it + 1], count, thSep) + s[it + 1..]
  }

  /** One round of the walk, with or without a separator. */
  lemma GroupedStep(s: string, it: nat, count: nat, thSep: char)
    requires 0 < it < |s| && count < 3
    ensures GroupedFrom(s, it, count, thSep) ==
            if !IsDigit(s[it]) then GroupedFrom(s, it - 1, count, thSep)
            else if count == 2 && IsDigit(s[it - 1]) then GroupedFrom(s[..it] + [thSep] + s[it..], it, 0, thSep)
            else GroupedFrom(s, it - 1, if count == 2 then 0 else count + 1, thSep)
  {
    var left := s[..it + 1];
    var rest := left[..it];
    assert rest == s[..it] && [s[it]] + s[it + 1..] == s[it..];
    GroupedOnce(left, count, thSep);
    hide Grouped;
    if IsDigit(s[it]) && count == 2 && IsDigit(s[it - 1]) {
      var s' := s[..it] + [thSep] + s[it..];
      assert s'[..it + 1] == rest + [thSep] && s'[it + 1..] == s[it..];
      Associate(Grouped(rest + [thSep], 0, thSep), s[it], s[it + 1..]);
    } else {
      Associate(Grouped(rest, if !IsDigit(s[it]) then count else if count == 2 then 0 else count + 1, thSep), s[it], s[it + 1..]);
    }
  }

  lemma GroupedOnce(left: string, count: nat, thSep: char)
    requires |left| > 1 && count < 3
    ensures var chr, rest := left[|left| - 1], left[..|left| - 1];
            Grouped(left, count, thSep)
            == (if !IsDigit(chr) then Grouped(rest, count, thSep)
                else if count == 2 && IsDigit(rest[|rest| - 1]) then Grouped(rest + [thSep], 0, thSep)
                else Grouped(rest, if count == 2 then 0 else count + 1, thSep)) + [chr]
  {
  }

  lemma Associate(a: string, c: char, b: string)
    ensures (a + [c]) + b == a + ([c] + b)
  {
  }

  /** The walk back to the decimal separator. */
  method FindGroupingEnd(str: string, decSep: char) returns (it: nat)
    requires str != ""
    ensures it == GroupingEnd(str, decSep)
  {
    var exPos := Find(str, 'e');
    if exPos == |str| {
      exPos := Find(str, 'E');
    }
    var decPos := Find(str, decSep);
    it := exPos;
    if decPos != |str| {
      while it != 0
        invariant 0 <= it <= exPos
        invariant FindBack(str[..it], decSep) == FindBack(str[..exPos], decSep)
      {
        it := it - 1;
        assert str[..it + 1][..it] == str[..it];
        if str[it] == decSep {
          break;
        }
      }
    }
    if it == |str| {
      it := it - 1;
    }
  }

  method InsertThousandSep(input: string, thSep: char, decSep: char := '.') returns (str: string)
    requires decSep != thSep
    ensures str == if input == "" then "" else GroupedFrom(input, GroupingEnd(input, decSep), 0, thSep)
  {
    str := input;
    if |str| == 0 {
      return;
    }
    hide *;
    var it := FindGroupingEnd(str, decSep);
    var thCount := 0;
    ghost var grouped := GroupedFrom(str, it, 0, thSep);
    while it != 0
      invariant 0 <= it < |str| && 0 <= thCount < 3 && grouped == GroupedFrom(str, it, thCount, thSep)
      decreases 3 * it + 2 * thCount
    {
      GroupedStep(str, it, thCount, thSep);
      var pos := it;
      var chr := str[it];
      it := it - 1;
      var prevChr := str[it];
      if !IsDigit(chr) {
        continue;
      }
      thCount := thCount + 1;
      if thCount == 3 && IsDigit(prevChr) {
        Inserted(str, pos, thSep);
        str := str[..pos] + [thSep] + str[pos..];
        it := pos;
      }
      if thCount == 3 {
        thCount := 0;
      }
    }
    GroupedDone(str, thCount, thSep);
  }

  lemma Inserted(s: string, pos: nat, c: char)
    requires pos < |s|
    ensures |s[..pos] + [c] + s[pos..]| == |s| + 1
  {
  }

  lemma GroupedDone(s: string, count: nat, thSep: char)
    requires s != "" && count < 3
    ensures GroupedFrom(s, 0, count, thSep) == s
  {
  }

  // ----- what grouping means -----

  /** Only separators are inserted: taking them out again gives the input without its separators, for any string. */
  lemma {:induction false} OnlySeparatorsInserted(left: string, count: nat, thSep: char)
    requires count < 3 && !IsDigit(thSep)
    ensures Without(Grouped(left, count, thSep), thSep) == Without(left, thSep)
    decreases 3 * |left| + 2 * count
  {
    if |left| > 1 {
      var chr, rest := left[|left| - 1], left[..|left| - 1];
      assert left == rest + [chr];
      WithoutAppend(rest, [chr], thSep);
      var inner, next :=
        if IsDigit(chr) && count == 2 && IsDigit(rest[|rest| - 1]) then rest + [thSep] else rest,
        if !IsDigit(chr) then count else if count == 2 then 0 else count + 1;
      OnlySeparatorsInserted(inner, next, thSep);
      WithoutAppend(rest, [thSep], thSep);
      assert Without([thSep], thSep) == "";
      WithoutAppend(Grouped(inner, next, thSep), [chr], thSep);
    }
  }

  lemma SeparatorsCanBeDeleted(input: string, thSep: char, decSep: char)
    requires input != "" && decSep != thSep && !IsDigit(thSep) && thSep !in input
    ensures Without(GroupedFrom(input, GroupingEnd(input, decSep), 0, thSep), thSep) == input
  {
    var end := GroupingEnd(input, decSep) + 1;
    OnlySeparatorsInserted(input[..end], 0, thSep);
    WithoutAppend(Grouped(input[..end], 0, thSep), input[end..], thSep);
    NothingToDelete(input[..end], thSep);
    NothingToDelete(input[end..], thSep);
    assert input == input[..end] + input[end..];
  }

  lemma {:induction false} NothingToDelete(s: string, c: char)
    requires c !in s
    ensures Without(s, c) == s
  {
    if s != "" {
      NothingToDelete(s[1..], c);
    }
  }

  predicate AllDigits(s: string) { forall k | 0 <= k < |s| :: 48 <= s[k] as int <= 57 }

  /** Digits in groups of three from the right. */
  function Threes(digits: string, thSep: char): string {
    if |digits| <= 3 then digits
    else Threes(digits[..|digits| - 3], thSep) + [thSep] + digits[|digits| - 3..]
  }

  lemma ThreesStep(rest: string, group: string, thSep: char)
    requires |group| == 3 && rest != ""
    ensures Threes(rest + group, thSep) == Threes(rest, thSep) + [thSep] + group
  {
    assert (rest + group)[..|rest|] == rest && (rest + group)[|rest|..] == group;
  }

  lemma ThreesFew(digits: string, thSep: char)
    requires |digits| <= 3
    ensures Threes(digits, thSep) == digits
  {
  }

  /**
   A separator stands exactly between two digits whose distance from the right end is a multiple of three: counted
   from the right every fourth character is one, and the first character never is.
   */
  lemma {:induction false} ThreesPositions(digits: string, thSep: char, k: nat)
    requires digits != ""
    ensures |Threes(digits, thSep)| == |digits| + (|digits| - 1) / 3
    ensures Threes(digits, thSep)[0] == digits[0]
    ensures var t := Threes(digits, thSep);
            k < |t| ==> t[|t| - 1 - k] == if k % 4 == 3 then thSep else digits[|digits| - 1 - (k - k / 4)]
  {
    hide Threes;
    if |digits| <= 3 {
      ThreesFew(digits, thSep);
    } else {
      var n := |digits| - 3;
      var rest, group := digits[..n], digits[n..];
      assert digits == rest + group;
      ThreesStep(rest, group, thSep);
      ThreesPositions(rest, thSep, if k >= 4 then k - 4 else 0);
      if k < |Threes(digits, thSep)| {
        LastGroup(Threes(rest, thSep), thSep, group, k);
        LastThree(rest, group, k - k / 4);
      }
    }
  }

  lemma LastGroup(left: string, thSep: char, group: string, k: nat)
    requires |group| == 3 && k < |left| + 4
    ensures var t := left + [thSep] + group;
            t[|t| - 1 - k] == if k >= 4 then left[|left| - 1 - (k - 4)] else if k == 3 then thSep else group[2 - k]
  {
  }

  lemma LastThree(rest: string, group: string, k: nat)
    requires |group| == 3 && k < |rest| + 3
    ensures (rest + group)[|rest| + 2 - k] == if k >= 3 then rest[|rest| - 1 - (k - 3)] else group[2 - k]
  {
  }

  predicate IsSign(s: string) { s in ["", "-", "+"] }

  /** A printed number: sign, integer digits, fraction, exponent. */
  predicate IsPrinted(sign: string, digits: string, fraction: string, exponent: string, decSep: char) {
    && IsSign(sign) && digits != "" && AllDigits(digits)
    && (fraction == "" || (fraction[0] == decSep && AllDigits(fraction[1..])))
    && (exponent == "" || (exponent[0] in "eE" && AllDigits(exponent[1..]))
        || (|exponent| >= 2 && exponent[0] in "eE" && exponent[1] in "+-" && AllDigits(exponent[2..])))
  }

  /** Grouping a sign and digits. */
  lemma {:induction false} GroupedDigits(sign: string, digits: string, thSep: char)
    requires IsSign(sign) && AllDigits(digits) && digits != "" && !IsDigit(thSep)
    ensures Grouped(sign + digits, 0, thSep) == sign + Threes(digits, thSep)
    decreases |digits|
  {
    hide *;
    var n := |digits|;
    if n <= 3 {
      ThreesFew(digits, thSep);
      GroupedFew(sign, digits, 0, thSep);
    } else {
      var rest, three := digits[..n - 3], digits[n - 3..];
      ThreeOff(sign, digits);
      GroupedDigits(sign, rest, thSep);
      GroupedThree(sign + rest, three, thSep);
      ThreesStep(rest, three, thSep);
      SignKept(sign, Threes(rest, thSep), [thSep], three);
    }
  }

  lemma ThreeOff(sign: string, digits: string)
    requires AllDigits(digits) && |digits| > 3
    ensures var rest, three := digits[..|digits| - 3], digits[|digits| - 3..];
            && digits == rest + three && sign + digits == (sign + rest) + three
            && AllDigits(rest) && AllDigits(three) && IsDigit((sign + rest)[|sign + rest| - 1])
  {
    assert forall k | 0 <= k < |digits| :: IsDigit(digits[k]);
  }

  lemma SignKept(sign: string, threes: string, thSep: string, three: string)
    ensures sign + (threes + thSep + three) == (sign + threes) + (thSep + three)
  {
  }

  lemma Regrouped(a: string, b: string, c: string)
    ensures a + (b + c) == (a + b) + c
  {
  }

  lemma GroupedThree(start: string, three: string, thSep: char)
    requires start != "" && IsDigit(start[|start| - 1]) && |three| == 3 && AllDigits(three) && !IsDigit(thSep)
    ensures Grouped(start + three, 0, thSep) == Grouped(start, 0, thSep) + ([thSep] + three)
  {
    var a, b, c := three[0], three[1], three[2];
    var two, one := start + [a] + [b], start + [a];
    assert IsDigit(a) && IsDigit(b) && IsDigit(c);
    hide *;
    GroupedLast(two, c, 0, thSep);
    GroupedLast(one, b, 1, thSep);
    GroupedLast(start, a, 2, thSep);
    GroupedLast(start, thSep, 0, thSep);
    OneByOne(start, three);
    OneByOne(Grouped(start, 0, thSep) + [thSep], three);
    Regrouped(Grouped(start, 0, thSep), [thSep], three);
  }

  lemma OneByOne(s: string, three: string)
    requires |three| == 3
    ensures s + three == ((s + [three[0]]) + [three[1]]) + [three[2]]
  {
  }

  lemma GroupedLast(rest: string, chr: char, count: nat, thSep: char)
    requires rest != "" && count < 3
    ensures Grouped(rest + [chr], count, thSep) ==
            (if !IsDigit(chr) then Grouped(rest, count, thSep)
             else if count == 2 && IsDigit(rest[|rest| - 1]) then Grouped(rest + [thSep], 0, thSep)
             else Grouped(rest, if count == 2 then 0 else count + 1, thSep)) + [chr]
  {
    assert (rest + [chr])[..|rest|] == rest;
  }

  lemma LastSplit(sign: string, digits: string)
    requires digits != ""
    ensures sign + digits == (sign + digits[..|digits| - 1]) + [digits[|digits| - 1]]
  {
  }

  lemma {:induction false} GroupedFew(sign: string, digits: string, count: nat, thSep: char)
    requires IsSign(sign) && AllDigits(digits) && |digits| + count <= 3 && count < 3
    ensures Grouped(sign + digits, count, thSep) == sign + digits
    decreases |digits|
  {
    hide *;
    OneOff(sign, digits, count, thSep);
    if digits != "" && |sign + digits| > 1 {
      var rest := digits[..|digits| - 1];
      GroupedLast(sign + rest, digits[|digits| - 1], count, thSep);
      if count < 2 {
        GroupedFew(sign, rest, count + 1, thSep);
      }
    }
  }

  lemma OneOff(sign: string, digits: string, count: nat, thSep: char)
    requires IsSign(sign) && AllDigits(digits) && |digits| + count <= 3 && count < 3
    ensures |sign| <= 1 && (|sign + digits| <= 1 ==> Grouped(sign + digits, count, thSep) == sign + digits)
    ensures digits != "" ==>
              var rest, last := digits[..|digits| - 1], digits[|digits| - 1];
              && IsDigit(last) && AllDigits(rest) && sign + digits == (sign + rest) + [last]
              && (count == 2 ==> rest == "" && Grouped(sign + rest, 0, thSep) == sign + rest)
    ensures sign != "" ==> !IsDigit(sign[0])
  {
    if digits != "" {
      LastSplit(sign, digits);
    }
  }

  /** The integer part of a printed number is grouped in threes and the rest is kept. */
  lemma IntegerPartGrouped(sign: string, digits: string, fraction: string, exponent: string, thSep: char, decSep: char)
    requires IsPrinted(sign, digits, fraction, exponent, decSep)
    requires !IsDigit(thSep) && !IsDigit(decSep) && decSep !in "eE+-" && decSep != thSep
    ensures var s := sign + digits + fraction + exponent;
            GroupedFrom(s, GroupingEnd(s, decSep), 0, thSep) == sign + Threes(digits, thSep) + fraction + exponent
  {
    hide Threes, Grouped, GroupingEnd;
    var a := sign + digits;
    var s := a + fraction + exponent;
    EndOfIntegerPart(sign, digits, fraction, exponent, decSep);
    GroupedDigits(sign, digits, thSep);
    if fraction + exponent == "" {
      assert s == a && s[..|a|] == a && s[|a|..] == "";
    } else {
      var c := s[|a|];
      GroupedLast(a, c, 0, thSep);
      assert s[..|a| + 1] == a + [c];
      assert [c] + s[|a| + 1..] == fraction + exponent;
      Associate(sign + Threes(digits, thSep), c, s[|a| + 1..]);
      assert sign + Threes(digits, thSep) + (fraction + exponent) == sign + Threes(digits, thSep) + fraction + exponent;
    }
  }

  /** The walk starts at the decimal separator, else at the exponent, else at the last digit. */
  lemma EndOfIntegerPart(sign: string, digits: string, fraction: string, exponent: string, decSep: char)
    requires IsPrinted(sign, digits, fraction, exponent, decSep)
    requires !IsDigit(decSep) && decSep !in "eE+-"
    ensures var a := sign + digits;
            GroupingEnd(a + fraction + exponent, decSep) == if fraction + exponent == "" then |a| - 1 else |a|
    ensures fraction + exponent != "" ==> !IsDigit((sign + digits + fraction + exponent)[|sign + digits|])
  {
    var a := sign + digits;
    var s := a + fraction + exponent;
    var stop := |a + fraction|;
    PrintedParts(sign, digits, fraction, exponent, decSep);
    hide IsPrinted, AllDigits, IsSign;
    if exponent != "" {
      assert s[stop] == exponent[0] && (s[stop] == 'e' || s[stop] == 'E');
    }
    assert ExponentAt(s) == stop;
    if fraction != "" {
      assert s[|a|] == decSep;
      assert s[..stop] == a + fraction;
      FindBackIs(a + fraction, decSep, |a|);
    }
  }

  /** Which characters of a printed number may be an exponent mark or the decimal separator. */
  lemma PrintedParts(sign: string, digits: string, fraction: string, exponent: string, decSep: char)
    requires IsPrinted(sign, digits, fraction, exponent, decSep)
    requires !IsDigit(decSep) && decSep !in "eE+-"
    ensures var a, s, stop := sign + digits, sign + digits + fraction + exponent, |sign + digits + fraction|;
            && a != "" && (forall k | 0 <= k < |a| :: s[k] == a[k] && s[k] != decSep)
            && (forall k | |a| < k < |s| :: s[k] != decSep)
            && (forall k | 0 <= k < |s| && k != stop :: s[k] != 'e' && s[k] != 'E')
            && (fraction != "" ==> s[|a|] == decSep)
            && (exponent != "" ==> s[stop] == exponent[0] && (s[stop] == 'e' || s[stop] == 'E'))
            && (fraction + exponent != "" ==> !IsDigit(s[|a|]))
  {
    var a := sign + digits;
    var s := a + fraction + exponent;
    var stop := |a + fraction|;
    forall k | 0 < k < |fraction|
      ensures IsDigit(fraction[k])
    {
      assert fraction[k] == fraction[1..][k - 1];
    }
    forall k | 0 < k < |exponent|
      ensures IsDigit(exponent[k]) || exponent[k] in "+-"
    {
      assert exponent[k] == exponent[1..][k - 1];
      assert k > 1 ==> exponent[k] == exponent[2..][k - 2];
    }
    assert forall k | 0 <= k < |a| :: s[k] == a[k];
    assert forall k | |a| <= k < stop :: s[k] == fraction[k - |a|];
    assert forall k | stop <= k < |s| :: s[k] == exponent[k - stop];
  }

  lemma {:induction false} FindBackIs(s: string, c: char, i: nat)
    requires i < |s| && s[i] == c && forall k | i < k < |s| :: s[k] != c
    ensures FindBack(s, c) == i
  {
    if i < |s| - 1 {
      FindBackIs(s[..|s| - 1], c, i);
    }
  }
}
