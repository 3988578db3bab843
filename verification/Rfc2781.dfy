/** Well-formed UTF-16, written from sections 2.1 and 2.2 of RFC 2781. */
module Rfc2781 {
  import opened MachineInts
  import opened Rfc3629

  predicate IsSurrogate(unit: u16) { 0xD800 <= unit <= 0xDFFF }

  /** Section 2.1: the unit or the surrogate pair of a character. */
  function Units(u: Scalar): seq<u16> {
    if u < 0x1_0000 then [u]
    else [0xD800 + (u - 0x1_0000) / 0x400, 0xDC00 + (u - 0x1_0000) % 0x400]
  }

  /** Section 2.2, step 2 and 3: w starts with a leading and a trailing surrogate. */
  predicate StartsWithPair(w: seq<u16>) {
    |w| >= 2 && 0xD800 <= w[0] <= 0xDBFF && 0xDC00 <= w[1] <= 0xDFFF
  }

  predicate WellFormed(w: seq<u16>) {
    || w == []
    || (!IsSurrogate(w[0]) && WellFormed(w[1..]))
    || (StartsWithPair(w) && WellFormed(w[2..]))
  }

  /** Section 2.2: the characters of a well-formed sequence of units. */
  function ScalarsOf(w: seq<u16>): seq<Scalar>
    requires WellFormed(w)
  {
    if w == [] then []
    else if !IsSurrogate(w[0]) then
      var unit: int := w[0];
      [unit] + ScalarsOf(w[1..])
    else
      var high: int, low: int := w[0], w[1];
      [(high - 0xD800) * 0x400 + (low - 0xDC00) + 0x1_0000] + ScalarsOf(w[2..])
  }

  lemma WellFormedCons(u: Scalar, w: seq<u16>)
    ensures WellFormed(Units(u) + w) == WellFormed(w)
    ensures WellFormed(w) ==> ScalarsOf(Units(u) + w) == [u] + ScalarsOf(w)
  {
    assert (Units(u) + w)[|Units(u)|..] == w;
    if u >= 0x1_0000 {
      assert StartsWithPair(Units(u) + w);
    }
  }
}
