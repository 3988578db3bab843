/**
 Well-formed UTF-8, written from sections 3 and 4 of RFC 3629 and independent of the library's decoder.
 */
module Rfc3629 {
  import opened MachineInts

  /** A Unicode scalar value: any code point except the surrogates. */
  type Scalar = u: int | 0 <= u <= 0x10FFFF && !(0xD800 <= u <= 0xDFFF)

  /** UTF8-tail */
  predicate Tail(b: byte) { 0x80 <= b <= 0xBF }

  /** The six payload bits of a tail byte. */
  function Payload(b: byte): int { b - 0x80 }

  /** UTF8-char: one encoded character, by the ranges of the grammar in section 4. */
  predicate IsChar(c: seq<byte>) {
    || (|c| == 1 && c[0] <= 0x7F)
    || (|c| == 2 && 0xC2 <= c[0] <= 0xDF && Tail(c[1]))
    || (|c| == 3 && Tail(c[2]) &&
        ( || (c[0] == 0xE0 && 0xA0 <= c[1] <= 0xBF)
          || (0xE1 <= c[0] <= 0xEC && Tail(c[1]))
          || (c[0] == 0xED && 0x80 <= c[1] <= 0x9F)
          || (0xEE <= c[0] <= 0xEF && Tail(c[1]))))
    || (|c| == 4 && Tail(c[2]) && Tail(c[3]) &&
        ( || (c[0] == 0xF0 && 0x90 <= c[1] <= 0xBF)
          || (0xF1 <= c[0] <= 0xF3 && Tail(c[1]))
          || (c[0] == 0xF4 && 0x80 <= c[1] <= 0x8F)))
  }

  /** The scalar an encoded character stands for, by the bit table of section 3. */
  function Value(c: seq<byte>): Scalar
    requires IsChar(c)
  {
    var lead: int := c[0];
    if |c| == 1 then lead
    else if |c| == 2 then (lead - 0xC0) * 0x40 + Payload(c[1])
    else if |c| == 3 then ((lead - 0xE0) * 0x40 + Payload(c[1])) * 0x40 + Payload(c[2])
    else (((lead - 0xF0) * 0x40 + Payload(c[1])) * 0x40 + Payload(c[2])) * 0x40 + Payload(c[3])
  }

  /** The size of the encoded character s starts with; 0 when s does not start with one. */
  function LeadingChar(s: seq<byte>): (k: nat)
    ensures k <= |s| && (k > 0 ==> IsChar(s[..k]))
  {
    if |s| >= 1 && IsChar(s[..1]) then 1
    else if |s| >= 2 && IsChar(s[..2]) then 2
    else if |s| >= 3 && IsChar(s[..3]) then 3
    else if |s| >= 4 && IsChar(s[..4]) then 4
    else 0
  }

  /** UTF8-octets: s is a concatenation of encoded characters. */
  predicate WellFormed(s: seq<byte>) {
    s == [] || (LeadingChar(s) > 0 && WellFormed(s[LeadingChar(s)..]))
  }

  /** The characters of a well-formed string. */
  function Scalars(s: seq<byte>): seq<Scalar>
    requires WellFormed(s)
  {
    if s == [] then []
    else [Value(s[..LeadingChar(s)])] + Scalars(s[LeadingChar(s)..])
  }

  lemma WellFormedStep(s: seq<byte>)
    requires WellFormed(s) && s != []
    ensures var k := LeadingChar(s);
            && k > 0 && WellFormed(s[k..])
            && Scalars(s) == [Value(s[..k])] + Scalars(s[k..])
  {
  }

  /** No encoded character is a proper prefix of another, so the reading of a string is unique. */
  lemma LeadingCharIsUnique(c: seq<byte>, rest: seq<byte>)
    requires IsChar(c)
    ensures LeadingChar(c + rest) == |c|
  {
    var s := c + rest;
    assert s[..|c|] == c;
    assert forall k | 0 <= k < |c| :: s[k] == c[k];
  }

  lemma WellFormedCons(c: seq<byte>, rest: seq<byte>)
    requires IsChar(c)
    ensures WellFormed(c + rest) == WellFormed(rest)
    ensures WellFormed(rest) ==> Scalars(c + rest) == [Value(c)] + Scalars(rest)
  {
    LeadingCharIsUnique(c, rest);
    assert (c + rest)[..|c|] == c;
    assert (c + rest)[|c|..] == rest;
  }
}
