/**
 JSON string bodies, written from section 7 of RFC 8259, restricted to texts in ASCII: the characters between the
 quotation marks of a string and what they denote.
 */
module Rfc8259 {
  import opened MachineInts
  import opened Rfc3629
  import opened Options

  predicate IsHex(b: byte) { 0x30 <= b <= 0x39 || 0x41 <= b <= 0x46 || 0x61 <= b <= 0x66 }

  function HexDigit(b: byte): (v: nat)
    requires IsHex(b)
    ensures v < 16
  {
    if b <= 0x39 then b - 0x30 else if b <= 0x46 then b - 0x41 + 10 else b - 0x61 + 10
  }

  /** 4HEXDIG */
  predicate HasUnit(s: seq<byte>) {
    |s| >= 4 && IsHex(s[0]) && IsHex(s[1]) && IsHex(s[2]) && IsHex(s[3])
  }

  function Unit(s: seq<byte>): (v: nat)
    requires HasUnit(s)
    ensures v < 0x1_0000
  {
    ((HexDigit(s[0]) * 16 + HexDigit(s[1])) * 16 + HexDigit(s[2])) * 16 + HexDigit(s[3])
  }

  datatype Char = Char(value: Scalar, size: nat)

  /** The production char at the front of s; an unpaired surrogate denotes no character. */
  function NextChar(s: seq<byte>): (c: Option<Char>)
    requires s != []
    ensures c.Some? ==> 1 <= c.value.size <= |s|
  {
    if s[0] != 0x5C then
      if 0x20 <= s[0] < 0x80 && s[0] != 0x22 then Some(Char(s[0], 1)) else None
    else if |s| < 2 then None
    else if s[1] in [0x22, 0x5C, 0x2F] then Some(Char(s[1], 2))
    else if s[1] == 0x62 then Some(Char(0x08, 2))
    else if s[1] == 0x66 then Some(Char(0x0C, 2))
    else if s[1] == 0x6E then Some(Char(0x0A, 2))
    else if s[1] == 0x72 then Some(Char(0x0D, 2))
    else if s[1] == 0x74 then Some(Char(0x09, 2))
    else if s[1] == 0x75 && HasUnit(s[2..]) then UnicodeEscape(s)
    else None
  }

  /** The six-character or twelve-character escape s starts with. */
  function UnicodeEscape(s: seq<byte>): (c: Option<Char>)
    requires |s| >= 6 && HasUnit(s[2..])
    ensures c.Some? ==> 1 <= c.value.size <= |s|
  {
    var u := Unit(s[2..]);
    if !(0xD800 <= u <= 0xDFFF) then Some(Char(u, 6))
    else if u <= 0xDBFF && |s| >= 12 && s[6] == 0x5C && s[7] == 0x75 && HasUnit(s[8..]) && 0xDC00 <= Unit(s[8..]) <= 0xDFFF then
      Some(Char((u - 0xD800) * 0x400 + (Unit(s[8..]) - 0xDC00) + 0x1_0000, 12))
    else None
  }

  /** *char: the characters a string body denotes, None when it is not one. */
  function Denoted(s: seq<byte>): Option<seq<Scalar>> {
    if s == [] then Some([])
    else
      match NextChar(s)
      case None => None
      case Some(c) =>
        match Denoted(s[c.size..])
        case None => None
        case Some(us) => Some([c.value] + us)
  }
}
