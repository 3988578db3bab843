/** poco/UTF16Encoding.cpp in native byte order (_flipBytes == false). */
module Utf16Encoding {
  import opened MachineInts

  predicate IsHigh(unit: u16) { 0xD800 <= unit < 0xDC00 }

  /** The code point of a surrogate pair: ((uc & 0x3ff) << 10) + (uc2 & 0x3ff) + 0x10000. */
  function Pair(high: u16, low: u16): i32 {
    high % 0x400 * 0x400 + low % 0x400 + 0x1_0000
  }

  /** The second unit is tested with uc2 >= 0xdc00 && uc < 0xe000, so any unit from 0xDC00 up is taken as a low one. */
  function QueryConvert(bytes: seq<byte>, length: nat): i32
    requires 1 <= length <= |bytes|
  {
    if length < 2 then -2
    else
      var uc := Unit16(bytes);
      if !IsHigh(uc) then uc
      else if length < 4 then -4
      else
        var uc2 := Unit16(bytes[2..]);
        if uc2 >= 0xDC00 && uc < 0xE000 then Pair(uc, uc2) else -1
  }

  function SequenceLength(bytes: seq<byte>, length: nat): int
    requires length <= |bytes|
  {
    if length >= 2 then (if IsHigh(Unit16(bytes)) then 4 else 2) else -2
  }

  function Encode(ch: i32): (bytes: seq<byte>)
    ensures |bytes| <= 4
  {
    if ch <= 0xFFFF then Bytes16(Low16(ch))
    else
      var ch1 := ch - 0x1_0000;
      Bytes16(0xD800 + ch1 / 0x400 % 0x400) + Bytes16(0xDC00 + ch1 % 0x400)
  }

  method Convert(ch: i32, bytes: array<byte>, length: nat) returns (n: nat)
    requires length <= bytes.Length
    modifies bytes
    ensures n == |Encode(ch)|
    ensures bytes[..] == if n <= length then Encode(ch) + old(bytes[n..]) else old(bytes[..])
  {
    if ch <= 0xFFFF {
      if length >= 2 {
        var ch1 := Low16(ch);
        bytes[0], bytes[1] := ch1 % 0x100, ch1 / 0x100;
      }
      return 2;
    } else {
      if length >= 4 {
        var ch1: int := ch - 0x1_0000;
        var w1: u16 := 0xD800 + ch1 / 0x400 % 0x400;
        var w2: u16 := 0xDC00 + ch1 % 0x400;
        bytes[0], bytes[1] := w1 % 0x100, w1 / 0x100;
        bytes[2], bytes[3] := w2 % 0x100, w2 / 0x100;
      }
      return 4;
    }
  }
}

/** poco/UTF32Encoding.cpp in native byte order (_flipBytes == false). */
module Utf32Encoding {
  import opened MachineInts

  /** A complete unit is returned as a signed int, so a unit from 0x80000000 up reads as a negative answer. */
  function QueryConvert(bytes: seq<byte>, length: nat): i32
    requires 1 <= length <= |bytes|
  {
    if length >= 4 then Signed32(Unit32(bytes)) else -4
  }

  function SequenceLength(bytes: seq<byte>, length: nat): int
    requires length <= |bytes|
  {
    4
  }

  function Encode(ch: i32): (bytes: seq<byte>)
    ensures |bytes| == 4
  {
    Bytes32(Low32(ch))
  }

  method Convert(ch: i32, bytes: array<byte>, length: nat) returns (n: nat)
    requires length <= bytes.Length
    modifies bytes
    ensures n == |Encode(ch)|
    ensures bytes[..] == if n <= length then Encode(ch) + old(bytes[n..]) else old(bytes[..])
  {
    if length >= 4 {
      var ch1 := Low32(ch);
      bytes[0], bytes[1] := ch1 % 0x100, ch1 / 0x100 % 0x100;
      bytes[2], bytes[3] := ch1 / 0x1_0000 % 0x100, ch1 / 0x100_0000;
    }
    return 4;
  }
}
