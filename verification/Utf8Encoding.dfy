/** poco/UTF8Encoding.cpp: decoding and encoding one UTF-8 character. */
module Utf8Encoding {
  import opened MachineInts
  import Rfc3629

  /** The character map: the code point of an ASCII byte, -n for the lead of an n-byte sequence, -1 otherwise. */
  function CharMap(b: byte): int {
    if b < 0x80 then b
    else if b < 0xC0 then -1
    else if b < 0xE0 then -2
    else if b < 0xF0 then -3
    else if b < 0xF8 then -4
    else -1
  }

  /** The legality test on a sequence of the given length; the C++ switch falls through from 4 down to 1. */
  predicate IsLegal(bytes: seq<byte>, length: nat)
    requires length <= |bytes|
  {
    && 1 <= length <= 4
    && (length == 4 ==> 0x80 <= bytes[3] <= 0xBF)
    && (length >= 3 ==> 0x80 <= bytes[2] <= 0xBF)
    && (length >= 2 ==> match bytes[0]
                        case 0xE0 => 0xA0 <= bytes[1] <= 0xBF
                        case 0xED => 0x80 <= bytes[1] <= 0x9F
                        case 0xF0 => 0x90 <= bytes[1] <= 0xBF
                        case 0xF4 => 0x80 <= bytes[1] <= 0x8F
                        case _ => 0x80 <= bytes[1] <= 0xBF)
    && !(0x80 <= bytes[0] < 0xC2)
    && bytes[0] <= 0xF4
  }

  /** The payload of a lead byte: b & ((0x07 << (n + 4)) | 0x03), with the mask 0x1F, 0x0F or 0x07. */
  function LeadBits(b: byte, n: int): nat
    requires -4 <= n <= -2
  {
    if n == -2 then b % 0x20 else if n == -3 then b % 0x10 else b % 0x08
  }

  /** The code point accumulated from the lead byte and the next k continuation bytes. */
  function Accumulate(bytes: seq<byte>, n: int, k: nat): (uc: nat)
    requires -4 <= n <= -2 && k < |bytes| && k <= 3
    ensures uc < if k == 0 then 0x20 else if k == 1 then 0x800 else if k == 2 then 0x2_0000 else 0x80_0000
  {
    if k == 0 then LeadBits(bytes[0], n)
    else Accumulate(bytes, n, k - 1) * 0x40 + bytes[k] % 0x40
  }

  /** What queryConvert answers: a code point, -1 for malformed, or -n for "n bytes are needed". */
  function QueryConvert(bytes: seq<byte>, length: nat): i32
    requires 1 <= length <= |bytes|
  {
    var n := CharMap(bytes[0]);
    if -n > length then n
    else if n >= -1 then n
    else if !IsLegal(bytes, -n) then -1
    else Accumulate(bytes, n, -n - 1)
  }

  method ComputeQueryConvert(bytes: seq<byte>, length: nat) returns (uc: i32)
    requires 1 <= length <= |bytes|
    ensures uc == QueryConvert(bytes, length)
  {
    var n := CharMap(bytes[0]);
    if -n > length {
      return n;
    }
    if n >= -1 {
      return n;
    }
    if !IsLegal(bytes, -n) {
      return -1;
    }
    uc := LeadBits(bytes[0], n);
    ghost var lead := n;
    var p := 0;
    while n < -1
      invariant lead <= n <= -1 && p == n - lead
      invariant uc == Accumulate(bytes, lead, p)
    {
      n, p := n + 1, p + 1;
      uc := uc * 0x40 + bytes[p] % 0x40;
    }
  }

  function SequenceLength(bytes: seq<byte>, length: nat): int
    requires length <= |bytes|
  {
    if 1 <= length then
      var cc := CharMap(bytes[0]);
      if cc >= 0 then 1 else -cc
    else -1
  }

  /** The bytes convert writes for a code point; none above 0x10FFFF, and one truncated byte for a negative one. */
  function Encode(ch: i32): (bytes: seq<byte>)
    ensures |bytes| <= 4
  {
    if ch <= 0x7F then [Low8(ch)]
    else if ch <= 0x7FF then [0xC0 + ch / 0x40 % 0x20, 0x80 + ch % 0x40]
    else if ch <= 0xFFFF then [0xE0 + ch / 0x1000 % 0x10, 0x80 + ch / 0x40 % 0x40, 0x80 + ch % 0x40]
    else if ch <= 0x10FFFF then
      [0xF0 + ch / 0x4_0000 % 0x08, 0x80 + ch / 0x1000 % 0x40, 0x80 + ch / 0x40 % 0x40, 0x80 + ch % 0x40]
    else []
  }

  /** convert(int, unsigned char*, int): the bytes are written only when they fit, but counted in any case. */
  method Convert(ch: i32, bytes: array<byte>, length: nat) returns (n: nat)
    requires length <= bytes.Length
    modifies bytes
    ensures n == |Encode(ch)|
    ensures bytes[..] == if n <= length then Encode(ch) + old(bytes[n..]) else old(bytes[..])
  {
    if ch <= 0x7F {
      if length >= 1 {
        bytes[0] := Low8(ch);
      }
      return 1;
    } else if ch <= 0x7FF {
      if length >= 2 {
        bytes[0] := 0xC0 + ch / 0x40 % 0x20;
        bytes[1] := 0x80 + ch % 0x40;
      }
      return 2;
    } else if ch <= 0xFFFF {
      if length >= 3 {
        bytes[0] := 0xE0 + ch / 0x1000 % 0x10;
        bytes[1] := 0x80 + ch / 0x40 % 0x40;
        bytes[2] := 0x80 + ch % 0x40;
      }
      return 3;
    } else if ch <= 0x10FFFF {
      if length >= 4 {
        bytes[0] := 0xF0 + ch / 0x4_0000 % 0x08;
        bytes[1] := 0x80 + ch / 0x1000 % 0x40;
        bytes[2] := 0x80 + ch / 0x40 % 0x40;
        bytes[3] := 0x80 + ch % 0x40;
      }
      return 4;
    } else {
      return 0;
    }
  }

  // ----- agreement with RFC 3629 -----

  /** Whatever the length: the lead is ASCII or C2 to F4, and one byte alone is legal exactly then. */
  lemma LegalLead(bytes: seq<byte>, length: nat)
    requires 1 <= length <= |bytes|
    ensures IsLegal(bytes, length) ==> length <= 4 && (bytes[0] <= 127 || 194 <= bytes[0] <= 244)
    ensures IsLegal(bytes, 1) <==> bytes[0] <= 127 || 194 <= bytes[0] <= 244
  {
  }

  /** A sequence of the length its lead byte asks for is legal exactly when it is a character of the grammar. */
  lemma LegalMatchesRfc(c: seq<byte>)
    requires 2 <= |c| <= 4 && CharMap(c[0]) == -|c|
    ensures IsLegal(c, |c|) <==> Rfc3629.IsChar(c)
  {
  }

  lemma TailBits(b: byte)
    requires Rfc3629.Tail(b)
    ensures b % 0x40 == Rfc3629.Payload(b)
  {
  }

  lemma LeadBitsValue(b: byte)
    ensures 0xC0 <= b < 0xE0 ==> LeadBits(b, -2) == b - 0xC0
    ensures 0xE0 <= b < 0xF0 ==> LeadBits(b, -3) == b - 0xE0
    ensures 0xF0 <= b < 0xF8 ==> LeadBits(b, -4) == b - 0xF0
  {
  }

  lemma AccumulateMatchesRfc(c: seq<byte>)
    requires 2 <= |c| <= 4 && CharMap(c[0]) == -|c| && Rfc3629.IsChar(c)
    ensures Accumulate(c, -|c|, |c| - 1) == Rfc3629.Value(c)
  {
    LeadBitsValue(c[0]);
    TailBits(c[1]);
    if |c| == 2 {
      assert Accumulate(c, -2, 1) == Accumulate(c, -2, 0) * 0x40 + c[1] % 0x40;
    } else if |c| == 3 {
      TailBits(c[2]);
      assert Accumulate(c, -3, 1) == Accumulate(c, -3, 0) * 0x40 + c[1] % 0x40;
      assert Accumulate(c, -3, 2) == Accumulate(c, -3, 1) * 0x40 + c[2] % 0x40;
    } else {
      TailBits(c[2]);
      TailBits(c[3]);
      assert Accumulate(c, -4, 1) == Accumulate(c, -4, 0) * 0x40 + c[1] % 0x40;
      assert Accumulate(c, -4, 2) == Accumulate(c, -4, 1) * 0x40 + c[2] % 0x40;
      assert Accumulate(c, -4, 3) == Accumulate(c, -4, 2) * 0x40 + c[3] % 0x40;
    }
  }

  lemma {:induction false} AccumulatePrefix(bytes: seq<byte>, n: int, k: nat, size: nat)
    requires -4 <= n <= -2 && k < size <= |bytes| && k <= 3
    ensures Accumulate(bytes[..size], n, k) == Accumulate(bytes, n, k)
  {
    if k > 0 {
      AccumulatePrefix(bytes, n, k - 1, size);
    }
  }

  /** Given the bytes it asked for, the decoder accepts exactly the grammar's characters, with their values. */
  lemma DecoderMatchesRfc(bytes: seq<byte>)
    requires bytes != [] && SequenceLength(bytes, 1) <= |bytes|
    ensures var n := SequenceLength(bytes, 1);
            && (QueryConvert(bytes, n) >= 0 <==> Rfc3629.IsChar(bytes[..n]))
            && QueryConvert(bytes, n) >= -1
            && (Rfc3629.IsChar(bytes[..n]) ==> QueryConvert(bytes, n) == Rfc3629.Value(bytes[..n]))
  {
    var n := SequenceLength(bytes, 1);
    if n >= 2 {
      var c := bytes[..n];
      LegalMatchesRfc(c);
      assert IsLegal(bytes, n) == IsLegal(c, n);
      AccumulatePrefix(bytes, -n, n - 1, n);
      if Rfc3629.IsChar(c) {
        AccumulateMatchesRfc(c);
      }
    }
  }

  /** The leading character, when there is one, has the size the decoder asks for. */
  lemma LeadingCharSize(bytes: seq<byte>)
    requires bytes != []
    ensures var n := SequenceLength(bytes, 1);
            Rfc3629.LeadingChar(bytes) == if n <= |bytes| && Rfc3629.IsChar(bytes[..n]) then n else 0
  {
  }

  lemma Shift6(x: nat)
    ensures x / 0x1000 == x / 0x40 / 0x40 && x / 0x4_0000 == x / 0x40 / 0x40 / 0x40
  {
  }

  /** The encoder maps every scalar to the grammar's character for it. */
  lemma EncoderMatchesRfc(u: Rfc3629.Scalar)
    ensures Rfc3629.IsChar(Encode(u)) && Rfc3629.Value(Encode(u)) == u
  {
    Shift6(u);
    if 0x7F < u <= 0x7FF {
      EncodeSize2(u);
    } else if 0x7FF < u <= 0xFFFF {
      EncodeSize3(u);
    } else if 0xFFFF < u {
      EncodeSize4(u);
    }
  }

  lemma EncodeSize2(u: Rfc3629.Scalar)
    requires 0x7F < u <= 0x7FF
    ensures Rfc3629.IsChar(Encode(u)) && Rfc3629.Value(Encode(u)) == u
  {
  }

  lemma EncodeSize3(u: Rfc3629.Scalar)
    requires 0x7FF < u <= 0xFFFF
    ensures Rfc3629.IsChar(Encode(u)) && Rfc3629.Value(Encode(u)) == u
  {
    Shift6(u);
    var a: int := u / 0x40;
    var b: int := a / 0x40;
    assert Encode(u) == [0xE0 + b, 0x80 + a % 0x40, 0x80 + u % 0x40];
  }

  lemma EncodeSize4(u: Rfc3629.Scalar)
    requires 0xFFFF < u
    ensures Rfc3629.IsChar(Encode(u)) && Rfc3629.Value(Encode(u)) == u
  {
    Shift6(u);
    var x: int := u;
    var a: int := x / 0x40;
    var b: int := a / 0x40;
    var d: int := b / 0x40;
    var c := [0xF0 + d, 0x80 + b % 0x40, 0x80 + a % 0x40, 0x80 + x % 0x40];
    assert Encode(u) == c;
    assert Rfc3629.IsChar(c) by {
      assert 0 <= d <= 4 && (d == 0 ==> b >= 0x10) && (d == 4 ==> b <= 0x10F);
    }
    assert d * 0x40 + b % 0x40 == b && b * 0x40 + a % 0x40 == a && a * 0x40 + x % 0x40 == x;
  }

  /** Re-encoding the value of a character gives that character back. */
  lemma EncodeValue(c: seq<byte>)
    requires Rfc3629.IsChar(c)
    ensures Encode(Rfc3629.Value(c)) == c
  {
    if |c| == 2 {
      Split6(c[0] - 0xC0, Rfc3629.Payload(c[1]));
    } else if |c| == 3 {
      EncodeValue3(c);
    } else if |c| == 4 {
      EncodeValue4(c);
    }
  }

  lemma EncodeValue3(c: seq<byte>)
    requires Rfc3629.IsChar(c) && |c| == 3
    ensures Encode(Rfc3629.Value(c)) == c
  {
    var top: int, t1, t2 := c[0] - 0xE0, Rfc3629.Payload(c[1]), Rfc3629.Payload(c[2]);
    var u: nat := Rfc3629.Value(c);
    assert u == (top * 0x40 + t1) * 0x40 + t2 && 0x7FF < u <= 0xFFFF;
    Shift6(u);
    Split6(top, t1);
    Split6(top * 0x40 + t1, t2);
    assert u / 0x1000 % 0x10 == top;
  }

  lemma EncodeValue4(c: seq<byte>)
    requires Rfc3629.IsChar(c) && |c| == 4
    ensures Encode(Rfc3629.Value(c)) == c
  {
    var top: int, t1, t2, t3 := c[0] - 0xF0, Rfc3629.Payload(c[1]), Rfc3629.Payload(c[2]), Rfc3629.Payload(c[3]);
    var u: nat := Rfc3629.Value(c);
    assert u == ((top * 0x40 + t1) * 0x40 + t2) * 0x40 + t3 && 0xFFFF < u <= 0x10FFFF;
    Shift6(u);
    Split6(top, t1);
    Split6(top * 0x40 + t1, t2);
    Split6((top * 0x40 + t1) * 0x40 + t2, t3);
    assert u / 0x4_0000 % 0x08 == top;
  }

  lemma Split6(q: int, r: int)
    requires 0 <= r < 0x40
    ensures (q * 0x40 + r) / 0x40 == q && (q * 0x40 + r) % 0x40 == r
  {
  }
}
