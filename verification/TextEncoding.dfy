/**
 The TextEncoding interface over its three modelled implementations, and what one round of the
 decoding negotiation comes to: a segment of the input with its code point or -1.
 */
module TextEncodings {
  import opened MachineInts
  import Utf8Encoding
  import Utf16Encoding
  import Utf32Encoding

  /** Size of the scratch buffers the iterators and converters pass to an encoding. */
  const MAX_SEQUENCE_LENGTH: nat := 6

  datatype TextEncoding = UTF8 | UTF16 | UTF32 {

    /** A code point; -1 for malformed; -n for "n bytes are needed". */
    function QueryConvert(bytes: seq<byte>, length: nat): i32
      requires 1 <= length <= |bytes|
    {
      match this
      case UTF8 => Utf8Encoding.QueryConvert(bytes, length)
      case UTF16 => Utf16Encoding.QueryConvert(bytes, length)
      case UTF32 => Utf32Encoding.QueryConvert(bytes, length)
    }

    method ComputeQueryConvert(bytes: seq<byte>, length: nat) returns (n: i32)
      requires 1 <= length <= |bytes|
      ensures n == QueryConvert(bytes, length)
    {
      match this {
        case UTF8 => n := Utf8Encoding.ComputeQueryConvert(bytes, length);
        case UTF16 => n := Utf16Encoding.QueryConvert(bytes, length);
        case UTF32 => n := Utf32Encoding.QueryConvert(bytes, length);
      }
    }

    function SequenceLength(bytes: seq<byte>, length: nat): int
      requires length <= |bytes|
    {
      match this
      case UTF8 => Utf8Encoding.SequenceLength(bytes, length)
      case UTF16 => Utf16Encoding.SequenceLength(bytes, length)
      case UTF32 => Utf32Encoding.SequenceLength(bytes, length)
    }

    function Encode(ch: i32): (bytes: seq<byte>)
      ensures |bytes| <= 4
    {
      match this
      case UTF8 => Utf8Encoding.Encode(ch)
      case UTF16 => Utf16Encoding.Encode(ch)
      case UTF32 => Utf32Encoding.Encode(ch)
    }

    method Convert(ch: i32, bytes: array<byte>, length: nat) returns (n: nat)
      requires length <= bytes.Length
      modifies bytes
      ensures n == |Encode(ch)|
      ensures bytes[..] == if n <= length then Encode(ch) + old(bytes[n..]) else old(bytes[..])
    {
      match this {
        case UTF8 => n := Utf8Encoding.Convert(ch, bytes, length);
        case UTF16 => n := Utf16Encoding.Convert(ch, bytes, length);
        case UTF32 => n := Utf32Encoding.Convert(ch, bytes, length);
      }
    }

    /** How many bytes the first character of s takes, as far as s reaches to tell. */
    function Needed(s: seq<byte>): (n: nat)
      requires s != []
      ensures 1 <= n <= 4
    {
      match this
      case UTF8 => Utf8Encoding.SequenceLength(s, 1)
      case UTF16 => if |s| >= 2 && Utf16Encoding.IsHigh(Unit16(s)) then 4 else 2
      case UTF32 => 4
    }

    /** A complete UTF-32 unit below -1 as a signed value. */
    predicate Dropped(s: seq<byte>) {
      UTF32? && |s| >= 4 && Signed32(Unit32(s)) < -1
    }

    /** The first segment of s as the iterator sees it: cut off by the end of s, it is malformed and takes what is left. */
    function First(s: seq<byte>): (g: Segment)
      requires s != []
      ensures 1 <= g.size <= |s| && g.ch >= -1
    {
      var n := Needed(s);
      if |s| < n then Segment(-1, |s|)
      else if QueryConvert(s, n) < -1 then Segment(-1, n)
      else Segment(QueryConvert(s, n), n)
    }

    /** s cut into segments from left to right. */
    function Walk(s: seq<byte>): seq<Segment> {
      if s == [] then [] else [First(s)] + Walk(s[First(s).size..])
    }

    /** The first segment as the raw walk sees it: an unanswered demand takes everything that is left. */
    function RawFirst(s: seq<byte>): (g: Segment)
      requires s != []
      ensures 1 <= g.size <= |s| && g.ch >= -1
    {
      if Dropped(s) then Segment(-1, |s|) else First(s)
    }

    function RawWalk(s: seq<byte>): seq<Segment> {
      if s == [] then [] else [RawFirst(s)] + RawWalk(s[RawFirst(s).size..])
    }

    /** No demand for -n bytes is ever met and answered by another one. */
    predicate Ends(s: seq<byte>) {
      Dropped(s) ==> -(Signed32(Unit32(s)) as int) > |s|
    }

    /** The negotiation ends at every segment of the iterator's walk. */
    predicate Negotiable(s: seq<byte>) {
      UTF32? && |s| >= 4 ==> Ends(s) && Negotiable(s[4..])
    }

    /** The negotiation ends at every segment of the raw walk. */
    predicate RawNegotiable(s: seq<byte>) {
      UTF32? && |s| >= 4 ==> Ends(s) && (Dropped(s) || RawNegotiable(s[4..]))
    }

    // ----- the rounds of a negotiation -----

    /** The loop condition: more bytes are demanded, and they are there. */
    predicate GoesOn(s: seq<byte>, n: int) { -1 > n && |s| >= -n }

    /** The answer after k rounds; a loop that has ended keeps its answer. */
    function Answer(s: seq<byte>, k: nat): i32
      requires s != []
    {
      if k == 0 then QueryConvert(s, 1)
      else
        var n: int := Answer(s, k - 1);
        if GoesOn(s, n) then QueryConvert(s, -n) else n
    }
  }

  /** One decoded stretch of input: a code point, or -1 for a malformed one. */
  datatype Segment = Segment(ch: i32, size: nat)

  // ----- when the negotiation ends -----

  /** While less than the character is offered, the answer asks for more of it; after that only a dropped unit does. */
  lemma NegotiationProgress(e: TextEncoding, s: seq<byte>, offered: nat)
    requires s != [] && 1 <= offered <= |s| && offered <= e.Needed(s)
    ensures var n := e.QueryConvert(s, offered);
            if offered < e.Needed(s) then n < -1 && offered < -n <= e.Needed(s)
            else n >= -1 || (e.Dropped(s) && n == Signed32(Unit32(s)))
  {
    if e.UTF8? {
      Utf8Answer(s, offered);
    }
  }

  lemma Utf8Answer(s: seq<byte>, offered: nat)
    requires s != [] && 1 <= offered <= |s|
    ensures var n := Utf8Encoding.CharMap(s[0]);
            Utf8Encoding.QueryConvert(s, offered) == n || (-n <= offered && Utf8Encoding.QueryConvert(s, offered) >= -1)
  {
  }

  /** A unit below -1 on a long enough input: every demand is met and answered by another demand, round after round. */
  lemma {:induction false} Utf32NegotiationSpins(s: seq<byte>, k: nat)
    requires UTF32.Dropped(s) && !UTF32.Ends(s)
    ensures UTF32.Answer(s, k) in {Signed32(Unit32(s)), -4} && UTF32.GoesOn(s, UTF32.Answer(s, k))
  {
    if k > 0 {
      Utf32NegotiationSpins(s, k - 1);
    }
  }

  /**
   The negotiation ends, for every encoding and input, if and only if the input does not start with a UTF-32 unit below
   -1 whose magnitude is at most the number of bytes left.
   */
  lemma NegotiationEndsIff(e: TextEncoding, s: seq<byte>)
    requires s != []
    ensures (exists k: nat :: !e.GoesOn(s, e.Answer(s, k))) <==> e.Ends(s)
  {
    if e.Ends(s) {
      NegotiationStops(e, s, 1, 0);
    } else {
      forall k: nat
        ensures e.GoesOn(s, e.Answer(s, k))
      {
        Utf32NegotiationSpins(s, k);
      }
    }
  }

  /** Each round offers more of the character until the answer is final. */
  lemma NegotiationStops(e: TextEncoding, s: seq<byte>, offered: nat, k: nat)
    requires e.Ends(s) && 1 <= offered <= |s| && offered <= e.Needed(s) && e.Answer(s, k) == e.QueryConvert(s, offered)
    ensures exists m: nat :: !e.GoesOn(s, e.Answer(s, m))
    decreases e.Needed(s) - offered
  {
    NegotiationProgress(e, s, offered);
    var n: int := e.Answer(s, k);
    if e.GoesOn(s, n) {
      NegotiationStops(e, s, -n, k + 1);
    }
  }

  /** A demand that is met, in a negotiation that ends, is for more of the character. */
  lemma DemandGrows(e: TextEncoding, s: seq<byte>, offered: nat)
    requires s != [] && e.Ends(s) && 1 <= offered <= |s| && offered <= e.Needed(s)
    requires e.GoesOn(s, e.QueryConvert(s, offered))
    ensures var n: int := e.QueryConvert(s, offered); offered < -n <= e.Needed(s) <= 4
  {
    NegotiationProgress(e, s, offered);
  }

  /** What the answer that ends a negotiation means to the two walks. */
  lemma NegotiationConcluded(e: TextEncoding, s: seq<byte>, offered: nat)
    requires s != [] && e.Ends(s) && 1 <= offered <= |s| && offered <= e.Needed(s)
    requires !e.GoesOn(s, e.QueryConvert(s, offered))
    ensures var n := e.QueryConvert(s, offered);
            && e.First(s).ch == (if n < -1 then -1 else n)
            && e.RawFirst(s) == if n < -1 then Segment(-1, |s|) else Segment(n, offered)
  {
    NegotiationProgress(e, s, offered);
  }

  /** The first segment of UTF-16 bytes: a unit, or four bytes behind a leading surrogate; units are least byte first. */
  lemma Utf16SegmentIs(s: seq<byte>)
    requires s != []
    ensures |s| < 2 ==> UTF16.First(s) == Segment(-1, 1)
    ensures |s| >= 2 ==>
              var lo: int, hi: int := s[0], s[1];
              var unit := lo + 256 * hi;
              if !(0xD800 <= unit <= 0xDBFF) then UTF16.First(s) == Segment(unit, 2)
              else if |s| < 4 then UTF16.First(s) == Segment(-1, |s|)
              else
                var lo2: int, hi2: int := s[2], s[3];
                var second := lo2 + 256 * hi2;
                UTF16.First(s) == if second < 0xDC00 then Segment(-1, 4)
                                  else Segment((unit - 0xD800) * 1024 + second % 1024 + 65536, 4)
  {
  }

  /** The first segment of UTF-32 bytes: a unit, least byte first, malformed when it is negative as an int. */
  lemma Utf32SegmentIs(s: seq<byte>)
    requires s != []
    ensures |s| < 4 ==> UTF32.First(s) == Segment(-1, |s|)
    ensures |s| >= 4 ==>
              var b0: int, b1: int, b2: int, b3: int := s[0], s[1], s[2], s[3];
              var unit := b0 + 256 * (b1 + 256 * (b2 + 256 * b3));
              UTF32.First(s) == Segment(if b3 >= 128 then -1 else unit, 4)
              && UTF32.Encode(if b3 >= 128 then unit - 4294967296 else unit) == s[..4]
  {
    if |s| >= 4 {
      var b0: int, b1: int, b2: int, b3: int := s[0], s[1], s[2], s[3];
      var unit := b0 + 256 * (b1 + 256 * (b2 + 256 * b3));
      UnitBytes(b0, b1, b2, b3);
      assert Low32(if b3 >= 128 then unit - 4294967296 else unit) == unit;
    }
  }

  lemma UnitBytes(b0: byte, b1: byte, b2: byte, b3: byte)
    ensures Bytes32((b0 as int) + 256 * (b1 + 256 * (b2 + 256 * (b3 as int)))) == [b0, b1, b2, b3]
  {
    var y := (b1 as int) + 256 * (b2 + 256 * (b3 as int));
    var x := b0 + 256 * y;
    assert x / 0x100 == y && y / 0x100 == b2 + 256 * (b3 as int) && y / 0x1_0000 == b3;
    assert x / 0x1_0000 == y / 0x100 && x / 0x100_0000 == y / 0x1_0000;
  }

  // ----- the two walks -----

  /** A dropped unit is the last thing the raw walk sees, so it must be the last thing there is. */
  predicate Aligned(e: TextEncoding, s: seq<byte>) {
    e.UTF32? && |s| >= 4 ==> if e.Dropped(s) then |s| == 4 else Aligned(e, s[4..])
  }

  /** The walks agree if and only if nothing follows the first dropped unit. */
  lemma {:induction false} WalksAgreeIff(e: TextEncoding, s: seq<byte>)
    ensures e.Walk(s) == e.RawWalk(s) <==> Aligned(e, s)
  {
    if s != [] {
      var g, rest := e.First(s), s[e.First(s).size..];
      if e.Dropped(s) {
        assert e.RawWalk(s) == [Segment(-1, |s|)];
        assert e.Walk(s)[0] == Segment(-1, 4);
      } else {
        WalksAgreeIff(e, rest);
        assert e.Walk(s)[1..] == e.Walk(rest) && e.RawWalk(s)[1..] == e.RawWalk(rest);
        assert e.Walk(s)[0] == e.RawWalk(s)[0];
      }
    }
  }

  /** Where the iterator's walk ends, so does the raw one. */
  lemma {:induction false} NegotiableIsRaw(e: TextEncoding, s: seq<byte>)
    requires e.Negotiable(s)
    ensures e.RawNegotiable(s)
  {
    if e.UTF32? && |s| >= 4 && !e.Dropped(s) {
      NegotiableIsRaw(e, s[4..]);
    }
  }

  /** The answer depends only on the bytes offered. */
  lemma QueryConvertPrefix(e: TextEncoding, a: seq<byte>, b: seq<byte>, length: nat)
    requires 1 <= length <= |a| && length <= |b| && a[..length] == b[..length]
    ensures e.QueryConvert(a, length) == e.QueryConvert(b, length)
  {
    assert forall k | 0 <= k < length :: a[k] == a[..length][k] == b[..length][k] == b[k];
    if e.UTF8? {
      var n := Utf8Encoding.CharMap(a[0]);
      if -4 <= n <= -2 && -n <= length {
        Utf8Encoding.AccumulatePrefix(a, n, -n - 1, length);
        Utf8Encoding.AccumulatePrefix(b, n, -n - 1, length);
      }
    } else if e.UTF16? && length >= 4 {
      assert a[2..][0] == b[2..][0] && a[2..][1] == b[2..][1];
    }
  }

  lemma SequenceLengthPrefix(e: TextEncoding, a: seq<byte>, b: seq<byte>, length: nat)
    requires 1 <= length <= |a| && length <= |b| && a[..length] == b[..length]
    ensures e.SequenceLength(a, length) == e.SequenceLength(b, length)
  {
    assert forall k | 0 <= k < length :: a[k] == a[..length][k] == b[..length][k] == b[k];
  }

  lemma NegotiableSuffix(e: TextEncoding, s: seq<byte>)
    requires s != []
    ensures e.Negotiable(s) ==> e.Ends(s) && e.Negotiable(s[e.First(s).size..])
    ensures e.RawNegotiable(s) ==> e.Ends(s) && e.RawNegotiable(s[e.RawFirst(s).size..])
  {
  }
}
