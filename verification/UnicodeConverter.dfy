/** poco/UnicodeConverter.cpp: strings of UTF-8 bytes to and from strings of UTF-16 and UTF-32 units. */
module UnicodeConverters {
  import opened MachineInts
  import opened TextEncodings
  import opened TextIterators
  import opened TextConverters
  import opened Rfc3629
  import Rfc2781
  import Utf8Encoding
  import Utf16Encoding
  import Utf8Sanitizer

  // ----- specification -----

  /** The units appended for a code point: a unit, or two surrogates. */
  function Utf16Of(cc: i32): seq<u16> {
    if cc <= 0xFFFF then [Low16(cc)]
    else [0xD800 + (cc - 0x1_0000) / 0x400 % 0x400, 0xDC00 + (cc - 0x1_0000) % 0x400]
  }

  function Utf16OfAll(gs: seq<Segment>): seq<u16> {
    if gs == [] then [] else Utf16Of(gs[0].ch) + Utf16OfAll(gs[1..])
  }

  function Utf32OfAll(gs: seq<Segment>): seq<u32> {
    if gs == [] then [] else [Low32(gs[0].ch)] + Utf32OfAll(gs[1..])
  }

  function ToUtf16(s: seq<byte>): seq<u16> { Utf16OfAll(UTF8.Walk(s)) }

  function ToUtf32(s: seq<byte>): seq<u32> { Utf32OfAll(UTF8.Walk(s)) }

  /** The memory image of a string of units. */
  function Memory16(w: seq<u16>): seq<byte> {
    if w == [] then [] else Bytes16(w[0]) + Memory16(w[1..])
  }

  function Memory32(w: seq<u32>): seq<byte> {
    if w == [] then [] else Bytes32(w[0]) + Memory32(w[1..])
  }

  function FromUtf16(w: seq<u16>): seq<byte> {
    EmitAll(UTF8, '?' as int, nullTransform, UTF16.Walk(Memory16(w)))
  }

  function FromUtf32(w: seq<u32>): seq<byte> {
    EmitAll(UTF8, '?' as int, nullTransform, UTF32.RawWalk(Memory32(w)))
  }

  /** The first unit below -1 as a signed value, if there is one, exceeds the bytes that are left, itself included. */
  predicate Decodable(w: seq<u32>) {
    w == [] || if Signed32(w[0]) < -1 then -(Signed32(w[0]) as int) > 4 * |w| else Decodable(w[1..])
  }

  // ----- the conversions -----

  method ConvertToUtf32(utf8String: seq<byte>) returns (utf32String: seq<u32>)
    ensures utf32String == ToUtf32(utf8String)
  {
    utf32String := [];
    assert utf8String[0..] == utf8String;
    var it := new TextIterator(utf8String, UTF8);
    while it.it != |utf8String|
      invariant it.it <= |utf8String| && it.Valid() && it.str == utf8String && it.encoding == UTF8 && fresh(it)
      invariant utf32String + ToUtf32(utf8String[it.it..]) == ToUtf32(utf8String)
      decreases |utf8String| - it.it
    {
      hide *;
      ToUtf32Step(utf8String, it.it);
      var cc := it.Deref();
      it.Advance();
      utf32String := utf32String + [Low32(cc)];
    }
  }

  /** One code point of the UTF-16 loop. */
  method AppendUtf16(utf16String: seq<u16>, c: i32) returns (appended: seq<u16>)
    ensures appended == utf16String + Utf16Of(c)
  {
    var cc: int := c;
    if cc <= 0xFFFF {
      appended := utf16String + [Low16(cc)];
    } else {
      cc := cc - 0x1_0000;
      appended := utf16String + [0xD800 + cc / 0x400 % 0x400];
      appended := appended + [0xDC00 + cc % 0x400];
    }
  }

  method ConvertToUtf16(utf8String: seq<byte>) returns (utf16String: seq<u16>)
    ensures utf16String == ToUtf16(utf8String)
  {
    hide *;
    utf16String := [];
    ToUtf16Ends(utf8String);
    var it := new TextIterator(utf8String, UTF8);
    while it.it != |utf8String|
      invariant it.it <= |utf8String| && it.Valid() && it.str == utf8String && it.encoding == UTF8 && fresh(it)
      invariant utf16String + ToUtf16(utf8String[it.it..]) == ToUtf16(utf8String)
      decreases |utf8String| - it.it
    {
      ToUtf16Step(utf8String, it.it);
      var cc := it.Deref();
      it.Advance();
      utf16String := AppendUtf16(utf16String, cc);
    }
  }

  method ConvertFromUtf16(utf16String: seq<u16>) returns (utf8String: seq<byte>)
    ensures utf8String == FromUtf16(utf16String)
  {
    WalksAgreeIff(UTF16, Memory16(utf16String));
    var converter := new TextConverter(UTF16, UTF8);
    var _, appended := converter.ConvertBuffer(Memory16(utf16String), [], nullTransform);
    utf8String := appended;
  }

  method ConvertFromUtf32(utf32String: seq<u32>) returns (utf8String: seq<byte>)
    requires Decodable(utf32String)
    ensures utf8String == FromUtf32(utf32String)
  {
    DecodableIff(utf32String);
    var converter := new TextConverter(UTF32, UTF8);
    var _, appended := converter.ConvertBuffer(Memory32(utf32String), [], nullTransform);
    utf8String := appended;
  }

  lemma WalkStep(s: seq<byte>)
    requires s != []
    ensures var g := UTF8.First(s);
            && UTF8.Walk(s) == [g] + UTF8.Walk(s[g.size..])
            && ToUtf16(s) == Utf16Of(g.ch) + ToUtf16(s[g.size..])
            && ToUtf32(s) == [Low32(g.ch)] + ToUtf32(s[g.size..])
  {
    assert UTF8.Walk(s)[1..] == UTF8.Walk(s[UTF8.First(s).size..]);
  }

  /** What becomes of the front of any byte string: the character's units, or one unit for a malformed segment. */
  lemma UnitsStep(s: seq<byte>)
    requires s != []
    ensures var k := LeadingChar(s);
            if k > 0 then
              && ToUtf16(s) == Rfc2781.Units(Value(s[..k])) + ToUtf16(s[k..])
              && ToUtf32(s) == [Value(s[..k])] + ToUtf32(s[k..])
            else
              var n := Utf8Sanitizer.AtMost(Utf8Sanitizer.Skipped(s[0]), |s|);
              ToUtf16(s) == [0xFFFF] + ToUtf16(s[n..]) && ToUtf32(s) == [0xFFFF_FFFF] + ToUtf32(s[n..])
  {
    hide *;
    WalkStep(s);
    Utf8Sanitizer.SegmentIs(s);
    if LeadingChar(s) > 0 {
      ScalarThroughUtf16(Value(s[..LeadingChar(s)]), []);
      SmallUnit(Value(s[..LeadingChar(s)]));
    }
    MalformedUnits();
  }

  lemma SmallUnit(u: Scalar)
    ensures Low32(u) == u
  {
  }

  lemma MalformedUnits()
    ensures Utf16Of(-1) == [0xFFFF] && Low32(-1) == 0xFFFF_FFFF
  {
  }

  lemma ToUtf16Ends(s: seq<byte>)
    ensures [] + ToUtf16(s[0..]) == ToUtf16(s)
    ensures forall done: seq<u16> :: done + ToUtf16(s[|s|..]) == done
  {
    assert s[0..] == s;
  }

  lemma ToUtf32Step(s: seq<byte>, at: nat)
    requires at < |s|
    ensures UTF8.Ends(s[at..])
    ensures var g := UTF8.First(s[at..]);
            at + g.size <= |s| && forall done: seq<u32> :: done + ToUtf32(s[at..]) == (done + [Low32(g.ch)]) + ToUtf32(s[at + g.size..])
  {
    WalkStep(s[at..]);
    assert s[at..][UTF8.First(s[at..]).size..] == s[at + UTF8.First(s[at..]).size..];
  }

  lemma ToUtf16Step(s: seq<byte>, at: nat)
    requires at < |s|
    ensures UTF8.Ends(s[at..])
    ensures var g := UTF8.First(s[at..]);
            at + g.size <= |s| && forall done: seq<u16> :: done + ToUtf16(s[at..]) == (done + Utf16Of(g.ch)) + ToUtf16(s[at + g.size..])
  {
    WalkStep(s[at..]);
    assert s[at..][UTF8.First(s[at..]).size..] == s[at + UTF8.First(s[at..]).size..];
  }

  // ----- the units in memory -----

  lemma {:induction false} Memory32Size(w: seq<u32>)
    ensures |Memory32(w)| == 4 * |w|
  {
    if w != [] {
      Memory32Size(w[1..]);
    }
  }

  /** Decodable is what the raw walk over the memory image needs to end. */
  lemma {:induction false} DecodableIff(w: seq<u32>)
    ensures Decodable(w) <==> UTF32.RawNegotiable(Memory32(w))
  {
    if w != [] {
      DecodableIff(w[1..]);
      Memory32Size(w);
      Bytes32RoundTrip(w[0], Memory32(w[1..]));
      assert Memory32(w)[4..] == Memory32(w[1..]);
    }
  }

  /** The raw walk over UTF-32 memory yields one segment per unit, up to the first unit below -1, which ends it. */
  lemma Walk32Step(w: seq<u32>)
    requires w != []
    ensures FromUtf32(w)
         == if Signed32(w[0]) < -1 then EmitSegment(UTF8, '?' as int, nullTransform, Segment(-1, 4 * |w|))
            else EmitSegment(UTF8, '?' as int, nullTransform, Segment(Signed32(w[0]), 4)) + FromUtf32(w[1..])
  {
    var m := Memory32(w);
    Memory32Size(w);
    Bytes32RoundTrip(w[0], Memory32(w[1..]));
    assert m[4..] == Memory32(w[1..]);
    if UTF32.Dropped(m) {
      var g := Segment(-1, |m|);
      assert UTF32.RawWalk(m) == [g] && [g][1..] == [];
      assert EmitAll(UTF8, '?' as int, nullTransform, [g]) == EmitSegment(UTF8, '?' as int, nullTransform, g);
    } else {
      assert UTF32.RawWalk(m) == [Segment(Signed32(w[0]), 4)] + UTF32.RawWalk(m[4..]);
      assert UTF32.RawWalk(m)[1..] == UTF32.RawWalk(m[4..]);
    }
  }

  /** The walk over UTF-16 memory at a unit that is no leading surrogate. */
  lemma Walk16Unit(w: seq<u16>)
    requires w != [] && !Utf16Encoding.IsHigh(w[0])
    ensures FromUtf16(w) == EmitSegment(UTF8, '?' as int, nullTransform, Segment(w[0], 2)) + FromUtf16(w[1..])
  {
    Bytes16RoundTrip(w[0], Memory16(w[1..]));
    assert Memory16(w)[2..] == Memory16(w[1..]);
    ConvertedStep(UTF16, UTF8, '?' as int, nullTransform, Memory16(w));
  }

  /** The walk over UTF-16 memory at a surrogate pair. */
  lemma Walk16Pair(w: seq<u16>)
    requires Rfc2781.StartsWithPair(w)
    ensures var g := Segment(Utf16Encoding.Pair(w[0], w[1]), 4);
            FromUtf16(w) == EmitSegment(UTF8, '?' as int, nullTransform, g) + FromUtf16(w[2..])
  {
    var m := Memory16(w);
    assert w[1..][1..] == w[2..];
    assert Memory16(w[1..]) == Bytes16(w[1]) + Memory16(w[2..]);
    Bytes16RoundTrip(w[0], Bytes16(w[1]) + Memory16(w[2..]));
    assert m[2..] == Bytes16(w[1]) + Memory16(w[2..]);
    Bytes16RoundTrip(w[1], Memory16(w[2..]));
    assert m[4..] == Memory16(w[2..]);
    ConvertedStep(UTF16, UTF8, '?' as int, nullTransform, m);
  }

  /** The UTF-16 encoder writes the units of RFC 2781 for every scalar. */
  lemma Utf16EncoderMatchesRfc(u: Scalar)
    ensures Utf16Encoding.Encode(u) == Memory16(Rfc2781.Units(u))
  {
    var units := Rfc2781.Units(u);
    assert Memory16(units[1..]) == if u <= 0xFFFF then [] else Bytes16(units[1]) + Memory16(units[2..]);
    assert u > 0xFFFF ==> Memory16(units[2..]) == [];
  }

  // ----- round trips -----

  /** Every unit UTF-8 decoding produces is a scalar or -1, so the UTF-32 negotiation over it ends. */
  lemma {:induction false} ToUtf32IsDecodable(s: seq<byte>)
    ensures Decodable(ToUtf32(s)) && forall k | 0 <= k < |ToUtf32(s)| :: Signed32(ToUtf32(s)[k]) >= -1
  {
    if s != [] {
      var g := UTF8.First(s);
      WalkStep(s);
      Utf8Sanitizer.FirstSegment(s);
      SignedLow(g.ch);
      ToUtf32IsDecodable(s[g.size..]);
    }
  }

  /** UTF-8 to UTF-32 and back is the sanitizer with the default character, on every byte string. */
  lemma {:induction false} Utf32RoundTrip(s: seq<byte>)
    ensures FromUtf32(ToUtf32(s)) == Utf8Sanitizer.Sanitized(s, '?' as int)
  {
    if s == [] {
      return;
    }
    var g := UTF8.First(s);
    WalkStep(s);
    Utf8Sanitizer.WalkStep(s, '?' as int);
    Utf32RoundTrip(s[g.size..]);
    SegmentThroughUtf32(g.ch, g.size, ToUtf32(s[g.size..]));
  }

  /** A code point stored as a UTF-32 unit is decoded to itself, -1 included. */
  lemma SegmentThroughUtf32(cc: i32, size: nat, w: seq<u32>)
    requires cc >= -1
    ensures FromUtf32([Low32(cc)] + w)
         == EmitSegment(UTF8, '?' as int, nullTransform, Segment(cc, size)) + FromUtf32(w)
  {
    var v := [Low32(cc)] + w;
    assert v[1..] == w;
    Walk32Step(v);
    SignedLow(cc);
  }

  /** A scalar, split into units and decoded again, is put out as its UTF-8 character. */
  lemma ScalarThroughUtf16(u: Scalar, w: seq<u16>)
    ensures Utf16Of(u) == Rfc2781.Units(u)
    ensures FromUtf16(Utf16Of(u) + w) == Utf8Encoding.Encode(u) + FromUtf16(w)
  {
    var v := Utf16Of(u) + w;
    if u <= 0xFFFF {
      EmitScalar(u, 2);
      assert v[0] == u && v[1..] == w;
      Walk16Unit(v);
    } else {
      PairThroughUtf16(u, w);
    }
  }

  lemma EmitScalar(u: Scalar, size: nat)
    ensures EmitSegment(UTF8, '?' as int, nullTransform, Segment(u, size)) == Utf8Encoding.Encode(u)
  {
  }

  lemma PairThroughUtf16(u: Scalar, w: seq<u16>)
    requires u > 0xFFFF
    ensures Utf16Of(u) == Rfc2781.Units(u)
    ensures FromUtf16(Utf16Of(u) + w) == Utf8Encoding.Encode(u) + FromUtf16(w)
  {
    hide *;
    PairOfUnits(u);
    EmitScalar(u, 4);
    var v := Utf16Of(u) + w;
    assert v[0] == Utf16Of(u)[0] && v[1] == Utf16Of(u)[1] && v[2..] == w;
    StartsWithPairPrefix(Utf16Of(u), w);
    Walk16Pair(v);
  }

  lemma StartsWithPairPrefix(p: seq<u16>, w: seq<u16>)
    requires Rfc2781.StartsWithPair(p)
    ensures Rfc2781.StartsWithPair(p + w)
  {
  }

  lemma PairOfUnits(u: Scalar)
    requires u > 0xFFFF
    ensures Utf16Of(u) == Rfc2781.Units(u) && Rfc2781.StartsWithPair(Utf16Of(u)) && |Utf16Of(u)| == 2
    ensures Utf16Encoding.Pair(Utf16Of(u)[0], Utf16Of(u)[1]) == u
  {
    var x: int := u - 0x1_0000;
    var high, low := x / 0x400, x % 0x400;
    assert 0 <= high < 0x400 && (0xD800 + high) % 0x400 == high && (0xDC00 + low) % 0x400 == low;
  }

  /**
   UTF-8 to UTF-16 and back is the sanitizer too, but with U+FFFF for each malformed segment: the -1 of the
   iterator is truncated to the unit 0xFFFF.
   */
  lemma {:induction false} Utf16RoundTrip(s: seq<byte>)
    ensures FromUtf16(ToUtf16(s)) == Utf8Sanitizer.Sanitized(s, 0xFFFF)
  {
    if s == [] {
      return;
    }
    var g := UTF8.First(s);
    WalkStep(s);
    Utf8Sanitizer.WalkStep(s, 0xFFFF);
    Utf8Sanitizer.FirstSegment(s);
    Utf16RoundTrip(s[g.size..]);
    var u: Scalar := if g.ch == -1 then 0xFFFF else g.ch;
    assert Utf16Of(g.ch) == Utf16Of(u);
    ScalarThroughUtf16(u, ToUtf16(s[g.size..]));
    Utf8Encoding.EncoderMatchesRfc(u);
  }

  /** Both round trips give back exactly the well-formed byte strings. */
  lemma Utf8RoundTripsIffWellFormed(s: seq<byte>)
    ensures FromUtf32(ToUtf32(s)) == s <==> WellFormed(s)
    ensures FromUtf16(ToUtf16(s)) == s <==> WellFormed(s)
  {
    Utf32RoundTrip(s);
    Utf16RoundTrip(s);
    Utf8Sanitizer.SanitizerIsIdempotent(s, '?' as int);
    Utf8Sanitizer.SanitizerIsIdempotent(s, 0xFFFF);
  }

  /** Whatever the bytes, the UTF-16 output has no unpaired surrogate. */
  lemma {:induction false} ToUtf16IsWellFormed(s: seq<byte>)
    ensures Rfc2781.WellFormed(ToUtf16(s))
    ensures Rfc2781.ScalarsOf(ToUtf16(s)) == Utf8Sanitizer.Repaired(UTF8.Walk(s), 0xFFFF)
  {
    if s != [] {
      var g := UTF8.First(s);
      WalkStep(s);
      Utf8Sanitizer.WalkStep(s, 0xFFFF);
      Utf8Sanitizer.FirstSegment(s);
      ToUtf16IsWellFormed(s[g.size..]);
      var u: Scalar := if g.ch == -1 then 0xFFFF else g.ch;
      ScalarThroughUtf16(u, []);
      assert Utf16Of(g.ch) == Utf16Of(u);
      Rfc2781.WellFormedCons(u, ToUtf16(s[g.size..]));
    }
  }

  /** Decoding well-formed UTF-16 keeps the characters. */
  lemma {:induction false} FromUtf16KeepsScalars(w: seq<u16>)
    requires Rfc2781.WellFormed(w)
    ensures WellFormed(FromUtf16(w)) && Scalars(FromUtf16(w)) == Rfc2781.ScalarsOf(w)
    ensures ToUtf16(FromUtf16(w)) == w
  {
    if w == [] {
      return;
    }
    var u := Rfc2781.ScalarsOf(w)[0];
    var size := if Rfc2781.IsSurrogate(w[0]) then 2 else 1;
    assert w[..size] == Utf16Of(u);
    FromUtf16KeepsScalars(w[size..]);
    assert w == Utf16Of(u) + w[size..];
    ScalarThroughUtf16(u, w[size..]);
    Utf8Encoding.EncoderMatchesRfc(u);
    Rfc3629.WellFormedCons(Utf8Encoding.Encode(u), FromUtf16(w[size..]));
    CharacterToUtf16(u, FromUtf16(w[size..]));
  }

  /** An encoded character at the front is decoded to its units. */
  lemma CharacterToUtf16(u: Scalar, rest: seq<byte>)
    ensures ToUtf16(Utf8Encoding.Encode(u) + rest) == Utf16Of(u) + ToUtf16(rest)
  {
    var c := Utf8Encoding.Encode(u);
    var s := c + rest;
    Utf8Encoding.EncoderMatchesRfc(u);
    LeadingCharIsUnique(c, rest);
    Utf8Sanitizer.FirstSegment(s);
    assert s[..|c|] == c && s[|c|..] == rest;
    WalkStep(s);
  }

  /** UTF-16 to UTF-8 and back gives back exactly the well-formed UTF-16 strings. */
  lemma Utf16RoundTripIffWellFormed(w: seq<u16>)
    ensures ToUtf16(FromUtf16(w)) == w <==> Rfc2781.WellFormed(w)
  {
    ToUtf16IsWellFormed(FromUtf16(w));
    if Rfc2781.WellFormed(w) {
      FromUtf16KeepsScalars(w);
    }
  }
}
