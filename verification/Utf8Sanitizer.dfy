/**
 What a UTF-8 to UTF-8 TextConverter with the null transform does to an arbitrary byte string: it is an
 idempotent sanitizer that changes nothing exactly when there is nothing to repair.
 */
module Utf8Sanitizer {
  import opened MachineInts
  import opened TextEncodings
  import opened TextConverters
  import opened Rfc3629
  import Utf8Encoding

  /** What such a converter appends for s. */
  function Sanitized(s: seq<byte>, defaultChar: i32): seq<byte> {
    EmitAll(UTF8, defaultChar, nullTransform, UTF8.Walk(s))
  }

  /** The number of errors it reports for s. */
  function Errors(s: seq<byte>): nat {
    CountErrors(UTF8.Walk(s))
  }

  /** The code points a walk yields, malformed segments read as the default character. */
  function Repaired(gs: seq<Segment>, defaultChar: i32): seq<i32> {
    if gs == [] then []
    else [if gs[0].ch == -1 then defaultChar else gs[0].ch] + Repaired(gs[1..], defaultChar)
  }

  /** A segment is malformed or holds exactly one encoded character of the grammar. */
  lemma FirstSegment(s: seq<byte>)
    requires s != []
    ensures var g := UTF8.First(s);
            if LeadingChar(s) == 0 then g.ch == -1
            else g.size == LeadingChar(s) && g.ch == Value(s[..g.size])
  {
    var n := Utf8Encoding.SequenceLength(s, 1);
    Utf8Encoding.LeadingCharSize(s);
    if n <= |s| {
      Utf8Encoding.DecoderMatchesRfc(s);
    }
  }

  /** How many bytes a malformed segment takes, as far as there are that many. */
  function Skipped(lead: byte): nat {
    if lead < 0xC0 || lead >= 0xF8 then 1 else if lead < 0xE0 then 2 else if lead < 0xF0 then 3 else 4
  }

  function AtMost(n: nat, limit: nat): nat { if n < limit then n else limit }

  /** The first segment of any byte string: a character of the grammar, or as many bytes as the first one announces. */
  lemma SegmentIs(s: seq<byte>)
    requires s != []
    ensures var k := LeadingChar(s);
            UTF8.First(s) == if k > 0 then Segment(Value(s[..k]), k) else Segment(-1, AtMost(Skipped(s[0]), |s|))
  {
    FirstSegment(s);
  }

  lemma WalkStep(s: seq<byte>, defaultChar: i32)
    requires s != []
    ensures var g := UTF8.First(s);
            && UTF8.Walk(s) == [g] + UTF8.Walk(s[g.size..])
            && Sanitized(s, defaultChar) == EmitSegment(UTF8, defaultChar, nullTransform, g) + Sanitized(s[g.size..], defaultChar)
            && Errors(s) == (if g.ch == -1 then 1 else 0) + Errors(s[g.size..])
            && Repaired(UTF8.Walk(s), defaultChar)
               == [if g.ch == -1 then defaultChar else g.ch] + Repaired(UTF8.Walk(s[g.size..]), defaultChar)
  {
    ConvertedStep(UTF8, UTF8, defaultChar, nullTransform, s);
    assert UTF8.Walk(s)[1..] == UTF8.Walk(s[UTF8.First(s).size..]);
  }

  /** The output is always well-formed, and reads as the input with each malformed segment replaced. */
  lemma {:induction false} SanitizedIsWellFormed(s: seq<byte>, defaultChar: Scalar)
    ensures WellFormed(Sanitized(s, defaultChar))
    ensures Scalars(Sanitized(s, defaultChar)) == Repaired(UTF8.Walk(s), defaultChar)
  {
    if s != [] {
      var g := UTF8.First(s);
      WalkStep(s, defaultChar);
      FirstSegment(s);
      SanitizedIsWellFormed(s[g.size..], defaultChar);
      var u: Scalar := if g.ch == -1 then defaultChar else Value(s[..g.size]);
      Utf8Encoding.EncoderMatchesRfc(u);
      WellFormedCons(Utf8Encoding.Encode(u), Sanitized(s[g.size..], defaultChar));
    }
  }

  /** No error is reported exactly for well-formed input. */
  lemma {:induction false} ErrorFreeIffWellFormed(s: seq<byte>)
    ensures Errors(s) == 0 <==> WellFormed(s)
  {
    if s != [] {
      var g := UTF8.First(s);
      WalkStep(s, 0);
      FirstSegment(s);
      ErrorFreeIffWellFormed(s[g.size..]);
    }
  }

  /** An encoded character is put out as it came in. */
  lemma CharacterUnchanged(s: seq<byte>, defaultChar: i32)
    requires s != [] && LeadingChar(s) > 0
    ensures var g := UTF8.First(s);
            g.size == LeadingChar(s) && EmitSegment(UTF8, defaultChar, nullTransform, g) == s[..g.size]
  {
    FirstSegment(s);
    Utf8Encoding.EncodeValue(s[..LeadingChar(s)]);
  }

  /** A character is copied; a malformed segment puts out the default character, and the walk goes on behind its bytes. */
  lemma SanitizedStep(s: seq<byte>, defaultChar: i32)
    requires s != []
    ensures var k := LeadingChar(s);
            if k > 0 then
              Sanitized(s, defaultChar) == s[..k] + Sanitized(s[k..], defaultChar) && Errors(s) == Errors(s[k..])
            else
              var n := AtMost(Skipped(s[0]), |s|);
              && Sanitized(s, defaultChar) == Utf8Encoding.Encode(defaultChar) + Sanitized(s[n..], defaultChar)
              && Errors(s) == 1 + Errors(s[n..])
  {
    SegmentIs(s);
    WalkStep(s, defaultChar);
    if LeadingChar(s) > 0 {
      CharacterUnchanged(s, defaultChar);
    }
  }

  /** Well-formed input comes out unchanged, whatever the default character. */
  lemma {:induction false} WellFormedUnchanged(s: seq<byte>, defaultChar: i32)
    requires WellFormed(s)
    ensures Sanitized(s, defaultChar) == s
    ensures Repaired(UTF8.Walk(s), defaultChar) == Scalars(s)
  {
    if s == [] {
      return;
    }
    hide *;
    UnchangedStep(s, defaultChar);
    WellFormedUnchanged(s[LeadingChar(s)..], defaultChar);
    Rejoined(s, LeadingChar(s));
  }

  lemma UnchangedStep(s: seq<byte>, defaultChar: i32)
    requires WellFormed(s) && s != []
    ensures var k := LeadingChar(s);
            && 0 < k <= |s| && WellFormed(s[k..])
            && Sanitized(s, defaultChar) == s[..k] + Sanitized(s[k..], defaultChar)
            && Repaired(UTF8.Walk(s), defaultChar) == [Value(s[..k])] + Repaired(UTF8.Walk(s[k..]), defaultChar)
            && Scalars(s) == [Value(s[..k])] + Scalars(s[k..])
  {
    WellFormedStep(s);
    FirstSegment(s);
    hide *;
    WalkStep(s, defaultChar);
    CharacterUnchanged(s, defaultChar);
  }

  lemma Rejoined(s: seq<byte>, k: nat)
    requires k <= |s|
    ensures s == s[..k] + s[k..]
  {
  }

  /** The input is a fixed point exactly when it is well-formed, and one pass always reaches a fixed point. */
  lemma SanitizerIsIdempotent(s: seq<byte>, defaultChar: Scalar)
    ensures Sanitized(s, defaultChar) == s <==> WellFormed(s)
    ensures Sanitized(Sanitized(s, defaultChar), defaultChar) == Sanitized(s, defaultChar)
    ensures Errors(Sanitized(s, defaultChar)) == 0
  {
    SanitizedIsWellFormed(s, defaultChar);
    ErrorFreeIffWellFormed(Sanitized(s, defaultChar));
    WellFormedUnchanged(Sanitized(s, defaultChar), defaultChar);
    if WellFormed(s) {
      WellFormedUnchanged(s, defaultChar);
    }
  }
}
