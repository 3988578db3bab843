/** poco/TextConverter.cpp: the two conversion walks and what they compute. */
module TextConverters {
  import opened MachineInts
  import opened TextEncodings
  import opened TextIterators

  type Transform = i32 -> i32

  /** The output for one code point, with the default character when it has no encoding. */
  function Emit(out: TextEncoding, defaultChar: i32, ch: i32): seq<byte> {
    if out.Encode(ch) == [] then out.Encode(defaultChar) else out.Encode(ch)
  }

  /** The output for one segment. */
  function EmitSegment(out: TextEncoding, defaultChar: i32, trans: Transform, g: Segment): seq<byte> {
    Emit(out, defaultChar, trans(if g.ch == -1 then defaultChar else g.ch))
  }

  function EmitAll(out: TextEncoding, defaultChar: i32, trans: Transform, gs: seq<Segment>): seq<byte> {
    if gs == [] then [] else EmitSegment(out, defaultChar, trans, gs[0]) + EmitAll(out, defaultChar, trans, gs[1..])
  }

  function CountErrors(gs: seq<Segment>): nat {
    if gs == [] then 0 else (if gs[0].ch == -1 then 1 else 0) + CountErrors(gs[1..])
  }

  /** Converting s is converting its first segment and then the rest. */
  lemma ConvertedStep(e: TextEncoding, out: TextEncoding, defaultChar: i32, trans: Transform, s: seq<byte>)
    requires s != []
    ensures var g := e.First(s);
            && EmitAll(out, defaultChar, trans, e.Walk(s))
               == EmitSegment(out, defaultChar, trans, g) + EmitAll(out, defaultChar, trans, e.Walk(s[g.size..]))
            && CountErrors(e.Walk(s)) == (if g.ch == -1 then 1 else 0) + CountErrors(e.Walk(s[g.size..]))
  {
    assert e.Walk(s)[1..] == e.Walk(s[e.First(s).size..]);
  }

  const nullTransform: Transform := (ch: i32) => ch

  lemma Associate(a: seq<byte>, b: seq<byte>, c: seq<byte>)
    ensures a + (b + c) == (a + b) + c
  {
  }

  class TextConverter {
    const inEncoding: TextEncoding
    const outEncoding: TextEncoding
    const defaultChar: i32

    constructor (inEncoding: TextEncoding, outEncoding: TextEncoding, defaultChar: i32 := '?' as int)
      ensures this.inEncoding == inEncoding && this.outEncoding == outEncoding && this.defaultChar == defaultChar
    {
      this.inEncoding, this.outEncoding, this.defaultChar := inEncoding, outEncoding, defaultChar;
    }

    /** What a conversion of the segments appends to the destination. */
    function Converted(gs: seq<Segment>, trans: Transform): seq<byte> {
      EmitAll(outEncoding, defaultChar, trans, gs)
    }

    /** All segments but those of rest are converted: appended and errors lack only what the rest yields. */
    ghost predicate Progress(gs: seq<Segment>, rest: seq<Segment>, trans: Transform,
                             destination: seq<byte>, appended: seq<byte>, errors: nat)
    {
      && destination + Converted(gs, trans) == appended + Converted(rest, trans)
      && CountErrors(gs) == errors + CountErrors(rest)
    }

    lemma ProgressStart(gs: seq<Segment>, trans: Transform, destination: seq<byte>)
      ensures Progress(gs, gs, trans, destination, destination, 0)
    {
    }

    lemma ProgressStep(gs: seq<Segment>, rest: seq<Segment>, trans: Transform,
                       destination: seq<byte>, appended: seq<byte>, errors: nat)
      requires rest != [] && Progress(gs, rest, trans, destination, appended, errors)
      ensures var g := rest[0];
              Progress(gs, rest[1..], trans, destination,
                       appended + Emit(outEncoding, defaultChar, trans(if g.ch == -1 then defaultChar else g.ch)),
                       errors + (if g.ch == -1 then 1 else 0))
    {
      Associate(appended, EmitSegment(outEncoding, defaultChar, trans, rest[0]), Converted(rest[1..], trans));
    }

    lemma ProgressEnd(gs: seq<Segment>, trans: Transform, destination: seq<byte>, appended: seq<byte>, errors: nat)
      requires Progress(gs, [], trans, destination, appended, errors)
      ensures appended == destination + Converted(gs, trans) && errors == CountErrors(gs)
    {
    }

    lemma WalkFrom(source: seq<byte>, at: nat)
      requires at < |source|
      ensures var g, rest := inEncoding.First(source[at..]), inEncoding.Walk(source[at..]);
              at + g.size <= |source| && rest != [] && rest[0] == g && rest[1..] == inEncoding.Walk(source[at + g.size..])
      ensures inEncoding.Negotiable(source[at..]) ==>
                inEncoding.Ends(source[at..]) && inEncoding.Negotiable(source[at + inEncoding.First(source[at..]).size..])
    {
      NegotiableSuffix(inEncoding, source[at..]);
      assert source[at..][inEncoding.First(source[at..]).size..] == source[at + inEncoding.First(source[at..]).size..];
    }

    lemma RawWalkFrom(source: seq<byte>, at: nat)
      requires at < |source|
      ensures var g, rest := inEncoding.RawFirst(source[at..]), inEncoding.RawWalk(source[at..]);
              at + g.size <= |source| && rest != [] && rest[0] == g && rest[1..] == inEncoding.RawWalk(source[at + g.size..])
      ensures inEncoding.RawNegotiable(source[at..]) ==>
                inEncoding.Ends(source[at..]) && inEncoding.RawNegotiable(source[at + inEncoding.RawFirst(source[at..]).size..])
    {
      NegotiableSuffix(inEncoding, source[at..]);
      assert source[at..][inEncoding.RawFirst(source[at..]).size..] == source[at + inEncoding.RawFirst(source[at..]).size..];
    }

    lemma WalkEnds(source: seq<byte>)
      ensures source[0..] == source
      ensures inEncoding.Walk(source[|source|..]) == [] == inEncoding.RawWalk(source[|source|..])
    {
    }

    /** One output character: encode ch, or the default character when ch has no encoding. */
    method AppendChar(ch: i32, buffer: array<byte>, destination: seq<byte>) returns (appended: seq<byte>)
      requires buffer.Length == MAX_SEQUENCE_LENGTH
      modifies buffer
      ensures appended == destination + Emit(outEncoding, defaultChar, ch)
    {
      var n := outEncoding.Convert(ch, buffer, buffer.Length);
      if n == 0 {
        n := outEncoding.Convert(defaultChar, buffer, buffer.Length);
      }
      assert n <= buffer.Length;
      appended := destination + buffer[..n];
    }

    /** convert(const std::string&, std::string&, Transform): the walk through a TextIterator. */
    method ConvertString(source: seq<byte>, destination: seq<byte>, trans: Transform)
      returns (errors: nat, appended: seq<byte>)
      requires inEncoding.Negotiable(source)
      ensures appended == destination + Converted(inEncoding.Walk(source), trans)
      ensures errors == CountErrors(inEncoding.Walk(source))
    {
      hide *;
      ghost var gs := inEncoding.Walk(source);
      ProgressStart(gs, trans, destination);
      WalkEnds(source);
      errors, appended := 0, destination;
      var it := new TextIterator(source, inEncoding);
      var buffer := new byte[MAX_SEQUENCE_LENGTH];
      while it.it != |source|
        invariant it.it <= |source| && it.Valid() && it.str == source && it.encoding == inEncoding && fresh(it) && fresh(buffer)
        invariant inEncoding.Negotiable(source[it.it..])
        invariant Progress(gs, inEncoding.Walk(source[it.it..]), trans, destination, appended, errors)
        decreases |source| - it.it
      {
        WalkFrom(source, it.it);
        ProgressStep(gs, inEncoding.Walk(source[it.it..]), trans, destination, appended, errors);
        var c := it.Deref();
        if c == -1 {
          errors, c := errors + 1, defaultChar;
        }
        c := trans(c);
        appended := AppendChar(c, buffer, appended);
        it.Advance();
      }
      ProgressEnd(gs, trans, destination, appended, errors);
    }

    /** One round of the raw walk: the code point to put out, whether it stands for an error, and where to go on. */
    method ReadCharacter(source: seq<byte>, it: nat) returns (uc: i32, error: bool, next: nat)
      requires it < |source| && inEncoding.Ends(source[it..])
      ensures var g := inEncoding.RawFirst(source[it..]);
              error == (g.ch == -1) && uc == (if g.ch == -1 then defaultChar else g.ch) && next == it + g.size
    {
      ghost var rest := source[it..];
      var end := |source|;
      var n: int := inEncoding.ComputeQueryConvert(source[it..], 1);
      var read := 1;
      while -1 > n && end - it >= -n
        invariant 1 <= read <= end - it && read <= inEncoding.Needed(rest)
        invariant n == inEncoding.QueryConvert(rest, read)
        decreases MAX_SEQUENCE_LENGTH - read
      {
        DemandGrows(inEncoding, rest, read);
        read := -n;
        n := inEncoding.ComputeQueryConvert(source[it..], read);
      }
      NegotiationConcluded(inEncoding, rest, read);
      if -1 > n {
        next := end;
      } else {
        next := it + read;
      }
      error := -1 >= n;
      uc := if error then defaultChar else n;
    }

    /** convert(const void*, int, std::string&, Transform): the walk over a raw buffer. */
    method ConvertBuffer(source: seq<byte>, destination: seq<byte>, trans: Transform)
      returns (errors: nat, appended: seq<byte>)
      requires inEncoding.RawNegotiable(source)
      ensures appended == destination + Converted(inEncoding.RawWalk(source), trans)
      ensures errors == CountErrors(inEncoding.RawWalk(source))
    {
      hide *;
      ghost var gs := inEncoding.RawWalk(source);
      ProgressStart(gs, trans, destination);
      WalkEnds(source);
      errors, appended := 0, destination;
      var it, end := 0, |source|;
      var buffer := new byte[MAX_SEQUENCE_LENGTH];
      while it < end
        invariant it <= end && inEncoding.RawNegotiable(source[it..])
        invariant Progress(gs, inEncoding.RawWalk(source[it..]), trans, destination, appended, errors)
      {
        RawWalkFrom(source, it);
        ProgressStep(gs, inEncoding.RawWalk(source[it..]), trans, destination, appended, errors);
        var uc, error, next := ReadCharacter(source, it);
        it := next;
        if error {
          errors := errors + 1;
        }
        uc := trans(uc);
        appended := AppendChar(uc, buffer, appended);
      }
      ProgressEnd(gs, trans, destination, appended, errors);
    }

    /**
     Where both walks end they append the same bytes and report the same number of errors when nothing follows a
     UTF-32 unit below -1, and, if the default character can be put out at all, only then: the iterator goes on behind
     such a unit, the raw walk does not.
     */
    method CompareWalks(source: seq<byte>, destination: seq<byte>, trans: Transform) returns (same: bool)
      requires inEncoding.Negotiable(source)
      ensures Aligned(inEncoding, source) ==> same
      ensures outEncoding.Encode(defaultChar) != [] ==> (same <==> Aligned(inEncoding, source))
    {
      NegotiableIsRaw(inEncoding, source);
      var errors, appended := ConvertString(source, destination, trans);
      var errors', appended' := ConvertBuffer(source, destination, trans);
      same := errors == errors' && appended == appended';
      WalksAgreeIff(inEncoding, source);
      if outEncoding.Encode(defaultChar) != [] && !Aligned(inEncoding, source) {
        IteratorGoesOn(inEncoding, outEncoding, defaultChar, trans, source);
        assert |appended| > |appended'|;
      }
    }
  }

  /** Behind a dropped unit the iterator's walk puts out more. */
  lemma {:induction false} IteratorGoesOn(
    e: TextEncoding, out: TextEncoding, defaultChar: i32, trans: Transform, s: seq<byte>
  )
    requires !Aligned(e, s) && out.Encode(defaultChar) != []
    ensures |EmitAll(out, defaultChar, trans, e.Walk(s))| > |EmitAll(out, defaultChar, trans, e.RawWalk(s))|
  {
    ConvertedStep(e, out, defaultChar, trans, s);
    if e.Dropped(s) {
      ConvertedStep(e, out, defaultChar, trans, s[4..]);
      assert e.RawWalk(s) == [Segment(-1, |s|)];
    } else {
      assert e.RawWalk(s)[1..] == e.RawWalk(s[4..]);
      IteratorGoesOn(e, out, defaultChar, trans, s[4..]);
    }
  }
}
