/** poco/TextIterator.cpp: walking a byte string one character at a time. */
module TextIterators {
  import opened MachineInts
  import opened TextEncodings

  class TextIterator {
    const encoding: TextEncoding
    const str: seq<byte>
    /** Offset of the current character; |str| at the end. */
    var it: nat

    ghost predicate Valid()
      reads this
    {
      it <= |str|
    }

    constructor (str: seq<byte>, encoding: TextEncoding)
      ensures this.str == str && this.encoding == encoding && it == 0 && Valid()
    {
      this.str, this.encoding, it := str, encoding, 0;
    }

    /** operator *: the code point of the current character, -1 when there is no valid one. */
    method Deref() returns (c: i32)
      requires Valid() && it < |str| && encoding.Ends(str[it..])
      ensures c == encoding.First(str[it..]).ch
    {
      hide TextEncoding.QueryConvert, TextEncoding.Needed, TextEncoding.First, TextEncoding.RawFirst, TextEncoding.Ends;
      ghost var s := str[it..];
      var cur := it;
      var buffer := new byte[MAX_SEQUENCE_LENGTH];
      buffer[0], cur := str[cur], cur + 1;
      var read := 1;
      var n: int := encoding.ComputeQueryConvert(buffer[..], 1);
      QueryConvertPrefix(encoding, buffer[..], s, 1);
      while -1 > n && |str| - cur >= -n - read
        invariant cur == it + read <= |str| && 1 <= read <= encoding.Needed(s)
        invariant buffer[..read] == s[..read] && n == encoding.QueryConvert(s, read)
        decreases MAX_SEQUENCE_LENGTH - read
      {
        DemandGrows(encoding, s, read);
        while read < -n && cur < |str|
          invariant cur == it + read <= |str| && 1 <= read <= -n
          invariant buffer[..read] == s[..read]
        {
          buffer[read] := str[cur];
          assert s[..read + 1] == s[..read] + [str[cur]];
          cur, read := cur + 1, read + 1;
        }
        n := encoding.ComputeQueryConvert(buffer[..], read);
        QueryConvertPrefix(encoding, buffer[..], s, read);
      }
      NegotiationConcluded(encoding, s, read);
      if -1 > n {
        return -1;
      } else {
        return n;
      }
    }

    /** operator ++: past the current character. */
    method Advance()
      requires Valid() && it < |str|
      modifies this
      ensures Valid() && it == old(it) + encoding.First(str[old(it)..]).size
    {
      ghost var s := str[it..];
      var buffer := new byte[MAX_SEQUENCE_LENGTH];
      buffer[0], it := str[it], it + 1;
      var read := 1;
      var n := encoding.SequenceLength(buffer[..], 1);
      SequenceLengthPrefix(encoding, buffer[..], s, 1);
      while -1 > n && |str| - it >= -n - read
        invariant it == old(it) + read <= |str| && 1 <= read <= 2
        invariant n == encoding.SequenceLength(s, read)
        invariant buffer[..read] == s[..read]
        invariant read == 2 ==> n >= 2
        decreases MAX_SEQUENCE_LENGTH - read
      {
        while read < -n && it < |str|
          invariant it == old(it) + read <= |str| && 1 <= read <= -n == 2
          invariant buffer[..read] == s[..read]
        {
          buffer[read] := str[it];
          assert s[..read + 1] == s[..read] + [str[it]];
          it, read := it + 1, read + 1;
        }
        n := encoding.SequenceLength(buffer[..], read);
        SequenceLengthPrefix(encoding, buffer[..], s, read);
      }
      while read < n && it < |str|
        invariant it == old(it) + read <= |str|
        invariant n < 0 || read <= n
      {
        it, read := it + 1, read + 1;
      }
    }
  }
}
