/** cthrift/cthrift_client_worker.cc, OnMsg and HandleMsg: cutting a byte stream into length-prefixed frames. */
module Framing {
  import opened MachineInts

  datatype State = ExpectFrameSize | ExpectFrame

  // ----- specification -----

  /** What processing some bytes comes to: the frames dispatched, the parser state and the bytes left over. */
  datatype Parsed = Parsed(frames: seq<seq<byte>>, state: State, wantSize: i32, rest: seq<byte>)

  /** The body is there. As a size_t, a negative size is larger than any buffer. */
  predicate BodyComplete(wantSize: i32, data: seq<byte>) { 0 <= wantSize <= |data| }

  function Parse(state: State, wantSize: i32, data: seq<byte>): Parsed
    decreases |data|, if state.ExpectFrame? then 1 else 0
  {
    match state
    case ExpectFrameSize =>
      if |data| >= 4 then Parse(ExpectFrame, FromNetwork32(data), data[4..])
      else Parsed([], state, wantSize, data)
    case ExpectFrame =>
      if BodyComplete(wantSize, data) then
        var p := Parse(ExpectFrameSize, wantSize, data[wantSize..]);
        p.(frames := [data[..wantSize]] + p.frames)
      else Parsed([], state, wantSize, data)
  }

  lemma ParseOnce(state: State, wantSize: i32, data: seq<byte>)
    ensures var p := Parse(state, wantSize, data);
            if state.ExpectFrameSize? && |data| >= 4 then p == Parse(ExpectFrame, FromNetwork32(data), data[4..])
            else if state.ExpectFrame? && BodyComplete(wantSize, data) then
              var q := Parse(ExpectFrameSize, wantSize, data[wantSize..]);
              p == q.(frames := [data[..wantSize]] + q.frames)
            else p == Parsed([], state, wantSize, data)
  {
  }

  /** One round of the loop, after the frames done. */
  lemma ParseRound(state: State, wantSize: i32, data: seq<byte>, done: seq<seq<byte>>)
    ensures var p := Parse(state, wantSize, data);
            if state.ExpectFrameSize? && |data| >= 4 then p == Parse(ExpectFrame, FromNetwork32(data), data[4..])
            else if state.ExpectFrame? && BodyComplete(wantSize, data) then
              var q := Parse(ExpectFrameSize, wantSize, data[wantSize..]);
              p.(frames := done + p.frames) == q.(frames := (done + [data[..wantSize]]) + q.frames)
            else p == Parsed([], state, wantSize, data)
  {
    hide Parse;
    ParseOnce(state, wantSize, data);
    if state.ExpectFrame? && BodyComplete(wantSize, data) {
      FramesRegrouped(done, [data[..wantSize]], Parse(ExpectFrameSize, wantSize, data[wantSize..]).frames);
    }
  }

  lemma FramesRegrouped(a: seq<seq<byte>>, b: seq<seq<byte>>, c: seq<seq<byte>>)
    ensures a + (b + c) == (a + b) + c
  {
  }

  // ----- the callbacks -----

  /** muduo::net::Buffer, as far as its readable bytes go. */
  class Buffer {
    var data: seq<byte>

    constructor ()
      ensures data == []
    {
      data := [];
    }

    method Append(chunk: seq<byte>)
      modifies this
      ensures data == old(data) + chunk
    {
      data := data + chunk;
    }

    method Retrieve(len: nat)
      requires len <= |data|
      modifies this
      ensures data == old(data)[len..]
    {
      data := data[len..];
    }

    method ReadInt32() returns (x: i32)
      requires |data| >= 4
      modifies this
      ensures x == FromNetwork32(old(data)) && data == old(data)[4..]
    {
      x := FromNetwork32(data);
      Retrieve(4);
    }
  }

  /** The connection context and, in place of the request table, the frames handed to HandleThriftMsg. */
  class ConnContext {
    var state: State
    var wantSize: i32
    var occupied: bool
    var dispatched: seq<seq<byte>>

    constructor ()
      ensures state == ExpectFrameSize && wantSize == 0 && !occupied && dispatched == []
    {
      state, wantSize, occupied, dispatched := ExpectFrameSize, 0, false, [];
    }

    method HandleMsg(buffer: Buffer)
      requires state == ExpectFrame && BodyComplete(wantSize, buffer.data)
      modifies this, buffer
      ensures state == ExpectFrameSize && wantSize == old(wantSize)
      ensures buffer.data == old(buffer.data[wantSize..])
      ensures dispatched == old(dispatched + [buffer.data[..wantSize]])
      ensures occupied == (old(occupied) && buffer.data != [])
    {
      var length := wantSize;
      dispatched := dispatched + [buffer.data[..length]];
      buffer.Retrieve(length);
      state := ExpectFrameSize;
      if |buffer.data| == 0 {
        occupied := false;
      }
    }

    /** Any number of frames, empty ones included, and then the wait for more bytes. */
    method OnMsg(buffer: Buffer)
      modifies this, buffer
      ensures var p := Parse(old(state), old(wantSize), old(buffer.data));
              && dispatched == old(dispatched) + p.frames
              && state == p.state && wantSize == p.wantSize && buffer.data == p.rest
              && occupied == (old(occupied) && !(p.frames != [] && p.state.ExpectFrameSize? && p.rest == []))
    {
      hide Parse;
      ghost var done: seq<seq<byte>> := [];
      while true
        invariant dispatched == old(dispatched) + done
        invariant var p := Parse(state, wantSize, buffer.data);
                  Parse(old(state), old(wantSize), old(buffer.data)) == p.(frames := done + p.frames)
        invariant if done == [] then occupied == old(occupied)
                  else state.ExpectFrameSize? ==> occupied == (old(occupied) && buffer.data != [])
        invariant done != [] && state.ExpectFrame? ==> occupied == old(occupied)
        decreases |buffer.data|, if state.ExpectFrame? then 1 else 0
      {
        ParseRound(state, wantSize, buffer.data, done);
        if state == ExpectFrameSize {
          if 4 <= |buffer.data| {
            wantSize := buffer.ReadInt32();
            state := ExpectFrame;
          } else {
            return;
          }
        } else {
          if BodyComplete(wantSize, buffer.data) {
            done := done + [buffer.data[..wantSize]];
            HandleMsg(buffer);
          } else {
            break;
          }
        }
      }
    }

    /** A stream arriving in chunks: bytes are appended to the receive buffer and the callback runs. */
    method ReceiveAll(buffer: Buffer, chunks: seq<seq<byte>>)
      requires state == ExpectFrameSize && buffer.data == []
      modifies this, buffer
      ensures var p := Parse(ExpectFrameSize, old(wantSize), Concat(chunks));
              && dispatched == old(dispatched) + p.frames
              && state == p.state && buffer.data == p.rest && wantSize == p.wantSize
    {
      ghost var start, w, done: seq<seq<byte>> := Start(wantSize), wantSize, [];
      assert chunks[..0] == [];
      for i := 0 to |chunks|
        invariant Feed(start, chunks[..i]) == Parsed(done, state, wantSize, buffer.data)
        invariant dispatched == old(dispatched) + done
      {
        assert chunks[..i + 1][..i] == chunks[..i];
        buffer.Append(chunks[i]);
        ghost var before := dispatched;
        OnMsg(buffer);
        done := done + dispatched[|before|..];
      }
      assert chunks[..|chunks|] == chunks;
      ChunkingIrrelevant(w, chunks);
    }
  }

  // ----- any chunking gives the same frames -----

  function Concat(chunks: seq<seq<byte>>): seq<byte> {
    if chunks == [] then [] else Concat(chunks[..|chunks| - 1]) + chunks[|chunks| - 1]
  }

  function Start(wantSize: i32): Parsed { Parsed([], ExpectFrameSize, wantSize, []) }

  /** The state after the chunks were received one by one. */
  function Feed(start: Parsed, chunks: seq<seq<byte>>): Parsed {
    if chunks == [] then start
    else
      var p := Feed(start, chunks[..|chunks| - 1]);
      var q := Parse(p.state, p.wantSize, p.rest + chunks[|chunks| - 1]);
      q.(frames := p.frames + q.frames)
  }

  /** Parsing in one go is parsing a prefix and then the carried state with the leftover and the rest. */
  lemma {:induction false} ParseAppend(state: State, wantSize: i32, a: seq<byte>, b: seq<byte>)
    ensures var p := Parse(state, wantSize, a);
            var q := Parse(p.state, p.wantSize, p.rest + b);
            Parse(state, wantSize, a + b) == q.(frames := p.frames + q.frames)
    decreases |a|, if state.ExpectFrame? then 1 else 0
  {
    hide Parse, FromNetwork32;
    ParseOnce(state, wantSize, a);
    if state.ExpectFrameSize? && |a| >= 4 {
      ParseOnce(state, wantSize, a + b);
      SameSize(a, b);
      ParseAppend(ExpectFrame, FromNetwork32(a), a[4..], b);
    } else if state.ExpectFrame? && BodyComplete(wantSize, a) {
      ParseOnce(state, wantSize, a + b);
      assert (a + b)[wantSize..] == a[wantSize..] + b && (a + b)[..wantSize] == a[..wantSize];
      ParseAppend(ExpectFrameSize, wantSize, a[wantSize..], b);
      var p := Parse(ExpectFrameSize, wantSize, a[wantSize..]);
      FramesRegrouped([a[..wantSize]], p.frames, Parse(p.state, p.wantSize, p.rest + b).frames);
    } else {
      assert [] + Parse(state, wantSize, a + b).frames == Parse(state, wantSize, a + b).frames;
    }
  }

  lemma SameSize(a: seq<byte>, b: seq<byte>)
    requires |a| >= 4
    ensures (a + b)[4..] == a[4..] + b && FromNetwork32(a + b) == FromNetwork32(a)
  {
  }

  /** However a stream is cut into chunks, the frames, the state and the leftover are those of one parse of it all. */
  lemma {:induction false} ChunkingIrrelevant(wantSize: i32, chunks: seq<seq<byte>>)
    ensures Feed(Start(wantSize), chunks) == Parse(ExpectFrameSize, wantSize, Concat(chunks))
  {
    if chunks != [] {
      var front, last := chunks[..|chunks| - 1], chunks[|chunks| - 1];
      ChunkingIrrelevant(wantSize, front);
      ParseAppend(ExpectFrameSize, wantSize, Concat(front), last);
    }
  }

  // ----- nothing is lost or invented -----

  /** A sender's stream: every frame with its size in front. */
  function Framed(frames: seq<seq<byte>>): seq<byte>
    requires forall k | 0 <= k < |frames| :: |frames[k]| < 0x8000_0000
  {
    if frames == [] then [] else Network32(|frames[0]|) + frames[0] + Framed(frames[1..])
  }

  /** The bytes received but not dispatched: a size already read, and the leftover. */
  function Pending(p: Parsed): seq<byte> {
    if p.state.ExpectFrame? then Network32(p.wantSize) + p.rest else p.rest
  }

  /** The dispatched frames and the pending bytes are together exactly the stream. */
  lemma {:induction false} StreamConserved(state: State, wantSize: i32, data: seq<byte>)
    ensures var p := Parse(state, wantSize, data);
            && (forall k | 0 <= k < |p.frames| :: |p.frames[k]| < 0x8000_0000)
            && Framed(p.frames) + Pending(p) == (if state.ExpectFrame? then Network32(wantSize) + data else data)
    decreases |data|, if state.ExpectFrame? then 1 else 0
  {
    match state
    case ExpectFrameSize =>
      if |data| >= 4 {
        StreamConserved(ExpectFrame, FromNetwork32(data), data[4..]);
        Network32OfBytes(data[..4]);
        assert FromNetwork32(data[..4]) == FromNetwork32(data);
        assert data == data[..4] + data[4..];
      }
    case ExpectFrame =>
      if BodyComplete(wantSize, data) {
        StreamConserved(ExpectFrameSize, wantSize, data[wantSize..]);
        var p := Parse(ExpectFrameSize, wantSize, data[wantSize..]);
        assert ([data[..wantSize]] + p.frames)[1..] == p.frames;
        assert data == data[..wantSize] + data[wantSize..];
        Regroup(Network32(wantSize), data[..wantSize], Framed(p.frames), Pending(p));
      }
  }

  lemma Regroup(a: seq<byte>, b: seq<byte>, c: seq<byte>, d: seq<byte>)
    ensures (a + b + c) + d == a + (b + (c + d))
  {
  }

  /** A sender's frames are dispatched as they were sent, whatever follows them. */
  lemma {:induction false} SentFramesReceived(frames: seq<seq<byte>>, wantSize: i32, tail: seq<byte>)
    requires forall k | 0 <= k < |frames| :: |frames[k]| < 0x8000_0000
    ensures var p, q := Parse(ExpectFrameSize, wantSize, Framed(frames) + tail), Parse(ExpectFrameSize, 0, tail);
            p.frames == frames + q.frames && p.state == q.state && p.rest == q.rest
  {
    if frames == [] {
      assert Framed(frames) + tail == tail;
    } else {
      var f, n := frames[0], |frames[0]|;
      var rest := Framed(frames[1..]) + tail;
      SentFramesReceived(frames[1..], n, tail);
      Regroup(Network32(n), f, Framed(frames[1..]), tail);
      OneFrame(f, rest, wantSize);
      assert frames == [f] + frames[1..];
      assert Framed(frames) + tail == Network32(n) + (f + rest);
    }
  }

  lemma OneFrame(f: seq<byte>, rest: seq<byte>, wantSize: i32)
    requires |f| < 0x8000_0000
    ensures var p := Parse(ExpectFrameSize, |f|, rest);
            Parse(ExpectFrameSize, wantSize, Network32(|f|) + (f + rest)) == p.(frames := [f] + p.frames)
  {
    hide Network32, FromNetwork32;
    var s := Network32(|f|) + (f + rest);
    Network32RoundTrip(|f|, f + rest);
    assert s[4..] == f + rest;
    assert (f + rest)[|f|..] == rest && (f + rest)[..|f|] == f;
    assert Parse(ExpectFrameSize, wantSize, s) == Parse(ExpectFrame, |f|, f + rest);
  }
}
