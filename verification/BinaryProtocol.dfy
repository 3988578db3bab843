/** cthrift/cthrift_tbinary_protocol.cc: the Thrift binary protocol over a memory buffer. */
module BinaryProtocol {
  import opened MachineInts
  import NumericStrings
  import NumericParsing

  type i8 = x: int | -0x80 <= x < 0x80
  type i16 = x: int | -0x8000 <= x < 0x8000
  type i64 = x: int | -0x8000_0000_0000_0000 <= x < 0x8000_0000_0000_0000

  const TWO32: int := 0x1_0000_0000
  const TWO64: int := 0x1_0000_0000_0000_0000

  function Signed8(x: byte): i8 { if x < 0x80 then x else x - 0x100 as int }

  function Signed16(x: u16): i16 { if x < 0x8000 then x else x - 0x1_0000 as int }

  /** Conversion to int64_t. */
  function Signed64(x: int): i64 {
    var u := x % TWO64;
    if u < 0x8000_0000_0000_0000 then u else u - TWO64
  }

  // ----- byte order -----

  /** htonl on a little-endian machine. */
  function Htonl(x: u32): u32 {
    x % 0x100 * 0x100_0000 + x / 0x100 % 0x100 * 0x1_0000 + x / 0x1_0000 % 0x100 * 0x100 + x / 0x100_0000
  }

  /** (((int64_t) htonl(val)) << 32) + htonl(val >> 32) */
  function Htonll(val: i64): i64 {
    Signed64(Htonl(Low32(val)) * TWO32 + Htonl(Low32(val / TWO32)))
  }

  /** The memory image of an int64_t. */
  function Bytes64(x: i64): seq<byte> {
    Bytes32(Low32(x)) + Bytes32(Low32(x / TWO32))
  }

  /** The eight bytes of an int64_t in network order. */
  function Network64(x: i64): (b: seq<byte>)
    ensures |b| == 8
  {
    Network32(Signed32(Low32(x / TWO32))) + Network32(Signed32(Low32(x)))
  }

  lemma HtonlMemory(x: u32)
    ensures Bytes32(Htonl(x)) == Network32(Signed32(x))
    ensures Htonl(Htonl(x)) == x
  {
    var a, b, c, d := x / 0x100_0000, x / 0x1_0000 % 0x100, x / 0x100 % 0x100, x % 0x100;
    FourBytes(x);
    Digits256(d, c, b, a);
    Digits256(a, b, c, d);
    SignedLow(Signed32(x));
    assert Low32(Signed32(x)) == x;
  }

  /** The base-256 digits of a number below 2^32. */
  lemma FourBytes(x: u32)
    ensures x == ((x / 0x100_0000 * 0x100 + x / 0x1_0000 % 0x100) * 0x100 + x / 0x100 % 0x100) * 0x100 + x % 0x100
    ensures 0 <= x / 0x100_0000 < 0x100
  {
    var y: int := x;
    assert y / 0x1_0000 == y / 0x100 / 0x100 && y / 0x100_0000 == y / 0x100 / 0x100 / 0x100;
  }

  lemma Digits256(a: byte, b: byte, c: byte, d: byte)
    ensures var x: int := (((a as int) * 0x100 + b) * 0x100 + c) * 0x100 + d;
            && 0 <= x < TWO32
            && x / 0x100_0000 == a && x / 0x1_0000 % 0x100 == b && x / 0x100 % 0x100 == c && x % 0x100 == d
  {
    var y: int := ((a as int) * 0x100 + b) * 0x100 + c;
    var x: int := y * 0x100 + d;
    assert x / 0x100 == y && y / 0x100 == (a as int) * 0x100 + b && y / 0x1_0000 == a;
    assert x / 0x1_0000 == y / 0x100 && x / 0x100_0000 == y / 0x1_0000;
  }

  /** The two-halves formula puts all eight bytes in network order, for every value. */
  lemma HtonllMemory(x: i64)
    ensures Bytes64(Htonll(x)) == Network64(x)
  {
    hide Htonl, Low32, Signed32, Signed64, Bytes32, Network32;
    var high, low := Htonl(Low32(x)), Htonl(Low32(x / TWO32));
    Halves(high, low);
    HtonlMemory(Low32(x));
    HtonlMemory(Low32(x / TWO32));
  }

  lemma Halves(high: u32, low: u32)
    ensures var v := Signed64(high * TWO32 + low);
            Low32(v) == low && Low32(v / TWO32) == high
  {
  }

  /** ntohll, which is the same formula, undoes htonll. */
  lemma HtonllInvolution(x: i64)
    ensures Htonll(Htonll(x)) == x
  {
    hide Htonl, Low32, Signed64;
    var high, low := Htonl(Low32(x)), Htonl(Low32(x / TWO32));
    var v := Htonll(x);
    assert v == Signed64(high * TWO32 + low);
    Halves(high, low);
    assert Htonll(v) == Signed64(Htonl(low) * TWO32 + Htonl(high));
    HtonlMemory(Low32(x));
    HtonlMemory(Low32(x / TWO32));
    Recombine(x);
  }

  lemma Recombine(x: i64)
    ensures Signed64(Low32(x / TWO32) * TWO32 + Low32(x)) == x
  {
    var h := x / TWO32;
    assert Low32(h) == if h >= 0 then h else h + TWO32;
    assert x == h * TWO32 + Low32(x);
  }

  lemma SwappedBytes(low: byte, high: byte)
    ensures var all: int := (high as int) * 0x100 + low; all % 0x100 == low && all / 0x100 == high
  {
  }

  /** ntohl on the memory image of four bytes is their network-order number. */
  lemma MemoryIsNetwork(b: seq<byte>)
    requires |b| >= 4
    ensures Signed32(Htonl(Unit32(b))) == FromNetwork32(b)
  {
    Digits256(b[3], b[2], b[1], b[0]);
  }

  // ----- reading -----

  /** The exceptions; SkipThrows stands for whatever TProtocol::skip throws. */
  datatype Error = EndOfFile | NegativeSize | SizeLimit | BadVersion | SkipThrows

  /** What a reader leaves: the value and the bytes behind it, or the exception it throws. */
  datatype Read<+T> = Value(value: T, rest: seq<byte>) | Throws(error: Error) {
    predicate IsFailure() { Throws? }

    function PropagateFailure<U>(): Read<U>
      requires Throws?
    {
      Throws(error)
    }

    function Extract(): (T, seq<byte>)
      requires Value?
    {
      (value, rest)
    }
  }

  function ParseByte(s: seq<byte>): Read<i8> {
    if |s| < 1 then Throws(EndOfFile) else Value(Signed8(s[0]), s[1..])
  }

  function ParseI16(s: seq<byte>): Read<i16> {
    if |s| < 2 then Throws(EndOfFile)
    else
      var b0: int, b1: int := s[0], s[1];
      Value(Signed16(b0 * 0x100 + b1), s[2..])
  }

  function ParseI32(s: seq<byte>): Read<i32> {
    if |s| < 4 then Throws(EndOfFile) else Value(FromNetwork32(s), s[4..])
  }

  /** The memory image is read as a number and put through ntohll. */
  function ParseI64(s: seq<byte>): Read<i64> {
    if |s| < 8 then Throws(EndOfFile)
    else
      var low: int, high: int := Unit32(s), Unit32(s[4..]);
      Value(Htonll(Signed64(high * TWO32 + low)), s[8..])
  }

  const T_STOP: i8 := 0

  function ParseFieldBegin(s: seq<byte>): (r: Read<(i8, i16)>)
    ensures r.Value? ==> |r.rest| < |s|
  {
    var (fieldType, s1) :- ParseByte(s);
    if fieldType == T_STOP then Value((T_STOP, 0), s1)
    else
      var (fieldId, s2) :- ParseI16(s1);
      Value((fieldType, fieldId), s2)
  }

  function ParseStringBody(s: seq<byte>, size: i32, stringLimit: i32): Read<seq<byte>> {
    if size < 0 then Throws(NegativeSize)
    else if stringLimit > 0 && size > stringLimit then Throws(SizeLimit)
    else if |s| < size then Throws(EndOfFile)
    else Value(s[..size], s[size..])
  }

  function ParseString(s: seq<byte>, stringLimit: i32): Read<seq<byte>> {
    var (size, rest) :- ParseI32(s);
    ParseStringBody(rest, size, stringLimit)
  }

  const VERSION_1: int := 0x8001_0000

  /** (sz & VERSION_MASK) == VERSION_1 */
  predicate IsVersion1(sz: i32) { Low32(sz) / 0x1_0000 == 0x8001 }

  datatype Header = Header(name: seq<byte>, messageType: int, seqid: i32)

  function ParseMessageBegin(s: seq<byte>, strictRead: bool, stringLimit: i32): Read<Header> {
    var (sz, s1) :- ParseI32(s);
    if sz < 0 then
      if !IsVersion1(sz) then Throws(BadVersion)
      else
        var (name, s2) :- ParseString(s1, stringLimit);
        var (seqid, s3) :- ParseI32(s2);
        Value(Header(name, Low32(sz) % 0x100, seqid), s3)
    else if strictRead then Throws(BadVersion)
    else
      var (name, s2) :- ParseStringBody(s1, sz, stringLimit);
      var (messageType, s3) :- ParseByte(s2);
      var (seqid, s4) :- ParseI32(s3);
      Value(Header(name, messageType, seqid), s4)
  }

  /** ParseSeqID on the memory buffer: the first header is consumed, 0 stands for "no header". */
  function ParseSeqID(s: seq<byte>, strictRead: bool, stringLimit: i32): Read<i32> {
    var (size, s1) :- ParseI32(s);
    if size < 0 && IsVersion1(size) then
      var (_, s2) :- ParseString(s1, stringLimit);
      ParseI32(s2)
    else if size >= 0 && !strictRead then
      var (_, s2) :- ParseStringBody(s1, size, stringLimit);
      var (_, s3) :- ParseByte(s2);
      ParseI32(s3)
    else Value(0, s1)
  }

  // ----- writing -----

  function ByteText(x: i8): seq<byte> { [Low8(x)] }

  function I16Text(x: i16): seq<byte> { [Low16(x) / 0x100, Low16(x) % 0x100] }

  /** The size is a uint32_t, written as an int32: from 2^31 bytes on it reads as negative, from 2^32 on it wraps. */
  function StringText(str: seq<byte>): seq<byte> { Network32(Signed32(Low32(|str|))) + str[..Low32(|str|)] }

  /** One message header as writeMessageBegin puts it. */
  function HeaderText(h: Header, strictWrite: bool): seq<byte>
    requires 0 <= h.messageType < 0x100
  {
    if strictWrite then Network32(Signed32(VERSION_1 + h.messageType)) + StringText(h.name) + Network32(h.seqid)
    else StringText(h.name) + [h.messageType] + Network32(h.seqid)
  }

  /** Counts in 32 bits add up. */
  lemma LowSum(a: nat, b: nat)
    ensures Low32(Low32(a) + b) == Low32(a + b) == Low32(Low32(a) + Low32(b)) == Low32(a + Low32(b))
    ensures b < TWO32 ==> Low32(b) == b
  {
    LowMultiple(Low32(a) + b, a / TWO32);
    LowMultiple(Low32(a) + Low32(b), b / TWO32);
    LowMultiple(a + Low32(b), b / TWO32);
  }

  lemma LowMultiple(x: nat, k: nat)
    ensures Low32(x + k * TWO32) == Low32(x)
  {
    assert (x + k * TWO32) % TWO32 == x % TWO32;
  }

  lemma NoCarry(a: nat)
    requires a < 0x1_0000_0000
    ensures Low32(a) == a
  {
  }

  /** The shared counter of sequence ids; the constructor of a protocol moves it from 0 to 1. */
  class SeqIdCounter {
    var value: i32

    ghost predicate Valid()
      reads this
    {
      1 <= value < 0x7FFF_FFFF
    }

    constructor ()
      ensures Valid() && value == 1
    {
      value := 1;
    }

    /** incrementAndGet, and back to 1 at the largest int32. */
    method Next() returns (id: i32)
      requires Valid()
      modifies this
      ensures Valid() && id == value == NextId(old(value))
    {
      value := value + 1;
      id := value;
      if id == 0x7FFF_FFFF {
        value := 1;
        id := 1;
      }
    }
  }

  function NextId(value: i32): i32
    requires 1 <= value < 0x7FFF_FFFF
  {
    if value == 0x7FFF_FFFE then 1 else value + 1
  }

  /** lexical_cast<string> of an id */
  function IdText(id: i32): string { NumericStrings.Formatted(id, 10, false, -1, ' ', '\0') }

  datatype UseType = Server | Client | Undefined

  /** The protocol object with its transport's buffer. */
  class Protocol {
    const useType: UseType
    const stringLimit: i32
    const strictRead: bool
    const strictWrite: bool
    const counter: SeqIdCounter
    /** The bytes in the transport: written ones are appended, read ones taken from the front. */
    var data: seq<byte>
    /** The id that SetID2Transport leaves with a CthriftTransport. */
    var transportId: string

    constructor (useType: UseType, stringLimit: i32, strictRead: bool, strictWrite: bool, counter: SeqIdCounter)
      ensures this.useType == useType && this.stringLimit == stringLimit && this.counter == counter
      ensures this.strictRead == strictRead && this.strictWrite == strictWrite && data == []
    {
      this.useType, this.stringLimit, this.counter := useType, stringLimit, counter;
      this.strictRead, this.strictWrite, data, transportId := strictRead, strictWrite, [], "";
    }

    method WriteByte(x: i8) returns (size: u32)
      modifies `data
      ensures data == old(data) + ByteText(x) && size == 1
    {
      data := data + [Low8(x)];
      size := 1;
    }

    method WriteI16(x: i16) returns (size: u32)
      modifies `data
      ensures data == old(data) + I16Text(x) && size == 2
    {
      var u := Low16(x);
      var net := u % 0x100 * 0x100 + u / 0x100;
      data := data + [net % 0x100, net / 0x100];
      size := 2;
    }

    method WriteI32(x: i32) returns (size: u32)
      modifies `data
      ensures data == old(data) + Network32(x) && size == 4
    {
      var net := Htonl(Low32(x));
      HtonlMemory(Low32(x));
      SignedLow(x);
      data := data + Bytes32(net);
      size := 4;
    }

    method WriteI64(x: i64) returns (size: u32)
      modifies `data
      ensures data == old(data) + Network64(x) && size == 8
    {
      var net := Htonll(x);
      HtonllMemory(x);
      data := data + Bytes64(net);
      size := 8;
    }

    method WriteString(str: seq<byte>) returns (size: u32)
      modifies `data
      ensures data == old(data) + StringText(str) && size == Low32(|StringText(str)|)
    {
      size := Low32(|str|);
      var result := WriteI32(Signed32(size));
      if size > 0 {
        data := data + str[..size];
      }
      size := Low32(result as int + size);
    }

    /** One header of writeMessageBegin. */
    method WriteHeader(name: seq<byte>, messageType: byte, seqid: i32) returns (size: u32)
      modifies `data
      ensures data == old(data) + HeaderText(Header(name, messageType, seqid), strictWrite)
      ensures size == Low32(|HeaderText(Header(name, messageType, seqid), strictWrite)|)
    {
      hide Network32, StringText, Low32, Signed32;
      ghost var tag := Network32(Signed32(VERSION_1 + messageType));
      size := 0;
      NoCarry(0);
      var n;
      if strictWrite {
        n := WriteI32(Signed32(VERSION_1 + messageType));
        size := Low32(size as int + n);
        n := WriteString(name);
        size := Low32(size as int + n);
        LowSum(4, |StringText(name)|);
        LowSum(4 + |StringText(name)|, 4);
      } else {
        n := WriteString(name);
        size := Low32(size as int + n);
        n := WriteByte(Signed8(messageType));
        size := Low32(size as int + n);
        LowSum(|StringText(name)|, 0);
        LowSum(|StringText(name)|, 1);
        LowSum(|StringText(name)| + 1, 4);
      }
      n := WriteI32(seqid);
      size := Low32(size as int + n);
    }

    /** writeMessageBegin on a memory buffer: the header twice, with a fresh id in place of 0. */
    method WriteMessageBeginMemory(name: seq<byte>, messageType: byte, seqid: i32) returns (size: u32, id: i32)
      requires counter.Valid()
      modifies `data, counter
      ensures counter.Valid()
      ensures id == (if seqid == 0 then NextId(old(counter.value)) else seqid)
      ensures counter.value == (if seqid == 0 then id else old(counter.value))
      ensures var text := HeaderText(Header(name, messageType, id), strictWrite);
              data == old(data) + (text + text) && size == Low32(|text + text|)
    {
      hide HeaderText, NextId;
      id := seqid;
      if 0 == seqid {
        id := counter.Next();
      }
      ghost var text := HeaderText(Header(name, messageType, id), strictWrite);
      var first := WriteHeader(name, messageType, id);
      var second := WriteHeader(name, messageType, id);
      LowSum(|text|, |text|);
      size := Low32(first as int + second);
      assert (old(data) + text) + text == old(data) + (text + text);
    }

    /**
     writeMessageBegin on a CthriftTransport: a client with id 0 gets a fresh id, an empty write buffer, and the id in
     decimal on its transport.
     */
    method WriteMessageBeginTransport(name: seq<byte>, messageType: byte, seqid: i32) returns (size: u32, id: i32)
      requires counter.Valid()
      modifies `data, `transportId, counter
      ensures counter.Valid()
      ensures transportId == if useType == Client && seqid == 0 then IdText(id) else old(transportId)
      ensures var fresh' := useType == Client && seqid == 0;
              && id == (if fresh' then NextId(old(counter.value)) else seqid)
              && counter.value == (if fresh' then id else old(counter.value))
              && data == (if fresh' then [] else old(data)) + HeaderText(Header(name, messageType, id), strictWrite)
      ensures size == Low32(|HeaderText(Header(name, messageType, id), strictWrite)|)
    {
      id := seqid;
      if useType == Client && 0 == seqid {
        id := counter.Next();
        data := [];
        transportId := IdText(id);
      }
      size := WriteHeader(name, messageType, id);
    }

    method WriteFieldBegin(fieldType: i8, fieldId: i16) returns (size: u32)
      modifies `data
      ensures data == old(data) + (ByteText(fieldType) + I16Text(fieldId)) && size == 3
    {
      var n := WriteByte(fieldType);
      size := n;
      n := WriteI16(fieldId);
      size := Low32(size as int + n);
    }

    method WriteFieldStop() returns (size: u32)
      modifies `data
      ensures data == old(data) + ByteText(T_STOP) && size == 1
    {
      size := WriteByte(T_STOP);
    }

    /** readFieldBegin: a stop has no id. */
    method ReadFieldBegin() returns (size: nat, r: Read<(i8, i16)>)
      modifies `data
      ensures r == ParseFieldBegin(old(data)) && (r.Value? ==> data == r.rest && size == |old(data)| - |data|)
    {
      hide ParseByte, ParseI16;
      var n, fieldType := ReadByte();
      size := n;
      if fieldType.Throws? {
        return size, Throws(fieldType.error);
      }
      if fieldType.value == T_STOP {
        return size, Value((T_STOP, 0), data);
      }
      var fieldId;
      n, fieldId := ReadI16();
      size := size + n;
      if fieldId.Throws? {
        return size, Throws(fieldId.error);
      }
      r := Value((fieldType.value, fieldId.value), data);
    }

    /** readByte: like every reader, it counts the bytes it takes, or throws. */
    method ReadByte() returns (size: nat, r: Read<i8>)
      modifies `data
      ensures r == ParseByte(old(data)) && (r.Value? ==> data == r.rest && size == |old(data)| - |data|)
    {
      size := 1;
      if |data| < 1 {
        return 0, Throws(EndOfFile);
      }
      var b := data[0];
      data := data[1..];
      r := Value(Signed8(b), data);
    }

    method ReadI16() returns (size: nat, r: Read<i16>)
      modifies `data
      ensures r == ParseI16(old(data)) && (r.Value? ==> data == r.rest && size == |old(data)| - |data|)
    {
      size := 2;
      if |data| < 2 {
        return 0, Throws(EndOfFile);
      }
      var low: int, high: int := data[0], data[1];
      var all := high * 0x100 + low;
      var host := all % 0x100 * 0x100 + all / 0x100;
      SwappedBytes(data[0], data[1]);
      data := data[2..];
      r := Value(Signed16(host), data);
    }

    method ReadI64() returns (size: nat, r: Read<i64>)
      modifies `data
      ensures r == ParseI64(old(data)) && (r.Value? ==> data == r.rest && size == |old(data)| - |data|)
    {
      size := 8;
      if |data| < 8 {
        return 0, Throws(EndOfFile);
      }
      var low: int, high: int := Unit32(data), Unit32(data[4..]);
      data := data[8..];
      r := Value(Htonll(Signed64(high * TWO32 + low)), data);
    }

    method ReadI32() returns (size: nat, r: Read<i32>)
      modifies `data
      ensures r == ParseI32(old(data)) && (r.Value? ==> data == r.rest && size == |old(data)| - |data|)
    {
      size := 4;
      if |data| < 4 {
        return 0, Throws(EndOfFile);
      }
      var all := Unit32(data);
      MemoryIsNetwork(data);
      data := data[4..];
      r := Value(Signed32(Htonl(all)), data);
    }

    method ReadStringBody(length: i32) returns (size: nat, r: Read<seq<byte>>)
      modifies `data
      ensures r == ParseStringBody(old(data), length, stringLimit)
      ensures r.Value? ==> data == r.rest && size == |old(data)| - |data|
    {
      size := 0;
      if length < 0 {
        return 0, Throws(NegativeSize);
      }
      if stringLimit > 0 && length > stringLimit {
        return 0, Throws(SizeLimit);
      }
      if length == 0 {
        assert data[..0] == [] && data[0..] == data;
        return 0, Value([], data);
      }
      if |data| < length {
        return 0, Throws(EndOfFile);
      }
      var str := data[..length];
      data := data[length..];
      return length, Value(str, data);
    }

    method ReadString() returns (size: nat, r: Read<seq<byte>>)
      modifies `data
      ensures r == ParseString(old(data), stringLimit)
      ensures r.Value? ==> data == r.rest && size == |old(data)| - |data|
    {
      var n, length := ReadI32();
      if length.Throws? {
        return 0, Throws(length.error);
      }
      var m;
      m, r := ReadStringBody(length.value);
      size := n + m;
    }

    method ReadMessageBegin() returns (size: nat, r: Read<Header>)
      modifies `data
      ensures r == ParseMessageBegin(old(data), strictRead, stringLimit)
      ensures r.Value? ==> data == r.rest && size == |old(data)| - |data|
    {
      hide ParseI32, ParseByte, ParseString, ParseStringBody;
      var n, sz := ReadI32();
      size := n;
      if sz.Throws? {
        return size, Throws(sz.error);
      }
      var name, messageType: int;
      if sz.value < 0 {
        if !IsVersion1(sz.value) {
          return size, Throws(BadVersion);
        }
        messageType := Low32(sz.value) % 0x100;
        n, name := ReadString();
        size := size + n;
        if name.Throws? {
          return size, Throws(name.error);
        }
      } else {
        if strictRead {
          return size, Throws(BadVersion);
        }
        n, name := ReadStringBody(sz.value);
        size := size + n;
        if name.Throws? {
          return size, Throws(name.error);
        }
        var signed;
        n, signed := ReadByte();
        size := size + n;
        if signed.Throws? {
          return size, Throws(signed.error);
        }
        messageType := signed.value;
      }
      var seqid;
      n, seqid := ReadI32();
      size := size + n;
      if seqid.Throws? {
        return size, Throws(seqid.error);
      }
      r := Value(Header(name.value, messageType, seqid.value), data);
    }

    /** GetSeqID of the memory-buffer protocol. */
    method GetSeqID() returns (r: Read<i32>)
      modifies `data
      ensures r == ParseSeqID(old(data), strictRead, stringLimit) && (r.Value? ==> data == r.rest)
    {
      hide ParseI32, ParseByte, ParseString, ParseStringBody;
      var _, size := ReadI32();
      if size.Throws? {
        return size;
      }
      if 0 > size.value && IsVersion1(size.value) {
        var _, name := ReadString();
        if name.Throws? {
          return Throws(name.error);
        }
        var _, id := ReadI32();
        return id;
      } else if 0 <= size.value && !strictRead {
        var _, name := ReadStringBody(size.value);
        if name.Throws? {
          return Throws(name.error);
        }
        var _, messageType := ReadByte();
        if messageType.Throws? {
          return Throws(messageType.error);
        }
        var _, id := ReadI32();
        return id;
      }
      return Value(0, data);
    }
  }

  // ----- the bytes of a header -----

  /** A header with version starts with 80 01 00 and the type; one without has the type behind the name. */
  lemma HeaderBytes(h: Header)
    requires 0 <= h.messageType < 0x100
    ensures HeaderText(h, true) == [0x80, 0x01, 0x00, h.messageType] + StringText(h.name) + Network32(h.seqid)
    ensures HeaderText(h, false) == StringText(h.name) + [h.messageType] + Network32(h.seqid)
  {
    var word: int := VERSION_1 + h.messageType;
    SignedLow(Signed32(word));
    assert Low32(Signed32(word)) == word;
    assert Network32(Signed32(word)) == [0x80, 0x01, 0x00, h.messageType];
  }

  /** The version test looks at the first two bytes, which must be 80 01, and at nothing else. */
  lemma VersionBytes(sz: i32)
    ensures IsVersion1(sz) <==> Network32(sz)[0] == 0x80 && Network32(sz)[1] == 0x01
  {
    var u: int := Low32(sz);
    assert u / 0x1_0000 == u / 0x100_0000 * 0x100 + u / 0x1_0000 % 0x100;
  }

  /** An id in decimal, without padding. */
  lemma IdTextIs(id: i32)
    ensures if id < 0 then IdText(id)[0] == '-' && NumericParsing.IsPlain(IdText(id)[1..], -(id as int))
            else NumericParsing.IsPlain(IdText(id), id)
  {
    NumericParsing.PlainDecimal(id);
  }

  /** A field starts with its type and its id, high byte first; a stop is a zero byte. */
  lemma FieldBeginBytes(fieldType: i8, fieldId: i16)
    requires fieldType >= 0 && fieldId >= 0
    ensures ByteText(fieldType) + I16Text(fieldId) == [fieldType, fieldId / 256, fieldId % 256] && ByteText(T_STOP) == [0]
  {
  }

  // ----- readers undo writers -----

  lemma ByteReadBack(x: i8, rest: seq<byte>)
    ensures ParseByte(ByteText(x) + rest) == Value(x, rest)
  {
    assert (ByteText(x) + rest)[1..] == rest;
  }

  lemma I16ReadBack(x: i16, rest: seq<byte>)
    ensures ParseI16(I16Text(x) + rest) == Value(x, rest)
  {
    assert (I16Text(x) + rest)[2..] == rest;
  }

  lemma I32ReadBack(x: i32, rest: seq<byte>)
    ensures ParseI32(Network32(x) + rest) == Value(x, rest)
  {
    Network32RoundTrip(x, rest);
    assert (Network32(x) + rest)[4..] == rest;
  }

  lemma I64ReadBack(x: i64, rest: seq<byte>)
    ensures ParseI64(Network64(x) + rest) == Value(x, rest)
  {
    var v := Htonll(x);
    var s := Network64(x) + rest;
    HtonllMemory(x);
    HtonllInvolution(x);
    Recombine(v);
    MemoryUnits(v, rest);
    hide Htonll, Low32, Signed64, Network64, Bytes64, Unit32;
    assert s[8..] == rest;
  }

  lemma MemoryUnits(v: i64, rest: seq<byte>)
    ensures var s := Bytes64(v) + rest;
            |s| >= 8 && Unit32(s) == Low32(v) && Unit32(s[4..]) == Low32(v / TWO32)
  {
    var a, b := Bytes32(Low32(v)), Bytes32(Low32(v / TWO32));
    Bytes32RoundTrip(Low32(v), b + rest);
    Bytes32RoundTrip(Low32(v / TWO32), rest);
    assert |a| == 4 && |b| == 4;
    hide Bytes32, Low32, Unit32;
    var s := Bytes64(v) + rest;
    assert s == a + (b + rest);
    assert s[4..] == b + rest;
  }

  /** A string whose size fits an int32 is read back exactly when it is within the limit. */
  lemma StringReadBack(str: seq<byte>, rest: seq<byte>, stringLimit: i32)
    requires |str| < 0x8000_0000
    ensures ParseString(StringText(str) + rest, stringLimit)
         == if stringLimit > 0 && |str| > stringLimit then Throws(SizeLimit) else Value(str, rest)
  {
    hide Network32, ParseI32;
    assert Signed32(Low32(|str|)) == |str|;
    I32ReadBack(|str|, str + rest);
    assert StringText(str) + rest == Network32(|str|) + (str + rest);
    assert (str + rest)[..|str|] == str && (str + rest)[|str|..] == rest;
  }

  /** What a reader makes of one header: the header and the rest, or the exception. */
  function HeaderOutcome(h: Header, strictWrite: bool, strictRead: bool, stringLimit: i32): Read<Header>
    requires 0 <= h.messageType < 0x100
  {
    if !strictWrite && strictRead then Throws(BadVersion)
    else if stringLimit > 0 && |h.name| > stringLimit then Throws(SizeLimit)
    else if strictWrite then Value(h, [])
    else Value(h.(messageType := Signed8(h.messageType)), [])
  }

  /**
   readMessageBegin on what writeMessageBegin wrote, for every mode and limit: it fails only when a strict reader
   meets a header without version or the name is above the limit. The type comes back unless the header has no
   version and the type is above 127.
   */
  lemma HeaderReadBack(h: Header, strictWrite: bool, strictRead: bool, stringLimit: i32, rest: seq<byte>)
    requires 0 <= h.messageType < 0x100 && |h.name| < 0x8000_0000
    ensures var r := ParseMessageBegin(HeaderText(h, strictWrite) + rest, strictRead, stringLimit);
            var o := HeaderOutcome(h, strictWrite, strictRead, stringLimit);
            if o.Throws? then r == o else r == Value(o.value, rest)
  {
    if strictWrite {
      VersionedReadBack(h, strictRead, stringLimit, rest);
    } else {
      UnversionedReadBack(h, strictRead, stringLimit, rest);
    }
  }

  lemma VersionWord(messageType: int)
    requires 0 <= messageType < 0x100
    ensures var sz := Signed32(VERSION_1 + messageType); sz < 0 && IsVersion1(sz) && Low32(sz) % 0x100 == messageType
  {
    assert Low32(Signed32(VERSION_1 + messageType)) == VERSION_1 + messageType;
  }

  lemma VersionedReadBack(h: Header, strictRead: bool, stringLimit: i32, rest: seq<byte>)
    requires 0 <= h.messageType < 0x100 && |h.name| < 0x8000_0000
    ensures ParseMessageBegin(HeaderText(h, true) + rest, strictRead, stringLimit)
         == if stringLimit > 0 && |h.name| > stringLimit then Throws(SizeLimit) else Value(h, rest)
  {
    hide Network32, ParseI32, StringText, ParseString, IsVersion1, Low32, Signed32;
    var word := Signed32(VERSION_1 + h.messageType);
    var s1, s2 := StringText(h.name) + (Network32(h.seqid) + rest), Network32(h.seqid) + rest;
    VersionWord(h.messageType);
    I32ReadBack(word, s1);
    StringReadBack(h.name, s2, stringLimit);
    I32ReadBack(h.seqid, rest);
    Regroup(Network32(word), StringText(h.name), Network32(h.seqid), rest);
  }

  lemma UnversionedReadBack(h: Header, strictRead: bool, stringLimit: i32, rest: seq<byte>)
    requires 0 <= h.messageType < 0x100 && |h.name| < 0x8000_0000
    ensures ParseMessageBegin(HeaderText(h, false) + rest, strictRead, stringLimit)
         == if strictRead then Throws(BadVersion)
            else if stringLimit > 0 && |h.name| > stringLimit then Throws(SizeLimit)
            else Value(h.(messageType := Signed8(h.messageType)), rest)
  {
    hide Network32, ParseI32, Signed8;
    var s1 := [h.messageType] + (Network32(h.seqid) + rest);
    I32ReadBack(|h.name|, h.name + s1);
    I32ReadBack(h.seqid, rest);
    assert Signed32(Low32(|h.name|)) == |h.name|;
    Regroup(Network32(|h.name|) + h.name, [h.messageType], Network32(h.seqid), rest);
    assert HeaderText(h, false) + rest == Network32(|h.name|) + (h.name + s1);
    assert (h.name + s1)[..|h.name|] == h.name && (h.name + s1)[|h.name|..] == s1;
    assert s1[1..] == Network32(h.seqid) + rest;
  }

  lemma Regroup(a: seq<byte>, b: seq<byte>, c: seq<byte>, d: seq<byte>)
    ensures (a + b + c) + d == a + (b + (c + d))
  {
  }

  /** ParseSeqID takes the first of two headers off and returns its id; one header is left in front of the message. */
  lemma DoubleHeader(h: Header, strictWrite: bool, strictRead: bool, stringLimit: i32, body: seq<byte>)
    requires 0 <= h.messageType < 0x100 && |h.name| < 0x8000_0000
    requires HeaderOutcome(h, strictWrite, strictRead, stringLimit).Value?
    ensures var text := HeaderText(h, strictWrite);
            && ParseSeqID(text + text + body, strictRead, stringLimit) == Value(h.seqid, text + body)
            && ParseMessageBegin(text + body, strictRead, stringLimit)
               == Value(HeaderOutcome(h, strictWrite, strictRead, stringLimit).value, body)
  {
    hide HeaderText, ParseMessageBegin, ParseSeqID;
    var text := HeaderText(h, strictWrite);
    assert text + text + body == text + (text + body);
    HeaderReadBack(h, strictWrite, strictRead, stringLimit, text + body);
    HeaderReadBack(h, strictWrite, strictRead, stringLimit, body);
    SeqIdOfHeader(text + (text + body), strictRead, stringLimit);
  }

  /** Where readMessageBegin succeeds, ParseSeqID reads the same bytes and returns the id. */
  lemma SeqIdOfHeader(s: seq<byte>, strictRead: bool, stringLimit: i32)
    ensures var r := ParseMessageBegin(s, strictRead, stringLimit);
            r.Value? ==> ParseSeqID(s, strictRead, stringLimit) == Value(r.value.seqid, r.rest)
  {
    hide ParseI32, ParseString, ParseStringBody, ParseByte, IsVersion1;
  }

  // ----- sequence ids -----

  /** The id given out n calls after the counter stood at value. */
  function IdAfter(value: i32, n: nat): (id: i32)
    requires 1 <= value < 0x7FFF_FFFF
    ensures 1 <= id < 0x7FFF_FFFF
  {
    if n == 0 then value else NextId(IdAfter(value, n - 1))
  }

  /** Ids count up and start over at 1 behind 2^31 - 2. */
  lemma {:induction false} IdsCycle(value: i32, n: nat)
    requires 1 <= value < 0x7FFF_FFFF
    ensures IdAfter(value, n) == (value - 1 + n) % 0x7FFF_FFFE + 1
  {
    if n > 0 {
      IdsCycle(value, n - 1);
      NextInCycle(value - 1 + (n - 1));
    }
  }

  lemma NextInCycle(k: nat)
    ensures (k + 1) % 0x7FFF_FFFE == if k % 0x7FFF_FFFE == 0x7FFF_FFFD then 0 else k % 0x7FFF_FFFE + 1
  {
  }

  /** Generated ids are positive, which the receiving worker insists on, and repeat only after 2^31 - 2 calls. */
  lemma GeneratedIdsDistinct(value: i32, m: nat, n: nat)
    requires 1 <= value < 0x7FFF_FFFF && m < n
    ensures IdAfter(value, m) > 0
    ensures IdAfter(value, m) == IdAfter(value, n) <==> (n - m) % 0x7FFF_FFFE == 0
  {
    hide IdAfter;
    IdsCycle(value, m);
    IdsCycle(value, n);
    SameRemainder(value - 1 + m, n - m, 0x7FFF_FFFE);
  }

  lemma SameRemainder(a: nat, d: nat, period: nat)
    requires period > 0
    ensures (a + d) % period == a % period <==> d % period == 0
  {
    var q, r := a / period, a % period;
    var p, e := d / period, d % period;
    assert a + d == (q + p) * period + (r + e);
    if r + e < period {
      RemainderIs(a + d, period, q + p, r + e);
    } else {
      assert a + d == (q + p + 1) * period + (r + e - period);
      RemainderIs(a + d, period, q + p + 1, r + e - period);
    }
  }

  lemma RemainderIs(x: nat, period: nat, q: nat, r: nat)
    requires period > 0 && x == q * period + r && r < period
    ensures x % period == r
  {
    var q', r' := x / period, x % period;
    assert x == q' * period + r';
    assert (q - q') * period == r' - r;
    Multiples(q - q', period);
  }

  lemma Multiples(k: int, period: nat)
    requires period > 0
    ensures k >= 1 ==> k * period >= period
    ensures k <= -1 ==> k * period + period <= 0
  {
  }
}
