/** The C++ integer types the modelled code computes with, as ranges of int, and their truncating casts. */
module MachineInts {
  type byte = x: int | 0 <= x < 0x100
  type u16 = x: int | 0 <= x < 0x1_0000
  type u32 = x: int | 0 <= x < 0x1_0000_0000
  type i32 = x: int | -0x8000_0000 <= x < 0x8000_0000

  /** (unsigned char) x */
  function Low8(x: int): byte { x % 0x100 }

  /** (UInt16) x */
  function Low16(x: int): u16 { x % 0x1_0000 }

  /** (UInt32) x */
  function Low32(x: int): u32 { x % 0x1_0000_0000 }

  /** (int) x for an unsigned 32-bit x */
  function Signed32(x: u32): i32 {
    if x < 0x8000_0000 then x else x - 0x1_0000_0000
  }

  lemma SignedLow(x: i32)
    ensures Signed32(Low32(x)) == x
  {
    assert Low32(x) == if x >= 0 then x else x + 0x1_0000_0000;
  }

  /** The two bytes of a native-order 16-bit unit (least significant first). */
  function Bytes16(x: u16): seq<byte> { [x % 0x100, x / 0x100] }

  /** The 16-bit unit whose native-order bytes stand at the front of b. */
  function Unit16(b: seq<byte>): u16
    requires |b| >= 2
  {
    var b0: int, b1: int := b[0], b[1];
    b0 + 0x100 * b1
  }

  /** The four bytes of a native-order 32-bit unit. */
  function Bytes32(x: u32): seq<byte> {
    [x % 0x100, x / 0x100 % 0x100, x / 0x1_0000 % 0x100, x / 0x100_0000]
  }

  /** The 32-bit unit whose native-order bytes stand at the front of b. */
  function Unit32(b: seq<byte>): u32
    requires |b| >= 4
  {
    var b0: int, b1: int, b2: int, b3: int := b[0], b[1], b[2], b[3];
    b0 + 0x100 * b1 + 0x1_0000 * b2 + 0x100_0000 * b3
  }

  lemma Bytes16RoundTrip(x: u16, rest: seq<byte>)
    ensures Unit16(Bytes16(x) + rest) == x
  {
  }

  lemma Bytes32RoundTrip(x: u32, rest: seq<byte>)
    ensures Unit32(Bytes32(x) + rest) == x
  {
    var h1 := x / 0x100;
    var h2 := h1 / 0x100;
    assert x / 0x1_0000 == h2;
    assert x / 0x100_0000 == h2 / 0x100;
  }

  /** The four bytes of an int in network order. */
  function Network32(x: i32): (b: seq<byte>)
    ensures |b| == 4
  {
    var u: int := Low32(x);
    [u / 0x100_0000, u / 0x1_0000 % 0x100, u / 0x100 % 0x100, u % 0x100]
  }

  /** The int whose network-order bytes stand at the front of b. */
  function FromNetwork32(b: seq<byte>): i32
    requires |b| >= 4
  {
    var b0: int, b1: int, b2: int, b3: int := b[0], b[1], b[2], b[3];
    Signed32(((b0 * 0x100 + b1) * 0x100 + b2) * 0x100 + b3)
  }

  lemma Network32RoundTrip(x: i32, rest: seq<byte>)
    ensures FromNetwork32(Network32(x) + rest) == x
  {
    var u: int := Low32(x);
    var h1 := u / 0x100;
    var h2 := h1 / 0x100;
    assert u / 0x1_0000 == h2 && u / 0x100_0000 == h2 / 0x100;
    assert (((u / 0x100_0000) * 0x100 + u / 0x1_0000 % 0x100) * 0x100 + u / 0x100 % 0x100) * 0x100 + u % 0x100 == u;
    SignedLow(x);
  }

  lemma Network32OfBytes(b: seq<byte>)
    requires |b| == 4
    ensures Network32(FromNetwork32(b)) == b
  {
    var b0: int, b1: int, b2: int, b3: int := b[0], b[1], b[2], b[3];
    var u := ((b0 * 0x100 + b1) * 0x100 + b2) * 0x100 + b3;
    assert Low32(Signed32(u)) == u;
    assert u / 0x100 == (b0 * 0x100 + b1) * 0x100 + b2;
    assert u / 0x1_0000 == b0 * 0x100 + b1 && u / 0x100_0000 == b0;
  }
}
