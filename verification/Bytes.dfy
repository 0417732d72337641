/** Bytes, and integers in network byte order (muduo_net/Endian.h). */
module Bytes {

  type byte = b: int | 0 <= b < 256

  type bytes = seq<byte>

  datatype Option<T> = None | Some(value: T)

  const TWO_8 := 0x100
  const TWO_16 := 0x1_0000
  const TWO_24 := 0x100_0000
  const TWO_31 := 0x8000_0000
  const TWO_32 := 0x1_0000_0000

  type uint16 = x: int | 0 <= x < TWO_16
  type uint32 = x: int | 0 <= x < TWO_32
  type int32 = x: int | -TWO_31 <= x < TWO_31
  type int8 = x: int | -128 <= x < 128

  function BigEndian16(x: uint16): (b: bytes)
    ensures |b| == 2
  {
    [x / TWO_8, x % TWO_8]
  }

  function Read16(b: bytes): uint16
    requires |b| >= 2
  {
    b[0] * TWO_8 + b[1]
  }

  function BigEndian32(x: uint32): (b: bytes)
    ensures |b| == 4
  {
    [x / TWO_24, x / TWO_16 % TWO_8, x / TWO_8 % TWO_8, x % TWO_8]
  }

  function Read32(b: bytes): uint32
    requires |b| >= 4
  {
    b[0] * TWO_24 + b[1] * TWO_16 + b[2] * TWO_8 + b[3]
  }

  /** Two's complement. */
  function Unsigned32(x: int32): (r: uint32)
    ensures (r as int - x as int) % 4294967296 == 0
  {
    if x < 0 then x + TWO_32 else x
  }

  function Signed32(x: uint32): (r: int32)
    ensures (x as int - r as int) % 4294967296 == 0
  {
    if x < TWO_31 then x else x - TWO_32
  }

  function Unsigned8(x: int8): (r: byte)
    ensures (r as int - x as int) % 256 == 0
  {
    if x < 0 then x + TWO_8 else x
  }

  function Signed8(x: byte): (r: int8)
    ensures (x as int - r as int) % 256 == 0
  {
    if x < 128 then x else x - TWO_8
  }

  /** The low 31 bits, as in `x & 0x7fffffff`. */
  function Low31(x: int32): (r: uint32)
    ensures r < TWO_31 && (x as int - r as int) % 2147483648 == 0
  {
    Unsigned32(x) % TWO_31
  }

  lemma RoundTrip16(x: uint16, rest: bytes)
    ensures Read16(BigEndian16(x) + rest) == x
  {
  }

  lemma ReadWrite16(b: bytes)
    requires |b| == 2
    ensures BigEndian16(Read16(b)) == b
  {
  }

  lemma RoundTrip32(x: uint32, rest: bytes)
    ensures Read32(BigEndian32(x) + rest) == x
  {
    var a := x / TWO_8;
    assert x == a * TWO_8 + x % TWO_8;
    assert x / TWO_16 == a / TWO_8 && x / TWO_24 == x / TWO_16 / TWO_8;
  }

  /** The first byte in which two strings of the same length differ decides. */
  predicate Before(a: bytes, b: bytes)
    requires |a| == |b|
    decreases |a|
  {
    a != [] && (a[0] < b[0] || (a[0] == b[0] && Before(a[1..], b[1..])))
  }

  /** Network order: the order of the numbers is the lexicographic order of their bytes. */
  lemma NetworkOrder16(x: uint16, y: uint16)
    ensures x < y <==> Before(BigEndian16(x), BigEndian16(y))
    ensures (BigEndian16(x)[0] as int) * 256 + BigEndian16(x)[1] as int == x
  {
    var a, b := BigEndian16(x), BigEndian16(y);
    assert Before(a[1..], b[1..]) <==> a[1] < b[1];
  }

  lemma NetworkOrder32(x: uint32, y: uint32)
    ensures x < y <==> Before(BigEndian32(x), BigEndian32(y))
    ensures var a := BigEndian32(x); a[0] as int * 16777216 + a[1] as int * 65536 + a[2] as int * 256 + a[3] as int == x
  {
    RoundTrip32(x, []);
    RoundTrip32(y, []);
    var a, b := BigEndian32(x), BigEndian32(y);
    assert a + [] == a && b + [] == b;
    LastBytes(a, b);
  }

  /** Four bytes, written out. */
  lemma LastBytes(a: bytes, b: bytes)
    requires |a| == |b| == 4
    ensures Before(a, b) <==>
              || a[0] < b[0]
              || (a[0] == b[0] && a[1] < b[1])
              || (a[0] == b[0] && a[1] == b[1] && a[2] < b[2])
              || (a[0] == b[0] && a[1] == b[1] && a[2] == b[2] && a[3] < b[3])
  {
    var a1, b1 := a[1..], b[1..];
    var a2, b2 := a1[1..], b1[1..];
    var a3, b3 := a2[1..], b2[1..];
    assert a1[0] == a[1] && a2[0] == a[2] && a3[0] == a[3] && b1[0] == b[1] && b2[0] == b[2] && b3[0] == b[3];
    assert !Before(a3[1..], b3[1..]);
    assert Before(a3, b3) <==> a3[0] < b3[0];
    assert Before(a2, b2) <==> a2[0] < b2[0] || (a2[0] == b2[0] && Before(a3, b3));
    assert Before(a1, b1) <==> a1[0] < b1[0] || (a1[0] == b1[0] && Before(a2, b2));
  }
}
