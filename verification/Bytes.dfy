/** Fixed-width integers of the C++ source and their big-endian byte images.
    Shifts, `|` and `& 0xFF` on disjoint bit ranges are written as the arithmetic they perform. */
module Bytes {
  datatype Option<+T> = None | Some(value: T)

  type byte = x: int | 0 <= x < 0x100
  type uint16 = x: int | 0 <= x < 0x1_0000
  type uint32 = x: int | 0 <= x < 0x1_0000_0000

  /** A logical address as the two bytes it has on the wire. */
  datatype Addr = Addr(hi: byte, lo: byte)

  function Value16(hi: byte, lo: byte): uint16 {
    hi * 0x100 + lo
  }

  function AddrValue(a: Addr): uint16 {
    Value16(a.hi, a.lo)
  }

  function Be16(x: uint16): seq<byte> {
    [x / 0x100, x % 0x100]
  }

  function Value32(b3: byte, b2: byte, b1: byte, b0: byte): uint32 {
    ((b3 as int * 0x100 + b2) * 0x100 + b1) * 0x100 + b0
  }

  function Be32(n: uint32): seq<byte> {
    [n / 0x100_0000, n / 0x1_0000 % 0x100, n / 0x100 % 0x100, n % 0x100]
  }

  /** Conversion of an unsigned value to `int`: the two's-complement wrap-around. */
  function ToInt32(n: uint32): int {
    if n < 0x8000_0000 then n else n - 0x1_0000_0000
  }

  /** Conversion of any integer to `unsigned int`. */
  function ToUint32(n: int): uint32 {
    n % 0x1_0000_0000
  }

  /** Most significant byte first, which for bytes determines the image. */
  lemma BigEndian(x: uint16, n: uint32)
    ensures var s := Be16(x); s[0] as int * 0x100 + s[1] == x
    ensures var s := Be32(n); s[0] as int * 0x100_0000 + s[1] as int * 0x1_0000 + s[2] as int * 0x100 + s[3] == n
  {
    RoundTrip32(n);
  }

  lemma RoundTrip32(n: uint32)
    ensures var s := Be32(n); Value32(s[0], s[1], s[2], s[3]) == n
  {
    assert n / 0x100_0000 == n / 0x1_0000 / 0x100;
    assert n / 0x1_0000 == n / 0x100 / 0x100;
  }
}
