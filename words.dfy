/** Machine words as the C# source uses them: `uint`, `ulong`, `int`, unchecked
    wrap-around, truncating division, and little-endian decoding as done by
    `BitConverter` on a little-endian host. */
module Words {

  const TWO_32: int := 0x1_0000_0000
  const TWO_64: int := 0x1_0000_0000_0000_0000

  type u32 = x: int | 0 <= x < 0x1_0000_0000
  type u64 = x: int | 0 <= x < 0x1_0000_0000_0000_0000
  type i32 = x: int | -0x8000_0000 <= x < 0x8000_0000

  datatype Option<+T> = None | Some(value: T)

  /** Unchecked `ulong` addition: the sum modulo 2^64. */
  function Add64(a: u64, b: int): (r: u64)
    requires 0 <= b
    ensures a + b < TWO_64 ==> r == a + b
    ensures a + b >= TWO_64 && b < TWO_64 ==> r == a + b - TWO_64
  {
    (a + b) % TWO_64
  }

  /** Unchecked `ulong` subtraction: the difference modulo 2^64. */
  function Sub64(a: u64, b: u64): (r: u64)
    ensures b <= a ==> r == a - b
    ensures a < b ==> r == TWO_64 - (b - a)
  {
    (a - b) % TWO_64
  }

  /** Unchecked `int` arithmetic result: `x` reduced into the signed 32-bit range. */
  function WrapI32(x: int): (r: i32)
    ensures (r - x) % TWO_32 == 0
    ensures -0x8000_0000 <= x < 0x8000_0000 ==> r == x
  {
    (x + 0x8000_0000) % TWO_32 - 0x8000_0000
  }

  /** C# integer division: truncates toward zero. */
  function TruncDiv(a: int, b: int): int
    requires b > 0
  {
    if a >= 0 then a / b else -((-a) / b)
  }

  /** C# `%`: the remainder takes the sign of the dividend. */
  function TruncRem(a: int, b: int): (r: int)
    requires b > 0
    ensures a == b * TruncDiv(a, b) + r
    ensures a >= 0 ==> 0 <= r < b
    ensures a < 0 ==> -b < r <= 0
  {
    a - b * TruncDiv(a, b)
  }

  /** `256^n`. */
  function Pow256(n: nat): (r: nat)
    ensures r >= 1
  {
    if n == 0 then 1 else 256 * Pow256(n - 1)
  }

  /** The unsigned value of little-endian bytes: `b[0]` is the least
      significant. */
  function LittleEndian(b: seq<bv8>): (r: nat)
    ensures r < Pow256(|b|)
  {
    if b == [] then 0 else b[0] as nat + 256 * LittleEndian(b[1..])
  }

  /** Four bytes: the value is below 2^31 exactly when the top byte is. */
  lemma LittleEndian4(b: seq<bv8>)
    requires |b| == 4
    ensures LittleEndian(b) == b[0] as int + 0x100 * b[1] as int + 0x1_0000 * b[2] as int + 0x100_0000 * b[3] as int
    ensures LittleEndian(b) < TWO_32
  {
    var b1 := b[1..];
    var b2 := b1[1..];
    var b3 := b2[1..];
    assert b3[1..] == [];
    assert LittleEndian(b3) == b[3] as int;
    assert LittleEndian(b2) == b[2] as int + 256 * b[3] as int;
    assert LittleEndian(b1) == b[1] as int + 256 * (b[2] as int + 256 * b[3] as int);
  }

  /** `BitConverter.ToUInt32` on a little-endian host. */
  function ToUInt32(b: seq<bv8>): (r: u32)
    requires |b| == 4
    ensures r < 0x8000_0000 <==> b[3] as int < 0x80
  {
    LittleEndian4(b);
    LittleEndian(b)
  }

  /** `BitConverter.ToInt32`: the same bytes read as two's complement. */
  function ToInt32(b: seq<bv8>): (r: i32)
    requires |b| == 4
    ensures r < 0 <==> b[3] as int >= 0x80
    ensures r % TWO_32 == ToUInt32(b)
  {
    var u := ToUInt32(b);
    if u < 0x8000_0000 then u else u - TWO_32
  }

  /** `BitConverter.ToUInt64` on a little-endian host. */
  function ToUInt64(b: seq<bv8>): (r: u64)
    requires |b| == 8
  {
    assert Pow256(8) == TWO_64;
    LittleEndian(b)
  }

  function Min(a: int, b: int): int {
    if a <= b then a else b
  }
}
