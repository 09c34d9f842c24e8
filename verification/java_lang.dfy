/** The few pieces of Java's primitive-type semantics the model relies on. */
module JavaLang {

  /** Java's `byte`: a signed 8-bit two's-complement integer. */
  type JByte = x: int | -128 <= x < 128

  /** Java's `short`: a signed 16-bit two's-complement integer. */
  type JShort = x: int | -32768 <= x < 32768

  /** Java's `int`: a signed 32-bit two's-complement integer. */
  type JInt = x: int | -0x8000_0000 <= x < 0x8000_0000

  /** `Math.min` on ints. */
  function Min(a: int, b: int): (m: int)
    ensures m <= a && m <= b
    ensures m == a || m == b
  {
    if a < b then a else b
  }

  /**
   * `b & 0xFF` for a byte promoted to int: the low eight bits of the
   * two's-complement representation, read as an unsigned number.
   */
  function MaskByte(b: JByte): (r: int)
    ensures 0 <= r < 256
    ensures r % 256 == b % 256
  {
    if b < 0 then b + 256 else b
  }

  /** `s & 0xFFFF` for a short promoted to int. */
  function MaskShort(s: JShort): (r: int)
    ensures 0 <= r < 65536
    ensures r % 65536 == s % 65536
  {
    if s < 0 then s + 65536 else s
  }

  /** The narrowing cast `(byte) i`: keeps the low eight bits, sign-extended. */
  function NarrowToByte(i: int): (r: JByte)
    ensures (r - i) % 256 == 0
  {
    var low := i % 256;
    if low < 128 then low else low - 256
  }

  /** The narrowing cast `(short) i`: keeps the low sixteen bits, sign-extended. */
  function NarrowToShort(i: int): (r: JShort)
    ensures (r - i) % 65536 == 0
  {
    var low := i % 65536;
    if low < 32768 then low else low - 65536
  }
}
