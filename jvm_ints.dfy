/** The JVM's fixed-width integers as ranges of Dafny's unbounded `int`,
    with Kotlin's silent two's-complement wrap-around written out. */
module JvmInts {

  const LongMin: int := -0x8000_0000_0000_0000
  const LongMax: int := 0x7fff_ffff_ffff_ffff
  const IntMin: int := -0x8000_0000
  const IntMax: int := 0x7fff_ffff

  /** 2^64 and 2^32: the moduli of Long and Int arithmetic. */
  const LongModulus: int := 0x1_0000_0000_0000_0000
  const IntModulus: int := 0x1_0000_0000

  /** kotlin.Long */
  type Long = x: int | LongMin <= x <= LongMax

  /** kotlin.Int */
  type Int = x: int | IntMin <= x <= IntMax

  /** kotlin.Byte (Java's signed byte) */
  type JByte = x: int | -128 <= x < 128

  /** The Long that a 64-bit machine leaves behind for the mathematical
      value `x`: the one representative of `x` modulo 2^64 in Long's range. */
  function WrapLong(x: int): (r: Long)
    ensures (r - x) % LongModulus == 0
    ensures LongMin <= x <= LongMax ==> r == x
  {
    (x - LongMin) % LongModulus + LongMin
  }
}
