/** The machine the V7 text was written for: 16-bit int and short, 32-bit long, two's complement,
    arithmetic right shift, and a long whose first 16-bit half is the high one. */
module Machine {
  // 0100000: the radix of a multiple-precision number, and also the sign bit of a short
  const BASE: int := 32768

  type Digit = d: int | 0 <= d < 32768
  type Int16 = n: int | -32768 <= n < 32768
  type Long = n: int | -0x8000_0000 <= n < 0x8000_0000

  /** What a 16-bit register keeps of n. */
  function Wrap16(n: int): Int16 {
    (n + 32768) % 65536 - 32768
  }

  /** What a 32-bit register pair keeps of n. */
  function Wrap32(n: int): Long {
    (n + 0x8000_0000) % 0x1_0000_0000 - 0x8000_0000
  }

  /** x & 0100000 != 0, for a 16-bit x */
  predicate SignBit(x: Int16) {
    x < 0
  }

  /** x & 077777 */
  function Low15(x: int): Digit {
    x % 32768
  }

  /** x >> 15, arithmetically */
  function ShiftRight15(x: int): int {
    x / 32768
  }

  /** The `high` member of struct half laid over a long. */
  function High(x: Long): Int16 {
    x / 65536
  }

  /** The `low` member, read as 16 raw bits. */
  function Low(x: Long): (l: int)
    ensures 0 <= l < 65536
  {
    x % 65536
  }

  /** The long whose halves are `high` and the raw bits `low`. */
  function Join(high: Int16, low: int): Long
    requires 0 <= low < 65536
  {
    high * 65536 + low
  }

  /** The sign bit of a 16-bit sum tells a carry or a borrow, and masking it off corrects the digit. */
  lemma SignBitIsCarry(n: int)
    requires -32768 <= n < 65536
    ensures SignBit(Wrap16(n)) <==> n < 0 || n >= 32768
    ensures 0 <= n < 32768 ==> Wrap16(n) == n
    ensures n >= 32768 ==> Low15(Wrap16(n)) == n - 32768
    ensures n < 0 ==> Low15(Wrap16(n)) == n + 32768
  {}

  lemma LowAndShift(x: int)
    ensures Low15(x) + 32768 * ShiftRight15(x) == x
    ensures -32767 * 32768 <= x < 32768 ==> -32767 <= ShiftRight15(x) <= 0
    ensures -32768 <= x < 0 ==> ShiftRight15(x) == -1
    ensures 0 <= x < 32768 ==> ShiftRight15(x) == 0
  {}
}
