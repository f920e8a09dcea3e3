/** Byte-level vocabulary shared by both ends of the twiboot I2C protocol:
    the command, boot-type and memory-type codes that travel on the bus
    (main.c:72-101, linux/twb.c:42-59) and 16-bit big-endian addresses. */
module Wire {

  /** An unsigned 8-bit value (`uint8_t`). */
  type byte = x: int | 0 <= x < 0x100

  /** An unsigned 16-bit value (`uint16_t`), the width of an address. */
  type u16 = x: int | 0 <= x < 0x1_0000

  // Commands sent as the first byte after SLA+W.
  const CMD_WAIT: byte := 0x00
  const CMD_READ_VERSION: byte := 0x01
  const CMD_READ_MEMORY: byte := 0x02
  const CMD_SWITCH_APPLICATION: byte := CMD_READ_VERSION
  const CMD_WRITE_MEMORY: byte := CMD_READ_MEMORY

  // Parameter of CMD_SWITCH_APPLICATION.
  const BOOTTYPE_BOOTLOADER: byte := 0x00
  const BOOTTYPE_APPLICATION: byte := 0x80

  // Parameter of CMD_READ_MEMORY / CMD_WRITE_MEMORY.
  const MEMTYPE_CHIPINFO: byte := 0x00
  const MEMTYPE_FLASH: byte := 0x01
  const MEMTYPE_EEPROM: byte := 0x02

  /** High byte of a 16-bit value, `(x >> 8) & 0xFF`. */
  function Hi(x: u16): byte { x / 0x100 }

  /** Low byte of a 16-bit value, `x & 0xFF`. */
  function Lo(x: u16): byte { x % 0x100 }

  /** The 16-bit value whose big-endian bytes are `hi`, `lo`. */
  function BigEndian(hi: byte, lo: byte): (r: u16)
    ensures Hi(r) == hi && Lo(r) == lo
  {
    hi * 0x100 + lo
  }

  /** Splitting an address into its two bytes and joining them again is lossless. */
  lemma SplitJoin(x: u16)
    ensures BigEndian(Hi(x), Lo(x)) == x
  {
  }

  /** Truncation of an unbounded integer to `uint16_t`. */
  function Trunc16(x: nat): (r: u16)
    ensures x < 0x1_0000 ==> r == x
  {
    x % 0x1_0000
  }

  /** The remainder of `a` modulo `m` is the `r` below `m` with
      `a == m * k + r`. */
  lemma ModUnique(a: nat, m: nat, k: nat, r: nat)
    requires r < m && a == m * k + r
    ensures a % m == r
  {
    var q, s := a / m, a % m;
    assert a == m * q + s && s < m;
    if q > k {
      MulStep(m, k, q - k);
    } else if q < k {
      MulStep(m, q, k - q);
    }
  }

  /** `m * (k + d)` is at least `m * k + m` once `d` is positive. */
  lemma MulStep(m: nat, k: nat, d: nat)
    requires d >= 1
    ensures m * (k + d) >= m * k + m
  {
    assert m * (k + d) == m * k + m * d;
    assert m * d == m + m * (d - 1);
  }

  /** Dividing `a` by two: the `h` with `a == 2 * h + r`, `r` below two. */
  lemma HalfUnique(a: nat, h: nat, r: nat)
    requires r < 2 && a == 2 * h + r
    ensures a / 2 == h && a % 2 == r
  {
    ModUnique(a, 2, h, r);
  }
}
