/** Machine-level vocabulary of the firmware: bytes, 32-bit unsigned
    timestamps, nibble access and the optional values the driver uses. */
module Wire {

  /** `uint8_t` */
  type byte = x: int | 0 <= x < 256

  /** `uint32_t`, the type of `millis()` timestamps */
  type uint32 = x: int | 0 <= x < 0x1_0000_0000

  datatype Option<T> = None | Some(value: T) {
    /** The carried value, or `default` when there is none */
    function GetOr(default: T): T {
      match this
      case Some(v) => v
      case None => default
    }
  }

  /** `b & 0xF0`: the high nibble, kept in place */
  function HighNibble(b: byte): (r: byte)
    ensures r % 16 == 0 && r <= b < r + 16
  {
    b - b % 16
  }

  /** `b & 0x0F`: the low nibble */
  function LowNibble(b: byte): (r: byte)
    ensures r < 16 && HighNibble(b) + r == b
  {
    b % 16
  }

  /** `hi | lo` for a high-nibble value and a low-nibble value: their bits
      are disjoint, so the OR is their sum, and each nibble can be read back. */
  function Pack(hi: byte, lo: byte): (r: byte)
    requires hi % 16 == 0 && lo < 16
    ensures HighNibble(r) == hi && LowNibble(r) == lo
  {
    hi + lo
  }

  /** `static_cast<int8_t>(b)`: the two's-complement reading of a byte */
  function SignedByte(b: byte): (r: int)
    ensures -128 <= r < 128
    ensures (r - b) % 256 == 0
  {
    if b < 128 then b else b - 256
  }

  /** `now - last` computed on `uint32_t`, which wraps modulo 2^32 */
  function Elapsed(now: uint32, last: uint32): (r: uint32)
    ensures now >= last ==> r == now - last
    ensures now < last ==> r == now - last + 0x1_0000_0000
  {
    (now - last) % 0x1_0000_0000
  }
}
