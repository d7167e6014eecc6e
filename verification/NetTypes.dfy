/** Machine-level value types shared by every module. */
module NetTypes {
  const U32_LIMIT: int := 0x1_0000_0000
  const U64_MAX: int := 0xFFFF_FFFF_FFFF_FFFF

  type byte = x: int | 0 <= x < 256
  type u16 = x: int | 0 <= x < 0x1_0000
  type u32 = x: int | 0 <= x < 0x1_0000_0000

  /** An IPv4 address is copied and compared, never interpreted. */
  datatype Ipv4 = Ipv4(a: byte, b: byte, c: byte, d: byte)

  datatype Mac = Mac(a: byte, b: byte, c: byte, d: byte, e: byte, f: byte)

  datatype Option<+T> = None | Some(value: T)

  /** The program converts a `difftime` to `unsigned int`; the conversion is only defined, and
      then exact, for a difference in this range. */
  function ToUnsigned(seconds: int): (r: u32)
    requires 0 <= seconds < U32_LIMIT
  {
    seconds
  }
}
