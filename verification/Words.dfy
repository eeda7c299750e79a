/** The fixed-width unsigned types of the source, as ranges of unbounded numbers. */
module Words {
  type byte = x: nat | x < 256
  type u16 = x: nat | x < 0x1_0000
  type u32 = x: nat | x < 0x1_0000_0000
  type u64 = x: nat | x < 0x1_0000_0000_0000_0000
}
