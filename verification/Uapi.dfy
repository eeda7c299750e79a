/** Constants that the driver and the library share, from `driver/src/uapi/drm/ane_accel.h`. */
module Uapi {
  import opened Words

  const ANE_MAX_TILE_COUNT := 0x61
  const ANE_FIFO_NID: u32 := 0x40
}
