/** Limits of the format, as `jpeglib.h` has them. */
module JpegLimits {
  /** Coefficients of a block. */
  const DCTSIZE2 := 64
  const MAX_COMPS_IN_SCAN := 4
}
