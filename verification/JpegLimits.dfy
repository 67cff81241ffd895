/** Limits of the format and of the library (jpeg/jpeglib.h, jpeg/jmorecfg.h). */
module JpegLimits {
  const DCTSIZE := 8
  const DCTSIZE2 := 64
  const NUM_HUFF_TBLS := 4
  const MAX_COMPS_IN_SCAN := 4
  const MAX_SAMP_FACTOR := 4
  const MAX_COMPONENTS := 10
  const C_MAX_BLOCKS_IN_MCU := 10
  const JPEG_MAX_DIMENSION := 65500
}
