/** The table definition that the encoder, the optimizer and the decoder share (JHUFF_TBL, jpeg/jpeglib.h). */
module HuffTables {

  /** bits[l] is the number of codes of length l; huffval lists the symbols in order of code length. */
  class HuffTable {
    var bits: seq<int>
    var huffval: seq<int>
    var sentTable: bool

    constructor (bits: seq<int>, huffval: seq<int>)
      ensures this.bits == bits && this.huffval == huffval && !sentTable
    {
      this.bits, this.huffval, sentTable := bits, huffval, false;
    }
  }
}
