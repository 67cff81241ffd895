/**
 Which scans of a progressive compression need a Huffman table: all but the DC refinement scans,
 for which the statistics pass is skipped (jpeg/jcmaster.c, jpeg/jcphuff.c).
 */
module TableNeeds {
  import opened Coefficients
  import opened BlockCoding
  import opened Statistics
  import opened ProgressiveCoding
  import opened ProgressiveEncoder
  import opened ProgressiveDc

  ghost predicate NoSymbols(ts: seq<Token>)
  {
    forall i :: 0 <= i < |ts| ==> ts[i].Raw?
  }

  /** A DC refinement scan sends no symbol. */
  lemma DcRefinementNeedsNone(al: nat, items: seq<Item>)
    ensures NoSymbols(RefineTokens(al, items))
  {
  }

  /** A DC first scan sends one for each block. */
  lemma DcFirstNeedsOne(tbls: seq<nat>, al: nat, items: seq<Item>, last: seq<int>)
    requires ItemsFit(tbls, items, last) && items != []
    ensures Occurs(FirstTokens(tbls, al, items, last), true, tbls[items[0].comp])
    ensures !NoSymbols(FirstTokens(tbls, al, items, last))
  {
    hide Category, FloorShift, Appended;
    var ts := FirstTokens(tbls, al, items, last);
    assert ts[0].Symbol? && ts[0].isDc && ts[0].tbl == tbls[items[0].comp];
  }

  /** Every AC scan, refinement scans included, sends at least one. */
  lemma AcNeedsOne(band: Band, done: seq<seq<Block>>, blocks: seq<Block>)
    requires ValidBand(band) && blocks != []
    ensures Occurs(ClosedTokens(band, done + [blocks]), false, band.tbl)
    ensures !NoSymbols(ClosedTokens(band, done + [blocks]))
  {
    hide IntervalTokens;
    LastUsed(band, done, blocks);
  }
}
