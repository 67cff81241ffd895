/**
 Whole runs of the progressive decoder over a suspending source: the caller repeats a refused MCU
 once more input has arrived. However the input is divided, the blocks are the same.
 */
module ProgressiveRuns {
  import opened JpegLimits
  import opened BitString
  import opened ByteStream
  import opened DerivedTables
  import opened Coefficients
  import opened BlockCoding
  import opened ScanDecoding
  import opened SequentialDecoder
  import opened SequentialRoundTrip
  import opened ProgressiveCoding
  import opened ProgressiveReplay
  import opened ProgressiveDecoding
  import opened ProgressiveDecoder
  import opened ProgressiveEncoder
  import opened ProgressiveScans

  /** Reads one block, trying again whenever more input has arrived, from the k-th arrival on. */
  method ReadPatiently(dec: PhuffDecoder, area: Block, arrivals: seq<nat>, k: nat) returns (ok: bool, block: Block, next: nat)
    requires dec.Valid() && TableFor(dec.table, dec.d) && ShortBlock(area) && k <= |arrivals|
    modifies dec
    ensures dec.Valid() && k <= next <= |arrivals|
    ensures ValidBandAhead(dec.input, old(dec.State())) && ValidBandAhead(dec.input, dec.State())
    ensures var x := NextBand(dec.input, dec.interval, dec.d, dec.band, old(dec.State()), area);
            && (ok ==> x == Some((dec.State(), block)))
            && (dec.avail == |dec.input| && x.Some? && x.value.0.end.Marker? ==> ok)
  {
    hide ValidDecTable, Decodes, NextBand, ValidBandAhead, ShortBlock, dec.State;
    dec.StateIsValid();
    var coefs := new int[|area|](i requires 0 <= i < |area| => area[i]);
    assert coefs[..] == area;
    ghost var x := NextBand(dec.input, dec.interval, dec.d, dec.band, dec.State(), area);
    ok := dec.DecodeMcu(coefs);
    next := k;
    dec.StateIsValid();
    while !ok && next < |arrivals|
      invariant dec.Valid() && TableFor(dec.table, dec.d) && k <= next <= |arrivals|
      invariant fresh(coefs) && coefs.Length == |area| && ShortBlock(coefs[..]) && ValidBandAhead(dec.input, dec.State())
      invariant if ok then x == Some((dec.State(), coefs[..]))
                else NextBand(dec.input, dec.interval, dec.d, dec.band, dec.State(), coefs[..]) == x
      invariant dec.avail == |dec.input| && x.Some? && x.value.0.end.Marker? ==> ok
      decreases |arrivals| - next
    {
      dec.Supply(if dec.avail + arrivals[next] <= |dec.input| then dec.avail + arrivals[next] else |dec.input|);
      next := next + 1;
      ok := dec.DecodeMcu(coefs);
      dec.StateIsValid();
    }
    block := coefs[..];
  }

  lemma OneMore(input: Bytes, interval: nat, d: DecTable, band: Band, a: BandAhead, areas: seq<Block>, a': BandAhead, block: Block)
    requires ValidBandAhead(input, a) && ValidDecTable(d) && band.se < DCTSIZE2 && areas != []
    requires NextBand(input, interval, d, band, a, areas[0]) == Some((a', block))
    ensures ValidBandAhead(input, a')
    ensures DecodeBlocks(input, interval, d, band, a, areas) == [block] + DecodeBlocks(input, interval, d, band, a', areas[1..])
    ensures AllMarked(input, interval, d, band, a, areas) ==> AllMarked(input, interval, d, band, a', areas[1..])
  {
    hide NextBand;
  }

  lemma OneMarked(input: Bytes, interval: nat, d: DecTable, band: Band, a: BandAhead, areas: seq<Block>)
    requires ValidBandAhead(input, a) && ValidDecTable(d) && band.se < DCTSIZE2 && areas != [] && AllMarked(input, interval, d, band, a, areas)
    ensures var x := NextBand(input, interval, d, band, a, areas[0]); x.Some? && x.value.0.end.Marker?
  {
    hide NextBand;
  }

  /**
   Decodes a scan on top of what earlier scans have left in areas; when the source suspends for the
   k-th time, arrivals[k] bytes more arrive and the block is tried again. However the input is
   divided, the blocks are those of one uninterrupted run; and none is missing if all input has
   arrived and markers end its segments.
   */
  method ReadScan(dec: PhuffDecoder, areas: seq<Block>, arrivals: seq<nat>) returns (blocks: seq<Block>)
    requires dec.Valid() && TableFor(dec.table, dec.d) && AllShort(areas)
    modifies dec
    ensures ValidBandAhead(dec.input, old(dec.State()))
    ensures blocks <= DecodeBlocks(dec.input, dec.interval, dec.d, dec.band, old(dec.State()), areas)
    ensures dec.avail == |dec.input| && AllMarked(dec.input, dec.interval, dec.d, dec.band, old(dec.State()), areas) ==> |blocks| == |areas|
  {
    hide ValidDecTable, Decodes, DecodeBlocks, AllMarked, NextBand, ValidBandAhead, ShortBlock, dec.State;
    dec.StateIsValid();
    ghost var marked := AllMarked(dec.input, dec.interval, dec.d, dec.band, dec.State(), areas);
    ghost var all := DecodeBlocks(dec.input, dec.interval, dec.d, dec.band, dec.State(), areas);
    var k := 0;
    blocks := [];
    assert areas[0..] == areas;
    while |blocks| < |areas|
      invariant dec.Valid() && TableFor(dec.table, dec.d) && |blocks| <= |areas| && k <= |arrivals|
      invariant ValidBandAhead(dec.input, dec.State())
      invariant marked ==> AllMarked(dec.input, dec.interval, dec.d, dec.band, dec.State(), areas[|blocks|..])
      invariant all == blocks + DecodeBlocks(dec.input, dec.interval, dec.d, dec.band, dec.State(), areas[|blocks|..])
    {
      ghost var a, left := dec.State(), areas[|blocks|..];
      if marked {
        OneMarked(dec.input, dec.interval, dec.d, dec.band, a, left);
      }
      var ok, block;
      ok, block, k := ReadPatiently(dec, areas[|blocks|], arrivals, k);
      if !ok {
        return;
      }
      OneMore(dec.input, dec.interval, dec.d, dec.band, a, left, dec.State(), block);
      ghost var rest := DecodeBlocks(dec.input, dec.interval, dec.d, dec.band, dec.State(), left[1..]);
      assert blocks + ([block] + rest) == (blocks + [block]) + rest;
      blocks := blocks + [block];
      assert left[1..] == areas[|blocks|..];
    }
  }
}
