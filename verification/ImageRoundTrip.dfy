/**
 From DCT blocks to the file and back: the coefficient controller, the statistics pass, the generated
 tables, the output pass and the decoder taken together.
 */
module ImageRoundTrip {
  import opened JpegLimits
  import opened BitWriter
  import opened BlockCoding
  import opened ByteStream
  import opened FrameGeometry
  import opened McuOrder
  import opened CoefController
  import opened OptimizedCoding
  import opened ScanCoding
  import opened ScanDecoding
  import opened SequentialRoundTrip
  import opened Statistics

  /** Coefficients are 16-bit numbers. */
  ghost predicate ShortTransform(dct: Transform)
  {
    forall ci: nat, r: nat, y: nat, x: nat :: Short(dct(ci, r, y, x)[0])
  }

  lemma {:induction false} PaddedShort(p: Layout, dct: Transform, ci: nat, r: nat, y: nat, x: nat)
    requires ValidLayout(p) && ci < |p.comps| && ShortTransform(dct)
    ensures Short(Padded(p, dct, ci, r, y, x)[0])
    decreases y
  {
    if y >= RealRows(p, ci, r) {
      PaddedShort(p, dct, ci, r, y - 1, x / p.comps[ci].h * p.comps[ci].h + p.comps[ci].h - 1);
    }
  }

  lemma {:induction false} RowsHold(p: Layout, scan: seq<nat>, r: nat, n: nat)
    requires ScanOf(p, scan)
    ensures forall i :: 0 <= i < |McuRowsOf(p, scan, r, n)| ==> |McuRowsOf(p, scan, r, n)[i]| == BlocksIn(p, scan, |scan|)
  {
    hide McuSpots, McusPerRow, BlocksIn;
    if n > 0 {
      RowsHold(p, scan, r, n - 1);
      var row := RowOfMcus(p, scan, r, n - 1, McusPerRow(p, scan));
      forall m | 0 <= m < |row|
        ensures |row[m]| == BlocksIn(p, scan, |scan|)
      {
        McuSize(p, scan, r, n - 1, m, |scan|);
      }
    }
  }

  lemma {:induction false} IRowsHold(p: Layout, scan: seq<nat>, n: nat)
    requires ScanOf(p, scan)
    ensures forall i :: 0 <= i < |IMcuRowsOf(p, scan, n)| ==> |IMcuRowsOf(p, scan, n)[i]| == BlocksIn(p, scan, |scan|)
  {
    hide McuRowsOf, McuRows, BlocksIn;
    if n > 0 {
      IRowsHold(p, scan, n - 1);
      RowsHold(p, scan, n - 1, McuRows(p, scan, n - 1));
    }
  }

  /** Every MCU that the coefficient controller presents has the blocks that the entropy coder expects, with 16-bit DC values. */
  lemma PresentedFit(p: Layout, dct: Transform, comps: seq<nat>)
    requires ScanOf(p, comps) && ShortTransform(dct)
    ensures var mcus := ScanMcus(p, dct, comps);
            forall i :: 0 <= i < |mcus| ==> |mcus[i]| == |Membership(p, comps, |comps|)| && ShortMcu(mcus[i])
  {
    hide IMcuRowsOf, BlocksIn, Membership, Padded, ShortTransform;
    IRowsHold(p, comps, p.down);
    var mcus := ScanMcus(p, dct, comps);
    forall i | 0 <= i < |mcus|
      ensures ShortMcu(mcus[i])
    {
      forall k | 0 <= k < |mcus[i]|
        ensures Short(mcus[i][k][0])
      {
        var s := IMcuRowsOf(p, comps, p.down)[i][k];
        PaddedShort(p, dct, if s.ci < |p.comps| then s.ci else 0, s.r, s.y, s.x);
      }
    }
  }

  /** The statistics pass has found all coefficients in range. */
  ghost predicate Gathered(scan: Scan, mcus: seq<Mcu>, ts: seq<Token>)
  {
    && FitAll(scan, mcus, Zeros(|scan.dcTbl|)) && RangeAll(scan, mcus, Zeros(|scan.dcTbl|), scan.restartInterval)
    && ts == ScanTokens(scan, mcus, Zeros(|scan.dcTbl|), scan.restartInterval)
  }

  /** The tables of the scan have been made from the statistics. */
  ghost predicate Optimised(book: Book, scan: Scan, defs: Defs, ts: seq<Token>)
    requires ValidBook(book) && ValidScan(scan)
  {
    && |defs.dcBits| == |defs.dcVals| == |defs.acBits| == |defs.acVals| == NUM_HUFF_TBLS
    && forall c :: 0 <= c < |scan.dcTbl| ==>
         && MadeFrom(book, defs, true, scan.dcTbl[c]) && MadeFrom(book, defs, false, scan.acTbl[c])
         && OptimalFor(ts, defs, true, scan.dcTbl[c]) && OptimalFor(ts, defs, false, scan.acTbl[c])
  }

  /**
   A scan of any image, with its own optimal tables, any restart interval and however many passes:
   the output pass does not fail, and the decoder gets back every block of every MCU, dummy blocks
   included, in the order in which the coefficient controller has presented them.
   */
  lemma ImageComesBack(p: Layout, dct: Transform, comps: seq<nat>, scan: Scan, book: Book, defs: Defs, ts: seq<Token>, d: Setup,
                       tail: Bytes)
    requires ScanOf(p, comps) && ShortTransform(dct) && ValidScan(scan)
    requires scan.membership == Membership(p, comps, |comps|)
    requires Gathered(scan, ScanMcus(p, dct, comps), ts)
    requires SameTables(book, scan, d) && Optimised(book, scan, defs, ts)
    requires forall c :: 0 <= c < |scan.dcTbl| ==> d.dcNeeded[c] && d.acNeeded[c]
    requires MarkerFirst(tail)
    ensures AllEncodable(book, scan, Start(scan), ScanMcus(p, dct, comps))
    ensures var input := Flushed(AfterAll(book, scan, Start(scan), ScanMcus(p, dct, comps))) + tail;
            DecodeAll(input, scan, d, FirstAhead(input, scan), |ScanMcus(p, dct, comps)|) == ScanMcus(p, dct, comps)
  {
    hide ScanMcus, RangeAll, ScanTokens, AllEncodable, AfterAll, DecodeAll, MadeFrom, OptimalFor, ShortMcu, ValidLayout, Membership, Marked;
    hide SameCode, ValidDecTable, Wanted;
    var mcus := ScanMcus(p, dct, comps);
    PresentedFit(p, dct, comps);
    OptimisedTablesNeverFail(book, scan, mcus, defs, ts);
    ScanRoundTrip(book, scan, d, mcus, tail);
    AllOfThem(scan, d, mcus);
  }

  /** When everything is wanted, what is wanted of the MCUs is the MCUs. */
  lemma AllOfThem(scan: Scan, d: Setup, mcus: seq<Mcu>)
    requires ValidSetup(scan, d) && ValidScan(scan) && forall i :: 0 <= i < |mcus| ==> |mcus[i]| == |scan.membership|
    requires forall c :: 0 <= c < |scan.dcTbl| ==> d.dcNeeded[c] && d.acNeeded[c]
    ensures AllWanted(scan, d, mcus) == mcus
  {
    hide WantedBlock, ValidDecTable;
    forall i | 0 <= i < |mcus|
      ensures Wanted(scan, d, mcus[i]) == mcus[i]
    {
      assert forall k :: 0 <= k < |mcus[i]| ==> Wanted(scan, d, mcus[i])[k] == mcus[i][k];
    }
  }
}
