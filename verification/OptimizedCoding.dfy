/**
 Optimised tables never fail: the tables made from the counts of a statistics pass are accepted by
 encoder and decoder, and every symbol of the output pass has a code. ImageRoundTrip
 adds the round trip: a scan coded with its own optimal tables decodes to what went in.
 */
module OptimizedCoding {
  import opened JpegLimits
  import opened Arith
  import opened CodeSpace
  import opened CanonicalCode
  import opened DerivedTables
  import opened Coefficients
  import opened BlockCoding
  import opened ScanCoding
  import opened Statistics
  import OptimalTable

  /** A table for counts is a legal code with each symbol once, so that both derived tables can be made. */
  lemma AcceptedTable(counts: seq<int>, bits: seq<int>, huffval: seq<int>, isDc: bool)
    requires OptimalTable.LegalFor(counts, bits, huffval)
    requires isDc ==> forall s :: 0 <= s < 256 && counts[s] > 0 ==> s <= 15
    ensures Definition(bits, huffval) && LegalLengths(Used(bits)) && Symbols(bits) == Sum(bits) <= 256
    ensures EncodableSymbols(isDc, bits, huffval)
  {
    hide Sum, Filled, Pow2, Count;
    var b := Used(bits);
    assert b == bits;
    CountIsSum(b, MAX_LENGTH);
    assert b[..MAX_LENGTH + 1] == b;
    var longest :| 1 <= longest <= 16 && OptimalTable.LeavesOneCode(bits, longest);
    Pow2Values();
    if isDc {
      forall p | 0 <= p < Symbols(bits)
        ensures huffval[p] <= 15
      {
        assert huffval[..Sum(bits)][p] == huffval[p];
        assert huffval[p] in huffval[..Sum(bits)];
        assert 0 <= huffval[p] < 256;
      }
    }
  }

  /** Every counted symbol has a code of at least one bit. */
  lemma CodedSymbol(counts: seq<int>, bits: seq<int>, huffval: seq<int>, t: Table, s: nat)
    requires OptimalTable.LegalFor(counts, bits, huffval) && s < 256 && counts[s] > 0
    requires |bits| == 17 && Lengths(Used(bits)) && Encodes(Used(bits), huffval, Count0(bits), t.co, t.si)
    ensures |t.si| == 256 && t.si[s] >= 1
  {
    hide Sum, Filled, Pow2, Count, SizeOf;
    AcceptedTable(counts, bits, huffval, false);
    var p :| 0 <= p < Sum(bits) && huffval[..Sum(bits)][p] == s;
    assert t.si[huffval[p]] == SizeOf(Used(bits), p);
  }

  /** Each symbol belongs to a table of the scan. */
  ghost predicate FromScan(scan: Scan, ts: seq<Token>)
  {
    forall i :: 0 <= i < |ts| && ts[i].Symbol? ==> TableOfScan(scan, ts[i].isDc, ts[i].tbl)
  }

  ghost predicate TableOfScan(scan: Scan, isDc: bool, tbl: nat)
  {
    |scan.dcTbl| == |scan.acTbl| && exists c :: 0 <= c < |scan.dcTbl| && tbl == if isDc then scan.dcTbl[c] else scan.acTbl[c]
  }

  lemma {:induction false} McuFromScan(scan: Scan, mcu: Mcu, i: nat, lastDc: seq<int>)
    requires Fits(scan, mcu, lastDc) && i <= |mcu| && RangeFrom(scan, mcu, i, lastDc)
    ensures FromScan(scan, TokensFrom(scan, mcu, i, lastDc)) && Proper(TokensFrom(scan, mcu, i, lastDc))
    decreases |mcu| - i
  {
    hide BlockTokens, BlockInRange;
    if i < |mcu| {
      var c := scan.membership[i];
      BlockOfTables(scan.dcTbl[c], scan.acTbl[c], mcu[i], lastDc[c]);
      McuFromScan(scan, mcu, i + 1, lastDc[c := mcu[i][0]]);
    }
  }

  lemma {:induction false} AllFromScan(scan: Scan, mcus: seq<Mcu>, lastDc: seq<int>, toGo: nat)
    requires FitAll(scan, mcus, lastDc) && RangeAll(scan, mcus, lastDc, toGo)
    ensures FromScan(scan, ScanTokens(scan, mcus, lastDc, toGo)) && Proper(ScanTokens(scan, mcus, lastDc, toGo))
    decreases |mcus|
  {
    hide TokensFrom, RangeFrom, DcAfter;
    if mcus != [] {
      var dc := Predictions(scan, lastDc, toGo);
      McuFromScan(scan, mcus[0], 0, dc);
      AllFromScan(scan, mcus[1..], DcAfter(scan, mcus[0], 0, dc), NextToGo(scan, toGo));
    }
  }

  /** A definition for each table number, as a DHT marker gives it. */
  datatype Defs = Defs(dcBits: seq<seq<int>>, dcVals: seq<seq<int>>, acBits: seq<seq<int>>, acVals: seq<seq<int>>)

  /** The derived tables of the book were made from the definitions. */
  ghost predicate MadeFrom(book: Book, defs: Defs, isDc: bool, tbl: nat)
    requires ValidBook(book) && tbl < NUM_HUFF_TBLS
    requires |defs.dcBits| == |defs.dcVals| == |defs.acBits| == |defs.acVals| == NUM_HUFF_TBLS
  {
    var bits, vals := if isDc then defs.dcBits[tbl] else defs.acBits[tbl], if isDc then defs.dcVals[tbl] else defs.acVals[tbl];
    var t := TableOf(book, isDc, tbl);
    |bits| == 17 && Lengths(Used(bits)) && Encodes(Used(bits), vals, Count0(bits), t.co, t.si)
  }

  /** The definitions are what the statistics pass has made of the tokens. */
  ghost predicate OptimalFor(ts: seq<Token>, defs: Defs, isDc: bool, tbl: nat)
    requires tbl < NUM_HUFF_TBLS
    requires |defs.dcBits| == |defs.dcVals| == |defs.acBits| == |defs.acVals| == NUM_HUFF_TBLS
  {
    OptimalTable.LegalFor(Tally(Zeros(COUNTERS), ts, isDc, tbl)[..256],
                          if isDc then defs.dcBits[tbl] else defs.acBits[tbl], if isDc then defs.dcVals[tbl] else defs.acVals[tbl])
  }

  lemma CountedTokenCoded(book: Book, defs: Defs, ts: seq<Token>, i: nat)
    requires ValidBook(book) && Proper(ts) && i < |ts|
    requires |defs.dcBits| == |defs.dcVals| == |defs.acBits| == |defs.acVals| == NUM_HUFF_TBLS
    requires ts[i].Symbol? ==> ts[i].tbl < NUM_HUFF_TBLS && MadeFrom(book, defs, ts[i].isDc, ts[i].tbl) && OptimalFor(ts, defs, ts[i].isDc, ts[i].tbl)
    ensures Coded(book, ts[i])
  {
    hide Encodes, OptimalTable.LegalFor, Count, ValidTable, Tally;
    match ts[i] {
      case Symbol(isDc, tbl, s) =>
        TallyCounts(Zeros(COUNTERS), ts, isDc, tbl, s);
        assert ts[i] in ts;
        var bits, vals := if isDc then defs.dcBits[tbl] else defs.acBits[tbl], if isDc then defs.dcVals[tbl] else defs.acVals[tbl];
        CodedSymbol(Tally(Zeros(COUNTERS), ts, isDc, tbl)[..256], bits, vals, TableOf(book, isDc, tbl), s);
      case Raw(_, _) =>
    }
  }

  /**
   If the statistics pass found all coefficients in range, then with the tables made from its
   counts the output pass never meets a symbol without a code.
   */
  lemma OptimisedTablesNeverFail(book: Book, scan: Scan, mcus: seq<Mcu>, defs: Defs, ts: seq<Token>)
    requires ValidBook(book) && FitAll(scan, mcus, Zeros(|scan.dcTbl|))
    requires RangeAll(scan, mcus, Zeros(|scan.dcTbl|), scan.restartInterval)
    requires ts == ScanTokens(scan, mcus, Zeros(|scan.dcTbl|), scan.restartInterval)
    requires |defs.dcBits| == |defs.dcVals| == |defs.acBits| == |defs.acVals| == NUM_HUFF_TBLS
    requires forall c :: 0 <= c < |scan.dcTbl| ==> MadeFrom(book, defs, true, scan.dcTbl[c]) && MadeFrom(book, defs, false, scan.acTbl[c])
    requires forall c :: 0 <= c < |scan.dcTbl| ==> OptimalFor(ts, defs, true, scan.dcTbl[c]) && OptimalFor(ts, defs, false, scan.acTbl[c])
    ensures AllEncodable(book, scan, Start(scan), mcus)
  {
    hide MadeFrom, OptimalFor, RangeAll, ScanTokens, AllEncodable, Coded, Proper, ValidBook;
    AllFromScan(scan, mcus, Zeros(|scan.dcTbl|), scan.restartInterval);
    forall i | 0 <= i < |ts|
      ensures Coded(book, ts[i])
    {
      CountedTokenCoded(book, defs, ts, i);
    }
    PassesAgree(book, scan, Start(scan), mcus);
  }

  // ----- Every table of the scan gets counts -----

  lemma {:induction false} AcNotEmpty(acTbl: nat, block: Block, k: nat, r: nat)
    requires 1 <= k <= DCTSIZE2 && (k == DCTSIZE2 ==> r > 0)
    ensures AcTokens(acTbl, block, k, r) != [] && AcTokens(acTbl, block, k, r)[0].Symbol?
    ensures AcTokens(acTbl, block, k, r)[0].tbl == acTbl && !AcTokens(acTbl, block, k, r)[0].isDc
    decreases DCTSIZE2 - k
  {
    hide Natural, Category, AcTokens;
    AcLast(acTbl, block, r);
    if k < DCTSIZE2 {
      if block[Natural(k)] == 0 {
        AcZero(acTbl, block, k, r);
        AcNotEmpty(acTbl, block, k + 1, r + 1);
      } else if r > 15 {
        AcLong(acTbl, block, k, r);
      } else {
        AcShort(acTbl, block, k, r);
      }
    }
  }

  lemma OccursWithin(a: seq<Token>, b: seq<Token>, c: seq<Token>, isDc: bool, tbl: nat)
    requires Occurs(b, isDc, tbl)
    ensures Occurs(a + b + c, isDc, tbl)
  {
    var i :| 0 <= i < |b| && b[i].Symbol? && b[i].isDc == isDc && b[i].tbl == tbl;
    assert (a + b + c)[|a| + i] == b[i];
  }

  lemma BlockUses(dcTbl: nat, acTbl: nat, block: Block, lastDc: int)
    ensures Occurs(BlockTokens(dcTbl, acTbl, block, lastDc), true, dcTbl)
    ensures Occurs(BlockTokens(dcTbl, acTbl, block, lastDc), false, acTbl)
  {
    hide AcTokens, Category;
    var dc, ac := DcTokens(dcTbl, block[0] - lastDc), AcTokens(acTbl, block, 1, 0);
    AcNotEmpty(acTbl, block, 1, 0);
    assert dc[0] == Symbol(true, dcTbl, Category(Abs(block[0] - lastDc)));
    OccursWithin([], dc, ac, true, dcTbl);
    OccursWithin(dc, ac, [], false, acTbl);
    assert [] + dc + ac == dc + ac + [] == dc + ac;
  }

  lemma {:induction false} McuUses(scan: Scan, mcu: Mcu, i: nat, lastDc: seq<int>, j: nat)
    requires Fits(scan, mcu, lastDc) && i <= j < |mcu|
    ensures Occurs(TokensFrom(scan, mcu, i, lastDc), true, scan.dcTbl[scan.membership[j]])
    ensures Occurs(TokensFrom(scan, mcu, i, lastDc), false, scan.acTbl[scan.membership[j]])
    decreases |mcu| - i
  {
    hide BlockTokens, Occurs;
    var c, d := scan.membership[i], scan.membership[j];
    var head, tail := BlockTokens(scan.dcTbl[c], scan.acTbl[c], mcu[i], lastDc[c]), TokensFrom(scan, mcu, i + 1, lastDc[c := mcu[i][0]]);
    assert [] + head + tail == head + tail + [] == head + tail;
    if i == j {
      BlockUses(scan.dcTbl[c], scan.acTbl[c], mcu[i], lastDc[c]);
      OccursWithin([], head, tail, true, scan.dcTbl[c]);
      OccursWithin([], head, tail, false, scan.acTbl[c]);
    } else {
      McuUses(scan, mcu, i + 1, lastDc[c := mcu[i][0]], j);
      OccursWithin(head, tail, [], true, scan.dcTbl[d]);
      OccursWithin(head, tail, [], false, scan.acTbl[d]);
    }
  }

  /** A scan of at least one MCU, in which each component has a block, uses all its tables. */
  lemma EveryTableUsed(scan: Scan, mcus: seq<Mcu>, lastDc: seq<int>, toGo: nat)
    requires FitAll(scan, mcus, lastDc) && mcus != []
    requires forall c :: 0 <= c < |scan.dcTbl| ==> c in scan.membership
    ensures AllUsed(scan, ScanTokens(scan, mcus, lastDc, toGo))
  {
    hide TokensFrom, DcAfter, Occurs;
    var dc := Predictions(scan, lastDc, toGo);
    var head, tail := TokensFrom(scan, mcus[0], 0, dc), ScanTokens(scan, mcus[1..], DcAfter(scan, mcus[0], 0, dc), NextToGo(scan, toGo));
    assert [] + head + tail == head + tail;
    forall c | 0 <= c < |scan.dcTbl|
      ensures Occurs(head + tail, true, scan.dcTbl[c]) && Occurs(head + tail, false, scan.acTbl[c])
    {
      assert c in scan.membership;
      var j :| 0 <= j < |scan.membership| && scan.membership[j] == c;
      McuUses(scan, mcus[0], 0, dc, j);
      OccursWithin([], head, tail, true, scan.dcTbl[c]);
      OccursWithin([], head, tail, false, scan.acTbl[c]);
    }
  }
}
