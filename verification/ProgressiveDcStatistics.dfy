/**
 The statistics pass of a first DC scan of progressive coding (jpeg/jcphuff.c): the symbols counted
 are those that the output pass will send, so that the tables made from the counts do not fail it.
 */
module ProgressiveDcStatistics {
  import opened JpegLimits
  import opened Arith
  import opened CanonicalCode
  import opened DerivedTables
  import opened Coefficients
  import opened BlockCoding
  import opened ScanCoding
  import opened Statistics
  import opened OptimizedCoding
  import opened BitWriter
  import opened ProgressiveDc
  import opened SequentialEncoder
  import opened HuffTables
  import HuffmanMerge
  import OptimalTable

  ghost predicate IntervalOk(tbls: seq<nat>, al: nat, items: seq<Item>)
  {
    ItemsFit(tbls, items, Zeros(|tbls|)) && DcInRange(tbls, al, items, Zeros(|tbls|))
  }

  ghost predicate IntervalsOk(tbls: seq<nat>, al: nat, done: seq<seq<Item>>)
  {
    forall i :: 0 <= i < |done| ==> IntervalOk(tbls, al, done[i])
  }

  /** The tokens of some restart intervals. */
  ghost function IntervalsTokens(tbls: seq<nat>, al: nat, done: seq<seq<Item>>): seq<Token>
    requires IntervalsOk(tbls, al, done)
  {
    if done == [] then []
    else IntervalsTokens(tbls, al, done[..|done| - 1]) + FirstTokens(tbls, al, done[|done| - 1], Zeros(|tbls|))
  }

  lemma IntervalClosed(tbls: seq<nat>, al: nat, done: seq<seq<Item>>, items: seq<Item>)
    requires IntervalsOk(tbls, al, done) && IntervalOk(tbls, al, items)
    ensures IntervalsOk(tbls, al, done + [items])
    ensures IntervalsTokens(tbls, al, done + [items]) == IntervalsTokens(tbls, al, done) + FirstTokens(tbls, al, items, Zeros(|tbls|))
  {
    hide IntervalOk, FirstTokens;
    assert (done + [items])[..|done|] == done;
  }

  /** The symbols are those of in-range differences, of the scan's DC tables. */
  ghost predicate OfDcTables(tbls: seq<nat>, ts: seq<Token>)
  {
    forall i :: 0 <= i < |ts| ==>
      match ts[i]
      case Symbol(isDc, tbl, s) => isDc && tbl in tbls && s <= MAX_COEF_BITS + 1
      case Raw(_, size) => 1 <= size <= 16
  }

  lemma {:induction false} FirstOfTables(tbls: seq<nat>, al: nat, items: seq<Item>, last: seq<int>)
    requires ItemsFit(tbls, items, last) && DcInRange(tbls, al, items, last)
    ensures OfDcTables(tbls, FirstTokens(tbls, al, items, last))
    decreases |items|
  {
    hide FloorShift, Category;
    if items != [] {
      var c, v := items[0].comp, FloorShift(items[0].dc, al);
      CategoryZero(v - last[c]);
      FirstOfTables(tbls, al, items[1..], last[c := v]);
    }
  }

  lemma {:induction false} IntervalsOfTables(tbls: seq<nat>, al: nat, done: seq<seq<Item>>)
    requires IntervalsOk(tbls, al, done)
    ensures OfDcTables(tbls, IntervalsTokens(tbls, al, done)) && Proper(IntervalsTokens(tbls, al, done))
  {
    hide FirstTokens;
    if done != [] {
      IntervalsOfTables(tbls, al, done[..|done| - 1]);
      FirstOfTables(tbls, al, done[|done| - 1], Zeros(|tbls|));
    }
  }

  /** The encoder in the statistics pass of a DC scan: a set of counters for each table. */
  class DcGatherer {
    const scan: Scan
    const al: nat
    const counts: seq<array<int>>
    var lastDc: seq<int>
    var restartsToGo: nat
    ghost var done: seq<seq<Item>>
    ghost var items: seq<Item>

    /** start_pass_phuff for a DC statistics pass, given cleared counters. */
    constructor (scan: Scan, al: nat, counts: seq<array<int>>)
      requires ValidScan(scan) && CountersFor(counts)
      requires forall i :: 0 <= i < NUM_HUFF_TBLS ==> counts[i][..] == Zeros(COUNTERS)
      ensures Valid() && this.scan == scan && this.al == al && this.counts == counts
      ensures done == [] && items == [] && restartsToGo == scan.restartInterval
    {
      this.scan, this.al, this.counts := scan, al, counts;
      lastDc, restartsToGo := Zeros(|scan.dcTbl|), scan.restartInterval;
      done, items := [], [];
    }

    /** All tokens so far. */
    ghost function Tokens(): seq<Token>
      requires IntervalsOk(scan.dcTbl, al, done) && IntervalOk(scan.dcTbl, al, items)
      reads this
    {
      IntervalsTokens(scan.dcTbl, al, done) + FirstTokens(scan.dcTbl, al, items, Zeros(|scan.dcTbl|))
    }

    /** Each counter tells how often its symbol has occurred. */
    ghost predicate Valid()
      reads this, counts
    {
      && ValidScan(scan) && CountersFor(counts)
      && IntervalsOk(scan.dcTbl, al, done) && IntervalOk(scan.dcTbl, al, items)
      && lastDc == LastAfter(scan.dcTbl, al, items, Zeros(|scan.dcTbl|))
      && forall i :: 0 <= i < NUM_HUFF_TBLS ==> Tallied(counts[i][..], Tokens(), true, i)
    }

    /** One block of component ci: counts the symbol of its difference, if that is in range. */
    method EncodeFirst(ci: nat, dc: int) returns (ok: bool)
      requires Valid() && ci < |scan.dcTbl|
      modifies this`lastDc, this`items, counts
      ensures ok <==> IntervalOk(scan.dcTbl, al, old(items) + [Item(ci, dc)])
      ensures ok ==> Valid() && items == old(items) + [Item(ci, dc)]
    {
      hide DcTokens, FloorShift, Category, Tally, FirstTokens, LastAfter, DcInRange;
      ghost var item, zero, tbl, ts := Item(ci, dc), Zeros(|scan.dcTbl|), scan.dcTbl[ci], Tokens();
      FirstAppend(scan.dcTbl, al, items, [item], zero);
      OneItem(scan.dcTbl, al, item, lastDc);
      var temp2 := ArithmeticShift(dc, al);
      var temp := temp2 - lastDc[ci];
      ghost var more := DcTokens(tbl, temp);
      lastDc := lastDc[ci := temp2];
      if temp < 0 {
        temp := 0 - temp;
      }
      var nbits := CountBits(temp);
      if nbits > MAX_COEF_BITS + 1 {
        return false;
      }
      var count := counts[scan.dcTbl[ci]];
      count[nbits] := count[nbits] + 1;
      items := items + [item];
      assert Tokens() == ts + more;
      forall i | 0 <= i < NUM_HUFF_TBLS
        ensures Tallied(counts[i][..], ts + more, true, i)
      {
        TallyAppend(Zeros(COUNTERS), ts, more, true, i);
        TallyDc(old(counts[i][..]), tbl, temp2 - old(lastDc)[ci], true, i);
      }
      ok := true;
    }

    predicate Due()
      reads this
    {
      RestartDue(scan, restartsToGo)
    }

    /** encode_mcu_DC_first in a statistics pass. */
    method EncodeMcu(mcu: Mcu) returns (ok: bool)
      requires Valid() && |mcu| == |scan.membership|
      modifies this, counts
      ensures ok <==> IntervalOk(scan.dcTbl, al, (if old(Due()) then [] else old(items)) + ItemsOf(scan, mcu))
      ensures ok ==> Valid() && items == (if old(Due()) then [] else old(items)) + ItemsOf(scan, mcu)
      ensures ok ==> done == if old(Due()) then old(done) + [old(items)] else old(done)
      ensures ok ==> restartsToGo == NextToGo(scan, old(restartsToGo))
    {
      hide FirstTokens, LastAfter, IntervalOk, Tallied;
      if scan.restartInterval != 0 {
        if restartsToGo == 0 {
          BeginInterval();
        }
      }
      ghost var before := items;
      assert before + ItemsOf(scan, mcu)[..0] == before;
      for blkn := 0 to |mcu|
        invariant Valid() && items == before + ItemsOf(scan, mcu)[..blkn]
        invariant restartsToGo == old(restartsToGo)
        invariant done == if old(Due()) then old(done) + [old(items)] else old(done)
      {
        ghost var item := Item(scan.membership[blkn], mcu[blkn][0]);
        assert ItemsOf(scan, mcu)[..blkn + 1] == ItemsOf(scan, mcu)[..blkn] + [item];
        assert (before + ItemsOf(scan, mcu))[..|before| + blkn + 1] == items + [item];
        OkSoFar(scan.dcTbl, al, before + ItemsOf(scan, mcu), |before| + blkn + 1);
        ok := EncodeFirst(scan.membership[blkn], mcu[blkn][0]);
        if !ok {
          return;
        }
      }
      assert ItemsOf(scan, mcu)[..|mcu|] == ItemsOf(scan, mcu);
      if scan.restartInterval != 0 {
        if restartsToGo == 0 {
          restartsToGo := scan.restartInterval;
        }
        restartsToGo := restartsToGo - 1;
      }
      ok := true;
    }

    /** emit_restart: nothing is written, but predictions start again from zero. */
    method BeginInterval()
      requires Valid()
      modifies this`lastDc, this`done, this`items
      ensures Valid() && items == [] && done == old(done) + [old(items)]
    {
      hide Tallied;
      IntervalClosed(scan.dcTbl, al, done, items);
      ghost var ts := Tokens();
      lastDc, done, items := Zeros(|lastDc|), done + [items], [];
      assert Tokens() == ts;
    }

    /** finish_pass_gather_phuff for a DC scan: one optimal table for each set of counters in use. */
    method FinishPassGather(tables: seq<HuffTable>) returns (ok: bool)
      requires Valid() && |Tokens()| <= HuffmanMerge.SEARCH_LIMIT
      requires forall c :: 0 <= c < |scan.dcTbl| ==> Occurs(Tokens(), true, scan.dcTbl[c])
      requires TablesApart(tables)
      modifies counts, tables
      ensures |Tokens()| + 1 < FIB_35 ==> ok
      ensures ok ==> forall c :: 0 <= c < |scan.dcTbl| ==> TableFor(Tokens(), true, scan.dcTbl[c], tables[scan.dcTbl[c]])
    {
      hide Tally, TableFor, HalfDone, Tallied, Occurs, Fib, IntervalsTokens, FirstTokens;
      ghost var ts := Tokens();
      IntervalClosed(scan.dcTbl, al, done, items);
      IntervalsOfTables(scan.dcTbl, al, done + [items]);
      var did := seq(NUM_HUFF_TBLS, _ => false);
      NoneDone(ts, true, tables, counts, did);
      ok := true;
      for ci := 0 to |scan.dcTbl|
        invariant |did| == NUM_HUFF_TBLS && ok && HalfDone(ts, true, tables, counts, did)
        invariant forall c :: 0 <= c < ci ==> scan.dcTbl[c] < NUM_HUFF_TBLS && did[scan.dcTbl[c]]
      {
        TablesInRange(scan, ci);
        ok, did := FinishOne(ts, true, scan.dcTbl[ci], tables, counts, did);
        if !ok {
          return;
        }
      }
      AllMade(scan.dcTbl, ts, tables, counts, did);
    }
  }

  ghost predicate CountersFor(counts: seq<array<int>>)
  {
    && |counts| == NUM_HUFF_TBLS
    && (forall i :: 0 <= i < NUM_HUFF_TBLS ==> counts[i].Length == COUNTERS)
    && forall i, j :: 0 <= i < j < NUM_HUFF_TBLS ==> counts[i] != counts[j]
  }

  ghost predicate TablesApart(tables: seq<HuffTable>)
    reads tables
  {
    && |tables| == NUM_HUFF_TBLS
    && (forall i, j :: 0 <= i < j < NUM_HUFF_TBLS ==> tables[i] != tables[j])
    && forall i :: 0 <= i < NUM_HUFF_TBLS ==> |tables[i].huffval| == 256 && OptimalTable.Bytes(tables[i].huffval)
  }

  lemma AllMade(tbls: seq<nat>, ts: seq<Token>, tables: seq<HuffTable>, counts: seq<array<int>>, did: seq<bool>)
    requires HalfDone(ts, true, tables, counts, did)
    requires forall c :: 0 <= c < |tbls| ==> tbls[c] < NUM_HUFF_TBLS && did[tbls[c]]
    ensures forall c :: 0 <= c < |tbls| ==> TableFor(ts, true, tbls[c], tables[tbls[c]])
  {
    hide TableFor, Tallied;
  }

  /** An interval is in range as far as it has come if it is in range as a whole. */
  lemma OkSoFar(tbls: seq<nat>, al: nat, items: seq<Item>, n: nat)
    requires n <= |items|
    ensures IntervalOk(tbls, al, items) ==> IntervalOk(tbls, al, items[..n])
  {
    hide FirstTokens, LastAfter, DcInRange;
    assert items == items[..n] + items[n..];
    if IntervalOk(tbls, al, items) {
      FirstAppend(tbls, al, items[..n], items[n..], Zeros(|tbls|));
    }
  }

  lemma {:induction false} InIntervals(tbls: seq<nat>, al: nat, done: seq<seq<Item>>, i: nat, t: Token)
    requires IntervalsOk(tbls, al, done) && i < |done| && t in FirstTokens(tbls, al, done[i], Zeros(|tbls|))
    ensures t in IntervalsTokens(tbls, al, done)
  {
    hide FirstTokens, IntervalOk;
    if i < |done| - 1 {
      InIntervals(tbls, al, done[..|done| - 1], i, t);
    }
  }

  /**
   With the tables made from the counts of a statistics pass over the same intervals, the output
   pass never meets a symbol without a code, neither in a finished interval nor on the way.
   */
  lemma DcTablesNeverFail(book: Book, defs: Defs, tbls: seq<nat>, al: nat, done: seq<seq<Item>>, ts: seq<Token>, i: nat, n: nat)
    requires ValidBook(book) && IntervalsOk(tbls, al, done) && ts == IntervalsTokens(tbls, al, done)
    requires |defs.dcBits| == |defs.dcVals| == |defs.acBits| == |defs.acVals| == NUM_HUFF_TBLS
    requires forall c :: 0 <= c < |tbls| ==> tbls[c] < NUM_HUFF_TBLS && MadeFrom(book, defs, true, tbls[c]) && OptimalFor(ts, defs, true, tbls[c])
    requires i < |done| && n <= |done[i]|
    ensures IntervalOk(tbls, al, done[i][..n]) && AllCoded(book, FirstTokens(tbls, al, done[i][..n], Zeros(|tbls|)))
  {
    hide MadeFrom, OptimalFor, FirstTokens, LastAfter, DcInRange, ValidBook, Proper, Coded;
    IntervalsOfTables(tbls, al, done);
    OkSoFar(tbls, al, done[i], n);
    assert done[i] == done[i][..n] + done[i][n..];
    FirstAppend(tbls, al, done[i][..n], done[i][n..], Zeros(|tbls|));
    var part := FirstTokens(tbls, al, done[i][..n], Zeros(|tbls|));
    forall j | 0 <= j < |part|
      ensures Coded(book, part[j])
    {
      InIntervals(tbls, al, done, i, part[j]);
      var k :| 0 <= k < |ts| && ts[k] == part[j];
      CountedTokenCoded(book, defs, ts, k);
    }
  }

  // ----- Both passes over the same MCUs -----

  /** Where the restart intervals are cut: the finished ones, the one at hand, and the MCUs left in it. */
  datatype Cut = Cut(done: seq<seq<Item>>, items: seq<Item>, toGo: nat)

  function CutAfter(scan: Scan, mcus: seq<Mcu>): (c: Cut)
    requires forall i :: 0 <= i < |mcus| ==> |mcus[i]| == |scan.membership|
  {
    if mcus == [] then Cut([], [], scan.restartInterval)
    else
      var c, items := CutAfter(scan, mcus[..|mcus| - 1]), ItemsOf(scan, mcus[|mcus| - 1]);
      if RestartDue(scan, c.toGo) then Cut(c.done + [c.items], items, NextToGo(scan, c.toGo))
      else Cut(c.done, c.items + items, NextToGo(scan, c.toGo))
  }

  lemma CutNext(scan: Scan, mcus: seq<Mcu>, n: nat)
    requires n < |mcus| && forall i :: 0 <= i < |mcus| ==> |mcus[i]| == |scan.membership|
    ensures var c, items := CutAfter(scan, mcus[..n]), ItemsOf(scan, mcus[n]);
            var due := RestartDue(scan, c.toGo);
            CutAfter(scan, mcus[..n + 1])
            == Cut(if due then c.done + [c.items] else c.done, (if due then [] else c.items) + items, NextToGo(scan, c.toGo))
  {
    assert mcus[..n + 1][..n] == mcus[..n];
    var items := ItemsOf(scan, mcus[n]);
    assert [] + items == items;
  }

  lemma NoneCut(scan: Scan, mcus: seq<Mcu>)
    requires mcus == []
    ensures CutAfter(scan, mcus) == Cut([], [], scan.restartInterval)
  {
  }

  function Intervals(c: Cut): seq<seq<Item>>
  {
    c.done + [c.items]
  }

  /** What has been cut after some of the MCUs is the beginning of what will have been cut after all. */
  lemma {:induction false} CutGrows(scan: Scan, mcus: seq<Mcu>, n: nat)
    requires n <= |mcus| && forall i :: 0 <= i < |mcus| ==> |mcus[i]| == |scan.membership|
    ensures var part, all := CutAfter(scan, mcus[..n]), Intervals(CutAfter(scan, mcus));
            part.done <= all && |part.done| < |all| && part.items <= all[|part.done|]
    decreases |mcus|
  {
    if n < |mcus| {
      var but := mcus[..|mcus| - 1];
      assert but[..n] == mcus[..n];
      CutGrows(scan, but, n);
    } else {
      assert mcus[..n] == mcus;
    }
  }

  /** The statistics pass: it succeeds exactly if all differences are in range. */
  method GatherPass(g: DcGatherer, mcus: seq<Mcu>) returns (ok: bool)
    requires g.Valid() && g.done == [] && g.items == [] && g.restartsToGo == g.scan.restartInterval
    requires forall i :: 0 <= i < |mcus| ==> |mcus[i]| == |g.scan.membership|
    modifies g, g.counts
    ensures ok <==> IntervalsOk(g.scan.dcTbl, g.al, Intervals(CutAfter(g.scan, mcus)))
    ensures ok ==> g.Valid() && g.done + [g.items] == Intervals(CutAfter(g.scan, mcus))
  {
    hide IntervalOk, Tallied, CutAfter, ItemsOf;
    NoneCut(g.scan, mcus[..0]);
    for i := 0 to |mcus|
      invariant g.Valid() && Cut(g.done, g.items, g.restartsToGo) == CutAfter(g.scan, mcus[..i])
    {
      CutNext(g.scan, mcus, i);
      ok := g.EncodeMcu(mcus[i]);
      if !ok {
        CutGrows(g.scan, mcus, i + 1);
        var part, all := CutAfter(g.scan, mcus[..i + 1]), Intervals(CutAfter(g.scan, mcus));
        OkSoFar(g.scan.dcTbl, g.al, all[|part.done|], |part.items|);
        assert all[|part.done|][..|part.items|] == part.items;
        return;
      }
    }
    assert mcus[..|mcus|] == mcus;
    ok := true;
  }

  /**
   The output pass with the tables made from the statistics of the same MCUs: it codes every one of
   them.
   */
  method OutputPass(e: DcEncoder, mcus: seq<Mcu>, ghost defs: Defs) returns (st: Outcome)
    requires e.Valid() && !e.refine && e.done == [] && e.items == [] && e.restartsToGo == e.scan.restartInterval
    requires forall i :: 0 <= i < |mcus| ==> |mcus[i]| == |e.scan.membership|
    requires IntervalsOk(e.scan.dcTbl, e.al, Intervals(CutAfter(e.scan, mcus)))
    requires |defs.dcBits| == |defs.dcVals| == |defs.acBits| == |defs.acVals| == NUM_HUFF_TBLS
    requires var ts := IntervalsTokens(e.scan.dcTbl, e.al, Intervals(CutAfter(e.scan, mcus)));
             forall c :: 0 <= c < |e.scan.dcTbl| ==>
               && e.scan.dcTbl[c] < NUM_HUFF_TBLS
               && MadeFrom(e.book, defs, true, e.scan.dcTbl[c]) && OptimalFor(ts, defs, true, e.scan.dcTbl[c])
    modifies e, e.state
    ensures st == Done && e.Valid() && e.done + [e.items] == Intervals(CutAfter(e.scan, mcus))
  {
    hide FirstTokens, LastAfter, DcInRange, IntervalsTokens, MadeFrom, OptimalFor, Progress, ValidBook, CutAfter, ItemsOf;
    NoneCut(e.scan, mcus[..0]);
    ghost var all := Intervals(CutAfter(e.scan, mcus));
    for i := 0 to |mcus|
      invariant e.Valid() && Cut(e.done, e.items, e.restartsToGo) == CutAfter(e.scan, mcus[..i])
    {
      CutNext(e.scan, mcus, i);
      CutGrows(e.scan, mcus, i + 1);
      ghost var part := CutAfter(e.scan, mcus[..i + 1]);
      assert all[|part.done|][..|part.items|] == part.items;
      DcTablesNeverFail(e.book, defs, e.scan.dcTbl, e.al, all, IntervalsTokens(e.scan.dcTbl, e.al, all), |part.done|, |part.items|);
      st := e.EncodeMcu(mcus[i]);
    }
    assert mcus[..|mcus|] == mcus;
    st := Done;
  }
}
