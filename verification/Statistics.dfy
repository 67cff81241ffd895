/**
 The statistics pass of sequential coding (jpeg/jchuff.c): htest_one_block, encode_mcu_gather and
 finish_pass_gather. It counts exactly the symbols that the output pass will send, so that the
 tables made from the counts have a code for each of them.
 */
module Statistics {
  import opened JpegLimits
  import opened Arith
  import opened BitWriter
  import opened DerivedTables
  import opened Coefficients
  import opened BlockCoding
  import opened ScanCoding
  import opened HuffTables
  import HuffmanMerge
  import OptimalTable

  const COUNTERS := 257

  // ----- Counting tokens -----

  /** The counters of one table after one token more. */
  function Bump(counts: seq<int>, t: Token, isDc: bool, tbl: nat): (r: seq<int>)
    ensures |r| == |counts|
  {
    if t.Symbol? && t.isDc == isDc && t.tbl == tbl && t.s < |counts| then counts[t.s := counts[t.s] + 1] else counts
  }

  function Tally(counts: seq<int>, ts: seq<Token>, isDc: bool, tbl: nat): (r: seq<int>)
    ensures |r| == |counts|
    decreases |ts|
  {
    if ts == [] then counts else Tally(Bump(counts, ts[0], isDc, tbl), ts[1..], isDc, tbl)
  }

  lemma {:induction false} TallyAppend(counts: seq<int>, a: seq<Token>, b: seq<Token>, isDc: bool, tbl: nat)
    ensures Tally(counts, a + b, isDc, tbl) == Tally(Tally(counts, a, isDc, tbl), b, isDc, tbl)
    decreases |a|
  {
    if a == [] {
      assert a + b == b;
    } else {
      assert (a + b)[0] == a[0] && (a + b)[1..] == a[1..] + b;
      TallyAppend(Bump(counts, a[0], isDc, tbl), a[1..], b, isDc, tbl);
    }
  }

  lemma TallyOne(counts: seq<int>, a: seq<Token>, t: Token, isDc: bool, tbl: nat)
    ensures Tally(counts, a + [t], isDc, tbl) == Bump(Tally(counts, a, isDc, tbl), t, isDc, tbl)
  {
    TallyAppend(counts, a, [t], isDc, tbl);
    assert [t][1..] == [];
  }

  /** A counter is positive exactly if it was before or its symbol occurs. */
  lemma {:induction false} TallyCounts(counts: seq<int>, ts: seq<Token>, isDc: bool, tbl: nat, s: nat)
    requires s < |counts| && forall i :: 0 <= i < |counts| ==> counts[i] >= 0
    ensures forall i :: 0 <= i < |counts| ==> Tally(counts, ts, isDc, tbl)[i] >= 0
    ensures Tally(counts, ts, isDc, tbl)[s] > 0 <==> counts[s] > 0 || Symbol(isDc, tbl, s) in ts
    decreases |ts|
  {
    if ts != [] {
      TallyCounts(Bump(counts, ts[0], isDc, tbl), ts[1..], isDc, tbl, s);
      assert ts == [ts[0]] + ts[1..];
    }
  }

  /** A counter goes up by the number of times that its symbol occurs. */
  lemma {:induction false} TallyIs(counts: seq<int>, ts: seq<Token>, isDc: bool, tbl: nat, s: nat)
    requires s < |counts|
    ensures Tally(counts, ts, isDc, tbl)[s] == counts[s] + multiset(ts)[Symbol(isDc, tbl, s)]
    decreases |ts|
  {
    if ts != [] {
      TallyIs(Bump(counts, ts[0], isDc, tbl), ts[1..], isDc, tbl, s);
      assert ts == [ts[0]] + ts[1..];
    }
  }

  /** In all, no more is counted than there are tokens. */
  lemma {:induction false} TallySum(counts: seq<int>, ts: seq<Token>, isDc: bool, tbl: nat)
    ensures Sum(counts) <= Sum(Tally(counts, ts, isDc, tbl)) <= Sum(counts) + |ts|
    decreases |ts|
  {
    if ts != [] {
      var t := ts[0];
      if t.Symbol? && t.s < |counts| {
        SumUpdate(counts, t.s, counts[t.s] + 1);
      }
      TallySum(Bump(counts, t, isDc, tbl), ts[1..], isDc, tbl);
    }
  }

  /** Tokens of other tables are not counted. */
  lemma {:induction false} TallyOther(counts: seq<int>, ts: seq<Token>, isDc: bool, tbl: nat)
    requires forall i :: 0 <= i < |ts| ==> ts[i].Raw? || ts[i].isDc != isDc || ts[i].tbl != tbl
    ensures Tally(counts, ts, isDc, tbl) == counts
    decreases |ts|
  {
    if ts != [] {
      TallyOther(counts, ts[1..], isDc, tbl);
    }
  }

  // ----- One block -----

  /** The tokens are of these two tables, and the symbols are those of in-range coefficients. */
  ghost predicate OfTables(ts: seq<Token>, dcTbl: nat, acTbl: nat)
  {
    forall i :: 0 <= i < |ts| ==>
      match ts[i]
      case Symbol(isDc, tbl, s) => if isDc then tbl == dcTbl && s <= MAX_COEF_BITS + 1 else tbl == acTbl && IsAcSymbol(s)
      case Raw(_, size) => 1 <= size <= 16
  }

  /** All symbols are those of in-range coefficients. */
  ghost predicate Proper(ts: seq<Token>)
  {
    forall i :: 0 <= i < |ts| ==>
      match ts[i]
      case Symbol(isDc, _, s) => if isDc then s <= MAX_COEF_BITS + 1 else IsAcSymbol(s)
      case Raw(_, size) => 1 <= size <= 16
  }

  predicate IsAcSymbol(s: nat)
  {
    s < 256 && s % 16 <= MAX_COEF_BITS
  }

  lemma {:induction false} AcOfTables(dcTbl: nat, acTbl: nat, block: Block, k: nat, r: nat)
    requires 1 <= k <= DCTSIZE2 && InRangeFrom(block, k)
    ensures OfTables(AcTokens(acTbl, block, k, r), dcTbl, acTbl)
    decreases DCTSIZE2 - k, r
  {
    hide AcTokens, Natural, Category;
    AcLast(acTbl, block, r);
    if k < DCTSIZE2 {
      var v := block[Natural(k)];
      CategoryZero(v);
      if v == 0 {
        AcZero(acTbl, block, k, r);
        AcOfTables(dcTbl, acTbl, block, k + 1, r + 1);
      } else if r > 15 {
        AcLong(acTbl, block, k, r);
        AcOfTables(dcTbl, acTbl, block, k, r - 16);
      } else {
        AcShort(acTbl, block, k, r);
        AcOfTables(dcTbl, acTbl, block, k + 1, 0);
        Nibbles(r, Category(Abs(v)));
      }
    }
  }

  lemma BlockOfTables(dcTbl: nat, acTbl: nat, block: Block, lastDc: int)
    requires BlockInRange(block, lastDc)
    ensures OfTables(BlockTokens(dcTbl, acTbl, block, lastDc), dcTbl, acTbl) && Proper(BlockTokens(dcTbl, acTbl, block, lastDc))
  {
    hide AcTokens, Natural, Category;
    AcOfTables(dcTbl, acTbl, block, 1, 0);
    CategoryZero(block[0] - lastDc);
  }

  /** htest_one_block: counts the block's symbols, if its coefficients are in range. */
  method HtestOneBlock(block: Block, lastDc: int, dcCounts: array<int>, acCounts: array<int>, ghost dcTbl: nat, ghost acTbl: nat)
      returns (ok: bool)
    requires dcCounts.Length == acCounts.Length == COUNTERS && dcCounts != acCounts
    modifies dcCounts, acCounts
    ensures ok <==> BlockInRange(block, lastDc)
    ensures ok ==> dcCounts[..] == Tally(old(dcCounts[..]), BlockTokens(dcTbl, acTbl, block, lastDc), true, dcTbl)
    ensures ok ==> acCounts[..] == Tally(old(acCounts[..]), BlockTokens(dcTbl, acTbl, block, lastDc), false, acTbl)
  {
    hide Category, Natural, AcTokens, Tally;
    var temp := block[0] - lastDc;
    if temp < 0 {
      temp := 0 - temp;
    }
    var nbits := CountBits(temp);
    if nbits > MAX_COEF_BITS + 1 {
      return false;
    }
    ghost var diff := block[0] - lastDc;
    ghost var dc0, ac0 := dcCounts[..], acCounts[..];
    dcCounts[nbits] := dcCounts[nbits] + 1;
    ghost var now := DcTokens(dcTbl, diff);
    ghost var all := BlockTokens(dcTbl, acTbl, block, lastDc);
    TallyDc(dc0, dcTbl, diff, true, dcTbl);
    TallyDc(ac0, dcTbl, diff, false, acTbl);
    var r: nat := 0;
    for k := 1 to DCTSIZE2
      invariant dcCounts[..] == Tally(dc0, now, true, dcTbl) && acCounts[..] == Tally(ac0, now, false, acTbl)
      invariant all == now + AcTokens(acTbl, block, k, r)
      invariant forall j :: 1 <= j < k ==> Category(Abs(block[Natural(j)])) <= MAX_COEF_BITS
    {
      temp := block[Natural(k)];
      if temp == 0 {
        AcZero(acTbl, block, k, r);
        CategoryZero(temp);
        r := r + 1;
      } else {
        while r > 15
          invariant dcCounts[..] == Tally(dc0, now, true, dcTbl) && acCounts[..] == Tally(ac0, now, false, acTbl)
          invariant all == now + AcTokens(acTbl, block, k, r)
        {
          AcLong(acTbl, block, k, r);
          now := CountOne(dc0, ac0, dcTbl, acTbl, now, Symbol(false, acTbl, ZRL), AcTokens(acTbl, block, k, r - 16), all);
          acCounts[ZRL] := acCounts[ZRL] + 1;
          r := r - 16;
        }
        if temp < 0 {
          temp := 0 - temp;
        }
        nbits := CountBits(temp);
        if nbits > MAX_COEF_BITS {
          return false;
        }
        AcShort(acTbl, block, k, r);
        ghost var raw, rest := Raw(Appended(block[Natural(k)]), nbits), AcTokens(acTbl, block, k + 1, 0);
        now := CountOne(dc0, ac0, dcTbl, acTbl, now, Symbol(false, acTbl, 16 * r + nbits), [raw] + rest, all);
        now := CountOne(dc0, ac0, dcTbl, acTbl, now, raw, rest, all);
        acCounts[16 * r + nbits] := acCounts[16 * r + nbits] + 1;
        r := 0;
      }
    }
    AcLast(acTbl, block, r);
    if r > 0 {
      now := CountOne(dc0, ac0, dcTbl, acTbl, now, Symbol(false, acTbl, EOB), [], all);
      acCounts[EOB] := acCounts[EOB] + 1;
    }
    assert all == now;
    ok := true;
  }

  lemma TallyDc(counts: seq<int>, dcTbl: nat, diff: int, isDc: bool, tbl: nat)
    requires |counts| == COUNTERS
    ensures Tally(counts, DcTokens(dcTbl, diff), isDc, tbl) == Bump(counts, Symbol(true, dcTbl, Category(Abs(diff))), isDc, tbl)
  {
    hide Category;
    var n := Category(Abs(diff));
    var sym := Symbol(true, dcTbl, n);
    assert [] + [sym] == [sym];
    TallyOne(counts, [], sym, isDc, tbl);
    if n != 0 {
      TallyOne(counts, [sym], Raw(Appended(diff), n), isDc, tbl);
    }
  }

  /** One token more, in both tallies. */
  lemma CountOne(dc0: seq<int>, ac0: seq<int>, dcTbl: nat, acTbl: nat, now: seq<Token>, t: Token, rest: seq<Token>, all: seq<Token>)
      returns (then': seq<Token>)
    requires all == now + ([t] + rest)
    ensures then' == now + [t] && all == then' + rest
    ensures Tally(dc0, then', true, dcTbl) == Bump(Tally(dc0, now, true, dcTbl), t, true, dcTbl)
    ensures Tally(ac0, then', false, acTbl) == Bump(Tally(ac0, now, false, acTbl), t, false, acTbl)
  {
    then' := now + [t];
    TallyOne(dc0, now, t, true, dcTbl);
    TallyOne(ac0, now, t, false, acTbl);
  }

  // ----- A whole pass -----

  /** What is sent for the MCUs of a scan, whatever the tables. */
  ghost function ScanTokens(scan: Scan, mcus: seq<Mcu>, lastDc: seq<int>, toGo: nat): seq<Token>
    requires FitAll(scan, mcus, lastDc)
    decreases |mcus|
  {
    if mcus == [] then []
    else
      var dc := Predictions(scan, lastDc, toGo);
      TokensFrom(scan, mcus[0], 0, dc) + ScanTokens(scan, mcus[1..], DcAfter(scan, mcus[0], 0, dc), NextToGo(scan, toGo))
  }

  ghost predicate FitAll(scan: Scan, mcus: seq<Mcu>, lastDc: seq<int>)
  {
    ValidScan(scan) && |lastDc| == |scan.dcTbl| && forall i :: 0 <= i < |mcus| ==> |mcus[i]| == |scan.membership|
  }

  function Predictions(scan: Scan, lastDc: seq<int>, toGo: nat): (dc: seq<int>)
    requires |lastDc| == |scan.dcTbl|
    ensures |dc| == |lastDc|
  {
    if RestartDue(scan, toGo) then Zeros(|lastDc|) else lastDc
  }

  function NextToGo(scan: Scan, toGo: nat): nat
  {
    if scan.restartInterval == 0 then toGo else (if toGo == 0 then scan.restartInterval else toGo) - 1
  }

  /** The coefficients of all MCUs are in range. */
  ghost predicate RangeAll(scan: Scan, mcus: seq<Mcu>, lastDc: seq<int>, toGo: nat)
    requires FitAll(scan, mcus, lastDc)
    decreases |mcus|
  {
    mcus != [] ==>
      var dc := Predictions(scan, lastDc, toGo);
      RangeFrom(scan, mcus[0], 0, dc) && RangeAll(scan, mcus[1..], DcAfter(scan, mcus[0], 0, dc), NextToGo(scan, toGo))
  }

  /** The output pass sends what was counted: the scan can be encoded if its symbols have codes. */
  lemma {:induction false} PassesAgree(book: Book, scan: Scan, o: Output, mcus: seq<Mcu>)
    requires ValidBook(book) && ValidOutput(scan, o) && FitAll(scan, mcus, o.lastDc)
    requires RangeAll(scan, mcus, o.lastDc, o.toGo)
    requires AllCoded(book, ScanTokens(scan, mcus, o.lastDc, o.toGo))
    ensures AllEncodable(book, scan, o, mcus)
    decreases |mcus|
  {
    hide TokensFrom, RangeFrom, DcAfter, BitsOf, AllCoded, Padding, ValidBook;
    if mcus != [] {
      var dc := Predictions(scan, o.lastDc, o.toGo);
      var first, rest := TokensFrom(scan, mcus[0], 0, dc), ScanTokens(scan, mcus[1..], DcAfter(scan, mcus[0], 0, dc), NextToGo(scan, o.toGo));
      BitsOfAppend(book, first, rest);
      assert Encodable(book, scan, o, mcus[0]);
      PassesAgree(book, scan, AfterMcu(book, scan, o, mcus[0]), mcus[1..]);
    }
  }

  ghost predicate Tallied(counts: seq<int>, ts: seq<Token>, isDc: bool, tbl: nat)
  {
    counts == Tally(Zeros(COUNTERS), ts, isDc, tbl)
  }

  /** The counters after a block more, for any table. */
  lemma TallyBlock(now: seq<int>, next: seq<int>, ts: seq<Token>, more: seq<Token>, dcTbl: nat, acTbl: nat, isDc: bool, tbl: nat)
    requires OfTables(more, dcTbl, acTbl) && Tallied(now, ts, isDc, tbl)
    requires next == if tbl == (if isDc then dcTbl else acTbl) then Tally(now, more, isDc, tbl) else now
    ensures Tallied(next, ts + more, isDc, tbl)
  {
    TallyAppend(Zeros(COUNTERS), ts, more, isDc, tbl);
    if tbl != (if isDc then dcTbl else acTbl) {
      TallyOther(now, more, isDc, tbl);
    }
  }

  /** The encoder in a statistics pass: a set of counters for each table. */
  class Gatherer {
    const scan: Scan
    const dcCounts: seq<array<int>>
    const acCounts: seq<array<int>>
    var lastDc: seq<int>
    var restartsToGo: nat
    ghost var tokens: seq<Token>

    ghost predicate Apart()
    {
      && ValidScan(scan) && |dcCounts| == |acCounts| == NUM_HUFF_TBLS
      && (forall i :: 0 <= i < NUM_HUFF_TBLS ==> dcCounts[i].Length == acCounts[i].Length == COUNTERS)
      && (forall i, j :: 0 <= i < j < NUM_HUFF_TBLS ==> dcCounts[i] != dcCounts[j] && acCounts[i] != acCounts[j])
      && (forall i, j :: 0 <= i < NUM_HUFF_TBLS && 0 <= j < NUM_HUFF_TBLS ==> dcCounts[i] != acCounts[j])
    }

    /** Each counter tells how often its symbol has occurred. */
    ghost predicate Valid()
      reads this, dcCounts, acCounts
    {
      && Apart() && |lastDc| == |scan.dcTbl| && Proper(tokens)
      && (forall i :: 0 <= i < NUM_HUFF_TBLS ==> Tallied(dcCounts[i][..], tokens, true, i))
      && (forall i :: 0 <= i < NUM_HUFF_TBLS ==> Tallied(acCounts[i][..], tokens, false, i))
    }

    /** encode_mcu_gather. */
    method EncodeMcuGather(mcu: Mcu) returns (ok: bool)
      requires Valid() && |mcu| == |scan.membership|
      modifies this, dcCounts, acCounts
      ensures ok <==> RangeFrom(scan, mcu, 0, Predictions(scan, old(lastDc), old(restartsToGo)))
      ensures ok ==> Valid() && tokens == old(tokens) + TokensFrom(scan, mcu, 0, Predictions(scan, old(lastDc), old(restartsToGo)))
      ensures ok ==> lastDc == DcAfter(scan, mcu, 0, Predictions(scan, old(lastDc), old(restartsToGo)))
      ensures ok ==> restartsToGo == NextToGo(scan, old(restartsToGo))
    {
      hide Tallied, BlockTokens, BlockInRange;
      if scan.restartInterval != 0 {
        if restartsToGo == 0 {
          lastDc := Zeros(|lastDc|);
          restartsToGo := scan.restartInterval;
        }
        restartsToGo := restartsToGo - 1;
      }
      ghost var dc0, all := lastDc, tokens + TokensFrom(scan, mcu, 0, lastDc);
      for blkn := 0 to |mcu|
        invariant Valid() && all == tokens + TokensFrom(scan, mcu, blkn, lastDc)
        invariant restartsToGo == NextToGo(scan, old(restartsToGo))
        invariant DcAfter(scan, mcu, blkn, lastDc) == DcAfter(scan, mcu, 0, dc0)
        invariant RangeFrom(scan, mcu, blkn, lastDc) == RangeFrom(scan, mcu, 0, dc0)
      {
        ok := CountBlock(mcu[blkn], scan.membership[blkn], TokensFrom(scan, mcu, blkn + 1, lastDc[scan.membership[blkn] := mcu[blkn][0]]));
        if !ok {
          return;
        }
        lastDc := lastDc[scan.membership[blkn] := mcu[blkn][0]];
      }
      ok := true;
    }

    /** One block of component ci, before the tokens rest. */
    method CountBlock(block: Block, ci: nat, ghost rest: seq<Token>) returns (ok: bool)
      requires Valid() && ci < |scan.dcTbl|
      modifies this`tokens, dcCounts, acCounts
      ensures ok <==> BlockInRange(block, lastDc[ci])
      ensures ok ==> Valid() && tokens == old(tokens) + BlockTokens(scan.dcTbl[ci], scan.acTbl[ci], block, lastDc[ci])
      ensures ok ==> tokens + rest == old(tokens) + (BlockTokens(scan.dcTbl[ci], scan.acTbl[ci], block, lastDc[ci]) + rest)
    {
      hide Tallied, BlockTokens, BlockInRange, Tally, OfTables;
      ghost var dcTbl, acTbl := scan.dcTbl[ci], scan.acTbl[ci];
      ghost var ts, more := tokens, BlockTokens(dcTbl, acTbl, block, lastDc[ci]);
      ok := HtestOneBlock(block, lastDc[ci], dcCounts[scan.dcTbl[ci]], acCounts[scan.acTbl[ci]], dcTbl, acTbl);
      if !ok {
        return;
      }
      BlockOfTables(dcTbl, acTbl, block, lastDc[ci]);
      forall i | 0 <= i < NUM_HUFF_TBLS
        ensures Tallied(dcCounts[i][..], ts + more, true, i) && Tallied(acCounts[i][..], ts + more, false, i)
      {
        TallyBlock(old(dcCounts[i][..]), dcCounts[i][..], ts, more, dcTbl, acTbl, true, i);
        TallyBlock(old(acCounts[i][..]), acCounts[i][..], ts, more, dcTbl, acTbl, false, i);
      }
      tokens := tokens + more;
    }

    /**
     finish_pass_gather: makes one optimal table for each set of counters in use. None is worked on
     twice, since that would start from clobbered counts.
     */
    method FinishPassGather(dcTables: seq<HuffTable>, acTables: seq<HuffTable>) returns (ok: bool)
      requires Valid() && AllUsed(scan, tokens) && |tokens| <= HuffmanMerge.SEARCH_LIMIT
      requires DistinctTables(dcTables, acTables)
      modifies dcCounts, acCounts, dcTables, acTables
      ensures |tokens| + 1 < FIB_35 ==> ok
      ensures ok ==> TablesFor(scan, tokens, dcTables, acTables)
    {
      hide Tally, TableFor, TablesFor, Proper, ValidScan, HalfDone, Tallied, Occurs, Fib, OptimalTable.Bytes;
      var didDc, didAc := seq(NUM_HUFF_TBLS, _ => false), seq(NUM_HUFF_TBLS, _ => false);
      NoneDone(tokens, true, dcTables, dcCounts, didDc);
      NoneDone(tokens, false, acTables, acCounts, didAc);
      ok := FinishAll(scan, tokens, dcTables, dcCounts, didDc, acTables, acCounts, didAc);
    }
  }

  /** The tables of the scan's components; those that are done already are left alone. */
  method FinishAll(scan: Scan, ghost ts: seq<Token>, dcTables: seq<HuffTable>, dcCounts: seq<array<int>>, didDc0: seq<bool>,
                   acTables: seq<HuffTable>, acCounts: seq<array<int>>, didAc0: seq<bool>) returns (ok: bool)
    requires ValidScan(scan) && AllUsed(scan, ts) && Proper(ts) && |ts| <= HuffmanMerge.SEARCH_LIMIT
    requires |didDc0| == |didAc0| == NUM_HUFF_TBLS
    requires HalfDone(ts, true, dcTables, dcCounts, didDc0) && HalfDone(ts, false, acTables, acCounts, didAc0)
    requires forall i, j :: 0 <= i < |dcTables| && 0 <= j < |acTables| ==> dcTables[i] != acTables[j]
    requires forall i, j :: 0 <= i < |dcCounts| && 0 <= j < |acCounts| ==> dcCounts[i] != acCounts[j]
    modifies dcTables, dcCounts, acTables, acCounts
    ensures |ts| + 1 < FIB_35 ==> ok
    ensures ok ==> TablesFor(scan, ts, dcTables, acTables)
  {
    hide Tally, TableFor, TablesFor, Proper, ValidScan, HalfDone, Tallied, Occurs, Fib, OptimalTable.Bytes;
    var didDc, didAc := didDc0, didAc0;
    ok := true;
    for ci := 0 to |scan.dcTbl|
      invariant |didDc| == |didAc| == NUM_HUFF_TBLS && ok
      invariant HalfDone(ts, true, dcTables, dcCounts, didDc) && HalfDone(ts, false, acTables, acCounts, didAc)
      invariant forall c :: 0 <= c < ci ==> scan.dcTbl[c] < NUM_HUFF_TBLS && scan.acTbl[c] < NUM_HUFF_TBLS && didDc[scan.dcTbl[c]] && didAc[scan.acTbl[c]]
    {
      TablesInRange(scan, ci);
      ok, didDc := FinishOne(ts, true, scan.dcTbl[ci], dcTables, dcCounts, didDc);
      if !ok {
        return;
      }
      ok, didAc := FinishOne(ts, false, scan.acTbl[ci], acTables, acCounts, didAc);
      if !ok {
        return;
      }
    }
    AllDone(scan, ts, dcTables, dcCounts, didDc, acTables, acCounts, didAc);
  }

  /** The tables that are done have been made; the counters of the others are untouched. */
  ghost predicate HalfDone(ts: seq<Token>, isDc: bool, tables: seq<HuffTable>, counts: seq<array<int>>, did: seq<bool>)
    reads tables, counts
  {
    && |tables| == |counts| == |did| == NUM_HUFF_TBLS
    && (forall i, j :: 0 <= i < j < NUM_HUFF_TBLS ==> tables[i] != tables[j] && counts[i] != counts[j])
    && (forall i :: 0 <= i < NUM_HUFF_TBLS ==>
          counts[i].Length == COUNTERS && |tables[i].huffval| == 256 && OptimalTable.Bytes(tables[i].huffval))
    && (forall i :: 0 <= i < NUM_HUFF_TBLS && did[i] ==> TableFor(ts, isDc, i, tables[i]))
    && (forall i :: 0 <= i < NUM_HUFF_TBLS && !did[i] ==> Tallied(counts[i][..], ts, isDc, i))
  }

  method FinishOne(ghost ts: seq<Token>, ghost isDc: bool, tbl: nat, tables: seq<HuffTable>, counts: seq<array<int>>, did: seq<bool>)
      returns (ok: bool, did': seq<bool>)
    requires HalfDone(ts, isDc, tables, counts, did) && tbl < NUM_HUFF_TBLS
    requires Proper(ts) && |ts| <= HuffmanMerge.SEARCH_LIMIT && Occurs(ts, isDc, tbl)
    modifies tables, counts
    ensures |ts| + 1 < FIB_35 ==> ok
    ensures ok ==> did' == did[tbl := true] && HalfDone(ts, isDc, tables, counts, did')
  {
    hide Tally, OptimalTable.LegalFor, Fib, Proper, OptimalTable.Countable, OptimalTable.SortedBySize, OptimalTable.OptimalSizes;
    ok, did' := true, did;
    if !did[tbl] {
      CountableTally(ts, isDc, tbl);
      ghost var sizes, t;
      ok, sizes, t := OptimalTable.GenOptimalTable(tables[tbl], counts[tbl]);
      did' := did[tbl := true];
      if ok {
        LegalShape(Tally(Zeros(COUNTERS), ts, isDc, tbl)[..256], tables[tbl].bits, tables[tbl].huffval);
      }
    }
  }

  lemma LegalShape(counts: seq<int>, bits: seq<int>, huffval: seq<int>)
    requires OptimalTable.LegalFor(counts, bits, huffval)
    ensures |huffval| == 256 && OptimalTable.Bytes(huffval)
  {
  }

  lemma NoneDone(ts: seq<Token>, isDc: bool, tables: seq<HuffTable>, counts: seq<array<int>>, did: seq<bool>)
    requires |tables| == |counts| == |did| == NUM_HUFF_TBLS
    requires forall i, j :: 0 <= i < j < NUM_HUFF_TBLS ==> tables[i] != tables[j] && counts[i] != counts[j]
    requires forall i :: 0 <= i < NUM_HUFF_TBLS ==> counts[i].Length == COUNTERS
    requires forall i :: 0 <= i < NUM_HUFF_TBLS ==> |tables[i].huffval| == 256 && OptimalTable.Bytes(tables[i].huffval)
    requires forall i :: 0 <= i < NUM_HUFF_TBLS ==> !did[i] && Tallied(counts[i][..], ts, isDc, i)
    ensures HalfDone(ts, isDc, tables, counts, did)
  {
    hide TableFor, Tallied;
  }

  lemma AllDone(scan: Scan, ts: seq<Token>, dcTables: seq<HuffTable>, dcCounts: seq<array<int>>, didDc: seq<bool>,
                acTables: seq<HuffTable>, acCounts: seq<array<int>>, didAc: seq<bool>)
    requires ValidScan(scan) && HalfDone(ts, true, dcTables, dcCounts, didDc) && HalfDone(ts, false, acTables, acCounts, didAc)
    requires forall c :: 0 <= c < |scan.dcTbl| ==> didDc[scan.dcTbl[c]] && didAc[scan.acTbl[c]]
    ensures TablesFor(scan, ts, dcTables, acTables)
  {
    hide TableFor, Tallied;
  }

  /** Every table of the scan has been used. */
  ghost predicate AllUsed(scan: Scan, ts: seq<Token>)
  {
    && |scan.dcTbl| == |scan.acTbl|
    && forall c :: 0 <= c < |scan.dcTbl| ==> Occurs(ts, true, scan.dcTbl[c]) && Occurs(ts, false, scan.acTbl[c])
  }

  ghost predicate Occurs(ts: seq<Token>, isDc: bool, tbl: nat)
  {
    exists i :: 0 <= i < |ts| && ts[i].Symbol? && ts[i].isDc == isDc && ts[i].tbl == tbl
  }

  ghost predicate DistinctTables(dcTables: seq<HuffTable>, acTables: seq<HuffTable>)
    reads dcTables, acTables
  {
    && |dcTables| == |acTables| == NUM_HUFF_TBLS
    && (forall i, j :: 0 <= i < j < NUM_HUFF_TBLS ==> dcTables[i] != dcTables[j] && acTables[i] != acTables[j])
    && (forall i, j :: 0 <= i < NUM_HUFF_TBLS && 0 <= j < NUM_HUFF_TBLS ==> dcTables[i] != acTables[j])
    && (forall i :: 0 <= i < NUM_HUFF_TBLS ==>
          |dcTables[i].huffval| == |acTables[i].huffval| == 256
          && OptimalTable.Bytes(dcTables[i].huffval) && OptimalTable.Bytes(acTables[i].huffval))
  }

  /** The table has a code for each counted symbol and for no other. */
  ghost predicate TableFor(ts: seq<Token>, isDc: bool, tbl: nat, table: HuffTable)
    reads table
  {
    OptimalTable.LegalFor(Tally(Zeros(COUNTERS), ts, isDc, tbl)[..256], table.bits, table.huffval)
  }

  ghost predicate TablesFor(scan: Scan, ts: seq<Token>, dcTables: seq<HuffTable>, acTables: seq<HuffTable>)
    requires ValidScan(scan) && |dcTables| == |acTables| == NUM_HUFF_TBLS
    reads dcTables, acTables
  {
    forall c :: 0 <= c < |scan.dcTbl| ==>
      TableFor(ts, true, scan.dcTbl[c], dcTables[scan.dcTbl[c]]) && TableFor(ts, false, scan.acTbl[c], acTables[scan.acTbl[c]])
  }

  lemma TablesInRange(scan: Scan, c: nat)
    requires ValidScan(scan) && c < |scan.dcTbl|
    ensures c < |scan.acTbl| && scan.dcTbl[c] < NUM_HUFF_TBLS && scan.acTbl[c] < NUM_HUFF_TBLS
  {
  }

  /** The counts are such as jpeg_gen_optimal_table can start from. */
  lemma CountableTally(ts: seq<Token>, isDc: bool, tbl: nat)
    requires Proper(ts) && |ts| <= HuffmanMerge.SEARCH_LIMIT && Occurs(ts, isDc, tbl)
    ensures OptimalTable.Countable(Tally(Zeros(COUNTERS), ts, isDc, tbl))
    ensures Sum(Tally(Zeros(COUNTERS), ts, isDc, tbl)[..256]) <= |ts|
  {
    hide Tally, Sum;
    var zero := Zeros(COUNTERS);
    var counts := Tally(zero, ts, isDc, tbl);
    SumZero(zero);
    TallySum(zero, ts, isDc, tbl);
    NotCounted(ts, isDc, tbl, 12);
    NotCounted(ts, isDc, tbl, 13);
    NotCounted(ts, isDc, tbl, 256);
    assert counts == counts[..256] + [0];
    SumAppend(counts[..256], [0]);
    SumZero([0]);
    var u := OptimalTable.UsedSymbols(counts[..256]);
    FewOnes(u, 12, 13);
    var i :| 0 <= i < |ts| && ts[i].Symbol? && ts[i].isDc == isDc && ts[i].tbl == tbl;
    TallyCounts(zero, ts, isDc, tbl, ts[i].s);
    assert ts[i] in ts;
    SomeOne(u, ts[i].s);
  }

  lemma NotCounted(ts: seq<Token>, isDc: bool, tbl: nat, s: nat)
    requires Proper(ts) && s < COUNTERS && MAX_COEF_BITS + 1 < s && !IsAcSymbol(s)
    ensures Tally(Zeros(COUNTERS), ts, isDc, tbl)[s] == 0
    ensures forall i :: 0 <= i < COUNTERS ==> Tally(Zeros(COUNTERS), ts, isDc, tbl)[i] >= 0
  {
    hide Tally;
    TallyCounts(Zeros(COUNTERS), ts, isDc, tbl, s);
  }

  lemma {:induction false} OnesBound(u: seq<int>)
    requires forall i :: 0 <= i < |u| ==> 0 <= u[i] <= 1
    ensures 0 <= Sum(u) <= |u|
  {
    if u != [] {
      OnesBound(u[1..]);
    }
  }

  lemma FewOnes(u: seq<int>, i: nat, j: nat)
    requires i < j < |u| && u[i] == u[j] == 0 && forall k :: 0 <= k < |u| ==> 0 <= u[k] <= 1
    ensures Sum(u) <= |u| - 2
  {
    hide Sum;
    var v := u[i := 1];
    SumUpdate(u, i, 1);
    SumUpdate(v, j, 1);
    OnesBound(v[j := 1]);
  }

  lemma SomeOne(u: seq<int>, i: nat)
    requires i < |u| && u[i] == 1 && forall k :: 0 <= k < |u| ==> 0 <= u[k] <= 1
    ensures Sum(u) >= 1
  {
    hide Sum;
    SumUpdate(u, i, 0);
    OnesBound(u[i := 0]);
  }
}
