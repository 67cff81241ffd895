/**
 The DC scans of progressive coding (jpeg/jcphuff.c, encode_mcu_DC_first and encode_mcu_DC_refine;
 ITU-T T.81, sections G.1.2.1 and G.2): differences of values shifted right by Al, and then one bit
 more in each refinement scan. Unlike AC coefficients, DC coefficients are rounded down.
 */
module ProgressiveDc {
  import opened Arith
  import opened BitString
  import opened ByteStream
  import opened BitWriter
  import opened DerivedTables
  import opened Coefficients
  import opened BlockCoding
  import opened ScanCoding
  import opened SequentialEncoder
  import opened ProgressiveCoding
  import opened ProgressiveReplay

  /** An arithmetic shift right by al bits. */
  function FloorShift(v: int, al: nat): int
  {
    if al == 0 then v else FloorShift(v, al - 1) / 2
  }

  /** The component of a block and its DC coefficient. */
  datatype Item = Item(comp: nat, dc: int)

  ghost predicate ItemsFit(tbls: seq<nat>, items: seq<Item>, last: seq<int>)
  {
    |last| == |tbls| && forall i :: 0 <= i < |items| ==> items[i].comp < |tbls|
  }

  // ----- Coding -----

  function FirstTokens(tbls: seq<nat>, al: nat, items: seq<Item>, last: seq<int>): seq<Token>
    requires ItemsFit(tbls, items, last)
    decreases |items|
  {
    if items == [] then []
    else
      var c, v := items[0].comp, FloorShift(items[0].dc, al);
      DcTokens(tbls[c], v - last[c]) + FirstTokens(tbls, al, items[1..], last[c := v])
  }

  function LastAfter(tbls: seq<nat>, al: nat, items: seq<Item>, last: seq<int>): (r: seq<int>)
    requires ItemsFit(tbls, items, last)
    ensures |r| == |last|
    decreases |items|
  {
    if items == [] then last else LastAfter(tbls, al, items[1..], last[items[0].comp := FloorShift(items[0].dc, al)])
  }

  ghost predicate DcInRange(tbls: seq<nat>, al: nat, items: seq<Item>, last: seq<int>)
    requires ItemsFit(tbls, items, last)
    decreases |items|
  {
    items != [] ==>
      var c, v := items[0].comp, FloorShift(items[0].dc, al);
      Category(Abs(v - last[c])) <= MAX_COEF_BITS + 1 && DcInRange(tbls, al, items[1..], last[c := v])
  }

  function RefineTokens(al: nat, items: seq<Item>): (ts: seq<Token>)
    ensures |ts| == |items|
  {
    seq(|items|, i requires 0 <= i < |items| => Raw(FloorShift(items[i].dc, al), 1))
  }

  // ----- Decoding -----

  /** A DC difference: a symbol and the bits that it announces. */
  function NextDiff(ts: seq<Token>): (int, seq<Token>)
  {
    if ts == [] || !ts[0].Symbol? then (0, Broken())
    else
      var n := ts[0].s;
      if n != 0 then (Extend(RawBits(ts[1..], n), n), Drop(ts[1..], n)) else (0, ts[1..])
  }

  /** decode_mcu_DC_first for blocks of the given components: the coefficients, and the tokens that are left. */
  function ReplayDc(al: nat, comps: seq<nat>, ts: seq<Token>, last: seq<int>): (r: (seq<int>, seq<Token>))
    requires forall i :: 0 <= i < |comps| ==> comps[i] < |last|
    ensures |r.0| == |comps|
    decreases |comps|
  {
    if comps == [] then ([], ts)
    else
      var (diff, after) := NextDiff(ts);
      var s := last[comps[0]] + diff;
      var (rest, left) := ReplayDc(al, comps[1..], after, last[comps[0] := s]);
      ([ToShort(s * Pow2(al))] + rest, left)
  }

  /** The bit 2^al is set in a coefficient. */
  function WithBit(v: int, al: nat): int
  {
    if (v / Pow2(al)) % 2 == 0 then v + Pow2(al) else v
  }

  /** decode_mcu_DC_refine on coefficients that earlier scans have left. */
  function ReplayDcRefine(al: nat, ts: seq<Token>, prevs: seq<int>): (r: (seq<int>, seq<Token>))
    ensures |r.0| == |prevs|
    decreases |prevs|
  {
    if prevs == [] then ([], ts)
    else
      var v := if RawBits(ts, 1) == 1 then WithBit(prevs[0], al) else prevs[0];
      var (rest, left) := ReplayDcRefine(al, Drop(ts, 1), prevs[1..]);
      ([v] + rest, left)
  }

  // ----- Round trips -----

  function Comps(items: seq<Item>): (r: seq<nat>)
    ensures |r| == |items|
  {
    seq(|items|, i requires 0 <= i < |items| => items[i].comp)
  }

  /** What is known of DC coefficients down to bit al. */
  function Floors(al: nat, items: seq<Item>): (r: seq<int>)
    ensures |r| == |items|
  {
    seq(|items|, i requires 0 <= i < |items| => FloorShift(items[i].dc, al) * Pow2(al))
  }

  ghost predicate Short16(v: int)
  {
    -0x8000 <= v < 0x8000
  }

  lemma {:induction false} FloorMono(v: int, w: int, al: nat)
    requires v <= w
    ensures FloorShift(v, al) <= FloorShift(w, al)
  {
    if al > 0 {
      FloorMono(v, w, al - 1);
    }
  }

  lemma {:induction false} FloorBelow(v: int, al: nat)
    ensures FloorShift(v, al) * Pow2(al) <= v
  {
    if al > 0 {
      FloorBelow(v, al - 1);
      var f, p := FloorShift(v, al - 1), Pow2(al - 1);
      assert (f / 2) * (2 * p) == (2 * (f / 2)) * p;
      ScaleMono(p, 2 * (f / 2), f);
    }
  }

  lemma {:induction false} FloorOfLeast(al: nat)
    requires al <= 15
    ensures FloorShift(-0x8000, al) == 0 - Pow2(15 - al)
  {
    if al == 0 {
      Pow2Fifteen();
    } else {
      FloorOfLeast(al - 1);
      Pow2Double(15 - al);
      HalfNegative(Pow2(15 - al));
    }
  }

  lemma Pow2Fifteen()
    ensures Pow2(15) == 0x8000
  {
    Pow2Values();
    Pow2Double(15);
  }

  lemma HalfNegative(p: nat)
    ensures (0 - 2 * p) / 2 == 0 - p
  {
  }

  /** A shifted and scaled coefficient still fits 16 bits. */
  lemma FloorShort(v: int, al: nat)
    requires Short16(v) && al <= 15
    ensures ToShort(FloorShift(v, al) * Pow2(al)) == FloorShift(v, al) * Pow2(al)
  {
    hide Pow2, FloorShift;
    FloorBelow(v, al);
    FloorMono(-0x8000, v, al);
    FloorOfLeast(al);
    Pow2Fifteen();
    Pow2Add(15 - al, al);
    ScaleMono(Pow2(al), 0 - Pow2(15 - al), FloorShift(v, al));
    assert (0 - Pow2(15 - al)) * Pow2(al) == 0 - Pow2(15 - al) * Pow2(al);
  }

  /** The first scan of DC coefficients gives them back, rounded down to bit al. */
  lemma {:induction false} FirstDcReplays(tbls: seq<nat>, al: nat, items: seq<Item>, last: seq<int>, rest: seq<Token>)
    requires ItemsFit(tbls, items, last) && al <= 15 && forall i :: 0 <= i < |items| ==> Short16(items[i].dc)
    ensures ReplayDc(al, Comps(items), FirstTokens(tbls, al, items, last) + rest, last) == (Floors(al, items), rest)
    decreases |items|
  {
    hide DcTokens, FloorShift, Pow2, ToShort, NextDiff;
    if items == [] {
      NoItems(al, rest, last);
    } else {
      var c, v := items[0].comp, FloorShift(items[0].dc, al);
      var diff := v - last[c];
      var later := FirstTokens(tbls, al, items[1..], last[c := v]) + rest;
      assert FirstTokens(tbls, al, items, last) + rest == DcTokens(tbls[c], diff) + later;
      DiffBack(tbls[c], diff, later);
      assert Comps(items)[1..] == Comps(items[1..]);
      assert Floors(al, items) == [v * Pow2(al)] + Floors(al, items[1..]);
      FloorShort(items[0].dc, al);
      FirstDcReplays(tbls, al, items[1..], last[c := v], rest);
    }
  }

  lemma NoItems(al: nat, ts: seq<Token>, last: seq<int>)
    ensures ReplayDc(al, [], [] + ts, last) == ([], ts)
  {
    assert [] + ts == ts;
  }

  lemma DiffBack(tbl: nat, diff: int, later: seq<Token>)
    ensures NextDiff(DcTokens(tbl, diff) + later) == (diff, later)
  {
    hide Category, Pow2, Extend;
    var n := Category(Abs(diff));
    var ts := DcTokens(tbl, diff) + later;
    CategoryZero(diff);
    if n != 0 {
      ExtendInverts(diff);
      assert ts[1..][0] == Raw(Appended(diff), n) && ts[1..][1..] == later;
    } else {
      assert ts[1..] == later;
    }
  }

  /** Setting the bit that a refinement scan sends. */
  lemma OneBitMoreDc(v: int, al: nat)
    ensures FloorShift(v, al) * Pow2(al) ==
              if FloorShift(v, al) % 2 == 1 then WithBit(FloorShift(v, al + 1) * Pow2(al + 1), al) else FloorShift(v, al + 1) * Pow2(al + 1)
  {
    hide Pow2, FloorShift;
    var f, p := FloorShift(v, al), Pow2(al);
    var h := f / 2;
    Pow2Double(al);
    assert FloorShift(v, al + 1) == h by { HalfShift(v, al); }
    BitClear(h, p);
    assert h * (2 * p) == (2 * h) * p;
    assert f == 2 * h + f % 2;
    Split(2 * h, f % 2, p);
  }

  lemma HalfShift(v: int, al: nat)
    ensures FloorShift(v, al + 1) == FloorShift(v, al) / 2
  {
  }

  /** A refinement scan of DC coefficients adds one bit to each. */
  lemma {:induction false} RefineDcReplays(al: nat, items: seq<Item>, rest: seq<Token>)
    ensures ReplayDcRefine(al, RefineTokens(al, items) + rest, Floors(al + 1, items)) == (Floors(al, items), rest)
    decreases |items|
  {
    hide FloorShift, Pow2, WithBit, RawBits;
    var ts := RefineTokens(al, items) + rest;
    if items == [] {
      assert ts == rest;
    } else {
      var v := items[0].dc;
      assert ts[0] == Raw(FloorShift(v, al), 1);
      LowBit(ts, FloorShift(v, al));
      OneBitMoreDc(v, al);
      assert Drop(ts, 1) == RefineTokens(al, items[1..]) + rest;
      assert Floors(al + 1, items)[1..] == Floors(al + 1, items[1..]);
      assert Floors(al, items) == [FloorShift(v, al) * Pow2(al)] + Floors(al, items[1..]);
      RefineDcReplays(al, items[1..], rest);
    }
  }

  lemma LowBit(ts: seq<Token>, v: int)
    requires ts != [] && ts[0] == Raw(v, 1)
    ensures RawBits(ts, 1) == v % 2
  {
    assert Pow2(1) == 2 by { assert Pow2(0) == 1; }
  }

  /** Replaying a first scan interval by interval; each starts with predictions of zero. */
  function ReplayDcIntervals(tbls: seq<nat>, al: nat, cuts: seq<nat>, items: seq<Item>): (r: seq<int>)
    requires ItemsFit(tbls, items, Zeros(|tbls|)) && CutUp(cuts, |items|)
    ensures |r| == |items|
    decreases |cuts|
  {
    if cuts == [] then []
    else
      var n := |items| - cuts[|cuts| - 1];
      ReplayDcIntervals(tbls, al, cuts[..|cuts| - 1], items[..n])
      + ReplayDc(al, Comps(items[n..]), FirstTokens(tbls, al, items[n..], Zeros(|tbls|)), Zeros(|tbls|)).0
  }

  function ReplayDcRefineIntervals(al: nat, cuts: seq<nat>, items: seq<Item>, prevs: seq<int>): (r: seq<int>)
    requires |prevs| == |items| && CutUp(cuts, |items|)
    ensures |r| == |items|
    decreases |cuts|
  {
    if cuts == [] then []
    else
      var n := |items| - cuts[|cuts| - 1];
      ReplayDcRefineIntervals(al, cuts[..|cuts| - 1], items[..n], prevs[..n])
      + ReplayDcRefine(al, RefineTokens(al, items[n..]), prevs[n..]).0
  }

  lemma {:induction false} DcIntervalsReplay(tbls: seq<nat>, al: nat, cuts: seq<nat>, items: seq<Item>)
    requires ItemsFit(tbls, items, Zeros(|tbls|)) && CutUp(cuts, |items|)
    requires al <= 15 && forall i :: 0 <= i < |items| ==> Short16(items[i].dc)
    ensures ReplayDcIntervals(tbls, al, cuts, items) == Floors(al, items)
    decreases |cuts|
  {
    hide FirstTokens, ReplayDc, FloorShift, Pow2;
    if cuts != [] {
      var n := |items| - cuts[|cuts| - 1];
      DcIntervalsReplay(tbls, al, cuts[..|cuts| - 1], items[..n]);
      FirstDcReplays(tbls, al, items[n..], Zeros(|tbls|), []);
      assert FirstTokens(tbls, al, items[n..], Zeros(|tbls|)) + [] == FirstTokens(tbls, al, items[n..], Zeros(|tbls|));
      assert Floors(al, items) == Floors(al, items[..n]) + Floors(al, items[n..]);
    }
  }

  lemma {:induction false} DcRefineIntervalsReplay(al: nat, cuts: seq<nat>, items: seq<Item>)
    requires CutUp(cuts, |items|)
    ensures ReplayDcRefineIntervals(al, cuts, items, Floors(al + 1, items)) == Floors(al, items)
    decreases |cuts|
  {
    hide ReplayDcRefine, FloorShift, Pow2;
    if cuts != [] {
      var n := |items| - cuts[|cuts| - 1];
      assert Floors(al + 1, items)[..n] == Floors(al + 1, items[..n]) && Floors(al + 1, items)[n..] == Floors(al + 1, items[n..]);
      DcRefineIntervalsReplay(al, cuts[..|cuts| - 1], items[..n]);
      RefineDcReplays(al, items[n..], []);
      assert RefineTokens(al, items[n..]) + [] == RefineTokens(al, items[n..]);
      assert Floors(al, items) == Floors(al, items[..n]) + Floors(al, items[n..]);
    }
  }

  /** Replaying the first scan, for bit top, and the refinement scans down to bit al. */
  ghost function ReplayDcScans(tbls: seq<nat>, top: nat, al: nat, cuts: seq<seq<nat>>, items: seq<Item>): (r: seq<int>)
    requires ItemsFit(tbls, items, Zeros(|tbls|)) && al <= top && AllCutUp(cuts, top, |items|)
    ensures |r| == |items|
    decreases top - al
  {
    if al == top then ReplayDcIntervals(tbls, al, cuts[al], items)
    else ReplayDcRefineIntervals(al, cuts[al], items, ReplayDcScans(tbls, top, al + 1, cuts, items))
  }

  /**
   After the scans down to bit al the DC coefficients are known rounded down to that bit, and after
   the scan for bit 0 they are exact. Each scan may be divided into restart intervals of its own.
   */
  lemma {:induction false} DcScansReplay(tbls: seq<nat>, top: nat, al: nat, cuts: seq<seq<nat>>, items: seq<Item>)
    requires ItemsFit(tbls, items, Zeros(|tbls|)) && al <= top <= 15 && AllCutUp(cuts, top, |items|)
    requires forall i :: 0 <= i < |items| ==> Short16(items[i].dc)
    ensures ReplayDcScans(tbls, top, al, cuts, items) == Floors(al, items)
    ensures al == 0 ==> forall i :: 0 <= i < |items| ==> ReplayDcScans(tbls, top, al, cuts, items)[i] == items[i].dc
    decreases top - al
  {
    hide ReplayDcIntervals, ReplayDcRefineIntervals;
    if al == top {
      DcIntervalsReplay(tbls, al, cuts[al], items);
    } else {
      DcScansReplay(tbls, top, al + 1, cuts, items);
      DcRefineIntervalsReplay(al, cuts[al], items);
    }
  }

  // ----- The encoder -----

  lemma {:induction false} FirstAppend(tbls: seq<nat>, al: nat, a: seq<Item>, b: seq<Item>, last: seq<int>)
    requires ItemsFit(tbls, a + b, last)
    ensures ItemsFit(tbls, a, last) && ItemsFit(tbls, b, LastAfter(tbls, al, a, last))
    ensures FirstTokens(tbls, al, a + b, last) == FirstTokens(tbls, al, a, last) + FirstTokens(tbls, al, b, LastAfter(tbls, al, a, last))
    ensures LastAfter(tbls, al, a + b, last) == LastAfter(tbls, al, b, LastAfter(tbls, al, a, last))
    ensures DcInRange(tbls, al, a + b, last) <==> DcInRange(tbls, al, a, last) && DcInRange(tbls, al, b, LastAfter(tbls, al, a, last))
    decreases |a|
  {
    hide DcTokens, FloorShift, FirstTokens, LastAfter, DcInRange, Category;
    FitPrefix(tbls, a, b, last);
    FitParts(tbls, a, b, last, LastAfter(tbls, al, a, last));
    FirstCons(tbls, al, a, last);
    if a == [] {
      assert a + b == b;
      assert [] + FirstTokens(tbls, al, b, last) == FirstTokens(tbls, al, b, last);
    } else {
      ConsAppend(a, b);
      FirstCons(tbls, al, a + b, last);
      var c, v := a[0].comp, FloorShift(a[0].dc, al);
      FirstAppend(tbls, al, a[1..], b, last[c := v]);
      var x, y, z := DcTokens(tbls[c], v - last[c]), FirstTokens(tbls, al, a[1..], last[c := v]), FirstTokens(tbls, al, b, LastAfter(tbls, al, a, last));
      assert x + (y + z) == (x + y) + z;
    }
  }

  lemma ConsAppend(a: seq<Item>, b: seq<Item>)
    requires a != []
    ensures (a + b)[0] == a[0] && (a + b)[1..] == a[1..] + b
  {
  }

  lemma FitPrefix(tbls: seq<nat>, a: seq<Item>, b: seq<Item>, last: seq<int>)
    requires ItemsFit(tbls, a + b, last)
    ensures ItemsFit(tbls, a, last)
  {
    assert forall i :: 0 <= i < |a| ==> a[i] == (a + b)[i];
  }

  lemma FitParts(tbls: seq<nat>, a: seq<Item>, b: seq<Item>, last: seq<int>, last': seq<int>)
    requires ItemsFit(tbls, a, last) && |last'| == |last|
    ensures ItemsFit(tbls, a + b, last) ==> ItemsFit(tbls, b, last')
  {
    assert forall i :: 0 <= i < |b| ==> b[i] == (a + b)[|a| + i];
  }

  lemma FirstCons(tbls: seq<nat>, al: nat, items: seq<Item>, last: seq<int>)
    requires ItemsFit(tbls, items, last)
    ensures items == [] ==> FirstTokens(tbls, al, items, last) == [] && LastAfter(tbls, al, items, last) == last && DcInRange(tbls, al, items, last)
    ensures items != [] ==>
              var c, v := items[0].comp, FloorShift(items[0].dc, al);
              && ItemsFit(tbls, items[1..], last[c := v])
              && FirstTokens(tbls, al, items, last) == DcTokens(tbls[c], v - last[c]) + FirstTokens(tbls, al, items[1..], last[c := v])
              && LastAfter(tbls, al, items, last) == LastAfter(tbls, al, items[1..], last[c := v])
              && (DcInRange(tbls, al, items, last) <==>
                  Category(Abs(v - last[c])) <= MAX_COEF_BITS + 1 && DcInRange(tbls, al, items[1..], last[c := v]))
  {
    hide DcTokens, FloorShift, Category;
  }

  /** The limits of the first scan: differences of less than 2048, of either sign. */
  lemma DcLimits(tbls: seq<nat>, al: nat, items: seq<Item>, last: seq<int>)
    requires ItemsFit(tbls, items, last)
    ensures items == [] ==> DcInRange(tbls, al, items, last)
    ensures items != [] ==>
              var c, v := items[0].comp, FloorShift(items[0].dc, al);
              DcInRange(tbls, al, items, last) <==> -2048 < v - last[c] < 2048 && DcInRange(tbls, al, items[1..], last[c := v])
  {
    hide FloorShift, Category;
    TenBits();
    if items != [] {
      CategoryLimit(Abs(FloorShift(items[0].dc, al) - last[items[0].comp]), 11);
    }
  }

  /** The DC coefficients of an MCU, block by block. */
  function ItemsOf(scan: Scan, mcu: Mcu): (items: seq<Item>)
    requires |mcu| == |scan.membership|
    ensures |items| == |mcu|
  {
    seq(|mcu|, i requires 0 <= i < |mcu| => Item(scan.membership[i], mcu[i][0]))
  }

  lemma OneItem(tbls: seq<nat>, al: nat, item: Item, last: seq<int>)
    requires |last| == |tbls| && item.comp < |tbls|
    ensures var v := FloorShift(item.dc, al);
            && FirstTokens(tbls, al, [item], last) == DcTokens(tbls[item.comp], v - last[item.comp])
            && LastAfter(tbls, al, [item], last) == last[item.comp := v]
            && (DcInRange(tbls, al, [item], last) <==> Category(Abs(v - last[item.comp])) <= MAX_COEF_BITS + 1)
  {
    hide DcTokens, FloorShift, Category;
    assert [item][1..] == [];
    assert DcTokens(tbls[item.comp], FloorShift(item.dc, al) - last[item.comp]) + [] == DcTokens(tbls[item.comp], FloorShift(item.dc, al) - last[item.comp]);
  }

  lemma NextItem(before: seq<Item>, all: seq<Item>, n: nat)
    requires n < |all|
    ensures before + all[..n + 1] == (before + all[..n]) + [all[n]]
  {
  }

  /** The point transform of a DC coefficient. */
  method ArithmeticShift(v: int, al: nat) returns (s: int)
    ensures s == FloorShift(v, al)
  {
    s := v;
    for i := 0 to al
      invariant s == FloorShift(v, i)
    {
      s := s / 2;
    }
  }

  /** The encoder in the output pass of a DC scan; its destination does not suspend. */
  class DcEncoder {
    const scan: Scan
    const book: Book
    const al: nat
    const refine: bool
    const state: WorkingState
    var lastDc: seq<int>
    var restartsToGo: nat
    var nextRestartNum: nat
    ghost var written: Bytes
    ghost var done: seq<seq<Item>>
    ghost var items: seq<Item>

    constructor (scan: Scan, book: Book, al: nat, refine: bool, free: nat, bufferSize: nat)
      requires ValidScan(scan) && ValidBook(book) && free > 0 && bufferSize > 0
      ensures Valid() && this.scan == scan && this.book == book && this.al == al && this.refine == refine
      ensures written == [] && done == [] && items == [] && restartsToGo == scan.restartInterval && fresh(state)
    {
      hide ValidBook, Pack, Buffered, Partial, BitsOf, AllCoded, Value, Pow2;
      this.scan, this.book, this.al, this.refine := scan, book, al, refine;
      state := new WorkingState([], free, 0, 0, [], false, bufferSize);
      lastDc, restartsToGo, nextRestartNum := Zeros(|scan.dcTbl|), scan.restartInterval, 0;
      written, done, items := [], [], [];
      new;
      NothingWritten();
      NothingSent(state, book, [], []);
    }

    /** What the DC coefficients of the interval are coded as. */
    ghost function Tokens(items: seq<Item>): seq<Token>
      requires ItemsFit(scan.dcTbl, items, Zeros(|scan.dcTbl|))
    {
      if refine then RefineTokens(al, items) else FirstTokens(scan.dcTbl, al, items, Zeros(|scan.dcTbl|))
    }

    ghost predicate Valid()
      reads this, state
    {
      && ValidBook(book) && ValidScan(scan) && nextRestartNum < 8 && !state.suspending
      && ItemsFit(scan.dcTbl, items, Zeros(|scan.dcTbl|))
      && Progress(state, book, written, [], Tokens(items), 0)
      && (!refine ==> lastDc == LastAfter(scan.dcTbl, al, items, Zeros(|scan.dcTbl|)) && DcInRange(scan.dcTbl, al, items, Zeros(|scan.dcTbl|)))
      && |lastDc| == |scan.dcTbl|
    }

    /** One block of component ci in a first scan. */
    method EncodeFirst(ci: nat, dc: int) returns (st: Outcome)
      requires Valid() && !refine && ci < |scan.dcTbl|
      modifies this`lastDc, this`items, state`out, state`free, state`putBuffer, state`putBits
      ensures st != Suspended
      ensures st == Done ==> Valid() && items == old(items) + [Item(ci, dc)]
      ensures st == BadCoefficient ==> !DcInRange(scan.dcTbl, al, old(items) + [Item(ci, dc)], Zeros(|scan.dcTbl|))
      ensures st == MissingCode ==> !AllCoded(book, Tokens(old(items) + [Item(ci, dc)]))
    {
      hide DcTokens, FloorShift, Category, Progress, AllCoded, ValidBook;
      ghost var item, zero := Item(ci, dc), Zeros(|scan.dcTbl|);
      FirstAppend(scan.dcTbl, al, items, [item], zero);
      OneItem(scan.dcTbl, al, item, lastDc);
      var temp2 := ArithmeticShift(dc, al);
      var temp := temp2 - lastDc[ci];
      ghost var all := Tokens(items + [item]);
      assert all == Tokens(items) + (DcTokens(scan.dcTbl[ci], temp) + []);
      st := EncodeDc(state, book, scan.dcTbl[ci], temp, written, [], Tokens(items), [], all, 0);
      lastDc := lastDc[ci := temp2];
      if st == Done {
        items := items + [item];
      }
    }

    /** One block of a refinement scan: the bit at position Al. */
    method EncodeRefine(ci: nat, dc: int)
      requires Valid() && refine && ci < |scan.dcTbl|
      modifies this`items, state`out, state`free, state`putBuffer, state`putBits
      ensures Valid() && items == old(items) + [Item(ci, dc)]
    {
      hide FloorShift, Progress, AllCoded, ValidBook;
      ghost var item := Item(ci, dc);
      var temp := ArithmeticShift(dc, al);
      assert RefineTokens(al, items + [item]) == RefineTokens(al, items) + [Raw(temp, 1)];
      var _ := Send(state, book, Raw(temp, 1), written, [], Tokens(items), 0);
      items := items + [item];
    }

    predicate Due()
      reads this
    {
      RestartDue(scan, restartsToGo)
    }

    /** What cannot be coded at its beginning cannot be coded. */
    lemma FailsAsAWhole(part: seq<Item>, rest: seq<Item>)
      requires ValidBook(book) && !refine && ItemsFit(scan.dcTbl, part + rest, Zeros(|scan.dcTbl|)) && ItemsFit(scan.dcTbl, part, Zeros(|scan.dcTbl|))
      ensures !DcInRange(scan.dcTbl, al, part, Zeros(|scan.dcTbl|)) ==> !DcInRange(scan.dcTbl, al, part + rest, Zeros(|scan.dcTbl|))
      ensures !AllCoded(book, Tokens(part)) ==> !AllCoded(book, Tokens(part + rest))
    {
      hide FirstTokens, LastAfter, DcInRange, ValidBook;
      FirstAppend(scan.dcTbl, al, part, rest, Zeros(|scan.dcTbl|));
      var a, b := Tokens(part), Tokens(part + rest);
      if i :| 0 <= i < |a| && !Coded(book, a[i]) {
        assert b[i] == a[i];
      }
    }

    /** The blocks of an MCU. */
    method EncodeBlocks(mcu: Mcu) returns (st: Outcome)
      requires Valid() && |mcu| == |scan.membership|
      modifies this`lastDc, this`items, state`out, state`free, state`putBuffer, state`putBits
      ensures st != Suspended && (refine ==> st == Done)
      ensures st == Done ==> Valid() && items == old(items) + ItemsOf(scan, mcu)
      ensures st == BadCoefficient ==> !DcInRange(scan.dcTbl, al, old(items) + ItemsOf(scan, mcu), Zeros(|scan.dcTbl|))
      ensures st == MissingCode ==> !AllCoded(book, Tokens(old(items) + ItemsOf(scan, mcu)))
    {
      hide Progress, AllCoded, ValidBook, BitsOf, FirstTokens, LastAfter, DcInRange;
      ghost var all := ItemsOf(scan, mcu);
      assert items + all[..0] == items;
      for blkn := 0 to |mcu|
        invariant Valid() && items == old(items) + all[..blkn]
      {
        NextItem(old(items), all, blkn);
        if refine {
          EncodeRefine(scan.membership[blkn], mcu[blkn][0]);
        } else {
          ghost var now := items;
          st := EncodeFirst(scan.membership[blkn], mcu[blkn][0]);
          if st != Done {
            FailsAsAWhole(now + [all[blkn]], all[blkn + 1..]);
            assert now + [all[blkn]] + all[blkn + 1..] == old(items) + all;
            return;
          }
        }
      }
      assert all[..|mcu|] == all;
      st := Done;
    }

    /** encode_mcu_DC_first or encode_mcu_DC_refine. */
    method EncodeMcu(mcu: Mcu) returns (st: Outcome)
      requires Valid() && |mcu| == |scan.membership|
      modifies this, state
      ensures st != Suspended
      ensures st == Done ==> Valid() && items == (if old(Due()) then [] else old(items)) + ItemsOf(scan, mcu)
      ensures st == Done ==> done == if old(Due()) then old(done) + [old(items)] else old(done)
      ensures st == Done && old(Due()) ==> written == Ended(old(written), BitsOf(book, old(Tokens(items))), old(nextRestartNum))
      ensures st == Done && !old(Due()) ==> written == old(written)
      ensures st == Done ==> restartsToGo == if scan.restartInterval == 0 then old(restartsToGo)
                                             else if old(Due()) then scan.restartInterval - 1 else old(restartsToGo) - 1
      ensures st == Done ==> nextRestartNum == if old(Due()) then (old(nextRestartNum) + 1) % 8 else old(nextRestartNum)
      ensures refine ==> st == Done
      ensures st == BadCoefficient ==>
                !DcInRange(scan.dcTbl, al, (if old(Due()) then [] else old(items)) + ItemsOf(scan, mcu), Zeros(|scan.dcTbl|))
      ensures st == MissingCode ==> !AllCoded(book, Tokens((if old(Due()) then [] else old(items)) + ItemsOf(scan, mcu)))
    {
      hide Progress, AllCoded, ValidBook, BitsOf, FirstTokens, LastAfter, DcInRange, Ended, FilledWithOnes, RefineTokens, ItemsFit;
      if scan.restartInterval != 0 {
        if restartsToGo == 0 {
          BeginInterval();
        }
      }
      st := EncodeBlocks(mcu);
      if st != Done {
        return;
      }
      if scan.restartInterval != 0 {
        if restartsToGo == 0 {
          restartsToGo := scan.restartInterval;
          nextRestartNum := (nextRestartNum + 1) % 8;
        }
        restartsToGo := restartsToGo - 1;
      }
      st := Done;
    }

    /** emit_restart in a DC scan. */
    method BeginInterval()
      requires Valid()
      modifies this`written, this`done, this`items, this`lastDc, state
      ensures Valid() && items == [] && done == old(done) + [old(items)] && AllCoded(book, old(Tokens(items)))
      ensures written == Ended(old(written), BitsOf(book, old(Tokens(items))), nextRestartNum)
      ensures exists bytes :: FilledWithOnes(BitsOf(book, old(Tokens(items))), bytes) && written == old(written) + bytes + [0xFF, 0xD0 + nextRestartNum]
    {
      hide AllCoded, ValidBook, BitsOf, FirstTokens, Pack, Padding, Buffered, Partial, ValidScan, FilledWithOnes;
      ghost var s := BitsOf(book, Tokens(items));
      assert [] + s == s;
      PaddedWithOnes(s);
      var _ := EmitRestart(state, nextRestartNum, written, s);
      written, done, items := Ended(written, s, nextRestartNum), done + [items], [];
      lastDc := Zeros(|lastDc|);
      NoTokens();
      NothingSent(state, book, written, []);
    }

    /** finish_pass_phuff, for a DC scan: flushes the last bits. */
    method FinishPass()
      requires Valid()
      modifies state`out, state`free, state`putBuffer, state`putBits
      ensures AllCoded(book, Tokens(items)) && state.out == written + Pack(BitsOf(book, Tokens(items)) + Padding())
      ensures exists bytes :: FilledWithOnes(BitsOf(book, Tokens(items)), bytes) && state.out == written + bytes
    {
      hide FilledWithOnes, BitsOf, Pack, Buffered, AllCoded, ValidBook, Padding, Word, Value, Pow2, Partial, FirstTokens, LastAfter, DcInRange;
      NothingWritten();
      ghost var s := BitsOf(book, Tokens(items));
      assert [] + s == s;
      PaddedWithOnes(s);
      var _ := state.FlushBits(written, s);
    }

    lemma NoTokens()
      ensures Tokens([]) == [] && LastAfter(scan.dcTbl, al, [], Zeros(|scan.dcTbl|)) == Zeros(|scan.dcTbl|)
    {
    }
  }
}
