/**
 The dummy blocks that complete the MCUs of an interleaved scan (jpeg/jccoefct.c): what is in them,
 and what they cost.
 */
module DummyBlocks {
  import opened JpegLimits
  import opened FrameGeometry
  import opened Coefficients
  import opened BlockCoding
  import opened ScanCoding
  import opened McuOrder
  import opened CoefController

  /** No AC coefficients. */
  ghost predicate OnlyDc(b: Block)
  {
    forall i :: 1 <= i < DCTSIZE2 ==> b[i] == 0
  }

  /**
   What the blocks of a component are: inside the image what the DCT has made; to the right of it
   nothing but the DC value of the block before; below it nothing but the DC value of the last block
   of the same MCU in the row above.
   */
  lemma PaddingRules(p: Layout, dct: Transform, ci: nat, r: nat, y: nat, x: nat)
    requires ValidLayout(p) && ci < |p.comps|
    ensures var b, rows, n, h := Padded(p, dct, ci, r, y, x), RealRows(p, ci, r), p.comps[ci].widthInBlocks, p.comps[ci].h;
            && (y < rows && x < n ==> b == dct(ci, r, y * DCTSIZE, x * DCTSIZE))
            && (y < rows && x >= n ==> x > 0 && OnlyDc(b) && b[0] == Padded(p, dct, ci, r, y, x - 1)[0])
            && (y >= rows ==> y > 0 && OnlyDc(b) && b[0] == Padded(p, dct, ci, r, y - 1, x / h * h + h - 1)[0])
  {
  }

  /** The block rows of a component in an MCU come one after the other. */
  lemma {:induction false} CompSpotAt(ci: nat, r: nat, y: nat, x: nat, w: nat, n: nat, j: nat, i: nat)
    requires j < n && i < w
    ensures j * w + i < n * w && CompSpots(ci, r, y, x, w, n)[j * w + i] == Spot(ci, r, y + j, x + i)
  {
    RowFits(j, n, w);
    if j < n - 1 {
      CompSpotAt(ci, r, y, x, w, n - 1, j, i);
      RowFits(j, n - 1, w);
    }
  }

  /** Block k of an MCU is that of row j and column i of some component, behind those of the components before. */
  lemma {:induction false} Locate(p: Layout, scan: seq<nat>, r: nat, m: nat, n: nat, k: nat) returns (c: nat, j: nat, i: nat)
    requires ScanOf(p, scan) && Interleaved(scan) && n <= |scan| && k < BlocksIn(p, scan, n)
    ensures c < n && j < p.comps[scan[c]].v && i < p.comps[scan[c]].h && k == BlocksIn(p, scan, c) + j * p.comps[scan[c]].h + i
    decreases n
  {
    var w, before := p.comps[scan[n - 1]].h, BlocksIn(p, scan, n - 1);
    if k < before {
      c, j, i := Locate(p, scan, r, m, n - 1, k);
    } else {
      c, j, i := n - 1, (k - before) / w, (k - before) % w;
      assert k - before == j * w + i;
      if j >= p.comps[scan[c]].v {
        Scaled(p.comps[scan[c]].v, j, w);
      }
    }
  }

  lemma {:induction false} SpotOfMcu(p: Layout, scan: seq<nat>, r: nat, m: nat, n: nat, c: nat, j: nat, i: nat)
    requires ScanOf(p, scan) && Interleaved(scan) && c < n <= |scan| && j < p.comps[scan[c]].v && i < p.comps[scan[c]].h
    ensures var h, k := p.comps[scan[c]].h, BlocksIn(p, scan, c) + j * p.comps[scan[c]].h + i;
            k < BlocksIn(p, scan, n) == |McuSpots(p, scan, r, 0, m, n)| && McuSpots(p, scan, r, 0, m, n)[k] == Spot(scan[c], r, j, m * h + i)
    decreases n
  {
    McuSize(p, scan, r, 0, m, n);
    McuSize(p, scan, r, 0, m, n - 1);
    if c < n - 1 {
      SpotOfMcu(p, scan, r, m, n - 1, c, j, i);
      SizeNotNegative(p.comps[scan[n - 1]].v, p.comps[scan[n - 1]].h);
    } else {
      CompSpotAt(scan[c], r, 0, m * p.comps[scan[c]].h, p.comps[scan[c]].h, p.comps[scan[c]].v, j, i);
    }
  }

  /** Both blocks of a component are in the same MCU, one right before the other. */
  lemma JustBefore(p: Layout, scan: seq<nat>, r: nat, m: nat, c: nat, j: nat, i: nat)
    requires ScanOf(p, scan) && Interleaved(scan) && c < |scan| && j < p.comps[scan[c]].v && i < p.comps[scan[c]].h && j + i > 0
    ensures var h, k := p.comps[scan[c]].h, BlocksIn(p, scan, c) + j * p.comps[scan[c]].h + i;
            && 0 < k < |McuSpots(p, scan, r, 0, m, |scan|)|
            && McuSpots(p, scan, r, 0, m, |scan|)[k - 1] == if i > 0 then Spot(scan[c], r, j, m * h + i - 1) else Spot(scan[c], r, j - 1, m * h + h - 1)
  {
    hide McuSpots, BlocksIn;
    var h := p.comps[scan[c]].h;
    SpotOfMcu(p, scan, r, m, |scan|, c, j, i);
    if i > 0 {
      SpotOfMcu(p, scan, r, m, |scan|, c, j, i - 1);
    } else {
      SpotOfMcu(p, scan, r, m, |scan|, c, j - 1, h - 1);
      Neighbours(j, h);
    }
  }

  /** A dummy block has the DC value of the block before it. */
  lemma LikeTheOneBefore(p: Layout, dct: Transform, scan: seq<nat>, r: nat, m: nat, c: nat, j: nat, i: nat)
    requires ScanOf(p, scan) && Interleaved(scan) && m < p.across && c < |scan| && j < p.comps[scan[c]].v && i < p.comps[scan[c]].h
    requires j >= RealRows(p, scan[c], r) || m * p.comps[scan[c]].h + i >= p.comps[scan[c]].widthInBlocks
    ensures j + i > 0
    ensures var h, b := p.comps[scan[c]].h, Padded(p, dct, scan[c], r, j, m * p.comps[scan[c]].h + i);
            OnlyDc(b) && b[0] == (if i > 0 then Padded(p, dct, scan[c], r, j, m * h + i - 1) else Padded(p, dct, scan[c], r, j - 1, m * h + h - 1))[0]
  {
    hide Padded, RealRows, ValidComponent;
    var ci := scan[c];
    var h := p.comps[ci].h;
    RealColumns(p, scan, ci, m);
    PaddingRules(p, dct, ci, r, j, m * h + i);
    QuotientOf(m * h + i, h, m, i);
    if i > 0 {
      PaddingRules(p, dct, ci, r, j, m * h + i - 1);
      QuotientOf(m * h + i - 1, h, m, i - 1);
    }
  }

  /**
   Every dummy block comes right after a block of the same component with the same DC value and has
   no AC coefficients, so that it is coded as a difference of zero and an end of block.
   */
  lemma DummiesCostNothing(p: Layout, dct: Transform, scan: seq<nat>, r: nat, m: nat, k: nat, dcTbl: nat, acTbl: nat)
    requires ScanOf(p, scan) && Interleaved(scan) && r < p.down && m < p.across && k < |McuSpots(p, scan, r, 0, m, |scan|)|
    requires !Real(p, McuSpots(p, scan, r, 0, m, |scan|)[k])
    ensures var spots := McuSpots(p, scan, r, 0, m, |scan|);
            k > 0 && spots[k - 1].ci == spots[k].ci
    ensures var blocks := BlocksAt(p, dct, McuSpots(p, scan, r, 0, m, |scan|));
            && OnlyDc(blocks[k]) && blocks[k][0] == blocks[k - 1][0]
            && BlockTokens(dcTbl, acTbl, blocks[k], blocks[k - 1][0]) == [Symbol(true, dcTbl, 0), Symbol(false, acTbl, 0)]
  {
    hide McuSpots, BlocksIn, Padded, RealRows;
    McuSize(p, scan, r, 0, m, |scan|);
    var c, j, i := Locate(p, scan, r, m, |scan|, k);
    SpotOfMcu(p, scan, r, m, |scan|, c, j, i);
    LikeTheOneBefore(p, dct, scan, r, m, c, j, i);
    JustBefore(p, scan, r, m, c, j, i);
    var blocks := BlocksAt(p, dct, McuSpots(p, scan, r, 0, m, |scan|));
    CostsNothing(dcTbl, acTbl, blocks[k]);
  }

  lemma CostsNothing(dcTbl: nat, acTbl: nat, b: Block)
    requires OnlyDc(b)
    ensures BlockTokens(dcTbl, acTbl, b, b[0]) == [Symbol(true, dcTbl, 0), Symbol(false, acTbl, 0)]
  {
    hide Natural, AcTokens;
    NoAc(acTbl, b, 1, 0);
  }

  lemma {:induction false} NoAc(tbl: nat, b: Block, k: nat, r: nat)
    requires OnlyDc(b) && 1 <= k <= DCTSIZE2 && (k == DCTSIZE2 ==> r > 0)
    ensures AcTokens(tbl, b, k, r) == [Symbol(false, tbl, 0)]
    decreases DCTSIZE2 - k
  {
    hide Natural, Zigzag, Appended;
    if k < DCTSIZE2 {
      PastDc(k);
      NoAc(tbl, b, k + 1, r + 1);
    }
  }

  lemma PastDc(k: nat)
    requires 1 <= k < DCTSIZE2
    ensures Natural(k) >= 1
  {
    hide Natural, Zigzag;
    OrdersInverse(k);
    OrdersInverse(0);
    FirstZigzag();
  }

  lemma FirstZigzag()
    ensures Zigzag(0) == 0
  {
  }
}
