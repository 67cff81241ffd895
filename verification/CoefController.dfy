/**
 The coefficient controller of the compressor (jpeg/jccoefct.c). compress_data works on one MCU at a
 time; compress_first_pass fills the virtual arrays, dummy blocks included, and compress_output
 reads MCUs from them. Both present the same MCUs to the entropy coder.
 */
module CoefController {
  import opened JpegLimits
  import opened FrameGeometry
  import opened Coefficients
  import opened BlockCoding
  import opened ScanCoding
  import opened McuOrder

  /** What forward_DCT makes of component, iMCU row, and the sample row and column within its input. */
  type Transform = (nat, nat, nat, nat) -> Block

  /** A dummy block: no AC coefficients, and the DC value of another block. */
  function Dummy(like: Block): (b: Block)
  {
    [like[0]] + seq(DCTSIZE2 - 1, _ => 0)
  }

  lemma DummyOfDummy(like: Block)
    ensures Dummy(Dummy(like)) == Dummy(like)
  {
  }

  /**
   A component with dummy blocks beyond its edges: at the right they are like the last block of
   the row, at the bottom like the last block of the MCU's row above.
   */
  ghost function Padded(p: Layout, dct: Transform, ci: nat, r: nat, y: nat, x: nat): Block
    requires ValidLayout(p) && ci < |p.comps|
    decreases y
  {
    var c := p.comps[ci];
    if y >= RealRows(p, ci, r) then Dummy(Padded(p, dct, ci, r, y - 1, x / c.h * c.h + c.h - 1))
    else if x >= c.widthInBlocks then Dummy(dct(ci, r, y * DCTSIZE, (c.widthInBlocks - 1) * DCTSIZE))
    else dct(ci, r, y * DCTSIZE, x * DCTSIZE)
  }

  /** The block at a place; places are only ever those of components of the frame. */
  ghost function BlockAt(p: Layout, dct: Transform, s: Spot): Block
    requires ValidLayout(p)
  {
    Padded(p, dct, if s.ci < |p.comps| then s.ci else 0, s.r, s.y, s.x)
  }

  /** An MCU, from the places of its blocks. */
  ghost function BlocksAt(p: Layout, dct: Transform, spots: seq<Spot>): (b: Mcu)
    requires ValidLayout(p)
    ensures |b| == |spots|
  {
    seq(|spots|, k requires 0 <= k < |spots| => BlockAt(p, dct, spots[k]))
  }

  lemma BlocksAtAppend(p: Layout, dct: Transform, a: seq<Spot>, b: seq<Spot>)
    requires ValidLayout(p)
    ensures BlocksAt(p, dct, a + b) == BlocksAt(p, dct, a) + BlocksAt(p, dct, b)
  {
    hide BlockAt;
  }

  /** A sequence of MCUs. */
  ghost function McusAt(p: Layout, dct: Transform, mcus: seq<seq<Spot>>): (s: seq<Mcu>)
    requires ValidLayout(p)
    ensures |s| == |mcus|
  {
    seq(|mcus|, i requires 0 <= i < |mcus| => BlocksAt(p, dct, mcus[i]))
  }

  /** How many blocks an MCU has of the first n components of the scan. */
  function BlocksIn(p: Layout, scan: seq<nat>, n: nat): nat
    requires n <= |scan| && forall i :: 0 <= i < |scan| ==> scan[i] < |p.comps|
  {
    if n == 0 then 0 else BlocksIn(p, scan, n - 1) + McuHeight(p, scan, scan[n - 1]) * McuWidth(p, scan, scan[n - 1])
  }

  lemma {:induction false} McuSize(p: Layout, scan: seq<nat>, r: nat, yoffset: nat, m: nat, n: nat)
    requires n <= |scan| && forall i :: 0 <= i < |scan| ==> scan[i] < |p.comps|
    ensures |McuSpots(p, scan, r, yoffset, m, n)| == BlocksIn(p, scan, n)
    ensures forall k :: 0 <= k <= n ==> BlocksIn(p, scan, k) <= BlocksIn(p, scan, n)
  {
    if n > 0 {
      McuSize(p, scan, r, yoffset, m, n - 1);
      SizeNotNegative(McuHeight(p, scan, scan[n - 1]), McuWidth(p, scan, scan[n - 1]));
    }
  }

  lemma SizeNotNegative(a: nat, b: nat)
    ensures a * b >= 0
  {
  }

  /** per_scan_setup accepts the scan. */
  ghost predicate Acceptable(p: Layout, scan: seq<nat>)
    requires forall i :: 0 <= i < |scan| ==> scan[i] < |p.comps|
  {
    |scan| == 1 || (1 < |scan| <= MAX_COMPS_IN_SCAN && BlocksIn(p, scan, |scan|) <= C_MAX_BLOCKS_IN_MCU)
  }

  /** MCU_membership: the position in the scan of the component that each block of an MCU is of. */
  function Membership(p: Layout, scan: seq<nat>, n: nat): (s: seq<nat>)
    requires n <= |scan| && forall i :: 0 <= i < |scan| ==> scan[i] < |p.comps|
    ensures |s| == BlocksIn(p, scan, n)
  {
    if n == 0 then []
    else Membership(p, scan, n - 1) + seq(McuHeight(p, scan, scan[n - 1]) * McuWidth(p, scan, scan[n - 1]), _ => n - 1)
  }

  lemma {:induction false} CompSpotsAre(ci: nat, r: nat, y: nat, x: nat, w: nat, n: nat, k: nat)
    requires k < n * w
    ensures CompSpots(ci, r, y, x, w, n)[k].ci == ci
  {
    if n > 0 && k < (n - 1) * w {
      CompSpotsAre(ci, r, y, x, w, n - 1, k);
    }
  }

  /** The membership that the entropy coder goes by names the right component for each block of every MCU. */
  lemma {:induction false} MembershipNamesComponents(p: Layout, scan: seq<nat>, r: nat, yoffset: nat, m: nat, n: nat, k: nat)
    requires n <= |scan| && (forall i :: 0 <= i < |scan| ==> scan[i] < |p.comps|) && k < BlocksIn(p, scan, n)
    ensures |McuSpots(p, scan, r, yoffset, m, n)| == BlocksIn(p, scan, n)
    ensures Membership(p, scan, n)[k] < n && McuSpots(p, scan, r, yoffset, m, n)[k].ci == scan[Membership(p, scan, n)[k]]
  {
    McuSize(p, scan, r, yoffset, m, n);
    var before := BlocksIn(p, scan, n - 1);
    McuSize(p, scan, r, yoffset, m, n - 1);
    if k < before {
      MembershipNamesComponents(p, scan, r, yoffset, m, n - 1, k);
    } else {
      var ci := scan[n - 1];
      var w := McuWidth(p, scan, ci);
      CompSpotsAre(ci, r, yoffset, m * w, w, McuHeight(p, scan, ci), k - before);
    }
  }

  /** The entropy coder as it is seen from here: it takes an MCU or it suspends. */
  class EntropySink {
    var answers: seq<bool>
    var received: seq<Mcu>

    constructor (answers: seq<bool>)
      ensures this.answers == answers && received == []
    {
      this.answers, received := answers, [];
    }

    /** encode_mcu: when it suspends it has taken nothing. After the given answers it takes everything. */
    method EncodeMcu(mcu: Mcu) returns (ok: bool)
      modifies this
      ensures received == if ok then old(received) + [mcu] else old(received)
      ensures |answers| <= old(|answers|) && (!ok ==> |answers| < old(|answers|))
    {
      ok := if |answers| > 0 then answers[0] else true;
      if |answers| > 0 {
        answers := answers[1..];
      }
      if ok {
        received := received + [mcu];
      }
    }
  }

  class Controller {
    const p: Layout
    const dct: Transform
    const entropy: EntropySink
    const mcuBuffer: array<Block>
    const wholeImage: seq<array2<Block>>
    var scan: seq<nat>
    var mcusPerRow: nat
    var membership: seq<nat>
    var iMcuRowNum: nat
    var mcuCtr: nat
    var mcuVertOffset: nat
    var mcuRowsPerIMcuRow: nat
    ghost var before: seq<Mcu>

    /** jinit_c_coef_controller: virtual arrays padded to whole MCUs, or none. */
    constructor (p: Layout, dct: Transform, needFullBuffer: bool, answers: seq<bool>)
      requires ValidLayout(p)
      ensures this.p == p && this.dct == dct && entropy.received == [] && mcuBuffer.Length == C_MAX_BLOCKS_IN_MCU
      ensures fresh(entropy) && fresh(mcuBuffer) && entropy.answers == answers
      ensures if needFullBuffer then ImageFor(p, wholeImage) && Stored(0) else wholeImage == []
      ensures forall i :: 0 <= i < |wholeImage| ==> fresh(wholeImage[i])
    {
      this.p, this.dct := p, dct;
      entropy := new EntropySink(answers);
      mcuBuffer := new Block[C_MAX_BLOCKS_IN_MCU](_ => ZeroBlock());
      if needFullBuffer {
        var arrays := RequestArrays(p);
        wholeImage := arrays;
      } else {
        wholeImage := [];
      }
      scan, mcusPerRow, membership, iMcuRowNum := [], 0, [], 0;
      mcuCtr, mcuVertOffset, mcuRowsPerIMcuRow := 0, 0, 0;
      before := [];
    }

    /** per_scan_setup refuses a scan of too many components or, if interleaved, too many blocks in an MCU. */
    method PerScanSetup(newScan: seq<nat>) returns (ok: bool)
      requires ValidLayout(p) && forall i :: 0 <= i < |newScan| ==> newScan[i] < |p.comps|
      modifies this`scan, this`mcusPerRow, this`membership
      ensures ok <==> Acceptable(p, newScan)
      ensures ok ==> scan == newScan && mcusPerRow == McusPerRow(p, scan) && membership == Membership(p, scan, |scan|)
    {
      scan := newScan;
      if |scan| == 1 {
        mcusPerRow, membership := p.comps[scan[0]].widthInBlocks, [0];
        SingleBlock(p, scan);
        assert Membership(p, scan, 0) == [];
        return true;
      }
      if |scan| == 0 || |scan| > MAX_COMPS_IN_SCAN {
        return false;
      }
      mcusPerRow, membership := p.across, [];
      for ci := 0 to |scan|
        modifies this`membership
        invariant membership == Membership(p, scan, ci) && |membership| <= C_MAX_BLOCKS_IN_MCU
      {
        var mcublks := McuHeight(p, scan, scan[ci]) * McuWidth(p, scan, scan[ci]);
        if |membership| + mcublks > C_MAX_BLOCKS_IN_MCU {
          McuSize(p, scan, 0, 0, 0, |scan|);
          assert BlocksIn(p, scan, ci + 1) > C_MAX_BLOCKS_IN_MCU;
          return false;
        }
        membership := membership + seq(mcublks, _ => ci);
      }
      ok := true;
    }

    /** start_pass_coef, after the setup of the scan. */
    method StartPass(newScan: seq<nat>) returns (ok: bool)
      requires ValidLayout(p) && mcuBuffer.Length == C_MAX_BLOCKS_IN_MCU
      requires forall i :: 0 <= i < |newScan| ==> newScan[i] < |p.comps|
      modifies this
      ensures ok <==> Acceptable(p, newScan)
      ensures ok <==> |newScan| == 1 || (2 <= |newScan| <= 4 && |McuSpots(p, newScan, 0, 0, 0, |newScan|)| <= 10)
      ensures ok ==> Valid() && scan == newScan && iMcuRowNum == 0 == mcuVertOffset == mcuCtr && before == entropy.received
    {
      ok := PerScanSetup(newScan);
      McuSize(p, newScan, 0, 0, 0, |newScan|);
      if ok {
        iMcuRowNum := 0;
        StartIMcuRow();
        before := entropy.received;
        BeforeNext(p, scan, 0, 0, 0);
      }
    }

    /** What the entropy coder has taken in this pass is exactly what comes before the next MCU. */
    ghost predicate At(yoffset: nat, col: nat)
      requires ScanOf(p, scan)
      reads this`scan, this`iMcuRowNum, this`before, entropy
    {
      entropy.received == before + McusAt(p, dct, Before(p, scan, iMcuRowNum, yoffset, col))
    }

    ghost predicate Set()
      reads this
    {
      && ScanOf(p, scan) && Acceptable(p, scan) && mcuBuffer.Length == C_MAX_BLOCKS_IN_MCU
      && mcusPerRow == McusPerRow(p, scan) && membership == Membership(p, scan, |scan|)
      && mcuRowsPerIMcuRow == McuRows(p, scan, iMcuRowNum) && iMcuRowNum <= p.down
      && mcuVertOffset < mcuRowsPerIMcuRow && mcuCtr < mcusPerRow
    }

    ghost predicate Valid()
      reads this, entropy
    {
      Set() && At(mcuVertOffset, mcuCtr)
    }

    /** start_iMCU_row. */
    method StartIMcuRow()
      requires ScanOf(p, scan)
      modifies this`mcuRowsPerIMcuRow, this`mcuCtr, this`mcuVertOffset
      ensures mcuRowsPerIMcuRow == McuRows(p, scan, iMcuRowNum) && mcuCtr == 0 == mcuVertOffset
    {
      if |scan| > 1 {
        mcuRowsPerIMcuRow := 1;
      } else {
        var c := p.comps[scan[0]];
        if iMcuRowNum < p.down - 1 {
          mcuRowsPerIMcuRow := c.v;
        } else {
          mcuRowsPerIMcuRow := LastPart(c.heightInBlocks, c.v);
        }
      }
      mcuCtr := 0;
      mcuVertOffset := 0;
    }

    /** A block goes into the workspace. */
    method Put(at: nat, b: Block)
      requires at < mcuBuffer.Length
      modifies mcuBuffer
      ensures mcuBuffer[..at + 1] == old(mcuBuffer[..at]) + [b]
    {
      mcuBuffer[at] := b;
    }

    /** forward_DCT, for n blocks in a row of which x is the first. */
    method ForwardDct(ci: nat, at: nat, ypos: nat, xpos: nat, n: nat, ghost y: nat, ghost x: nat)
      requires ValidLayout(p) && ci < |p.comps| && at + n <= mcuBuffer.Length
      requires ypos == y * DCTSIZE && xpos == x * DCTSIZE
      requires y < RealRows(p, ci, iMcuRowNum) && x + n <= p.comps[ci].widthInBlocks
      modifies mcuBuffer
      ensures mcuBuffer[..at + n] == old(mcuBuffer[..at]) + Row(p, dct, ci, iMcuRowNum, y, x, n)
    {
      hide Padded, ValidLayout, Row;
      RowStep(p, dct, ci, iMcuRowNum, y, x, 0);
      for k := 0 to n
        invariant mcuBuffer[..at + k] == old(mcuBuffer[..at]) + Row(p, dct, ci, iMcuRowNum, y, x, k)
      {
        PaddedReal(p, dct, ci, iMcuRowNum, y, x + k);
        RowStep(p, dct, ci, iMcuRowNum, y, x, k);
        Put(at + k, dct(ci, iMcuRowNum, ypos, xpos + k * DCTSIZE));
      }
    }

    /** Dummy blocks at the right edge: all zeros, with the DC value of the block before. */
    method PadRight(ci: nat, at: nat, from: nat, to: nat, ghost y: nat, ghost x: nat)
      requires ValidLayout(p) && ci < |p.comps| && 0 < from <= to && at + to <= mcuBuffer.Length
      requires y < RealRows(p, ci, iMcuRowNum) && (from < to ==> x + from == p.comps[ci].widthInBlocks)
      requires mcuBuffer[at..at + from] == Row(p, dct, ci, iMcuRowNum, y, x, from)
      modifies mcuBuffer
      ensures mcuBuffer[..at + to] == old(mcuBuffer[..at]) + Row(p, dct, ci, iMcuRowNum, y, x, to)
    {
      hide Padded, ValidLayout, Row, Dummy;
      ghost var above := mcuBuffer[..at];
      assert mcuBuffer[..at + from] == above + mcuBuffer[at..at + from];
      for k := from to to
        invariant mcuBuffer[..at + k] == above + Row(p, dct, ci, iMcuRowNum, y, x, k)
      {
        RowStep(p, dct, ci, iMcuRowNum, y, x, k - 1);
        RowStep(p, dct, ci, iMcuRowNum, y, x, k);
        PaddedRight(p, dct, ci, iMcuRowNum, y, x + k);
        assert mcuBuffer[at + k - 1] == mcuBuffer[..at + k][at + k - 1];
        Put(at + k, Dummy(mcuBuffer[at + k - 1]));
      }
    }

    /** Dummy blocks at the bottom edge: all zeros, with the DC value of the last block of the row before. */
    method PadBelow(ci: nat, at: nat, w: nat, ghost y: nat, ghost col: nat)
      requires ValidLayout(p) && ci < |p.comps| && 0 < at && at + w <= mcuBuffer.Length && w == p.comps[ci].h
      requires y >= RealRows(p, ci, iMcuRowNum) && mcuBuffer[at - 1] == Padded(p, dct, ci, iMcuRowNum, y - 1, col * w + w - 1)
      modifies mcuBuffer
      ensures mcuBuffer[..at + w] == old(mcuBuffer[..at]) + Row(p, dct, ci, iMcuRowNum, y, col * w, w)
    {
      hide Padded, ValidLayout, Row, Dummy;
      ghost var above, like := mcuBuffer[..at], mcuBuffer[at - 1];
      RowStep(p, dct, ci, iMcuRowNum, y, col * w, 0);
      for k := 0 to w
        invariant mcuBuffer[..at + k] == above + Row(p, dct, ci, iMcuRowNum, y, col * w, k)
      {
        RowStep(p, dct, ci, iMcuRowNum, y, col * w, k);
        PaddedBelow(p, dct, ci, iMcuRowNum, y, col, k);
        assert mcuBuffer[at - 1] == mcuBuffer[..at + k][at - 1] == like;
        Put(at + k, Dummy(mcuBuffer[at - 1]));
      }
    }

    /** One row of blocks of an MCU, real or dummy. */
    method LoadBlockRow(ci: nat, y: nat, col: nat, at: nat, ypos: nat)
      requires Set() && ci in scan && y < p.comps[ci].v && col < mcusPerRow && ypos == y * DCTSIZE
      requires at + McuWidth(p, scan, ci) <= mcuBuffer.Length
      requires y >= RealRows(p, ci, iMcuRowNum) ==> Interleaved(scan) && at > 0
      requires y >= RealRows(p, ci, iMcuRowNum) ==> mcuBuffer[at - 1] == Padded(p, dct, ci, iMcuRowNum, y - 1, col * McuWidth(p, scan, ci) + McuWidth(p, scan, ci) - 1)
      modifies mcuBuffer
      ensures var w := McuWidth(p, scan, ci); mcuBuffer[..at + w] == old(mcuBuffer[..at]) + Row(p, dct, ci, iMcuRowNum, y, col * w, w)
    {
      hide Padded, ValidLayout, Row, Dummy;
      var c, w := p.comps[ci], McuWidth(p, scan, ci);
      var xpos := col * (w * DCTSIZE);
      assert xpos == (col * w) * DCTSIZE;
      RealColumns(p, scan, ci, col);
      var blockcnt := if col < mcusPerRow - 1 then w else LastPart(c.widthInBlocks, w);
      if iMcuRowNum < p.down - 1 || y < LastPart(c.heightInBlocks, c.v) {
        ForwardDct(ci, at, ypos, xpos, blockcnt, y, col * w);
        if blockcnt < w {
          assert mcuBuffer[at..at + blockcnt] == mcuBuffer[..at + blockcnt][at..];
          assert mcuBuffer[..at] == mcuBuffer[..at + blockcnt][..at];
          PadRight(ci, at, blockcnt, w, y, col * w);
        }
      } else {
        PadBelow(ci, at, w, y, col);
      }
    }

    /** One component's blocks of an MCU. */
    method LoadComponent(ci: nat, yoffset: nat, col: nat, blkn: nat) returns (next: nat)
      requires Set() && ci in scan && yoffset < mcuRowsPerIMcuRow && col < mcusPerRow
      requires blkn + McuHeight(p, scan, ci) * McuWidth(p, scan, ci) <= mcuBuffer.Length
      modifies mcuBuffer
      ensures next == blkn + McuHeight(p, scan, ci) * McuWidth(p, scan, ci)
      ensures mcuBuffer[..next] == old(mcuBuffer[..blkn]) + CompBlocks(p, dct, scan, ci, iMcuRowNum, yoffset, col, McuHeight(p, scan, ci))
    {
      hide Padded, ValidLayout, Row, CompBlocks, Membership, McusPerRow, Acceptable, BlocksIn;
      var w, height := McuWidth(p, scan, ci), McuHeight(p, scan, ci);
      var ypos := yoffset * DCTSIZE;
      ghost var above := mcuBuffer[..blkn];
      next := blkn;
      CompStep(p, dct, scan, ci, iMcuRowNum, yoffset, col, 0);
      for yindex := 0 to height
        invariant next == blkn + yindex * w && ypos == (yoffset + yindex) * DCTSIZE
        invariant mcuBuffer[..next] == above + CompBlocks(p, dct, scan, ci, iMcuRowNum, yoffset, col, yindex)
      {
        RowFits(yindex, height, w);
        CompStep(p, dct, scan, ci, iMcuRowNum, yoffset, col, yindex);
        if yindex > 0 {
          CompLast(p, dct, scan, ci, iMcuRowNum, yoffset, col, yindex);
          assert mcuBuffer[next - 1] == mcuBuffer[..next][next - 1];
        }
        LoadBlockRow(ci, yoffset + yindex, col, next, ypos);
        next := next + w;
        ypos := ypos + DCTSIZE;
      }
    }

    /** One MCU. */
    method LoadMcu(yoffset: nat, col: nat) returns (blkn: nat)
      requires Set() && yoffset < mcuRowsPerIMcuRow && col < mcusPerRow
      modifies mcuBuffer
      ensures blkn <= mcuBuffer.Length && mcuBuffer[..blkn] == BlocksAt(p, dct, McuSpots(p, scan, iMcuRowNum, yoffset, col, |scan|))
    {
      hide CompBlocks, McuWidth, McuHeight;
      blkn := 0;
      for k := 0 to |scan|
        invariant blkn == BlocksIn(p, scan, k)
        invariant blkn <= mcuBuffer.Length && mcuBuffer[..blkn] == BlocksAt(p, dct, McuSpots(p, scan, iMcuRowNum, yoffset, col, k))
      {
        McuStep(p, dct, scan, iMcuRowNum, yoffset, col, k);
        blkn := LoadComponent(scan[k], yoffset, col, blkn);
      }
    }

    /** The MCU in the workspace is offered to the entropy coder. */
    method WriteMcu(yoffset: nat, col: nat, blkn: nat) returns (ok: bool)
      requires ScanOf(p, scan) && At(yoffset, col) && blkn <= mcuBuffer.Length
      requires mcuBuffer[..blkn] == BlocksAt(p, dct, McuSpots(p, scan, iMcuRowNum, yoffset, col, |scan|))
      modifies entropy
      ensures At(yoffset, if ok then col + 1 else col)
      ensures |entropy.answers| <= old(|entropy.answers|) && (!ok ==> |entropy.answers| < old(|entropy.answers|))
    {
      hide Before, BlocksAt, McuSpots;
      ok := entropy.EncodeMcu(mcuBuffer[..blkn]);
      NextTaken(p, dct, scan, iMcuRowNum, yoffset, col);
    }

    lemma McuRowDone(yoffset: nat)
      requires ScanOf(p, scan) && At(yoffset, McusPerRow(p, scan))
      ensures At(yoffset + 1, 0)
    {
      hide Before, McusAt;
      NextTaken(p, dct, scan, iMcuRowNum, yoffset, McusPerRow(p, scan));
    }

    /** Completed the iMCU row, advance counters for the next one. */
    method IMcuRowDone()
      requires ScanOf(p, scan) && At(McuRows(p, scan, iMcuRowNum), 0)
      modifies this`iMcuRowNum, this`mcuRowsPerIMcuRow, this`mcuCtr, this`mcuVertOffset
      ensures iMcuRowNum == old(iMcuRowNum) + 1 && mcuRowsPerIMcuRow == McuRows(p, scan, iMcuRowNum) && mcuCtr == 0 == mcuVertOffset
      ensures At(0, 0)
    {
      hide Before, McusAt;
      NextTaken(p, dct, scan, iMcuRowNum, McuRows(p, scan, iMcuRowNum), 0);
      iMcuRowNum := iMcuRowNum + 1;
      StartIMcuRow();
    }

    /**
     compress_data: one iMCU row, or as much of it as the entropy coder takes. On return exactly the
     MCUs before the recorded position have been taken, each once and in order.
     */
    method CompressData() returns (done: bool)
      requires Valid() && iMcuRowNum < p.down
      modifies this`iMcuRowNum, this`mcuCtr, this`mcuVertOffset, this`mcuRowsPerIMcuRow, mcuBuffer, entropy
      ensures Valid() && iMcuRowNum == old(iMcuRowNum) + (if done then 1 else 0)
      ensures done ==> mcuVertOffset == 0 == mcuCtr
      ensures |entropy.answers| <= old(|entropy.answers|) && (!done ==> |entropy.answers| < old(|entropy.answers|))
    {
      hide At, McuSpots, BlocksAt, Membership, Acceptable, BlocksIn, ValidLayout;
      var yoffset := mcuVertOffset;
      while yoffset < mcuRowsPerIMcuRow
        invariant Set() && iMcuRowNum == old(iMcuRowNum) && yoffset <= mcuRowsPerIMcuRow && At(yoffset, mcuCtr)
        invariant yoffset == mcuRowsPerIMcuRow ==> mcuCtr == 0
        invariant |entropy.answers| <= old(|entropy.answers|)
      {
        var col := mcuCtr;
        while col < mcusPerRow
          invariant Set() && iMcuRowNum == old(iMcuRowNum) && col <= mcusPerRow && At(yoffset, col)
          invariant |entropy.answers| <= old(|entropy.answers|)
        {
          var blkn := LoadMcu(yoffset, col);
          var ok := WriteMcu(yoffset, col, blkn);
          if !ok {
            mcuVertOffset, mcuCtr := yoffset, col;
            return false;
          }
          col := col + 1;
        }
        McuRowDone(yoffset);
        mcuCtr := 0;
        yoffset := yoffset + 1;
      }
      IMcuRowDone();
      done := true;
    }

    /** A block goes into the virtual array. */
    method Store(ci: nat, row: nat, x: nat, b: Block, ghost y: nat)
      requires ValidLayout(p) && ImageFor(p, wholeImage) && ci < |p.comps| && row < wholeImage[ci].Length0 && x < wholeImage[ci].Length1
      requires RowsStored(p, dct, wholeImage[ci], ci, row) && RowStored(p, dct, wholeImage[ci], ci, iMcuRowNum, y, row, x)
      requires b == Padded(p, dct, ci, iMcuRowNum, y, x)
      modifies wholeImage[ci]
      ensures RowsStored(p, dct, wholeImage[ci], ci, row) && RowStored(p, dct, wholeImage[ci], ci, iMcuRowNum, y, row, x + 1)
      ensures forall i, j :: 0 <= i < wholeImage[ci].Length0 && i != row && 0 <= j < wholeImage[ci].Length1 ==>
                wholeImage[ci][i, j] == old(wholeImage[ci][i, j])
    {
      hide Padded, ValidLayout;
      var buffer, v := wholeImage[ci], p.comps[ci].v;
      buffer[row, x] := b;
      forall above: nat | above < row
        ensures RowStored(p, dct, buffer, ci, above / v, above % v, above, buffer.Length1)
      {
        assert old(RowStored(p, dct, buffer, ci, above / v, above % v, above, buffer.Length1));
      }
    }

    /** forward_DCT of a row of blocks into the virtual array, and dummy blocks to its right. */
    method StoreRow(ci: nat, y: nat, row: nat, ndummy: nat)
      requires ValidLayout(p) && ImageFor(p, wholeImage) && ci < |p.comps| && row < wholeImage[ci].Length0
      requires row == iMcuRowNum * p.comps[ci].v + y && RowsStored(p, dct, wholeImage[ci], ci, row)
      requires y < RealRows(p, ci, iMcuRowNum) && p.comps[ci].widthInBlocks + ndummy == wholeImage[ci].Length1
      modifies wholeImage[ci]
      ensures RowsStored(p, dct, wholeImage[ci], ci, row + 1)
    {
      hide Padded, ValidLayout, Dummy, RealRows, RowsStored;
      var buffer, blocksAcross := wholeImage[ci], p.comps[ci].widthInBlocks;
      for x := 0 to blocksAcross
        invariant RowStored(p, dct, buffer, ci, iMcuRowNum, y, row, x)
        invariant RowsStored(p, dct, buffer, ci, row)
      {
        PaddedReal(p, dct, ci, iMcuRowNum, y, x);
        Store(ci, row, x, dct(ci, iMcuRowNum, y * DCTSIZE, x * DCTSIZE), y);
      }
      if ndummy > 0 {
        PaddedRight(p, dct, ci, iMcuRowNum, y, blocksAcross);
        var last := buffer[row, blocksAcross - 1];
        for bi := 0 to ndummy
          invariant RowStored(p, dct, buffer, ci, iMcuRowNum, y, row, blocksAcross + bi)
          invariant RowsStored(p, dct, buffer, ci, row)
        {
          PaddedSame(p, dct, ci, iMcuRowNum, y, blocksAcross + bi);
          Store(ci, row, blocksAcross + bi, Dummy(last), y);
        }
      }
      RowAdded(p, dct, buffer, ci, iMcuRowNum, y, row);
    }

    /** A row of dummy blocks at the bottom, MCU by MCU. */
    method StoreDummyRow(ci: nat, y: nat, row: nat)
      requires ValidLayout(p) && ImageFor(p, wholeImage) && ci < |p.comps| && row < wholeImage[ci].Length0
      requires row == iMcuRowNum * p.comps[ci].v + y && RowsStored(p, dct, wholeImage[ci], ci, row)
      requires RealRows(p, ci, iMcuRowNum) <= y < p.comps[ci].v
      modifies wholeImage[ci]
      ensures RowsStored(p, dct, wholeImage[ci], ci, row + 1)
    {
      hide Padded, Dummy, RealRows, RowsStored;
      var buffer, h := wholeImage[ci], p.comps[ci].h;
      for m := 0 to p.across
        invariant m * h <= buffer.Length1 && RowStored(p, dct, buffer, ci, iMcuRowNum, y, row, m * h)
        invariant RowsStored(p, dct, buffer, ci, row)
      {
        RowFits(m, p.across, h);
        RowBefore(p, dct, buffer, ci, iMcuRowNum, y, row);
        var last := buffer[row - 1, m * h + h - 1];
        for bi := 0 to h
          invariant RowStored(p, dct, buffer, ci, iMcuRowNum, y, row, m * h + bi)
          invariant RowsStored(p, dct, buffer, ci, row)
        {
          PaddedBelow(p, dct, ci, iMcuRowNum, y, m, bi);
          Store(ci, row, m * h + bi, Dummy(last), y);
        }
      }
      RowAdded(p, dct, buffer, ci, iMcuRowNum, y, row);
    }

    /** One component's blocks of the iMCU row at hand, with all dummy blocks. */
    method StoreComponent(ci: nat)
      requires ValidLayout(p) && ImageFor(p, wholeImage) && ci < |p.comps| && iMcuRowNum < p.down
      requires RowsStored(p, dct, wholeImage[ci], ci, iMcuRowNum * p.comps[ci].v)
      modifies wholeImage[ci]
      ensures RowsStored(p, dct, wholeImage[ci], ci, (iMcuRowNum + 1) * p.comps[ci].v)
    {
      hide Padded, Dummy, RowStored, RowsStored;
      var c, buffer := p.comps[ci], wholeImage[ci];
      var base := iMcuRowNum * c.v;
      RowFits(iMcuRowNum, p.down, c.v);
      Parts(c.widthInBlocks, c.h, p.across);
      var blockRows := c.v;
      if iMcuRowNum >= p.down - 1 {
        blockRows := c.heightInBlocks % c.v;
        if blockRows == 0 {
          blockRows := c.v;
        }
      }
      var ndummy := c.widthInBlocks % c.h;
      if ndummy > 0 {
        ndummy := c.h - ndummy;
      }
      DummiesFill(c.widthInBlocks, c.h, p.across);
      for y := 0 to blockRows
        invariant RowsStored(p, dct, buffer, ci, base + y)
      {
        StoreRow(ci, y, base + y, ndummy);
      }
      if iMcuRowNum == p.down - 1 {
        for y := blockRows to c.v
          invariant RowsStored(p, dct, buffer, ci, base + y)
        {
          assert base + y < buffer.Length0;
          StoreDummyRow(ci, y, base + y);
        }
      }
    }

    /** The virtual arrays hold the first n iMCU rows of every component. */
    ghost predicate Stored(n: nat)
      requires ValidLayout(p) && |wholeImage| == |p.comps|
      reads wholeImage
    {
      forall ci :: 0 <= ci < |p.comps| ==> RowsStored(p, dct, wholeImage[ci], ci, n * p.comps[ci].v)
    }

    /** One component's blocks of an MCU, from the virtual array. */
    method FetchComponent(ci: nat, yoffset: nat, col: nat, blkn: nat) returns (next: nat)
      requires Set() && ci in scan && yoffset < mcuRowsPerIMcuRow && col < mcusPerRow && iMcuRowNum < p.down
      requires ImageFor(p, wholeImage) && RowsStored(p, dct, wholeImage[ci], ci, (iMcuRowNum + 1) * p.comps[ci].v)
      requires blkn + McuHeight(p, scan, ci) * McuWidth(p, scan, ci) <= mcuBuffer.Length
      modifies mcuBuffer
      ensures next == blkn + McuHeight(p, scan, ci) * McuWidth(p, scan, ci)
      ensures mcuBuffer[..next] == old(mcuBuffer[..blkn]) + CompBlocks(p, dct, scan, ci, iMcuRowNum, yoffset, col, McuHeight(p, scan, ci))
    {
      hide Padded, Row, CompBlocks, Membership, Acceptable, BlocksIn, RowsStored;
      var w, height, buffer := McuWidth(p, scan, ci), McuHeight(p, scan, ci), wholeImage[ci];
      var startCol := col * w;
      ghost var above := mcuBuffer[..blkn];
      next := blkn;
      CompStep(p, dct, scan, ci, iMcuRowNum, yoffset, col, 0);
      ColumnsFit(p, scan, ci, col);
      for yindex := 0 to height
        invariant next == blkn + yindex * w
        invariant mcuBuffer[..next] == above + CompBlocks(p, dct, scan, ci, iMcuRowNum, yoffset, col, yindex)
      {
        RowFits(yindex, height, w);
        CompStep(p, dct, scan, ci, iMcuRowNum, yoffset, col, yindex);
        RowHeld(p, dct, buffer, ci, iMcuRowNum, yoffset + yindex);
        next := FetchRow(ci, yoffset + yindex, iMcuRowNum * p.comps[ci].v + yindex + yoffset, startCol, w, next);
      }
    }

    method FetchRow(ci: nat, ghost y: nat, row: nat, startCol: nat, w: nat, blkn: nat) returns (next: nat)
      requires ValidLayout(p) && ImageFor(p, wholeImage) && ci < |p.comps| && blkn + w <= mcuBuffer.Length
      requires RowStored(p, dct, wholeImage[ci], ci, iMcuRowNum, y, row, wholeImage[ci].Length1) && startCol + w <= wholeImage[ci].Length1
      modifies mcuBuffer
      ensures next == blkn + w && mcuBuffer[..next] == old(mcuBuffer[..blkn]) + Row(p, dct, ci, iMcuRowNum, y, startCol, w)
    {
      hide Padded, ValidLayout, Row;
      var buffer := wholeImage[ci];
      next := blkn;
      RowStep(p, dct, ci, iMcuRowNum, y, startCol, 0);
      for xindex := 0 to w
        invariant next == blkn + xindex
        invariant mcuBuffer[..next] == old(mcuBuffer[..blkn]) + Row(p, dct, ci, iMcuRowNum, y, startCol, xindex)
      {
        RowStep(p, dct, ci, iMcuRowNum, y, startCol, xindex);
        Put(next, buffer[row, startCol + xindex]);
        next := next + 1;
      }
    }

    /** One MCU, from the virtual arrays. */
    method FetchMcu(yoffset: nat, col: nat) returns (blkn: nat)
      requires Set() && yoffset < mcuRowsPerIMcuRow && col < mcusPerRow && iMcuRowNum < p.down
      requires ImageFor(p, wholeImage) && Stored(iMcuRowNum + 1)
      modifies mcuBuffer
      ensures blkn <= mcuBuffer.Length && mcuBuffer[..blkn] == BlocksAt(p, dct, McuSpots(p, scan, iMcuRowNum, yoffset, col, |scan|))
    {
      hide CompBlocks, McuWidth, McuHeight, RowsStored;
      blkn := 0;
      for k := 0 to |scan|
        invariant blkn == BlocksIn(p, scan, k) && Stored(iMcuRowNum + 1)
        invariant blkn <= mcuBuffer.Length && mcuBuffer[..blkn] == BlocksAt(p, dct, McuSpots(p, scan, iMcuRowNum, yoffset, col, k))
      {
        McuStep(p, dct, scan, iMcuRowNum, yoffset, col, k);
        blkn := FetchComponent(scan[k], yoffset, col, blkn);
      }
    }

    /** compress_output: the same from the virtual arrays, for a scan of any components. */
    method CompressOutput() returns (done: bool)
      requires Valid() && iMcuRowNum < p.down && ImageFor(p, wholeImage) && Stored(iMcuRowNum + 1)
      modifies this`iMcuRowNum, this`mcuCtr, this`mcuVertOffset, this`mcuRowsPerIMcuRow, mcuBuffer, entropy
      ensures Valid() && iMcuRowNum == old(iMcuRowNum) + (if done then 1 else 0)
      ensures done ==> mcuVertOffset == 0 == mcuCtr
      ensures |entropy.answers| <= old(|entropy.answers|) && (!done ==> |entropy.answers| < old(|entropy.answers|))
    {
      hide At, McuSpots, BlocksAt, Membership, Acceptable, BlocksIn, ValidLayout, RowsStored, ImageFor;
      var yoffset := mcuVertOffset;
      while yoffset < mcuRowsPerIMcuRow
        invariant Set() && iMcuRowNum == old(iMcuRowNum) && yoffset <= mcuRowsPerIMcuRow && At(yoffset, mcuCtr)
        invariant yoffset == mcuRowsPerIMcuRow ==> mcuCtr == 0
        invariant |entropy.answers| <= old(|entropy.answers|) && Stored(iMcuRowNum + 1)
      {
        var col := mcuCtr;
        while col < mcusPerRow
          invariant Set() && iMcuRowNum == old(iMcuRowNum) && col <= mcusPerRow && At(yoffset, col)
          invariant |entropy.answers| <= old(|entropy.answers|) && Stored(iMcuRowNum + 1)
        {
          var blkn := FetchMcu(yoffset, col);
          var ok := WriteMcu(yoffset, col, blkn);
          if !ok {
            mcuVertOffset, mcuCtr := yoffset, col;
            return false;
          }
          col := col + 1;
        }
        McuRowDone(yoffset);
        mcuCtr := 0;
        yoffset := yoffset + 1;
      }
      IMcuRowDone();
      done := true;
    }

    /**
     compress_first_pass: all components of the iMCU row go into the virtual arrays, also those that
     are not in this scan; then the MCUs are put out from there. After a suspension the row is
     stored again.
     */
    method CompressFirstPass() returns (done: bool)
      requires Valid() && iMcuRowNum < p.down && ImageFor(p, wholeImage) && Stored(iMcuRowNum)
      modifies this`iMcuRowNum, this`mcuCtr, this`mcuVertOffset, this`mcuRowsPerIMcuRow, mcuBuffer, entropy, wholeImage
      ensures Valid() && iMcuRowNum == old(iMcuRowNum) + (if done then 1 else 0) && Stored(iMcuRowNum)
      ensures done ==> mcuVertOffset == 0 == mcuCtr
      ensures |entropy.answers| <= old(|entropy.answers|) && (!done ==> |entropy.answers| < old(|entropy.answers|))
    {
      hide Before, McuSpots, McusAt, Membership, Acceptable, BlocksIn, RowsStored;
      for ci := 0 to |p.comps|
        modifies wholeImage
        invariant forall i :: 0 <= i < |p.comps| ==> RowsStored(p, dct, wholeImage[i], i, (if i < ci then iMcuRowNum + 1 else iMcuRowNum) * p.comps[i].v)
      {
        StoreComponent(ci);
      }
      assert Stored(iMcuRowNum + 1);
      done := CompressOutput();
      if !done {
        forall ci | 0 <= ci < |p.comps|
          ensures RowsStored(p, dct, wholeImage[ci], ci, iMcuRowNum * p.comps[ci].v)
        {
          FewerStored(p, dct, wholeImage[ci], ci, iMcuRowNum);
        }
      }
    }

    /** A pass in which nothing is kept, called until every iMCU row is done. */
    method PassThru()
      requires Valid() && iMcuRowNum == 0 == mcuVertOffset == mcuCtr
      modifies this`iMcuRowNum, this`mcuCtr, this`mcuVertOffset, this`mcuRowsPerIMcuRow, mcuBuffer, entropy
      ensures entropy.received == before + ScanMcus(p, dct, scan)
    {
      hide At;
      while iMcuRowNum < p.down
        invariant Valid() && (iMcuRowNum == p.down ==> mcuVertOffset == 0 == mcuCtr)
        decreases p.down - iMcuRowNum, |entropy.answers|
      {
        var done := CompressData();
      }
      AllTaken();
    }

    /** The first of several passes, which keeps all blocks. */
    method SaveAndPass()
      requires Valid() && iMcuRowNum == 0 == mcuVertOffset == mcuCtr && ImageFor(p, wholeImage) && Stored(0)
      modifies this`iMcuRowNum, this`mcuCtr, this`mcuVertOffset, this`mcuRowsPerIMcuRow, mcuBuffer, entropy, wholeImage
      ensures entropy.received == before + ScanMcus(p, dct, scan) && Stored(p.down)
    {
      hide RowsStored, At;
      while iMcuRowNum < p.down
        invariant Valid() && (iMcuRowNum == p.down ==> mcuVertOffset == 0 == mcuCtr) && Stored(iMcuRowNum)
        decreases p.down - iMcuRowNum, |entropy.answers|
      {
        var done := CompressFirstPass();
      }
      AllTaken();
    }

    /** A later pass. */
    method CrankDest()
      requires Valid() && iMcuRowNum == 0 == mcuVertOffset == mcuCtr && ImageFor(p, wholeImage) && Stored(p.down)
      modifies this`iMcuRowNum, this`mcuCtr, this`mcuVertOffset, this`mcuRowsPerIMcuRow, mcuBuffer, entropy
      ensures entropy.received == before + ScanMcus(p, dct, scan) && Stored(p.down)
    {
      hide RowsStored, At;
      while iMcuRowNum < p.down
        invariant Valid() && (iMcuRowNum == p.down ==> mcuVertOffset == 0 == mcuCtr) && Stored(p.down)
        decreases p.down - iMcuRowNum, |entropy.answers|
      {
        EnoughStored(iMcuRowNum);
        var done := CompressOutput();
      }
      AllTaken();
    }

    lemma AllTaken()
      requires ScanOf(p, scan) && iMcuRowNum == p.down && At(0, 0)
      ensures entropy.received == before + ScanMcus(p, dct, scan)
    {
      hide McusAt;
      BeforeNext(p, scan, p.down, 0, 0);
    }

    lemma EnoughStored(r: nat)
      requires ValidLayout(p) && ImageFor(p, wholeImage) && Stored(p.down) && r < p.down
      ensures Stored(r + 1)
    {
      hide RowStored;
      forall ci | 0 <= ci < |p.comps|
        ensures (r + 1) * p.comps[ci].v <= p.down * p.comps[ci].v
      {
        Scaled(r + 1, p.down, p.comps[ci].v);
      }
    }
  }

  /** All MCUs of a scan. */
  ghost function ScanMcus(p: Layout, dct: Transform, scan: seq<nat>): seq<Mcu>
    requires ScanOf(p, scan)
  {
    McusAt(p, dct, IMcuRowsOf(p, scan, p.down))
  }

  /**
   One pass or several: the MCUs presented are the same, dummy blocks included, however often the
   entropy coder suspends on either way.
   */
  method BothWays(p: Layout, dct: Transform, scan: seq<nat>, answers1: seq<bool>, answers2: seq<bool>)
      returns (single: seq<Mcu>, multi: seq<Mcu>)
    requires ScanOf(p, scan) && Acceptable(p, scan)
    ensures single == multi == ScanMcus(p, dct, scan)
  {
    hide ScanMcus;
    var c := new Controller(p, dct, false, answers1);
    var ok := c.StartPass(scan);
    c.PassThru();
    single := c.entropy.received;
    var d := new Controller(p, dct, true, answers2);
    ok := d.StartPass(scan);
    d.SaveAndPass();
    multi := d.entropy.received;
  }

  ghost predicate AllScansOf(p: Layout, scans: seq<seq<nat>>)
  {
    forall i :: 0 <= i < |scans| ==> ScanOf(p, scans[i]) && Acceptable(p, scans[i])
  }

  /** The MCUs of all scans one after another. */
  ghost function ScansMcus(p: Layout, dct: Transform, scans: seq<seq<nat>>, n: nat): seq<Mcu>
    requires AllScansOf(p, scans) && n <= |scans|
  {
    if n == 0 then [] else ScansMcus(p, dct, scans, n - 1) + ScanMcus(p, dct, scans[n - 1])
  }

  /** A file of several scans: each scan's MCUs come from what the first pass has kept. */
  method AllPasses(p: Layout, dct: Transform, scans: seq<seq<nat>>, answers: seq<bool>) returns (mcus: seq<Mcu>)
    requires ValidLayout(p) && scans != [] && AllScansOf(p, scans)
    ensures mcus == ScansMcus(p, dct, scans, |scans|)
  {
    hide ScanMcus, ValidLayout, Acceptable, ImageFor, RowsStored, Controller.Valid;
    var c := new Controller(p, dct, true, answers);
    assert ScanOf(p, scans[0]) && Acceptable(p, scans[0]);
    var ok := c.StartPass(scans[0]);
    c.SaveAndPass();
    assert ScansMcus(p, dct, scans, 0) == [];
    for i := 1 to |scans|
      modifies c, c.mcuBuffer, c.entropy
      invariant c.entropy.received == ScansMcus(p, dct, scans, i) && c.Stored(p.down)
    {
      assert ScanOf(p, scans[i]) && Acceptable(p, scans[i]);
      ok := c.StartPass(scans[i]);
      c.CrankDest();
    }
    mcus := c.entropy.received;
  }

  lemma FewerStored(p: Layout, dct: Transform, a: array2<Block>, ci: nat, n: nat)
    requires ValidLayout(p) && ci < |p.comps| && RowsStored(p, dct, a, ci, (n + 1) * p.comps[ci].v)
    ensures RowsStored(p, dct, a, ci, n * p.comps[ci].v)
  {
    hide RowStored;
    assert (n + 1) * p.comps[ci].v == n * p.comps[ci].v + p.comps[ci].v;
  }

  lemma RowHeld(p: Layout, dct: Transform, a: array2<Block>, ci: nat, r: nat, y: nat)
    requires ValidLayout(p) && ci < |p.comps| && RowsStored(p, dct, a, ci, (r + 1) * p.comps[ci].v) && y < p.comps[ci].v
    ensures RowStored(p, dct, a, ci, r, y, r * p.comps[ci].v + y, a.Length1)
  {
    hide RowStored;
    assert (r + 1) * p.comps[ci].v == r * p.comps[ci].v + p.comps[ci].v;
    QuotientOf(r * p.comps[ci].v + y, p.comps[ci].v, r, y);
  }

  lemma ColumnsFit(p: Layout, scan: seq<nat>, ci: nat, col: nat)
    requires ScanOf(p, scan) && ci < |p.comps| && col < McusPerRow(p, scan) && (!Interleaved(scan) ==> ci == scan[0])
    ensures col * McuWidth(p, scan, ci) + McuWidth(p, scan, ci) <= p.across * p.comps[ci].h
  {
    var c := p.comps[ci];
    Parts(c.widthInBlocks, c.h, p.across);
    if Interleaved(scan) {
      RowFits(col, p.across, c.h);
    } else {
      assert (p.across - 1) * c.h == p.across * c.h - c.h;
    }
  }

  /** The first n rows of the virtual array hold the component's block rows, all of them complete. */
  ghost predicate RowsStored(p: Layout, dct: Transform, a: array2<Block>, ci: nat, n: nat)
    requires ValidLayout(p) && ci < |p.comps|
    reads a
  {
    var v := p.comps[ci].v;
    n <= a.Length0 && forall row: nat :: row < n ==> RowStored(p, dct, a, ci, row / v, row % v, row, a.Length1)
  }

  lemma RowBefore(p: Layout, dct: Transform, a: array2<Block>, ci: nat, r: nat, y: nat, row: nat)
    requires ValidLayout(p) && ci < |p.comps| && RowsStored(p, dct, a, ci, row)
    requires row == r * p.comps[ci].v + y && 0 < y < p.comps[ci].v
    ensures RowStored(p, dct, a, ci, r, y - 1, row - 1, a.Length1)
  {
    hide RowStored;
    QuotientOf(row - 1, p.comps[ci].v, r, y - 1);
  }

  lemma RowAdded(p: Layout, dct: Transform, a: array2<Block>, ci: nat, r: nat, y: nat, row: nat)
    requires ValidLayout(p) && ci < |p.comps| && RowsStored(p, dct, a, ci, row) && y < p.comps[ci].v
    requires row == r * p.comps[ci].v + y && row < a.Length0 && RowStored(p, dct, a, ci, r, y, row, a.Length1)
    ensures RowsStored(p, dct, a, ci, row + 1)
  {
    hide RowStored;
    QuotientOf(row, p.comps[ci].v, r, y);
  }

  lemma DummiesFill(n: nat, d: nat, q: nat)
    requires d > 0 && n > 0 && q == DivRoundUp(n, d)
    ensures n + (if n % d > 0 then d - n % d else 0) == q * d
  {
    Parts(n, d, q);
    assert (q - 1) * d == q * d - d;
  }

  /** The first n blocks of a row of the virtual array are those of block row y of iMCU row r. */
  ghost predicate RowStored(p: Layout, dct: Transform, a: array2<Block>, ci: nat, r: nat, y: nat, row: nat, n: nat)
    requires ValidLayout(p) && ci < |p.comps|
    reads a
  {
    row < a.Length0 && n <= a.Length1 && forall x :: 0 <= x < n ==> a[row, x] == Padded(p, dct, ci, r, y, x)
  }

  lemma PaddedSame(p: Layout, dct: Transform, ci: nat, r: nat, y: nat, x: nat)
    requires ValidLayout(p) && ci < |p.comps| && y < RealRows(p, ci, r) && x >= p.comps[ci].widthInBlocks
    ensures Padded(p, dct, ci, r, y, x) == Dummy(Padded(p, dct, ci, r, y, p.comps[ci].widthInBlocks - 1))
  {
  }

  /** One more MCU has been taken; or a row of MCUs, or an iMCU row, has been completed. */
  lemma NextTaken(p: Layout, dct: Transform, scan: seq<nat>, r: nat, yoffset: nat, m: nat)
    requires ScanOf(p, scan)
    ensures McusAt(p, dct, Before(p, scan, r, yoffset, m + 1))
            == McusAt(p, dct, Before(p, scan, r, yoffset, m)) + [BlocksAt(p, dct, McuSpots(p, scan, r, yoffset, m, |scan|))]
    ensures m == McusPerRow(p, scan) ==> Before(p, scan, r, yoffset, m) == Before(p, scan, r, yoffset + 1, 0)
    ensures yoffset == McuRows(p, scan, r) ==> Before(p, scan, r, yoffset, 0) == Before(p, scan, r + 1, 0, 0)
  {
    hide Before, BlocksAt, McuSpots;
    BeforeNext(p, scan, r, yoffset, m);
    BeforeNext(p, scan, r, yoffset, 0);
  }

  lemma RowFits(k: nat, n: nat, w: nat)
    requires k < n
    ensures (k + 1) * w == k * w + w <= n * w
  {
    Scaled(k + 1, n, w);
  }

  /** The first n rows of blocks that an MCU has of a component. */
  ghost function CompBlocks(p: Layout, dct: Transform, scan: seq<nat>, ci: nat, r: nat, yoffset: nat, m: nat, n: nat): (b: seq<Block>)
    requires ValidLayout(p) && ci < |p.comps|
    ensures |b| == n * McuWidth(p, scan, ci)
  {
    var w := McuWidth(p, scan, ci);
    BlocksAt(p, dct, CompSpots(ci, r, yoffset, m * w, w, n))
  }

  lemma CompStep(p: Layout, dct: Transform, scan: seq<nat>, ci: nat, r: nat, yoffset: nat, m: nat, n: nat)
    requires ValidLayout(p) && ci < |p.comps|
    ensures var w := McuWidth(p, scan, ci);
            && CompBlocks(p, dct, scan, ci, r, yoffset, m, 0) == []
            && CompBlocks(p, dct, scan, ci, r, yoffset, m, n + 1)
               == CompBlocks(p, dct, scan, ci, r, yoffset, m, n) + Row(p, dct, ci, r, yoffset + n, m * w, w)
  {
    hide BlockAt, RowSpots;
    var w := McuWidth(p, scan, ci);
    BlocksAtAppend(p, dct, CompSpots(ci, r, yoffset, m * w, w, n), RowSpots(ci, r, yoffset + n, m * w, w));
  }

  lemma CompLast(p: Layout, dct: Transform, scan: seq<nat>, ci: nat, r: nat, yoffset: nat, m: nat, n: nat)
    requires ValidLayout(p) && ci < |p.comps| && n > 0
    ensures var w, b := McuWidth(p, scan, ci), CompBlocks(p, dct, scan, ci, r, yoffset, m, n);
            w > 0 && |b| > 0 && b[|b| - 1] == Padded(p, dct, ci, r, yoffset + n - 1, m * w + w - 1)
  {
    hide Padded;
    var w := McuWidth(p, scan, ci);
    RowFits(n - 1, n, w);
    CompStep(p, dct, scan, ci, r, yoffset, m, n - 1);
    RowStep(p, dct, ci, r, yoffset + n - 1, m * w, w - 1);
  }

  lemma McuStep(p: Layout, dct: Transform, scan: seq<nat>, r: nat, yoffset: nat, m: nat, n: nat)
    requires ScanOf(p, scan) && n < |scan|
    ensures BlocksAt(p, dct, McuSpots(p, scan, r, yoffset, m, 0)) == []
    ensures BlocksAt(p, dct, McuSpots(p, scan, r, yoffset, m, n + 1))
            == BlocksAt(p, dct, McuSpots(p, scan, r, yoffset, m, n))
               + CompBlocks(p, dct, scan, scan[n], r, yoffset, m, McuHeight(p, scan, scan[n]))
    ensures BlocksIn(p, scan, n + 1) == BlocksIn(p, scan, n) + McuHeight(p, scan, scan[n]) * McuWidth(p, scan, scan[n])
    ensures Acceptable(p, scan) ==> BlocksIn(p, scan, n + 1) <= C_MAX_BLOCKS_IN_MCU
  {
    hide BlockAt, McuWidth, McuHeight, CompSpots;
    var w := McuWidth(p, scan, scan[n]);
    BlocksAtAppend(p, dct, McuSpots(p, scan, r, yoffset, m, n), CompSpots(scan[n], r, yoffset, m * w, w, McuHeight(p, scan, scan[n])));
    McuSize(p, scan, r, yoffset, m, |scan|);
    if |scan| == 1 {
      SingleBlock(p, scan);
    }
  }

  lemma SingleBlock(p: Layout, scan: seq<nat>)
    requires ScanOf(p, scan) && |scan| == 1
    ensures BlocksIn(p, scan, 1) == 1
  {
    assert BlocksIn(p, scan, 0) == 0;
  }

  /** Some blocks in a row. */
  ghost function Row(p: Layout, dct: Transform, ci: nat, r: nat, y: nat, x: nat, n: nat): (b: seq<Block>)
    requires ValidLayout(p)
    ensures |b| == n
  {
    BlocksAt(p, dct, RowSpots(ci, r, y, x, n))
  }

  lemma RowStep(p: Layout, dct: Transform, ci: nat, r: nat, y: nat, x: nat, n: nat)
    requires ValidLayout(p) && ci < |p.comps|
    ensures Row(p, dct, ci, r, y, x, 0) == []
    ensures Row(p, dct, ci, r, y, x, n + 1) == Row(p, dct, ci, r, y, x, n) + [Padded(p, dct, ci, r, y, x + n)]
  {
    hide Padded;
    assert RowSpots(ci, r, y, x, n + 1) == RowSpots(ci, r, y, x, n) + [Spot(ci, r, y, x + n)];
  }

  lemma PaddedReal(p: Layout, dct: Transform, ci: nat, r: nat, y: nat, x: nat)
    requires ValidLayout(p) && ci < |p.comps| && y < RealRows(p, ci, r) && x < p.comps[ci].widthInBlocks
    ensures Padded(p, dct, ci, r, y, x) == dct(ci, r, y * DCTSIZE, x * DCTSIZE)
  {
  }

  /** To the right of the image, each block is a dummy like its left neighbour. */
  lemma PaddedRight(p: Layout, dct: Transform, ci: nat, r: nat, y: nat, x: nat)
    requires ValidLayout(p) && ci < |p.comps| && y < RealRows(p, ci, r) && x >= p.comps[ci].widthInBlocks
    ensures x > 0 && Padded(p, dct, ci, r, y, x) == Dummy(Padded(p, dct, ci, r, y, x - 1))
  {
    DummyOfDummy(dct(ci, r, y * DCTSIZE, (p.comps[ci].widthInBlocks - 1) * DCTSIZE));
  }

  lemma PaddedDown(p: Layout, dct: Transform, ci: nat, r: nat, y: nat, x: nat)
    requires ValidLayout(p) && ci < |p.comps| && y >= RealRows(p, ci, r)
    ensures var h := p.comps[ci].h; y > 0 && Padded(p, dct, ci, r, y, x) == Dummy(Padded(p, dct, ci, r, y - 1, x / h * h + h - 1))
  {
  }

  /** Below it, each block of an MCU is a dummy like the last one of the MCU's row above. */
  lemma PaddedBelow(p: Layout, dct: Transform, ci: nat, r: nat, y: nat, col: nat, k: nat)
    requires ValidLayout(p) && ci < |p.comps| && y >= RealRows(p, ci, r) && k < p.comps[ci].h
    ensures var h := p.comps[ci].h; y > 0 && Padded(p, dct, ci, r, y, col * h + k) == Dummy(Padded(p, dct, ci, r, y - 1, col * h + h - 1))
  {
    hide Padded, RealRows;
    QuotientOf(col * p.comps[ci].h + k, p.comps[ci].h, col, k);
    PaddedDown(p, dct, ci, r, y, col * p.comps[ci].h + k);
  }

  /** The real blocks in a row of an MCU. */
  lemma RealColumns(p: Layout, scan: seq<nat>, ci: nat, col: nat)
    requires ScanOf(p, scan) && ci < |p.comps| && col < McusPerRow(p, scan) && (!Interleaved(scan) ==> ci == scan[0])
    ensures var w, n := McuWidth(p, scan, ci), p.comps[ci].widthInBlocks;
            w > 0 && var cnt := if col < McusPerRow(p, scan) - 1 then w else LastPart(n, w);
            1 <= cnt <= w && col * w + cnt <= n && (cnt < w ==> col * w + cnt == n)
  {
    var w, c := McuWidth(p, scan, ci), p.comps[ci];
    Parts(c.widthInBlocks, c.h, p.across);
    if Interleaved(scan) {
      Scaled(col, p.across - 1, w);
      if col < p.across - 1 {
        Scaled(col + 1, p.across - 1, w);
        assert (col + 1) * w == col * w + w;
      }
    }
  }

  /** The virtual arrays, one for each component, padded to whole MCUs. */
  ghost predicate ImageFor(p: Layout, wholeImage: seq<array2<Block>>)
    requires ValidLayout(p)
    ensures ImageFor(p, wholeImage) ==> |wholeImage| == |p.comps|
  {
    && |wholeImage| == |p.comps|
    && (forall i, j :: 0 <= i < j < |wholeImage| ==> wholeImage[i] != wholeImage[j])
    && forall i :: 0 <= i < |wholeImage| ==>
         wholeImage[i].Length0 == p.down * p.comps[i].v && wholeImage[i].Length1 == p.across * p.comps[i].h
  }

  method RequestArrays(p: Layout) returns (wholeImage: seq<array2<Block>>)
    requires ValidLayout(p)
    ensures ImageFor(p, wholeImage)
    ensures forall i :: 0 <= i < |wholeImage| ==> fresh(wholeImage[i])
  {
    wholeImage := [];
    for ci := 0 to |p.comps|
      invariant |wholeImage| == ci
      invariant forall i, j :: 0 <= i < j < ci ==> wholeImage[i] != wholeImage[j]
      invariant forall i :: 0 <= i < ci ==> fresh(wholeImage[i])
      invariant forall i :: 0 <= i < ci ==>
                  wholeImage[i].Length0 == p.down * p.comps[i].v && wholeImage[i].Length1 == p.across * p.comps[i].h
    {
      var c := p.comps[ci];
      Parts(c.widthInBlocks, c.h, p.across);
      Parts(c.heightInBlocks, c.v, p.down);
      var a := new Block[RoundUp(c.heightInBlocks, c.v), RoundUp(c.widthInBlocks, c.h)]((_, _) => ZeroBlock());
      wholeImage := wholeImage + [a];
    }
  }
}
