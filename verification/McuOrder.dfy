/**
 Which blocks make up the MCUs of a scan and in which order the MCUs come (ITU-T T.81, section
 A.2), with the dummy blocks that fill up incomplete MCUs.
 */
module McuOrder {
  import opened JpegLimits
  import opened FrameGeometry
  import opened ScanCoding

  /** Block x of block row y within iMCU row r, of component ci. */
  datatype Spot = Spot(ci: nat, r: nat, y: nat, x: nat)

  /** The components of a scan, by their index in the frame; a scan of one is not interleaved. */
  ghost predicate ScanOf(p: Layout, scan: seq<nat>)
  {
    && ValidLayout(p) && 1 <= |scan| <= MAX_COMPS_IN_SCAN
    && forall i :: 0 <= i < |scan| ==> scan[i] < |p.comps|
  }

  predicate Interleaved(scan: seq<nat>)
  {
    |scan| > 1
  }

  function McuWidth(p: Layout, scan: seq<nat>, ci: nat): (w: nat)
    requires ci < |p.comps|
  {
    if Interleaved(scan) then p.comps[ci].h else 1
  }

  function McuHeight(p: Layout, scan: seq<nat>, ci: nat): nat
    requires ci < |p.comps|
  {
    if Interleaved(scan) then p.comps[ci].v else 1
  }

  function McusPerRow(p: Layout, scan: seq<nat>): nat
    requires |scan| > 0 && scan[0] < |p.comps|
  {
    if Interleaved(scan) then p.across else p.comps[scan[0]].widthInBlocks
  }

  /** The block rows of a component that are real in iMCU row r. */
  function RealRows(p: Layout, ci: nat, r: nat): (n: nat)
    requires ci < |p.comps| && p.comps[ci].v > 0
    ensures 1 <= n <= p.comps[ci].v
  {
    var c := p.comps[ci];
    if r + 1 < p.down then c.v else LastPart(c.heightInBlocks, c.v)
  }

  /** How many MCU rows iMCU row r has. */
  function McuRows(p: Layout, scan: seq<nat>, r: nat): nat
    requires |scan| > 0 && scan[0] < |p.comps| && p.comps[scan[0]].v > 0
  {
    if Interleaved(scan) then 1 else RealRows(p, scan[0], r)
  }

  // ----- The blocks of an MCU -----

  function RowSpots(ci: nat, r: nat, y: nat, x: nat, w: nat): (s: seq<Spot>)
    ensures |s| == w && forall k :: 0 <= k < w ==> s[k] == Spot(ci, r, y, x + k)
  {
    seq(w, k requires 0 <= k < w => Spot(ci, r, y, x + k))
  }

  /** The first n block rows that an MCU has of a component. */
  function CompSpots(ci: nat, r: nat, y: nat, x: nat, w: nat, n: nat): (s: seq<Spot>)
    ensures |s| == n * w
  {
    if n == 0 then [] else CompSpots(ci, r, y, x, w, n - 1) + RowSpots(ci, r, y + n - 1, x, w)
  }

  /** The blocks of the first n components of MCU number m of MCU row yoffset in iMCU row r. */
  function McuSpots(p: Layout, scan: seq<nat>, r: nat, yoffset: nat, m: nat, n: nat): seq<Spot>
    requires n <= |scan| && forall i :: 0 <= i < |scan| ==> scan[i] < |p.comps|
  {
    if n == 0 then []
    else
      var ci := scan[n - 1];
      var w := McuWidth(p, scan, ci);
      McuSpots(p, scan, r, yoffset, m, n - 1) + CompSpots(ci, r, yoffset, m * w, w, McuHeight(p, scan, ci))
  }

  // ----- The order of the MCUs -----

  function RowOfMcus(p: Layout, scan: seq<nat>, r: nat, yoffset: nat, n: nat): (s: seq<seq<Spot>>)
    requires forall i :: 0 <= i < |scan| ==> scan[i] < |p.comps|
    ensures |s| == n
  {
    seq(n, m requires 0 <= m < n => McuSpots(p, scan, r, yoffset, m, |scan|))
  }

  /** The first n MCU rows of iMCU row r. */
  ghost function McuRowsOf(p: Layout, scan: seq<nat>, r: nat, n: nat): seq<seq<Spot>>
    requires ScanOf(p, scan)
  {
    if n == 0 then [] else McuRowsOf(p, scan, r, n - 1) + RowOfMcus(p, scan, r, n - 1, McusPerRow(p, scan))
  }

  /** The first n iMCU rows. */
  ghost function IMcuRowsOf(p: Layout, scan: seq<nat>, n: nat): seq<seq<Spot>>
    requires ScanOf(p, scan)
  {
    if n == 0 then [] else IMcuRowsOf(p, scan, n - 1) + McuRowsOf(p, scan, n - 1, McuRows(p, scan, n - 1))
  }

  /** The MCUs before MCU m of MCU row yoffset in iMCU row r. */
  ghost function Before(p: Layout, scan: seq<nat>, r: nat, yoffset: nat, m: nat): seq<seq<Spot>>
    requires ScanOf(p, scan)
  {
    IMcuRowsOf(p, scan, r) + McuRowsOf(p, scan, r, yoffset) + RowOfMcus(p, scan, r, yoffset, m)
  }

  lemma BeforeNext(p: Layout, scan: seq<nat>, r: nat, yoffset: nat, m: nat)
    requires ScanOf(p, scan)
    ensures Before(p, scan, r, yoffset, m + 1) == Before(p, scan, r, yoffset, m) + [McuSpots(p, scan, r, yoffset, m, |scan|)]
    ensures m == McusPerRow(p, scan) ==> Before(p, scan, r, yoffset, m) == Before(p, scan, r, yoffset + 1, 0)
    ensures yoffset == McuRows(p, scan, r) ==> Before(p, scan, r, yoffset, 0) == Before(p, scan, r + 1, 0, 0)
    ensures Before(p, scan, 0, 0, 0) == [] && Before(p, scan, r, 0, 0) == IMcuRowsOf(p, scan, r)
  {
    hide McuSpots, RowOfMcus, McusPerRow, McuRows;
    RowNext(p, scan, r, yoffset, m);
    RowNext(p, scan, r, yoffset + 1, 0);
    RowNext(p, scan, r + 1, 0, 0);
    RowNext(p, scan, 0, 0, 0);
    RowNext(p, scan, r, 0, 0);
  }

  lemma RowNext(p: Layout, scan: seq<nat>, r: nat, yoffset: nat, m: nat)
    requires ScanOf(p, scan)
    ensures RowOfMcus(p, scan, r, yoffset, m + 1) == RowOfMcus(p, scan, r, yoffset, m) + [McuSpots(p, scan, r, yoffset, m, |scan|)]
    ensures RowOfMcus(p, scan, r, yoffset, 0) == []
  {
    hide McuSpots;
  }

  // ----- Every block once -----

  /** How often the block occurs in the MCUs. */
  ghost function Times(mcus: seq<seq<Spot>>, s: Spot): nat
  {
    if mcus == [] then 0 else Times(mcus[..|mcus| - 1], s) + multiset(mcus[|mcus| - 1])[s]
  }

  lemma {:induction false} TimesAppend(a: seq<seq<Spot>>, b: seq<seq<Spot>>, s: Spot)
    ensures Times(a + b, s) == Times(a, s) + Times(b, s)
  {
    if b == [] {
      assert a + b == a;
    } else {
      assert (a + b)[..|a + b| - 1] == a + b[..|b| - 1];
      TimesAppend(a, b[..|b| - 1], s);
    }
  }

  function One(b: bool): nat
  {
    if b then 1 else 0
  }

  lemma {:induction false} CountRow(ci: nat, r: nat, y: nat, x: nat, w: nat, s: Spot)
    ensures multiset(RowSpots(ci, r, y, x, w))[s] == One(s.ci == ci && s.r == r && s.y == y && x <= s.x < x + w)
  {
    var row := RowSpots(ci, r, y, x, w);
    if w == 0 {
      assert row == [];
    } else {
      assert row == RowSpots(ci, r, y, x, w - 1) + [Spot(ci, r, y, x + w - 1)];
      CountRow(ci, r, y, x, w - 1, s);
    }
  }

  lemma {:induction false} CountComp(ci: nat, r: nat, y: nat, x: nat, w: nat, n: nat, s: Spot)
    ensures multiset(CompSpots(ci, r, y, x, w, n))[s] == One(s.ci == ci && s.r == r && y <= s.y < y + n && x <= s.x < x + w)
  {
    if n > 0 {
      CountComp(ci, r, y, x, w, n - 1, s);
      CountRow(ci, r, y + n - 1, x, w, s);
    }
  }

  /** The block is in MCU m of that MCU row, if its component is in the scan. */
  ghost predicate InMcu(p: Layout, scan: seq<nat>, r: nat, yoffset: nat, m: nat, s: Spot)
  {
    && s.ci < |p.comps| && s.r == r && yoffset <= s.y < yoffset + McuHeight(p, scan, s.ci)
    && m * McuWidth(p, scan, s.ci) <= s.x < m * McuWidth(p, scan, s.ci) + McuWidth(p, scan, s.ci)
  }

  ghost predicate NoRepeats(scan: seq<nat>)
  {
    forall i, j :: 0 <= i < j < |scan| ==> scan[i] != scan[j]
  }

  lemma {:induction false} CountMcu(p: Layout, scan: seq<nat>, r: nat, yoffset: nat, m: nat, n: nat, s: Spot)
    requires ScanOf(p, scan) && NoRepeats(scan) && n <= |scan|
    ensures multiset(McuSpots(p, scan, r, yoffset, m, n))[s] == One(s.ci in scan[..n] && InMcu(p, scan, r, yoffset, m, s))
  {
    hide McuWidth, McuHeight, CompSpots, NoRepeats;
    if n > 0 {
      var ci := scan[n - 1];
      var w := McuWidth(p, scan, ci);
      CountMcu(p, scan, r, yoffset, m, n - 1, s);
      CountComp(ci, r, yoffset, m * w, w, McuHeight(p, scan, ci), s);
      OneMore(scan, n, s.ci);
    }
  }

  lemma OneMore(scan: seq<nat>, n: nat, c: nat)
    requires NoRepeats(scan) && 0 < n <= |scan|
    ensures c in scan[..n] <==> c in scan[..n - 1] || c == scan[n - 1]
    ensures scan[n - 1] !in scan[..n - 1]
  {
    assert scan[..n] == scan[..n - 1] + [scan[n - 1]];
  }

  lemma {:induction false} CountMcuRow(p: Layout, scan: seq<nat>, r: nat, yoffset: nat, n: nat, s: Spot)
    requires ScanOf(p, scan) && NoRepeats(scan)
    ensures Times(RowOfMcus(p, scan, r, yoffset, n), s)
            == One(s.ci in scan && s.r == r && yoffset <= s.y < yoffset + McuHeight(p, scan, s.ci) && s.x < n * McuWidth(p, scan, s.ci))
  {
    hide McuSpots;
    var row := RowOfMcus(p, scan, r, yoffset, n);
    if n > 0 {
      assert row[..n - 1] == RowOfMcus(p, scan, r, yoffset, n - 1);
      CountMcuRow(p, scan, r, yoffset, n - 1, s);
      CountMcu(p, scan, r, yoffset, n - 1, |scan|, s);
      assert scan[..|scan|] == scan;
      if s.ci in scan {
        NextMcu(n - 1, McuWidth(p, scan, s.ci));
      }
    }
  }

  lemma NextMcu(m: nat, w: nat)
    ensures (m + 1) * w == m * w + w
  {
  }

  /** How wide a component is in blocks, counting those that fill up MCUs. */
  function Width(p: Layout, scan: seq<nat>, ci: nat): nat
    requires |scan| > 0 && scan[0] < |p.comps| && ci < |p.comps|
  {
    McusPerRow(p, scan) * McuWidth(p, scan, ci)
  }

  lemma {:induction false} CountMcuRows(p: Layout, scan: seq<nat>, r: nat, n: nat, s: Spot)
    requires ScanOf(p, scan) && NoRepeats(scan) && (Interleaved(scan) ==> n <= 1)
    ensures Times(McuRowsOf(p, scan, r, n), s)
            == One(s.ci in scan && s.r == r && s.y < n * McuHeight(p, scan, s.ci) && s.x < Width(p, scan, s.ci))
  {
    hide McuWidth, RowOfMcus, NoRepeats, McusPerRow;
    if n > 0 {
      CountMcuRows(p, scan, r, n - 1, s);
      var per := McusPerRow(p, scan);
      CountMcuRow(p, scan, r, n - 1, per, s);
      TimesAppend(McuRowsOf(p, scan, r, n - 1), RowOfMcus(p, scan, r, n - 1, per), s);
    }
  }

  /** The block belongs to the scan; dummy blocks do only if the scan is interleaved. */
  ghost predicate InScan(p: Layout, scan: seq<nat>, s: Spot)
    requires ScanOf(p, scan)
  {
    && s.ci in scan && s.r < p.down
    && var c := p.comps[s.ci];
       if Interleaved(scan) then s.y < c.v && s.x < p.across * c.h
       else s.y < RealRows(p, s.ci, s.r) && s.x < c.widthInBlocks
  }

  lemma InRows(p: Layout, scan: seq<nat>, s: Spot)
    requires ScanOf(p, scan) && s.ci in scan && s.r < p.down
    ensures s.y < McuRows(p, scan, s.r) * McuHeight(p, scan, s.ci) && s.x < Width(p, scan, s.ci) <==> InScan(p, scan, s)
  {
  }

  lemma {:induction false} CountIMcuRows(p: Layout, scan: seq<nat>, n: nat, s: Spot)
    requires ScanOf(p, scan) && NoRepeats(scan) && n <= p.down
    ensures Times(IMcuRowsOf(p, scan, n), s) == One(s.r < n && InScan(p, scan, s))
  {
    hide McuRowsOf, NoRepeats, RealRows, McuHeight, Width, McusPerRow;
    if s.ci in scan && s.r < p.down {
      InRows(p, scan, s);
    }
    if n > 0 {
      CountIMcuRows(p, scan, n - 1, s);
      var rows := McuRows(p, scan, n - 1);
      CountMcuRows(p, scan, n - 1, rows, s);
      TimesAppend(IMcuRowsOf(p, scan, n - 1), McuRowsOf(p, scan, n - 1, rows), s);
    }
  }

  ghost predicate Real(p: Layout, s: Spot)
    requires ValidLayout(p)
  {
    s.ci < |p.comps| && s.r < p.down && s.y < RealRows(p, s.ci, s.r) && s.x < p.comps[s.ci].widthInBlocks
  }

  /** The block's row within the component. */
  function BlockRow(p: Layout, s: Spot): nat
    requires s.ci < |p.comps|
  {
    s.r * p.comps[s.ci].v + s.y
  }

  /** The real rows are those within the height of the component. */
  lemma RealRowsAre(p: Layout, s: Spot)
    requires ValidLayout(p) && s.ci < |p.comps| && s.r < p.down && s.y < p.comps[s.ci].v
    ensures s.y < RealRows(p, s.ci, s.r) <==> BlockRow(p, s) < p.comps[s.ci].heightInBlocks
    ensures 1 <= RealRows(p, s.ci, s.r) <= p.comps[s.ci].v
  {
    var c := p.comps[s.ci];
    Parts(c.heightInBlocks, c.v, p.down);
    if s.r + 1 < p.down {
      Scaled(s.r + 1, p.down - 1, c.v);
      NextMcu(s.r, c.v);
    }
  }

  /**
   A scan has every real block of its components exactly once, no block twice, and none of another
   component; what else it has are the dummy blocks that complete the MCUs of an interleaved scan.
   */
  lemma EveryBlockOnce(p: Layout, scan: seq<nat>, s: Spot)
    requires ScanOf(p, scan) && NoRepeats(scan)
    ensures Times(IMcuRowsOf(p, scan, p.down), s) == One(InScan(p, scan, s))
    ensures Real(p, s) && s.ci in scan ==> InScan(p, scan, s)
    ensures InScan(p, scan, s) && !Interleaved(scan) ==> Real(p, s)
    ensures Times(IMcuRowsOf(p, scan, p.down), s) <= 1
    ensures Times(IMcuRowsOf(p, scan, p.down), s) == 1 <==>
              s.ci in scan && s.r < p.down && s.y < p.comps[s.ci].v
              && if |scan| == 1 then s.r * p.comps[s.ci].v + s.y < p.comps[s.ci].heightInBlocks && s.x < p.comps[s.ci].widthInBlocks
                 else s.x < p.across * p.comps[s.ci].h
  {
    if s.ci in scan && s.r < p.down && s.y < p.comps[s.ci].v {
      RealRowsAre(p, s);
    }
    CountIMcuRows(p, scan, p.down, s);
    if Real(p, s) {
      var c := p.comps[s.ci];
      Parts(c.widthInBlocks, c.h, p.across);
      Parts(c.heightInBlocks, c.v, p.down);
      NextMcu(p.across - 1, c.h);
    }
  }

  // ----- The order, number by number -----

  lemma {:induction false} RowsLength(p: Layout, scan: seq<nat>, r: nat, n: nat)
    requires ScanOf(p, scan)
    ensures |McuRowsOf(p, scan, r, n)| == n * McusPerRow(p, scan)
  {
    hide McuSpots, McusPerRow;
    if n > 0 {
      RowsLength(p, scan, r, n - 1);
      NextMcu(n - 1, McusPerRow(p, scan));
    }
  }

  lemma {:induction false} McuInRows(p: Layout, scan: seq<nat>, r: nat, n: nat, y: nat, x: nat)
    requires ScanOf(p, scan) && y < n && x < McusPerRow(p, scan)
    ensures var k := y * McusPerRow(p, scan) + x;
            k < |McuRowsOf(p, scan, r, n)| && McuRowsOf(p, scan, r, n)[k] == McuSpots(p, scan, r, y, x, |scan|)
  {
    hide McuSpots, McusPerRow;
    RowsLength(p, scan, r, n);
    RowsLength(p, scan, r, n - 1);
    NextMcu(n - 1, McusPerRow(p, scan));
    if y < n - 1 {
      McuInRows(p, scan, r, n - 1, y, x);
    }
  }

  /** The MCU rows before iMCU row r. */
  function RowsUpTo(p: Layout, scan: seq<nat>, r: nat): nat
    requires |scan| > 0 && scan[0] < |p.comps|
  {
    if Interleaved(scan) then r else r * p.comps[scan[0]].v
  }

  /**
   MCUs come row by row and from left to right in each row: MCU number j * w + m of a scan of MCU
   rows of w is the m-th of MCU row j, which is MCU row y of iMCU row r.
   */
  lemma {:induction false} McuNumber(p: Layout, scan: seq<nat>, n: nat, r: nat, y: nat, m: nat)
    requires ScanOf(p, scan) && r < n <= p.down && y < McuRows(p, scan, r) && m < McusPerRow(p, scan)
    ensures var k := (RowsUpTo(p, scan, r) + y) * McusPerRow(p, scan) + m;
            k < |IMcuRowsOf(p, scan, n)| && IMcuRowsOf(p, scan, n)[k] == McuSpots(p, scan, r, y, m, |scan|)
    decreases n
  {
    hide McuSpots, McusPerRow, RealRows;
    RowsCounted(p, scan, n - 1);
    if r < n - 1 {
      McuNumber(p, scan, n - 1, r, y, m);
    } else {
      McuInRows(p, scan, r, McuRows(p, scan, r), y, m);
      assert (RowsUpTo(p, scan, r) + y) * McusPerRow(p, scan) == RowsUpTo(p, scan, r) * McusPerRow(p, scan) + y * McusPerRow(p, scan);
    }
  }

  lemma {:induction false} RowsCounted(p: Layout, scan: seq<nat>, n: nat)
    requires ScanOf(p, scan) && n < p.down
    ensures |IMcuRowsOf(p, scan, n)| == RowsUpTo(p, scan, n) * McusPerRow(p, scan)
  {
    hide McuSpots, McusPerRow;
    if n > 0 {
      RowsCounted(p, scan, n - 1);
      RowsLength(p, scan, n - 1, McuRows(p, scan, n - 1));
      NextMcu(n - 1, p.comps[scan[0]].v);
      assert (RowsUpTo(p, scan, n - 1) + McuRows(p, scan, n - 1)) * McusPerRow(p, scan)
          == RowsUpTo(p, scan, n - 1) * McusPerRow(p, scan) + McuRows(p, scan, n - 1) * McusPerRow(p, scan);
    }
  }
}
