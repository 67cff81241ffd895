/**
 What a scan of sequential Huffman coding decodes to, as functions of the input (ITU-T T.81,
 section F.2.2): one block, one MCU, and the step from MCU to MCU with its restart markers.
 */
module ScanDecoding {
  import opened JpegLimits
  import opened Arith
  import opened BitString
  import opened ByteStream
  import opened CodeSpace
  import opened CanonicalCode
  import opened DerivedTables
  import opened BitReader
  import opened Coefficients
  import opened BlockCoding
  import opened ScanCoding

  const SOF0 := 0xC0
  const UINT_RANGE := 0x1_0000_0000

  /** The decoder's tables, and which coefficients of each component are wanted. */
  datatype Setup = Setup(dc: seq<DecTable>, ac: seq<DecTable>, dcNeeded: seq<bool>, acNeeded: seq<bool>)

  /** The symbols that have codes are sizes of DC differences. */
  ghost predicate ValidDcTable(d: DecTable)
  {
    ValidDecTable(d) && forall p :: 0 <= p < Count(d.b, MAX_LENGTH) && p < 256 ==> d.huffval[p] <= 15
  }

  ghost predicate ValidSetup(scan: Scan, d: Setup)
  {
    && ValidScan(scan) && |d.dc| == |d.ac| == NUM_HUFF_TBLS
    && |d.dcNeeded| == |d.acNeeded| == |scan.dcTbl|
    && (forall c :: 0 <= c < |scan.dcTbl| && d.acNeeded[c] ==> d.dcNeeded[c])
    && forall c :: 0 <= c < |scan.dcTbl| ==> ValidDcTable(d.dc[scan.dcTbl[c]]) && ValidDecTable(d.ac[scan.acTbl[c]])
  }

  lemma DcSymbolSmall(d: DecTable, s: Bits)
    requires ValidDcTable(d)
    ensures 0 <= DecodeSymbol(d.b, d.huffval, s).0 <= 15
  {
    hide StopLength, Peek, ValOffset;
    if StopLength(d.b, s, 1) <= MAX_LENGTH {
      StopsOnACode(d.b, s);
    }
  }

  // ----- One block -----

  /**
   The block at position at, decoded into area, whose coefficients are overwritten where the data
   has any; with the position after it and the new DC prediction.
   */
  ghost function DecodeBlock(dc: DecTable, ac: DecTable, stream: Bits, at: nat, lastDc: int, dcNeeded: bool, acNeeded: bool,
                             area: Block): (r: (Block, nat, int))
    requires ValidDecTable(dc) && ValidDecTable(ac)
    ensures r.1 >= at
  {
    var (diff, at1) := DecodeDc(dc, stream, at);
    var last := if dcNeeded then lastDc + diff else lastDc;
    var b: Block := if dcNeeded then area[0 := ToShort(last)] else area;
    var (block, at2) := DecodeAc(ac, stream, at1, 1, b);
    (if acNeeded then block else b, at2, last)
  }

  /** What is passed over does not depend on what is in the block. */
  lemma {:induction false} AcSamePath(d: DecTable, stream: Bits, at: nat, k: nat, b: Block, b': Block)
    requires ValidDecTable(d)
    ensures DecodeAc(d, stream, at, k, b).1 == DecodeAc(d, stream, at, k, b').1
    decreases DCTSIZE2 - k
  {
    hide DecodeSymbol, Peek, Extend, Natural, Count, Filled, DecodeAc;
    if k >= DCTSIZE2 {
      DecodeEnd(d, stream, at, k, b);
      DecodeEnd(d, stream, at, k, b');
    } else {
      var (sym, l) := DecodeSymbol(d.b, d.huffval, Tail(stream, at));
      SymbolIsByte(d, Tail(stream, at));
      var r, n := sym / 16, sym % 16;
      if n != 0 {
        var v := Extend(Peek(Tail(stream, at + l), n), n);
        DecodeValue(d, stream, at, k, b, r, n);
        DecodeValue(d, stream, at, k, b', r, n);
        AcSamePath(d, stream, at + l + n, k + r + 1, b[Natural(k + r) := v], b'[Natural(k + r) := v]);
      } else {
        DecodeNoValue(d, stream, at, k, b);
        DecodeNoValue(d, stream, at, k, b');
        if sym == ZRL {
          AcSamePath(d, stream, at + l, k + 16, b, b');
        }
      }
    }
  }

  /** Coefficients before position k stay as they are. */
  lemma {:induction false} AcKeepsBelow(d: DecTable, stream: Bits, at: nat, k: nat, b: Block, x: int)
    requires ValidDecTable(d) && 0 <= x < DCTSIZE2 && Zigzag(x) < k
    ensures DecodeAc(d, stream, at, k, b).0[x] == b[x]
    decreases DCTSIZE2 - k
  {
    hide DecodeSymbol, Peek, Extend, Natural, Zigzag, Count, Filled, DecodeAc;
    if k >= DCTSIZE2 {
      DecodeEnd(d, stream, at, k, b);
    } else {
      var (sym, l) := DecodeSymbol(d.b, d.huffval, Tail(stream, at));
      SymbolIsByte(d, Tail(stream, at));
      var r, n := sym / 16, sym % 16;
      if n != 0 {
        var v := Extend(Peek(Tail(stream, at + l), n), n);
        DecodeValue(d, stream, at, k, b, r, n);
        PlacedFrom(k + r);
        AcKeepsBelow(d, stream, at + l + n, k + r + 1, b[Natural(k + r) := v], x);
      } else {
        DecodeNoValue(d, stream, at, k, b);
        if sym == ZRL {
          AcKeepsBelow(d, stream, at + l, k + 16, b, x);
        }
      }
    }
  }

  lemma PlacedFrom(m: nat)
    requires m < 80
    ensures Zigzag(Natural(m)) == if m < 64 then m else 63
  {
    hide Natural, Zigzag;
    if m < 64 {
      OrdersInverse(m);
    } else {
      OrdersInverse(63);
      LastPlaces(m);
    }
  }

  lemma LastPlaces(m: nat)
    requires 63 <= m < 80
    ensures Natural(m) == Natural(63)
  {
  }

  /** Storing beforehand what will be stored anyway changes nothing. */
  lemma {:induction false} AcAbsorbs(d: DecTable, stream: Bits, at: nat, k: nat, b: Block, x: int, v: int)
    requires ValidDecTable(d) && 0 <= x < DCTSIZE2 && DecodeAc(d, stream, at, k, b).0[x] == v
    ensures DecodeAc(d, stream, at, k, b[x := v]) == DecodeAc(d, stream, at, k, b)
    decreases DCTSIZE2 - k
  {
    hide DecodeSymbol, Peek, Extend, Natural, Count, Filled, DecodeAc;
    if k >= DCTSIZE2 {
      DecodeEnd(d, stream, at, k, b);
      assert b[x := v] == b;
    } else {
      var (sym, l) := DecodeSymbol(d.b, d.huffval, Tail(stream, at));
      SymbolIsByte(d, Tail(stream, at));
      var r, n := sym / 16, sym % 16;
      if n != 0 {
        var w := Extend(Peek(Tail(stream, at + l), n), n);
        var i := Natural(k + r);
        DecodeValue(d, stream, at, k, b, r, n);
        DecodeValue(d, stream, at, k, b[x := v], r, n);
        if i == x {
          assert b[x := v][i := w] == b[i := w];
        } else {
          assert b[x := v][i := w] == b[i := w][x := v];
          AcAbsorbs(d, stream, at + l + n, k + r + 1, b[i := w], x, v);
        }
      } else {
        DecodeNoValue(d, stream, at, k, b);
        DecodeNoValue(d, stream, at, k, b[x := v]);
        if sym == ZRL {
          AcAbsorbs(d, stream, at + l, k + 16, b, x, v);
        } else {
          assert b[x := v] == b;
        }
      }
    }
  }

  lemma BlockSamePath(dc: DecTable, ac: DecTable, stream: Bits, at: nat, lastDc: int, dcNeeded: bool, acNeeded: bool, b: Block, b': Block)
    requires ValidDecTable(dc) && ValidDecTable(ac)
    ensures DecodeBlock(dc, ac, stream, at, lastDc, dcNeeded, acNeeded, b).1 == DecodeBlock(dc, ac, stream, at, lastDc, dcNeeded, acNeeded, b').1
    ensures DecodeBlock(dc, ac, stream, at, lastDc, dcNeeded, acNeeded, b).2 == DecodeBlock(dc, ac, stream, at, lastDc, dcNeeded, acNeeded, b').2
  {
    hide DecodeDc, DecodeAc;
    var (diff, at1) := DecodeDc(dc, stream, at);
    var v := ToShort(lastDc + diff);
    AcSamePath(ac, stream, at1, 1, b, b');
    AcSamePath(ac, stream, at1, 1, b[0 := v], b'[0 := v]);
  }

  // ----- One MCU -----

  /** Where the i-th block of an MCU begins, and the DC predictions there. */
  ghost function BlockStart(scan: Scan, d: Setup, stream: Bits, lastDc: seq<int>, i: nat): (r: (nat, seq<int>))
    requires ValidSetup(scan, d) && |lastDc| == |scan.dcTbl| && i <= |scan.membership|
    ensures |r.1| == |lastDc|
  {
    if i == 0 then (0, lastDc)
    else
      var (at, last) := BlockStart(scan, d, stream, lastDc, i - 1);
      var (_, at', dc) := BlockAt(scan, d, stream, at, last, i - 1, ZeroBlock());
      (at', last[scan.membership[i - 1] := dc])
  }

  ghost function BlockAt(scan: Scan, d: Setup, stream: Bits, at: nat, lastDc: seq<int>, i: nat, area: Block): (Block, nat, int)
    requires ValidSetup(scan, d) && |lastDc| == |scan.dcTbl| && i < |scan.membership|
  {
    var c := scan.membership[i];
    DecodeBlock(d.dc[scan.dcTbl[c]], d.ac[scan.acTbl[c]], stream, at, lastDc[c], d.dcNeeded[c], d.acNeeded[c], area)
  }

  /** The i-th block of the MCU that stream begins with, decoded into area. */
  ghost function BlockOf(scan: Scan, d: Setup, stream: Bits, lastDc: seq<int>, i: nat, area: Block): (b: Block)
    requires ValidSetup(scan, d) && |lastDc| == |scan.dcTbl| && i < |scan.membership|
  {
    var (at, last) := BlockStart(scan, d, stream, lastDc, i);
    BlockAt(scan, d, stream, at, last, i, area).0
  }

  /** Decoding the block that the i-th block starts with, into whatever it may be. */
  lemma BlockStep(scan: Scan, d: Setup, stream: Bits, lastDc: seq<int>, i: nat, at: nat, last: seq<int>, b: Block)
    requires ValidSetup(scan, d) && |lastDc| == |scan.dcTbl| && i < |scan.membership|
    requires (at, last) == BlockStart(scan, d, stream, lastDc, i)
    ensures var c := scan.membership[i];
            var (block, at', dc) :=
              DecodeBlock(d.dc[scan.dcTbl[c]], d.ac[scan.acTbl[c]], stream, at, last[c], d.dcNeeded[c], d.acNeeded[c], b);
            && BlockOf(scan, d, stream, lastDc, i, b) == block
            && BlockStart(scan, d, stream, lastDc, i + 1) == (at', last[c := dc])
  {
    hide DecodeBlock, ValidDecTable;
    var c := scan.membership[i];
    BlockSamePath(d.dc[scan.dcTbl[c]], d.ac[scan.acTbl[c]], stream, at, last[c], d.dcNeeded[c], d.acNeeded[c], b, ZeroBlock());
  }

  ghost function DecodedMcu(scan: Scan, d: Setup, stream: Bits, lastDc: seq<int>, area: Mcu): (r: Mcu)
    requires ValidSetup(scan, d) && |lastDc| == |scan.dcTbl| && |area| == |scan.membership|
    ensures |r| == |area|
    ensures forall i :: 0 <= i < |r| ==> r[i] == BlockOf(scan, d, stream, lastDc, i, area[i])
  {
    seq(|area|, i requires 0 <= i < |area| => BlockOf(scan, d, stream, lastDc, i, area[i]))
  }

  // ----- From MCU to MCU -----

  datatype Option<T> = None | Some(value: T)

  /**
   What lies ahead of the decoder: the bits up to the next marker, unless they have run out, what
   ends them, the DC predictions, the MCUs left in the restart interval, and the number of the
   next restart marker.
   */
  datatype Ahead = Ahead(bits: Bits, exhausted: bool, end: Next, lastDc: seq<int>, toGo: nat, next: nat)

  ghost predicate ValidAhead(input: Bytes, scan: Scan, a: Ahead)
  {
    && ValidScan(scan) && |a.lastDc| == |scan.dcTbl| && a.next < 8
    && !a.end.Data? && (a.end.Marker? ==> a.end.pos <= |input|)
  }

  /** At the beginning of a scan whose data are input. */
  ghost function FirstAhead(input: Bytes, scan: Scan): Ahead
    requires ValidScan(scan)
  {
    Ahead(SourceBits(input, 0), false, SegmentEnd(input, 0), Zeros(|scan.dcTbl|), scan.restartInterval, 0)
  }

  datatype Action = Discard | Advance | Leave

  /** jpeg_resync_to_restart: what to do about a marker when another restart marker was expected. */
  function ResyncAction(marker: int, desired: nat): Action
    requires desired < 8
  {
    if marker < SOF0 then Advance
    else if marker < RST0 || marker > RST0 + 7 then Leave
    else if marker == RST0 + (desired + 1) % 8 || marker == RST0 + (desired + 2) % 8 then Leave
    else if marker == RST0 + (desired + 7) % 8 || marker == RST0 + (desired + 6) % 8 then Advance
    else Discard
  }

  /** The marker at which the search for restart marker number desired ends, and whether it is passed. */
  ghost function Restart(input: Bytes, found: Next, desired: nat): (r: Option<(Next, bool)>)
    requires desired < 8 && !found.Data? && (found.Marker? ==> found.pos <= |input|)
    ensures r.Some? ==> r.value.0.Marker? && r.value.0.pos <= |input|
    decreases if found.Marker? then |input| - found.pos + 1 else 0
  {
    if found.More? then None
    else
      match ResyncAction(found.code, desired)
      case Discard => Some((found, true))
      case Leave => Some((found, false))
      case Advance => Restart(input, SegmentEnd(input, found.pos), desired)
  }

  lemma ActionIs(m: int, desired: nat)
    requires desired < 8
    ensures m == 0xD0 + (desired + 1) % 8 || m == 0xD0 + (desired + 2) % 8 ==> ResyncAction(m, desired) == Leave
    ensures m == 0xD0 + (desired + 6) % 8 || m == 0xD0 + (desired + 7) % 8 || m < 0xC0 ==> ResyncAction(m, desired) == Advance
    ensures m == 0xD0 + desired || m == 0xD0 + (desired + 3) % 8 || m == 0xD0 + (desired + 4) % 8 || m == 0xD0 + (desired + 5) % 8 ==>
              ResyncAction(m, desired) == Discard
    ensures 0xC0 <= m < 0xD0 || m > 0xD7 ==> ResyncAction(m, desired) == Leave
  {
    if desired == 0 {} else if desired == 1 {} else if desired == 2 {} else if desired == 3 {} else if desired == 4 {}
    else if desired == 5 {} else if desired == 6 {} else {}
  }

  /**
   The rules of the recovery, for marker m found when restart marker number desired was expected:
   one of the next two restart markers is left for later, the data having been lost; one of the two
   before, or an invalid marker, is skipped; any other restart marker is taken for the desired one;
   and no other marker is passed.
   */
  lemma RecoveryRules(input: Bytes, m: int, pos: nat, desired: nat)
    requires pos <= |input| && desired < 8
    ensures m == 0xD0 + (desired + 1) % 8 || m == 0xD0 + (desired + 2) % 8 ==>
              Restart(input, Marker(m, pos), desired) == Some((Marker(m, pos), false))
    ensures m == 0xD0 + (desired + 6) % 8 || m == 0xD0 + (desired + 7) % 8 || m < 0xC0 ==>
              Restart(input, Marker(m, pos), desired) == Restart(input, SegmentEnd(input, pos), desired)
    ensures m == 0xD0 + desired || m == 0xD0 + (desired + 3) % 8 || m == 0xD0 + (desired + 4) % 8 || m == 0xD0 + (desired + 5) % 8 ==>
              Restart(input, Marker(m, pos), desired) == Some((Marker(m, pos), true))
    ensures 0xC0 <= m < 0xD0 || m > 0xD7 ==> Restart(input, Marker(m, pos), desired) == Some((Marker(m, pos), false))
  {
    hide ResyncAction, SegmentEnd;
    ActionIs(m, desired);
  }

  /** The expected restart marker is what the search ends with at once. */
  lemma ExpectedMarker(input: Bytes, pos: nat, desired: nat)
    requires pos <= |input| && desired < 8
    ensures Restart(input, Marker(RST0 + desired, pos), desired) == Some((Marker(RST0 + desired, pos), true))
  {
  }

  /** After a restart marker, or before a marker that cannot be passed. */
  ghost function Restarted(input: Bytes, scan: Scan, a: Ahead): (r: Option<Ahead>)
    requires ValidAhead(input, scan, a)
    ensures r.Some? ==> ValidAhead(input, scan, r.value) && r.value.toGo == scan.restartInterval
  {
    match Restart(input, a.end, a.next)
    case None => None
    case Some((m, passed)) =>
      var bits := if passed then SourceBits(input, m.pos) else [];
      var end := if passed then SegmentEnd(input, m.pos) else m;
      Some(Ahead(bits, a.exhausted && !passed, end, Zeros(|scan.dcTbl|), scan.restartInterval, (a.next + 1) % 8))
  }

  /** One MCU of the segment; once its bits have run out, nothing is stored any more. */
  ghost function Decoded(input: Bytes, scan: Scan, d: Setup, a: Ahead, area: Mcu): (r: (Ahead, Mcu))
    requires ValidAhead(input, scan, a) && ValidSetup(scan, d) && |area| == |scan.membership|
    ensures ValidAhead(input, scan, r.0) && r.0.end == a.end
  {
    var togo := (a.toGo + UINT_RANGE - 1) % UINT_RANGE;
    if a.exhausted then (a.(toGo := togo), area)
    else
      var (at, last) := BlockStart(scan, d, a.bits, a.lastDc, |scan.membership|);
      (Ahead(Tail(a.bits, at), at > |a.bits|, a.end, last, togo, a.next), DecodedMcu(scan, d, a.bits, a.lastDc, area))
  }

  /** One call of decode_mcu that is not cut short; None if the input ends before the marker it needs. */
  ghost function NextMcu(input: Bytes, scan: Scan, d: Setup, a: Ahead, area: Mcu): (r: Option<(Ahead, Mcu)>)
    requires ValidAhead(input, scan, a) && ValidSetup(scan, d) && |area| == |scan.membership|
    ensures r.Some? ==> ValidAhead(input, scan, r.value.0)
  {
    if RestartDue(scan, a.toGo) then
      match Restarted(input, scan, a)
      case None => None
      case Some(b) => Some(Decoded(input, scan, d, b, area))
    else Some(Decoded(input, scan, d, a, area))
  }

  /** When the data of an interval have run out and its end is lost as well, the blocks of the next one are not touched. */
  lemma NothingStored(input: Bytes, scan: Scan, d: Setup, a: Ahead, area: Mcu)
    requires ValidAhead(input, scan, a) && ValidSetup(scan, d) && |area| == |scan.membership| && a.exhausted
    ensures !RestartDue(scan, a.toGo) ==> NextMcu(input, scan, d, a, area).Some? && NextMcu(input, scan, d, a, area).value.1 == area
    ensures RestartDue(scan, a.toGo) && Restart(input, a.end, a.next).Some? && !Restart(input, a.end, a.next).value.1 ==>
              NextMcu(input, scan, d, a, area).Some? && NextMcu(input, scan, d, a, area).value.0.exhausted
              && NextMcu(input, scan, d, a, area).value.1 == area
  {
    hide Restart;
  }

  lemma {:induction false} ReachesIffMarker(input: Bytes, pos: nat)
    requires pos <= |input|
    ensures ReachesMarker(input, pos) <==> SegmentEnd(input, pos).Marker?
    decreases |input| - pos
  {
    var n := NextByte(input, pos);
    if n.Data? {
      ReachesIffMarker(input, n.pos);
    }
  }
}
