/**
 What the bits of a progressive AC scan decode to (ITU-T T.81, section G.2), as functions: one
 block of a first scan or of a refinement scan, and the step from block to block. A block that the
 decoder was forced to leave can be decoded again: the coefficients that were not zero before may
 have been corrected by then, but they are not corrected twice.
 */
module ProgressiveDecoding {
  import opened JpegLimits
  import opened Arith
  import opened BitString
  import opened ByteStream
  import opened CodeSpace
  import opened CanonicalCode
  import opened DerivedTables
  import opened BitReader
  import opened Coefficients
  import opened BlockCoding
  import opened ScanCoding
  import opened ScanDecoding
  import opened ProgressiveCoding

  const MAX_AL := 13

  /** What decoding a block leaves: the block, the position behind its bits, and the end-of-band run. */
  datatype Decoding = Decoding(block: Block, at: nat, run: nat)

  /** A coefficient with a correction bit, as it is stored. */
  function Stored(v: int, bit: nat, al: nat): int
  {
    ToShort(Corrected(v, bit, al))
  }

  /** decode_mcu_AC_first outside an end-of-band run, from position k of the band on. */
  ghost function DecodeFirst(d: DecTable, band: Band, stream: Bits, at: nat, k: nat, block: Block): (x: Decoding)
    requires ValidDecTable(d) && band.se < DCTSIZE2
    ensures x.at >= at
    decreases band.se + 1 - k
  {
    if k > band.se then Decoding(block, at, 0)
    else
      var (sym, l) := DecodeSymbol(d.b, d.huffval, Tail(stream, at));
      SymbolIsByte(d, Tail(stream, at));
      var r, n := sym / 16, sym % 16;
      if n != 0 then
        var v := Extend(Peek(Tail(stream, at + l), n), n) * Pow2(band.al);
        DecodeFirst(d, band, stream, at + l + n, k + r + 1, block[Natural(k + r) := ToShort(v)])
      else if r == 15 then DecodeFirst(d, band, stream, at + l, k + 16, block)
      else Decoding(block, at + l + r, Pow2(r) + Peek(Tail(stream, at + l), r) - 1)
  }

  /** Goes on to the coefficient after r more zeros, correcting the others on the way. */
  function SkipTo(band: Band, stream: Bits, at: nat, k: nat, r: nat, block: Block): (x: (nat, nat, Block))
    requires band.se < DCTSIZE2
    ensures x.0 >= at && x.1 >= k && (k <= band.se + 1 ==> x.1 <= band.se + 1)
    decreases band.se + 1 - k
  {
    if k > band.se then (at, k, block)
    else
      var i := Natural(k);
      if block[i] != 0 then
        SkipTo(band, stream, at + 1, k + 1, r, block[i := Stored(block[i], Peek(Tail(stream, at), 1), band.al)])
      else if r == 0 then (at, k, block)
      else SkipTo(band, stream, at, k + 1, r - 1, block)
  }

  /** Corrects all coefficients that are not zero, up to the end of the band. */
  function CorrectTo(band: Band, stream: Bits, at: nat, k: nat, block: Block): (x: (nat, Block))
    requires band.se < DCTSIZE2
    ensures x.0 >= at
    decreases band.se + 1 - k
  {
    if k > band.se then (at, block)
    else
      var i := Natural(k);
      if block[i] != 0 then
        CorrectTo(band, stream, at + 1, k + 1, block[i := Stored(block[i], Peek(Tail(stream, at), 1), band.al)])
      else CorrectTo(band, stream, at, k + 1, block)
  }

  /** decode_mcu_AC_refine outside an end-of-band run, from position k of the band on. */
  ghost function DecodeRefine(d: DecTable, band: Band, stream: Bits, at: nat, k: nat, block: Block): (x: Decoding)
    requires ValidDecTable(d) && band.se < DCTSIZE2
    ensures x.at >= at
    decreases band.se + 1 - k, 1
  {
    if k > band.se then Decoding(block, at, 0)
    else
      var (sym, l) := DecodeSymbol(d.b, d.huffval, Tail(stream, at));
      SymbolIsByte(d, Tail(stream, at));
      var r, n := sym / 16, sym % 16;
      if n != 0 then
        var s := if Peek(Tail(stream, at + l), 1) == 1 then Pow2(band.al) else 0 - Pow2(band.al);
        AfterSymbol(d, band, stream, at + l + 1, k, r, s, block)
      else if r == 15 then AfterSymbol(d, band, stream, at + l, k, 15, 0, block)
      else
        var (at', b) := CorrectTo(band, stream, at + l + r, k, block);
        Decoding(b, at', Pow2(r) + Peek(Tail(stream, at + l), r) - 1)
  }

  /** After a symbol: r zeros are passed, and the next one becomes s unless s is zero. */
  ghost function AfterSymbol(d: DecTable, band: Band, stream: Bits, at: nat, k: nat, r: nat, s: int, block: Block): (x: Decoding)
    requires ValidDecTable(d) && k <= band.se + 1 <= DCTSIZE2
    ensures x.at >= at
    decreases band.se + 1 - k, 0
  {
    var (at', k', b) := SkipTo(band, stream, at, k, r, block);
    DecodeRefine(d, band, stream, at', k' + 1, if s != 0 then b[Natural(k') := s] else b)
  }

  /** One block, when run blocks are left of an end-of-band run. */
  ghost function DecodeBand(d: DecTable, band: Band, stream: Bits, at: nat, run: nat, block: Block): (x: Decoding)
    requires ValidDecTable(d) && band.se < DCTSIZE2
    ensures x.at >= at
  {
    if run > 0 then
      if band.refine then var (at', b) := CorrectTo(band, stream, at, band.ss, block); Decoding(b, at', run - 1)
      else Decoding(block, at, run - 1)
    else if band.refine then DecodeRefine(d, band, stream, at, band.ss, block)
    else DecodeFirst(d, band, stream, at, band.ss, block)
  }

  // ----- From block to block -----

  /**
   What lies ahead of the decoder: the bits up to the next marker, unless they have run out, what
   ends them, the blocks left of an end-of-band run and of the restart interval, and the number of
   the next restart marker.
   */
  datatype BandAhead = BandAhead(bits: Bits, exhausted: bool, end: Next, run: nat, toGo: nat, next: nat)

  ghost predicate ValidBandAhead(input: Bytes, a: BandAhead)
  {
    a.next < 8 && !a.end.Data? && (a.end.Marker? ==> a.end.pos <= |input|)
  }

  /** At the beginning of a scan whose data are input. */
  ghost function FirstBand(input: Bytes, interval: nat): BandAhead
  {
    BandAhead(SourceBits(input, 0), false, SegmentEnd(input, 0), 0, interval, 0)
  }

  /** After a restart marker, or before a marker that cannot be passed; an end-of-band run does not go on. */
  ghost function BandRestarted(input: Bytes, interval: nat, a: BandAhead): (r: Option<BandAhead>)
    requires ValidBandAhead(input, a)
    ensures r.Some? ==> ValidBandAhead(input, r.value) && r.value.toGo == interval
  {
    match Restart(input, a.end, a.next)
    case None => None
    case Some((m, passed)) =>
      var bits := if passed then SourceBits(input, m.pos) else [];
      var end := if passed then SegmentEnd(input, m.pos) else m;
      Some(BandAhead(bits, a.exhausted && !passed, end, 0, interval, (a.next + 1) % 8))
  }

  /** One block of the segment; once its bits have run out, nothing is changed any more. */
  ghost function BandDecoded(d: DecTable, band: Band, a: BandAhead, block: Block): (r: (BandAhead, Block))
    requires ValidDecTable(d) && band.se < DCTSIZE2
    ensures r.0.end == a.end && r.0.next == a.next
  {
    var togo := (a.toGo + UINT_RANGE - 1) % UINT_RANGE;
    if a.exhausted then (a.(toGo := togo), block)
    else
      var x := DecodeBand(d, band, a.bits, 0, a.run, block);
      (BandAhead(Tail(a.bits, x.at), x.at > |a.bits|, a.end, x.run, togo, a.next), x.block)
  }

  /** One call that is not cut short; None if the input ends before the marker it needs. */
  ghost function NextBand(input: Bytes, interval: nat, d: DecTable, band: Band, a: BandAhead, block: Block): (r: Option<(BandAhead, Block)>)
    requires ValidBandAhead(input, a) && ValidDecTable(d) && band.se < DCTSIZE2
    ensures r.Some? ==> ValidBandAhead(input, r.value.0)
  {
    if interval != 0 && a.toGo == 0 then
      match BandRestarted(input, interval, a)
      case None => None
      case Some(b) => Some(BandDecoded(d, band, b, block))
    else Some(BandDecoded(d, band, a, block))
  }

  /** No end-of-band run goes on behind a restart, and once data have run out nothing changes until a marker is passed. */
  lemma RunIsDropped(input: Bytes, interval: nat, d: DecTable, band: Band, a: BandAhead, block: Block)
    requires ValidBandAhead(input, a) && ValidDecTable(d) && band.se < DCTSIZE2
    ensures BandRestarted(input, interval, a).Some? ==> BandRestarted(input, interval, a).value.run == 0
    ensures var x := NextBand(input, interval, d, band, a, block);
            a.exhausted && x.Some? && !(interval != 0 && a.toGo == 0 && Restart(input, a.end, a.next).value.1) ==>
              x.value.0.exhausted && x.value.1 == block
  {
    hide Restart, DecodeBand;
  }

  // ----- One step of the decoding procedure -----

  lemma FirstOver(d: DecTable, band: Band, stream: Bits, at: nat, k: nat, block: Block)
    requires ValidDecTable(d) && band.se < DCTSIZE2 && k > band.se
    ensures DecodeFirst(d, band, stream, at, k, block) == Decoding(block, at, 0)
  {
  }

  lemma FirstOnce(d: DecTable, band: Band, stream: Bits, at: nat, k: nat, block: Block)
    requires ValidDecTable(d) && k <= band.se < DCTSIZE2
    ensures var (sym, l) := DecodeSymbol(d.b, d.huffval, Tail(stream, at));
            && 0 <= sym < 256
            && var r, n := sym / 16, sym % 16;
               DecodeFirst(d, band, stream, at, k, block) ==
                 if n != 0 then
                   DecodeFirst(d, band, stream, at + l + n, k + r + 1,
                               block[Natural(k + r) := ToShort(Extend(Peek(Tail(stream, at + l), n), n) * Pow2(band.al))])
                 else if r == 15 then DecodeFirst(d, band, stream, at + l, k + 16, block)
                 else Decoding(block, at + l + r, Pow2(r) + Peek(Tail(stream, at + l), r) - 1)
  {
    hide DecodeSymbol, Peek, Extend, Natural, Pow2, ToShort, ValidDecTable;
    SymbolIsByte(d, Tail(stream, at));
  }

  lemma RefineOver(d: DecTable, band: Band, stream: Bits, at: nat, k: nat, block: Block)
    requires ValidDecTable(d) && band.se < DCTSIZE2 && k > band.se
    ensures DecodeRefine(d, band, stream, at, k, block) == Decoding(block, at, 0)
  {
  }

  lemma RefineOnce(d: DecTable, band: Band, stream: Bits, at: nat, k: nat, block: Block)
    requires ValidDecTable(d) && k <= band.se < DCTSIZE2
    ensures var (sym, l) := DecodeSymbol(d.b, d.huffval, Tail(stream, at));
            && 0 <= sym < 256
            && var r, n := sym / 16, sym % 16;
               var s := if Peek(Tail(stream, at + l), 1) == 1 then Pow2(band.al) else 0 - Pow2(band.al);
               var (at', b) := CorrectTo(band, stream, at + l + r, k, block);
               DecodeRefine(d, band, stream, at, k, block) ==
                 if n != 0 then AfterSymbol(d, band, stream, at + l + 1, k, r, s, block)
                 else if r == 15 then AfterSymbol(d, band, stream, at + l, k, 15, 0, block)
                 else Decoding(b, at', Pow2(r) + Peek(Tail(stream, at + l), r) - 1)
  {
    hide DecodeSymbol, Peek, AfterSymbol, CorrectTo, Pow2, ValidDecTable;
    SymbolIsByte(d, Tail(stream, at));
  }

  lemma SkipOnce(band: Band, stream: Bits, at: nat, k: nat, r: nat, block: Block)
    requires k <= band.se < DCTSIZE2
    ensures var i := Natural(k);
            SkipTo(band, stream, at, k, r, block) ==
              if block[i] != 0 then
                SkipTo(band, stream, at + 1, k + 1, r, block[i := Stored(block[i], Peek(Tail(stream, at), 1), band.al)])
              else if r == 0 then (at, k, block)
              else SkipTo(band, stream, at, k + 1, r - 1, block)
  {
    hide Natural, Peek, Stored;
  }

  lemma SkipOver(band: Band, stream: Bits, at: nat, k: nat, r: nat, block: Block)
    requires band.se < DCTSIZE2 && k > band.se
    ensures SkipTo(band, stream, at, k, r, block) == (at, k, block)
    ensures CorrectTo(band, stream, at, k, block) == (at, block)
  {
  }

  lemma CorrectOnce(band: Band, stream: Bits, at: nat, k: nat, block: Block)
    requires k <= band.se < DCTSIZE2
    ensures var i := Natural(k);
            CorrectTo(band, stream, at, k, block) ==
              if block[i] != 0 then
                CorrectTo(band, stream, at + 1, k + 1, block[i := Stored(block[i], Peek(Tail(stream, at), 1), band.al)])
              else CorrectTo(band, stream, at, k + 1, block)
  {
    hide Natural, Peek, Stored;
  }

  lemma SymbolDone(d: DecTable, band: Band, stream: Bits, at: nat, k: nat, r: nat, s: int, block: Block)
    requires ValidDecTable(d) && k <= band.se + 1 <= DCTSIZE2
    ensures k > band.se || (block[Natural(k)] == 0 && r == 0) ==>
              AfterSymbol(d, band, stream, at, k, r, s, block)
              == DecodeRefine(d, band, stream, at, k + 1, if s != 0 then block[Natural(k) := s] else block)
    ensures k <= band.se && block[Natural(k)] == 0 && r > 0 ==>
              AfterSymbol(d, band, stream, at, k, r, s, block) == AfterSymbol(d, band, stream, at, k + 1, r - 1, s, block)
    ensures k <= band.se && block[Natural(k)] != 0 ==>
              AfterSymbol(d, band, stream, at, k, r, s, block)
              == AfterSymbol(d, band, stream, at + 1, k + 1, r, s,
                             block[Natural(k) := Stored(block[Natural(k)], Peek(Tail(stream, at), 1), band.al)])
  {
    hide Natural, Peek, Stored, DecodeRefine, SkipTo, ValidDecTable;
    if k <= band.se {
      SkipOnce(band, stream, at, k, r, block);
    } else {
      SkipOver(band, stream, at, k, r, block);
    }
  }

  // ----- Correcting again -----

  /**
   A correction is made once: a corrected coefficient has the bit set, so that it is not corrected
   again; it stays in 16 bits, and does not become zero.
   */
  lemma CorrectedOnce(v: int, bit: nat, al: nat)
    requires -0x8000 <= v < 0x8000 && v != 0 && al <= MAX_AL
    ensures var w := Stored(v, bit, al); -0x8000 <= w < 0x8000 && w != 0 && Stored(w, bit, al) == w
  {
    hide Pow2, ToShort;
    var p, q := Pow2(al), Pow2(14 - al);
    TopBit(al);
    ShortIs(v);
    if bit == 1 && (v / p) % 2 == 0 {
      var h, r := Halved(v, p);
      BitSet(v, p, q, h, r);
      ShortIs(Stored(v, bit, al));
    }
  }

  lemma TopBit(al: nat)
    requires al <= 14
    ensures (2 * Pow2(14 - al)) * Pow2(al) == 0x8000
  {
    Pow2Values();
    Pow2Double(15);
    Pow2Double(14 - al);
    Pow2Add(15 - al, al);
  }

  lemma Halved(v: int, p: nat) returns (h: int, r: nat)
    requires p >= 1 && (v / p) % 2 == 0
    ensures v == (2 * h) * p + r && r < p
  {
    h, r := v / p / 2, v % p;
  }

  /** With 2^al = p and 2^15 = 2pq: the bit al of v is clear, those above it are h. */
  lemma BitSet(v: int, p: nat, q: nat, h: int, r: nat)
    requires p >= 1 && q >= 1 && (2 * q) * p == 0x8000 && -0x8000 <= v < 0x8000 && v != 0
    requires v == (2 * h) * p + r && r < p
    ensures var w := ToShort(if v >= 0 then v + p else v - p); -0x8000 <= w < 0x8000 && w != 0 && (w / p) % 2 == 1
  {
    hide ToShort;
    Within(v, p, q, h, r);
    Times(2 * h, p);
    if v >= 0 {
      ShortIs(v + p);
      FloorIs(v + p, p, 2 * h + 1, r);
    } else if h > 0 - q {
      ShortIs(v - p);
      FloorIs(v - p, p, 2 * h - 1, r);
    } else {
      Times(2 * q, p);
      ShortIs(v - p);
      FloorIs(v - p + 0x1_0000, p, 2 * q - 1, r);
    }
  }

  /** There is room for 2^al more, unless v is among the least numbers, which wrap around. */
  lemma Within(v: int, p: nat, q: nat, h: int, r: nat)
    requires p >= 1 && q >= 1 && (2 * q) * p == 0x8000 && -0x8000 <= v < 0x8000 && v == (2 * h) * p + r && r < p
    ensures 0 - q <= h < q
    ensures v >= 0 ==> h >= 0 && v + p < 0x8000
    ensures v < 0 && h > 0 - q ==> v - p >= -0x8000
    ensures h == 0 - q ==> v == r - 0x8000
    ensures 2 * p <= 0x8000
  {
    assert (0 - 2 * q - 2) * p == 0 - 0x8000 - 2 * p;
    if h >= q {
      ScaleMono(p, 2 * q, 2 * h);
    }
    if h < 0 - q {
      ScaleMono(p, 2 * h, 0 - 2 * q - 2);
    }
    if v >= 0 {
      if h < 0 {
        ScaleMono(p, 2 * h, -2);
      }
      ScaleMono(p, 2 * h + 2, 2 * q);
      assert (2 * h + 2) * p == (2 * h) * p + 2 * p;
    } else if h > 0 - q {
      ScaleMono(p, 0 - 2 * q + 2, 2 * h);
      assert (0 - 2 * q + 2) * p == 2 * p - 0x8000;
    }
    ScaleMono(p, 2, 2 * q);
    assert (0 - 2 * q) * p == 0 - 0x8000;
  }

  lemma Times(x: int, p: int)
    ensures (x + 1) * p == x * p + p && (x - 1) * p == x * p - p
  {
  }

  lemma ShortIs(w: int)
    ensures -0x8000 <= w < 0x8000 ==> ToShort(w) == w
    ensures -0x1_0000 <= w < -0x8000 ==> ToShort(w) == w + 0x1_0000
  {
  }

  lemma FloorIs(v: int, p: nat, q: int, r: nat)
    requires p >= 1 && v == q * p + r && r < p
    ensures v / p == q
  {
    var x := v / p;
    assert x * p <= v < x * p + p;
    if x < q {
      ScaleMono(p, x + 1, q);
    } else if x > q {
      ScaleMono(p, q + 1, x);
    }
  }

  // ----- Decoding again -----

  ghost predicate ShortBlock(b: Block)
  {
    forall i :: 0 <= i < DCTSIZE2 ==> -0x8000 <= b[i] < 0x8000
  }

  /** What is passed is left as it is. */
  lemma {:induction false} SkipKeeps(band: Band, stream: Bits, at: nat, k: nat, r: nat, b: Block, x: nat)
    requires k <= band.se + 1 <= DCTSIZE2 && x < DCTSIZE2
    ensures var (_, k', b') := SkipTo(band, stream, at, k, r, b);
            && (Zigzag(x) < k || Zigzag(x) >= k' ==> b'[x] == b[x])
            && (k' <= band.se ==> b'[Natural(k')] == 0) && (ShortBlock(b) ==> ShortBlock(b'))
    decreases band.se + 1 - k
  {
    hide SkipTo, Natural, Zigzag, Peek, Stored;
    if k > band.se {
      SkipOver(band, stream, at, k, r, b);
    } else {
      var i := Natural(k);
      SkipOnce(band, stream, at, k, r, b);
      OrdersInverse(k);
      if b[i] != 0 {
        var w := Stored(b[i], Peek(Tail(stream, at), 1), band.al);
        StoredShort(b[i], Peek(Tail(stream, at), 1), band.al);
        SkipKeeps(band, stream, at + 1, k + 1, r, b[i := w], x);
      } else if r > 0 {
        SkipKeeps(band, stream, at, k + 1, r - 1, b, x);
      }
    }
  }

  lemma StoredShort(v: int, bit: nat, al: nat)
    ensures -0x8000 <= Stored(v, bit, al) < 0x8000
  {
    hide Corrected;
  }

  lemma {:induction false} CorrectKeeps(band: Band, stream: Bits, at: nat, k: nat, b: Block, x: nat)
    requires k <= band.se + 1 <= DCTSIZE2 && x < DCTSIZE2
    ensures Zigzag(x) < k ==> CorrectTo(band, stream, at, k, b).1[x] == b[x]
    decreases band.se + 1 - k
  {
    hide CorrectTo, Natural, Zigzag, Peek, Stored;
    if k > band.se {
      SkipOver(band, stream, at, k, 0, b);
    } else {
      var i := Natural(k);
      CorrectOnce(band, stream, at, k, b);
      OrdersInverse(k);
      var w := Stored(b[i], Peek(Tail(stream, at), 1), band.al);
      CorrectKeeps(band, stream, at + 1, k + 1, b[i := w], x);
      CorrectKeeps(band, stream, at, k + 1, b, x);
    }
  }

  /** A coefficient before position k is final. Only the last place of a block may be stored in from beyond the band. */
  lemma {:induction false} RefineKeeps(d: DecTable, band: Band, stream: Bits, at: nat, k: nat, b: Block, x: nat)
    requires ValidDecTable(d) && k <= band.se + 2 <= DCTSIZE2 + 1 && x < DCTSIZE2 && Zigzag(x) < k && Zigzag(x) < 63
    ensures DecodeRefine(d, band, stream, at, k, b).block[x] == b[x]
    decreases band.se + 2 - k, 1
  {
    hide DecodeRefine, AfterSymbol, CorrectTo, DecodeSymbol, Natural, Zigzag, Peek, Pow2, Count, Filled;
    if k > band.se {
      RefineOver(d, band, stream, at, k, b);
    } else {
      var (sym, l) := DecodeSymbol(d.b, d.huffval, Tail(stream, at));
      RefineOnce(d, band, stream, at, k, b);
      var r, n := sym / 16, sym % 16;
      if n != 0 {
        var s := if Peek(Tail(stream, at + l), 1) == 1 then Pow2(band.al) else 0 - Pow2(band.al);
        SymbolKeeps(d, band, stream, at + l + 1, k, r, s, b, x);
      } else if r == 15 {
        SymbolKeeps(d, band, stream, at + l, k, 15, 0, b, x);
      } else {
        CorrectKeeps(band, stream, at + l + r, k, b, x);
      }
    }
  }

  lemma {:induction false} SymbolKeeps(d: DecTable, band: Band, stream: Bits, at: nat, k: nat, r: nat, s: int, b: Block, x: nat)
    requires ValidDecTable(d) && k <= band.se + 1 <= DCTSIZE2 && x < DCTSIZE2 && Zigzag(x) < k && Zigzag(x) < 63
    ensures AfterSymbol(d, band, stream, at, k, r, s, b).block[x] == b[x]
    decreases band.se + 2 - k, 0
  {
    hide DecodeRefine, SkipTo, Natural, Zigzag, ValidDecTable;
    var (at', k', b') := SkipTo(band, stream, at, k, r, b);
    SkipKeeps(band, stream, at, k, r, b, x);
    PlacedFrom(k');
    RefineKeeps(d, band, stream, at', k' + 1, if s != 0 then b'[Natural(k') := s] else b', x);
  }

  /** Passing a coefficient that has been corrected before, where v is what it will be anyway. */
  lemma {:induction false} SkipAgain(band: Band, stream: Bits, at: nat, k: nat, r: nat, b: Block, x: nat, v: int)
    requires k <= band.se + 1 <= DCTSIZE2 && x < DCTSIZE2 && ShortBlock(b) && band.al <= MAX_AL && b[x] != 0 && v != 0
    requires var (_, k', b') := SkipTo(band, stream, at, k, r, b); k <= Zigzag(x) < k' ==> v == b'[x]
    ensures var (at', k', b') := SkipTo(band, stream, at, k, r, b);
            SkipTo(band, stream, at, k, r, b[x := v]) == (at', k', b'[x := v])
    decreases band.se + 1 - k
  {
    hide SkipTo, Natural, Zigzag, Peek, Stored;
    if k > band.se {
      SkipOver(band, stream, at, k, r, b);
      SkipOver(band, stream, at, k, r, b[x := v]);
    } else {
      var i, bit := Natural(k), Peek(Tail(stream, at), 1);
      SkipOnce(band, stream, at, k, r, b);
      SkipOnce(band, stream, at, k, r, b[x := v]);
      OrdersInverse(k);
      OrdersInverse(x);
      if b[i] != 0 {
        var w := Stored(b[i], bit, band.al);
        StoredShort(b[i], bit, band.al);
        if i == x {
          SkipKeeps(band, stream, at + 1, k + 1, r, b[i := w], x);
          CorrectedOnce(b[x], bit, band.al);
          assert b[x := v][x := Stored(v, bit, band.al)] == b[x := w];
          var b' := SkipTo(band, stream, at, k, r, b).2;
          assert b'[x := v] == b';
        } else {
          assert b[x := v][i := w] == b[i := w][x := v];
          SkipAgain(band, stream, at + 1, k + 1, r, b[i := w], x, v);
        }
      } else if r > 0 {
        SkipAgain(band, stream, at, k + 1, r - 1, b, x, v);
      }
    }
  }

  lemma {:induction false} CorrectAgain(band: Band, stream: Bits, at: nat, k: nat, b: Block, x: nat, v: int)
    requires k <= band.se + 1 <= DCTSIZE2 && x < DCTSIZE2 && ShortBlock(b) && band.al <= MAX_AL && b[x] != 0 && v != 0
    requires v == CorrectTo(band, stream, at, k, b).1[x]
    ensures CorrectTo(band, stream, at, k, b[x := v]) == CorrectTo(band, stream, at, k, b)
    decreases band.se + 1 - k
  {
    hide CorrectTo, Natural, Zigzag, Peek, Stored;
    if k > band.se {
      SkipOver(band, stream, at, k, 0, b);
      assert b[x := v] == b;
    } else {
      var i, bit := Natural(k), Peek(Tail(stream, at), 1);
      CorrectOnce(band, stream, at, k, b);
      CorrectOnce(band, stream, at, k, b[x := v]);
      OrdersInverse(k);
      if b[i] != 0 {
        var w := Stored(b[i], bit, band.al);
        StoredShort(b[i], bit, band.al);
        if i == x {
          CorrectKeeps(band, stream, at + 1, k + 1, b[i := w], x);
          CorrectedOnce(b[x], bit, band.al);
          assert b[x := v][x := Stored(v, bit, band.al)] == b[x := w];
        } else {
          assert b[x := v][i := w] == b[i := w][x := v];
          CorrectAgain(band, stream, at + 1, k + 1, b[i := w], x, v);
        }
      } else {
        CorrectAgain(band, stream, at, k + 1, b, x, v);
      }
    }
  }

  /** Decoding again with a coefficient that has been corrected already gives the same block. */
  lemma {:induction false} RefineAgain(d: DecTable, band: Band, stream: Bits, at: nat, k: nat, b: Block, x: nat, v: int)
    requires ValidDecTable(d) && k <= band.se + 2 <= DCTSIZE2 + 1 && ShortBlock(b) && band.al <= MAX_AL
    requires x < DCTSIZE2 && Zigzag(x) <= band.se && Zigzag(x) < 63 && b[x] != 0 && v != 0
    requires v == DecodeRefine(d, band, stream, at, k, b).block[x]
    ensures DecodeRefine(d, band, stream, at, k, b[x := v]) == DecodeRefine(d, band, stream, at, k, b)
    decreases band.se + 2 - k, 1
  {
    hide DecodeRefine, AfterSymbol, CorrectTo, DecodeSymbol, Natural, Zigzag, Peek, Pow2, Count, Filled;
    if k > band.se {
      RefineOver(d, band, stream, at, k, b);
      assert b[x := v] == b;
    } else {
      var (sym, l) := DecodeSymbol(d.b, d.huffval, Tail(stream, at));
      RefineOnce(d, band, stream, at, k, b);
      RefineOnce(d, band, stream, at, k, b[x := v]);
      var r, n := sym / 16, sym % 16;
      if n != 0 {
        var s := if Peek(Tail(stream, at + l), 1) == 1 then Pow2(band.al) else 0 - Pow2(band.al);
        assert -0x8000 <= s < 0x8000 by { NewShort(band.al); }
        SymbolAgain(d, band, stream, at + l + 1, k, r, s, b, x, v);
      } else if r == 15 {
        SymbolAgain(d, band, stream, at + l, k, 15, 0, b, x, v);
      } else {
        CorrectAgain(band, stream, at + l + r, k, b, x, v);
      }
    }
  }

  lemma NewShort(al: nat)
    requires al <= MAX_AL
    ensures Pow2(al) < 0x8000
  {
    Pow2Values();
    Pow2Double(15);
    Pow2Mono(al, 13);
    Pow2Double(14);
  }

  lemma {:induction false} SymbolAgain(d: DecTable, band: Band, stream: Bits, at: nat, k: nat, r: nat, s: int, b: Block, x: nat, v: int)
    requires ValidDecTable(d) && k <= band.se < DCTSIZE2 && ShortBlock(b) && band.al <= MAX_AL && -0x8000 <= s < 0x8000
    requires x < DCTSIZE2 && Zigzag(x) <= band.se && Zigzag(x) < 63 && b[x] != 0 && v != 0
    requires v == AfterSymbol(d, band, stream, at, k, r, s, b).block[x]
    ensures AfterSymbol(d, band, stream, at, k, r, s, b[x := v]) == AfterSymbol(d, band, stream, at, k, r, s, b)
    decreases band.se + 2 - k, 0
  {
    hide DecodeRefine, SkipTo, Natural, Zigzag, ValidDecTable;
    var (at', k', b') := SkipTo(band, stream, at, k, r, b);
    var c := if s != 0 then b'[Natural(k') := s] else b';
    SkipKeeps(band, stream, at, k, r, b, x);
    PlacedFrom(k');
    if k <= Zigzag(x) < k' {
      RefineKeeps(d, band, stream, at', k' + 1, c, x);
      SkipAgain(band, stream, at, k, r, b, x, v);
      assert b'[x := v] == b';
    } else {
      SkipAgain(band, stream, at, k, r, b, x, v);
      assert s != 0 ==> b'[x := v][Natural(k') := s] == c[x := v];
      RefineAgain(d, band, stream, at', k' + 1, c, x, v);
    }
  }

  /** The whole block of a refinement scan, with one coefficient corrected beforehand. */
  lemma BandAgain(d: DecTable, band: Band, stream: Bits, at: nat, run: nat, b: Block, x: nat, v: int)
    requires ValidDecTable(d) && ValidBand(band) && band.refine && ShortBlock(b) && band.al <= MAX_AL
    requires x < DCTSIZE2 && Zigzag(x) <= band.se && Zigzag(x) < 63 && b[x] != 0 && v != 0
    requires v == DecodeBand(d, band, stream, at, run, b).block[x]
    ensures DecodeBand(d, band, stream, at, run, b[x := v]) == DecodeBand(d, band, stream, at, run, b)
  {
    hide DecodeRefine, CorrectTo, Natural, Zigzag, ValidDecTable;
    if run > 0 {
      CorrectAgain(band, stream, at, band.ss, b, x, v);
    } else {
      RefineAgain(d, band, stream, at, band.ss, b, x, v);
    }
  }

  /** In a first scan, a coefficient before position k is final; only the last place may be stored in twice. */
  lemma {:induction false} FirstKeeps(d: DecTable, band: Band, stream: Bits, at: nat, k: nat, b: Block, x: nat)
    requires ValidDecTable(d) && band.se < DCTSIZE2 && x < DCTSIZE2 && Zigzag(x) < k && (Zigzag(x) < 63 || k > band.se)
    ensures DecodeFirst(d, band, stream, at, k, b).block[x] == b[x]
    decreases band.se + 1 - k
  {
    hide DecodeFirst, DecodeSymbol, Natural, Zigzag, Peek, Extend, Pow2, ToShort, Count, Filled;
    if k > band.se {
      FirstOver(d, band, stream, at, k, b);
    } else {
      var (sym, l) := DecodeSymbol(d.b, d.huffval, Tail(stream, at));
      FirstOnce(d, band, stream, at, k, b);
      var r, n := sym / 16, sym % 16;
      if n != 0 {
        var v := ToShort(Extend(Peek(Tail(stream, at + l), n), n) * Pow2(band.al));
        PlacedFrom(k + r);
        FirstKeeps(d, band, stream, at + l + n, k + r + 1, b[Natural(k + r) := v], x);
      } else if r == 15 {
        FirstKeeps(d, band, stream, at + l, k + 16, b, x);
      }
    }
  }

  /** In a first scan, storing beforehand what will be stored anyway changes nothing. */
  lemma {:induction false} FirstAgain(d: DecTable, band: Band, stream: Bits, at: nat, k: nat, b: Block, x: nat, v: int)
    requires ValidDecTable(d) && band.se < DCTSIZE2 && x < DCTSIZE2 && DecodeFirst(d, band, stream, at, k, b).block[x] == v
    ensures DecodeFirst(d, band, stream, at, k, b[x := v]) == DecodeFirst(d, band, stream, at, k, b)
    decreases band.se + 1 - k
  {
    hide DecodeFirst, DecodeSymbol, Natural, Zigzag, Peek, Extend, Pow2, ToShort, Count, Filled;
    if k > band.se {
      FirstOver(d, band, stream, at, k, b);
      assert b[x := v] == b;
    } else {
      var (sym, l) := DecodeSymbol(d.b, d.huffval, Tail(stream, at));
      FirstOnce(d, band, stream, at, k, b);
      FirstOnce(d, band, stream, at, k, b[x := v]);
      var r, n := sym / 16, sym % 16;
      if n != 0 {
        var i, w := Natural(k + r), ToShort(Extend(Peek(Tail(stream, at + l), n), n) * Pow2(band.al));
        if i == x {
          assert b[x := v][i := w] == b[i := w];
        } else {
          assert b[x := v][i := w] == b[i := w][x := v];
          FirstAgain(d, band, stream, at + l + n, k + r + 1, b[i := w], x, v);
        }
      } else if r == 15 {
        FirstAgain(d, band, stream, at + l, k + 16, b, x, v);
      } else {
        assert b[x := v] == b;
      }
    }
  }
}
