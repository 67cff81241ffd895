/**
 The round trip of progressive AC scans: the bytes that the encoder has written for the blocks of a
 scan, restart interval by restart interval, decode to the band's coefficients down to bit Al.
 */
module ProgressiveScans {
  import opened JpegLimits
  import opened Arith
  import opened BitString
  import opened ByteStream
  import opened BitWriter
  import opened CodeSpace
  import opened CanonicalCode
  import opened DerivedTables
  import opened Coefficients
  import opened BlockCoding
  import opened ScanCoding
  import opened ScanDecoding
  import opened SequentialRoundTrip
  import opened Statistics
  import opened OptimizedCoding
  import OptimalTable
  import opened ProgressiveCoding
  import opened ProgressiveReplay
  import opened ProgressiveEncoder
  import opened ProgressiveDecoding
  import opened ProgressiveRoundTrip

  // ----- The file -----

  lemma ClosedNext(book: Book, band: Band, parts: seq<seq<Block>>, j: nat)
    requires ValidBook(book) && ValidBand(band) && IntervalsCoded(book, band, parts) && j < |parts|
    ensures ClosedBytes(book, band, parts[..j + 1])
         == ClosedBytes(book, band, parts[..j]) + Pack(BitsOf(book, IntervalTokens(band, parts[j])) + Padding()) + Rst(j % 8)
  {
    hide AllCoded, BitsOf, Pack, Padding, IntervalTokens, ValidBook, Rst;
    assert parts[..j + 1][..j] == parts[..j];
  }

  lemma {:induction false} ClosedFirst(book: Book, band: Band, parts: seq<seq<Block>>, j: nat, m: nat)
    requires ValidBook(book) && ValidBand(band) && IntervalsCoded(book, band, parts) && j <= m <= |parts|
    ensures ClosedBytes(book, band, parts[..j]) <= ClosedBytes(book, band, parts[..m])
    decreases m - j
  {
    hide AllCoded, BitsOf, Pack, Padding, IntervalTokens, ValidBook, Rst, ClosedBytes;
    if j < m {
      ClosedNext(book, band, parts, j);
      ClosedFirst(book, band, parts, j + 1, m);
    }
  }

  /** In the file, each interval's bits come up to its marker. */
  lemma PartAhead(book: Book, band: Band, parts: seq<seq<Block>>, j: nat, input: Bytes, tail: Bytes) returns (more: Bits)
    requires ValidBook(book) && ValidBand(band) && IntervalsCoded(book, band, parts) && j < |parts|
    requires input == ScanBytes(book, band, parts) + tail && MarkerFirst(tail)
    ensures var pos := |ClosedBytes(book, band, parts[..j])|;
            && pos <= |input| && SourceBits(input, pos) == BitsOf(book, IntervalTokens(band, parts[j])) + more
            && SegmentEnd(input, pos).Marker?
            && (j + 1 < |parts| ==> var q := |ClosedBytes(book, band, parts[..j + 1])|;
                                    q <= |input| && SegmentEnd(input, pos) == Marker(RST0 + j % 8, q))
  {
    hide AllCoded, BitsOf, Pack, Padding, IntervalTokens, ValidBook, ClosedBytes, SourceBits, SegmentEnd;
    var m := |parts| - 1;
    var before, seg := ClosedBytes(book, band, parts[..j]), BitsOf(book, IntervalTokens(band, parts[j]));
    if j == m {
      assert input[|before|..] == Pack(seg + Padding()) + tail;
      more := FlushedSegment(input, |before|, seg, tail);
    } else {
      ClosedNext(book, band, parts, j);
      ClosedFirst(book, band, parts, j + 1, m);
      var all := ClosedBytes(book, band, parts[..j + 1]);
      assert all <= input;
      Sections(input, before, Pack(seg + Padding()), Rst(j % 8));
      more := FlushedSegment(input, |before|, seg, Rst(j % 8) + input[|all|..]);
    }
  }

  /**
   In the file, the last byte of every restart interval is filled with ones, and every interval but
   the last is followed by its marker.
   */
  lemma EveryPartFilled(book: Book, band: Band, parts: seq<seq<Block>>, j: nat)
    requires ValidBook(book) && ValidBand(band) && IntervalsCoded(book, band, parts) && j < |parts|
    ensures var before, bits := ClosedBytes(book, band, parts[..j]), BitsOf(book, IntervalTokens(band, parts[j]));
            && (j + 1 == |parts| ==> exists bytes :: FilledWithOnes(bits, bytes) && ScanBytes(book, band, parts) == before + bytes)
            && (j + 1 < |parts| ==>
                  exists bytes :: FilledWithOnes(bits, bytes) && before + bytes + [0xFF, 0xD0 + j % 8] <= ScanBytes(book, band, parts)
                                  && ClosedBytes(book, band, parts[..j + 1]) == before + bytes + [0xFF, 0xD0 + j % 8])
  {
    hide AllCoded, BitsOf, Pack, Padding, IntervalTokens, ValidBook, ClosedBytes, FilledWithOnes;
    PaddedWithOnes(BitsOf(book, IntervalTokens(band, parts[j])));
    if j + 1 < |parts| {
      ClosedNext(book, band, parts, j);
      ClosedFirst(book, band, parts, j + 1, |parts| - 1);
      assert Rst(j % 8) == [0xFF, 0xD0 + j % 8];
    }
  }

  // ----- Within a restart interval -----

  /** Decoding blocks into what earlier scans have left in areas, as long as the input allows. */
  ghost function DecodeBlocks(input: Bytes, interval: nat, d: DecTable, band: Band, a: BandAhead, areas: seq<Block>): seq<Block>
    requires ValidBandAhead(input, a) && ValidDecTable(d) && band.se < DCTSIZE2
    decreases |areas|
  {
    if areas == [] then []
    else
      var r := NextBand(input, interval, d, band, a, areas[0]);
      if r.None? then [] else [r.value.1] + DecodeBlocks(input, interval, d, band, r.value.0, areas[1..])
  }

  /** A marker ends every segment that the blocks are in. */
  ghost predicate AllMarked(input: Bytes, interval: nat, d: DecTable, band: Band, a: BandAhead, areas: seq<Block>)
    requires ValidBandAhead(input, a) && ValidDecTable(d) && band.se < DCTSIZE2
    decreases |areas|
  {
    areas != [] ==>
      var r := NextBand(input, interval, d, band, a, areas[0]);
      r.Some? && r.value.0.end.Marker? && AllMarked(input, interval, d, band, r.value.0, areas[1..])
  }

  /** The decoder has decoded i blocks of the interval with these tokens; rest follows it. */
  ghost predicate Within(book: Book, band: Band, tokens: seq<Token>, prevs: seq<Block>, i: nat, a: BandAhead, rest: Bits)
    requires ValidBook(book) && ValidBand(band) && i <= |prevs|
  {
    var x := ReplayBands(band, tokens, prevs[..i]);
    !a.exhausted && a.run == x.run && AllCoded(book, x.rest) && a.bits == BitsOf(book, x.rest) + rest
  }

  lemma {:induction false} NeverBroken(band: Band, tokens: seq<Token>, prevs: seq<Block>, i: nat)
    requires ValidBand(band) && i <= |prevs| && ReplayBands(band, tokens, prevs).rest != Broken()
    ensures ReplayBands(band, tokens, prevs[..i]).rest != Broken()
    ensures ReplayBands(band, tokens, prevs[..i]).blocks == ReplayBands(band, tokens, prevs).blocks[..i]
    decreases |prevs| - i
  {
    hide ReplayBand, Broken;
    if i < |prevs| {
      NeverBroken(band, tokens, prevs, i + 1);
      assert prevs[..i + 1][..i] == prevs[..i];
      BrokenBand(band, ReplayBands(band, tokens, prevs[..i]).run, prevs[i]);
    } else {
      assert prevs[..i] == prevs;
    }
  }

  /** The next block of the interval. */
  lemma OneBlock(book: Book, d: DecTable, band: Band, tokens: seq<Token>, prevs: seq<Block>, i: nat, a: BandAhead, rest: Bits)
    requires SameBand(book, d, band) && i < |prevs| && Within(book, band, tokens, prevs, i, a, rest) && ShortBlock(prevs[i])
    requires ReplayBands(band, tokens, prevs).rest != Broken() && ShortBlock(ReplayBands(band, tokens, prevs).blocks[i])
    ensures var (a', b) := BandDecoded(d, band, a, prevs[i]);
            Within(book, band, tokens, prevs, i + 1, a', rest) && b == ReplayBands(band, tokens, prevs).blocks[i]
  {
    hide ReplayBand, DecodeBand, Broken, BitsOf, AllCoded, ValidBook, SameCode, ShortBlock;
    var x, n := ReplayBands(band, tokens, prevs[..i]), |prevs|;
    assert prevs[..i + 1][..i] == prevs[..i];
    NeverBroken(band, tokens, prevs, i);
    NeverBroken(band, tokens, prevs, i + 1);
    BandComes(book, d, band, x.rest, x.run, prevs[i], a.bits, 0, rest, |BitsOf(book, x.rest)|);
  }

  /** Every block of a list fits 16 bits. */
  ghost predicate AllShort(blocks: seq<Block>)
  {
    forall i :: 0 <= i < |blocks| ==> ShortBlock(blocks[i])
  }

  lemma DecodeFirstOf(input: Bytes, interval: nat, d: DecTable, band: Band, a: BandAhead, areas: seq<Block>)
    requires ValidBandAhead(input, a) && ValidDecTable(d) && band.se < DCTSIZE2 && areas != [] && !(interval != 0 && a.toGo == 0)
    ensures var (a', b) := BandDecoded(d, band, a, areas[0]);
            && ValidBandAhead(input, a')
            && DecodeBlocks(input, interval, d, band, a, areas) == [b] + DecodeBlocks(input, interval, d, band, a', areas[1..])
            && (a.end.Marker? ==> AllMarked(input, interval, d, band, a, areas) == AllMarked(input, interval, d, band, a', areas[1..]))
  {
    hide BandDecoded, BandRestarted;
  }

  /** The decoder after the last block of an interval. */
  ghost function AfterPart(a: BandAhead, n: nat, rest: Bits): BandAhead
  {
    BandAhead(rest, false, a.end, 0, (a.toGo + UINT_RANGE - n % UINT_RANGE) % UINT_RANGE, a.next)
  }

  lemma CountDown(toGo: nat, n: nat)
    requires n > 0 && toGo < UINT_RANGE
    ensures var t := (toGo + UINT_RANGE - 1) % UINT_RANGE;
            (t + UINT_RANGE - (n - 1) % UINT_RANGE) % UINT_RANGE == (toGo + UINT_RANGE - n % UINT_RANGE) % UINT_RANGE
    ensures toGo >= n ==> (toGo + UINT_RANGE - 1) % UINT_RANGE == toGo - 1
  {
  }

  /** All blocks of an interval from number i on, and then whatever follows. */
  lemma {:induction false} PartComes(book: Book, d: DecTable, band: Band, tokens: seq<Token>, prevs: seq<Block>, i: nat, a: BandAhead, rest: Bits,
                                     input: Bytes, interval: nat, later: seq<Block>)
    requires SameBand(book, d, band) && i <= |prevs| && Within(book, band, tokens, prevs, i, a, rest) && AllShort(prevs)
    requires var x := ReplayBands(band, tokens, prevs); x.rest == [] && x.run == 0 && AllShort(x.blocks)
    requires ValidBandAhead(input, a) && a.toGo < UINT_RANGE && (interval != 0 ==> |prevs| - i <= a.toGo)
    ensures DecodeBlocks(input, interval, d, band, a, prevs[i..] + later)
         == ReplayBands(band, tokens, prevs).blocks[i..] + DecodeBlocks(input, interval, d, band, AfterPart(a, |prevs| - i, rest), later)
    ensures a.end.Marker? ==>
              AllMarked(input, interval, d, band, a, prevs[i..] + later)
              == AllMarked(input, interval, d, band, AfterPart(a, |prevs| - i, rest), later)
    decreases |prevs| - i
  {
    hide ReplayBands, BandDecoded, Encodes, Count, Filled, ValidBook, ShortBlock, BitsOf, AllCoded, DecodeBlocks, AllMarked;
    var all := ReplayBands(band, tokens, prevs).blocks;
    if i == |prevs| {
      assert prevs[..i] == prevs;
      NoBits(book, []);
      assert prevs[i..] + later == later && all[i..] == [];
      assert a.bits == [] + rest == rest;
      assert AfterPart(a, 0, rest) == a;
    } else {
      var areas := prevs[i..] + later;
      var (a', b) := BandDecoded(d, band, a, prevs[i]);
      DecodeFirstOf(input, interval, d, band, a, areas);
      OneBlock(book, d, band, tokens, prevs, i, a, rest);
      BlocksLeft(d, band, a, prevs[i]);
      CountDown(a.toGo, |prevs| - i);
      assert areas[0] == prevs[i] && areas[1..] == prevs[i + 1..] + later;
      assert all[i..] == [all[i]] + all[i + 1..];
      PartComes(book, d, band, tokens, prevs, i + 1, a', rest, input, interval, later);
      assert AfterPart(a, |prevs| - i, rest) == AfterPart(a', |prevs| - (i + 1), rest);
    }
  }

  lemma BlocksLeft(d: DecTable, band: Band, a: BandAhead, block: Block)
    requires ValidDecTable(d) && band.se < DCTSIZE2
    ensures var a' := BandDecoded(d, band, a, block).0;
            a'.toGo == (a.toGo + UINT_RANGE - 1) % UINT_RANGE && a'.end == a.end && a'.next == a.next
  {
    hide DecodeBand;
  }

  // ----- The whole scan -----

  function Flat(parts: seq<seq<Block>>): seq<Block>
  {
    if parts == [] then [] else parts[0] + Flat(parts[1..])
  }

  /** What the decoder gets from the blocks of each interval. */
  ghost function PartsDecoded(band: Band, prevs: seq<seq<Block>>, parts: seq<seq<Block>>): (r: seq<seq<Block>>)
    requires |prevs| == |parts| && forall j :: 0 <= j < |parts| ==> |prevs[j]| == |parts[j]|
    ensures |r| == |parts|
  {
    seq(|parts|, j requires 0 <= j < |parts| => AllDecoded(band, prevs[j], parts[j]))
  }

  /** The blocks of each interval may be coded, and all that is decoded fits 16 bits. */
  ghost predicate PartsCodable(band: Band, prevs: seq<seq<Block>>, parts: seq<seq<Block>>)
  {
    && |prevs| == |parts|
    && forall j :: 0 <= j < |parts| ==> AllCodable(band, prevs[j], parts[j]) && AllShort(prevs[j]) && AllShort(parts[j])
  }

  /** A decoder at the beginning of interval number j. */
  ghost predicate AtPart(book: Book, band: Band, parts: seq<seq<Block>>, j: nat, input: Bytes, interval: nat, a: BandAhead)
    requires ValidBook(book) && ValidBand(band) && IntervalsCoded(book, band, parts) && j < |parts|
  {
    var pos := |ClosedBytes(book, band, parts[..j])|;
    pos <= |input| && a == BandAhead(SourceBits(input, pos), false, SegmentEnd(input, pos), 0, interval, j % 8)
  }

  /** What the tokens of an interval decode to fits 16 bits, as the coefficients do. */
  lemma PartShort(band: Band, prevs: seq<Block>, blocks: seq<Block>)
    requires AllCodable(band, prevs, blocks) && AllShort(prevs) && AllShort(blocks)
    ensures AllShort(AllDecoded(band, prevs, blocks))
  {
    hide Codable, Scaled, Zigzag;
    forall i, k | 0 <= i < |blocks| && 0 <= k < DCTSIZE2
      ensures -0x8000 <= ProgressiveReplay.Decoded(band, prevs[i], blocks[i])[k] < 0x8000
    {
      assert ShortBlock(prevs[i]) && ShortBlock(blocks[i]);
      ScaledShort(blocks[i][k], band.al);
    }
  }

  lemma ScaledShort(v: int, al: nat)
    requires -0x8000 <= v < 0x8000
    ensures -0x8000 <= Scaled(v, al) < 0x8000
  {
    hide ShiftRight, Pow2;
    ShiftBounds(Abs(v), al);
    assert (0 - Shifted(v, al)) * Pow2(al) == 0 - Shifted(v, al) * Pow2(al);
  }

  /** One interval: its blocks come back, and its end has been reached. */
  lemma OnePart(book: Book, d: DecTable, band: Band, prevs: seq<seq<Block>>, parts: seq<seq<Block>>, j: nat, input: Bytes, tail: Bytes,
                interval: nat, a: BandAhead, later: seq<Block>) returns (more: Bits)
    requires SameBand(book, d, band) && IntervalsCoded(book, band, parts) && j < |parts|
    requires PartsCodable(band, prevs, parts) && Intervals(interval, parts) && interval < UINT_RANGE
    requires input == ScanBytes(book, band, parts) + tail && MarkerFirst(tail) && AtPart(book, band, parts, j, input, interval, a)
    ensures ValidBandAhead(input, a)
    ensures DecodeBlocks(input, interval, d, band, a, prevs[j] + later)
         == AllDecoded(band, prevs[j], parts[j]) + DecodeBlocks(input, interval, d, band, AfterPart(a, |parts[j]|, more), later)
    ensures AllMarked(input, interval, d, band, a, prevs[j] + later)
         == AllMarked(input, interval, d, band, AfterPart(a, |parts[j]|, more), later)
  {
    hide ReplayBands, SameCode, ValidBook, ShortBlock, BitsOf, AllCoded, DecodeBlocks, AllMarked, IntervalTokens;
    hide ClosedBytes, SourceBits, SegmentEnd, ScanBytes, Codable, ProgressiveReplay.Decoded;
    more := PartAhead(book, band, parts, j, input, tail);
    var tokens := IntervalTokens(band, parts[j]);
    IntervalReplays(band, prevs[j], parts[j], []);
    assert tokens + [] == tokens;
    PartShort(band, prevs[j], parts[j]);
    NothingReplayed(band, tokens, prevs[j]);
    PartComes(book, d, band, tokens, prevs[j], 0, a, more, input, interval, later);
    assert prevs[j][0..] == prevs[j];
  }

  lemma NothingReplayed(band: Band, tokens: seq<Token>, prevs: seq<Block>)
    requires ValidBand(band)
    ensures ReplayBands(band, tokens, prevs[..0]) == Replays([], tokens, 0)
  {
  }

  /** A restart marker is passed before the next block, if there is one. */
  lemma PassMarker(input: Bytes, interval: nat, d: DecTable, band: Band, a: BandAhead, n: nat, q: nat, later: seq<Block>)
    requires ValidDecTable(d) && band.se < DCTSIZE2 && 0 < interval && a.toGo == 0 && n < 8 && a.next == n && !a.exhausted
    requires q <= |input| && a.end == Marker(RST0 + n, q)
    ensures var b := BandAhead(SourceBits(input, q), false, SegmentEnd(input, q), 0, interval, (n + 1) % 8);
            && ValidBandAhead(input, b) && DecodeBlocks(input, interval, d, band, a, later) == DecodeBlocks(input, interval, d, band, b, later)
            && AllMarked(input, interval, d, band, a, later) == AllMarked(input, interval, d, band, b, later)
  {
    hide SourceBits, SegmentEnd, Restart, BandDecoded, ValidDecTable;
    ExpectedMarker(input, q, n);
  }

  lemma FlatStep(parts: seq<seq<Block>>, j: nat)
    requires j < |parts|
    ensures Flat(parts[j..]) == parts[j] + Flat(parts[j + 1..])
  {
    assert parts[j..][1..] == parts[j + 1..];
  }

  lemma DecodedAppend(band: Band, prevs: seq<Block>, blocks: seq<Block>, prevs': seq<Block>, blocks': seq<Block>)
    requires |prevs| == |blocks| && |prevs'| == |blocks'|
    ensures AllDecoded(band, prevs + prevs', blocks + blocks') == AllDecoded(band, prevs, blocks) + AllDecoded(band, prevs', blocks')
  {
    hide ProgressiveReplay.Decoded;
  }

  lemma {:induction false} FlatLength(band: Band, prevs: seq<seq<Block>>, parts: seq<seq<Block>>)
    requires |prevs| == |parts| && forall j :: 0 <= j < |parts| ==> |prevs[j]| == |parts[j]|
    ensures |Flat(prevs)| == |Flat(parts)|
  {
    if parts != [] {
      FlatLength(band, prevs[1..], parts[1..]);
    }
  }

  /** The decoder has come to the end of interval j; the next one begins, unless there is none. */
  lemma NextPart(book: Book, d: DecTable, band: Band, parts: seq<seq<Block>>, j: nat, input: Bytes, tail: Bytes,
                 interval: nat, a: BandAhead, more: Bits, later: seq<Block>) returns (b: BandAhead)
    requires SameBand(book, d, band) && IntervalsCoded(book, band, parts) && j + 1 < |parts| && Intervals(interval, parts) && interval < UINT_RANGE
    requires input == ScanBytes(book, band, parts) + tail && MarkerFirst(tail) && AtPart(book, band, parts, j, input, interval, a)
    requires ValidBandAhead(input, AfterPart(a, |parts[j]|, more))
    ensures AtPart(book, band, parts, j + 1, input, interval, b) && ValidBandAhead(input, b)
    ensures DecodeBlocks(input, interval, d, band, AfterPart(a, |parts[j]|, more), later) == DecodeBlocks(input, interval, d, band, b, later)
    ensures AllMarked(input, interval, d, band, AfterPart(a, |parts[j]|, more), later) == AllMarked(input, interval, d, band, b, later)
  {
    hide Encodes, Count, Filled, ValidBook, BitsOf, AllCoded, DecodeBlocks, AllMarked, IntervalTokens, ClosedBytes;
    hide SourceBits, SegmentEnd, ScanBytes;
    var _ := PartAhead(book, band, parts, j, input, tail);
    var q := |ClosedBytes(book, band, parts[..j + 1])|;
    PassMarker(input, interval, d, band, AfterPart(a, |parts[j]|, more), j % 8, q, later);
    b := BandAhead(SourceBits(input, q), false, SegmentEnd(input, q), 0, interval, (j % 8 + 1) % 8);
  }

  /** All intervals from number j on. */
  lemma {:induction false} PartsCome(book: Book, d: DecTable, band: Band, prevs: seq<seq<Block>>, parts: seq<seq<Block>>, j: nat,
                                     input: Bytes, tail: Bytes, interval: nat, a: BandAhead)
    requires SameBand(book, d, band) && IntervalsCoded(book, band, parts) && j < |parts|
    requires PartsCodable(band, prevs, parts) && Intervals(interval, parts) && interval < UINT_RANGE
    requires input == ScanBytes(book, band, parts) + tail && MarkerFirst(tail) && AtPart(book, band, parts, j, input, interval, a)
    requires ValidBandAhead(input, a)
    ensures |Flat(prevs[j..])| == |Flat(parts[j..])|
    ensures DecodeBlocks(input, interval, d, band, a, Flat(prevs[j..])) == AllDecoded(band, Flat(prevs[j..]), Flat(parts[j..]))
    ensures AllMarked(input, interval, d, band, a, Flat(prevs[j..]))
    decreases |parts| - j
  {
    hide Encodes, Count, Filled, ValidBook, ShortBlock, AllCoded, DecodeBlocks, AllMarked, AllDecoded, ScanBytes;
    hide Codable, AtPart, IntervalsCoded, Flat;
    FlatLength(band, prevs[j..], parts[j..]);
    FlatStep(prevs, j);
    FlatStep(parts, j);
    var later := Flat(prevs[j + 1..]);
    FlatLength(band, prevs[j + 1..], parts[j + 1..]);
    var more := OnePart(book, d, band, prevs, parts, j, input, tail, interval, a, later);
    DecodedAppend(band, prevs[j], parts[j], later, Flat(parts[j + 1..]));
    if j + 1 < |parts| {
      var b := NextPart(book, d, band, parts, j, input, tail, interval, a, more, later);
      PartsCome(book, d, band, prevs, parts, j + 1, input, tail, interval, b);
    } else {
      NoneLeft(band, input, interval, d, AfterPart(a, |parts[j]|, more), prevs[j + 1..], parts[j + 1..]);
    }
  }

  lemma NoneLeft(band: Band, input: Bytes, interval: nat, d: DecTable, a: BandAhead, prevs: seq<seq<Block>>, parts: seq<seq<Block>>)
    requires ValidBandAhead(input, a) && ValidDecTable(d) && band.se < DCTSIZE2 && prevs == [] && parts == []
    ensures Flat(prevs) == [] && Flat(parts) == [] && DecodeBlocks(input, interval, d, band, a, []) == AllDecoded(band, [], [])
    ensures AllMarked(input, interval, d, band, a, [])
  {
  }

  /**
   The round trip of a scan. What the encoder has written for any blocks in range, in any restart
   intervals, followed by any marker, decodes to the band's coefficients down to bit al, in each
   block on top of what earlier scans have left there; and no segment lacks its marker.
   */
  lemma BandRoundTrip(book: Book, d: DecTable, band: Band, prevs: seq<seq<Block>>, parts: seq<seq<Block>>, interval: nat, tail: Bytes)
    requires SameBand(book, d, band) && IntervalsCoded(book, band, parts)
    requires PartsCodable(band, prevs, parts) && Intervals(interval, parts) && interval < UINT_RANGE
    requires MarkerFirst(tail)
    ensures |Flat(prevs)| == |Flat(parts)|
    ensures var input := ScanBytes(book, band, parts) + tail;
            && DecodeBlocks(input, interval, d, band, FirstBand(input, interval), Flat(prevs)) == AllDecoded(band, Flat(prevs), Flat(parts))
            && AllMarked(input, interval, d, band, FirstBand(input, interval), Flat(prevs))
  {
    hide Encodes, Count, Filled, ValidBook, ShortBlock, AllCoded, DecodeBlocks, AllMarked, AllDecoded, ScanBytes;
    hide Codable, Flat, SourceBits, SegmentEnd;
    var input := ScanBytes(book, band, parts) + tail;
    assert ClosedBytes(book, band, parts[..0]) == [];
    assert prevs[0..] == prevs && parts[0..] == parts;
    PartsCome(book, d, band, prevs, parts, 0, input, tail, interval, FirstBand(input, interval));
  }

  /**
   A scan with the table made from its own statistics: the output pass never meets a symbol without
   a code, and its file decodes with the same table to the band's coefficients down to bit al.
   */
  lemma OwnTableRoundTrip(book: Book, band: Band, prevs: seq<seq<Block>>, parts: seq<seq<Block>>, interval: nat, tail: Bytes,
                          bits: seq<int>, huffval: seq<int>)
    requires ValidBook(book) && ValidBand(band) && band.tbl < NUM_HUFF_TBLS && PartsCodable(band, prevs, parts)
    requires Intervals(interval, parts) && interval < UINT_RANGE && MarkerFirst(tail)
    requires OptimalTable.LegalFor(Tally(Zeros(COUNTERS), ClosedTokens(band, parts), false, band.tbl)[..256], bits, huffval)
    requires |bits| == 17 && Lengths(Used(bits)) && Encodes(Used(bits), huffval, Count0(bits), book.ac[band.tbl].co, book.ac[band.tbl].si)
    ensures IntervalsCoded(book, band, parts) && |Flat(prevs)| == |Flat(parts)|
    ensures var input, d := ScanBytes(book, band, parts) + tail, DecTable(Used(bits), huffval);
            && ValidDecTable(d)
            && DecodeBlocks(input, interval, d, band, FirstBand(input, interval), Flat(prevs)) == AllDecoded(band, Flat(prevs), Flat(parts))
            && AllMarked(input, interval, d, band, FirstBand(input, interval), Flat(prevs))
  {
    hide Tally, OptimalTable.LegalFor, Encodes, ValidBook, Count, Filled, ScanBytes, DecodeBlocks, AllMarked;
    hide AllDecoded, ShortBlock, Codable, IntervalTokens, AllCoded, AfterBands;
    var counts := Tally(Zeros(COUNTERS), ClosedTokens(band, parts), false, band.tbl)[..256];
    AcceptedTable(counts, bits, huffval, false);
    forall j | 0 <= j < |parts|
      ensures InRangeAll(band, parts[j])
    {
      CodableInRange(band, prevs[j], parts[j]);
    }
    forall j | 0 <= j < |parts|
      ensures AllCoded(book, IntervalTokens(band, parts[j]))
    {
      ProgressiveTablesNeverFail(book, band, parts, bits, huffval, j, 0);
    }
    BandRoundTrip(book, DecTable(Used(bits), huffval), band, prevs, parts, interval, tail);
  }

  lemma CodableInRange(band: Band, prevs: seq<Block>, blocks: seq<Block>)
    requires AllCodable(band, prevs, blocks)
    ensures InRangeAll(band, blocks)
  {
    hide BandInRange, Known;
    forall i | 0 <= i < |blocks|
      ensures !band.refine ==> BandInRange(band, blocks[i])
    {
      assert Codable(band, prevs[i], blocks[i]);
    }
  }

  // ----- All scans of a band -----

  /** A scan as it is stored: its tables, its restart interval, its blocks interval by interval, and what follows it. */
  datatype ScanFile = ScanFile(book: Book, d: DecTable, tbl: nat, interval: nat, parts: seq<seq<Block>>, tail: Bytes)

  /** The file is that of a scan of these blocks. */
  ghost predicate FileOf(file: ScanFile, band: Band, blocks: seq<Block>)
  {
    && SameBand(file.book, file.d, band) && IntervalsCoded(file.book, band, file.parts)
    && Intervals(file.interval, file.parts) && file.interval < UINT_RANGE && Flat(file.parts) == blocks && MarkerFirst(file.tail)
  }

  /** For each bit from top down to al, the file of the scan that sends it. */
  ghost predicate FilesOf(files: seq<ScanFile>, ss: nat, se: nat, top: nat, al: nat, blocks: seq<Block>)
  {
    top < |files| && forall a :: al <= a <= top ==> FileOf(files[a], ProgressiveReplay.Scan(files[a].tbl, ss, se, top, a), blocks)
  }

  /** Decoding the file into what earlier scans have left. */
  ghost function DecodeFile(file: ScanFile, band: Band, areas: seq<Block>, blocks: seq<Block>): seq<Block>
    requires FileOf(file, band, blocks)
  {
    var input := ScanBytes(file.book, band, file.parts) + file.tail;
    DecodeBlocks(input, file.interval, file.d, band, FirstBand(input, file.interval), areas)
  }

  /** Decoding the files of these scans one after the other. */
  ghost function DecodeFiles(files: seq<ScanFile>, ss: nat, se: nat, top: nat, al: nat, areas: seq<Block>, blocks: seq<Block>): seq<Block>
    requires al <= top && FilesOf(files, ss, se, top, al, blocks)
    decreases top - al
  {
    var before := if al == top then areas else DecodeFiles(files, ss, se, top, al + 1, areas, blocks);
    DecodeFile(files[al], ProgressiveReplay.Scan(files[al].tbl, ss, se, top, al), before, blocks)
  }

  /** Cutting areas as the blocks are cut. */
  function Shaped(areas: seq<Block>, parts: seq<seq<Block>>): (r: seq<seq<Block>>)
    requires |areas| == |Flat(parts)|
    ensures |r| == |parts| && Flat(r) == areas && forall j :: 0 <= j < |parts| ==> |r[j]| == |parts[j]|
    decreases |parts|
  {
    if parts == [] then []
    else
      var n := |parts[0]|;
      assert areas == areas[..n] + areas[n..];
      [areas[..n]] + Shaped(areas[n..], parts[1..])
  }

  ghost predicate FlatCodable(band: Band, prevs: seq<Block>, blocks: seq<Block>)
  {
    AllCodable(band, prevs, blocks) && AllShort(prevs) && AllShort(blocks)
  }

  lemma {:induction false} ShapedCodable(band: Band, prevs: seq<Block>, parts: seq<seq<Block>>)
    requires |prevs| == |Flat(parts)| && FlatCodable(band, prevs, Flat(parts))
    ensures PartsCodable(band, Shaped(prevs, parts), parts)
    decreases |parts|
  {
    hide Codable, ShortBlock;
    if parts != [] {
      var n, all := |parts[0]|, Flat(parts);
      assert forall i :: 0 <= i < n ==> all[i] == parts[0][i];
      assert forall i :: 0 <= i < |Flat(parts[1..])| ==> all[n + i] == Flat(parts[1..])[i];
      ShapedCodable(band, prevs[n..], parts[1..]);
    }
  }

  /** The round trip of a scan, block by block. */
  lemma FileComesBack(file: ScanFile, band: Band, prevs: seq<Block>, blocks: seq<Block>)
    requires FileOf(file, band, blocks) && FlatCodable(band, prevs, blocks)
    ensures DecodeFile(file, band, prevs, blocks) == AllDecoded(band, prevs, blocks)
    ensures AllShort(AllDecoded(band, prevs, blocks))
  {
    hide Encodes, Count, Filled, ValidBook, ShortBlock, AllCoded, DecodeBlocks, AllDecoded, ScanBytes, Codable;
    hide IntervalsCoded, SourceBits, SegmentEnd;
    ShapedCodable(band, prevs, file.parts);
    PartShort(band, prevs, blocks);
    BandRoundTrip(file.book, file.d, band, Shaped(prevs, file.parts), file.parts, file.interval, file.tail);
  }

  /**
   Successive approximation, from the bytes: decoding the files of the scans down to bit al gives
   every coefficient of the band rounded towards zero to that bit, and leaves all others alone;
   after the scan for bit 0 they are exact. Each scan has its own tables and restart intervals.
   */
  lemma {:induction false} FilesComeBack(files: seq<ScanFile>, ss: nat, se: nat, top: nat, al: nat, prevs: seq<Block>, blocks: seq<Block>)
    requires 1 <= ss <= se < DCTSIZE2 && al <= top && FilesOf(files, ss, se, top, al, blocks)
    requires Fresh(ss, se, top, prevs, blocks) && AllShort(prevs) && AllShort(blocks)
    ensures var got := DecodeFiles(files, ss, se, top, al, prevs, blocks);
            && |got| == |blocks| && AllShort(got)
            && forall i :: 0 <= i < |blocks| ==> KnownTo(ss, se, al, got[i], prevs[i], blocks[i])
    decreases top - al
  {
    hide Natural, Scaled, Category, Shifted, ProgressiveReplay.Decoded, ShortBlock, FileOf, DecodeFile;
    var band := ProgressiveReplay.Scan(files[al].tbl, ss, se, top, al);
    var before := if al == top then prevs else DecodeFiles(files, ss, se, top, al + 1, prevs, blocks);
    if al < top {
      FilesComeBack(files, ss, se, top, al + 1, prevs, blocks);
    }
    forall i | 0 <= i < |blocks|
      ensures Codable(band, before[i], blocks[i])
    {
    }
    FileComesBack(files[al], band, before, blocks);
    forall i | 0 <= i < |blocks|
      ensures KnownTo(ss, se, al, ProgressiveReplay.Decoded(band, before[i], blocks[i]), prevs[i], blocks[i])
    {
      DecodedIsKnown(band, before[i], blocks[i]);
    }
  }
}
