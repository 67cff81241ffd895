/**
 Decoding what was encoded: the bytes of a sequential scan, of any MCUs, with any restart interval
 and any tables that code the needed symbols, decode to the coefficients that went in.
 */
module SequentialRoundTrip {
  import opened JpegLimits
  import opened Arith
  import opened BitString
  import opened ByteStream
  import opened BitWriter
  import opened CodeSpace
  import opened CanonicalCode
  import opened DerivedTables
  import opened Coefficients
  import opened BitReader
  import opened BlockCoding
  import opened ScanCoding
  import opened ScanDecoding

  /** The decoder's tables are those of the encoder. */
  ghost predicate SameTables(book: Book, scan: Scan, d: Setup)
  {
    && ValidBook(book) && ValidSetup(scan, d)
    && forall c :: 0 <= c < |scan.dcTbl| ==>
         && SameCode(book.dc[scan.dcTbl[c]], d.dc[scan.dcTbl[c]])
         && SameCode(book.ac[scan.acTbl[c]], d.ac[scan.acTbl[c]])
  }

  /** What is to be decoded of a block: a coefficient that is not wanted stays zero. */
  ghost function WantedBlock(b: Block, dcNeeded: bool, acNeeded: bool): (r: Block)
    ensures dcNeeded && acNeeded ==> r == b
    ensures dcNeeded && !acNeeded ==> r == ZeroBlock()[0 := b[0]]
    ensures !dcNeeded && !acNeeded ==> r == ZeroBlock()
  {
    seq(DCTSIZE2, i requires 0 <= i < DCTSIZE2 => if (if i == 0 then dcNeeded else acNeeded) then b[i] else 0)
  }

  ghost function Wanted(scan: Scan, d: Setup, mcu: Mcu): (r: Mcu)
    requires ValidSetup(scan, d) && |mcu| == |scan.membership|
    ensures |r| == |mcu|
  {
    seq(|mcu|, i requires 0 <= i < |mcu| =>
      var c := scan.membership[i]; WantedBlock(mcu[i], d.dcNeeded[c], d.acNeeded[c]))
  }

  /** Coefficients are 16 bits wide. */
  ghost predicate Short(v: int)
  {
    -0x8000 <= v < 0x8000
  }

  lemma ShortKept(v: int)
    requires Short(v)
    ensures ToShort(v) == v
  {
  }

  /** The position at which coefficients other than the first are decoded into. */
  lemma UptoOne(block: Block)
    ensures Upto(block, 1) == ZeroBlock()[0 := block[0]]
  {
    hide Natural, Zigzag;
    ZeroOnlyFirst();
  }

  lemma ZeroOnlyFirst()
    ensures forall i :: 0 <= i < DCTSIZE2 ==> (Zigzag(i) == 0 <==> i == 0)
  {
    hide Natural, Zigzag;
    FirstPlace();
    forall i | 0 <= i < DCTSIZE2
      ensures Zigzag(i) == 0 <==> i == 0
    {
      OrdersInverse(i);
    }
  }

  lemma FirstPlace()
    ensures Natural(0) == 0 && Zigzag(0) == 0
  {
  }

  lemma BlockRoundTrip(book: Book, dc: DecTable, ac: DecTable, dcTbl: nat, acTbl: nat, block: Block, lastDc: int,
                       stream: Bits, at: nat, rest: Bits, last: int, dcNeeded: bool, acNeeded: bool)
    requires ValidBook(book) && dcTbl < NUM_HUFF_TBLS && acTbl < NUM_HUFF_TBLS
    requires SameCode(book.dc[dcTbl], dc) && SameCode(book.ac[acTbl], ac)
    requires BlockInRange(block, lastDc) && Short(block[0])
    requires AllCoded(book, BlockTokens(dcTbl, acTbl, block, lastDc))
    requires Tail(stream, at) == BitsOf(book, BlockTokens(dcTbl, acTbl, block, lastDc)) + rest
    requires (acNeeded ==> dcNeeded) && (dcNeeded ==> last == lastDc)
    ensures DecodeBlock(dc, ac, stream, at, last, dcNeeded, acNeeded, ZeroBlock())
         == (WantedBlock(block, dcNeeded, acNeeded), at + |BitsOf(book, BlockTokens(dcTbl, acTbl, block, lastDc))|,
             if dcNeeded then block[0] else last)
  {
    hide BitsOf, AllCoded, DcTokens, AcTokens, DecodeDc, DecodeAc, Natural, Zigzag, Upto, Encodes, LegalLengths, ToShort, InRangeFrom;
    hide ValidBook;
    var diff := block[0] - lastDc;
    var ts := AcTokens(acTbl, block, 1, 0);
    DcRoundTrip(book, dc, dcTbl, diff, ts, stream, at, rest);
    var at1 := DecodeDc(dc, stream, at).1;
    UptoOne(block);
    AcRoundTrip(book, ac, acTbl, block, 1, 0, stream, at1, rest);
    ShortKept(block[0]);
    AcSamePath(ac, stream, at1, 1, Upto(block, 1), ZeroBlock());
  }

  // ----- One MCU -----

  /** The two sides' DC predictions agree wherever the decoder keeps track of them. */
  ghost predicate Agree(d: Setup, last: seq<int>, lastDc: seq<int>)
  {
    |last| == |lastDc| == |d.dcNeeded| && forall c :: 0 <= c < |last| && d.dcNeeded[c] ==> last[c] == lastDc[c]
  }

  ghost predicate ShortMcu(mcu: Mcu)
  {
    forall i :: 0 <= i < |mcu| ==> Short(mcu[i][0])
  }

  /** One block on: what has been decoded, and what follows. */
  lemma McuStep(book: Book, scan: Scan, d: Setup, mcu: Mcu, i: nat, enc: seq<int>, stream: Bits,
                start: seq<int>, at: nat, last: seq<int>, rest: Bits) returns (at': nat, last': seq<int>)
    requires SameTables(book, scan, d) && Fits(scan, mcu, enc) && i < |mcu| && ShortMcu(mcu)
    requires RangeFrom(scan, mcu, i, enc) && AllCoded(book, TokensFrom(scan, mcu, i, enc))
    requires |start| == |scan.dcTbl| && BlockStart(scan, d, stream, start, i) == (at, last) && Agree(d, last, enc)
    requires Tail(stream, at) == BitsOf(book, TokensFrom(scan, mcu, i, enc)) + rest
    ensures BlockOf(scan, d, stream, start, i, ZeroBlock()) == Wanted(scan, d, mcu)[i]
    ensures BlockStart(scan, d, stream, start, i + 1) == (at', last')
    ensures var enc' := enc[scan.membership[i] := mcu[i][0]];
            && Agree(d, last', enc') && RangeFrom(scan, mcu, i + 1, enc') && AllCoded(book, TokensFrom(scan, mcu, i + 1, enc'))
            && Tail(stream, at') == BitsOf(book, TokensFrom(scan, mcu, i + 1, enc')) + rest
            && at' + |BitsOf(book, TokensFrom(scan, mcu, i + 1, enc'))| == at + |BitsOf(book, TokensFrom(scan, mcu, i, enc))|
  {
    hide BitsOf, AllCoded, BlockTokens, DecodeBlock, BlockStart, BlockOf, SameCode, ValidDecTable, WantedBlock, BlockInRange, ValidBook, ValidTable;
    hide TokensFrom, RangeFrom, Tail, TableOf;
    var c := scan.membership[i];
    var ts := BlockTokens(scan.dcTbl[c], scan.acTbl[c], mcu[i], enc[c]);
    var tail := TokensFrom(scan, mcu, i + 1, enc[c := mcu[i][0]]);
    McuSplit(book, scan, mcu, i, enc);
    var x, y := BitsOf(book, ts), BitsOf(book, tail);
    assert (x + y) + rest == x + (y + rest);
    BlockRoundTrip(book, d.dc[scan.dcTbl[c]], d.ac[scan.acTbl[c]], scan.dcTbl[c], scan.acTbl[c], mcu[i], enc[c],
                   stream, at, y + rest, last[c], d.dcNeeded[c], d.acNeeded[c]);
    BlockStep(scan, d, stream, start, i, at, last, ZeroBlock());
    TailTail(stream, at, |x|);
    TailAfter(x, y + rest);
    at' := at + |x|;
    last' := last[c := if d.dcNeeded[c] then mcu[i][0] else last[c]];
  }

  /** The tokens of the blocks from number i on are those of block i and those of the others. */
  lemma McuSplit(book: Book, scan: Scan, mcu: Mcu, i: nat, enc: seq<int>)
    requires ValidBook(book) && Fits(scan, mcu, enc) && i < |mcu|
    requires RangeFrom(scan, mcu, i, enc) && AllCoded(book, TokensFrom(scan, mcu, i, enc))
    ensures var c := scan.membership[i];
            var ts := BlockTokens(scan.dcTbl[c], scan.acTbl[c], mcu[i], enc[c]);
            var enc' := enc[c := mcu[i][0]];
            var tail := TokensFrom(scan, mcu, i + 1, enc');
            && BlockInRange(mcu[i], enc[c]) && RangeFrom(scan, mcu, i + 1, enc')
            && AllCoded(book, ts) && AllCoded(book, tail)
            && BitsOf(book, TokensFrom(scan, mcu, i, enc)) == BitsOf(book, ts) + BitsOf(book, tail)
  {
    hide BitsOf, AllCoded, BlockTokens, BlockInRange, ValidBook;
    var c := scan.membership[i];
    BitsOfAppend(book, BlockTokens(scan.dcTbl[c], scan.acTbl[c], mcu[i], enc[c]), TokensFrom(scan, mcu, i + 1, enc[c := mcu[i][0]]));
  }

  lemma TailAfter(x: Bits, y: Bits)
    ensures Tail(x + y, |x|) == y
  {
  }

  /** The blocks of an MCU from number i on; the encoder's predictions there are enc, the decoder's last. */
  lemma {:induction false} McuRoundTrip(book: Book, scan: Scan, d: Setup, mcu: Mcu, i: nat, enc: seq<int>, stream: Bits,
                                        start: seq<int>, at: nat, last: seq<int>, rest: Bits)
    requires SameTables(book, scan, d) && Fits(scan, mcu, enc) && i <= |mcu| && ShortMcu(mcu)
    requires RangeFrom(scan, mcu, i, enc) && AllCoded(book, TokensFrom(scan, mcu, i, enc))
    requires |start| == |scan.dcTbl| && BlockStart(scan, d, stream, start, i) == (at, last) && Agree(d, last, enc)
    requires Tail(stream, at) == BitsOf(book, TokensFrom(scan, mcu, i, enc)) + rest
    ensures var (end, dc) := BlockStart(scan, d, stream, start, |mcu|);
            && end == at + |BitsOf(book, TokensFrom(scan, mcu, i, enc))| && Tail(stream, end) == rest
            && Agree(d, dc, DcAfter(scan, mcu, i, enc))
    ensures forall j :: i <= j < |mcu| ==> BlockOf(scan, d, stream, start, j, ZeroBlock()) == Wanted(scan, d, mcu)[j]
    decreases |mcu| - i
  {
    hide BitsOf, AllCoded, BlockTokens, BlockStart, BlockOf, Wanted, RangeFrom, ValidBook, ValidSetup, SameCode, Agree, ShortMcu;
    hide DcAfter, TokensFrom;
    McuEnds(book, scan, mcu, i, enc);
    if i < |mcu| {
      var at', last' := McuStep(book, scan, d, mcu, i, enc, stream, start, at, last, rest);
      McuRoundTrip(book, scan, d, mcu, i + 1, enc[scan.membership[i] := mcu[i][0]], stream, start, at', last', rest);
    } else {
      assert Tail(stream, at) == rest;
    }
  }

  lemma McuEnds(book: Book, scan: Scan, mcu: Mcu, i: nat, enc: seq<int>)
    requires ValidBook(book) && Fits(scan, mcu, enc) && i <= |mcu|
    ensures i == |mcu| ==> TokensFrom(scan, mcu, i, enc) == [] && BitsOf(book, []) == [] && DcAfter(scan, mcu, i, enc) == enc
    ensures i < |mcu| ==> DcAfter(scan, mcu, i, enc) == DcAfter(scan, mcu, i + 1, enc[scan.membership[i] := mcu[i][0]])
  {
  }

  // ----- The whole scan -----

  /** A marker follows. */
  ghost predicate MarkerFirst(tail: Bytes)
  {
    |tail| >= 2 && tail[0] == 0xFF && tail[1] != 0 && tail[1] != 0xFF
  }

  /** The bytes of a flushed segment, whatever follows. */
  lemma FlushedBits(input: Bytes, pos: nat, seg: Bits, tail: Bytes) returns (more: Bits)
    requires pos <= |input| && input[pos..] == Pack(seg + Padding()) + tail
    ensures SourceBits(input, pos) == seg + more
    ensures pos + |Pack(seg + Padding())| <= |input| && SegmentEnd(input, pos) == SegmentEnd(input, pos + |Pack(seg + Padding())|)
  {
    hide Pack, Low, Word, SourceBits, SegmentEnd;
    var all := seg + Padding();
    var k := |all| - |all| % 8;
    PackPartial(all, k);
    UnpackPacked(input, pos, all[..k], tail);
    more := all[|seg|..k] + SourceBits(input, pos + |Pack(all)|);
    assert all[..k] == seg + all[|seg|..k];
  }

  /** The bytes of a flushed segment, followed by a marker. */
  lemma FlushedSegment(input: Bytes, pos: nat, seg: Bits, tail: Bytes) returns (more: Bits)
    requires pos <= |input| && input[pos..] == Pack(seg + Padding()) + tail && MarkerFirst(tail)
    ensures SourceBits(input, pos) == seg + more
    ensures SegmentEnd(input, pos) == Marker(tail[1], pos + |Pack(seg + Padding())| + 2)
  {
    hide Pack, Padding, SourceBits;
    more := FlushedBits(input, pos, seg, tail);
    MarkerThere(input, pos + |Pack(seg + Padding())|, tail);
  }

  /** The input begins with this file, and what follows leads to a marker. */
  ghost predicate BeginsWith(input: Bytes, file: Bytes, tail: Bytes)
  {
    input == file + tail && SegmentEnd(input, |file|).Marker?
  }

  lemma MarkerFollows(file: Bytes, tail: Bytes)
    requires MarkerFirst(tail)
    ensures BeginsWith(file + tail, file, tail)
  {
    hide SegmentEnd;
    MarkerThere(file + tail, |file|, tail);
  }

  lemma MarkerThere(input: Bytes, pos: nat, tail: Bytes)
    requires pos <= |input| && input[pos..] == tail && MarkerFirst(tail)
    ensures SourceBits(input, pos) == [] && SegmentEnd(input, pos) == Marker(tail[1], pos + 2)
  {
    assert input[pos] == tail[0] && input[pos + 1] == tail[1];
  }

  /** What has been written stays at the front. */
  lemma {:induction false} WrittenFirst(book: Book, scan: Scan, o: Output, mcus: seq<Mcu>)
    requires ValidBook(book) && ValidOutput(scan, o) && AllEncodable(book, scan, o, mcus)
    ensures o.written <= Flushed(AfterAll(book, scan, o, mcus))
    decreases |mcus|
  {
    hide Pack, BitsOf, Encodable, TokensFrom, DcAfter, ValidBook;
    if mcus != [] {
      WrittenFirst(book, scan, AfterMcu(book, scan, o, mcus[0]), mcus[1..]);
    }
  }

  /**
   In the finished file, the last byte of every segment is filled with ones, and every segment but
   the last is followed by its restart marker.
   */
  lemma {:induction false} EverySegmentFilled(book: Book, scan: Scan, o: Output, mcus: seq<Mcu>, j: nat)
    requires ValidBook(book) && ValidOutput(scan, o) && AllEncodable(book, scan, o, mcus) && j <= |mcus|
    ensures AllEncodable(book, scan, o, mcus[..j])
    ensures var p := AfterAll(book, scan, o, mcus[..j]);
            && (j == |mcus| ==> exists bytes :: FilledWithOnes(p.seg, bytes) && Flushed(AfterAll(book, scan, o, mcus)) == p.written + bytes)
            && (j < |mcus| && RestartDue(scan, p.toGo) ==>
                  exists bytes :: FilledWithOnes(p.seg, bytes)
                                  && p.written + bytes + [0xFF, 0xD0 + p.next] <= Flushed(AfterAll(book, scan, o, mcus)))
    decreases j
  {
    hide Pack, Padding, BitsOf, Encodable, TokensFrom, DcAfter, ValidBook, FilledWithOnes;
    PaddedWithOnes(o.seg);
    if j == 0 {
      if mcus != [] && RestartDue(scan, o.toGo) {
        var bytes := Pack(o.seg + Padding());
        WrittenFirst(book, scan, AfterMcu(book, scan, o, mcus[0]), mcus[1..]);
        assert o.written + bytes + [0xFF, 0xD0 + o.next] == AfterMcu(book, scan, o, mcus[0]).written;
      }
    } else {
      EverySegmentFilled(book, scan, AfterMcu(book, scan, o, mcus[0]), mcus[1..], j - 1);
      assert mcus[..j][1..] == mcus[1..][..j - 1] && mcus[..j][0] == mcus[0];
    }
  }

  /** In the finished file, the segment at hand begins with the bits put out so far, and a marker ends it. */
  lemma {:induction false} SegmentAhead(book: Book, scan: Scan, o: Output, mcus: seq<Mcu>, input: Bytes, tail: Bytes) returns (more: Bits)
    requires ValidBook(book) && ValidOutput(scan, o) && AllEncodable(book, scan, o, mcus)
    requires BeginsWith(input, Flushed(AfterAll(book, scan, o, mcus)), tail)
    ensures |o.written| <= |input| && SourceBits(input, |o.written|) == o.seg + more
    ensures SegmentEnd(input, |o.written|).Marker?
    ensures mcus != [] && RestartDue(scan, o.toGo) ==> SegmentEnd(input, |o.written|) == Marker(RST0 + o.next, |Begun(scan, o).written|)
    decreases |mcus|
  {
    hide Pack, BitsOf, Encodable, TokensFrom, DcAfter, ValidBook, SourceBits, SegmentEnd, AllCoded, McuTokens, Flushed, Begun;
    if mcus == [] {
      NowFlushed(o);
      assert input[|o.written|..] == Pack(o.seg + Padding()) + tail;
      more := FlushedBits(input, |o.written|, o.seg, tail);
    } else {
      var o' := AfterMcu(book, scan, o, mcus[0]);
      if RestartDue(scan, o.toGo) {
        WrittenFirst(book, scan, o', mcus[1..]);
        more := RestartAhead(book, scan, o, mcus[0], input, Flushed(AfterAll(book, scan, o', mcus[1..])) + tail);
      } else {
        more := SegmentAhead(book, scan, o', mcus[1..], input, tail);
        more := SameSegment(book, scan, o, mcus[0], more);
      }
    }
  }

  lemma NowFlushed(o: Output)
    ensures Flushed(o) == o.written + Pack(o.seg + Padding())
  {
  }

  /** Without a restart marker, the MCU's bits come next. */
  lemma SameSegment(book: Book, scan: Scan, o: Output, mcu: Mcu, later: Bits) returns (more: Bits)
    requires ValidBook(book) && ValidOutput(scan, o) && Encodable(book, scan, o, mcu) && !RestartDue(scan, o.toGo)
    ensures AfterMcu(book, scan, o, mcu).written == o.written
    ensures AfterMcu(book, scan, o, mcu).seg + later == o.seg + more
    ensures more == BitsOf(book, McuTokens(scan, o, mcu)) + later
  {
    hide BitsOf, TokensFrom, DcAfter, ValidBook, AllCoded, RangeFrom;
    var bits := BitsOf(book, McuTokens(scan, o, mcu));
    more := bits + later;
    assert (o.seg + bits) + later == o.seg + (bits + later);
  }

  lemma Sections(input: Bytes, a: Bytes, b: Bytes, c: Bytes)
    requires a + b + c <= input
    ensures |a| <= |input| && input[|a|..] == b + (c + input[|a| + |b| + |c|..])
  {
    assert input == (a + b + c) + input[|a| + |b| + |c|..];
  }

  /** With a restart marker, padding and the marker come next. */
  lemma RestartAhead(book: Book, scan: Scan, o: Output, mcu: Mcu, input: Bytes, all: Bytes) returns (more: Bits)
    requires ValidBook(book) && ValidOutput(scan, o) && Encodable(book, scan, o, mcu) && RestartDue(scan, o.toGo)
    requires input == all && AfterMcu(book, scan, o, mcu).written <= all
    ensures |o.written| <= |input| && SourceBits(input, |o.written|) == o.seg + more
    ensures SegmentEnd(input, |o.written|) == Marker(RST0 + o.next, |Begun(scan, o).written|)
  {
    hide Pack, Padding, BitsOf, TokensFrom, DcAfter, ValidBook, SourceBits, SegmentEnd, AllCoded, RangeFrom;
    var flushed, n := Pack(o.seg + Padding()), |Begun(scan, o).written|;
    var rest := Rst(o.next) + input[n..];
    Sections(input, o.written, flushed, Rst(o.next));
    more := FlushedSegment(input, |o.written|, o.seg, rest);
  }

  /** Decoding up to n MCUs, each into a blank area, as long as the input allows. */
  ghost function DecodeAll(input: Bytes, scan: Scan, d: Setup, a: Ahead, n: nat): seq<Mcu>
    requires ValidAhead(input, scan, a) && ValidSetup(scan, d)
    decreases n
  {
    if n == 0 then []
    else
      var r := NextMcu(input, scan, d, a, Blank(|scan.membership|));
      if r.None? then [] else [r.value.1] + DecodeAll(input, scan, d, r.value.0, n - 1)
  }

  /** A marker ends every segment that the next n MCUs are in. */
  ghost predicate Marked(input: Bytes, scan: Scan, d: Setup, a: Ahead, n: nat)
    requires ValidAhead(input, scan, a) && ValidSetup(scan, d)
    decreases n
  {
    n > 0 ==>
      var r := NextMcu(input, scan, d, a, Blank(|scan.membership|));
      r.Some? && r.value.0.end.Marker? && Marked(input, scan, d, r.value.0, n - 1)
  }

  function Blank(n: nat): (area: Mcu)
    ensures |area| == n && forall i :: 0 <= i < n ==> area[i] == ZeroBlock()
  {
    seq(n, _ => ZeroBlock())
  }

  ghost function AllWanted(scan: Scan, d: Setup, mcus: seq<Mcu>): (r: seq<Mcu>)
    requires ValidSetup(scan, d) && forall i :: 0 <= i < |mcus| ==> |mcus[i]| == |scan.membership|
    ensures |r| == |mcus|
  {
    seq(|mcus|, i requires 0 <= i < |mcus| => Wanted(scan, d, mcus[i]))
  }

  /** The decoder is where the encoder was when it had put out o. */
  ghost predicate InStep(input: Bytes, scan: Scan, d: Setup, o: Output, a: Ahead)
    requires ValidOutput(scan, o) && ValidSetup(scan, d)
  {
    && ValidAhead(input, scan, a) && !a.exhausted && Agree(d, a.lastDc, o.lastDc)
    && (scan.restartInterval != 0 ==> a.toGo == o.toGo) && a.next == o.next
    && |o.written| <= |input| && SourceBits(input, |o.written|) == o.seg + a.bits && SegmentEnd(input, |o.written|) == a.end
  }

  /** Both sides pass the restart marker. */
  lemma RestartInStep(book: Book, scan: Scan, d: Setup, o: Output, a: Ahead, mcus: seq<Mcu>, input: Bytes, tail: Bytes)
    requires SameTables(book, scan, d) && ValidOutput(scan, o) && AllEncodable(book, scan, o, mcus) && mcus != []
    requires BeginsWith(input, Flushed(AfterAll(book, scan, o, mcus)), tail)
    requires InStep(input, scan, d, o, a) && RestartDue(scan, o.toGo)
    ensures Restarted(input, scan, a).Some? && InStep(input, scan, d, Begun(scan, o), Restarted(input, scan, a).value)
  {
    hide Pack, BitsOf, Encodable, TokensFrom, DcAfter, SourceBits, SegmentEnd, AllCoded, McuTokens, SameCode, ValidBook, Flushed;
    var _ := SegmentAhead(book, scan, o, mcus, input, tail);
    var n := |Begun(scan, o).written|;
    ExpectedMarker(input, n, o.next);
    assert [] + SourceBits(input, n) == SourceBits(input, n);
  }

  /** Both sides pass one MCU: the decoder gets what the encoder was given. */
  lemma McuInStep(book: Book, scan: Scan, d: Setup, o: Output, a: Ahead, mcu: Mcu, later: Bits, input: Bytes)
    requires SameTables(book, scan, d) && ValidOutput(scan, o) && Encodable(book, scan, o, mcu) && ShortMcu(mcu)
    requires !RestartDue(scan, o.toGo) && InStep(input, scan, d, o, a) && o.toGo < UINT_RANGE
    requires SourceBits(input, |o.written|) == AfterMcu(book, scan, o, mcu).seg + later
    ensures var (a', got) := Decoded(input, scan, d, a, Blank(|scan.membership|));
            InStep(input, scan, d, AfterMcu(book, scan, o, mcu), a') && got == Wanted(scan, d, mcu)
  {
    hide BitsOf, TokensFrom, DcAfter, SourceBits, SegmentEnd, AllCoded, SameCode, ValidBook, RangeFrom, BlockStart, BlockOf, Agree;
    var more := SameSegment(book, scan, o, mcu, later);
    assert a.bits == more by {
      assert (o.seg + a.bits)[|o.seg|..] == a.bits && (o.seg + more)[|o.seg|..] == more;
    }
    assert Tail(a.bits, 0) == more;
    FirstStart(scan, d, a.bits, a.lastDc);
    McuRoundTrip(book, scan, d, mcu, 0, o.lastDc, a.bits, a.lastDc, 0, a.lastDc, later);
  }

  lemma FirstStart(scan: Scan, d: Setup, stream: Bits, lastDc: seq<int>)
    requires ValidSetup(scan, d) && |lastDc| == |scan.dcTbl|
    ensures BlockStart(scan, d, stream, lastDc, 0) == (0, lastDc)
  {
  }

  /** A restart marker that has been put out is not due any more. */
  lemma BegunOnce(book: Book, scan: Scan, o: Output, mcu: Mcu)
    requires ValidBook(book) && ValidOutput(scan, o) && Encodable(book, scan, o, mcu)
    ensures !RestartDue(scan, Begun(scan, o).toGo)
    ensures Encodable(book, scan, Begun(scan, o), mcu) && AfterMcu(book, scan, Begun(scan, o), mcu) == AfterMcu(book, scan, o, mcu)
    ensures AfterMcu(book, scan, o, mcu).written == Begun(scan, o).written
    ensures o.toGo < UINT_RANGE ==> Begun(scan, o).toGo < UINT_RANGE && AfterMcu(book, scan, o, mcu).toGo < UINT_RANGE
  {
    hide Pack, BitsOf, AllCoded, ValidBook, RangeFrom, TokensFrom, DcAfter;
  }

  /** Both sides go on by one MCU, with a restart marker if it is due. */
  lemma StepBoth(book: Book, scan: Scan, d: Setup, o: Output, a: Ahead, mcus: seq<Mcu>, input: Bytes, tail: Bytes) returns (a': Ahead)
    requires SameTables(book, scan, d) && ValidOutput(scan, o) && AllEncodable(book, scan, o, mcus) && o.toGo < UINT_RANGE
    requires mcus != [] && |mcus[0]| == |scan.membership| && ShortMcu(mcus[0])
    requires BeginsWith(input, Flushed(AfterAll(book, scan, o, mcus)), tail)
    requires InStep(input, scan, d, o, a)
    ensures NextMcu(input, scan, d, a, Blank(|scan.membership|)) == Some((a', Wanted(scan, d, mcus[0])))
    ensures InStep(input, scan, d, AfterMcu(book, scan, o, mcus[0]), a') && a'.end.Marker?
  {
    hide Pack, BitsOf, AllCoded, SameCode, ValidBook, Encodable, Flushed, Wanted, ShortMcu, Decoded, Restarted, SourceBits, SegmentEnd, AfterMcu, Agree;
    var mcu, b := mcus[0], a;
    var o' := AfterMcu(book, scan, o, mcu);
    BegunOnce(book, scan, o, mcu);
    if RestartDue(scan, o.toGo) {
      RestartInStep(book, scan, d, o, a, mcus, input, tail);
      b := Restarted(input, scan, a).value;
    }
    var later := SegmentAhead(book, scan, o', mcus[1..], input, tail);
    McuInStep(book, scan, d, Begun(scan, o), b, mcu, later, input);
    a' := Decoded(input, scan, d, b, Blank(|scan.membership|)).0;
  }

  lemma DecodeOne(input: Bytes, scan: Scan, d: Setup, a: Ahead, n: nat, a': Ahead, mcu: Mcu)
    requires ValidAhead(input, scan, a) && ValidSetup(scan, d) && n > 0
    requires NextMcu(input, scan, d, a, Blank(|scan.membership|)) == Some((a', mcu))
    ensures ValidAhead(input, scan, a') && DecodeAll(input, scan, d, a, n) == [mcu] + DecodeAll(input, scan, d, a', n - 1)
    ensures Marked(input, scan, d, a, n) <==> a'.end.Marker? && Marked(input, scan, d, a', n - 1)
  {
    hide NextMcu, ValidAhead, ValidSetup;
  }

  /** Both sides go through the MCUs, and the decoder may go on from there. */
  lemma {:induction false} ScanInStep(book: Book, scan: Scan, d: Setup, o: Output, a: Ahead, mcus: seq<Mcu>, input: Bytes, tail: Bytes, n: nat)
      returns (a': Ahead)
    requires SameTables(book, scan, d) && ValidOutput(scan, o) && AllEncodable(book, scan, o, mcus) && o.toGo < UINT_RANGE
    requires forall i :: 0 <= i < |mcus| ==> |mcus[i]| == |scan.membership| && ShortMcu(mcus[i])
    requires BeginsWith(input, Flushed(AfterAll(book, scan, o, mcus)), tail)
    requires InStep(input, scan, d, o, a)
    ensures InStep(input, scan, d, AfterAll(book, scan, o, mcus), a')
    ensures DecodeAll(input, scan, d, a, |mcus| + n) == AllWanted(scan, d, mcus) + DecodeAll(input, scan, d, a', n)
    ensures Marked(input, scan, d, a, |mcus| + n) == Marked(input, scan, d, a', n)
    decreases |mcus|
  {
    hide Pack, BitsOf, AllCoded, SameCode, ValidBook, Encodable, Flushed, Wanted, ShortMcu, Decoded, NextMcu, DecodeAll, Marked, SourceBits, SegmentEnd;
    hide AfterMcu, Agree;
    if mcus == [] {
      a' := a;
      assert AllWanted(scan, d, mcus) == [];
    } else {
      var b := StepBoth(book, scan, d, o, a, mcus, input, tail);
      DecodeOne(input, scan, d, a, |mcus| + n, b, Wanted(scan, d, mcus[0]));
      BegunOnce(book, scan, o, mcus[0]);
      a' := ScanInStep(book, scan, d, AfterMcu(book, scan, o, mcus[0]), b, mcus[1..], input, tail, n);
      var later := DecodeAll(input, scan, d, a', n);
      assert AllWanted(scan, d, mcus) + later == [Wanted(scan, d, mcus[0])] + (AllWanted(scan, d, mcus[1..]) + later);
    }
  }

  lemma NothingToDecode(input: Bytes, scan: Scan, d: Setup, a: Ahead)
    requires ValidAhead(input, scan, a) && ValidSetup(scan, d)
    ensures DecodeAll(input, scan, d, a, 0) == [] && Marked(input, scan, d, a, 0)
  {
  }

  /**
   The round trip. The bytes that the encoder has written for any MCUs, flushed at the end and
   followed by any marker, decode to the coefficients of these MCUs.
   */
  lemma ScanRoundTrip(book: Book, scan: Scan, d: Setup, mcus: seq<Mcu>, tail: Bytes)
    requires SameTables(book, scan, d) && AllEncodable(book, scan, Start(scan), mcus) && MarkerFirst(tail)
    requires forall i :: 0 <= i < |mcus| ==> |mcus[i]| == |scan.membership| && ShortMcu(mcus[i])
    ensures var input := Flushed(AfterAll(book, scan, Start(scan), mcus)) + tail;
            && DecodeAll(input, scan, d, FirstAhead(input, scan), |mcus|) == AllWanted(scan, d, mcus)
            && Marked(input, scan, d, FirstAhead(input, scan), |mcus|)
  {
    hide Pack, BitsOf, AllCoded, SameCode, ValidBook, Encodable, Flushed, Wanted, ShortMcu, SourceBits, SegmentEnd, AllEncodable, AfterAll, DecodeAll, Marked;
    var o := Start(scan);
    var input := Flushed(AfterAll(book, scan, o, mcus)) + tail;
    assert o.seg + SourceBits(input, 0) == SourceBits(input, 0);
    MarkerFollows(Flushed(AfterAll(book, scan, o, mcus)), tail);
    var a := ScanInStep(book, scan, d, o, FirstAhead(input, scan), mcus, input, tail, 0);
    NothingToDecode(input, scan, d, a);
  }
}
