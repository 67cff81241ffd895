/**
 What a lost restart marker costs: the two restart intervals that it should have separated are
 damaged, but all MCUs after the next marker are decoded, at their own places.
 */
module LostMarker {
  import opened JpegLimits
  import opened BitString
  import opened ByteStream
  import opened BitWriter
  import opened DerivedTables
  import opened Coefficients
  import opened BlockCoding
  import opened ScanCoding
  import opened ScanDecoding
  import opened SequentialRoundTrip

  // ----- The encoder's side -----

  lemma {:induction false} OneAfterAnother(book: Book, scan: Scan, o: Output, a: seq<Mcu>, b: seq<Mcu>)
    requires ValidBook(book) && ValidOutput(scan, o) && AllEncodable(book, scan, o, a + b)
    ensures AllEncodable(book, scan, o, a) && AllEncodable(book, scan, AfterAll(book, scan, o, a), b)
    ensures AfterAll(book, scan, o, a + b) == AfterAll(book, scan, AfterAll(book, scan, o, a), b)
    decreases |a|
  {
    hide Encodable, AfterMcu, ValidBook;
    if a == [] {
      assert a + b == b;
    } else {
      assert (a + b)[0] == a[0] && (a + b)[1..] == a[1..] + b;
      OneAfterAnother(book, scan, AfterMcu(book, scan, o, a[0]), a[1..], b);
    }
  }

  /** A restart marker that is due comes before anything else. */
  lemma BeginsAnyway(book: Book, scan: Scan, o: Output, mcus: seq<Mcu>)
    requires ValidBook(book) && ValidOutput(scan, o) && AllEncodable(book, scan, o, mcus) && mcus != []
    ensures AllEncodable(book, scan, Begun(scan, o), mcus)
    ensures AfterAll(book, scan, Begun(scan, o), mcus) == AfterAll(book, scan, o, mcus)
  {
    hide Encodable, AfterMcu, ValidBook, Begun;
    BegunOnce(book, scan, o, mcus[0]);
  }

  /** Within a restart interval nothing is flushed. */
  lemma {:induction false} InOneInterval(book: Book, scan: Scan, o: Output, mcus: seq<Mcu>)
    requires ValidBook(book) && ValidOutput(scan, o) && AllEncodable(book, scan, o, mcus) && scan.restartInterval != 0 && |mcus| <= o.toGo
    ensures var p := AfterAll(book, scan, o, mcus); p.written == o.written && p.next == o.next && p.toGo == o.toGo - |mcus|
    decreases |mcus|
  {
    hide BitsOf, RangeFrom, AllCoded, TokensFrom, DcAfter, ValidBook, Pack, Padding;
    if mcus != [] {
      InOneInterval(book, scan, AfterMcu(book, scan, o, mcus[0]), mcus[1..]);
    }
  }

  function Elsewhere(o: Output, w: Bytes): Output
  {
    Output(w, o.seg, o.lastDc, o.toGo, o.next)
  }

  /** What has been written before makes no difference to what is written later. */
  lemma {:induction false} WrittenElsewhere(book: Book, scan: Scan, o: Output, w: Bytes, mcus: seq<Mcu>)
    requires ValidBook(book) && ValidOutput(scan, o) && AllEncodable(book, scan, o, mcus)
    ensures AllEncodable(book, scan, Elsewhere(o, w), mcus)
    ensures var p, q := Flushed(AfterAll(book, scan, o, mcus)), Flushed(AfterAll(book, scan, Elsewhere(o, w), mcus));
            o.written <= p && w <= q && p[|o.written|..] == q[|w|..]
    decreases |mcus|
  {
    hide BitsOf, RangeFrom, AllCoded, TokensFrom, DcAfter, ValidBook, Pack, Padding;
    if mcus != [] {
      var o', more := AfterMcu(book, scan, o, mcus[0]), if RestartDue(scan, o.toGo) then Pack(o.seg + Padding()) + Rst(o.next) else [];
      assert o'.written == o.written + more && AfterMcu(book, scan, Elsewhere(o, w), mcus[0]) == Elsewhere(o', w + more);
      WrittenElsewhere(book, scan, o', w + more, mcus[1..]);
      Behind(o.written, w, more, Flushed(AfterAll(book, scan, o', mcus[1..])), Flushed(AfterAll(book, scan, Elsewhere(o', w + more), mcus[1..])));
    }
  }

  lemma Behind(a: Bytes, b: Bytes, more: Bytes, p: Bytes, q: Bytes)
    requires a + more <= p && b + more <= q && p[|a + more|..] == q[|b + more|..]
    ensures a <= p && b <= q && p[|a|..] == q[|b|..]
  {
    assert p[|a|..] == more + p[|a + more|..] && q[|b|..] == more + q[|b + more|..];
  }

  // ----- The decoder's side -----

  /** A restart marker that is due is dealt with before anything else. */
  lemma RestartsFirst(input: Bytes, scan: Scan, d: Setup, a: Ahead, b: Ahead, n: nat)
    requires ValidAhead(input, scan, a) && ValidSetup(scan, d) && RestartDue(scan, a.toGo) && Restarted(input, scan, a) == Some(b)
    ensures ValidAhead(input, scan, b) && DecodeAll(input, scan, d, a, n) == DecodeAll(input, scan, d, b, n)
    ensures Marked(input, scan, d, a, n) == Marked(input, scan, d, b, n)
  {
    hide Restarted, Decoded, ValidSetup;
  }

  /** Until the next restart marker is due, the decoder goes on whatever the data are. */
  lemma {:induction false} GoesOn(input: Bytes, scan: Scan, d: Setup, a: Ahead, k: nat, n: nat) returns (got: seq<Mcu>, b: Ahead)
    requires ValidAhead(input, scan, a) && ValidSetup(scan, d) && k <= a.toGo < UINT_RANGE && a.end.Marker?
    ensures ValidAhead(input, scan, b) && b.end == a.end && b.next == a.next && b.toGo == a.toGo - k && |got| == k
    ensures DecodeAll(input, scan, d, a, k + n) == got + DecodeAll(input, scan, d, b, n)
    ensures Marked(input, scan, d, a, k + n) == Marked(input, scan, d, b, n)
    decreases k
  {
    hide NextMcu, DecodeAll, Marked, ValidSetup;
    if k == 0 {
      got, b := [], a;
    } else {
      var c, mcu := OneDecoded(input, scan, d, a);
      DecodeOne(input, scan, d, a, k + n, c, mcu);
      got, b := GoesOn(input, scan, d, c, k - 1, n);
      got := [mcu] + got;
    }
  }

  lemma OneDecoded(input: Bytes, scan: Scan, d: Setup, a: Ahead) returns (b: Ahead, mcu: Mcu)
    requires ValidAhead(input, scan, a) && ValidSetup(scan, d) && 0 < a.toGo < UINT_RANGE
    ensures NextMcu(input, scan, d, a, Blank(|scan.membership|)) == Some((b, mcu))
    ensures ValidAhead(input, scan, b) && b.end == a.end && b.next == a.next && b.toGo == a.toGo - 1
  {
    hide BlockStart, BlockOf, ValidSetup;
    var r := Decoded(input, scan, d, a, Blank(|scan.membership|));
    b, mcu := r.0, r.1;
  }

  // ----- The loss -----

  /** A file whose restart marker after the MCUs `before` has been cut out. */
  ghost predicate Lossy(book: Book, scan: Scan, before: seq<Mcu>, hit: seq<Mcu>, after: seq<Mcu>)
    requires ValidBook(book) && ValidScan(scan)
  {
    && AllEncodable(book, scan, Start(scan), before + hit + after) && 0 < scan.restartInterval < UINT_RANGE
    && AllEncodable(book, scan, Start(scan), before) && RestartDue(scan, AfterAll(book, scan, Start(scan), before).toGo)
    && |hit| == scan.restartInterval && after != [] && AllFit(scan, before) && AllFit(scan, hit) && AllFit(scan, after)
  }

  /** The MCUs have the blocks of the scan's components. */
  ghost predicate AllFit(scan: Scan, mcus: seq<Mcu>)
  {
    forall i :: 0 <= i < |mcus| ==> |mcus[i]| == |scan.membership| && ShortMcu(mcus[i])
  }

  /** What decoding n MCUs of the input gives. */
  ghost function McusOf(input: Bytes, scan: Scan, d: Setup, n: nat): seq<Mcu>
    requires ValidSetup(scan, d)
  {
    DecodeAll(input, scan, d, FirstAhead(input, scan), n)
  }

  /** The file in two pieces: before the marker, and behind it. */
  lemma Pieces(book: Book, scan: Scan, before: seq<Mcu>, hit: seq<Mcu>, after: seq<Mcu>) returns (o1: Output, o2: Output, rest: Bytes)
    requires ValidBook(book) && ValidScan(scan) && Lossy(book, scan, before, hit, after)
    ensures o1 == AfterAll(book, scan, Start(scan), before) && ValidOutput(scan, o1) && ValidOutput(scan, o2) && o1.toGo == 0
    ensures RestartDue(scan, o2.toGo) && o2.next == (o1.next + 1) % 8
    ensures AllEncodable(book, scan, Begun(scan, o2), after)
    ensures var b2 := Begun(scan, o2);
            && Flushed(AfterAll(book, scan, Start(scan), before + hit + after))
               == Flushed(o1) + Rst(o1.next) + (Pack(o2.seg + Padding()) + Rst(o2.next) + rest)
            && forall w: Bytes :: AllEncodable(book, scan, Elsewhere(b2, w), after)
                           && Flushed(AfterAll(book, scan, Elsewhere(b2, w), after)) == w + rest
  {
    hide AllEncodable, AfterAll, ValidBook, Pack, Padding, ShortMcu;
    var o := Start(scan);
    OneAfterAnother(book, scan, o, before + hit, after);
    OneAfterAnother(book, scan, o, before, hit);
    o1 := AfterAll(book, scan, o, before);
    o2 := AfterAll(book, scan, o1, hit);
    BeginsAnyway(book, scan, o1, hit);
    InOneInterval(book, scan, Begun(scan, o1), hit);
    BeginsAnyway(book, scan, o2, after);
    var b2 := Begun(scan, o2);
    var whole := Flushed(AfterAll(book, scan, b2, after));
    WrittenElsewhere(book, scan, b2, [], after);
    rest := whole[|b2.written|..];
    assert whole == b2.written + rest;
    var x, y := Rst(o1.next), Pack(o2.seg + Padding()) + Rst(o2.next);
    assert b2.written + rest == Flushed(o1) + x + (y + rest);
    forall w: Bytes
      ensures AllEncodable(book, scan, Elsewhere(b2, w), after) && Flushed(AfterAll(book, scan, Elsewhere(b2, w), after)) == w + rest
    {
      WrittenElsewhere(book, scan, b2, w, after);
      var q := Flushed(AfterAll(book, scan, Elsewhere(b2, w), after));
      assert q == w + q[|w|..];
    }
  }

  /** The decoder comes to the missing marker, finds the one after it, and leaves it where it is. */
  lemma FindsTheNext(book: Book, scan: Scan, d: Setup, o1: Output, n2: nat, q: nat, input: Bytes, a: Ahead, n: nat) returns (b: Ahead)
    requires SameTables(book, scan, d) && ValidOutput(scan, o1) && InStep(input, scan, d, o1, a) && o1.toGo == 0 && 0 < scan.restartInterval
    requires n2 == (o1.next + 1) % 8 && q <= |input| && SegmentEnd(input, |o1.written|) == Marker(0xD0 + n2, q)
    ensures b == Ahead([], false, Marker(0xD0 + n2, q), Zeros(|scan.dcTbl|), scan.restartInterval, n2)
    ensures ValidAhead(input, scan, b)
    ensures DecodeAll(input, scan, d, a, n) == DecodeAll(input, scan, d, b, n) && Marked(input, scan, d, a, n) == Marked(input, scan, d, b, n)
  {
    hide SourceBits, SegmentEnd, SameCode, ValidBook, DecodeAll, Marked, Restart, Agree;
    RecoveryRules(input, 0xD0 + n2, q, o1.next);
    b := Ahead([], false, Marker(0xD0 + n2, q), Zeros(|scan.dcTbl|), scan.restartInterval, n2);
    RestartsFirst(input, scan, d, a, b, n);
  }

  /** At the next marker both sides are in step again. */
  lemma InStepAgain(book: Book, scan: Scan, d: Setup, o: Output, q: nat, input: Bytes, a: Ahead, n: nat) returns (b: Ahead)
    requires SameTables(book, scan, d) && ValidOutput(scan, o) && ValidAhead(input, scan, a) && 0 < scan.restartInterval
    requires a.toGo == 0 && a.next < 8 && a.end == Marker(0xD0 + a.next, q) && q <= |input|
    requires |o.written| == q && o.seg == [] && o.lastDc == Zeros(|scan.dcTbl|) && o.toGo == scan.restartInterval && o.next == (a.next + 1) % 8
    ensures InStep(input, scan, d, o, b)
    ensures DecodeAll(input, scan, d, a, n) == DecodeAll(input, scan, d, b, n) && Marked(input, scan, d, a, n) == Marked(input, scan, d, b, n)
  {
    hide SourceBits, SegmentEnd, SameCode, ValidBook, DecodeAll, Marked, Restart;
    RecoveryRules(input, 0xD0 + a.next, q, a.next);
    b := Ahead(SourceBits(input, q), false, SegmentEnd(input, q), Zeros(|scan.dcTbl|), scan.restartInterval, (a.next + 1) % 8);
    assert [] + SourceBits(input, q) == SourceBits(input, q);
    RestartsFirst(input, scan, d, a, b, n);
  }

  /** The bytes of a scan. */
  ghost function FileOf(book: Book, scan: Scan, mcus: seq<Mcu>): Bytes
    requires ValidBook(book) && ValidScan(scan) && AllEncodable(book, scan, Start(scan), mcus)
  {
    Flushed(AfterAll(book, scan, Start(scan), mcus))
  }

  /** The file without the two bytes at position p. */
  function CutOut(file: Bytes, p: nat): Bytes
  {
    if p + 2 <= |file| then file[..p] + file[p + 2..] else file
  }

  /** Where the file is cut there has been a restart marker. */
  lemma MarkerWasThere(book: Book, scan: Scan, before: seq<Mcu>, hit: seq<Mcu>, after: seq<Mcu>)
    requires ValidBook(book) && ValidScan(scan) && Lossy(book, scan, before, hit, after)
    ensures var file, p := FileOf(book, scan, before + hit + after), |FileOf(book, scan, before)|;
            p + 2 <= |file| && file[p] == 0xFF && file[p + 1] == 0xD0 + AfterAll(book, scan, Start(scan), before).next
  {
    hide AllEncodable, AfterAll, ValidBook, Pack, Padding, ShortMcu, Flushed;
    var o1, o2, rest := Pieces(book, scan, before, hit, after);
    var cut, x := Flushed(o1), Pack(o2.seg + Padding()) + Rst(o2.next) + rest;
    assert cut + Rst(o1.next) + x == cut + (Rst(o1.next) + x);
  }

  /** Up to the missing marker, over the damaged interval, and on from the next marker. */
  lemma ThreeParts(book: Book, scan: Scan, d: Setup, before: seq<Mcu>, k: nat, after: seq<Mcu>, o1: Output, o2: Output, rest: Bytes,
                   input: Bytes, tail: Bytes) returns (got: seq<Mcu>)
    requires SameTables(book, scan, d) && MarkerFirst(tail) && 0 < scan.restartInterval == k < UINT_RANGE
    requires AllEncodable(book, scan, Start(scan), before) && o1 == AfterAll(book, scan, Start(scan), before) && o1.toGo == 0
    requires ValidOutput(scan, o2) && RestartDue(scan, o2.toGo) && o2.next == (o1.next + 1) % 8
    requires AllFit(scan, before) && AllFit(scan, after)
    requires var w := Flushed(o1) + (Pack(o2.seg + Padding()) + Rst(o2.next));
             && input == w + rest + tail && AllEncodable(book, scan, Elsewhere(Begun(scan, o2), w), after)
             && Flushed(AfterAll(book, scan, Elsewhere(Begun(scan, o2), w), after)) == w + rest
    ensures |got| == k && var n := |before| + (k + |after|);
            && McusOf(input, scan, d, n) == AllWanted(scan, d, before) + (got + AllWanted(scan, d, after))
            && Marked(input, scan, d, FirstAhead(input, scan), n)
  {
    hide AllEncodable, AfterAll, ValidBook, Pack, Padding, ShortMcu, SameCode, SourceBits, SegmentEnd, DecodeAll, Marked, Wanted, Flushed;
    var cut, mid := Flushed(o1), Pack(o2.seg + Padding()) + Rst(o2.next);
    Damaged(input, cut, mid, rest, tail);
    assert mid + (rest + tail) == Pack(o2.seg + Padding()) + (Rst(o2.next) + (rest + tail));
    var _ := FlushedSegment(input, |cut|, o2.seg, Rst(o2.next) + (rest + tail));
    assert |cut| + |Pack(o2.seg + Padding())| + 2 == |cut + mid|;
    StartsInStep(scan, d, input);
    var a1 := ScanInStep(book, scan, d, Start(scan), FirstAhead(input, scan), before, input, mid + rest + tail, k + |after|);
    SameEnd(o1, input, mid + rest + tail);
    var a2 := FindsTheNext(book, scan, d, o1, o2.next, |cut + mid|, input, a1, k + |after|);
    var a3;
    got, a3 := GoesOn(input, scan, d, a2, k, |after|);
    var o3 := Elsewhere(Begun(scan, o2), cut + mid);
    var a4 := InStepAgain(book, scan, d, o3, |cut + mid|, input, a3, |after|);
    MarkerFollows(cut + mid + rest, tail);
    var a5 := ScanInStep(book, scan, d, o3, a4, after, input, tail, 0);
    NothingToDecode(input, scan, d, a5);
  }

  /**
   The file lacks the restart marker after the MCUs `before`. Decoding it gives as many MCUs as were
   coded: those before the marker, then one interval of whatever the damaged data lead to, and then
   all MCUs after the next marker, at their own places.
   */
  lemma OneMarkerLost(book: Book, scan: Scan, d: Setup, before: seq<Mcu>, hit: seq<Mcu>, after: seq<Mcu>, tail: Bytes, input: Bytes)
      returns (got: seq<Mcu>)
    requires SameTables(book, scan, d) && Lossy(book, scan, before, hit, after) && MarkerFirst(tail)
    requires input == CutOut(FileOf(book, scan, before + hit + after), |FileOf(book, scan, before)|) + tail
    ensures |got| == |hit|
    ensures McusOf(input, scan, d, |before| + (|hit| + |after|)) == AllWanted(scan, d, before) + (got + AllWanted(scan, d, after))
    ensures Marked(input, scan, d, FirstAhead(input, scan), |before| + (|hit| + |after|))
  {
    hide AllEncodable, AfterAll, ValidBook, Pack, Padding, ShortMcu, SameCode, SourceBits, SegmentEnd, DecodeAll, Marked, Wanted, Flushed;
    var o1, o2, rest := Pieces(book, scan, before, hit, after);
    var cut, mid := Flushed(o1), Pack(o2.seg + Padding()) + Rst(o2.next);
    var whole := cut + Rst(o1.next) + (mid + rest);
    assert whole[..|cut|] == cut && whole[|cut| + 2..] == mid + rest;
    assert input == cut + mid + rest + tail;
    got := ThreeParts(book, scan, d, before, |hit|, after, o1, o2, rest, input, tail);
  }

  lemma Damaged(input: Bytes, cut: Bytes, mid: Bytes, rest: Bytes, tail: Bytes)
    requires input == cut + (mid + rest) + tail
    ensures |cut| <= |input| && input[|cut|..] == mid + (rest + tail) && input == cut + (mid + rest + tail)
  {
  }

  lemma StartsInStep(scan: Scan, d: Setup, input: Bytes)
    requires ValidSetup(scan, d)
    ensures InStep(input, scan, d, Start(scan), FirstAhead(input, scan))
  {
    hide SourceBits, SegmentEnd, ValidDcTable, ValidDecTable;
    assert [] + SourceBits(input, 0) == SourceBits(input, 0);
  }

  lemma SameEnd(o: Output, input: Bytes, tail: Bytes)
    requires input == Flushed(o) + tail
    ensures |o.written| <= |input| && |Flushed(o)| <= |input| && SegmentEnd(input, |o.written|) == SegmentEnd(input, |Flushed(o)|)
  {
    hide Pack, Padding, SourceBits, SegmentEnd;
    assert input[|o.written|..] == Pack(o.seg + Padding()) + tail;
    var _ := FlushedBits(input, |o.written|, o.seg, tail);
  }
}
