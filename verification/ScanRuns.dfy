/**
 Whole runs of the sequential coder over a suspending destination or source: the caller repeats a
 refused MCU once there is room, or once more input has arrived.
 */
module ScanRuns {
  import opened ByteStream
  import opened BitWriter
  import opened DerivedTables
  import opened Coefficients
  import opened BlockCoding
  import opened ScanCoding
  import opened ScanDecoding
  import opened SequentialEncoder
  import opened SequentialDecoder
  import opened SequentialRoundTrip

  /** One MCU more. */
  lemma {:induction false} AfterLast(book: Book, scan: Scan, o: Output, mcus: seq<Mcu>, mcu: Mcu)
    requires ValidBook(book) && ValidOutput(scan, o) && AllEncodable(book, scan, o, mcus)
    requires Encodable(book, scan, AfterAll(book, scan, o, mcus), mcu)
    ensures AllEncodable(book, scan, o, mcus + [mcu])
    ensures AfterAll(book, scan, o, mcus + [mcu]) == AfterMcu(book, scan, AfterAll(book, scan, o, mcus), mcu)
    decreases |mcus|
  {
    hide Encodable, AfterMcu, ValidBook;
    if mcus == [] {
      assert mcus + [mcu] == [mcu] && [mcu][1..] == [];
    } else {
      assert (mcus + [mcu])[0] == mcus[0] && (mcus + [mcu])[1..] == mcus[1..] + [mcu];
      AfterLast(book, scan, AfterMcu(book, scan, o, mcus[0]), mcus[1..], mcu);
    }
  }

  /**
   Writes MCUs in turn; the k-th refusal is answered by making rooms[k] bytes of room. However
   often the destination refuses, each of the done MCUs has been written exactly once.
   */
  method EncodeScan(e: HuffEncoder, mcus: seq<Mcu>, rooms: seq<nat>) returns (done: nat)
    requires e.Valid() && e.output == Start(e.scan)
    requires forall i :: 0 <= i < |mcus| ==> |mcus[i]| == |e.scan.membership|
    requires forall k :: 0 <= k < |rooms| ==> rooms[k] > 0
    modifies e
    ensures e.Valid() && done <= |mcus| && AllEncodable(e.book, e.scan, Start(e.scan), mcus[..done])
    ensures e.output == AfterAll(e.book, e.scan, Start(e.scan), mcus[..done])
    ensures !e.suspending && AllEncodable(e.book, e.scan, Start(e.scan), mcus) ==> done == |mcus|
  {
    hide Encodable, AfterMcu, ValidBook, ValidScan, Start, Sent, Buffered;
    var k := 0;
    done := 0;
    while done < |mcus|
      invariant e.Valid() && 0 <= k <= |rooms| && done <= |mcus|
      invariant AllEncodable(e.book, e.scan, Start(e.scan), mcus[..done])
      invariant e.output == AfterAll(e.book, e.scan, Start(e.scan), mcus[..done])
      decreases |mcus| - done + |rooms| - k
    {
      if !e.suspending && AllEncodable(e.book, e.scan, Start(e.scan), mcus) {
        NextEncodable(e.book, e.scan, Start(e.scan), mcus, done);
      }
      var st := e.EncodeMcu(mcus[done]);
      if st == Done {
        AfterLast(e.book, e.scan, Start(e.scan), mcus[..done], mcus[done]);
        assert mcus[..done] + [mcus[done]] == mcus[..done + 1];
        done := done + 1;
      } else if st == Suspended && k < |rooms| {
        e.MakeRoom(rooms[k]);
        k := k + 1;
      } else {
        return;
      }
    }
    assert mcus[..done] == mcus;
  }

  lemma {:induction false} NextEncodable(book: Book, scan: Scan, o: Output, mcus: seq<Mcu>, i: nat)
    requires ValidBook(book) && ValidOutput(scan, o) && AllEncodable(book, scan, o, mcus) && i < |mcus|
    ensures AllEncodable(book, scan, o, mcus[..i]) && Encodable(book, scan, AfterAll(book, scan, o, mcus[..i]), mcus[i])
    decreases i
  {
    hide Encodable, AfterMcu, ValidBook;
    if i > 0 {
      assert mcus[..i][1..] == mcus[1..][..i - 1];
      NextEncodable(book, scan, AfterMcu(book, scan, o, mcus[0]), mcus[1..], i - 1);
    }
  }

  /** Reads one MCU, trying again whenever more input has arrived, from the k-th arrival on. */
  method DecodePatiently(dec: HuffDecoder, arrivals: seq<nat>, k: nat) returns (ok: bool, mcu: Mcu, next: nat)
    requires dec.Valid() && Tabled(dec.scan, dec.d, dec.dcTables, dec.acTables) && k <= |arrivals|
    modifies dec
    ensures dec.Valid() && k <= next <= |arrivals|
    ensures ValidAhead(dec.input, dec.scan, old(dec.State())) && ValidAhead(dec.input, dec.scan, dec.State())
    ensures var r := NextMcu(dec.input, dec.scan, dec.d, old(dec.State()), Blank(|dec.scan.membership|));
            && (ok ==> r == Some((dec.State(), mcu)))
            && (dec.avail == |dec.input| && r.Some? && r.value.0.end.Marker? ==> ok)
  {
    hide ValidSetup, Tabled, NextMcu, ValidAhead, dec.State;
    dec.StateIsValid();
    var area := new Block[|dec.scan.membership|](_ => ZeroBlock());
    assert area[..] == Blank(|dec.scan.membership|);
    ghost var r := NextMcu(dec.input, dec.scan, dec.d, dec.State(), area[..]);
    ok := dec.DecodeMcu(area);
    next := k;
    dec.StateIsValid();
    while !ok && next < |arrivals|
      invariant dec.Valid() && Tabled(dec.scan, dec.d, dec.dcTables, dec.acTables) && k <= next <= |arrivals|
      invariant fresh(area) && area.Length == |dec.scan.membership| && ValidAhead(dec.input, dec.scan, dec.State())
      invariant if ok then r == Some((dec.State(), area[..])) else NextMcu(dec.input, dec.scan, dec.d, dec.State(), area[..]) == r
      invariant dec.avail == |dec.input| && r.Some? && r.value.0.end.Marker? ==> ok
      decreases |arrivals| - next
    {
      dec.Supply(if dec.avail + arrivals[next] <= |dec.input| then dec.avail + arrivals[next] else |dec.input|);
      next := next + 1;
      ok := dec.DecodeMcu(area);
      dec.StateIsValid();
    }
    mcu := area[..];
  }

  /**
   Reads up to n MCUs; when the source suspends for the k-th time, arrivals[k] bytes more arrive
   and the MCU is tried again. However the input is divided, the MCUs are those of one
   uninterrupted run; and none is missing if all input has arrived and markers end its segments.
   */
  method DecodeScan(dec: HuffDecoder, n: nat, arrivals: seq<nat>) returns (mcus: seq<Mcu>)
    requires dec.Valid() && Tabled(dec.scan, dec.d, dec.dcTables, dec.acTables)
    modifies dec
    ensures ValidAhead(dec.input, dec.scan, old(dec.State()))
    ensures mcus <= DecodeAll(dec.input, dec.scan, dec.d, old(dec.State()), n)
    ensures dec.avail == |dec.input| && Marked(dec.input, dec.scan, dec.d, old(dec.State()), n) ==> |mcus| == n
  {
    hide ValidSetup, Tabled, DecodeAll, Marked, NextMcu, ValidAhead, dec.State;
    dec.StateIsValid();
    ghost var marked, all := Marked(dec.input, dec.scan, dec.d, dec.State(), n), DecodeAll(dec.input, dec.scan, dec.d, dec.State(), n);
    var k := 0;
    mcus := [];
    while |mcus| < n
      invariant dec.Valid() && Tabled(dec.scan, dec.d, dec.dcTables, dec.acTables) && |mcus| <= n && k <= |arrivals|
      invariant ValidAhead(dec.input, dec.scan, dec.State())
      invariant marked ==> Marked(dec.input, dec.scan, dec.d, dec.State(), n - |mcus|)
      invariant all == mcus + DecodeAll(dec.input, dec.scan, dec.d, dec.State(), n - |mcus|)
    {
      ghost var a := dec.State();
      if marked {
        MarkedOnce(dec.input, dec.scan, dec.d, a, n - |mcus|);
      }
      var ok, mcu;
      ok, mcu, k := DecodePatiently(dec, arrivals, k);
      if !ok {
        return;
      }
      DecodeOne(dec.input, dec.scan, dec.d, a, n - |mcus|, dec.State(), mcu);
      ghost var rest := DecodeAll(dec.input, dec.scan, dec.d, dec.State(), n - |mcus| - 1);
      assert mcus + ([mcu] + rest) == (mcus + [mcu]) + rest;
      mcus := mcus + [mcu];
    }
  }

  lemma MarkedOnce(input: Bytes, scan: Scan, d: Setup, a: Ahead, n: nat)
    requires ValidAhead(input, scan, a) && ValidSetup(scan, d) && n > 0 && Marked(input, scan, d, a, n)
    ensures NextMcu(input, scan, d, a, Blank(|scan.membership|)).Some?
    ensures NextMcu(input, scan, d, a, Blank(|scan.membership|)).value.0.end.Marker?
  {
  }
}
