/**
 What a scan of sequential Huffman coding consists of, as functions: the tokens of an MCU with the
 DC predictions that they leave, and the bytes of a scan with its restart markers (ITU-T T.81,
 sections F.1.1.5 and F.1.2).
 */
module ScanCoding {
  import opened JpegLimits
  import opened Arith
  import opened BitString
  import opened ByteStream
  import opened BitWriter
  import opened DerivedTables
  import opened Coefficients
  import opened BlockCoding

  /** The layout of a scan: which component each block of an MCU belongs to, and the tables of each component. */
  datatype Scan = Scan(membership: seq<nat>, dcTbl: seq<nat>, acTbl: seq<nat>, restartInterval: nat)

  ghost predicate ValidScan(scan: Scan)
  {
    && |scan.dcTbl| == |scan.acTbl| <= MAX_COMPS_IN_SCAN
    && (forall i :: 0 <= i < |scan.membership| ==> scan.membership[i] < |scan.dcTbl|)
    && (forall c :: 0 <= c < |scan.dcTbl| ==> scan.dcTbl[c] < NUM_HUFF_TBLS && scan.acTbl[c] < NUM_HUFF_TBLS)
    && scan.restartInterval < 0x1_0000
  }

  type Mcu = seq<Block>

  ghost predicate Fits(scan: Scan, mcu: Mcu, lastDc: seq<int>)
  {
    ValidScan(scan) && |mcu| == |scan.membership| && |lastDc| == |scan.dcTbl|
  }

  /** No prediction carries over. */
  function Zeros(n: nat): (s: seq<int>)
    ensures |s| == n && forall c :: 0 <= c < n ==> s[c] == 0
  {
    seq(n, _ => 0)
  }

  /** The tokens of the blocks of an MCU from number i on. */
  ghost function TokensFrom(scan: Scan, mcu: Mcu, i: nat, lastDc: seq<int>): seq<Token>
    requires Fits(scan, mcu, lastDc) && i <= |mcu|
    decreases |mcu| - i
  {
    if i == |mcu| then []
    else
      var c := scan.membership[i];
      BlockTokens(scan.dcTbl[c], scan.acTbl[c], mcu[i], lastDc[c]) + TokensFrom(scan, mcu, i + 1, lastDc[c := mcu[i][0]])
  }

  /** The DC predictions after the blocks from number i on. */
  ghost function DcAfter(scan: Scan, mcu: Mcu, i: nat, lastDc: seq<int>): (r: seq<int>)
    requires Fits(scan, mcu, lastDc) && i <= |mcu|
    ensures |r| == |lastDc|
    decreases |mcu| - i
  {
    if i == |mcu| then lastDc else DcAfter(scan, mcu, i + 1, lastDc[scan.membership[i] := mcu[i][0]])
  }

  ghost predicate RangeFrom(scan: Scan, mcu: Mcu, i: nat, lastDc: seq<int>)
    requires Fits(scan, mcu, lastDc) && i <= |mcu|
    decreases |mcu| - i
  {
    i < |mcu| ==>
      var c := scan.membership[i];
      BlockInRange(mcu[i], lastDc[c]) && RangeFrom(scan, mcu, i + 1, lastDc[c := mcu[i][0]])
  }

  // ----- The encoder's output -----

  /**
   What has been put out: the bytes of finished segments with their restart markers, and the bits
   of the segment at hand. toGo counts the MCUs left in it; next numbers the next restart marker.
   */
  datatype Output = Output(written: Bytes, seg: Bits, lastDc: seq<int>, toGo: nat, next: nat)

  ghost predicate ValidOutput(scan: Scan, o: Output)
  {
    ValidScan(scan) && |o.lastDc| == |scan.dcTbl| && o.next < 8
  }

  predicate RestartDue(scan: Scan, toGo: int)
  {
    scan.restartInterval != 0 && toGo == 0
  }

  /** A restart marker goes before the MCU if it is due. */
  ghost function Begun(scan: Scan, o: Output): (r: Output)
    requires ValidOutput(scan, o)
    ensures ValidOutput(scan, r)
    ensures scan.restartInterval != 0 ==> r.toGo > 0
  {
    if RestartDue(scan, o.toGo) then
      Output(o.written + Pack(o.seg + Padding()) + Rst(o.next), [], Zeros(|scan.dcTbl|), scan.restartInterval, (o.next + 1) % 8)
    else o
  }

  ghost function McuTokens(scan: Scan, o: Output, mcu: Mcu): seq<Token>
    requires ValidOutput(scan, o) && |mcu| == |scan.membership|
  {
    TokensFrom(scan, mcu, 0, Begun(scan, o).lastDc)
  }

  /** The MCU can be written: its coefficients are in range and its symbols have codes. */
  ghost predicate Encodable(book: Book, scan: Scan, o: Output, mcu: Mcu)
    requires ValidBook(book) && ValidOutput(scan, o)
  {
    && |mcu| == |scan.membership|
    && RangeFrom(scan, mcu, 0, Begun(scan, o).lastDc)
    && AllCoded(book, McuTokens(scan, o, mcu))
  }

  ghost function AfterMcu(book: Book, scan: Scan, o: Output, mcu: Mcu): (r: Output)
    requires ValidBook(book) && ValidOutput(scan, o) && Encodable(book, scan, o, mcu)
    ensures ValidOutput(scan, r)
  {
    var b := Begun(scan, o);
    Output(b.written, b.seg + BitsOf(book, McuTokens(scan, o, mcu)), DcAfter(scan, mcu, 0, b.lastDc),
           if scan.restartInterval != 0 then b.toGo - 1 else b.toGo, b.next)
  }

  ghost predicate AllEncodable(book: Book, scan: Scan, o: Output, mcus: seq<Mcu>)
    requires ValidBook(book) && ValidOutput(scan, o)
    decreases |mcus|
  {
    mcus != [] ==> Encodable(book, scan, o, mcus[0]) && AllEncodable(book, scan, AfterMcu(book, scan, o, mcus[0]), mcus[1..])
  }

  ghost function AfterAll(book: Book, scan: Scan, o: Output, mcus: seq<Mcu>): (r: Output)
    requires ValidBook(book) && ValidOutput(scan, o) && AllEncodable(book, scan, o, mcus)
    ensures ValidOutput(scan, r)
    decreases |mcus|
  {
    if mcus == [] then o else AfterAll(book, scan, AfterMcu(book, scan, o, mcus[0]), mcus[1..])
  }

  /** The bytes of what has been put out, once it is flushed. */
  ghost function Flushed(o: Output): Bytes
  {
    o.written + Pack(o.seg + Padding())
  }

  /** The bytes that are in the file before the flush. */
  ghost function Sent(o: Output): Bytes
  {
    o.written + Pack(o.seg)
  }

  ghost function Start(scan: Scan): (o: Output)
    requires ValidScan(scan)
    ensures ValidOutput(scan, o)
  {
    Output([], [], Zeros(|scan.dcTbl|), scan.restartInterval, 0)
  }

  /** The position in the restart intervals after i MCUs. */
  ghost predicate AfterCount(scan: Scan, o: Output, i: nat)
  {
    var n := scan.restartInterval;
    && (n == 0 || i == 0 ==> o.next == 0 && o.toGo == n)
    && (n > 0 && i > 0 ==> o.next == (i - 1) / n % 8 && o.toGo == n - 1 - (i - 1) % n)
  }

  lemma NextCount(n: nat, i: nat)
    requires n > 0
    ensures i > 0 ==> if (i - 1) % n == n - 1 then i / n == (i - 1) / n + 1 && i % n == 0 else i / n == (i - 1) / n && i % n == (i - 1) % n + 1
    ensures i == 0 ==> i / n == 0 == i % n
  {
    if i > 0 {
      var q, r := (i - 1) / n, (i - 1) % n;
      if r == n - 1 {
        assert (q + 1) * n == q * n + n;
        QuotientIs(i, n, q + 1, 0);
      } else {
        QuotientIs(i, n, q, r + 1);
      }
    }
  }

  lemma OneMcuOn(book: Book, scan: Scan, o: Output, mcu: Mcu)
    requires ValidBook(book) && ValidOutput(scan, o) && Encodable(book, scan, o, mcu)
    ensures var due, r := RestartDue(scan, o.toGo), AfterMcu(book, scan, o, mcu);
            && r.next == (if due then (o.next + 1) % 8 else o.next)
            && r.toGo == (if due then scan.restartInterval else o.toGo) - (if scan.restartInterval != 0 then 1 else 0)
  {
    hide Encodable, BitsOf, TokensFrom, DcAfter, ValidBook, Pack, McuTokens, Padding;
  }

  lemma CountOne(book: Book, scan: Scan, o: Output, mcu: Mcu, i: nat)
    requires ValidBook(book) && ValidOutput(scan, o) && Encodable(book, scan, o, mcu) && AfterCount(scan, o, i)
    ensures AfterCount(scan, AfterMcu(book, scan, o, mcu), i + 1)
  {
    hide Encodable, ValidBook, ValidOutput, AfterMcu, McuTokens;
    OneMcuOn(book, scan, o, mcu);
    var n := scan.restartInterval;
    if n > 0 {
      NextCount(n, i);
      if i > 0 && (i - 1) % n == n - 1 {
        assert ((i - 1) / n % 8 + 1) % 8 == i / n % 8;
      }
    }
  }

  lemma {:induction false} Counted(book: Book, scan: Scan, o: Output, mcus: seq<Mcu>, i: nat, j: nat)
    requires ValidBook(book) && ValidOutput(scan, o) && AllEncodable(book, scan, o, mcus) && j <= |mcus| && AfterCount(scan, o, i)
    ensures AllEncodable(book, scan, o, mcus[..j]) && AfterCount(scan, AfterAll(book, scan, o, mcus[..j]), i + j)
    decreases j
  {
    hide Encodable, ValidBook, AfterMcu, AfterCount, ValidOutput;
    if j > 0 {
      CountOne(book, scan, o, mcus[0], i);
      Counted(book, scan, AfterMcu(book, scan, o, mcus[0]), mcus[1..], i + 1, j - 1);
      assert mcus[..j][1..] == mcus[1..][..j - 1] && mcus[..j][0] == mcus[0];
    }
  }

  /** Restart markers come after every restartInterval MCUs, unless it is 0, and are numbered from 0 to 7 over and over. */
  lemma RestartPlaces(book: Book, scan: Scan, mcus: seq<Mcu>, j: nat)
    requires ValidBook(book) && ValidScan(scan) && AllEncodable(book, scan, Start(scan), mcus) && j <= |mcus|
    ensures AllEncodable(book, scan, Start(scan), mcus[..j])
    ensures var o, n := AfterAll(book, scan, Start(scan), mcus[..j]), scan.restartInterval;
            && (RestartDue(scan, o.toGo) <==> n > 0 && j > 0 && j % n == 0)
            && o.next == if n == 0 || j == 0 then 0 else (j - 1) / n % 8
  {
    hide Encodable, AllEncodable, AfterAll;
    Counted(book, scan, Start(scan), mcus, 0, j);
    if scan.restartInterval > 0 {
      NextCount(scan.restartInterval, j);
    }
  }
}
