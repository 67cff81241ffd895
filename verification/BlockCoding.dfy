/**
 What one block of coefficients is coded as (ITU-T T.81, section F.1.2) and how it is decoded
 (section F.2.2), as functions. The encoder, the statistics pass and the decoder are
 proved against them.
 */
module BlockCoding {
  import opened JpegLimits
  import opened Arith
  import opened BitString
  import opened ByteStream
  import opened BitWriter
  import opened CodeSpace
  import opened CanonicalCode
  import opened DerivedTables
  import opened BitReader
  import opened Coefficients

  const MAX_COEF_BITS := 10
  const EOB := 0
  const ZRL := 0xF0

  type Block = b: seq<int> | |b| == DCTSIZE2 witness seq(DCTSIZE2, _ => 0)

  /** One Huffman symbol of a table, or bits that are sent as they are. */
  datatype Token = Symbol(isDc: bool, tbl: nat, s: nat) | Raw(code: int, size: nat)

  /** Codes and sizes by symbol, as in c_derived_tbl. */
  datatype Table = Table(co: seq<int>, si: seq<int>)

  datatype Book = Book(dc: seq<Table>, ac: seq<Table>)

  ghost predicate ValidTable(t: Table)
  {
    |t.co| == |t.si| == 256 && forall s :: 0 <= s < 256 ==> 0 <= t.si[s] <= 16
  }

  ghost predicate ValidBook(book: Book)
  {
    && |book.dc| == |book.ac| == NUM_HUFF_TBLS
    && forall i :: 0 <= i < NUM_HUFF_TBLS ==> ValidTable(book.dc[i]) && ValidTable(book.ac[i])
  }

  function TableOf(book: Book, isDc: bool, tbl: nat): Table
    requires |book.dc| == |book.ac| == NUM_HUFF_TBLS && tbl < NUM_HUFF_TBLS
  {
    if isDc then book.dc[tbl] else book.ac[tbl]
  }

  /** The token can be sent: its symbol has a code, its size is not zero. */
  ghost predicate Coded(book: Book, t: Token)
    requires ValidBook(book)
  {
    match t
    case Symbol(isDc, tbl, s) => tbl < NUM_HUFF_TBLS && s < 256 && TableOf(book, isDc, tbl).si[s] != 0
    case Raw(_, size) => 1 <= size <= 16
  }

  ghost function TokenBits(book: Book, t: Token): Bits
    requires ValidBook(book) && Coded(book, t)
  {
    match t
    case Symbol(isDc, tbl, s) => var tab := TableOf(book, isDc, tbl); Low(tab.co[s], tab.si[s])
    case Raw(code, size) => Low(code, size)
  }

  ghost predicate AllCoded(book: Book, ts: seq<Token>)
    requires ValidBook(book)
  {
    forall i :: 0 <= i < |ts| ==> Coded(book, ts[i])
  }

  ghost function BitsOf(book: Book, ts: seq<Token>): Bits
    requires ValidBook(book) && AllCoded(book, ts)
  {
    if ts == [] then [] else TokenBits(book, ts[0]) + BitsOf(book, ts[1..])
  }

  lemma {:induction false} BitsOfAppend(book: Book, a: seq<Token>, b: seq<Token>)
    requires ValidBook(book)
    ensures AllCoded(book, a + b) <==> AllCoded(book, a) && AllCoded(book, b)
    ensures AllCoded(book, a + b) ==> BitsOf(book, a + b) == BitsOf(book, a) + BitsOf(book, b)
  {
    if a == [] {
      assert a + b == b;
    } else {
      assert (a + b)[0] == a[0] && (a + b)[1..] == a[1..] + b;
      BitsOfAppend(book, a[1..], b);
      if AllCoded(book, a + b) {
        var x, y, z := TokenBits(book, a[0]), BitsOf(book, a[1..]), BitsOf(book, b);
        assert x + (y + z) == (x + y) + z;
      }
      assert AllCoded(book, a) && AllCoded(book, b) ==> AllCoded(book, a + b) by {
        assert forall i :: 0 <= i < |a + b| ==> (a + b)[i] == if i < |a| then a[i] else b[i - |a|];
      }
      assert AllCoded(book, a + b) ==> AllCoded(book, a) && AllCoded(book, b) by {
        assert forall i :: 0 <= i < |a| ==> a[i] == (a + b)[i];
        assert forall i :: 0 <= i < |b| ==> b[i] == (a + b)[|a| + i];
      }
    }
  }

  // ----- Encoding -----

  function DcTokens(tbl: nat, diff: int): (ts: seq<Token>)
  {
    var n := Category(Abs(diff));
    [Symbol(true, tbl, n)] + if n != 0 then [Raw(Appended(diff), n)] else []
  }

  /** The AC part from zigzag position k on, when the last r coefficients before it were zero. */
  function AcTokens(tbl: nat, block: Block, k: nat, r: nat): (ts: seq<Token>)
    requires 1 <= k <= DCTSIZE2
    decreases DCTSIZE2 - k, r
  {
    if k == DCTSIZE2 then (if r > 0 then [Symbol(false, tbl, EOB)] else [])
    else
      var v := block[Natural(k)];
      if v == 0 then AcTokens(tbl, block, k + 1, r + 1)
      else if r > 15 then [Symbol(false, tbl, ZRL)] + AcTokens(tbl, block, k, r - 16)
      else
        var n := Category(Abs(v));
        [Symbol(false, tbl, 16 * r + n), Raw(Appended(v), n)] + AcTokens(tbl, block, k + 1, 0)
  }

  function BlockTokens(dcTbl: nat, acTbl: nat, block: Block, lastDc: int): seq<Token>
  {
    DcTokens(dcTbl, block[0] - lastDc) + AcTokens(acTbl, block, 1, 0)
  }

  /** The coefficients that the encoders accept for 8-bit samples. */
  ghost predicate InRangeFrom(block: Block, k: nat)
  {
    forall j :: k <= j < DCTSIZE2 ==> Category(Abs(block[Natural(j)])) <= MAX_COEF_BITS
  }

  ghost predicate BlockInRange(block: Block, lastDc: int)
  {
    Category(Abs(block[0] - lastDc)) <= MAX_COEF_BITS + 1 && InRangeFrom(block, 1)
  }

  /** The limits for 8-bit samples: DC differences of less than 2048 and AC coefficients of less than 1024, of either sign. */
  lemma CoefficientLimits(block: Block, lastDc: int)
    ensures BlockInRange(block, lastDc) <==>
              -2048 < block[0] - lastDc < 2048 && forall i :: 1 <= i < 64 ==> -1024 < block[i] < 1024
  {
    hide Natural, Zigzag, Category, Abs;
    TenBits();
    CategoryLimit(Abs(block[0] - lastDc), 11);
    AbsBelow(block[0] - lastDc, 2048);
    forall j | 1 <= j < 64
      ensures Category(Abs(block[Natural(j)])) <= 10 <==> -1024 < block[Natural(j)] < 1024
    {
      CategoryLimit(Abs(block[Natural(j)]), 10);
      AbsBelow(block[Natural(j)], 1024);
    }
    forall i | 1 <= i < 64
      ensures 1 <= Natural(i) && 1 <= Zigzag(i) && Natural(Zigzag(i)) == i
    {
      OrdersInverse(i);
      OrdersInverse(0);
      ZigzagStart();
    }
    if BlockInRange(block, lastDc) {
      forall i | 1 <= i < 64
        ensures -1024 < block[i] < 1024
      {
        assert Category(Abs(block[Natural(Zigzag(i))])) <= MAX_COEF_BITS;
      }
    }
  }

  lemma TenBits()
    ensures Pow2(10) == 1024 && Pow2(11) == 2048
  {
    Pow2Values();
    assert Pow2(9) == 512;
  }

  lemma AbsBelow(v: int, n: nat)
    ensures Abs(v) < n <==> 0 - n < v < n
  {
  }

  lemma ZigzagStart()
    ensures Natural(0) == 0 == Zigzag(0)
  {
  }

  // ----- Decoding -----

  datatype DecTable = DecTable(b: seq<int>, huffval: seq<int>)

  ghost predicate ValidDecTable(d: DecTable)
  {
    && LegalLengths(d.b) && |d.huffval| == 256
    && forall k :: 0 <= k < 256 ==> 0 <= d.huffval[k] < 256
  }

  /** JCOEF is 16 bits wide. */
  function ToShort(v: int): int
  {
    (v + 0x8000) % 0x1_0000 - 0x8000
  }

  /** What is stored is congruent to the value modulo 2^16. */
  lemma StoredModulo(v: int)
    ensures -0x8000 <= ToShort(v) < 0x8000 && (v - ToShort(v)) % 0x1_0000 == 0
  {
  }

  ghost function DecodeAc(d: DecTable, stream: Bits, at: nat, k: nat, block: Block): (r: (Block, nat))
    requires ValidDecTable(d)
    ensures r.1 >= at
    decreases DCTSIZE2 - k
  {
    if k >= DCTSIZE2 then (block, at)
    else
      var (sym, l) := DecodeSymbol(d.b, d.huffval, Tail(stream, at));
      SymbolIsByte(d, Tail(stream, at));
      var run, size := sym / 16, sym % 16;
      if size != 0 then
        var v := Extend(Peek(Tail(stream, at + l), size), size);
        DecodeAc(d, stream, at + l + size, k + run + 1, block[Natural(k + run) := v])
      else if run != 15 then (block, at + l)
      else DecodeAc(d, stream, at + l, k + 16, block)
  }

  lemma SymbolIsByte(d: DecTable, s: Bits)
    requires ValidDecTable(d)
    ensures 0 <= DecodeSymbol(d.b, d.huffval, s).0 < 256
  {
  }

  /** The DC difference at position at, and the position after it. */
  ghost function DecodeDc(d: DecTable, stream: Bits, at: nat): (r: (int, nat))
    requires ValidDecTable(d)
    ensures r.1 >= at
  {
    var (sym, l) := DecodeSymbol(d.b, d.huffval, Tail(stream, at));
    if 1 <= sym then (Extend(Peek(Tail(stream, at + l), sym), sym), at + l + sym) else (0, at + l)
  }

  function ZeroBlock(): (b: Block)
    ensures forall i :: 0 <= i < DCTSIZE2 ==> b[i] == 0
  {
    seq(DCTSIZE2, _ => 0)
  }

  // ----- Round trip of one block -----

  /** The decoder's table d was made from the same definition as the encoder's table t. */
  ghost predicate SameCode(t: Table, d: DecTable)
  {
    && ValidDecTable(d)
    && Count(d.b, MAX_LENGTH) >= 0 && Encodes(d.b, d.huffval, Count(d.b, MAX_LENGTH), t.co, t.si)
  }

  /** A symbol's code is decoded to the symbol, whatever follows. */
  lemma SymbolRoundTrip(t: Table, d: DecTable, s: nat, stream: Bits, rest: Bits)
    requires SameCode(t, d) && s < 256 && ValidTable(t) && t.si[s] != 0
    requires stream == Low(t.co[s], t.si[s]) + rest
    ensures DecodeSymbol(d.b, d.huffval, stream) == (s, t.si[s])
  {
    hide Word, Peek, StopLength, Count, SizeOf, CodeOf, Filled, ValOffset;
    var n := Count(d.b, MAX_LENGTH);
    var p :| 0 <= p < n && d.huffval[..n][p] == s;
    assert d.huffval[p] == s;
    CodeFits(d.b, p);
    QuotientIs(CodeOf(d.b, p), Pow2(t.si[s]), 0, CodeOf(d.b, p));
    PeekWord(CodeOf(d.b, p), t.si[s], rest);
    StopsAtCodeLength(d.b, p, stream);
  }

  /** Appended bits are decoded to the value. */
  lemma ValueRoundTrip(v: int, stream: Bits, rest: Bits)
    requires v != 0 && stream == Low(Appended(v), Category(Abs(v))) + rest
    ensures Category(Abs(v)) >= 1
    ensures Extend(Peek(stream, Category(Abs(v))), Category(Abs(v))) == v
  {
    hide Word, Peek, Value;
    var n := Category(Abs(v));
    ExtendInverts(v);
    PeekIsValue(stream, n);
    assert stream[..n] == Low(Appended(v), n);
  }

  /** The coefficients before zigzag position k, with zeros from there on. */
  function Upto(block: Block, k: nat): (r: Block)
  {
    seq(DCTSIZE2, i requires 0 <= i < DCTSIZE2 => if Zigzag(i) < k then block[i] else 0)
  }

  lemma UptoStep(block: Block, k: nat, m: nat)
    requires k <= m < DCTSIZE2
    requires forall j :: k <= j < m ==> block[Natural(j)] == 0
    ensures Upto(block, k)[Natural(m) := block[Natural(m)]] == Upto(block, m + 1)
    ensures Upto(block, k) == Upto(block, m)
  {
    hide Natural, Zigzag;
    forall i | 0 <= i < DCTSIZE2
      ensures Upto(block, k)[i] == Upto(block, m)[i]
      ensures Upto(block, k)[Natural(m) := block[Natural(m)]][i] == Upto(block, m + 1)[i]
    {
      OrdersInverse(i);
      OrdersInverse(m);
    }
  }

  lemma UptoZeros(block: Block, k: nat)
    requires k <= DCTSIZE2
    requires forall j :: k <= j < DCTSIZE2 ==> block[Natural(j)] == 0
    ensures Upto(block, k) == block
  {
    hide Natural, Zigzag;
    forall i | 0 <= i < DCTSIZE2
      ensures Upto(block, k)[i] == block[i]
    {
      OrdersInverse(i);
    }
  }

  /** Peeling the first token off a coded stream. */
  lemma FirstToken(book: Book, ts: seq<Token>, stream: Bits, at: nat, rest: Bits)
    requires ValidBook(book) && AllCoded(book, ts) && ts != []
    requires Tail(stream, at) == BitsOf(book, ts) + rest
    ensures AllCoded(book, ts[1..])
    ensures Tail(stream, at) == TokenBits(book, ts[0]) + (BitsOf(book, ts[1..]) + rest)
    ensures Tail(stream, at + |TokenBits(book, ts[0])|) == BitsOf(book, ts[1..]) + rest
    ensures |BitsOf(book, ts)| == |TokenBits(book, ts[0])| + |BitsOf(book, ts[1..])|
  {
    hide TokenBits, BitsOf;
    BitsOfFirst(book, ts);
    var x, y := TokenBits(book, ts[0]), BitsOf(book, ts[1..]);
    assert (x + y) + rest == x + (y + rest);
    TailTail(stream, at, |x|);
  }

  lemma BitsOfFirst(book: Book, ts: seq<Token>)
    requires ValidBook(book) && AllCoded(book, ts) && ts != []
    ensures AllCoded(book, ts[1..]) && BitsOf(book, ts) == TokenBits(book, ts[0]) + BitsOf(book, ts[1..])
  {
  }

  /** One symbol, decoded from the stream that was coded with it. */
  lemma FirstSymbol(book: Book, d: DecTable, isDc: bool, tbl: nat, s: nat, ts: seq<Token>, stream: Bits, at: nat, rest: Bits)
    requires ValidBook(book) && AllCoded(book, ts) && ts != [] && ts[0] == Symbol(isDc, tbl, s)
    requires tbl < NUM_HUFF_TBLS && SameCode(TableOf(book, isDc, tbl), d)
    requires Tail(stream, at) == BitsOf(book, ts) + rest
    ensures AllCoded(book, ts[1..])
    ensures var (sym, l) := DecodeSymbol(d.b, d.huffval, Tail(stream, at));
            sym == s && Tail(stream, at + l) == BitsOf(book, ts[1..]) + rest
            && |BitsOf(book, ts)| == l + |BitsOf(book, ts[1..])|
  {
    hide BitsOf, DecodeSymbol;
    assert Coded(book, ts[0]);
    FirstToken(book, ts, stream, at, rest);
    SymbolRoundTrip(TableOf(book, isDc, tbl), d, s, Tail(stream, at), BitsOf(book, ts[1..]) + rest);
  }

  /** The bits appended for a coefficient. */
  lemma FirstValue(book: Book, v: int, ts: seq<Token>, stream: Bits, at: nat, rest: Bits)
    requires ValidBook(book) && AllCoded(book, ts) && ts != [] && v != 0
    requires ts[0] == Raw(Appended(v), Category(Abs(v)))
    requires Tail(stream, at) == BitsOf(book, ts) + rest
    ensures AllCoded(book, ts[1..])
    ensures var n := Category(Abs(v));
            n >= 1 && Extend(Peek(Tail(stream, at), n), n) == v && Tail(stream, at + n) == BitsOf(book, ts[1..]) + rest
            && |BitsOf(book, ts)| == n + |BitsOf(book, ts[1..])|
  {
    hide BitsOf, Low, Peek, Extend, Category;
    FirstToken(book, ts, stream, at, rest);
    ValueRoundTrip(v, Tail(stream, at), BitsOf(book, ts[1..]) + rest);
  }

  /**
   The AC part comes back. The encoder is at position k with a run of r zeros behind it; the
   decoder, which has not heard of that run yet, is at position k - r.
   */
  lemma {:induction false} AcRoundTrip(book: Book, d: DecTable, tbl: nat, block: Block, k: nat, r: nat,
                                       stream: Bits, at: nat, rest: Bits)
    requires ValidBook(book) && tbl < NUM_HUFF_TBLS && SameCode(TableOf(book, false, tbl), d)
    requires 1 <= k <= DCTSIZE2 && r < k && InRangeFrom(block, k)
    requires forall j :: k - r <= j < k ==> block[Natural(j)] == 0
    requires AllCoded(book, AcTokens(tbl, block, k, r))
    requires Tail(stream, at) == BitsOf(book, AcTokens(tbl, block, k, r)) + rest
    ensures DecodeAc(d, stream, at, k - r, Upto(block, k - r)) == (block, at + |BitsOf(book, AcTokens(tbl, block, k, r))|)
    decreases DCTSIZE2 - k, r
  {
    hide BitsOf, DecodeAc, Natural, Upto, AcTokens, SameCode, AllCoded, Category, ValidBook, TokenBits, ValidDecTable, Tail, TableOf;
    if k == DCTSIZE2 {
      AcEnd(book, d, tbl, block, r, stream, at, rest);
    } else if block[Natural(k)] == 0 {
      AcZero(tbl, block, k, r);
      AcRoundTrip(book, d, tbl, block, k + 1, r + 1, stream, at, rest);
    } else if r > 15 {
      var l := AcZrl(book, d, tbl, block, k, r, stream, at, rest);
      AcRoundTrip(book, d, tbl, block, k, r - 16, stream, at + l, rest);
    } else {
      var n := Category(Abs(block[Natural(k)]));
      var l := AcValue(book, d, tbl, block, k, r, stream, at, rest);
      AcRoundTrip(book, d, tbl, block, k + 1, 0, stream, at + l + n, rest);
    }
  }

  lemma AcZero(tbl: nat, block: Block, k: nat, r: nat)
    requires 1 <= k < DCTSIZE2 && block[Natural(k)] == 0
    ensures AcTokens(tbl, block, k, r) == AcTokens(tbl, block, k + 1, r + 1)
  {
  }

  lemma AcLong(tbl: nat, block: Block, k: nat, r: nat)
    requires 1 <= k < DCTSIZE2 && block[Natural(k)] != 0 && r > 15
    ensures AcTokens(tbl, block, k, r) == [Symbol(false, tbl, 0xF0)] + AcTokens(tbl, block, k, r - 16)
  {
  }

  lemma AcShort(tbl: nat, block: Block, k: nat, r: nat)
    requires 1 <= k < DCTSIZE2 && block[Natural(k)] != 0 && r <= 15
    ensures var v := block[Natural(k)];
            var n := Category(Abs(v));
            AcTokens(tbl, block, k, r) == [Symbol(false, tbl, 16 * r + n)] + ([Raw(Appended(v), n)] + AcTokens(tbl, block, k + 1, 0))
  {
  }

  lemma AcLast(tbl: nat, block: Block, r: nat)
    ensures AcTokens(tbl, block, 64, r) == if r > 0 then [Symbol(false, tbl, 0)] + [] else []
  {
  }

  /** At the end of the block. */
  lemma AcEnd(book: Book, d: DecTable, tbl: nat, block: Block, r: nat, stream: Bits, at: nat, rest: Bits)
    requires ValidBook(book) && tbl < NUM_HUFF_TBLS && SameCode(TableOf(book, false, tbl), d)
    requires r < DCTSIZE2 && forall j :: DCTSIZE2 - r <= j < DCTSIZE2 ==> block[Natural(j)] == 0
    requires AllCoded(book, AcTokens(tbl, block, DCTSIZE2, r))
    requires Tail(stream, at) == BitsOf(book, AcTokens(tbl, block, DCTSIZE2, r)) + rest
    ensures DecodeAc(d, stream, at, DCTSIZE2 - r, Upto(block, DCTSIZE2 - r)) == (block, at + |BitsOf(book, AcTokens(tbl, block, DCTSIZE2, r))|)
  {
    hide BitsOf, DecodeSymbol, DecodeAc, Natural, Upto, Encodes, Count, Filled;
    var ts := AcTokens(tbl, block, DCTSIZE2, r);
    UptoZeros(block, DCTSIZE2 - r);
    if r > 0 {
      FirstSymbol(book, d, false, tbl, EOB, ts, stream, at, rest);
      NoBits(book, ts[1..]);
      DecodeNoValue(d, stream, at, DCTSIZE2 - r, Upto(block, DCTSIZE2 - r));
    } else {
      NoBits(book, ts);
      DecodeEnd(d, stream, at, DCTSIZE2, Upto(block, DCTSIZE2));
    }
  }

  /** A run of 16 zeros that the encoder has announced. */
  lemma AcZrl(book: Book, d: DecTable, tbl: nat, block: Block, k: nat, r: nat, stream: Bits, at: nat, rest: Bits) returns (l: nat)
    requires ValidBook(book) && tbl < NUM_HUFF_TBLS && SameCode(TableOf(book, false, tbl), d)
    requires 1 <= k < DCTSIZE2 && 15 < r < k && block[Natural(k)] != 0
    requires forall j :: k - r <= j < k ==> block[Natural(j)] == 0
    requires AllCoded(book, AcTokens(tbl, block, k, r))
    requires Tail(stream, at) == BitsOf(book, AcTokens(tbl, block, k, r)) + rest
    ensures var tail := AcTokens(tbl, block, k, r - 16);
            && AllCoded(book, tail) && Tail(stream, at + l) == BitsOf(book, tail) + rest
            && |BitsOf(book, AcTokens(tbl, block, k, r))| == l + |BitsOf(book, tail)|
            && DecodeAc(d, stream, at, k - r, Upto(block, k - r)) == DecodeAc(d, stream, at + l, k - r + 16, Upto(block, k - r + 16))
  {
    hide BitsOf, DecodeSymbol, DecodeAc, Natural, Zigzag, TokenBits, Upto, Encodes, Count, Filled, AcTokens;
    var ts := AcTokens(tbl, block, k, r);
    l := DecodeSymbol(d.b, d.huffval, Tail(stream, at)).1;
    AcLong(tbl, block, k, r);
    assert ts[1..] == AcTokens(tbl, block, k, r - 16);
    FirstSymbol(book, d, false, tbl, ZRL, ts, stream, at, rest);
    UptoStep(block, k - r, k - r + 16);
    DecodeNoValue(d, stream, at, k - r, Upto(block, k - r));
  }

  /** A coefficient after a run of at most 15 zeros. */
  lemma AcValue(book: Book, d: DecTable, tbl: nat, block: Block, k: nat, r: nat, stream: Bits, at: nat, rest: Bits) returns (l: nat)
    requires ValidBook(book) && tbl < NUM_HUFF_TBLS && SameCode(TableOf(book, false, tbl), d)
    requires 1 <= k < DCTSIZE2 && r < k && r <= 15 && block[Natural(k)] != 0 && InRangeFrom(block, k)
    requires forall j :: k - r <= j < k ==> block[Natural(j)] == 0
    requires AllCoded(book, AcTokens(tbl, block, k, r))
    requires Tail(stream, at) == BitsOf(book, AcTokens(tbl, block, k, r)) + rest
    ensures var n := Category(Abs(block[Natural(k)]));
            var tail := AcTokens(tbl, block, k + 1, 0);
            && AllCoded(book, tail) && Tail(stream, at + l + n) == BitsOf(book, tail) + rest
            && |BitsOf(book, AcTokens(tbl, block, k, r))| == l + n + |BitsOf(book, tail)|
            && DecodeAc(d, stream, at, k - r, Upto(block, k - r)) == DecodeAc(d, stream, at + l + n, k + 1, Upto(block, k + 1))
  {
    hide BitsOf, DecodeSymbol, DecodeAc, Natural, Zigzag, TokenBits, Upto, Peek, Extend, Low, Encodes, Count, Filled, Category, AcTokens;
    var ts := AcTokens(tbl, block, k, r);
    var v := block[Natural(k)];
    var n := Category(Abs(v));
    l := DecodeSymbol(d.b, d.huffval, Tail(stream, at)).1;
    AcShort(tbl, block, k, r);
    assert ts[1..][1..] == AcTokens(tbl, block, k + 1, 0);
    FirstSymbol(book, d, false, tbl, 16 * r + n, ts, stream, at, rest);
    FirstValue(book, v, ts[1..], stream, at + l, rest);
    UptoStep(block, k - r, k);
    DecodeValue(d, stream, at, k - r, Upto(block, k - r), r, n);
  }

  lemma DecodeEnd(d: DecTable, stream: Bits, at: nat, k: nat, block: Block)
    requires ValidDecTable(d) && k >= DCTSIZE2
    ensures DecodeAc(d, stream, at, k, block) == (block, at)
  {
  }

  lemma DecodeNoValue(d: DecTable, stream: Bits, at: nat, k: nat, block: Block)
    requires ValidDecTable(d) && k < DCTSIZE2
    ensures var (sym, l) := DecodeSymbol(d.b, d.huffval, Tail(stream, at));
            && (sym % 16 == 0 && sym != 0xF0 ==> DecodeAc(d, stream, at, k, block) == (block, at + l))
            && (sym == 0xF0 ==> DecodeAc(d, stream, at, k, block) == DecodeAc(d, stream, at + l, k + 16, block))
  {
  }

  lemma DecodeValue(d: DecTable, stream: Bits, at: nat, k: nat, block: Block, r: nat, n: nat)
    requires ValidDecTable(d) && k < DCTSIZE2 && r <= 15 && 1 <= n <= 15
    requires DecodeSymbol(d.b, d.huffval, Tail(stream, at)).0 == 16 * r + n
    ensures var l := DecodeSymbol(d.b, d.huffval, Tail(stream, at)).1;
            var v := Extend(Peek(Tail(stream, at + l), n), n);
            DecodeAc(d, stream, at, k, block) == DecodeAc(d, stream, at + l + n, k + r + 1, block[Natural(k + r) := v])
  {
    hide DecodeSymbol, Peek, Extend, Natural, Count, Filled;
    Nibbles(r, n);
  }

  lemma Nibbles(r: nat, n: nat)
    requires n <= 15
    ensures (16 * r + n) / 16 == r && (16 * r + n) % 16 == n
  {
  }

  lemma CategoryZero(v: int)
    ensures Category(Abs(v)) == 0 <==> v == 0
  {
  }

  lemma NoBits(book: Book, ts: seq<Token>)
    requires ValidBook(book) && ts == []
    ensures AllCoded(book, ts) && BitsOf(book, ts) == []
  {
  }

  /** The DC difference comes back. */
  lemma DcRoundTrip(book: Book, d: DecTable, tbl: nat, diff: int, ts: seq<Token>, stream: Bits, at: nat, rest: Bits)
    requires ValidBook(book) && tbl < NUM_HUFF_TBLS && SameCode(TableOf(book, true, tbl), d)
    requires AllCoded(book, DcTokens(tbl, diff) + ts)
    requires Tail(stream, at) == BitsOf(book, DcTokens(tbl, diff) + ts) + rest
    ensures AllCoded(book, ts)
    ensures var (v, at') := DecodeDc(d, stream, at);
            v == diff && Tail(stream, at') == BitsOf(book, ts) + rest
            && at' + |BitsOf(book, ts)| == at + |BitsOf(book, DcTokens(tbl, diff) + ts)|
  {
    hide BitsOf, DecodeSymbol, TokenBits, Peek, Extend, Low, Encodes, Count, Filled, Category, DcTokens, ValidBook, AllCoded, Appended;
    var all := DcTokens(tbl, diff) + ts;
    var n := Category(Abs(diff));
    DcTokensParts(tbl, diff, ts);
    FirstSymbol(book, d, true, tbl, n, all, stream, at, rest);
    var (sym, l) := DecodeSymbol(d.b, d.huffval, Tail(stream, at));
    CategoryZero(diff);
    if n != 0 {
      FirstValue(book, diff, all[1..], stream, at + l, rest);
    }
  }

  lemma DcTokensParts(tbl: nat, diff: int, ts: seq<Token>)
    ensures var n, all := Category(Abs(diff)), DcTokens(tbl, diff) + ts;
            && all != [] && all[0] == Symbol(true, tbl, n)
            && (n == 0 ==> all[1..] == ts)
            && (n != 0 ==> all[1..] != [] && all[1..][0] == Raw(Appended(diff), n) && all[1..][1..] == ts)
  {
    hide Category, Appended;
  }
}
