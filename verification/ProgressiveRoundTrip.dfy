/**
 From the bytes of a progressive AC scan back to its coefficients: the bits that the tokens of a
 scan are written as decode to what replaying the tokens gives.
 */
module ProgressiveRoundTrip {
  import opened JpegLimits
  import opened Arith
  import opened BitString
  import opened ByteStream
  import opened BitWriter
  import opened CodeSpace
  import opened CanonicalCode
  import opened DerivedTables
  import opened BitReader
  import opened Coefficients
  import opened BlockCoding
  import opened ScanCoding
  import opened ScanDecoding
  import opened SequentialRoundTrip
  import opened ProgressiveCoding
  import opened ProgressiveReplay
  import opened ProgressiveDecoding

  // ----- Tokens and bits -----

  /** From position at to position end, the stream is made of these tokens; rest follows. */
  ghost predicate Coming(book: Book, ts: seq<Token>, stream: Bits, at: nat, rest: Bits, end: nat)
  {
    && ValidBook(book) && AllCoded(book, ts)
    && Tail(stream, at) == BitsOf(book, ts) + rest && at + |BitsOf(book, ts)| == end
  }

  /** The decoder's table is the encoder's table of the band. */
  ghost predicate SameBand(book: Book, d: DecTable, band: Band)
  {
    ValidBook(book) && ValidBand(band) && band.tbl < NUM_HUFF_TBLS && SameCode(book.ac[band.tbl], d)
  }

  /** A symbol of the band is decoded. */
  lemma SymbolComes(book: Book, d: DecTable, band: Band, ts: seq<Token>, stream: Bits, at: nat, rest: Bits, end: nat)
    requires SameBand(book, d, band) && Coming(book, ts, stream, at, rest, end) && SymbolNext(band, ts)
    ensures var (sym, l) := DecodeSymbol(d.b, d.huffval, Tail(stream, at));
            sym == ts[0].s && Coming(book, ts[1..], stream, at + l, rest, end)
  {
    hide BitsOf, DecodeSymbol, AllCoded, ValidBook, Encodes, Count, Filled;
    FirstSymbol(book, d, false, band.tbl, ts[0].s, ts, stream, at, rest);
  }

  /** Bits that are sent as they are. */
  lemma BitsCome(book: Book, ts: seq<Token>, n: nat, stream: Bits, at: nat, rest: Bits, end: nat)
    requires Coming(book, ts, stream, at, rest, end) && ts != [] && ts[0].Raw? && ts[0].size == n
    ensures n > 0 && Drop(ts, n) == ts[1..]
    ensures Peek(Tail(stream, at), n) == RawBits(ts, n) && Coming(book, ts[1..], stream, at + n, rest, end)
  {
    hide BitsOf, Peek, Word, ValidBook, Pow2;
    assert Coded(book, ts[0]);
    FirstToken(book, ts, stream, at, rest);
    assert TokenBits(book, ts[0]) == Low(ts[0].code, n);
    PeekWord(ts[0].code % Pow2(n), n, BitsOf(book, ts[1..]) + rest);
  }

  lemma {:induction false} BrokenSkip(band: Band, k: nat, r: nat, block: Block)
    requires band.se < DCTSIZE2
    ensures SkipZeros(band, Broken(), k, r, block).0 == Broken()
    decreases band.se + 1 - k
  {
    hide SkipZeros, Natural, Corrected;
    if k <= band.se {
      SkipOne(band, Broken(), k, r, block);
      BrokenSkip(band, k + 1, r, block[Natural(k) := Corrected(block[Natural(k)], RawBits(Broken(), 1), band.al)]);
      if r > 0 {
        BrokenSkip(band, k + 1, r - 1, block);
      }
    } else {
      SkipNone(band, Broken(), k, r, block);
    }
  }

  lemma SkipNone(band: Band, ts: seq<Token>, k: nat, r: nat, block: Block)
    requires band.se < DCTSIZE2 && k > band.se
    ensures SkipZeros(band, ts, k, r, block) == (ts, k, block)
    ensures CorrectRest(band, ts, k, block) == (ts, block)
  {
  }

  lemma {:induction false} BrokenCorrect(band: Band, k: nat, block: Block)
    requires band.se < DCTSIZE2
    ensures CorrectRest(band, Broken(), k, block).0 == Broken()
    decreases band.se + 1 - k
  {
    hide CorrectRest, Natural, Corrected;
    if k <= band.se {
      CorrectOne(band, Broken(), k, block);
      BrokenCorrect(band, k + 1, block[Natural(k) := Corrected(block[Natural(k)], RawBits(Broken(), 1), band.al)]);
      BrokenCorrect(band, k + 1, block);
    } else {
      SkipNone(band, Broken(), k, 0, block);
    }
  }

  lemma BrokenBlock(band: Band, k: nat, block: Block)
    requires band.se < DCTSIZE2
    ensures ReplayFirst(band, Broken(), k, block).rest == Broken()
    ensures ReplayRefine(band, Broken(), k, block).rest == Broken()
  {
    hide Natural, CorrectRest, SkipZeros;
  }

  // ----- What replaying leaves alone -----

  lemma {:induction false} ReplaySkipKeeps(band: Band, ts: seq<Token>, k: nat, r: nat, b: Block, x: nat)
    requires k <= band.se + 1 <= DCTSIZE2 && x < DCTSIZE2
    ensures var (_, k', b') := SkipZeros(band, ts, k, r, b);
            && (Zigzag(x) < k || Zigzag(x) >= k' ==> b'[x] == b[x]) && (k' <= band.se ==> b'[Natural(k')] == 0)
    decreases band.se + 1 - k
  {
    hide SkipZeros, Natural, Zigzag, Corrected, RawBits, Drop;
    if k > band.se {
      SkipNone(band, ts, k, r, b);
    } else {
      var i := Natural(k);
      SkipOne(band, ts, k, r, b);
      OrdersInverse(k);
      ReplaySkipKeeps(band, Drop(ts, 1), k + 1, r, b[i := Corrected(b[i], RawBits(ts, 1), band.al)], x);
      if r > 0 {
        ReplaySkipKeeps(band, ts, k + 1, r - 1, b, x);
      }
    }
  }

  lemma {:induction false} ReplayCorrectKeeps(band: Band, ts: seq<Token>, k: nat, b: Block, x: nat)
    requires k <= band.se + 1 <= DCTSIZE2 && x < DCTSIZE2 && Zigzag(x) < k
    ensures CorrectRest(band, ts, k, b).1[x] == b[x]
    decreases band.se + 1 - k
  {
    hide CorrectRest, Natural, Zigzag, Corrected, RawBits, Drop;
    if k > band.se {
      SkipNone(band, ts, k, 0, b);
    } else {
      var i := Natural(k);
      CorrectOne(band, ts, k, b);
      OrdersInverse(k);
      ReplayCorrectKeeps(band, Drop(ts, 1), k + 1, b[i := Corrected(b[i], RawBits(ts, 1), band.al)], x);
      ReplayCorrectKeeps(band, ts, k + 1, b, x);
    }
  }

  lemma {:induction false} ReplayRefineKeeps(band: Band, ts: seq<Token>, k: nat, b: Block, x: nat)
    requires k <= band.se + 2 <= DCTSIZE2 + 1 && x < DCTSIZE2 && Zigzag(x) < k
    ensures ReplayRefine(band, ts, k, b).block[x] == b[x]
    decreases band.se + 2 - k
  {
    hide ReplayRefine, SkipZeros, CorrectRest, Natural, Zigzag, Pow2, RawBits, Drop, RunOf;
    if k > band.se {
      RefineEnd(band, ts, k, b);
    } else {
      RefineStep(band, ts, k, b);
      if SymbolNext(band, ts) {
        var r, n := ts[0].s / 16, ts[0].s % 16;
        var v := if RawBits(ts[1..], 1) == 1 then Pow2(band.al) else 0 - Pow2(band.al);
        if n != 0 {
          var (rest, at, c) := SkipZeros(band, Drop(ts[1..], 1), k, r, b);
          ReplaySkipKeeps(band, Drop(ts[1..], 1), k, r, b, x);
          if at <= band.se {
            OrdersInverse(at);
            ReplayRefineKeeps(band, rest, at + 1, c[Natural(at) := v], x);
          }
        } else if r == 15 {
          var (rest, at, c) := SkipZeros(band, ts[1..], k, 15, b);
          ReplaySkipKeeps(band, ts[1..], k, 15, b, x);
          ReplayRefineKeeps(band, rest, at + 1, c, x);
        } else {
          ReplayCorrectKeeps(band, RunOf(ts[1..], r).1, k, b, x);
        }
      }
    }
  }

  lemma {:induction false} ReplayFirstKeeps(band: Band, ts: seq<Token>, k: nat, b: Block, x: nat)
    requires band.se < DCTSIZE2 && x < DCTSIZE2 && Zigzag(x) < k
    ensures ReplayFirst(band, ts, k, b).block[x] == b[x]
    decreases band.se + 1 - k
  {
    hide ReplayFirst, Natural, Zigzag, Pow2, RawBits, Drop, RunOf, Extend;
    if k > band.se {
      FirstEnd(band, ts, k, b);
    } else {
      FirstStep(band, ts, k, b);
      if SymbolNext(band, ts) {
        var r, n := ts[0].s / 16, ts[0].s % 16;
        if n != 0 {
          if k + r <= band.se {
            OrdersInverse(k + r);
            ReplayFirstKeeps(band, Drop(ts[1..], n), k + r + 1, b[Natural(k + r) := Extend(RawBits(ts[1..], n), n) * Pow2(band.al)], x);
          }
        } else if r == 15 {
          ReplayFirstKeeps(band, ts[1..], k + 16, b, x);
        }
      }
    }
  }

  // ----- Decoding does what replaying does -----

  lemma StoredIs(v: int, bit: nat, al: nat)
    requires -0x8000 <= Corrected(v, bit, al) < 0x8000
    ensures Stored(v, bit, al) == Corrected(v, bit, al)
  {
    hide Corrected;
    ShortIs(Corrected(v, bit, al));
  }

  lemma {:induction false} SkipComes(book: Book, band: Band, ts: seq<Token>, k: nat, r: nat, b: Block, stream: Bits, at: nat, rest: Bits, end: nat)
    requires ValidBand(band) && k <= band.se + 1 && Coming(book, ts, stream, at, rest, end)
    requires var x := SkipZeros(band, ts, k, r, b); x.0 != Broken() && ShortBlock(x.2)
    ensures var (ts', k', b') := SkipZeros(band, ts, k, r, b);
            var (at', k'', b'') := SkipTo(band, stream, at, k, r, b);
            k'' == k' && b'' == b' && Coming(book, ts', stream, at', rest, end)
    decreases band.se + 1 - k
  {
    hide SkipZeros, SkipTo, Natural, Zigzag, Corrected, Stored, RawBits, Coming, AllCoded, ValidBook, Peek;
    if k > band.se {
      SkipNone(band, ts, k, r, b);
      SkipOver(band, stream, at, k, r, b);
    } else {
      var i := Natural(k);
      SkipOne(band, ts, k, r, b);
      SkipOnce(band, stream, at, k, r, b);
      if b[i] != 0 {
        var w := Corrected(b[i], RawBits(ts, 1), band.al);
        if Drop(ts, 1) == Broken() {
          BrokenSkip(band, k + 1, r, b[i := w]);
              } else {
          OneBitComes(book, ts, stream, at, rest, end);
          OrdersInverse(k);
          ReplaySkipKeeps(band, Drop(ts, 1), k + 1, r, b[i := w], i);
          StoredIs(b[i], RawBits(ts, 1), band.al);
          SkipComes(book, band, Drop(ts, 1), k + 1, r, b[i := w], stream, at + 1, rest, end);
        }
      } else if r > 0 {
        SkipComes(book, band, ts, k + 1, r - 1, b, stream, at, rest, end);
      }
    }
  }

  /** A single bit, unless something else comes next. */
  lemma OneBitComes(book: Book, ts: seq<Token>, stream: Bits, at: nat, rest: Bits, end: nat)
    requires Coming(book, ts, stream, at, rest, end) && Drop(ts, 1) != Broken()
    ensures Peek(Tail(stream, at), 1) == RawBits(ts, 1) && Coming(book, Drop(ts, 1), stream, at + 1, rest, end)
  {
    hide Coming, RawBits, Peek;
    BitsCome(book, ts, 1, stream, at, rest, end);
  }

  lemma {:induction false} CorrectComes(book: Book, band: Band, ts: seq<Token>, k: nat, b: Block, stream: Bits, at: nat, rest: Bits, end: nat)
    requires ValidBand(band) && k <= band.se + 1 && Coming(book, ts, stream, at, rest, end)
    requires var x := CorrectRest(band, ts, k, b); x.0 != Broken() && ShortBlock(x.1)
    ensures var (ts', b') := CorrectRest(band, ts, k, b);
            var (at', b'') := CorrectTo(band, stream, at, k, b);
            b'' == b' && Coming(book, ts', stream, at', rest, end)
    decreases band.se + 1 - k
  {
    hide CorrectRest, CorrectTo, Natural, Zigzag, Corrected, Stored, RawBits, Coming, AllCoded, ValidBook, Peek;
    if k > band.se {
      SkipNone(band, ts, k, 0, b);
      SkipOver(band, stream, at, k, 0, b);
    } else {
      var i := Natural(k);
      CorrectOne(band, ts, k, b);
      CorrectOnce(band, stream, at, k, b);
      if b[i] != 0 {
        var w := Corrected(b[i], RawBits(ts, 1), band.al);
        if Drop(ts, 1) == Broken() {
          BrokenCorrect(band, k + 1, b[i := w]);
              } else {
          OneBitComes(book, ts, stream, at, rest, end);
          OrdersInverse(k);
          ReplayCorrectKeeps(band, Drop(ts, 1), k + 1, b[i := w], i);
          StoredIs(b[i], RawBits(ts, 1), band.al);
          CorrectComes(book, band, Drop(ts, 1), k + 1, b[i := w], stream, at + 1, rest, end);
        }
      } else {
        CorrectComes(book, band, ts, k + 1, b, stream, at, rest, end);
      }
    }
  }

  /** The length of an end-of-band run. */
  lemma RunComes(book: Book, ts: seq<Token>, n: nat, stream: Bits, at: nat, rest: Bits, end: nat)
    requires Coming(book, ts, stream, at, rest, end) && RunOf(ts, n).1 != Broken()
    ensures RunOf(ts, n).0 == Pow2(n) + Peek(Tail(stream, at), n) && Coming(book, RunOf(ts, n).1, stream, at + n, rest, end)
  {
    hide Coming, RawBits;
    if n > 0 {
      hide Peek;
      BitsCome(book, ts, n, stream, at, rest, end);
    } else {
      Pow2Values();
    }
  }

  /** A block of a first scan. */
  lemma {:induction false} FirstComes(book: Book, d: DecTable, band: Band, ts: seq<Token>, k: nat, b: Block,
                                      stream: Bits, at: nat, rest: Bits, end: nat)
    requires SameBand(book, d, band) && Coming(book, ts, stream, at, rest, end)
    requires var x := ReplayFirst(band, ts, k, b); x.rest != Broken() && ShortBlock(x.block)
    ensures var x, y := ReplayFirst(band, ts, k, b), DecodeFirst(d, band, stream, at, k, b);
            y.block == x.block && y.run == x.run && Coming(book, x.rest, stream, y.at, rest, end)
    decreases band.se + 1 - k
  {
    hide ReplayFirst, DecodeFirst, Natural, Zigzag, RawBits, Coming, AllCoded, Peek, ValidBook, DecodeSymbol, RunOf;
    hide Extend, Pow2, ToShort, Count, Filled, Encodes, Broken;
    if k > band.se {
      FirstEnd(band, ts, k, b);
      FirstOver(d, band, stream, at, k, b);
    } else {
      FirstStep(band, ts, k, b);
      FirstOnce(d, band, stream, at, k, b);
      SymbolComes(book, d, band, ts, stream, at, rest, end);
      var r, n, l := ts[0].s / 16, ts[0].s % 16, DecodeSymbol(d.b, d.huffval, Tail(stream, at)).1;
      if n != 0 {
        FirstValueComes(book, d, band, ts, k, b, stream, at + l, rest, end);
        FirstComes(book, d, band, Drop(ts[1..], n), k + r + 1, b[Natural(k + r) := Extend(RawBits(ts[1..], n), n) * Pow2(band.al)],
                   stream, at + l + n, rest, end);
      } else if r == 15 {
        FirstComes(book, d, band, ts[1..], k + 16, b, stream, at + l, rest, end);
      } else {
        RunComes(book, ts[1..], r, stream, at + l, rest, end);
      }
    }
  }

  /** The value of a coefficient, which fits 16 bits because the whole block does. */
  lemma FirstValueComes(book: Book, d: DecTable, band: Band, ts: seq<Token>, k: nat, b: Block, stream: Bits, at: nat, rest: Bits, end: nat)
    requires SameBand(book, d, band) && k <= band.se && SymbolNext(band, ts) && ts[0].s % 16 != 0
    requires Coming(book, ts[1..], stream, at, rest, end)
    requires var x := ReplayFirst(band, ts, k, b); x.rest != Broken() && ShortBlock(x.block)
    ensures var r, n := ts[0].s / 16, ts[0].s % 16;
            var v := Extend(RawBits(ts[1..], n), n) * Pow2(band.al);
            && k + r <= band.se && Coming(book, Drop(ts[1..], n), stream, at + n, rest, end)
            && ToShort(Extend(Peek(Tail(stream, at), n), n) * Pow2(band.al)) == v
  {
    hide ReplayFirst, Natural, Zigzag, RawBits, Coming, AllCoded, Peek, ValidBook, Extend, Pow2, ToShort, Count, Filled, Encodes;
    var r, n := ts[0].s / 16, ts[0].s % 16;
    var v := Extend(RawBits(ts[1..], n), n) * Pow2(band.al);
    FirstStep(band, ts, k, b);
    assert k + r <= band.se;
    if Drop(ts[1..], n) == Broken() {
      BrokenBlock(band, k + r + 1, b[Natural(k + r) := v]);
    } else {
      BitsCome(book, ts[1..], n, stream, at, rest, end);
      OrdersInverse(k + r);
      ReplayFirstKeeps(band, Drop(ts[1..], n), k + r + 1, b[Natural(k + r) := v], Natural(k + r));
      ShortIs(v);
    }
  }

  /** A block of a refinement scan. */
  lemma {:induction false} RefineComes(book: Book, d: DecTable, band: Band, ts: seq<Token>, k: nat, b: Block,
                                       stream: Bits, at: nat, rest: Bits, end: nat)
    requires SameBand(book, d, band) && Coming(book, ts, stream, at, rest, end) && k <= band.se + 2 && ShortBlock(b)
    requires var x := ReplayRefine(band, ts, k, b); x.rest != Broken() && ShortBlock(x.block)
    ensures var x, y := ReplayRefine(band, ts, k, b), DecodeRefine(d, band, stream, at, k, b);
            y.block == x.block && y.run == x.run && Coming(book, x.rest, stream, y.at, rest, end)
    decreases band.se + 2 - k, 0
  {
    hide ReplayRefine, DecodeRefine, Natural, Zigzag, RawBits, Coming, AllCoded, Peek, ValidBook, DecodeSymbol, RunOf;
    hide Pow2, Count, Filled, Encodes;
    hide SkipZeros, CorrectRest, CorrectTo, SkipTo, AfterSymbol, Broken;
    if k > band.se {
      RefineEnd(band, ts, k, b);
      RefineOver(d, band, stream, at, k, b);
    } else {
      RefineStep(band, ts, k, b);
      RefineOnce(d, band, stream, at, k, b);
      SymbolComes(book, d, band, ts, stream, at, rest, end);
      var r, n, l := ts[0].s / 16, ts[0].s % 16, DecodeSymbol(d.b, d.huffval, Tail(stream, at)).1;
      if n != 0 {
        NewComes(book, d, band, ts, k, b, stream, at + l, rest, end);
      } else if r == 15 {
        SymbolEnds(book, d, band, ts[1..], k, 15, 0, b, stream, at + l, rest, end);
      } else {
        var ts' := RunOf(ts[1..], r).1;
        if ts' == Broken() {
          BrokenCorrect(band, k, b);
        } else {
          RunComes(book, ts[1..], r, stream, at + l, rest, end);
          CorrectComes(book, band, ts', k, b, stream, at + l + r, rest, end);
        }
      }
    }
  }

  /** A newly nonzero coefficient: its sign, then the zeros before it. */
  lemma {:induction false} NewComes(book: Book, d: DecTable, band: Band, ts: seq<Token>, k: nat, b: Block,
                                    stream: Bits, at: nat, rest: Bits, end: nat)
    requires SameBand(book, d, band) && k <= band.se && SymbolNext(band, ts) && ts[0].s % 16 != 0 && ShortBlock(b)
    requires Coming(book, ts[1..], stream, at, rest, end)
    requires var x := ReplayRefine(band, ts, k, b); x.rest != Broken() && ShortBlock(x.block)
    ensures var s := if Peek(Tail(stream, at), 1) == 1 then Pow2(band.al) else 0 - Pow2(band.al);
            var x, y := ReplayRefine(band, ts, k, b), AfterSymbol(d, band, stream, at + 1, k, ts[0].s / 16, s, b);
            y.block == x.block && y.run == x.run && Coming(book, x.rest, stream, y.at, rest, end)
    decreases band.se + 1 - k, 2
  {
    hide ReplayRefine, Natural, Zigzag, RawBits, Coming, AllCoded, Peek, ValidBook, RunOf, Pow2, Count, Filled, Encodes;
    hide SkipZeros, CorrectRest, SkipTo, AfterSymbol;
    var r := ts[0].s / 16;
    var s := if RawBits(ts[1..], 1) == 1 then Pow2(band.al) else 0 - Pow2(band.al);
    RefineStep(band, ts, k, b);
    var (ts', k', c) := SkipZeros(band, Drop(ts[1..], 1), k, r, b);
    assert k' <= band.se;
    if Drop(ts[1..], 1) == Broken() {
      BrokenSkip(band, k, r, b);
      BrokenBlock(band, k' + 1, c[Natural(k') := s]);
    } else {
      OneBitComes(book, ts[1..], stream, at, rest, end);
      SymbolEnds(book, d, band, Drop(ts[1..], 1), k, r, s, b, stream, at + 1, rest, end);
    }
  }

  /** What follows a symbol and its bit. */
  lemma {:induction false} SymbolEnds(book: Book, d: DecTable, band: Band, ts: seq<Token>, k: nat, r: nat, s: int, b: Block,
                                      stream: Bits, at: nat, rest: Bits, end: nat)
    requires SameBand(book, d, band) && Coming(book, ts, stream, at, rest, end) && k <= band.se && ShortBlock(b)
    requires var (ts', k', c) := SkipZeros(band, ts, k, r, b);
             var x := ReplayRefine(band, ts', k' + 1, if s != 0 then c[Natural(k') := s] else c);
             (s != 0 ==> k' <= band.se) && x.rest != Broken() && ShortBlock(x.block)
    ensures var (ts', k', c) := SkipZeros(band, ts, k, r, b);
            var x := ReplayRefine(band, ts', k' + 1, if s != 0 then c[Natural(k') := s] else c);
            var y := AfterSymbol(d, band, stream, at, k, r, s, b);
            y.block == x.block && y.run == x.run && Coming(book, x.rest, stream, y.at, rest, end)
    decreases band.se + 1 - k, 1
  {
    hide ReplayRefine, DecodeRefine, Natural, Zigzag, Coming, AllCoded, ValidBook, Count, Filled, Encodes, SkipZeros, SkipTo;
    var (ts', k', c) := SkipZeros(band, ts, k, r, b);
    var c' := if s != 0 then c[Natural(k') := s] else c;
    if ts' == Broken() {
      BrokenBlock(band, k' + 1, c');
    } else {
      SkippedShort(band, ts, k, r, s, b);
      SkipComes(book, band, ts, k, r, b, stream, at, rest, end);
      var (at', _, _) := SkipTo(band, stream, at, k, r, b);
      RefineComes(book, d, band, ts', k' + 1, c', stream, at', rest, end);
    }
  }

  /** If the whole block fits 16 bits in the end, so it does in between. */
  lemma SkippedShort(band: Band, ts: seq<Token>, k: nat, r: nat, s: int, b: Block)
    requires k <= band.se < DCTSIZE2 && ShortBlock(b)
    requires var (ts', k', c) := SkipZeros(band, ts, k, r, b);
             (s != 0 ==> k' <= band.se) && ShortBlock(ReplayRefine(band, ts', k' + 1, if s != 0 then c[Natural(k') := s] else c).block)
    ensures var (_, k', c) := SkipZeros(band, ts, k, r, b);
            ShortBlock(c) && (s != 0 ==> ShortBlock(c[Natural(k') := s]))
  {
    hide ReplayRefine, SkipZeros, Natural, Zigzag;
    var (ts', k', c) := SkipZeros(band, ts, k, r, b);
    var c' := if s != 0 then c[Natural(k') := s] else c;
    forall i | 0 <= i < DCTSIZE2
      ensures -0x8000 <= c[i] < 0x8000 && -0x8000 <= c'[i] < 0x8000
    {
      ReplaySkipKeeps(band, ts, k, r, b, i);
      if Zigzag(i) <= k' {
        ReplayRefineKeeps(band, ts', k' + 1, c', i);
      }
      if k' <= band.se {
        OrdersInverse(k');
      }
    }
  }

  /** One block. */
  lemma BandComes(book: Book, d: DecTable, band: Band, ts: seq<Token>, run: nat, b: Block, stream: Bits, at: nat, rest: Bits, end: nat)
    requires SameBand(book, d, band) && Coming(book, ts, stream, at, rest, end) && ShortBlock(b)
    requires var x := ReplayBand(band, ts, run, b); x.rest != Broken() && ShortBlock(x.block)
    ensures var x, y := ReplayBand(band, ts, run, b), DecodeBand(d, band, stream, at, run, b);
            y.block == x.block && y.run == x.run && Coming(book, x.rest, stream, y.at, rest, end)
  {
    hide ReplayRefine, ReplayFirst, DecodeRefine, DecodeFirst, CorrectRest, CorrectTo, ShortBlock, Coming, SameCode, ValidBook;
    if run > 0 {
      if band.refine {
        CorrectComes(book, band, ts, band.ss, b, stream, at, rest, end);
      }
    } else if band.refine {
      RefineComes(book, d, band, ts, band.ss, b, stream, at, rest, end);
    } else {
      FirstComes(book, d, band, ts, band.ss, b, stream, at, rest, end);
    }
  }

  lemma BrokenBand(band: Band, run: nat, b: Block)
    requires ValidBand(band)
    ensures ReplayBand(band, Broken(), run, b).rest == Broken()
  {
    hide ReplayRefine, ReplayFirst, CorrectRest;
    BrokenBlock(band, band.ss, b);
    BrokenCorrect(band, band.ss, b);
  }
}
