/**
 The progressive Huffman encoder for AC scans (jpeg/jcphuff.c): emit_symbol, emit_buffered_bits,
 emit_eobrun, emit_restart, encode_mcu_AC_first, encode_mcu_AC_refine and the ends of a pass. In a
 statistics pass the same routines count symbols instead of writing bits.
 */
module ProgressiveEncoder {
  import opened JpegLimits
  import opened Arith
  import opened BitString
  import opened ByteStream
  import opened BitWriter
  import opened DerivedTables
  import opened Coefficients
  import opened BlockCoding
  import opened ScanCoding
  import opened Statistics
  import opened ProgressiveCoding
  import opened ProgressiveReplay
  import opened CanonicalCode
  import opened OptimizedCoding
  import opened HuffTables
  import HuffmanMerge
  import OptimalTable

  /** The tokens of the restart intervals that are finished. */
  ghost function ClosedTokens(band: Band, done: seq<seq<Block>>): seq<Token>
    requires ValidBand(band)
  {
    if done == [] then [] else ClosedTokens(band, done[..|done| - 1]) + IntervalTokens(band, done[|done| - 1])
  }

  ghost predicate IntervalsCoded(book: Book, band: Band, done: seq<seq<Block>>)
    requires ValidBook(book) && ValidBand(band)
  {
    forall i :: 0 <= i < |done| ==> AllCoded(book, IntervalTokens(band, done[i]))
  }

  /** The bytes of the finished restart intervals, each flushed and followed by its marker. */
  ghost function ClosedBytes(book: Book, band: Band, done: seq<seq<Block>>): Bytes
    requires ValidBook(book) && ValidBand(band) && IntervalsCoded(book, band, done)
  {
    if done == [] then []
    else
      var n := |done| - 1;
      Ended(ClosedBytes(book, band, done[..n]), BitsOf(book, IntervalTokens(band, done[n])), n % 8)
  }

  /** The bytes of a scan whose restart intervals are parts: the last one is flushed, the others end with markers. */
  ghost function ScanBytes(book: Book, band: Band, parts: seq<seq<Block>>): Bytes
    requires ValidBook(book) && ValidBand(band) && IntervalsCoded(book, band, parts) && parts != []
  {
    var m := |parts| - 1;
    ClosedBytes(book, band, parts[..m]) + Pack(BitsOf(book, IntervalTokens(band, parts[m])) + Padding())
  }

  /** First scans accept only coefficients in range. */
  ghost predicate InRangeAll(band: Band, blocks: seq<Block>)
  {
    !band.refine ==> forall i :: 0 <= i < |blocks| ==> BandInRange(band, blocks[i])
  }

  /** The restart intervals of a scan: all but the last one are full. */
  ghost predicate Intervals(interval: nat, parts: seq<seq<Block>>)
  {
    && parts != []
    && if interval == 0 then |parts| == 1
       else (forall j :: 0 <= j < |parts| - 1 ==> |parts[j]| == interval) && |parts[|parts| - 1]| <= interval
  }

  class PhuffEncoder {
    const band: Band
    const book: Book
    const restartInterval: nat
    const gather: bool
    const state: WorkingState
    const counts: array<int>
    const bitBuffer: array<int>
    var eobRun: nat
    var be: nat
    var restartsToGo: nat
    var nextRestartNum: nat
    ghost var done: seq<seq<Block>>
    ghost var blocks: seq<Block>
    ghost var tokens: seq<Token>

    ghost predicate Shaped()
    {
      && ValidBook(book) && ValidBand(band) && band.tbl < NUM_HUFF_TBLS
      && counts.Length == COUNTERS && bitBuffer.Length == MAX_CORR_BITS && counts != bitBuffer && !state.suspending
    }

    /** Exactly the tokens so far have been counted, or written. */
    ghost predicate Sunk()
      reads this`done, this`tokens, state, counts
    {
      && Shaped()
      && if gather then counts[..] == Tally(Zeros(COUNTERS), ClosedTokens(band, done) + tokens, false, band.tbl)
         else IntervalsCoded(book, band, done) && AllCoded(book, tokens)
              && state.Holds(ClosedBytes(book, band, done), BitsOf(book, tokens))
    }

    /** What is pending: the tokens of this restart interval, the end-of-band run, and its correction bits. */
    ghost function Now(): Pending
      requires bitBuffer.Length == MAX_CORR_BITS && be <= MAX_CORR_BITS
      reads this`tokens, this`eobRun, this`be, bitBuffer
    {
      Pending(tokens, eobRun, bitBuffer[..be])
    }

    /** Between MCUs. */
    ghost predicate Valid()
      reads this, state, counts, bitBuffer
    {
      && Coding() && nextRestartNum == |done| % 8 && Intervals(restartInterval, done + [blocks])
      && (restartInterval != 0 ==> restartsToGo + |blocks| == restartInterval)
    }

    /** start_pass_phuff for an AC band. */
    constructor (band: Band, book: Book, restartInterval: nat, gather: bool, free: nat, bufferSize: nat)
      requires ValidBook(book) && ValidBand(band) && band.tbl < NUM_HUFF_TBLS && free > 0 && bufferSize > 0
      ensures Valid() && this.band == band && this.book == book && this.restartInterval == restartInterval && this.gather == gather
      ensures done == [] && blocks == [] && restartsToGo == restartInterval && fresh(state) && fresh(counts) && fresh(bitBuffer)
    {
      hide ValidBook, ValidBand, Pack, Buffered, Partial, Tally, Zeros, BitsOf, AllCoded, ClosedTokens, ClosedBytes, IntervalsCoded, AfterBands;
      this.band, this.book, this.restartInterval, this.gather := band, book, restartInterval, gather;
      state := new WorkingState([], free, 0, 0, [], false, bufferSize);
      counts, bitBuffer := new int[COUNTERS](_ => 0), new int[MAX_CORR_BITS](_ => 0);
      eobRun, be, restartsToGo, nextRestartNum := 0, 0, restartInterval, 0;
      done, blocks, tokens := [], [], [];
      new;
      NothingYet(book, band, counts[..]);
      assert bitBuffer[..0] == [];
    }

    /** emit_bits. */
    method EmitBits(code: int, size: nat) returns (ok: bool)
      requires Sunk() && 1 <= size <= 16
      modifies this`tokens, state`out, state`free, state`putBuffer, state`putBits
      ensures ok && Sunk() && tokens == old(tokens) + [Raw(code, size)]
    {
      hide Tally, BitsOf, ClosedTokens, ClosedBytes, IntervalsCoded, Pack, Buffered, AllCoded, Low;
      ghost var t := Raw(code, size);
      ghost var closed := ClosedTokens(band, done);
      assert (closed + tokens) + [t] == closed + (tokens + [t]);
      TallyOne(Zeros(COUNTERS), closed + tokens, t, false, band.tbl);
      if !gather {
        OneToken(book, tokens, t);
        var st := state.EmitBits(code, size, ClosedBytes(book, band, done), BitsOf(book, tokens));
      }
      tokens := tokens + [t];
      ok := true;
    }

    /** emit_symbol: counts the symbol or sends its code; a symbol without a code is an error. */
    method EmitSymbol(symbol: nat) returns (ok: bool)
      requires Sunk() && symbol < 256
      modifies this`tokens, counts, state`out, state`free, state`putBuffer, state`putBits
      ensures ok <==> gather || Coded(book, Symbol(false, band.tbl, symbol))
      ensures ok ==> Sunk() && tokens == old(tokens) + [Symbol(false, band.tbl, symbol)]
    {
      hide Tally, BitsOf, ClosedTokens, ClosedBytes, IntervalsCoded, Pack, Buffered, AllCoded, Low;
      ghost var t := Symbol(false, band.tbl, symbol);
      ghost var closed := ClosedTokens(band, done);
      assert (closed + tokens) + [t] == closed + (tokens + [t]);
      TallyOne(Zeros(COUNTERS), closed + tokens, t, false, band.tbl);
      if gather {
        counts[symbol] := counts[symbol] + 1;
      } else {
        var tab := book.ac[band.tbl];
        if tab.si[symbol] != 0 {
          OneToken(book, tokens, t);
        }
        var st := state.EmitBits(tab.co[symbol], tab.si[symbol], ClosedBytes(book, band, done), BitsOf(book, tokens));
        if st != Done {
          return false;
        }
      }
      tokens := tokens + [t];
      ok := true;
    }

    /** emit_buffered_bits. */
    method EmitBufferedBits(start: nat, nbits: nat)
      requires Sunk() && start + nbits <= MAX_CORR_BITS
      modifies this`tokens, state`out, state`free, state`putBuffer, state`putBits
      ensures Sunk() && tokens == old(tokens) + Corrections(bitBuffer[start..start + nbits])
    {
      hide Tally, BitsOf, ClosedTokens, ClosedBytes, IntervalsCoded, Pack, Buffered, AllCoded, ValidBook;
      ghost var bits := bitBuffer[start..start + nbits];
      if gather {
        ghost var closed := ClosedTokens(band, done);
        assert (closed + tokens) + Corrections(bits) == closed + (tokens + Corrections(bits));
        TallyAppend(Zeros(COUNTERS), closed + tokens, Corrections(bits), false, band.tbl);
        TallyOther(Tally(Zeros(COUNTERS), closed + tokens, false, band.tbl), Corrections(bits), false, band.tbl);
        tokens := tokens + Corrections(bits);
      } else {
        var i := 0;
        assert Corrections(bits[..0]) == [];
        while i < nbits
          invariant 0 <= i <= nbits && Sunk() && bits == bitBuffer[start..start + nbits]
          invariant tokens == old(tokens) + Corrections(bits[..i])
        {
          assert bits[..i + 1] == bits[..i] + [bits[i]];
          CorrectionsAppend(bits[..i], [bits[i]]);
          assert Corrections([bits[i]]) == [Raw(bits[i], 1)];
          var _ := EmitBits(bitBuffer[start + i], 1);
          i := i + 1;
        }
        assert bits[..nbits] == bits;
      }
    }

    /**
     emit_eobrun: announces the pending end-of-band run and its correction bits. Given the bound on
     the run, its size category never exceeds 14.
     */
    method EmitEobrun() returns (ok: bool)
      requires Sunk() && be <= MAX_CORR_BITS && eobRun <= MAX_EOBRUN && (be > 0 ==> eobRun > 0)
      modifies this`tokens, this`eobRun, this`be, counts, state`out, state`free, state`putBuffer, state`putBits
      ensures ok ==> Sunk() && be == eobRun == 0 && Now() == Announce(band.tbl, old(Now()))
      ensures !ok ==> !gather && !AllCoded(book, Announce(band.tbl, old(Now())).sent)
    {
      hide Tally, BitsOf, ClosedTokens, ClosedBytes, IntervalsCoded, Pack, Buffered, AllCoded, Pow2, Category, ValidBook;
      ghost var p, run := Now(), eobRun;
      ok := true;
      if eobRun > 0 {
        var temp: nat, nbits: nat := eobRun / 2, 0;
        while temp != 0
          modifies {}
          invariant nbits + Category(temp) == Category(eobRun / 2)
        {
          CategoryStep(temp);
          nbits := nbits + 1;
          temp := temp / 2;
        }
        CategoryZero(0);
        AnnouncedRun(band.tbl, eobRun, []);
        if nbits > 14 {
          assert false;
        }
        ok := EmitSymbol(16 * nbits);
        if !ok {
          UncodedSymbol(book, band, p, nbits);
          return;
        }
        if nbits != 0 {
          var _ := EmitBits(eobRun, nbits);
        }
        assert tokens == p.sent + EobTokens(band.tbl, run);
        eobRun := 0;
        EmitBufferedBits(0, be);
        be := 0;
        assert bitBuffer[..0] == [];
      } else {
        assert be == 0 && bitBuffer[..0] == [];
      }
    }

    /** A symbol of a block, after the tokens head; rest is what the block still has to send after it. */
    method SendSymbol(symbol: nat, ghost p0: Pending, ghost c: BandCode, ghost head: seq<Token>, ghost rest: BandCode)
        returns (ok: bool, ghost next: seq<Token>)
      requires Sunk() && symbol < 256 && c == Prepend(head, Prepend([Symbol(false, band.tbl, symbol)], rest))
      requires tokens == Announce(band.tbl, p0).sent + head
      modifies this`tokens, counts, state`out, state`free, state`putBuffer, state`putBits
      ensures ok ==> Sunk() && next != [] && c == Prepend(next, rest) && tokens == Announce(band.tbl, p0).sent + next
      ensures !ok ==> !gather && c.body != [] && !AllCoded(book, ForcedOut(band, Extended(band, p0, c)).sent)
    {
      hide Sunk, AllCoded, EobTokens, Coded, Announce, Extended, ForcedOut;
      ShapeOf();
      ghost var t := Symbol(false, band.tbl, symbol);
      next := MoveOn(c, head, [t], rest);
      assert (Announce(band.tbl, p0).sent + head) + [t] == Announce(band.tbl, p0).sent + next;
      ok := EmitSymbol(symbol);
      if !ok {
        FailsAt(book, band, p0, c, head, t, rest);
      }
    }

    /** Bits of a block, after the tokens head. */
    method SendBits(code: int, size: nat, ghost p0: Pending, ghost c: BandCode, ghost head: seq<Token>, ghost rest: BandCode)
        returns (ghost next: seq<Token>)
      requires Sunk() && 1 <= size <= 16 && c == Prepend(head, Prepend([Raw(code, size)], rest))
      requires tokens == Announce(band.tbl, p0).sent + head
      modifies this`tokens, state`out, state`free, state`putBuffer, state`putBits
      ensures Sunk() && next != [] && c == Prepend(next, rest) && tokens == Announce(band.tbl, p0).sent + next
    {
      hide Sunk, EobTokens, Announce;
      next := MoveOn(c, head, [Raw(code, size)], rest);
      assert (Announce(band.tbl, p0).sent + head) + [Raw(code, size)] == Announce(band.tbl, p0).sent + next;
      var _ := EmitBits(code, size);
    }

    /** The announcement of the pending run that precedes the first token of a block. */
    method AnnounceFirst(ghost p0: Pending, ghost c: BandCode, ghost head: seq<Token>) returns (ok: bool)
      requires Sunk() && be <= MAX_CORR_BITS && Bounded(p0) && Now() == Midway(band.tbl, p0, head) && head <= c.body && c.body != []
      modifies this`tokens, this`eobRun, this`be, counts, state`out, state`free, state`putBuffer, state`putBits
      ensures ok ==> Sunk() && eobRun == be == 0 && tokens == Announce(band.tbl, p0).sent + head
      ensures !ok ==> !gather && !AllCoded(book, ForcedOut(band, Extended(band, p0, c)).sent)
    {
      hide Sunk, AllCoded, EobTokens;
      ShapeOf();
      ok := true;
      assert Announce(band.tbl, p0).sent + [] == Announce(band.tbl, p0).sent;
      if eobRun > 0 {
        ok := EmitEobrun();
        if !ok {
          FailsLater(book, band, p0, c, []);
        }
      }
    }

    /** A coefficient of a first scan that is not zero after the point transform. */
    method SendCoefficient(block: Block, k: nat, r0: nat, temp: nat, temp2: int, ghost p0: Pending, ghost c: BandCode, ghost head0: seq<Token>)
        returns (st: Outcome, ghost head: seq<Token>)
      requires Sunk() && band.ss <= k <= band.se && be <= MAX_CORR_BITS && Bounded(p0) && Now() == Midway(band.tbl, p0, head0)
      requires c == Prepend(head0, FirstCode(band, block, k, r0))
      requires var t := Reduced(block[Natural(k)], band.al); t != 0 && temp == Abs(t) && temp2 == Appended(t)
      modifies this`tokens, this`eobRun, this`be, counts, state`out, state`free, state`putBuffer, state`putBits
      ensures st == Done || st == BadCoefficient || st == MissingCode
      ensures st == Done ==> Sunk() && eobRun == be == 0 && tokens == Announce(band.tbl, p0).sent + head && head != []
                             && c == Prepend(head, FirstCode(band, block, k + 1, 0)) && Category(temp) <= MAX_COEF_BITS
      ensures st == BadCoefficient ==> Category(temp) > MAX_COEF_BITS
      ensures st == MissingCode ==> !gather && !AllCoded(book, ForcedOut(band, Extended(band, p0, c)).sent)
    {
      hide Sunk, AllCoded, Category, Natural, Reduced, FirstCode, Announce, Bounded, Extended, ForcedOut, Midway;
      ShapeOf();
      FirstCodeStep(band, block, k, r0);
      StartsToken(c, head0, FirstCode(band, block, k, r0));
      head := head0;
      var r: nat := r0;
      var ok := AnnounceFirst(p0, c, head);
      if !ok {
        return MissingCode, head;
      }
      while r > 15
        invariant Sunk() && eobRun == be == 0 && tokens == Announce(band.tbl, p0).sent + head
        invariant c == Prepend(head, FirstCode(band, block, k, r))
      {
        FirstCodeStep(band, block, k, r);
        ok, head := SendSymbol(ZRL, p0, c, head, FirstCode(band, block, k, r - 16));
        if !ok {
          return MissingCode, head;
        }
        r := r - 16;
      }
      FirstCodeStep(band, block, k, r);
      var nbits := CountBits(temp);
      if nbits > MAX_COEF_BITS {
        return BadCoefficient, head;
      }
      CategoryZero(temp);
      ghost var d := FirstCode(band, block, k + 1, 0);
      SplitPair(Symbol(false, band.tbl, 16 * r + nbits), Raw(temp2, nbits), d);
      ok, head := SendSymbol(16 * r + nbits, p0, c, head, Prepend([Raw(temp2, nbits)], d));
      if !ok {
        return MissingCode, head;
      }
      head := SendBits(temp2, nbits, p0, c, head, d);
      st := Done;
    }

    /** The MCU of an AC first scan (figure G.3), when no restart marker is due. */
    method EncodeFirst(block: Block) returns (st: Outcome)
      requires Sunk() && !band.refine && be <= MAX_CORR_BITS && Bounded(Now())
      modifies this`tokens, this`eobRun, this`be, counts, state`out, state`free, state`putBuffer, state`putBits
      ensures st == Done || st == BadCoefficient || st == MissingCode
      ensures st == Done ==> Sunk() && be <= MAX_CORR_BITS && Now() == AfterBand(band, old(Now()), block) && BandInRange(band, block)
      ensures st == BadCoefficient ==> !BandInRange(band, block)
      ensures st == MissingCode ==> !gather && !AllCoded(book, AfterBand(band, old(Now()), block).sent)
    {
      hide Sunk, AllCoded, Category, Natural, ShiftRight, FirstCode, EobTokens, Extended, ForcedOut;
      ShapeOf();
      ghost var p0, c := Now(), CodeOfBand(band, block);
      ghost var head: seq<Token> := [];
      var r: nat := 0;
      PrependNone(c);
      for k := band.ss to band.se + 1
        invariant Sunk() && be <= MAX_CORR_BITS && Now() == Midway(band.tbl, p0, head)
        invariant c == Prepend(head, FirstCode(band, block, k, r))
        invariant forall j :: band.ss <= j < k ==> Category(Shifted(block[Natural(j)], band.al)) <= MAX_COEF_BITS
      {
        FirstCodeStep(band, block, k, r);
        var temp, temp2 := block[Natural(k)], 0;
        CategoryZero(0);
        if temp == 0 {
          ShiftedZero(band.al);
          r := r + 1;
          continue;
        }
        if temp < 0 {
          temp := ShiftedRight(0 - temp);
          temp2 := 0 - temp - 1;
        } else {
          temp := ShiftedRight(temp);
          temp2 := temp;
        }
        if temp == 0 {
          r := r + 1;
          continue;
        }
        st, head := SendCoefficient(block, k, r, temp, temp2, p0, c, head);
        if st != Done {
          return;
        }
        assert bitBuffer[..0] == [];
        r := 0;
      }
      FirstCodeStep(band, block, band.se + 1, r);
      BodyIs(band, p0, c, head, r > 0, []);
      assert bitBuffer[..be] + [] == bitBuffer[..be];
      if r > 0 {
        eobRun := eobRun + 1;
        if eobRun == MAX_EOBRUN {
          var ok := EmitEobrun();
          if !ok {
            return MissingCode;
          }
        }
      }
      st := Done;
    }

    /** Correction bits of a block, after the tokens head. */
    method SendCorrections(start: nat, nbits: nat, ghost p0: Pending, ghost c: BandCode, ghost head: seq<Token>, ghost rest: BandCode)
        returns (ghost next: seq<Token>)
      requires Sunk() && start + nbits <= MAX_CORR_BITS && head != []
      requires c == Prepend(head, Prepend(Corrections(bitBuffer[start..start + nbits]), rest))
      requires tokens == Announce(band.tbl, p0).sent + head
      modifies this`tokens, state`out, state`free, state`putBuffer, state`putBits
      ensures Sunk() && next != [] && c == Prepend(next, rest) && tokens == Announce(band.tbl, p0).sent + next
    {
      hide Sunk, EobTokens, Announce;
      ShapeOf();
      ghost var ts := Corrections(bitBuffer[start..start + nbits]);
      next := head + ts;
      assert head + (ts + rest.body) == next + rest.body;
      assert (Announce(band.tbl, p0).sent + head) + ts == Announce(band.tbl, p0).sent + next;
      EmitBufferedBits(start, nbits);
    }

    /** A symbol of a refinement scan, with the bits that go with it: its own and the buffered correction bits. */
    method SendGroup(symbol: nat, sign: int, hasSign: bool, start: nat, nbits: nat,
                     ghost p0: Pending, ghost c: BandCode, ghost head0: seq<Token>, ghost rest: BandCode)
        returns (ok: bool, ghost head: seq<Token>)
      requires Sunk() && symbol < 256 && be <= MAX_CORR_BITS && start + nbits <= MAX_CORR_BITS
      requires Bounded(p0) && Now() == Midway(band.tbl, p0, head0)
      requires c == Prepend(head0, Prepend([Symbol(false, band.tbl, symbol)] + (if hasSign then [Raw(sign, 1)] else [])
                                           + Corrections(bitBuffer[start..start + nbits]), rest))
      modifies this`tokens, this`eobRun, this`be, counts, state`out, state`free, state`putBuffer, state`putBits
      ensures ok ==> Sunk() && eobRun == be == 0 && tokens == Announce(band.tbl, p0).sent + head && head != [] && c == Prepend(head, rest)
      ensures !ok ==> !gather && !AllCoded(book, ForcedOut(band, Extended(band, p0, c)).sent)
    {
      hide Sunk, AllCoded, EobTokens, Announce, Bounded, Extended, ForcedOut, Midway;
      ShapeOf();
      head := head0;
      ghost var sym, corr := Symbol(false, band.tbl, symbol), Corrections(bitBuffer[start..start + nbits]);
      SplitGroup(sym, sign, hasSign, corr, rest);
      StartsToken(c, head, Prepend([sym] + (if hasSign then [Raw(sign, 1)] else []) + corr, rest));
      ok := AnnounceFirst(p0, c, head);
      if !ok {
        return;
      }
      ok, head := SendSymbol(symbol, p0, c, head, if hasSign then Prepend([Raw(sign, 1)], Prepend(corr, rest)) else Prepend(corr, rest));
      if !ok {
        return;
      }
      if hasSign {
        head := SendBits(sign, 1, p0, c, head, Prepend(corr, rest));
      }
      head := SendCorrections(start, nbits, p0, c, head, rest);
    }

    /**
     The pre-pass of a refinement scan: the shifted magnitudes, and the position of the last
     coefficient that becomes nonzero.
     */
    method FindNew(block: Block, absvalues: array<int>) returns (eob: nat)
      requires ValidBand(band) && absvalues.Length == DCTSIZE2
      modifies absvalues
      ensures eob == LastNew(band, block, band.se + 1)
      ensures forall j :: band.ss <= j <= band.se ==> absvalues[j] == A(band, block, j)
    {
      hide Natural, ShiftRight;
      eob := 0;
      for k := band.ss to band.se + 1
        invariant eob == LastNew(band, block, k)
        invariant forall j :: band.ss <= j < k ==> absvalues[j] == A(band, block, j)
      {
        var temp := block[Natural(k)];
        if temp < 0 {
          temp := 0 - temp;
        }
        temp := ShiftedRight(temp);
        absvalues[k] := temp;
        if temp == 1 {
          eob := k;
        }
      }
    }

    /**
     A refinement scan has come to position k: head is what has been sent of the block, r counts the
     zeros and br the correction bits since then, which begin at start in the buffer.
     */
    ghost predicate Refining(block: Block, eob: nat, k: nat, r: nat, start: nat, br: nat, p0: Pending, c: BandCode, head: seq<Token>)
      reads this, state, counts, bitBuffer
    {
      && Sunk() && Bounded(p0) && band.ss <= k <= band.se + 1
      && start == be <= FLUSH_ABOVE && br <= k - band.ss
      && Now() == Midway(band.tbl, p0, head)
      && c == Prepend(head, RefineCode(band, block, eob, k, r, bitBuffer[start..start + br]))
    }

    /** A group that ends in a symbol: zeros for a zero-run symbol, or a newly nonzero coefficient. */
    method EndGroup(block: Block, eob: nat, k: nat, r: nat, start: nat, br: nat, symbol: nat, sign: int, hasSign: bool, k': nat, r': nat,
                    ghost p0: Pending, ghost c: BandCode, ghost head0: seq<Token>) returns (ok: bool, ghost head: seq<Token>)
      requires Refining(block, eob, k, r, start, br, p0, c, head0) && symbol < 256 && k <= k' <= band.se + 1
      requires RefineCode(band, block, eob, k, r, bitBuffer[start..start + br])
            == Prepend([Symbol(false, band.tbl, symbol)] + (if hasSign then [Raw(sign, 1)] else []) + Corrections(bitBuffer[start..start + br]),
                       RefineCode(band, block, eob, k', r', []))
      modifies this`tokens, this`eobRun, this`be, counts, state`out, state`free, state`putBuffer, state`putBits
      ensures ok ==> Refining(block, eob, k', r', 0, 0, p0, c, head)
      ensures !ok ==> !gather && !AllCoded(book, ForcedOut(band, Extended(band, p0, c)).sent)
    {
      hide Sunk, AllCoded, RefineCode, Bounded, Extended, ForcedOut, Announce;
      ShapeOf();
      ok, head := SendGroup(symbol, sign, hasSign, start, br, p0, c, head0, RefineCode(band, block, eob, k', r', []));
      assert bitBuffer[..0] == [];
    }

    /** A coefficient of a refinement scan that is not zero after the point transform. */
    method RefineCoefficient(block: Block, eob: nat, k: nat, r0: nat, start0: nat, br0: nat, temp: nat,
                             ghost p0: Pending, ghost c: BandCode, ghost head0: seq<Token>)
        returns (ok: bool, r: nat, start: nat, br: nat, ghost head: seq<Token>)
      requires Refining(block, eob, k, r0, start0, br0, p0, c, head0) && k <= band.se
      requires eob == LastNew(band, block, band.se + 1) && temp == A(band, block, k) > 0
      modifies this`tokens, this`eobRun, this`be, counts, bitBuffer, state`out, state`free, state`putBuffer, state`putBits
      ensures ok ==> Refining(block, eob, k + 1, r, start, br, p0, c, head)
      ensures !ok ==> !gather && !AllCoded(book, ForcedOut(band, Extended(band, p0, c)).sent)
    {
      hide Sunk, AllCoded, Natural, Shifted, A, RefineCode, LastNew, Bounded, Extended, ForcedOut, Midway, Prepend;
      ShapeOf();
      r, start, br, head := r0, start0, br0, head0;
      while r > 15 && k <= eob
        invariant Refining(block, eob, k, r, start, br, p0, c, head)
        decreases r
      {
        RefineCodeStep(band, block, eob, k, r, bitBuffer[start..start + br]);
        assert [Symbol(false, band.tbl, ZRL)] + [] == [Symbol(false, band.tbl, ZRL)];
        ok, head := EndGroup(block, eob, k, r, start, br, ZRL, 0, false, k, r - 16, p0, c, head);
        if !ok {
          return;
        }
        r, start, br := r - 16, 0, 0;
      }
      RefineCodeStep(band, block, eob, k, r, bitBuffer[start..start + br]);
      if temp > 1 {
        ghost var bits := bitBuffer[start..start + br];
        bitBuffer[start + br] := temp % 2;
        br := br + 1;
        assert bitBuffer[start..start + br] == bits + [temp % 2];
        ok := true;
        return;
      }
      OneIsNew(band, block, k);
      LastNewIsLast(band, block, band.se + 1, k);
      var sign := if block[Natural(k)] < 0 then 0 else 1;
      assert [Symbol(false, band.tbl, 16 * r + 1)] + [Raw(sign, 1)] == [Symbol(false, band.tbl, 16 * r + 1), Raw(sign, 1)];
      ok, head := EndGroup(block, eob, k, r, start, br, 16 * r + 1, sign, true, k + 1, 0, p0, c, head);
      r, start, br := 0, 0, 0;
    }

    /** The end of the block: what is left joins the pending run, which is announced if it must not grow. */
    method EndRefined(block: Block, ghost eob: nat, r: nat, start: nat, br: nat, ghost p0: Pending, ghost c: BandCode, ghost head: seq<Token>)
        returns (ok: bool)
      requires Refining(block, eob, band.se + 1, r, start, br, p0, c, head)
      modifies this`tokens, this`eobRun, this`be, counts, state`out, state`free, state`putBuffer, state`putBits
      ensures ok ==> Sunk() && be <= MAX_CORR_BITS && Now() == ForcedOut(band, Extended(band, p0, c))
      ensures !ok ==> !gather && !AllCoded(book, ForcedOut(band, Extended(band, p0, c)).sent)
    {
      hide Sunk, AllCoded, RefineCode, EobTokens, Extended, ForcedOut, Midway;
      ShapeOf();
      ok := true;
      RefineCodeStep(band, block, eob, band.se + 1, r, bitBuffer[start..start + br]);
      BodyIs(band, p0, c, head, r > 0 || br > 0, bitBuffer[start..start + br]);
      if r > 0 || br > 0 {
        eobRun := eobRun + 1;
        assert bitBuffer[..be] + bitBuffer[be..be + br] == bitBuffer[..be + br];
        be := be + br;
        if eobRun == MAX_EOBRUN || be > MAX_CORR_BITS - DCTSIZE2 + 1 {
          ok := EmitEobrun();
        }
      } else {
        assert bitBuffer[..be] + [] == bitBuffer[..be];
      }
    }

    /** The MCU of an AC refinement scan (figure G.7), when no restart marker is due. */
    method EncodeRefine(block: Block) returns (ok: bool)
      requires Sunk() && band.refine && be <= MAX_CORR_BITS && Bounded(Now())
      modifies this`tokens, this`eobRun, this`be, counts, bitBuffer, state`out, state`free, state`putBuffer, state`putBits
      ensures ok ==> Sunk() && be <= MAX_CORR_BITS && Now() == AfterBand(band, old(Now()), block)
      ensures !ok ==> !gather && !AllCoded(book, AfterBand(band, old(Now()), block).sent)
    {
      hide Sunk, AllCoded, Natural, Shifted, A, RefineCode, EobTokens, Extended, ForcedOut, LastNew, Announce;
      ShapeOf();
      ghost var p0, c := Now(), CodeOfBand(band, block);
      var absvalues := new int[DCTSIZE2](_ => 0);
      var eob := FindNew(block, absvalues);
      ghost var abs := absvalues[..];
      assert forall j :: band.ss <= j <= band.se ==> abs[j] == A(band, block, j);
      var r: nat, br: nat, start: nat := 0, 0, be;
      ghost var head: seq<Token> := [];
      PrependNone(c);
      assert bitBuffer[start..start + br] == [];
      for k := band.ss to band.se + 1
        invariant Refining(block, eob, k, r, start, br, p0, c, head) && absvalues[..] == abs
      {
        var temp := absvalues[k];
        assert temp == abs[k] == A(band, block, k);
        if temp == 0 {
          RefineCodeStep(band, block, eob, k, r, bitBuffer[start..start + br]);
          r := r + 1;
          continue;
        }
        ok, r, start, br, head := RefineCoefficient(block, eob, k, r, start, br, temp, p0, c, head);
        if !ok {
          return;
        }
      }
      ok := EndRefined(block, eob, r, start, br, p0, c, head);
    }

    /**
     emit_restart: the pending run is announced, and the interval is flushed and ends with its
     marker. In a statistics pass nothing is written, but the run is announced all the same.
     */
    method EmitRestart(restartNum: nat) returns (ok: bool)
      requires Coding() && restartNum == |done| % 8
      modifies this`tokens, this`eobRun, this`be, this`done, this`blocks, counts, state`out, state`free, state`putBuffer, state`putBits
      ensures ok ==> Coding() && done == old(done) + [old(blocks)] && blocks == []
      ensures !ok ==> !gather && !AllCoded(book, IntervalTokens(band, old(blocks)))
    {
      hide Sunk, AllCoded, EobTokens, AfterBands, BitsOf, Pack, Padding, Ended, ClosedTokens, ClosedBytes, IntervalsCoded, ValidBook, BandInRange;
      ShapeOf();
      AlwaysBounded(band, blocks);
      ok := EmitEobrun();
      if !ok {
        return;
      }
      if !gather {
        WriteMarker(restartNum);
      }
      assert bitBuffer[..0] == [];
      ghost var interval := blocks;
      CloseInterval(interval);
      NoBlocks(band);
    }

    /** Flushes the bits of the interval and writes its restart marker. */
    method WriteMarker(restartNum: nat)
      requires Sunk() && !gather && restartNum < 8
      modifies state`out, state`free, state`putBuffer, state`putBits
      ensures AllCoded(book, tokens) && IntervalsCoded(book, band, done)
      ensures state.Holds(Ended(ClosedBytes(book, band, done), BitsOf(book, tokens), restartNum), [])
    {
      hide Tally, BitsOf, ClosedTokens, ClosedBytes, IntervalsCoded, Pack, Buffered, AllCoded, ValidBook, Padding, Ended;
      var _ := state.EndSegment(restartNum, ClosedBytes(book, band, done), BitsOf(book, tokens));
    }

    /** The tokens of the interval join those of the finished ones. */
    ghost method CloseInterval(interval: seq<Block>)
      requires Shaped() && tokens == IntervalTokens(band, interval)
      requires gather ==> Sunk()
      requires !gather ==> AllCoded(book, tokens) && IntervalsCoded(book, band, done)
                           && state.Holds(Ended(ClosedBytes(book, band, done), BitsOf(book, tokens), |done| % 8), [])
      modifies this`tokens, this`done, this`blocks
      ensures Sunk() && tokens == [] && blocks == [] && done == old(done) + [interval]
    {
      hide Tally, BitsOf, Pack, Buffered, AllCoded, ValidBook, Padding, Ended, IntervalTokens, Word, Value, Pow2, Partial;
      ghost var more := done + [interval];
      assert more[..|more| - 1] == done;
      if !gather {
        assert IntervalsCoded(book, band, more);
        NoBits(book, []);
      } else {
        assert ClosedTokens(band, more) + [] == ClosedTokens(band, done) + tokens;
      }
      done, tokens, blocks := more, [], [];
    }

    /** What holds in between the blocks. */
    ghost predicate Coding()
      reads this`done, this`blocks, this`tokens, this`eobRun, this`be, state, counts, bitBuffer
    {
      && Sunk() && be <= MAX_CORR_BITS && Now() == AfterBands(band, blocks)
      && InRangeAll(band, blocks) && forall i :: 0 <= i < |done| ==> InRangeAll(band, done[i])
    }

    /** What always holds between MCUs: the run can grow, and the buffer has room for another block's bits. */
    lemma BetweenMcus()
      requires Valid()
      ensures eobRun < MAX_EOBRUN && be <= FLUSH_ABOVE && (be > 0 ==> eobRun > 0)
    {
      hide Sunk;
      ShapeOf();
      AlwaysBounded(band, blocks);
    }

    /** The blocks of the interval in which the next MCU will be coded. */
    ghost function Interval(): seq<Block>
      reads this
    {
      if Due() then [] else blocks
    }

    predicate Due()
      reads this
    {
      restartInterval != 0 && restartsToGo == 0
    }

    /** The block of an MCU, once a restart marker that was due is written. */
    method EncodeBlock(block: Block) returns (st: Outcome)
      requires Coding()
      modifies this`tokens, this`eobRun, this`be, this`blocks, counts, bitBuffer, state`out, state`free, state`putBuffer, state`putBits
      ensures st == Done || st == BadCoefficient || st == MissingCode
      ensures st == Done ==> Coding() && blocks == old(blocks) + [block]
      ensures st == BadCoefficient ==> !band.refine && !BandInRange(band, block)
      ensures st == Done && !band.refine ==> BandInRange(band, block)
      ensures st == MissingCode ==> !gather && !AllCoded(book, AfterBands(band, old(blocks) + [block]).sent)
    {
      hide Sunk, AllCoded, AfterBand, IntervalTokens, BandInRange;
      ShapeOf();
      AlwaysBounded(band, blocks);
      assert (blocks + [block])[..|blocks|] == blocks;
      assert AfterBands(band, blocks + [block]) == AfterBand(band, AfterBands(band, blocks), block);
      if band.refine {
        var ok := EncodeRefine(block);
        st := if ok then Done else MissingCode;
      } else {
        st := EncodeFirst(block);
      }
      if st == Done {
        blocks := blocks + [block];
      }
    }

    /**
     encode_mcu_AC_first or encode_mcu_AC_refine. It fails only on a coefficient out of range, or
     in an output pass on a symbol without a code.
     */
    method EncodeMcu(block: Block) returns (st: Outcome)
      requires Valid()
      modifies this, state, counts, bitBuffer
      ensures st == Done || st == BadCoefficient || st == MissingCode
      ensures st == Done ==> Valid() && blocks == old(Interval()) + [block]
      ensures st == Done ==> done == if old(Due()) then old(done) + [old(blocks)] else old(done)
      ensures st == Done ==> restartsToGo == if restartInterval == 0 then old(restartsToGo)
                                             else if old(Due()) then restartInterval - 1 else old(restartsToGo) - 1
      ensures st == BadCoefficient ==> !band.refine && !BandInRange(band, block)
      ensures st == Done && !band.refine ==> BandInRange(band, block)
      ensures st == MissingCode ==>
                && !gather
                && ((old(Due()) && !AllCoded(book, IntervalTokens(band, old(blocks))))
                    || !AllCoded(book, AfterBands(band, old(Interval()) + [block]).sent))
    {
      hide Coding, AllCoded, AfterBands, IntervalTokens, BandInRange, Intervals;
      IntervalGrows(restartInterval, done, blocks, block);
      NotOver(restartInterval, done, blocks);
      assert [] + [block] == [block];
      if restartInterval != 0 {
        if restartsToGo == 0 {
          var ok := EmitRestart(nextRestartNum);
          if !ok {
            return MissingCode;
          }
        }
      }
      st := EncodeBlock(block);
      if st != Done {
        return;
      }
      if restartInterval != 0 {
        if restartsToGo == 0 {
          restartsToGo := restartInterval;
          nextRestartNum := (nextRestartNum + 1) % 8;
        }
        restartsToGo := restartsToGo - 1;
      }
    }

    /** finish_pass_phuff: announces the last run and flushes the last bits. */
    method FinishPass() returns (ok: bool)
      requires Valid() && !gather
      modifies this, state, counts
      ensures !ok ==> !AllCoded(book, IntervalTokens(band, old(blocks)))
      ensures ok ==> var parts := old(done) + [old(blocks)];
                     && Intervals(restartInterval, parts) && IntervalsCoded(book, band, parts)
                     && state.out == ScanBytes(book, band, parts)
    {
      hide Sunk, AllCoded, EobTokens, AfterBands, BitsOf, Pack, ClosedBytes, IntervalsCoded, Buffered, Padding;
      ShapeOf();
      AlwaysBounded(band, blocks);
      ghost var closed, last := done, blocks;
      ok := EmitEobrun();
      if !ok {
        return;
      }
      ok := Flush();
      LastInterval(book, band, closed, last);
    }

    /** finish_pass_gather_phuff: counts the last run and makes the optimal table. */
    method FinishPassGather(htbl: HuffTable) returns (ok: bool)
      requires Valid() && gather && blocks != []
      requires |ClosedTokens(band, done + [blocks])| <= HuffmanMerge.SEARCH_LIMIT
      requires |htbl.huffval| == 256 && OptimalTable.Bytes(htbl.huffval)
      modifies this, state, counts, htbl
      ensures |ClosedTokens(band, old(done) + [old(blocks)])| + 1 < FIB_35 ==> ok
      ensures ok ==> OptimalTable.LegalFor(Tally(Zeros(COUNTERS), ClosedTokens(band, old(done) + [old(blocks)]), false, band.tbl)[..256],
                                           htbl.bits, htbl.huffval)
    {
      hide Tally, OptimalTable.LegalFor, OptimalTable.Countable, OptimalTable.OptimalSizes, OptimalTable.SortedBySize, Fib;
      hide EobTokens, AfterBands, ValidBook;
      AlwaysBounded(band, blocks);
      ghost var all := done + [blocks];
      ClosedProper(band, all);
      LastUsed(band, done, blocks);
      CountableTally(ClosedTokens(band, all), false, band.tbl);
      assert all[..|all| - 1] == done;
      ok := EmitEobrun();
      ghost var sizes, t;
      ok, sizes, t := OptimalTable.GenOptimalTable(htbl, counts);
    }

    method Flush() returns (ok: bool)
      requires Sunk() && !gather
      modifies state`out, state`free, state`putBuffer, state`putBits
      ensures ok && AllCoded(book, tokens) && IntervalsCoded(book, band, done)
      ensures state.out == ClosedBytes(book, band, done) + Pack(BitsOf(book, tokens) + Padding())
    {
      hide Tally, BitsOf, ClosedTokens, ClosedBytes, IntervalsCoded, Pack, Buffered, AllCoded, ValidBook, Padding, Word, Value, Pow2, Partial;
      NothingWritten();
      var st := state.FlushBits(ClosedBytes(book, band, done), BitsOf(book, tokens));
      ok := true;
    }

    lemma ShapeOf()
      requires Sunk()
      ensures Shaped()
    {
    }

    /** The point transform of a magnitude: a shift by Al. */
    method ShiftedRight(v: nat) returns (s: nat)
      ensures s == ShiftRight(v, band.al)
    {
      s := v;
      for i := 0 to band.al
        invariant s == ShiftRight(v, i)
      {
        s := s / 2;
      }
    }
  }

  lemma LastInterval(book: Book, band: Band, done: seq<seq<Block>>, blocks: seq<Block>)
    requires ValidBook(book) && ValidBand(band) && IntervalsCoded(book, band, done) && AllCoded(book, IntervalTokens(band, blocks))
    ensures IntervalsCoded(book, band, done + [blocks])
    ensures ScanBytes(book, band, done + [blocks]) == ClosedBytes(book, band, done) + Pack(BitsOf(book, IntervalTokens(band, blocks)) + Padding())
  {
    hide AllCoded, IntervalTokens, BitsOf, Pack, Padding, ClosedBytes, ValidBook;
    assert (done + [blocks])[..|done|] == done;
  }

  lemma NotOver(interval: nat, done: seq<seq<Block>>, blocks: seq<Block>)
    requires Intervals(interval, done + [blocks])
    ensures interval != 0 ==> |blocks| <= interval
  {
    assert (done + [blocks])[|done + [blocks]| - 1] == blocks;
  }

  /** One block more, in a restart interval that is not full, or in the next one. */
  lemma IntervalGrows(interval: nat, done: seq<seq<Block>>, blocks: seq<Block>, block: Block)
    requires Intervals(interval, done + [blocks])
    ensures interval == 0 || |blocks| < interval ==> Intervals(interval, done + [blocks + [block]])
    ensures interval != 0 && |blocks| == interval ==> Intervals(interval, (done + [blocks]) + [[block]])
  {
    var all := done + [blocks];
    assert forall j :: 0 <= j < |done| ==> all[j] == done[j] == (done + [blocks + [block]])[j];
    assert forall j :: 0 <= j < |all| ==> all[j] == (all + [[block]])[j];
  }

  /** What is pending in the middle of a block whose tokens head have been sent. */
  function Midway(tbl: nat, p: Pending, head: seq<Token>): Pending
  {
    if head == [] then p else Pending(Announce(tbl, p).sent + head, 0, [])
  }

  lemma PrependNone(c: BandCode)
    ensures Prepend([], c) == c
  {
  }

  lemma ShiftedZero(al: nat)
    ensures Shifted(0, al) == 0
  {
    if al > 0 {
      ShiftedZero(al - 1);
    }
  }

  lemma SplitPair(x: Token, y: Token, c: BandCode)
    ensures Prepend([x, y], c) == Prepend([x], Prepend([y], c))
  {
    assert [x, y] + c.body == [x] + ([y] + c.body);
  }

  /** All symbols are of the band's table, and those of in-range coefficients. */
  ghost predicate OfBand(ts: seq<Token>, tbl: nat)
  {
    forall i :: 0 <= i < |ts| ==>
      match ts[i]
      case Symbol(isDc, n, s) => !isDc && n == tbl && IsAcSymbol(s)
      case Raw(_, size) => 1 <= size <= 16
  }

  /** The symbols of a block's own tokens are those of in-range coefficients. */
  lemma {:induction false} FirstProper(band: Band, b: Block, k: nat, r: nat)
    requires band.se < DCTSIZE2 && band.ss <= k && BandInRange(band, b)
    ensures OfBand(FirstCode(band, b, k, r).body, band.tbl)
    decreases band.se + 1 - k, r
  {
    hide FirstCode, Natural, Category, Reduced, Shifted;
    FirstCodeStep(band, b, k, r);
    if k <= band.se {
      var t := Reduced(b[Natural(k)], band.al);
      ReducedAbs(b[Natural(k)], band.al);
      CategoryZero(t);
      if t == 0 {
        FirstProper(band, b, k + 1, r + 1);
      } else if r > 15 {
        FirstProper(band, b, k, r - 16);
      } else {
        Nibbles(r, Category(Abs(t)));
        FirstProper(band, b, k + 1, 0);
      }
    }
  }

  lemma {:induction false} RefineProper(band: Band, b: Block, eob: nat, k: nat, r: nat, br: seq<int>)
    requires band.ss <= k && band.se < DCTSIZE2 && eob == LastNew(band, b, band.se + 1)
    ensures OfBand(RefineCode(band, b, eob, k, r, br).body, band.tbl)
    decreases band.se + 1 - k, r
  {
    hide RefineCode, Natural, A, LastNew;
    RefineCodeStep(band, b, eob, k, r, br);
    if k <= band.se {
      var a := A(band, b, k);
      if a == 0 {
        RefineProper(band, b, eob, k + 1, r + 1, br);
      } else if r > 15 && k <= eob {
        RefineProper(band, b, eob, k, r - 16, []);
      } else if a > 1 {
        RefineProper(band, b, eob, k + 1, r, br + [a % 2]);
      } else {
        OneIsNew(band, b, k);
        LastNewIsLast(band, b, band.se + 1, k);
        Nibbles(r, 1);
        RefineProper(band, b, eob, k + 1, 0, []);
      }
    }
  }

  lemma EobProper(tbl: nat, e: nat)
    requires 1 <= e <= MAX_EOBRUN
    ensures OfBand(EobTokens(tbl, e), tbl)
  {
    hide Category, RunOf;
    AnnouncedRun(tbl, e, []);
    Sixteenfold(Category(e / 2));
  }

  lemma ExtendedProper(band: Band, p: Pending, b: Block)
    requires ValidBand(band) && Bounded(p) && OfBand(p.sent, band.tbl) && (!band.refine ==> BandInRange(band, b))
    ensures OfBand(AfterBand(band, p, b).sent, band.tbl)
  {
    hide FirstCode, RefineCode, LastNew, EobTokens, BandInRange, IsAcSymbol;
    if band.refine {
      RefineProper(band, b, LastNew(band, b, band.se + 1), band.ss, 0, []);
    } else {
      FirstProper(band, b, band.ss, 0);
    }
    var x := Extended(band, p, CodeOfBand(band, b));
    ExtendedBounds(band, p, b);
    if p.eobRun > 0 {
      EobProper(band.tbl, p.eobRun);
    }
    if x.eobRun > 0 {
      EobProper(band.tbl, x.eobRun);
    }
  }

  lemma {:induction false} IntervalProper(band: Band, blocks: seq<Block>)
    requires ValidBand(band) && InRangeAll(band, blocks)
    ensures OfBand(AfterBands(band, blocks).sent, band.tbl) && OfBand(IntervalTokens(band, blocks), band.tbl)
  {
    hide AfterBand, EobTokens, BandInRange, IsAcSymbol;
    var p := AfterBands(band, blocks);
    if blocks != [] {
      var n := |blocks| - 1;
      IntervalProper(band, blocks[..n]);
      AlwaysBounded(band, blocks[..n]);
      ExtendedProper(band, AfterBands(band, blocks[..n]), blocks[n]);
    }
    AlwaysBounded(band, blocks);
    if p.eobRun > 0 {
      EobProper(band.tbl, p.eobRun);
    }
  }

  lemma {:induction false} ClosedProper(band: Band, done: seq<seq<Block>>)
    requires ValidBand(band) && forall i :: 0 <= i < |done| ==> InRangeAll(band, done[i])
    ensures OfBand(ClosedTokens(band, done), band.tbl) && Proper(ClosedTokens(band, done))
  {
    hide IntervalTokens, IsAcSymbol;
    if done != [] {
      ClosedProper(band, done[..|done| - 1]);
      IntervalProper(band, done[|done| - 1]);
    }
  }

  lemma {:induction false} FirstSymbolFirst(band: Band, b: Block, k: nat, r: nat)
    requires band.se < DCTSIZE2
    ensures var ts := FirstCode(band, b, k, r).body; ts != [] ==> ts[0].Symbol? && !ts[0].isDc && ts[0].tbl == band.tbl
    decreases band.se + 1 - k, r
  {
    hide FirstCode, Natural, Category, Reduced;
    FirstCodeStep(band, b, k, r);
    if k <= band.se && Reduced(b[Natural(k)], band.al) == 0 {
      FirstSymbolFirst(band, b, k + 1, r + 1);
    }
  }

  lemma {:induction false} RefineSymbolFirst(band: Band, b: Block, eob: nat, k: nat, r: nat, br: seq<int>)
    requires band.se < DCTSIZE2
    ensures var ts := RefineCode(band, b, eob, k, r, br).body; ts != [] ==> ts[0].Symbol? && !ts[0].isDc && ts[0].tbl == band.tbl
    decreases band.se + 1 - k, r
  {
    hide RefineCode, Natural, A;
    RefineCodeStep(band, b, eob, k, r, br);
    if k <= band.se {
      var a := A(band, b, k);
      if a == 0 {
        RefineSymbolFirst(band, b, eob, k + 1, r + 1, br);
      } else if a > 1 && !(r > 15 && k <= eob) {
        RefineSymbolFirst(band, b, eob, k + 1, r, br + [a % 2]);
      }
    }
  }

  /** A block leaves a symbol: one of its own, or the one that announces its end. */
  lemma BlockLeavesSymbol(band: Band, p: Pending, b: Block)
    requires ValidBand(band) && Bounded(p)
    ensures var q := AfterBand(band, p, b); q.eobRun > 0 || Occurs(q.sent, false, band.tbl)
  {
    hide FirstCode, RefineCode, LastNew, EobTokens, Occurs, A;
    var c := CodeOfBand(band, b);
    var x := Extended(band, p, c);
    if c.body == [] {
      Trailing(band, b);
      OccursInAnnounced(band.tbl, x);
    } else {
      if band.refine {
        RefineSymbolFirst(band, b, LastNew(band, b, band.se + 1), band.ss, 0, []);
      } else {
        FirstSymbolFirst(band, b, band.ss, 0);
      }
      var s := Announce(band.tbl, p).sent;
      OccursAt(x.sent, |s|, band.tbl, AfterBand(band, p, b).sent);
    }
  }

  lemma Trailing(band: Band, b: Block)
    requires ValidBand(band) && CodeOfBand(band, b).body == []
    ensures CodeOfBand(band, b).trailing
  {
    hide FirstCode, RefineCode, LastNew, A;
    if band.refine {
      RangeEmpty(band, b, band.ss);
      NoBodyRefine(band, b, LastNew(band, b, band.se + 1), band.ss, band.ss, 0, []);
    } else {
      NoBodyFirst(band, b, band.ss, 0);
    }
  }

  lemma OccursAt(ts: seq<Token>, i: nat, tbl: nat, longer: seq<Token>)
    requires i < |ts| && ts[i].Symbol? && !ts[i].isDc && ts[i].tbl == tbl && ts <= longer
    ensures Occurs(longer, false, tbl)
  {
    assert longer[i] == ts[i];
  }

  lemma OccursInAnnounced(tbl: nat, p: Pending)
    requires p.eobRun > 0
    ensures Occurs(Announce(tbl, p).sent, false, tbl)
  {
    hide Category;
    var ts := Announce(tbl, p).sent;
    assert ts[|p.sent|] == Symbol(false, tbl, 16 * Category(p.eobRun / 2));
  }

  lemma LastUsed(band: Band, done: seq<seq<Block>>, blocks: seq<Block>)
    requires ValidBand(band) && blocks != []
    ensures Occurs(ClosedTokens(band, done + [blocks]), false, band.tbl)
  {
    hide AfterBand, EobTokens;
    var all, n := done + [blocks], |blocks| - 1;
    var p := AfterBands(band, blocks);
    AlwaysBounded(band, blocks[..n]);
    BlockLeavesSymbol(band, AfterBands(band, blocks[..n]), blocks[n]);
    assert all[..|all| - 1] == done;
    if p.eobRun > 0 {
      OccursInAnnounced(band.tbl, p);
    }
    var ts := IntervalTokens(band, blocks);
    var i :| 0 <= i < |ts| && ts[i].Symbol? && ts[i].isDc == false && ts[i].tbl == band.tbl;
    assert ClosedTokens(band, all)[|ClosedTokens(band, done)| + i] == ts[i];
  }

  lemma NoBlocks(band: Band)
    requires band.se < DCTSIZE2
    ensures AfterBands(band, []) == Pending([], 0, [])
  {
  }

  lemma SplitGroup(sym: Token, sign: int, hasSign: bool, corr: seq<Token>, c: BandCode)
    ensures Prepend([sym] + (if hasSign then [Raw(sign, 1)] else []) + corr, c)
            == Prepend([sym], if hasSign then Prepend([Raw(sign, 1)], Prepend(corr, c)) else Prepend(corr, c))
  {
    assert [sym] + [Raw(sign, 1)] + corr + c.body == [sym] + ([Raw(sign, 1)] + (corr + c.body));
    assert [sym] + [] + corr + c.body == [sym] + (corr + c.body);
  }

  lemma StartsToken(c: BandCode, head: seq<Token>, d: BandCode)
    requires c == Prepend(head, d) && d.body != []
    ensures c.body != []
  {
  }

  /** The tokens ts have been sent. */
  lemma MoveOn(c: BandCode, head: seq<Token>, ts: seq<Token>, d: BandCode) returns (next: seq<Token>)
    requires c == Prepend(head, Prepend(ts, d)) && ts != []
    ensures next == head + ts && c == Prepend(next, d) && next != []
  {
    next := head + ts;
    assert head + (ts + d.body) == next + d.body;
  }

  /** An uncoded symbol at the end of what has been sent so far makes the whole block fail. */
  lemma FailsLater(book: Book, band: Band, p: Pending, c: BandCode, head: seq<Token>)
    requires ValidBook(book) && band.se < DCTSIZE2 && c.body != [] && head <= c.body
    requires !AllCoded(book, Announce(band.tbl, p).sent + head)
    ensures !AllCoded(book, ForcedOut(band, Extended(band, p, c)).sent)
  {
    hide AllCoded, EobTokens;
    var s, x := Announce(band.tbl, p).sent, ForcedOut(band, Extended(band, p, c)).sent;
    assert x == (s + c.body) + x[|s + c.body|..];
    assert c.body == head + c.body[|head|..];
    assert x == (s + head) + x[|s + head|..];
    if AllCoded(book, x) {
      BitsOfAppend(book, s + head, x[|s + head|..]);
    }
  }

  lemma FailsAt(book: Book, band: Band, p: Pending, c: BandCode, head: seq<Token>, t: Token, rest: BandCode)
    requires ValidBook(book) && band.se < DCTSIZE2 && c == Prepend(head, Prepend([t], rest)) && !Coded(book, t)
    ensures c.body != [] && !AllCoded(book, ForcedOut(band, Extended(band, p, c)).sent)
  {
    hide Announce, Extended, ForcedOut, Coded;
    var s := Announce(band.tbl, p).sent;
    assert c.body == (head + [t]) + rest.body;
    assert (s + (head + [t]))[|s| + |head|] == t;
    FailsLater(book, band, p, c, head + [t]);
  }

  /** What a block comes to that has sent all its tokens, with the correction bits that are left. */
  lemma BodyIs(band: Band, p: Pending, c: BandCode, head: seq<Token>, trailing: bool, bits: seq<int>)
    requires c == Prepend(head, BandCode([], trailing, bits)) && Bounded(p) && (bits != [] ==> trailing)
    ensures var m := Midway(band.tbl, p, head);
            var x := Pending(m.sent, if trailing then m.eobRun + 1 else m.eobRun, m.corr + bits);
            && x.eobRun <= MAX_EOBRUN && |m.corr| <= FLUSH_ABOVE
            && ForcedOut(band, Extended(band, p, c))
               == if trailing && (x.eobRun == MAX_EOBRUN || |x.corr| > FLUSH_ABOVE) then Announce(band.tbl, x) else x
  {
    hide EobTokens;
    assert head + [] == head;
    assert p.corr + [] == p.corr;
  }

  lemma UncodedSymbol(book: Book, band: Band, p: Pending, nbits: nat)
    requires ValidBook(book) && p.eobRun > 0 && nbits == Category(p.eobRun / 2) && !Coded(book, Symbol(false, band.tbl, 16 * nbits))
    ensures !AllCoded(book, Announce(band.tbl, p).sent)
  {
    hide Category, Coded;
    assert Announce(band.tbl, p).sent[|p.sent|] == Symbol(false, band.tbl, 16 * nbits);
  }

  lemma OneToken(book: Book, sent: seq<Token>, t: Token)
    requires ValidBook(book) && AllCoded(book, sent) && Coded(book, t)
    ensures AllCoded(book, sent + [t]) && BitsOf(book, sent + [t]) == BitsOf(book, sent) + TokenBits(book, t)
  {
    BitsOfAppend(book, sent, [t]);
    assert BitsOf(book, [t]) == TokenBits(book, t) by {
      assert [t][1..] == [];
      NoBits(book, [t][1..]);
    }
    assert AllCoded(book, [t]);
  }

  lemma NothingYet(book: Book, band: Band, counts: seq<int>)
    requires ValidBook(book) && ValidBand(band)
    requires |counts| == COUNTERS && forall i :: 0 <= i < COUNTERS ==> counts[i] == 0
    ensures AllCoded(book, []) && BitsOf(book, []) == [] && Pack([]) == [] && Partial([]) == [] && Buffered(0, [])
    ensures ClosedTokens(band, []) == [] && IntervalsCoded(book, band, []) && ClosedBytes(book, band, []) == []
    ensures counts == Tally(Zeros(COUNTERS), [] + [], false, band.tbl)
    ensures AfterBands(band, []) == Pending([], 0, [])
  {
    hide Buffered, Pack, Value, Pow2, Padding, IntervalTokens;
    NothingWritten();
  }

  // ----- Optimised tables -----

  /** What has been sent so far is the beginning of the interval's tokens. */
  lemma {:induction false} SentFirst(band: Band, blocks: seq<Block>, n: nat)
    requires ValidBand(band) && n <= |blocks|
    ensures AfterBands(band, blocks[..n]).sent <= AfterBands(band, blocks).sent <= IntervalTokens(band, blocks)
    decreases |blocks| - n
  {
    hide AfterBand, Announce;
    assert blocks[..|blocks|] == blocks;
    SentGrows(band, AfterBands(band, blocks[..n]), if n < |blocks| then blocks[n] else ZeroBlock());
    if n < |blocks| {
      assert blocks[..n + 1][..n] == blocks[..n];
      SentFirst(band, blocks, n + 1);
    }
  }

  lemma SentGrows(band: Band, p: Pending, b: Block)
    requires band.se < DCTSIZE2
    ensures p.sent <= AfterBand(band, p, b).sent && p.sent <= Announce(band.tbl, p).sent
  {
    hide CodeOfBand, EobTokens;
  }

  lemma {:induction false} InClosed(band: Band, done: seq<seq<Block>>, i: nat)
    requires ValidBand(band) && i < |done|
    ensures forall j :: 0 <= j < |IntervalTokens(band, done[i])| ==> IntervalTokens(band, done[i])[j] in ClosedTokens(band, done)
    decreases |done|
  {
    hide IntervalTokens;
    if i < |done| - 1 {
      InClosed(band, done[..|done| - 1], i);
    }
  }

  /**
   With the table made from the counts of a statistics pass over the same blocks, the output pass
   never meets a symbol without a code, neither in a finished interval nor on the way.
   */
  lemma ProgressiveTablesNeverFail(book: Book, band: Band, done: seq<seq<Block>>, bits: seq<int>, huffval: seq<int>, i: nat, n: nat)
    requires ValidBook(book) && ValidBand(band) && band.tbl < NUM_HUFF_TBLS
    requires forall k :: 0 <= k < |done| ==> InRangeAll(band, done[k])
    requires OptimalTable.LegalFor(Tally(Zeros(COUNTERS), ClosedTokens(band, done), false, band.tbl)[..256], bits, huffval)
    requires |bits| == 17 && Lengths(Used(bits)) && Encodes(Used(bits), huffval, Count0(bits), book.ac[band.tbl].co, book.ac[band.tbl].si)
    requires i < |done| && n <= |done[i]|
    ensures AllCoded(book, IntervalTokens(band, done[i])) && AllCoded(book, AfterBands(band, done[i][..n]).sent)
  {
    hide Tally, OptimalTable.LegalFor, Encodes, IntervalTokens, AfterBands, ValidBook, Count;
    var all, ts := ClosedTokens(band, done), IntervalTokens(band, done[i]);
    ClosedProper(band, done);
    InClosed(band, done, i);
    forall j | 0 <= j < |ts|
      ensures Coded(book, ts[j])
    {
      assert IntervalTokens(band, done[i])[j] in all;
      var k :| 0 <= k < |all| && all[k] == ts[j];
      BandTokenCoded(book, band, all, k, bits, huffval);
    }
    SentFirst(band, done[i], n);
    var part := AfterBands(band, done[i][..n]).sent;
    assert forall j :: 0 <= j < |part| ==> part[j] == ts[j];
  }

  lemma BandTokenCoded(book: Book, band: Band, all: seq<Token>, k: nat, bits: seq<int>, huffval: seq<int>)
    requires ValidBook(book) && band.tbl < NUM_HUFF_TBLS && OfBand(all, band.tbl) && k < |all|
    requires OptimalTable.LegalFor(Tally(Zeros(COUNTERS), all, false, band.tbl)[..256], bits, huffval)
    requires |bits| == 17 && Lengths(Used(bits)) && Encodes(Used(bits), huffval, Count0(bits), book.ac[band.tbl].co, book.ac[band.tbl].si)
    ensures Coded(book, all[k])
  {
    hide Tally, OptimalTable.LegalFor, Encodes, Count;
    match all[k] {
      case Symbol(_, _, s) =>
        TallyCounts(Zeros(COUNTERS), all, false, band.tbl, s);
        assert all[k] in all;
        CodedSymbol(Tally(Zeros(COUNTERS), all, false, band.tbl)[..256], bits, huffval, book.ac[band.tbl], s);
      case Raw(_, _) =>
    }
  }
}
