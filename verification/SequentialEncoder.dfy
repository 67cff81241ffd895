/**
 The sequential Huffman encoder (jpeg/jchuff.c): encode_one_block, emit_restart, encode_mcu_huff
 and finish_pass_huff. An MCU is either written completely or, if the destination suspends or the
 MCU cannot be coded, leaves no trace.
 */
module SequentialEncoder {
  import opened JpegLimits
  import opened Arith
  import opened BitString
  import opened ByteStream
  import opened BitWriter
  import opened DerivedTables
  import opened Coefficients
  import opened BlockCoding
  import opened ScanCoding

  /** Since the working state held the bits s with free0 bytes free, exactly the tokens sent have been written. */
  ghost predicate Progress(state: WorkingState, book: Book, base: Bytes, s: Bits, sent: seq<Token>, free0: int)
    requires ValidBook(book)
    reads state
  {
    && AllCoded(book, sent)
    && state.Holds(base, s + BitsOf(book, sent))
    && (state.suspending ==> state.free == free0 - Growth(s, BitsOf(book, sent)))
  }

  /** How many bytes the bits t add to those of s. */
  ghost function Growth(s: Bits, t: Bits): int
  {
    |Pack(s + t)| - |Pack(s)|
  }

  lemma GrowthMono(s: Bits, t: Bits, u: Bits)
    ensures 0 <= Growth(s, t) <= Growth(s, t + u)
  {
    hide Pack;
    LongerPack(s, t);
    LongerPack(s + t, u);
    assert (s + t) + u == s + (t + u);
  }

  /** The tokens up to some point are coded within what all of them take. */
  lemma GrowthOfPart(book: Book, s: Bits, a: seq<Token>, b: seq<Token>)
    requires ValidBook(book) && AllCoded(book, a + b)
    ensures AllCoded(book, a) && 0 <= Growth(s, BitsOf(book, a)) <= Growth(s, BitsOf(book, a + b))
  {
    hide Growth, BitsOf, AllCoded;
    BitsOfAppend(book, a, b);
    GrowthMono(s, BitsOf(book, a), BitsOf(book, b));
  }

  lemma OneMore(book: Book, s: Bits, sent: seq<Token>, t: Token)
    requires ValidBook(book) && AllCoded(book, sent) && Coded(book, t)
    ensures AllCoded(book, sent + [t]) && s + BitsOf(book, sent + [t]) == (s + BitsOf(book, sent)) + TokenBits(book, t)
  {
    BitsOfAppend(book, sent, [t]);
    assert BitsOf(book, [t]) == TokenBits(book, t) by {
      assert [t][1..] == [];
      NoBits(book, [t][1..]);
    }
    assert AllCoded(book, [t]);
  }

  /** One call of emit_bits. */
  method Send(state: WorkingState, book: Book, t: Token, ghost base: Bytes, ghost s: Bits, ghost sent: seq<Token>, ghost free0: int)
      returns (st: Outcome)
    requires ValidBook(book) && Progress(state, book, base, s, sent, free0)
    requires match t
             case Symbol(_, tbl, sym) => tbl < NUM_HUFF_TBLS && sym < 256
             case Raw(_, size) => 1 <= size <= 16
    modifies state`out, state`free, state`putBuffer, state`putBits
    ensures st == Done ==> Coded(book, t) && Progress(state, book, base, s, sent + [t], free0)
    ensures st == MissingCode ==> !Coded(book, t)
    ensures st == Suspended ==> state.suspending && Coded(book, t) && AllCoded(book, sent + [t])
                                && free0 <= Growth(s, BitsOf(book, sent + [t]))
    ensures st != BadCoefficient
  {
    hide BitsOf, Pack, Low, Buffered, AllCoded;
    var code, size;
    match t {
      case Symbol(isDc, tbl, sym) =>
        var tab := TableOf(book, isDc, tbl);
        code, size := tab.co[sym], tab.si[sym];
      case Raw(c, n) =>
        code, size := c, n;
    }
    if size != 0 {
      OneMore(book, s, sent, t);
    }
    st := state.EmitBits(code, size, base, s + BitsOf(book, sent));
  }

  /** Why writing the tokens all did not succeed. */
  ghost predicate Failure(st: Outcome, suspending: bool, book: Book, s: Bits, all: seq<Token>, free0: int)
    requires ValidBook(book)
  {
    match st
    case Suspended => suspending && (AllCoded(book, all) ==> free0 <= Growth(s, BitsOf(book, all)))
    case MissingCode => !AllCoded(book, all)
    case _ => false
  }

  /** The first tokens failing, all of them do. */
  lemma FailureOfPart(st: Outcome, suspending: bool, book: Book, s: Bits, a: seq<Token>, b: seq<Token>, free0: int)
    requires ValidBook(book) && Failure(st, suspending, book, s, a, free0)
    ensures Failure(st, suspending, book, s, a + b, free0)
  {
    hide Growth, BitsOf, AllCoded;
    BitsOfAppend(book, a, b);
    if AllCoded(book, a + b) {
      GrowthOfPart(book, s, a, b);
    }
  }

  /** The next of the tokens in all, which are what has been sent and what is still to come. */
  method SendNext(state: WorkingState, book: Book, t: Token, ghost base: Bytes, ghost s: Bits, ghost sent: seq<Token>,
                  ghost rest: seq<Token>, ghost all: seq<Token>, ghost free0: int)
      returns (st: Outcome)
    requires ValidBook(book) && Progress(state, book, base, s, sent, free0)
    requires all == sent + ([t] + rest)
    requires match t
             case Symbol(_, tbl, sym) => tbl < NUM_HUFF_TBLS && sym < 256
             case Raw(_, size) => 1 <= size <= 16
    modifies state`out, state`free, state`putBuffer, state`putBits
    ensures st == Done ==> Progress(state, book, base, s, sent + [t], free0) && all == (sent + [t]) + rest
    ensures st != Done ==> Failure(st, state.suspending, book, s, all, free0)
  {
    hide Growth, BitsOf, Progress, Coded;
    assert all == (sent + [t]) + rest;
    st := Send(state, book, t, base, s, sent, free0);
    if st != Done {
      assert (sent + [t])[|sent|] == t;
      FailureOfPart(st, state.suspending, book, s, sent + [t], rest, free0);
    }
  }

  /** The DC difference of a block (T.81, section F.1.2.1). */
  method EncodeDc(state: WorkingState, book: Book, dcTbl: nat, diff: int, ghost base: Bytes, ghost s: Bits,
                  ghost sent: seq<Token>, ghost rest: seq<Token>, ghost all: seq<Token>, ghost free0: int)
      returns (st: Outcome)
    requires ValidBook(book) && dcTbl < NUM_HUFF_TBLS && Progress(state, book, base, s, sent, free0)
    requires all == sent + (DcTokens(dcTbl, diff) + rest)
    modifies state`out, state`free, state`putBuffer, state`putBits
    ensures st == Done ==> Category(Abs(diff)) <= MAX_COEF_BITS + 1
    ensures st == Done ==> Progress(state, book, base, s, sent + DcTokens(dcTbl, diff), free0)
    ensures st == Done ==> all == (sent + DcTokens(dcTbl, diff)) + rest
    ensures st == BadCoefficient ==> Category(Abs(diff)) > MAX_COEF_BITS + 1
    ensures st != Done && st != BadCoefficient ==> Failure(st, state.suspending, book, s, all, free0)
  {
    hide Growth, BitsOf, Progress, Category;
    var temp, temp2 := diff, diff;
    if temp < 0 {
      temp := 0 - temp;
      temp2 := temp2 - 1;
    }
    var nbits := CountBits(temp);
    if nbits > MAX_COEF_BITS + 1 {
      return BadCoefficient;
    }
    ghost var tail: seq<Token> := if nbits != 0 then [Raw(temp2, nbits)] else [];
    assert DcTokens(dcTbl, diff) == [Symbol(true, dcTbl, nbits)] + tail;
    assert all == sent + ([Symbol(true, dcTbl, nbits)] + (tail + rest));
    st := SendNext(state, book, Symbol(true, dcTbl, nbits), base, s, sent, tail + rest, all, free0);
    assert (sent + [Symbol(true, dcTbl, nbits)]) + tail == sent + DcTokens(dcTbl, diff);
    assert nbits == 0 ==> DcTokens(dcTbl, diff) == [Symbol(true, dcTbl, nbits)];
    if st == Done && nbits != 0 {
      st := SendNext(state, book, Raw(temp2, nbits), base, s, sent + [Symbol(true, dcTbl, nbits)], rest, all, free0);
    }
  }

  /** The AC coefficients of a block (T.81, section F.1.2.2). */
  method EncodeAc(state: WorkingState, book: Book, acTbl: nat, block: Block, ghost base: Bytes, ghost s: Bits,
                  ghost sent: seq<Token>, ghost all: seq<Token>, ghost free0: int)
      returns (st: Outcome)
    requires ValidBook(book) && acTbl < NUM_HUFF_TBLS && Progress(state, book, base, s, sent, free0)
    requires all == sent + AcTokens(acTbl, block, 1, 0)
    modifies state`out, state`free, state`putBuffer, state`putBits
    ensures st == Done ==> InRangeFrom(block, 1) && Progress(state, book, base, s, all, free0)
    ensures st == BadCoefficient ==> !InRangeFrom(block, 1)
    ensures st != Done && st != BadCoefficient ==> Failure(st, state.suspending, book, s, all, free0)
  {
    hide Growth, BitsOf, Progress, Category, Natural, AcTokens;
    var r: nat := 0;
    ghost var now := sent;
    for k := 1 to DCTSIZE2
      invariant Progress(state, book, base, s, now, free0) && all == now + AcTokens(acTbl, block, k, r)
      invariant forall j :: 1 <= j < k ==> Category(Abs(block[Natural(j)])) <= MAX_COEF_BITS
    {
      var temp := block[Natural(k)];
      if temp == 0 {
        AcZero(acTbl, block, k, r);
        CategoryZero(temp);
        r := r + 1;
      } else {
        while r > 15
          invariant Progress(state, book, base, s, now, free0) && all == now + AcTokens(acTbl, block, k, r)
        {
          AcLong(acTbl, block, k, r);
          st := SendNext(state, book, Symbol(false, acTbl, ZRL), base, s, now, AcTokens(acTbl, block, k, r - 16), all, free0);
          if st != Done {
            return;
          }
          now := now + [Symbol(false, acTbl, ZRL)];
          r := r - 16;
        }
        var temp2 := temp;
        if temp < 0 {
          temp := 0 - temp;
          temp2 := temp2 - 1;
        }
        var nbits := CountBits(temp);
        if nbits > MAX_COEF_BITS {
          return BadCoefficient;
        }
        CategoryZero(block[Natural(k)]);
        var i := 16 * r + nbits;
        ghost var rest := AcTokens(acTbl, block, k + 1, 0);
        AcShort(acTbl, block, k, r);
        st := SendNext(state, book, Symbol(false, acTbl, i), base, s, now, [Raw(temp2, nbits)] + rest, all, free0);
        if st != Done {
          return;
        }
        now := now + [Symbol(false, acTbl, i)];
        st := SendNext(state, book, Raw(temp2, nbits), base, s, now, rest, all, free0);
        if st != Done {
          return;
        }
        now := now + [Raw(temp2, nbits)];
        r := 0;
      }
    }
    AcLast(acTbl, block, r);
    if r > 0 {
      st := SendNext(state, book, Symbol(false, acTbl, EOB), base, s, now, [], all, free0);
      if st != Done {
        return;
      }
      now := now + [Symbol(false, acTbl, EOB)];
    }
    assert all == now;
    st := Done;
  }

  /** encode_one_block: the block's tokens, if its coefficients are in range. */
  method EncodeOneBlock(state: WorkingState, book: Book, dcTbl: nat, acTbl: nat, block: Block, lastDc: int, ghost base: Bytes,
                        ghost s: Bits, ghost sent: seq<Token>, ghost free0: int)
      returns (st: Outcome)
    requires ValidBook(book) && dcTbl < NUM_HUFF_TBLS && acTbl < NUM_HUFF_TBLS && Progress(state, book, base, s, sent, free0)
    modifies state`out, state`free, state`putBuffer, state`putBits
    ensures st == Done ==> BlockInRange(block, lastDc)
    ensures st == Done ==> Progress(state, book, base, s, sent + BlockTokens(dcTbl, acTbl, block, lastDc), free0)
    ensures st == BadCoefficient ==> !BlockInRange(block, lastDc)
    ensures st != Done && st != BadCoefficient ==>
              Failure(st, state.suspending, book, s, sent + BlockTokens(dcTbl, acTbl, block, lastDc), free0)
  {
    hide Growth, BitsOf, Progress, Category, Natural, AcTokens, DcTokens;
    var diff := block[0] - lastDc;
    ghost var ac := AcTokens(acTbl, block, 1, 0);
    ghost var all := sent + (DcTokens(dcTbl, diff) + ac);
    st := EncodeDc(state, book, dcTbl, diff, base, s, sent, ac, all, free0);
    if st == Done {
      st := EncodeAc(state, book, acTbl, block, base, s, sent + DcTokens(dcTbl, diff), all, free0);
    }
  }

  /** emit_restart: ends the segment with a restart marker; no prediction carries over. */
  method EmitRestart(state: WorkingState, restartNum: nat, ghost base: Bytes, ghost s: Bits) returns (st: Outcome)
    requires state.Holds(base, s) && restartNum < 8
    modifies state
    ensures st == Done || st == Suspended
    ensures st == Suspended <==> state.suspending && old(state.free) <= Growth(s, Padding()) + 2
    ensures st == Done ==> state.Holds(Ended(base, s, restartNum), [])
    ensures st == Done ==> exists bytes :: FilledWithOnes(s, bytes) && state.out == base + bytes + [0xFF, 0xD0 + restartNum]
    ensures st == Done ==> state.lastDc == Zeros(|old(state.lastDc)|)
    ensures st == Done && state.suspending ==> state.free == old(state.free) - Growth(s, Padding()) - 2
  {
    hide Buffered, Padding, Pack, Ended;
    st := state.EndSegment(restartNum, base, s);
    if st == Done {
      state.lastDc := Zeros(|state.lastDc|);
    }
  }

  /** The loop over the blocks of an MCU. */
  method EncodeBlocks(state: WorkingState, book: Book, scan: Scan, mcu: Mcu, ghost base: Bytes, ghost s: Bits)
      returns (st: Outcome)
    requires ValidBook(book) && Fits(scan, mcu, state.lastDc) && state.Holds(base, s)
    modifies state
    ensures st == Done ==> RangeFrom(scan, mcu, 0, old(state.lastDc))
    ensures st == Done ==> Progress(state, book, base, s, TokensFrom(scan, mcu, 0, old(state.lastDc)), old(state.free))
    ensures st == Done ==> state.lastDc == DcAfter(scan, mcu, 0, old(state.lastDc))
    ensures st == BadCoefficient ==> !RangeFrom(scan, mcu, 0, old(state.lastDc))
    ensures st != Done && st != BadCoefficient ==>
              Failure(st, state.suspending, book, s, TokensFrom(scan, mcu, 0, old(state.lastDc)), old(state.free))
  {
    hide BitsOf, BlockTokens, BlockInRange, Growth;
    ghost var dc0, free0 := state.lastDc, state.free;
    ghost var all, sent: seq<Token> := TokensFrom(scan, mcu, 0, dc0), [];
    NothingSent(state, book, base, s);
    for blkn := 0 to |mcu|
      invariant Fits(scan, mcu, state.lastDc)
      invariant Progress(state, book, base, s, sent, free0) && all == sent + TokensFrom(scan, mcu, blkn, state.lastDc)
      invariant DcAfter(scan, mcu, blkn, state.lastDc) == DcAfter(scan, mcu, 0, dc0)
      invariant RangeFrom(scan, mcu, blkn, state.lastDc) == RangeFrom(scan, mcu, 0, dc0)
    {
      var ci := scan.membership[blkn];
      ghost var tokens := BlockTokens(scan.dcTbl[ci], scan.acTbl[ci], mcu[blkn], state.lastDc[ci]);
      ghost var rest := TokensFrom(scan, mcu, blkn + 1, state.lastDc[ci := mcu[blkn][0]]);
      assert all == (sent + tokens) + rest;
      st := EncodeOneBlock(state, book, scan.dcTbl[ci], scan.acTbl[ci], mcu[blkn], state.lastDc[ci], base, s, sent, free0);
      if st != Done {
        if st != BadCoefficient {
          FailureOfPart(st, state.suspending, book, s, sent + tokens, rest, free0);
        }
        return;
      }
      sent := sent + tokens;
      state.lastDc := state.lastDc[ci := mcu[blkn][0]];
    }
    assert all == sent;
    st := Done;
  }

  lemma NothingSent(state: WorkingState, book: Book, base: Bytes, s: Bits)
    requires ValidBook(book) && state.Holds(base, s)
    ensures Progress(state, book, base, s, [], state.free)
  {
    hide Pack, Buffered;
    NoBits(book, []);
    assert s + [] == s;
  }

  /** The encoder between MCUs. */
  class HuffEncoder {
    const scan: Scan
    const book: Book
    const suspending: bool
    const bufferSize: nat
    var out: Bytes
    var free: nat
    var putBuffer: nat
    var putBits: nat
    var lastDc: seq<int>
    var restartsToGo: nat
    var nextRestartNum: nat
    ghost var output: Output

    /** start_pass_huff, once the derived tables are made. */
    constructor (scan: Scan, book: Book, free: nat, suspending: bool, bufferSize: nat)
      requires ValidScan(scan) && ValidBook(book) && free > 0 && bufferSize > 0
      ensures Valid() && output == Start(scan)
      ensures this.scan == scan && this.book == book && this.suspending == suspending && this.free == free
    {
      hide Pack, Buffered, Partial, ValidBook, Value, Pow2;
      this.scan, this.book, this.suspending, this.bufferSize := scan, book, suspending, bufferSize;
      out, this.free, putBuffer, putBits := [], free, 0, 0;
      lastDc := Zeros(|scan.dcTbl|);
      restartsToGo, nextRestartNum := scan.restartInterval, 0;
      output := Start(scan);
      new;
      NothingWritten();
    }

    ghost predicate Valid()
      reads this
    {
      && ValidBook(book) && ValidOutput(scan, output)
      && out == Sent(output) && putBits == |Partial(output.seg)| && Buffered(putBuffer, Partial(output.seg))
      && lastDc == output.lastDc && restartsToGo == output.toGo && nextRestartNum == output.next
      && free > 0 && bufferSize > 0
    }

    /** The application makes room in the destination. */
    method MakeRoom(free: nat)
      requires Valid() && free > 0
      modifies this`free
      ensures Valid() && this.free == free
    {
      this.free := free;
    }

    /** A working copy of the saved state, in which a restart marker that is due has been written. */
    method BeginMcu() returns (st: Outcome, state: WorkingState)
      requires Valid()
      ensures fresh(state) && (st == Done || st == Suspended) && state.suspending == suspending && state.bufferSize == bufferSize
      ensures st == Suspended <==> suspending && RestartDue(scan, output.toGo) && free <= Growth(output.seg, Padding()) + 2
      ensures st == Done ==> var b := Begun(scan, output);
                             && state.Holds(b.written, b.seg) && state.lastDc == b.lastDc
                             && (suspending ==> state.free == free - (|Sent(b)| - |Sent(output)|))
    {
      hide Buffered, Pack, Low, Partial, ValidBook, ValidScan, Padding, Word, Value, Pow2, FilledWithOnes;
      state := new WorkingState(out, free, putBuffer, putBits, lastDc, suspending, bufferSize);
      st := Done;
      if scan.restartInterval != 0 {
        if restartsToGo == 0 {
          PackNone([]);
          st := EmitRestart(state, nextRestartNum, output.written, output.seg);
        }
      }
    }

    /**
     encode_mcu_huff. The saved state changes only if the whole MCU has been written, so a call
     that was refused can be repeated; it is refused exactly if the MCU cannot be coded or a
     suspending destination would be left without free space.
     */
    method EncodeMcu(mcu: Mcu) returns (st: Outcome)
      requires Valid() && |mcu| == |scan.membership|
      modifies this
      ensures Valid()
      ensures st != Done ==> unchanged(this)
      ensures st == Done ==> Encodable(book, scan, old(output), mcu) && output == AfterMcu(book, scan, old(output), mcu)
      ensures st == Done && suspending ==> free == old(free) - (|out| - |old(out)|)
      ensures Encodable(book, scan, old(output), mcu) ==>
                (st == Done || st == Suspended)
                && (st == Done <==>
                    !suspending || old(free) > |Sent(AfterMcu(book, scan, old(output), mcu))| - |Sent(old(output))|)
    {
      hide Buffered, BitsOf, AllCoded, Pack, TokensFrom, DcAfter, RangeFrom, Low, Partial, ValidBook, ValidScan, Padding, Word, Value, Pow2;
      hide Begun, Encodable, AfterMcu, McuTokens;
      ghost var o, b := output, Begun(scan, output);
      McuIs(book, scan, o, mcu);
      var state;
      st, state := BeginMcu();
      if st != Done {
        RefusedEarly(book, scan, o, mcu, free);
        return;
      }
      st := EncodeBlocks(state, book, scan, mcu, b.written, b.seg);
      if st != Done {
        return;
      }
      ghost var all := McuTokens(scan, o, mcu);
      out, free, putBuffer, putBits, lastDc := state.out, state.free, state.putBuffer, state.putBits, state.lastDc;
      if scan.restartInterval != 0 {
        if restartsToGo == 0 {
          restartsToGo := scan.restartInterval;
          nextRestartNum := (nextRestartNum + 1) % 8;
        }
        restartsToGo := restartsToGo - 1;
      }
      output := AfterMcu(book, scan, o, mcu);
    }

    /** finish_pass_huff: flushes the last bits; a destination that suspends now is an error. */
    method FinishPass() returns (ok: bool)
      requires Valid()
      modifies this
      ensures ok <==> !suspending || old(free) > |Flushed(old(output))| - |Sent(old(output))|
      ensures !ok ==> unchanged(this)
      ensures ok ==> out == Flushed(old(output))
      ensures ok ==> exists bytes :: FilledWithOnes(old(output).seg, bytes) && out == old(output).written + bytes
    {
      hide Buffered, Pack, Low, Partial, FilledWithOnes;
      PaddedWithOnes(output.seg);
      var state := new WorkingState(out, free, putBuffer, putBits, lastDc, suspending, bufferSize);
      var st := state.FlushBits(output.written, output.seg);
      if st != Done {
        return false;
      }
      PackNone([]);
      out, free, putBuffer, putBits := state.out, state.free, state.putBuffer, state.putBits;
      return true;
    }
  }

  /** What an MCU adds to the output. */
  lemma McuIs(book: Book, scan: Scan, o: Output, mcu: Mcu)
    requires ValidBook(book) && ValidOutput(scan, o) && |mcu| == |scan.membership|
    ensures var b := Begun(scan, o);
            && |b.lastDc| == |scan.dcTbl| && b.toGo == (if RestartDue(scan, o.toGo) then scan.restartInterval else o.toGo)
            && b.next == (if RestartDue(scan, o.toGo) then (o.next + 1) % 8 else o.next)
            && McuTokens(scan, o, mcu) == TokensFrom(scan, mcu, 0, b.lastDc)
            && (Encodable(book, scan, o, mcu) <==> RangeFrom(scan, mcu, 0, b.lastDc) && AllCoded(book, McuTokens(scan, o, mcu)))
            && (Encodable(book, scan, o, mcu) ==>
                  AfterMcu(book, scan, o, mcu)
                  == Output(b.written, b.seg + BitsOf(book, McuTokens(scan, o, mcu)), DcAfter(scan, mcu, 0, b.lastDc),
                            if scan.restartInterval != 0 then b.toGo - 1 else b.toGo, b.next))
  {
    hide BitsOf, AllCoded, TokensFrom, DcAfter, RangeFrom, ValidBook, Pack, Padding;
  }

  /** The restart marker alone takes too much room. */
  lemma RefusedEarly(book: Book, scan: Scan, o: Output, mcu: Mcu, free: int)
    requires ValidBook(book) && ValidOutput(scan, o) && RestartDue(scan, o.toGo) && |mcu| == |scan.membership|
    requires free <= Growth(o.seg, Padding()) + 2
    ensures Encodable(book, scan, o, mcu) ==> free <= |Sent(AfterMcu(book, scan, o, mcu))| - |Sent(o)|
  {
    hide Pack, BitsOf, Encodable, TokensFrom, DcAfter;
  }
}
