/**
 The progressive Huffman decoder for AC scans (jpeg/jdphuff.c): decode_mcu_AC_first,
 decode_mcu_AC_refine and process_restart. A block that the source cuts short is left in a state
 from which decoding it again gives what one uninterrupted call would have given.
 */
module ProgressiveDecoder {
  import opened JpegLimits
  import opened Arith
  import opened BitString
  import opened ByteStream
  import opened BitWriter
  import opened CodeSpace
  import opened CanonicalCode
  import opened DerivedTables
  import opened BitReader
  import opened Coefficients
  import opened BlockCoding
  import opened ScanCoding
  import opened ScanDecoding
  import opened MarkerReading
  import opened SequentialDecoder
  import opened ProgressiveCoding
  import opened ProgressiveDecoding

  /** A block to be decoded: the table, the band, the run before it, where its bits begin, and its coefficients. */
  datatype Task = Task(d: DecTable, band: Band, run: nat, ghost stream: Bits, ghost at: nat, ghost block: Block)

  ghost predicate ValidTask(t: Task)
  {
    ValidDecTable(t.d) && ValidBand(t.band) && t.band.al <= MAX_AL && ShortBlock(t.block)
  }

  /** What the block will be. */
  ghost function Whole(t: Task): Decoding
    requires ValidTask(t)
  {
    DecodeBand(t.d, t.band, t.stream, t.at, t.run, t.block)
  }

  /** The block with the new coefficients removed. */
  function Without(b: Block, newnz: seq<nat>): (r: Block)
  {
    seq(DCTSIZE2, i requires 0 <= i < DCTSIZE2 => if i in newnz then 0 else b[i])
  }

  /** Once the new coefficients are removed, the block can be decoded again. */
  ghost predicate Redoable(t: Task, b: Block, newnz: seq<nat>)
    requires ValidTask(t)
  {
    var u := Without(b, newnz);
    && ShortBlock(u) && (forall i :: 0 <= i < DCTSIZE2 ==> (u[i] == 0 <==> t.block[i] == 0))
    && DecodeBand(t.d, t.band, t.stream, t.at, t.run, u) == Whole(t)
  }

  lemma NothingNew(t: Task)
    requires ValidTask(t)
    ensures Redoable(t, t.block, [])
  {
    hide DecodeBand, ValidDecTable;
    assert Without(t.block, []) == t.block;
  }

  /** A correction that will be in the block anyway. */
  lemma CorrectionStays(t: Task, b: Block, newnz: seq<nat>, x: nat, w: int)
    requires ValidTask(t) && t.band.refine && Redoable(t, b, newnz)
    requires x < DCTSIZE2 && Zigzag(x) <= t.band.se && Zigzag(x) < 63 && x !in newnz && b[x] != 0
    requires w != 0 && -0x8000 <= w < 0x8000 && w == Whole(t).block[x]
    ensures Redoable(t, b[x := w], newnz)
  {
    hide DecodeBand, ValidDecTable, Zigzag;
    var u := Without(b, newnz);
    assert Without(b[x := w], newnz) == u[x := w];
    BandAgain(t.d, t.band, t.stream, t.at, t.run, u, x, w);
  }

  /** A new coefficient is remembered. */
  lemma NewRemembered(t: Task, b: Block, newnz: seq<nat>, x: nat, s: int)
    requires ValidTask(t) && Redoable(t, b, newnz) && x < DCTSIZE2 && b[x] == 0
    ensures Redoable(t, b[x := s], newnz + [x])
  {
    hide DecodeBand, ValidDecTable;
    assert Without(b[x := s], newnz + [x]) == Without(b, newnz);
  }

  /** A correction bit, unless the coefficient has it already. */
  method AddBit(v: int, bit: nat, p1: nat, al: nat) returns (w: int)
    requires p1 == Pow2(al) && -0x8000 <= v < 0x8000
    ensures w == Stored(v, bit, al)
  {
    hide Pow2, ToShort;
    ShortIs(v);
    w := v;
    if bit == 1 {
      if (v / p1) % 2 == 0 {
        w := ToShort(if v >= 0 then v + p1 else v - p1);
      }
    }
  }

  /** Reads the correction bit of a coefficient that was not zero before. */
  method Correct(r: Reader, block: array<int>, i: nat, p1: nat, al: nat, ghost stream: Bits, ghost at: nat) returns (ok: bool)
    requires r.Tracks(stream, at) && block.Length == DCTSIZE2 && i < DCTSIZE2 && p1 == Pow2(al) && al <= MAX_AL
    requires ShortBlock(block[..]) && block[i] != 0
    modifies r, block
    ensures r.Steady(ok)
    ensures ok ==> r.Tracks(stream, at + 1) && r.insufficient == (old(r.insufficient) || at + 1 > |stream|)
    ensures block[..] == if ok then old(block[..])[i := Stored(old(block[i]), Peek(Tail(stream, at), 1), al)] else old(block[..])
    ensures ShortBlock(block[..]) && block[i] != 0
  {
    hide r.Tracks, r.Ready, r.End, r.Rest, Peek, Pow2, Stored;
    r.TracksValid(stream, at);
    StoredShort(block[i], Peek(Tail(stream, at), 1), al);
    CorrectedOnce(block[i], Peek(Tail(stream, at), 1), al);
    var bit;
    ok, bit := r.GetBits(1, stream, at);
    if ok {
      block[i] := AddBit(block[i], bit, p1, al);
    }
  }

  /** The decoder's part in a block: its bits are read, and its coefficients fit 16 bits. */
  ghost predicate Refining(t: Task, p1: nat, b: Block)
  {
    ValidTask(t) && t.band.refine && p1 == Pow2(t.band.al) && ShortBlock(b)
  }

  /** After a correction at position k, unless the band has been passed. */
  lemma Corrected(t: Task, b: Block, newnz: seq<nat>, at: nat, k: nat, r: nat, s: int, w: int)
    requires ValidTask(t) && t.band.refine && Redoable(t, b, newnz) && k < t.band.se && b[Natural(k)] != 0
    requires forall n :: n in newnz ==> n < DCTSIZE2 && Zigzag(n) < k
    requires w != 0 && -0x8000 <= w < 0x8000
    requires AfterSymbol(t.d, t.band, t.stream, at, k + 1, r, s, b[Natural(k) := w]) == Whole(t)
    ensures Redoable(t, b[Natural(k) := w], newnz)
  {
    hide AfterSymbol, DecodeBand, ValidDecTable, Natural, Zigzag, Redoable;
    OrdersInverse(k);
    SymbolKeeps(t.d, t.band, t.stream, at, k + 1, r, s, b[Natural(k) := w], Natural(k));
    CorrectionStays(t, b, newnz, Natural(k), w);
  }

  /**
   Advances over r coefficients that are still zero, correcting the others; s is what the next one
   becomes, or zero.
   */
  method PassZeros(r: Reader, t: Task, p1: nat, block: array<int>, k0: nat, zeros: nat, ghost s: int, ghost newnz: seq<nat>, ghost at0: nat)
      returns (ok: bool, k: nat, ghost at: nat)
    requires block.Length == DCTSIZE2 && Refining(t, p1, block[..]) && r.Tracks(t.stream, at0) && k0 <= t.band.se
    requires AfterSymbol(t.d, t.band, t.stream, at0, k0, zeros, s, block[..]) == Whole(t)
    requires Redoable(t, block[..], newnz) && forall n :: n in newnz ==> n < DCTSIZE2 && Zigzag(n) < k0
    modifies r, block
    ensures r.Steady(ok) && ShortBlock(block[..])
    ensures ok ==> k0 <= k <= t.band.se + 1 && at >= at0 && r.Tracks(t.stream, at) && r.insufficient == (old(r.insufficient) || at > |t.stream|)
    ensures ok ==> DecodeRefine(t.d, t.band, t.stream, at, k + 1, if s != 0 then block[..][Natural(k) := s] else block[..]) == Whole(t)
    ensures ok && k <= t.band.se ==> block[Natural(k)] == 0
    ensures !ok || k <= t.band.se ==> Redoable(t, block[..], newnz)
  {
    hide r.Tracks, r.Ready, r.End, r.Rest, Redoable, ValidTask, Whole, AfterSymbol, DecodeRefine, Natural, Zigzag, Peek, Pow2, Stored;
    TaskParts(t);
    r.TracksValid(t.stream, at0);
    r.FlagStays(t.stream, at0);
    var left: nat := zeros;
    k, at, ok := k0, at0, true;
    while k <= t.band.se
      invariant ok && k0 <= k <= t.band.se + 1 && at >= at0 && r.Valid() && r.Steady(true) && r.Tracks(t.stream, at)
      invariant r.insufficient == (old(r.insufficient) || at > |t.stream|)
      invariant ShortBlock(block[..]) && AfterSymbol(t.d, t.band, t.stream, at, k, left, s, block[..]) == Whole(t)
      invariant k <= t.band.se ==> Redoable(t, block[..], newnz)
    {
      ghost var b := block[..];
      SymbolDone(t.d, t.band, t.stream, at, k, left, s, b);
      r.FlagStays(t.stream, at);
      if block[Natural(k)] != 0 {
        ok := Correct(r, block, Natural(k), p1, t.band.al, t.stream, at);
        if !ok {
          return;
        }
        at := at + 1;
        if k < t.band.se {
          Corrected(t, b, newnz, at, k, left, s, block[Natural(k)]);
        }
      } else {
        if left == 0 {
          return;
        }
        left := left - 1;
      }
      k := k + 1;
    }
    SymbolDone(t.d, t.band, t.stream, at, k, left, s, block[..]);
  }

  lemma TaskParts(t: Task)
    requires ValidTask(t)
    ensures ValidDecTable(t.d) && ValidBand(t.band) && t.band.al <= MAX_AL
  {
  }

  /** Corrects the rest of the block after its end has been announced. */
  method CorrectRest(r: Reader, t: Task, p1: nat, block: array<int>, k0: nat, ghost newnz: seq<nat>, ghost at0: nat)
      returns (ok: bool, ghost at: nat)
    requires block.Length == DCTSIZE2 && Refining(t, p1, block[..]) && r.Tracks(t.stream, at0) && k0 <= t.band.se
    requires CorrectTo(t.band, t.stream, at0, k0, block[..]) == (Whole(t).at, Whole(t).block)
    requires Redoable(t, block[..], newnz) && forall n :: n in newnz ==> n < DCTSIZE2 && Zigzag(n) < k0
    modifies r, block
    ensures r.Steady(ok) && ShortBlock(block[..])
    ensures ok ==> at >= at0 && r.Tracks(t.stream, at) && r.insufficient == (old(r.insufficient) || at > |t.stream|)
    ensures ok ==> block[..] == Whole(t).block && at == Whole(t).at
    ensures !ok ==> Redoable(t, block[..], newnz)
  {
    hide r.Tracks, r.Ready, r.End, r.Rest, Redoable, ValidTask, Whole, CorrectTo, Natural, Zigzag, Peek, Pow2, Stored;
    TaskParts(t);
    r.TracksValid(t.stream, at0);
    r.FlagStays(t.stream, at0);
    var k := k0;
    at, ok := at0, true;
    while k <= t.band.se
      invariant ok && k0 <= k <= t.band.se + 1 && at >= at0 && r.Valid() && r.Steady(true) && r.Tracks(t.stream, at)
      invariant r.insufficient == (old(r.insufficient) || at > |t.stream|)
      invariant ShortBlock(block[..]) && CorrectTo(t.band, t.stream, at, k, block[..]) == (Whole(t).at, Whole(t).block)
      invariant k <= t.band.se ==> Redoable(t, block[..], newnz)
    {
      ghost var b := block[..];
      CorrectOnce(t.band, t.stream, at, k, b);
      r.FlagStays(t.stream, at);
      if block[Natural(k)] != 0 {
        ok := Correct(r, block, Natural(k), p1, t.band.al, t.stream, at);
        if !ok {
          return;
        }
        at := at + 1;
        if k < t.band.se {
          OrdersInverse(k);
          CorrectKeeps(t.band, t.stream, at, k + 1, block[..], Natural(k));
          CorrectionStays(t, b, newnz, Natural(k), block[Natural(k)]);
        }
      }
      k := k + 1;
    }
    SkipOver(t.band, t.stream, at, k, 0, block[..]);
  }

  /** The coefficients that have become nonzero are zero again. */
  method Undo(block: array<int>, newnz: array<nat>, count: nat)
    requires block.Length == DCTSIZE2 && count <= newnz.Length && forall i :: 0 <= i < count ==> newnz[i] < DCTSIZE2
    modifies block
    ensures block[..] == Without(old(block[..]), newnz[..count])
  {
    var n := count;
    while n > 0
      invariant 0 <= n <= count && forall i :: 0 <= i < count ==> newnz[i] < DCTSIZE2
      invariant block[..] == Without(old(block[..]), newnz[n..count])
    {
      n := n - 1;
      block[newnz[n]] := 0;
      assert newnz[n..count] == [newnz[n]] + newnz[n + 1..count];
    }
    assert newnz[0..count] == newnz[..count];
  }

  /** The end-of-band run that a symbol announces, with the bits that follow it. */
  method ReadRun(r: Reader, cat: nat, ghost stream: Bits, ghost at: nat) returns (ok: bool, run: nat)
    requires r.Tracks(stream, at) && cat < 15
    modifies r
    ensures r.Steady(ok)
    ensures ok ==> r.Tracks(stream, at + cat) && r.insufficient == (old(r.insufficient) || at + cat > |stream|)
    ensures ok ==> run == Pow2(cat) + Peek(Tail(stream, at), cat) && run > 0
  {
    hide r.Tracks, r.Ready, r.End, r.Rest, Pow2;
    r.TracksValid(stream, at);
    r.FlagStays(stream, at);
    ok, run := true, Pow2(cat);
    if cat != 0 {
      var more;
      ok, more := r.GetBits(cat, stream, at);
      if !ok {
        return;
      }
      run := run + more;
    }
  }

  /** The places of the new coefficients so far. */
  ghost predicate Noted(newnz: seq<nat>, band: Band, k: nat)
  {
    |newnz| + band.ss <= k && forall n :: n in newnz ==> n < DCTSIZE2 && Zigzag(n) < k
  }

  lemma OneNoted(newnz: seq<nat>, band: Band, k0: nat, k: nat)
    requires ValidBand(band) && Noted(newnz, band, k0) && k0 <= k <= band.se + 1
    ensures Natural(k) < DCTSIZE2 && Noted(newnz, band, k + 1) && Noted(newnz + [Natural(k)], band, k + 1)
  {
    hide Natural, Zigzag;
    PlacedFrom(k);
  }

  lemma NotedBelow(newnz: seq<nat>, band: Band, k: nat)
    requires Noted(newnz, band, k)
    ensures forall n :: n in newnz ==> n < DCTSIZE2 && Zigzag(n) < k
  {
    hide Zigzag;
  }

  lemma NoneNoted(band: Band)
    ensures Noted([], band, band.ss)
  {
  }

  lemma CountBound(newnz: seq<nat>, band: Band, k: nat)
    requires ValidBand(band) && Noted(newnz, band, k) && k <= band.se
    ensures |newnz| < DCTSIZE2 - 1
  {
  }

  /**
   The next symbol: after it come zeros to be passed and a new coefficient v, or v = 0 if it only
   tells of zeros, or else an end-of-band run.
   */
  method ReadSymbol(r: Reader, tbl: DDerivedTbl, t: Task, p1: nat, ghost b: Block, ghost k: nat, ghost at0: nat)
      returns (ok: bool, run: nat, zeros: nat, v: int, ghost at: nat)
    requires Refining(t, p1, b) && k <= t.band.se && TableFor(tbl, t.d) && r.Tracks(t.stream, at0)
    requires DecodeRefine(t.d, t.band, t.stream, at0, k, b) == Whole(t)
    modifies r
    ensures r.Steady(ok)
    ensures ok ==> at >= at0 && r.Tracks(t.stream, at) && r.insufficient == (old(r.insufficient) || at > |t.stream|)
    ensures ok && run == 0 ==> AfterSymbol(t.d, t.band, t.stream, at, k, zeros, v, b) == Whole(t) && -0x8000 <= v < 0x8000
    ensures ok && run > 0 ==>
              Whole(t).run == run - 1 && CorrectTo(t.band, t.stream, at, k, b) == (Whole(t).at, Whole(t).block)
  {
    hide r.Tracks, r.Ready, r.End, r.Rest, ValidTask, Whole, AfterSymbol, DecodeRefine, DecodeSymbol, CorrectTo, Peek;
    hide Pow2, Decodes, ShortBlock, Count, Filled;
    TaskParts(t);
    NewShort(t.band.al);
    r.TracksValid(t.stream, at0);
    r.FlagStays(t.stream, at0);
    RefineOnce(t.d, t.band, t.stream, at0, k, b);
    run, zeros, v, at := 0, 0, 0, at0;
    var s;
    ok, s := r.HuffDecode(tbl, t.d.huffval, t.d.b, t.stream, at0);
    if !ok {
      return;
    }
    at := at0 + DecodeSymbol(t.d.b, t.d.huffval, Tail(t.stream, at0)).1;
    r.FlagStays(t.stream, at);
    zeros := s / 16;
    if s % 16 != 0 {
      var bit;
      ok, bit := r.GetBits(1, t.stream, at);
      v := if bit == 1 then p1 else 0 - p1;
      at := at + 1;
    } else if zeros != 15 {
      ok, run := ReadRun(r, zeros, t.stream, at);
      at := at + zeros;
    }
  }

  /** A new coefficient in the band. */
  lemma NewOne(t: Task, b: Block, newnz: seq<nat>, k: nat, s: int)
    requires ValidTask(t) && k <= t.band.se + 1 <= DCTSIZE2 && ShortBlock(b) && -0x8000 <= s < 0x8000
    ensures ShortBlock(b[Natural(k) := s])
    ensures k <= t.band.se && b[Natural(k)] == 0 && Redoable(t, b, newnz) ==> Redoable(t, b[Natural(k) := s], newnz + [Natural(k)])
  {
    hide Redoable, Natural, ValidTask;
    if k <= t.band.se && b[Natural(k)] == 0 && Redoable(t, b, newnz) {
      NewRemembered(t, b, newnz, Natural(k), s);
    }
  }

  /**
   The symbols of a block up to the end of the band, or up to an end-of-band symbol, which begins a
   run at position k. The places of new coefficients are noted in newnz.
   */
  method RefineSymbols(r: Reader, tbl: DDerivedTbl, t: Task, p1: nat, block: array<int>, newnz: array<nat>)
      returns (ok: bool, run: nat, k: nat, count: nat, ghost at: nat)
    requires block.Length == newnz.Length == DCTSIZE2 && Refining(t, p1, block[..]) && t.block == block[..] && t.run == 0
    requires TableFor(tbl, t.d) && r.Tracks(t.stream, t.at)
    modifies r, block, newnz
    ensures r.Steady(ok) && ShortBlock(block[..]) && count <= DCTSIZE2
    ensures forall i :: 0 <= i < count ==> newnz[i] < DCTSIZE2
    ensures ok ==> r.Tracks(t.stream, at) && r.insufficient == (old(r.insufficient) || at > |t.stream|)
    ensures ok && run == 0 ==> Whole(t) == Decoding(block[..], at, 0)
    ensures ok && run > 0 ==>
              && k <= t.band.se && Whole(t).run == run - 1
              && CorrectTo(t.band, t.stream, at, k, block[..]) == (Whole(t).at, Whole(t).block)
              && Redoable(t, block[..], newnz[..count]) && Noted(newnz[..count], t.band, k)
    ensures !ok ==> Redoable(t, block[..], newnz[..count])
  {
    hide r.Tracks, r.Ready, r.End, r.Rest, Redoable, ValidTask, AfterSymbol, DecodeRefine, CorrectTo, Natural, Zigzag;
    hide Pow2, Decodes, Noted, Count, Filled, ShortBlock;
    TaskParts(t);
    r.TracksValid(t.stream, t.at);
    r.FlagStays(t.stream, t.at);
    k, count, at, ok, run := t.band.ss, 0, t.at, true, 0;
    NothingNew(t);
    NoneNoted(t.band);
    assert newnz[..0] == [];
    while k <= t.band.se
      invariant ok && run == 0 && t.band.ss <= k <= t.band.se + 2 && r.Valid() && r.Steady(true) && r.Tracks(t.stream, at)
      invariant r.insufficient == (old(r.insufficient) || at > |t.stream|) && TableFor(tbl, t.d)
      invariant count <= DCTSIZE2 && Noted(newnz[..count], t.band, k)
      invariant forall i :: 0 <= i < count ==> newnz[i] < DCTSIZE2
      invariant ShortBlock(block[..]) && DecodeRefine(t.d, t.band, t.stream, at, k, block[..]) == Whole(t)
      invariant k <= t.band.se ==> Redoable(t, block[..], newnz[..count])
    {
      ghost var seen, k0 := newnz[..count], k;
      NotedBelow(seen, t.band, k);
      r.FlagStays(t.stream, at);
      var zeros, v;
      ok, run, zeros, v, at := ReadSymbol(r, tbl, t, p1, block[..], k, at);
      if !ok || run > 0 {
        return;
      }
      r.FlagStays(t.stream, at);
      ok, k, at := PassZeros(r, t, p1, block, k, zeros, v, seen, at);
      if !ok {
        return;
      }
      OneNoted(seen, t.band, k0, k);
      if v != 0 {
        NewOne(t, block[..], seen, k, v);
        CountBound(seen, t.band, k0);
        block[Natural(k)] := v;
        newnz[count] := Natural(k);
        count := count + 1;
        assert newnz[..count] == seen + [Natural(k)];
      }
      k := k + 1;
    }
    RefineOver(t.d, t.band, t.stream, at, k, block[..]);
  }

  /**
   The block of a refinement scan. If the source suspends, coefficients that had become nonzero are
   zero again, while corrections stay; decoding the block again from its beginning then gives what
   an uninterrupted call would have given.
   */
  method RefineBlock(r: Reader, tbl: DDerivedTbl, t: Task, block: array<int>) returns (ok: bool, run: nat)
    requires block.Length == DCTSIZE2 && ValidTask(t) && t.band.refine && t.block == block[..]
    requires TableFor(tbl, t.d) && r.Tracks(t.stream, t.at)
    modifies r, block
    ensures r.Steady(ok) && ShortBlock(block[..])
    ensures ok ==> block[..] == Whole(t).block && run == Whole(t).run
    ensures ok ==> r.Tracks(t.stream, Whole(t).at) && r.insufficient == (old(r.insufficient) || Whole(t).at > |t.stream|)
    ensures !ok ==> DecodeBand(t.d, t.band, t.stream, t.at, t.run, block[..]) == Whole(t)
    ensures !ok ==> forall i :: 0 <= i < DCTSIZE2 ==> (block[i] == 0 <==> old(block[i]) == 0)
  {
    hide r.Tracks, r.Ready, r.End, r.Rest, Redoable, AfterSymbol, DecodeRefine, CorrectTo, Natural, Zigzag, Pow2, Decodes, ValidDecTable;
    r.TracksValid(t.stream, t.at);
    r.FlagStays(t.stream, t.at);
    var p1 := Pow2(t.band.al);
    var newnz := new nat[DCTSIZE2];
    var k: nat, count: nat := t.band.ss, 0;
    ghost var at: nat := t.at;
    ok, run := true, t.run;
    NothingNew(t);
    assert newnz[..0] == [];
    if run == 0 {
      ok, run, k, count, at := RefineSymbols(r, tbl, t, p1, block, newnz);
    }
    if ok && run > 0 {
      r.FlagStays(t.stream, at);
      NotedBelow(newnz[..count], t.band, k);
      ok, at := CorrectRest(r, t, p1, block, k, newnz[..count], at);
      run := run - 1;
    }
    if !ok {
      WhatIsLeft(t, block[..], newnz[..count]);
      Undo(block, newnz, count);
    }
  }

  lemma WhatIsLeft(t: Task, b: Block, newnz: seq<nat>)
    requires ValidTask(t) && Redoable(t, b, newnz)
    ensures var u := Without(b, newnz);
            && ShortBlock(u) && (forall i :: 0 <= i < DCTSIZE2 ==> (u[i] == 0 <==> t.block[i] == 0))
            && DecodeBand(t.d, t.band, t.stream, t.at, t.run, u) == Whole(t)
  {
    hide DecodeBand, ValidDecTable;
  }

  /** A coefficient that has been stored is the one that the whole block will have. */
  lemma StoreStays(t: Task, b: Block, at: nat, k: nat, v: int)
    requires ValidTask(t) && !t.band.refine && k < t.band.se && t.run == 0
    requires DecodeBand(t.d, t.band, t.stream, t.at, 0, b) == Whole(t)
    requires DecodeFirst(t.d, t.band, t.stream, at, k + 1, b[Natural(k) := v]) == Whole(t)
    ensures DecodeBand(t.d, t.band, t.stream, t.at, 0, b[Natural(k) := v]) == Whole(t)
  {
    hide DecodeFirst, ValidDecTable, Natural, Zigzag, Whole;
    OrdersInverse(k);
    FirstKeeps(t.d, t.band, t.stream, at, k + 1, b[Natural(k) := v], Natural(k));
    FirstAgain(t.d, t.band, t.stream, t.at, t.band.ss, b, Natural(k), v);
  }

  /** The block of a first scan. If the source suspends, what has been stored so far will be stored again. */
  method FirstBlock(r: Reader, tbl: DDerivedTbl, t: Task, block: array<int>) returns (ok: bool, run: nat)
    requires block.Length == DCTSIZE2 && ValidTask(t) && !t.band.refine && t.block == block[..] && t.run == 0
    requires TableFor(tbl, t.d) && r.Tracks(t.stream, t.at)
    modifies r, block
    ensures r.Steady(ok) && ShortBlock(block[..])
    ensures ok ==> block[..] == Whole(t).block && run == Whole(t).run
    ensures ok ==> r.Tracks(t.stream, Whole(t).at) && r.insufficient == (old(r.insufficient) || Whole(t).at > |t.stream|)
    ensures !ok ==> DecodeBand(t.d, t.band, t.stream, t.at, t.run, block[..]) == Whole(t)
  {
    hide r.Tracks, r.Ready, r.End, r.Rest, DecodeFirst, DecodeSymbol, Natural, Zigzag, Pow2, Decodes, Peek, Extend, ToShort, Count, Filled;
    r.TracksValid(t.stream, t.at);
    r.FlagStays(t.stream, t.at);
    var k: nat := t.band.ss;
    ghost var at: nat := t.at;
    ok, run := true, 0;
    while k <= t.band.se
      invariant t.band.ss <= k && ok && run == 0 && r.Valid() && r.Steady(true) && r.Tracks(t.stream, at)
      invariant r.insufficient == (old(r.insufficient) || at > |t.stream|) && TableFor(tbl, t.d) && ShortBlock(block[..])
      invariant DecodeFirst(t.d, t.band, t.stream, at, k, block[..]) == Whole(t)
      invariant k <= t.band.se ==> DecodeBand(t.d, t.band, t.stream, t.at, 0, block[..]) == Whole(t)
    {
      ghost var b := block[..];
      FirstOnce(t.d, t.band, t.stream, at, k, b);
      r.FlagStays(t.stream, at);
      var s;
      ok, s := r.HuffDecode(tbl, t.d.huffval, t.d.b, t.stream, at);
      if !ok {
        return;
      }
      at := at + DecodeSymbol(t.d.b, t.d.huffval, Tail(t.stream, at)).1;
      r.FlagStays(t.stream, at);
      var zeros, size := s / 16, s % 16;
      if size != 0 {
        k := k + zeros;
        var bits;
        ok, bits := r.GetBits(size, t.stream, at);
        if !ok {
          return;
        }
        at := at + size;
        block[Natural(k)] := ToShort(Extend(bits, size) * Pow2(t.band.al));
        ShortAlways(Extend(bits, size) * Pow2(t.band.al));
        assert block[..] == b[Natural(k) := block[Natural(k)]];
        if k < t.band.se {
          StoreStays(t, b, at, k, block[Natural(k)]);
        }
      } else if zeros == 15 {
        k := k + 15;
      } else {
        ok, run := ReadRun(r, zeros, t.stream, at);
        if ok {
          run := run - 1;
        }
        return;
      }
      k := k + 1;
    }
    FirstOver(t.d, t.band, t.stream, at, k, block[..]);
  }

  lemma ShortAlways(v: int)
    ensures -0x8000 <= ToShort(v) < 0x8000
  {
  }

  /** The block of either kind of scan. */
  method EitherBlock(r: Reader, tbl: DDerivedTbl, t: Task, block: array<int>) returns (ok: bool, run: nat)
    requires block.Length == DCTSIZE2 && ValidTask(t) && (t.band.refine || t.run == 0) && t.block == block[..]
    requires TableFor(tbl, t.d) && r.Tracks(t.stream, t.at)
    modifies r, block
    ensures r.Steady(ok) && ShortBlock(block[..])
    ensures ok ==> block[..] == Whole(t).block && run == Whole(t).run
    ensures ok ==> r.Tracks(t.stream, Whole(t).at) && r.insufficient == (old(r.insufficient) || Whole(t).at > |t.stream|)
    ensures !ok ==> DecodeBand(t.d, t.band, t.stream, t.at, t.run, block[..]) == Whole(t)
  {
    hide r.Tracks, r.Ready, r.End, r.Rest, Whole, DecodeBand, Decodes, ValidDecTable, ShortBlock;
    if t.band.refine {
      ok, run := RefineBlock(r, tbl, t, block);
    } else {
      ok, run := FirstBlock(r, tbl, t, block);
    }
  }

  /** Within an end-of-band run a first scan has nothing to read. */
  lemma WithinRun(d: DecTable, band: Band, bits: Bits, run: nat, b: Block)
    requires ValidDecTable(d) && band.se < DCTSIZE2
    ensures Tail(bits, 0) == bits
    ensures run > 0 && !band.refine ==> DecodeBand(d, band, bits, 0, run, b) == Decoding(b, 0, run - 1)
  {
    hide ValidDecTable;
  }

  /** The decoder between MCUs. The source has delivered the first avail bytes of input so far. */
  class PhuffDecoder {
    const input: Bytes
    const interval: nat
    const band: Band
    const d: DecTable
    const table: DDerivedTbl
    var avail: nat
    var pos: nat
    var getBuffer: nat
    var bitsLeft: nat
    var unreadMarker: int
    var insufficient: bool
    var eobRun: nat
    var restartsToGo: nat
    var nextRestartNum: nat

    /** start_pass_phuff_decoder for an AC band, once the derived table is made. */
    constructor (input: Bytes, avail: nat, interval: nat, band: Band, d: DecTable, table: DDerivedTbl)
      requires avail <= |input| && ValidBand(band) && band.al <= MAX_AL && ValidDecTable(d)
      ensures this.input == input && this.avail == avail && this.interval == interval && this.band == band && this.d == d && this.table == table
      ensures Valid() && State() == FirstBand(input, interval)
    {
      hide ValidDecTable, Word, SourceBits, SegmentEnd;
      this.input, this.avail, this.interval, this.band, this.d, this.table := input, avail, interval, band, d, table;
      pos, getBuffer, bitsLeft, unreadMarker, insufficient := 0, 0, 0, 0, false;
      eobRun, restartsToGo, nextRestartNum := 0, interval, 0;
      new;
      EmptyWord(0);
      assert [] + SourceBits(input, 0) == SourceBits(input, 0);
    }

    ghost predicate Valid()
      reads this
    {
      && ValidDecTable(d) && ValidBand(band) && band.al <= MAX_AL
      && pos <= avail <= |input| && getBuffer < TWO32 && bitsLeft <= 32 && nextRestartNum < 8
    }

    /** What lies ahead. */
    ghost function State(): (a: BandAhead)
      requires pos <= |input|
      reads this
    {
      BandAhead(if insufficient then [] else Word(getBuffer, bitsLeft) + if unreadMarker != 0 then [] else SourceBits(input, pos),
                insufficient,
                if unreadMarker != 0 then Marker(unreadMarker, pos) else SegmentEnd(input, pos),
                eobRun, restartsToGo, nextRestartNum)
    }

    lemma StateIsValid()
      requires Valid()
      ensures ValidBandAhead(input, State())
    {
      hide Word, SourceBits, SegmentEnd;
    }

    /** More of the input arrives. */
    method Supply(n: nat)
      requires Valid() && avail <= n <= |input|
      modifies this`avail
      ensures Valid() && avail == n && State() == old(State())
    {
      avail := n;
    }

    /** process_restart: drops what is left of the segment and of the run, and goes on after the restart marker. */
    method ProcessRestart() returns (ok: bool)
      requires Valid()
      modifies this
      ensures Valid() && avail == old(avail)
      ensures ok ==> BandRestarted(input, interval, old(State())) == Some(State())
      ensures !ok ==> BandRestarted(input, interval, State()) == BandRestarted(input, interval, old(State()))
      ensures !ok ==> restartsToGo == old(restartsToGo)
      ensures avail == |input| && BandRestarted(input, interval, old(State())).Some? ==> ok
    {
      hide ValidDecTable, Restart, SegmentEnd, Word, SourceBits;
      bitsLeft := 0;
      var m := new MarkerReader(input, avail, pos, unreadMarker, nextRestartNum);
      ok := m.ReadRestartMarker();
      pos, unreadMarker, nextRestartNum := m.pos, m.unreadMarker, m.nextRestartNum;
      if !ok {
        return;
      }
      eobRun := 0;
      restartsToGo := interval;
      if unreadMarker == 0 {
        insufficient := false;
      }
      EmptyWord(getBuffer);
      ghost var none: Bits := [];
      assert none + SourceBits(input, pos) == SourceBits(input, pos) && none + [] == none;
      assert unreadMarker != 0 ==> State().end == Restart(input, old(State().end), old(nextRestartNum)).value.0;
    }

    /** BITREAD_LOAD_STATE: a working copy of the bit reader's state. */
    method LoadState() returns (r: Reader)
      requires Valid() && !insufficient
      ensures fresh(r) && r.input == input && r.avail == avail && r.Tracks(State().bits, 0) && !r.insufficient
      ensures r.End() == State().end && r.unreadMarker == unreadMarker
      ensures unreadMarker != 0 || (avail == |input| && State().end.Marker?) ==> r.Ready()
    {
      hide ValidDecTable, Word, SourceBits, SegmentEnd, ReachesMarker;
      r := new Reader(input, avail, pos, getBuffer, bitsLeft, unreadMarker, insufficient);
      assert input[..|input|] == input;
      ReachesIffMarker(input, pos);
    }

    /** The block of a segment whose bits have not run out. */
    method DecodeSegment(block: array<int>) returns (ok: bool)
      requires Valid() && TableFor(table, d) && block.Length == DCTSIZE2 && ShortBlock(block[..]) && !insufficient
      modifies this`pos, this`getBuffer, this`bitsLeft, this`unreadMarker, this`insufficient, this`eobRun, block
      ensures Valid() && ShortBlock(block[..])
      ensures ok ==> var a := old(State());
                     var x := DecodeBand(d, band, a.bits, 0, a.run, old(block[..]));
                     State() == BandAhead(Tail(a.bits, x.at), x.at > |a.bits|, a.end, x.run, a.toGo, a.next) && block[..] == x.block
      ensures !ok ==> State() == old(State()) && !insufficient
      ensures !ok ==> DecodeBand(d, band, old(State()).bits, 0, old(eobRun), block[..])
                      == DecodeBand(d, band, old(State()).bits, 0, old(eobRun), old(block[..]))
      ensures avail == |input| && old(State()).end.Marker? ==> ok
      ensures old(unreadMarker) != 0 ==> ok
    {
      hide ValidDecTable, Word, Value, Pow2, SourceBits, SegmentEnd, ReachesMarker, AllZero, DecodeBand, Decodes, ShortBlock;
      WithinRun(d, band, State().bits, eobRun, block[..]);
      if !band.refine && eobRun > 0 {
        eobRun := eobRun - 1;
        return true;
      }
      var r := LoadState();
      hide r.Tracks, r.Ready;
      var t := Task(d, band, eobRun, State().bits, 0, block[..]);
      var run;
      ok, run := EitherBlock(r, table, t, block);
      if ok {
        ReadOn(r, t.stream, Whole(t).at);
        pos, getBuffer, bitsLeft := r.pos, r.getBuffer, r.bitsLeft;
        unreadMarker, insufficient := r.unreadMarker, r.insufficient;
        eobRun := run;
      }
    }

    /** decode_mcu_AC_first or decode_mcu_AC_refine when no restart marker is due. */
    method DecodeAhead(block: array<int>) returns (ok: bool)
      requires Valid() && TableFor(table, d) && block.Length == DCTSIZE2 && ShortBlock(block[..])
      modifies this, block
      ensures Valid() && avail == old(avail) && ShortBlock(block[..])
      ensures ok ==> BandDecoded(d, band, old(State()), old(block[..])) == (State(), block[..])
      ensures !ok ==> State() == old(State()) && restartsToGo == old(restartsToGo)
      ensures !ok ==> BandDecoded(d, band, State(), block[..]) == BandDecoded(d, band, old(State()), old(block[..]))
      ensures avail == |input| && old(State()).end.Marker? ==> ok
      ensures old(unreadMarker) != 0 ==> ok
    {
      hide ValidDecTable, Word, SourceBits, SegmentEnd, DecodeBand, Decodes, ShortBlock;
      if !insufficient {
        ok := DecodeSegment(block);
        if !ok {
          return;
        }
      }
      restartsToGo := (restartsToGo + UINT_RANGE - 1) % UINT_RANGE;
      ok := true;
    }

    /**
     decode_mcu_AC_first or decode_mcu_AC_refine: decodes the next block on top of what earlier
     scans have left in it. If the source suspends, the call can be repeated with the block as it
     has been left: the result is that of one uninterrupted call. With all input delivered it
     succeeds wherever a marker ends the data.
     */
    method DecodeMcu(block: array<int>) returns (ok: bool)
      requires Valid() && TableFor(table, d) && block.Length == DCTSIZE2 && ShortBlock(block[..])
      modifies this, block
      ensures Valid() && avail == old(avail) && ShortBlock(block[..])
      ensures ok ==> NextBand(input, interval, d, band, old(State()), old(block[..])) == Some((State(), block[..]))
      ensures !ok ==> NextBand(input, interval, d, band, State(), block[..]) == NextBand(input, interval, d, band, old(State()), old(block[..]))
      ensures var x := NextBand(input, interval, d, band, old(State()), old(block[..]));
              avail == |input| && x.Some? && x.value.0.end.Marker? ==> ok
    {
      hide ValidDecTable, BandRestarted, BandDecoded, Word, SourceBits, SegmentEnd, Decodes, ShortBlock;
      StateIsValid();
      if interval != 0 {
        if restartsToGo == 0 {
          ok := ProcessRestart();
          if !ok {
            return;
          }
        }
      }
      ok := DecodeAhead(block);
    }
  }
}
