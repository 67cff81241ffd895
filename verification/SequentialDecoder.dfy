/**
 The sequential Huffman decoder (jpeg/jdhuff.c): process_restart and decode_mcu. Whatever the
 division of the input into pieces, the calls that succeed decode what one uninterrupted run would.
 */
module SequentialDecoder {
  import opened JpegLimits
  import opened Arith
  import opened BitString
  import opened ByteStream
  import opened BitWriter
  import opened CodeSpace
  import opened CanonicalCode
  import opened DerivedTables
  import opened BitReader
  import opened Coefficients
  import opened BlockCoding
  import opened ScanCoding
  import opened ScanDecoding
  import opened MarkerReading

  /** The derived table belongs to the definition d. */
  ghost predicate TableFor(tbl: DDerivedTbl, d: DecTable)
    reads tbl.maxcode, tbl.valoffset, tbl.lookNbits, tbl.lookSym
  {
    && tbl.Shaped() && |d.huffval| == 256
    && Decodes(d.b, d.huffval, tbl.maxcode[..], tbl.valoffset[..], tbl.lookNbits[..], tbl.lookSym[..])
  }

  /** The DC difference of a block. */
  method DecodeDifference(r: Reader, tbl: DDerivedTbl, d: DecTable, ghost stream: Bits, ghost at: nat)
      returns (ok: bool, diff: int, ghost at': nat)
    requires r.Tracks(stream, at) && TableFor(tbl, d) && ValidDcTable(d)
    modifies r
    ensures r.Steady(ok)
    ensures ok ==> (diff, at') == DecodeDc(d, stream, at) && r.Tracks(stream, at')
    ensures ok ==> r.insufficient == (old(r.insufficient) || at' > |stream|)
  {
    hide r.Tracks, r.Ready, r.End, r.Rest, Decodes, DecodeSymbol, Peek, Extend;
    r.TracksValid(stream, at);
    var s;
    ok, s := r.HuffDecode(tbl, d.huffval, d.b, stream, at);
    diff, at' := s, at;
    if !ok {
      return;
    }
    DcSymbolSmall(d, Tail(stream, at));
    at' := at + DecodeSymbol(d.b, d.huffval, Tail(stream, at)).1;
    if s != 0 {
      var bits;
      ok, bits := r.GetBits(s, stream, at');
      if !ok {
        return;
      }
      diff := Extend(bits, s);
      at' := at' + s;
    }
  }

  /**
   The AC coefficients, stored in block number blkn. If the source suspends, what has been stored
   so far will be stored again.
   */
  method DecodeCoefficients(r: Reader, tbl: DDerivedTbl, d: DecTable, mcu: array<Block>, blkn: nat, ghost stream: Bits, ghost at: nat)
      returns (ok: bool, ghost at': nat)
    requires r.Tracks(stream, at) && TableFor(tbl, d) && ValidDecTable(d) && blkn < mcu.Length
    modifies r, mcu
    ensures r.Steady(ok)
    ensures mcu[..] == old(mcu[..])[blkn := mcu[blkn]]
    ensures ok ==> (mcu[blkn], at') == DecodeAc(d, stream, at, 1, old(mcu[blkn])) && r.Tracks(stream, at')
    ensures ok ==> r.insufficient == (old(r.insufficient) || at' > |stream|)
    ensures DecodeAc(d, stream, at, 1, mcu[blkn]) == DecodeAc(d, stream, at, 1, old(mcu[blkn]))
    ensures mcu[blkn][0] == old(mcu[blkn])[0]
  {
    hide r.Tracks, r.Ready, r.End, r.Rest, Decodes, DecodeSymbol, Peek, Extend, DecodeAc, Natural, Zigzag, Word, Value, Pow2, SegmentEnd, SourceBits;
    r.TracksValid(stream, at);
    ghost var b0 := mcu[blkn];
    ghost var whole := DecodeAc(d, stream, at, 1, b0);
    r.FlagStays(stream, at);
    var k: nat := 1;
    ok, at' := true, at;
    while k < DCTSIZE2
      invariant 1 <= k && ok && r.Valid() && r.Steady(true) && r.Tracks(stream, at')
      invariant TableFor(tbl, d)
      invariant r.insufficient == (old(r.insufficient) || at' > |stream|)
      invariant mcu[..] == old(mcu[..])[blkn := mcu[blkn]] && mcu[blkn][0] == b0[0]
      invariant DecodeAc(d, stream, at', k, mcu[blkn]) == whole
      invariant DecodeAc(d, stream, at, 1, mcu[blkn]) == whole
      decreases DCTSIZE2 - k
    {
      ghost var b, at1 := mcu[blkn], at';
      var s;
      r.FlagStays(stream, at');
      ok, s := r.HuffDecode(tbl, d.huffval, d.b, stream, at');
      if !ok {
        return;
      }
      SymbolIsByte(d, Tail(stream, at1));
      at' := at1 + DecodeSymbol(d.b, d.huffval, Tail(stream, at1)).1;
      var run, size := s / 16, s % 16;
      if size != 0 {
        k := k + run;
        var bits;
        ok, bits := r.GetBits(size, stream, at');
        if !ok {
          return;
        }
        var v := Extend(bits, size);
        DecodeValue(d, stream, at1, k - run, b, run, size);
        mcu[blkn] := mcu[blkn][Natural(k) := v];
        at' := at' + size;
        StoreIsFinal(d, stream, at, at', b, k, v);
        k := k + 1;
      } else {
        DecodeNoValue(d, stream, at1, k, b);
        if run != 15 {
          return;
        }
        k := k + 15 + 1;
      }
    }
    DecodeEnd(d, stream, at', k, mcu[blkn]);
  }

  /** A coefficient that has been stored is the one that the whole block will have. */
  lemma StoreIsFinal(d: DecTable, stream: Bits, at: nat, at': nat, b: Block, k: nat, v: int)
    requires ValidDecTable(d) && 1 <= k < 80
    requires DecodeAc(d, stream, at', k + 1, b[Natural(k) := v]) == DecodeAc(d, stream, at, 1, b)
    ensures DecodeAc(d, stream, at, 1, b[Natural(k) := v]) == DecodeAc(d, stream, at, 1, b)
    ensures b[Natural(k) := v][0] == b[0]
  {
    hide DecodeAc, Natural, Zigzag;
    PlacedFrom(k);
    ZeroFirst();
    AcKeepsBelow(d, stream, at', k + 1, b[Natural(k) := v], Natural(k));
    AcAbsorbs(d, stream, at, 1, b, Natural(k), v);
  }

  lemma ZeroFirst()
    ensures Zigzag(0) == 0
  {
  }

  /** The AC coefficients when they are not wanted: only their place in the data matters. */
  method SkipCoefficients(r: Reader, tbl: DDerivedTbl, d: DecTable, ghost b: Block, ghost stream: Bits, ghost at: nat)
      returns (ok: bool, ghost at': nat)
    requires r.Tracks(stream, at) && TableFor(tbl, d) && ValidDecTable(d)
    modifies r
    ensures r.Steady(ok)
    ensures ok ==> at' == DecodeAc(d, stream, at, 1, b).1 && r.Tracks(stream, at')
    ensures ok ==> r.insufficient == (old(r.insufficient) || at' > |stream|)
  {
    hide r.Tracks, r.Ready, r.End, r.Rest, Decodes, DecodeSymbol, Peek, Extend, DecodeAc, Natural, Zigzag;
    r.TracksValid(stream, at);
    r.FlagStays(stream, at);
    var k: nat := 1;
    ok, at' := true, at;
    while k < DCTSIZE2
      invariant 1 <= k && ok && r.Valid() && r.Steady(true) && r.Tracks(stream, at')
      invariant TableFor(tbl, d)
      invariant r.insufficient == (old(r.insufficient) || at' > |stream|)
      invariant DecodeAc(d, stream, at', k, b).1 == DecodeAc(d, stream, at, 1, b).1
      decreases DCTSIZE2 - k
    {
      ghost var at1 := at';
      var s;
      r.FlagStays(stream, at');
      ok, s := r.HuffDecode(tbl, d.huffval, d.b, stream, at');
      if !ok {
        return;
      }
      SymbolIsByte(d, Tail(stream, at1));
      at' := at1 + DecodeSymbol(d.b, d.huffval, Tail(stream, at1)).1;
      var run, size := s / 16, s % 16;
      if size != 0 {
        k := k + run;
        var bits;
        ok, bits := r.GetBits(size, stream, at');
        if !ok {
          return;
        }
        DecodeValue(d, stream, at1, k - run, b, run, size);
        at' := at' + size;
        AcSamePath(d, stream, at', k + 1, b[Natural(k) := Extend(bits, size)], b);
        k := k + 1;
      } else {
        DecodeNoValue(d, stream, at1, k, b);
        if run != 15 {
          return;
        }
        k := k + 15 + 1;
      }
    }
    DecodeEnd(d, stream, at', k, b);
  }

  /** One block of an MCU. It may be decoded again into what has been stored of it, with the same result. */
  method DecodeOneBlock(r: Reader, dcTbl: DDerivedTbl, dc: DecTable, acTbl: DDerivedTbl, ac: DecTable, lastDc: int,
                        dcNeeded: bool, acNeeded: bool, mcu: array<Block>, blkn: nat, ghost stream: Bits, ghost at: nat)
      returns (ok: bool, last: int, ghost at': nat)
    requires r.Tracks(stream, at) && blkn < mcu.Length
    requires TableFor(dcTbl, dc) && ValidDcTable(dc) && TableFor(acTbl, ac) && ValidDecTable(ac)
    modifies r, mcu
    ensures r.Steady(ok)
    ensures mcu[..] == old(mcu[..])[blkn := mcu[blkn]]
    ensures ok ==> (mcu[blkn], at', last) == DecodeBlock(dc, ac, stream, at, lastDc, dcNeeded, acNeeded, old(mcu[blkn]))
    ensures ok ==> r.Tracks(stream, at') && r.insufficient == (old(r.insufficient) || at' > |stream|)
    ensures DecodeBlock(dc, ac, stream, at, lastDc, dcNeeded, acNeeded, mcu[blkn])
         == DecodeBlock(dc, ac, stream, at, lastDc, dcNeeded, acNeeded, old(mcu[blkn]))
  {
    hide r.Tracks, r.Ready, r.End, r.Rest, Decodes, DecodeDc, DecodeAc, ToShort, ValidDecTable;
    r.TracksValid(stream, at);
    r.FlagStays(stream, at);
    ghost var area := mcu[blkn];
    var diff;
    last := lastDc;
    ok, diff, at' := DecodeDifference(r, dcTbl, dc, stream, at);
    if !ok {
      return;
    }
    r.FlagStays(stream, at');
    if dcNeeded {
      last := lastDc + diff;
      mcu[blkn] := mcu[blkn][0 := ToShort(last)];
    }
    ghost var b, at1 := mcu[blkn], at';
    if acNeeded {
      ok, at' := DecodeCoefficients(r, acTbl, ac, mcu, blkn, stream, at1);
      assert dcNeeded ==> mcu[blkn][0 := ToShort(last)] == mcu[blkn];
    } else {
      ok, at' := SkipCoefficients(r, acTbl, ac, b, stream, at1);
      assert dcNeeded ==> mcu[blkn][0 := ToShort(last)] == mcu[blkn];
    }
  }

  /** The decoder between MCUs. The source has delivered the first avail bytes of input so far. */
  class HuffDecoder {
    const input: Bytes
    const scan: Scan
    const d: Setup
    const dcTables: seq<DDerivedTbl>
    const acTables: seq<DDerivedTbl>
    var avail: nat
    var pos: nat
    var getBuffer: nat
    var bitsLeft: nat
    var unreadMarker: int
    var insufficient: bool
    var lastDc: seq<int>
    var restartsToGo: nat
    var nextRestartNum: nat

    /** start_pass_huff_decoder, once the derived tables are made. */
    constructor (input: Bytes, avail: nat, scan: Scan, d: Setup, dcTables: seq<DDerivedTbl>, acTables: seq<DDerivedTbl>)
      requires avail <= |input| && ValidSetup(scan, d)
      ensures this.dcTables == dcTables && this.acTables == acTables
      ensures Valid() && this.input == input && this.avail == avail && this.scan == scan && this.d == d
      ensures State() == FirstAhead(input, scan)
    {
      hide ValidScan, ValidDcTable, ValidDecTable, Decodes, Word, SourceBits, SegmentEnd;
      this.input, this.avail, this.scan, this.d := input, avail, scan, d;
      this.dcTables, this.acTables := dcTables, acTables;
      pos, getBuffer, bitsLeft, unreadMarker, insufficient := 0, 0, 0, 0, false;
      lastDc := Zeros(|scan.dcTbl|);
      restartsToGo, nextRestartNum := scan.restartInterval, 0;
      new;
      EmptyWord(0);
      assert [] + SourceBits(input, 0) == SourceBits(input, 0);
    }

    ghost predicate Valid()
      reads this
    {
      && ValidSetup(scan, d)
      && pos <= avail <= |input| && getBuffer < TWO32 && bitsLeft <= 32
      && |lastDc| == |scan.dcTbl| && nextRestartNum < 8
    }

    /** What lies ahead. */
    ghost function State(): (a: Ahead)
      requires pos <= |input|
      reads this
    {
      Ahead(if insufficient then [] else Word(getBuffer, bitsLeft) + if unreadMarker != 0 then [] else SourceBits(input, pos),
            insufficient,
            if unreadMarker != 0 then Marker(unreadMarker, pos) else SegmentEnd(input, pos),
            lastDc, restartsToGo, nextRestartNum)
    }

    lemma StateIsValid()
      requires Valid()
      ensures ValidAhead(input, scan, State())
    {
      hide Word, SourceBits, SegmentEnd;
    }

    /** More of the input arrives. */
    method Supply(n: nat)
      requires Valid() && avail <= n <= |input|
      modifies this`avail
      ensures Valid() && avail == n && State() == old(State())
    {
      avail := n;
    }

    /** process_restart: drops what is left of the segment and goes on after the restart marker. */
    method ProcessRestart() returns (ok: bool)
      requires Valid()
      modifies this
      ensures Valid() && avail == old(avail)
      ensures ok ==> Restarted(input, scan, old(State())) == Some(State())
      ensures !ok ==> Restarted(input, scan, State()) == Restarted(input, scan, old(State()))
      ensures !ok ==> restartsToGo == old(restartsToGo)
      ensures avail == |input| && Restarted(input, scan, old(State())).Some? ==> ok
    {
      hide ValidSetup, Restart, SegmentEnd, Word, SourceBits;
      bitsLeft := 0;
      var m := new MarkerReader(input, avail, pos, unreadMarker, nextRestartNum);
      ok := m.ReadRestartMarker();
      pos, unreadMarker, nextRestartNum := m.pos, m.unreadMarker, m.nextRestartNum;
      if !ok {
        return;
      }
      lastDc := Zeros(|lastDc|);
      restartsToGo := scan.restartInterval;
      if unreadMarker == 0 {
        insufficient := false;
      }
      EmptyWord(getBuffer);
      ghost var none: Bits := [];
      assert none + SourceBits(input, pos) == SourceBits(input, pos) && none + [] == none;
      assert unreadMarker != 0 ==> State().end == Restart(input, old(State().end), old(nextRestartNum)).value.0;
    }

    /** The blocks of an MCU, with a working copy r of the bit reader's state. */
    method DecodeBlocks(r: Reader, mcu: array<Block>, ghost stream: Bits) returns (ok: bool, last: seq<int>)
      requires Valid() && Tabled(scan, d, dcTables, acTables) && mcu.Length == |scan.membership|
      requires r.Tracks(stream, 0) && !r.insufficient
      modifies r, mcu
      ensures r.Steady(ok)
      ensures ok ==> mcu[..] == DecodedMcu(scan, d, stream, lastDc, old(mcu[..]))
      ensures ok ==> var (at, dc) := BlockStart(scan, d, stream, lastDc, |scan.membership|);
                     last == dc && r.Tracks(stream, at) && r.insufficient == (at > |stream|)
      ensures DecodedMcu(scan, d, stream, lastDc, mcu[..]) == DecodedMcu(scan, d, stream, lastDc, old(mcu[..]))
    {
      hide r.Tracks, r.Ready, r.End, r.Rest, Decodes, DecodeBlock, ValidDecTable, BlockStart, BlockOf, BlockAt;
      r.TracksValid(stream, 0);
      ghost var at, area := 0, mcu[..];
      BlockStartZero(scan, d, stream, lastDc);
      last, ok := lastDc, true;
      for blkn := 0 to |scan.membership|
        invariant (at, last) == BlockStart(scan, d, stream, lastDc, blkn)
        invariant ok && r.Valid() && r.Steady(true) && r.Tracks(stream, at) && r.insufficient == (at > |stream|)
        invariant Tabled(scan, d, dcTables, acTables)
        invariant PartlyDecoded(area, mcu[..], stream, blkn)
      {
        var ci := scan.membership[blkn];
        ghost var now, b := mcu[..], mcu[blkn];
        var dc;
        ghost var at';
        BlockStep(scan, d, stream, lastDc, blkn, at, last, b);
        r.FlagStays(stream, at);
        ok, dc, at' := DecodeOneBlock(r, dcTables[scan.dcTbl[ci]], d.dc[scan.dcTbl[ci]], acTables[scan.acTbl[ci]], d.ac[scan.acTbl[ci]],
                                      last[ci], d.dcNeeded[ci], d.acNeeded[ci], mcu, blkn, stream, at);
        BlockStep(scan, d, stream, lastDc, blkn, at, last, mcu[blkn]);
        OneMoreBlock(area, now, mcu[..], stream, blkn);
        if !ok {
          return;
        }
        last := last[ci := dc];
        at := at';
      }
    }

    /**
     decode_mcu: decodes the next MCU into the given area. If the source suspends, the call can be
     repeated with the area as it has been left: the result is that of one uninterrupted call. With
     all input delivered it succeeds wherever a marker ends the data.
     */
    method DecodeMcu(mcu: array<Block>) returns (ok: bool)
      requires Valid() && Tabled(scan, d, dcTables, acTables) && mcu.Length == |scan.membership|
      modifies this, mcu
      ensures Valid() && avail == old(avail)
      ensures ok ==> NextMcu(input, scan, d, old(State()), old(mcu[..])) == Some((State(), mcu[..]))
      ensures !ok ==> NextMcu(input, scan, d, State(), mcu[..]) == NextMcu(input, scan, d, old(State()), old(mcu[..]))
      ensures var r := NextMcu(input, scan, d, old(State()), old(mcu[..]));
              avail == |input| && r.Some? && r.value.0.end.Marker? ==> ok
      ensures !RestartDue(scan, old(restartsToGo)) && old(unreadMarker) != 0 ==> ok
    {
      hide ValidSetup, Tabled, Restarted, Decoded, Word, SourceBits, SegmentEnd;
      if scan.restartInterval != 0 {
        if restartsToGo == 0 {
          ok := ProcessRestart();
          if !ok {
            return;
          }
        }
      }
      ok := DecodeAhead(mcu);
    }

    /** BITREAD_LOAD_STATE: a working copy of the bit reader's state. */
    method LoadState() returns (r: Reader)
      requires Valid() && !insufficient
      ensures fresh(r) && r.input == input && r.avail == avail && r.Tracks(State().bits, 0) && !r.insufficient
      ensures r.End() == State().end && r.unreadMarker == unreadMarker
      ensures unreadMarker != 0 || (avail == |input| && State().end.Marker?) ==> r.Ready()
    {
      hide ValidSetup, Word, SourceBits, SegmentEnd, ReachesMarker;
      r := new Reader(input, avail, pos, getBuffer, bitsLeft, unreadMarker, insufficient);
      assert input[..|input|] == input;
      ReachesIffMarker(input, pos);
    }

    /** The MCU of a segment whose bits have not run out. */
    method DecodeSegment(mcu: array<Block>) returns (ok: bool)
      requires Valid() && Tabled(scan, d, dcTables, acTables) && mcu.Length == |scan.membership| && !insufficient
      modifies this`pos, this`getBuffer, this`bitsLeft, this`unreadMarker, this`insufficient, this`lastDc, mcu
      ensures Valid()
      ensures ok ==> var a := old(State());
                     var (at, last) := BlockStart(scan, d, a.bits, a.lastDc, |scan.membership|);
                     && State() == Ahead(Tail(a.bits, at), at > |a.bits|, a.end, last, a.toGo, a.next)
                     && mcu[..] == DecodedMcu(scan, d, a.bits, a.lastDc, old(mcu[..]))
      ensures !ok ==> State() == old(State()) && !insufficient
      ensures DecodedMcu(scan, d, old(State()).bits, old(lastDc), mcu[..]) == DecodedMcu(scan, d, old(State()).bits, old(lastDc), old(mcu[..]))
      ensures avail == |input| && old(State()).end.Marker? ==> ok
      ensures old(unreadMarker) != 0 ==> ok
    {
      hide ValidSetup, Tabled, Word, Value, Pow2, SourceBits, SegmentEnd, DecodedMcu, BlockStart, ReachesMarker, AllZero, BlockOf;
      var r := LoadState();
      hide r.Tracks, r.Ready;
      ghost var bits := State().bits;
      var last;
      ok, last := DecodeBlocks(r, mcu, bits);
      if ok {
        ReadOn(r, bits, BlockStart(scan, d, bits, lastDc, |scan.membership|).0);
        pos, getBuffer, bitsLeft := r.pos, r.getBuffer, r.bitsLeft;
        unreadMarker, insufficient := r.unreadMarker, r.insufficient;
        lastDc := last;
      }
    }

    /** decode_mcu when no restart marker is due. */
    method DecodeAhead(mcu: array<Block>) returns (ok: bool)
      requires Valid() && Tabled(scan, d, dcTables, acTables) && mcu.Length == |scan.membership|
      modifies this, mcu
      ensures Valid() && avail == old(avail)
      ensures ok ==> Decoded(input, scan, d, old(State()), old(mcu[..])) == (State(), mcu[..])
      ensures !ok ==> State() == old(State()) && restartsToGo == old(restartsToGo)
      ensures !ok ==> Decoded(input, scan, d, State(), mcu[..]) == Decoded(input, scan, d, old(State()), old(mcu[..]))
      ensures avail == |input| && old(State()).end.Marker? ==> ok
      ensures old(unreadMarker) != 0 ==> ok
    {
      hide ValidSetup, Tabled, Word, SourceBits, SegmentEnd, DecodedMcu, BlockStart, BlockOf, Decoded;
      StateIsValid();
      DecodedIs(input, scan, d, State(), mcu[..]);
      if !insufficient {
        ok := DecodeSegment(mcu);
        if !ok {
          DecodedIs(input, scan, d, State(), mcu[..]);
          return;
        }
      }
      restartsToGo := (restartsToGo + UINT_RANGE - 1) % UINT_RANGE;
      ok := true;
    }

    /** The first n blocks have been decoded; decoding them again would change nothing. */
    ghost predicate PartlyDecoded(area: Mcu, now: Mcu, stream: Bits, n: nat)
      requires Valid()
      reads this
    {
      && |area| == |now| == |scan.membership| && n <= |area|
      && (forall j :: 0 <= j < n ==> now[j] == BlockOf(scan, d, stream, lastDc, j, area[j]))
      && (forall j :: 0 <= j < |area| ==> BlockOf(scan, d, stream, lastDc, j, now[j]) == BlockOf(scan, d, stream, lastDc, j, area[j]))
      && (forall j :: n <= j < |area| ==> now[j] == area[j])
    }

    lemma OneMoreBlock(area: Mcu, now: Mcu, after: Mcu, stream: Bits, n: nat)
      requires Valid() && PartlyDecoded(area, now, stream, n) && n < |area| && |after| == |now| && after == now[n := after[n]]
      requires BlockOf(scan, d, stream, lastDc, n, after[n]) == BlockOf(scan, d, stream, lastDc, n, now[n])
      ensures DecodedMcu(scan, d, stream, lastDc, after) == DecodedMcu(scan, d, stream, lastDc, area)
      ensures after[n] == BlockOf(scan, d, stream, lastDc, n, now[n]) ==> PartlyDecoded(area, after, stream, n + 1)
    {
      hide BlockOf, ValidSetup;
    }
  }

  ghost predicate Tabled(scan: Scan, d: Setup, dcTables: seq<DDerivedTbl>, acTables: seq<DDerivedTbl>)
    requires ValidSetup(scan, d)
    reads set t | t in dcTables + acTables :: t.maxcode
    reads set t | t in dcTables + acTables :: t.valoffset
    reads set t | t in dcTables + acTables :: t.lookNbits
    reads set t | t in dcTables + acTables :: t.lookSym
  {
    && |dcTables| == |acTables| == NUM_HUFF_TBLS
    && forall c :: 0 <= c < |scan.dcTbl| ==>
         && TableFor(dcTables[scan.dcTbl[c]], d.dc[scan.dcTbl[c]])
         && TableFor(acTables[scan.acTbl[c]], d.ac[scan.acTbl[c]])
  }

  /** What is left of the segment for the reader. */
  lemma ReadOn(r: Reader, stream: Bits, at: nat)
    requires r.Tracks(stream, at) && r.insufficient == (at > |stream|)
    ensures r.Valid() && (if r.insufficient then [] else r.Rest()) == Tail(stream, at)
  {
    hide r.Rest, AllZero;
  }

  lemma DecodedIs(input: Bytes, scan: Scan, d: Setup, a: Ahead, area: Mcu)
    requires ValidAhead(input, scan, a) && ValidSetup(scan, d) && |area| == |scan.membership|
    ensures var (at, last) := BlockStart(scan, d, a.bits, a.lastDc, |scan.membership|);
            var togo := (a.toGo + UINT_RANGE - 1) % UINT_RANGE;
            Decoded(input, scan, d, a, area) ==
              if a.exhausted then (a.(toGo := togo), area)
              else (Ahead(Tail(a.bits, at), at > |a.bits|, a.end, last, togo, a.next), DecodedMcu(scan, d, a.bits, a.lastDc, area))
  {
    hide ValidSetup, BlockStart, DecodedMcu;
  }

  lemma BlockStartZero(scan: Scan, d: Setup, stream: Bits, lastDc: seq<int>)
    requires ValidSetup(scan, d) && |lastDc| == |scan.dcTbl|
    ensures BlockStart(scan, d, stream, lastDc, 0) == (0, lastDc)
  {
  }

  lemma EmptyWord(v: nat)
    ensures Word(v, 0) == []
  {
  }
}
