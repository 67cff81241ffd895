/**
 The bit reader of the Huffman decoders: jpeg_fill_bit_buffer, the bit macros and the Huffman
 symbol decoder (jpeg/jdhuff.c, jpeg/jdhuff.h). The source may suspend at any byte.
 */
module BitReader {
  import opened Arith
  import opened BitString
  import opened ByteStream
  import opened BitWriter
  import opened CodeSpace
  import opened CanonicalCode
  import opened DerivedTables

  const MIN_GET_BITS := 25

  ghost predicate AllZero(s: Bits)
  {
    forall i :: 0 <= i < |s| ==> !s[i]
  }

  /** From pos, what is available leads to a marker, so that reading on never has to wait. */
  ghost predicate ReachesMarker(input: Bytes, pos: nat)
    requires pos <= |input|
    decreases |input| - pos
  {
    match NextByte(input, pos)
    case More => false
    case Data(_, q) => ReachesMarker(input, q)
    case Marker(_, _) => true
  }

  lemma Pow32()
    ensures Pow2(32) == TWO32
  {
    Pow2Values();
    Pow2Add(16, 16);
  }

  /** Shifting a data byte into the bit buffer. */
  lemma ShiftIn(g: nat, n: nat, c: nat)
    requires c < 256 && n <= 24
    ensures var x := (g * 256) % TWO32;
            BitOr(c, x) == x + c < TWO32 && Word(x + c, n + 8) == Word(g, n) + Word(c, 8)
  {
    hide Pow2, BitOr, Word;
    var x := (g * 256) % TWO32;
    Pow2Values();
    Pow32();
    ShiftedByte(g, c);
    OrDisjoint(c, x, 8, x / 256);
    WordAppend(g, n, c, 8);
    WordOfLow(g * 256 + c, n + 8, 32);
  }

  lemma ShiftedByte(g: nat, c: nat)
    requires c < 256
    ensures var x := (g * 256) % TWO32;
            x == (x / 256) * 256 && x + c == (g * 256 + c) % TWO32
  {
    var q, r := g / TWO24, g % TWO24;
    QuotientIs(g * 256, TWO32, q, r * 256);
    QuotientIs(g * 256 + c, TWO32, q, r * 256 + c);
    QuotientIs(r * 256, 256, r, 0);
  }

  /** Making up zeros at the end of the bit buffer. */
  lemma ShiftZeros(g: nat, n: nat, k: nat)
    requires n + k <= 32
    ensures Word((g * Pow2(k)) % TWO32, n + k) == Word(g, n) + Word(0, k)
    ensures AllZero(Word(0, k))
  {
    hide Pow2, Word;
    Pow32();
    WordAppend(g, n, 0, k);
    WordOfLow(g * Pow2(k) + 0, n + k, 32);
    ZeroWord(k);
  }

  lemma {:induction false} ZeroWord(k: nat)
    ensures AllZero(Word(0, k))
  {
    if k > 0 {
      ZeroWord(k - 1);
    }
  }

  /**
   The working state of the reader. input is everything the source will ever deliver, of which the
   first avail bytes have arrived; a read past them suspends.
   */
  class Reader {
    const input: Bytes
    var avail: nat
    var pos: nat
    var getBuffer: nat
    var bitsLeft: nat
    var unreadMarker: int
    var insufficient: bool

    constructor (input: Bytes, avail: nat, pos: nat, getBuffer: nat, bitsLeft: nat, unreadMarker: int, insufficient: bool)
      ensures this.input == input && this.avail == avail && this.pos == pos && this.getBuffer == getBuffer
      ensures this.bitsLeft == bitsLeft && this.unreadMarker == unreadMarker && this.insufficient == insufficient
    {
      this.input, this.avail, this.pos, this.getBuffer := input, avail, pos, getBuffer;
      this.bitsLeft, this.unreadMarker, this.insufficient := bitsLeft, unreadMarker, insufficient;
    }

    ghost predicate Valid()
      reads this
    {
      pos <= avail <= |input| && getBuffer < TWO32 && bitsLeft <= 32
    }

    /** The bits that are still to be read: those in the buffer and those up to the next marker. */
    ghost function Rest(): Bits
      requires Valid()
      reads this
    {
      Word(getBuffer, bitsLeft) + if unreadMarker != 0 then [] else SourceBits(input, pos)
    }

    /** What ends the segment: the marker that has been read, or the one that will be found. */
    ghost function End(): Next
      requires Valid()
      reads this
    {
      if unreadMarker != 0 then Marker(unreadMarker, pos) else SegmentEnd(input, pos)
    }

    /** The reader is at bit number at of a segment with the given bits, which zeros follow. */
    ghost predicate Tracks(stream: Bits, at: nat)
      reads this
    {
      && Valid()
      && if at <= |stream| then Rest() == stream[at..] else unreadMarker != 0 && insufficient && AllZero(Rest())
    }

    /** No read has to wait any more before the next marker. */
    ghost predicate Ready()
      reads this
    {
      Valid() && (unreadMarker != 0 || ReachesMarker(input[..avail], pos))
    }

    /**
     What every read keeps: the end of the segment, a marker that has been read, and readiness. A
     read that suspends has found no marker and noted no lack of data.
     */
    twostate predicate Steady(ok: bool)
      requires old(Valid())
      reads this
    {
      && Valid() && avail == old(avail) && End() == old(End())
      && (old(Ready()) ==> ok && Ready())
      && (old(unreadMarker) != 0 ==> unreadMarker == old(unreadMarker))
      && (!ok ==> unreadMarker == old(unreadMarker) == 0 && insufficient == old(insufficient))
    }

    /** Reads a byte of data, or a marker, at position p of what is available. */
    method ReadByte(p: nat) returns (n: Next)
      requires p <= avail <= |input|
      ensures n == NextByte(input[..avail], p)
    {
      if p == avail {
        return More;
      }
      var c, q := input[p], p + 1;
      if c == 0xFF {
        while q < avail && input[q] == 0xFF
          invariant p < q <= avail
          invariant SkipFill(input[..avail], p + 1) == SkipFill(input[..avail], q)
        {
          q := q + 1;
        }
        if q == avail {
          return More;
        }
        if input[q] == 0 {
          return Data(0xFF, q + 1);
        }
        return Marker(input[q], q + 1);
      }
      return Data(c, q);
    }

    /** The byte loop: shifts in bytes until 25 bits are buffered or a marker comes up. */
    method Load() returns (ok: bool)
      requires Valid()
      modifies this`pos, this`getBuffer, this`bitsLeft, this`unreadMarker
      ensures Valid()
      ensures !ok ==> unchanged(this) && unreadMarker == 0
      ensures old(Ready()) ==> ok && Ready()
      ensures old(unreadMarker) != 0 ==> unreadMarker == old(unreadMarker)
      ensures ok ==> Rest() == old(Rest()) && (unreadMarker != 0 || bitsLeft >= MIN_GET_BITS)
      ensures ok && old(unreadMarker) != 0 ==> unchanged(this)
      ensures End() == old(End())
    {
      hide Word, SourceBits, SegmentEnd, NextByte, BitOr, Pow2, ReachesMarker;
      if unreadMarker != 0 {
        return true;
      }
      var p, g, n: nat := pos, getBuffer, bitsLeft;
      ghost var r := Rest();
      while n < MIN_GET_BITS
        invariant Valid() && pos <= p <= avail && 0 <= g < TWO32 && n <= 32
        invariant unchanged(this) && unreadMarker == 0 && Word(g, n) + SourceBits(input, p) == r
        invariant ReachesMarker(input[..avail], pos) == ReachesMarker(input[..avail], p)
        invariant SegmentEnd(input, pos) == SegmentEnd(input, p)
        decreases avail - p
      {
        var b := ReadByte(p);
        NextBytePrefix(input, avail, p);
        SourceStep(input, p);
        ReachStep(input[..avail], p);
        if b.More? {
          return false;
        }
        p := b.pos;
        if b.Marker? {
          unreadMarker := b.code;
          break;
        }
        ShiftIn(g, n, b.c);
        Reassociate(Word(g, n), Word(b.c, 8), SourceBits(input, p));
        g := BitOr(b.c, (g * 256) % TWO32);
        n := n + 8;
      }
      ok := true;
      pos := p;
      getBuffer := g;
      bitsLeft := n;
    }

    /**
     jpeg_fill_bit_buffer: afterwards at least nbits bits are buffered, zeros being made up if the
     segment has no more; or the source suspends, and nothing has changed.
     */
    method Fill(nbits: nat, ghost stream: Bits, ghost at: nat) returns (ok: bool)
      requires Tracks(stream, at) && nbits <= MIN_GET_BITS
      modifies this`pos, this`getBuffer, this`bitsLeft, this`unreadMarker, this`insufficient
      ensures Valid()
      ensures !ok ==> unchanged(this) && unreadMarker == 0
      ensures old(Ready()) ==> ok && Ready()
      ensures old(unreadMarker) != 0 ==> unreadMarker == old(unreadMarker)
      ensures ok ==> bitsLeft >= nbits && (unreadMarker != 0 || bitsLeft >= MIN_GET_BITS)
      ensures ok && nbits == 0 ==> Tracks(stream, at) && insufficient == old(insufficient)
      ensures ok && at + nbits <= |stream| ==> Tracks(stream, at) && insufficient == old(insufficient)
      ensures ok && at + nbits > |stream| ==>
                unreadMarker != 0 && insufficient && exists z :: Rest() == Tail(stream, at) + z && AllZero(z)
      ensures End() == old(End())
    {
      hide Word, SourceBits, SegmentEnd, NextByte, BitOr, Pow2, ReachesMarker;
      ok := Load();
      if !ok {
        return;
      }
      assert at > |stream| ==> Rest() == Tail(stream, at) + Rest();
      assert at <= |stream| ==> Rest() == Tail(stream, at) + [] && AllZero([]);
      if unreadMarker != 0 && nbits > bitsLeft {
        ghost var k := MIN_GET_BITS - bitsLeft;
        ghost var r := Rest();
        ShiftZeros(getBuffer, bitsLeft, k);
        insufficient := true;
        getBuffer := (getBuffer * Pow2(MIN_GET_BITS - bitsLeft)) % TWO32;
        bitsLeft := MIN_GET_BITS;
        assert Rest() == r + Word(0, k);
        assert at <= |stream| ==> Rest() == Tail(stream, at) + Word(0, k);
        assert at > |stream| ==> Rest() == Tail(stream, at) + Rest();
      }
    }

    /** GET_BITS: takes n buffered bits. */
    method Take(n: nat) returns (v: nat)
      requires Valid() && n <= bitsLeft
      modifies this`bitsLeft
      ensures Valid() && n <= |old(Rest())|
      ensures v == Value(old(Rest())[..n]) && Rest() == old(Rest())[n..]
      ensures old(Ready()) ==> Ready()
      ensures End() == old(End())
    {
      hide Word, SourceBits, SegmentEnd, Pow2;
      ghost var w := Word(getBuffer, bitsLeft);
      WordSplit(getBuffer, bitsLeft, n);
      ValueOfLow(getBuffer / Pow2(bitsLeft - n), n);
      assert Rest()[..n] == w[..n];
      v := (getBuffer / Pow2(bitsLeft - n)) % Pow2(n);
      bitsLeft := bitsLeft - n;
      assert Rest() == old(Rest())[n..];
    }

    /** PEEK_BITS: looks at n buffered bits. */
    method Look(n: nat) returns (v: nat)
      requires Valid() && n <= bitsLeft
      ensures n <= |Rest()| && v == Value(Rest()[..n])
    {
      hide Word, SourceBits, Pow2;
      ghost var w := Word(getBuffer, bitsLeft);
      WordSplit(getBuffer, bitsLeft, n);
      ValueOfLow(getBuffer / Pow2(bitsLeft - n), n);
      assert Rest()[..n] == w[..n];
      v := (getBuffer / Pow2(bitsLeft - n)) % Pow2(n);
    }

    /**
     CHECK_BIT_BUFFER followed by GET_BITS: the next n bits of the segment, or zeros beyond its
     end, which is then noted.
     */
    method GetBits(n: nat, ghost stream: Bits, ghost at: nat) returns (ok: bool, v: nat)
      requires Tracks(stream, at) && 1 <= n <= MIN_GET_BITS
      modifies this`pos, this`getBuffer, this`bitsLeft, this`unreadMarker, this`insufficient
      ensures !ok ==> unchanged(this) && unreadMarker == 0 && at <= |stream|
      ensures old(Ready()) ==> ok && Ready()
      ensures old(unreadMarker) != 0 ==> unreadMarker == old(unreadMarker)
      ensures ok ==> Tracks(stream, at + n) && v == Peek(Tail(stream, at), n)
      ensures ok ==> insufficient == (old(insufficient) || at + n > |stream|)
      ensures Valid() && End() == old(End())
    {
      hide SegmentEnd, Word, SourceBits, Peek, ReachesMarker, Value, AllZero;
      v, ok := 0, true;
      if bitsLeft < n {
        ok := Fill(n, stream, at);
        if !ok {
          return;
        }
      }
      ghost var z := Shortfall(stream, at, n);
      ghost var rest := Rest();
      v := Take(n);
      TakeFromTail(rest, Tail(stream, at), z, n);
    }

    /** What Rest() holds beyond the segment, once n bits are buffered. */
    ghost method Shortfall(stream: Bits, at: nat, n: nat) returns (z: Bits)
      requires Valid() && bitsLeft >= n >= 1
      requires at + n <= |stream| ==> Tracks(stream, at)
      requires at + n > |stream| ==>
                 (Tracks(stream, at) || (unreadMarker != 0 && insufficient && exists z :: Rest() == Tail(stream, at) + z && AllZero(z)))
      ensures Rest() == Tail(stream, at) + z && AllZero(z)
      ensures at + n <= |stream| ==> z == []
      ensures at + n > |stream| ==> unreadMarker != 0 && insufficient
    {
      hide Word, SourceBits;
      if at + n <= |stream| {
        z := [];
        assert Rest() == Tail(stream, at) + z;
      } else {
        if at > |stream| {
          assert Rest() == Tail(stream, at) + Rest();
        }
        z :| Rest() == Tail(stream, at) + z && AllZero(z);
      }
    }

    /**
     jpeg_huff_decode: takes minBits bits in one swoop and then single bits until they are a code.
     On garbage it takes 17 bits and makes the symbol 0.
     */
    method SlowDecode(tbl: DDerivedTbl, huffval: seq<int>, minBits: nat, ghost b: seq<int>, ghost stream: Bits, ghost at: nat)
        returns (ok: bool, sym: int)
      requires Tracks(stream, at) && tbl.Shaped() && |huffval| == 256
      requires Decodes(b, huffval, tbl.maxcode[..], tbl.valoffset[..], tbl.lookNbits[..], tbl.lookSym[..])
      requires 1 <= minBits <= StopLength(b, Tail(stream, at), 1) && minBits <= 9
      modifies this`pos, this`getBuffer, this`bitsLeft, this`unreadMarker, this`insufficient
      ensures !ok ==> unreadMarker == old(unreadMarker) == 0 && insufficient == old(insufficient)
      ensures old(Ready()) ==> ok && Ready()
      ensures old(unreadMarker) != 0 ==> unreadMarker == old(unreadMarker)
      ensures ok ==> var (symbol, l) := DecodeSymbol(b, huffval, Tail(stream, at));
                     sym == symbol && Tracks(stream, at + l) && insufficient == (old(insufficient) || at + l > |stream|)
      ensures Valid() && End() == old(End())
    {
      hide End, Word, SourceBits, ReachesMarker, StopLength, Tracks, Ready, LookaheadBelow, Peek, ValOffset, MaxCode, Filled, Count, SizeOf;
      TracksValid(stream, at);
      ghost var s, end := Tail(stream, at), End();
      var l := minBits;
      var code, bit;
      sym := 0;
      ok, code := GetBits(l, stream, at);
      if !ok {
        return;
      }
      LateStart(b, s, 1, l);
      while code > tbl.maxcode[l]
        invariant minBits <= l <= MAX_LENGTH + 1 && code == Peek(s, l)
        invariant StopLength(b, s, l) == StopLength(b, s, 1)
        invariant Tracks(stream, at + l) && insufficient == (old(insufficient) || at + l > |stream|)
        invariant old(Ready()) ==> Ready()
        invariant old(unreadMarker) != 0 ==> unreadMarker == old(unreadMarker)
        invariant Valid() && End() == end
        decreases MAX_LENGTH + 1 - l
      {
        NextBit(b, s, l);
        TailTail(stream, at, l);
        ok, bit := GetBits(1, stream, at + l);
        if !ok {
          return;
        }
        code := 2 * code + bit;
        l := l + 1;
      }
      StopsHere(b, s, l);
      if l > MAX_LENGTH {
        return;
      }
      StopsOnACode(b, s);
      CodeInTable(b, code + ValOffset(b, l));
      sym := huffval[code + tbl.valoffset[l]];
    }

    /** The table lookup of HUFF_DECODE; nb is 0 if the code is longer than 8 bits. */
    method LookUp(tbl: DDerivedTbl, huffval: seq<int>, ghost b: seq<int>, ghost stream: Bits, ghost at: nat)
        returns (nb: nat, sym: int)
      requires Tracks(stream, at) && bitsLeft >= HUFF_LOOKAHEAD && tbl.Shaped() && |huffval| == 256
      requires Decodes(b, huffval, tbl.maxcode[..], tbl.valoffset[..], tbl.lookNbits[..], tbl.lookSym[..])
      modifies this`bitsLeft
      ensures old(Ready()) ==> Ready()
      ensures nb == 0 ==> unchanged(this) && StopLength(b, Tail(stream, at), 1) > HUFF_LOOKAHEAD
      ensures nb != 0 ==> DecodeSymbol(b, huffval, Tail(stream, at)) == (sym, nb)
      ensures nb != 0 ==> Tracks(stream, at + nb) && (at + nb > |stream| ==> insufficient)
      ensures Valid() && End() == old(End())
    {
      hide End, Word, SourceBits, ReachesMarker, StopLength, DecodeSymbol, Ready, Lookahead, Peek, ValOffset, Value, AllZero;
      hide LegalLengths, Sequential;
      var look := Look(HUFF_LOOKAHEAD);
      ghost var s, rest := Tail(stream, at), Rest();
      ghost var z := if at <= |stream| then [] else rest;
      TakeFromTail(rest, s, z, HUFF_LOOKAHEAD);
      PeekBound(s, HUFF_LOOKAHEAD);
      Pow2Values();
      sym := tbl.lookSym[look];
      var n := tbl.lookNbits[look];
      LookupIsDecoding(b, huffval, s, n, sym);
      nb := n;
      if nb != 0 {
        var _ := Take(nb);
        TakeFromTail(rest, s, z, nb);
      }
    }

    /** The HUFF_DECODE macro: table lookup when 8 bits can be had, and else the slow way. */
    method HuffDecode(tbl: DDerivedTbl, huffval: seq<int>, ghost b: seq<int>, ghost stream: Bits, ghost at: nat)
        returns (ok: bool, sym: int)
      requires Tracks(stream, at) && tbl.Shaped() && |huffval| == 256
      requires Decodes(b, huffval, tbl.maxcode[..], tbl.valoffset[..], tbl.lookNbits[..], tbl.lookSym[..])
      modifies this`pos, this`getBuffer, this`bitsLeft, this`unreadMarker, this`insufficient
      ensures !ok ==> unreadMarker == old(unreadMarker) == 0 && insufficient == old(insufficient)
      ensures old(Ready()) ==> ok && Ready()
      ensures old(unreadMarker) != 0 ==> unreadMarker == old(unreadMarker)
      ensures ok ==> var (symbol, l) := DecodeSymbol(b, huffval, Tail(stream, at));
                     sym == symbol && Tracks(stream, at + l) && insufficient == (old(insufficient) || at + l > |stream|)
      ensures Valid() && End() == old(End())
    {
      hide End, Rest, Tracks, StopLength, DecodeSymbol, Ready, Decodes;
      ok, sym := true, 0;
      if bitsLeft < HUFF_LOOKAHEAD {
        ok := Fill(0, stream, at);
        if !ok {
          return;
        }
        if bitsLeft < HUFF_LOOKAHEAD {
          ok, sym := SlowDecode(tbl, huffval, 1, b, stream, at);
          return;
        }
      }
      var nb;
      nb, sym := LookUp(tbl, huffval, b, stream, at);
      if nb == 0 {
        ok, sym := SlowDecode(tbl, huffval, HUFF_LOOKAHEAD + 1, b, stream, at);
      } else {
        FlagStays(stream, at + nb);
      }
    }

    lemma TracksValid(stream: Bits, at: nat)
      requires Tracks(stream, at)
      ensures Valid()
    {
    }

    lemma FlagStays(stream: Bits, at: nat)
      requires Tracks(stream, at)
      ensures at > |stream| ==> insufficient && unreadMarker != 0
    {
    }
  }

  /** Reading one bit more when the bits so far are no code. */
  lemma NextBit(b: seq<int>, s: Bits, l: nat)
    requires |b| == MAX_LENGTH + 1 && 1 <= l <= MAX_LENGTH + 1
    requires Peek(s, l) > if l <= MAX_LENGTH then MaxCode(b, l) else SENTINEL
    ensures l <= MAX_LENGTH && StopLength(b, s, l) == StopLength(b, s, l + 1)
    ensures Peek(s, l + 1) == 2 * Peek(s, l) + Peek(Tail(s, l), 1)
  {
    PeekBound(s, l);
    Pow2Values();
    Pow2Mono(l, 17);
    assert Peek(Tail(s, l), 1) == BitAt(Tail(s, l), 0) by { assert Peek(Tail(s, l), 0) == 0; }
  }

  lemma StopsHere(b: seq<int>, s: Bits, l: nat)
    requires |b| == MAX_LENGTH + 1 && 1 <= l <= MAX_LENGTH + 1
    requires l <= MAX_LENGTH ==> Peek(s, l) <= MaxCode(b, l)
    ensures StopLength(b, s, l) == l
    ensures l <= MAX_LENGTH ==> b[l] != 0
  {
  }

  lemma CodeInTable(b: seq<int>, p: int)
    requires LegalLengths(b) && HasCode(b, p)
    ensures 0 <= p < 256
  {
  }

  /** The symbol at the beginning of s, which zeros follow, and the length of its code. */
  function DecodeSymbol(b: seq<int>, huffval: seq<int>, s: Bits): (r: (int, nat))
    requires |b| == MAX_LENGTH + 1 && |huffval| == 256
    ensures 1 <= r.1 <= MAX_LENGTH + 1
  {
    var l := StopLength(b, s, 1);
    if l > MAX_LENGTH then (0, l)
    else
      var p := Peek(s, l) + ValOffset(b, l);
      (if 0 <= p < 256 then huffval[p] else 0, l)
  }

  /** Bits that begin with no code are taken for symbol 0, and 17 of them are passed. */
  lemma GarbageIsZero(b: seq<int>, huffval: seq<int>, s: Bits)
    requires |b| == MAX_LENGTH + 1 && |huffval| == 256
    requires forall l :: 1 <= l <= 16 ==> Peek(s, l) > MaxCode(b, l)
    ensures DecodeSymbol(b, huffval, s) == (0, 17)
  {
    NeverStops(b, s, 1);
  }

  lemma {:induction false} NeverStops(b: seq<int>, s: Bits, l: nat)
    requires |b| == MAX_LENGTH + 1 && 1 <= l <= 17
    requires forall k :: 1 <= k <= 16 ==> Peek(s, k) > MaxCode(b, k)
    ensures StopLength(b, s, l) == 17
    decreases 17 - l
  {
    hide Peek, MaxCode;
    if l <= 16 {
      NeverStops(b, s, l + 1);
    }
  }

  /** Strings that agree on their first n bits agree on fewer. */
  lemma {:induction false} PeekAgrees(s: Bits, t: Bits, n: nat, k: nat)
    requires Peek(s, n) == Peek(t, n) && k <= n
    ensures Peek(s, k) == Peek(t, k)
    decreases n
  {
    if k < n {
      PeekAgrees(s, t, n - 1, k);
    }
  }

  /** The decoder's stopping within n bits depends on those n bits only. */
  lemma {:induction false} StopAgrees(b: seq<int>, s: Bits, t: Bits, n: nat, from: nat)
    requires |b| == MAX_LENGTH + 1 && 1 <= from && n <= MAX_LENGTH && from <= n + 1
    requires Peek(s, n) == Peek(t, n)
    ensures StopLength(b, s, from) <= n || StopLength(b, t, from) <= n ==> StopLength(b, s, from) == StopLength(b, t, from)
    decreases n + 1 - from
  {
    if from <= n {
      PeekAgrees(s, t, n, from);
      StopAgrees(b, s, t, n, from + 1);
    }
  }

  /** The lookahead tables give what bit-by-bit decoding gives, or tell that the code is longer than 8 bits. */
  lemma LookupIsDecoding(b: seq<int>, huffval: seq<int>, s: Bits, nbits: int, sym: int)
    requires |b| == MAX_LENGTH + 1 && |huffval| == 256 && Peek(s, HUFF_LOOKAHEAD) < 256
    requires Lookahead(b, huffval, Peek(s, HUFF_LOOKAHEAD), nbits, sym)
    ensures 0 <= nbits <= HUFF_LOOKAHEAD
    ensures nbits != 0 ==> DecodeSymbol(b, huffval, s) == (sym, nbits)
    ensures nbits == 0 ==> StopLength(b, s, 1) > HUFF_LOOKAHEAD
  {
    hide Word, Peek, ValOffset, StopLength;
    var x := Peek(s, HUFF_LOOKAHEAD);
    var t := Word(x, HUFF_LOOKAHEAD);
    Pow2Values();
    PeekWord(x, HUFF_LOOKAHEAD, []);
    assert t + [] == t;
    StopAgrees(b, s, t, HUFF_LOOKAHEAD, 1);
    var l := StopLength(b, t, 1);
    if l <= HUFF_LOOKAHEAD {
      PeekAgrees(s, t, HUFF_LOOKAHEAD, l);
    }
  }

  /** Taking n bits from a tail that zeros follow. */
  lemma TakeFromTail(rest: Bits, tail: Bits, z: Bits, n: nat)
    requires rest == tail + z && AllZero(z) && n <= |rest|
    ensures Value(rest[..n]) == Peek(tail, n)
    ensures n <= |tail| ==> rest[n..] == tail[n..] + z
    ensures n > |tail| ==> AllZero(rest[n..])
  {
    PeekIsValue(rest, n);
    PeekPrefix(rest, tail, n);
  }

  lemma ReachStep(input: Bytes, p: nat)
    requires p <= |input|
    ensures match NextByte(input, p)
            case More => !ReachesMarker(input, p)
            case Data(_, q) => ReachesMarker(input, p) == ReachesMarker(input, q)
            case Marker(_, _) => ReachesMarker(input, p)
  {
  }

  lemma Reassociate(a: Bits, b: Bits, c: Bits)
    ensures (a + b) + c == a + (b + c)
  {
  }

  lemma SourceStep(input: Bytes, p: nat)
    requires p <= |input|
    ensures match NextByte(input, p)
            case Data(c, q) => SourceBits(input, p) == Word(c, 8) + SourceBits(input, q) && SegmentEnd(input, p) == SegmentEnd(input, q)
            case n => SourceBits(input, p) == [] && SegmentEnd(input, p) == n
  {
  }
}
