/**
 Expanding a table definition for the encoder (jpeg_make_c_derived_tbl, jpeg/jchuff.c) and for
 the decoder (jpeg_make_d_derived_tbl, jpeg/jdhuff.c). The two routines generate the codes with
 the same statements, which are here one method.
 */
module DerivedTables {
  import opened JpegLimits
  import opened Arith
  import opened BitString
  import opened CodeSpace
  import opened CanonicalCode
  import opened HuffTables

  const HUFF_LOOKAHEAD := 8

  datatype TableStatus = Made | NoSuchTable | BadTable

  /** The lengths of a table definition, whose element 0 is not used. */
  function Used(bits: seq<int>): (b: seq<int>)
    requires |bits| == MAX_LENGTH + 1
    ensures |b| == |bits|
  {
    bits[0 := 0]
  }

  /** A table definition as it is stored: 8-bit counts and symbols. */
  ghost predicate Definition(bits: seq<int>, huffval: seq<int>)
  {
    && |bits| == MAX_LENGTH + 1 && |huffval| == 256
    && Lengths(Used(bits))
    && forall k :: 0 <= k < 256 ==> 0 <= huffval[k] < 256
  }

  ghost function Symbols(bits: seq<int>): int
    requires |bits| == MAX_LENGTH + 1
  {
    Count(Used(bits), MAX_LENGTH)
  }

  /** The sizes and codes of figures C.1 and C.2. */
  ghost predicate Sizes(b: seq<int>, huffsize: seq<int>, n: int)
  {
    && Lengths(b) && 0 <= n <= Count(b, MAX_LENGTH) <= 256 && |huffsize| == 257
    && forall p :: 0 <= p < n ==> huffsize[p] == SizeOf(b, p)
  }

  ghost predicate Codes(b: seq<int>, huffcode: seq<int>, n: int)
  {
    && Lengths(b) && 0 <= n <= Count(b, MAX_LENGTH) <= 256 && |huffcode| == 257
    && forall p :: 0 <= p < n ==> huffcode[p] == CodeOf(b, p)
  }

  /** Figure C.1: fails exactly if the lengths promise more than 256 codes. */
  method ListSizes(bits: seq<int>, huffsize: array<int>) returns (ok: bool, n: int)
    requires |bits| == MAX_LENGTH + 1 && Lengths(Used(bits)) && huffsize.Length == 257
    modifies huffsize
    ensures ok <==> Count(Used(bits), MAX_LENGTH) <= 256
    ensures ok ==> n == Count(Used(bits), MAX_LENGTH) && Sizes(Used(bits), huffsize[..], n) && huffsize[n] == 0
  {
    ghost var b := Used(bits);
    var p := 0;
    for l := 1 to MAX_LENGTH + 1
      invariant p == Count(b, l - 1) && 0 <= p <= 256
      invariant forall q :: 0 <= q < p ==> HasCode(b, q) && huffsize[q] == SizeOf(b, q)
    {
      var i := bits[l];
      CountMono(b, l, MAX_LENGTH);
      if i < 0 || p + i > 256 {
        return false, 0;
      }
      while i > 0
        invariant 0 <= i && p + i == Count(b, l) && Count(b, l - 1) <= p
        invariant forall q :: 0 <= q < p ==> HasCode(b, q) && huffsize[q] == SizeOf(b, q)
      {
        SizeUnique(b, p, l);
        huffsize[p] := l;
        p := p + 1;
        i := i - 1;
      }
    }
    huffsize[p] := 0;
    return true, p;
  }

  /** Figure C.2: fails exactly if the lengths leave no code unused. */
  method ListCodes(ghost b: seq<int>, huffsize: array<int>, huffcode: array<int>, ghost n: int) returns (ok: bool)
    requires huffsize.Length == huffcode.Length == 257 && huffsize != huffcode
    requires Lengths(b) && n == Count(b, MAX_LENGTH) <= 256 && Sizes(b, huffsize[..], n) && huffsize[n] == 0
    modifies huffcode
    ensures ok <==> Filled(b, MAX_LENGTH) < Pow2(MAX_LENGTH)
    ensures ok ==> Codes(b, huffcode[..], n)
  {
    hide Filled, Count, SizeOf, Pow2;
    var code, si, p := 0, huffsize[0], 0;
    FirstSize(b, n, si);
    while huffsize[p] != 0
      invariant 0 <= p <= n
      invariant n > 0 ==> 1 <= si <= MAX_LENGTH + 1 && p == Count(b, si - 1) && code == 2 * Filled(b, si - 1)
      invariant p == n > 0 ==> Filled(b, MAX_LENGTH) < Pow2(MAX_LENGTH)
      invariant forall q :: 0 <= q < p ==> huffcode[q] == CodeOf(b, q)
      decreases MAX_LENGTH + 1 - si
    {
      assert huffsize[p] == SizeOf(b, p);
      ghost var l := si;
      CountMono(b, l - 1, l);
      while huffsize[p] == si
        invariant 1 <= si == l <= MAX_LENGTH && 0 <= p <= n
        invariant Count(b, l - 1) <= p <= Count(b, l)
        invariant code == 2 * Filled(b, l - 1) + (p - Count(b, l - 1))
        invariant forall q :: 0 <= q < p ==> huffcode[q] == CodeOf(b, q)
        decreases n - p
      {
        assert p < n;
        assert huffsize[p] == SizeOf(b, p);
        huffcode[p] := code;
        p := p + 1;
        code := code + 1;
      }
      LengthDone(b, l, p, n, huffsize[..]);
      RoomIffRoomAtLast(b, l, p, n);
      if code >= Pow2(si) {
        return false;
      }
      code := 2 * code;
      si := si + 1;
    }
    if n == 0 {
      FilledNothingCounted(b);
    }
    return true;
  }

  lemma FirstSize(b: seq<int>, n: int, si: int)
    requires Lengths(b) && n == Count(b, MAX_LENGTH) && (n > 0 ==> si == SizeOf(b, 0))
    ensures n > 0 ==> 1 <= si <= MAX_LENGTH && Count(b, si - 1) == 0 && Filled(b, si - 1) == 0
  {
    if n > 0 {
      CountMono(b, 0, si - 1);
      FilledNothing(b, si - 1);
    }
  }

  lemma FilledNothingCounted(b: seq<int>)
    requires Lengths(b) && Count(b, MAX_LENGTH) == 0
    ensures Filled(b, MAX_LENGTH) < Pow2(MAX_LENGTH)
  {
    CountMono(b, 0, MAX_LENGTH);
    FilledNothing(b, MAX_LENGTH);
  }

  /** When the sizes equal to l have run out, all codes of length l have been handed out. */
  lemma LengthDone(b: seq<int>, l: nat, p: int, n: int, huffsize: seq<int>)
    requires Sizes(b, huffsize, n) && n == Count(b, MAX_LENGTH) && 1 <= l <= MAX_LENGTH
    requires 0 <= p <= n && Count(b, l - 1) <= p <= Count(b, l)
    requires p < n ==> huffsize[p] != l
    ensures p == Count(b, l)
    ensures 2 * Filled(b, l - 1) + (p - Count(b, l - 1)) == Filled(b, l)
  {
    CountMono(b, l, MAX_LENGTH);
    if p < Count(b, l) {
      SizeUnique(b, p, l);
    }
  }

  lemma RoomIffRoomAtLast(b: seq<int>, l: nat, p: int, n: int)
    requires Lengths(b) && 1 <= l <= MAX_LENGTH && p == Count(b, l) && n == Count(b, MAX_LENGTH)
    ensures Filled(b, l) >= Pow2(l) ==> Filled(b, MAX_LENGTH) >= Pow2(MAX_LENGTH)
    ensures Filled(b, l) < Pow2(l) && p == n ==> Filled(b, MAX_LENGTH) < Pow2(MAX_LENGTH)
  {
    if Filled(b, l) >= Pow2(l) {
      if Filled(b, MAX_LENGTH) < Pow2(MAX_LENGTH) {
        RoomAtEveryLength(b, l);
      }
    } else if p == n {
      CountMono(b, l, MAX_LENGTH);
      FilledGrows(b, l, MAX_LENGTH);
      Pow2Add(MAX_LENGTH - l, l);
      StrictScale(Pow2(MAX_LENGTH - l), Filled(b, l), Pow2(l));
    }
  }

  lemma StrictScale(p: nat, x: int, y: int)
    requires p >= 1 && x < y
    ensures p * x < p * y
  {
  }

  ghost predicate Present(tables: seq<HuffTable?>, tblno: int)
  {
    0 <= tblno < NUM_HUFF_TBLS && tblno < |tables| && tables[tblno] != null
  }

  // ----- The encoder's table -----

  class CDerivedTbl {
    const ehufco: array<int>
    const ehufsi: array<int>

    constructor ()
      ensures ehufco.Length == ehufsi.Length == 256 && fresh(ehufco) && fresh(ehufsi) && ehufco != ehufsi
    {
      ehufco := new int[256];
      ehufsi := new int[256];
    }
  }

  /** The symbols are in range for their kind of table and none is given two codes. */
  ghost predicate EncodableSymbols(isDC: bool, bits: seq<int>, huffval: seq<int>)
    requires Definition(bits, huffval) && Symbols(bits) <= 256
  {
    && (isDC ==> forall p :: 0 <= p < Symbols(bits) ==> huffval[p] <= 15)
    && Distinct(huffval[..Count0(bits)])
  }

  /** Symbols of a DC table are at most 15, and no symbol is given two codes. */
  lemma EncodableIs(isDC: bool, bits: seq<int>, huffval: seq<int>)
    requires Definition(bits, huffval) && Symbols(bits) <= 256
    ensures EncodableSymbols(isDC, bits, huffval) <==>
              (isDC ==> forall p :: 0 <= p < Symbols(bits) ==> huffval[p] <= 15)
              && forall p, q :: 0 <= p < q < Symbols(bits) ==> huffval[p] != huffval[q]
  {
    hide Count;
    var n := Count0(bits);
    assert forall p :: 0 <= p < n ==> huffval[..n][p] == huffval[p];
  }

  ghost function Count0(bits: seq<int>): (n: nat)
    requires |bits| == MAX_LENGTH + 1 && Lengths(Used(bits))
    ensures n == Symbols(bits)
  {
    CountMono(Used(bits), 0, MAX_LENGTH);
    Symbols(bits)
  }

  /** The first n symbols have their codes and sizes; all others have size 0. */
  ghost predicate Encodes(b: seq<int>, huffval: seq<int>, n: nat, ehufco: seq<int>, ehufsi: seq<int>)
  {
    && Lengths(b) && n <= Count(b, MAX_LENGTH) <= 256 && |huffval| == |ehufco| == |ehufsi| == 256
    && (forall p :: 0 <= p < n ==> 0 <= huffval[p] < 256)
    && (forall p :: 0 <= p < n ==> ehufco[huffval[p]] == CodeOf(b, p) && ehufsi[huffval[p]] == SizeOf(b, p))
    && (forall s :: 0 <= s < 256 && s !in huffval[..n] ==> ehufsi[s] == 0)
  }

  /** Figure C.3: fails exactly if a symbol is out of range or repeated. */
  method FillEncoder(isDC: bool, bits: seq<int>, huffval: seq<int>, huffsize: array<int>, huffcode: array<int>,
                     lastp: nat, dtbl: CDerivedTbl) returns (ok: bool)
    requires Definition(bits, huffval) && lastp == Symbols(bits) <= 256
    requires Sizes(Used(bits), huffsize[..], lastp) && Codes(Used(bits), huffcode[..], lastp)
    requires dtbl.ehufco.Length == dtbl.ehufsi.Length == 256 && dtbl.ehufco != dtbl.ehufsi
    requires dtbl.ehufco != huffsize && dtbl.ehufsi != huffsize && dtbl.ehufco != huffcode && dtbl.ehufsi != huffcode
    modifies dtbl.ehufco, dtbl.ehufsi
    ensures ok <==> EncodableSymbols(isDC, bits, huffval)
    ensures ok ==> Encodes(Used(bits), huffval, lastp, dtbl.ehufco[..], dtbl.ehufsi[..])
  {
    hide Filled, Count, SizeOf, CodeOf;
    ghost var b := Used(bits);
    var maxsymbol := if isDC then 15 else 255;
    forall i | 0 <= i < 256 {
      dtbl.ehufsi[i] := 0;
    }
    var p := 0;
    while p < lastp
      invariant 0 <= p <= lastp
      invariant Encodes(b, huffval, p, dtbl.ehufco[..], dtbl.ehufsi[..])
      invariant isDC ==> forall q :: 0 <= q < p ==> huffval[q] <= 15
      invariant Distinct(huffval[..p])
    {
      var i := huffval[p];
      if i < 0 || i > maxsymbol || dtbl.ehufsi[i] != 0 {
        if i <= maxsymbol {
          RepeatedSymbol(b, huffval, p, dtbl.ehufco[..], dtbl.ehufsi[..], lastp);
        }
        return false;
      }
      assert huffcode[p] == CodeOf(b, p) && huffsize[p] == SizeOf(b, p);
      ghost var co, si := dtbl.ehufco[..], dtbl.ehufsi[..];
      NewSymbol(b, huffval, p, co, si);
      dtbl.ehufco[i] := huffcode[p];
      dtbl.ehufsi[i] := huffsize[p];
      assert dtbl.ehufco[..] == co[i := CodeOf(b, p)] && dtbl.ehufsi[..] == si[i := SizeOf(b, p)];
      p := p + 1;
    }
    return true;
  }

  lemma RepeatedSymbol(b: seq<int>, huffval: seq<int>, p: nat, ehufco: seq<int>, ehufsi: seq<int>, n: nat)
    requires Encodes(b, huffval, p, ehufco, ehufsi) && p < n <= 256
    requires 0 <= huffval[p] < 256 && ehufsi[huffval[p]] != 0
    ensures !Distinct(huffval[..n])
  {
    var q :| 0 <= q < p && huffval[..p][q] == huffval[p];
    assert huffval[..n][q] == huffval[..n][p];
  }

  lemma NewSymbol(b: seq<int>, huffval: seq<int>, p: nat, ehufco: seq<int>, ehufsi: seq<int>)
    requires Encodes(b, huffval, p, ehufco, ehufsi) && p < Count(b, MAX_LENGTH)
    requires 0 <= huffval[p] < 256 && ehufsi[huffval[p]] == 0 && Distinct(huffval[..p])
    ensures Encodes(b, huffval, p + 1, ehufco[huffval[p] := CodeOf(b, p)], ehufsi[huffval[p] := SizeOf(b, p)])
    ensures Distinct(huffval[..p + 1])
  {
    hide Filled, Count, SizeOf, CodeOf;
    assert forall q :: 0 <= q < p ==> huffval[q] != huffval[p];
    assert huffval[..p + 1] == huffval[..p] + [huffval[p]];
  }

  /** jpeg_make_c_derived_tbl: it accepts exactly the definitions of a code with every symbol coded once. */
  method MakeCDerivedTbl(tables: seq<HuffTable?>, isDC: bool, tblno: int, dtbl: CDerivedTbl) returns (st: TableStatus)
    requires |tables| == NUM_HUFF_TBLS
    requires Present(tables, tblno) ==> Definition(tables[tblno].bits, tables[tblno].huffval)
    requires dtbl.ehufco.Length == dtbl.ehufsi.Length == 256 && dtbl.ehufco != dtbl.ehufsi
    modifies dtbl.ehufco, dtbl.ehufsi
    ensures st == NoSuchTable <==> !Present(tables, tblno)
    ensures st == NoSuchTable <==> tblno < 0 || tblno > 3 || tables[tblno] == null
    ensures Present(tables, tblno) ==>
              (st == Made <==>
               LegalLengths(Used(tables[tblno].bits))
               && EncodableSymbols(isDC, tables[tblno].bits, tables[tblno].huffval))
    ensures st == Made ==>
              Encodes(Used(tables[tblno].bits), tables[tblno].huffval, Count0(tables[tblno].bits),
                      dtbl.ehufco[..], dtbl.ehufsi[..])
  {
    hide Filled, Count, SizeOf, CodeOf, EncodableSymbols, Encodes;
    if tblno < 0 || tblno >= NUM_HUFF_TBLS {
      return NoSuchTable;
    }
    var htbl := tables[tblno];
    if htbl == null {
      return NoSuchTable;
    }
    var huffsize, huffcode := new int[257], new int[257];
    var ok, lastp := ListSizes(htbl.bits, huffsize);
    if !ok {
      return BadTable;
    }
    ok := ListCodes(Used(htbl.bits), huffsize, huffcode, lastp);
    if !ok {
      return BadTable;
    }
    ok := FillEncoder(isDC, htbl.bits, htbl.huffval, huffsize, huffcode, lastp, dtbl);
    st := if ok then Made else BadTable;
  }

  // ----- The decoder's table -----

  class DDerivedTbl {
    const maxcode: array<int>
    const valoffset: array<int>
    const lookNbits: array<int>
    const lookSym: array<int>

    constructor ()
      ensures maxcode.Length == 18 && valoffset.Length == 17 && lookNbits.Length == lookSym.Length == 256
      ensures fresh(maxcode) && fresh(valoffset) && fresh(lookNbits) && fresh(lookSym) && Apart()
    {
      maxcode, valoffset := new int[18], new int[17];
      lookNbits, lookSym := new int[256], new int[256];
    }

    ghost predicate Apart()
    {
      && maxcode != valoffset && maxcode != lookNbits && maxcode != lookSym
      && valoffset != lookNbits && valoffset != lookSym && lookNbits != lookSym
    }

    ghost predicate Shaped()
    {
      maxcode.Length == 18 && valoffset.Length == 17 && lookNbits.Length == lookSym.Length == 256 && Apart()
    }
  }

  const SENTINEL := 0xFFFFF

  /** Figure F.15: the tables for bit-sequential decoding, up to length l. */
  ghost predicate Sequential(b: seq<int>, maxcode: seq<int>, valoffset: seq<int>, l: nat)
  {
    && |b| == MAX_LENGTH + 1 && |maxcode| == 18 && |valoffset| == 17 && l <= MAX_LENGTH
    && (forall k :: 1 <= k <= l ==> maxcode[k] == MaxCode(b, k))
    && (forall k :: 1 <= k <= l && b[k] != 0 ==> valoffset[k] == ValOffset(b, k))
  }

  /** The lookahead entry of the bits x: the code they begin with, if it is at most 8 bits long. */
  ghost predicate Lookahead(b: seq<int>, huffval: seq<int>, x: nat, nbits: int, sym: int)
    requires |b| == MAX_LENGTH + 1 && |huffval| == 256
  {
    var l := StopLength(b, Word(x, HUFF_LOOKAHEAD), 1);
    if l > HUFF_LOOKAHEAD then nbits == 0
    else
      var p := Peek(Word(x, HUFF_LOOKAHEAD), l) + ValOffset(b, l);
      nbits == l && 0 <= p < 256 && sym == huffval[p]
  }

  /** The entries below x are in place and the others are still zero. */
  ghost predicate LookaheadBelow(b: seq<int>, huffval: seq<int>, x: int, nbits: seq<int>, syms: seq<int>)
  {
    && |b| == MAX_LENGTH + 1 && |huffval| == 256 && |nbits| == |syms| == 256
    && (forall k :: 0 <= k < x && k < 256 ==> Lookahead(b, huffval, k, nbits[k], syms[k]))
    && (forall k :: x <= k < 256 && k >= 0 ==> nbits[k] == 0)
  }

  ghost predicate Decodes(b: seq<int>, huffval: seq<int>, maxcode: seq<int>, valoffset: seq<int>,
                          nbits: seq<int>, syms: seq<int>)
  {
    && LegalLengths(b)
    && Sequential(b, maxcode, valoffset, MAX_LENGTH) && maxcode[17] == SENTINEL
    && LookaheadBelow(b, huffval, 256, nbits, syms)
  }

  method FillSequential(bits: seq<int>, huffcode: array<int>, ghost n: int, dtbl: DDerivedTbl)
    requires |bits| == MAX_LENGTH + 1 && dtbl.Shaped() && huffcode != dtbl.maxcode && huffcode != dtbl.valoffset
    requires Codes(Used(bits), huffcode[..], n) && n == Count(Used(bits), MAX_LENGTH)
    modifies dtbl.maxcode, dtbl.valoffset
    ensures Sequential(Used(bits), dtbl.maxcode[..], dtbl.valoffset[..], MAX_LENGTH) && dtbl.maxcode[17] == SENTINEL
  {
    hide Filled, Count, SizeOf;
    ghost var b := Used(bits);
    var p := 0;
    CountZero(b);
    for l := 1 to MAX_LENGTH + 1
      invariant p == Count(b, l - 1) && Codes(b, huffcode[..], n)
      invariant Sequential(b, dtbl.maxcode[..], dtbl.valoffset[..], l - 1)
    {
      FilledStep(b, l);
      CountMono(b, l, MAX_LENGTH);
      CountMono(b, 0, l - 1);
      if bits[l] != 0 {
        EndsOfLength(b, l, huffcode[..], n);
        dtbl.valoffset[l] := p - huffcode[p];
        p := p + bits[l];
        dtbl.maxcode[l] := huffcode[p - 1];
      } else {
        dtbl.maxcode[l] := -1;
      }
    }
    dtbl.maxcode[17] := SENTINEL;
  }

  lemma CountZero(b: seq<int>)
    requires Lengths(b)
    ensures Count(b, 0) == 0 && Filled(b, 0) == 0
  {
  }

  /** The first and the last code of a length. */
  lemma EndsOfLength(b: seq<int>, l: nat, huffcode: seq<int>, n: int)
    requires Codes(b, huffcode, n) && n == Count(b, MAX_LENGTH) && 1 <= l <= MAX_LENGTH && b[l] != 0
    ensures 0 <= Count(b, l - 1) < Count(b, l) == Count(b, l - 1) + b[l] <= n
    ensures huffcode[Count(b, l - 1)] == 2 * Filled(b, l - 1)
    ensures huffcode[Count(b, l) - 1] == Filled(b, l) - 1
  {
    hide Filled, Count, SizeOf;
    FilledStep(b, l);
    CountMono(b, 0, l - 1);
    CountMono(b, l, MAX_LENGTH);
    CountZero(b);
    SizeUnique(b, Count(b, l - 1), l);
    SizeUnique(b, Count(b, l) - 1, l);
  }

  /** The words that begin with the p-th code are looked up as that code. */
  lemma WordsOfCode(b: seq<int>, huffval: seq<int>, p: int, l: nat, x: int)
    requires LegalLengths(b) && HasCode(b, p) && l == SizeOf(b, p) <= HUFF_LOOKAHEAD && |huffval| == 256
    requires CodeOf(b, p) * Pow2(HUFF_LOOKAHEAD - l) <= x < (CodeOf(b, p) + 1) * Pow2(HUFF_LOOKAHEAD - l)
    ensures 0 <= x < 256 && Lookahead(b, huffval, x, l, huffval[p])
  {
    hide Filled, Count, SizeOf, StopLength, Peek, Pow2, CodeOf;
    var k := Pow2(HUFF_LOOKAHEAD - l);
    CodeFits(b, p);
    Pow2Add(l, HUFF_LOOKAHEAD - l);
    Pow2Values();
    ScaleMono(k, CodeOf(b, p) + 1, Pow2(l));
    ScaleMono(k, 0, CodeOf(b, p));
    var s := Word(x, HUFF_LOOKAHEAD);
    PeekWord(x, HUFF_LOOKAHEAD, []);
    assert s + [] == s;
    PeekSplit(s, l, HUFF_LOOKAHEAD);
    SameQuotient(Peek(s, l), CodeOf(b, p), k, x);
    StopsAtCodeLength(b, p, s);
  }

  lemma SameQuotient(a: int, c: int, k: int, x: int)
    requires k >= 1 && a * k <= x < (a + 1) * k && c * k <= x < (c + 1) * k
    ensures a == c
  {
    if a < c {
      ScaleMono(k, a + 1, c);
    } else if c < a {
      ScaleMono(k, c + 1, a);
    }
  }

  /** Words past all codes of up to 8 bits begin with no such code. */
  lemma WordsPastCodes(b: seq<int>, huffval: seq<int>, x: nat, sym: int)
    requires LegalLengths(b) && Filled(b, HUFF_LOOKAHEAD) <= x < 256 && |huffval| == 256
    ensures Lookahead(b, huffval, x, 0, sym)
  {
    hide Filled, Count, SizeOf, StopLength, Peek, Pow2, CodeOf;
    var s := Word(x, HUFF_LOOKAHEAD);
    var l := StopLength(b, s, 1);
    if l <= HUFF_LOOKAHEAD {
      var k := Pow2(HUFF_LOOKAHEAD - l);
      Pow2Values();
      PeekWord(x, HUFF_LOOKAHEAD, []);
      assert s + [] == s;
      PeekSplit(s, l, HUFF_LOOKAHEAD);
      StopReached(b, s, 1);
      FilledGrows(b, l, HUFF_LOOKAHEAD);
      ScaleMono(k, Peek(s, l) + 1, Filled(b, l));
    }
  }

  /** The codes of up to 8 bits fill the lookahead tables from the bottom without a gap. */
  method FillLookahead(bits: seq<int>, huffval: seq<int>, huffcode: array<int>, ghost n: int, dtbl: DDerivedTbl)
    requires |bits| == MAX_LENGTH + 1 && dtbl.Shaped() && |huffval| == 256
    requires huffcode != dtbl.lookNbits && huffcode != dtbl.lookSym
    requires LegalLengths(Used(bits)) && Codes(Used(bits), huffcode[..], n) && n == Count(Used(bits), MAX_LENGTH)
    modifies dtbl.lookNbits, dtbl.lookSym
    ensures LookaheadBelow(Used(bits), huffval, 256, dtbl.lookNbits[..], dtbl.lookSym[..])
  {
    hide Filled, Count, SizeOf, CodeOf, Lookahead, Pow2;
    ghost var b := Used(bits);
    forall x | 0 <= x < 256 {
      dtbl.lookNbits[x] := 0;
    }
    var p := 0;
    ghost var done := 0;
    CountZero(b);
    for l := 1 to HUFF_LOOKAHEAD + 1
      invariant p == Count(b, l - 1) && Codes(b, huffcode[..], n)
      invariant done == Filled(b, l - 1) * Pow2(HUFF_LOOKAHEAD + 1 - l)
      invariant LookaheadBelow(b, huffval, done, dtbl.lookNbits[..], dtbl.lookSym[..])
    {
      NextLength(b, l);
      for i := 0 to bits[l]
        invariant p == Count(b, l - 1) + i && Codes(b, huffcode[..], n)
        invariant done == (2 * Filled(b, l - 1) + i) * Pow2(HUFF_LOOKAHEAD - l)
        invariant LookaheadBelow(b, huffval, done, dtbl.lookNbits[..], dtbl.lookSym[..])
      {
        CodeHere(b, l, i, n);
        FillOneCode(b, huffval, p, l, huffcode[p], dtbl);
        done := (2 * Filled(b, l - 1) + (i + 1)) * Pow2(HUFF_LOOKAHEAD - l);
        p := p + 1;
      }
      FilledStep(b, l);
    }
    forall x | 0 <= x < 256
      ensures Lookahead(b, huffval, x, dtbl.lookNbits[x], dtbl.lookSym[x])
    {
      if x >= done {
        Pow2Values();
        TimesOne(Filled(b, HUFF_LOOKAHEAD));
        WordsPastCodes(b, huffval, x, dtbl.lookSym[x]);
      }
    }
  }

  lemma NextLength(b: seq<int>, l: nat)
    requires Lengths(b) && 1 <= l <= HUFF_LOOKAHEAD
    ensures Filled(b, l - 1) * Pow2(HUFF_LOOKAHEAD + 1 - l) == (2 * Filled(b, l - 1) + 0) * Pow2(HUFF_LOOKAHEAD - l)
    ensures 0 <= Count(b, l - 1) && Count(b, l) == Count(b, l - 1) + b[l] <= Count(b, MAX_LENGTH)
  {
    hide Filled, Count;
    Pow2Double(HUFF_LOOKAHEAD - l);
    DoubleFactor(Filled(b, l - 1), Pow2(HUFF_LOOKAHEAD - l));
    Regroup(Filled(b, l - 1), Pow2(HUFF_LOOKAHEAD - l));
    FilledStep(b, l);
    CountZero(b);
    CountMono(b, 0, l - 1);
    CountMono(b, l, MAX_LENGTH);
  }

  lemma Regroup(x: int, k: int)
    ensures x * (2 * k) == (2 * x) * k
  {
  }

  lemma CodeHere(b: seq<int>, l: nat, i: nat, n: int)
    requires Lengths(b) && 1 <= l <= HUFF_LOOKAHEAD && i < b[l] && n == Count(b, MAX_LENGTH)
    ensures var p := Count(b, l - 1) + i;
            HasCode(b, p) && p < n && SizeOf(b, p) == l && CodeOf(b, p) == 2 * Filled(b, l - 1) + i
  {
    hide Filled, Count, SizeOf;
    NextLength(b, l);
    SizeUnique(b, Count(b, l - 1) + i, l);
  }

  /** Stores one code under every word that begins with it. */
  method FillOneCode(ghost b: seq<int>, huffval: seq<int>, p: nat, l: nat, code: int, dtbl: DDerivedTbl)
    requires LegalLengths(b) && HasCode(b, p) && l == SizeOf(b, p) <= HUFF_LOOKAHEAD && code == CodeOf(b, p)
    requires dtbl.Shaped() && |huffval| == 256
    requires LookaheadBelow(b, huffval, code * Pow2(HUFF_LOOKAHEAD - l), dtbl.lookNbits[..], dtbl.lookSym[..])
    modifies dtbl.lookNbits, dtbl.lookSym
    ensures LookaheadBelow(b, huffval, (code + 1) * Pow2(HUFF_LOOKAHEAD - l), dtbl.lookNbits[..], dtbl.lookSym[..])
  {
    hide Filled, Count, SizeOf, CodeOf, Lookahead, Pow2;
    var lookbits := code * Pow2(HUFF_LOOKAHEAD - l);
    var ctr: int := Pow2(HUFF_LOOKAHEAD - l);
    Distribute(code, ctr);
    while ctr > 0
      invariant 0 <= ctr && lookbits + ctr == (code + 1) * Pow2(HUFF_LOOKAHEAD - l)
      invariant code * Pow2(HUFF_LOOKAHEAD - l) <= lookbits
      invariant LookaheadBelow(b, huffval, lookbits, dtbl.lookNbits[..], dtbl.lookSym[..])
    {
      WordsOfCode(b, huffval, p, l, lookbits);
      dtbl.lookNbits[lookbits] := l;
      dtbl.lookSym[lookbits] := huffval[p];
      lookbits := lookbits + 1;
      ctr := ctr - 1;
    }
  }

  lemma Distribute(x: int, k: int)
    ensures (x + 1) * k == x * k + k
  {
  }

  /** jpeg_make_d_derived_tbl: like the encoder's, but repeated symbols are let through. */
  method MakeDDerivedTbl(tables: seq<HuffTable?>, isDC: bool, tblno: int, dtbl: DDerivedTbl) returns (st: TableStatus)
    requires |tables| == NUM_HUFF_TBLS && dtbl.Shaped()
    requires Present(tables, tblno) ==> Definition(tables[tblno].bits, tables[tblno].huffval)
    modifies dtbl.maxcode, dtbl.valoffset, dtbl.lookNbits, dtbl.lookSym
    ensures st == NoSuchTable <==> !Present(tables, tblno)
    ensures st == NoSuchTable <==> tblno < 0 || tblno > 3 || tables[tblno] == null
    ensures Present(tables, tblno) ==>
              var bits, huffval := tables[tblno].bits, tables[tblno].huffval;
              (st == Made <==>
               LegalLengths(Used(bits)) && (isDC ==> forall p :: 0 <= p < Count0(bits) ==> huffval[p] <= 15))
    ensures st == Made ==>
              Decodes(Used(tables[tblno].bits), tables[tblno].huffval, dtbl.maxcode[..], dtbl.valoffset[..],
                      dtbl.lookNbits[..], dtbl.lookSym[..])
  {
    hide Filled, Count, SizeOf, CodeOf, LookaheadBelow, Sequential;
    if tblno < 0 || tblno >= NUM_HUFF_TBLS {
      return NoSuchTable;
    }
    var htbl := tables[tblno];
    if htbl == null {
      return NoSuchTable;
    }
    var huffsize, huffcode := new int[257], new int[257];
    var ok, numsymbols := ListSizes(htbl.bits, huffsize);
    if !ok {
      return BadTable;
    }
    ok := ListCodes(Used(htbl.bits), huffsize, huffcode, numsymbols);
    if !ok {
      return BadTable;
    }
    FillSequential(htbl.bits, huffcode, numsymbols, dtbl);
    FillLookahead(htbl.bits, htbl.huffval, huffcode, numsymbols, dtbl);
    if isDC {
      for i := 0 to numsymbols
        invariant forall p :: 0 <= p < i ==> htbl.huffval[p] <= 15
      {
        var sym := htbl.huffval[i];
        if sym < 0 || sym > 15 {
          return BadTable;
        }
      }
    }
    return Made;
  }
}
