/**
 Replaying what a progressive AC scan was coded as gives back every coefficient of every block,
 rounded towards zero to the bit that has been sent; the scans down to bit 0 give it back exactly.
 */
module ProgressiveReplay {
  import opened JpegLimits
  import opened Arith
  import opened BitString
  import opened BitWriter
  import opened Coefficients
  import opened BlockCoding
  import opened ProgressiveCoding

  // ----- Values -----

  lemma {:induction false} ShiftBounds(x: nat, al: nat)
    ensures ShiftRight(x, al) * Pow2(al) <= x < (ShiftRight(x, al) + 1) * Pow2(al)
  {
    if al > 0 {
      ShiftBounds(x, al - 1);
      HalfBounds(x, ShiftRight(x, al - 1), Pow2(al - 1));
    }
  }

  lemma HalfBounds(x: nat, s: nat, p: nat)
    requires s * p <= x < (s + 1) * p && p >= 1
    ensures (s / 2) * (2 * p) <= x < (s / 2 + 1) * (2 * p)
  {
    var h := s / 2;
    assert h * (2 * p) == (2 * h) * p;
    assert (h + 1) * (2 * p) == (2 * h + 2) * p;
    ScaleMono(p, 2 * h, s);
    ScaleMono(p, s + 1, 2 * h + 2);
  }

  /** The decoder's test that bit al is still clear. */
  lemma BitClear(r: int, p: nat)
    requires p >= 1
    ensures ((r * (2 * p)) / p) % 2 == 0
  {
    assert r * (2 * p) == (2 * r) * p;
    ExactQuotient(2 * r, p);
  }

  lemma ExactQuotient(q: int, p: nat)
    requires p >= 1
    ensures (q * p) / p == q
  {
    var x := (q * p) / p;
    assert x * p <= q * p < (x + 1) * p;
    if x < q {
      ScaleMono(p, x + 1, q);
    } else if x > q {
      ScaleMono(p, q + 1, x);
    }
  }

  /** One bit more of a coefficient: a correction, a new coefficient, or nothing. */
  lemma OneBitMore(v: int, al: nat)
    ensures var c, a := Scaled(v, al + 1), Shifted(v, al);
            && (c != 0 <==> a > 1)
            && (a > 1 ==> Scaled(v, al) == Corrected(c, a % 2, al))
            && (a == 1 ==> Scaled(v, al) == if v < 0 then 0 - Pow2(al) else Pow2(al))
            && (a == 0 ==> Scaled(v, al) == 0)
  {
    hide Pow2;
    var p, a := Pow2(al), Shifted(v, al);
    var h := a / 2;
    assert Shifted(v, al + 1) == h;
    assert Pow2(al + 1) == 2 * p by { Pow2Double(al); }
    var r := Reduced(v, al + 1);
    BitClear(r, p);
    assert Scaled(v, al + 1) == r * (2 * p);
    Signs(v, a, h, p);
  }

  lemma Signs(v: int, a: nat, h: nat, p: nat)
    requires p >= 1 && h == a / 2
    ensures var r := if v < 0 then 0 - h else h;
            var w := if v < 0 then 0 - a else a;
            && (r * (2 * p) != 0 <==> a > 1)
            && w * p == r * (2 * p) + (if a % 2 == 0 then 0 else if v < 0 then 0 - p else p)
            && (a > 1 ==> (r * (2 * p) >= 0 <==> v >= 0))
  {
    assert a == 2 * h + a % 2;
    assert h * (2 * p) == (2 * h) * p;
    if h >= 1 {
      ScaleMono(2 * p, 1, h);
    }
    if v < 0 {
      assert (0 - h) * (2 * p) == 0 - h * (2 * p);
      assert (0 - a) * p == 0 - a * p;
    }
    Split(2 * h, a % 2, p);
  }

  lemma Split(x: int, y: int, p: int)
    ensures (x + y) * p == x * p + y * p
  {
  }

  lemma ScaledZero(v: int, al: nat)
    ensures Scaled(v, al) == 0 <==> Shifted(v, al) == 0
    ensures Scaled(v, 0) == v
  {
    Pow2Values();
    if Shifted(v, al) != 0 {
      ScaleMono(Pow2(al), 1, Shifted(v, al));
      assert (0 - Shifted(v, al)) * Pow2(al) == 0 - Shifted(v, al) * Pow2(al);
    }
  }

  // ----- The block in between -----

  /** The coefficients of the band before position k are decoded; the others are as earlier scans left them. */
  function Mixed(band: Band, prev: Block, b: Block, k: nat): (r: Block)
  {
    seq(DCTSIZE2, i requires 0 <= i < DCTSIZE2 =>
      if band.ss <= Zigzag(i) < k && Zigzag(i) <= band.se then Scaled(b[i], band.al) else prev[i])
  }

  /** Earlier scans have sent the band's coefficients down to the bit above, or not at all. */
  ghost predicate Known(band: Band, prev: Block, b: Block)
  {
    ValidBand(band) &&
    forall j :: band.ss <= j <= band.se ==>
      prev[Natural(j)] == if band.refine then Scaled(b[Natural(j)], band.al + 1) else 0
  }

  lemma MixedStart(band: Band, prev: Block, b: Block)
    ensures Mixed(band, prev, b, band.ss) == prev
  {
    hide Scaled, Zigzag;
  }

  lemma MixedStep(band: Band, prev: Block, b: Block, m: nat)
    requires ValidBand(band) && band.ss <= m <= band.se
    ensures Mixed(band, prev, b, m)[Natural(m)] == prev[Natural(m)]
    ensures Mixed(band, prev, b, m)[Natural(m) := Scaled(b[Natural(m)], band.al)] == Mixed(band, prev, b, m + 1)
    ensures Scaled(b[Natural(m)], band.al) == prev[Natural(m)] ==> Mixed(band, prev, b, m) == Mixed(band, prev, b, m + 1)
  {
    hide Scaled, Zigzag, Natural;
    OrdersInverse(m);
    var x, y := Mixed(band, prev, b, m), Mixed(band, prev, b, m + 1);
    forall i | 0 <= i < DCTSIZE2
      ensures x[Natural(m) := Scaled(b[Natural(m)], band.al)][i] == y[i]
      ensures i != Natural(m) ==> x[i] == y[i]
    {
      OrdersInverse(i);
    }
  }

  lemma {:induction false} MixedSkip(band: Band, prev: Block, b: Block, k: nat, m: nat)
    requires ValidBand(band) && band.ss <= k <= m <= band.se + 1
    requires forall j :: k <= j < m ==> Scaled(b[Natural(j)], band.al) == prev[Natural(j)]
    ensures Mixed(band, prev, b, k) == Mixed(band, prev, b, m)
    decreases m - k
  {
    hide Scaled, Natural, Mixed;
    if k < m {
      MixedStep(band, prev, b, k);
      MixedSkip(band, prev, b, k + 1, m);
    }
  }

  // ----- End-of-band runs -----

  /** An announced run is read back. */
  lemma AnnouncedRun(tbl: nat, e: nat, rest: seq<Token>)
    requires 1 <= e <= MAX_EOBRUN
    ensures var n, ts := Category(e / 2), EobTokens(tbl, e) + rest;
            n <= 14 && ts != [] && ts[0] == Symbol(false, tbl, 16 * n) && RunOf(ts[1..], n) == (e, rest)
  {
    hide Category, Pow2;
    var n, ts := Category(e / 2), EobTokens(tbl, e) + rest;
    CategoryBounds(e);
    assert Category(e) == n + 1 by { CategoryStep(e); }
    Pow2Fourteen();
    CategoryAtMost(e / 2, 14);
    if n == 0 {
      CategoryZero(e / 2);
      assert ts[1..] == rest;
    } else {
      Pow2Double(n);
      QuotientIs(e, Pow2(n), 1, e - Pow2(n));
      assert ts[1] == Raw(e, n) && ts[1..][1..] == rest;
    }
  }

  lemma CategoryStep(e: nat)
    requires e >= 1
    ensures Category(e) == 1 + Category(e / 2)
  {
  }

  lemma Pow2Fourteen()
    ensures Pow2(14) == 0x4000
  {
    Pow2Values();
    Pow2Add(8, 6);
  }

  /** What announces the end of the block, in a run of e blocks. */
  function Ending(band: Band, c: BandCode, e: nat): seq<Token>
    requires c.trailing ==> e > 0
  {
    if c.trailing then EobTokens(band.tbl, e) + Corrections(c.bits) else []
  }

  // ----- First scans -----

  ghost predicate BandInRange(band: Band, b: Block)
  {
    band.se < DCTSIZE2 && forall j :: band.ss <= j <= band.se ==> Category(Shifted(b[Natural(j)], band.al)) <= MAX_COEF_BITS
  }

  /** One step of the decoding procedure for each kind of symbol. */
  lemma FirstStep(band: Band, ts: seq<Token>, k: nat, block: Block)
    requires k <= band.se < DCTSIZE2
    ensures !SymbolNext(band, ts) ==> ReplayFirst(band, ts, k, block) == Replay(block, Broken(), 0)
    ensures SymbolNext(band, ts) ==>
              var r, n := ts[0].s / 16, ts[0].s % 16;
              ReplayFirst(band, ts, k, block) ==
                if n != 0 then
                  if k + r > band.se then Replay(block, Broken(), 0)
                  else
                    ReplayFirst(band, Drop(ts[1..], n), k + r + 1, block[Natural(k + r) := Extend(RawBits(ts[1..], n), n) * Pow2(band.al)])
                else if r == 15 then ReplayFirst(band, ts[1..], k + 16, block)
                else Replay(block, RunOf(ts[1..], r).1, RunOf(ts[1..], r).0 - 1)
  {
    hide Extend, Pow2, Natural, RawBits, Drop, RunOf, SymbolNext, Broken;
  }

  lemma FirstEnd(band: Band, ts: seq<Token>, k: nat, block: Block)
    requires band.se < DCTSIZE2 && k > band.se
    ensures ReplayFirst(band, ts, k, block) == Replay(block, ts, 0)
  {
  }

  lemma FirstEob(band: Band, e: nat, rest: seq<Token>, k: nat, block: Block)
    requires k <= band.se < DCTSIZE2 && 1 <= e <= MAX_EOBRUN
    ensures ReplayFirst(band, EobTokens(band.tbl, e) + rest, k, block) == Replay(block, rest, e - 1)
  {
    hide EobTokens, RunOf, Category, Extend, Pow2, Natural, ReplayFirst, Drop, RawBits;
    AnnouncedRun(band.tbl, e, rest);
    Sixteenfold(Category(e / 2));
    FirstStep(band, EobTokens(band.tbl, e) + rest, k, block);
  }

  lemma Sixteenfold(n: nat)
    ensures 16 * n / 16 == n && 16 * n % 16 == 0
  {
  }

  lemma FirstZrl(band: Band, rest: seq<Token>, k: nat, block: Block)
    requires k <= band.se < DCTSIZE2
    ensures ReplayFirst(band, [Symbol(false, band.tbl, ZRL)] + rest, k, block) == ReplayFirst(band, rest, k + 16, block)
  {
    hide Extend, Pow2, Natural, ReplayFirst, Drop, RawBits, RunOf;
    FirstStep(band, [Symbol(false, band.tbl, ZRL)] + rest, k, block);
    assert ([Symbol(false, band.tbl, ZRL)] + rest)[1..] == rest;
  }

  lemma FirstValue(band: Band, t: int, r: nat, rest: seq<Token>, k: nat, block: Block)
    requires k + r <= band.se < DCTSIZE2 && r <= 15 && t != 0 && Category(Abs(t)) <= MAX_COEF_BITS
    ensures var n := Category(Abs(t));
            && ReplayFirst(band, [Symbol(false, band.tbl, 16 * r + n), Raw(Appended(t), n)] + rest, k, block)
               == ReplayFirst(band, rest, k + r + 1, block[Natural(k + r) := t * Pow2(band.al)])
  {
    hide Extend, Pow2, Natural, Category, ReplayFirst, RunOf;
    var n := Category(Abs(t));
    var ts := [Symbol(false, band.tbl, 16 * r + n), Raw(Appended(t), n)] + rest;
    FirstStep(band, ts, k, block);
    ExtendInverts(t);
    Nibbles(r, n);
    assert ts[1..][0] == Raw(Appended(t), n) && ts[1..][1..] == rest;
  }

  lemma EndingAfter(band: Band, head: seq<Token>, c: BandCode, e: nat, rest: seq<Token>)
    requires c.trailing ==> e > 0
    ensures Prepend(head, c).body + Ending(band, Prepend(head, c), e) + rest == head + (c.body + Ending(band, c, e) + rest)
  {
    hide EobTokens;
    var x, y := c.body, Ending(band, c, e);
    assert (head + x) + y + rest == head + (x + y + rest);
  }

  /**
   A block of a first scan comes back. The encoder is at position k with r zeros behind it, which
   the decoder has not heard of yet.
   */
  lemma {:induction false} FirstReplays(band: Band, prev: Block, b: Block, k: nat, r: nat, e: nat, rest: seq<Token>)
    requires !band.refine && Known(band, prev, b) && BandInRange(band, b)
    requires band.ss + r <= k <= band.se + 1
    requires forall j :: k - r <= j < k ==> Shifted(b[Natural(j)], band.al) == 0
    requires FirstCode(band, b, k, r).trailing ==> 1 <= e <= MAX_EOBRUN
    ensures var c := FirstCode(band, b, k, r);
            && ReplayFirst(band, c.body + Ending(band, c, e) + rest, k - r, Mixed(band, prev, b, k - r))
               == Replay(Mixed(band, prev, b, band.se + 1), rest, if c.trailing then e - 1 else 0)
    decreases band.se + 1 - k, r
  {
    hide Mixed, ReplayFirst, Natural, Category, Shifted, EobTokens, Pow2, FirstCode, Scaled, Ending;
    var c := FirstCode(band, b, k, r);
    FirstCodeStep(band, b, k, r);
    if k > band.se {
      SkipShifted(band, prev, b, k - r, k);
      EndingIs(band, c, e, rest);
      if r > 0 {
        FirstEob(band, e, rest, k - r, Mixed(band, prev, b, k - r));
      } else {
        FirstEnd(band, rest, k, Mixed(band, prev, b, k));
      }
    } else {
      var t := Reduced(b[Natural(k)], band.al);
      if t == 0 {
        FirstReplays(band, prev, b, k + 1, r + 1, e, rest);
      } else if r > 15 {
        var d := FirstCode(band, b, k, r - 16);
        EndingAfter(band, [Symbol(false, band.tbl, ZRL)], d, e, rest);
        FirstZrl(band, d.body + Ending(band, d, e) + rest, k - r, Mixed(band, prev, b, k - r));
        SkipShifted(band, prev, b, k - r, k - r + 16);
        FirstReplays(band, prev, b, k, r - 16, e, rest);
      } else {
        var n := Category(Abs(t));
        var d := FirstCode(band, b, k + 1, 0);
        EndingAfter(band, [Symbol(false, band.tbl, 16 * r + n), Raw(Appended(t), n)], d, e, rest);
        ReducedAbs(b[Natural(k)], band.al);
        FirstValue(band, t, r, d.body + Ending(band, d, e) + rest, k - r, Mixed(band, prev, b, k - r));
        SkipShifted(band, prev, b, k - r, k);
        MixedStep(band, prev, b, k);
        FirstReplays(band, prev, b, k + 1, 0, e, rest);
      }
    }
  }

  lemma FirstCodeStep(band: Band, b: Block, k: nat, r: nat)
    requires band.se < DCTSIZE2
    ensures k > band.se ==> FirstCode(band, b, k, r) == BandCode([], r > 0, [])
    ensures k <= band.se ==>
              var t := Reduced(b[Natural(k)], band.al);
              var n := Category(Abs(t));
              FirstCode(band, b, k, r) ==
                if t == 0 then FirstCode(band, b, k + 1, r + 1)
                else if r > 15 then Prepend([Symbol(false, band.tbl, ZRL)], FirstCode(band, b, k, r - 16))
                else Prepend([Symbol(false, band.tbl, 16 * r + n), Raw(Appended(t), n)], FirstCode(band, b, k + 1, 0))
  {
    hide Natural, Category, Reduced, Appended;
  }

  lemma ReducedAbs(v: int, al: nat)
    ensures Abs(Reduced(v, al)) == Shifted(v, al) && Reduced(v, al) * Pow2(al) == Scaled(v, al)
  {
    hide Shifted, Pow2;
  }

  lemma EndingIs(band: Band, c: BandCode, e: nat, rest: seq<Token>)
    requires c.body == [] && (c.trailing ==> e > 0)
    ensures c.trailing ==> c.body + Ending(band, c, e) + rest == EobTokens(band.tbl, e) + (Corrections(c.bits) + rest)
    ensures c.trailing && c.bits == [] ==> c.body + Ending(band, c, e) + rest == EobTokens(band.tbl, e) + rest
    ensures !c.trailing ==> c.body + Ending(band, c, e) + rest == rest
  {
    hide EobTokens;
    assert c.bits == [] ==> Corrections(c.bits) == [];
  }

  lemma SkipShifted(band: Band, prev: Block, b: Block, k: nat, m: nat)
    requires !band.refine && Known(band, prev, b) && band.ss <= k <= m <= band.se + 1
    requires forall j :: k <= j < m ==> Shifted(b[Natural(j)], band.al) == 0
    ensures Mixed(band, prev, b, k) == Mixed(band, prev, b, m)
  {
    hide Mixed, Natural, Shifted, Scaled;
    forall j | k <= j < m
      ensures Scaled(b[Natural(j)], band.al) == prev[Natural(j)]
    {
      ScaledZero(b[Natural(j)], band.al);
    }
    MixedSkip(band, prev, b, k, m);
  }

  // ----- Refinement scans -----

  ghost function A(band: Band, b: Block, k: nat): nat
    requires k < DCTSIZE2
  {
    Shifted(b[Natural(k)], band.al)
  }

  /** How many coefficients in a range are zero. */
  ghost function ZerosIn(band: Band, b: Block, g: nat, k: nat): nat
    requires k <= DCTSIZE2
  {
    if k <= g then 0 else ZerosIn(band, b, g, k - 1) + if A(band, b, k - 1) == 0 then 1 else 0
  }

  /** The correction bits of the coefficients in a range that were not zero before. */
  ghost function BitsIn(band: Band, b: Block, g: nat, k: nat): seq<int>
    requires k <= DCTSIZE2
  {
    if k <= g then [] else BitsIn(band, b, g, k - 1) + if A(band, b, k - 1) > 1 then [A(band, b, k - 1) % 2] else []
  }

  ghost predicate NoneNew(band: Band, b: Block, g: nat, k: nat)
    requires k <= DCTSIZE2
  {
    forall j :: g <= j < k ==> A(band, b, j) != 1
  }

  /** What earlier scans have left at position k. */
  lemma KnownAt(band: Band, prev: Block, b: Block, k: nat)
    requires band.refine && Known(band, prev, b) && band.ss <= k <= band.se
    ensures var c := Mixed(band, prev, b, k)[Natural(k)];
            && (c != 0 <==> A(band, b, k) > 1)
            && (c != 0 ==> Mixed(band, prev, b, k)[Natural(k) := Corrected(c, A(band, b, k) % 2, band.al)] == Mixed(band, prev, b, k + 1))
            && (A(band, b, k) == 0 ==> Mixed(band, prev, b, k) == Mixed(band, prev, b, k + 1))
  {
    hide Mixed, Natural, Shifted, Scaled, Corrected;
    OneBitMore(b[Natural(k)], band.al);
    MixedStep(band, prev, b, k);
  }

  lemma CorrectionFirst(bit: nat, rest: seq<Token>)
    requires bit <= 1
    ensures var ts := Corrections([bit]) + rest; RawBits(ts, 1) == bit && Drop(ts, 1) == rest
  {
    Pow2Values();
    assert (Corrections([bit]) + rest)[1..] == rest;
  }

  lemma CorrectionsAppend(a: seq<int>, b: seq<int>)
    ensures Corrections(a + b) == Corrections(a) + Corrections(b)
  {
  }

  /** The decoder passes a range with as many zeros as it was told, correcting the others. */
  lemma {:induction false} SkipRange(band: Band, prev: Block, b: Block, g: nat, p: nat, r: nat, rest: seq<Token>)
    requires band.refine && Known(band, prev, b) && band.ss <= g <= p <= band.se + 1 && NoneNew(band, b, g, p)
    ensures SkipZeros(band, Corrections(BitsIn(band, b, g, p)) + rest, g, ZerosIn(band, b, g, p) + r, Mixed(band, prev, b, g))
            == SkipZeros(band, rest, p, r, Mixed(band, prev, b, p))
    decreases p
  {
    hide Mixed, Natural, Shifted, Corrected, SkipZeros, A;
    if p == g {
      assert Corrections([]) + rest == rest;
    } else {
      var q := p - 1;
      var a := A(band, b, q);
      var more := if a > 1 then Corrections([a % 2]) + rest else rest;
      assert a <= 1 ==> BitsIn(band, b, g, p) == BitsIn(band, b, g, q);
      SkipRange(band, prev, b, g, q, if a == 0 then r + 1 else r, more);
      if a > 1 {
        CorrectionsAppend(BitsIn(band, b, g, q), [a % 2]);
        assert Corrections(BitsIn(band, b, g, q)) + (Corrections([a % 2]) + rest) == Corrections(BitsIn(band, b, g, p)) + rest;
        CorrectionFirst(a % 2, rest);
      }
      KnownAt(band, prev, b, q);
      SkipOne(band, more, q, if a == 0 then r + 1 else r, Mixed(band, prev, b, q));
    }
  }

  lemma SkipOne(band: Band, ts: seq<Token>, k: nat, r: nat, block: Block)
    requires k <= band.se < DCTSIZE2
    ensures block[Natural(k)] != 0 ==>
              SkipZeros(band, ts, k, r, block)
              == SkipZeros(band, Drop(ts, 1), k + 1, r, block[Natural(k) := Corrected(block[Natural(k)], RawBits(ts, 1), band.al)])
    ensures block[Natural(k)] == 0 && r > 0 ==> SkipZeros(band, ts, k, r, block) == SkipZeros(band, ts, k + 1, r - 1, block)
    ensures block[Natural(k)] == 0 && r == 0 ==> SkipZeros(band, ts, k, r, block) == (ts, k, block)
  {
    hide Natural, Corrected, RawBits;
  }

  /** The decoder corrects a range. */
  lemma {:induction false} CorrectRange(band: Band, prev: Block, b: Block, g: nat, p: nat, rest: seq<Token>)
    requires band.refine && Known(band, prev, b) && band.ss <= g <= p <= band.se + 1 && NoneNew(band, b, g, p)
    ensures CorrectRest(band, Corrections(BitsIn(band, b, g, p)) + rest, g, Mixed(band, prev, b, g))
            == CorrectRest(band, rest, p, Mixed(band, prev, b, p))
    decreases p
  {
    hide Mixed, Natural, Shifted, Corrected, CorrectRest, A;
    if p == g {
      assert Corrections([]) + rest == rest;
    } else {
      var q := p - 1;
      var a := A(band, b, q);
      var more := if a > 1 then Corrections([a % 2]) + rest else rest;
      assert a <= 1 ==> BitsIn(band, b, g, p) == BitsIn(band, b, g, q);
      CorrectRange(band, prev, b, g, q, more);
      if a > 1 {
        CorrectionsAppend(BitsIn(band, b, g, q), [a % 2]);
        assert Corrections(BitsIn(band, b, g, q)) + (Corrections([a % 2]) + rest) == Corrections(BitsIn(band, b, g, p)) + rest;
        CorrectionFirst(a % 2, rest);
      }
      KnownAt(band, prev, b, q);
      CorrectOne(band, more, q, Mixed(band, prev, b, q));
    }
  }

  lemma CorrectOne(band: Band, ts: seq<Token>, k: nat, block: Block)
    requires k <= band.se < DCTSIZE2
    ensures CorrectRest(band, ts, k, block) ==
              if block[Natural(k)] != 0
              then CorrectRest(band, Drop(ts, 1), k + 1, block[Natural(k) := Corrected(block[Natural(k)], RawBits(ts, 1), band.al)])
              else CorrectRest(band, ts, k + 1, block)
    ensures CorrectRest(band, ts, band.se + 1, block) == (ts, block)
  {
    hide Natural, Corrected, RawBits;
  }

  /** Where a zero-run symbol for 16 coefficients ends; nothing but zeros follows it up to k. */
  lemma {:induction false} SixteenthZero(band: Band, b: Block, g: nat, k: nat) returns (p: nat)
    requires g <= k <= DCTSIZE2 && NoneNew(band, b, g, k) && ZerosIn(band, b, g, k) >= 16
    requires forall j :: g <= j < k && A(band, b, j) > 1 ==> ZerosIn(band, b, g, j) <= 15
    ensures g <= p < k && A(band, b, p) == 0 && ZerosIn(band, b, g, p) == 15
    ensures BitsIn(band, b, g, p) == BitsIn(band, b, g, k) && BitsIn(band, b, p + 1, k) == []
    ensures ZerosIn(band, b, p + 1, k) == ZerosIn(band, b, g, k) - 16
    ensures forall j :: p + 1 <= j < k ==> A(band, b, j) == 0
    decreases k
  {
    hide A;
    if ZerosIn(band, b, g, k - 1) == 15 {
      p := k - 1;
    } else {
      p := SixteenthZero(band, b, g, k - 1);
    }
  }

  /** One step of the decoding procedure for each kind of symbol. */
  lemma RefineStep(band: Band, ts: seq<Token>, k: nat, block: Block)
    requires k <= band.se < DCTSIZE2
    ensures !SymbolNext(band, ts) ==> ReplayRefine(band, ts, k, block) == Replay(block, Broken(), 0)
    ensures SymbolNext(band, ts) ==>
              var r, n := ts[0].s / 16, ts[0].s % 16;
              var v := if RawBits(ts[1..], 1) == 1 then Pow2(band.al) else 0 - Pow2(band.al);
              var (rest, at, b) := SkipZeros(band, Drop(ts[1..], 1), k, r, block);
              var (rest', at', b') := SkipZeros(band, ts[1..], k, 15, block);
              var (run, after) := RunOf(ts[1..], r);
              var (left, b'') := CorrectRest(band, after, k, block);
              ReplayRefine(band, ts, k, block) ==
                if n != 0 then
                  if at > band.se then Replay(b, Broken(), 0) else ReplayRefine(band, rest, at + 1, b[Natural(at) := v])
                else if r == 15 then ReplayRefine(band, rest', at' + 1, b')
                else Replay(b'', left, run - 1)
  {
    hide Pow2, Natural, RawBits, Drop, RunOf, SymbolNext, Broken, SkipZeros, CorrectRest;
  }

  lemma RefineEnd(band: Band, ts: seq<Token>, k: nat, block: Block)
    requires band.se < DCTSIZE2 && k > band.se
    ensures ReplayRefine(band, ts, k, block) == Replay(block, ts, 0)
  {
  }

  lemma RefineEob(band: Band, e: nat, rest: seq<Token>, k: nat, block: Block)
    requires k <= band.se < DCTSIZE2 && 1 <= e <= MAX_EOBRUN
    ensures var (rest', b) := CorrectRest(band, rest, k, block);
            ReplayRefine(band, EobTokens(band.tbl, e) + rest, k, block) == Replay(b, rest', e - 1)
  {
    hide EobTokens, RunOf, Category, Pow2, Natural, CorrectRest, SkipZeros, ReplayRefine, RawBits, Drop;
    RefineStep(band, EobTokens(band.tbl, e) + rest, k, block);
    AnnouncedRun(band.tbl, e, rest);
    Sixteenfold(Category(e / 2));
  }

  lemma RefineZrl(band: Band, rest: seq<Token>, k: nat, block: Block)
    requires k <= band.se < DCTSIZE2
    ensures var (rest', at, b) := SkipZeros(band, rest, k, 15, block);
            ReplayRefine(band, [Symbol(false, band.tbl, ZRL)] + rest, k, block) == ReplayRefine(band, rest', at + 1, b)
  {
    hide Pow2, Natural, SkipZeros, CorrectRest, ReplayRefine, RunOf, RawBits, Drop;
    RefineStep(band, [Symbol(false, band.tbl, ZRL)] + rest, k, block);
    assert ([Symbol(false, band.tbl, ZRL)] + rest)[1..] == rest;
  }

  lemma RefineNew(band: Band, bit: nat, r: nat, rest: seq<Token>, k: nat, block: Block)
    requires k <= band.se < DCTSIZE2 && r <= 15 && bit <= 1
    ensures var (rest', at, b) := SkipZeros(band, rest, k, r, block);
            at <= band.se ==>
              ReplayRefine(band, [Symbol(false, band.tbl, 16 * r + 1), Raw(bit, 1)] + rest, k, block)
              == ReplayRefine(band, rest', at + 1, b[Natural(at) := if bit == 1 then Pow2(band.al) else 0 - Pow2(band.al)])
  {
    hide Natural, SkipZeros, CorrectRest, RawBits, ReplayRefine, RunOf, Pow2, Drop;
    var ts := [Symbol(false, band.tbl, 16 * r + 1), Raw(bit, 1)] + rest;
    RefineStep(band, ts, k, block);
    Nibbles(r, 1);
    CorrectionFirst(bit, rest);
    assert ts[1..] == Corrections([bit]) + rest;
  }

  lemma RefineCodeStep(band: Band, b: Block, eob: nat, k: nat, r: nat, br: seq<int>)
    requires band.se < DCTSIZE2
    ensures k > band.se ==> RefineCode(band, b, eob, k, r, br) == BandCode([], r > 0 || br != [], br)
    ensures k <= band.se ==>
              var a := A(band, b, k);
              RefineCode(band, b, eob, k, r, br) ==
                if a == 0 then RefineCode(band, b, eob, k + 1, r + 1, br)
                else if r > 15 && k <= eob then
                  Prepend([Symbol(false, band.tbl, ZRL)] + Corrections(br), RefineCode(band, b, eob, k, r - 16, []))
                else if a > 1 then RefineCode(band, b, eob, k + 1, r, br + [a % 2])
                else
                  Prepend([Symbol(false, band.tbl, 16 * r + 1), Raw(if b[Natural(k)] < 0 then 0 else 1, 1)] + Corrections(br),
                          RefineCode(band, b, eob, k + 1, 0, []))
  {
    hide Natural, Shifted;
  }

  /** The encoder has gone on to position k since the group of coefficients that begins at g. */
  ghost predicate InGroup(band: Band, b: Block, eob: nat, g: nat, k: nat, r: nat, br: seq<int>)
  {
    && ValidBand(band) && band.ss <= g <= k <= band.se + 1 && NoneNew(band, b, g, k)
    && r == ZerosIn(band, b, g, k) && br == BitsIn(band, b, g, k)
    && eob == LastNew(band, b, band.se + 1)
    && (k <= eob ==> forall j :: g <= j < k && A(band, b, j) > 1 ==> ZerosIn(band, b, g, j) <= 15)
  }

  /** A refinement scan's block comes back: from the group at g, which the encoder has scanned up to k. */
  lemma {:induction false} RefineReplays(band: Band, prev: Block, b: Block, eob: nat, g: nat, k: nat, r: nat, br: seq<int>,
                                         e: nat, rest: seq<Token>)
    requires band.refine && Known(band, prev, b) && InGroup(band, b, eob, g, k, r, br)
    requires RefineCode(band, b, eob, k, r, br).trailing ==> 1 <= e <= MAX_EOBRUN
    ensures var c := RefineCode(band, b, eob, k, r, br);
            && ReplayRefine(band, c.body + Ending(band, c, e) + rest, g, Mixed(band, prev, b, g))
               == Replay(Mixed(band, prev, b, band.se + 1), rest, if c.trailing then e - 1 else 0)
    decreases band.se + 1 - k, r
  {
    hide Mixed, ReplayRefine, Natural, Shifted, EobTokens, RefineCode, Ending, A, Known, InGroup;
    hide Prepend;
    GroupStep(band, b, eob, g, k, r, br);
    RefineCodeStep(band, b, eob, k, r, br);
    if k > band.se {
      RefineTail(band, prev, b, g, r, br, e, rest);
    } else {
      var a := A(band, b, k);
      if a == 0 {
        RefineReplays(band, prev, b, eob, g, k + 1, r + 1, br, e, rest);
      } else if r > 15 && k <= eob {
        var p := GroupZrl(band, b, eob, g, k, r, br);
        var d := RefineCode(band, b, eob, k, r - 16, []);
        Prepended([Symbol(false, band.tbl, ZRL)] + Corrections(br), d);
        PassZrl(band, prev, b, g, p, br, d, e, rest);
        RefineReplays(band, prev, b, eob, p + 1, k, r - 16, [], e, rest);
      } else if a > 1 {
        RefineReplays(band, prev, b, eob, g, k + 1, r, br + [a % 2], e, rest);
      } else {
        var d := RefineCode(band, b, eob, k + 1, 0, []);
        Prepended([Symbol(false, band.tbl, 16 * r + 1), Raw(if b[Natural(k)] < 0 then 0 else 1, 1)] + Corrections(br), d);
        PassNew(band, prev, b, g, k, r, br, d, e, rest);
        RefineReplays(band, prev, b, eob, k + 1, k + 1, 0, [], e, rest);
      }
    }
  }

  lemma RangeStep(band: Band, b: Block, g: nat, k: nat)
    requires g <= k < DCTSIZE2
    ensures ZerosIn(band, b, g, k + 1) == ZerosIn(band, b, g, k) + if A(band, b, k) == 0 then 1 else 0
    ensures BitsIn(band, b, g, k + 1) == if A(band, b, k) > 1 then BitsIn(band, b, g, k) + [A(band, b, k) % 2] else BitsIn(band, b, g, k)
    ensures ZerosIn(band, b, k + 1, k + 1) == 0 && BitsIn(band, b, k + 1, k + 1) == []
  {
    hide A;
  }

  /** One coefficient on. */
  lemma GroupStep(band: Band, b: Block, eob: nat, g: nat, k: nat, r: nat, br: seq<int>)
    requires InGroup(band, b, eob, g, k, r, br)
    ensures band.ss <= g <= k <= band.se + 1 <= DCTSIZE2 && NoneNew(band, b, g, k) && r == ZerosIn(band, b, g, k) && br == BitsIn(band, b, g, k)
    ensures k <= band.se && A(band, b, k) == 0 ==> InGroup(band, b, eob, g, k + 1, r + 1, br)
    ensures k <= band.se && A(band, b, k) > 1 && !(r > 15 && k <= eob) ==> InGroup(band, b, eob, g, k + 1, r, br + [A(band, b, k) % 2])
    ensures k <= band.se && A(band, b, k) == 1 && !(r > 15 && k <= eob) ==> r <= 15 && InGroup(band, b, eob, k + 1, k + 1, 0, [])
  {
    hide A, LastNew, ZerosIn, BitsIn;
    if k <= band.se {
      RangeStep(band, b, g, k);
      if A(band, b, k) == 1 {
        OneIsNew(band, b, k);
        LastNewIsLast(band, b, band.se + 1, k);
      }
    }
  }

  /** A zero-run symbol on. */
  lemma GroupZrl(band: Band, b: Block, eob: nat, g: nat, k: nat, r: nat, br: seq<int>) returns (p: nat)
    requires InGroup(band, b, eob, g, k, r, br) && r > 15 && k <= eob
    ensures g <= p < k && p <= band.se && NoneNew(band, b, g, p)
    ensures A(band, b, p) == 0 && ZerosIn(band, b, g, p) == 15 && br == BitsIn(band, b, g, p)
    ensures InGroup(band, b, eob, p + 1, k, r - 16, [])
  {
    hide A, LastNew, ZerosIn, BitsIn;
    p := SixteenthZero(band, b, g, k);
  }

  lemma OneIsNew(band: Band, b: Block, k: nat)
    requires k < DCTSIZE2 && A(band, b, k) == 1
    ensures Shifted(b[Natural(k)], band.al) == 1
  {
  }

  lemma Prepended(head: seq<Token>, c: BandCode)
    ensures Prepend(head, c).trailing == c.trailing && Prepend(head, c).bits == c.bits
  {
  }

  /** The end of the block. */
  lemma RefineTail(band: Band, prev: Block, b: Block, g: nat, r: nat, br: seq<int>, e: nat, rest: seq<Token>)
    requires band.refine && Known(band, prev, b) && band.ss <= g <= band.se + 1 && NoneNew(band, b, g, band.se + 1)
    requires r == ZerosIn(band, b, g, band.se + 1) && br == BitsIn(band, b, g, band.se + 1)
    requires r > 0 || br != [] ==> 1 <= e <= MAX_EOBRUN
    ensures var c := BandCode([], r > 0 || br != [], br);
            && ReplayRefine(band, c.body + Ending(band, c, e) + rest, g, Mixed(band, prev, b, g))
               == Replay(Mixed(band, prev, b, band.se + 1), rest, if c.trailing then e - 1 else 0)
  {
    hide Mixed, ReplayRefine, EobTokens, A, CorrectRest, Ending, Scaled, Natural;
    var c := BandCode([], r > 0 || br != [], br);
    EndingIs(band, c, e, rest);
    if g > band.se {
      RefineEnd(band, rest, g, Mixed(band, prev, b, g));
    } else {
      assert c.trailing by { SomethingIn(band, b, g, band.se + 1); }
      RefineEob(band, e, Corrections(br) + rest, g, Mixed(band, prev, b, g));
      CorrectRange(band, prev, b, g, band.se + 1, rest);
      CorrectOne(band, rest, band.se, Mixed(band, prev, b, band.se + 1));
      CorrectDone(band, rest, Mixed(band, prev, b, band.se + 1));
    }
  }

  lemma CorrectDone(band: Band, ts: seq<Token>, block: Block)
    requires band.se < DCTSIZE2
    ensures CorrectRest(band, ts, band.se + 1, block) == (ts, block)
  {
  }

  lemma SomethingIn(band: Band, b: Block, g: nat, k: nat)
    requires g < k <= DCTSIZE2 && NoneNew(band, b, g, k)
    ensures ZerosIn(band, b, g, k) > 0 || BitsIn(band, b, g, k) != []
  {
    hide A;
    assert A(band, b, k - 1) != 1;
  }

  /** A zero-run symbol with its correction bits. */
  lemma PassZrl(band: Band, prev: Block, b: Block, g: nat, p: nat, br: seq<int>, d: BandCode, e: nat, rest: seq<Token>)
    requires band.refine && Known(band, prev, b) && band.ss <= g <= p <= band.se && NoneNew(band, b, g, p)
    requires A(band, b, p) == 0 && ZerosIn(band, b, g, p) == 15 && br == BitsIn(band, b, g, p)
    requires d.trailing ==> e > 0
    ensures var c := Prepend([Symbol(false, band.tbl, ZRL)] + Corrections(br), d);
            && ReplayRefine(band, c.body + Ending(band, c, e) + rest, g, Mixed(band, prev, b, g))
               == ReplayRefine(band, d.body + Ending(band, d, e) + rest, p + 1, Mixed(band, prev, b, p + 1))
  {
    hide Mixed, ReplayRefine, EobTokens, A, SkipZeros, Ending, NoneNew, BitsIn, ZerosIn, Corrections, Corrected, Natural;
    var after := d.body + Ending(band, d, e) + rest;
    var sym := [Symbol(false, band.tbl, ZRL)];
    EndingAfter(band, sym + Corrections(br), d, e, rest);
    assert (sym + Corrections(br)) + after == sym + (Corrections(br) + after);
    RefineZrl(band, Corrections(br) + after, g, Mixed(band, prev, b, g));
    SkipRange(band, prev, b, g, p, 0, after);
    KnownAt(band, prev, b, p);
    SkipOne(band, after, p, 0, Mixed(band, prev, b, p));
  }

  /** A newly nonzero coefficient with its run, its sign, and the correction bits on the way. */
  lemma PassNew(band: Band, prev: Block, b: Block, g: nat, k: nat, r: nat, br: seq<int>, d: BandCode, e: nat, rest: seq<Token>)
    requires band.refine && Known(band, prev, b) && band.ss <= g <= k <= band.se && NoneNew(band, b, g, k)
    requires A(band, b, k) == 1 && r == ZerosIn(band, b, g, k) <= 15 && br == BitsIn(band, b, g, k)
    requires d.trailing ==> e > 0
    ensures var c := Prepend([Symbol(false, band.tbl, 16 * r + 1), Raw(if b[Natural(k)] < 0 then 0 else 1, 1)] + Corrections(br), d);
            && ReplayRefine(band, c.body + Ending(band, c, e) + rest, g, Mixed(band, prev, b, g))
               == ReplayRefine(band, d.body + Ending(band, d, e) + rest, k + 1, Mixed(band, prev, b, k + 1))
  {
    hide Mixed, ReplayRefine, EobTokens, SkipZeros, Ending, Natural, Shifted, Scaled;
    var after := d.body + Ending(band, d, e) + rest;
    var bit := if b[Natural(k)] < 0 then 0 else 1;
    var head := [Symbol(false, band.tbl, 16 * r + 1), Raw(bit, 1)];
    EndingAfter(band, head + Corrections(br), d, e, rest);
    assert (head + Corrections(br)) + after == head + (Corrections(br) + after);
    RefineNew(band, bit, r, Corrections(br) + after, g, Mixed(band, prev, b, g));
    SkipRange(band, prev, b, g, k, 0, after);
    KnownAt(band, prev, b, k);
    SkipOne(band, after, k, 0, Mixed(band, prev, b, k));
    OneBitMore(b[Natural(k)], band.al);
    MixedStep(band, prev, b, k);
  }

  // ----- From block to block -----

  ghost predicate Codable(band: Band, prev: Block, b: Block)
  {
    Known(band, prev, b) && (!band.refine ==> BandInRange(band, b))
  }

  /** What is decoded of a block. */
  function Decoded(band: Band, prev: Block, b: Block): Block
  {
    Mixed(band, prev, b, band.se + 1)
  }

  /** A block that is not within an end-of-band run. */
  lemma BandReplays(band: Band, prev: Block, b: Block, e: nat, rest: seq<Token>)
    requires Codable(band, prev, b)
    requires CodeOfBand(band, b).trailing ==> 1 <= e <= MAX_EOBRUN
    ensures var c := CodeOfBand(band, b);
            && ReplayBand(band, c.body + Ending(band, c, e) + rest, 0, prev)
               == Replay(Decoded(band, prev, b), rest, if c.trailing then e - 1 else 0)
  {
    hide Mixed, ReplayFirst, ReplayRefine, FirstCode, RefineCode, Ending, EobTokens, LastNew, A;
    MixedStart(band, prev, b);
    if band.refine {
      RefineReplays(band, prev, b, LastNew(band, b, band.se + 1), band.ss, band.ss, 0, [], e, rest);
    } else {
      FirstReplays(band, prev, b, band.ss, 0, e, rest);
    }
  }

  lemma {:induction false} NoBodyFirst(band: Band, b: Block, k: nat, r: nat)
    requires band.se < DCTSIZE2 && FirstCode(band, b, k, r).body == [] && k <= band.se + 1
    ensures FirstCode(band, b, k, r).bits == []
    ensures forall j :: k <= j <= band.se ==> Shifted(b[Natural(j)], band.al) == 0
    ensures r > 0 || k <= band.se ==> FirstCode(band, b, k, r).trailing
    decreases band.se + 1 - k
  {
    hide FirstCode, Natural, Category, Shifted, Reduced;
    FirstCodeStep(band, b, k, r);
    if k <= band.se {
      ReducedAbs(b[Natural(k)], band.al);
      if Reduced(b[Natural(k)], band.al) == 0 {
        NoBodyFirst(band, b, k + 1, r + 1);
      }
    }
  }

  lemma {:induction false} NoBodyRefine(band: Band, b: Block, eob: nat, g: nat, k: nat, r: nat, br: seq<int>)
    requires g <= k <= band.se + 1 <= DCTSIZE2 && NoneNew(band, b, g, k) && br == BitsIn(band, b, g, k) && r == ZerosIn(band, b, g, k)
    requires RefineCode(band, b, eob, k, r, br).body == []
    ensures NoneNew(band, b, g, band.se + 1) && RefineCode(band, b, eob, k, r, br).bits == BitsIn(band, b, g, band.se + 1)
    ensures g <= band.se ==> RefineCode(band, b, eob, k, r, br).trailing
    decreases band.se + 1 - k
  {
    hide RefineCode, Natural, A, ZerosIn, BitsIn;
    RefineCodeStep(band, b, eob, k, r, br);
    if k <= band.se {
      RangeStep(band, b, g, k);
      var a := A(band, b, k);
      if a == 0 {
        NoBodyRefine(band, b, eob, g, k + 1, r + 1, br);
      } else if a > 1 && !(r > 15 && k <= eob) {
        NoBodyRefine(band, b, eob, g, k + 1, r, br + [a % 2]);
      }
    } else if g <= band.se {
      SomethingIn(band, b, g, k);
    }
  }

  /** A block within an end-of-band run has no tokens of its own but its correction bits. */
  lemma RunReplays(band: Band, prev: Block, b: Block, run: nat, rest: seq<Token>)
    requires Codable(band, prev, b) && CodeOfBand(band, b).body == [] && run > 0
    ensures CodeOfBand(band, b).trailing
    ensures ReplayBand(band, Corrections(CodeOfBand(band, b).bits) + rest, run, prev) == Replay(Decoded(band, prev, b), rest, run - 1)
  {
    hide Mixed, FirstCode, RefineCode, LastNew, A, CorrectRest, Natural, Shifted, Scaled;
    MixedStart(band, prev, b);
    if band.refine {
      var eob := LastNew(band, b, band.se + 1);
      RangeEmpty(band, b, band.ss);
      NoBodyRefine(band, b, eob, band.ss, band.ss, 0, []);
      CorrectRange(band, prev, b, band.ss, band.se + 1, rest);
      CorrectDone(band, rest, Mixed(band, prev, b, band.se + 1));
    } else {
      NoBodyFirst(band, b, band.ss, 0);
      SkipShifted(band, prev, b, band.ss, band.se + 1);
      assert Corrections([]) + rest == rest;
    }
  }

  lemma RangeEmpty(band: Band, b: Block, g: nat)
    requires g <= DCTSIZE2
    ensures ZerosIn(band, b, g, g) == 0 && BitsIn(band, b, g, g) == []
  {
  }

  /**
   Between blocks the pending run can grow by one and the buffer has room for the correction bits
   of one block more; and no correction bit waits without an end-of-band run to go with.
   */
  ghost predicate Bounded(p: Pending)
  {
    p.eobRun < MAX_EOBRUN && |p.corr| <= FLUSH_ABOVE && (p.corr != [] ==> p.eobRun > 0)
  }

  /** A block that keeps the bounds until it is decided whether to announce the run. */
  lemma ExtendedBounds(band: Band, p: Pending, b: Block)
    requires ValidBand(band) && Bounded(p)
    ensures var x := Extended(band, p, CodeOfBand(band, b));
            x.eobRun <= MAX_EOBRUN && |x.corr| <= MAX_CORR_BITS && (x.corr != [] ==> x.eobRun > 0)
    ensures Bounded(AfterBand(band, p, b))
  {
    hide CodeOfBand, EobTokens;
    FewCorrections(band, b);
  }

  /** A block has at most as many correction bits as its band has coefficients; they are told of at its end. */
  lemma FewCorrections(band: Band, b: Block)
    requires ValidBand(band)
    ensures |CodeOfBand(band, b).bits| <= DCTSIZE2 - 1
    ensures CodeOfBand(band, b).bits != [] ==> CodeOfBand(band, b).trailing
  {
    hide FirstCode, RefineCode, LastNew;
    if band.refine {
      RefineBits(band, b, LastNew(band, b, band.se + 1), band.ss, 0, []);
    } else {
      FirstBits(band, b, band.ss, 0);
    }
  }

  lemma {:induction false} FirstBits(band: Band, b: Block, k: nat, r: nat)
    requires band.se < DCTSIZE2
    ensures FirstCode(band, b, k, r).bits == []
    decreases band.se + 1 - k, r
  {
    hide FirstCode, Natural, Category, Reduced;
    FirstCodeStep(band, b, k, r);
    if k <= band.se {
      if Reduced(b[Natural(k)], band.al) == 0 {
        FirstBits(band, b, k + 1, r + 1);
      } else if r > 15 {
        FirstBits(band, b, k, r - 16);
      } else {
        FirstBits(band, b, k + 1, 0);
      }
    }
  }

  lemma {:induction false} RefineBits(band: Band, b: Block, eob: nat, k: nat, r: nat, br: seq<int>)
    requires band.ss <= k <= band.se + 1 <= DCTSIZE2 && |br| <= k - band.ss
    ensures |RefineCode(band, b, eob, k, r, br).bits| <= band.se + 1 - band.ss
    ensures RefineCode(band, b, eob, k, r, br).bits != [] ==> RefineCode(band, b, eob, k, r, br).trailing
    decreases band.se + 1 - k, r
  {
    hide RefineCode, Natural, A;
    RefineCodeStep(band, b, eob, k, r, br);
    if k <= band.se {
      var a := A(band, b, k);
      if a == 0 {
        RefineBits(band, b, eob, k + 1, r + 1, br);
      } else if r > 15 && k <= eob {
        RefineBits(band, b, eob, k, r - 16, []);
      } else if a > 1 {
        RefineBits(band, b, eob, k + 1, r, br + [a % 2]);
      } else {
        RefineBits(band, b, eob, k + 1, 0, []);
      }
    }
  }

  /**
   When end-of-band runs are announced: before a block of which something else is sent, and once the
   run is 32767 blocks long or more than 937 correction bits wait. Otherwise a block that sends
   nothing makes the run longer by one.
   */
  lemma RunGrows(band: Band, p: Pending, b: Block)
    requires ValidBand(band) && p.eobRun < 32767 && |p.corr| <= 937 && (p.corr != [] ==> p.eobRun > 0)
    ensures var c, x := CodeOfBand(band, b), AfterBand(band, p, b);
            && (c.body == [] && c.trailing && (p.eobRun + 1 == 32767 || |p.corr + c.bits| > 937) ==>
                  x == Pending(p.sent + EobTokens(band.tbl, p.eobRun + 1) + Corrections(p.corr + c.bits), 0, []))
            && (c.body == [] && c.trailing && p.eobRun + 1 < 32767 && |p.corr + c.bits| <= 937 ==>
                  x == Pending(p.sent, p.eobRun + 1, p.corr + c.bits))
            && (c.body == [] && !c.trailing ==> x == p)
            && (c.body != [] && p.eobRun > 0 ==>
                  x == Pending(p.sent + EobTokens(band.tbl, p.eobRun) + Corrections(p.corr) + c.body, if c.trailing then 1 else 0, c.bits))
            && (c.body != [] && p.eobRun == 0 ==> x == Pending(p.sent + c.body, if c.trailing then 1 else 0, c.bits))
  {
    hide CodeOfBand, EobTokens, Corrections;
    FewCorrections(band, b);
    var c := CodeOfBand(band, b);
    assert [] + c.bits == c.bits;
  }

  /** Zero runs of a refined block are broken by symbols of their own only up to its last newly nonzero coefficient. */
  lemma {:induction false} LastNewIsNew(band: Band, b: Block, k: nat)
    requires ValidBand(band) && k <= DCTSIZE2
    ensures var m := LastNew(band, b, k);
            && (m == 0 || (band.ss <= m < k && Shifted(b[Natural(m)], band.al) == 1))
            && forall j :: band.ss <= j < k && m < j ==> Shifted(b[Natural(j)], band.al) != 1
  {
    hide Natural, Shifted;
    if k > band.ss && Shifted(b[Natural(k - 1)], band.al) != 1 {
      LastNewIsNew(band, b, k - 1);
    }
  }

  /** First scans accept coefficients that are less than 1024 when shifted. */
  lemma BandLimits(band: Band, b: Block)
    requires ValidBand(band)
    ensures BandInRange(band, b) <==>
              forall j :: band.ss <= j <= band.se ==> 0 - 1024 * Pow2(band.al) < b[Natural(j)] < 1024 * Pow2(band.al)
  {
    hide Natural, Category, ShiftRight, Pow2;
    TenBits();
    forall j | band.ss <= j <= band.se
      ensures Category(Shifted(b[Natural(j)], band.al)) <= 10 <==> 0 - 1024 * Pow2(band.al) < b[Natural(j)] < 1024 * Pow2(band.al)
    {
      var v := b[Natural(j)];
      CategoryLimit(Shifted(v, band.al), 10);
      ShiftedBelow(v, band.al, 1024);
    }
  }

  lemma ShiftedBelow(v: int, al: nat, n: nat)
    ensures Shifted(v, al) < n <==> 0 - n * Pow2(al) < v < n * Pow2(al)
  {
    hide ShiftRight, Pow2;
    var s, p := Shifted(v, al), Pow2(al);
    ShiftBounds(Abs(v), al);
    if s < n {
      ScaleMono(p, s + 1, n);
    } else {
      ScaleMono(p, n, s);
    }
  }

  lemma {:induction false} AlwaysBounded(band: Band, blocks: seq<Block>)
    requires ValidBand(band)
    ensures Bounded(AfterBands(band, blocks))
  {
    hide AfterBand;
    if blocks != [] {
      AlwaysBounded(band, blocks[..|blocks| - 1]);
      ExtendedBounds(band, AfterBands(band, blocks[..|blocks| - 1]), blocks[|blocks| - 1]);
    }
  }

  // ----- All blocks -----

  /** The announcement of the pending run once it has grown to e blocks. */
  function Announcement(tbl: nat, p: Pending, e: nat): seq<Token>
    requires p.eobRun > 0 ==> e > 0
  {
    if p.eobRun > 0 then EobTokens(tbl, e) + Corrections(p.corr) else []
  }

  ghost predicate AllCodable(band: Band, prevs: seq<Block>, blocks: seq<Block>)
  {
    ValidBand(band) && |prevs| == |blocks| && forall i :: 0 <= i < |blocks| ==> Codable(band, prevs[i], blocks[i])
  }

  function AllDecoded(band: Band, prevs: seq<Block>, blocks: seq<Block>): (r: seq<Block>)
    requires |prevs| == |blocks|
    ensures |r| == |blocks|
  {
    seq(|blocks|, i requires 0 <= i < |blocks| => Decoded(band, prevs[i], blocks[i]))
  }

  /**
   Whatever the run of blocks at the end will have grown to when it is announced, and whatever
   follows: replaying gives back the blocks so far, and leaves what follows and the rest of the run.
   */
  lemma {:induction false} BandsReplay(band: Band, prevs: seq<Block>, blocks: seq<Block>, e: nat, rest: seq<Token>)
    requires AllCodable(band, prevs, blocks)
    requires var p := AfterBands(band, blocks); p.eobRun > 0 ==> p.eobRun <= e <= MAX_EOBRUN
    ensures var p := AfterBands(band, blocks);
            ReplayBands(band, p.sent + Announcement(band.tbl, p, e) + rest, prevs)
            == Replays(AllDecoded(band, prevs, blocks), rest, if p.eobRun > 0 then e - p.eobRun else 0)
    decreases |blocks|, 1
  {
    hide CodeOfBand, EobTokens, ReplayBand, Codable, Extended, Decoded;
    var p := AfterBands(band, blocks);
    if blocks == [] {
      assert [] + [] + rest == rest;
    } else {
      var n := |blocks| - 1;
      var q := AfterBands(band, blocks[..n]);
      var x := Extended(band, q, CodeOfBand(band, blocks[n]));
      AlwaysBounded(band, blocks[..n]);
      ExtendedBounds(band, q, blocks[n]);
      if p == x {
        ExtendedReplay(band, prevs, blocks, e, rest);
      } else {
        ExtendedReplay(band, prevs, blocks, x.eobRun, rest);
        assert p.sent == x.sent + EobTokens(band.tbl, x.eobRun) + Corrections(x.corr);
        assert p.sent + [] + rest == x.sent + Announcement(band.tbl, x, x.eobRun) + rest;
      }
    }
  }

  lemma {:induction false} ExtendedReplay(band: Band, prevs: seq<Block>, blocks: seq<Block>, e: nat, rest: seq<Token>)
    requires AllCodable(band, prevs, blocks) && blocks != []
    requires var n := |blocks| - 1;
             var x := Extended(band, AfterBands(band, blocks[..n]), CodeOfBand(band, blocks[n]));
             x.eobRun > 0 ==> x.eobRun <= e <= MAX_EOBRUN
    ensures var n := |blocks| - 1;
            var x := Extended(band, AfterBands(band, blocks[..n]), CodeOfBand(band, blocks[n]));
            ReplayBands(band, x.sent + Announcement(band.tbl, x, e) + rest, prevs)
            == Replays(AllDecoded(band, prevs, blocks), rest, if x.eobRun > 0 then e - x.eobRun else 0)
    decreases |blocks|, 0
  {
    hide CodeOfBand, EobTokens, ReplayBand, Codable, Decoded, AfterBand;
    var n := |blocks| - 1;
    var q, b, c := AfterBands(band, blocks[..n]), blocks[n], CodeOfBand(band, blocks[n]);
    AlwaysBounded(band, blocks[..n]);
    assert AllDecoded(band, prevs, blocks) == AllDecoded(band, prevs[..n], blocks[..n]) + [Decoded(band, prevs[n], b)];
    assert Codable(band, prevs[n], b);
    if c.body != [] {
      var after := c.body + Ending(band, c, e) + rest;
      BandsReplay(band, prevs[..n], blocks[..n], q.eobRun, after);
      BandReplays(band, prevs[n], b, e, rest);
      FlushedThen(band, q, c, e, rest);
    } else {
      RunReplays(band, prevs[n], b, 1, rest);
      if q.eobRun > 0 {
        RunReplays(band, prevs[n], b, e - q.eobRun, rest);
        BandsReplay(band, prevs[..n], blocks[..n], e, Corrections(c.bits) + rest);
        Grown(band.tbl, q, c, e, rest);
      } else {
        BandsReplay(band, prevs[..n], blocks[..n], 0, c.body + Ending(band, c, e) + rest);
        BandReplays(band, prevs[n], b, e, rest);
        Begun(band, q, c, e, rest);
      }
    }
  }

  /** The pending run goes out before the block's own tokens. */
  lemma FlushedThen(band: Band, q: Pending, c: BandCode, e: nat, rest: seq<Token>)
    requires c.body != [] && Bounded(q) && (c.trailing ==> e > 0)
    ensures var x := Extended(band, q, c);
            x.sent + Announcement(band.tbl, x, e) + rest
            == q.sent + Announcement(band.tbl, q, q.eobRun) + (c.body + Ending(band, c, e) + rest)
  {
    hide EobTokens, Corrections;
    var x := Extended(band, q, c);
    var s, a, b, d := q.sent, Announcement(band.tbl, q, q.eobRun), c.body, Ending(band, c, e);
    assert c.trailing ==> [] + c.bits == c.bits;
    assert Announcement(band.tbl, x, e) == d;
    assert x.sent == s + a + b by {
      SentBefore(s, a, b);
    }
    Regrouped(s + a, b, d, rest);
  }

  lemma SentBefore(s: seq<Token>, a: seq<Token>, b: seq<Token>)
    ensures s + (a + b) == s + a + b && (a == [] ==> s + b == s + a + b)
  {
  }

  lemma Regrouped(s: seq<Token>, b: seq<Token>, d: seq<Token>, rest: seq<Token>)
    ensures (s + b) + d + rest == s + (b + d + rest)
  {
  }

  /** The block joins the pending run. */
  lemma Grown(tbl: nat, q: Pending, c: BandCode, e: nat, rest: seq<Token>)
    requires q.eobRun > 0 && e > 0
    ensures q.sent + Announcement(tbl, Pending(q.sent, q.eobRun + 1, q.corr + c.bits), e) + rest
            == q.sent + Announcement(tbl, q, e) + (Corrections(c.bits) + rest)
  {
    hide EobTokens;
    CorrectionsAppend(q.corr, c.bits);
    var s, a, x, y := q.sent, EobTokens(tbl, e), Corrections(q.corr), Corrections(c.bits);
    assert s + (a + (x + y)) + rest == s + (a + x) + (y + rest);
  }

  /** The block begins a run. */
  lemma Begun(band: Band, q: Pending, c: BandCode, e: nat, rest: seq<Token>)
    requires c.body == [] && c.trailing && Bounded(q) && q.eobRun == 0 && e > 0
    ensures var x := Extended(band, q, c);
            x.sent + Announcement(band.tbl, x, e) + rest
            == q.sent + Announcement(band.tbl, q, 0) + (c.body + Ending(band, c, e) + rest)
  {
    hide EobTokens;
    assert q.corr + c.bits == c.bits;
    var s, d := q.sent, Ending(band, c, e);
    assert s + d + rest == s + [] + ([] + d + rest);
  }

  /**
   Replaying the tokens of a restart interval gives back its blocks, each coefficient of the band
   down to bit al, and uses up the tokens and every end-of-band run.
   */
  lemma IntervalReplays(band: Band, prevs: seq<Block>, blocks: seq<Block>, rest: seq<Token>)
    requires AllCodable(band, prevs, blocks)
    ensures ReplayBands(band, IntervalTokens(band, blocks) + rest, prevs) == Replays(AllDecoded(band, prevs, blocks), rest, 0)
  {
    hide AfterBands, ReplayBands, Codable, EobTokens;
    var p := AfterBands(band, blocks);
    AlwaysBounded(band, blocks);
    BandsReplay(band, prevs, blocks, p.eobRun, rest);
    assert p.eobRun > 0 ==> p.sent + EobTokens(band.tbl, p.eobRun) + Corrections(p.corr) == p.sent + Announcement(band.tbl, p, p.eobRun);
    assert p.eobRun == 0 ==> p.sent + [] == p.sent;
  }

  // ----- All scans of a band -----

  /** The scans of a band: first down to bit top, then one bit more each time, down to bit al. */
  function Scan(tbl: nat, ss: nat, se: nat, top: nat, al: nat): Band
  {
    Band(al != top, tbl, ss, se, al)
  }

  /** The cuts are the lengths of the restart intervals that n MCUs are divided into. */
  predicate CutUp(cuts: seq<nat>, n: nat)
  {
    if cuts == [] then n == 0
    else cuts[|cuts| - 1] <= n && CutUp(cuts[..|cuts| - 1], n - cuts[|cuts| - 1])
  }

  /** Replaying a scan interval by interval; no end-of-band run goes on in the next one. */
  function ReplayIntervals(band: Band, cuts: seq<nat>, prevs: seq<Block>, blocks: seq<Block>): (r: seq<Block>)
    requires band.se < DCTSIZE2 && |prevs| == |blocks| && CutUp(cuts, |blocks|)
    ensures |r| == |blocks|
    decreases |cuts|
  {
    if cuts == [] then []
    else
      var n := |blocks| - cuts[|cuts| - 1];
      ReplayIntervals(band, cuts[..|cuts| - 1], prevs[..n], blocks[..n])
      + ReplayBands(band, IntervalTokens(band, blocks[n..]), prevs[n..]).blocks
  }

  /** However a scan is divided into restart intervals, its blocks come back. */
  lemma {:induction false} IntervalsReplay(band: Band, cuts: seq<nat>, prevs: seq<Block>, blocks: seq<Block>)
    requires AllCodable(band, prevs, blocks) && CutUp(cuts, |blocks|)
    ensures ReplayIntervals(band, cuts, prevs, blocks) == AllDecoded(band, prevs, blocks)
    decreases |cuts|
  {
    hide Codable, Decoded, ReplayBands, IntervalTokens;
    if cuts != [] {
      var n := |blocks| - cuts[|cuts| - 1];
      IntervalsReplay(band, cuts[..|cuts| - 1], prevs[..n], blocks[..n]);
      IntervalReplays(band, prevs[n..], blocks[n..], []);
      assert IntervalTokens(band, blocks[n..]) + [] == IntervalTokens(band, blocks[n..]);
      assert AllDecoded(band, prevs, blocks) == AllDecoded(band, prevs[..n], blocks[..n]) + AllDecoded(band, prevs[n..], blocks[n..]);
    }
  }

  /** For the scan of each bit, the restart intervals that it is divided into. */
  ghost predicate AllCutUp(cuts: seq<seq<nat>>, top: nat, n: nat)
  {
    top < |cuts| && forall a :: 0 <= a <= top ==> CutUp(cuts[a], n)
  }

  /** Replaying the tokens of these scans one after the other. */
  ghost function ReplayScans(tbl: nat, ss: nat, se: nat, top: nat, al: nat, cuts: seq<seq<nat>>, prevs: seq<Block>, blocks: seq<Block>)
      : (r: seq<Block>)
    requires 1 <= ss <= se < DCTSIZE2 && al <= top && |prevs| == |blocks| && AllCutUp(cuts, top, |blocks|)
    ensures |r| == |blocks|
    decreases top - al
  {
    var before := if al == top then prevs else ReplayScans(tbl, ss, se, top, al + 1, cuts, prevs, blocks);
    ReplayIntervals(Scan(tbl, ss, se, top, al), cuts[al], before, blocks)
  }

  /** The band's coefficients are known down to bit al, the others are as they were. */
  ghost predicate KnownTo(ss: nat, se: nat, al: nat, got: Block, prev: Block, b: Block)
    requires se < DCTSIZE2
  {
    && (forall j :: ss <= j <= se ==> got[Natural(j)] == Scaled(b[Natural(j)], al))
    && (forall j :: 0 <= j < DCTSIZE2 && !(ss <= j <= se) ==> got[Natural(j)] == prev[Natural(j)])
  }

  lemma DecodedIsKnown(band: Band, prev: Block, b: Block)
    requires ValidBand(band)
    ensures KnownTo(band.ss, band.se, band.al, Decoded(band, prev, b), prev, b)
  {
    hide Natural, Zigzag, Scaled;
    forall j | 0 <= j < DCTSIZE2
      ensures Zigzag(Natural(j)) == j
    {
      OrdersInverse(j);
    }
  }

  /** Blocks that may be coded in a band: nothing has been sent of it before, and the coefficients are in range. */
  ghost predicate Fresh(ss: nat, se: nat, top: nat, prevs: seq<Block>, blocks: seq<Block>)
    requires se < DCTSIZE2
  {
    && |prevs| == |blocks|
    && (forall i, j :: 0 <= i < |blocks| && ss <= j <= se ==> prevs[i][Natural(j)] == 0)
    && (forall i, j :: 0 <= i < |blocks| && ss <= j <= se ==> Category(Shifted(blocks[i][Natural(j)], top)) <= MAX_COEF_BITS)
  }

  /**
   Successive approximation: after the scans down to bit al, every coefficient of the band is known
   rounded towards zero to that bit, and the other coefficients have not been touched. After the
   scan for bit 0 it is known exactly. Each scan may be divided into restart intervals of its own.
   */
  lemma {:induction false} ScansReplay(tbl: nat, ss: nat, se: nat, top: nat, al: nat, cuts: seq<seq<nat>>,
                                       prevs: seq<Block>, blocks: seq<Block>)
    requires 1 <= ss <= se < DCTSIZE2 && al <= top && Fresh(ss, se, top, prevs, blocks) && AllCutUp(cuts, top, |blocks|)
    ensures var got := ReplayScans(tbl, ss, se, top, al, cuts, prevs, blocks);
            forall i :: 0 <= i < |blocks| ==> KnownTo(ss, se, al, got[i], prevs[i], blocks[i])
    decreases top - al
  {
    hide Natural, Scaled, ReplayIntervals, Category, Shifted, Decoded;
    var band := Scan(tbl, ss, se, top, al);
    var before := if al == top then prevs else ReplayScans(tbl, ss, se, top, al + 1, cuts, prevs, blocks);
    if al < top {
      ScansReplay(tbl, ss, se, top, al + 1, cuts, prevs, blocks);
    }
    forall i | 0 <= i < |blocks|
      ensures Codable(band, before[i], blocks[i])
    {
    }
    IntervalsReplay(band, cuts[al], before, blocks);
    forall i | 0 <= i < |blocks|
      ensures KnownTo(ss, se, al, Decoded(band, before[i], blocks[i]), prevs[i], blocks[i])
    {
      DecodedIsKnown(band, before[i], blocks[i]);
    }
  }

  /** Known down to bit 0 is known exactly. */
  lemma KnownExactly(ss: nat, se: nat, got: Block, prev: Block, b: Block, j: nat)
    requires se < DCTSIZE2 && KnownTo(ss, se, 0, got, prev, b) && ss <= j <= se
    ensures got[Natural(j)] == b[Natural(j)]
  {
    ScaledZero(b[Natural(j)], 0);
  }
}
