/**
 The canonical code of ITU-T T.81, Annex C: the p-th symbol of a table with bits[l] codes of
 length l gets a code of length SizeOf(bits, p) with value CodeOf(bits, p).
 */
module CanonicalCode {
  import opened Arith
  import opened BitString
  import opened CodeSpace

  const MAX_LENGTH := 16

  /** The number of codes of length at most l. */
  function Count(bits: seq<int>, l: nat): int
    requires l < |bits|
  {
    if l == 0 then bits[0] else Count(bits, l - 1) + bits[l]
  }

  /** Length counts as in a table definition; the element at 0 is not used and taken as 0. */
  ghost predicate Lengths(bits: seq<int>)
  {
    |bits| == MAX_LENGTH + 1 && bits[0] == 0 && forall k :: 0 <= k <= MAX_LENGTH ==> 0 <= bits[k] < 256
  }

  /** The lengths leave at least one code unused, and there are no more codes than byte values. */
  ghost predicate LegalLengths(bits: seq<int>)
  {
    Lengths(bits) && Count(bits, MAX_LENGTH) <= 256 && Filled(bits, MAX_LENGTH) < Pow2(MAX_LENGTH)
  }

  lemma {:induction false} CountMono(bits: seq<int>, l: nat, m: nat)
    requires l <= m < |bits| && forall k :: 0 <= k < |bits| ==> bits[k] >= 0
    ensures Count(bits, l) <= Count(bits, m)
    ensures Count(bits, l) == Count(bits, m) ==> forall k :: l < k <= m ==> bits[k] == 0
    decreases m
  {
    if l < m {
      CountMono(bits, l, m - 1);
    }
  }

  lemma {:induction false} CountIsSum(bits: seq<int>, l: nat)
    requires l < |bits|
    ensures Count(bits, l) == Sum(bits[..l + 1])
  {
    assert bits[..l + 1] == bits[..l] + [bits[l]];
    SumAppend(bits[..l], [bits[l]]);
    assert [bits[l]][1..] == [];
    if l > 0 {
      CountIsSum(bits, l - 1);
    } else {
      assert bits[..0] == [];
    }
  }

  /** A symbol index that has a code. */
  ghost predicate HasCode(bits: seq<int>, p: int)
  {
    Lengths(bits) && 0 <= p < Count(bits, MAX_LENGTH)
  }

  function SizeFrom(bits: seq<int>, p: int, l: nat): (r: nat)
    requires |bits| == MAX_LENGTH + 1 && 1 <= l <= MAX_LENGTH && p < Count(bits, MAX_LENGTH)
    requires Count(bits, l - 1) <= p
    ensures l <= r <= MAX_LENGTH && Count(bits, r - 1) <= p < Count(bits, r)
    decreases MAX_LENGTH - l
  {
    if p < Count(bits, l) then l else SizeFrom(bits, p, l + 1)
  }

  /** The length of the p-th code. */
  function SizeOf(bits: seq<int>, p: int): (l: nat)
    requires |bits| == MAX_LENGTH + 1 && bits[0] == 0 && 0 <= p < Count(bits, MAX_LENGTH)
    ensures 1 <= l <= MAX_LENGTH && Count(bits, l - 1) <= p < Count(bits, l)
  {
    SizeFrom(bits, p, 1)
  }

  /** The value of the p-th code. */
  function CodeOf(bits: seq<int>, p: int): int
    requires |bits| == MAX_LENGTH + 1 && bits[0] == 0 && 0 <= p < Count(bits, MAX_LENGTH)
  {
    var l := SizeOf(bits, p);
    2 * Filled(bits, l - 1) + (p - Count(bits, l - 1))
  }

  lemma SizeUnique(bits: seq<int>, p: int, l: nat)
    requires HasCode(bits, p) && 1 <= l <= MAX_LENGTH && Count(bits, l - 1) <= p < Count(bits, l)
    ensures SizeOf(bits, p) == l
  {
    var r := SizeOf(bits, p);
    if r < l {
      CountMono(bits, r, l - 1);
    } else if l < r {
      CountMono(bits, l, r - 1);
    }
  }

  /** A legal code space is not full at any length. */
  lemma RoomAtEveryLength(bits: seq<int>, l: nat)
    requires Lengths(bits) && Filled(bits, MAX_LENGTH) < Pow2(MAX_LENGTH) && l <= MAX_LENGTH
    ensures 0 <= Filled(bits, l) < Pow2(l)
  {
    hide Filled, Pow2;
    FilledNonneg(bits, l);
    FilledGrows(bits, l, MAX_LENGTH);
    Pow2Add(MAX_LENGTH - l, l);
    var p, x, y := Pow2(MAX_LENGTH - l), Filled(bits, l), Pow2(l);
    if x >= y {
      ScaleMono(p, y, x);
    }
  }

  /** Every code fits its length and none is all ones. */
  lemma CodeFits(bits: seq<int>, p: int)
    requires LegalLengths(bits) && HasCode(bits, p)
    ensures 0 <= CodeOf(bits, p) < Filled(bits, SizeOf(bits, p))
    ensures CodeOf(bits, p) < Pow2(SizeOf(bits, p)) - 1
  {
    var l := SizeOf(bits, p);
    RoomAtEveryLength(bits, l);
    FilledNonneg(bits, l - 1);
  }

  /** Codes come after everything that shorter lengths have filled. */
  lemma CodeAfterShorter(bits: seq<int>, p: int, l: nat)
    requires HasCode(bits, p) && l < SizeOf(bits, p)
    ensures CodeOf(bits, p) >= Filled(bits, l) * Pow2(SizeOf(bits, p) - l)
  {
    hide Filled, SizeOf, Count;
    var m := SizeOf(bits, p);
    FilledGrows(bits, l, m - 1);
    var q, x := Pow2(m - 1 - l), Filled(bits, l);
    Pow2Double(m - 1 - l);
    DoubleFactor(x, q);
    assert q * x == x * q;
  }

  /**
   Prefix-freeness, with the order of the codes: a later code, cut to the length of an earlier
   one, is greater than it.
   */
  lemma PrefixFree(bits: seq<int>, p: int, q: int)
    requires HasCode(bits, p) && HasCode(bits, q) && p < q
    ensures SizeOf(bits, p) <= SizeOf(bits, q)
    ensures CodeOf(bits, q) >= (CodeOf(bits, p) + 1) * Pow2(SizeOf(bits, q) - SizeOf(bits, p))
  {
    hide Filled, SizeOf, Count, Pow2;
    var l, m := SizeOf(bits, p), SizeOf(bits, q);
    if m < l {
      CountMono(bits, m, l - 1);
    } else if l == m {
      TimesOne(CodeOf(bits, p) + 1);
    } else {
      CodeAfterShorter(bits, q, l);
      FilledStep(bits, l);
      ScaleMono(Pow2(m - l), CodeOf(bits, p) + 1, Filled(bits, l));
    }
  }

  lemma TimesOne(x: int)
    ensures x * Pow2(0) == x
  {
  }

  lemma FilledStep(bits: seq<int>, l: nat)
    requires 1 <= l < |bits|
    ensures Filled(bits, l) == 2 * Filled(bits, l - 1) + bits[l]
    ensures Count(bits, l) == Count(bits, l - 1) + bits[l]
  {
  }

  /** The first code is 0, and each is one more than the one before it, with zeros appended if it is longer (section C.2). */
  lemma CodesCountUp(bits: seq<int>, p: int)
    requires HasCode(bits, p)
    ensures p == 0 ==> CodeOf(bits, p) == 0
    ensures p > 0 ==> SizeOf(bits, p) >= SizeOf(bits, p - 1)
                      && CodeOf(bits, p) == (CodeOf(bits, p - 1) + 1) * Pow2(SizeOf(bits, p) - SizeOf(bits, p - 1))
  {
    hide Filled, SizeOf, Count, Pow2;
    var m := SizeOf(bits, p);
    if p == 0 {
      CountMono(bits, 0, m - 1);
      NoneBefore(bits, m - 1);
    } else {
      var l := SizeOf(bits, p - 1);
      if m < l {
        CountMono(bits, m, l - 1);
      } else if l == m {
        TimesOne(CodeOf(bits, p - 1) + 1);
      } else {
        CountMono(bits, l, m - 1);
        FilledStep(bits, l);
        FilledGrows(bits, l, m - 1);
        Pow2Double(m - 1 - l);
        DoubleFactor(Filled(bits, l), Pow2(m - 1 - l));
        assert Pow2(m - 1 - l) * Filled(bits, l) == Filled(bits, l) * Pow2(m - 1 - l);
      }
    }
  }

  lemma NoneBefore(bits: seq<int>, l: nat)
    requires Lengths(bits) && l <= MAX_LENGTH && Count(bits, l) <= 0
    ensures Count(bits, l) == 0 && Filled(bits, l) == 0
  {
    CountMono(bits, 0, l);
    NoneAtZero(bits);
    FilledNothing(bits, l);
  }

  /** The code word of the p-th symbol. */
  ghost function CodeWord(bits: seq<int>, p: int): (s: Bits)
    requires LegalLengths(bits) && HasCode(bits, p)
    ensures |s| == SizeOf(bits, p)
  {
    CodeFits(bits, p);
    Word(CodeOf(bits, p), SizeOf(bits, p))
  }

  // ----- Decoding one bit at a time, figure F.16 -----

  /** maxcode[l]: the largest code of length l, or -1 if there is none. */
  function MaxCode(bits: seq<int>, l: nat): int
    requires l < |bits|
  {
    if bits[l] == 0 then -1 else Filled(bits, l) - 1
  }

  /** The length at which the bit-by-bit decoder stops when it starts at length l; 17 if on garbage. */
  function StopLength(bits: seq<int>, s: Bits, l: nat): (r: nat)
    requires |bits| == MAX_LENGTH + 1 && 1 <= l <= MAX_LENGTH + 1
    ensures l <= r <= MAX_LENGTH + 1
    decreases MAX_LENGTH + 1 - l
  {
    if l > MAX_LENGTH || Peek(s, l) <= MaxCode(bits, l) then l else StopLength(bits, s, l + 1)
  }

  /** valoffset[l] turns a code of length l into a symbol index. */
  function ValOffset(bits: seq<int>, l: nat): int
    requires 1 <= l < |bits|
  {
    Count(bits, l - 1) - 2 * Filled(bits, l - 1)
  }

  /** Until the decoder stops, what it has read lies past all codes so far. */
  lemma {:induction false} NotStoppedYet(bits: seq<int>, s: Bits, l: nat)
    requires Lengths(bits) && l <= MAX_LENGTH && l < StopLength(bits, s, 1)
    ensures Peek(s, l) >= Filled(bits, l)
  {
    if l > 0 {
      NotStoppedYet(bits, s, l - 1);
      StopSkips(bits, s, 1, l);
    }
  }

  lemma {:induction false} StopSkips(bits: seq<int>, s: Bits, from: nat, l: nat)
    requires |bits| == MAX_LENGTH + 1 && 1 <= from <= l <= MAX_LENGTH
    requires l < StopLength(bits, s, from)
    ensures Peek(s, l) > MaxCode(bits, l)
    decreases l - from
  {
    if from < l {
      StopSkips(bits, s, from + 1, l);
    }
  }

  lemma {:induction false} StopReached(bits: seq<int>, s: Bits, from: nat)
    requires |bits| == MAX_LENGTH + 1 && 1 <= from <= MAX_LENGTH + 1
    ensures StopLength(bits, s, from) <= MAX_LENGTH ==>
              Peek(s, StopLength(bits, s, from)) <= MaxCode(bits, StopLength(bits, s, from))
    decreases MAX_LENGTH + 1 - from
  {
    if from <= MAX_LENGTH && Peek(s, from) > MaxCode(bits, from) {
      StopReached(bits, s, from + 1);
    }
  }

  lemma NoneAtZero(bits: seq<int>)
    requires Lengths(bits)
    ensures Count(bits, 0) == 0
  {
  }

  lemma NextPeek(s: Bits, l: nat)
    requires l >= 1
    ensures Peek(s, l) >= 2 * Peek(s, l - 1) >= 0
  {
  }

  /** Where the decoder stops, it has read exactly the code of the symbol that valoffset yields. */
  lemma StopsOnACode(bits: seq<int>, s: Bits)
    requires Lengths(bits) && StopLength(bits, s, 1) <= MAX_LENGTH
    ensures var l := StopLength(bits, s, 1);
            var p := Peek(s, l) + ValOffset(bits, l);
            HasCode(bits, p) && SizeOf(bits, p) == l && CodeOf(bits, p) == Peek(s, l)
  {
    hide Filled, SizeOf, Count, StopLength, Pow2, Peek;
    var l := StopLength(bits, s, 1);
    StopReached(bits, s, 1);
    NotStoppedYet(bits, s, l - 1);
    FilledStep(bits, l);
    NextPeek(s, l);
    NoneAtZero(bits);
    var p := Peek(s, l) + ValOffset(bits, l);
    CountMono(bits, l, MAX_LENGTH);
    CountMono(bits, 0, l - 1);
    SizeUnique(bits, p, l);
  }

  /** On a stream that begins with a symbol's code, the decoder stops at that code's length. */
  lemma StopsAtCodeLength(bits: seq<int>, p: int, s: Bits)
    requires LegalLengths(bits) && HasCode(bits, p)
    requires Peek(s, SizeOf(bits, p)) == CodeOf(bits, p)
    ensures StopLength(bits, s, 1) == SizeOf(bits, p)
    ensures CodeOf(bits, p) + ValOffset(bits, SizeOf(bits, p)) == p
  {
    hide Filled, SizeOf, Count, StopLength, Peek, Pow2;
    var m := SizeOf(bits, p);
    var l := StopLength(bits, s, 1);
    CodeFits(bits, p);
    if l < m {
      StopReached(bits, s, 1);
      CodeAfterShorter(bits, p, l);
      PeekSplit(s, l, m);
      ScaleMono(Pow2(m - l), Peek(s, l) + 1, Filled(bits, l));
    } else if m < l {
      NotStoppedYet(bits, s, m);
    }
  }

  /** Starting at a later length changes nothing if the decoder would not have stopped before it. */
  lemma {:induction false} LateStart(bits: seq<int>, s: Bits, from: nat, l: nat)
    requires |bits| == MAX_LENGTH + 1 && 1 <= from <= l <= MAX_LENGTH + 1
    requires l <= StopLength(bits, s, from)
    ensures StopLength(bits, s, l) == StopLength(bits, s, from)
    decreases l - from
  {
    if from < l {
      LateStart(bits, s, from + 1, l);
    }
  }

  /** No code word is the beginning of another one. */
  lemma NoWordIsAPrefix(bits: seq<int>, p: int, q: int)
    requires LegalLengths(bits) && HasCode(bits, p) && HasCode(bits, q) && p != q
    ensures !(CodeWord(bits, p) <= CodeWord(bits, q))
  {
    hide Filled, SizeOf, Count, StopLength, CodeOf, Peek, ValOffset;
    if CodeWord(bits, p) <= CodeWord(bits, q) {
      var s, m, n := CodeWord(bits, q), SizeOf(bits, p), SizeOf(bits, q);
      CodeFits(bits, p);
      CodeFits(bits, q);
      PeekWord(CodeOf(bits, p), m, s[m..]);
      assert s == Word(CodeOf(bits, p), m) + s[m..];
      PeekWord(CodeOf(bits, q), n, []);
      assert s == s + [];
      StopsAtCodeLength(bits, p, s);
      StopsAtCodeLength(bits, q, s);
    }
  }
}
