/**
 jpeg_gen_optimal_table (jpeg/jchuff.c): from symbol counts to a Huffman table with no code
 longer than 16 bits and no code of all ones.
 */
module OptimalTable {
  import opened Arith
  import opened HuffmanTree
  import opened HuffmanOptimal
  import opened HuffmanMerge
  import opened CodeSpace
  import opened HuffTables
  import opened LengthLimiting
  import CanonicalCode

  const MAX_CLEN := 32
  const MAX_COUNTED := 254

  // ----- Counting the symbols of each code length -----

  ghost function Used(x: int): int { if x > 0 then 1 else 0 }

  /** What each symbol's code takes of the 32-bit code space. */
  ghost function Shares(codesize: seq<int>): (r: seq<int>)
    ensures |r| == |codesize|
    ensures forall s :: 0 <= s < |r| ==> r[s] == if codesize[s] > 0 then Share(MAX_CLEN, codesize[s]) else 0
  {
    seq(|codesize|, s requires 0 <= s < |codesize| => if codesize[s] > 0 then Share(MAX_CLEN, codesize[s]) else 0)
  }

  ghost function UsedSymbols(x: seq<int>): (r: seq<int>)
    ensures |r| == |x|
    ensures forall s :: 0 <= s < |r| ==> r[s] == Used(x[s])
  {
    seq(|x|, s requires 0 <= s < |x| => Used(x[s]))
  }

  lemma SumTake(x: seq<int>, i: nat)
    requires i < |x|
    ensures Sum(x[..i + 1]) == Sum(x[..i]) + x[i]
  {
    assert x[..i + 1] == x[..i] + [x[i]];
    SumAppend(x[..i], [x[i]]);
    assert [x[i]][1..] == [];
  }

  ghost predicate SmallSizes(codesize: seq<int>, n: nat)
    requires n <= |codesize|
  {
    forall s :: 0 <= s < n ==> 0 <= codesize[s] <= MAX_CLEN
  }

  /** bits[] as an array of unsigned 8-bit counters. */
  ghost predicate Bytes(bits: seq<int>)
  {
    forall k :: 0 <= k < |bits| ==> 0 <= bits[k] < 256
  }

  ghost predicate Counted(codesize: seq<int>, bits: seq<int>, n: nat)
    requires n <= |codesize|
  {
    && |bits| == MAX_CLEN + 1 && Bytes(bits) && bits[0] == 0
    && Sum(bits) == Sum(UsedSymbols(codesize)[..n])
    && Filled(bits, MAX_CLEN) == Sum(Shares(codesize)[..n])
  }

  /** Which elements are between lo and hi. */
  ghost function Between(x: seq<int>, lo: int, hi: int): (r: seq<int>)
    ensures |r| == |x|
    ensures forall s :: 0 <= s < |r| ==> r[s] == if lo <= x[s] <= hi then 1 else 0
  {
    seq(|x|, s requires 0 <= s < |x| => if lo <= x[s] <= hi then 1 else 0)
  }

  /** How many of the first n symbols have code size k. */
  ghost function Having(codesize: seq<int>, n: nat, k: int): int
    requires n <= |codesize|
  {
    Sum(Between(codesize[..n], k, k))
  }

  /** bits[k] counts the symbols of code size k. */
  ghost predicate Histogram(codesize: seq<int>, bits: seq<int>, n: nat)
    requires n <= |codesize|
  {
    forall k :: 1 <= k < |bits| ==> bits[k] == Having(codesize, n, k)
  }

  lemma HavingStep(codesize: seq<int>, n: nat, k: int)
    requires n < |codesize|
    ensures Having(codesize, n + 1, k) == Having(codesize, n, k) + if codesize[n] == k then 1 else 0
  {
    var x, y := Between(codesize[..n], k, k), Between(codesize[..n + 1], k, k);
    assert y == x + [if codesize[n] == k then 1 else 0];
    SumAppend(x, y[n..]);
    assert y[n..] == [y[n]] && [y[n]][1..] == [];
  }

  lemma HistogramStep(codesize: seq<int>, bits: seq<int>, n: nat)
    requires n < |codesize| && Histogram(codesize, bits, n) && 0 <= codesize[n] < |bits|
    ensures codesize[n] == 0 ==> Histogram(codesize, bits, n + 1)
    ensures codesize[n] > 0 ==> Histogram(codesize, bits[codesize[n] := bits[codesize[n]] + 1], n + 1)
  {
    hide Having;
    forall k
      ensures Having(codesize, n + 1, k) == Having(codesize, n, k) + if codesize[n] == k then 1 else 0
    {
      HavingStep(codesize, n, k);
    }
  }

  lemma CountOne(codesize: seq<int>, bits: seq<int>, n: nat)
    requires n < |codesize| && Counted(codesize, bits, n) && SmallSizes(codesize, n + 1)
    requires Sum(UsedSymbols(codesize)) <= 255
    ensures codesize[n] == 0 ==> Counted(codesize, bits, n + 1)
    ensures codesize[n] > 0 ==> bits[codesize[n]] < 255
    ensures codesize[n] > 0 ==> Counted(codesize, bits[codesize[n] := bits[codesize[n]] + 1], n + 1)
  {
    hide Filled;
    var u, w := UsedSymbols(codesize), Shares(codesize);
    SumTake(u, n);
    SumTake(w, n);
    if codesize[n] > 0 {
      assert u == u[..n + 1] + u[n + 1..];
      SumAppend(u[..n + 1], u[n + 1..]);
      SumNonneg(u[n + 1..]);
      SumNonneg(bits);
      SumUpdate(bits, codesize[n], bits[codesize[n]] + 1);
      FilledUpdate(bits, codesize[n], bits[codesize[n]] + 1, MAX_CLEN);
      OneTimes(bits[codesize[n]], Pow2(MAX_CLEN - codesize[n]));
    }
  }

  lemma OneTimes(x: int, p: int)
    ensures (x + 1 - x) * p == p
  {
  }

  /** bits[k] becomes the number of symbols with code size k, unless some size exceeds 32. */
  method CountLengths(codesize: array<int>, bits: array<int>) returns (ok: bool)
    requires codesize.Length == SYMBOLS && bits.Length == MAX_CLEN + 1 && bits != codesize
    requires forall s :: 0 <= s < SYMBOLS ==> codesize[s] >= 0
    requires forall k :: 0 <= k <= MAX_CLEN ==> bits[k] == 0
    requires Sum(UsedSymbols(codesize[..])) <= 255
    modifies bits
    ensures ok <==> SmallSizes(codesize[..], SYMBOLS)
    ensures ok ==> Counted(codesize[..], bits[..], SYMBOLS) && Histogram(codesize[..], bits[..], SYMBOLS)
  {
    hide Having;
    ghost var sizes := codesize[..];
    HavingNone(sizes);
    SumZero(bits[..]);
    FilledNothing(bits[..], MAX_CLEN);
    for i := 0 to SYMBOLS
      invariant codesize[..] == sizes
      invariant SmallSizes(sizes, i)
      invariant Counted(sizes, bits[..], i) && Histogram(sizes, bits[..], i)
    {
      if codesize[i] != 0 {
        if codesize[i] > MAX_CLEN {
          return false;
        }
        ghost var b := bits[..];
        CountOne(sizes, b, i);
        HistogramStep(sizes, b, i);
        bits[codesize[i]] := (bits[codesize[i]] + 1) % 256;
        assert bits[..] == b[sizes[i] := b[sizes[i]] + 1];
      } else {
        CountOne(sizes, bits[..], i);
        HistogramStep(sizes, bits[..], i);
      }
    }
    return true;
  }

  lemma HavingNone(codesize: seq<int>)
    ensures forall k :: Having(codesize, 0, k) == 0
  {
  }

  // ----- The adjustment of section K.2 -----

  /**
   A complete code with few enough symbols: Kraft's sum is one, so the longest length in use has
   an even number of codes, and no 8-bit counter can overflow.
   */
  ghost predicate Complete(bits: seq<int>)
  {
    && |bits| == MAX_CLEN + 1 && Bytes(bits) && bits[0] == 0
    && Filled(bits, MAX_CLEN) == Pow2(MAX_CLEN)
    && Sum(bits) <= 255
  }

  ghost predicate NoneAbove(bits: seq<int>, i: int)
  {
    forall k :: 0 <= k < |bits| && k > i ==> bits[k] == 0
  }

  lemma FilledSteps(bits: seq<int>, i: nat)
    requires 2 <= i < |bits|
    ensures Filled(bits, i) == 2 * Filled(bits, i - 1) + bits[i]
    ensures Filled(bits, i - 1) == 2 * Filled(bits, i - 2) + bits[i - 1]
  {
  }

  /** The longest length in use, if over 16, has at least two codes, and some length at most i - 2 has one. */
  lemma LongestIsPaired(bits: seq<int>, i: nat)
    requires Complete(bits) && 16 < i <= MAX_CLEN && NoneAbove(bits, i)
    ensures bits[i] % 2 == 0
    ensures exists j :: 1 <= j <= i - 2 && bits[j] > 0
  {
    hide Filled, Pow2, Sum;
    FullAtLongest(bits, i, MAX_CLEN);
    Pow2Double(i - 1);
    FilledSteps(bits, i);
    if forall j :: 0 <= j <= i - 2 ==> bits[j] == 0 {
      FilledNothing(bits, i - 2);
      SumNonneg(bits);
      Pow2Values();
      Pow2Mono(17, i);
    }
  }

  function Plus(bits: seq<int>, k: nat, d: int): (r: seq<int>)
    requires k < |bits|
    ensures |r| == |bits|
  {
    bits[k := bits[k] + d]
  }

  ghost function Adjusted(bits: seq<int>, i: nat, j: nat): (r: seq<int>)
    requires |bits| == MAX_CLEN + 1 && 2 <= i <= MAX_CLEN && j <= i - 2
    ensures |r| == |bits|
  {
    Plus(Plus(Plus(Plus(bits, i, -2), i - 1, 1), j + 1, 2), j, -1)
  }

  lemma AdjustKeepsSums(bits: seq<int>, i: nat, j: nat, b1: seq<int>, b2: seq<int>, b3: seq<int>, b4: seq<int>)
    requires |bits| == |b1| == |b2| == |b3| == |b4| == MAX_CLEN + 1 && 2 <= i <= MAX_CLEN && j <= i - 2
    requires b1 == Plus(bits, i, -2) && b2 == Plus(b1, i - 1, 1) && b3 == Plus(b2, j + 1, 2) && b4 == Plus(b3, j, -1)
    ensures Sum(b4) == Sum(bits)
    ensures Filled(b4, MAX_CLEN) == Filled(bits, MAX_CLEN)
  {
    hide Filled, Sum, Pow2, Plus;
    PlusSums(bits, i, -2);
    PlusSums(b1, i - 1, 1);
    PlusSums(b2, j + 1, 2);
    PlusSums(b3, j, -1);
    Pow2Double(MAX_CLEN - i);
    Pow2Double(MAX_CLEN - (j + 1));
  }

  lemma PlusSums(bits: seq<int>, k: nat, d: int)
    requires |bits| == MAX_CLEN + 1 && k <= MAX_CLEN
    ensures Sum(Plus(bits, k, d)) == Sum(bits) + d
    ensures Filled(Plus(bits, k, d), MAX_CLEN) == Filled(bits, MAX_CLEN) + d * Pow2(MAX_CLEN - k)
  {
    hide Filled, Sum;
    SumUpdate(bits, k, bits[k] + d);
    FilledUpdate(bits, k, bits[k] + d, MAX_CLEN);
    assert bits[k] + d - bits[k] == d;
  }

  /** One adjustment keeps Kraft's sum and the number of symbols. */
  lemma AdjustKeepsComplete(bits: seq<int>, i: nat, j: nat)
    requires Complete(bits) && NoneAbove(bits, i) && 16 < i <= MAX_CLEN
    requires 1 <= j <= i - 2 && bits[j] > 0 && bits[i] >= 2
    ensures Complete(Adjusted(bits, i, j)) && Sum(Adjusted(bits, i, j)) == Sum(bits)
    ensures NoneAbove(Adjusted(bits, i, j), i)
  {
    hide Filled, Sum;
    var b1 := Plus(bits, i, -2);
    var b2 := Plus(b1, i - 1, 1);
    var b3 := Plus(b2, j + 1, 2);
    AdjustKeepsSums(bits, i, j, b1, b2, b3, Adjusted(bits, i, j));
    SumNonneg(Adjusted(bits, i, j));
  }

  lemma AdjustedAt(bits: seq<int>, i: nat, j: nat)
    requires |bits| == MAX_CLEN + 1 && 2 <= i <= MAX_CLEN && 1 <= j <= i - 2
    ensures forall k :: 0 <= k <= MAX_CLEN ==>
              Adjusted(bits, i, j)[k] == bits[k] + (if k == j + 1 then 2 else 0) - (if k == j then 1 else 0)
                                         + (if k == i - 1 then 1 else 0) - (if k == i then 2 else 0)
  {
  }

  lemma AdjustedBytes(bits: seq<int>, i: nat, j: nat)
    requires 16 < i <= MAX_CLEN && 1 <= j <= i - 2
    requires Complete(bits) && Complete(Adjusted(bits, i, j))
    requires bits[i] >= 2 && bits[j] > 0
    ensures var b1 := bits[i := (bits[i] - 2) % 256];
            var b2 := b1[i - 1 := (b1[i - 1] + 1) % 256];
            var b3 := b2[j + 1 := (b2[j + 1] + 2) % 256];
            Adjusted(bits, i, j) == b3[j := (b3[j] - 1) % 256]
  {
    hide Filled, Sum;
    var c1 := bits[i := bits[i] - 2];
    var c2 := c1[i - 1 := c1[i - 1] + 1];
    var c3 := c2[j + 1 := c2[j + 1] + 2];
    var c := Adjusted(bits, i, j);
    assert c == c3[j := c3[j] - 1];
    assert c[i] == bits[i] - 2 && c[j] == bits[j] - 1;
    assert c[j + 1] == c3[j + 1] && c[i - 1] == c3[i - 1];
    InByte(c[i]);
    InByte(c2[i - 1]);
    InByte(c[j + 1]);
    InByte(c[j]);
  }

  lemma InByte(x: int)
    requires 0 <= x < 256
    ensures x % 256 == x
  {
  }

  /** The longest length in use that is shorter than the prefix of a pair of length i. */
  method FindShorter(bits: array<int>, i: nat) returns (j: nat)
    requires bits.Length == MAX_CLEN + 1 && 16 < i <= MAX_CLEN && exists k :: 1 <= k <= i - 2 && bits[k] > 0
    requires Bytes(bits[..])
    ensures 1 <= j <= i - 2 && bits[j] > 0 && forall k :: j < k <= i - 2 ==> bits[k] == 0
  {
    j := i - 2;
    while bits[j] == 0
      invariant 1 <= j <= i - 2
      invariant exists k :: 1 <= k <= j && bits[k] > 0
      invariant forall k :: j < k <= i - 2 ==> bits[k] == 0
      decreases j
    {
      j := j - 1;
    }
  }

  /** Replaces two codes of the longest length i by two one bit longer than some shorter code. */
  method AdjustOnce(bits: array<int>, i: nat)
    requires bits.Length == MAX_CLEN + 1 && Complete(bits[..]) && 16 < i <= MAX_CLEN
    requires NoneAbove(bits[..], i) && bits[i] > 0
    modifies bits
    ensures Complete(bits[..]) && NoneAbove(bits[..], i)
    ensures Sum(bits[..]) == old(Sum(bits[..]))
    ensures bits[i] == old(bits[i]) - 2 >= 0
    ensures exists j :: 1 <= j <= i - 2 && old(bits[j]) > 0 && (forall k :: j < k <= i - 2 ==> old(bits[k]) == 0)
                        && forall k :: 0 <= k <= MAX_CLEN ==>
                             bits[k] == old(bits[k]) + (if k == j + 1 then 2 else 0) - (if k == j then 1 else 0)
                                        + (if k == i - 1 then 1 else 0) - (if k == i then 2 else 0)
  {
    ghost var b := bits[..];
    LongestIsPaired(b, i);
    var j := FindShorter(bits, i);
    AdjustKeepsComplete(b, i, j);
    AdjustedBytes(b, i, j);
    AdjustedAt(b, i, j);
    hide Complete, Sum, Adjusted, NoneAbove;
    bits[i] := (bits[i] - 2) % 256;
    bits[i - 1] := (bits[i - 1] + 1) % 256;
    bits[j + 1] := (bits[j + 1] + 2) % 256;
    bits[j] := (bits[j] - 1) % 256;
    assert bits[..] == Adjusted(b, i, j);
  }

  /**
   Moves every code longer than 16 bits to a shorter length. The code space that this takes is
   taken from the longest of the short codes first.
   */
  method LimitLengths(bits: array<int>)
    requires bits.Length == MAX_CLEN + 1 && Complete(bits[..])
    modifies bits
    ensures Complete(bits[..]) && NoneAbove(bits[..], 16)
    ensures Sum(bits[..]) == old(Sum(bits[..]))
    ensures old(NoneAbove(bits[..], 16)) ==> bits[..] == old(bits[..])
    ensures DeepestFirst(old(bits[..]), bits[..])
  {
    hide Sum, Filled, DeepestFirst, Moved;
    var i := MAX_CLEN;
    AtFirst(bits[..]);
    while i > 16
      invariant 16 <= i <= MAX_CLEN
      invariant Complete(bits[..]) && NoneAbove(bits[..], i)
      invariant Sum(bits[..]) == old(Sum(bits[..]))
      invariant old(NoneAbove(bits[..], 16)) ==> bits[..] == old(bits[..])
      invariant DeepestFirst(old(bits[..]), bits[..])
    {
      while bits[i] > 0
        invariant Complete(bits[..]) && NoneAbove(bits[..], i)
        invariant Sum(bits[..]) == old(Sum(bits[..]))
        invariant old(NoneAbove(bits[..], 16)) ==> bits[..] == old(bits[..])
        invariant DeepestFirst(old(bits[..]), bits[..])
        decreases bits[i]
      {
        ghost var b := bits[..];
        AdjustOnce(bits, i);
        OneMove(old(bits[..]), b, bits[..], i);
      }
      i := i - 1;
    }
  }

  lemma AtFirst(b: seq<int>)
    requires |b| > 15
    ensures DeepestFirst(b, b)
  {
  }

  lemma OneMove(h: seq<int>, b: seq<int>, b': seq<int>, i: nat)
    requires |h| == |b| == |b'| == MAX_CLEN + 1 && 16 < i <= MAX_CLEN && DeepestFirst(h, b)
    requires exists j :: 1 <= j <= i - 2 && b[j] > 0 && (forall k :: j < k <= i - 2 ==> b[k] == 0)
                         && forall k :: 0 <= k <= MAX_CLEN ==>
                              b'[k] == b[k] + (if k == j + 1 then 2 else 0) - (if k == j then 1 else 0)
                                       + (if k == i - 1 then 1 else 0) - (if k == i then 2 else 0)
    ensures DeepestFirst(h, b')
  {
    hide DeepestFirst;
    var j :| 1 <= j <= i - 2 && b[j] > 0 && (forall k :: j < k <= i - 2 ==> b[k] == 0)
             && forall k :: 0 <= k <= MAX_CLEN ==>
                  b'[k] == b[k] + (if k == j + 1 then 2 else 0) - (if k == j then 1 else 0)
                           + (if k == i - 1 then 1 else 0) - (if k == i then 2 else 0);
    KeepsTheRule(h, b, b', i, j);
  }

  // ----- The finished table -----

  /**
   A legal table for the counts: it has a code for each counted symbol and for no other, its
   lengths fit 16 bits, and its code space is not quite full, so that no code is all ones.
   */
  ghost predicate LegalFor(counts: seq<int>, bits: seq<int>, huffval: seq<int>)
  {
    && |counts| == 256 && |bits| == 17 && |huffval| == 256 && Bytes(bits) && Bytes(huffval) && bits[0] == 0
    && 0 <= Sum(bits) <= MAX_COUNTED
    && Distinct(huffval[..Sum(bits)])
    && (forall s :: 0 <= s < 256 ==> (counts[s] > 0 <==> s in huffval[..Sum(bits)]))
    && (exists longest :: 1 <= longest <= 16 && LeavesOneCode(bits, longest))
  }

  /** One code of the greatest length is left unused, and nothing else is. */
  ghost predicate LeavesOneCode(bits: seq<int>, longest: nat)
    requires |bits| == 17 && longest <= 16
  {
    && Filled(bits, 16) == Pow2(16) - Pow2(16 - longest)
    && NoneAbove(bits, longest)
  }

  /** Takes the pseudo-symbol out of the longest length in use. */
  method DropPseudo(bits: array<int>) returns (ghost longest: nat)
    requires bits.Length == MAX_CLEN + 1 && Complete(bits[..]) && NoneAbove(bits[..], 16)
    modifies bits
    ensures 1 <= longest <= 16 && LeavesOneCode(bits[..17], longest)
    ensures Bytes(bits[..]) && bits[0] == 0 && NoneAbove(bits[..], 16)
    ensures Sum(bits[..17]) == old(Sum(bits[..])) - 1
    ensures bits[..] == old(bits[..])[longest := old(bits[longest]) - 1]
    ensures old(bits[longest]) > 0 && old(NoneAbove(bits[..], longest))
  {
    hide Filled, Sum, Pow2;
    ghost var b := bits[..];
    FullAtLongest(b, 16, MAX_CLEN);
    Pow2Values();
    var i := 16;
    while bits[i] == 0
      invariant 0 <= i <= 16 && bits[..] == b
      invariant NoneAbove(b, i)
      decreases i
    {
      if i == 0 {
        FilledNothing(b, 16);
        assert false;
      }
      i := i - 1;
    }
    bits[i] := bits[i] - 1;
    longest := i;
    DropSums(b, i, bits[..]);
  }

  lemma DropSums(b: seq<int>, i: nat, b': seq<int>)
    requires Complete(b) && NoneAbove(b, 16) && 1 <= i <= 16 && b' == Plus(b, i, -1)
    requires NoneAbove(b, i)
    ensures Filled(b'[..17], 16) == Pow2(16) - Pow2(16 - i)
    ensures Sum(b'[..17]) == Sum(b) - 1
  {
    hide Filled, Sum, Pow2;
    FullAtLongest(b, 16, MAX_CLEN);
    FilledUpdate(b, i, b[i] - 1, 16);
    FilledPrefix(b', b'[..17], 16);
    assert (b[i] - 1 - b[i]) * Pow2(16 - i) == 0 - Pow2(16 - i);
    SumUpdate(b, i, b[i] - 1);
    assert b' == b'[..17] + b'[17..];
    SumAppend(b'[..17], b'[17..]);
    SumZero(b'[17..]);
  }

  /** Symbols come in order of code size, and in numerical order within a code size. */
  ghost predicate Before(sizes: seq<int>, a: int, b: int)
    requires |sizes| == SYMBOLS && 0 <= a < SYMBOLS && 0 <= b < SYMBOLS
  {
    sizes[a] < sizes[b] || (sizes[a] == sizes[b] && a < b)
  }

  /** The first p entries of huffval list, in order, the coded symbols before (size, symbol). */
  ghost predicate Listed(sizes: seq<int>, huffval: seq<int>, p: nat, size: int, symbol: int)
    requires |sizes| == SYMBOLS
  {
    && |huffval| == 256 && p <= 256
    && (forall k :: 0 <= k < p ==> 0 <= huffval[k] < 256 && 0 < sizes[huffval[k]])
    && (forall k :: 0 <= k < p ==> sizes[huffval[k]] < size || (sizes[huffval[k]] == size && huffval[k] < symbol))
    && (forall j, k :: 0 <= j < k < p ==> Before(sizes, huffval[j], huffval[k]))
    && (forall s :: 0 <= s < 256 && 0 < sizes[s] && (sizes[s] < size || (sizes[s] == size && s < symbol)) ==>
          s in huffval[..p])
  }

  lemma {:induction false} SumAtOnes(w: seq<int>, l: seq<int>)
    requires InRange(l, |w|) && forall k :: 0 <= k < |l| ==> w[l[k]] == 1
    ensures SumAt(w, l) == |l|
  {
    if l != [] {
      SumAtOnes(w, l[1..]);
    }
  }

  /** As many entries are listed as there are coded real symbols; the pseudo-symbol is coded too. */
  lemma ListedCount(sizes: seq<int>, huffval: seq<int>, p: nat, size: int, symbol: int)
    requires |sizes| == SYMBOLS && Listed(sizes, huffval, p, size, symbol) && sizes[PSEUDO] > 0
    ensures p + 1 <= Sum(UsedSymbols(sizes))
    ensures (forall s :: 0 <= s < 256 && 0 < sizes[s] ==> s in huffval[..p]) && SizesNonneg(sizes) ==>
              p + 1 == Sum(UsedSymbols(sizes))
  {
    var l, w := huffval[..p] + [PSEUDO], UsedSymbols(sizes);
    SumAtOnes(w, l);
    SumAtBound(w, l);
    if (forall s :: 0 <= s < 256 && 0 < sizes[s] ==> s in huffval[..p]) && SizesNonneg(sizes) {
      OthersUnused(sizes, huffval[..p]);
      SumAtCover(w, l);
    }
  }

  lemma OthersUnused(sizes: seq<int>, l: seq<int>)
    requires |sizes| == SYMBOLS && SizesNonneg(sizes)
    requires forall s :: 0 <= s < 256 && 0 < sizes[s] ==> s in l
    ensures forall s :: 0 <= s < SYMBOLS && s !in l + [PSEUDO] ==> UsedSymbols(sizes)[s] == 0
  {
    assert (l + [PSEUDO])[|l|] == PSEUDO;
  }

  ghost predicate SizesNonneg(sizes: seq<int>)
  {
    forall s :: 0 <= s < |sizes| ==> sizes[s] >= 0
  }

  lemma ListedStep(sizes: seq<int>, huffval: seq<int>, p: nat, size: int, symbol: int)
    requires |sizes| == SYMBOLS && Listed(sizes, huffval, p, size, symbol) && 0 <= symbol < 256
    ensures sizes[symbol] != size ==> Listed(sizes, huffval, p, size, symbol + 1)
    ensures sizes[symbol] == size > 0 && p < 256 ==> Listed(sizes, huffval[p := symbol], p + 1, size, symbol + 1)
  {
    if sizes[symbol] == size > 0 && p < 256 {
      var h := huffval[p := symbol];
      assert h[..p + 1] == huffval[..p] + [symbol];
    }
  }

  lemma ListedNext(sizes: seq<int>, huffval: seq<int>, p: nat, size: int)
    requires |sizes| == SYMBOLS && Listed(sizes, huffval, p, size, 256)
    ensures Listed(sizes, huffval, p, size + 1, 0)
  {
  }

  /** Lists the symbols in order of their code sizes, leaving out the pseudo-symbol. */
  method ListSymbols(codesize: array<int>, htbl: HuffTable) returns (ghost n: nat)
    requires codesize.Length == SYMBOLS && |htbl.huffval| == 256 && codesize[PSEUDO] > 0
    requires SmallSizes(codesize[..], SYMBOLS) && Sum(UsedSymbols(codesize[..])) <= 255
    requires Bytes(htbl.huffval)
    modifies htbl`huffval
    ensures n + 1 == Sum(UsedSymbols(codesize[..]))
    ensures Listed(codesize[..], htbl.huffval, n, MAX_CLEN + 1, 0) && Bytes(htbl.huffval)
  {
    hide Listed, Sum, UsedSymbols;
    ghost var sizes := codesize[..];
    var p := 0;
    ListedNone(sizes, htbl.huffval);
    for i := 1 to MAX_CLEN + 1
      invariant p <= 256 && |htbl.huffval| == 256 && Bytes(htbl.huffval)
      invariant Listed(sizes, htbl.huffval, p, i, 0)
    {
      for j := 0 to 256
        invariant p <= 256 && |htbl.huffval| == 256 && Bytes(htbl.huffval)
        invariant Listed(sizes, htbl.huffval, p, i, j)
      {
        ListedStep(sizes, htbl.huffval, p, i, j);
        if codesize[j] == i {
          ListedCount(sizes, htbl.huffval, p, i, j);
          htbl.huffval := htbl.huffval[p := j];
          p := p + 1;
        }
      }
      ListedNext(sizes, htbl.huffval, p, i);
    }
    n := p;
    ListedAll(sizes, htbl.huffval, n);
  }

  lemma ListedNone(sizes: seq<int>, huffval: seq<int>)
    requires |sizes| == SYMBOLS && |huffval| == 256
    ensures Listed(sizes, huffval, 0, 1, 0)
  {
  }

  lemma ListedAll(sizes: seq<int>, huffval: seq<int>, n: nat)
    requires |sizes| == SYMBOLS && SmallSizes(sizes, SYMBOLS) && sizes[PSEUDO] > 0
    requires Listed(sizes, huffval, n, MAX_CLEN + 1, 0)
    ensures n + 1 == Sum(UsedSymbols(sizes))
  {
    ListedCount(sizes, huffval, n, MAX_CLEN + 1, 0);
  }

  // ----- Lengths that need no limiting -----

  /** The codes of the table are as long as the sizes say. */
  ghost predicate SizesKept(sizes: seq<int>, bits: seq<int>, huffval: seq<int>)
  {
    && |bits| == 17 && bits[0] == 0 && CanonicalCode.Count(bits, 16) <= |huffval|
    && forall p :: 0 <= p < CanonicalCode.Count(bits, 16) ==>
         0 <= huffval[p] < |sizes| && CanonicalCode.SizeOf(bits, p) == sizes[huffval[p]]
  }

  lemma {:induction false} SplitBetween(x: seq<int>, hi: int)
    requires hi >= 1
    ensures Sum(Between(x, 1, hi)) == Sum(Between(x, 1, hi - 1)) + Sum(Between(x, hi, hi))
  {
    if x != [] {
      assert Between(x, 1, hi)[1..] == Between(x[1..], 1, hi);
      assert Between(x, 1, hi - 1)[1..] == Between(x[1..], 1, hi - 1);
      assert Between(x, hi, hi)[1..] == Between(x[1..], hi, hi);
      SplitBetween(x[1..], hi);
    }
  }

  lemma {:induction false} CountBelow(sizes: seq<int>, bits: seq<int>, l: nat)
    requires |sizes| == SYMBOLS && |bits| == 17 && bits[0] == 0 && Histogram(sizes, bits, 256) && l <= 16
    ensures CanonicalCode.Count(bits, l) == Sum(Between(sizes[..256], 1, l))
  {
    hide Between;
    if l > 0 {
      CountBelow(sizes, bits, l - 1);
      SplitBetween(sizes[..256], l);
    } else {
      NoneBelow(sizes[..256]);
    }
  }

  lemma NoneBelow(x: seq<int>)
    ensures Sum(Between(x, 1, 0)) == 0
  {
    SumZero(Between(x, 1, 0));
  }

  lemma SmallerBefore(sizes: seq<int>, huffval: seq<int>, n: nat, p: nat, s: int)
    requires |sizes| == SYMBOLS && p < n && Listed(sizes, huffval, n, MAX_CLEN + 1, 0) && SmallSizes(sizes, SYMBOLS)
    requires 0 <= s < 256 && 1 <= sizes[s] < sizes[huffval[p]]
    ensures s in huffval[..p]
  {
    assert s in huffval[..n];
    var k :| 0 <= k < n && huffval[k] == s;
    assert k < p;
    assert huffval[..p][k] == s;
  }

  lemma UpToHere(sizes: seq<int>, huffval: seq<int>, n: nat, p: nat)
    requires |sizes| == SYMBOLS && p < n && Listed(sizes, huffval, n, MAX_CLEN + 1, 0)
    ensures InRange(huffval[..p + 1], 256) && Distinct(huffval[..p + 1]) && InRange(huffval[..p], 256) && Distinct(huffval[..p])
    ensures sizes[huffval[p]] >= 1 && forall k :: 0 <= k <= p ==> 1 <= sizes[huffval[k]] <= sizes[huffval[p]]
  {
  }

  /** A listed symbol comes after all symbols of smaller sizes and among those of its size. */
  lemma PlaceInList(sizes: seq<int>, huffval: seq<int>, n: nat, p: nat)
    requires |sizes| == SYMBOLS && p < n && Listed(sizes, huffval, n, MAX_CLEN + 1, 0) && SmallSizes(sizes, SYMBOLS)
    ensures var v := sizes[huffval[p]];
            v >= 1 && Sum(Between(sizes[..256], 1, v - 1)) <= p < Sum(Between(sizes[..256], 1, v))
  {
    ListedAt(sizes, huffval, n, p);
    UpToHere(sizes, huffval, n, p);
    hide Listed;
    var v := sizes[huffval[p]];
    AmongThem(sizes[..256], huffval[..p + 1], v);
    forall s | 0 <= s < 256 && 1 <= sizes[s] <= v - 1
      ensures s in huffval[..p]
    {
      SmallerBefore(sizes, huffval, n, p, s);
    }
    AfterThem(sizes[..256], huffval[..p], v - 1);
  }

  lemma AmongThem(x: seq<int>, l: seq<int>, v: int)
    requires InRange(l, |x|) && Distinct(l) && forall k :: 0 <= k < |l| ==> 1 <= x[l[k]] <= v
    ensures |l| <= Sum(Between(x, 1, v))
  {
    hide Sum, SumAt;
    SumAtOnes(Between(x, 1, v), l);
    SumAtBound(Between(x, 1, v), l);
  }

  lemma AfterThem(x: seq<int>, l: seq<int>, v: int)
    requires InRange(l, |x|) && Distinct(l) && forall s :: 0 <= s < |x| && 1 <= x[s] <= v ==> s in l
    ensures Sum(Between(x, 1, v)) <= |l|
  {
    hide Sum, SumAt;
    SumAtCover(Between(x, 1, v), l);
    SumAtMost(Between(x, 1, v), l);
  }

  lemma {:induction false} SumAtMost(w: seq<int>, l: seq<int>)
    requires InRange(l, |w|) && forall s :: 0 <= s < |w| ==> w[s] <= 1
    ensures SumAt(w, l) <= |l|
  {
    if l != [] {
      SumAtMost(w, l[1..]);
    }
  }

  /** Dropping the pseudo-symbol leaves the real symbols of each size, if its own size is the longest. */
  lemma DroppedIsPseudo(sizes: seq<int>, b: seq<int>, longest: nat)
    requires |sizes| == SYMBOLS && |b| == MAX_CLEN + 1 && Histogram(sizes, b, SYMBOLS) && NoneAbove(b, longest)
    requires 1 <= longest <= 16 && b[longest] > 0 && SmallSizes(sizes, SYMBOLS) && sizes[PSEUDO] > 0
    requires forall s :: 0 <= s < SYMBOLS ==> sizes[s] <= sizes[PSEUDO]
    ensures sizes[PSEUDO] == longest
    ensures Histogram(sizes, b[longest := b[longest] - 1][..17], 256)
  {
    hide Having;
    forall k
      ensures Having(sizes, SYMBOLS, k) == Having(sizes, 256, k) + if sizes[256] == k then 1 else 0
    {
      HavingStep(sizes, 256, k);
    }
    forall k
      ensures Having(sizes, 256, k) >= 0 && (k > sizes[PSEUDO] ==> Having(sizes, SYMBOLS, k) == 0)
    {
      HavingBounds(sizes, k);
    }
    assert b[sizes[PSEUDO]] == Having(sizes, SYMBOLS, sizes[PSEUDO]);
  }

  lemma HavingBounds(sizes: seq<int>, k: int)
    requires |sizes| == SYMBOLS
    ensures Having(sizes, 256, k) >= 0
    ensures (forall s :: 0 <= s < SYMBOLS ==> sizes[s] < k) ==> Having(sizes, SYMBOLS, k) == 0
  {
    SumNonneg(Between(sizes[..256], k, k));
    if forall s :: 0 <= s < SYMBOLS ==> sizes[s] < k {
      SumZero(Between(sizes[..SYMBOLS], k, k));
    }
  }

  /** If no size needed limiting, the table's codes are as long as the sizes say. */
  lemma LengthsAreSizes(sizes: seq<int>, bits: seq<int>, huffval: seq<int>, n: nat)
    requires |sizes| == SYMBOLS && |bits| == 17 && Bytes(bits) && bits[0] == 0 && Histogram(sizes, bits, 256)
    requires Listed(sizes, huffval, n, MAX_CLEN + 1, 0) && SmallSizes(sizes, SYMBOLS) && n == Sum(bits)
    requires forall s :: 0 <= s < SYMBOLS ==> sizes[s] <= 16
    ensures SizesKept(sizes, bits, huffval)
  {
    hide Sum, Histogram, Between, Listed, CanonicalCode.Count, CanonicalCode.SizeOf;
    CanonicalCode.CountIsSum(bits, 16);
    assert bits[..17] == bits;
    ListedAt(sizes, huffval, n, 0);
    forall p | 0 <= p < n
      ensures 0 <= huffval[p] < |sizes| && CanonicalCode.SizeOf(bits, p) == sizes[huffval[p]]
    {
      ListedAt(sizes, huffval, n, p);
      PlaceInList(sizes, huffval, n, p);
      var v := sizes[huffval[p]];
      CountBelow(sizes, bits, v - 1);
      CountBelow(sizes, bits, v);
      CanonicalCode.SizeUnique(bits, p, v);
    }
  }

  lemma ListedAt(sizes: seq<int>, huffval: seq<int>, n: nat, p: nat)
    requires |sizes| == SYMBOLS && Listed(sizes, huffval, n, MAX_CLEN + 1, 0)
    ensures n <= 256 == |huffval| && (p < n ==> 0 <= huffval[p] < 256)
  {
  }

  /** How many symbols have each code size. */
  ghost function SizeCounts(sizes: seq<int>): (h: seq<int>)
    ensures |h| == MAX_CLEN + 1
  {
    seq(MAX_CLEN + 1, k => if k == 0 then 0 else Having(sizes, |sizes|, k))
  }

  /**
   With the pseudo-symbol back at the greatest length, the lengths are a complete code with as many
   codes as there are sizes, whose code space has been taken from the longest of the short sizes first.
   */
  ghost predicate LimitedFrom(sizes: seq<int>, bits: seq<int>, longest: nat)
  {
    && |bits| == 17 && 1 <= longest <= 16 && NoneAbove(bits, longest) && bits[longest] >= 0
    && var b := Plus(bits, longest, 1);
       Full(b) && Sum(b) == Sum(UsedSymbols(sizes)) && DeepestFirst(SizeCounts(sizes), b)
  }

  /** The sizes allow only one such table. */
  lemma OnlyTable(sizes: seq<int>, bits: seq<int>, longest: nat, bits': seq<int>, longest': nat)
    requires LimitedFrom(sizes, bits, longest) && LimitedFrom(sizes, bits', longest')
    ensures bits == bits' && longest == longest'
  {
    hide DeepestFirst, Sum, Full;
    var b, b' := Plus(bits, longest, 1), Plus(bits', longest', 1);
    OnlyOne(SizeCounts(sizes), b, b');
    assert b[longest] == bits[longest] + 1 && b'[longest'] == bits'[longest'] + 1;
    assert forall k :: 0 <= k < 17 && k != longest ==> bits[k] == b[k];
    assert forall k :: 0 <= k < 17 && k != longest' ==> bits'[k] == b'[k];
  }

  /** The limited lengths with the pseudo-symbol taken out. */
  lemma LimitedIs(sizes: seq<int>, h: seq<int>, b: seq<int>, longest: nat)
    requires |sizes| == SYMBOLS && |h| == MAX_CLEN + 1 && h[0] == 0 && Histogram(sizes, h, SYMBOLS)
    requires Complete(b) && NoneAbove(b, 16) && Sum(b) == Sum(UsedSymbols(sizes)) && DeepestFirst(h, b)
    requires 1 <= longest <= 16 && b[longest] > 0 && NoneAbove(b, longest)
    ensures LimitedFrom(sizes, b[longest := b[longest] - 1][..17], longest)
  {
    hide Sum, Filled, Having, Pow2, UsedSymbols;
    var c := b[longest := b[longest] - 1][..17];
    assert SizeCounts(sizes) == h;
    assert Plus(c, longest, 1) == b[..17];
    assert b == b[..17] + b[17..];
    SumAppend(b[..17], b[17..]);
    SumZero(b[17..]);
    FullAtLongest(b, 16, MAX_CLEN);
    forall l | 1 <= l <= 16
      ensures Filled(b[..17], l) == Filled(b, l)
    {
      FilledPrefix(b[..17], b, l);
    }
  }

  // ----- The whole procedure -----

  /** The counts with the pseudo-symbol's forced count. */
  ghost function WithPseudo(freq: seq<int>): seq<int>
    requires |freq| == SYMBOLS
  {
    freq[PSEUDO := 1]
  }

  ghost predicate Countable(freq: seq<int>)
  {
    && |freq| == SYMBOLS && (forall s :: 0 <= s < SYMBOLS ==> freq[s] >= 0)
    && Sum(freq[..256]) <= SEARCH_LIMIT
    && 1 <= Sum(UsedSymbols(freq[..256])) <= MAX_COUNTED
  }

  /**
   What the sizes are from which the table is made: the leaf depths of a code tree over the
   counted symbols that no other code tree over those counts undercuts.
   */
  ghost predicate OptimalSizes(counts: seq<int>, sizes: seq<int>, t: Tree)
  {
    && CodeTree(counts, sizes, t)
    && Dot(sizes, counts) == HuffmanCost(Live(counts))
  }

  lemma SplitPseudo(freq: seq<int>)
    requires Countable(freq)
    ensures var c := WithPseudo(freq);
            && Sum(c) == Sum(freq[..256]) + 1
            && Sum(UsedSymbols(c)) == Sum(UsedSymbols(freq[..256])) + 1
  {
    var c := WithPseudo(freq);
    assert c == freq[..256] + [1];
    SumAppend(freq[..256], [1]);
    assert UsedSymbols(c) == UsedSymbols(freq[..256]) + [1];
    SumAppend(UsedSymbols(freq[..256]), [1]);
    assert [1][1..] == [];
  }

  /** A tree over two or more symbols: every coded symbol has a positive size. */
  lemma SizesOfTree(counts: seq<int>, sizes: seq<int>, t: Tree)
    requires |counts| == |sizes| == SYMBOLS && CodeTree(counts, sizes, t) && counts[PSEUDO] > 0
    requires forall s :: 0 <= s < SYMBOLS ==> counts[s] >= 0
    requires Sum(UsedSymbols(counts)) >= 2
    ensures t.Node?
    ensures forall s :: 0 <= s < SYMBOLS ==> sizes[s] >= 0 && (sizes[s] > 0 <==> counts[s] > 0)
    ensures UsedSymbols(sizes) == UsedSymbols(counts)
  {
    var l := Leaves(t);
    if t.Leaf? {
      var w := UsedSymbols(counts);
      SumAtCover(w, l);
    }
    DepthsBound(t, 0);
    forall s | 0 <= s < SYMBOLS
      ensures sizes[s] >= 0 && (sizes[s] > 0 <==> counts[s] > 0)
    {
      if s in l {
        var k :| 0 <= k < |l| && l[k] == s;
        assert sizes[l[k]] == Depths(t, 0)[k];
      }
    }
  }

  lemma {:induction false} SharesOfLeaves(sizes: seq<int>, l: seq<int>, ds: seq<nat>)
    requires SizesAre(sizes, l, ds) && forall k :: 0 <= k < |ds| ==> ds[k] > 0
    ensures SumAt(Shares(sizes), l) == Kraft(MAX_CLEN, ds)
  {
    if l != [] {
      assert sizes[l[0]] == ds[0];
      SharesOfLeaves(sizes, l[1..], ds[1..]);
    }
  }

  /** The sizes of a code tree no deeper than 32 fill the code space. */
  lemma TreeFills(counts: seq<int>, sizes: seq<int>, t: Tree)
    requires |counts| == |sizes| == SYMBOLS && CodeTree(counts, sizes, t) && t.Node?
    requires SmallSizes(sizes, SYMBOLS)
    requires forall s :: 0 <= s < SYMBOLS ==> (sizes[s] > 0 <==> counts[s] > 0)
    ensures Sum(Shares(sizes)) == Pow2(MAX_CLEN)
  {
    var l, w := Leaves(t), Shares(sizes);
    HeightIsASize(sizes, t);
    TreeKraft(t, 0, MAX_CLEN);
    DepthsBound(t, 0);
    SharesOfLeaves(sizes, l, Depths(t, 0));
    SumAtCover(w, l);
  }

  lemma HeightIsASize(sizes: seq<int>, t: Tree)
    requires SizesAre(sizes, Leaves(t), Depths(t, 0))
    ensures exists s :: 0 <= s < |sizes| && sizes[s] == Height(t)
    ensures forall s :: s in Leaves(t) ==> 0 <= s < |sizes| && sizes[s] <= Height(t)
  {
    DepthsBound(t, 0);
    var k :| 0 <= k < |Depths(t, 0)| && Depths(t, 0)[k] == Height(t);
    assert sizes[Leaves(t)[k]] == Height(t);
  }

  /**
   The depth bound: a code longer than 32 bits takes counts of at least the 35th Fibonacci
   number in all.
   */
  lemma DepthBound(counts: seq<int>, sizes: seq<int>, t: Tree)
    requires |counts| == |sizes| == SYMBOLS && CodeTree(counts, sizes, t) && FibWeight(t, counts)
    requires forall s :: 0 <= s < SYMBOLS ==> counts[s] >= 0
    requires Sum(counts) < FIB_35
    ensures forall s :: 0 <= s < SYMBOLS ==> sizes[s] <= MAX_CLEN
  {
    hide FibWeight, Fib;
    HeightIsASize(sizes, t);
    WeightIsSum(t, counts);
    SumAtCover(counts, Leaves(t));
    if Height(t) > MAX_CLEN {
      Fib35();
      FibMono(35, Height(t) + 2);
      FibWeightBound(t, counts);
    }
  }

  lemma FibWeightBound(t: Tree, counts: seq<int>)
    requires FibWeight(t, counts)
    ensures Weight(t, counts) >= Fib(Height(t) + 2)
  {
  }

  /** What the collected list says about the finished table. */
  lemma TableIsLegal(freq: seq<int>, sizes: seq<int>, bits: seq<int>, huffval: seq<int>, n: nat, longest: nat)
    requires Countable(freq) && |sizes| == SYMBOLS && Bytes(huffval)
    requires forall s :: 0 <= s < SYMBOLS ==> (sizes[s] > 0 <==> WithPseudo(freq)[s] > 0)
    requires SmallSizes(sizes, SYMBOLS) && Listed(sizes, huffval, n, MAX_CLEN + 1, 0)
    requires n == Sum(bits) <= MAX_COUNTED
    requires |bits| == 17 && Bytes(bits) && bits[0] == 0 && 1 <= longest <= 16 && LeavesOneCode(bits, longest)
    ensures LegalFor(freq[..256], bits, huffval)
    ensures SortedBySize(sizes, huffval, n)
  {
    hide Sum, LeavesOneCode;
    var l := huffval[..n];
    forall s | 0 <= s < 256
      ensures freq[..256][s] > 0 <==> s in l
    {
      assert WithPseudo(freq)[s] == freq[s];
    }
  }

  ghost predicate SortedBySize(sizes: seq<int>, huffval: seq<int>, n: nat)
  {
    && |sizes| == SYMBOLS && n <= |huffval| && InRange(huffval[..n], 256)
    && forall j, k :: 0 <= j < k < n ==> Before(sizes, huffval[j], huffval[k])
  }

  lemma HistogramIsComplete(counts: seq<int>, sizes: seq<int>, t: Tree, bits: seq<int>)
    requires |counts| == |sizes| == SYMBOLS && CodeTree(counts, sizes, t) && t.Node?
    requires SmallSizes(sizes, SYMBOLS) && Counted(sizes, bits, SYMBOLS)
    requires forall s :: 0 <= s < SYMBOLS ==> (sizes[s] > 0 <==> counts[s] > 0)
    requires Sum(UsedSymbols(sizes)) <= 255
    ensures Complete(bits) && Sum(bits) == Sum(UsedSymbols(sizes))
  {
    TreeFills(counts, sizes, t);
    assert Shares(sizes)[..SYMBOLS] == Shares(sizes) && UsedSymbols(sizes)[..SYMBOLS] == UsedSymbols(sizes);
  }

  /** Clears the work arrays and runs the merge loop on the counts with the pseudo-symbol added. */
  method CodeSizes(freq: array<int>, codesize: array<int>) returns (ghost t: Tree)
    requires freq.Length == codesize.Length == SYMBOLS && freq != codesize
    requires Countable(freq[..])
    requires forall s :: 0 <= s < SYMBOLS ==> codesize[s] == 0
    modifies freq, codesize
    ensures var counts := WithPseudo(old(freq[..]));
            && OptimalSizes(counts, codesize[..], t) && FibWeight(t, counts) && t.Node?
            && (forall s :: 0 <= s < SYMBOLS ==> codesize[s] >= 0 && (codesize[s] > 0 <==> counts[s] > 0))
            && 2 <= Sum(UsedSymbols(codesize[..])) <= 255
            && (forall s :: 0 <= s < SYMBOLS ==> codesize[s] <= codesize[PSEUDO])
  {
    hide Sum, HuffmanCost, Live, CodeTree, FibWeight, Dot;
    ghost var counts := WithPseudo(freq[..]);
    SplitPseudo(freq[..]);
    var others := new int[SYMBOLS](_ => -1);
    freq[PSEUDO] := 1;
    assert freq[..] == counts;
    t := MergeAll(freq, others, codesize);
    SizesOfTree(counts, codesize[..], t);
  }

  /**
   jpeg_gen_optimal_table. It reports failure only when some code came out longer than 32 bits,
   and that takes counts of at least Fibonacci number 35 in all.
   */
  method GenOptimalTable(htbl: HuffTable, freq: array<int>)
      returns (ok: bool, ghost sizes: seq<int>, ghost t: Tree)
    requires freq.Length == SYMBOLS && Countable(freq[..])
    requires |htbl.huffval| == 256 && Bytes(htbl.huffval)
    modifies htbl, freq
    ensures OptimalSizes(WithPseudo(old(freq[..])), sizes, t)
    ensures ok <==> forall s :: 0 <= s < |sizes| ==> sizes[s] <= 32
    ensures old(Sum(freq[..256])) + 1 < 9227465 ==> ok
    ensures ok ==> LegalFor(old(freq[..256]), htbl.bits, htbl.huffval)
    ensures ok ==> exists longest :: LimitedFrom(sizes, htbl.bits, longest)
    ensures ok ==> SortedBySize(sizes, htbl.huffval, Sum(htbl.bits)) && !htbl.sentTable
    ensures ok ==> forall j, k :: 0 <= j < k < Sum(htbl.bits) ==>
              var a, b := htbl.huffval[j], htbl.huffval[k]; sizes[a] < sizes[b] || (sizes[a] == sizes[b] && a < b)
    ensures (forall s :: 0 <= s < |sizes| ==> sizes[s] <= 16) ==> ok && SizesKept(sizes, htbl.bits, htbl.huffval)
    ensures !ok ==> unchanged(htbl)
  {
    hide Sum, Fib, FibWeight, HuffmanCost, Live, CodeTree, Dot, Complete, Listed, LeavesOneCode, Counted, Histogram, SizesKept, DeepestFirst, LimitedFrom;
    ghost var freq0 := freq[..];
    ghost var counts := WithPseudo(freq0);
    var codesize := new int[SYMBOLS](_ => 0);
    var bits := new int[MAX_CLEN + 1](_ => 0);
    t := CodeSizes(freq, codesize);
    sizes := codesize[..];
    BoundedDepth(freq0, sizes, t);
    ok := CountLengths(codesize, bits);
    if !ok {
      return;
    }
    HistogramIsComplete(counts, sizes, t, bits[..]);
    ghost var b := bits[..];
    LimitLengths(bits);
    ghost var limited := bits[..];
    ghost var longest := DropPseudo(bits);
    LimitedIs(sizes, b, limited, longest);
    htbl.bits := bits[..17];
    ghost var n := ListSymbols(codesize, htbl);
    htbl.sentTable := false;
    TableIsLegal(freq0, sizes, htbl.bits, htbl.huffval, n, longest);
    if forall s :: 0 <= s < |sizes| ==> sizes[s] <= 16 {
      ShortSizes(sizes, b);
      DroppedIsPseudo(sizes, b, longest);
      LengthsAreSizes(sizes, htbl.bits, htbl.huffval, n);
    }
  }

  lemma ShortSizes(sizes: seq<int>, b: seq<int>)
    requires |sizes| == SYMBOLS && |b| == MAX_CLEN + 1 && Histogram(sizes, b, SYMBOLS)
    requires forall s :: 0 <= s < |sizes| ==> sizes[s] <= 16
    ensures NoneAbove(b, 16)
  {
    hide Having;
    forall k | 16 < k <= MAX_CLEN
      ensures b[k] == 0
    {
      HavingBounds(sizes, k);
    }
  }

  lemma BoundedDepth(freq: seq<int>, sizes: seq<int>, t: Tree)
    requires Countable(freq) && OptimalSizes(WithPseudo(freq), sizes, t) && FibWeight(t, WithPseudo(freq))
    ensures Sum(freq[..256]) + 1 < FIB_35 ==> forall s :: 0 <= s < |sizes| ==> sizes[s] <= MAX_CLEN
  {
    hide Sum, Fib, FibWeight, HuffmanCost, Live, Dot;
    SplitPseudo(freq);
    if Sum(freq[..256]) + 1 < FIB_35 {
      DepthBound(WithPseudo(freq), sizes, t);
    }
  }

  /** What OptimalSizes promises: no code tree at all makes the counted data shorter. */
  lemma SizesAreOptimal(counts: seq<int>, sizes: seq<int>, t: Tree, other: Tree, weights: seq<int>)
    requires |counts| == SYMBOLS && OptimalSizes(counts, sizes, t)
    requires |weights| == |Leaves(other)| && multiset(weights) == Live(counts)
    ensures Dot(sizes, counts) <= Dot(Depths(other, 0), weights)
  {
    HuffmanIsOptimal(other, weights);
  }
}
