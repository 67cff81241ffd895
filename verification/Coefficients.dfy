/** Coefficient values as they are coded: size category, appended bits and sign extension. */
module Coefficients {
  import opened Arith
  import opened BitString
  import opened BitWriter

  /** jpeg_natural_order (jpeg/jutils.c), eight entries to a row; what follows them is all 63. */
  function NaturalRow(r: int): (s: seq<int>)
    requires 0 <= r < 8
    ensures |s| == 8 && forall j :: 0 <= j < 8 ==> 0 <= s[j] < 64
  {
    match r
    case 0 => [0, 1, 8, 16, 9, 2, 3, 10]
    case 1 => [17, 24, 32, 25, 18, 11, 4, 5]
    case 2 => [12, 19, 26, 33, 40, 48, 41, 34]
    case 3 => [27, 20, 13, 6, 7, 14, 21, 28]
    case 4 => [35, 42, 49, 56, 57, 50, 43, 36]
    case 5 => [29, 22, 15, 23, 30, 37, 44, 51]
    case 6 => [58, 59, 52, 45, 38, 31, 39, 46]
    case _ => [53, 60, 61, 54, 47, 55, 62, 63]
  }

  /** jpeg_zigzag_order (jpeg/jutils.c), its inverse. */
  function ZigzagRow(r: int): (s: seq<int>)
    requires 0 <= r < 8
    ensures |s| == 8 && forall j :: 0 <= j < 8 ==> 0 <= s[j] < 64
  {
    match r
    case 0 => [0, 1, 5, 6, 14, 15, 27, 28]
    case 1 => [2, 4, 7, 13, 16, 26, 29, 42]
    case 2 => [3, 8, 12, 17, 25, 30, 41, 43]
    case 3 => [9, 11, 18, 24, 31, 40, 44, 53]
    case 4 => [10, 19, 23, 32, 39, 45, 52, 54]
    case 5 => [20, 22, 33, 38, 46, 51, 55, 60]
    case 6 => [21, 34, 37, 47, 50, 56, 59, 61]
    case _ => [35, 36, 48, 49, 57, 58, 62, 63]
  }

  /** The position in a block of the k-th coefficient of the zigzag order; overlong runs end up at 63. */
  function Natural(k: int): (i: int)
    requires 0 <= k < 80
    ensures 0 <= i < 64
  {
    if k < 64 then NaturalRow(k / 8)[k % 8] else 63
  }

  function Zigzag(i: int): (k: int)
    requires 0 <= i < 64
    ensures 0 <= k < 64
  {
    ZigzagRow(i / 8)[i % 8]
  }

  /**
   What follows position i on the zigzag path: it runs along the diagonals, upwards on even ones and
   downwards on odd ones, and turns at the edges of the block.
   */
  function AlongThePath(i: int): int
  {
    var row, column := i / 8, i % 8;
    if (row + column) % 2 == 0 then
      if column == 7 then i + 8 else if row == 0 then i + 1 else i - 7
    else
      if row == 7 then i + 1 else if column == 0 then i + 8 else i + 7
  }

  lemma PathUpper(r: int, j: int)
    requires 0 <= r < 4 && 0 <= j < 7
    ensures NaturalRow(r)[j + 1] == AlongThePath(NaturalRow(r)[j])
  {
    if j == 0 {} else if j == 1 {} else if j == 2 {} else if j == 3 {} else if j == 4 {} else if j == 5 {} else {}
  }

  lemma PathLower(r: int, j: int)
    requires 4 <= r < 8 && 0 <= j < 7
    ensures NaturalRow(r)[j + 1] == AlongThePath(NaturalRow(r)[j])
  {
    if j == 0 {} else if j == 1 {} else if j == 2 {} else if j == 3 {} else if j == 4 {} else if j == 5 {} else {}
  }

  lemma PathToNextRow(r: int)
    requires 0 <= r < 7
    ensures NaturalRow(r + 1)[0] == AlongThePath(NaturalRow(r)[7])
  {
  }

  /** The order starts at the upper left corner and follows the path. */
  lemma ZigzagPath(k: int)
    requires 0 <= k < 63
    ensures Natural(0) == 0
    ensures var i, next := Natural(k), Natural(k + 1);
            var row, column := i / 8, i % 8;
            if (row + column) % 2 == 0 then
              next == (if column == 7 then i + 8 else if row == 0 then i + 1 else i - 7)
            else
              next == (if row == 7 then i + 1 else if column == 0 then i + 8 else i + 7)
  {
    hide NaturalRow;
    var r, j := k / 8, k % 8;
    StartsAtTheCorner();
    if j == 7 {
      PathToNextRow(r);
    } else if r < 4 {
      PathUpper(r, j);
    } else {
      PathLower(r, j);
    }
  }

  lemma StartsAtTheCorner()
    ensures NaturalRow(0)[0] == 0
  {
  }

  /** Past its end the order stays at the last coefficient. */
  lemma PastTheEnd(k: int)
    requires 63 <= k < 80
    ensures Natural(k) == 63
  {
    if k == 63 {
      assert NaturalRow(7)[7] == 63;
    }
  }

  lemma NaturalInverseUpper(r: int, j: int)
    requires 0 <= r < 4 && 0 <= j < 8
    ensures var i := NaturalRow(r)[j]; ZigzagRow(i / 8)[i % 8] == 8 * r + j
  {
    if j == 0 {} else if j == 1 {} else if j == 2 {} else if j == 3 {} else if j == 4 {} else if j == 5 {}
    else if j == 6 {} else {}
  }

  lemma NaturalInverseLower(r: int, j: int)
    requires 4 <= r < 8 && 0 <= j < 8
    ensures var i := NaturalRow(r)[j]; ZigzagRow(i / 8)[i % 8] == 8 * r + j
  {
    if j == 0 {} else if j == 1 {} else if j == 2 {} else if j == 3 {} else if j == 4 {} else if j == 5 {}
    else if j == 6 {} else {}
  }

  lemma ZigzagInverseUpper(r: int, j: int)
    requires 0 <= r < 4 && 0 <= j < 8
    ensures var i := ZigzagRow(r)[j]; NaturalRow(i / 8)[i % 8] == 8 * r + j
  {
    if j == 0 {} else if j == 1 {} else if j == 2 {} else if j == 3 {} else if j == 4 {} else if j == 5 {}
    else if j == 6 {} else {}
  }

  lemma ZigzagInverseLower(r: int, j: int)
    requires 4 <= r < 8 && 0 <= j < 8
    ensures var i := ZigzagRow(r)[j]; NaturalRow(i / 8)[i % 8] == 8 * r + j
  {
    if j == 0 {} else if j == 1 {} else if j == 2 {} else if j == 3 {} else if j == 4 {} else if j == 5 {}
    else if j == 6 {} else {}
  }

  lemma OrdersInverse(k: int)
    requires 0 <= k < 64
    ensures Zigzag(Natural(k)) == k && Natural(Zigzag(k)) == k
  {
    if k < 32 {
      NaturalInverseUpper(k / 8, k % 8);
      ZigzagInverseUpper(k / 8, k % 8);
    } else {
      NaturalInverseLower(k / 8, k % 8);
      ZigzagInverseLower(k / 8, k % 8);
    }
  }

  // ----- Size categories -----

  function Abs(v: int): nat
  {
    if v < 0 then -v else v
  }

  /** The number of bits of a magnitude. */
  function Category(v: nat): nat
  {
    if v == 0 then 0 else 1 + Category(v / 2)
  }

  /** The number of bits of a magnitude, found by shifting. */
  method CountBits(v: nat) returns (nbits: nat)
    ensures nbits == Category(v)
  {
    var temp := v;
    nbits := 0;
    while temp != 0
      invariant nbits + Category(temp) == Category(v)
    {
      nbits := nbits + 1;
      temp := temp / 2;
    }
  }

  lemma {:induction false} CategoryBounds(v: nat)
    ensures v < Pow2(Category(v))
    ensures v > 0 ==> Category(v) >= 1 && Pow2(Category(v) - 1) <= v
  {
    if v > 0 {
      CategoryBounds(v / 2);
    }
  }

  lemma CategoryAtMost(v: nat, n: nat)
    requires v < Pow2(n)
    ensures Category(v) <= n
  {
    CategoryBounds(v);
    if v > 0 && Category(v) > n {
      Pow2Mono(n, Category(v) - 1);
    }
  }

  /** A magnitude has at most n bits exactly if it is less than 2^n. */
  lemma CategoryLimit(v: nat, n: nat)
    ensures Category(v) <= n <==> v < Pow2(n)
  {
    CategoryBounds(v);
    if v < Pow2(n) {
      CategoryAtMost(v, n);
    } else if Category(v) <= n {
      Pow2Mono(Category(v), n);
    }
  }

  /** What is appended: the value itself if positive, the complement of its magnitude if negative. */
  function Appended(v: int): int
  {
    if v < 0 then v - 1 else v
  }

  /** HUFF_EXTEND, figure F.12: the value of size s whose appended bits spell x. */
  function Extend(x: int, s: nat): int
    requires s >= 1
  {
    if x < Pow2(s - 1) then x - Pow2(s) + 1 else x
  }

  lemma ExtendInverts(v: int)
    requires v != 0
    ensures var n := Category(Abs(v));
            n >= 1 && Value(Low(Appended(v), n)) == Appended(v) % Pow2(n) && Extend(Appended(v) % Pow2(n), n) == v
  {
    hide Word, Value;
    var n := Category(Abs(v));
    CategoryBounds(Abs(v));
    ModPositive(Appended(v), Pow2(n));
    ValueOfWord(Appended(v) % Pow2(n), n);
    if v > 0 {
      QuotientIs(v, Pow2(n), 0, v);
    } else {
      ModNegative(v - 1, Pow2(n));
    }
  }

  /** The appended bits spell a positive value itself, and of a negative one of n bits the value less one modulo 2^n. */
  lemma AppendedBits(v: int)
    requires v != 0
    ensures Value(Low(Appended(v), Category(Abs(v)))) == if v > 0 then v else v + Pow2(Category(Abs(v))) - 1
  {
    hide Word, Value;
    var n := Category(Abs(v));
    CategoryBounds(Abs(v));
    ExtendInverts(v);
    if v > 0 {
      QuotientIs(v, Pow2(n), 0, v);
    } else {
      ModNegative(v - 1, Pow2(n));
    }
  }

  lemma ModPositive(x: int, p: nat)
    requires p >= 1
    ensures 0 <= x % p < p
  {
  }

  lemma ModNegative(x: int, p: nat)
    requires p >= 1 && 0 - p <= x < 0
    ensures x % p == x + p
  {
  }
}
