/**
 What limiting code lengths to 16 bits (ITU-T T.81, section K.2) makes of the numbers of codes of
 each length, told by the result alone: code space is taken from the longest of the short codes
 first, and there is only one such result with as many codes as before.
 */
module LengthLimiting {
  import opened Arith
  import opened CodeSpace

  /**
   The codes of length l and less have kept their code space; or else they have lost some, and then
   the codes of l + 1 to 15 bits together take no more code space than a single code of l bits.
   */
  ghost predicate DeepestFirst(h: seq<int>, b: seq<int>)
    requires |h| > 15 && |b| > 15
  {
    forall l :: 1 <= l <= 15 ==>
      || Filled(b, l) == Filled(h, l)
      || (Filled(b, l) < Filled(h, l) && Filled(b, 15) <= (Filled(b, l) + 1) * Pow2(15 - l))
  }

  /** Two codes of length i give way to one of length i - 1, and one of length j to two of length j + 1. */
  ghost predicate Moved(b: seq<int>, b': seq<int>, i: nat, j: nat)
  {
    && |b| == |b'| && 1 <= j <= i - 2 && i < |b|
    && forall k :: 0 <= k < |b| ==>
         b'[k] == b[k] + (if k == j + 1 then 2 else 0) - (if k == j then 1 else 0) + (if k == i - 1 then 1 else 0) - (if k == i then 2 else 0)
  }

  lemma {:induction false} MovedFilled(b: seq<int>, b': seq<int>, i: nat, j: nat, l: nat)
    requires Moved(b, b', i, j) && l < i - 1
    ensures Filled(b', l) == Filled(b, l) - if l == j then 1 else 0
  {
    if l > 0 {
      MovedFilled(b, b', i, j, l - 1);
    }
  }

  /** Splitting a longest possible code keeps to the rule. */
  lemma KeepsTheRule(h: seq<int>, b: seq<int>, b': seq<int>, i: nat, j: nat)
    requires |h| > 15 && |b| > 16 && 16 < i && DeepestFirst(h, b) && Moved(b, b', i, j)
    requires forall k :: j < k <= i - 2 ==> b[k] == 0
    ensures DeepestFirst(h, b')
  {
    hide Filled, Pow2;
    MovedFilled(b, b', i, j, 15);
    forall l | 1 <= l <= 15
      ensures || Filled(b', l) == Filled(h, l)
              || (Filled(b', l) < Filled(h, l) && Filled(b', 15) <= (Filled(b', l) + 1) * Pow2(15 - l))
    {
      MovedFilled(b, b', i, j, l);
      if l == j {
        FilledGrows(b, l, 15);
      }
    }
  }

  // ----- There is only one such result -----

  /** A complete code of at most 16 bits. */
  ghost predicate Full(b: seq<int>)
  {
    |b| == 17 && b[0] == 0 && (forall k :: 0 <= k < |b| ==> b[k] >= 0) && Filled(b, 16) == Pow2(16)
  }

  ghost function Spaces(b: seq<int>, l: nat): int
    requires l < |b|
  {
    if l == 0 then 0 else Spaces(b, l - 1) + Filled(b, l)
  }

  /** The number of codes follows from the code space of each length. */
  lemma {:induction false} CodesAre(b: seq<int>, l: nat)
    requires l < |b| && b[0] == 0
    ensures Sum(b[..l + 1]) + Spaces(b, l) == 2 * Filled(b, l)
  {
    if l > 0 {
      CodesAre(b, l - 1);
      assert b[..l + 1] == b[..l] + [b[l]];
      SumAppend(b[..l], [b[l]]);
      assert [b[l]][1..] == [];
    } else {
      assert b[..1] == [0] && [0][1..] == [];
    }
  }

  lemma {:induction false} SpacesMono(b: seq<int>, c: seq<int>, n: nat)
    requires n < |b| && n < |c| && forall l :: 1 <= l <= n ==> Filled(b, l) <= Filled(c, l)
    ensures Spaces(b, n) <= Spaces(c, n)
    ensures Spaces(b, n) == Spaces(c, n) ==> forall l :: 1 <= l <= n ==> Filled(b, l) == Filled(c, l)
  {
    if n > 0 {
      SpacesMono(b, c, n - 1);
    }
  }

  lemma SpaceLeft(b: seq<int>, l: nat, m: nat)
    requires |b| == 17 && l <= m <= 16 && forall k :: 0 <= k < |b| ==> b[k] >= 0
    ensures Filled(b, l) * Pow2(m - l) <= Filled(b, m)
  {
    FilledGrows(b, l, m);
  }

  /** With as much code space for short codes, c is ahead of b from the first place where it is so. */
  lemma AheadAfter(h: seq<int>, b: seq<int>, c: seq<int>, l: nat, k: nat)
    requires |h| > 15 && Full(b) && Full(c) && DeepestFirst(h, b) && DeepestFirst(h, c) && Filled(b, 15) == Filled(c, 15)
    requires 1 <= l <= k <= 15 && Filled(b, l) < Filled(c, l)
    ensures Filled(b, k) <= Filled(c, k)
  {
    hide Filled, Pow2, Sum;
    SpaceLeft(b, k, 15);
    SpaceLeft(c, l, k);
    Pow2Add(k - l, 15 - k);
    assert Filled(b, 15) <= (Filled(b, l) + 1) * Pow2(15 - l);
    StaysAhead(Filled(b, l), Filled(c, l), Filled(b, k), Filled(c, k), Filled(b, 15), Pow2(k - l), Pow2(15 - k));
  }

  lemma StaysAhead(x: int, y: int, u: int, v: int, all: int, q: nat, p: nat)
    requires p >= 1 && x < y && u * p <= all <= (x + 1) * (q * p) && y * q <= v
    ensures u <= v
  {
    ScaleMono(q * p, x + 1, y);
    assert y * (q * p) == (y * q) * p;
    ScaleMono(p, y * q, v);
    if u > v {
      ScaleMono(p, v + 1, u);
    }
  }

  /** The codes of each length and less take no more code space in b than in c. */
  ghost predicate Behind(b: seq<int>, c: seq<int>)
    requires |b| > 15 && |c| > 15
  {
    forall l :: 1 <= l <= 15 ==> Filled(b, l) <= Filled(c, l)
  }

  /** Of two results that keep to the rule, one has at least as much code space at every length. */
  lemma OneIsAhead(h: seq<int>, b: seq<int>, c: seq<int>)
    requires |h| > 15 && Full(b) && Full(c) && DeepestFirst(h, b) && DeepestFirst(h, c) && Filled(b, 15) <= Filled(c, 15)
    ensures Behind(b, c) || Behind(c, b)
  {
    hide Filled, Pow2;
    if Filled(b, 15) < Filled(c, 15) {
      forall l | 1 <= l <= 15
        ensures Filled(b, l) <= Filled(c, l)
      {
        SpaceLeft(b, l, 15);
        if Filled(b, l) > Filled(c, l) {
          ScaleMono(Pow2(15 - l), Filled(c, l) + 1, Filled(b, l));
        }
      }
    } else if l :| 1 <= l <= 15 && Filled(b, l) < Filled(c, l) {
      forall k | 1 <= k <= 15
        ensures Filled(b, k) <= Filled(c, k)
      {
        if k >= l {
          AheadAfter(h, b, c, l, k);
        } else if Filled(c, k) < Filled(b, k) {
          AheadAfter(h, c, b, k, l);
        }
      }
    }
  }

  lemma LengthOf(b: seq<int>, k: nat)
    requires k < |b|
    ensures b[k] == Filled(b, k) - if k == 0 then 0 else 2 * Filled(b, k - 1)
  {
  }

  lemma SameSpaces(b: seq<int>, c: seq<int>)
    requires Full(b) && Full(c) && Sum(b) == Sum(c) && Behind(b, c)
    ensures b == c
  {
    hide Filled, Sum;
    assert b[..17] == b && c[..17] == c;
    CodesAre(b, 16);
    CodesAre(c, 16);
    assert Spaces(b, 16) == Spaces(b, 15) + Filled(b, 16) && Spaces(c, 16) == Spaces(c, 15) + Filled(c, 16);
    SpacesMono(b, c, 15);
    forall k | 0 <= k < 17
      ensures b[k] == c[k]
    {
      LengthOf(b, k);
      LengthOf(c, k);
      LengthOf(b, 0);
      LengthOf(c, 0);
    }
  }

  /**
   The rule, Kraft's equality and the number of codes determine the result: there is no other way
   to limit these lengths that takes code space from the longest of the short codes first.
   */
  lemma OnlyOne(h: seq<int>, b: seq<int>, c: seq<int>)
    requires |h| > 15 && Full(b) && Full(c) && DeepestFirst(h, b) && DeepestFirst(h, c) && Sum(b) == Sum(c)
    ensures b == c
  {
    hide Filled, Sum, DeepestFirst;
    if Filled(b, 15) <= Filled(c, 15) {
      OneIsAhead(h, b, c);
    } else {
      OneIsAhead(h, c, b);
    }
    if Behind(b, c) {
      SameSpaces(b, c);
    } else {
      SameSpaces(c, b);
    }
  }
}
