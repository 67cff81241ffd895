/**
 How much of the code space a list of code length counts uses up. Filled(bits, l) is the number
 of l-bit words that begin with a code of length at most l: it is the value of the variable
 "code" in figure C.2 of ITU-T T.81 after the codes of length l have been handed out, and
 Filled(bits, l) == 2^l says that Kraft's sum is one.
 */
module CodeSpace {
  import opened Arith

  function Filled(bits: seq<int>, l: nat): int
    requires l < |bits|
  {
    if l == 0 then bits[0] else 2 * Filled(bits, l - 1) + bits[l]
  }

  lemma {:induction false} FilledUpdate(bits: seq<int>, k: nat, v: int, l: nat)
    requires k < |bits| && l < |bits|
    ensures Filled(bits[k := v], l) == Filled(bits, l) + if k <= l then (v - bits[k]) * Pow2(l - k) else 0
  {
    if l > 0 {
      FilledUpdate(bits, k, v, l - 1);
      if k < l {
        assert (v - bits[k]) * Pow2(l - k) == 2 * ((v - bits[k]) * Pow2(l - 1 - k)) by {
          var d, p := v - bits[k], Pow2(l - 1 - k);
          assert Pow2(l - k) == 2 * p;
          assert d * (2 * p) == 2 * (d * p);
        }
      } else if k == l {
        assert (v - bits[k]) * Pow2(0) == v - bits[k];
      }
    } else if k == 0 {
      assert (v - bits[k]) * Pow2(0) == v - bits[k];
    }
  }

  /** Codes of length at most l leave less room at every longer length. */
  lemma {:induction false} FilledGrows(bits: seq<int>, l: nat, m: nat)
    requires l <= m < |bits|
    requires forall k :: l < k <= m ==> bits[k] >= 0
    ensures Filled(bits, m) >= Pow2(m - l) * Filled(bits, l)
    ensures (forall k :: l < k <= m ==> bits[k] == 0) ==> Filled(bits, m) == Pow2(m - l) * Filled(bits, l)
    decreases m
  {
    if l < m {
      FilledGrows(bits, l, m - 1);
      assert 2 * (Pow2(m - 1 - l) * Filled(bits, l)) == Pow2(m - l) * Filled(bits, l);
    }
  }

  lemma {:induction false} FilledPrefix(a: seq<int>, b: seq<int>, l: nat)
    requires l < |a| && l < |b|
    requires forall k :: 0 <= k <= l ==> a[k] == b[k]
    ensures Filled(a, l) == Filled(b, l)
  {
    if l > 0 {
      FilledPrefix(a, b, l - 1);
    }
  }

  lemma {:induction false} FilledNothing(bits: seq<int>, l: nat)
    requires l < |bits| && forall k :: 0 <= k <= l ==> bits[k] == 0
    ensures Filled(bits, l) == 0
  {
    if l > 0 {
      FilledNothing(bits, l - 1);
    }
  }

  lemma {:induction false} FilledNonneg(bits: seq<int>, l: nat)
    requires l < |bits| && forall k :: 0 <= k <= l ==> bits[k] >= 0
    ensures Filled(bits, l) >= 0
  {
    if l > 0 {
      FilledNonneg(bits, l - 1);
    }
  }

  /** A full code space is full at the longest length in use. */
  lemma FullAtLongest(bits: seq<int>, i: nat, top: nat)
    requires i <= top < |bits| && Filled(bits, top) == Pow2(top)
    requires forall k :: i < k <= top ==> bits[k] == 0
    ensures Filled(bits, i) == Pow2(i)
  {
    FilledGrows(bits, i, top);
    Pow2Add(top - i, i);
    var p, x := Pow2(top - i), Filled(bits, i);
    assert p * x == p * Pow2(i);
    CancelFactor(p, x, Pow2(i));
  }

  lemma CancelFactor(p: int, x: int, y: int)
    requires p >= 1 && p * x == p * y
    ensures x == y
  {
    var d := x - y;
    assert p * d == 0;
    if d > 0 {
      PositiveProduct(p, d);
    } else if d < 0 {
      PositiveProduct(p, -d);
    }
  }

  lemma PositiveProduct(p: int, d: int)
    requires p >= 1 && d >= 1
    ensures p * d >= 1 && p * -d <= -1
  {
  }
}
