/** Powers of two, Fibonacci numbers and sums over sequences. */
module Arith {

  function Pow2(n: nat): (r: nat)
    ensures r >= 1
  {
    if n == 0 then 1 else 2 * Pow2(n - 1)
  }

  lemma {:induction false} Pow2Add(a: nat, b: nat)
    ensures Pow2(a + b) == Pow2(a) * Pow2(b)
  {
    if a > 0 {
      Pow2Add(a - 1, b);
      assert Pow2(a + b) == 2 * (Pow2(a - 1) * Pow2(b)) == (2 * Pow2(a - 1)) * Pow2(b);
    }
  }

  lemma {:induction false} Pow2Mono(a: nat, b: nat)
    requires a <= b
    ensures Pow2(a) <= Pow2(b)
    decreases b
  {
    if a < b {
      Pow2Mono(a, b - 1);
    }
  }

  lemma Pow2Double(n: nat)
    ensures Pow2(n + 1) == 2 * Pow2(n)
  {
  }

  lemma ScaleMono(p: nat, x: int, y: int)
    requires x <= y
    ensures x * p <= y * p && p * x <= p * y
  {
  }

  lemma DoubleFactor(x: int, p: int)
    ensures x * (2 * p) == 2 * (x * p)
  {
  }

  lemma Pow2Values()
    ensures Pow2(8) == 256 && Pow2(16) == 65536 && Pow2(17) == 131072
  {
    assert Pow2(8) == 256;
    assert Pow2(12) == 4096;
    assert Pow2(16) == 65536;
  }

  function Fib(n: nat): (r: nat)
  {
    if n < 2 then n else Fib(n - 1) + Fib(n - 2)
  }

  lemma {:induction false} FibMono(a: nat, b: nat)
    requires a <= b
    ensures Fib(a) <= Fib(b)
    decreases b
  {
    if a < b {
      FibMono(a, b - 1);
    }
  }

  const FIB_35 := 9227465

  /** Fibonacci number 35, computed in steps small enough for the solver. */
  lemma Fib35()
    ensures Fib(35) == FIB_35
  {
    assert Fib(8) == 21 && Fib(9) == 34;
    assert Fib(14) == 377 && Fib(15) == 610 by { assert Fib(10) == 55 && Fib(11) == 89; assert Fib(12) == 144; }
    assert Fib(20) == 6765 && Fib(21) == 10946 by { assert Fib(16) == 987 && Fib(17) == 1597; assert Fib(18) == 2584; }
    assert Fib(26) == 121393 && Fib(27) == 196418 by { assert Fib(22) == 17711 && Fib(23) == 28657; assert Fib(24) == 46368; }
    assert Fib(32) == 2178309 && Fib(33) == 3524578 by { assert Fib(28) == 317811 && Fib(29) == 514229; assert Fib(30) == 832040; }
  }

  /** The sum of all elements. */
  function Sum(s: seq<int>): (r: int)
  {
    if s == [] then 0 else s[0] + Sum(s[1..])
  }

  lemma {:induction false} SumAppend(a: seq<int>, b: seq<int>)
    ensures Sum(a + b) == Sum(a) + Sum(b)
  {
    if a == [] {
      assert a + b == b;
    } else {
      assert (a + b)[1..] == a[1..] + b;
      SumAppend(a[1..], b);
    }
  }

  lemma {:induction false} SumUpdate(s: seq<int>, i: nat, v: int)
    requires i < |s|
    ensures Sum(s[i := v]) == Sum(s) - s[i] + v
  {
    if i > 0 {
      assert s[i := v][1..] == s[1..][i - 1 := v];
      SumUpdate(s[1..], i - 1, v);
    } else {
      assert s[i := v][1..] == s[1..];
    }
  }

  lemma {:induction false} SumNonneg(s: seq<int>)
    requires forall k :: 0 <= k < |s| ==> s[k] >= 0
    ensures Sum(s) >= 0
    ensures forall k :: 0 <= k < |s| ==> s[k] <= Sum(s)
  {
    if s != [] {
      SumNonneg(s[1..]);
      forall k | 0 <= k < |s| ensures s[k] <= Sum(s) {
        if k > 0 { assert s[k] == s[1..][k - 1]; }
      }
    }
  }

  ghost predicate Distinct(l: seq<int>)
  {
    forall j, k :: 0 <= j < k < |l| ==> l[j] != l[k]
  }

  ghost predicate InRange(l: seq<int>, n: nat)
  {
    forall k :: 0 <= k < |l| ==> 0 <= l[k] < n
  }

  /** The sum of the elements of w at the positions listed in l. */
  function SumAt(w: seq<int>, l: seq<int>): (r: int)
    requires forall k :: 0 <= k < |l| ==> 0 <= l[k] < |w|
  {
    if l == [] then 0 else w[l[0]] + SumAt(w, l[1..])
  }

  lemma {:induction false} SumAtAppend(w: seq<int>, a: seq<int>, b: seq<int>)
    requires InRange(a, |w|) && InRange(b, |w|)
    ensures SumAt(w, a + b) == SumAt(w, a) + SumAt(w, b)
  {
    if a == [] {
      assert a + b == b;
    } else {
      assert (a + b)[1..] == a[1..] + b;
      SumAtAppend(w, a[1..], b);
    }
  }

  lemma {:induction false} SumAtCongruent(w: seq<int>, w': seq<int>, l: seq<int>)
    requires |w| == |w'| && InRange(l, |w|)
    requires forall k :: 0 <= k < |l| ==> w[l[k]] == w'[l[k]]
    ensures SumAt(w, l) == SumAt(w', l)
  {
    if l != [] {
      SumAtCongruent(w, w', l[1..]);
    }
  }

  /** Summing over distinct positions that cover every nonzero element is summing everything. */
  lemma {:induction false} SumAtCover(w: seq<int>, l: seq<int>)
    requires InRange(l, |w|) && Distinct(l)
    requires forall i :: 0 <= i < |w| && i !in l ==> w[i] == 0
    ensures SumAt(w, l) == Sum(w)
    decreases |l|
  {
    if l == [] {
      SumZero(w);
    } else {
      var w' := w[l[0] := 0];
      SumUpdate(w, l[0], 0);
      assert l == [l[0]] + l[1..];
      SumAtCover(w', l[1..]);
      SumAtCongruent(w, w', l[1..]);
    }
  }

  lemma {:induction false} SumZero(w: seq<int>)
    requires forall i :: 0 <= i < |w| ==> w[i] == 0
    ensures Sum(w) == 0
  {
    if w != [] {
      SumZero(w[1..]);
    }
  }

  /** Distinct positions of a sequence of nonnegative numbers sum to at most its total. */
  lemma {:induction false} SumAtBound(w: seq<int>, l: seq<int>)
    requires InRange(l, |w|) && Distinct(l)
    requires forall i :: 0 <= i < |w| ==> w[i] >= 0
    ensures 0 <= SumAt(w, l) <= Sum(w)
    decreases |l|
  {
    if l == [] {
      SumNonneg(w);
    } else {
      var w' := w[l[0] := 0];
      SumUpdate(w, l[0], 0);
      SumAtBound(w', l[1..]);
      SumAtCongruent(w, w', l[1..]);
    }
  }

  /** The sum of the products of corresponding elements: code lengths times uses, say. */
  function Dot(ds: seq<int>, ws: seq<int>): int
    requires |ds| == |ws|
  {
    if ds == [] then 0 else ds[0] * ws[0] + Dot(ds[1..], ws[1..])
  }

  lemma {:induction false} DotUpdate(ds: seq<int>, ws: seq<int>, i: nat, v: int)
    requires |ds| == |ws| && i < |ws|
    ensures Dot(ds, ws[i := v]) == Dot(ds, ws) + ds[i] * (v - ws[i])
  {
    if i == 0 {
      assert ws[i := v][1..] == ws[1..];
    } else {
      assert ws[i := v][1..] == ws[1..][i - 1 := v];
      DotUpdate(ds[1..], ws[1..], i - 1, v);
    }
  }

  lemma {:induction false} DotAppend(da: seq<int>, wa: seq<int>, db: seq<int>, wb: seq<int>)
    requires |da| == |wa| && |db| == |wb|
    ensures Dot(da + db, wa + wb) == Dot(da, wa) + Dot(db, wb)
  {
    if da == [] {
      assert da + db == db && wa + wb == wb;
    } else {
      assert (da + db)[1..] == da[1..] + db && (wa + wb)[1..] == wa[1..] + wb;
      DotAppend(da[1..], wa[1..], db, wb);
    }
  }

  lemma DotCons(d: int, w: int, ds: seq<int>, ws: seq<int>)
    requires |ds| == |ws|
    ensures Dot([d] + ds, [w] + ws) == d * w + Dot(ds, ws)
  {
    assert ([d] + ds)[1..] == ds && ([w] + ws)[1..] == ws;
  }
}
