/**
 Huffman's theorem: repeatedly merging the two lightest weights costs no more than any code
 tree over the same weights.
 */
module HuffmanOptimal {
  import opened Arith
  import opened HuffmanTree

  ghost predicate IsMin(w: multiset<int>, a: int)
  {
    a in w && forall x :: x in w ==> a <= x
  }

  lemma EmptyMultiset(w: multiset<int>)
    requires forall x :: x !in w
    ensures |w| == 0
  {
    forall x ensures w[x] == 0 { assert x !in w; }
    assert w == multiset{};
  }

  lemma {:induction false} MinExists(w: multiset<int>)
    requires |w| > 0
    ensures exists a :: IsMin(w, a)
    decreases |w|
  {
    if forall x :: x !in w {
      EmptyMultiset(w);
    }
    var x :| x in w;
    var rest := w - multiset{x};
    if |rest| == 0 {
      assert w == multiset{x};
      assert IsMin(w, x);
    } else {
      MinExists(rest);
      var m :| IsMin(rest, m);
      assert IsMin(w, if m <= x then m else x) by {
        forall y | y in w ensures (if m <= x then m else x) <= y { if y != x { assert y in rest; } }
      }
    }
  }

  ghost function Min(w: multiset<int>): (a: int)
    requires |w| > 0
    ensures IsMin(w, a)
  {
    MinExists(w);
    var a :| IsMin(w, a);
    a
  }

  ghost function MergeMin(w: multiset<int>, a: int, b: int): multiset<int>
  {
    w - multiset{a} - multiset{b} + multiset{a + b}
  }

  /** What the greedy procedure adds up: every merge pays the weight of the merged branch. */
  ghost function HuffmanCost(w: multiset<int>): int
    decreases |w|
  {
    if |w| <= 1 then 0
    else
      var a := Min(w);
      var b := Min(w - multiset{a});
      assert |MergeMin(w, a, b)| == |w| - 1;
      a + b + HuffmanCost(MergeMin(w, a, b))
  }

  function Swap(ws: seq<int>, i: nat, j: nat): (r: seq<int>)
    requires i < |ws| && j < |ws|
    ensures |r| == |ws|
  {
    ws[i := ws[j]][j := ws[i]]
  }

  /** The exchange step: moving a lighter weight to a deeper leaf does not raise the cost. */
  lemma SwapDeeper(ds: seq<int>, ws: seq<int>, i: nat, j: nat)
    requires |ds| == |ws| && i < |ws| && j < |ws|
    requires ds[i] <= ds[j] && ws[i] <= ws[j]
    ensures Dot(ds, Swap(ws, i, j)) <= Dot(ds, ws)
  {
    if i == j {
      assert Swap(ws, i, j) == ws;
    } else {
      var wi, wj := ws[i], ws[j];
      assert Dot(ds, ws[i := wj]) == Dot(ds, ws) + ds[i] * (wj - wi) by { DotUpdate(ds, ws, i, wj); }
      assert Dot(ds, ws[i := wj][j := wi]) == Dot(ds, ws[i := wj]) + ds[j] * (wi - wj) by {
        DotUpdate(ds, ws[i := wj], j, wi);
      }
      Exchange(ds[i], ds[j], wi, wj);
    }
  }

  lemma SwapMultiset(ws: seq<int>, i: nat, j: nat)
    requires i < |ws| && j < |ws|
    ensures multiset(Swap(ws, i, j)) == multiset(ws)
  {
  }

  lemma Exchange(di: int, dj: int, wi: int, wj: int)
    requires di <= dj && wi <= wj
    ensures di * (wj - wi) + dj * (wi - wj) <= 0
  {
    assert (dj - di) * (wj - wi) >= 0;
    assert di * (wj - wi) + dj * (wi - wj) == -((dj - di) * (wj - wi));
  }

  function Collapse<T>(s: seq<T>, m: nat, v: T): seq<T>
    requires m + 1 < |s|
  {
    s[..m] + [v] + s[m + 2..]
  }

  lemma CollapseLeft<T>(x: seq<T>, y: seq<T>, m: nat, v: T)
    requires m + 1 < |x|
    ensures Collapse(x + y, m, v) == Collapse(x, m, v) + y
  {
  }

  lemma CollapseRight<T>(x: seq<T>, y: seq<T>, m: nat, v: T)
    requires m + 1 < |y|
    ensures Collapse(x + y, |x| + m, v) == x + Collapse(y, m, v)
  {
  }

  /** Two sibling leaves lie at the greatest depth; cutting them off leaves a code tree. */
  lemma {:induction false} DeepestPair(t: Tree, d: nat) returns (m: nat, t': Tree)
    requires t.Node?
    ensures m + 1 < |Leaves(t)| == |Leaves(t')| + 1
    ensures Depths(t, d)[m] == Depths(t, d)[m + 1] == d + Height(t)
    ensures Depths(t', d) == Collapse(Depths(t, d), m, d + Height(t) - 1)
  {
    hide Depths, Leaves, Collapse;
    var a, b := t.left, t.right;
    NodeDepths(a, b, d);
    if a.Leaf? && b.Leaf? {
      m, t' := 0, Leaf(0);
      TwoLeaves(a, b, d);
    } else if Height(a) >= Height(b) {
      var a';
      m, a' := DeepestPair(a, d + 1);
      t' := Node(a', b);
      NodeDepths(a', b, d);
      CollapseLeft(Depths(a, d + 1), Depths(b, d + 1), m, d + Height(t) - 1);
    } else {
      var b', k;
      k, b' := DeepestPair(b, d + 1);
      m, t' := |Leaves(a)| + k, Node(a, b');
      NodeDepths(a, b', d);
      CollapseRight(Depths(a, d + 1), Depths(b, d + 1), k, d + Height(t) - 1);
    }
  }

  lemma NodeDepths(a: Tree, b: Tree, d: nat)
    ensures Depths(Node(a, b), d) == Depths(a, d + 1) + Depths(b, d + 1)
    ensures |Leaves(Node(a, b))| == |Leaves(a)| + |Leaves(b)|
    ensures |Leaves(a)| == |Depths(a, d + 1)| && |Leaves(b)| == |Depths(b, d + 1)|
  {
  }

  lemma TwoLeaves(a: Tree, b: Tree, d: nat)
    requires a.Leaf? && b.Leaf?
    ensures Depths(Node(a, b), d) == [d + 1, d + 1] && |Leaves(Node(a, b))| == 2 && Height(Node(a, b)) == 1
    ensures Depths(Leaf(0), d) == [d] == Collapse([d + 1, d + 1], 0, d) && |Leaves(Leaf(0))| == 1
  {
  }

  lemma CollapseCost(ds: seq<int>, ws: seq<int>, m: nat)
    requires |ds| == |ws| && m + 1 < |ws|
    requires ds[m] == ds[m + 1] >= 1
    ensures Dot(ds, ws) == Dot(Collapse(ds, m, ds[m] - 1), Collapse(ws, m, ws[m] + ws[m + 1])) + ws[m] + ws[m + 1]
  {
    var dt, wt := ds[m + 2..], ws[m + 2..];
    var D, a, b := ds[m], ws[m], ws[m + 1];
    assert ds == ds[..m] + ([D, D] + dt) && ws == ws[..m] + ([a, b] + wt);
    DotAppend(ds[..m], ws[..m], [D, D] + dt, [a, b] + wt);
    DotAppend(ds[..m], ws[..m], [D - 1] + dt, [a + b] + wt);
    assert Collapse(ds, m, D - 1) == ds[..m] + ([D - 1] + dt);
    assert Collapse(ws, m, a + b) == ws[..m] + ([a + b] + wt);
    PairCost(D, a, b, dt, wt);
  }

  lemma PairCost(D: nat, a: int, b: int, dt: seq<int>, wt: seq<int>)
    requires |dt| == |wt|
    ensures Dot([D, D] + dt, [a, b] + wt) == Dot([D - 1] + dt, [a + b] + wt) + a + b
  {
    var p, q, r := D * a, D * b, (D - 1) * (a + b);
    assert p + q == r + a + b by { Distribute(D, a, b); }
    assert Dot([D] + ([D] + dt), [a] + ([b] + wt)) == p + q + Dot(dt, wt) by {
      DotCons(D, a, [D] + dt, [b] + wt);
      DotCons(D, b, dt, wt);
    }
    assert Dot([D - 1] + dt, [a + b] + wt) == r + Dot(dt, wt) by { DotCons(D - 1, a + b, dt, wt); }
    assert [D] + ([D] + dt) == [D, D] + dt && [a] + ([b] + wt) == [a, b] + wt;
  }

  lemma Distribute(d: int, a: int, b: int)
    ensures d * a + d * b == (d - 1) * (a + b) + a + b
  {
  }

  lemma CollapseMultiset(ws: seq<int>, m: nat)
    requires m + 1 < |ws|
    ensures multiset(Collapse(ws, m, ws[m] + ws[m + 1])) == MergeMin(multiset(ws), ws[m], ws[m + 1])
  {
    assert ws == ws[..m] + [ws[m], ws[m + 1]] + ws[m + 2..];
  }

  /** Where the lightest of the weights other than the m-th is. */
  lemma LightestOther(ws: seq<int>, m: nat) returns (j: nat)
    requires m < |ws| && |ws| > 1
    ensures j < |ws| && j != m && ws[j] == Min(multiset(ws) - multiset{ws[m]})
    ensures forall k :: 0 <= k < |ws| && k != m ==> ws[j] <= ws[k]
  {
    var rest := ws[..m] + ws[m + 1..];
    assert ws == ws[..m] + [ws[m]] + ws[m + 1..];
    assert multiset(rest) == multiset(ws) - multiset{ws[m]};
    var b := Min(multiset(rest));
    assert b in rest;
    var r :| 0 <= r < |rest| && rest[r] == b;
    j := if r < m then r else r + 1;
    forall k | 0 <= k < |ws| && k != m
      ensures b <= ws[k]
    {
      assert ws[k] == rest[if k < m then k else k - 1];
      assert ws[k] in multiset(rest);
    }
  }

  /** Puts the two lightest weights on the leaves m and m + 1, which are the deepest. */
  lemma LightestDeepest(ds: seq<int>, ws: seq<int>, m: nat) returns (ws': seq<int>)
    requires |ds| == |ws| && m + 1 < |ws|
    requires forall k :: 0 <= k < |ds| ==> ds[k] <= ds[m] == ds[m + 1]
    ensures |ws'| == |ws| && multiset(ws') == multiset(ws)
    ensures Dot(ds, ws') <= Dot(ds, ws)
    ensures ws'[m] == Min(multiset(ws)) && ws'[m + 1] == Min(multiset(ws) - multiset{Min(multiset(ws))})
  {
    hide Dot, HuffmanCost;
    var a := Min(multiset(ws));
    assert a in multiset(ws) && ws[m] in multiset(ws);
    var i :| 0 <= i < |ws| && ws[i] == a;
    SwapDeeper(ds, ws, i, m);
    SwapMultiset(ws, i, m);
    var ws1 := Swap(ws, i, m);
    var j := LightestOther(ws1, m);
    SwapDeeper(ds, ws1, j, m + 1);
    SwapMultiset(ws1, j, m + 1);
    ws' := Swap(ws1, j, m + 1);
  }

  lemma GreedyStep(w: multiset<int>, a: int, b: int)
    requires IsMin(w, a) && IsMin(w - multiset{a}, b)
    ensures HuffmanCost(w) == a + b + HuffmanCost(MergeMin(w, a, b))
  {
    MinUnique(w, a, Min(w));
    MinUnique(w - multiset{a}, b, Min(w - multiset{a}));
    assert multiset{a} + multiset{b} <= w;
  }

  lemma MinUnique(w: multiset<int>, a: int, b: int)
    requires IsMin(w, a) && IsMin(w, b)
    ensures a == b
  {
  }

  lemma LoneLeaf(t: Tree, ws: seq<int>)
    requires t.Leaf? && |ws| == |Leaves(t)|
    ensures Dot(Depths(t, 0), ws) == 0 == HuffmanCost(multiset(ws))
  {
    assert Depths(t, 0) == [0] && |multiset(ws)| == 1;
    assert Depths(t, 0)[1..] == [];
  }

  /** No code tree over the weights ws costs less than the greedy procedure. */
  lemma {:induction false} HuffmanIsOptimal(t: Tree, ws: seq<int>)
    requires |ws| == |Leaves(t)|
    ensures Dot(Depths(t, 0), ws) >= HuffmanCost(multiset(ws))
    decreases |ws|
  {
    hide HuffmanCost, Dot, Depths, Leaves, Height, Collapse, MergeMin;
    if t.Leaf? {
      LoneLeaf(t, ws);
    } else {
      var ds := Depths(t, 0);
      var m, t' := DeepestPair(t, 0);
      DepthsBound(t, 0);
      var ws' := LightestDeepest(ds, ws, m);
      CollapseCost(ds, ws', m);
      CollapseMultiset(ws', m);
      GreedyStep(multiset(ws), ws'[m], ws'[m + 1]);
      CollapseLength(ws', m, ws'[m] + ws'[m + 1]);
      HuffmanIsOptimal(t', Collapse(ws', m, ws'[m] + ws'[m + 1]));
    }
  }

  lemma CollapseLength<T>(s: seq<T>, m: nat, v: T)
    requires m + 1 < |s|
    ensures |Collapse(s, m, v)| == |s| - 1
  {
  }
}
