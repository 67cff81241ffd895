/**
 Binary code trees, as built by the merge loop of jpeg_gen_optimal_table: the leaf order is
 the order of an others[] chain and the leaf depths are the code sizes.
 */
module HuffmanTree {
  import opened Arith

  datatype Tree = Leaf(sym: int) | Node(left: Tree, right: Tree)

  function Leaves(t: Tree): (l: seq<int>)
    ensures |l| >= 1
  {
    match t
    case Leaf(s) => [s]
    case Node(a, b) => Leaves(a) + Leaves(b)
  }

  predicate Has(t: Tree, s: int)
  {
    match t
    case Leaf(x) => s == x
    case Node(a, b) => Has(a, s) || Has(b, s)
  }

  lemma {:induction false} HasLeaf(t: Tree, s: int)
    ensures Has(t, s) <==> s in Leaves(t)
  {
    match t
    case Leaf(_) =>
    case Node(a, b) =>
      HasLeaf(a, s);
      HasLeaf(b, s);
  }

  /** The depths of the leaves, in leaf order, when the root is at depth d. */
  function Depths(t: Tree, d: nat): (ds: seq<nat>)
    ensures |ds| == |Leaves(t)|
  {
    match t
    case Leaf(_) => [d]
    case Node(a, b) => Depths(a, d + 1) + Depths(b, d + 1)
  }

  function Height(t: Tree): (h: nat)
  {
    match t
    case Leaf(_) => 0
    case Node(a, b) => 1 + (if Height(a) >= Height(b) then Height(a) else Height(b))
  }

  /** The total count of the symbols below t. */
  function Weight(t: Tree, counts: seq<int>): int
  {
    match t
    case Leaf(s) => if 0 <= s < |counts| then counts[s] else 0
    case Node(a, b) => Weight(a, counts) + Weight(b, counts)
  }

  lemma {:induction false} DepthsShift(t: Tree, d: nat, k: nat)
    requires k < |Leaves(t)|
    ensures Depths(t, d + 1)[k] == Depths(t, d)[k] + 1
  {
    match t
    case Leaf(_) =>
    case Node(a, b) =>
      if k < |Leaves(a)| {
        DepthsShift(a, d + 1, k);
      } else {
        DepthsShift(b, d + 1, k - |Leaves(a)|);
      }
  }

  lemma {:induction false} DepthsBound(t: Tree, d: nat)
    ensures forall k :: 0 <= k < |Depths(t, d)| ==> d <= Depths(t, d)[k] <= d + Height(t)
    ensures t.Node? ==> forall k :: 0 <= k < |Depths(t, d)| ==> d < Depths(t, d)[k]
    ensures exists k :: 0 <= k < |Depths(t, d)| && Depths(t, d)[k] == d + Height(t)
  {
    match t
    case Leaf(_) =>
    case Node(a, b) =>
      DepthsBound(a, d + 1);
      DepthsBound(b, d + 1);
      if Height(a) >= Height(b) {
        var k :| 0 <= k < |Depths(a, d + 1)| && Depths(a, d + 1)[k] == d + Height(t);
        assert Depths(t, d)[k] == d + Height(t);
      } else {
        var k :| 0 <= k < |Depths(b, d + 1)| && Depths(b, d + 1)[k] == d + Height(t);
        assert Depths(t, d)[|Depths(a, d + 1)| + k] == d + Height(t);
      }
  }

  lemma {:induction false} WeightIsSum(t: Tree, counts: seq<int>)
    requires InRange(Leaves(t), |counts|)
    ensures Weight(t, counts) == SumAt(counts, Leaves(t))
  {
    match t
    case Leaf(s) =>
      assert s == Leaves(t)[0];
    case Node(a, b) =>
      assert forall k :: 0 <= k < |Leaves(a)| ==> Leaves(a)[k] == Leaves(t)[k];
      assert forall k :: 0 <= k < |Leaves(b)| ==> Leaves(b)[k] == Leaves(t)[k + |Leaves(a)|];
      WeightIsSum(a, counts);
      WeightIsSum(b, counts);
      SumAtAppend(counts, Leaves(a), Leaves(b));
  }

  /** What a code of length x takes of a code space with 2^top codes. */
  function Share(top: nat, x: int): nat
  {
    if 0 <= x <= top then Pow2(top - x) else 0
  }

  /** The Kraft sum of a list of code lengths, scaled by 2^top. */
  function Kraft(top: nat, ds: seq<nat>): nat
  {
    if ds == [] then 0 else Share(top, ds[0]) + Kraft(top, ds[1..])
  }

  lemma {:induction false} KraftAppend(top: nat, a: seq<nat>, b: seq<nat>)
    ensures Kraft(top, a + b) == Kraft(top, a) + Kraft(top, b)
  {
    if a == [] {
      assert a + b == b;
    } else {
      assert (a + b)[1..] == a[1..] + b;
      KraftAppend(top, a[1..], b);
    }
  }

  /** A code tree uses its whole code space: Kraft's sum is an equality. */
  lemma {:induction false} TreeKraft(t: Tree, d: nat, top: nat)
    requires d + Height(t) <= top
    ensures Kraft(top, Depths(t, d)) == Pow2(top - d)
  {
    match t
    case Leaf(_) =>
      assert Depths(t, d)[1..] == [];
    case Node(a, b) =>
      TreeKraft(a, d + 1, top);
      TreeKraft(b, d + 1, top);
      KraftAppend(top, Depths(a, d + 1), Depths(b, d + 1));
  }

  /** The larger of the weights of the two branches that were merged into t. */
  function HeavierBranch(t: Tree, counts: seq<int>): int
  {
    match t
    case Leaf(_) => 0
    case Node(a, b) => if Weight(a, counts) >= Weight(b, counts) then Weight(a, counts) else Weight(b, counts)
  }

  /** The weight of a branch grows at least as fast as the Fibonacci numbers in its height. */
  ghost predicate FibWeight(t: Tree, counts: seq<int>)
  {
    && Weight(t, counts) >= Fib(Height(t) + 2)
    && (t.Node? ==> HeavierBranch(t, counts) >= Fib(Height(t) + 1))
  }

  /** Merging keeps FibWeight, because neither branch is lighter than what was merged into the other. */
  lemma FibWeightMerge(a: Tree, b: Tree, counts: seq<int>)
    requires FibWeight(a, counts) && FibWeight(b, counts)
    requires Weight(a, counts) >= HeavierBranch(b, counts)
    requires Weight(b, counts) >= HeavierBranch(a, counts)
    ensures FibWeight(Node(a, b), counts)
  {
    if Height(a) >= Height(b) {
      FibStep(Height(a), Weight(a, counts), Weight(b, counts), a.Leaf?, Height(b), HeavierBranch(a, counts));
    } else {
      FibStep(Height(b), Weight(b, counts), Weight(a, counts), b.Leaf?, Height(a), HeavierBranch(b, counts));
    }
  }

  lemma FibStep(h: nat, high: int, low: int, leaf: bool, lowHeight: nat, inner: int)
    requires high >= Fib(h + 2) && low >= inner && low >= Fib(lowHeight + 2)
    requires if leaf then h == 0 else inner >= Fib(h + 1)
    ensures high + low >= Fib(h + 3)
  {
    var next := Fib(h + 3);
    assert next == Fib(h + 2) + Fib(h + 1);
    if leaf {
      FibMono(1, lowHeight + 2);
    }
  }
}
