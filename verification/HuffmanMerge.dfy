/**
 The merge loop of jpeg_gen_optimal_table (jpeg/jchuff.c), in its own flat arrays: freq[] holds
 the weights of the live branches, others[] chains the symbols of a branch together and
 codesize[] counts how often each symbol's branch has been merged.
 */
module HuffmanMerge {
  import opened Arith
  import opened HuffmanTree
  import opened HuffmanOptimal
  import opened HuffmanPseudo

  const SYMBOLS := 257
  const PSEUDO := 256
  const SEARCH_LIMIT := 1000000000

  // ----- The forest that the arrays describe -----

  /** What others[] holds for the k-th symbol of a chain. */
  ghost function Link(l: seq<int>, k: nat): int
    requires k < |l|
  {
    if k + 1 < |l| then l[k + 1] else -1
  }

  ghost predicate Chain(others: seq<int>, l: seq<int>)
  {
    && |l| > 0 && InRange(l, |others|) && Distinct(l)
    && forall k {:trigger Link(l, k)} :: 0 <= k < |l| ==> others[l[k]] == Link(l, k)
  }

  ghost predicate Owns(owner: seq<int>, counts: seq<int>, t: Tree, c: int)
  {
    && |owner| == |counts|
    && forall s :: Has(t, s) ==> 0 <= s < |owner| && owner[s] == c && counts[s] > 0
  }

  /** The branch with root symbol c is t: its chain, its weight and its code sizes so far. */
  ghost predicate IsBranch(c: int, t: Tree, counts: seq<int>, freq: seq<int>, others: seq<int>,
                           codesize: seq<int>, owner: seq<int>)
  {
    && |counts| == |freq| == |others| == |codesize| == |owner| == SYMBOLS
    && 0 <= c < SYMBOLS && Leaves(t)[0] == c
    && Chain(others, Leaves(t))
    && freq[c] == Weight(t, counts)
    && SizesAre(codesize, Leaves(t), Depths(t, 0))
    && Owns(owner, counts, t, c)
  }

  /**
   The live branches f partition the counted symbols: owner[s] is the root of the one branch
   that holds s.
   */
  ghost predicate IsForest(counts: seq<int>, freq: seq<int>, others: seq<int>, codesize: seq<int>,
                           f: map<int, Tree>, owner: seq<int>)
  {
    && |counts| == |freq| == |others| == |codesize| == |owner| == SYMBOLS
    && (forall c :: c in f ==> IsBranch(c, f[c], counts, freq, others, codesize, owner))
    && Covers(counts, freq, codesize, f, owner)
    && Balanced(counts, f)
  }

  ghost predicate Covers(counts: seq<int>, freq: seq<int>, codesize: seq<int>, f: map<int, Tree>, owner: seq<int>)
    requires |counts| == |freq| == |codesize| == |owner| == SYMBOLS
  {
    && (forall c :: c in f ==> 0 <= c < SYMBOLS)
    && (forall c :: 0 <= c < SYMBOLS ==> (freq[c] != 0 <==> c in f))
    && (forall s :: 0 <= s < SYMBOLS ==> counts[s] >= 0 && (counts[s] == 0 ==> codesize[s] == 0))
    && (forall s :: 0 <= s < SYMBOLS && counts[s] > 0 ==> owner[s] in f && Has(f[owner[s]], s))
  }

  /** No live branch is lighter than what went into another one; this is what bounds the depth. */
  ghost predicate Balanced(counts: seq<int>, f: map<int, Tree>)
  {
    && (forall c :: c in f ==> FibWeight(f[c], counts))
    && (forall c, d :: c in f && d in f && c != d ==> Weight(f[d], counts) >= HeavierBranch(f[c], counts))
  }

  ghost function Singletons(counts: seq<int>): (f: map<int, Tree>)
    requires |counts| == SYMBOLS
  {
    map c | 0 <= c < SYMBOLS && counts[c] > 0 :: Leaf(c)
  }

  lemma SingletonBranch(c: int, counts: seq<int>, others: seq<int>, codesize: seq<int>, owner: seq<int>)
    requires |counts| == |others| == |codesize| == |owner| == SYMBOLS
    requires 0 <= c < SYMBOLS && counts[c] > 0 && others[c] == -1 && codesize[c] == 0 && owner[c] == c
    ensures IsBranch(c, Leaf(c), counts, counts, others, codesize, owner)
    ensures FibWeight(Leaf(c), counts)
  {
    assert Leaves(Leaf(c)) == [c] && Depths(Leaf(c), 0) == [0];
    assert Chain(others, [c]);
  }

  lemma ForestInit(counts: seq<int>, others: seq<int>, codesize: seq<int>, owner: seq<int>)
    requires |counts| == |others| == |codesize| == |owner| == SYMBOLS
    requires forall s :: 0 <= s < SYMBOLS ==> counts[s] >= 0 && others[s] == -1 && codesize[s] == 0 && owner[s] == s
    ensures IsForest(counts, counts, others, codesize, Singletons(counts), owner)
  {
    var f := Singletons(counts);
    forall c | c in f
      ensures IsBranch(c, f[c], counts, counts, others, codesize, owner) && FibWeight(f[c], counts)
    {
      SingletonBranch(c, counts, others, codesize, owner);
    }
  }

  // ----- One merge -----

  ghost function ReOwn(owner: seq<int>, c1: int, c2: int): (r: seq<int>)
    ensures |r| == |owner|
    ensures forall s :: 0 <= s < |owner| ==> r[s] == if owner[s] == c2 then c1 else owner[s]
  {
    seq(|owner|, s requires 0 <= s < |owner| => if owner[s] == c2 then c1 else owner[s])
  }

  ghost predicate Bumped(codesize: seq<int>, l: seq<int>, codesize': seq<int>)
  {
    && |codesize'| == |codesize|
    && forall s :: 0 <= s < |codesize| ==> codesize'[s] == codesize[s] + if s in l then 1 else 0
  }

  /** A branch that the merge does not touch stays a branch. */
  lemma UntouchedBranch(c: int, t: Tree, counts: seq<int>, freq: seq<int>, others: seq<int>,
                        codesize: seq<int>, owner: seq<int>, freq': seq<int>, others': seq<int>,
                        codesize': seq<int>, c1: int, c2: int)
    requires IsBranch(c, t, counts, freq, others, codesize, owner) && c != c1 && c != c2
    requires |freq'| == |others'| == |codesize'| == SYMBOLS
    requires freq'[c] == freq[c]
    requires forall s :: 0 <= s < SYMBOLS && owner[s] == c ==> others'[s] == others[s] && codesize'[s] == codesize[s]
    ensures IsBranch(c, t, counts, freq', others', codesize', ReOwn(owner, c1, c2))
  {
    forall s | s in Leaves(t)
      ensures others'[s] == others[s] && codesize'[s] == codesize[s]
    {
      HasLeaf(t, s);
    }
  }

  lemma JoinedChain(others: seq<int>, la: seq<int>, lb: seq<int>)
    requires Chain(others, la) && Chain(others, lb)
    requires forall j, k :: 0 <= j < |la| && 0 <= k < |lb| ==> la[j] != lb[k]
    ensures Chain(others[la[|la| - 1] := lb[0]], la + lb)
  {
    var l, others' := la + lb, others[la[|la| - 1] := lb[0]];
    forall k | 0 <= k < |l|
      ensures others'[l[k]] == Link(l, k)
    {
      if k < |la| {
        assert others[la[k]] == Link(la, k);
      } else {
        assert others[lb[k - |la|]] == Link(lb, k - |la|);
      }
    }
  }

  lemma JoinedDepths(a: Tree, b: Tree, k: nat)
    requires k < |Leaves(a)| + |Leaves(b)|
    ensures |Leaves(Node(a, b))| == |Leaves(a)| + |Leaves(b)|
    ensures Depths(Node(a, b), 0)[k] ==
            1 + if k < |Leaves(a)| then Depths(a, 0)[k] else Depths(b, 0)[k - |Leaves(a)|]
  {
    if k < |Leaves(a)| {
      DepthsShift(a, 0, k);
    } else {
      DepthsShift(b, 0, k - |Leaves(a)|);
    }
  }

  ghost predicate SizesAre(codesize: seq<int>, l: seq<int>, ds: seq<nat>)
  {
    && |ds| == |l| && InRange(l, |codesize|)
    && forall k :: 0 <= k < |l| ==> codesize[l[k]] == ds[k]
  }

  lemma DeepenedLeaves(a: Tree, b: Tree, codesize: seq<int>, codesize': seq<int>)
    requires Bumped(codesize, Leaves(a) + Leaves(b), codesize')
    requires SizesAre(codesize, Leaves(a), Depths(a, 0)) && SizesAre(codesize, Leaves(b), Depths(b, 0))
    ensures SizesAre(codesize', Leaves(Node(a, b)), Depths(Node(a, b), 0))
  {
    var l, la := Leaves(a) + Leaves(b), |Leaves(a)|;
    var ds := Depths(Node(a, b), 0);
    assert Leaves(Node(a, b)) == l;
    forall k | 0 <= k < |l|
      ensures 0 <= l[k] < |codesize| && codesize'[l[k]] == ds[k]
    {
      JoinedDepths(a, b, k);
      assert l[k] in l;
      assert l[k] == if k < la then Leaves(a)[k] else Leaves(b)[k - la];
    }
  }

  /** Branches with different owners share no symbol. */
  lemma Apart(c1: int, c2: int, a: Tree, b: Tree, counts: seq<int>, owner: seq<int>)
    requires Owns(owner, counts, a, c1) && Owns(owner, counts, b, c2) && c1 != c2
    ensures forall s :: s in Leaves(a) ==> s !in Leaves(b)
    ensures forall j, k :: 0 <= j < |Leaves(a)| && 0 <= k < |Leaves(b)| ==> Leaves(a)[j] != Leaves(b)[k]
  {
    assert forall j :: 0 <= j < |Leaves(a)| ==> Leaves(a)[j] in Leaves(a);
    forall s | s in Leaves(a)
      ensures s !in Leaves(b)
    {
      HasLeaf(a, s);
      HasLeaf(b, s);
    }
  }

  /** Appending c2's chain to c1's and deepening both gives the branch with both below one root. */
  lemma MergedBranch(c1: int, c2: int, a: Tree, b: Tree, counts: seq<int>, freq: seq<int>, others: seq<int>,
                     codesize: seq<int>, owner: seq<int>, codesize': seq<int>)
    requires IsBranch(c1, a, counts, freq, others, codesize, owner)
    requires IsBranch(c2, b, counts, freq, others, codesize, owner) && c1 != c2
    requires Bumped(codesize, Leaves(a) + Leaves(b), codesize')
    ensures var la := Leaves(a);
            IsBranch(c1, Node(a, b), counts, freq[c1 := freq[c1] + freq[c2]][c2 := 0],
                     others[la[|la| - 1] := c2], codesize', ReOwn(owner, c1, c2))
  {
    var la, lb, t := Leaves(a), Leaves(b), Node(a, b);
    assert Leaves(t) == la + lb;
    Apart(c1, c2, a, b, counts, owner);
    JoinedChain(others, la, lb);
    DeepenedLeaves(a, b, codesize, codesize');
    assert Owns(ReOwn(owner, c1, c2), counts, t, c1);
  }

  /** c1 and c2 are the two lightest live branches. */
  ghost predicate Lightest(freq: seq<int>, c1: int, c2: int)
  {
    && |freq| == SYMBOLS && 0 <= c1 < SYMBOLS && 0 <= c2 < SYMBOLS && c1 != c2
    && 0 < freq[c1] && 0 < freq[c2]
    && forall s :: 0 <= s < SYMBOLS && freq[s] != 0 && s != c1 && s != c2 ==> freq[c1] <= freq[s] && freq[c2] <= freq[s]
  }

  ghost function Merge(f: map<int, Tree>, c1: int, c2: int): map<int, Tree>
    requires c1 in f && c2 in f
  {
    map c | c in f && c != c2 :: if c == c1 then Node(f[c1], f[c2]) else f[c]
  }

  lemma MergeCovers(counts: seq<int>, freq: seq<int>, codesize: seq<int>, f: map<int, Tree>, owner: seq<int>,
                    c1: int, c2: int, codesize': seq<int>)
    requires |counts| == |freq| == |codesize| == |owner| == |codesize'| == SYMBOLS
    requires Covers(counts, freq, codesize, f, owner)
    requires c1 in f && c2 in f && c1 != c2 && freq[c1] + freq[c2] != 0
    requires forall s :: 0 <= s < SYMBOLS && counts[s] == 0 ==> codesize'[s] == 0
    ensures Covers(counts, freq[c1 := freq[c1] + freq[c2]][c2 := 0], codesize', Merge(f, c1, c2), ReOwn(owner, c1, c2))
  {
    var f', owner' := Merge(f, c1, c2), ReOwn(owner, c1, c2);
    forall s | 0 <= s < SYMBOLS && counts[s] > 0
      ensures owner'[s] in f' && Has(f'[owner'[s]], s)
    {
      assert owner[s] in f && Has(f[owner[s]], s);
    }
  }

  lemma MergeBalanced(counts: seq<int>, f: map<int, Tree>, c1: int, c2: int)
    requires Balanced(counts, f) && c1 in f && c2 in f && c1 != c2
    requires Weight(f[c1], counts) > 0 && Weight(f[c2], counts) > 0
    requires forall d :: d in f && d != c1 && d != c2 ==>
               Weight(f[c1], counts) <= Weight(f[d], counts) && Weight(f[c2], counts) <= Weight(f[d], counts)
    ensures Balanced(counts, Merge(f, c1, c2))
  {
    var f' := Merge(f, c1, c2);
    FibWeightMerge(f[c1], f[c2], counts);
    assert Weight(f'[c1], counts) == Weight(f[c1], counts) + Weight(f[c2], counts);
    forall c, d | c in f' && d in f' && c != d
      ensures Weight(f'[d], counts) >= HeavierBranch(f'[c], counts)
    {
      if d == c1 {
        assert Weight(f[c1], counts) >= HeavierBranch(f[c], counts);
      } else if c != c1 {
        assert Weight(f[d], counts) >= HeavierBranch(f[c], counts);
      }
    }
  }

  lemma ChainOwners(c1: int, c2: int, a: Tree, b: Tree, counts: seq<int>, owner: seq<int>, s: int)
    requires Owns(owner, counts, a, c1) && Owns(owner, counts, b, c2)
    requires s in Leaves(a) + Leaves(b)
    ensures 0 <= s < |owner| && (owner[s] == c1 || owner[s] == c2) && counts[s] > 0
  {
    HasLeaf(a, s);
    HasLeaf(b, s);
  }

  lemma MergeBranches(counts: seq<int>, freq: seq<int>, others: seq<int>, codesize: seq<int>,
                      f: map<int, Tree>, owner: seq<int>, c1: int, c2: int, codesize': seq<int>, c: int)
    requires c1 in f && c2 in f && c1 != c2 && c in f && c != c2
    requires IsBranch(c1, f[c1], counts, freq, others, codesize, owner)
    requires IsBranch(c2, f[c2], counts, freq, others, codesize, owner)
    requires IsBranch(c, f[c], counts, freq, others, codesize, owner)
    requires Bumped(codesize, Leaves(f[c1]) + Leaves(f[c2]), codesize')
    ensures var la := Leaves(f[c1]);
            IsBranch(c, Merge(f, c1, c2)[c], counts, freq[c1 := freq[c1] + freq[c2]][c2 := 0],
                     others[la[|la| - 1] := c2], codesize', ReOwn(owner, c1, c2))
  {
    var la, lb := Leaves(f[c1]), Leaves(f[c2]);
    if c == c1 {
      MergedBranch(c1, c2, f[c1], f[c2], counts, freq, others, codesize, owner, codesize');
    } else {
      forall s | 0 <= s < SYMBOLS && owner[s] == c
        ensures s !in la + lb
      {
        if s in la + lb { ChainOwners(c1, c2, f[c1], f[c2], counts, owner, s); }
      }
      ChainOwners(c1, c2, f[c1], f[c2], counts, owner, la[|la| - 1]);
      HasLeaf(f[c1], la[|la| - 1]);
      UntouchedBranch(c, f[c], counts, freq, others, codesize, owner,
                      freq[c1 := freq[c1] + freq[c2]][c2 := 0], others[la[|la| - 1] := c2], codesize', c1, c2);
    }
  }

  /** Merging the two lightest branches of a forest gives a forest. */
  lemma MergeStep(counts: seq<int>, freq: seq<int>, others: seq<int>, codesize: seq<int>,
                  f: map<int, Tree>, owner: seq<int>, c1: int, c2: int, codesize': seq<int>)
    requires IsForest(counts, freq, others, codesize, f, owner)
    requires Lightest(freq, c1, c2)
    requires Bumped(codesize, Leaves(f[c1]) + Leaves(f[c2]), codesize')
    ensures var la := Leaves(f[c1]);
            IsForest(counts, freq[c1 := freq[c1] + freq[c2]][c2 := 0], others[la[|la| - 1] := c2], codesize',
                     Merge(f, c1, c2), ReOwn(owner, c1, c2))
  {
    hide FibWeight, Weight, Leaves, Covers, Balanced, IsBranch, Bumped;
    ForestWeights(counts, freq, others, codesize, f, owner, c1, c2);
    UncountedStay(counts, freq, others, codesize, f, owner, c1, c2, codesize');
    MergeCovers(counts, freq, codesize, f, owner, c1, c2, codesize');
    MergeBalanced(counts, f, c1, c2);
    var f', la := Merge(f, c1, c2), Leaves(f[c1]);
    assert 0 <= la[|la| - 1] < SYMBOLS by { assert c1 in f; ChainEnd(c1, f[c1], counts, freq, others, codesize, owner); }
    var freq', others', owner' := freq[c1 := freq[c1] + freq[c2]][c2 := 0], others[la[|la| - 1] := c2], ReOwn(owner, c1, c2);
    forall c | c in f'
      ensures IsBranch(c, f'[c], counts, freq', others', codesize', owner')
    {
      assert c in f && c != c2;
      MergeBranches(counts, freq, others, codesize, f, owner, c1, c2, codesize', c);
    }
  }

  lemma ChainEnd(c: int, t: Tree, counts: seq<int>, freq: seq<int>, others: seq<int>,
                 codesize: seq<int>, owner: seq<int>)
    requires IsBranch(c, t, counts, freq, others, codesize, owner)
    ensures |Leaves(t)| > 0 && 0 <= Leaves(t)[|Leaves(t)| - 1] < SYMBOLS
  {
  }

  lemma UncountedStay(counts: seq<int>, freq: seq<int>, others: seq<int>, codesize: seq<int>,
                      f: map<int, Tree>, owner: seq<int>, c1: int, c2: int, codesize': seq<int>)
    requires IsForest(counts, freq, others, codesize, f, owner) && c1 in f && c2 in f && c1 != c2
    requires Bumped(codesize, Leaves(f[c1]) + Leaves(f[c2]), codesize')
    ensures |codesize'| == SYMBOLS && forall s :: 0 <= s < SYMBOLS && counts[s] == 0 ==> codesize'[s] == 0
  {
    hide FibWeight, HeavierBranch, Weight, Leaves, Has, Balanced;
    forall s | 0 <= s < SYMBOLS && counts[s] == 0
      ensures codesize'[s] == 0
    {
      if s in Leaves(f[c1]) + Leaves(f[c2]) {
        ChainOwners(c1, c2, f[c1], f[c2], counts, owner, s);
      }
    }
  }

  /** The frequencies of live branches are their weights; the two lightest are as light as any. */
  lemma ForestWeights(counts: seq<int>, freq: seq<int>, others: seq<int>, codesize: seq<int>,
                      f: map<int, Tree>, owner: seq<int>, c1: int, c2: int)
    requires IsForest(counts, freq, others, codesize, f, owner) && Lightest(freq, c1, c2)
    ensures c1 in f && c2 in f && c1 != c2 && freq[c1] + freq[c2] != 0
    ensures Weight(f[c1], counts) > 0 && Weight(f[c2], counts) > 0
    ensures forall d :: d in f && d != c1 && d != c2 ==>
              Weight(f[c1], counts) <= Weight(f[d], counts) && Weight(f[c2], counts) <= Weight(f[d], counts)
  {
    hide FibWeight, HeavierBranch, Weight, Leaves, Has, Balanced;
    forall c | c in f
      ensures Weight(f[c], counts) == freq[c]
    {
      assert IsBranch(c, f[c], counts, freq, others, codesize, owner);
    }
  }

  // ----- What the code sizes cost -----

  /** The weights of the live branches. */
  ghost function Live(freq: seq<int>): multiset<int>
  {
    if freq == [] then multiset{} else NonZero(freq[0]) + Live(freq[1..])
  }

  ghost function NonZero(x: int): multiset<int>
  {
    if x == 0 then multiset{} else multiset{x}
  }

  lemma {:induction false} CostOfBumps(codesize: seq<int>, codesize': seq<int>, counts: seq<int>, w: seq<int>)
    requires |codesize| == |codesize'| == |counts| == |w|
    requires forall s :: 0 <= s < |w| ==>
               (codesize'[s] == codesize[s] && w[s] == 0) || (codesize'[s] == codesize[s] + 1 && w[s] == counts[s])
    ensures Dot(codesize', counts) == Dot(codesize, counts) + Sum(w)
  {
    if w != [] {
      CostOfBumps(codesize[1..], codesize'[1..], counts[1..], w[1..]);
      assert (codesize[0] + 1) * counts[0] == codesize[0] * counts[0] + counts[0];
    }
  }

  /** Deepening a list of symbols by one costs the sum of their counts. */
  lemma BumpedCost(codesize: seq<int>, l: seq<int>, codesize': seq<int>, counts: seq<int>)
    requires Bumped(codesize, l, codesize') && |counts| == |codesize|
    requires InRange(l, |counts|) && Distinct(l)
    ensures Dot(codesize', counts) == Dot(codesize, counts) + SumAt(counts, l)
  {
    var w := seq(|counts|, s requires 0 <= s < |counts| => if s in l then counts[s] else 0);
    CostOfBumps(codesize, codesize', counts, w);
    SumAtCover(w, l);
    SumAtCongruent(w, counts, l);
  }

  lemma MergeCost(counts: seq<int>, freq: seq<int>, others: seq<int>, codesize: seq<int>,
                  owner: seq<int>, c1: int, a: Tree, c2: int, b: Tree, codesize': seq<int>)
    requires IsBranch(c1, a, counts, freq, others, codesize, owner)
    requires IsBranch(c2, b, counts, freq, others, codesize, owner) && c1 != c2
    requires Bumped(codesize, Leaves(a) + Leaves(b), codesize')
    ensures Dot(codesize', counts) == Dot(codesize, counts) + freq[c1] + freq[c2]
  {
    var la, lb := Leaves(a), Leaves(b);
    Apart(c1, c2, a, b, counts, owner);
    BumpedCost(codesize, la + lb, codesize', counts);
    SumAtAppend(counts, la, lb);
    WeightIsSum(a, counts);
    WeightIsSum(b, counts);
  }

  lemma {:induction false} LiveUpdate(freq: seq<int>, i: nat, v: int)
    requires i < |freq|
    ensures NonZero(freq[i]) <= Live(freq)
    ensures Live(freq[i := v]) == Live(freq) - NonZero(freq[i]) + NonZero(v)
  {
    hide Live, NonZero;
    LiveCons(freq);
    LiveCons(freq[i := v]);
    if i == 0 {
      assert freq[i := v][1..] == freq[1..];
      Rearrange(multiset{}, Live(freq), NonZero(freq[0]), NonZero(v));
    } else {
      assert freq[i := v][1..] == freq[1..][i - 1 := v];
      LiveUpdate(freq[1..], i - 1, v);
      Rearrange(NonZero(freq[0]), Live(freq[1..]), NonZero(freq[i]), NonZero(v));
    }
  }

  lemma LiveCons(freq: seq<int>)
    requires freq != []
    ensures Live(freq) == NonZero(freq[0]) + Live(freq[1..])
  {
  }

  lemma Rearrange(x: multiset<int>, l: multiset<int>, n: multiset<int>, v: multiset<int>)
    requires n <= l
    ensures n <= x + l && x + (l - n + v) == x + l - n + v
  {
  }

  lemma LiveDrop(freq: seq<int>, i: nat)
    requires i < |freq| && freq[i] != 0
    ensures multiset{freq[i]} <= Live(freq)
    ensures Live(freq[i := 0]) == Live(freq) - multiset{freq[i]}
  {
    hide Live;
    LiveUpdate(freq, i, 0);
  }

  lemma LiveReplace(freq: seq<int>, i: nat, v: int)
    requires i < |freq| && freq[i] != 0 && v != 0
    ensures Live(freq[i := v]) == Live(freq) - multiset{freq[i]} + multiset{v}
  {
    hide Live;
    LiveUpdate(freq, i, v);
  }

  lemma TwoLive(freq: seq<int>, c1: nat, c2: nat)
    requires c1 < |freq| && c2 < |freq| && c1 != c2 && freq[c1] != 0 && freq[c2] != 0
    ensures multiset{freq[c1]} <= Live(freq) && multiset{freq[c2]} <= Live(freq) - multiset{freq[c1]}
  {
    hide Live;
    LiveDrop(freq, c1);
    LiveDrop(freq[c1 := 0], c2);
  }

  lemma Reorder(w: multiset<int>, x: multiset<int>, y: multiset<int>, z: multiset<int>)
    requires x <= w && y <= w - x
    ensures w - x + z - y == w - x - y + z
  {
  }

  lemma LiveMultiset(freq: seq<int>, c1: nat, c2: nat)
    requires c1 < |freq| && c2 < |freq| && c1 != c2
    requires freq[c1] > 0 && freq[c2] > 0
    ensures Live(freq[c1 := freq[c1] + freq[c2]][c2 := 0]) == MergeMin(Live(freq), freq[c1], freq[c2])
  {
    hide Live;
    var a, b := freq[c1], freq[c2];
    TwoLive(freq, c1, c2);
    LiveReplace(freq, c1, a + b);
    LiveDrop(freq[c1 := a + b], c2);
    Reorder(Live(freq), multiset{a}, multiset{b}, multiset{a + b});
  }

  lemma LiveMerge(freq: seq<int>, c1: int, c2: int)
    requires Lightest(freq, c1, c2) && freq[c1] <= freq[c2]
    ensures HuffmanCost(Live(freq)) == freq[c1] + freq[c2] + HuffmanCost(Live(freq[c1 := freq[c1] + freq[c2]][c2 := 0]))
  {
    hide Live, HuffmanCost;
    var w, a, b := Live(freq), freq[c1], freq[c2];
    LiveMultiset(freq, c1, c2);
    TwoLive(freq, c1, c2);
    var rest := w - multiset{a};
    forall x | x in w ensures a <= x { LiveMember(freq, x); }
    forall x | x in rest ensures b <= x { OtherCopy(freq, c1, x); }
    GreedyStep(w, a, b);
  }

  lemma {:induction false} LiveMember(freq: seq<int>, x: int)
    requires x in Live(freq)
    ensures exists s :: 0 <= s < |freq| && freq[s] == x != 0
  {
    if x in NonZero(freq[0]) {
      assert freq[0] == x;
    } else {
      LiveMember(freq[1..], x);
      var s :| 0 <= s < |freq[1..]| && freq[1..][s] == x;
      assert freq[s + 1] == x;
    }
  }

  /** A weight that is left when the branch c is taken out belongs to some other branch. */
  lemma OtherCopy(freq: seq<int>, c: int, x: int)
    requires 0 <= c < |freq| && x in Live(freq) - NonZero(freq[c])
    ensures exists s :: 0 <= s < |freq| && s != c && freq[s] == x != 0
  {
    LiveUpdate(freq, c, 0);
    LiveMember(freq[c := 0], x);
    var s :| 0 <= s < |freq| && freq[c := 0][s] == x;
    assert s != c && freq[s] == x;
  }

  lemma OneLive(freq: seq<int>, c: int)
    requires 0 <= c < |freq|
    requires forall s :: 0 <= s < |freq| && s != c ==> freq[s] == 0
    ensures |Live(freq)| <= 1
  {
    var rest := Live(freq) - NonZero(freq[c]);
    LiveUpdate(freq, c, 0);
    if forall x :: x !in rest {
      EmptyMultiset(rest);
    } else {
      var x :| x in rest;
      OtherCopy(freq, c, x);
    }
  }

  // ----- The loop -----

  /** The code sizes describe a code tree t over exactly the symbols that were counted. */
  ghost predicate CodeTree(counts: seq<int>, codesize: seq<int>, t: Tree)
  {
    && |counts| == |codesize| && Distinct(Leaves(t)) && SizesAre(codesize, Leaves(t), Depths(t, 0))
    && forall s :: 0 <= s < |counts| ==> if counts[s] > 0 then s in Leaves(t) else s !in Leaves(t) && codesize[s] == 0
  }

  /** c is the answer of a search for the lightest branch other than skip, or -1 if it found none. */
  ghost predicate Found(freq: seq<int>, skip: int, c: int)
    requires |freq| == SYMBOLS
  {
    if c == -1 then
      forall s :: 0 <= s < SYMBOLS && s != skip ==> freq[s] == 0 || freq[s] > SEARCH_LIMIT
    else
      && 0 <= c < SYMBOLS && c != skip && freq[c] != 0 && freq[c] <= SEARCH_LIMIT
      && forall s :: 0 <= s < SYMBOLS && s != skip && freq[s] != 0 ==>
           freq[c] < freq[s] || (freq[c] == freq[s] && s <= c)
  }

  /** Finds the smallest nonzero frequency other than skip's; among ties, the largest symbol. */
  method FindLightest(freq: array<int>, skip: int) returns (c: int)
    requires freq.Length == SYMBOLS
    ensures Found(freq[..], skip, c)
  {
    c := -1;
    var v := SEARCH_LIMIT;
    for i := 0 to SYMBOLS
      invariant c == -1 ==> v == SEARCH_LIMIT
      invariant c == -1 ==> forall s :: 0 <= s < i && s != skip ==> freq[s] == 0 || freq[s] > SEARCH_LIMIT
      invariant c != -1 ==> 0 <= c < i && c != skip && freq[c] == v != 0 && v <= SEARCH_LIMIT
      invariant c != -1 ==> forall s :: 0 <= s < i && s != skip && freq[s] != 0 ==>
                              v < freq[s] || (v == freq[s] && s <= c)
    {
      if freq[i] != 0 && freq[i] <= v && i != skip {
        v := freq[i];
        c := i;
      }
    }
  }

  /** Increments the code size of every symbol on the chain that starts at c; returns its end. */
  method DeepenChain(codesize: array<int>, others: array<int>, c: int, ghost l: seq<int>) returns (last: int)
    requires codesize != others && codesize.Length == others.Length == SYMBOLS
    requires Chain(others[..], l) && l[0] == c
    modifies codesize
    ensures last == l[|l| - 1]
    ensures Bumped(old(codesize[..]), l, codesize[..])
  {
    last := c;
    codesize[last] := codesize[last] + 1;
    ghost var k := 0;
    assert others[..][l[k]] == Link(l, k);
    while others[last] >= 0
      invariant 0 <= k < |l| && last == l[k]
      invariant others[last] == Link(l, k)
      invariant forall s :: 0 <= s < SYMBOLS ==>
                  codesize[s] == old(codesize[s]) + if s in l[..k + 1] then 1 else 0
      decreases |l| - k
    {
      last := others[last];
      codesize[last] := codesize[last] + 1;
      k := k + 1;
      assert l[..k + 1] == l[..k] + [l[k]];
      assert others[..][l[k]] == Link(l, k);
    }
    assert l[..k + 1] == l;
  }

  lemma OnlyOneLive(freq: seq<int>, a: int, b: int)
    requires |freq| == SYMBOLS && 0 <= a < SYMBOLS && 0 <= b < SYMBOLS && a != b
    requires forall s :: 0 <= s < SYMBOLS ==> freq[s] >= 0
    requires freq[a] > 0 && freq[b] > 0 && Sum(freq) <= SEARCH_LIMIT + 1
    ensures freq[a] <= SEARCH_LIMIT && freq[b] <= SEARCH_LIMIT
  {
    SumAtBound(freq, [a, b]);
    assert SumAt(freq, [a, b]) == freq[a] + SumAt(freq, [b]);
    assert SumAt(freq, [b]) == freq[b] + SumAt(freq, []);
  }

  /** c is the only symbol left with a nonzero frequency, and t is its branch. */
  lemma LoneBranch(counts: seq<int>, freq: seq<int>, others: seq<int>, codesize: seq<int>,
                   f: map<int, Tree>, owner: seq<int>, c: int)
    requires IsForest(counts, freq, others, codesize, f, owner) && c in f
    requires forall s :: 0 <= s < SYMBOLS && s != c ==> freq[s] == 0
    ensures CodeTree(counts, codesize, f[c])
  {
    var l := Leaves(f[c]);
    assert IsBranch(c, f[c], counts, freq, others, codesize, owner);
    forall s | 0 <= s < SYMBOLS
      ensures if counts[s] > 0 then s in l else s !in l && codesize[s] == 0
    {
      HasLeaf(f[c], s);
      assert counts[s] > 0 ==> owner[s] in f && freq[owner[s]] != 0;
    }
  }

  /**
   The merge loop: from the counts in freq[] it leaves in codesize[] the leaf depths of a code
   tree over the counted symbols, and no code tree over those counts is cheaper. No code is longer
   than that of the pseudo-symbol.
   */
  method MergeAll(freq: array<int>, others: array<int>, codesize: array<int>) returns (ghost t: Tree)
    requires freq.Length == others.Length == codesize.Length == SYMBOLS
    requires freq != others && freq != codesize && others != codesize
    requires forall s :: 0 <= s < SYMBOLS ==> freq[s] >= 0 && others[s] == -1 && codesize[s] == 0
    requires freq[PSEUDO] == 1
    requires Sum(freq[..]) <= SEARCH_LIMIT + 1
    modifies freq, others, codesize
    ensures forall s :: 0 <= s < SYMBOLS ==> codesize[s] <= codesize[PSEUDO]
    ensures CodeTree(old(freq[..]), codesize[..], t)
    ensures FibWeight(t, old(freq[..]))
    ensures Dot(codesize[..], old(freq[..])) == HuffmanCost(Live(old(freq[..])))
  {
    hide Progress, Found, ChainsApart, Lightest, Chain, Bumped, Merge, ReOwn, IsForest, HuffmanCost, Live, Dot, Leaves, Deepest;
    ghost var counts := freq[..];
    ghost var owner := seq(SYMBOLS, s => s);
    ghost var f, r := Singletons(counts), PSEUDO;
    ProgressInit(counts, others[..], codesize[..], owner);
    DeepestInit(counts);
    while true
      invariant Progress(counts, freq[..], others[..], codesize[..], f, owner)
      invariant Deepest(counts, f, r, PSEUDO)
      decreases |f|
    {
      var c1 := FindLightest(freq, -1);
      var c2 := FindLightest(freq, c1);
      if c2 < 0 {
        t := ProgressEnd(counts, freq[..], others[..], codesize[..], f, owner, r, c1, c2);
        break;
      }
      ghost var freq0, others0, codesize0 := freq[..], others[..], codesize[..];
      ReadyToMerge(counts, freq0, others0, codesize0, f, owner, c1, c2);
      DeepestStep(counts, freq0, others0, codesize0, f, owner, r, c1, c2);
      MergePair(freq, others, codesize, c1, c2, Leaves(f[c1]), Leaves(f[c2]));
      ProgressStep(counts, freq0, others0, codesize0, f, owner, c1, c2, codesize[..]);
      f, owner, r := Merge(f, c1, c2), ReOwn(owner, c1, c2), if r == c2 then c1 else r;
    }
  }

  lemma ProgressInit(counts: seq<int>, others: seq<int>, codesize: seq<int>, owner: seq<int>)
    requires |counts| == |others| == |codesize| == |owner| == SYMBOLS
    requires forall s :: 0 <= s < SYMBOLS ==> counts[s] >= 0 && others[s] == -1 && codesize[s] == 0 && owner[s] == s
    requires counts[PSEUDO] > 0 && Sum(counts) <= SEARCH_LIMIT + 1
    ensures Progress(counts, counts, others, codesize, Singletons(counts), owner)
  {
    hide HuffmanCost;
    ForestInit(counts, others, codesize, owner);
    CostOfNothing(codesize, counts);
  }

  /** What the two searches found are the two lightest branches. */
  lemma ReadyToMerge(counts: seq<int>, freq: seq<int>, others: seq<int>, codesize: seq<int>,
                     f: map<int, Tree>, owner: seq<int>, c1: int, c2: int)
    requires Progress(counts, freq, others, codesize, f, owner)
    requires |freq| == SYMBOLS && Found(freq, -1, c1) && Found(freq, c1, c2) && c2 >= 0
    ensures c1 in f && c2 in f && Lightest(freq, c1, c2) && freq[c1] <= freq[c2]
    ensures var la, lb := Leaves(f[c1]), Leaves(f[c2]);
            ChainsApart(others, c1, la, c2, lb)
  {
    hide HuffmanCost, FibWeight, HeavierBranch;
    BranchesApart(counts, freq, others, codesize, f, owner, c1, c2);
  }

  /** la and lb are the chains from c1 and c2, and appending to la's end leaves lb alone. */
  ghost predicate ChainsApart(others: seq<int>, c1: int, la: seq<int>, c2: int, lb: seq<int>)
  {
    && Chain(others, la) && la[0] == c1 && Chain(others, lb) && lb[0] == c2
    && (forall s :: s in la ==> s !in lb)
    && Chain(others[la[|la| - 1] := c2], lb)
  }

  /** One merge, given the chains la and lb of the two branches. */
  method MergePair(freq: array<int>, others: array<int>, codesize: array<int>, c1: int, c2: int,
                   ghost la: seq<int>, ghost lb: seq<int>)
    requires freq.Length == others.Length == codesize.Length == SYMBOLS
    requires freq != others && freq != codesize && others != codesize
    requires ChainsApart(others[..], c1, la, c2, lb)
    modifies freq, others, codesize
    ensures freq[..] == old(freq[..])[c1 := old(freq[c1] + freq[c2])][c2 := 0]
    ensures others[..] == old(others[..])[la[|la| - 1] := c2]
    ensures Bumped(old(codesize[..]), la + lb, codesize[..])
  {
    assert c1 in la && c2 in lb;
    freq[c1] := freq[c1] + freq[c2];
    freq[c2] := 0;
    var last := DeepenChain(codesize, others, c1, la);
    others[last] := c2;
    last := DeepenChain(codesize, others, c2, lb);
  }

  /** The invariant of the merge loop. */
  ghost predicate Progress(counts: seq<int>, freq: seq<int>, others: seq<int>, codesize: seq<int>,
                           f: map<int, Tree>, owner: seq<int>)
  {
    && IsForest(counts, freq, others, codesize, f, owner)
    && (forall s :: 0 <= s < SYMBOLS ==> freq[s] >= 0)
    && PSEUDO < |counts| && counts[PSEUDO] > 0
    && Sum(freq) <= SEARCH_LIMIT + 1
    && Dot(codesize, counts) + HuffmanCost(Live(freq)) == HuffmanCost(Live(counts))
  }

  /** The chains of two live branches share no symbol, so c2's survives the changes to c1's. */
  lemma BranchesApart(counts: seq<int>, freq: seq<int>, others: seq<int>, codesize: seq<int>,
                      f: map<int, Tree>, owner: seq<int>, c1: int, c2: int)
    requires IsForest(counts, freq, others, codesize, f, owner)
    requires c1 in f && c2 in f && c1 != c2
    ensures var la, lb := Leaves(f[c1]), Leaves(f[c2]);
            ChainsApart(others, c1, la, c2, lb)
  {
    var la, lb := Leaves(f[c1]), Leaves(f[c2]);
    assert IsBranch(c1, f[c1], counts, freq, others, codesize, owner);
    assert IsBranch(c2, f[c2], counts, freq, others, codesize, owner);
    Apart(c1, c2, f[c1], f[c2], counts, owner);
    assert la[|la| - 1] in la;
    forall k | 0 <= k < |lb|
      ensures others[la[|la| - 1] := c2][lb[k]] == Link(lb, k)
    {
      assert lb[k] in lb;
    }
  }

  lemma ProgressStep(counts: seq<int>, freq: seq<int>, others: seq<int>, codesize: seq<int>,
                     f: map<int, Tree>, owner: seq<int>, c1: int, c2: int, codesize': seq<int>)
    requires Progress(counts, freq, others, codesize, f, owner)
    requires Lightest(freq, c1, c2) && freq[c1] <= freq[c2]
    requires Bumped(codesize, Leaves(f[c1]) + Leaves(f[c2]), codesize')
    ensures var la := Leaves(f[c1]);
            Progress(counts, freq[c1 := freq[c1] + freq[c2]][c2 := 0], others[la[|la| - 1] := c2], codesize',
                     Merge(f, c1, c2), ReOwn(owner, c1, c2))
    ensures |Merge(f, c1, c2)| < |f|
  {
    hide IsForest, IsBranch, Lightest, Bumped, HuffmanCost, Live, Merge;
    StepFacts(counts, freq, others, codesize, f, owner, c1, c2, codesize');
    var la, freq' := Leaves(f[c1]), freq[c1 := freq[c1] + freq[c2]][c2 := 0];
    assert IsForest(counts, freq', others[la[|la| - 1] := c2], codesize', Merge(f, c1, c2), ReOwn(owner, c1, c2)) by {
      MergeStep(counts, freq, others, codesize, f, owner, c1, c2, codesize');
    }
    assert Sum(freq') == Sum(freq) by {
      SumUpdate(freq, c1, freq[c1] + freq[c2]);
      SumUpdate(freq[c1 := freq[c1] + freq[c2]], c2, 0);
    }
    assert HuffmanCost(Live(freq)) == freq[c1] + freq[c2] + HuffmanCost(Live(freq')) by { LiveMerge(freq, c1, c2); }
    assert Dot(codesize', counts) == Dot(codesize, counts) + freq[c1] + freq[c2] by {
      MergeCost(counts, freq, others, codesize, owner, c1, f[c1], c2, f[c2], codesize');
    }
    MergeShrinks(f, c1, c2);
  }

  lemma MergeShrinks(f: map<int, Tree>, c1: int, c2: int)
    requires c1 in f && c2 in f
    ensures |Merge(f, c1, c2)| < |f|
  {
    assert Merge(f, c1, c2).Keys == f.Keys - {c2};
  }

  lemma StepFacts(counts: seq<int>, freq: seq<int>, others: seq<int>, codesize: seq<int>,
                  f: map<int, Tree>, owner: seq<int>, c1: int, c2: int, codesize': seq<int>)
    requires IsForest(counts, freq, others, codesize, f, owner) && Lightest(freq, c1, c2)
    requires c1 in f && c2 in f ==> Bumped(codesize, Leaves(f[c1]) + Leaves(f[c2]), codesize')
    ensures c1 in f && c2 in f && c1 != c2
    ensures |counts| == |freq| == |others| == |codesize| == |codesize'| == |owner| == SYMBOLS
    ensures 0 <= c1 < SYMBOLS && 0 <= c2 < SYMBOLS && 0 <= Leaves(f[c1])[|Leaves(f[c1])| - 1] < SYMBOLS
    ensures freq[c1] > 0 && freq[c2] > 0
    ensures IsBranch(c1, f[c1], counts, freq, others, codesize, owner)
    ensures IsBranch(c2, f[c2], counts, freq, others, codesize, owner)
  {
  }

  lemma ProgressEnd(counts: seq<int>, freq: seq<int>, others: seq<int>, codesize: seq<int>,
                    f: map<int, Tree>, owner: seq<int>, r: int, c1: int, c2: int) returns (t: Tree)
    requires Progress(counts, freq, others, codesize, f, owner) && Deepest(counts, f, r, PSEUDO)
    requires |freq| == SYMBOLS && Found(freq, -1, c1) && Found(freq, c1, c2) && c2 < 0
    ensures forall s :: 0 <= s < SYMBOLS ==> codesize[s] <= codesize[PSEUDO]
    ensures CodeTree(counts, codesize, t) && FibWeight(t, counts)
    ensures Dot(codesize, counts) == HuffmanCost(Live(counts))
  {
    var c := owner[PSEUDO];
    forall s | 0 <= s < SYMBOLS && s != c
      ensures freq[s] == 0
    {
      if freq[s] != 0 {
        OnlyOneLive(freq, s, c);
      }
    }
    LoneBranch(counts, freq, others, codesize, f, owner, c);
    OneLive(freq, c);
    t := f[c];
    assert r == c;
    LongestIsPseudo(counts, codesize, t);
  }

  lemma LongestIsPseudo(counts: seq<int>, codesize: seq<int>, t: Tree)
    requires |counts| == |codesize| == SYMBOLS && CodeTree(counts, codesize, t) && AtBottom(t, PSEUDO)
    requires forall s :: 0 <= s < SYMBOLS ==> counts[s] >= 0
    ensures forall s :: 0 <= s < SYMBOLS ==> codesize[s] <= codesize[PSEUDO]
  {
    BottomDepth(t, PSEUDO, 0);
    DepthsBound(t, 0);
    var l := Leaves(t);
    var p :| 0 <= p < |l| && l[p] == PSEUDO && Depths(t, 0)[p] == Height(t);
    assert codesize[l[p]] == Height(t);
    forall s | 0 <= s < SYMBOLS
      ensures codesize[s] <= codesize[PSEUDO]
    {
      if s in l {
        var k :| 0 <= k < |l| && l[k] == s;
        assert codesize[l[k]] == Depths(t, 0)[k];
      }
    }
  }

  lemma DeepestInit(counts: seq<int>)
    requires |counts| == SYMBOLS && counts[PSEUDO] == 1
    ensures Deepest(counts, Singletons(counts), PSEUDO, PSEUDO)
  {
  }

  /** A merge keeps the pseudo-symbol at the bottom. */
  lemma DeepestStep(counts: seq<int>, freq: seq<int>, others: seq<int>, codesize: seq<int>,
                    f: map<int, Tree>, owner: seq<int>, r: int, c1: int, c2: int)
    requires Progress(counts, freq, others, codesize, f, owner) && Deepest(counts, f, r, PSEUDO)
    requires |freq| == SYMBOLS && Found(freq, -1, c1) && Found(freq, c1, c2) && c1 in f && c2 in f
    ensures Deepest(counts, Merge(f, c1, c2), if r == c2 then c1 else r, PSEUDO)
  {
    hide Deepest, HuffmanCost, FibWeight, HeavierBranch, Weight, Leaves, Has;
    forall c | c in f
      ensures Weight(f[c], counts) == freq[c] && 0 <= c < SYMBOLS
    {
      assert IsBranch(c, f[c], counts, freq, others, codesize, owner);
    }
    DeepestMerge(counts, f, r, PSEUDO, c1, c2, Merge(f, c1, c2));
  }

  lemma {:induction false} CostOfNothing(codesize: seq<int>, counts: seq<int>)
    requires |codesize| == |counts|
    requires forall s :: 0 <= s < |codesize| ==> codesize[s] == 0
    ensures Dot(codesize, counts) == 0
  {
    if codesize != [] {
      CostOfNothing(codesize[1..], counts[1..]);
    }
  }
}
