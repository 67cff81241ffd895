/**
 Why the pseudo-symbol of jpeg_gen_optimal_table (jpeg/jchuff.c) ends up with a code of the greatest
 length: its count of 1 is the least, and among equal counts the searches take the largest symbol.
 */
module HuffmanPseudo {
  import opened HuffmanTree

  /** The symbol is a leaf at the greatest depth. */
  ghost predicate AtBottom(t: Tree, s: int)
  {
    match t
    case Leaf(x) => x == s
    case Node(a, b) => (Height(a) >= Height(b) && AtBottom(a, s)) || (Height(b) >= Height(a) && AtBottom(b, s))
  }

  lemma {:induction false} BottomDepth(t: Tree, s: int, d: nat)
    requires AtBottom(t, s)
    ensures exists k :: 0 <= k < |Leaves(t)| && Leaves(t)[k] == s && Depths(t, d)[k] == d + Height(t)
  {
    match t
    case Leaf(_) =>
      assert Leaves(t)[0] == s;
    case Node(a, b) =>
      if Height(a) >= Height(b) && AtBottom(a, s) {
        BottomDepth(a, s, d + 1);
        var k :| 0 <= k < |Leaves(a)| && Leaves(a)[k] == s && Depths(a, d + 1)[k] == d + 1 + Height(a);
        assert Leaves(t)[k] == s && Depths(t, d)[k] == d + Height(t);
      } else {
        BottomDepth(b, s, d + 1);
        var k :| 0 <= k < |Leaves(b)| && Leaves(b)[k] == s && Depths(b, d + 1)[k] == d + 1 + Height(b);
        assert Leaves(t)[|Leaves(a)| + k] == s && Depths(t, d)[|Leaves(a)| + k] == d + Height(t);
      }
  }

  /**
   The branch x is no higher than the branch t of the pseudo-symbol, and where it is about as high
   it is chosen later. `first` tells that t is chosen before any other branch of equal weight.
   */
  ghost predicate Shallower(counts: seq<int>, x: Tree, t: Tree, first: bool)
  {
    && Height(x) <= Height(t)
    && (Height(x) == Height(t) ==> Weight(x, counts) > Weight(t, counts) || (Weight(x, counts) == Weight(t, counts) && first))
    && (Height(x) + 1 == Height(t) && Weight(x, counts) == HeavierBranch(t, counts) && Weight(t, counts) == 2 * HeavierBranch(t, counts)
        ==> first)
  }

  /** The branch r holds the pseudo-symbol at its bottom, and no other branch is higher. */
  ghost predicate Deepest(counts: seq<int>, f: map<int, Tree>, r: int, pseudo: int)
  {
    && r in f && AtBottom(f[r], pseudo)
    && (f[r].Leaf? ==> r == pseudo && Weight(f[r], counts) == 1)
    && forall c :: c in f && c != r ==> Shallower(counts, f[c], f[r], r == pseudo)
  }

  /** Two other branches are merged, because both are chosen before t. */
  lemma OthersMerge(counts: seq<int>, t: Tree, first: bool, a: Tree, b: Tree)
    requires Shallower(counts, a, t, first) && Shallower(counts, b, t, first) && t.Node?
    requires Weight(a, counts) >= HeavierBranch(t, counts) > 0 && Weight(b, counts) >= HeavierBranch(t, counts)
    requires Weight(a, counts) < Weight(t, counts) || (Weight(a, counts) == Weight(t, counts) && !first)
    requires Weight(b, counts) < Weight(t, counts) || (Weight(b, counts) == Weight(t, counts) && !first)
    ensures Shallower(counts, Node(a, b), t, first)
  {
  }

  /** The pseudo-symbol's branch is merged with z, while x is left. */
  lemma PseudoMerges(counts: seq<int>, t: Tree, z: Tree, first: bool, first': bool, x: Tree, t': Tree)
    requires Shallower(counts, x, t, first) && Shallower(counts, z, t, first)
    requires Weight(x, counts) >= Weight(t, counts) && Weight(x, counts) >= Weight(z, counts)
    requires t' == Node(t, z) || t' == Node(z, t)
    requires first && Weight(t, counts) == Weight(z, counts) ==> first'
    ensures Shallower(counts, x, t', first')
  {
  }

  /** c is chosen before d. */
  ghost predicate Before(counts: seq<int>, f: map<int, Tree>, c: int, d: int)
    requires c in f && d in f
  {
    Weight(f[c], counts) < Weight(f[d], counts) || (Weight(f[c], counts) == Weight(f[d], counts) && d < c)
  }

  lemma DeepestMerge(counts: seq<int>, f: map<int, Tree>, r: int, pseudo: int, c1: int, c2: int, f': map<int, Tree>)
    requires Deepest(counts, f, r, pseudo) && c1 in f && c2 in f && c1 != c2
    requires forall c :: c in f ==> c <= pseudo && Weight(f[c], counts) > 0
    requires forall c, d :: c in f && d in f && c != d ==> Weight(f[d], counts) >= HeavierBranch(f[c], counts)
    requires forall d :: d in f && d != c1 ==> Before(counts, f, c1, d)
    requires forall d :: d in f && d != c1 && d != c2 ==> Before(counts, f, c2, d)
    requires forall c :: c in f' <==> c in f && c != c2
    requires forall c :: c in f' ==> f'[c] == if c == c1 then Node(f[c1], f[c2]) else f[c]
    ensures Deepest(counts, f', if r == c2 then c1 else r, pseudo)
  {
    hide Shallower, HeavierBranch, Height;
    var r' := if r == c2 then c1 else r;
    if r == c1 || r == c2 {
      var z := if r == c1 then f[c2] else f[c1];
      assert AtBottom(f'[r'], pseudo) by { Lowered(counts, f[r], z, r == pseudo, pseudo, f'[r']); }
      forall c | c in f' && c != r'
        ensures Shallower(counts, f'[c], f'[r'], r' == pseudo)
      {
        PseudoMerges(counts, f[r], z, r == pseudo, r' == pseudo, f[c], f'[r']);
      }
    } else {
      HeavierPositive(f[r], counts);
      OthersMerge(counts, f[r], r == pseudo, f[c1], f[c2]);
    }
  }

  lemma Lowered(counts: seq<int>, t: Tree, z: Tree, first: bool, pseudo: int, t': Tree)
    requires AtBottom(t, pseudo) && Shallower(counts, z, t, first) && (t' == Node(t, z) || t' == Node(z, t))
    ensures AtBottom(t', pseudo)
  {
  }

  lemma HeavierPositive(t: Tree, counts: seq<int>)
    ensures t.Node? && Weight(t, counts) > 0 ==> HeavierBranch(t, counts) > 0
  {
  }
}
