/** Building a Huffman code in place: the merge loop over index arrays, the parent walk, smoothing
    and the numbering of codes (src/common/xq_huff.c:54-162). */
module HuffBuild {
  import opened Bytes
  import opened HuffTree
  import opened HuffCode
  import opened HuffLens
  import opened HuffStream

  /** Steps from node `i` up to the node that has no parent. */
  ghost function Climb(parent: seq<int>, i: nat): nat
    decreases |parent| - i
  {
    if i < |parent| && i < parent[i] < |parent| then 1 + Climb(parent, parent[i]) else 0
  }

  // ----- the arrays of one attempt, as values

  /** Leaves come first, in symbol order; every node's weight is its tree's. */
  ghost predicate LeafNodes(node: seq<nat>, weight: seq<nat>, trees: seq<Tree>, nnodes: nat) {
    && nnodes <= |node| && nnodes <= |trees| <= |weight|
    && (forall i :: 0 <= i < nnodes ==> trees[i].Leaf? && trees[i].sym == node[i] < SYMBOLS)
    && (forall i, j :: 0 <= i < j < nnodes ==> node[i] < node[j])
    && (forall i :: 0 <= i < |trees| ==> weight[i] == Weight(trees[i]))
  }

  ghost predicate Joined(parent: seq<int>, trees: seq<Tree>, i: nat, kid: (nat, nat)) {
    && kid.0 < i < |trees| <= |parent| && kid.1 < i
    && trees[i] == Node(trees[kid.0], trees[kid.1])
    && parent[kid.0] == i && parent[kid.1] == i
  }

  /** Node `nnodes + k` was merged from the two nodes `kids[k]`. */
  ghost predicate MergedNodes(parent: seq<int>, trees: seq<Tree>, kids: seq<(nat, nat)>, nnodes: nat) {
    && |trees| == nnodes + |kids| && |trees| <= |parent|
    && (forall k :: 0 <= k < |kids| ==> Joined(parent, trees, nnodes + k, kids[k]))
  }

  /** The live nodes are the ones without a parent; their trees are the forest. */
  ghost predicate Roots(parent: seq<int>, live: seq<nat>, trees: seq<Tree>, forest: seq<Tree>) {
    && |forest| <= |live| && |trees| <= |parent|
    && (forall k :: 0 <= k < |forest| ==> live[k] < |trees| && forest[k] == trees[live[k]] && parent[live[k]] == -1)
    && (forall j, k :: 0 <= j < k < |forest| ==> live[j] != live[k])
    && (forall i :: 0 <= i < |trees| ==> parent[i] == -1 || i < parent[i] < |trees|)
  }

  lemma JoinLeafNodes(node: seq<nat>, weight: seq<nat>, trees: seq<Tree>, nnodes: nat, na: nat, nb: nat)
    requires LeafNodes(node, weight, trees, nnodes) && na < |trees| < |weight| && nb < |trees|
    ensures LeafNodes(node, weight[|trees| := weight[na] + weight[nb]], trees + [Node(trees[na], trees[nb])], nnodes)
  {
    assert Weight(Node(trees[na], trees[nb])) == weight[na] + weight[nb];
    hide Weight;
  }

  lemma JoinMergedNodes(parent: seq<int>, trees: seq<Tree>, kids: seq<(nat, nat)>, nnodes: nat, na: nat, nb: nat)
    requires MergedNodes(parent, trees, kids, nnodes) && |trees| < |parent|
    requires na < |trees| && nb < |trees| && parent[na] == -1 && parent[nb] == -1
    ensures MergedNodes(parent[|trees| := -1][na := |trees|][nb := |trees|], trees + [Node(trees[na], trees[nb])], kids + [(na, nb)], nnodes)
  {
    var p, t, ks := parent[|trees| := -1][na := |trees|][nb := |trees|], trees + [Node(trees[na], trees[nb])], kids + [(na, nb)];
    forall k | 0 <= k < |ks|
      ensures Joined(p, t, nnodes + k, ks[k])
    {
      if k < |kids| {
        assert Joined(parent, trees, nnodes + k, kids[k]);
      }
    }
  }

  /** The live nodes stay different when a new one takes a place and the last one another. */
  lemma StayApart(live: seq<nat>, count: nat, n: nat, lo: nat, hi: nat)
    requires lo < hi < count <= |live| && forall j, k :: 0 <= j < k < count ==> live[j] != live[k]
    requires forall k :: 0 <= k < count ==> live[k] < n
    ensures var l := live[lo := n][hi := live[count - 1]]; forall j, k :: 0 <= j < k < count - 1 ==> l[j] != l[k]
  {}

  lemma JoinRoots(parent: seq<int>, live: seq<nat>, trees: seq<Tree>, forest: seq<Tree>, a: nat, b: nat)
    requires Roots(parent, live, trees, forest) && |trees| < |parent|
    requires a < |forest| && b < |forest| && a != b
    ensures var na, nb := live[a], live[b];
            var t := Node(trees[na], trees[nb]);
            var last := |forest| - 1;
            var lo, hi := Min(a, b), Max(a, b);
            Roots(parent[|trees| := -1][na := |trees|][nb := |trees|],
                  live[lo := |trees|][hi := live[last]],
                  trees + [t],
                  forest[lo := t][hi := forest[last]][..last])
  {
    hide Weight;
    var na, nb := live[a], live[b];
    var n := |trees|;
    var t := Node(trees[na], trees[nb]);
    var last := |forest| - 1;
    var lo, hi := Min(a, b), Max(a, b);
    var p, l, ts, f := parent[n := -1][na := n][nb := n], live[lo := n][hi := live[last]], trees + [t], forest[lo := t][hi := forest[last]][..last];
    forall k | 0 <= k < |f|
      ensures l[k] < |ts| && f[k] == ts[l[k]] && p[l[k]] == -1
    {
      if k == lo {
      } else {
        var j := if k == hi then last else k;
        assert l[k] == live[j] && f[k] == forest[j];
      }
    }
    StayApart(live, |forest|, n, lo, hi);
  }

  ghost predicate Consistent(parent: seq<int>, weight: seq<nat>, node: seq<nat>, live: seq<nat>, trees: seq<Tree>, kids: seq<(nat, nat)>, forest: seq<Tree>, nnodes: nat) {
    LeafNodes(node, weight, trees, nnodes) && MergedNodes(parent, trees, kids, nnodes) && Roots(parent, live, trees, forest)
  }

  lemma JoinConsistent(parent: seq<int>, weight: seq<nat>, node: seq<nat>, live: seq<nat>, trees: seq<Tree>, kids: seq<(nat, nat)>, forest: seq<Tree>, nnodes: nat, a: nat, b: nat)
    requires Consistent(parent, weight, node, live, trees, kids, forest, nnodes)
    requires |trees| < |parent| && |trees| < |weight| && a < |forest| && b < |forest| && a != b
    ensures |forest| <= |live| && live[a] < |trees| && live[b] < |trees|
    ensures forest[a] == trees[live[a]] && forest[b] == trees[live[b]]
    ensures var na, nb, n := live[a], live[b], |trees|;
            var t, last := Node(trees[na], trees[nb]), |forest| - 1;
            Consistent(parent[n := -1][na := n][nb := n],
                       weight[n := weight[na] + weight[nb]],
                       node,
                       live[Min(a, b) := n][Max(a, b) := live[last]],
                       trees + [t], kids + [(na, nb)],
                       forest[Min(a, b) := t][Max(a, b) := forest[last]][..last],
                       nnodes)
  {
    LiveIsNode(parent, live, trees, forest, a);
    LiveIsNode(parent, live, trees, forest, b);
    hide LeafNodes, MergedNodes, Roots;
    var na, nb := live[a], live[b];
    JoinLeafNodes(node, weight, trees, nnodes, na, nb);
    JoinMergedNodes(parent, trees, kids, nnodes, na, nb);
    JoinRoots(parent, live, trees, forest, a, b);
  }

  /** Counting parents up from a leaf below node `n` passes `n` after its depth under `n`. */
  lemma {:induction false} ClimbIsDepth(parent: seq<int>, node: seq<nat>, weight: seq<nat>, trees: seq<Tree>, kids: seq<(nat, nat)>, nnodes: nat, n: nat, i: nat)
    requires LeafNodes(node, weight, trees, nnodes) && MergedNodes(parent, trees, kids, nnodes) && |parent| == |trees|
    requires n < |trees| && i < nnodes && node[i] in Syms(trees[n])
    ensures Climb(parent, i) == Climb(parent, n) + LeafDepth(trees[n], node[i])
    decreases n
  {
    hide Weight;
    if n >= nnodes {
      var kid := kids[n - nnodes];
      assert Joined(parent, trees, nnodes + (n - nnodes), kid);
      var c := if node[i] in Syms(trees[kid.1]) then kid.1 else kid.0;
      ClimbIsDepth(parent, node, weight, trees, kids, nnodes, c, i);
    }
  }

  // ----- the leaves

  /** The `n` used symbols below `sym` are leaves and live, and nothing has been merged. */
  ghost predicate Planted(parent: seq<int>, weight: seq<nat>, node: seq<nat>, live: seq<nat>, trees: seq<Tree>, n: nat, sym: nat) {
    && |trees| == n <= sym && |parent| == |weight| == 2 * SYMBOLS && |node| == |live| == SYMBOLS && sym <= SYMBOLS
    && LeafNodes(node, weight, trees, n)
    && forall k :: 0 <= k < n ==> node[k] < sym && live[k] == k && parent[k] == -1
  }

  lemma NothingPlanted(parent: seq<int>, weight: seq<nat>, node: seq<nat>, live: seq<nat>)
    requires |parent| == |weight| == 2 * SYMBOLS && |node| == |live| == SYMBOLS
    ensures Planted(parent, weight, node, live, [], 0, 0)
  {}

  lemma PlantNothing(parent: seq<int>, weight: seq<nat>, node: seq<nat>, live: seq<nat>, trees: seq<Tree>, n: nat, sym: nat)
    requires Planted(parent, weight, node, live, trees, n, sym) && sym < SYMBOLS
    ensures Planted(parent, weight, node, live, trees, n, sym + 1)
  {
    hide LeafNodes;
  }

  lemma PlantLeaf(parent: seq<int>, weight: seq<nat>, node: seq<nat>, live: seq<nat>, trees: seq<Tree>, n: nat, sym: nat, w: nat)
    requires Planted(parent, weight, node, live, trees, n, sym) && sym < SYMBOLS
    ensures n < SYMBOLS
    ensures Planted(parent[n := -1], weight[n := w], node[n := sym], live[n := n], trees + [Leaf(sym, w)], n + 1, sym + 1)
  {
    assert Weight(Leaf(sym, w)) == w;
    hide Weight;
  }

  lemma PlantedIsConsistent(parent: seq<int>, weight: seq<nat>, node: seq<nat>, live: seq<nat>, trees: seq<Tree>, n: nat, sym: nat)
    requires Planted(parent, weight, node, live, trees, n, sym)
    ensures Consistent(parent, weight, node, live, trees, [], trees, n)
    ensures forall i :: 0 <= i < n ==> trees[i].Leaf? && trees[i].sym == node[i]
  {
    hide Weight;
  }

  // ----- the arrays in memory

  class Builder {
    const parent: array<int>
    const weight: array<nat>
    const node: array<nat>
    const live: array<nat>
    var nnodes: nat
    var nlive: nat
    var total: nat
    ghost var trees: seq<Tree>         // the tree under every node
    ghost var kids: seq<(nat, nat)>    // the nodes merged into node nnodes + k
    ghost var forest: seq<Tree>        // the trees of the live nodes

    ghost predicate Separate() {
      && parent.Length == 2 * SYMBOLS && weight.Length == 2 * SYMBOLS && node.Length == SYMBOLS && live.Length == SYMBOLS
      && weight != node && weight != live && node != live
      && (weight as object) != parent && (node as object) != parent && (live as object) != parent
    }

    ghost predicate Valid()
      reads this, parent, weight, node, live
    {
      && Separate() && total == |trees| && nlive == |forest| && total + nlive <= 2 * nnodes
      && nnodes <= SYMBOLS
      && Consistent(parent[..], weight[..], node[..], live[..], trees, kids, forest, nnodes)
    }

    constructor (freq: seq<nat>)
      requires |freq| == SYMBOLS
      ensures Valid() && forest == Leaves(freq, SYMBOLS) && nlive == nnodes
      ensures forall i :: 0 <= i < nnodes ==> forest[i].Leaf? && forest[i].sym == node[i]
      ensures fresh(parent) && fresh(weight) && fresh(node) && fresh(live)
    {
      parent, weight := new int[2 * SYMBOLS], new nat[2 * SYMBOLS];
      node, live := new nat[SYMBOLS], new nat[SYMBOLS];
      nnodes, nlive, total := 0, 0, 0;
      trees, kids, forest := [], [], [];
      new;
      var i := 0;
      assert Leaves(freq, 0) == [];
      NothingPlanted(parent[..], weight[..], node[..], live[..]);
      hide Planted, Leaves;
      while i < SYMBOLS
        invariant 0 <= i <= SYMBOLS && Separate() && kids == [] && nlive == total == nnodes && forest == trees == Leaves(freq, i)
        invariant Planted(parent[..], weight[..], node[..], live[..], trees, nnodes, i)
      {
        LeavesStep(freq, i);
        if freq[i] != 0 {
          AddLeaf(i, freq[i]);
        } else {
          PlantNothing(parent[..], weight[..], node[..], live[..], trees, nnodes, i);
        }
        i := i + 1;
      }
      PlantedIsConsistent(parent[..], weight[..], node[..], live[..], trees, nnodes, SYMBOLS);
      hide Consistent;
    }

    method AddLeaf(sym: nat, w: nat)
      requires Separate() && kids == [] && nlive == total == nnodes && forest == trees && sym < SYMBOLS
      requires Planted(parent[..], weight[..], node[..], live[..], trees, nnodes, sym)
      modifies this, parent, weight, node, live
      ensures Separate() && kids == [] && nlive == total == nnodes && forest == trees == old(trees) + [Leaf(sym, w)]
      ensures Planted(parent[..], weight[..], node[..], live[..], trees, nnodes, sym + 1)
    {
      PlantLeaf(parent[..], weight[..], node[..], live[..], trees, nnodes, sym, w);
      hide Planted;
      weight[nnodes] := w;
      parent[nnodes] := -1;
      node[nnodes] := sym;
      live[nnodes] := nnodes;
      assert weight[..] == old(weight[..])[nnodes := w] && parent[..] == old(parent[..])[nnodes := -1];
      assert node[..] == old(node[..])[nnodes := sym] && live[..] == old(live[..])[nnodes := nnodes];
      trees := trees + [Leaf(sym, w)];
      forest := trees;
      nnodes, nlive, total := nnodes + 1, nlive + 1, total + 1;
    }

    method Select() returns (a: int, b: int)
      requires Valid()
      ensures (a, b) == Pick(forest, nlive)
    {
      hide Pick, MergedNodes;
      a, b := -1, -1;
      var i := 0;
      PickStart(forest);
      while i < nlive
        invariant 0 <= i <= nlive
        invariant (a, b) == Pick(forest, i)
      {
        PickStep(forest, i + 1);
        if a < 0 || weight[live[i]] < weight[live[a]] {
          b := a;
          a := i;
        } else if b < 0 || weight[live[i]] < weight[live[b]] {
          b := i;
        }
        i := i + 1;
      }
    }

    /** Merges the two lightest live trees. */
    method MergeTwo()
      requires Valid() && nlive >= 2
      modifies this, parent, weight, live
      ensures Valid() && forest == Merge(old(forest)) && nlive == old(nlive) - 1 && nnodes == old(nnodes)
    {
      hide Consistent, Merge;
      var a, b := Select();
      PickIsLightest(forest, nlive);
      Join(a, b);
    }

    method Join(a: nat, b: nat)
      requires Valid() && nlive >= 2 && a < nlive && b < nlive && a != b && (a, b) == Pick(forest, nlive)
      modifies this, parent, weight, live
      ensures Valid() && forest == Merge(old(forest)) && nlive == old(nlive) - 1 && nnodes == old(nnodes)
    {
      hide Consistent, Pick, Merge;
      ghost var p, w, l := parent[..], weight[..], live[..];
      JoinConsistent(p, w, node[..], l, trees, kids, forest, nnodes, a, b);
      MergeIs(forest, a, b);
      Relink(a, b);
      nlive := nlive - 1;
      ghost var t := Node(trees[l[a]], trees[l[b]]);
      forest := forest[Min(a, b) := t][Max(a, b) := forest[nlive]][..nlive];
      trees := trees + [t];
      kids := kids + [(l[a], l[b])];
      total := total + 1;
    }

    /** The writes of one merge. */
    method Relink(a: nat, b: nat)
      requires Separate() && a < nlive <= SYMBOLS && b < nlive && a != b
      requires total < 2 * SYMBOLS && live[a] < total && live[b] < total
      modifies parent, weight, live
      ensures var l, w := old(live[..]), old(weight[..]);
              && weight[..] == w[total := w[l[a]] + w[l[b]]]
              && parent[..] == old(parent[..])[total := -1][l[a] := total][l[b] := total]
              && live[..] == l[Min(a, b) := total][Max(a, b) := l[nlive - 1]]
    {
      var na, nb := live[a], live[b];
      weight[total] := weight[na] + weight[nb];
      parent[total] := -1;
      parent[na] := total;
      parent[nb] := total;
      var hi := if a > b then a else b;
      var lo := if a < b then a else b;
      live[lo] := total;
      live[hi] := live[nlive - 1];
    }

    method MergeDown()
      requires Valid() && nlive >= 1
      modifies this, parent, weight, live
      ensures Valid() && nlive == 1 && nnodes == old(nnodes) && forest == [MergeAll(old(forest))]
    {
      hide Merge, Consistent;
      while nlive > 1
        invariant Valid() && nlive >= 1 && nnodes == old(nnodes)
        invariant MergeAll(forest) == MergeAll(old(forest))
      {
        MergeTwo();
      }
    }

    /** Counting parents up from a leaf gives its depth in the tree. */
    method LeafLength(i: nat) returns (len: nat)
      requires Valid() && nlive == 1 && i < nnodes && node[i] in Syms(forest[0])
      ensures len == LeafDepth(forest[0], node[i])
    {
      hide Weight;
      len := 0;
      ghost var up := parent[..total];
      var p := parent[i];
      while p >= 0
        invariant p == -1 || i < p < total
        invariant len + (if p < 0 then 0 else 1 + Climb(up, p)) == Climb(up, i)
        decreases if p < 0 then 0 else total - p
      {
        len := len + 1;
        p := parent[p];
      }
      MergedShorter(parent[..], trees, kids, nnodes);
      ClimbIsDepth(up, node[..], weight[..], trees, kids, nnodes, live[0], i);
    }
  }

  lemma LiveIsNode(parent: seq<int>, live: seq<nat>, trees: seq<Tree>, forest: seq<Tree>, k: nat)
    requires Roots(parent, live, trees, forest) && k < |forest|
    ensures live[k] < |trees| && forest[k] == trees[live[k]] && parent[live[k]] == -1
  {}

  lemma MergeIs(f: seq<Tree>, a: nat, b: nat)
    requires |f| >= 2 && a < |f| && b < |f| && (a, b) == Pick(f, |f|)
    ensures Merge(f) == f[Min(a, b) := Node(f[a], f[b])][Max(a, b) := f[|f| - 1]][..|f| - 1]
  {}

  lemma MergedShorter(parent: seq<int>, trees: seq<Tree>, kids: seq<(nat, nat)>, nnodes: nat)
    requires MergedNodes(parent, trees, kids, nnodes)
    ensures MergedNodes(parent[..|trees|], trees, kids, nnodes)
  {
    forall k | 0 <= k < |kids|
      ensures Joined(parent[..|trees|], trees, nnodes + k, kids[k])
    {
      assert Joined(parent, trees, nnodes + k, kids[k]);
    }
  }

  lemma LeavesStep(freq: seq<nat>, i: nat)
    requires i < |freq|
    ensures Leaves(freq, i + 1) == if freq[i] > 0 then Leaves(freq, i) + [Leaf(i, freq[i])] else Leaves(freq, i)
  {
    assert Leaves(freq, i) + [] == Leaves(freq, i);
  }

  lemma PickStart(f: seq<Tree>)
    ensures Pick(f, 0) == (-1, -1)
  {}

  lemma PickStep(f: seq<Tree>, n: nat)
    requires 0 < n <= |f|
    ensures var (a, b) := Pick(f, n - 1);
            var w := Weight(f[n - 1]);
            Pick(f, n) == if a < 0 || w < Weight(f[a]) then (n - 1, a)
                          else if b < 0 || w < Weight(f[b]) then (a, n - 1) else (a, b)
  {}
}
