/** Huffman trees as values: merging the two lightest, the weight a deep tree must have, length
    limiting by smoothing, and the code lengths that come out (src/common/xq_huff.c:54-131). */
module HuffTree {
  import opened Bytes

  const SYMBOLS := 256
  const MAX_BITS := 15

  datatype Tree = Leaf(sym: nat, weight: nat) | Node(left: Tree, right: Tree)

  function Weight(t: Tree): nat {
    match t
    case Leaf(_, w) => w
    case Node(l, r) => Weight(l) + Weight(r)
  }

  function Height(t: Tree): nat {
    match t
    case Leaf(_, _) => 0
    case Node(l, r) => 1 + Max(Height(l), Height(r))
  }

  function Syms(t: Tree): set<nat> {
    match t
    case Leaf(s, _) => {s}
    case Node(l, r) => Syms(l) + Syms(r)
  }

  // ----- selecting and merging

  /** The scan for the two lightest trees after `n` steps; -1 is "none yet". */
  function Pick(f: seq<Tree>, n: nat): (r: (int, int))
    requires n <= |f|
    ensures -1 <= r.0 < n && -1 <= r.1 < n
  {
    if n == 0 then (-1, -1)
    else
      var (a, b) := Pick(f, n - 1);
      var w := Weight(f[n - 1]);
      if a < 0 || w < Weight(f[a]) then (n - 1, a)
      else if b < 0 || w < Weight(f[b]) then (a, n - 1)
      else (a, b)
  }

  ghost predicate Lightest(f: seq<Tree>, n: nat, a: int, b: int)
    requires n <= |f|
  {
    && 0 <= a < n && 0 <= b < n && a != b
    && (forall i :: 0 <= i < n ==> Weight(f[a]) <= Weight(f[i]))
    && (forall i :: 0 <= i < n && i != a ==> Weight(f[b]) <= Weight(f[i]))
  }

  lemma {:induction false} PickIsLightest(f: seq<Tree>, n: nat)
    requires n <= |f|
    ensures n == 1 ==> Pick(f, n) == (0, -1)
    ensures n >= 2 ==> Lightest(f, n, Pick(f, n).0, Pick(f, n).1)
  {
    if n == 1 {
      assert Pick(f, 0) == (-1, -1);
    } else if n > 1 {
      PickIsLightest(f, n - 1);
    }
  }

  /** One merge: the new tree takes the lower of the two places, the last tree the higher one. */
  function Merge(f: seq<Tree>): (r: seq<Tree>)
    requires |f| >= 2
    ensures |r| == |f| - 1
  {
    PickIsLightest(f, |f|);
    var (a, b) := Pick(f, |f|);
    var lo, hi := Min(a, b), Max(a, b);
    f[lo := Node(f[a], f[b])][hi := f[|f| - 1]][..|f| - 1]
  }

  function MergeAll(f: seq<Tree>): Tree
    requires |f| >= 1
    decreases |f|
  {
    if |f| == 1 then f[0] else MergeAll(Merge(f))
  }

  /** What every tree of a forest is after a merge: the new one or an old one that was not merged. */
  lemma MergeShape(f: seq<Tree>)
    requires |f| >= 2
    ensures var (a, b) := Pick(f, |f|);
            var r := Merge(f);
            var lo := Min(a, b);
            && Lightest(f, |f|, a, b)
            && r[lo] == Node(f[a], f[b])
            && forall i :: 0 <= i < |r| && i != lo ==>
                 r[i] == f[Old(f, i)] && Old(f, i) != a && Old(f, i) != b
  {
    PickIsLightest(f, |f|);
  }

  /** Where the tree at place `i` after a merge was before it. */
  function Old(f: seq<Tree>, i: nat): (r: nat)
    requires |f| >= 2 && i < |f| - 1
    ensures r < |f|
  {
    var (a, b) := Pick(f, |f|);
    if i == Max(a, b) then |f| - 1 else i
  }

  // ----- sums over a forest

  function Total(f: seq<Tree>): nat {
    if f == [] then 0 else Total(f[..|f| - 1]) + Weight(f[|f| - 1])
  }

  lemma {:induction false} TotalUpdate(f: seq<Tree>, i: nat, t: Tree)
    requires i < |f|
    ensures Total(f[i := t]) + Weight(f[i]) == Total(f) + Weight(t)
  {
    var g := f[i := t];
    if i == |f| - 1 {
      assert g[..|f| - 1] == f[..|f| - 1];
    } else {
      assert g[..|f| - 1] == f[..|f| - 1][i := t];
      TotalUpdate(f[..|f| - 1], i, t);
    }
  }

  lemma TotalLast(f: seq<Tree>)
    requires f != []
    ensures Total(f) == Total(f[..|f| - 1]) + Weight(f[|f| - 1])
  {}

  /** One tree for two, with the last one in the place of the second. */
  lemma JoinTotal(f: seq<Tree>, lo: nat, hi: nat, t: Tree)
    requires lo < hi < |f| && Weight(t) == Weight(f[lo]) + Weight(f[hi])
    ensures Total(f[lo := t][hi := f[|f| - 1]][..|f| - 1]) == Total(f)
  {
    hide Total, Weight;
    var last := f[|f| - 1];
    var g := f[lo := t];
    var h := g[hi := last];
    TotalUpdate(f, lo, t);
    TotalUpdate(g, hi, last);
    TotalLast(h);
  }

  lemma MergeTotal(f: seq<Tree>)
    requires |f| >= 2
    ensures Total(Merge(f)) == Total(f)
  {
    PickIsLightest(f, |f|);
    var (a, b) := Pick(f, |f|);
    assert Weight(Node(f[a], f[b])) == Weight(f[a]) + Weight(f[b]);
    hide Total, Weight, Pick;
    JoinTotal(f, Min(a, b), Max(a, b), Node(f[a], f[b]));
  }

  // ----- a deep tree is heavy

  function Fib(n: nat): nat {
    if n < 2 then n else Fib(n - 1) + Fib(n - 2)
  }

  lemma {:induction false} FibMonotone(m: nat, n: nat)
    requires m <= n
    ensures Fib(m) <= Fib(n)
  {
    if m < n {
      FibMonotone(m, n - 1);
      assert n >= 2 ==> Fib(n) == Fib(n - 1) + Fib(n - 2);
    }
  }

  /** `s` is at least as heavy as each child of `t`. */
  predicate Outweighs(s: Tree, t: Tree) {
    t.Node? ==> Weight(s) >= Weight(t.left) && Weight(s) >= Weight(t.right)
  }

  /** Weights are positive, and siblings outweigh each other's children: what merging the two
      lightest leaves behind in a tree. */
  predicate Greedy(t: Tree) {
    match t
    case Leaf(_, w) => w >= 1
    case Node(l, r) => Greedy(l) && Greedy(r) && Outweighs(l, r) && Outweighs(r, l)
  }

  /** The same between any two trees of a forest. */
  ghost predicate GreedyForest(f: seq<Tree>) {
    && (forall i :: 0 <= i < |f| ==> Greedy(f[i]))
    && (forall i, j :: 0 <= i < |f| && 0 <= j < |f| && i != j ==> Outweighs(f[i], f[j]))
  }

  lemma MergeGreedy(f: seq<Tree>)
    requires |f| >= 2 && GreedyForest(f)
    ensures GreedyForest(Merge(f))
  {
    MergeShape(f);
    var (a, b) := Pick(f, |f|);
    var r, lo := Merge(f), Min(a, b);
    hide Merge, Pick, Old;
    assert Outweighs(f[a], f[b]) && Outweighs(f[b], f[a]);
    forall i, j | 0 <= i < |r| && 0 <= j < |r| && i != j
      ensures Outweighs(r[i], r[j])
    {
      if i == lo {
        assert Outweighs(f[a], f[Old(f, j)]);
      } else if j != lo {
        assert OldDistinct(f, i, j);
      }
    }
  }

  predicate OldDistinct(f: seq<Tree>, i: nat, j: nat)
    requires |f| >= 2 && i < |f| - 1 && j < |f| - 1
  {
    Old(f, i) != Old(f, j)
  }

  /** Height h needs weight F(h + 2). */
  lemma {:induction false} DeepIsHeavy(t: Tree)
    requires Greedy(t)
    ensures Weight(t) >= Fib(Height(t) + 2)
  {
    match t
    case Leaf(_, _) =>
    case Node(l, r) =>
      DeepIsHeavy(l);
      DeepIsHeavy(r);
      if Height(l) >= Height(r) {
        ChildIsHeavy(l, r);
      } else {
        ChildIsHeavy(r, l);
      }
  }

  lemma {:induction false} ChildIsHeavy(deep: Tree, other: Tree)
    requires Greedy(deep) && Greedy(other) && Outweighs(other, deep)
    requires Weight(deep) >= Fib(Height(deep) + 2)
    ensures Weight(deep) + Weight(other) >= Fib(Height(deep) + 3)
    decreases deep, 0
  {
    if deep.Leaf? {
      assert Fib(3) == 2;
      PositiveWeight(other);
    } else {
      var c := if Height(deep.left) >= Height(deep.right) then deep.left else deep.right;
      DeepIsHeavy(c);
      assert Height(c) + 1 == Height(deep) && Weight(other) >= Weight(c);
    }
  }

  lemma {:induction false} PositiveWeight(t: Tree)
    requires Greedy(t)
    ensures Weight(t) >= 1
  {
    if t.Node? {
      PositiveWeight(t.left);
    }
  }

  lemma {:induction false} MergeAllGreedy(f: seq<Tree>)
    requires |f| >= 1 && GreedyForest(f)
    ensures Greedy(MergeAll(f)) && Weight(MergeAll(f)) == Total(f)
    decreases |f|
  {
    if |f| == 1 {
      assert f[..0] == [];
    } else {
      MergeGreedy(f);
      MergeTotal(f);
      MergeAllGreedy(Merge(f));
    }
  }

  /** Below total weight F(18) = 2584 no code is longer than 15 bits. */
  lemma LightIsShallow(f: seq<Tree>)
    requires |f| >= 1 && GreedyForest(f) && Total(f) < 2584
    ensures Height(MergeAll(f)) <= MAX_BITS
  {
    hide MergeAll, GreedyForest, Total;
    MergeAllGreedy(f);
    var t := MergeAll(f);
    DeepIsHeavy(t);
    Fib18();
    FibMonotone(18, Max(18, Height(t) + 2));
  }

  lemma Fib18()
    ensures Fib(18) == 2584
  {
    hide *;
    FibStep(0, 0, 1);
    FibStep(2, 1, 2);
    FibStep(4, 3, 5);
    FibStep(6, 8, 13);
    FibStep(8, 21, 34);
    FibStep(10, 55, 89);
    FibStep(12, 144, 233);
    FibStep(14, 377, 610);
    FibStep(16, 987, 1597);
  }

  lemma FibStep(n: nat, x: nat, y: nat)
    requires n == 0 || (Fib(n) == x && Fib(n + 1) == y)
    requires n == 0 ==> x == 0 && y == 1
    ensures Fib(n + 2) == x + y && Fib(n + 3) == x + 2 * y
  {}
}
