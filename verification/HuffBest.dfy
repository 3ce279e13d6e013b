/** Huffman's tree is the best there is: no prefix-free code takes fewer bits for the same counts, and so the coded
    body is the shortest any code of whole bits could make it, as long as no code had to be shortened to fifteen bits
    (src/common/xq_huff.c:54-131, src/codec/xq_codec_lze.c:105-140). */
module HuffBest {
  import opened Bytes
  import opened HuffTree
  import opened HuffCode
  import opened HuffLens
  import opened HuffKraft
  import opened HuffStream
  import opened LzeStream

  // ----- sums

  lemma SumLast(v: seq<nat>)
    requires v != []
    ensures Sum(v) == Sum(v[..|v| - 1]) + v[|v| - 1]
  {}

  lemma {:induction false} SumUpdate(v: seq<nat>, i: nat, x: nat)
    requires i < |v|
    ensures Sum(v[i := x]) + v[i] == Sum(v) + x
  {
    var w := v[i := x];
    if i == |v| - 1 {
      assert w[..|v| - 1] == v[..|v| - 1];
    } else {
      assert w[..|v| - 1] == v[..|v| - 1][i := x];
      SumUpdate(v[..|v| - 1], i, x);
    }
  }

  /** One term for two, with the last one in the place of the second. */
  lemma SumJoin(v: seq<nat>, lo: nat, hi: nat, z: nat)
    requires lo < hi < |v|
    ensures Sum(v[lo := z][hi := v[|v| - 1]][..|v| - 1]) + v[lo] + v[hi] == Sum(v) + z
  {
    hide Sum;
    var last := v[|v| - 1];
    SumUpdate(v, lo, z);
    SumUpdate(v[lo := z], hi, last);
    SumLast(v[lo := z][hi := last]);
  }

  // ----- what a forest costs at given depths

  function Products(w: seq<nat>, l: seq<nat>): (p: seq<nat>)
    requires |w| == |l|
    ensures |p| == |w|
  {
    seq(|w|, i requires 0 <= i < |w| => w[i] * l[i])
  }

  function Cost(w: seq<nat>, l: seq<nat>): nat
    requires |w| == |l|
  {
    Sum(Products(w, l))
  }

  /** What codes of these lengths leave of the strings of `m` bits. */
  function Slots(l: seq<nat>, m: nat): (p: seq<nat>)
    requires forall i :: 0 <= i < |l| ==> l[i] <= m
    ensures |p| == |l|
  {
    seq(|l|, i requires 0 <= i < |l| => Pow2(m - l[i]))
  }

  /** Depths a tree can have: Kraft's inequality. */
  predicate Fit(l: seq<nat>, m: nat) {
    (forall i :: 0 <= i < |l| ==> l[i] <= m) && Sum(Slots(l, m)) <= Pow2(m)
  }

  lemma CostUpdate(w: seq<nat>, l: seq<nat>, i: nat, x: nat)
    requires |w| == |l| && i < |l|
    ensures Cost(w, l[i := x]) + w[i] * l[i] == Cost(w, l) + w[i] * x
  {
    hide Sum;
    assert Products(w, l[i := x]) == Products(w, l)[i := w[i] * x];
    SumUpdate(Products(w, l), i, w[i] * x);
  }

  lemma SlotsUpdate(l: seq<nat>, m: nat, i: nat, x: nat)
    requires i < |l| && x <= m && forall k :: 0 <= k < |l| ==> l[k] <= m
    ensures Sum(Slots(l[i := x], m)) + Pow2(m - l[i]) == Sum(Slots(l, m)) + Pow2(m - x)
  {
    hide Sum, Pow2;
    assert Slots(l[i := x], m) == Slots(l, m)[i := Pow2(m - x)];
    SumUpdate(Slots(l, m), i, Pow2(m - x));
  }

  lemma LighterDeeper(a: nat, b: nat, x: nat, y: nat)
    requires a <= b && x <= y
    ensures a * y + b * x <= a * x + b * y
  {
    assert (b - a) * (y - x) >= 0;
    assert (b - a) * (y - x) == b * y - b * x - a * y + a * x;
  }

  /** Giving the lighter of two the larger depth costs no more, and fits as before. */
  lemma Swap(w: seq<nat>, l: seq<nat>, m: nat, i: nat, j: nat)
    requires |w| == |l| && i < |l| && j < |l| && i != j && Fit(l, m) && w[i] <= w[j] && l[i] <= l[j]
    ensures var r := l[i := l[j]][j := l[i]]; Fit(r, m) && Cost(w, r) <= Cost(w, l)
  {
    hide Cost, Slots, Pow2, Sum;
    var l1 := l[i := l[j]];
    CostUpdate(w, l, i, l[j]);
    CostUpdate(w, l1, j, l[i]);
    SlotsUpdate(l, m, i, l[j]);
    SlotsUpdate(l1, m, j, l[i]);
    LighterDeeper(w[i], w[j], l[i], l[j]);
  }

  lemma {:induction false} Deepest(l: seq<nat>) returns (j: nat)
    requires l != []
    ensures j < |l| && forall i :: 0 <= i < |l| ==> l[i] <= l[j]
  {
    var n := |l| - 1;
    if n == 0 {
      j := 0;
    } else {
      j := Deepest(l[..n]);
      assert l[..n][j] == l[j] && forall i :: 0 <= i < n ==> l[i] == l[..n][i];
      if l[j] < l[n] {
        j := n;
      }
    }
  }

  /** Slots of depths up to `d` come in multiples of the smallest. */
  lemma {:induction false} SlotsDivide(l: seq<nat>, m: nat, d: nat) returns (q: nat)
    requires d <= m && forall i :: 0 <= i < |l| ==> l[i] <= d
    ensures Sum(Slots(l, m)) == Pow2(m - d) * q
  {
    hide Pow2;
    if l == [] {
      q := 0;
    } else {
      var n := |l| - 1;
      var p := SlotsDivide(l[..n], m, d);
      assert Slots(l, m)[..n] == Slots(l[..n], m);
      Pow2Add(m - d, d - l[n]);
      q := p + Pow2(d - l[n]);
      Distribute(Pow2(m - d), p, Pow2(d - l[n]));
    }
  }

  lemma Distribute(u: nat, p: nat, q: nat)
    ensures u * (p + q) == u * p + u * q
  {}

  /** A lone deepest leaf has room one level up. */
  lemma LoneLeafRises(l: seq<nat>, m: nat, a: nat)
    requires a < |l| && Fit(l, m) && l[a] > 0 && forall i :: 0 <= i < |l| && i != a ==> l[i] < l[a]
    ensures Fit(l[a := l[a] - 1], m)
  {
    hide Pow2, Sum, Slots;
    var d := l[a];
    var v := l[a := d - 1];
    SlotsUpdate(l, m, a, d - 1);
    var q := SlotsDivide(v, m, d - 1);
    Pow2Next(m - d);
    Pow2Add(m - d + 1, d - 1);
    Rounds(Pow2(m - d), q, Pow2(d - 1));
  }

  lemma Rounds(u: nat, q: nat, p: nat)
    requires u > 0 && 2 * u * q <= 2 * u * p + u
    ensures 2 * u * q <= 2 * u * p
  {
    if q > p {
      MulMonotone(2 * u, p + 1, q);
    }
  }

  lemma TwoNeedDepth(l: seq<nat>, m: nat)
    requires |l| >= 2 && Fit(l, m)
    ensures exists i :: 0 <= i < |l| && l[i] > 0
  {
    LastTwo(Slots(l, m));
    hide Sum;
    if forall i :: 0 <= i < |l| ==> l[i] == 0 {
      assert false;
    }
  }

  lemma LastTwo(v: seq<nat>)
    requires |v| >= 2
    ensures v[|v| - 1] + v[|v| - 2] <= Sum(v)
  {
    SumLast(v);
    SumLast(v[..|v| - 1]);
  }

  /** The two lightest of the forest. */
  ghost predicate Light(w: seq<nat>, a: nat, b: nat) {
    && a < |w| && b < |w| && a != b
    && (forall i :: 0 <= i < |w| ==> w[a] <= w[i]) && (forall i :: 0 <= i < |w| && i != a ==> w[b] <= w[i])
  }

  /** Any depths can be changed, at no cost, so that the two lightest are brothers. */
  lemma {:induction false} Brothers(w: seq<nat>, l: seq<nat>, m: nat, a: nat, b: nat) returns (r: seq<nat>)
    requires |w| == |l| && Light(w, a, b) && Fit(l, m)
    ensures |r| == |l| && Fit(r, m) && Cost(w, r) <= Cost(w, l) && r[a] == r[b] > 0
    decreases Sum(l)
  {
    hide Cost, Slots, Sum, Fit;
    var j := Deepest(l);
    TwoNeedDepth(l, m);
    r := LowerFirst(w, l, m, a, j);
    if k :| 0 <= k < |r| && k != a && r[k] == r[a] {
      if k != b {
        Swap(w, r, m, b, k);
        r := r[b := r[k]][k := r[b]];
      }
    } else {
      LoneLeafRises(r, m, a);
      CostUpdate(w, r, a, r[a] - 1);
      MulMonotone(w[a], r[a] - 1, r[a]);
      SumUpdate(r, a, r[a] - 1);
      r := Brothers(w, r[a := r[a] - 1], m, a, b);
    }
  }

  lemma LowerFirst(w: seq<nat>, l: seq<nat>, m: nat, a: nat, j: nat) returns (r: seq<nat>)
    requires |w| == |l| && a < |l| && j < |l| && Fit(l, m) && w[a] <= w[j] && forall i :: 0 <= i < |l| ==> l[i] <= l[j]
    requires exists i :: 0 <= i < |l| && l[i] > 0
    ensures |r| == |l| && Fit(r, m) && Cost(w, r) <= Cost(w, l) && Sum(r) == Sum(l) && r[a] > 0
    ensures forall i :: 0 <= i < |r| ==> r[i] <= r[a]
  {
    hide Cost, Slots, Sum, Fit;
    r := l;
    if a != j {
      Swap(w, l, m, a, j);
      SumUpdate(l, a, l[j]);
      SumUpdate(l[a := l[j]], j, l[a]);
      r := l[a := l[j]][j := l[a]];
    }
  }

  // ----- merging is best

  /** The bits a tree's leaves take, weighted. */
  function Path(t: Tree): nat {
    match t
    case Leaf(_, _) => 0
    case Node(l, r) => Path(l) + Path(r) + Weight(t)
  }

  function Weights(f: seq<Tree>): (w: seq<nat>)
    ensures |w| == |f|
  {
    seq(|f|, i requires 0 <= i < |f| => Weight(f[i]))
  }

  function Paths(f: seq<Tree>): (p: seq<nat>)
    ensures |p| == |f|
  {
    seq(|f|, i requires 0 <= i < |f| => Path(f[i]))
  }

  function Joined<T>(v: seq<T>, lo: nat, hi: nat, z: T): seq<T>
    requires lo < hi < |v|
  {
    v[lo := z][hi := v[|v| - 1]][..|v| - 1]
  }

  lemma MergeJoins(f: seq<Tree>)
    requires |f| >= 2
    ensures var (a, b) := Pick(f, |f|);
            && Lightest(f, |f|, a, b)
            && Merge(f) == Joined(f, Min(a, b), Max(a, b), Node(f[a], f[b]))
  {
    PickIsLightest(f, |f|);
  }

  lemma WeightsJoin(f: seq<Tree>, lo: nat, hi: nat, t: Tree)
    requires lo < hi < |f|
    ensures Weights(Joined(f, lo, hi, t)) == Joined(Weights(f), lo, hi, Weight(t))
    ensures Paths(Joined(f, lo, hi, t)) == Joined(Paths(f), lo, hi, Path(t))
  {
    hide Weight, Path;
  }

  lemma ProductsJoin(w: seq<nat>, l: seq<nat>, lo: nat, hi: nat, x: nat, y: nat)
    requires |w| == |l| && lo < hi < |w|
    ensures Products(Joined(w, lo, hi, x), Joined(l, lo, hi, y)) == Joined<nat>(Products(w, l), lo, hi, x * y)
  {}

  lemma SlotsJoin(l: seq<nat>, m: nat, lo: nat, hi: nat, y: nat)
    requires lo < hi < |l| && y <= m && forall i :: 0 <= i < |l| ==> l[i] <= m
    ensures forall i :: 0 <= i < |l| - 1 ==> Joined(l, lo, hi, y)[i] <= m
    ensures Slots(Joined(l, lo, hi, y), m) == Joined<nat>(Slots(l, m), lo, hi, Pow2(m - y))
  {
    hide Pow2;
  }

  /** Brothers' father takes their room one level up, and the rest as before. */
  lemma FatherFits(l: seq<nat>, m: nat, lo: nat, hi: nat)
    requires lo < hi < |l| && Fit(l, m) && l[lo] == l[hi] > 0
    ensures Fit(Joined(l, lo, hi, l[lo] - 1), m)
  {
    hide Pow2, Sum, Slots, Joined;
    var d := l[lo];
    SlotsJoin(l, m, lo, hi, d - 1);
    JoinSum(Slots(l, m), lo, hi, Pow2(m - d + 1));
    Pow2Next(m - d);
    SlotsAt(l, m, lo);
    SlotsAt(l, m, hi);
    JoinLength(l, lo, hi, d - 1);
  }

  lemma JoinSum(v: seq<nat>, lo: nat, hi: nat, z: nat)
    requires lo < hi < |v|
    ensures Sum(Joined<nat>(v, lo, hi, z)) + v[lo] + v[hi] == Sum(v) + z
  {
    hide Sum;
    SumJoin(v, lo, hi, z);
  }

  lemma SlotsAt(l: seq<nat>, m: nat, i: nat)
    requires i < |l| && forall k :: 0 <= k < |l| ==> l[k] <= m
    ensures Slots(l, m)[i] == Pow2(m - l[i])
  {}

  lemma JoinLength<T>(v: seq<T>, lo: nat, hi: nat, z: T)
    requires lo < hi < |v|
    ensures |Joined(v, lo, hi, z)| == |v| - 1
  {}

  /** And the cost falls by their weights. */
  lemma FatherCosts(w: seq<nat>, l: seq<nat>, lo: nat, hi: nat)
    requires |w| == |l| && lo < hi < |w| && l[lo] == l[hi] > 0
    ensures |Joined(w, lo, hi, w[lo] + w[hi])| == |Joined(l, lo, hi, l[lo] - 1)|
    ensures Cost(Joined(w, lo, hi, w[lo] + w[hi]), Joined(l, lo, hi, l[lo] - 1)) + w[lo] + w[hi] == Cost(w, l)
  {
    hide Cost, Joined;
    var d := l[lo];
    JoinLength(w, lo, hi, w[lo] + w[hi]);
    JoinLength(l, lo, hi, d - 1);
    CostJoin(w, l, lo, hi, w[lo] + w[hi], d - 1);
    Father(w[lo], w[hi], d);
  }

  lemma CostJoin(w: seq<nat>, l: seq<nat>, lo: nat, hi: nat, x: nat, y: nat)
    requires |w| == |l| && lo < hi < |w| && |Joined(w, lo, hi, x)| == |Joined(l, lo, hi, y)|
    ensures Cost(Joined(w, lo, hi, x), Joined(l, lo, hi, y)) + w[lo] * l[lo] + w[hi] * l[hi] == Cost(w, l) + x * y
  {
    hide Sum, Joined;
    ProductsJoin(w, l, lo, hi, x, y);
    JoinSum(Products(w, l), lo, hi, x * y);
    ProductsAt(w, l, lo);
    ProductsAt(w, l, hi);
    hide Products;
  }

  lemma ProductsAt(w: seq<nat>, l: seq<nat>, i: nat)
    requires |w| == |l| && i < |w|
    ensures Products(w, l)[i] == w[i] * l[i]
  {}

  lemma Father(x: nat, y: nat, d: nat)
    requires d > 0
    ensures (x + y) * (d - 1) + x + y == x * d + y * d
  {}

  lemma LightestIsLight(f: seq<Tree>, a: nat, b: nat)
    requires Lightest(f, |f|, a, b)
    ensures Light(Weights(f), a, b)
  {
    hide Weight;
  }

  /** However the trees of a forest are placed below a common root, the weighted bits are no fewer than what merging
      the two lightest again and again leads to. */
  lemma {:induction false} MergingIsBest(f: seq<Tree>, l: seq<nat>, m: nat)
    requires |f| == |l| >= 1 && Fit(l, m)
    ensures Path(MergeAll(f)) <= Sum(Paths(f)) + Cost(Weights(f), l)
    decreases |f|
  {
    hide Weight, Path, Sum, Weights, Paths, Fit, Cost, Merge, Joined, Pick;
    if |f| == 1 {
      OnePath(f);
    } else {
      MergeJoins(f);
      var (a, b) := Pick(f, |f|);
      LightestIsLight(f, a, b);
      var r := Brothers(Weights(f), l, m, a, b);
      var lo, hi := Min(a, b), Max(a, b);
      FatherFits(r, m, lo, hi);
      FatherCosts(Weights(f), r, lo, hi);
      JoinedTrees(f, a, b);
      JoinLength(r, lo, hi, r[lo] - 1);
      MergingIsBest(Merge(f), Joined(r, lo, hi, r[lo] - 1), m);
    }
  }

  lemma OnePath(f: seq<Tree>)
    requires |f| == 1
    ensures Sum(Paths(f)) == Path(f[0])
  {
    assert Paths(f)[..0] == [];
  }

  lemma JoinedTrees(f: seq<Tree>, a: nat, b: nat)
    requires |f| >= 2 && a < |f| && b < |f| && a != b
    requires Merge(f) == Joined(f, Min(a, b), Max(a, b), Node(f[a], f[b]))
    ensures var w, lo, hi := Weights(f), Min(a, b), Max(a, b);
            && Weights(Merge(f)) == Joined(w, lo, hi, w[lo] + w[hi])
            && Sum(Paths(Merge(f))) == Sum(Paths(f)) + w[lo] + w[hi]
  {
    hide Sum, Merge, Pick, Joined, Weights, Paths, Weight, Path;
    var lo, hi, t := Min(a, b), Max(a, b), Node(f[a], f[b]);
    WeightsJoin(f, lo, hi, t);
    JoinSum(Paths(f), lo, hi, Path(t));
    TreeAt(f, a);
    TreeAt(f, b);
    NodeIs(f[a], f[b]);
  }

  lemma TreeAt(f: seq<Tree>, i: nat)
    requires i < |f|
    ensures Weights(f)[i] == Weight(f[i]) && Paths(f)[i] == Path(f[i])
  {
    hide Weight, Path;
  }

  lemma NodeIs(l: Tree, r: Tree)
    ensures Weight(Node(l, r)) == Weight(l) + Weight(r) && Path(Node(l, r)) == Path(l) + Path(r) + Weight(l) + Weight(r)
  {}

  // ----- from counts to lengths

  lemma CostSnoc(w: seq<nat>, l: seq<nat>, x: nat, y: nat)
    requires |w| == |l|
    ensures Cost(w + [x], l + [y]) == Cost(w, l) + x * y
  {
    hide Sum;
    var p := Products(w + [x], l + [y]);
    assert p[..|w|] == Products(w, l) && p[|w|] == x * y;
    SumLast(p);
  }

  lemma SlotsSnoc(l: seq<nat>, y: nat, m: nat)
    requires (forall i :: 0 <= i < |l| ==> l[i] <= m) && y <= m
    ensures Sum(Slots(l + [y], m)) == Sum(Slots(l, m)) + Pow2(m - y)
  {
    hide Sum, Pow2;
    var p := Slots(l + [y], m);
    assert p[..|l|] == Slots(l, m) && p[|l|] == Pow2(m - y);
    SumLast(p);
  }

  lemma LeafSnoc(f: seq<Tree>, t: Tree)
    requires t.Leaf?
    ensures Weights(f + [t]) == Weights(f) + [t.weight] && Sum(Paths(f + [t])) == Sum(Paths(f))
  {
    var p := Paths(f + [t]);
    assert p[..|f|] == Paths(f) && p[|f|] == 0;
    SumLast(p);
    hide Sum;
  }

  /** The depths that a table of lengths gives the leaves. */
  function LeafLens(freq: seq<nat>, lens: seq<nat>, n: nat): (l: seq<nat>)
    requires n <= |freq| == |lens|
    ensures |l| == |Leaves(freq, n)|
  {
    if n == 0 then [] else LeafLens(freq, lens, n - 1) + if freq[n - 1] > 0 then [lens[n - 1]] else []
  }

  lemma {:induction false} LeavesCost(freq: seq<nat>, lens: seq<nat>, n: nat)
    requires n <= |freq| == |lens|
    ensures Sum(Paths(Leaves(freq, n))) == 0
    ensures Cost(Weights(Leaves(freq, n)), LeafLens(freq, lens, n)) == Cost(freq[..n], lens[..n])
  {
    hide Sum, Cost, Paths, Weights, Leaves, LeafLens;
    if n == 0 {
      NoCost();
      NoLeaves(freq, lens);
      assert freq[..0] == [] && lens[..0] == [];
    } else {
      var k := n - 1;
      LeavesCost(freq, lens, k);
      assert freq[..n] == freq[..k] + [freq[k]] && lens[..n] == lens[..k] + [lens[k]];
      CostSnoc(freq[..k], lens[..k], freq[k], lens[k]);
      LeavesStep(freq, lens, k);
      if freq[k] > 0 {
        LeafSnoc(Leaves(freq, k), Leaf(k, freq[k]));
        CostSnoc(Weights(Leaves(freq, k)), LeafLens(freq, lens, k), freq[k], lens[k]);
      } else {
        assert freq[k] * lens[k] == 0;
      }
    }
  }

  lemma NoLeaves(freq: seq<nat>, lens: seq<nat>)
    requires |freq| == |lens|
    ensures Leaves(freq, 0) == [] && LeafLens(freq, lens, 0) == []
  {}

  lemma LeavesStep(freq: seq<nat>, lens: seq<nat>, k: nat)
    requires k < |freq| == |lens|
    ensures Leaves(freq, k + 1) == if freq[k] > 0 then Leaves(freq, k) + [Leaf(k, freq[k])] else Leaves(freq, k)
    ensures LeafLens(freq, lens, k + 1) == if freq[k] > 0 then LeafLens(freq, lens, k) + [lens[k]] else LeafLens(freq, lens, k)
  {
    assert Leaves(freq, k) + [] == Leaves(freq, k) && LeafLens(freq, lens, k) + [] == LeafLens(freq, lens, k);
  }

  lemma NoCost()
    ensures Sum(Paths([])) == 0 && Weights([]) == [] && Cost([], []) == 0
  {}

  lemma {:induction false} LeavesFit(freq: seq<nat>, lens: seq<nat>, n: nat, m: nat)
    requires n <= |freq| == |lens| && forall i :: 0 <= i < |freq| ==> lens[i] <= m && (freq[i] > 0 ==> lens[i] > 0)
    ensures forall i :: 0 <= i < |LeafLens(freq, lens, n)| ==> LeafLens(freq, lens, n)[i] <= m
    ensures Sum(Slots(LeafLens(freq, lens, n), m)) <= Filled(lens[..n], m)
  {
    hide Sum, Slots, Pow2, Filled, Leaves;
    if n == 0 {
      NoSlots(m);
    } else {
      LeavesFit(freq, lens, n - 1, m);
      FilledOfPrefix(lens, n, m);
      if freq[n - 1] > 0 {
        SlotsSnoc(LeafLens(freq, lens, n - 1), lens[n - 1], m);
      } else {
        assert LeafLens(freq, lens, n) == LeafLens(freq, lens, n - 1);
      }
    }
  }

  lemma NoSlots(m: nat)
    ensures Sum(Slots([], m)) == 0
  {}

  // ----- what a tree costs

  /** Every leaf weighs what its symbol counts. */
  predicate Faithful(t: Tree, freq: seq<nat>) {
    match t
    case Leaf(s, w) => s < |freq| && w == freq[s]
    case Node(l, r) => Faithful(l, freq) && Faithful(r, freq)
  }

  lemma {:induction false} LeavesFaithful(freq: seq<nat>, n: nat)
    requires n <= |freq|
    ensures forall i :: 0 <= i < |Leaves(freq, n)| ==> Faithful(Leaves(freq, n)[i], freq)
  {
    if n > 0 {
      LeavesFaithful(freq, n - 1);
      assert forall i :: 0 <= i < |Leaves(freq, n - 1)| ==> Leaves(freq, n)[i] == Leaves(freq, n - 1)[i];
    }
  }

  lemma {:induction false} MergeAllFaithful(f: seq<Tree>, freq: seq<nat>)
    requires |f| >= 1 && forall i :: 0 <= i < |f| ==> Faithful(f[i], freq)
    ensures Faithful(MergeAll(f), freq)
    decreases |f|
  {
    if |f| > 1 {
      MergeJoins(f);
      hide Merge, Pick;
      MergeAllFaithful(Merge(f), freq);
    }
  }

  /** Spreading a tree's depths adds its weighted bits. */
  lemma {:induction false} SpreadCost(t: Tree, d: nat, lens: seq<nat>, freq: seq<nat>)
    requires Below(t, |lens|) && Distinct(t) && Faithful(t, freq) && |freq| == |lens|
    requires forall s: nat :: s in Syms(t) && s < |lens| ==> lens[s] == 0
    ensures Cost(freq, Spread(t, d, lens)) == Cost(freq, lens) + Path(t) + d * Weight(t)
  {
    hide Cost;
    match t
    case Leaf(s, w) =>
      assert s in Syms(t);
      CostUpdate(freq, lens, s, d);
    case Node(l, r) =>
      var mid := Spread(l, d + 1, lens);
      assert Syms(t) == Syms(l) + Syms(r);
      SpreadCost(l, d + 1, lens, freq);
      forall s: nat | s in Syms(r) && s < |lens|
        ensures mid[s] == 0
      {
        SpreadElsewhere(l, d + 1, lens, s);
      }
      SpreadCost(r, d + 1, mid, freq);
      OneDeeper(d, Weight(l), Weight(r));
  }

  lemma OneDeeper(d: nat, x: nat, y: nat)
    ensures (d + 1) * x + (d + 1) * y == x + y + d * (x + y)
  {}

  lemma {:induction false} ZerosCost(freq: seq<nat>, z: seq<nat>)
    requires |freq| == |z| && forall i :: 0 <= i < |z| ==> z[i] == 0
    ensures Cost(freq, z) == 0
  {
    if freq != [] {
      var n := |freq| - 1;
      ZerosCost(freq[..n], z[..n]);
      CostSnoc(freq[..n], z[..n], freq[n], z[n]);
      assert freq == freq[..n] + [freq[n]] && z == z[..n] + [z[n]];
    }
  }

  lemma TreeCost(freq: seq<nat>)
    requires Used(freq) >= 1
    ensures var t := HuffmanTree(freq); Below(t, |freq|) && Cost(freq, Spread(t, 0, Zeros(|freq|))) == Path(t)
  {
    hide Cost, Path, Faithful, Spread, Leaves, MergeAll, Used, Syms, Distinct, Below, Weight;
    assert freq[..|freq|] == freq;
    TreeSyms(freq);
    LeavesFaithful(freq, |freq|);
    MergeAllFaithful(Leaves(freq, |freq|), freq);
    SpreadCost(HuffmanTree(freq), 0, Zeros(|freq|), freq);
    ZerosCost(freq, Zeros(|freq|));
  }

  // ----- the lengths are best

  lemma FitOfCodewords(lens: seq<nat>, codes: seq<Bits>, m: nat)
    requires Codewords(lens, codes, m)
    ensures Filled(lens, m) <= Pow2(m)
  {
    hide Filled, Pow2, Started, Ext;
    FillCountsStarted(lens, codes, |codes|, m);
    assert lens[..|codes|] == lens;
    var some, all := Started(codes, |codes|, m), Ext([], m);
    forall b: Bits | b in some
      ensures b in all
    {
      StartedMeans(codes, |codes|, m, b);
      ExtMeans([], m, b);
    }
    ExtSize([], m);
    Fewer(some, all);
  }

  lemma Fewer(a: set<Bits>, b: set<Bits>)
    requires a <= b
    ensures |a| <= |b|
  {
    assert b == a + (b - a);
  }

  /** No prefix-free code has lengths that cost less. */
  lemma TreeIsBest(freq: seq<nat>, lens: seq<nat>, codes: seq<Bits>, m: nat)
    requires Used(freq) >= 1 && |freq| == |lens| && Codewords(lens, codes, m)
    requires forall i :: 0 <= i < |freq| && freq[i] > 0 ==> lens[i] > 0
    ensures Path(HuffmanTree(freq)) <= Cost(freq, lens)
  {
    hide Cost, Path, Leaves, MergeAll, Used, Filled, Pow2, Sum, Weights, Paths, Slots;
    assert freq[..|freq|] == freq && lens[..|freq|] == lens;
    FitOfCodewords(lens, codes, m);
    LeavesFit(freq, lens, |freq|, m);
    LeavesCost(freq, lens, |freq|);
    MergingIsBest(Leaves(freq, |freq|), LeafLens(freq, lens, |freq|), m);
  }

  lemma {:induction false} CostMonotone(w: seq<nat>, k: seq<nat>, l: seq<nat>)
    requires |w| == |k| == |l| && forall i :: 0 <= i < |w| && w[i] > 0 ==> k[i] <= l[i]
    ensures Cost(w, k) <= Cost(w, l)
  {
    hide Cost;
    if w != [] {
      var n := |w| - 1;
      CostMonotone(w[..n], k[..n], l[..n]);
      CostSnoc(w[..n], k[..n], w[n], k[n]);
      CostSnoc(w[..n], l[..n], w[n], l[n]);
      assert w == w[..n] + [w[n]] && k == k[..n] + [k[n]] && l == l[..n] + [l[n]];
      if w[n] > 0 {
        MulMonotone(w[n], k[n], l[n]);
      }
    }
  }

  /** Unless some code of the plain Huffman tree would be longer than fifteen bits, the lengths settled on cost no
      more than those of any prefix-free code for the symbols that occur. */
  lemma BuildIsBest(freq: seq<nat>, lens: seq<nat>, codes: seq<Bits>, m: nat)
    requires Used(freq) >= 1 && Height(HuffmanTree(freq)) <= MAX_BITS
    requires |freq| == |lens| && Codewords(lens, codes, m) && forall i :: 0 <= i < |freq| && freq[i] > 0 ==> lens[i] > 0
    ensures BuildLens(freq).Some? && Cost(freq, BuildLens(freq).value) <= Cost(freq, lens)
  {
    hide Cost, Path, Height, HuffmanTree, Codewords;
    if Used(freq) == 1 {
      hide Used;
      CostMonotone(freq, BuildLens(freq).value, lens);
    } else {
      hide Used;
      TreeCost(freq);
      TreeIsBest(freq, lens, codes, m);
      hide Spread, Zeros;
    }
  }

  // ----- and so the coded body

  lemma CountedOnce(data: seq<byte>, n: nat)
    requires |data| == n + 1
    ensures Histogram(data) == Histogram(data[..n])[data[n] as int := Histogram(data[..n])[data[n] as int] + 1]
  {
    var h, g := Histogram(data), Histogram(data[..n]);
    forall s | 0 <= s < SYMBOLS
      ensures h[s] == g[data[n] as int := g[data[n] as int] + 1][s]
    {}
  }

  lemma CountUp(w: seq<nat>, l: seq<nat>, i: nat)
    requires |w| == |l| && i < |w|
    ensures Cost(w[i := w[i] + 1], l) == Cost(w, l) + l[i]
  {
    hide Sum;
    assert Products(w[i := w[i] + 1], l) == Products(w, l)[i := w[i] * l[i] + l[i]];
    SumUpdate(Products(w, l), i, w[i] * l[i] + l[i]);
  }

  /** What a code makes of a string of symbols. */
  function Spelled(codes: seq<Bits>, syms: seq<nat>): Bits
    requires forall k :: 0 <= k < |syms| ==> syms[k] < |codes|
  {
    if syms == [] then [] else Spelled(codes, syms[..|syms| - 1]) + codes[syms[|syms| - 1]]
  }

  lemma {:induction false} SpelledCost(codes: seq<Bits>, lens: seq<nat>, data: seq<byte>)
    requires |codes| == |lens| == SYMBOLS && forall i :: 0 <= i < SYMBOLS ==> |codes[i]| == lens[i]
    ensures |Spelled(codes, ToSyms(data))| == Cost(Histogram(data), lens)
  {
    hide Cost, Histogram;
    if data == [] {
      NothingCounted();
      ZerosWeigh(Histogram([]), lens);
    } else {
      var n := |data| - 1;
      SpelledCost(codes, lens, data[..n]);
      assert ToSyms(data)[..n] == ToSyms(data[..n]);
      CountedOnce(data, n);
      CountUp(Histogram(data[..n]), lens, data[n] as int);
    }
  }

  lemma NothingCounted()
    ensures forall i :: 0 <= i < SYMBOLS ==> Histogram([])[i] == 0
  {}

  lemma {:induction false} ZerosWeigh(z: seq<nat>, l: seq<nat>)
    requires |z| == |l| && forall i :: 0 <= i < |z| ==> z[i] == 0
    ensures Cost(z, l) == 0
  {
    if z != [] {
      var n := |z| - 1;
      ZerosWeigh(z[..n], l[..n]);
      CostSnoc(z[..n], l[..n], z[n], l[n]);
      assert z == z[..n] + [z[n]] && l == l[..n] + [l[n]];
    }
  }

  lemma {:induction false} EncodeSnoc(lens: seq<nat>, syms: seq<nat>, s: nat)
    requires (forall k :: 0 <= k < |syms| ==> syms[k] < |lens|) && s < |lens|
    ensures EncodeBits(lens, syms + [s]) == EncodeBits(lens, syms) + CodeBits(lens, s)
  {
    hide CodeBits;
    if syms == [] {
      assert [] + [s] == [s] && [s][1..] == [];
      assert EncodeBits(lens, [s]) == CodeBits(lens, s) + EncodeBits(lens, []);
    } else {
      EncodeSnoc(lens, syms[1..], s);
      assert (syms + [s])[1..] == syms[1..] + [s];
    }
  }

  lemma {:induction false} EncodeIsSpelled(lens: seq<nat>, syms: seq<nat>)
    requires forall k :: 0 <= k < |syms| ==> syms[k] < |lens|
    ensures EncodeBits(lens, syms) == Spelled(Canonical(lens), syms)
  {
    hide CodeBits;
    if syms != [] {
      var n := |syms| - 1;
      EncodeIsSpelled(lens, syms[..n]);
      EncodeSnoc(lens, syms[..n], syms[n]);
      assert syms == syms[..n] + [syms[n]];
    }
  }

  /** The bits of an LZE body are as few as any prefix-free code for its bytes could spell it in. */
  lemma BodyIsShortest(lz: seq<byte>, lens: seq<nat>, codes: seq<Bits>, m: nat)
    requires lz != [] && |lens| == SYMBOLS && Codewords(lens, codes, m)
    requires forall k :: 0 <= k < |lz| ==> lens[lz[k]] > 0
    ensures Used(Histogram(lz)) >= 1
    ensures Height(HuffmanTree(Histogram(lz))) <= MAX_BITS ==>
              BuildLens(Histogram(lz)).Some?
              && |EncodeBits(BuildLens(Histogram(lz)).value, ToSyms(lz))| <= |Spelled(codes, ToSyms(lz))|
  {
    hide Cost, Height, HuffmanTree, BuildLens, EncodeBits, Spelled, CodeBits, Histogram, Used;
    SomeByte(lz);
    if Height(HuffmanTree(Histogram(lz))) <= MAX_BITS {
      OnlyBytes(lz, lens);
      BuildIsBest(Histogram(lz), lens, codes, m);
      var best := BuildLens(Histogram(lz)).value;
      SpelledCost(codes, lens, lz);
      SpelledCost(Canonical(best), best, lz);
      EncodeIsSpelled(best, ToSyms(lz));
    }
  }

  lemma SomeByte(lz: seq<byte>)
    requires lz != []
    ensures Used(Histogram(lz)) >= 1
  {
    hide Used;
    Occurring(lz, 0);
    UsedSome(Histogram(lz), lz[0] as int);
  }

  lemma {:induction false} OccursSomewhere(data: seq<byte>, s: nat)
    requires Occurs(data, s) > 0
    ensures exists k :: 0 <= k < |data| && data[k] as int == s
  {
    var n := |data| - 1;
    if data[n] as int != s {
      OccursSomewhere(data[..n], s);
      var k :| 0 <= k < n && data[..n][k] as int == s;
      assert data[k] as int == s;
    }
  }

  lemma OnlyBytes(lz: seq<byte>, lens: seq<nat>)
    requires |lens| == SYMBOLS && forall k :: 0 <= k < |lz| ==> lens[lz[k]] > 0
    ensures forall i :: 0 <= i < SYMBOLS && Histogram(lz)[i] > 0 ==> lens[i] > 0
  {
    forall i | 0 <= i < SYMBOLS && Histogram(lz)[i] > 0
      ensures lens[i] > 0
    {
      OccursSomewhere(lz, i);
      var k :| 0 <= k < |lz| && lz[k] as int == i;
      assert lens[lz[k]] > 0;
    }
  }
}
