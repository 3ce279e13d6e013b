/** From a histogram to a table of code lengths: at most twelve attempts, each on smoothed counts,
    and what is true of the table that comes out (src/common/xq_huff.c:54-133). */
module HuffLens {
  import opened Bytes
  import opened HuffTree
  import opened HuffCode

  const ATTEMPTS := 12

  function Used(freq: seq<nat>): (r: nat)
    ensures r <= |freq|
  {
    if freq == [] then 0 else Used(freq[..|freq| - 1]) + if freq[|freq| - 1] > 0 then 1 else 0
  }

  function Sum(freq: seq<nat>): nat {
    if freq == [] then 0 else Sum(freq[..|freq| - 1]) + freq[|freq| - 1]
  }

  function Zeros(n: nat): (z: seq<nat>)
    ensures |z| == n && forall i :: 0 <= i < n ==> z[i] == 0
  {
    seq(n, i => 0)
  }

  /** One leaf for every symbol below `n` that occurs, in symbol order. */
  function Leaves(freq: seq<nat>, n: nat): (f: seq<Tree>)
    requires n <= |freq|
    ensures |f| == Used(freq[..n])
  {
    if n == 0 then []
    else
      assert freq[..n][..n - 1] == freq[..n - 1];
      Leaves(freq, n - 1) + if freq[n - 1] > 0 then [Leaf(n - 1, freq[n - 1])] else []
  }

  predicate Below(t: Tree, n: nat) {
    match t
    case Leaf(s, _) => s < n
    case Node(l, r) => Below(l, n) && Below(r, n)
  }

  lemma {:induction false} SymsBelow(t: Tree, n: nat)
    requires forall s: nat :: s in Syms(t) ==> s < n
    ensures Below(t, n)
  {
    match t
    case Leaf(s, _) =>
      assert s in Syms(t);
    case Node(l, r) =>
      assert Syms(t) == Syms(l) + Syms(r);
      SymsBelow(l, n);
      SymsBelow(r, n);
  }

  lemma {:induction false} BelowSyms(t: Tree, n: nat)
    requires Below(t, n)
    ensures forall s: nat :: s in Syms(t) ==> s < n
  {
    if t.Node? {
      BelowSyms(t.left, n);
      BelowSyms(t.right, n);
    }
  }

  /** Writes the depth of every leaf of `t`, whose root is at depth `d`. */
  function Spread(t: Tree, d: nat, lens: seq<nat>): (r: seq<nat>)
    requires Below(t, |lens|)
    ensures |r| == |lens|
  {
    match t
    case Leaf(s, _) => lens[s := d]
    case Node(l, r) => Spread(r, d + 1, Spread(l, d + 1, lens))
  }

  function Smooth(freq: seq<nat>): (r: seq<nat>)
    ensures |r| == |freq|
  {
    seq(|freq|, i requires 0 <= i < |freq| => if freq[i] > 0 then freq[i] / 2 + 1 else 0)
  }

  function HuffmanTree(freq: seq<nat>): Tree
    requires Used(freq) >= 1
  {
    assert freq[..|freq|] == freq;
    MergeAll(Leaves(freq, |freq|))
  }

  function LensFrom(freq: seq<nat>, attempts: nat): (r: Option<seq<nat>>)
    requires Used(freq) >= 2
    ensures r.Some? ==> |r.value| == |freq|
    decreases attempts
  {
    if attempts == 0 then None
    else
      var t := HuffmanTree(freq);
      TreeSyms(freq);
      if Height(t) <= MAX_BITS then Some(Spread(t, 0, Zeros(|freq|)))
      else
        SmoothUsed(freq);
        LensFrom(Smooth(freq), attempts - 1)
  }

  /** The lengths `xq_huff_build` settles on, or None where it returns 0. */
  function BuildLens(freq: seq<nat>): (r: Option<seq<nat>>)
    ensures r.Some? ==> |r.value| == |freq|
  {
    if Used(freq) == 0 then None
    else if Used(freq) == 1 then Some(seq(|freq|, i requires 0 <= i < |freq| => if freq[i] > 0 then 1 else 0))
    else LensFrom(freq, ATTEMPTS)
  }

  // ----- symbols of a forest

  predicate Distinct(t: Tree) {
    t.Node? ==> Distinct(t.left) && Distinct(t.right) && Syms(t.left) !! Syms(t.right)
  }

  ghost predicate Has(f: seq<Tree>, s: nat) {
    exists i :: 0 <= i < |f| && s in Syms(f[i])
  }

  ghost predicate Apart(f: seq<Tree>) {
    && (forall i :: 0 <= i < |f| ==> Distinct(f[i]))
    && (forall i, j :: 0 <= i < j < |f| ==> Syms(f[i]) !! Syms(f[j]))
  }

  lemma MergeApart(f: seq<Tree>)
    requires |f| >= 2 && Apart(f)
    ensures Apart(Merge(f))
  {
    MergeShape(f);
    var (a, b) := Pick(f, |f|);
    var r, lo := Merge(f), Min(a, b);
    hide Merge, Pick;
    forall i, j | 0 <= i < j < |r|
      ensures Syms(r[i]) !! Syms(r[j])
    {
      hide Old;
      if i != lo && j != lo {
        assert OldDistinct(f, i, j) by { OldInjective(f, i, j); }
      }
    }
  }

  lemma OldInjective(f: seq<Tree>, i: nat, j: nat)
    requires |f| >= 2 && i < j < |f| - 1
    ensures Old(f, i) != Old(f, j)
  {}

  lemma MergeHas(f: seq<Tree>, s: nat)
    requires |f| >= 2
    ensures Has(Merge(f), s) <==> Has(f, s)
  {
    MergeShape(f);
    var (a, b) := Pick(f, |f|);
    var r, lo := Merge(f), Min(a, b);
    if Has(f, s) {
      var i :| 0 <= i < |f| && s in Syms(f[i]);
      if i == a || i == b {
        assert s in Syms(r[lo]);
      } else {
        var k := if i == |f| - 1 then Max(a, b) else i;
        assert Old(f, k) == i && s in Syms(r[k]);
      }
    }
    hide Merge, Pick, Old;
    if Has(r, s) {
      var i :| 0 <= i < |r| && s in Syms(r[i]);
      if i == lo {
        assert s in Syms(f[a]) || s in Syms(f[b]);
      } else {
        assert s in Syms(f[Old(f, i)]);
      }
    }
  }

  lemma {:induction false} MergeAllSyms(f: seq<Tree>)
    requires |f| >= 1
    ensures forall s: nat :: s in Syms(MergeAll(f)) <==> Has(f, s)
    decreases |f|
  {
    if |f| > 1 {
      MergeAllSyms(Merge(f));
      forall s: nat
        ensures s in Syms(MergeAll(f)) <==> Has(f, s)
      {
        MergeHas(f, s);
      }
    }
  }

  lemma {:induction false} MergeAllDistinct(f: seq<Tree>)
    requires |f| >= 1 && Apart(f)
    ensures Distinct(MergeAll(f))
    ensures |f| >= 2 ==> MergeAll(f).Node?
    decreases |f|
  {
    if |f| > 1 {
      MergeApart(f);
      MergeAllDistinct(Merge(f));
      if |f| == 2 {
        MergeShape(f);
      }
    }
  }

  /** The leaves of a histogram's first `n` symbols, in symbol order. */
  ghost predicate LeafList(f: seq<Tree>, freq: seq<nat>, n: nat)
    requires n <= |freq|
  {
    && (forall i :: 0 <= i < |f| ==> f[i].Leaf? && f[i].sym < n && freq[f[i].sym] == f[i].weight > 0)
    && (forall i, j :: 0 <= i < j < |f| ==> f[i].sym < f[j].sym)
    && (forall s: nat :: s < n && freq[s] > 0 ==> Has(f, s))
  }

  lemma HasPrefix(f: seq<Tree>, g: seq<Tree>, s: nat)
    requires Has(f, s) && f <= g
    ensures Has(g, s)
  {
    var i :| 0 <= i < |f| && s in Syms(f[i]);
    assert g[i] == f[i];
  }

  lemma HasLeaf(f: seq<Tree>, i: nat)
    requires i < |f| && f[i].Leaf?
    ensures Has(f, f[i].sym)
  {
    assert f[i].sym in Syms(f[i]);
  }

  lemma LeafListSkips(f: seq<Tree>, freq: seq<nat>, n: nat)
    requires 0 < n <= |freq| && LeafList(f, freq, n - 1) && freq[n - 1] == 0
    ensures LeafList(f, freq, n)
  {
    hide Has;
  }

  lemma LeafListGrows(f: seq<Tree>, freq: seq<nat>, n: nat)
    requires 0 < n <= |freq| && LeafList(f, freq, n - 1) && freq[n - 1] > 0
    ensures LeafList(f + [Leaf(n - 1, freq[n - 1])], freq, n)
  {
    hide Has, Syms;
    var g := f + [Leaf(n - 1, freq[n - 1])];
    forall s: nat | s < n && freq[s] > 0
      ensures Has(g, s)
    {
      if s < n - 1 {
        HasPrefix(f, g, s);
      } else {
        HasLeaf(g, |f|);
      }
    }
    assert forall i, j :: 0 <= i < j < |g| ==> g[i].sym < g[j].sym;
  }

  lemma {:induction false} LeavesShape(freq: seq<nat>, n: nat)
    requires n <= |freq|
    ensures LeafList(Leaves(freq, n), freq, n)
  {
    assert LeafList([], freq, 0);
    hide LeafList;
    if n > 0 {
      LeavesShape(freq, n - 1);
      if freq[n - 1] > 0 {
        LeafListGrows(Leaves(freq, n - 1), freq, n);
      } else {
        LeafListSkips(Leaves(freq, n - 1), freq, n);
        assert Leaves(freq, n - 1) + [] == Leaves(freq, n - 1);
      }
    }
  }

  lemma LeafListApart(f: seq<Tree>, freq: seq<nat>)
    requires LeafList(f, freq, |freq|)
    ensures Apart(f) && GreedyForest(f)
    ensures forall s: nat :: Has(f, s) <==> s < |freq| && freq[s] > 0
  {
    forall i, j | 0 <= i < j < |f|
      ensures Syms(f[i]) !! Syms(f[j])
    {}
  }

  /** The leaves of the tree are the symbols that occur, each once. */
  lemma TreeSyms(freq: seq<nat>)
    requires Used(freq) >= 1
    ensures forall s: nat :: s in Syms(HuffmanTree(freq)) <==> s < |freq| && freq[s] > 0
    ensures Below(HuffmanTree(freq), |freq|)
    ensures Distinct(HuffmanTree(freq))
    ensures Used(freq) >= 2 ==> HuffmanTree(freq).Node?
  {
    hide Leaves, LeafList, MergeAll, Has, Apart, Syms, Distinct, Below, Used, GreedyForest;
    var f := Leaves(freq, |freq|);
    assert freq[..|freq|] == freq;
    LeavesShape(freq, |freq|);
    LeafListApart(f, freq);
    MergeAllSyms(f);
    MergeAllDistinct(f);
    SymsBelow(HuffmanTree(freq), |freq|);
  }

  // ----- Kraft equality

  lemma {:induction false} CountUpdate(lens: seq<nat>, s: nat, d: nat, b: nat)
    requires s < |lens| && lens[s] == 0 && d > 0 && b > 0
    ensures Count(lens[s := d], b) == Count(lens, b) + if b == d then 1 else 0
  {
    var n := |lens| - 1;
    if s == n {
      assert lens[s := d][..n] == lens[..n];
    } else {
      assert lens[s := d][..n] == lens[..n][s := d];
      CountUpdate(lens[..n], s, d, b);
    }
  }

  lemma {:induction false} FilledUpdate(lens: seq<nat>, s: nat, d: nat, b: nat)
    requires s < |lens| && lens[s] == 0 && d > 0
    ensures Filled(lens[s := d], b) == Filled(lens, b) + if d <= b then Pow2(b - d) else 0
    decreases b
  {
    if b > 0 {
      FilledUpdate(lens, s, d, b - 1);
      CountUpdate(lens, s, d, b);
    }
  }

  lemma {:induction false} SpreadElsewhere(t: Tree, d: nat, lens: seq<nat>, s: nat)
    requires Below(t, |lens|) && s < |lens| && s !in Syms(t)
    ensures Spread(t, d, lens)[s] == lens[s]
  {
    if t.Node? {
      SpreadElsewhere(t.left, d + 1, lens, s);
      SpreadElsewhere(t.right, d + 1, Spread(t.left, d + 1, lens), s);
    }
  }

  /** Depth of the leaf of `s`. */
  function LeafDepth(t: Tree, s: nat): nat
    requires s in Syms(t)
  {
    match t
    case Leaf(_, _) => 0
    case Node(l, r) => 1 + if s in Syms(r) then LeafDepth(r, s) else LeafDepth(l, s)
  }

  lemma {:induction false} SpreadIsLeafDepth(t: Tree, d: nat, lens: seq<nat>, s: nat)
    requires Below(t, |lens|) && Distinct(t) && s in Syms(t) && s < |lens|
    ensures Spread(t, d, lens)[s] == d + LeafDepth(t, s)
  {
    if t.Node? {
      if s in Syms(t.right) {
        SpreadIsLeafDepth(t.right, d + 1, Spread(t.left, d + 1, lens), s);
      } else {
        SpreadIsLeafDepth(t.left, d + 1, lens, s);
        SpreadElsewhere(t.right, d + 1, Spread(t.left, d + 1, lens), s);
      }
    }
  }

  lemma {:induction false} LeafDepthBound(t: Tree, s: nat)
    requires s in Syms(t)
    ensures LeafDepth(t, s) <= Height(t)
    ensures t.Node? ==> LeafDepth(t, s) > 0
  {
    if t.Node? {
      LeafDepthBound(if s in Syms(t.right) then t.right else t.left, s);
    }
  }

  lemma {:induction false} Deepest(t: Tree) returns (s: nat)
    requires Distinct(t)
    ensures s in Syms(t) && LeafDepth(t, s) == Height(t)
  {
    match t
    case Leaf(x, _) =>
      s := x;
    case Node(l, r) =>
      s := Deepest(if Height(l) >= Height(r) then l else r);
  }

  /** A subtree whose root is at depth `d` fills exactly the share 2^-d of the strings. */
  lemma {:induction false} SpreadFills(t: Tree, d: nat, lens: seq<nat>, b: nat)
    requires Below(t, |lens|) && Distinct(t)
    requires forall s: nat :: s in Syms(t) ==> s < |lens| && lens[s] == 0
    requires d + Height(t) <= b && (d > 0 || t.Node?)
    ensures Filled(Spread(t, d, lens), b) == Filled(lens, b) + Pow2(b - d)
  {
    match t
    case Leaf(s, _) =>
      FilledUpdate(lens, s, d, b);
    case Node(l, r) =>
      var mid := Spread(l, d + 1, lens);
      assert forall s: nat :: s in Syms(t) <==> s in Syms(l) || s in Syms(r);
      SpreadFills(l, d + 1, lens, b);
      forall s: nat | s in Syms(r)
        ensures s < |mid| && mid[s] == 0
      {
        SpreadElsewhere(l, d + 1, lens, s);
      }
      SpreadFills(r, d + 1, mid, b);
  }

  lemma {:induction false} ZerosFillNothing(lens: seq<nat>, b: nat)
    requires forall i :: 0 <= i < |lens| ==> lens[i] == 0
    ensures Filled(lens, b) == 0
  {
    if b > 0 {
      ZerosFillNothing(lens, b - 1);
      ZerosCount(lens, b);
    }
  }

  lemma {:induction false} ZerosCount(lens: seq<nat>, b: nat)
    requires forall i :: 0 <= i < |lens| ==> lens[i] == 0
    ensures Count(lens, b) == 0
  {
    if lens != [] {
      ZerosCount(lens[..|lens| - 1], b);
    }
  }

  /** The lengths of a tree form a complete code over its symbols. */
  lemma SpreadIsComplete(t: Tree, lens: seq<nat>)
    requires Below(t, |lens|) && Distinct(t) && t.Node?
    requires forall i :: 0 <= i < |lens| ==> lens[i] == 0
    ensures var r := Spread(t, 0, lens);
            && Complete(r, Height(t))
            && forall i :: 0 <= i < |lens| ==> (r[i] > 0 <==> i in Syms(t))
  {
    BelowSyms(t, |lens|);
    SpreadFills(t, 0, lens, Height(t));
    ZerosFillNothing(lens, Height(t));
    var r := Spread(t, 0, lens);
    assert Height(t) > 0;
    var deep := Deepest(t);
    hide Spread, Filled, Syms, Height, Distinct, Below, LeafDepth;
    SpreadIsLeafDepth(t, 0, lens, deep);
    forall i | 0 <= i < |lens|
      ensures r[i] <= Height(t) && (r[i] > 0 <==> i in Syms(t))
    {
      if i in Syms(t) {
        SpreadIsLeafDepth(t, 0, lens, i);
        LeafDepthBound(t, i);
      } else {
        SpreadElsewhere(t, 0, lens, i);
      }
    }
  }

  lemma TreeIsComplete(freq: seq<nat>)
    requires Used(freq) >= 2
    ensures var t := HuffmanTree(freq);
            && Below(t, |freq|)
            && var lens := Spread(t, 0, Zeros(|freq|));
               && Complete(lens, Height(t))
               && forall i :: 0 <= i < |lens| ==> (lens[i] > 0 <==> freq[i] > 0)
  {
    hide HuffmanTree, Zeros, Spread, Complete, Syms, Height, Distinct, Below;
    TreeSyms(freq);
    SpreadIsComplete(HuffmanTree(freq), Zeros(|freq|));
  }

  // ----- smoothing

  lemma {:induction false} SmoothUsed(freq: seq<nat>)
    ensures Used(Smooth(freq)) == Used(freq)
    ensures forall i :: 0 <= i < |freq| ==> (Smooth(freq)[i] > 0 <==> freq[i] > 0)
  {
    if freq != [] {
      SmoothUsed(freq[..|freq| - 1]);
      assert Smooth(freq)[..|freq| - 1] == Smooth(freq[..|freq| - 1]);
    }
  }

  /** A smoothing halves the total, up to two for every symbol that occurs. */
  lemma {:induction false} SmoothSum(freq: seq<nat>)
    ensures 2 * Sum(Smooth(freq)) <= Sum(freq) + 2 * Used(freq)
  {
    if freq != [] {
      SmoothSum(freq[..|freq| - 1]);
      assert Smooth(freq)[..|freq| - 1] == Smooth(freq[..|freq| - 1]);
    }
  }

  /** A smoothing halves each count, rounding up from the next, and changes no order between symbols; a count stays
      zero exactly when it was. */
  lemma SmoothHalves(freq: seq<nat>, i: nat, j: nat)
    requires i < |freq| && j < |freq|
    ensures var a, b := Smooth(freq)[i], Smooth(freq)[j];
            && (a == 0 <==> freq[i] == 0) && (freq[i] > 0 ==> 2 * (a - 1) <= freq[i] < 2 * a) && a <= freq[i] + 1
            && (freq[i] <= freq[j] ==> a <= b) && (a < b ==> freq[i] < freq[j])
  {
    HalvesOrdered(freq[i], freq[j]);
    HalvesOrdered(freq[j], freq[i]);
  }

  lemma HalvesOrdered(x: nat, y: nat)
    ensures x <= y ==> x / 2 <= y / 2
  {}

  lemma {:induction false} LeavesTotal(freq: seq<nat>, n: nat)
    requires n <= |freq|
    ensures Total(Leaves(freq, n)) == Sum(freq[..n])
  {
    if n > 0 {
      LeavesTotal(freq, n - 1);
      assert freq[..n][..n - 1] == freq[..n - 1];
      var f, g := Leaves(freq, n - 1), Leaves(freq, n);
      if freq[n - 1] > 0 {
        assert g == f + [Leaf(n - 1, freq[n - 1])];
        hide Leaves;
        assert g[..|g| - 1] == f;
      } else {
        assert g == f;
      }
    }
  }

  /** Counts below F(18) in all give a tree within fifteen bits. */
  lemma LightBuilds(freq: seq<nat>)
    requires Used(freq) >= 2 && Sum(freq) < 2584
    ensures Height(HuffmanTree(freq)) <= MAX_BITS
  {
    assert freq[..|freq|] == freq;
    LeavesShape(freq, |freq|);
    LeavesTotal(freq, |freq|);
    hide Leaves, LeafList, GreedyForest;
    LeafListApart(Leaves(freq, |freq|), freq);
    LightIsShallow(Leaves(freq, |freq|));
  }

  lemma {:induction false} LensFromConverges(freq: seq<nat>, attempts: nat)
    requires Used(freq) >= 2 && attempts > 0
    requires Sum(freq) + Shl(Used(freq), attempts) < Shl(2584, attempts - 1) + 2 * Used(freq)
    ensures LensFrom(freq, attempts).Some?
    decreases attempts
  {
    hide HuffmanTree, Spread, Smooth, Zeros, Sum, Used;
    TreeSyms(freq);
    if attempts == 1 {
      assert Shl(Used(freq), 1) == 2 * Shl(Used(freq), 0) == 2 * Used(freq);
      LightBuilds(freq);
    } else if Height(HuffmanTree(freq)) > MAX_BITS {
      SmoothSum(freq);
      SmoothUsed(freq);
      LensFromConverges(Smooth(freq), attempts - 1);
    }
  }

  /** Length limiting converges: with u symbols in use and a total below 2584 * 2048 - 4094 * u,
      twelve attempts are enough. */
  lemma BuildConverges(freq: seq<nat>)
    requires Used(freq) >= 1 && Sum(freq) + 4094 * Used(freq) < 2584 * 2048
    ensures BuildLens(freq).Some?
  {
    if Used(freq) >= 2 {
      Shl12(Used(freq));
      LensFromConverges(freq, ATTEMPTS);
    }
  }

  lemma Shl12(u: nat)
    ensures Shl(u, 12) == 4096 * u && Shl(2584, 11) == 2584 * 2048
  {
    ShlIsProduct(u, 12);
    ShlIsProduct(2584, 11);
    Pow2Values();
    assert Pow2(11) == 2048;
  }

  /** In particular for every block whose token stream is at most four megabytes. */
  lemma BuildConvergesTo4M(freq: seq<nat>)
    requires |freq| == SYMBOLS && 1 <= Used(freq) && Sum(freq) <= 0x40_0000
    ensures BuildLens(freq).Some?
  {
    BuildConverges(freq);
  }

  // ----- what a build yields

  lemma {:induction false} LensFromComplete(freq: seq<nat>, attempts: nat)
    requires Used(freq) >= 2 && LensFrom(freq, attempts).Some?
    ensures var lens := LensFrom(freq, attempts).value;
            && (exists m: nat :: m <= MAX_BITS && Complete(lens, m))
            && forall i :: 0 <= i < |freq| ==> (lens[i] > 0 <==> freq[i] > 0)
    decreases attempts
  {
    hide HuffmanTree, Spread, Smooth, Zeros, Complete;
    TreeIsComplete(freq);
    SmoothUsed(freq);
    if attempts > 0 && Height(HuffmanTree(freq)) > MAX_BITS {
      LensFromComplete(Smooth(freq), attempts - 1);
    }
  }

  lemma {:induction false} OneUsed(freq: seq<nat>, s: nat)
    requires s < |freq| && freq[s] > 0 && Used(freq) == 1
    ensures forall i :: 0 <= i < |freq| && i != s ==> freq[i] == 0
  {
    var n := |freq| - 1;
    if s < n {
      UsedSome(freq[..n], s);
      OneUsed(freq[..n], s);
    } else {
      NoneUsed(freq[..n]);
    }
  }

  lemma {:induction false} UsedSome(freq: seq<nat>, s: nat)
    requires s < |freq| && freq[s] > 0
    ensures Used(freq) >= 1
  {
    if s < |freq| - 1 {
      UsedSome(freq[..|freq| - 1], s);
    }
  }

  lemma {:induction false} NoneUsed(freq: seq<nat>)
    requires Used(freq) == 0
    ensures forall i :: 0 <= i < |freq| ==> freq[i] == 0
  {
    if freq != [] {
      NoneUsed(freq[..|freq| - 1]);
    }
  }

  lemma {:induction false} SomeUsed(freq: seq<nat>) returns (s: nat)
    requires Used(freq) >= 1
    ensures s < |freq| && freq[s] > 0
  {
    var n := |freq| - 1;
    if freq[n] > 0 {
      s := n;
    } else {
      s := SomeUsed(freq[..n]);
    }
  }

  /** A usable table: complete with at most fifteen bits, or the one-symbol table. */
  ghost predicate Usable(lens: seq<nat>) {
    (exists m: nat :: m <= MAX_BITS && Complete(lens, m)) || (exists s: nat :: Single(lens, s))
  }

  /** Whatever histogram it gets: if a build succeeds, its table is usable and gives a code to
      exactly the symbols that occur. */
  lemma BuildIsUsable(freq: seq<nat>)
    requires BuildLens(freq).Some?
    ensures Usable(BuildLens(freq).value)
    ensures forall i :: 0 <= i < |freq| ==> (BuildLens(freq).value[i] > 0 <==> freq[i] > 0)
  {
    if Used(freq) == 1 {
      var s := SomeUsed(freq);
      OneUsed(freq, s);
      assert Single(BuildLens(freq).value, s);
    } else {
      LensFromComplete(freq, ATTEMPTS);
    }
  }
}
