/**
 What the clustering aims at: every merge is the one after which data and headers, 140 bits for each tree, cost least,
 it is made for nothing else than to get below the limit or not to pay more, and where it stops every merge would pay
 more.
 */
module ClusterMeaning {
  import opened Words
  import opened ClusterSpec
  import opened Cluster

  /** Data and headers of a model, in 256ths of a bit. */
  function Estimate(m: Model): int {
    DataBits(m.hists, m.active) + 140 * 256 * |m.active|
  }

  function BitsAt(hists: seq<Hist>, c: nat): int {
    if c < |hists| then Bits(hists[c]) else 0
  }

  lemma {:induction false} DataReplaced(hists: seq<Hist>, active: seq<nat>, j: nat, c: nat)
    requires j < |active|
    ensures DataBits(hists, active[j := c]) == DataBits(hists, active) - BitsAt(hists, active[j]) + BitsAt(hists, c)
    decreases |active|
  {
    hide Bits;
    var n := |active| - 1;
    if j < n {
      DataReplaced(hists, active[..n], j, c);
      assert active[j := c][..n] == active[..n][j := c];
    } else {
      assert active[j := c][..n] == active[..n];
    }
  }

  lemma DataRemoved(hists: seq<Hist>, active: seq<nat>, j: nat)
    requires j < |active|
    ensures DataBits(hists, SwapRemove(active, j)) == DataBits(hists, active) - BitsAt(hists, active[j])
  {
    hide Bits;
    var n := |active| - 1;
    DataReplaced(hists, active, j, active[n]);
    assert SwapRemove(active, j) == active[j := active[n]][..n];
    assert active[j := active[n]][n] == active[n];
  }

  /** A histogram that is not listed does not matter. */
  lemma {:induction false} DataKept(hists: seq<Hist>, active: seq<nat>, c: nat, h: Hist)
    requires c < |hists| && c !in active
    ensures DataBits(hists[c := h], active) == DataBits(hists, active)
    decreases |active|
  {
    hide Bits;
    if active != [] {
      var n := |active| - 1;
      assert active[n] in active;
      DataKept(hists, active[..n], c, h);
    }
  }

  lemma {:induction false} DataChanged(hists: seq<Hist>, active: seq<nat>, i: nat, h: Hist)
    requires i < |active| && active[i] < |hists|
    requires forall k, l :: 0 <= k < l < |active| ==> active[k] != active[l]
    ensures DataBits(hists[active[i] := h], active) == DataBits(hists, active) - Bits(hists[active[i]]) + Bits(h)
    decreases |active|
  {
    hide Bits;
    var n := |active| - 1;
    if i < n {
      DataChanged(hists, active[..n], i, h);
      assert active[..n][i] == active[i];
    } else {
      DataKept(hists, active[..n], active[i], h);
    }
  }

  /** What a merge adds to the estimate is what the search compares. */
  lemma MergeAdds(m: Model, i: nat, j: nat)
    requires Sized(m) && i < j < |m.active|
    ensures Estimate(Merged(m, i, j)) == Estimate(m) + Delta(m.hists, m.active[i], m.active[j])
  {
    hide Bits, Sum, DataBits, SwapRemove;
    var ci, cj := m.active[i], m.active[j];
    var h: Hist := Sum(m.hists[ci], m.hists[cj]);
    var left := SwapRemove(m.active, j);
    MergedSized(m, i, j);
    SwapRemoveAt(m.active, j);
    DataRemoved(m.hists, m.active, j);
    assert left[i] == ci;
    DataChanged(m.hists, left, i, h);
  }

  ghost predicate Cheapest(m: Model, i: nat, j: nat)
    requires Sized(m)
  {
    && i < j < |m.active|
    && forall a: nat, b: nat :: a < b < |m.active| ==> Estimate(Merged(m, i, j)) <= Estimate(Merged(m, a, b))
  }

  lemma BestCheapest(m: Model, i: nat, j: nat)
    requires Sized(m) && Best(m, i, j)
    ensures Cheapest(m, i, j)
  {
    hide Delta, Estimate, Merged;
    forall a: nat, b: nat | a < b < |m.active| ensures Estimate(Merged(m, i, j)) <= Estimate(Merged(m, a, b)) {
      MergeAdds(m, a, b);
      MergeAdds(m, i, j);
      assert Delta(m.hists, m.active[i], m.active[j]) <= Delta(m.hists, m.active[a], m.active[b]);
    }
  }

  /** A step goes to the cheapest of all models one merge away, and unless forced to a dearer one never. */
  lemma StepPays(m: Model, next: Model, maxTrees: nat)
    requires Step(m, next, maxTrees)
    ensures exists i: nat, j: nat :: Cheapest(m, i, j) && next == Merged(m, i, j)
    ensures |m.active| <= maxTrees ==> Estimate(next) <= Estimate(m)
  {
    hide Delta, Estimate, Merged, Best, Cheapest;
    var i: nat, j: nat :| StepAt(m, next, maxTrees, i, j);
    BestCheapest(m, i, j);
    assert i < j < |m.active| by { assert Best(m, i, j); PlacesOf(m, i, j); }
    MergeAdds(m, i, j);
  }

  lemma PlacesOf(m: Model, i: nat, j: nat)
    requires Sized(m) && Best(m, i, j)
    ensures i < j < |m.active|
  {
  }

  /** Some pair is the first of the cheapest. */
  lemma BestExists(m: Model) returns (i: nat, j: nat)
    requires Sized(m) && |m.active| > 1
    ensures Best(m, i, j)
  {
    hide Delta, ScannedTo, Best, Sized;
    i, j := 0, 1;
    FirstScanned(m);
    for a := 0 to |m.active|
      invariant i < j < |m.active| && ScannedTo(m, i, j, a, a + 1)
    {
      for b := a + 1 to |m.active|
        invariant i < j < |m.active| && ScannedTo(m, i, j, a, b)
      {
        i, j := OneMore(m, i, j, a, b);
      }
      RowScanned(m, i, j, a);
    }
    AllScanned(m, i, j);
  }

  lemma FirstScanned(m: Model)
    requires Sized(m) && |m.active| > 1
    ensures ScannedTo(m, 0, 1, 0, 1)
  {
    hide Delta;
  }

  lemma OneMore(m: Model, i: nat, j: nat, a: nat, b: nat) returns (k: nat, l: nat)
    requires Sized(m) && i < j < |m.active| && ScannedTo(m, i, j, a, b) && a < b < |m.active|
    ensures k < l < |m.active| && ScannedTo(m, k, l, a, b + 1)
  {
    hide Delta;
    if Delta(m.hists, m.active[a], m.active[b]) < Delta(m.hists, m.active[i], m.active[j]) {
      k, l := a, b;
    } else {
      k, l := i, j;
    }
  }

  lemma RowScanned(m: Model, i: nat, j: nat, a: nat)
    requires Sized(m) && i < j < |m.active| && ScannedTo(m, i, j, a, |m.active|)
    ensures ScannedTo(m, i, j, a + 1, a + 2)
  {
    hide Delta, Sized;
  }

  lemma AllScanned(m: Model, i: nat, j: nat)
    requires Sized(m) && i < j < |m.active| && ScannedTo(m, i, j, |m.active|, |m.active| + 1)
    ensures Best(m, i, j)
  {
    hide Delta, Sized;
  }

  /** The pair is the first of the cheapest before the pair at `a` and `b`. */
  ghost predicate ScannedTo(m: Model, i: nat, j: nat, a: nat, b: nat)
    requires Sized(m) && i < j < |m.active|
  {
    && ((i == 0 && j == 1) || Earlier(i, j, a, b))
    && forall k, l :: 0 <= k < l < |m.active| && Earlier(k, l, a, b) ==>
         (var d, e := Delta(m.hists, m.active[i], m.active[j]), Delta(m.hists, m.active[k], m.active[l]);
          d <= e && (Earlier(k, l, i, j) ==> d < e))
  }

  /** Where it stops with more than one tree, they are few enough and every merge would cost more. */
  lemma StopPays(m: Model, maxTrees: nat)
    requires Stops(m, maxTrees) && |m.active| > 1
    ensures |m.active| <= maxTrees
    ensures forall a: nat, b: nat :: a < b < |m.active| ==> Estimate(m) < Estimate(Merged(m, a, b))
  {
    hide Delta, Estimate, Merged, Best;
    var i, j := BestExists(m);
    PlacesOf(m, i, j);
    MergeAdds(m, i, j);
    BestCheapest(m, i, j);
    assert Delta(m.hists, m.active[i], m.active[j]) > 0;
  }

  // ----- the result

  ghost predicate Different(s: seq<nat>) {
    forall i, j :: 0 <= i < j < |s| ==> s[i] != s[j]
  }

  /** Different numbers below `n` are at most `n`. */
  lemma {:induction false} AtMost(s: seq<nat>, n: nat) returns (e: set<nat>)
    requires Different(s) && forall i :: 0 <= i < |s| ==> s[i] < n
    ensures |s| <= n && |e| == |s| && forall x: nat :: x in e <==> x in s
    decreases |s|
  {
    if s == [] {
      e := {};
    } else {
      var k := |s| - 1;
      var before := AtMost(s[..k], n);
      e := before + {s[k]};
      forall x: nat | x in s ensures x in e {
        if x != s[k] {
          assert x in s[..k];
        }
      }
      var all := Below(n);
      SubsetSize(e, all);
    }
  }

  /** The numbers of the surviving clusters. */
  function NumbersOf(cmap: seq<nat>, active: seq<nat>): (t: seq<nat>)
    requires forall k :: 0 <= k < |active| ==> active[k] < |cmap|
    ensures |t| == |active| && forall k :: 0 <= k < |t| ==> t[k] == cmap[active[k]]
  {
    seq(|active|, k requires 0 <= k < |active| => cmap[active[k]])
  }

  lemma Contexts(orig: seq<Hist>, m: Model, k: nat)
    requires Gathered(orig, m) && k < |m.active|
    ensures m.active[k] < NUM_CONTEXTS == |m.clusterOf| && m.clusterOf[m.active[k]] == m.active[k]
  {
    assert m.active[k] in m.active;
  }

  /** The numbers are one for every surviving cluster, and the cost reported is the estimate in whole bits. */
  lemma CostReported(orig: seq<Hist>, c: Clustering, m: Model, maxTrees: nat)
    requires Describes(c, m, maxTrees) && Gathered(orig, m)
    ensures c.numTrees == |m.active| && c.estCost == Estimate(m) / 256
  {
    hide DataBits;
    var cmap, active := c.cmap, m.active;
    assert Dense(m.clusterOf, cmap, c.numTrees);
    forall k | 0 <= k < |active| ensures active[k] < |cmap| && m.clusterOf[active[k]] == active[k] {
      Contexts(orig, m, k);
    }
    var t := NumbersOf(cmap, active);
    var e := AtMost(t, c.numTrees);
    var all := Below(c.numTrees);
    forall x: nat | x in all ensures x in e {
      assert x in cmap;
      var d :| 0 <= d < |cmap| && cmap[d] == x;
      assert m.clusterOf[d] in active;
      var k :| 0 <= k < |active| && active[k] == m.clusterOf[d];
      assert t[k] == x;
    }
    SubsetSize(all, e);
    WholeBits(DataBits(m.hists, active), |active|);
  }

  lemma WholeBits(d: int, n: nat)
    ensures (d + 140 * 256 * n) / 256 == d / 256 + 140 * n
  {
  }
}
