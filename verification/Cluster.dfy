/**
 Clustering of literal contexts as it runs: costs of clusters and pairs are cached and only the merged cluster's are
 refreshed, yet every choice is the one the naive algorithm makes.
 */
module Cluster {
  import opened Words
  import opened ClusterSpec

  const NO_DELTA := 0x7FFF_FFFF_FFFF_FFFF  // the greatest signed 64-bit integer

  // ----- costs by loops

  method HistogramBits(h: Hist, total: nat) returns (bits: int)
    requires total == Total(h)
    ensures bits == Bits(h)
  {
    hide Log2Fixed;
    if total == 0 {
      CostNothing(h);
      return 0;
    }
    bits := 0;
    assert h[..0] == [];
    for i := 0 to NUM_SYMBOLS
      invariant bits == Cost(h[..i], total)
    {
      assert h[..i + 1][..i] == h[..i];
      if h[i] != 0 {
        PartSmall(h, i);
        LogMonotone(h[i], total);
        assert 0 <= Log2Fixed(total) - Log2Fixed(h[i]);
        bits := bits + h[i] * (Log2Fixed(total) - Log2Fixed(h[i]));
      }
    }
    assert h[..NUM_SYMBOLS] == h;
  }

  /** The sums are those of a block's literals, so they fit 32 bits as the code has them. */
  method MergedBits(a: Hist, at: nat, b: Hist, bt: nat) returns (bits: int)
    requires at == Total(a) && bt == Total(b) && at + bt < LIMIT
    ensures bits == Bits(Sum(a, b))
  {
    hide Log2Fixed, Sum;
    ghost var h := Sum(a, b);
    var total := at + bt;
    SumTotal(a, b);
    if total == 0 {
      CostNothing(h);
      return 0;
    }
    bits := 0;
    assert h[..0] == [];
    for i := 0 to NUM_SYMBOLS
      invariant bits == Cost(h[..i], total)
    {
      assert h[..i + 1][..i] == h[..i];
      SumAt(a, b, i);
      var c := a[i] + b[i];
      PartSmall(h, i);
      assert c <= total < LIMIT;
      if c != 0 {
        LogMonotone(c, total);
        assert 0 <= Log2Fixed(total) - Log2Fixed(c);
        bits := bits + c * (Log2Fixed(total) - Log2Fixed(c));
      }
    }
    assert h[..NUM_SYMBOLS] == h;
  }

  /** No choice is ever lost against the search's starting value. */
  lemma DeltaFits(hists: seq<Hist>, a: nat, b: nat)
    requires a < |hists| && b < |hists| && Total(hists[a]) < LIMIT && Total(hists[b]) < LIMIT
    ensures -NO_DELTA < Delta(hists, a, b) < NO_DELTA
  {
    hide Cost, Sum, Total;
    SumTotal(hists[a], hists[b]);
    CostFits(hists[a], Total(hists[a]));
    CostFits(hists[b], Total(hists[b]));
    CostFits(Sum(hists[a], hists[b]), Total(Sum(hists[a], hists[b])));
  }

  class State {
    var hists: seq<Hist>
    var totals: seq<nat>
    var clusterOf: seq<nat>
    var active: seq<nat>
    var selfBits: seq<int>
    var delta: seq<seq<int>>  // delta[a][b] for active a < b

    constructor ()
    {
      hists, totals, clusterOf, active, selfBits, delta := [], [], [], [], [], [];
    }

    ghost function Now(): Model
      reads this`hists, this`clusterOf, this`active
    {
      Model(hists, clusterOf, active)
    }

    /** The model is sound, and totals are those of the active clusters. */
    ghost predicate Counted()
      reads this`hists, this`totals, this`clusterOf, this`active
    {
      && Sized(Now()) && |totals| == NUM_CONTEXTS
      && (forall r :: r in active ==> totals[r] == Total(hists[r]) < LIMIT)
    }

    /** Each active cluster's own cost. */
    ghost predicate SelfCached()
      reads this`hists, this`active, this`selfBits
    {
      OwnCosts(hists, active, selfBits, |active|)
    }

    ghost predicate Shape()
      reads this
    {
      Counted() && |selfBits| == NUM_CONTEXTS && Rows(delta)
    }

    /** Every cached cost is what recomputing it would give. */
    ghost predicate Cached()
      reads this
    {
      SelfCached() && PairCosts(hists, active, delta)
    }

    method PairDelta(a: nat, b: nat) returns (d: int)
      requires Counted() && SelfCached() && a in active && b in active && a != b
      requires Total(TotalsOf(hists, active)) < LIMIT
      ensures a < NUM_CONTEXTS && b < NUM_CONTEXTS && d == Delta(hists, a, b)
    {
      hide Bits, Sum, Total, TotalsOf;
      TwoSmall(hists, active, a, b);
      OwnCostOf(hists, active, selfBits, a);
      OwnCostOf(hists, active, selfBits, b);
      var merged := MergedBits(hists[a], totals[a], hists[b], totals[b]);
      d := merged - selfBits[a] - selfBits[b] - HEADER_COST_BITS;
    }

    /** The cached cost of merging the clusters at two places. */
    function Look(i: nat, j: nat): int
      requires Shape() && i < |active| && j < |active|
      reads this
    {
      if active[i] < active[j] then delta[active[i]][active[j]] else delta[active[j]][active[i]]
    }

    lemma LookIs(i: nat, j: nat)
      requires Shape() && Cached() && i < j < |active|
      ensures Look(i, j) == Delta(hists, active[i], active[j])
      ensures -NO_DELTA < Look(i, j) < NO_DELTA
    {
      hide Delta;
      assert active[i] in active && active[j] in active;
      PairCostOf(hists, active, delta, active[i], active[j]);
      DeltaCommutes(hists, active[i], active[j]);
      DeltaFits(hists, active[i], active[j]);
    }

    /** Of the pairs scanned so far, the first of the cheapest. */
    ghost predicate BestSoFar(bi: nat, bj: nat, bd: int, i: nat, j: nat)
      requires Shape()
      reads this
    {
      && (bd < NO_DELTA ==> bi < bj < |active| && Earlier(bi, bj, i, j) && Look(bi, bj) == bd)
      && (forall a: nat, b: nat :: a < b < |active| && Earlier(a, b, i, j) ==>
        bd < NO_DELTA && bd <= Look(a, b) && (Earlier(a, b, bi, bj) ==> bd < Look(a, b)))
    }

    /** Scan the cached costs for the cheapest merge; the first one wins ties. */
    method FindBest() returns (bi: nat, bj: nat, bd: int)
      requires Shape() && Cached() && |active| > 1
      ensures Best(Now(), bi, bj) && bd == Delta(hists, active[bi], active[bj])
    {
      hide Delta, State.Look, State.Cached, State.BestSoFar;
      bi, bj, bd := 0, 0, NO_DELTA;
      var n := |active|;
      NoneYet();
      for i := 0 to n
        invariant BestSoFar(bi, bj, bd, i, i + 1)
      {
        for j := i + 1 to n
          invariant BestSoFar(bi, bj, bd, i, j)
        {
          BestNext(bi, bj, bd, i, j);
          var d := Look(i, j);
          if d < bd {
            bi, bj, bd := i, j, d;
          }
        }
        BestRow(bi, bj, bd, i);
      }
      BestFound(bi, bj, bd);
    }

    lemma NoneYet()
      requires Shape()
      ensures BestSoFar(0, 0, NO_DELTA, 0, 1)
    {
    }

    /** One pair more. */
    lemma BestNext(bi: nat, bj: nat, bd: int, i: nat, j: nat)
      requires Shape() && Cached() && i < j < |active| && BestSoFar(bi, bj, bd, i, j)
      ensures if Look(i, j) < bd then BestSoFar(i, j, Look(i, j), i, j + 1) else BestSoFar(bi, bj, bd, i, j + 1)
    {
      hide Delta, State.Look, State.Cached;
      LookIs(i, j);
      var d := Look(i, j);
      var better := d < bd;
      forall a: nat, b: nat | a < b < |active| && Earlier(a, b, i, j + 1)
        ensures if better then d <= Look(a, b) && (Earlier(a, b, i, j) ==> d < Look(a, b))
                else bd < NO_DELTA && bd <= Look(a, b) && (Earlier(a, b, bi, bj) ==> bd < Look(a, b))
      {
        if a == i && b == j {
        } else {
          assert Earlier(a, b, i, j);
          assert bd < NO_DELTA && bd <= Look(a, b);
        }
      }
    }

    lemma BestRow(bi: nat, bj: nat, bd: int, i: nat)
      requires Shape() && i < |active| && BestSoFar(bi, bj, bd, i, |active|)
      ensures BestSoFar(bi, bj, bd, i + 1, i + 2)
    {
      hide State.Look;
      var n, i1, i2 := |active|, i + 1, i + 2;
      forall a: nat, b: nat | a < b < n && Earlier(a, b, i1, i2)
        ensures bd < NO_DELTA && bd <= Look(a, b) && (Earlier(a, b, bi, bj) ==> bd < Look(a, b))
      {
        assert Earlier(a, b, i, n);
      }
      assert BestSoFar(bi, bj, bd, i1, i2);
    }

    lemma BestFound(bi: nat, bj: nat, bd: int)
      requires Shape() && Cached() && |active| > 1 && BestSoFar(bi, bj, bd, |active|, |active| + 1)
      ensures Best(Now(), bi, bj) && bd == Delta(hists, active[bi], active[bj])
    {
      hide Delta, State.Look, State.Cached;
      assert Earlier(0, 1, |active|, |active| + 1);
      LookIs(bi, bj);
      forall a: nat, b: nat | a < b < |active|
        ensures var d, e := Delta(hists, active[bi], active[bj]), Delta(hists, active[a], active[b]);
          d <= e && (Earlier(a, b, bi, bj) ==> d < e)
      {
        LookIs(a, b);
        assert Earlier(a, b, |active|, |active| + 1);
      }
    }

    /** Fill the tables for the contexts that see literals. */
    method Fill(orig: seq<Hist>)
      requires |orig| == NUM_CONTEXTS && Occupied(orig, NUM_CONTEXTS) != [] && Literals(orig) < LIMIT
      modifies this
      ensures Shape() && Cached() && Now() == Start(orig)
      ensures Total(TotalsOf(hists, active)) < LIMIT
    {
      hide Bits, Delta, Total, TotalsOf, Literals, OwnCosts, PairCosts, Start, State.Counted;
      SetUp(orig);
      FillSelf();
      FillPairs();
    }

    /** The model to start from. */
    method SetUp(orig: seq<Hist>)
      requires |orig| == NUM_CONTEXTS && Occupied(orig, NUM_CONTEXTS) != [] && Literals(orig) < LIMIT
      modifies this`hists, this`totals, this`clusterOf, this`active
      ensures Counted() && Now() == Start(orig)
      ensures Total(TotalsOf(hists, active)) < LIMIT
      ensures forall i, j :: 0 <= i < j < |active| ==> active[i] < active[j]
    {
      hide Total, TotalsOf, Literals, Occupied, Parked;
      StartGathered(orig);
      hists, active := orig, Occupied(orig, NUM_CONTEXTS);
      clusterOf := Parked(orig, active[0], NUM_CONTEXTS);
      totals := AllTotals(orig);
      SmallTotals(hists, active);
    }

    method FillSelf()
      requires Counted()
      modifies this`selfBits
      ensures |selfBits| == NUM_CONTEXTS && SelfCached()
    {
      hide Bits, Total, OwnCosts;
      selfBits := Zeroes(NUM_CONTEXTS);
      NoOwnCosts(hists, active, selfBits);
      for k := 0 to |active|
        invariant |selfBits| == NUM_CONTEXTS && OwnCosts(hists, active, selfBits, k)
      {
        var c := active[k];
        assert c in active;
        var bits := HistogramBits(hists[c], totals[c]);
        OwnCostMore(hists, active, selfBits, k, bits);
        selfBits := selfBits[c := bits];
      }
    }

    /** The cost of every pair; the active list is ascending at the start. */
    method FillPairs()
      requires Counted() && |selfBits| == NUM_CONTEXTS && SelfCached() && Total(TotalsOf(hists, active)) < LIMIT
      requires forall i, j :: 0 <= i < j < |active| ==> active[i] < active[j]
      modifies this`delta
      ensures Shape() && Cached()
    {
      hide Bits, Sum, Delta, Total, TotalsOf, OwnCosts, PairsDone, PairCosts;
      delta := ZeroRows(NUM_CONTEXTS);
      var n := |active|;
      NoPairsDone(hists, active, delta);
      for i := 0 to n
        invariant Rows(delta) && PairsDone(hists, active, delta, i, i + 1)
      {
        for j := i + 1 to n
          invariant Rows(delta) && PairsDone(hists, active, delta, i, j)
        {
          var ci, cj := active[i], active[j];
          assert ci in active && cj in active;
          var d := PairDelta(ci, cj);
          PairDone(hists, active, delta, i, j, d);
          delta := SetPair(delta, ci, cj, d);
        }
        RowDone(hists, active, delta, i);
      }
      AllDone(hists, active, delta);
    }

    /** Merge two clusters and refresh what that changes: one cluster's own cost and its pairs. */
    method Merge(bi: nat, bj: nat)
      requires Shape() && Cached() && bi < bj < |active|
      requires Total(TotalsOf(hists, active)) < LIMIT
      modifies this
      ensures Shape() && Cached() && Now() == Merged(old(Now()), bi, bj)
      ensures Total(TotalsOf(hists, active)) < LIMIT
    {
      hide Bits, Delta, Total, TotalsOf, Sum, Renamed, SwapRemove, OwnCosts, PairCosts, OthersCached, PairsBut;
      var ci := active[bi];
      Join(bi, bj);
      var bits := HistogramBits(hists[ci], totals[ci]);
      OwnCostBack(hists, active, selfBits, delta, ci, bits);
      selfBits := selfBits[ci := bits];
      Refresh(ci);
    }

    /** The data bits of the clusters that are left. */
    method Estimate() returns (dataBits: int)
      requires Counted()
      ensures dataBits == DataBits(hists, active)
    {
      hide Bits, Total;
      dataBits := 0;
      assert active[..0] == [];
      for k := 0 to |active|
        invariant dataBits == DataBits(hists, active[..k])
      {
        assert active[..k + 1][..k] == active[..k];
        var r := active[k];
        assert r in active;
        var bits := HistogramBits(hists[r], totals[r]);
        dataBits := dataBits + bits;
      }
      assert active[..|active|] == active;
    }

    /** Merge as long as the naive algorithm would. */
    method MergeAll(maxTrees: nat) returns (ghost trace: seq<Model>)
      requires Shape() && Cached() && Total(TotalsOf(hists, active)) < LIMIT
      modifies this
      ensures Shape() && Cached()
      ensures NaiveRun(trace, maxTrees) && trace[0] == old(Now()) && trace[|trace| - 1] == Now()
    {
      hide Bits, Delta, Total, TotalsOf, Merged, Best, State.Cached, Rows;
      trace := [Now()];
      while |active| > 1
        invariant Shape() && Cached() && Total(TotalsOf(hists, active)) < LIMIT
        invariant trace != [] && trace[0] == old(Now()) && trace[|trace| - 1] == Now()
        invariant forall k: nat :: k + 1 < |trace| ==> Step(trace[k], trace[k + 1], maxTrees)
        decreases |active|
      {
        var force := |active| > maxTrees;
        var bi, bj, bd := FindBest();
        ghost var m := Now();
        BestPlaces(m, bi, bj);
        if !force && bd > 0 {
          Losing(m, maxTrees, bi, bj);
          return;
        }
        Merge(bi, bj);
        Shorter(m, bi, bj);
        Stepped(m, Now(), maxTrees, bi, bj);
        trace := Longer(trace, Now(), maxTrees);
      }
    }

    /** The merge itself, without the costs it changes. */
    method Join(bi: nat, bj: nat)
      requires Shape() && Cached() && bi < bj < |active|
      requires Total(TotalsOf(hists, active)) < LIMIT
      modifies this`hists, this`totals, this`clusterOf, this`active
      ensures Shape() && Now() == Merged(old(Now()), bi, bj)
      ensures Total(TotalsOf(hists, active)) < LIMIT
      ensures old(active[bi]) in active
      ensures OthersCached(hists, active, selfBits, delta, old(active[bi]))
    {
      hide Bits, Delta, Total, TotalsOf, Sum, Renamed, SwapRemove, OwnCosts, PairCosts, OthersCached;
      ghost var m := Now();
      MergedSized(m, bi, bj);
      MergedTotals(m, bi, bj);
      var ci, cj := active[bi], active[bj];
      assert ci in active && cj in active;
      SumTotal(hists[ci], hists[cj]);
      TwoSmall(hists, active, ci, cj);
      assert totals[ci] + totals[cj] < LIMIT;
      var sum := AddInto(hists[ci], hists[cj]);
      hists := hists[ci := sum];
      totals := totals[ci := totals[ci] + totals[cj]];
      clusterOf := Rename(clusterOf, cj, ci);
      active := SwapRemove(active, bj);
      SmallTotals(hists, active);
      StillCached(m.hists, m.active, hists, active, selfBits, delta, ci);
    }

    /** The pairs of cluster `ci` anew; all others are as cached. */
    method Refresh(ci: nat)
      requires Shape() && SelfCached() && ci in active && Total(TotalsOf(hists, active)) < LIMIT
      requires PairsBut(hists, active, delta, ci, 0)
      modifies this`delta
      ensures Shape() && Cached()
    {
      hide Bits, Delta, Total, TotalsOf, OwnCosts, PairCosts, PairsBut;
      for k := 0 to |active|
        invariant Rows(delta) && PairsBut(hists, active, delta, ci, k)
      {
        var ck := active[k];
        assert ck in active;
        if ck != ci {
          var lo, hi := if ci < ck then ci else ck, if ci < ck then ck else ci;
          var d := PairDelta(lo, hi);
          PairRefreshed(hists, active, delta, ci, k, d);
          delta := SetPair(delta, lo, hi, d);
        } else {
          SelfSkipped(hists, active, delta, ci, k);
        }
      }
      AllRefreshed(hists, active, delta, ci);
    }
  }

  // ----- the tables, as values

  ghost predicate Rows(delta: seq<seq<int>>) {
    |delta| == NUM_CONTEXTS && forall a :: 0 <= a < NUM_CONTEXTS ==> |delta[a]| == NUM_CONTEXTS
  }

  function SetPair(delta: seq<seq<int>>, a: nat, b: nat, d: int): (r: seq<seq<int>>)
    requires Rows(delta) && a < NUM_CONTEXTS && b < NUM_CONTEXTS
    ensures Rows(r)
    ensures forall x, y :: 0 <= x < NUM_CONTEXTS && 0 <= y < NUM_CONTEXTS ==>
      r[x][y] == if x == a && y == b then d else delta[x][y]
  {
    delta[a := delta[a][b := d]]
  }

  ghost predicate Listed(hists: seq<Hist>, active: seq<nat>) {
    && |hists| == NUM_CONTEXTS
    && (forall i :: 0 <= i < |active| ==> active[i] < NUM_CONTEXTS)
    && (forall i, j :: 0 <= i < j < |active| ==> active[i] != active[j])
  }

  /** The first `k` listed clusters' own costs are cached. */
  ghost predicate OwnCosts(hists: seq<Hist>, active: seq<nat>, selfBits: seq<int>, k: nat) {
    Listed(hists, active) && |selfBits| == NUM_CONTEXTS && k <= |active|
    && forall i :: 0 <= i < k ==> selfBits[active[i]] == Bits(hists[active[i]])
  }

  lemma NoOwnCosts(hists: seq<Hist>, active: seq<nat>, selfBits: seq<int>)
    requires Listed(hists, active) && |selfBits| == NUM_CONTEXTS
    ensures OwnCosts(hists, active, selfBits, 0)
  {
  }

  lemma OwnCostMore(hists: seq<Hist>, active: seq<nat>, selfBits: seq<int>, k: nat, bits: int)
    requires OwnCosts(hists, active, selfBits, k) && k < |active| && bits == Bits(hists[active[k]])
    ensures OwnCosts(hists, active, selfBits[active[k] := bits], k + 1)
  {
    hide Bits;
  }

  lemma OwnCostOf(hists: seq<Hist>, active: seq<nat>, selfBits: seq<int>, r: nat)
    requires OwnCosts(hists, active, selfBits, |active|) && r in active
    ensures r < NUM_CONTEXTS && selfBits[r] == Bits(hists[r])
  {
    hide Bits;
    var i :| 0 <= i < |active| && active[i] == r;
  }

  /** Every pair of listed clusters has its cost cached, the smaller number first. */
  ghost predicate PairCosts(hists: seq<Hist>, active: seq<nat>, delta: seq<seq<int>>) {
    Listed(hists, active) && Rows(delta)
    && forall i, j :: 0 <= i < |active| && 0 <= j < |active| && active[i] < active[j] ==>
      delta[active[i]][active[j]] == Delta(hists, active[i], active[j])
  }

  lemma PairCostOf(hists: seq<Hist>, active: seq<nat>, delta: seq<seq<int>>, a: nat, b: nat)
    requires PairCosts(hists, active, delta) && a in active && b in active
    ensures a < NUM_CONTEXTS && b < NUM_CONTEXTS
    ensures a < b ==> delta[a][b] == Delta(hists, a, b)
    ensures b < a ==> delta[b][a] == Delta(hists, b, a)
  {
    hide Delta;
    var i :| 0 <= i < |active| && active[i] == a;
    var j :| 0 <= j < |active| && active[j] == b;
  }

  /** The pairs before place (i, j) have their cost cached; the list is ascending. */
  ghost predicate PairsDone(hists: seq<Hist>, active: seq<nat>, delta: seq<seq<int>>, i: nat, j: nat) {
    && Listed(hists, active) && Rows(delta)
    && (forall a, b :: 0 <= a < b < |active| ==> active[a] < active[b])
    && (forall a: nat, b: nat :: a < b < |active| && Earlier(a, b, i, j) ==>
      delta[active[a]][active[b]] == Delta(hists, active[a], active[b]))
  }

  lemma NoPairsDone(hists: seq<Hist>, active: seq<nat>, delta: seq<seq<int>>)
    requires Listed(hists, active) && Rows(delta) && forall a, b :: 0 <= a < b < |active| ==> active[a] < active[b]
    ensures PairsDone(hists, active, delta, 0, 1)
  {
  }

  lemma PairDone(hists: seq<Hist>, active: seq<nat>, delta: seq<seq<int>>, i: nat, j: nat, d: int)
    requires PairsDone(hists, active, delta, i, j) && i < j < |active| && d == Delta(hists, active[i], active[j])
    ensures PairsDone(hists, active, SetPair(delta, active[i], active[j], d), i, j + 1)
  {
    hide Delta, SetPair;
    forall a: nat, b: nat | a < b < |active| && Earlier(a, b, i, j + 1)
      ensures SetPair(delta, active[i], active[j], d)[active[a]][active[b]] == Delta(hists, active[a], active[b])
    {
      if a == i && b == j {
      } else {
        assert Earlier(a, b, i, j);
      }
    }
  }

  lemma RowDone(hists: seq<Hist>, active: seq<nat>, delta: seq<seq<int>>, i: nat)
    requires PairsDone(hists, active, delta, i, |active|)
    ensures PairsDone(hists, active, delta, i + 1, i + 2)
  {
    hide Delta;
    forall a: nat, b: nat | a < b < |active| && Earlier(a, b, i + 1, i + 2)
      ensures delta[active[a]][active[b]] == Delta(hists, active[a], active[b])
    {
      assert Earlier(a, b, i, |active|);
    }
  }

  lemma AllDone(hists: seq<Hist>, active: seq<nat>, delta: seq<seq<int>>)
    requires PairsDone(hists, active, delta, |active|, |active| + 1)
    ensures PairCosts(hists, active, delta)
  {
    hide Delta;
    forall i, j | 0 <= i < |active| && 0 <= j < |active| && active[i] < active[j]
      ensures delta[active[i]][active[j]] == Delta(hists, active[i], active[j])
    {
      assert i < j;
      assert Earlier(i, j, |active|, |active| + 1);
    }
  }

  /** All pairs without `ci`, and those of `ci` with the first `k` listed clusters. */
  ghost predicate PairsBut(hists: seq<Hist>, active: seq<nat>, delta: seq<seq<int>>, ci: nat, k: nat) {
    Listed(hists, active) && Rows(delta) && ci < NUM_CONTEXTS
    && forall i, j :: 0 <= i < |active| && 0 <= j < |active| && active[i] < active[j] && Fresh(active, ci, k, i, j) ==>
      delta[active[i]][active[j]] == Delta(hists, active[i], active[j])
  }

  predicate Fresh(active: seq<nat>, ci: nat, k: nat, i: nat, j: nat)
    requires i < |active| && j < |active|
  {
    (active[i] == ci ==> j < k) && (active[j] == ci ==> i < k)
  }

  lemma PairRefreshed(hists: seq<Hist>, active: seq<nat>, delta: seq<seq<int>>, ci: nat, k: nat, d: int)
    requires PairsBut(hists, active, delta, ci, k) && k < |active| && active[k] != ci
    requires d == if ci < active[k] then Delta(hists, ci, active[k]) else Delta(hists, active[k], ci)
    ensures PairsBut(hists, active,
      if ci < active[k] then SetPair(delta, ci, active[k], d) else SetPair(delta, active[k], ci, d), ci, k + 1)
  {
    hide Delta, SetPair;
  }

  lemma SelfSkipped(hists: seq<Hist>, active: seq<nat>, delta: seq<seq<int>>, ci: nat, k: nat)
    requires PairsBut(hists, active, delta, ci, k) && k < |active| && active[k] == ci
    ensures PairsBut(hists, active, delta, ci, k + 1)
  {
    hide Delta;
  }

  lemma AllRefreshed(hists: seq<Hist>, active: seq<nat>, delta: seq<seq<int>>, ci: nat)
    requires PairsBut(hists, active, delta, ci, |active|)
    ensures PairCosts(hists, active, delta)
  {
    hide Delta;
  }

  /** Everything that does not involve `ci` is cached. */
  ghost predicate OthersCached(hists: seq<Hist>, active: seq<nat>, selfBits: seq<int>, delta: seq<seq<int>>, ci: nat) {
    && PairsBut(hists, active, delta, ci, 0) && |selfBits| == NUM_CONTEXTS
    && (forall i :: 0 <= i < |active| && active[i] != ci ==> selfBits[active[i]] == Bits(hists[active[i]]))
  }

  lemma StillCached(was: seq<Hist>, had: seq<nat>, hists: seq<Hist>, active: seq<nat>, selfBits: seq<int>,
                    delta: seq<seq<int>>, ci: nat)
    requires OwnCosts(was, had, selfBits, |had|) && PairCosts(was, had, delta) && Listed(hists, active)
    requires ci < NUM_CONTEXTS && forall r: nat :: r < NUM_CONTEXTS && r != ci ==> hists[r] == was[r]
    requires forall r :: r in active ==> r in had
    ensures OthersCached(hists, active, selfBits, delta, ci)
  {
    hide Bits, Sum;
    forall i | 0 <= i < |active| && active[i] != ci ensures selfBits[active[i]] == Bits(hists[active[i]]) {
      assert active[i] in active;
      OwnCostOf(was, had, selfBits, active[i]);
    }
    forall i, j | 0 <= i < |active| && 0 <= j < |active| && active[i] < active[j] && active[i] != ci && active[j] != ci
      ensures delta[active[i]][active[j]] == Delta(hists, active[i], active[j])
    {
      assert active[i] in active && active[j] in active;
      PairCostOf(was, had, delta, active[i], active[j]);
    }
  }

  lemma OwnCostBack(hists: seq<Hist>, active: seq<nat>, selfBits: seq<int>, delta: seq<seq<int>>, ci: nat, bits: int)
    requires OthersCached(hists, active, selfBits, delta, ci)
    requires ci < |hists| && bits == Bits(hists[ci])
    ensures ci < |selfBits| && OwnCosts(hists, active, selfBits[ci := bits], |active|)
    ensures PairsBut(hists, active, delta, ci, 0)
  {
    hide Bits, Delta;
  }

  method AllTotals(hists: seq<Hist>) returns (totals: seq<nat>)
    ensures |totals| == |hists| && forall c :: 0 <= c < |hists| ==> totals[c] == Total(hists[c])
  {
    totals := [];
    for c := 0 to |hists|
      invariant |totals| == c && forall k :: 0 <= k < c ==> totals[k] == Total(hists[k])
    {
      totals := totals + [Total(hists[c])];
    }
  }

  function ZeroRows(n: nat): (z: seq<seq<int>>)
    ensures |z| == n && forall i :: 0 <= i < n ==> |z[i]| == NUM_CONTEXTS
  {
    if n == 0 then [] else ZeroRows(n - 1) + [Zeroes(NUM_CONTEXTS)]
  }

  /** Two clusters' literals together are no more than all. */
  lemma TwoSmall(hists: seq<Hist>, active: seq<nat>, a: nat, b: nat)
    requires Total(TotalsOf(hists, active)) < LIMIT && forall i :: 0 <= i < |active| ==> active[i] < |hists|
    requires a in active && b in active && a != b
    ensures Total(hists[a]) + Total(hists[b]) < LIMIT
  {
    hide Total, TotalsOf;
    var w := TotalsOf(hists, active);
    var i :| 0 <= i < |active| && active[i] == a;
    var j :| 0 <= j < |active| && active[j] == b;
    TotalUpdate(w, i, 0);
    PartSmall(w[i := 0], j);
  }

  lemma SmallTotals(hists: seq<Hist>, active: seq<nat>)
    requires Total(TotalsOf(hists, active)) < LIMIT && forall i :: 0 <= i < |active| ==> active[i] < |hists|
    ensures forall r :: r in active ==> Total(hists[r]) < LIMIT
  {
    hide Total, TotalsOf;
    forall r | r in active ensures Total(hists[r]) < LIMIT {
      var i :| 0 <= i < |active| && active[i] == r;
      PartSmall(TotalsOf(hists, active), i);
    }
  }

  /** One histogram added to another, symbol by symbol. */
  method AddInto(a: Hist, b: Hist) returns (s: Hist)
    ensures s == Sum(a, b)
  {
    var out := new nat[NUM_SYMBOLS](_ => 0);
    for i := 0 to NUM_SYMBOLS
      invariant forall k :: 0 <= k < i ==> out[k] == a[k] + b[k]
    {
      out[i] := a[i] + b[i];
    }
    s := out[..];
    forall i | 0 <= i < NUM_SYMBOLS ensures s[i] == Sum(a, b)[i] {
      SumAt(a, b, i);
    }
  }

  method Rename(s: seq<nat>, from: nat, to: nat) returns (r: seq<nat>)
    ensures r == Renamed(s, from, to)
  {
    r := [];
    for i := 0 to |s|
      invariant |r| == i && forall k :: 0 <= k < i ==> r[k] == if s[k] == from then to else s[k]
    {
      r := r + [if s[i] == from then to else s[i]];
    }
  }

  // ----- the dense context map

  lemma {:induction false} AsSet(s: seq<nat>) returns (e: set<nat>)
    ensures |e| <= |s| && forall x: nat :: x in e <==> x in s
  {
    if s == [] {
      e := {};
    } else {
      e := AsSet(s[..|s| - 1]);
      e := e + {s[|s| - 1]};
    }
  }

  /** New numbers are below `next`, all different, and given to the clusters met so far. */
  ghost predicate Numbering(remap: seq<int>, met: set<nat>, next: nat) {
    && |remap| == NUM_CONTEXTS && |met| == next
    && (forall r: nat :: r in met <==> r < NUM_CONTEXTS && remap[r] >= 0)
    && (forall r: nat :: r < NUM_CONTEXTS ==> -1 <= remap[r] < next)
    && (forall q: nat, r: nat :: q < r < NUM_CONTEXTS && remap[q] >= 0 ==> remap[q] != remap[r])
  }

  /** The first contexts carry their clusters' numbers, and every number is used. */
  ghost predicate Mapped(clusterOf: seq<nat>, cmap: seq<nat>, remap: seq<int>, next: nat) {
    && |cmap| <= |clusterOf| == |remap| == NUM_CONTEXTS
    && (forall d :: 0 <= d < |cmap| ==> clusterOf[d] < NUM_CONTEXTS && cmap[d] == remap[clusterOf[d]])
    && (forall t: nat :: t < next ==> t in cmap)
    && Ascending(cmap)
  }

  lemma NumberNew(remap: seq<int>, met: set<nat>, next: nat, cl: nat)
    requires Numbering(remap, met, next) && cl < NUM_CONTEXTS && remap[cl] < 0
    ensures Numbering(remap[cl := next], met + {cl}, next + 1)
  {
  }

  lemma GivenBelow(remap: seq<int>, met: set<nat>, next: nat, cl: nat)
    requires Numbering(remap, met, next) && cl < NUM_CONTEXTS
    ensures |remap| == NUM_CONTEXTS && remap[cl] < next
  {
  }

  lemma MapOld(clusterOf: seq<nat>, cmap: seq<nat>, remap: seq<int>, next: nat)
    requires Mapped(clusterOf, cmap, remap, next) && |cmap| < NUM_CONTEXTS
    requires clusterOf[|cmap|] < NUM_CONTEXTS && 0 <= remap[clusterOf[|cmap|]] < next
    ensures Mapped(clusterOf, cmap + [remap[clusterOf[|cmap|]]], remap, next)
  {
    hide Ascending;
    AscendingMore(cmap, remap[clusterOf[|cmap|]]);
  }

  lemma MapNew(clusterOf: seq<nat>, cmap: seq<nat>, remap: seq<int>, next: nat)
    requires Mapped(clusterOf, cmap, remap, next) && |cmap| < NUM_CONTEXTS
    requires clusterOf[|cmap|] < NUM_CONTEXTS && remap[clusterOf[|cmap|]] < 0
    requires forall d :: 0 <= d < |cmap| ==> remap[clusterOf[d]] >= 0
    ensures Mapped(clusterOf, cmap + [next], remap[clusterOf[|cmap|] := next], next + 1)
  {
    hide Ascending;
    AscendingMore(cmap, next);
    var more := cmap + [next];
    forall t: nat | t < next + 1 ensures t in more {
      if t == next {
        assert more[|cmap|] == next;
      } else {
        assert t in cmap;
      }
    }
  }

  lemma MapDense(clusterOf: seq<nat>, cmap: seq<nat>, remap: seq<int>, met: set<nat>, next: nat)
    requires Numbering(remap, met, next) && Mapped(clusterOf, cmap, remap, next) && |cmap| == NUM_CONTEXTS
    ensures Dense(clusterOf, cmap, next)
  {
  }

  /** Number the clusters in the order their contexts first appear. */
  method Densify(clusterOf: seq<nat>, active: seq<nat>) returns (cmap: seq<nat>, next: nat)
    requires |clusterOf| == NUM_CONTEXTS
    requires forall c :: 0 <= c < NUM_CONTEXTS ==> clusterOf[c] < NUM_CONTEXTS && clusterOf[c] in active
    ensures Dense(clusterOf, cmap, next) && 0 < next <= |active|
  {
    hide Numbering, Mapped, Dense;
    var remap := new int[NUM_CONTEXTS](_ => -1);
    cmap, next := [], 0;
    ghost var met: set<nat> := {};
    NothingMapped(clusterOf, remap[..]);
    for c := 0 to NUM_CONTEXTS
      invariant |cmap| == c
      invariant Numbering(remap[..], met, next) && Mapped(clusterOf, cmap, remap[..], next)
      invariant forall r :: r in met ==> r in active
    {
      var cl := clusterOf[c];
      MappedMet(clusterOf, cmap, remap[..], met, next);
      ghost var before := remap[..];
      if remap[cl] < 0 {
        NumberNew(before, met, next, cl);
        MapNew(clusterOf, cmap, before, next);
        remap[cl] := next;
        assert remap[..] == before[cl := next];
        cmap := cmap + [next];
        next := next + 1;
        met := met + {cl};
      } else {
        GivenBelow(before, met, next, cl);
        MapOld(clusterOf, cmap, before, next);
        cmap := cmap + [remap[cl]];
      }
    }
    MappedMet(clusterOf, cmap, remap[..], met, next);
    MapDense(clusterOf, cmap, remap[..], met, next);
    MetSize(remap[..], met, next);
    var all := AsSet(active);
    SubsetSize(met, all);
  }

  lemma NothingMapped(clusterOf: seq<nat>, remap: seq<int>)
    requires |clusterOf| == |remap| == NUM_CONTEXTS && forall r :: 0 <= r < NUM_CONTEXTS ==> remap[r] == -1
    ensures Numbering(remap, {}, 0) && Mapped(clusterOf, [], remap, 0)
  {
  }

  lemma MappedMet(clusterOf: seq<nat>, cmap: seq<nat>, remap: seq<int>, met: set<nat>, next: nat)
    requires Numbering(remap, met, next) && Mapped(clusterOf, cmap, remap, next)
    ensures forall d :: 0 <= d < |cmap| ==> clusterOf[d] < NUM_CONTEXTS && remap[clusterOf[d]] >= 0
    ensures |cmap| > 0 ==> next > 0
  {
    if |cmap| > 0 {
      assert remap[clusterOf[0]] < next;
    }
  }

  lemma MetSize(remap: seq<int>, met: set<nat>, next: nat)
    requires Numbering(remap, met, next)
    ensures |met| == next
  {
  }

  lemma Losing(m: Model, maxTrees: nat, i: nat, j: nat)
    requires Sized(m) && Best(m, i, j) && i < |m.active| && j < |m.active| && |m.active| <= maxTrees
    requires Delta(m.hists, m.active[i], m.active[j]) > 0
    ensures Stops(m, maxTrees)
  {
    hide Delta, Best;
    forall k: nat, l: nat | Best(m, k, l)
      ensures k < |m.active| && l < |m.active| && Delta(m.hists, m.active[k], m.active[l]) > 0
    {
      BestUnique(m, i, j, k, l);
    }
  }

  lemma Stepped(m: Model, next: Model, maxTrees: nat, i: nat, j: nat)
    requires Sized(m) && Best(m, i, j) && i < j < |m.active| && next == Merged(m, i, j)
    requires |m.active| > maxTrees || Delta(m.hists, m.active[i], m.active[j]) <= 0
    ensures Step(m, next, maxTrees)
  {
    hide Delta, Best, Merged;
    assert StepAt(m, next, maxTrees, i, j);
  }

  lemma Shorter(m: Model, i: nat, j: nat)
    requires Sized(m) && i < j < |m.active|
    ensures |Merged(m, i, j).active| < |m.active|
  {
    hide Sum;
  }

  ghost method Longer(trace: seq<Model>, next: Model, maxTrees: nat) returns (longer: seq<Model>)
    requires trace != [] && Step(trace[|trace| - 1], next, maxTrees)
    requires forall k: nat :: k + 1 < |trace| ==> Step(trace[k], trace[k + 1], maxTrees)
    ensures longer == trace + [next]
    ensures forall k: nat :: k + 1 < |longer| ==> Step(longer[k], longer[k + 1], maxTrees)
  {
    hide Step;
    longer := trace + [next];
    forall k: nat | k + 1 < |longer| ensures Step(longer[k], longer[k + 1], maxTrees) {
      if k + 1 < |trace| {
        assert Step(trace[k], trace[k + 1], maxTrees);
      }
    }
  }

  // ----- the whole clustering

  datatype Clustering = Clustering(hists: seq<Hist>, cmap: seq<nat>, numTrees: nat, estCost: int)

  /** What `c` says about the final model `m`: a dense map of few enough trees, and the estimate. */
  ghost predicate Describes(c: Clustering, m: Model, maxTrees: nat) {
    && c.hists == m.hists && Dense(m.clusterOf, c.cmap, c.numTrees)
    && 0 < c.numTrees && (c.numTrees <= 1 || c.numTrees <= maxTrees)
    && c.estCost == DataBits(m.hists, m.active) / 256 + c.numTrees * (HEADER_COST_BITS / 256)
  }

  /** Cluster the contexts of a block into at most `maxTrees` trees (or one). */
  method ClusterContexts(orig: seq<Hist>, maxTrees: nat) returns (c: Clustering, ghost trace: seq<Model>)
    requires |orig| == NUM_CONTEXTS && Literals(orig) < LIMIT
    ensures Occupied(orig, NUM_CONTEXTS) == [] ==>
      c == Clustering(orig, Zeroes(NUM_CONTEXTS), 1, 0)
    ensures Occupied(orig, NUM_CONTEXTS) != [] ==>
      && NaiveRun(trace, maxTrees) && trace[0] == Start(orig)
      && Gathered(orig, trace[|trace| - 1])
      && Describes(c, trace[|trace| - 1], maxTrees)
  {
    hide Literals, Occupied, Start, Gathered, Total, TotalsOf, Bits, State.Cached, Rows, Dense;
    if Occupied(orig, NUM_CONTEXTS) == [] {
      trace := [];
      return Clustering(orig, Zeroes(NUM_CONTEXTS), 1, 0), trace;
    }
    var st := new State();
    st.Fill(orig);
    trace := st.MergeAll(maxTrees);
    StartGathered(orig);
    RunGathered(orig, trace, |trace| - 1, maxTrees);
    RunEnds(orig, trace, maxTrees);
    var cmap, next := Densify(st.clusterOf, st.active);
    var dataBits := st.Estimate();
    c := Clustering(st.hists, cmap, next, dataBits / 256 + next * (HEADER_COST_BITS / 256));
  }

  function Zeroes(n: nat): (z: seq<nat>)
    ensures |z| == n
  {
    if n == 0 then [] else Zeroes(n - 1) + [0]
  }

  lemma RunEnds(orig: seq<Hist>, trace: seq<Model>, maxTrees: nat)
    requires NaiveRun(trace, maxTrees) && Gathered(orig, trace[|trace| - 1])
    ensures var m := trace[|trace| - 1];
      && |m.clusterOf| == NUM_CONTEXTS && (|m.active| <= 1 || |m.active| <= maxTrees)
      && forall c :: 0 <= c < NUM_CONTEXTS ==> m.clusterOf[c] < NUM_CONTEXTS && m.clusterOf[c] in m.active
  {
    hide Seen;
  }
}
