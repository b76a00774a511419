/** The bit costs of literal histograms, and the naive agglomerative clustering that recomputes them at every step. */
module ClusterSpec {
  import opened Words

  const NUM_CONTEXTS := 64
  const NUM_SYMBOLS := 256
  const HEADER_COST_BITS := 35840  // 140 * 256
  const LIMIT := 0x1_0000_0000     // more literals than a 32-bit count can hold

  type Hist = h: seq<nat> | |h| == NUM_SYMBOLS witness seq(256, _ => 0)

  // ----- fixed-point logarithms

  function FloorLog(x: nat): (n: nat)
    requires x >= 1
    ensures Pow2(n) <= x < 2 * Pow2(n)
  {
    if x == 1 then 0 else 1 + FloorLog(x / 2)
  }

  /** log2(x) * 256, interpolated linearly between powers of two. */
  function Log2Fixed(x: nat): nat
    requires x >= 1
  {
    var base := Pow2(FloorLog(x));
    256 * FloorLog(x) + (x - base) * 256 / base
  }

  lemma LogRange(x: nat)
    requires x >= 1
    ensures 256 * FloorLog(x) <= Log2Fixed(x) < 256 * FloorLog(x) + 256
  {
    hide Pow2, FloorLog;
    var base := Pow2(FloorLog(x));
    assert x - base < base;
    DivBelow((x - base) * 256, base, 256);
  }

  lemma DivBelow(v: nat, a: nat, b: nat)
    requires a > 0 && v < b * a
    ensures v / a < b
  {
    if v / a >= b {
      MulMonotone(b, v / a, a);
    }
  }

  lemma DivMonotone(v: nat, w: nat, a: nat)
    requires a > 0 && v <= w
    ensures v / a <= w / a
  {
    if w / a < v / a {
      MulMonotone(w / a + 1, v / a, a);
      Distribute(w / a, 1, a);
    }
  }

  lemma {:induction false} FloorGrows(x: nat, y: nat)
    requires 1 <= x <= y
    ensures FloorLog(x) <= FloorLog(y)
    decreases x
  {
    if x > 1 {
      FloorGrows(x / 2, y / 2);
    }
  }

  /** The interpolated logarithm is monotone, so no difference of logarithms in a cost is negative. */
  lemma LogMonotone(x: nat, y: nat)
    requires 1 <= x <= y
    ensures Log2Fixed(x) <= Log2Fixed(y)
  {
    hide Pow2;
    FloorGrows(x, y);
    LogRange(x);
    LogRange(y);
    if FloorLog(x) == FloorLog(y) {
      var base := Pow2(FloorLog(x));
      DivMonotone((x - base) * 256, (y - base) * 256, base);
    }
  }

  // ----- costs

  /** What `count` symbols of one kind cost among `total`. */
  function Share(count: nat, total: nat): int {
    if count == 0 || total == 0 then 0 else count * (Log2Fixed(total) - Log2Fixed(count))
  }

  function Cost(h: seq<nat>, total: nat): int {
    if h == [] then 0 else Cost(h[..|h| - 1], total) + Share(h[|h| - 1], total)
  }

  function Sum(a: seq<nat>, b: seq<nat>): (s: seq<nat>)
    requires |a| == |b|
    ensures |s| == |a|
  {
    if a == [] then [] else Sum(a[..|a| - 1], b[..|b| - 1]) + [a[|a| - 1] + b[|b| - 1]]
  }

  lemma {:induction false} SumAt(a: seq<nat>, b: seq<nat>, i: nat)
    requires |a| == |b| && i < |a|
    ensures Sum(a, b)[i] == a[i] + b[i]
    decreases |a|
  {
    if i < |a| - 1 {
      SumAt(a[..|a| - 1], b[..|b| - 1], i);
    }
  }

  lemma {:induction false} SumTotal(a: seq<nat>, b: seq<nat>)
    requires |a| == |b|
    ensures Total(Sum(a, b)) == Total(a) + Total(b)
  {
    if a != [] {
      SumTotal(a[..|a| - 1], b[..|b| - 1]);
    }
  }

  lemma {:induction false} SumCommutes(a: seq<nat>, b: seq<nat>)
    requires |a| == |b|
    ensures Sum(a, b) == Sum(b, a)
  {
    if a != [] {
      SumCommutes(a[..|a| - 1], b[..|b| - 1]);
    }
  }

  lemma {:induction false} PartSmall(h: seq<nat>, i: nat)
    requires i < |h|
    ensures h[i] <= Total(h)
  {
    if i < |h| - 1 {
      PartSmall(h[..|h| - 1], i);
    }
  }

  lemma ShareBounds(count: nat, total: nat)
    requires count <= total
    ensures 0 <= Share(count, total)
    ensures total > 0 ==> Share(count, total) <= count * Log2Fixed(total)
  {
    if count > 0 {
      LogMonotone(count, total);
      MulMonotone(Log2Fixed(total) - Log2Fixed(count), Log2Fixed(total), count);
    }
  }

  /** A cost is never negative and at most the total times its logarithm. */
  lemma {:induction false} CostBounds(h: seq<nat>, total: nat)
    requires Total(h) <= total
    ensures 0 <= Cost(h, total) && (total > 0 ==> Cost(h, total) <= Total(h) * Log2Fixed(total))
    decreases |h|
  {
    hide Log2Fixed, Share;
    if h != [] {
      CostBounds(h[..|h| - 1], total);
      ShareBounds(h[|h| - 1], total);
      if total > 0 {
        Distribute(Total(h[..|h| - 1]), h[|h| - 1], Log2Fixed(total));
      }
    }
  }

  lemma {:induction false} FloorBound(x: nat, n: nat)
    requires 1 <= x < Pow2(n)
    ensures FloorLog(x) < n
    decreases n
  {
    if x > 1 {
      FloorBound(x / 2, n - 1);
    }
  }

  /** All costs fit a signed 64-bit integer with room to spare. */
  lemma CostFits(h: seq<nat>, total: nat)
    requires Total(h) == total < 2 * LIMIT
    ensures 0 <= Cost(h, total) < 0x2_0000_0000 * 8448
  {
    hide Cost, Log2Fixed, FloorLog;
    CostBounds(h, total);
    if total > 0 {
      Pow2Bytes();
      Pow2Next(32);
      FloorBound(total, 33);
      LogRange(total);
      MulMonotone(Log2Fixed(total), 8448 - 1, total);
    } else {
      CostNothing(h);
    }
  }

  lemma {:induction false} CostNothing(h: seq<nat>)
    ensures Cost(h, 0) == 0
  {
    if h != [] {
      CostNothing(h[..|h| - 1]);
    }
  }

  // ----- naive clustering

  /** The histograms, the cluster of every context, and the clusters still there. */
  datatype Model = Model(hists: seq<Hist>, clusterOf: seq<nat>, active: seq<nat>)

  ghost predicate Sized(m: Model) {
    && |m.hists| == |m.clusterOf| == NUM_CONTEXTS
    && (forall i :: 0 <= i < |m.active| ==> m.active[i] < NUM_CONTEXTS)
    && (forall i, j :: 0 <= i < j < |m.active| ==> m.active[i] != m.active[j])
  }

  function Bits(h: Hist): int {
    Cost(h, Total(h))
  }

  /** What merging two clusters adds to the data, less the header it saves. */
  function Delta(hists: seq<Hist>, a: nat, b: nat): int
    requires a < |hists| && b < |hists|
  {
    Bits(Sum(hists[a], hists[b])) - Bits(hists[a]) - Bits(hists[b]) - HEADER_COST_BITS
  }

  lemma DeltaCommutes(hists: seq<Hist>, a: nat, b: nat)
    requires a < |hists| && b < |hists|
    ensures Delta(hists, a, b) == Delta(hists, b, a)
  {
    SumCommutes(hists[a], hists[b]);
  }

  /** The pair at places i < j is the first of the cheapest ones. */
  ghost predicate Best(m: Model, i: nat, j: nat)
    requires Sized(m)
  {
    && i < j < |m.active|
    && forall a, b :: 0 <= a < b < |m.active| ==>
         (var d, e := Delta(m.hists, m.active[i], m.active[j]), Delta(m.hists, m.active[a], m.active[b]);
          d <= e && (Earlier(a, b, i, j) ==> d < e))
  }

  predicate Earlier(a: nat, b: nat, i: nat, j: nat) {
    a < i || (a == i && b < j)
  }

  lemma BestUnique(m: Model, i: nat, j: nat, k: nat, l: nat)
    requires Sized(m) && Best(m, i, j) && Best(m, k, l)
    ensures i == k && j == l
  {
    hide Delta;
    if Earlier(i, j, k, l) {
    } else if Earlier(k, l, i, j) {
    }
  }

  /** The cluster at place `j` goes into the one at place `i`. */
  function Merged(m: Model, i: nat, j: nat): Model
    requires |m.hists| == |m.clusterOf| == NUM_CONTEXTS
    requires i < j < |m.active| && m.active[i] < NUM_CONTEXTS && m.active[j] < NUM_CONTEXTS
  {
    var ci, cj := m.active[i], m.active[j];
    Model(m.hists[ci := Sum(m.hists[ci], m.hists[cj])], Renamed(m.clusterOf, cj, ci), SwapRemove(m.active, j))
  }

  function Renamed(s: seq<nat>, from: nat, to: nat): (r: seq<nat>)
    ensures |r| == |s|
    ensures forall k :: 0 <= k < |s| ==> r[k] == if s[k] == from then to else s[k]
  {
    if s == [] then [] else Renamed(s[..|s| - 1], from, to) + [if s[|s| - 1] == from then to else s[|s| - 1]]
  }

  lemma MergedSized(m: Model, i: nat, j: nat)
    requires Sized(m) && i < j < |m.active|
    ensures Sized(Merged(m, i, j))
    ensures forall r :: r in Merged(m, i, j).active <==> r in m.active && r != m.active[j]
    ensures Merged(m, i, j).active[i] == m.active[i]
  {
    hide Sum;
    SwapRemoveAt(m.active, j);
    var left := SwapRemove(m.active, j);
    forall r | r in m.active && r != m.active[j] ensures r in left {
      var k :| 0 <= k < |m.active| && m.active[k] == r;
      assert left[if k == |m.active| - 1 then j else k] == r;
    }
  }

  /** One merge of the naive algorithm: the best pair, if merging is forced or does not lose. */
  ghost predicate Step(m: Model, next: Model, maxTrees: nat) {
    Sized(m) && exists i: nat, j: nat :: StepAt(m, next, maxTrees, i, j)
  }

  ghost predicate StepAt(m: Model, next: Model, maxTrees: nat, i: nat, j: nat)
    requires Sized(m)
  {
    && Best(m, i, j) && next == Merged(m, i, j)
    && (|m.active| > maxTrees || Delta(m.hists, m.active[i], m.active[j]) <= 0)
  }

  /** Nothing is left to merge, or nothing has to be and the best pair loses. */
  ghost predicate Stops(m: Model, maxTrees: nat) {
    && Sized(m)
    && (|m.active| <= 1
        || (|m.active| <= maxTrees
            && forall i: nat, j: nat :: Best(m, i, j) ==> Delta(m.hists, m.active[i], m.active[j]) > 0))
  }

  ghost predicate NaiveRun(trace: seq<Model>, maxTrees: nat) {
    && trace != []
    && (forall k: nat :: k + 1 < |trace| ==> Step(trace[k], trace[k + 1], maxTrees))
    && Stops(trace[|trace| - 1], maxTrees)
  }

  lemma StepOnce(m: Model, next: Model, maxTrees: nat)
    requires Step(m, next, maxTrees)
    ensures !Stops(m, maxTrees)
    ensures forall other :: Step(m, other, maxTrees) ==> other == next
  {
    hide Delta, Sum;
    var i: nat, j: nat :| StepAt(m, next, maxTrees, i, j);
    forall other | Step(m, other, maxTrees) ensures other == next {
      var k: nat, l: nat :| StepAt(m, other, maxTrees, k, l);
      BestUnique(m, i, j, k, l);
    }
  }

  /** The naive algorithm has one run from every start. */
  lemma {:induction false} RunUnique(a: seq<Model>, b: seq<Model>, maxTrees: nat)
    requires NaiveRun(a, maxTrees) && NaiveRun(b, maxTrees) && a[0] == b[0]
    ensures a == b
    decreases |a|
  {
    hide Step, Stops;
    if |a| == 1 && |b| == 1 {
    } else if |a| > 1 && |b| > 1 {
      assert Step(a[0], a[0 + 1], maxTrees) && Step(b[0], b[0 + 1], maxTrees);
      StepOnce(a[0], a[1], maxTrees);
      RunRest(a, maxTrees);
      RunRest(b, maxTrees);
      RunUnique(a[1..], b[1..], maxTrees);
      assert a == [a[0]] + a[1..] && b == [b[0]] + b[1..];
    } else if |a| > 1 {
      assert Step(a[0], a[0 + 1], maxTrees);
      StepOnce(a[0], a[1], maxTrees);
    } else {
      assert Step(b[0], b[0 + 1], maxTrees);
      StepOnce(b[0], b[1], maxTrees);
    }
  }

  lemma RunRest(trace: seq<Model>, maxTrees: nat)
    requires NaiveRun(trace, maxTrees) && |trace| > 1
    ensures NaiveRun(trace[1..], maxTrees)
  {
    hide Step, Stops;
    forall k: nat | k + 1 < |trace[1..]| ensures Step(trace[1..][k], trace[1..][k + 1], maxTrees) {
      assert Step(trace[k + 1], trace[(k + 1) + 1], maxTrees);
    }
  }

  // ----- what clusters hold

  /** How often the contexts of cluster `r` among the first `n` see symbol `s`. */
  function Seen(orig: seq<Hist>, clusterOf: seq<nat>, r: nat, s: nat, n: nat): nat
    requires n <= |orig| == |clusterOf| && s < NUM_SYMBOLS
  {
    if n == 0 then 0
    else Seen(orig, clusterOf, r, s, n - 1) + if clusterOf[n - 1] == r then orig[n - 1][s] else 0
  }

  /** Every context belongs to a surviving cluster, and each cluster's histogram is the sum of its contexts'. */
  ghost predicate Gathered(orig: seq<Hist>, m: Model) {
    && Sized(m) && |orig| == NUM_CONTEXTS
    && (forall c :: 0 <= c < NUM_CONTEXTS ==> m.clusterOf[c] in m.active)
    && (forall r, s: nat :: r in m.active && s < NUM_SYMBOLS ==>
      m.hists[r][s] == Seen(orig, m.clusterOf, r, s, NUM_CONTEXTS))
    && (forall r :: r in m.active ==> m.clusterOf[r] == r)
  }

  lemma {:induction false} SeenRenamed(orig: seq<Hist>, clusterOf: seq<nat>, from: nat, to: nat, r: nat, s: nat, n: nat)
    requires n <= |orig| == |clusterOf| && s < NUM_SYMBOLS && from != to && r != from
    ensures Seen(orig, Renamed(clusterOf, from, to), r, s, n) ==
      Seen(orig, clusterOf, r, s, n) + if r == to then Seen(orig, clusterOf, from, s, n) else 0
    decreases n
  {
    if n > 0 {
      SeenRenamed(orig, clusterOf, from, to, r, s, n - 1);
    }
  }

  /** Merging keeps every literal with the cluster of its context. */
  lemma MergedGathered(orig: seq<Hist>, m: Model, i: nat, j: nat)
    requires Gathered(orig, m) && i < j < |m.active|
    ensures Gathered(orig, Merged(m, i, j))
  {
    hide Seen;
    MergedSized(m, i, j);
    var ci, cj, next := m.active[i], m.active[j], Merged(m, i, j);
    forall r, s: nat | r in next.active && s < NUM_SYMBOLS
      ensures next.hists[r][s] == Seen(orig, next.clusterOf, r, s, NUM_CONTEXTS)
    {
      SeenRenamed(orig, m.clusterOf, cj, ci, r, s, NUM_CONTEXTS);
      if r == ci {
        SumAt(m.hists[ci], m.hists[cj], s);
      }
    }
  }

  // ----- sizes

  /** All literals, over every context. */
  function Literals(hists: seq<Hist>): nat {
    if hists == [] then 0 else Literals(hists[..|hists| - 1]) + Total(hists[|hists| - 1])
  }

  /** The totals of the listed clusters. */
  function TotalsOf(hists: seq<Hist>, active: seq<nat>): (w: seq<nat>)
    ensures |w| == |active|
    ensures forall k :: 0 <= k < |w| ==> w[k] == TotalAt(hists, active[k])
  {
    if active == [] then []
    else TotalsOf(hists, active[..|active| - 1]) + [TotalAt(hists, active[|active| - 1])]
  }

  function TotalAt(hists: seq<Hist>, c: nat): nat {
    if c < |hists| then Total(hists[c]) else 0
  }

  lemma RemoveTotal(w: seq<nat>, j: nat)
    requires j < |w|
    ensures Total(SwapRemove(w, j)) == Total(w) - w[j]
  {
    var n := |w| - 1;
    var u := w[j := w[n]];
    TotalUpdate(w, j, w[n]);
    assert SwapRemove(w, j) == u[..n];
    hide SwapRemove;
    assert Total(u) == Total(u[..n]) + u[n];
  }

  /** Merging loses no literal. */
  lemma MergedTotals(m: Model, i: nat, j: nat)
    requires Sized(m) && i < j < |m.active|
    ensures Total(TotalsOf(Merged(m, i, j).hists, Merged(m, i, j).active)) == Total(TotalsOf(m.hists, m.active))
  {
    hide Sum, Total, TotalsOf, SwapRemove;
    var w, next := TotalsOf(m.hists, m.active), Merged(m, i, j);
    var ci, cj := m.active[i], m.active[j];
    SumTotal(m.hists[ci], m.hists[cj]);
    var grown := w[i := w[i] + w[j]];
    TotalUpdate(w, i, w[i] + w[j]);
    RemoveTotal(grown, j);
    SwapRemoveAt(m.active, j);
    SwapRemoveAt(grown, j);
    var left := SwapRemove(grown, j);
    forall k | 0 <= k < |next.active| ensures TotalsOf(next.hists, next.active)[k] == left[k] {
      var from := if k == j then |m.active| - 1 else k;
      assert next.active[k] == m.active[from] && left[k] == grown[from];
    }
    assert TotalsOf(next.hists, next.active) == left;
  }

  lemma TotalsSnoc(hists: seq<Hist>, active: seq<nat>, c: nat)
    ensures TotalsOf(hists, active + [c]) == TotalsOf(hists, active) + [TotalAt(hists, c)]
  {
    assert (active + [c])[..|active|] == active;
  }

  /** Where the clustering starts: one cluster for every context with literals, the others parked on the first. */
  function Occupied(hists: seq<Hist>, n: nat): (a: seq<nat>)
    requires n <= |hists|
    ensures forall k :: 0 <= k < |a| ==> a[k] < n && Total(hists[a[k]]) > 0
    ensures forall c: nat :: c < n && Total(hists[c]) > 0 ==> c in a
    ensures forall k, l :: 0 <= k < l < |a| ==> a[k] < a[l]
  {
    if n == 0 then [] else Occupied(hists, n - 1) + if Total(hists[n - 1]) > 0 then [n - 1] else []
  }

  function Parked(hists: seq<Hist>, first: nat, n: nat): (p: seq<nat>)
    requires n <= |hists|
    ensures |p| == n
    ensures forall c :: 0 <= c < n ==> p[c] == if Total(hists[c]) > 0 then c else first
  {
    if n == 0 then [] else Parked(hists, first, n - 1) + [if Total(hists[n - 1]) > 0 then n - 1 else first]
  }

  function Start(hists: seq<Hist>): Model
    requires |hists| == NUM_CONTEXTS && Occupied(hists, NUM_CONTEXTS) != []
  {
    var active := Occupied(hists, NUM_CONTEXTS);
    Model(hists, Parked(hists, active[0], NUM_CONTEXTS), active)
  }

  lemma {:induction false} OccupiedTotals(hists: seq<Hist>, n: nat)
    requires n <= |hists|
    ensures Total(TotalsOf(hists, Occupied(hists, n))) == Literals(hists[..n])
    decreases n
  {
    hide Total, TotalsOf;
    if n == 0 {
      NothingTotals(hists);
    } else {
      OccupiedTotals(hists, n - 1);
      assert hists[..n][..n - 1] == hists[..n - 1];
      var before := Occupied(hists, n - 1);
      TotalsSnoc(hists, before, n - 1);
      TotalSnoc(TotalsOf(hists, before), TotalAt(hists, n - 1));
      assert before + [] == before;
    }
  }

  lemma NothingTotals(hists: seq<Hist>)
    ensures Total(TotalsOf(hists, [])) == 0
  {
  }

  lemma {:induction false} EmptySees(h: seq<nat>, s: nat)
    requires s < |h| && Total(h) == 0
    ensures h[s] == 0
  {
    PartSmall(h, s);
  }

  lemma {:induction false} ParkedSees(hists: seq<Hist>, first: nat, r: nat, s: nat, n: nat)
    requires n <= |hists| && s < NUM_SYMBOLS && r < |hists| && Total(hists[r]) > 0
    ensures Seen(hists, Parked(hists, first, |hists|), r, s, n) == if r < n then hists[r][s] else 0
    decreases n
  {
    if n > 0 {
      ParkedSees(hists, first, r, s, n - 1);
      if Total(hists[n - 1]) == 0 {
        EmptySees(hists[n - 1], s);
      }
    }
  }

  lemma StartGathered(hists: seq<Hist>)
    requires |hists| == NUM_CONTEXTS && Occupied(hists, NUM_CONTEXTS) != []
    ensures Gathered(hists, Start(hists))
    ensures Total(TotalsOf(hists, Start(hists).active)) == Literals(hists)
  {
    hide Seen, Occupied, Parked, TotalsOf, Total;
    var m := Start(hists);
    OccupiedTotals(hists, NUM_CONTEXTS);
    assert hists[..NUM_CONTEXTS] == hists;
    forall r, s: nat | r in m.active && s < NUM_SYMBOLS
      ensures m.hists[r][s] == Seen(hists, m.clusterOf, r, s, NUM_CONTEXTS)
    {
      ParkedSees(hists, m.active[0], r, s, NUM_CONTEXTS);
    }
  }

  // ----- what a run promises

  /** A run keeps every literal with the cluster of its context. */
  lemma {:induction false} RunGathered(orig: seq<Hist>, trace: seq<Model>, k: nat, maxTrees: nat)
    requires NaiveRun(trace, maxTrees) && Gathered(orig, trace[0]) && k < |trace|
    ensures Gathered(orig, trace[k])
    decreases k
  {
    hide Gathered, Best, Merged, Stops;
    if k > 0 {
      RunGathered(orig, trace, k - 1, maxTrees);
      var m, next := trace[k - 1], trace[(k - 1) + 1];
      assert Step(m, next, maxTrees);
      var i: nat, j: nat :| StepAt(m, next, maxTrees, i, j);
      BestPlaces(m, i, j);
      MergedGathered(orig, m, i, j);
    }
  }

  lemma BestPlaces(m: Model, i: nat, j: nat)
    requires Sized(m) && Best(m, i, j)
    ensures i < j < |m.active|
  {
  }

  /** Contexts share a number exactly if they share a cluster, and the numbers are 0 to n - 1, as they first appear. */
  ghost predicate Dense(clusterOf: seq<nat>, cmap: seq<nat>, n: nat) {
    && |cmap| == |clusterOf|
    && (forall c, d :: 0 <= c < |cmap| && 0 <= d < |cmap| ==> (cmap[c] == cmap[d] <==> clusterOf[c] == clusterOf[d]))
    && (forall c :: 0 <= c < |cmap| ==> cmap[c] < n)
    && (forall t :: 0 <= t < n ==> t in cmap)
    && Ascending(cmap)
  }

  /** A number comes after all smaller ones have appeared. */
  ghost predicate Ascending(cmap: seq<nat>) {
    forall c, t: nat :: 0 <= c < |cmap| && t < cmap[c] ==> t in cmap[..c]
  }

  lemma AscendingMore(cmap: seq<nat>, x: nat)
    requires Ascending(cmap) && forall t: nat :: t < x ==> t in cmap
    ensures Ascending(cmap + [x])
  {
    var more := cmap + [x];
    forall c, t: nat | 0 <= c < |more| && t < more[c] ensures t in more[..c] {
      assert more[..c] == if c < |cmap| then cmap[..c] else cmap;
    }
  }

  /** The data bits of the listed clusters. */
  function DataBits(hists: seq<Hist>, active: seq<nat>): int {
    if active == [] then 0
    else
      var c := active[|active| - 1];
      DataBits(hists, active[..|active| - 1]) + if c < |hists| then Bits(hists[c]) else 0
  }
}
