/**
 Package-merge on sorted frequencies, stated on values.

 Symbols are named by their rank in the order of ascending frequency.  `Level(f, k)` is the sorted list of coins and
 packages `k` levels above the bottom; the code length of a symbol is the number of its coins inside the first
 `2n - 2` items of the top level.
 */
module PackageMerge {
  import opened Words

  datatype Item = Coin(rank: nat) | Pack(first: Item, second: Item)

  /** The coins of an item, each weighed by its rank's entry in `w`. */
  function Weight(i: Item, w: seq<nat>): nat {
    match i
    case Coin(r) => if r < |w| then w[r] else 0
    case Pack(a, b) => Weight(a, w) + Weight(b, w)
  }

  function Sum(l: seq<Item>, w: seq<nat>): nat {
    if l == [] then 0 else Weight(l[0], w) + Sum(l[1..], w)
  }

  function Coins(from: nat, n: nat): (l: seq<Item>)
    requires from <= n
    ensures |l| == n - from
    decreases n - from
  {
    if from == n then [] else [Coin(from)] + Coins(from + 1, n)
  }

  /** Neighbours paired up; an odd last item is dropped. */
  function Pairs(l: seq<Item>): (p: seq<Item>)
    ensures |p| == |l| / 2
  {
    if |l| < 2 then [] else [Pack(l[0], l[1])] + Pairs(l[2..])
  }

  /** Two sorted lists merged; a coin goes before a package of the same cost. */
  function Merge(c: seq<Item>, p: seq<Item>, f: seq<nat>): (m: seq<Item>)
    ensures |m| == |c| + |p|
  {
    if c == [] then p
    else if p == [] then c
    else if Weight(c[0], f) <= Weight(p[0], f) then [c[0]] + Merge(c[1..], p, f)
    else [p[0]] + Merge(c, p[1..], f)
  }

  function Level(f: seq<nat>, k: nat): seq<Item> {
    if k == 0 then [] else Merge(Coins(0, |f|), Pairs(Level(f, k - 1)), f)
  }

  // ----- which coins a prefix holds

  /** How many of the first `m` items of the merged list come from `c`. */
  function Taken(c: seq<Item>, p: seq<Item>, f: seq<nat>, m: nat): (t: nat)
    requires m <= |c| + |p|
    ensures t <= m && t <= |c| && m - t <= |p|
  {
    if m == 0 then 0
    else if c == [] then 0
    else if p == [] then m
    else if Weight(c[0], f) <= Weight(p[0], f) then 1 + Taken(c[1..], p, f, m - 1)
    else Taken(c, p[1..], f, m - 1)
  }

  lemma {:induction false} SumAppend(a: seq<Item>, b: seq<Item>, w: seq<nat>)
    ensures Sum(a + b, w) == Sum(a, w) + Sum(b, w)
  {
    if a == [] {
      assert a + b == b;
    } else {
      assert (a + b)[1..] == a[1..] + b;
      SumAppend(a[1..], b, w);
    }
  }

  /** A prefix of the merge is a prefix of each list, weight for weight. */
  lemma {:induction false} MergePrefix(c: seq<Item>, p: seq<Item>, f: seq<nat>, m: nat, w: seq<nat>)
    requires m <= |c| + |p|
    ensures var t := Taken(c, p, f, m);
      Sum(Merge(c, p, f)[..m], w) == Sum(c[..t], w) + Sum(p[..m - t], w)
    decreases m
  {
    hide Merge, Sum, Weight, Taken;
    TakenStep(c, p, f, m);
    if m > 0 && c != [] && p != [] {
      MergeHead(c, p, f);
      SumHead(Merge(c, p, f), m, w);
      var t := Taken(c, p, f, m);
      if Weight(c[0], f) <= Weight(p[0], f) {
        MergePrefix(c[1..], p, f, m - 1, w);
        SumHead(c, t, w);
      } else {
        MergePrefix(c, p[1..], f, m - 1, w);
        SumHead(p, m - t, w);
      }
    } else {
      MergeEmpty(c, p, f);
      SumEmpty(c, w);
      SumEmpty(p, w);
      SumEmpty(Merge(c, p, f), w);
    }
  }

  lemma TakenStep(c: seq<Item>, p: seq<Item>, f: seq<nat>, m: nat)
    requires m <= |c| + |p|
    ensures m == 0 || c == [] ==> Taken(c, p, f, m) == 0
    ensures m > 0 && c != [] && p == [] ==> Taken(c, p, f, m) == m
    ensures m > 0 && c != [] && p != [] ==>
      Taken(c, p, f, m) ==
        if Weight(c[0], f) <= Weight(p[0], f) then 1 + Taken(c[1..], p, f, m - 1) else Taken(c, p[1..], f, m - 1)
  {
    hide Weight;
  }

  lemma MergeHead(c: seq<Item>, p: seq<Item>, f: seq<nat>)
    requires c != [] && p != []
    ensures Weight(c[0], f) <= Weight(p[0], f) ==> Merge(c, p, f)[0] == c[0] && Merge(c, p, f)[1..] == Merge(c[1..], p, f)
    ensures Weight(c[0], f) > Weight(p[0], f) ==> Merge(c, p, f)[0] == p[0] && Merge(c, p, f)[1..] == Merge(c, p[1..], f)
  {
    hide Weight;
  }

  lemma MergeEmpty(c: seq<Item>, p: seq<Item>, f: seq<nat>)
    ensures c == [] ==> Merge(c, p, f) == p
    ensures p == [] ==> Merge(c, p, f) == c
  {
    hide Weight;
  }

  lemma SumHead(l: seq<Item>, k: nat, w: seq<nat>)
    requires 0 < k <= |l|
    ensures Sum(l[..k], w) == Weight(l[0], w) + Sum(l[1..][..k - 1], w)
  {
    hide Weight;
    assert l[..k][1..] == l[1..][..k - 1];
  }

  lemma SumEmpty(l: seq<Item>, w: seq<nat>)
    ensures Sum(l[..0], w) == 0
  {
  }

  lemma {:induction false} PairsPrefix(l: seq<Item>, q: nat, w: seq<nat>)
    requires 2 * q <= |l|
    ensures Sum(Pairs(l)[..q], w) == Sum(l[..2 * q], w)
    decreases q
  {
    if q > 0 {
      PairsPrefix(l[2..], q - 1, w);
      assert Pairs(l)[..q][1..] == Pairs(l[2..])[..q - 1];
      assert l[..2 * q][1..][1..] == l[2..][..2 * (q - 1)];
    }
  }

  /** The sum of the first `k` entries. */
  function Prefix(w: seq<nat>, k: nat): nat
    requires k <= |w|
  {
    if k == 0 then 0 else Prefix(w, k - 1) + w[k - 1]
  }

  lemma {:induction false} CoinsAt(from: nat, n: nat, i: nat)
    requires from <= n && i < n - from
    ensures Coins(from, n)[i] == Coin(from + i)
    decreases i
  {
    if i > 0 {
      CoinsAt(from + 1, n, i - 1);
    }
  }

  lemma {:induction false} CoinsPrefix(n: nat, t: nat, w: seq<nat>)
    requires t <= n == |w|
    ensures Sum(Coins(0, n)[..t], w) == Prefix(w, t)
    decreases t
  {
    if t > 0 {
      CoinsPrefix(n, t - 1, w);
      CoinsAt(0, n, t - 1);
      assert Coins(0, n)[..t] == Coins(0, n)[..t - 1] + [Coin(t - 1)];
      SumAppend(Coins(0, n)[..t - 1], [Coin(t - 1)], w);
      assert [Coin(t - 1)][1..] == [];
    }
  }

  /** The number of coins at each level, from the top, inside the first `m` items of level `k`. */
  function Chosen(f: seq<nat>, k: nat, m: nat): (c: seq<nat>)
    requires m <= |Level(f, k)|
    ensures |c| == k
    ensures forall j :: 0 <= j < k ==> c[j] <= |f|
    decreases k
  {
    if k == 0 then []
    else
      var below := Level(f, k - 1);
      var t := Taken(Coins(0, |f|), Pairs(below), f, m);
      [t] + Chosen(f, k - 1, 2 * (m - t))
  }

  function PrefixSums(w: seq<nat>, c: seq<nat>): nat
    requires forall j :: 0 <= j < |c| ==> c[j] <= |w|
  {
    if c == [] then 0 else Prefix(w, c[0]) + PrefixSums(w, c[1..])
  }

  lemma PrefixSumsCons(w: seq<nat>, x: nat, c: seq<nat>)
    requires x <= |w| && forall j :: 0 <= j < |c| ==> c[j] <= |w|
    ensures PrefixSums(w, [x] + c) == Prefix(w, x) + PrefixSums(w, c)
  {
    assert ([x] + c)[1..] == c;
  }

  lemma LevelStep(f: seq<nat>, k: nat, m: nat)
    requires k > 0 && m <= |Level(f, k)|
    ensures var below := Level(f, k - 1);
      var t := Taken(Coins(0, |f|), Pairs(below), f, m);
      && Level(f, k) == Merge(Coins(0, |f|), Pairs(below), f)
      && Chosen(f, k, m) == [t] + Chosen(f, k - 1, 2 * (m - t))
  {
  }

  lemma NothingChosen(f: seq<nat>, m: nat, w: seq<nat>)
    requires m <= |Level(f, 0)| && |w| == |f|
    ensures Sum(Level(f, 0)[..m], w) == PrefixSums(w, Chosen(f, 0, m))
  {
  }

  /** The chosen coins are the cheapest ones of each level, whatever they are weighed by. */
  lemma {:induction false} ChosenSum(f: seq<nat>, k: nat, m: nat, w: seq<nat>)
    requires m <= |Level(f, k)| && |w| == |f|
    ensures Sum(Level(f, k)[..m], w) == PrefixSums(w, Chosen(f, k, m))
    decreases k
  {
    hide Merge, Coins, Pairs, Taken, Sum, Prefix, Level, Chosen, PrefixSums;
    if k > 0 {
      LevelStep(f, k, m);
      var below := Level(f, k - 1);
      var t := Taken(Coins(0, |f|), Pairs(below), f, m);
      MergePrefix(Coins(0, |f|), Pairs(below), f, m, w);
      CoinsPrefix(|f|, t, w);
      PairsPrefix(below, m - t, w);
      ChosenSum(f, k - 1, 2 * (m - t), w);
      PrefixSumsCons(w, t, Chosen(f, k - 1, 2 * (m - t)));
    } else {
      NothingChosen(f, m, w);
    }
  }

  // ----- optimality

  ghost predicate Sorted(l: seq<Item>, f: seq<nat>) {
    forall i, j :: 0 <= i < j < |l| ==> Weight(l[i], f) <= Weight(l[j], f)
  }

  ghost predicate Ascending(f: seq<nat>) {
    forall i, j :: 0 <= i < j < |f| ==> f[i] <= f[j]
  }

  lemma CoinsSorted(f: seq<nat>)
    requires Ascending(f)
    ensures Sorted(Coins(0, |f|), f)
  {
    forall i | 0 <= i < |f| ensures Coins(0, |f|)[i] == Coin(i) {
      CoinsAt(0, |f|, i);
    }
  }

  lemma {:induction false} PairsAt(l: seq<Item>, q: nat)
    requires 2 * q + 1 < |l|
    ensures Pairs(l)[q] == Pack(l[2 * q], l[2 * q + 1])
    decreases q
  {
    if q > 0 {
      PairsAt(l[2..], q - 1);
    }
  }

  lemma PairsSorted(l: seq<Item>, f: seq<nat>)
    requires Sorted(l, f)
    ensures Sorted(Pairs(l), f)
  {
    forall i, j | 0 <= i < j < |Pairs(l)| ensures Weight(Pairs(l)[i], f) <= Weight(Pairs(l)[j], f) {
      PairsAt(l, i);
      PairsAt(l, j);
    }
  }

  lemma {:induction false} MergeFrom(c: seq<Item>, p: seq<Item>, f: seq<nat>)
    ensures forall i :: 0 <= i < |c| + |p| ==> Merge(c, p, f)[i] in c || Merge(c, p, f)[i] in p
    decreases |c| + |p|
  {
    if c != [] && p != [] {
      if Weight(c[0], f) <= Weight(p[0], f) {
        MergeFrom(c[1..], p, f);
      } else {
        MergeFrom(c, p[1..], f);
      }
    }
  }

  lemma {:induction false} MergeSorted(c: seq<Item>, p: seq<Item>, f: seq<nat>)
    requires Sorted(c, f) && Sorted(p, f)
    ensures Sorted(Merge(c, p, f), f)
    decreases |c| + |p|
  {
    if c != [] && p != [] {
      if Weight(c[0], f) <= Weight(p[0], f) {
        MergeSorted(c[1..], p, f);
        MergeFrom(c[1..], p, f);
      } else {
        MergeSorted(c, p[1..], f);
        MergeFrom(c, p[1..], f);
      }
    }
  }

  lemma {:induction false} LevelSorted(f: seq<nat>, k: nat)
    requires Ascending(f)
    ensures Sorted(Level(f, k), f)
    decreases k
  {
    if k > 0 {
      LevelSorted(f, k - 1);
      CoinsSorted(f);
      PairsSorted(Level(f, k - 1), f);
      MergeSorted(Coins(0, |f|), Pairs(Level(f, k - 1)), f);
    }
  }

  lemma {:induction false} SumMono(l: seq<Item>, a: nat, b: nat, f: seq<nat>)
    requires a <= b <= |l|
    ensures Sum(l[..a], f) <= Sum(l[..b], f)
  {
    assert l[..b] == l[..a] + l[a..b];
    SumAppend(l[..a], l[a..b], f);
  }

  /** The last item of a sorted list weighs at least as much as its first. */
  lemma SumDropLast(l: seq<Item>, b: nat, f: seq<nat>)
    requires 0 < b <= |l|
    ensures Sum(l[..b], f) == Sum(l[..b - 1], f) + Weight(l[b - 1], f)
  {
    assert l[..b] == l[..b - 1] + [l[b - 1]];
    SumAppend(l[..b - 1], [l[b - 1]], f);
    assert [l[b - 1]][1..] == [];
  }

  /** Merging sorted lists finds the cheapest way of taking `m` items. */
  lemma {:induction false} MergeCheapest(c: seq<Item>, p: seq<Item>, f: seq<nat>, m: nat, a: nat, b: nat)
    requires Sorted(c, f) && Sorted(p, f)
    requires a <= |c| && b <= |p| && m <= a + b
    ensures Sum(Merge(c, p, f)[..m], f) <= Sum(c[..a], f) + Sum(p[..b], f)
    decreases m
  {
    hide Merge, Sum, Weight;
    if m == 0 {
      SumEmpty(Merge(c, p, f), f);
    } else if c == [] {
      MergeEmpty(c, p, f);
      SumEmpty(c, f);
      SumMono(p, m, b, f);
    } else if p == [] {
      MergeEmpty(c, p, f);
      SumEmpty(p, f);
      SumMono(c, m, a, f);
    } else {
      MergeHead(c, p, f);
      SumHead(Merge(c, p, f), m, f);
      if Weight(c[0], f) <= Weight(p[0], f) {
        if a > 0 {
          MergeCheapest(c[1..], p, f, m - 1, a - 1, b);
          SumHead(c, a, f);
        } else {
          MergeCheapest(c[1..], p, f, m - 1, 0, b - 1);
          SumEmpty(c, f);
          SumEmpty(c[1..], f);
          SumDropLast(p, b, f);
        }
      } else {
        if b > 0 {
          MergeCheapest(c, p[1..], f, m - 1, a, b - 1);
          SumHead(p, b, f);
        } else {
          MergeCheapest(c, p[1..], f, m - 1, a - 1, 0);
          SumEmpty(p, f);
          SumEmpty(p[1..], f);
          SumDropLast(c, a, f);
        }
      }
    }
  }

  /** How many items the top level can offer when level `j` offers `a[j]` coins. */
  function Capacity(a: seq<nat>): nat {
    if a == [] then 0 else a[0] + Capacity(a[1..]) / 2
  }

  /**
   Whatever numbers `a` of cheapest coins are taken at the levels, the prefix of the top level that is no longer
   than their capacity exists and costs no more.
   */
  lemma {:induction false} PrefixCheapest(f: seq<nat>, k: nat, a: seq<nat>, m: nat)
    requires Ascending(f) && |a| == k && m <= Capacity(a)
    requires forall j :: 0 <= j < k ==> a[j] <= |f|
    ensures m <= |Level(f, k)|
    ensures Sum(Level(f, k)[..m], f) <= PrefixSums(f, a)
    decreases k
  {
    if k > 0 {
      var below, q := Level(f, k - 1), Capacity(a[1..]) / 2;
      PrefixCheapest(f, k - 1, a[1..], 2 * q);
      CoinsSorted(f);
      LevelSorted(f, k - 1);
      PairsSorted(below, f);
      MergeCheapest(Coins(0, |f|), Pairs(below), f, m, a[0], q);
      CoinsPrefix(|f|, a[0], f);
      PairsPrefix(below, q, f);
    }
  }

  // ----- counting code lengths by levels

  /** The total weight of the ranks whose length exceeds `j`. */
  function Layer(w: seq<nat>, l: seq<nat>, j: nat): nat
    requires |w| == |l|
  {
    if w == [] then 0
    else Layer(w[..|w| - 1], l[..|l| - 1], j) + (if l[|l| - 1] > j then w[|w| - 1] else 0)
  }

  /** Layers `j` up to (not including) `top`. */
  function Layers(w: seq<nat>, l: seq<nat>, j: nat, top: nat): nat
    requires |w| == |l| && j <= top
    decreases top - j
  {
    if j == top then 0 else Layer(w, l, j) + Layers(w, l, j + 1, top)
  }

  function Dot(w: seq<nat>, l: seq<nat>): nat
    requires |w| == |l|
  {
    if w == [] then 0 else Dot(w[..|w| - 1], l[..|l| - 1]) + w[|w| - 1] * l[|l| - 1]
  }

  /** One rank more adds its weight once per layer it reaches. */
  lemma {:induction false} LayersSnoc(w: seq<nat>, l: seq<nat>, j: nat, top: nat)
    requires |w| == |l| > 0 && j <= top
    ensures var x, y := w[|w| - 1], l[|l| - 1];
      Layers(w, l, j, top) == Layers(w[..|w| - 1], l[..|l| - 1], j, top) + x * Reached(y, j, top)
    decreases top - j
  {
    if j < top {
      LayersSnoc(w, l, j + 1, top);
      var x, y := w[|w| - 1], l[|l| - 1];
      if y > j {
        assert Reached(y, j, top) == 1 + Reached(y, j + 1, top);
        assert x * (1 + Reached(y, j + 1, top)) == x + x * Reached(y, j + 1, top);
      }
    }
  }

  /** How many of the layers `j` up to `top` a length of `y` reaches. */
  function Reached(y: nat, j: nat, top: nat): nat
    requires j <= top
  {
    if y <= j then 0 else if y < top then y - j else top - j
  }

  /** Summing a weighted length rank by rank or layer by layer is the same. */
  lemma {:induction false} LayersDot(w: seq<nat>, l: seq<nat>, top: nat)
    requires |w| == |l| && forall r :: 0 <= r < |l| ==> l[r] <= top
    ensures Layers(w, l, 0, top) == Dot(w, l)
    decreases |w|
  {
    if w == [] {
      LayersEmpty(0, top);
    } else {
      LayersSnoc(w, l, 0, top);
      LayersDot(w[..|w| - 1], l[..|l| - 1], top);
    }
  }

  lemma {:induction false} LayersEmpty(j: nat, top: nat)
    requires j <= top
    ensures Layers([], [], j, top) == 0
    decreases top - j
  {
    if j < top {
      LayersEmpty(j + 1, top);
    }
  }

  /** How many ranks have a length over `j`. */
  function Count(l: seq<nat>, j: nat): (c: nat)
    ensures c <= |l|
  {
    if l == [] then 0 else Count(l[..|l| - 1], j) + (if l[|l| - 1] > j then 1 else 0)
  }

  /** The cheapest ranks cost no more than any others of the same number. */
  lemma {:induction false} LayerCheapest(f: seq<nat>, l: seq<nat>, j: nat)
    requires Ascending(f) && |f| == |l|
    ensures Prefix(f, Count(l, j)) <= Layer(f, l, j)
    decreases |f|
  {
    if f != [] {
      var n := |f| - 1;
      var c := Count(l[..n], j);
      LayerCheapest(f[..n], l[..n], j);
      PrefixOf(f, n, c);
      if l[n] > j {
        assert Count(l, j) == c + 1;
        assert f[c] <= f[n];
      }
    }
  }

  lemma {:induction false} PrefixOf(w: seq<nat>, n: nat, k: nat)
    requires k <= n <= |w|
    ensures Prefix(w[..n], k) == Prefix(w, k)
    decreases k
  {
    if k > 0 {
      PrefixOf(w, n, k - 1);
    }
  }

  /** The numbers of ranks over each length, from `j` to `top`. */
  function Counts(l: seq<nat>, j: nat, top: nat): (a: seq<nat>)
    requires j <= top
    ensures |a| == top - j
    ensures forall i :: 0 <= i < |a| ==> a[i] <= |l|
    decreases top - j
  {
    if j == top then [] else [Count(l, j)] + Counts(l, j + 1, top)
  }

  lemma {:induction false} CountsCheapest(f: seq<nat>, l: seq<nat>, j: nat, top: nat)
    requires Ascending(f) && |f| == |l| && j <= top
    ensures PrefixSums(f, Counts(l, j, top)) <= Layers(f, l, j, top)
    decreases top - j
  {
    if j < top {
      CountsCheapest(f, l, j + 1, top);
      LayerCheapest(f, l, j);
      PrefixSumsCons(f, Count(l, j), Counts(l, j + 1, top));
    }
  }

  // ----- the Kraft sum, scaled by 2^top

  function Kraft(l: seq<nat>, top: nat): nat
    requires forall r :: 0 <= r < |l| ==> l[r] <= top
  {
    if l == [] then 0 else Kraft(l[..|l| - 1], top) + Pow2(top - l[|l| - 1])
  }

  /** The width of `a[j]` coins at each level `j`, in units of the bottom level's coin. */
  function Width(a: seq<nat>): nat {
    if a == [] then 0 else a[0] * Pow2(|a| - 1) + Width(a[1..])
  }

  lemma {:induction false} CapacityWidth(a: seq<nat>)
    requires |a| > 0
    ensures (Capacity(a) + 1) * Pow2(|a| - 1) > Width(a)
    decreases |a|
  {
    hide Pow2, Width;
    WidthStep(a);
    if |a| > 1 {
      CapacityWidth(a[1..]);
      CapacityStep(a[0], Capacity(a[1..]), Pow2(|a| - 2), Width(a[1..]));
    } else {
      assert Width(a[1..]) == 0 by { WidthStep(a[1..]); }
    }
  }

  lemma WidthStep(a: seq<nat>)
    ensures a == [] ==> Width(a) == 0
    ensures |a| == 1 ==> Pow2(|a| - 1) == 1
    ensures |a| > 0 ==> Width(a) == a[0] * Pow2(|a| - 1) + Width(a[1..])
    ensures |a| > 1 ==> Pow2(|a| - 1) == 2 * Pow2(|a| - 2)
  {
  }

  lemma CapacityStep(a: nat, q: nat, p: nat, w: nat)
    requires (q + 1) * p > w
    ensures (a + q / 2 + 1) * (2 * p) > a * (2 * p) + w
  {
    assert (a + q / 2 + 1) * (2 * p) == a * (2 * p) + (2 * (q / 2 + 1)) * p;
    MulMonotone(q + 1, 2 * (q / 2 + 1), p);
  }

  /** The width of one symbol's coins at levels `j` up to its length. */
  function Span(y: nat, j: nat, top: nat): int
    requires y <= top && j <= top
  {
    if y <= j then 0 else Pow2(top - j) - Pow2(top - y)
  }

  lemma {:induction false} CountsSnoc(l: seq<nat>, j: nat, top: nat)
    requires |l| > 0 && l[|l| - 1] <= top && j <= top
    ensures Width(Counts(l, j, top)) == Width(Counts(l[..|l| - 1], j, top)) + Span(l[|l| - 1], j, top)
    decreases top - j
  {
    hide Pow2, Width;
    var m := l[..|l| - 1];
    WidthStep(Counts(l, j, top));
    WidthStep(Counts(m, j, top));
    if j < top {
      CountsSnoc(l, j + 1, top);
      assert Counts(l, j, top)[1..] == Counts(l, j + 1, top);
      assert Counts(m, j, top)[1..] == Counts(m, j + 1, top);
      PowHalf(top - j);
      Distribute(Count(m, j), 1, Pow2(top - j - 1));
    }
  }

  /** The coins of every symbol together with its code word fill one whole unit. */
  lemma {:induction false} CountsWidth(l: seq<nat>, top: nat)
    requires forall r :: 0 <= r < |l| ==> l[r] <= top
    ensures Width(Counts(l, 0, top)) + Kraft(l, top) == |l| * Pow2(top)
    decreases |l|
  {
    if l == [] {
      CountsEmpty(0, top);
    } else {
      CountsSnoc(l, 0, top);
      CountsWidth(l[..|l| - 1], top);
      assert |l| * Pow2(top) == (|l| - 1) * Pow2(top) + Pow2(top);
    }
  }

  lemma {:induction false} CountsEmpty(j: nat, top: nat)
    requires j <= top
    ensures Width(Counts([], j, top)) == 0
    decreases top - j
  {
    if j < top {
      CountsEmpty(j + 1, top);
      assert Counts([], j, top)[1..] == Counts([], j + 1, top);
    }
  }

  /** No code satisfying the Kraft inequality is cheaper than the prefix of the top level. */
  lemma Optimal(f: seq<nat>, l: seq<nat>, top: nat)
    requires Ascending(f) && |f| == |l| >= 2 && top >= 1
    requires forall r :: 0 <= r < |l| ==> l[r] <= top
    requires Kraft(l, top) <= Pow2(top)
    ensures 2 * |f| - 2 <= |Level(f, top)|
    ensures Sum(Level(f, top)[..2 * |f| - 2], f) <= Dot(f, l)
  {
    hide Counts, Capacity, Width, Kraft, Pow2, Level, Sum, Dot, PrefixSums, Layers;
    var a := Counts(l, 0, top);
    CountsWidth(l, top);
    CapacityWidth(a);
    PowHalf(top);
    CapacityEnough(|f|, Capacity(a), Pow2(top - 1), Width(a), Kraft(l, top));
    PrefixCheapest(f, top, a, 2 * |f| - 2);
    CountsCheapest(f, l, 0, top);
    LayersDot(f, l, top);
  }

  lemma PowHalf(top: nat)
    requires top >= 1
    ensures Pow2(top) == 2 * Pow2(top - 1)
  {
  }

  lemma CapacityEnough(n: nat, cap: nat, p: nat, w: nat, kraft: nat)
    requires w + kraft == n * (2 * p) && kraft <= 2 * p && (cap + 1) * p > w
    ensures 2 * n - 2 <= cap
  {
    assert n * (2 * p) - 2 * p == (2 * n - 2) * p;
    if cap + 1 <= 2 * n - 2 {
      MulMonotone(cap + 1, 2 * n - 2, p);
    }
  }

  lemma {:induction false} KraftFlat(n: nat, top: nat)
    ensures Kraft(seq(n, _ => top), top) == n
    decreases n
  {
    if n > 0 {
      KraftFlat(n - 1, top);
      assert seq(n, _ => top)[..n - 1] == seq(n - 1, _ => top);
    }
  }

  /** The slice of `2n - 2` items always exists. */
  lemma SliceExists(f: seq<nat>, top: nat)
    requires Ascending(f) && 2 <= |f| <= Pow2(top) && top >= 1
    ensures 2 * |f| - 2 <= |Level(f, top)|
  {
    KraftFlat(|f|, top);
    Optimal(f, seq(|f|, _ => top), top);
  }

  // ----- the code is full

  lemma {:induction false} TakenPosition(c: seq<Item>, p: seq<Item>, f: seq<nat>, m: nat)
    requires m <= |c| + |p| && Taken(c, p, f, m) > 0
    ensures exists x :: 0 <= x < m && Merge(c, p, f)[x] == c[Taken(c, p, f, m) - 1]
    decreases m
  {
    if p == [] {
      assert Merge(c, p, f)[m - 1] == c[m - 1];
    } else if Weight(c[0], f) <= Weight(p[0], f) {
      if Taken(c[1..], p, f, m - 1) > 0 {
        TakenPosition(c[1..], p, f, m - 1);
        var x :| 0 <= x < m - 1 && Merge(c[1..], p, f)[x] == c[1..][Taken(c[1..], p, f, m - 1) - 1];
        assert Merge(c, p, f)[x + 1] == c[Taken(c, p, f, m) - 1];
      } else {
        assert Merge(c, p, f)[0] == c[0];
      }
    } else {
      TakenPosition(c, p[1..], f, m - 1);
      var x :| 0 <= x < m - 1 && Merge(c, p[1..], f)[x] == c[Taken(c, p[1..], f, m - 1) - 1];
      assert Merge(c, p, f)[x + 1] == c[Taken(c, p, f, m) - 1];
    }
  }

  /** A coin that costs no more than a package in the prefix is in the prefix too. */
  lemma {:induction false} TakenBefore(c: seq<Item>, p: seq<Item>, f: seq<nat>, m: nat, r: nat, q: nat)
    requires Sorted(c, f) && m <= |c| + |p| && r < |c|
    requires q < m - Taken(c, p, f, m) && Weight(c[r], f) <= Weight(p[q], f)
    ensures r < Taken(c, p, f, m)
    decreases m
  {
    if p != [] {
      if Weight(c[0], f) <= Weight(p[0], f) {
        if r > 0 {
          TakenBefore(c[1..], p, f, m - 1, r - 1, q);
        }
      } else if q > 0 {
        TakenBefore(c, p[1..], f, m - 1, r, q - 1);
      }
    }
  }

  /** A package costs no less than either of its items. */
  lemma PackHolds(l: seq<Item>, x: nat, f: seq<nat>)
    requires x < 2 * (|l| / 2)
    ensures Weight(l[x], f) <= Weight(Pack(l[2 * (x / 2)], l[2 * (x / 2) + 1]), f)
  {
    assert x == 2 * (x / 2) || x == 2 * (x / 2) + 1;
  }

  /** Each level gives up at least as many coins as the one below it. */
  lemma ChosenStep(f: seq<nat>, k: nat, m: nat)
    requires Ascending(f) && k >= 2 && m <= |Level(f, k)|
    ensures Chosen(f, k, m)[1] <= Chosen(f, k, m)[0]
  {
    hide Merge, Coins, Pairs, Taken, Level, Chosen, Weight;
    LevelStep(f, k, m);
    var coins, below := Coins(0, |f|), Level(f, k - 1);
    var t := Taken(coins, Pairs(below), f, m);
    var m' := 2 * (m - t);
    LevelStep(f, k - 1, m');
    var t' := Taken(coins, Pairs(Level(f, k - 2)), f, m');
    if t' > 0 {
      TakenPosition(coins, Pairs(Level(f, k - 2)), f, m');
      var x :| 0 <= x < m' && below[x] == coins[t' - 1];
      PairsAt(below, x / 2);
      PackHolds(below, x, f);
      CoinsSorted(f);
      TakenBefore(coins, Pairs(below), f, m, t' - 1, x / 2);
    }
  }

  ghost predicate Nested(c: seq<nat>) {
    forall i, j :: 0 <= i <= j < |c| ==> c[j] <= c[i]
  }

  lemma {:induction false} ChosenNested(f: seq<nat>, k: nat, m: nat)
    requires Ascending(f) && m <= |Level(f, k)|
    ensures Nested(Chosen(f, k, m))
    decreases k
  {
    hide Level, Taken, Coins, Pairs, Merge, Chosen, Ascending;
    if k > 0 {
      LevelStep(f, k, m);
      var t := Taken(Coins(0, |f|), Pairs(Level(f, k - 1)), f, m);
      ChosenNested(f, k - 1, 2 * (m - t));
      if k >= 2 {
        ChosenStep(f, k, m);
      }
    }
  }

  /** Coins and packages of a prefix are as wide as its items: nothing is lost below. */
  lemma {:induction false} ChosenWidth(f: seq<nat>, k: nat, m: nat)
    requires k >= 1 && m <= |Level(f, k)|
    ensures Width(Chosen(f, k, m)) == m * Pow2(k - 1)
    decreases k
  {
    hide Level, Taken, Coins, Pairs, Merge, Chosen, Width, Pow2;
    LevelStep(f, k, m);
    var t := Taken(Coins(0, |f|), Pairs(Level(f, k - 1)), f, m);
    var rest := Chosen(f, k - 1, 2 * (m - t));
    assert Chosen(f, k, m)[1..] == rest;
    WidthStep(Chosen(f, k, m));
    if k >= 2 {
      ChosenWidth(f, k - 1, 2 * (m - t));
      ShareWidth(t, m, Pow2(k - 2));
    } else {
      WidthStep(rest);
      NoPackages(f, m);
    }
  }

  lemma ShareWidth(t: nat, m: nat, p: nat)
    requires t <= m
    ensures t * (2 * p) + (2 * (m - t)) * p == m * (2 * p)
  {
  }

  lemma NoPackages(f: seq<nat>, m: nat)
    requires m <= |Level(f, 1)|
    ensures Taken(Coins(0, |f|), Pairs(Level(f, 0)), f, m) == m
  {
  }

  /** The number of levels that hold coin `r`. */
  function Depth(c: seq<nat>, r: nat): (d: nat)
    ensures d <= |c|
  {
    if c == [] then 0 else (if c[0] > r then 1 else 0) + Depth(c[1..], r)
  }

  /** Nested levels: coin `r` is chosen at levels `0` to `Depth - 1` and at no other. */
  lemma {:induction false} DepthLevels(c: seq<nat>, r: nat, j: nat)
    requires Nested(c) && j < |c|
    ensures Depth(c, r) > j <==> c[j] > r
    decreases |c|
  {
    if c[0] > r {
      if j > 0 {
        DepthLevels(c[1..], r, j - 1);
      }
    } else {
      DepthZero(c, r);
    }
  }

  lemma {:induction false} DepthZero(c: seq<nat>, r: nat)
    requires forall i :: 0 <= i < |c| ==> c[i] <= r
    ensures Depth(c, r) == 0
    decreases |c|
  {
    if c != [] {
      DepthZero(c[1..], r);
    }
  }

  /** The code lengths by rank. */
  function Lengths(f: seq<nat>, top: nat): (l: seq<nat>)
    requires 2 <= |f| && 2 * |f| - 2 <= |Level(f, top)|
    ensures |l| == |f|
  {
    var c := Chosen(f, top, 2 * |f| - 2);
    seq(|f|, r requires r >= 0 => Depth(c, r))
  }

  lemma LengthsCapped(f: seq<nat>, top: nat)
    requires 2 <= |f| && 2 * |f| - 2 <= |Level(f, top)|
    ensures forall r :: 0 <= r < |f| ==> Lengths(f, top)[r] <= top
  {
    hide Level, Chosen, Depth;
  }

  lemma {:induction false} Threshold(w: seq<nat>, l: seq<nat>, j: nat, c: nat)
    requires |w| == |l|
    requires forall r :: 0 <= r < |l| ==> (l[r] > j <==> r < c)
    ensures Count(l, j) == if c <= |l| then c else |l|
    ensures Layer(w, l, j) == Prefix(w, Count(l, j))
    decreases |l|
  {
    if l != [] {
      var n := |l| - 1;
      Threshold(w[..n], l[..n], j, c);
      PrefixOf(w, n, Count(l[..n], j));
    }
  }

  lemma {:induction false} LevelsOf(f: seq<nat>, top: nat, j: nat, w: seq<nat>)
    requires Ascending(f) && 2 <= |f| && 2 * |f| - 2 <= |Level(f, top)| && j <= top && |w| == |f|
    ensures var c, l := Chosen(f, top, 2 * |f| - 2), Lengths(f, top);
      Counts(l, j, top) == c[j..] && Layers(w, l, j, top) == PrefixSums(w, c[j..])
    decreases top - j
  {
    hide Level, Chosen, Depth, Count, Layer, Prefix, PrefixSums;
    var c, l := Chosen(f, top, 2 * |f| - 2), Lengths(f, top);
    if j < top {
      LevelsOf(f, top, j + 1, w);
      ChosenNested(f, top, 2 * |f| - 2);
      forall r | 0 <= r < |l| ensures l[r] > j <==> r < c[j] {
        DepthLevels(c, r, j);
      }
      Threshold(w, l, j, c[j]);
      assert c[j..] == [c[j]] + c[j + 1..];
      PrefixSumsCons(w, c[j], c[j + 1..]);
    } else {
      NoSums(w, c[j..]);
    }
  }

  lemma NoSums(w: seq<nat>, c: seq<nat>)
    requires c == []
    ensures PrefixSums(w, c) == 0
  {
  }

  /** The items of the slice, however their coins are weighed, weigh what the code lengths say. */
  lemma SliceWeight(f: seq<nat>, top: nat, w: seq<nat>)
    requires Ascending(f) && 2 <= |f| && 2 * |f| - 2 <= |Level(f, top)| && |w| == |f|
    ensures Sum(Level(f, top)[..2 * |f| - 2], w) == Dot(w, Lengths(f, top))
  {
    hide Level, Chosen, Sum, Dot, Lengths, Layers, Counts, PrefixSums;
    LengthsCapped(f, top);
    var c := Chosen(f, top, 2 * |f| - 2);
    ChosenSum(f, top, 2 * |f| - 2, w);
    LevelsOf(f, top, 0, w);
    assert c[0..] == c;
    LayersDot(w, Lengths(f, top), top);
  }

  /** Weighing a single rank counts its coins. */
  function Unit(n: nat, r: nat): (u: seq<nat>)
    ensures |u| == n
  {
    seq(n, i => if i == r then 1 else 0)
  }

  lemma {:induction false} DotUnit(n: nat, r: nat, l: seq<nat>)
    requires |l| == n
    ensures Dot(Unit(n, r), l) == if r < n then l[r] else 0
    decreases n
  {
    if n > 0 {
      assert Unit(n, r)[..n - 1] == Unit(n - 1, r);
      DotUnit(n - 1, r, l[..n - 1]);
    }
  }

  lemma {:induction false} KraftOne(l: seq<nat>, top: nat, r: nat)
    requires forall i :: 0 <= i < |l| ==> l[i] <= top
    requires r < |l|
    ensures Kraft(l, top) >= Pow2(top - l[r]) + |l| - 1
    decreases |l|
  {
    var n := |l| - 1;
    if r < n {
      KraftOne(l[..n], top, r);
    } else {
      KraftMany(l[..n], top);
    }
  }

  lemma {:induction false} KraftMany(l: seq<nat>, top: nat)
    requires forall i :: 0 <= i < |l| ==> l[i] <= top
    ensures Kraft(l, top) >= |l|
    decreases |l|
  {
    if l != [] {
      KraftMany(l[..|l| - 1], top);
    }
  }

  /** The code is full: its Kraft sum is exactly one, and every length is between 1 and the limit. */
  lemma Full(f: seq<nat>, top: nat)
    requires Ascending(f) && 2 <= |f| <= Pow2(top) && top >= 1
    ensures 2 * |f| - 2 <= |Level(f, top)|
    ensures var l := Lengths(f, top);
      && (forall r :: 0 <= r < |l| ==> 1 <= l[r] <= top)
      && Kraft(l, top) == Pow2(top)
  {
    hide Level, Chosen, Lengths, Layers, Counts, PrefixSums, Width, Kraft, Pow2;
    SliceExists(f, top);
    LengthsCapped(f, top);
    var c, l := Chosen(f, top, 2 * |f| - 2), Lengths(f, top);
    LevelsOf(f, top, 0, f);
    ChosenWidth(f, top, 2 * |f| - 2);
    CountsWidth(l, top);
    assert c[0..] == c;
    PowHalf(top);
    FullKraft(|f|, Pow2(top - 1), Kraft(l, top));
    forall r | 0 <= r < |l| ensures 1 <= l[r] {
      KraftOne(l, top, r);
    }
  }

  lemma FullKraft(n: nat, p: nat, kraft: nat)
    requires n >= 2 && (2 * n - 2) * p + kraft == n * (2 * p)
    ensures kraft == 2 * p
  {
    assert n * (2 * p) == (2 * n - 2) * p + 2 * p;
  }

  // ----- costs

  lemma {:induction false} PrefixBound(f: seq<nat>, k: nat, m: nat)
    requires k <= |f| && forall r :: 0 <= r < |f| ==> f[r] <= m
    ensures Prefix(f, k) <= |f| * m
    decreases k
  {
    PrefixSmall(f, k, m);
    MulMonotone(k, |f|, m);
  }

  lemma {:induction false} PrefixSmall(f: seq<nat>, k: nat, m: nat)
    requires k <= |f| && forall r :: 0 <= r < |f| ==> f[r] <= m
    ensures Prefix(f, k) <= k * m
    decreases k
  {
    if k > 0 {
      PrefixSmall(f, k - 1, m);
      Distribute(k - 1, 1, m);
    }
  }

  lemma {:induction false} SumsBound(f: seq<nat>, c: seq<nat>, m: nat)
    requires forall j :: 0 <= j < |c| ==> c[j] <= |f|
    requires forall r :: 0 <= r < |f| ==> f[r] <= m
    ensures PrefixSums(f, c) <= |c| * (|f| * m)
    decreases |c|
  {
    if c != [] {
      SumsBound(f, c[1..], m);
      PrefixBound(f, c[0], m);
      Distribute(|c| - 1, 1, |f| * m);
    }
  }

  /** The cost of an item of level `k` is at most that of all coins of `k` levels. */
  lemma CostBound(f: seq<nat>, k: nat, i: nat, m: nat)
    requires i < |Level(f, k)| && forall r :: 0 <= r < |f| ==> f[r] <= m
    ensures Weight(Level(f, k)[i], f) <= k * (|f| * m)
  {
    hide Level, Sum, Weight, Chosen, PrefixSums;
    SumDropLast(Level(f, k), i + 1, f);
    ChosenSum(f, k, i + 1, f);
    SumsBound(f, Chosen(f, k, i + 1), m);
  }

  /** For 32-bit frequencies of an alphabet that fits fifteen bits no 64-bit cost wraps. */
  lemma NoOverflow(f: seq<nat>, k: nat, i: nat)
    requires |f| <= 0x8000 && k <= 15 && i < |Level(f, k)|
    requires forall r :: 0 <= r < |f| ==> f[r] < 0x1_0000_0000
    ensures Weight(Level(f, k)[i], f) < 0x1_0000_0000_0000_0000
  {
    hide Level, Weight;
    CostBound(f, k, i, 0xFFFF_FFFF);
    MulMonotone(|f|, 0x8000, 0xFFFF_FFFF);
    MulMonotone(k, 15, |f| * 0xFFFF_FFFF);
  }
}
