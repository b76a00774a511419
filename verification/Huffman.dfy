/**
 Length-limited Huffman code lengths for an alphabet: package-merge over a pool of coins and packages, and what its
 result means symbol by symbol.
 */
module Huffman {
  import opened Words
  import opened PackageMerge

  // ----- symbols in order of frequency

  /** Insert symbol `i` into a list sorted by frequency, before the symbols of equal frequency. */
  function Insert(freqs: seq<nat>, i: nat, l: seq<nat>): (r: seq<nat>)
    ensures |r| == |l| + 1
  {
    if l == [] then [i]
    else if FreqOf(freqs, i) <= FreqOf(freqs, l[0]) then [i] + l
    else [l[0]] + Insert(freqs, i, l[1..])
  }

  function FreqOf(freqs: seq<nat>, i: nat): nat {
    if i < |freqs| then freqs[i] else 0
  }

  /** The symbols from `i` on that occur, in stable ascending order of frequency. */
  function Ordered(freqs: seq<nat>, i: nat): (l: seq<nat>)
    requires i <= |freqs|
    ensures |l| <= |freqs| - i
    decreases |freqs| - i
  {
    if i == |freqs| then []
    else if freqs[i] > 0 then Insert(freqs, i, Ordered(freqs, i + 1))
    else Ordered(freqs, i + 1)
  }

  /** The entries of `x` in the order of the symbols in `l`. */
  function Pick(l: seq<nat>, x: seq<nat>): (p: seq<nat>)
    ensures |p| == |l|
  {
    seq(|l|, r requires 0 <= r < |l| => FreqOf(x, l[r]))
  }

  ghost predicate Distinct(l: seq<nat>) {
    forall a, b :: 0 <= a < b < |l| ==> l[a] != l[b]
  }

  lemma {:induction false} InsertFacts(freqs: seq<nat>, i: nat, l: seq<nat>)
    requires i !in l && Distinct(l) && Ascending(Pick(l, freqs))
    ensures var r := Insert(freqs, i, l);
      && Distinct(r) && Ascending(Pick(r, freqs))
      && (forall s :: s in r <==> s == i || s in l)
    decreases |l|
  {
    hide FreqOf;
    if l == [] {
    } else if FreqOf(freqs, i) <= FreqOf(freqs, l[0]) {
      FirstLeast(freqs, l);
      AscendCons(freqs, i, l);
    } else {
      FirstLeast(freqs, l);
      assert Pick(l[1..], freqs) == Pick(l, freqs)[1..];
      InsertFacts(freqs, i, l[1..]);
      assert forall s :: s in l <==> s == l[0] || s in l[1..];
      AscendCons(freqs, l[0], Insert(freqs, i, l[1..]));
    }
  }

  lemma FirstLeast(freqs: seq<nat>, l: seq<nat>)
    requires l != [] && Ascending(Pick(l, freqs))
    ensures forall s :: s in l ==> FreqOf(freqs, l[0]) <= FreqOf(freqs, s)
  {
    hide FreqOf;
    forall s | s in l ensures FreqOf(freqs, l[0]) <= FreqOf(freqs, s) {
      var k :| 0 <= k < |l| && l[k] == s;
      if k > 0 {
        assert Pick(l, freqs)[0] <= Pick(l, freqs)[k];
      }
    }
  }

  lemma AscendCons(freqs: seq<nat>, x: nat, t: seq<nat>)
    requires x !in t && Distinct(t) && Ascending(Pick(t, freqs))
    requires forall s :: s in t ==> FreqOf(freqs, x) <= FreqOf(freqs, s)
    ensures Distinct([x] + t) && Ascending(Pick([x] + t, freqs))
  {
    hide FreqOf;
    var r := [x] + t;
    forall a, b | 0 <= a < b < |r| ensures Pick(r, freqs)[a] <= Pick(r, freqs)[b] {
      assert t[b - 1] in t;
      if a > 0 {
        assert Pick(t, freqs)[a - 1] <= Pick(t, freqs)[b - 1];
      }
    }
  }

  /** Every symbol that occurs is listed once, in ascending order of frequency. */
  lemma {:induction false} OrderedFacts(freqs: seq<nat>, i: nat)
    requires i <= |freqs|
    ensures var l := Ordered(freqs, i);
      && Distinct(l) && Ascending(Pick(l, freqs))
      && (forall s :: s in l <==> i <= s < |freqs| && freqs[s] > 0)
    decreases |freqs| - i
  {
    if i < |freqs| {
      OrderedFacts(freqs, i + 1);
      if freqs[i] > 0 {
        InsertFacts(freqs, i, Ordered(freqs, i + 1));
      }
    }
  }

  // ----- sums over symbols and over ranks

  /** The sum of `h` over the symbols from `i` on that occur. */
  function SumOccurring(freqs: seq<nat>, h: seq<nat>, i: nat): nat
    requires |h| == |freqs| && i <= |freqs|
    decreases |freqs| - i
  {
    if i == |freqs| then 0
    else (if freqs[i] > 0 then h[i] else 0) + SumOccurring(freqs, h, i + 1)
  }

  lemma {:induction false} InsertTotal(freqs: seq<nat>, i: nat, l: seq<nat>, h: seq<nat>)
    ensures Total(Pick(Insert(freqs, i, l), h)) == FreqOf(h, i) + Total(Pick(l, h))
    decreases |l|
  {
    var r := Insert(freqs, i, l);
    assert Pick(r, h)[1..] == Pick(r[1..], h);
    TotalHead(Pick(r, h));
    if l != [] {
      assert Pick(l, h)[1..] == Pick(l[1..], h);
      TotalHead(Pick(l, h));
      if FreqOf(freqs, i) <= FreqOf(freqs, l[0]) {
        assert r[1..] == l;
      } else {
        InsertTotal(freqs, i, l[1..], h);
        assert r[1..] == Insert(freqs, i, l[1..]);
      }
    } else {
      assert Pick(r[1..], h) == [] && Pick(l, h) == [];
    }
  }

  lemma {:induction false} OrderedTotal(freqs: seq<nat>, h: seq<nat>, i: nat)
    requires |h| == |freqs| && i <= |freqs|
    ensures Total(Pick(Ordered(freqs, i), h)) == SumOccurring(freqs, h, i)
    decreases |freqs| - i
  {
    if i < |freqs| {
      OrderedTotal(freqs, h, i + 1);
      if freqs[i] > 0 {
        InsertTotal(freqs, i, Ordered(freqs, i + 1), h);
      }
    } else {
      assert Pick([], h) == [];
    }
  }

  /** Pointwise products. */
  function Times(a: seq<nat>, b: seq<nat>): (p: seq<nat>)
    requires |a| == |b|
    ensures |p| == |a|
  {
    seq(|a|, r requires 0 <= r < |a| => a[r] * b[r])
  }

  lemma {:induction false} DotTotal(w: seq<nat>, l: seq<nat>)
    requires |w| == |l|
    ensures Dot(w, l) == Total(Times(w, l))
    decreases |w|
  {
    if w != [] {
      var n := |w| - 1;
      DotTotal(w[..n], l[..n]);
      assert Times(w, l) == Times(w[..n], l[..n]) + [w[n] * l[n]];
      TotalSnoc(Times(w[..n], l[..n]), w[n] * l[n]);
    } else {
      assert Times(w, l) == [];
    }
  }

  /** The share of the code space each length takes, scaled by 2^top. */
  function Shares(l: seq<nat>, top: nat): (p: seq<nat>)
    ensures |p| == |l|
  {
    seq(|l|, r requires 0 <= r < |l| => if l[r] <= top then Pow2(top - l[r]) else 0)
  }

  lemma {:induction false} KraftTotal(l: seq<nat>, top: nat)
    requires forall r :: 0 <= r < |l| ==> l[r] <= top
    ensures Kraft(l, top) == Total(Shares(l, top))
    decreases |l|
  {
    if l != [] {
      var n := |l| - 1;
      KraftTotal(l[..n], top);
      assert Shares(l, top) == Shares(l[..n], top) + [Pow2(top - l[n])];
      TotalSnoc(Shares(l[..n], top), Pow2(top - l[n]));
    } else {
      assert Shares(l, top) == [];
    }
  }

  // ----- what the code lengths mean

  /** The size of the coded text. */
  function TotalBits(freqs: seq<nat>, lengths: seq<nat>): nat
    requires |lengths| == |freqs|
  {
    SumOccurring(freqs, Times(freqs, lengths), 0)
  }

  /** The Kraft sum over the symbols that occur, scaled by 2^top. */
  function KraftSum(freqs: seq<nat>, lengths: seq<nat>, top: nat): nat
    requires |lengths| == |freqs|
  {
    SumOccurring(freqs, Shares(lengths, top), 0)
  }

  /** Every symbol that occurs has a length between 1 and `top`. */
  ghost predicate Lengthed(freqs: seq<nat>, lengths: seq<nat>, top: nat) {
    && |lengths| == |freqs|
    && forall i :: 0 <= i < |freqs| && freqs[i] > 0 ==> 1 <= lengths[i] <= top
  }

  /** Sums over symbols are sums over ranks. */
  lemma ByRank(freqs: seq<nat>, lengths: seq<nat>, top: nat)
    requires Lengthed(freqs, lengths, top)
    ensures var order := Ordered(freqs, 0);
      var l := Pick(order, lengths);
      && (forall r :: 0 <= r < |l| ==> 1 <= l[r] <= top)
      && TotalBits(freqs, lengths) == Dot(Pick(order, freqs), l)
      && KraftSum(freqs, lengths, top) == Kraft(l, top)
  {
    var order := Ordered(freqs, 0);
    var f, l := Pick(order, freqs), Pick(order, lengths);
    OrderedFacts(freqs, 0);
    forall r | 0 <= r < |l| ensures 1 <= l[r] <= top {
      assert order[r] in order;
    }
    OrderedTotal(freqs, Times(freqs, lengths), 0);
    OrderedTotal(freqs, Shares(lengths, top), 0);
    assert forall r :: 0 <= r < |order| ==> order[r] in order;
    assert Pick(order, Times(freqs, lengths)) == Times(f, l);
    assert Pick(order, Shares(lengths, top)) == Shares(l, top);
    DotTotal(f, l);
    KraftTotal(l, top);
  }

  /** `out` is what package-merge makes of `freqs`: the ranks' lengths at their symbols, zero elsewhere. */
  ghost predicate Merged(freqs: seq<nat>, out: seq<nat>, top: nat) {
    var order := Ordered(freqs, 0);
    var f := Pick(order, freqs);
    && |out| == |freqs|
    && 2 <= |f| && 2 * |f| - 2 <= |Level(f, top)|
    && Pick(order, out) == Lengths(f, top)
    && forall i :: 0 <= i < |freqs| && freqs[i] == 0 ==> out[i] == 0
  }

  /** The code lengths are within the limit, use up the code space exactly, and cannot be improved on. */
  lemma MergedPromise(freqs: seq<nat>, out: seq<nat>, top: nat)
    requires Merged(freqs, out, top) && top >= 1 && |Ordered(freqs, 0)| <= Pow2(top)
    ensures Lengthed(freqs, out, top)
    ensures KraftSum(freqs, out, top) == Pow2(top)
    ensures forall other :: Lengthed(freqs, other, top) && KraftSum(freqs, other, top) <= Pow2(top) ==>
      TotalBits(freqs, out) <= TotalBits(freqs, other)
  {
    var order := Ordered(freqs, 0);
    var f := Pick(order, freqs);
    OrderedFacts(freqs, 0);
    Full(f, top);
    forall i | 0 <= i < |freqs| && freqs[i] > 0 ensures 1 <= out[i] <= top {
      assert i in order;
      var r :| 0 <= r < |order| && order[r] == i;
      assert Pick(order, out)[r] == out[i];
    }
    ByRank(freqs, out, top);
    SliceWeight(f, top, f);
    forall other | Lengthed(freqs, other, top) && KraftSum(freqs, other, top) <= Pow2(top)
      ensures TotalBits(freqs, out) <= TotalBits(freqs, other)
    {
      ByRank(freqs, other, top);
      Optimal(f, Pick(order, other), top);
    }
  }

  // ----- the pool

  datatype PoolKind = CoinKind(sym: nat) | PairKind(a: nat, b: nat)

  datatype PoolElement = PoolElement(cost: nat, kind: PoolKind)

  /** Every pool element stands for the item beside it in `trees`; a pair refers to earlier elements. */
  ghost predicate Stands(pool: seq<PoolElement>, trees: seq<Item>, order: seq<nat>, f: seq<nat>) {
    && |pool| == |trees|
    && forall i :: 0 <= i < |pool| ==>
      && pool[i].cost == Weight(trees[i], f)
      && match pool[i].kind
         case CoinKind(sym) => trees[i].Coin? && trees[i].rank < |order| && sym == order[trees[i].rank]
         case PairKind(a, b) => a < i && b < i && trees[i] == Pack(trees[a], trees[b])
  }

  ghost predicate InPool(list: seq<nat>, trees: seq<Item>) {
    forall k :: 0 <= k < |list| ==> list[k] < |trees|
  }

  ghost function Items(list: seq<nat>, trees: seq<Item>): (l: seq<Item>)
    requires InPool(list, trees)
    ensures |l| == |list|
  {
    seq(|list|, k requires 0 <= k < |list| => trees[list[k]])
  }

  lemma ItemsGrow(list: seq<nat>, trees: seq<Item>, more: seq<Item>)
    requires InPool(list, trees) && trees <= more
    ensures InPool(list, more) && Items(list, more) == Items(list, trees)
  {
  }

  lemma StandsAt(pool: seq<PoolElement>, trees: seq<Item>, order: seq<nat>, f: seq<nat>, i: nat)
    requires Stands(pool, trees, order, f)
    ensures |pool| == |trees|
    ensures i < |pool| ==> pool[i].cost == Weight(trees[i], f)
  {
  }

  lemma StandsCoin(pool: seq<PoolElement>, trees: seq<Item>, order: seq<nat>, f: seq<nat>, r: nat)
    requires Stands(pool, trees, order, f) && r < |order| == |f|
    ensures Stands(pool + [PoolElement(f[r], CoinKind(order[r]))], trees + [Coin(r)], order, f)
  {
  }

  lemma StandsPair(pool: seq<PoolElement>, trees: seq<Item>, order: seq<nat>, f: seq<nat>, a: nat, b: nat)
    requires Stands(pool, trees, order, f) && a < |pool| && b < |pool|
    ensures Stands(pool + [PoolElement(pool[a].cost + pool[b].cost, PairKind(a, b))],
                   trees + [Pack(trees[a], trees[b])], order, f)
  {
  }

  lemma ItemsSnoc(list: seq<nat>, trees: seq<Item>, x: nat)
    requires InPool(list, trees) && x < |trees|
    ensures InPool(list + [x], trees) && Items(list + [x], trees) == Items(list, trees) + [trees[x]]
  {
  }

  lemma ItemsAppend(a: seq<nat>, b: seq<nat>, trees: seq<Item>)
    requires InPool(a, trees) && InPool(b, trees)
    ensures InPool(a + b, trees) && Items(a + b, trees) == Items(a, trees) + Items(b, trees)
  {
  }

  lemma ItemsTail(list: seq<nat>, trees: seq<Item>, i: nat)
    requires InPool(list, trees) && i <= |list|
    ensures InPool(list[i..], trees)
    ensures Items(list[i..], trees) == Items(list, trees)[i..]
    ensures i < |list| ==> list[i] < |trees| && Items(list, trees)[i] == trees[list[i]]
  {
  }

  /** One fresh coin per symbol, in order. */
  method AddCoins(order: seq<nat>, f: seq<nat>, pool0: seq<PoolElement>, ghost trees0: seq<Item>)
    returns (pool: seq<PoolElement>, list: seq<nat>, ghost trees: seq<Item>)
    requires |f| == |order| && Stands(pool0, trees0, order, f)
    ensures Stands(pool, trees, order, f) && trees0 <= trees
    ensures InPool(list, trees) && Items(list, trees) == Coins(0, |f|)
  {
    hide Stands, Items, InPool, Coins;
    pool, trees, list := pool0, trees0, [];
    NoItems(trees);
    CoinsEnds(|f|);
    for r := 0 to |order|
      invariant Stands(pool, trees, order, f) && trees0 <= trees
      invariant InPool(list, trees) && Items(list, trees) == Coins(0, |f|)[..r]
    {
      StandsAt(pool, trees, order, f, 0);
      StandsCoin(pool, trees, order, f, r);
      ItemsGrow(list, trees, trees + [Coin(r)]);
      ItemsSnoc(list, trees + [Coin(r)], |pool|);
      CoinsAt(0, |f|, r);
      pool := pool + [PoolElement(f[r], CoinKind(order[r]))];
      trees := trees + [Coin(r)];
      list := list + [|pool| - 1];
      assert Coins(0, |f|)[..r + 1] == Coins(0, |f|)[..r] + [Coin(r)];
    }
  }

  lemma NoItems(trees: seq<Item>)
    ensures InPool([], trees) && Items([], trees) == []
  {
  }

  lemma CoinsEnds(n: nat)
    ensures Coins(0, n)[..0] == [] && Coins(0, n)[..n] == Coins(0, n)
  {
  }

  /** Pair consecutive entries into packages. */
  method MakePackages(current: seq<nat>, order: seq<nat>, f: seq<nat>, pool0: seq<PoolElement>,
                      ghost trees0: seq<Item>)
    returns (pool: seq<PoolElement>, list: seq<nat>, ghost trees: seq<Item>)
    requires Stands(pool0, trees0, order, f) && InPool(current, trees0)
    ensures Stands(pool, trees, order, f) && trees0 <= trees
    ensures InPool(list, trees) && Items(list, trees) == Pairs(Items(current, trees0))
  {
    hide Stands, Items, InPool, Pairs;
    pool, trees, list := pool0, trees0, [];
    var i := 0;
    ghost var items := Items(current, trees0);
    ghost var all := Pairs(items);
    NoItems(trees);
    while i + 1 < |current|
      invariant 0 <= i <= |current| && i % 2 == 0
      invariant Stands(pool, trees, order, f) && trees0 <= trees
      invariant InPool(list, trees) && Items(list, trees) == all[..i / 2]
      decreases |current| - i
    {
      StandsAt(pool, trees, order, f, 0);
      ItemsGrow(current, trees0, trees);
      ItemsTail(current, trees, i);
      ItemsTail(current, trees, i + 1);
      var a, b := current[i], current[i + 1];
      var cost := pool[a].cost + pool[b].cost;
      StandsPair(pool, trees, order, f, a, b);
      ghost var package := Pack(trees[a], trees[b]);
      ItemsGrow(list, trees, trees + [package]);
      ItemsSnoc(list, trees + [package], |pool|);
      PairsAt(items, i / 2);
      assert all[..i / 2 + 1] == all[..i / 2] + [package];
      pool := pool + [PoolElement(cost, PairKind(a, b))];
      trees := trees + [package];
      list := list + [|pool| - 1];
      i := i + 2;
    }
    assert all[..i / 2] == all;
  }

  lemma MergeStep(c: seq<Item>, p: seq<Item>, f: seq<nat>)
    requires c != [] && p != []
    ensures Merge(c, p, f) == if Weight(c[0], f) <= Weight(p[0], f) then [c[0]] + Merge(c[1..], p, f)
                              else [p[0]] + Merge(c, p[1..], f)
  {
  }

  lemma MergeEnd(c: seq<Item>, p: seq<Item>, f: seq<nat>)
    requires c == [] || p == []
    ensures Merge(c, p, f) == c + p
  {
  }

  /** Merge two cost-sorted lists; at equal cost the coin goes first. */
  method MergeLists(coins: seq<nat>, packages: seq<nat>, order: seq<nat>, f: seq<nat>, pool: seq<PoolElement>,
                    ghost trees: seq<Item>)
    returns (merged: seq<nat>)
    requires Stands(pool, trees, order, f) && InPool(coins, trees) && InPool(packages, trees)
    ensures InPool(merged, trees)
    ensures Items(merged, trees) == Merge(Items(coins, trees), Items(packages, trees), f)
  {
    hide Stands, Items, InPool, Merge;
    merged := [];
    var ci, pi := 0, 0;
    ghost var cs, ps := Items(coins, trees), Items(packages, trees);
    ghost var all := Merge(cs, ps, f);
    NoItems(trees);
    assert cs[0..] == cs && ps[0..] == ps;
    assert all == [] + all;
    StandsAt(pool, trees, order, f, 0);
    while ci < |coins| && pi < |packages|
      invariant ci <= |coins| && pi <= |packages| && InPool(merged, trees)
      invariant all == Items(merged, trees) + Merge(cs[ci..], ps[pi..], f)
      decreases |coins| + |packages| - ci - pi
    {
      ghost var done := Items(merged, trees);
      ItemsTail(coins, trees, ci);
      ItemsTail(packages, trees, pi);
      StandsAt(pool, trees, order, f, coins[ci]);
      StandsAt(pool, trees, order, f, packages[pi]);
      MergeStep(cs[ci..], ps[pi..], f);
      if pool[coins[ci]].cost <= pool[packages[pi]].cost {
        TailTail(cs, ci, 1);
        ItemsSnoc(merged, trees, coins[ci]);
        ConcatAssoc(done, [cs[ci]], Merge(cs[ci + 1..], ps[pi..], f));
        merged := merged + [coins[ci]];
        ci := ci + 1;
      } else {
        TailTail(ps, pi, 1);
        ItemsSnoc(merged, trees, packages[pi]);
        ConcatAssoc(done, [ps[pi]], Merge(cs[ci..], ps[pi + 1..], f));
        merged := merged + [packages[pi]];
        pi := pi + 1;
      }
    }
    MergeEnd(cs[ci..], ps[pi..], f);
    ItemsTail(coins, trees, ci);
    ItemsTail(packages, trees, pi);
    ItemsAppend(coins[ci..], packages[pi..], trees);
    ItemsAppend(merged, coins[ci..] + packages[pi..], trees);
    merged := merged + (coins[ci..] + packages[pi..]);
  }

  // ----- counting the coins of the slice

  function Nodes(i: Item): nat {
    match i
    case Coin(_) => 1
    case Pack(a, b) => 1 + Nodes(a) + Nodes(b)
  }

  function AllNodes(l: seq<Item>): nat {
    if l == [] then 0 else AllNodes(l[..|l| - 1]) + Nodes(l[|l| - 1])
  }

  lemma SumSnoc(l: seq<Item>, i: Item, w: seq<nat>)
    ensures Sum(l + [i], w) == Sum(l, w) + Weight(i, w)
    ensures AllNodes(l + [i]) == AllNodes(l) + Nodes(i)
  {
    SumAppend(l, [i], w);
    assert [i][1..] == [];
    assert (l + [i])[..|l|] == l;
  }

  /** `now` has, for every rank, what `was` had and the coins of `l`, except for those still in `left`. */
  ghost predicate Tallied(now: seq<nat>, was: seq<nat>, order: seq<nat>, l: seq<Item>, left: seq<Item>) {
    && |now| == |was|
    && (forall r :: 0 <= r < |order| ==> order[r] < |now|)
    && (forall r :: 0 <= r < |order| ==>
          now[order[r]] + Sum(left, Unit(|order|, r)) == was[order[r]] + Sum(l, Unit(|order|, r)))
    && (forall s :: 0 <= s < |now| && s !in order ==> now[s] == was[s])
  }

  lemma TallyCoin(now: seq<nat>, was: seq<nat>, order: seq<nat>, l: seq<Item>, left: seq<Item>, rank: nat)
    requires Distinct(order) && rank < |order|
    requires Tallied(now, was, order, l, left + [Coin(rank)])
    ensures order[rank] < |now|
    ensures Tallied(now[order[rank] := now[order[rank]] + 1], was, order, l, left)
  {
    forall r | 0 <= r < |order|
      ensures Sum(left + [Coin(rank)], Unit(|order|, r)) == Sum(left, Unit(|order|, r)) + (if r == rank then 1 else 0)
    {
      SumSnoc(left, Coin(rank), Unit(|order|, r));
    }
  }

  lemma TallyPack(now: seq<nat>, was: seq<nat>, order: seq<nat>, l: seq<Item>, left: seq<Item>, a: Item, b: Item)
    requires Tallied(now, was, order, l, left + [Pack(a, b)])
    ensures Tallied(now, was, order, l, (left + [a]) + [b])
  {
    forall r | 0 <= r < |order|
      ensures Sum(left + [Pack(a, b)], Unit(|order|, r)) == Sum((left + [a]) + [b], Unit(|order|, r))
    {
      SumSnoc(left, Pack(a, b), Unit(|order|, r));
      SumSnoc(left, a, Unit(|order|, r));
      SumSnoc(left + [a], b, Unit(|order|, r));
    }
  }

  lemma TallyRoot(now: seq<nat>, was: seq<nat>, order: seq<nat>, l: seq<Item>, root: Item)
    requires Tallied(now, was, order, l, [])
    ensures Tallied(now, was, order, l + [root], [root])
    ensures [] + [root] == [root]
  {
    forall r | 0 <= r < |order|
      ensures Sum(l + [root], Unit(|order|, r)) == Sum(l, Unit(|order|, r)) + Sum([root], Unit(|order|, r))
    {
      SumAppend(l, [root], Unit(|order|, r));
    }
  }

  lemma StandsKind(pool: seq<PoolElement>, trees: seq<Item>, order: seq<nat>, f: seq<nat>, i: nat)
    requires Stands(pool, trees, order, f) && i < |trees|
    ensures i < |pool| && match pool[i].kind
            case CoinKind(sym) => trees[i].Coin? && trees[i].rank < |order| && sym == order[trees[i].rank]
            case PairKind(a, b) => a < |trees| && b < |trees| && trees[i] == Pack(trees[a], trees[b])
  {
  }

  /** Add one to the length of every coin's symbol under `root`. */
  method CountRoot(out: array<nat>, root: nat, order: seq<nat>, f: seq<nat>, pool: seq<PoolElement>,
                   ghost trees: seq<Item>, ghost was: seq<nat>, ghost l: seq<Item>)
    requires Stands(pool, trees, order, f) && Distinct(order) && root < |trees|
    requires Tallied(out[..], was, order, l, [])
    modifies out
    ensures Tallied(out[..], was, order, l + [trees[root]], [])
  {
    hide Stands, Items, InPool, Tallied, Distinct, AllNodes, Nodes;
    ghost var target := l + [trees[root]];
    var stack := [root];
    TallyRoot(out[..], was, order, l, trees[root]);
    NoItems(trees);
    ItemsSnoc([], trees, root);
    assert [] + [root] == stack;
    while stack != []
      invariant InPool(stack, trees)
      invariant Tallied(out[..], was, order, target, Items(stack, trees))
      decreases AllNodes(Items(stack, trees))
    {
      var idx := stack[|stack| - 1];
      ghost var whole := stack;
      stack := stack[..|stack| - 1];
      StackTop(whole, trees);
      StandsKind(pool, trees, order, f, idx);
      ghost var left := Items(stack, trees);
      SumSnoc(left, trees[idx], []);
      match pool[idx].kind {
        case CoinKind(sym) =>
          TallyCoin(out[..], was, order, target, left, trees[idx].rank);
          ghost var now := out[..];
          out[sym] := out[sym] + 1;
          assert out[..] == now[sym := now[sym] + 1];
          NodesOf(trees[idx]);
        case PairKind(a, b) =>
          TallyPack(out[..], was, order, target, left, trees[a], trees[b]);
          ItemsSnoc(stack, trees, a);
          ItemsSnoc(stack + [a], trees, b);
          SumSnoc(left, trees[a], []);
          SumSnoc(left + [trees[a]], trees[b], []);
          NodesOf(trees[idx]);
          stack := (stack + [a]) + [b];
      }
    }
    NoItems(trees);
  }

  lemma NodesOf(i: Item)
    ensures Nodes(i) >= 1
    ensures i.Pack? ==> Nodes(i) == 1 + Nodes(i.first) + Nodes(i.second)
  {
  }

  lemma StackTop(stack: seq<nat>, trees: seq<Item>)
    requires stack != [] && InPool(stack, trees)
    ensures var n := |stack| - 1;
      && InPool(stack[..n], trees) && stack[n] < |trees|
      && Items(stack, trees) == Items(stack[..n], trees) + [trees[stack[n]]]
  {
  }

  lemma LevelOne(f: seq<nat>)
    ensures Level(f, 1) == Coins(0, |f|)
  {
  }

  lemma LevelNext(f: seq<nat>, k: nat)
    requires k >= 1
    ensures Level(f, k + 1) == Merge(Coins(0, |f|), Pairs(Level(f, k)), f)
  {
  }

  /** Build the levels from the deepest up; the result lists the items of the top one. */
  method BuildLevels(order: seq<nat>, f: seq<nat>, maxLength: nat)
    returns (pool: seq<PoolElement>, current: seq<nat>, ghost trees: seq<Item>)
    requires |f| == |order| && maxLength >= 1
    ensures Stands(pool, trees, order, f)
    ensures InPool(current, trees) && Items(current, trees) == Level(f, maxLength)
  {
    hide Items, InPool, Level, Coins, Pairs, Merge;
    pool, current, trees := AddCoins(order, f, [], []);
    LevelOne(f);
    for k := 1 to maxLength
      invariant Stands(pool, trees, order, f)
      invariant InPool(current, trees) && Items(current, trees) == Level(f, k)
    {
      var packages, coins;
      ghost var trees1, trees2;
      pool, packages, trees1 := MakePackages(current, order, f, pool, trees);
      pool, coins, trees2 := AddCoins(order, f, pool, trees1);
      ItemsGrow(packages, trees1, trees2);
      LevelNext(f, k);
      trees := trees2;
      current := MergeLists(coins, packages, order, f, pool, trees);
    }
  }

  lemma TallyStart(zeros: seq<nat>, order: seq<nat>)
    requires forall r :: 0 <= r < |order| ==> order[r] < |zeros|
    ensures Tallied(zeros, zeros, order, [], [])
  {
  }

  lemma TallyEnd(freqs: seq<nat>, out: seq<nat>, top: nat)
    requires var order := Ordered(freqs, 0);
      var f := Pick(order, freqs);
      && 2 <= |f| && 2 * |f| - 2 <= |Level(f, top)|
      && Tallied(out, seq(|freqs|, _ => 0), order, Level(f, top)[..2 * |f| - 2], [])
    ensures Merged(freqs, out, top)
  {
    var order := Ordered(freqs, 0);
    var f := Pick(order, freqs);
    OrderedFacts(freqs, 0);
    forall r | 0 <= r < |order| ensures out[order[r]] == Lengths(f, top)[r] {
      SliceWeight(f, top, Unit(|f|, r));
      DotUnit(|f|, r, Lengths(f, top));
    }
    assert Pick(order, out) == Lengths(f, top);
  }

  /** With fewer than two symbols there is nothing to choose. */
  lemma FewSymbols(freqs: seq<nat>, lengths: seq<nat>, top: nat)
    requires |Ordered(freqs, 0)| < 2 && Lengthed(freqs, lengths, top)
    requires forall i :: 0 <= i < |freqs| && freqs[i] > 0 ==> lengths[i] == 1
    ensures forall other :: Lengthed(freqs, other, top) ==> TotalBits(freqs, lengths) <= TotalBits(freqs, other)
  {
    var order := Ordered(freqs, 0);
    var f := Pick(order, freqs);
    OrderedFacts(freqs, 0);
    forall other | Lengthed(freqs, other, top) ensures TotalBits(freqs, lengths) <= TotalBits(freqs, other) {
      ByRank(freqs, lengths, top);
      ByRank(freqs, other, top);
      var l, o := Pick(order, lengths), Pick(order, other);
      if |order| == 1 {
        assert order[0] in order;
        assert Dot(f[..0], l[..0]) == 0 && Dot(f[..0], o[..0]) == 0;
        assert f[0] * l[0] <= f[0] * o[0];
      }
    }
  }

  /** Optimal code lengths of at most `maxLength` bits. */
  method LengthLimited(freqs: seq<nat>, maxLength: nat) returns (lengths: seq<nat>)
    requires 1 <= maxLength <= 15 && |freqs| <= 0x1_0000
    requires |Ordered(freqs, 0)| <= Pow2(maxLength)
    ensures |lengths| == |freqs|
    ensures forall i :: 0 <= i < |freqs| ==> (lengths[i] == 0 <==> freqs[i] == 0)
    ensures Lengthed(freqs, lengths, maxLength)
    ensures |Ordered(freqs, 0)| >= 2 ==> KraftSum(freqs, lengths, maxLength) == Pow2(maxLength)
    ensures forall other ::
      Lengthed(freqs, other, maxLength) && KraftSum(freqs, other, maxLength) <= Pow2(maxLength) ==>
      TotalBits(freqs, lengths) <= TotalBits(freqs, other)
  {
    hide Stands, Items, InPool, Tallied, Level, Lengths, KraftSum, TotalBits;
    var out := new nat[|freqs|](_ => 0);
    var order := Ordered(freqs, 0);
    OrderedFacts(freqs, 0);
    var n := |order|;
    assert forall r :: 0 <= r < n ==> order[r] in order;
    if n == 0 {
      FewSymbols(freqs, out[..], maxLength);
      return out[..];
    }
    if n == 1 {
      out[order[0]] := 1;
      FewSymbols(freqs, out[..], maxLength);
      return out[..];
    }
    var f := Pick(order, freqs);
    SliceExists(f, maxLength);
    var pool, current;
    ghost var trees;
    pool, current, trees := BuildLevels(order, f, maxLength);
    var pick := 2 * n - 2;
    ghost var items := Items(current, trees);
    ghost var zeros := out[..];
    assert zeros == seq(|freqs|, _ => 0);
    TallyStart(zeros, order);
    assert items[..0] == [];
    for k := 0 to pick
      invariant Tallied(out[..], zeros, order, items[..k], [])
    {
      ItemsTail(current, trees, k);
      assert items[..k + 1] == items[..k] + [items[k]];
      CountRoot(out, current[k], order, f, pool, trees, zeros, items[..k]);
    }
    TallyEnd(freqs, out[..], maxLength);
    MergedPromise(freqs, out[..], maxLength);
    lengths := out[..];
  }
}
