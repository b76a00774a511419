/**
 The Huffman tree of ARC Squeeze: built by merging the two lightest items, so that a leaf at depth d needs a total
 weight of at least the Fibonacci number F(d + 2); flattened into a table with the root first; and its codes.
 */
module SqueezeTree {
  import opened Words
  import opened BitStrings

  const NUM_SYMBOLS := 257

  datatype Tree = Leaf(sym: nat) | Node(left: Tree, right: Tree)

  /** Children of a node: a reference below zero is the leaf for symbol -ref - 1. */
  datatype Pair = Pair(left: int, right: int)

  type Freqs = seq<nat>

  function FreqOf(f: Freqs, sym: nat): nat {
    if sym < |f| then f[sym] else 0
  }

  function Weight(t: Tree, f: Freqs): nat {
    match t
    case Leaf(s) => FreqOf(f, s)
    case Node(l, r) => Weight(l, f) + Weight(r, f)
  }

  function Height(t: Tree): nat {
    match t
    case Leaf(_) => 0
    case Node(l, r) => 1 + if Height(l) > Height(r) then Height(l) else Height(r)
  }

  predicate Occurs(t: Tree, sym: nat) {
    match t
    case Leaf(s) => s == sym
    case Node(l, r) => Occurs(l, sym) || Occurs(r, sym)
  }

  // ----- weight and depth

  function Fib(n: nat): nat {
    if n == 0 then 0 else if n == 1 then 1 else Fib(n - 1) + Fib(n - 2)
  }

  /** The heavier child's weight; nothing for a leaf. */
  function Child(t: Tree, f: Freqs): nat {
    match t
    case Leaf(_) => 0
    case Node(l, r) => if Weight(l, f) > Weight(r, f) then Weight(l, f) else Weight(r, f)
  }

  /** Every leaf counts, no item was merged before anything inside its sibling was, and the lighter child is left. */
  ghost predicate Balanced(t: Tree, f: Freqs) {
    match t
    case Leaf(s) => FreqOf(f, s) >= 1
    case Node(l, r) =>
      && Balanced(l, f) && Balanced(r, f)
      && Child(l, f) <= Weight(r, f) && Child(r, f) <= Weight(l, f) && Weight(l, f) <= Weight(r, f)
  }

  /** No symbol has two leaves. */
  ghost predicate Once(t: Tree) {
    match t
    case Leaf(_) => true
    case Node(l, r) => Once(l) && Once(r) && Disjoint(l, r)
  }

  ghost predicate Disjoint(t: Tree, u: Tree) {
    forall s :: Occurs(t, s) ==> !Occurs(u, s)
  }

  /** A deep leaf needs a heavy tree. */
  lemma {:induction false} FibWeight(t: Tree, f: Freqs)
    requires Balanced(t, f)
    ensures Weight(t, f) >= Fib(Height(t) + 2)
    ensures t.Node? ==> Child(t, f) >= Fib(Height(t) + 1)
  {
    hide Fib, Weight, Height, Child, Balanced;
    if t.Leaf? {
      LeafFacts(t, f);
    } else {
      NodeFacts(t, f);
      FibWeight(t.left, f);
      FibWeight(t.right, f);
      WeightPositive(t.left, f);
      WeightPositive(t.right, f);
      if Height(t.left) >= Height(t.right) {
        FibSibling(t.left, Weight(t.right, f), Height(t), f);
      } else {
        FibSibling(t.right, Weight(t.left, f), Height(t), f);
      }
    }
  }

  lemma NodeFacts(t: Tree, f: Freqs)
    requires t.Node? && Balanced(t, f)
    ensures Balanced(t.left, f) && Balanced(t.right, f)
    ensures Child(t.left, f) <= Weight(t.right, f) && Child(t.right, f) <= Weight(t.left, f)
    ensures Weight(t, f) == Weight(t.left, f) + Weight(t.right, f)
    ensures Child(t, f) >= Weight(t.left, f) && Child(t, f) >= Weight(t.right, f)
    ensures Height(t) == 1 + if Height(t.left) > Height(t.right) then Height(t.left) else Height(t.right)
  {
  }

  lemma LeafFacts(t: Tree, f: Freqs)
    requires t.Leaf? && Balanced(t, f)
    ensures Weight(t, f) >= 1 && Height(t) == 0 && Fib(2) == 1
  {
  }

  /** The other child weighs at least what is left of the Fibonacci number. */
  lemma FibSibling(t: Tree, other: nat, h: nat, f: Freqs)
    requires h == Height(t) + 1 && Weight(t, f) >= Fib(h + 1)
    requires Child(t, f) <= other && other >= 1
    requires t.Node? ==> Child(t, f) >= Fib(h)
    ensures Weight(t, f) + other >= Fib(h + 2)
  {
    assert Fib(h + 2) == Fib(h + 1) + Fib(h);
    if t.Leaf? {
      assert Fib(1) == 1;
    }
  }

  lemma {:induction false} WeightPositive(t: Tree, f: Freqs)
    requires Balanced(t, f)
    ensures Weight(t, f) >= 1
  {
    if t.Node? {
      WeightPositive(t.left, f);
    }
  }

  lemma {:induction false} FibGrows(m: nat, n: nat)
    requires m <= n
    ensures Fib(m) <= Fib(n)
    decreases n
  {
    if m < n {
      FibGrows(m, n - 1);
    }
  }

  lemma Fib28()
    ensures Fib(28) == 317811
  {
    assert Fib(4) == 3 && Fib(5) == 5 && Fib(6) == 8 && Fib(7) == 13;
    assert Fib(8) == 21 && Fib(9) == 34 && Fib(10) == 55 && Fib(11) == 89;
    assert Fib(12) == 144 && Fib(13) == 233 && Fib(14) == 377 && Fib(15) == 610;
    assert Fib(16) == 987 && Fib(17) == 1597 && Fib(18) == 2584 && Fib(19) == 4181;
    assert Fib(20) == 6765 && Fib(21) == 10946 && Fib(22) == 17711 && Fib(23) == 28657;
    assert Fib(24) == 46368 && Fib(25) == 75025 && Fib(26) == 121393 && Fib(27) == 196418;
  }

  /** Below the 28th Fibonacci number no code is longer than 25 bits. */
  lemma DepthBound(t: Tree, f: Freqs)
    requires Balanced(t, f) && Weight(t, f) < 317811
    ensures Height(t) <= 25
  {
    hide Fib;
    FibWeight(t, f);
    Fib28();
    if Height(t) >= 26 {
      FibGrows(28, Height(t) + 2);
    }
  }

  // ----- node tables

  /** `ref` is the root of `t` in the table. */
  ghost predicate Roots(nodes: seq<Pair>, ref: int, t: Tree)
    decreases t
  {
    match t
    case Leaf(s) => ref == -1 - s
    case Node(l, r) => 0 <= ref < |nodes| && Roots(nodes, nodes[ref].left, l) && Roots(nodes, nodes[ref].right, r)
  }

  lemma {:induction false} RootsGrow(nodes: seq<Pair>, more: seq<Pair>, ref: int, t: Tree)
    requires Roots(nodes, ref, t)
    ensures Roots(nodes + more, ref, t)
    decreases t
  {
    if t.Node? {
      RootsGrow(nodes, more, nodes[ref].left, t.left);
      RootsGrow(nodes, more, nodes[ref].right, t.right);
    }
  }

  // ----- the heap

  datatype Item = Item(weight: nat, node: int, order: nat)

  /** Each heap item stands for one tree, and is no lighter than any child merged so far. */
  ghost predicate Stands(heap: seq<Item>, trees: seq<Tree>, nodes: seq<Pair>, f: Freqs) {
    && |heap| == |trees|
    && (forall i :: 0 <= i < |heap| ==> StandsAt(heap[i], trees[i], nodes, f))
    && (forall i, j :: 0 <= i < |trees| && 0 <= j < |heap| ==> Child(trees[i], f) <= heap[j].weight)
  }

  ghost predicate StandsAt(item: Item, t: Tree, nodes: seq<Pair>, f: Freqs) {
    item.weight == Weight(t, f) && Roots(nodes, item.node, t) && Balanced(t, f)
  }

  ghost predicate InSome(trees: seq<Tree>, sym: nat) {
    exists i :: 0 <= i < |trees| && Occurs(trees[i], sym)
  }

  function Weights(heap: seq<Item>): (w: seq<nat>)
    ensures |w| == |heap|
  {
    seq(|heap|, i requires 0 <= i < |heap| => heap[i].weight)
  }

  lemma SwapRemoveTotal(heap: seq<Item>, i: nat)
    requires i < |heap|
    ensures Total(Weights(SwapRemove(heap, i))) == Total(Weights(heap)) - heap[i].weight
  {
    var w := Weights(heap);
    var n := |heap| - 1;
    TotalUpdate(w, i, heap[n].weight);
    assert Weights(SwapRemove(heap, i)) == w[i := heap[n].weight][..n];
  }

  lemma RemoveStands(heap: seq<Item>, trees: seq<Tree>, nodes: seq<Pair>, f: Freqs, i: nat)
    requires Stands(heap, trees, nodes, f) && i < |heap|
    ensures Stands(SwapRemove(heap, i), SwapRemove(trees, i), nodes, f)
    ensures forall sym: nat :: InSome(trees, sym) ==> Occurs(trees[i], sym) || InSome(SwapRemove(trees, i), sym)
  {
    hide StandsAt, Child, Occurs;
    SwapRemoveAt(heap, i);
    SwapRemoveAt(trees, i);
    forall sym: nat | InSome(trees, sym) ensures Occurs(trees[i], sym) || InSome(SwapRemove(trees, i), sym) {
      var k :| 0 <= k < |trees| && Occurs(trees[k], sym);
      if k != i {
        var r := SwapRemove(trees, i);
        assert r[if k == |trees| - 1 then i else k] == trees[k];
      }
    }
  }

  /** The order in which items leave the heap: by weight, and by age among equals. */
  predicate Sooner(a: Item, b: Item) {
    a.weight < b.weight || (a.weight == b.weight && a.order < b.order)
  }

  /** The lightest item, the oldest of several. */
  method PopMin(heap: seq<Item>) returns (item: Item, rest: seq<Item>, best: nat)
    requires heap != []
    ensures best < |heap| && item == heap[best] && rest == SwapRemove(heap, best)
    ensures forall k :: 0 <= k < |heap| ==> !Sooner(heap[k], item)
    ensures forall k :: 0 <= k < |heap| ==> item.weight <= heap[k].weight
  {
    best := 0;
    for i := 1 to |heap|
      invariant best < |heap|
      invariant forall k :: 0 <= k < i ==> !Sooner(heap[k], heap[best])
    {
      if heap[i].weight < heap[best].weight
         || (heap[i].weight == heap[best].weight && heap[i].order < heap[best].order)
      {
        best := i;
      }
    }
    item, rest := heap[best], SwapRemove(heap, best);
  }

  /** Merging the two lightest items keeps the heap standing. */
  lemma MergeStands(heap: seq<Item>, trees: seq<Tree>, nodes: seq<Pair>, f: Freqs, a: Item, b: Item, ta: Tree, tb: Tree,
                    order: nat)
    requires Stands(heap, trees, nodes, f)
    requires StandsAt(a, ta, nodes, f) && StandsAt(b, tb, nodes, f)
    requires Child(ta, f) <= b.weight && Child(tb, f) <= a.weight && a.weight <= b.weight
    requires forall i :: 0 <= i < |heap| ==> b.weight <= heap[i].weight && Child(trees[i], f) <= a.weight
    ensures Stands(heap + [Item(a.weight + b.weight, |nodes|, order)], trees + [Node(ta, tb)],
                   nodes + [Pair(a.node, b.node)], f)
  {
    hide Occurs, Balanced, Weight;
    var nodes' := nodes + [Pair(a.node, b.node)];
    var heap', trees' := heap + [Item(a.weight + b.weight, |nodes|, order)], trees + [Node(ta, tb)];
    forall i | 0 <= i < |heap'| ensures StandsAt(heap'[i], trees'[i], nodes', f) {
      if i < |heap| {
        assert StandsAt(heap[i], trees[i], nodes, f);
        RootsGrow(nodes, [Pair(a.node, b.node)], heap[i].node, trees[i]);
      } else {
        RootsGrow(nodes, [Pair(a.node, b.node)], a.node, ta);
        RootsGrow(nodes, [Pair(a.node, b.node)], b.node, tb);
        NodeStands(ta, tb, f);
      }
    }
    NodeStands(ta, tb, f);
  }

  lemma NodeStands(ta: Tree, tb: Tree, f: Freqs)
    requires Balanced(ta, f) && Balanced(tb, f)
    requires Child(ta, f) <= Weight(tb, f) && Child(tb, f) <= Weight(ta, f) && Weight(ta, f) <= Weight(tb, f)
    ensures Balanced(Node(ta, tb), f) && Weight(Node(ta, tb), f) == Weight(ta, f) + Weight(tb, f)
    ensures Child(Node(ta, tb), f) == Weight(tb, f)
  {
  }

  lemma MergeTotal(heap: seq<Item>, item: Item)
    ensures Total(Weights(heap + [item])) == Total(Weights(heap)) + item.weight
  {
    assert Weights(heap + [item]) == Weights(heap) + [item.weight];
    TotalSnoc(Weights(heap), item.weight);
  }

  lemma MergeInSome(trees: seq<Tree>, ta: Tree, tb: Tree)
    ensures forall sym: nat :: InSome(trees, sym) || Occurs(ta, sym) || Occurs(tb, sym) ==>
      InSome(trees + [Node(ta, tb)], sym)
  {
    var t := trees + [Node(ta, tb)];
    forall sym: nat | InSome(trees, sym) || Occurs(ta, sym) || Occurs(tb, sym) ensures InSome(t, sym) {
      if InSome(trees, sym) {
        var i :| 0 <= i < |trees| && Occurs(trees[i], sym);
        assert Occurs(t[i], sym);
      } else {
        assert t[|trees|] == Node(ta, tb) && Occurs(t[|trees|], sym);
      }
    }
  }

  // ----- the tree, without a heap

  /** The place of the first of the lightest trees. */
  function Lightest(line: seq<Tree>, f: Freqs): (i: nat)
    requires line != []
    ensures i < |line|
    ensures forall k :: 0 <= k < |line| ==> Weight(line[i], f) <= Weight(line[k], f)
    ensures forall k :: 0 <= k < i ==> Weight(line[i], f) < Weight(line[k], f)
  {
    var n := |line| - 1;
    if n == 0 then 0
    else
      var i := Lightest(line[..n], f);
      if Weight(line[n], f) < Weight(line[i], f) then n else i
  }

  function Without<T>(s: seq<T>, i: nat): (r: seq<T>)
    requires i < |s|
    ensures |r| == |s| - 1
  {
    s[..i] + s[i + 1..]
  }

  /** The two lightest, the first of several each time, leave the line, and their parent joins it at the end. */
  function Joined(line: seq<Tree>, f: Freqs): (r: seq<Tree>)
    requires |line| > 1
    ensures |r| == |line| - 1
  {
    var i := Lightest(line, f);
    var rest := Without(line, i);
    var j := Lightest(rest, f);
    Without(rest, j) + [Node(line[i], rest[j])]
  }

  function Huffman(line: seq<Tree>, f: Freqs): Tree
    requires line != []
    decreases |line|
  {
    if |line| == 1 then line[0] else Huffman(Joined(line, f), f)
  }

  /** A leaf for each of the first `n` symbols that occurs. */
  function UsedLeaves(f: Freqs, n: nat): (line: seq<Tree>)
    requires n <= |f|
    ensures |line| <= n
  {
    if n == 0 then [] else UsedLeaves(f, n - 1) + if f[n - 1] > 0 then [Leaf(n - 1)] else []
  }

  datatype Queued = Queued(item: Item, tree: Tree)

  function Zip(heap: seq<Item>, trees: seq<Tree>): (z: seq<Queued>)
    requires |heap| == |trees|
    ensures |z| == |heap|
    ensures forall k :: 0 <= k < |z| ==> z[k] == Queued(heap[k], trees[k])
  {
    seq(|heap|, k requires 0 <= k < |heap| => Queued(heap[k], trees[k]))
  }

  function TreesOf(queue: seq<Queued>): (line: seq<Tree>)
    ensures |line| == |queue|
    ensures forall k :: 0 <= k < |line| ==> line[k] == queue[k].tree
  {
    seq(|queue|, k requires 0 <= k < |queue| => queue[k].tree)
  }

  /** The heap holds what is queued, and the queue is by age. */
  ghost predicate InLine(heap: seq<Item>, trees: seq<Tree>, queue: seq<Queued>, order: nat, f: Freqs) {
    |heap| == |trees| && multiset(Zip(heap, trees)) == multiset(queue) && ByAge(queue, order, f)
  }

  ghost predicate ByAge(queue: seq<Queued>, order: nat, f: Freqs) {
    && (forall k :: 0 <= k < |queue| ==> queue[k].item.weight == Weight(queue[k].tree, f) && queue[k].item.order < order)
    && (forall k, l :: 0 <= k < l < |queue| ==> queue[k].item.order < queue[l].item.order)
  }

  lemma Among<T>(s: seq<T>, t: seq<T>, i: nat) returns (k: nat)
    requires multiset(s) == multiset(t) && i < |s|
    ensures k < |t| && t[k] == s[i]
  {
    assert s[i] in multiset(s);
    k :| k < |t| && t[k] == s[i];
  }

  lemma MinusOne<T>(s: seq<T>, i: nat)
    requires i < |s|
    ensures multiset(Without(s, i)) == multiset(s) - multiset{s[i]} == multiset(SwapRemove(s, i))
  {
    assert s == s[..i] + [s[i]] + s[i + 1..];
    var n := |s| - 1;
    var u := s[i := s[n]];
    if i < n {
      assert SwapRemove(s, i) == s[..i] + [s[n]] + s[i + 1..n];
      assert s[i + 1..] == s[i + 1..n] + [s[n]];
    } else {
      assert SwapRemove(s, i) == s[..i] && s[i + 1..] == [];
    }
  }

  /** The item that leaves the heap is the first of the lightest in line. */
  lemma FirstInLine(heap: seq<Item>, trees: seq<Tree>, queue: seq<Queued>, order: nat, f: Freqs, best: nat)
    returns (i: nat)
    requires InLine(heap, trees, queue, order, f) && Popped(heap, best)
    ensures |queue| == |heap| == |trees| && i == Lightest(TreesOf(queue), f)
    ensures queue[i] == Queued(heap[best], trees[best]) && heap[best].weight == Weight(trees[best], f)
    ensures InLine(SwapRemove(heap, best), SwapRemove(trees, best), Without(queue, i), order, f)
    ensures TreesOf(Without(queue, i)) == Without(TreesOf(queue), i)
  {
    hide Weight, SwapRemove;
    var z := Zip(heap, trees);
    assert |multiset(z)| == |z| && |multiset(queue)| == |queue|;
    i := Lightest(TreesOf(queue), f);
    var p := Among(z, queue, best);
    var q := Among(queue, z, i);
    assert !Sooner(heap[q], heap[best]);
    assert Weight(queue[i].tree, f) <= Weight(queue[p].tree, f) by { assert TreesOf(queue)[p] == queue[p].tree; }
    LeftInLine(heap, trees, queue, order, f, best, i);
  }

  lemma LeftInLine(heap: seq<Item>, trees: seq<Tree>, queue: seq<Queued>, order: nat, f: Freqs, best: nat, i: nat)
    requires InLine(heap, trees, queue, order, f) && best < |heap| && i < |queue|
    requires queue[i] == Queued(heap[best], trees[best])
    ensures InLine(SwapRemove(heap, best), SwapRemove(trees, best), Without(queue, i), order, f)
  {
    hide ByAge, SwapRemove, Without, Zip;
    ByAgeLeft(queue, order, f, i);
    MinusOne(Zip(heap, trees), best);
    MinusOne(queue, i);
    ZipRemoved(heap, trees, best);
  }

  lemma ZipRemoved(heap: seq<Item>, trees: seq<Tree>, i: nat)
    requires |heap| == |trees| && i < |heap|
    ensures Zip(SwapRemove(heap, i), SwapRemove(trees, i)) == SwapRemove(Zip(heap, trees), i)
  {
  }

  lemma ByAgeLeft(queue: seq<Queued>, order: nat, f: Freqs, i: nat)
    requires ByAge(queue, order, f) && i < |queue|
    ensures ByAge(Without(queue, i), order, f)
  {
    hide Weight;
  }

  lemma MoreInLine(heap: seq<Item>, trees: seq<Tree>, queue: seq<Queued>, order: nat, f: Freqs, item: Item, t: Tree)
    requires InLine(heap, trees, queue, order, f) && item.order == order && item.weight == Weight(t, f)
    ensures InLine(heap + [item], trees + [t], queue + [Queued(item, t)], order + 1, f)
    ensures TreesOf(queue + [Queued(item, t)]) == TreesOf(queue) + [t]
  {
    hide Weight;
    assert Zip(heap + [item], trees + [t]) == Zip(heap, trees) + [Queued(item, t)];
  }

  lemma NodeWeight(l: Tree, r: Tree, f: Freqs)
    ensures Weight(Node(l, r), f) == Weight(l, f) + Weight(r, f)
  {
  }

  /** One round of the heap is one round of the line. */
  lemma JoinedInLine(heap: seq<Item>, trees: seq<Tree>, queue: seq<Queued>, order: nat, f: Freqs, i: nat, j: nat,
                     node: int)
    returns (queue': seq<Queued>)
    requires InLine(heap, trees, queue, order, f) && |heap| > 1 && Popped(heap, i) && Popped(SwapRemove(heap, i), j)
    ensures |queue| == |heap| == |trees| && TreesOf(queue') == Joined(TreesOf(queue), f)
    ensures var h, t := SwapRemove(heap, i), SwapRemove(trees, i);
      InLine(SwapRemove(h, j) + [Item(heap[i].weight + h[j].weight, node, order)],
             SwapRemove(t, j) + [Node(trees[i], t[j])], queue', order + 1, f)
  {
    hide InLine, Weight, SwapRemove, Without, Sooner;
    var k := FirstInLine(heap, trees, queue, order, f, i);
    var h, t, rest := SwapRemove(heap, i), SwapRemove(trees, i), Without(queue, k);
    var l := FirstInLine(h, t, rest, order, f, j);
    var item := Item(heap[i].weight + h[j].weight, node, order);
    NodeWeight(trees[i], t[j], f);
    MoreInLine(SwapRemove(h, j), SwapRemove(t, j), Without(rest, l), order, f, item, Node(trees[i], t[j]));
    queue' := Without(rest, l) + [Queued(item, Node(trees[i], t[j]))];
    assert TreesOf(queue)[k] == trees[i] && TreesOf(rest)[l] == t[j];
  }

  ghost predicate Popped(heap: seq<Item>, best: nat) {
    best < |heap| && forall k :: 0 <= k < |heap| ==> !Sooner(heap[k], heap[best])
  }

  // ----- building the tree

  /** The table of a tree under construction: children come before their parents. */
  ghost predicate Earlier(nodes: seq<Pair>) {
    forall k :: 0 <= k < |nodes| ==> -NUM_SYMBOLS <= nodes[k].left < k && -NUM_SYMBOLS <= nodes[k].right < k
  }

  /** Every used symbol is somewhere in the heap, and no weight is lost. */
  ghost predicate Complete(heap: seq<Item>, trees: seq<Tree>, nodes: seq<Pair>, f: Freqs) {
    && Stands(heap, trees, nodes, f) && Earlier(nodes)
    && (forall i :: 0 <= i < |heap| ==> -NUM_SYMBOLS <= heap[i].node < |nodes|)
    && (forall s: nat :: s < |f| && f[s] > 0 ==> InSome(trees, s))
    && Total(Weights(heap)) == Total(f)
  }

  /** No symbol has two leaves, in one tree or in two. */
  ghost predicate Apart(trees: seq<Tree>) {
    && (forall i :: 0 <= i < |trees| ==> Once(trees[i]))
    && (forall i, j :: 0 <= i < |trees| && 0 <= j < |trees| && i != j ==> Disjoint(trees[i], trees[j]))
  }

  lemma ApartRemove(trees: seq<Tree>, i: nat)
    requires Apart(trees) && i < |trees|
    ensures Apart(SwapRemove(trees, i)) && Once(trees[i])
    ensures forall k :: 0 <= k < |trees| - 1 ==> Disjoint(trees[i], SwapRemove(trees, i)[k])
  {
    hide Once, Disjoint, SwapRemove;
    SwapRemoveAt(trees, i);
  }

  lemma ApartMore(trees: seq<Tree>, t: Tree)
    requires Apart(trees) && Once(t) && forall k :: 0 <= k < |trees| ==> Disjoint(t, trees[k])
    ensures Apart(trees + [t])
  {
    hide Once, Occurs;
  }

  lemma ApartMerge(trees: seq<Tree>, ta: Tree, tb: Tree)
    requires Apart(trees) && Once(ta) && Once(tb) && Disjoint(ta, tb)
    requires forall k :: 0 <= k < |trees| ==> Disjoint(ta, trees[k]) && Disjoint(tb, trees[k])
    ensures Apart(trees + [Node(ta, tb)])
  {
    forall k | 0 <= k < |trees| ensures Disjoint(Node(ta, tb), trees[k]) {
      assert Disjoint(ta, trees[k]) && Disjoint(tb, trees[k]);
    }
    ApartMore(trees, Node(ta, tb));
  }

  /** One leaf for every symbol that occurs. */
  method Leaves(f: Freqs) returns (heap: seq<Item>, ghost trees: seq<Tree>)
    requires |f| == NUM_SYMBOLS
    ensures Complete(heap, trees, [], f) && |heap| <= NUM_SYMBOLS
    ensures forall i :: 0 <= i < |heap| ==> trees[i].Leaf?
    ensures Apart(trees)
    ensures trees == UsedLeaves(f, NUM_SYMBOLS) && forall k :: 0 <= k < |heap| ==> heap[k].order == k
    ensures (exists s :: 0 <= s < |f| && f[s] > 0) ==> heap != []
  {
    hide Stands, Occurs, Total, UsedLeaves;
    heap, trees := [], [];
    NoItems(f);
    LeavesNext(f, 0);
    var order := 0;
    for sym := 0 to NUM_SYMBOLS
      invariant |heap| == |trees| == order <= sym
      invariant trees == UsedLeaves(f, sym) && forall k :: 0 <= k < |heap| ==> heap[k].order == k
      invariant Stands(heap, trees, [], f)
      invariant forall i :: 0 <= i < |heap| ==> trees[i].Leaf? && -NUM_SYMBOLS <= heap[i].node < 0
      invariant LeavesBelow(trees, sym)
      invariant forall s: nat :: s < sym && f[s] > 0 ==> InSome(trees, s)
      invariant Total(Weights(heap)) == Total(f[..sym])
    {
      assert f[..sym + 1] == f[..sym] + [f[sym]];
      TotalSnoc(f[..sym], f[sym]);
      LeavesNext(f, sym + 1);
      assert trees + [] == trees;
      if f[sym] > 0 {
        var item := Item(f[sym], -1 - sym, order);
        LeafStands(heap, trees, f, item, sym);
        MergeTotal(heap, item);
        InSomeMore(trees, Leaf(sym));
        LeafBelow(trees, sym);
        heap, trees := heap + [item], trees + [Leaf(sym)];
        order := order + 1;
      }
    }
    assert f[..NUM_SYMBOLS] == f;
    LeavesApart(trees, NUM_SYMBOLS);
    forall s | 0 <= s < |f| && f[s] > 0 ensures heap != [] {
      assert InSome(trees, s);
    }
  }

  lemma LeavesNext(f: Freqs, n: nat)
    requires n <= |f|
    ensures UsedLeaves(f, n) ==
      if n == 0 then [] else UsedLeaves(f, n - 1) + if f[n - 1] > 0 then [Leaf(n - 1)] else []
  {
  }

  /** Different leaves, all below `n`. */
  ghost predicate LeavesBelow(trees: seq<Tree>, n: nat) {
    && (forall i :: 0 <= i < |trees| ==> trees[i].Leaf? && trees[i].sym < n)
    && (forall i, j :: 0 <= i < j < |trees| ==> trees[i] != trees[j])
  }

  lemma LeafBelow(trees: seq<Tree>, n: nat)
    requires LeavesBelow(trees, n)
    ensures LeavesBelow(trees + [Leaf(n)], n + 1)
  {
  }

  lemma LeavesApart(trees: seq<Tree>, n: nat)
    requires LeavesBelow(trees, n)
    ensures Apart(trees)
  {
  }

  lemma NoItems(f: Freqs)
    ensures Stands([], [], [], f) && Total(Weights([])) == Total(f[..0]) == 0
  {
    assert f[..0] == [] && Weights([]) == [];
  }

  lemma LeafStands(heap: seq<Item>, trees: seq<Tree>, f: Freqs, item: Item, sym: nat)
    requires Stands(heap, trees, [], f) && forall i :: 0 <= i < |trees| ==> trees[i].Leaf?
    requires sym < |f| && item.weight == f[sym] > 0 && item.node == -1 - sym
    ensures Stands(heap + [item], trees + [Leaf(sym)], [], f) && Occurs(Leaf(sym), sym)
  {
    assert StandsAt(item, Leaf(sym), [], f);
  }

  lemma InSomeMore(trees: seq<Tree>, t: Tree)
    ensures forall s: nat :: InSome(trees, s) || Occurs(t, s) ==> InSome(trees + [t], s)
  {
    var more := trees + [t];
    forall s: nat | InSome(trees, s) || Occurs(t, s) ensures InSome(more, s) {
      if InSome(trees, s) {
        var i :| 0 <= i < |trees| && Occurs(trees[i], s);
        assert Occurs(more[i], s);
      } else {
        assert Occurs(more[|trees|], s);
      }
    }
  }

  /** Take the two lightest items and put their parent back. */
  method MergeTwo(heap: seq<Item>, nodes: seq<Pair>, f: Freqs, order: nat, ghost trees: seq<Tree>)
    returns (heap': seq<Item>, nodes': seq<Pair>, ghost trees': seq<Tree>, ghost i: nat, ghost j: nat)
    requires Complete(heap, trees, nodes, f) && Apart(trees) && |heap| > 1
    ensures Complete(heap', trees', nodes', f) && Apart(trees')
    ensures |trees| == |heap| && Popped(heap, i) && Popped(SwapRemove(heap, i), j)
    ensures var h, t := SwapRemove(heap, i), SwapRemove(trees, i);
      && heap' == SwapRemove(h, j) + [Item(heap[i].weight + h[j].weight, |nodes|, order)]
      && trees' == SwapRemove(t, j) + [Node(trees[i], t[j])]
    ensures |heap'| == |heap| - 1 && |nodes'| == |nodes| + 1
    ensures trees'[|heap'| - 1].Node? && heap'[|heap'| - 1].node == |nodes|
  {
    hide StandsAt, Child, Occurs, Total, Weight, SwapRemove, Sooner, Apart, Once, Disjoint;
    var a, h1, best := PopMin(heap);
    i := best;
    ApartRemove(trees, i);
    RemoveStands(heap, trees, nodes, f, i);
    SwapRemoveTotal(heap, i);
    SwapRemoveAt(heap, i);
    ghost var t1 := SwapRemove(trees, i);
    SwapRemoveAt(trees, i);
    var b, h2, next := PopMin(h1);
    j := next;
    RemoveStands(h1, t1, nodes, f, j);
    SwapRemoveTotal(h1, j);
    SwapRemoveAt(h1, j);
    ghost var t2 := SwapRemove(t1, j);
    ApartRemove(t1, j);
    SwapRemoveAt(t1, j);
    ghost var ta, tb := trees[i], t1[j];
    MergeStands(h2, t2, nodes, f, a, b, ta, tb, order);
    nodes' := nodes + [Pair(a.node, b.node)];
    heap' := h2 + [Item(a.weight + b.weight, |nodes|, order)];
    trees' := t2 + [Node(ta, tb)];
    MergeTotal(h2, Item(a.weight + b.weight, |nodes|, order));
    MergeInSome(t2, ta, tb);
    assert forall k :: 0 <= k < |t2| ==> t2[k] == t1[if k == j then |t1| - 1 else k];
    ApartMerge(t2, ta, tb);
  }

  /** Two leaves for the only symbol that occurs. */
  predicate Twin(t: Tree) {
    t.Node? && t.left.Leaf? && t.right == t.left
  }

  /** The merged tree: all used symbols, each once, and the whole weight; a single symbol is doubled. */
  ghost predicate Built(t: Tree, f: Freqs) {
    && t.Node?
    && (forall s: nat :: s < |f| && f[s] > 0 ==> Occurs(t, s))
    && (Twin(t) || (Balanced(t, f) && Weight(t, f) == Total(f) && Once(t)))
  }

  /** The tree that comes of merging the leaves, when there are two or more. */
  predicate Merged(t: Tree, f: Freqs) {
    var line := UsedLeaves(f, |f|);
    if |line| == 1 then t == Node(line[0], line[0]) else line != [] && t == Huffman(line, f)
  }

  lemma LeavesInLine(heap: seq<Item>, trees: seq<Tree>, f: Freqs) returns (queue: seq<Queued>)
    requires Stands(heap, trees, [], f) && forall k :: 0 <= k < |heap| ==> heap[k].order == k
    ensures |heap| == |trees| && InLine(heap, trees, queue, |heap|, f) && TreesOf(queue) == trees
  {
    hide Weight, Balanced, Child;
    queue := Zip(heap, trees);
    forall k | 0 <= k < |heap| ensures heap[k].weight == Weight(trees[k], f) {
      assert StandsAt(heap[k], trees[k], [], f);
    }
  }

  lemma LastInLine(heap: seq<Item>, trees: seq<Tree>, queue: seq<Queued>, order: nat, f: Freqs)
    requires InLine(heap, trees, queue, order, f) && |heap| == 1
    ensures TreesOf(queue) == trees
  {
    hide Weight;
    assert |multiset(Zip(heap, trees))| == 1 && |multiset(queue)| == |queue|;
    var k := Among(Zip(heap, trees), queue, 0);
  }

  lemma HuffmanRound(line: seq<Tree>, f: Freqs)
    requires |line| > 1
    ensures Huffman(line, f) == Huffman(Joined(line, f), f)
  {
    hide Joined;
  }

  lemma HuffmanEnds(line: seq<Tree>, f: Freqs)
    requires |line| == 1
    ensures Huffman(line, f) == line[0]
  {
  }

  /** The only symbol is doubled. */
  lemma OnlyLeaf(heap: seq<Item>, trees: seq<Tree>, f: Freqs)
    requires Complete(heap, trees, [], f) && |heap| == 1 && trees[0].Leaf? && trees == UsedLeaves(f, |f|)
    ensures var nodes, t := [Pair(heap[0].node, heap[0].node)], Node(trees[0], trees[0]);
      Earlier(nodes) && Roots(nodes, 0, t) && Built(t, f) && Merged(t, f)
  {
    hide Merged, Balanced, Once, Total, Weights, Child, Weight, UsedLeaves;
    assert StandsAt(heap[0], trees[0], [], f);
    forall s: nat | s < |f| && f[s] > 0 ensures Occurs(trees[0], s) {
      assert InSome(trees, s);
    }
    Doubled(trees, f);
  }

  lemma Doubled(line: seq<Tree>, f: Freqs)
    requires |line| == 1 && line == UsedLeaves(f, |f|)
    ensures Merged(Node(line[0], line[0]), f)
  {
    hide UsedLeaves;
  }

  /** The internal nodes, root last. */
  method BuildNodes(f: Freqs) returns (nodes: seq<Pair>, ghost t: Tree)
    requires |f| == NUM_SYMBOLS && exists s :: 0 <= s < |f| && f[s] > 0
    ensures 0 < |nodes| < NUM_SYMBOLS && Earlier(nodes)
    ensures Roots(nodes, |nodes| - 1, t) && Built(t, f) && Merged(t, f)
  {
    hide Roots, Stands, InLine, Huffman, Joined, UsedLeaves, Popped, Apart, Occurs, Total, Built, SwapRemove;
    var heap;
    ghost var trees;
    heap, trees := Leaves(f);
    nodes := [];
    if |heap| == 1 {
      OnlyLeaf(heap, trees, f);
      var only := heap[0].node;
      nodes := [Pair(only, only)];
      t := Node(trees[0], trees[0]);
      return;
    }
    ghost var n := |heap|;
    var order: nat := |heap|;
    ghost var queue := LeavesInLine(heap, trees, f);
    while |heap| > 1
      invariant Complete(heap, trees, nodes, f) && Apart(trees)
      invariant |queue| == |trees| == |heap| && InLine(heap, trees, queue, order, f)
      invariant Huffman(TreesOf(queue), f) == Huffman(UsedLeaves(f, NUM_SYMBOLS), f)
      invariant 1 <= |heap| && |heap| + |nodes| == n <= NUM_SYMBOLS
      invariant |heap| == 1 ==> trees[0].Node? && heap[0].node == |nodes| - 1
      decreases |heap|
    {
      HuffmanRound(TreesOf(queue), f);
      ghost var was, had := heap, trees;
      ghost var i, j;
      heap, nodes, trees, i, j := MergeTwo(heap, nodes, f, order, trees);
      queue := JoinedInLine(was, had, queue, order, f, i, j, |nodes| - 1);
      order := order + 1;
    }
    LastInLine(heap, trees, queue, order, f);
    HuffmanEnds(trees, f);
    t := trees[0];
    RootBuilt(heap, trees, nodes, f);
  }

  lemma RootBuilt(heap: seq<Item>, trees: seq<Tree>, nodes: seq<Pair>, f: Freqs)
    requires Complete(heap, trees, nodes, f) && Apart(trees) && |heap| == 1 && trees[0].Node?
    ensures Built(trees[0], f) && Roots(nodes, heap[0].node, trees[0])
  {
    hide Balanced, Occurs, Weight, Child, Once;
    assert StandsAt(heap[0], trees[0], nodes, f);
    assert Weights(heap) == [] + [heap[0].weight];
    TotalSnoc([], heap[0].weight);
    forall s: nat | s < |f| && f[s] > 0 ensures Occurs(trees[0], s) {
      assert InSome(trees, s);
    }
  }

  // ----- the table with the root first

  /** A child reference after renumbering. */
  function Renamed(m: seq<int>, ref: int): int {
    if 0 <= ref < |m| then m[ref] else ref
  }

  /** New numbers are below `n` and all different. */
  ghost predicate Numbering(m: seq<int>, n: nat, done: set<nat>) {
    && (forall k :: 0 <= k < |m| ==> -1 <= m[k] < n)
    && (forall j, k :: 0 <= j < k < |m| && m[j] >= 0 ==> m[j] != m[k])
    && (forall k: nat :: k in done <==> k < |m| && m[k] >= 0) && |done| == n
  }

  /** The entry of node `k` is in its place. */
  ghost predicate Entered(nodes: seq<Pair>, m: seq<int>, table: seq<Pair>, k: nat) {
    && k < |nodes| == |m| && 0 <= m[k] < |table|
    && table[m[k]] == Pair(Renamed(m, nodes[k].left), Renamed(m, nodes[k].right))
    && Renamed(m, nodes[k].left) < |table| && Renamed(m, nodes[k].right) < |table|
    && (nodes[k].left >= 0 ==> Renamed(m, nodes[k].left) >= 0)
    && (nodes[k].right >= 0 ==> Renamed(m, nodes[k].right) >= 0)
  }

  ghost predicate Progress(nodes: seq<Pair>, m: seq<int>, table: seq<Pair>, open: seq<nat>) {
    |m| == |nodes| && Waiting(m, open) && Settled(nodes, m, table, open)
  }

  /** The open nodes are different ones, and numbered. */
  ghost predicate Waiting(m: seq<int>, open: seq<nat>) {
    && (forall i :: 0 <= i < |open| ==> open[i] < |m| && m[open[i]] >= 0)
    && (forall i, j :: 0 <= i < j < |open| ==> open[i] != open[j])
  }

  /** All other numbered nodes have their entries. */
  ghost predicate Settled(nodes: seq<Pair>, m: seq<int>, table: seq<Pair>, open: seq<nat>) {
    forall k: nat :: k < |m| && m[k] >= 0 ==> k in open || Entered(nodes, m, table, k)
  }

  /** The new reference of a child; an unnumbered node gets the next number and waits on the stack. */
  method Resolve(child: int, remap: array<int>, table0: seq<Pair>, stack0: seq<nat>, ghost nodes: seq<Pair>,
                 ghost visit: nat, ghost done0: set<nat>)
    returns (ref: int, table: seq<Pair>, stack: seq<nat>, ghost done: set<nat>)
    requires child < remap.Length && Earlier(nodes)
    requires Numbering(remap[..], |table0|, done0) && Progress(nodes, remap[..], table0, stack0 + [visit])
    modifies remap
    ensures Numbering(remap[..], |table|, done) && Progress(nodes, remap[..], table, stack + [visit])
    ensures ref == Renamed(remap[..], child) && (child >= 0 ==> 0 <= ref < |table|)
    ensures forall k :: 0 <= k < remap.Length && old(remap[k]) >= 0 ==> remap[k] == old(remap[k])
    ensures |table0| <= |table| && table[..|table0|] == table0
    ensures |table| - |table0| == |stack| - |stack0|
    ensures InRange(table0) && table0 != [] ==> InRange(table)
  {
    hide Entered, Waiting, Settled, Earlier;
    table, stack, done := table0, stack0, done0;
    if child < 0 {
      ref := child;
    } else {
      if remap[child] < 0 {
        ghost var m := remap[..];
        remap[child] := |table|;
        table := table + [Pair(0, 0)];
        stack := stack + [child];
        done := done + {child};
        Numbered(nodes, m, table0, stack0, visit, child, done0);
        assert remap[..] == m[child := |table0|];
      }
      ref := remap[child];
    }
  }

  /** Numbering more nodes and appending entries leaves finished entries alone. */
  lemma EnteredKept(nodes: seq<Pair>, m: seq<int>, table: seq<Pair>, m': seq<int>, table': seq<Pair>, k: nat)
    requires Entered(nodes, m, table, k) && |m'| == |m| && |table| <= |table'| && table'[..|table|] == table
    requires forall i :: 0 <= i < |m| && m[i] >= 0 ==> m'[i] == m[i]
    requires nodes[k].left < |m| && nodes[k].right < |m|
    ensures Entered(nodes, m', table', k)
  {
    assert table'[m[k]] == table'[..|table|][m[k]];
  }

  lemma NumberedOne(m: seq<int>, n: nat, done: set<nat>, child: nat)
    requires child < |m| && m[child] < 0 && Numbering(m, n, done)
    ensures Numbering(m[child := n], n + 1, done + {child})
  {
  }

  lemma Numbered(nodes: seq<Pair>, m: seq<int>, table: seq<Pair>, stack: seq<nat>, visit: nat, child: nat, done: set<nat>)
    requires child < |m| && m[child] < 0 && Earlier(nodes)
    requires Numbering(m, |table|, done) && Progress(nodes, m, table, stack + [visit])
    ensures var m' := m[child := |table|];
      && Numbering(m', |table| + 1, done + {child})
      && Progress(nodes, m', table + [Pair(0, 0)], (stack + [child]) + [visit])
  {
    hide Entered, Waiting, Settled, Earlier, Numbering;
    NumberedOne(m, |table|, done, child);
    WaitingMore(m, stack, visit, child, |table|);
    SettledMore(nodes, m, table, stack, visit, child);
  }

  lemma WaitingMore(m: seq<int>, stack: seq<nat>, x: nat, child: nat, n: nat)
    requires child < |m| && m[child] < 0 && Waiting(m, stack + [x])
    ensures Waiting(m[child := n], (stack + [child]) + [x])
  {
    var open, open' := stack + [x], (stack + [child]) + [x];
    assert forall i :: 0 <= i < |stack| ==> open[i] == stack[i] && open'[i] == stack[i];
    assert open[|stack|] == x && open'[|stack| + 1] == x && open'[|stack|] == child;
  }

  lemma SettledMore(nodes: seq<Pair>, m: seq<int>, table: seq<Pair>, stack: seq<nat>, x: nat, child: nat)
    requires |m| == |nodes| && Earlier(nodes) && child < |m| && m[child] < 0
    requires Settled(nodes, m, table, stack + [x])
    ensures Settled(nodes, m[child := |table|], table + [Pair(0, 0)], (stack + [child]) + [x])
  {
    hide Entered;
    var m', table' := m[child := |table|], table + [Pair(0, 0)];
    var open' := (stack + [child]) + [x];
    OpenMore(stack, x, child);
    forall k: nat | k < |m'| && m'[k] >= 0 ensures k in open' || Entered(nodes, m', table', k) {
      if k !in open' {
        EnteredKept(nodes, m, table, m', table', k);
      }
    }
  }

  lemma OpenMore(stack: seq<nat>, x: nat, y: nat)
    ensures forall k :: k in (stack + [y]) + [x] <==> k == y || k in stack + [x]
  {
  }

  /** The entry of the node on top of the stack. */
  lemma EnteredNow(nodes: seq<Pair>, m: seq<int>, table: seq<Pair>, stack: seq<nat>, x: nat, done: set<nat>, p: Pair)
    requires Earlier(nodes) && Numbering(m, |table|, done) && Progress(nodes, m, table, stack + [x])
    requires x < |m| && p == Pair(Renamed(m, nodes[x].left), Renamed(m, nodes[x].right))
    requires nodes[x].left >= 0 ==> p.left >= 0
    requires nodes[x].right >= 0 ==> p.right >= 0
    requires p.left < |table| && p.right < |table|
    ensures 0 <= m[x] < |table|
    ensures Progress(nodes, m, table[m[x] := p], stack)
  {
    var open := stack + [x];
    assert open[|stack|] == x;
    var table' := table[m[x] := p];
    assert forall i :: 0 <= i < |stack| ==> open[i] == stack[i];
    forall k: nat | k < |m| && m[k] >= 0 ensures k in stack || Entered(nodes, m, table', k) {
      if k == x {
        assert Entered(nodes, m, table', x);
      } else if k !in stack {
        assert k !in open;
        assert Entered(nodes, m, table, k);
        assert m[k] != m[x];
      }
    }
  }

  lemma {:induction false} RootsRenamed(nodes: seq<Pair>, m: seq<int>, table: seq<Pair>, ref: int, t: Tree)
    requires Earlier(nodes) && Progress(nodes, m, table, []) && Roots(nodes, ref, t)
    requires 0 <= ref ==> ref < |m| && m[ref] >= 0
    ensures Roots(table, Renamed(m, ref), t)
    decreases t
  {
    if t.Node? {
      assert Entered(nodes, m, table, ref);
      RootsRenamed(nodes, m, table, nodes[ref].left, t.left);
      RootsRenamed(nodes, m, table, nodes[ref].right, t.right);
    }
  }

  lemma FewNumbers(m: seq<int>, n: nat, done: set<nat>)
    requires Numbering(m, n, done)
    ensures n <= |m|
  {
    var all := Below(|m|);
    SubsetSize(done, all);
  }

  /** Children are leaves for symbols or entries of the table. */
  predicate InRange(table: seq<Pair>) {
    forall k :: 0 <= k < |table| ==>
      -NUM_SYMBOLS <= table[k].left < |table| && -NUM_SYMBOLS <= table[k].right < |table|
  }

  /** Renumber in depth-first order so that the root comes first. */
  method Renumber(nodes: seq<Pair>) returns (table: seq<Pair>)
    requires 0 < |nodes| && Earlier(nodes)
    ensures 0 < |table| <= |nodes| && InRange(table)
    ensures forall t :: Roots(nodes, |nodes| - 1, t) ==> Roots(table, 0, t)
  {
    hide Progress, Numbering, Roots;
    var root := |nodes| - 1;
    var remap := new int[|nodes|](_ => -1);
    remap[root] := 0;
    table := [Pair(0, 0)];
    var stack: seq<nat> := [root];
    ghost var done: set<nat> := {root};
    FirstNumber(nodes, remap[..], root);
    while stack != []
      invariant Numbering(remap[..], |table|, done) && Progress(nodes, remap[..], table, stack)
      invariant remap[root] == 0 && 0 < |table| && InRange(table)
      decreases 2 * (|nodes| - |table|) + |stack|
    {
      FewNumbers(remap[..], |table|, done);
      TopWaits(nodes, remap[..], table, stack);
      var visit := stack[|stack| - 1];
      stack := stack[..|stack| - 1];
      var nl, nr;
      nl, table, stack, done := Resolve(nodes[visit].left, remap, table, stack, nodes, visit, done);
      ghost var left := Renamed(remap[..], nodes[visit].left);
      nr, table, stack, done := Resolve(nodes[visit].right, remap, table, stack, nodes, visit, done);
      FewNumbers(remap[..], |table|, done);
      EnteredNow(nodes, remap[..], table, stack, visit, done, Pair(nl, nr));
      table := table[remap[visit] := Pair(nl, nr)];
    }
    FewNumbers(remap[..], |table|, done);
    forall t | Roots(nodes, root, t) ensures Roots(table, 0, t) {
      RootsRenamed(nodes, remap[..], table, root, t);
    }
  }

  lemma FirstNumber(nodes: seq<Pair>, m: seq<int>, root: nat)
    requires root < |nodes| == |m| && m[root] == 0 && forall k :: 0 <= k < |m| && k != root ==> m[k] == -1
    ensures Numbering(m, 1, {root}) && Progress(nodes, m, [Pair(0, 0)], [root])
  {
  }

  lemma TopWaits(nodes: seq<Pair>, m: seq<int>, table: seq<Pair>, stack: seq<nat>)
    requires Progress(nodes, m, table, stack) && stack != []
    ensures stack[..|stack| - 1] + [stack[|stack| - 1]] == stack && stack[|stack| - 1] < |m|
  {
  }

  // ----- codes

  datatype Code = Code(bits: nat, len: nat)

  /** Turning right at every set bit leads from the root to a leaf for `sym`. */
  ghost predicate IsPath(t: Tree, path: seq<bool>, sym: nat)
    decreases t
  {
    match t
    case Leaf(s) => path == [] && s == sym
    case Node(l, r) => path != [] && IsPath(if path[0] then r else l, path[1..], sym)
  }

  /** The code is `prefix` and then some path to `sym`, of at most 32 bits. */
  ghost predicate PathCode(t: Tree, prefix: seq<bool>, c: Code, sym: nat) {
    c.len <= 32 && exists q :: IsPath(t, q, sym) && c == Code(Number(prefix + q), |prefix| + |q|)
  }

  lemma PathCodeUp(l: Tree, r: Tree, prefix: seq<bool>, right: bool, c: Code, sym: nat)
    requires PathCode(if right then r else l, prefix + [right], c, sym)
    ensures PathCode(Node(l, r), prefix, c, sym)
  {
    var q :| IsPath(if right then r else l, q, sym)
      && c == Code(Number((prefix + [right]) + q), |prefix + [right]| + |q|);
    assert (prefix + [right]) + q == prefix + ([right] + q);
    assert ([right] + q)[1..] == q;
    assert IsPath(Node(l, r), [right] + q, sym);
  }

  lemma {:induction false} NumberSnoc(b: seq<bool>, x: bool)
    ensures Number(b + [x]) == Number(b) + if x then Pow2(|b|) else 0
    decreases |b|
  {
    if b == [] {
      assert ([] + [x])[1..] == [];
    } else {
      assert (b + [x])[1..] == b[1..] + [x];
      NumberSnoc(b[1..], x);
    }
  }

  /** Walk the table from `node`, noting each leaf's code; depths over 32 are left out. */
  method Assign(table: seq<Pair>, node: int, bits: nat, len: nat, codes: array<Code>, ghost t: Tree,
                ghost prefix: seq<bool>)
    requires Roots(table, node, t) && |prefix| == len <= 32 && bits == Number(prefix)
    requires codes.Length == NUM_SYMBOLS
    modifies codes
    ensures forall s :: 0 <= s < NUM_SYMBOLS ==> codes[s] == old(codes[s]) || PathCode(t, prefix, codes[s], s)
    ensures forall s, q :: 0 <= s < NUM_SYMBOLS && IsPath(t, q, s) && len + |q| <= 32 ==>
      PathCode(t, prefix, codes[s], s)
    decreases t
  {
    hide PathCode, Number, Pow2;
    if node < 0 {
      var sym := -1 - node;
      LeafCode(t, prefix);
      if sym < codes.Length {
        codes[sym] := Code(bits, len);
      }
      return;
    }
    if len < 32 {
      NumberSnoc(prefix, false);
      NumberSnoc(prefix, true);
      ghost var l, r := t.left, t.right;
      Assign(table, table[node].left, bits, len + 1, codes, l, prefix + [false]);
      ghost var mid := codes[..];
      forall s | 0 <= s < NUM_SYMBOLS && PathCode(l, prefix + [false], codes[s], s)
        ensures PathCode(t, prefix, codes[s], s)
      {
        PathCodeUp(l, r, prefix, false, codes[s], s);
      }
      Assign(table, table[node].right, bits + Pow2(len), len + 1, codes, r, prefix + [true]);
      forall s | 0 <= s < NUM_SYMBOLS && PathCode(r, prefix + [true], codes[s], s)
        ensures PathCode(t, prefix, codes[s], s)
      {
        PathCodeUp(l, r, prefix, true, codes[s], s);
      }
      assert forall s :: 0 <= s < NUM_SYMBOLS ==> mid[s] == codes[s] || PathCode(t, prefix, codes[s], s);
    }
  }

  lemma LeafCode(t: Tree, prefix: seq<bool>)
    requires |prefix| <= 32
    ensures t.Leaf? ==> PathCode(t, prefix, Code(Number(prefix), |prefix|), t.sym)
  {
    if t.Leaf? {
      assert prefix + [] == prefix;
      assert IsPath(t, [], t.sym);
    }
  }

  /**
   A table and codes for one tree: a code is a path to its symbol, and a symbol without a code has no leaf within
   depth 32.
   */
  ghost predicate Coded(table: seq<Pair>, codes: seq<Code>, t: Tree, f: Freqs) {
    && 0 < |table| < NUM_SYMBOLS && InRange(table) && Roots(table, 0, t) && Built(t, f) && Merged(t, f)
    && |codes| == |f| == NUM_SYMBOLS
    && (forall s :: 0 <= s < NUM_SYMBOLS ==> codes[s] == Code(0, 0) || PathCode(t, [], codes[s], s))
    && (forall s, q :: 0 <= s < NUM_SYMBOLS && IsPath(t, q, s) && |q| <= 32 ==> PathCode(t, [], codes[s], s))
  }

  method BuildTree(f: Freqs) returns (table: seq<Pair>, codes: seq<Code>, ghost t: Tree)
    requires |f| == NUM_SYMBOLS && exists s :: 0 <= s < |f| && f[s] > 0
    ensures Coded(table, codes, t, f)
    ensures forall s :: 0 <= s < |codes| ==> codes[s].bits < Pow2(codes[s].len)
  {
    hide Roots, InRange, Earlier, PathCode, IsPath, Occurs, Pow2, Built, Merged;
    var nodes;
    nodes, t := BuildNodes(f);
    table := Renumber(nodes);
    var c := new Code[NUM_SYMBOLS](_ => Code(0, 0));
    Assign(table, 0, 0, 0, c, t, []);
    codes := c[..];
    forall s | 0 <= s < |codes| ensures codes[s].bits < Pow2(codes[s].len) {
      if PathCode(t, [], codes[s], s) {
        var q := PathOf(t, codes[s], s);
        BitsNumber(q);
      }
    }
  }

  lemma {:induction false} PathLength(t: Tree, path: seq<bool>, sym: nat)
    requires IsPath(t, path, sym)
    ensures |path| <= Height(t)
    decreases t
  {
    if t.Node? {
      PathLength(if path[0] then t.right else t.left, path[1..], sym);
    }
  }

  lemma PathOf(t: Tree, c: Code, sym: nat) returns (q: seq<bool>)
    requires PathCode(t, [], c, sym)
    ensures IsPath(t, q, sym) && c == Code(Number(q), |q|)
  {
    var prefix: seq<bool> := [];
    q :| IsPath(t, q, sym) && c == Code(Number(prefix + q), |prefix| + |q|);
    assert prefix + q == q;
  }

  /** A symbol's word is a path to it from the root; without a word the symbol has no leaf within depth 32. */
  lemma WordOf(table: seq<Pair>, codes: seq<Code>, t: Tree, f: Freqs, sym: nat)
    requires Coded(table, codes, t, f) && sym < NUM_SYMBOLS
    ensures var c := codes[sym];
      && c.bits < Pow2(c.len) && c.len <= 32
      && (c.len > 0 ==> IsPath(t, Bits(c.bits, c.len), sym))
      && (c.len == 0 ==> forall q :: IsPath(t, q, sym) ==> |q| > 32)
  {
    hide Roots, InRange, Pow2, Number, Bits, Built, Merged;
    if PathCode(t, [], codes[sym], sym) {
      assert t.Node? by { BuiltNode(t, f); }
      var q := PathOf(t, codes[sym], sym);
      BitsNumber(q);
    } else {
      assert Pow2(0) == 1 by { Pow2Next(0); }
    }
  }

  lemma BuiltNode(t: Tree, f: Freqs)
    requires Built(t, f)
    ensures t.Node?
  {
  }

  /** A used symbol has a leaf, hence a word of at most 25 bits if the total weight is below 317811. */
  lemma ShortWord(table: seq<Pair>, codes: seq<Code>, t: Tree, f: Freqs, sym: nat)
    requires Coded(table, codes, t, f) && sym < NUM_SYMBOLS && f[sym] > 0 && Total(f) < 317811
    ensures 0 < codes[sym].len <= 25
  {
    hide Roots, InRange, Pow2, Number, Bits, Balanced, Once, Merged;
    assert Height(t) <= 25 by {
      if !Twin(t) {
        DepthBound(t, f);
      }
    }
    hide Height;
    WordOf(table, codes, t, f, sym);
    PathToIs(t, sym);
    PathLength(t, PathTo(t, sym), sym);
    if codes[sym].len > 0 {
      PathLength(t, Bits(codes[sym].bits, codes[sym].len), sym);
    }
  }

  // ----- the one path to a symbol

  /** The path to a symbol that occurs, the rightmost of several. */
  function PathTo(t: Tree, sym: nat): seq<bool> {
    match t
    case Leaf(_) => []
    case Node(l, r) => if Occurs(r, sym) then [true] + PathTo(r, sym) else [false] + PathTo(l, sym)
  }

  lemma {:induction false} PathToIs(t: Tree, sym: nat)
    requires Occurs(t, sym)
    ensures IsPath(t, PathTo(t, sym), sym)
  {
    if t.Node? {
      var right := Occurs(t.right, sym);
      var child := if right then t.right else t.left;
      PathToIs(child, sym);
      assert ([right] + PathTo(child, sym))[1..] == PathTo(child, sym);
    }
  }

  lemma {:induction false} PathOccurs(t: Tree, path: seq<bool>, sym: nat)
    requires IsPath(t, path, sym)
    ensures Occurs(t, sym)
    decreases t
  {
    if t.Node? {
      PathOccurs(if path[0] then t.right else t.left, path[1..], sym);
    }
  }

  /** Where no symbol has two leaves there is only one path to each. */
  lemma {:induction false} PathUnique(t: Tree, path: seq<bool>, sym: nat)
    requires Once(t) && IsPath(t, path, sym)
    ensures path == PathTo(t, sym)
    decreases t
  {
    if t.Node? {
      var child := if path[0] then t.right else t.left;
      PathOccurs(child, path[1..], sym);
      PathUnique(child, path[1..], sym);
      assert path == [path[0]] + path[1..];
    }
  }
}
