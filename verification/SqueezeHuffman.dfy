/** The tree of ARC Squeeze is as good as a prefix code can be: no lengths that satisfy Kraft's inequality cost less. */
module SqueezeHuffman {
  import opened Words
  import opened BitStrings
  import opened SqueezeTree
  import opened SqueezeSpec
  import opened SqueezeExact

  // ----- sums

  function Dot(w: seq<nat>, x: seq<nat>): nat
    requires |w| == |x|
  {
    if w == [] then 0
    else Dot(w[..|w| - 1], x[..|w| - 1]) + w[|w| - 1] * x[|w| - 1]
  }

  lemma DotSnoc(w: seq<nat>, x: seq<nat>, u: nat, v: nat)
    requires |w| == |x|
    ensures Dot(w + [u], x + [v]) == Dot(w, x) + u * v
  {
    assert (w + [u])[..|w|] == w && (x + [v])[..|w|] == x;
  }

  lemma {:induction false} DotReplaced(w: seq<nat>, x: seq<nat>, i: nat, v: nat)
    requires |w| == |x| && i < |w|
    ensures Dot(w, x[i := v]) + w[i] * x[i] == Dot(w, x) + w[i] * v
    decreases |w|
  {
    var n := |w| - 1;
    if i < n {
      DotReplaced(w[..n], x[..n], i, v);
      assert x[i := v][..n] == x[..n][i := v];
    } else {
      assert x[i := v][..n] == x[..n];
    }
  }

  lemma WithoutShort<T>(s: seq<T>, i: nat)
    requires i < |s| - 1
    ensures Without(s, i)[..|s| - 2] == Without(s[..|s| - 1], i) && Without(s, i)[|s| - 2] == s[|s| - 1]
  {
  }

  lemma {:induction false} DotWithout(w: seq<nat>, x: seq<nat>, i: nat)
    requires |w| == |x| && i < |w|
    ensures Dot(w, x) == w[i] * x[i] + Dot(Without(w, i), Without(x, i))
    decreases |w|
  {
    var n := |w| - 1;
    if i < n {
      WithoutShort(w, i);
      WithoutShort(x, i);
      DotWithout(w[..n], x[..n], i);
    } else {
      assert Without(w, i) == w[..n] && Without(x, i) == x[..n];
    }
  }

  /** The room that codes of these lengths take up among 2^m. */
  function Room(x: seq<nat>, m: nat): nat
    requires forall k :: 0 <= k < |x| ==> x[k] <= m
  {
    if x == [] then 0 else Room(x[..|x| - 1], m) + Pow2(m - x[|x| - 1])
  }

  lemma RoomSnoc(x: seq<nat>, v: nat, m: nat)
    requires v <= m && forall k :: 0 <= k < |x| ==> x[k] <= m
    ensures Room(x + [v], m) == Room(x, m) + Pow2(m - v)
  {
    assert (x + [v])[..|x|] == x;
  }

  lemma {:induction false} RoomReplaced(x: seq<nat>, i: nat, v: nat, m: nat)
    requires v <= m && i < |x| && forall k :: 0 <= k < |x| ==> x[k] <= m
    ensures Room(x[i := v], m) == Room(x, m) - Pow2(m - x[i]) + Pow2(m - v)
    decreases |x|
  {
    var n := |x| - 1;
    if i < n {
      RoomReplaced(x[..n], i, v, m);
      assert x[i := v][..n] == x[..n][i := v];
    } else {
      assert x[i := v][..n] == x[..n];
    }
  }

  lemma {:induction false} RoomWithout(x: seq<nat>, i: nat, m: nat)
    requires i < |x| && forall k :: 0 <= k < |x| ==> x[k] <= m
    ensures Room(x, m) == Pow2(m - x[i]) + Room(Without(x, i), m)
    decreases |x|
  {
    var n := |x| - 1;
    if i < n {
      WithoutShort(x, i);
      RoomWithout(x[..n], i, m);
    } else {
      assert Without(x, i) == x[..n];
    }
  }

  /** Where no code is longer than `top`, the room taken is in units of the longest. */
  lemma {:induction false} RoomUnits(x: seq<nat>, top: nat, m: nat) returns (q: nat)
    requires top <= m && forall k :: 0 <= k < |x| ==> x[k] <= top
    ensures Room(x, m) == q * Pow2(m - top)
    decreases |x|
  {
    hide Pow2;
    if x == [] {
      q := 0;
    } else {
      var n := |x| - 1;
      q := RoomUnits(x[..n], top, m);
      Pow2Add(top - x[n], m - top);
      Distribute(q, Pow2(top - x[n]), Pow2(m - top));
      q := q + Pow2(top - x[n]);
    }
  }

  // ----- the longest code to the lightest

  function Longest(x: seq<nat>): (i: nat)
    requires x != []
    ensures i < |x| && forall k :: 0 <= k < |x| ==> x[k] <= x[i]
  {
    var n := |x| - 1;
    if n == 0 then 0
    else
      var i := Longest(x[..n]);
      if x[n] > x[i] then n else i
  }

  function Swapped(x: seq<nat>, i: nat, j: nat): (y: seq<nat>)
    requires i < |x| && j < |x|
    ensures |y| == |x|
  {
    x[i := x[j]][j := x[i]]
  }

  /** Giving the longest code to the lightest costs no more and takes no more room. */
  lemma SwapPays(w: seq<nat>, x: seq<nat>, i: nat, j: nat, m: nat)
    requires |w| == |x| && i < |w| && j < |w| && w[i] <= w[j] && x[i] <= x[j]
    requires forall k :: 0 <= k < |x| ==> x[k] <= m
    ensures var y := Swapped(x, i, j);
      && (forall k :: 0 <= k < |x| ==> y[k] <= m)
      && y[i] == x[j] && Dot(w, y) <= Dot(w, x) && Room(y, m) == Room(x, m)
  {
    hide Dot, Room, Pow2;
    var z := x[i := x[j]];
    DotReplaced(w, x, i, x[j]);
    RoomReplaced(x, i, x[j], m);
    DotReplaced(w, z, j, x[i]);
    RoomReplaced(z, j, x[i], m);
    if i != j {
      Crossed(w[i], w[j], x[i], x[j]);
    }
  }

  lemma Crossed(a: nat, b: nat, c: nat, d: nat)
    requires a <= b && c <= d
    ensures a * d + b * c <= a * c + b * d
  {
    var p, q := b - a, d - c;
    assert b * d == a * d + p * d && b * c == a * c + p * c;
    MulMonotone(c, d, p);
  }

  /** The lightest with the longest code, and the others. */
  lemma LightestLongest(w: seq<nat>, x: seq<nat>, i: nat, top: nat, m: nat) returns (l: nat, r: seq<nat>)
    requires |w| == |x| && i < |w| && (forall k :: 0 <= k < |w| ==> w[i] <= w[k])
    requires top <= m && forall k :: 0 <= k < |x| ==> x[k] <= top
    ensures |r| == |x| - 1 && l <= top && forall k :: 0 <= k < |r| ==> r[k] <= l
    ensures forall k :: 0 <= k < |x| ==> x[k] <= l
    ensures w[i] * l + Dot(Without(w, i), r) <= Dot(w, x) && Pow2(m - l) + Room(r, m) == Room(x, m)
  {
    hide Dot, Room, Pow2, Longest;
    var j := Longest(x);
    var y := Swapped(x, i, j);
    SwapPays(w, x, i, j, m);
    DotWithout(w, y, i);
    RoomWithout(y, i, m);
    l, r := y[i], Without(y, i);
  }

  /** If the longest code leaves room, it may as well be no longer than the next. */
  lemma Shortened(x: seq<nat>, top: nat, l: nat, m: nat)
    requires top <= l <= m && forall k :: 0 <= k < |x| ==> x[k] <= top
    requires Pow2(m - l) + Room(x, m) <= Pow2(m)
    ensures Pow2(m - top) + Room(x, m) <= Pow2(m)
  {
    hide Pow2, Room;
    var unit := Pow2(m - top);
    var q := RoomUnits(x, top, m);
    Pow2Add(top, m - top);
    if Pow2(top) <= q {
      MulMonotone(Pow2(top), q, unit);
    } else {
      MulMonotone(q + 1, Pow2(top), unit);
      Distribute(q, 1, unit);
    }
  }

  // ----- merging

  function WeightsOf(line: seq<Tree>, f: Freqs): (w: seq<nat>)
    ensures |w| == |line|
    ensures forall k :: 0 <= k < |w| ==> w[k] == Weight(line[k], f)
  {
    seq(|line|, k requires 0 <= k < |line| => Weight(line[k], f))
  }

  /** The weights of all nodes that merging makes. */
  function Merging(line: seq<Tree>, f: Freqs): nat
    requires line != []
    decreases |line|
  {
    if |line| == 1 then 0
    else
      var next := Joined(line, f);
      Weight(next[|next| - 1], f) + Merging(next, f)
  }

  lemma WeightsJoined(line: seq<Tree>, f: Freqs)
    requires |line| > 1
    ensures var i := Lightest(line, f);
      var rest, w := Without(line, i), WeightsOf(line, f);
      var j, v := Lightest(rest, f), Without(w, i);
      && |v| == |rest| && v == WeightsOf(rest, f)
      && WeightsOf(Joined(line, f), f) == Without(v, j) + [w[i] + v[j]]
  {
    hide Lightest, Weight, Without, WeightsOf;
    var i := Lightest(line, f);
    var rest := Without(line, i);
    var j := Lightest(rest, f);
    WeightsWithout(line, f, i);
    WeightsWithout(rest, f, j);
    WeightsSnoc(Without(rest, j), f, Node(line[i], rest[j]));
    NodeWeight(line[i], rest[j], f);
  }

  lemma WeightsWithout(line: seq<Tree>, f: Freqs, i: nat)
    requires i < |line|
    ensures Without(WeightsOf(line, f), i) == WeightsOf(Without(line, i), f)
  {
    hide Weight;
  }

  lemma WeightsSnoc(line: seq<Tree>, f: Freqs, t: Tree)
    ensures WeightsOf(line + [t], f) == WeightsOf(line, f) + [Weight(t, f)]
  {
    hide Weight;
  }

  /** One round: for any lengths of the line there are lengths of the joined line that cost less by the new node. */
  lemma Round(line: seq<Tree>, f: Freqs, x: seq<nat>, m: nat) returns (y: seq<nat>)
    requires |line| > 1 && |x| == |line| && (forall k :: 0 <= k < |x| ==> x[k] <= m) && Room(x, m) <= Pow2(m)
    ensures |y| == |line| - 1 && (forall k :: 0 <= k < |y| ==> y[k] <= m) && Room(y, m) <= Pow2(m)
    ensures var next := Joined(line, f);
      Dot(WeightsOf(next, f), y) + Weight(next[|next| - 1], f) <= Dot(WeightsOf(line, f), x)
  {
    hide Dot, Room, Pow2, Weight, Without, Joined;
    var w, i := WeightsOf(line, f), Lightest(line, f);
    var rest := Without(line, i);
    var v, j := Without(w, i), Lightest(rest, f);
    WeightsJoined(line, f);
    var l, r := LightestLongest(w, x, i, m, m);
    var top, rr := LightestLongest(v, r, j, l, m);
    Shortened(r, top, l, m);
    TwoFit(Room(rr, m), top, m);
    // both become one, a bit shorter
    y := rr + [top - 1];
    RoomSnoc(rr, top - 1, m);
    DotSnoc(Without(v, j), rr, w[i] + v[j], top - 1);
    Saved(w[i], v[j], l, top);
    NewNode(line, f);
  }

  lemma NewNode(line: seq<Tree>, f: Freqs)
    requires |line| > 1
    ensures var next, i := Joined(line, f), Lightest(line, f);
      var rest := Without(line, i);
      Weight(next[|next| - 1], f) == Weight(line[i], f) + Weight(rest[Lightest(rest, f)], f)
  {
  }

  lemma TwoFit(room: nat, top: nat, m: nat)
    requires top <= m && Pow2(m - top) + (Pow2(m - top) + room) <= Pow2(m)
    ensures top >= 1 && Pow2(m - (top - 1)) + room <= Pow2(m)
  {
  }

  lemma Saved(a: nat, b: nat, l: nat, top: nat)
    requires 1 <= top <= l
    ensures a * l + b * top >= (a + b) * (top - 1) + (a + b)
  {
    MulMonotone(top, l, a);
    Distribute(a, b, top);
    Distribute(top - 1, 1, a + b);
  }

  /** No lengths that satisfy Kraft's inequality cost less than merging. */
  lemma {:induction false} MergingOptimal(line: seq<Tree>, f: Freqs, x: seq<nat>, m: nat)
    requires line != [] && |x| == |line| && (forall k :: 0 <= k < |x| ==> x[k] <= m) && Room(x, m) <= Pow2(m)
    ensures Merging(line, f) <= Dot(WeightsOf(line, f), x)
    decreases |line|
  {
    if |line| > 1 {
      hide Dot, Room, Pow2, Weight, Joined;
      var y := Round(line, f, x, m);
      MergingOptimal(Joined(line, f), f, y, m);
    }
  }

  // ----- from merging to depths

  /** The weights of all nodes. */
  function NodesWeigh(t: Tree, f: Freqs): nat {
    match t
    case Leaf(_) => 0
    case Node(l, r) => NodesWeigh(l, f) + NodesWeigh(r, f) + Weight(t, f)
  }

  function NodesOf(line: seq<Tree>, f: Freqs): nat {
    if line == [] then 0 else NodesOf(line[..|line| - 1], f) + NodesWeigh(line[|line| - 1], f)
  }

  lemma {:induction false} NodesWithout(line: seq<Tree>, f: Freqs, i: nat)
    requires i < |line|
    ensures NodesOf(line, f) == NodesWeigh(line[i], f) + NodesOf(Without(line, i), f)
    decreases |line|
  {
    hide NodesWeigh;
    var n := |line| - 1;
    if i < n {
      WithoutShort(line, i);
      NodesWithout(line[..n], f, i);
    } else {
      assert Without(line, i) == line[..n];
    }
  }

  lemma {:induction false} HuffmanNodes(line: seq<Tree>, f: Freqs)
    requires line != []
    ensures NodesWeigh(Huffman(line, f), f) == NodesOf(line, f) + Merging(line, f)
    decreases |line|
  {
    hide NodesWeigh, Weight, Without, Lightest;
    if |line| == 1 {
      assert line[..0] == [] && NodesOf([], f) == 0;
    } else {
      var i := Lightest(line, f);
      var rest := Without(line, i);
      var j := Lightest(rest, f);
      NodesWithout(line, f, i);
      NodesWithout(rest, f, j);
      var next := Joined(line, f);
      assert next[..|next| - 1] == Without(rest, j);
      NodeNodes(line[i], rest[j], f);
      HuffmanNodes(next, f);
    }
  }

  lemma NodeNodes(l: Tree, r: Tree, f: Freqs)
    ensures NodesWeigh(Node(l, r), f) == NodesWeigh(l, f) + NodesWeigh(r, f) + Weight(Node(l, r), f)
  {
  }

  lemma {:induction false} LeavesNodes(f: Freqs, n: nat)
    requires n <= |f|
    ensures NodesOf(UsedLeaves(f, n), f) == 0
    decreases n
  {
    if n > 0 {
      LeavesNodes(f, n - 1);
      var line := UsedLeaves(f, n - 1);
      assert line + [] == line;
      assert (line + [Leaf(n - 1)])[..|line|] == line;
    }
  }

  /** How deep the leaf of each of the first `n` symbols is; nothing for the others. */
  function Depths(t: Tree, n: nat): (d: seq<nat>)
    ensures |d| == n
    ensures forall s :: 0 <= s < n ==> d[s] == if Occurs(t, s) then |PathTo(t, s)| else 0
  {
    if n == 0 then [] else Depths(t, n - 1) + [if Occurs(t, n - 1) then |PathTo(t, n - 1)| else 0]
  }

  function Marked(t: Tree, n: nat): (d: seq<nat>)
    ensures |d| == n
    ensures forall s :: 0 <= s < n ==> d[s] == if Occurs(t, s) then 1 else 0
  {
    if n == 0 then [] else Marked(t, n - 1) + [if Occurs(t, n - 1) then 1 else 0]
  }

  lemma {:induction false} DotAdds(w: seq<nat>, x: seq<nat>, y: seq<nat>, z: seq<nat>)
    requires |w| == |x| == |y| == |z| && forall k :: 0 <= k < |w| ==> x[k] == y[k] + z[k]
    ensures Dot(w, x) == Dot(w, y) + Dot(w, z)
    decreases |w|
  {
    if w != [] {
      var n := |w| - 1;
      DotAdds(w[..n], x[..n], y[..n], z[..n]);
      Distribute(y[n], z[n], w[n]);
    }
  }

  lemma {:induction false} DotZero(w: seq<nat>, x: seq<nat>)
    requires |w| == |x| && forall k :: 0 <= k < |x| ==> x[k] == 0
    ensures Dot(w, x) == 0
    decreases |w|
  {
    if w != [] {
      DotZero(w[..|w| - 1], x[..|w| - 1]);
    }
  }

  lemma LeafSums(f: Freqs, s: nat)
    ensures Dot(f, Marked(Leaf(s), |f|)) == FreqOf(f, s) && Dot(f, Depths(Leaf(s), |f|)) == 0
  {
    hide Dot;
    DotZero(f, Depths(Leaf(s), |f|));
    if s < |f| {
      var x := Marked(Leaf(s), |f|);
      DotReplaced(f, x, s, 0);
      DotZero(f, x[s := 0]);
    } else {
      DotZero(f, Marked(Leaf(s), |f|));
    }
  }

  lemma {:induction false} MarkedWeight(t: Tree, f: Freqs)
    requires Once(t)
    ensures Dot(f, Marked(t, |f|)) == Weight(t, f)
    decreases t
  {
    hide Dot;
    if t.Leaf? {
      LeafSums(f, t.sym);
    } else {
      MarkedWeight(t.left, f);
      MarkedWeight(t.right, f);
      DotAdds(f, Marked(t, |f|), Marked(t.left, |f|), Marked(t.right, |f|));
    }
  }

  /** The frequencies times the depths add up to the weights of the nodes. */
  lemma {:induction false} DepthsWeigh(t: Tree, f: Freqs)
    requires Once(t)
    ensures Dot(f, Depths(t, |f|)) == NodesWeigh(t, f)
    decreases t
  {
    hide Dot, Weight;
    var n := |f|;
    if t.Leaf? {
      LeafSums(f, t.sym);
    } else {
      DepthsWeigh(t.left, f);
      DepthsWeigh(t.right, f);
      MarkedWeight(t, f);
      var below := Below(Depths(t.left, n), Depths(t.right, n));
      DotAdds(f, below, Depths(t.left, n), Depths(t.right, n));
      DeeperByOne(t, n, below);
      DotAdds(f, Depths(t, n), below, Marked(t, n));
    }
  }

  function Below(x: seq<nat>, y: seq<nat>): (z: seq<nat>)
    requires |x| == |y|
    ensures |z| == |x| && forall k :: 0 <= k < |x| ==> z[k] == x[k] + y[k]
  {
    seq(|x|, k requires 0 <= k < |x| => x[k] + y[k])
  }

  lemma DeeperByOne(t: Tree, n: nat, below: seq<nat>)
    requires t.Node? && Once(t) && below == Below(Depths(t.left, n), Depths(t.right, n))
    ensures forall s :: 0 <= s < n ==> Depths(t, n)[s] == below[s] + Marked(t, n)[s]
  {
    forall s | 0 <= s < n ensures Depths(t, n)[s] == below[s] + Marked(t, n)[s] {
      assert Occurs(t.left, s) ==> !Occurs(t.right, s);
    }
  }

  // ----- over all symbols

  /** The lengths of those of the first `n` symbols that occur. */
  function Chosen(f: Freqs, x: seq<nat>, n: nat): (y: seq<nat>)
    requires n <= |f| == |x|
    ensures |y| == |UsedLeaves(f, n)| && forall k :: 0 <= k < |y| ==> y[k] in x
  {
    if n == 0 then [] else Chosen(f, x, n - 1) + if f[n - 1] > 0 then [x[n - 1]] else []
  }

  lemma {:induction false} ChosenCost(f: Freqs, x: seq<nat>, n: nat)
    requires n <= |f| == |x|
    ensures Dot(WeightsOf(UsedLeaves(f, n), f), Chosen(f, x, n)) == Dot(f[..n], x[..n])
    decreases n
  {
    hide Dot, WeightsOf, UsedLeaves, Chosen, Weight;
    LeavesNext(f, n);
    ChosenNext(f, x, n);
    if n > 0 {
      ChosenCost(f, x, n - 1);
      assert f[..n] == f[..n - 1] + [f[n - 1]] && x[..n] == x[..n - 1] + [x[n - 1]];
      DotSnoc(f[..n - 1], x[..n - 1], f[n - 1], x[n - 1]);
      var line, y := UsedLeaves(f, n - 1), Chosen(f, x, n - 1);
      LeafWeight(f, n - 1);
      WeightsSnoc(line, f, Leaf(n - 1));
      DotSnoc(WeightsOf(line, f), y, f[n - 1], x[n - 1]);
      assert line + [] == line && y + [] == y;
    } else {
      DotZero(f[..0], x[..0]);
      DotZero(WeightsOf([], f), []);
    }
  }

  lemma LeafWeight(f: Freqs, s: nat)
    requires s < |f|
    ensures Weight(Leaf(s), f) == f[s]
  {
  }

  lemma ChosenNext(f: Freqs, x: seq<nat>, n: nat)
    requires n <= |f| == |x|
    ensures Chosen(f, x, n) ==
      if n == 0 then [] else Chosen(f, x, n - 1) + if f[n - 1] > 0 then [x[n - 1]] else []
  {
  }

  /** Lengths a prefix code for the symbols that occur can have. */
  predicate Kraft(f: Freqs, x: seq<nat>, m: nat)
    requires |x| == |f|
  {
    && (forall s :: 0 <= s < |x| ==> x[s] <= m)
    && Room(Chosen(f, x, |f|), m) <= Pow2(m)
  }

  /** No prefix code for the symbols that occur is cheaper than the depths of the tree. */
  lemma TreeOptimal(t: Tree, f: Freqs, x: seq<nat>, m: nat)
    requires Merged(t, f) && Once(t) && |UsedLeaves(f, |f|)| > 1 && |x| == |f| && Kraft(f, x, m)
    ensures Dot(f, Depths(t, |f|)) <= Dot(f, x)
  {
    hide Dot, Room, Pow2, Merging, Huffman, NodesOf, NodesWeigh, UsedLeaves, Chosen;
    var line, y := UsedLeaves(f, |f|), Chosen(f, x, |f|);
    DepthsWeigh(t, f);
    HuffmanNodes(line, f);
    LeavesNodes(f, |f|);
    MergingOptimal(line, f, y, m);
    ChosenCost(f, x, |f|);
    assert f[..|f|] == f && x[..|f|] == x;
  }

  // ----- the payload

  lemma {:induction false} DotCommutes(w: seq<nat>, x: seq<nat>)
    requires |w| == |x|
    ensures Dot(w, x) == Dot(x, w)
  {
    if w != [] {
      DotCommutes(w[..|w| - 1], x[..|w| - 1]);
    }
  }

  /** Only the lengths of symbols that occur count. */
  lemma {:induction false} DotSame(w: seq<nat>, x: seq<nat>, y: seq<nat>)
    requires |w| == |x| == |y| && forall k :: 0 <= k < |w| ==> w[k] == 0 || x[k] == y[k]
    ensures Dot(w, x) == Dot(w, y)
    decreases |w|
  {
    if w != [] {
      var n := |w| - 1;
      DotSame(w[..n], x[..n], y[..n]);
    }
  }

  function Lengths(codes: seq<Code>): (x: seq<nat>)
    ensures |x| == |codes| && forall k :: 0 <= k < |x| ==> x[k] == codes[k].len
  {
    seq(|codes|, k requires 0 <= k < |codes| => codes[k].len)
  }

  /** All bits of a payload, the end marker's included. */
  lemma {:induction false} SentLength(codes: seq<Code>, s: seq<Byte>)
    requires |codes| == NUM_SYMBOLS && |s| < 0x1_0000_0000
    ensures |Coding(codes, s) + WordBits(codes, SPEOF)| == Dot(Lengths(codes), FreqsOf(s))
    decreases |s|
  {
    hide Dot, Bits;
    var x := Lengths(codes);
    if s == [] {
      hide FreqsOf;
      OnlyMarker();
      DotReplaced(x, FreqsOf(s), SPEOF, 0);
      DotZero(x, FreqsOf(s)[SPEOF := 0]);
    } else {
      var n := |s| - 1;
      var b: nat := s[n];
      var before := FreqsOf(s[..n]);
      SentLength(codes, s[..n]);
      assert s == s[..n] + [s[n]];
      TallyMore(s[..n], s[n], NUM_SYMBOLS);
      DotReplaced(x, before, b, before[b] + 1);
      Distribute(before[b], 1, codes[b].len);
    }
  }

  lemma OnlyMarker()
    ensures forall b :: 0 <= b < NUM_SYMBOLS ==> FreqsOf([])[b] == if b == SPEOF then 1 else 0
  {
    forall b | 0 <= b < NUM_SYMBOLS ensures FreqsOf([])[b] == if b == SPEOF then 1 else 0 {
      TallyAt([], NUM_SYMBOLS, b);
    }
  }

  lemma {:induction false} SomeLeaf(f: Freqs, s: nat, n: nat)
    requires s < n <= |f| && f[s] > 0
    ensures UsedLeaves(f, n) != []
    decreases n
  {
    if s < n - 1 {
      SomeLeaf(f, s, n - 1);
    }
  }

  lemma OnlyThat(t: Tree, sym: nat, other: nat)
    requires t.Node? && t.left == Leaf(sym) == t.right && other != sym
    ensures !Occurs(t, other)
  {
  }

  lemma TwoLeaves(s: seq<Byte>, table: seq<Pair>, codes: seq<Code>, t: Tree)
    requires Coded(table, codes, t, FreqsOf(s)) && 0 < |s| < 0x1_0000_0000
    ensures |UsedLeaves(FreqsOf(s), NUM_SYMBOLS)| > 1 && Once(t) && Merged(t, FreqsOf(s))
  {
    hide FreqsOf, Once, Merged, UsedLeaves;
    var f := FreqsOf(s);
    FreqPositive(s, SPEOF);
    FreqPositive(s, s[0]);
    SomeLeaf(f, s[0], SPEOF);
    LeavesNext(f, NUM_SYMBOLS);
    CodedNode(table, codes, t, f);
    if Twin(t) {
      TwinLeaf(s, table, codes, t);
      OnlyThat(t, SPEOF, s[0]);
    }
  }

  /** A symbol that counts is sent. */
  lemma SentOnly(s: seq<Byte>, codes: seq<Code>, b: nat)
    requires Worded(codes, s) && b < NUM_SYMBOLS && FreqsOf(s)[b] > 0
    ensures codes[b].len > 0
  {
    TallyAt(s, NUM_SYMBOLS, b);
    if b != SPEOF {
      Somewhere(s, b);
    }
  }

  lemma {:induction false} Somewhere(s: seq<Byte>, b: nat)
    requires Count(s, b) > 0
    ensures exists i :: 0 <= i < |s| && s[i] == b
    decreases |s|
  {
    var n := |s| - 1;
    if s[n] != b {
      Somewhere(s[..n], b);
      var i :| 0 <= i < n && s[..n][i] == b;
      assert s[i] == b;
    }
  }

  /**
   No prefix code for the bytes sent, whatever lengths it has, makes the coded bytes and the end marker shorter than the
   payload has them.
   */
  lemma ShortestPayload(s: seq<Byte>, table: seq<Pair>, codes: seq<Code>, t: Tree, x: seq<nat>, m: nat)
    requires Coded(table, codes, t, FreqsOf(s)) && Worded(codes, s) && 0 < |s| < 0x1_0000_0000
    requires |x| == NUM_SYMBOLS && Kraft(FreqsOf(s), x, m)
    ensures |Coding(codes, s) + WordBits(codes, SPEOF)| <= Dot(FreqsOf(s), x)
  {
    hide Dot, Coding, Kraft, FreqsOf, Once, Occurs, PathTo, Merged, Bits, Twin;
    var f := FreqsOf(s);
    TwoLeaves(s, table, codes, t);
    SentLength(codes, s);
    DotCommutes(Lengths(codes), f);
    forall b | 0 <= b < NUM_SYMBOLS ensures f[b] == 0 || Lengths(codes)[b] == Depths(t, NUM_SYMBOLS)[b] {
      if f[b] > 0 {
        SentOnly(s, codes, b);
        WordPath(table, codes, t, f, b);
      }
    }
    DotSame(f, Lengths(codes), Depths(t, NUM_SYMBOLS));
    TreeOptimal(t, f, x, m);
  }
}
