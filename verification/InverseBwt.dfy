/**
 The inverse Burrows-Wheeler transform of the Arsenic decoder: a stable counting sort of the last column, and a walk
 along the permutation it yields.
 */
module InverseBwt {
  import opened Words

  // ----- order and permutations

  /** Lexicographic order on byte strings of equal length. */
  predicate Le(a: seq<Byte>, b: seq<Byte>) {
    if a == [] || b == [] then true
    else a[0] < b[0] || (a[0] == b[0] && Le(a[1..], b[1..]))
  }

  lemma {:induction false} LeAntisymmetric(a: seq<Byte>, b: seq<Byte>)
    requires |a| == |b| && Le(a, b) && Le(b, a)
    ensures a == b
    decreases |a|
  {
    if a != [] {
      LeAntisymmetric(a[1..], b[1..]);
      assert a == [a[0]] + a[1..] && b == [b[0]] + b[1..];
    }
  }

  lemma {:induction false} LeReflexive(a: seq<Byte>)
    ensures Le(a, a)
    decreases |a|
  {
    if a != [] {
      LeReflexive(a[1..]);
    }
  }

  lemma {:induction false} LeTransitive(a: seq<Byte>, b: seq<Byte>, c: seq<Byte>)
    requires |a| == |b| == |c| && Le(a, b) && Le(b, c)
    ensures Le(a, c)
    decreases |a|
  {
    if a != [] && a[0] == b[0] == c[0] {
      LeTransitive(a[1..], b[1..], c[1..]);
    }
  }

  lemma {:induction false} LePrefix(a: seq<Byte>, b: seq<Byte>)
    requires |a| == |b| > 0 && Le(a, b)
    ensures Le(a[..|a| - 1], b[..|b| - 1])
    decreases |a|
  {
    if |a| > 1 && a[0] == b[0] {
      LePrefix(a[1..], b[1..]);
      assert a[..|a| - 1][1..] == a[1..][..|a| - 2];
      assert b[..|b| - 1][1..] == b[1..][..|b| - 2];
    }
  }

  ghost predicate Injective(s: seq<nat>) {
    forall i, j :: 0 <= i < j < |s| ==> s[i] != s[j]
  }

  ghost predicate Below(s: seq<nat>, n: nat) {
    forall i :: 0 <= i < |s| ==> s[i] < n
  }

  /** A permutation of `0 .. n - 1`. */
  ghost predicate Permutation(s: seq<nat>, n: nat) {
    |s| == n && Injective(s) && Below(s, n)
  }

  /** Pigeons: distinct numbers below `n` are at most `n` many. */
  lemma {:induction false} Pigeons(s: seq<nat>, n: nat)
    requires Injective(s) && Below(s, n)
    ensures |s| <= n
    decreases n
  {
    if |s| > 0 {
      assert s[0] < n;
      if i :| 0 <= i < |s| && s[i] == n - 1 {
        Pigeons(s[..i] + s[i + 1..], n - 1);
      } else {
        Pigeons(s, n - 1);
      }
    }
  }

  /** A permutation takes every value. */
  lemma Onto(s: seq<nat>, n: nat, v: nat)
    requires Permutation(s, n) && v < n
    ensures exists i :: 0 <= i < n && s[i] == v
  {
    if forall i :: 0 <= i < n ==> s[i] != v {
      Pigeons(s + [v], n);
    }
  }

  ghost predicate Ascending(rows: seq<seq<Byte>>, n: nat) {
    && (forall i :: 0 <= i < |rows| ==> |rows[i]| == n)
    && forall i, j :: 0 <= i <= j < |rows| ==> Le(rows[i], rows[j])
  }

  /** Two ascending lists of the same strings are the same list. */
  lemma AscendingUnique(a: seq<seq<Byte>>, b: seq<seq<Byte>>, n: nat, p: seq<nat>, r: nat)
    requires |a| == |b| && Ascending(a, n) && Ascending(b, n)
    requires Permutation(p, |a|) && forall i :: 0 <= i < |a| ==> b[i] == a[p[i]]
    requires r < |a|
    ensures a[r] == b[r]
  {
    if forall i :: 0 <= i <= r ==> p[i] < r {
      Pigeons(p[..r + 1], r);
    }
    var i :| 0 <= i <= r && p[i] >= r;
    assert Le(a[r], a[p[i]]) && Le(b[i], b[r]);
    LeTransitive(a[r], b[i], b[r]);
    if forall k :: r <= k < |p| ==> p[k] > r {
      var q := seq(|p| - r, x requires 0 <= x < |p| - r => p[r + x] - (r + 1));
      Pigeons(q, |p| - r - 1);
    }
    var j :| r <= j < |p| && p[j] <= r;
    assert Le(a[p[j]], a[r]) && Le(b[r], b[j]);
    LeTransitive(b[r], b[j], a[r]);
    LeAntisymmetric(a[r], b[r]);
  }

  // ----- rotations and the last column

  function Rotation(t: seq<Byte>, k: nat): (r: seq<Byte>)
    requires k < |t|
    ensures |r| == |t|
  {
    t[k..] + t[..k]
  }

  /** `sa` lists the starts of the rotations of `t` in sorted order; equal rotations may come in any order. */
  ghost predicate SortedRotations(t: seq<Byte>, sa: seq<nat>) {
    && Permutation(sa, |t|)
    && forall i, j :: 0 <= i <= j < |t| ==> Le(Rotation(t, sa[i]), Rotation(t, sa[j]))
  }

  /** The last byte of every sorted rotation. */
  function LastColumn(t: seq<Byte>, sa: seq<nat>): (l: seq<Byte>)
    requires Below(sa, |t|)
    ensures |l| == |sa|
  {
    seq(|sa|, r requires 0 <= r < |sa| => Rotation(t, sa[r])[|t| - 1])
  }

  /** A rotation started one byte earlier. */
  function Earlier(k: nat, n: nat): nat
    requires k < n
  {
    if k == 0 then n - 1 else k - 1
  }

  lemma EarlierRotation(t: seq<Byte>, k: nat)
    requires k < |t|
    ensures var r := Rotation(t, k); Rotation(t, Earlier(k, |t|)) == [r[|t| - 1]] + r[..|t| - 1]
  {
  }

  // ----- stable sorting

  /** `next` lists the positions of `block` in stable order of their bytes. */
  ghost predicate StableSort(block: seq<Byte>, next: seq<nat>) {
    && Permutation(next, |block|)
    && forall i, j :: 0 <= i < j < |block| ==>
      block[next[i]] < block[next[j]] || (block[next[i]] == block[next[j]] && next[i] < next[j])
  }

  /** Sorting the last column links every row to its left rotation. */
  lemma RowLink(t: seq<Byte>, sa: seq<nat>, next: seq<nat>, r: nat)
    requires SortedRotations(t, sa) && StableSort(LastColumn(t, sa), next) && r < |t|
    ensures Rotation(t, Earlier(sa[next[r]], |t|)) == Rotation(t, sa[r])
  {
    var n := |t|;
    var a := seq(n, i requires 0 <= i < n => Rotation(t, sa[i]));
    var b := seq(n, i requires 0 <= i < n => Rotation(t, Earlier(sa[next[i]], n)));
    forall i, j | 0 <= i <= j < n ensures Le(b[i], b[j]) {
      EarlierRotation(t, sa[next[i]]);
      EarlierRotation(t, sa[next[j]]);
      var x, y := Rotation(t, sa[next[i]]), Rotation(t, sa[next[j]]);
      if i == j {
        LeReflexive(b[i]);
      } else if x[n - 1] == y[n - 1] {
        LePrefix(x, y);
        assert b[i][1..] == x[..n - 1] && b[j][1..] == y[..n - 1];
      }
    }
    var p := RowPermutation(sa, next, n);
    AscendingUnique(a, b, n, p, r);
  }

  lemma RowPermutation(sa: seq<nat>, next: seq<nat>, n: nat) returns (p: seq<nat>)
    requires Permutation(sa, n) && Permutation(next, n)
    ensures Permutation(p, n) && forall i :: 0 <= i < n ==> sa[p[i]] == Earlier(sa[next[i]], n)
  {
    p := [];
    while |p| < n
      invariant |p| <= n && Below(p, n)
      invariant forall i :: 0 <= i < |p| ==> sa[p[i]] == Earlier(sa[next[i]], n)
    {
      Onto(sa, n, Earlier(sa[next[|p|]], n));
      var q :| 0 <= q < n && sa[q] == Earlier(sa[next[|p|]], n);
      p := p + [q];
    }
    forall i, j | 0 <= i < j < n ensures p[i] != p[j] {
      assert next[i] != next[j];
      assert sa[next[i]] != sa[next[j]];
    }
  }

  // ----- the walk

  /** The first `k` bytes of the walk from row `row`. */
  function Walk(block: seq<Byte>, next: seq<nat>, row: nat, k: nat): seq<Byte>
    requires |next| == |block| && Below(next, |block|) && row < |block|
    decreases k
  {
    if k == 0 then [] else [block[next[row]]] + Walk(block, next, next[row], k - 1)
  }

  /** From the row of the rotation by `from`, the walk spells the text out from there. */
  lemma {:induction false} WalkSpells(t: seq<Byte>, sa: seq<nat>, next: seq<nat>, row: nat, from: nat)
    requires SortedRotations(t, sa) && StableSort(LastColumn(t, sa), next)
    requires row < |t| && from < |t| && Rotation(t, sa[row]) == Rotation(t, from)
    ensures Walk(LastColumn(t, sa), next, row, |t| - from) == t[from..]
    decreases |t| - from
  {
    var n := |t|;
    RowLink(t, sa, next, row);
    EarlierRotation(t, sa[next[row]]);
    assert Rotation(t, from)[0] == t[from];
    if from + 1 < n {
      EarlierRotation(t, from + 1);
      LeftUnique(Rotation(t, sa[next[row]]), Rotation(t, from + 1));
      WalkSpells(t, sa, next, next[row], from + 1);
      assert t[from..] == [t[from]] + t[from + 1..];
    }
  }

  /** Moving the last byte to the front loses nothing. */
  lemma LeftUnique(r: seq<Byte>, s: seq<Byte>)
    requires |r| == |s| > 0
    requires [r[|r| - 1]] + r[..|r| - 1] == [s[|s| - 1]] + s[..|s| - 1]
    ensures r == s
  {
    var n := |r| - 1;
    HeadTail([r[n]], r[..n]);
    HeadTail([s[n]], s[..n]);
    assert r == r[..n] + [r[n]] && s == s[..n] + [s[n]];
  }

  // ----- the counting sort

  /** The bytes of `s` below `v`, or equal to it. */
  function CountBelow(s: seq<Byte>, v: int): (c: nat)
    ensures c <= |s|
  {
    if s == [] then 0 else CountBelow(s[..|s| - 1], v) + (if s[|s| - 1] < v then 1 else 0)
  }

  function CountEqual(s: seq<Byte>, v: int): (c: nat)
    ensures c <= |s|
  {
    if s == [] then 0 else CountEqual(s[..|s| - 1], v) + (if s[|s| - 1] == v then 1 else 0)
  }

  lemma {:induction false} CountNext(s: seq<Byte>, v: int)
    ensures CountBelow(s, v + 1) == CountBelow(s, v) + CountEqual(s, v)
    decreases |s|
  {
    if s != [] {
      CountNext(s[..|s| - 1], v);
    }
  }

  lemma {:induction false} CountEnds(s: seq<Byte>)
    ensures CountBelow(s, 0) == 0 && CountBelow(s, 0x100) == |s|
    decreases |s|
  {
    if s != [] {
      CountEnds(s[..|s| - 1]);
    }
  }

  lemma {:induction false} CountBelowMono(s: seq<Byte>, u: int, v: int)
    requires u <= v
    ensures CountBelow(s, u) <= CountBelow(s, v)
    decreases |s|
  {
    if s != [] {
      CountBelowMono(s[..|s| - 1], u, v);
    }
  }

  lemma {:induction false} CountEqualMono(s: seq<Byte>, i: nat, j: nat, v: int)
    requires i <= j <= |s|
    ensures CountEqual(s[..i], v) <= CountEqual(s[..j], v)
    decreases j
  {
    if i < j {
      CountEqualMono(s, i, j - 1, v);
      assert s[..j][..j - 1] == s[..j - 1];
    }
  }

  /** Where position `i` goes: after all smaller bytes and the earlier equal ones. */
  function Place(s: seq<Byte>, i: nat): nat
    requires i < |s|
  {
    CountBelow(s, s[i]) + CountEqual(s[..i], s[i])
  }

  lemma PlaceBelow(s: seq<Byte>, i: nat, v: int)
    requires i < |s| && s[i] < v
    ensures Place(s, i) < CountBelow(s, v)
  {
    assert s[..i + 1][..i] == s[..i];
    CountEqualMono(s, i + 1, |s|, s[i]);
    assert s[..|s|] == s;
    var b: int := s[i];
    CountNext(s, b);
    CountBelowMono(s, b + 1, v);
  }

  lemma PlaceOrder(s: seq<Byte>, i: nat, j: nat)
    requires i < |s| && j < |s|
    requires s[i] < s[j] || (s[i] == s[j] && i < j)
    ensures Place(s, i) < Place(s, j)
  {
    if s[i] < s[j] {
      PlaceBelow(s, i, s[j]);
    } else {
      assert s[..i + 1][..i] == s[..i];
      CountEqualMono(s, i + 1, j, s[i]);
    }
  }

  function Places(s: seq<Byte>): (p: seq<nat>)
    ensures |p| == |s|
  {
    seq(|s|, i requires 0 <= i < |s| => Place(s, i))
  }

  lemma PlacesPermutation(s: seq<Byte>)
    ensures Permutation(Places(s), |s|)
  {
    CountEnds(s);
    forall i | 0 <= i < |s| ensures Place(s, i) < |s| {
      PlaceBelow(s, i, 0x100);
    }
    forall i, j | 0 <= i < j < |s| ensures Place(s, i) != Place(s, j) {
      if s[j] < s[i] {
        PlaceOrder(s, j, i);
      } else {
        PlaceOrder(s, i, j);
      }
    }
  }

  /** A table with every position at its place is the stable sort. */
  lemma PlacedSorted(s: seq<Byte>, next: seq<nat>)
    requires |next| == |s|
    requires forall i :: 0 <= i < |s| ==> Place(s, i) < |s| && next[Place(s, i)] == i
    ensures StableSort(s, next)
  {
    var p := Places(s);
    PlacesPermutation(s);
    forall r | 0 <= r < |s| ensures next[r] < |s| && Place(s, next[r]) == r {
      Onto(p, |s|, r);
      var i :| 0 <= i < |s| && p[i] == r;
      assert Place(s, i) == r;
    }
    forall r, q | 0 <= r < q < |s|
      ensures next[r] != next[q]
      ensures s[next[r]] < s[next[q]] || (s[next[r]] == s[next[q]] && next[r] < next[q])
    {
      if s[next[q]] < s[next[r]] || (s[next[q]] == s[next[r]] && next[q] < next[r]) {
        PlaceOrder(s, next[q], next[r]);
      }
    }
  }

  /** How often each byte value occurs. */
  method Histogram(block: seq<Byte>) returns (counts: array<nat>)
    ensures counts.Length == 0x100
    ensures forall v :: 0 <= v < 0x100 ==> counts[v] == CountEqual(block, v)
  {
    counts := new nat[0x100](_ => 0);
    for i := 0 to |block|
      invariant forall v :: 0 <= v < 0x100 ==> counts[v] == CountEqual(block[..i], v)
    {
      var b: int := block[i];
      assert block[..i + 1][..i] == block[..i];
      counts[b] := counts[b] + 1;
    }
    assert block[..|block|] == block;
  }

  /** Running totals: where each byte value starts. */
  method Bases(block: seq<Byte>, counts: array<nat>) returns (base: array<nat>)
    requires counts.Length == 0x100
    requires forall v :: 0 <= v < 0x100 ==> counts[v] == CountEqual(block, v)
    ensures base.Length == 0x100
    ensures forall v :: 0 <= v < 0x100 ==> base[v] == CountBelow(block, v)
  {
    hide CountBelow, CountEqual;
    base := new nat[0x100](_ => 0);
    var acc := 0;
    CountEnds(block);
    for v := 0 to 0x100
      invariant acc == CountBelow(block, v)
      invariant forall u :: 0 <= u < v ==> base[u] == CountBelow(block, u)
      invariant forall u :: 0 <= u < 0x100 ==> counts[u] == CountEqual(block, u)
    {
      CountNext(block, v);
      base[v] := acc;
      acc := acc + counts[v];
    }
  }

  /** Histogram, running totals, and one pass that puts every position at its place. */
  method CountingSort(block: seq<Byte>) returns (next: seq<nat>)
    ensures StableSort(block, next)
  {
    hide StableSort, CountBelow;
    var n := |block|;
    var counts := Histogram(block);
    var base := Bases(block, counts);
    var transform := new nat[n](_ => 0);
    var seen := new nat[0x100](_ => 0);
    PlacesPermutation(block);
    for i := 0 to n
      invariant forall v :: 0 <= v < 0x100 ==> base[v] == CountBelow(block, v)
      invariant forall v :: 0 <= v < 0x100 ==> seen[v] == CountEqual(block[..i], v)
      invariant forall k :: 0 <= k < i ==> Places(block)[k] < n && transform[Places(block)[k]] == k
    {
      var v: int := block[i];
      var pos := base[v] + seen[v];
      assert pos == Places(block)[i];
      assert block[..i + 1][..i] == block[..i];
      transform[pos] := i;
      seen[v] := seen[v] + 1;
    }
    next := transform[..];
    assert forall k :: 0 <= k < n ==> Places(block)[k] == Place(block, k);
    PlacedSorted(block, next);
  }

  /** Undo the transform of one block from its primary row. */
  method Inverse(block: seq<Byte>, primary: nat) returns (text: seq<Byte>)
    requires primary < |block|
    ensures |text| == |block|
    ensures forall t, sa ::
      SortedRotations(t, sa) && block == LastColumn(t, sa) && Rotation(t, sa[primary]) == t ==> text == t
  {
    var next := CountingSort(block);
    var n: nat := |block|;
    assert |next| == n && Below(next, n);
    hide StableSort, Below, LastColumn, Rotation, SortedRotations;
    var idx := primary;
    text := [];
    assert [] + Walk(block, next, idx, n) == Walk(block, next, idx, n);
    for k := 0 to n
      invariant |text| == k <= n && 0 <= idx < n
      invariant Walk(block, next, primary, n) == text + Walk(block, next, idx, n - k)
    {
      WalkStep(block, next, idx, n - k);
      BelowAt(next, n, idx);
      ConcatAssoc(text, [block[next[idx]]], Walk(block, next, next[idx], n - k - 1));
      idx := next[idx];
      text := text + [block[idx]];
    }
    assert text + Walk(block, next, idx, 0) == text;
    InverseCorrect(block, primary, next, text);
  }

  lemma WalkStep(block: seq<Byte>, next: seq<nat>, row: nat, k: nat)
    requires |next| == |block| && Below(next, |block|) && row < |block| && k > 0
    ensures next[row] < |block|
    ensures Walk(block, next, row, k) == [block[next[row]]] + Walk(block, next, next[row], k - 1)
  {
  }

  lemma BelowAt(s: seq<nat>, n: nat, i: nat)
    requires Below(s, n) && i < |s|
    ensures s[i] < n
  {
  }

  lemma InverseCorrect(block: seq<Byte>, primary: nat, next: seq<nat>, text: seq<Byte>)
    requires primary < |block| && StableSort(block, next) && text == Walk(block, next, primary, |block|)
    ensures forall t, sa ::
      SortedRotations(t, sa) && block == LastColumn(t, sa) && Rotation(t, sa[primary]) == t ==> text == t
  {
    forall t, sa | SortedRotations(t, sa) && block == LastColumn(t, sa) && Rotation(t, sa[primary]) == t
      ensures text == t
    {
      InverseOf(t, sa, primary, next);
    }
  }

  lemma InverseOf(t: seq<Byte>, sa: seq<nat>, primary: nat, next: seq<nat>)
    requires SortedRotations(t, sa) && StableSort(LastColumn(t, sa), next)
    requires primary < |t| && Rotation(t, sa[primary]) == t
    ensures Walk(LastColumn(t, sa), next, primary, |t|) == t
  {
    assert Rotation(t, 0) == t;
    WalkSpells(t, sa, next, primary, 0);
    assert t[0..] == t;
  }
}
