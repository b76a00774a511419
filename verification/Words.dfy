/** Bytes and 32-bit words as bounded integers, with wrap-around written out. */
module Words {
  type Byte = x: int | 0 <= x < 0x100
  type Word = x: int | 0 <= x < 0x1_0000_0000

  datatype Option<+T> = None | Some(value: T)

  /** The `as u32` cast and the `wrapping_*` operations: everything is kept modulo 2^32. */
  function Wrap(n: int): Word {
    n % 0x1_0000_0000
  }

  /** Quotient and remainder are determined by the division identity. */
  lemma DivModUnique(a: int, m: int, q: int, r: int)
    requires 0 <= r < m
    requires a == q * m + r
    ensures a / m == q && a % m == r
  {
    var k := q - a / m;
    assert k * m == a % m - r;
    assert k >= 1 ==> k * m >= m;
    assert k <= -1 ==> k * m <= -m;
  }

  /** A remainder modulo a multiple of `m` keeps the remainder modulo `m`. */
  lemma ModMod(a: int, m: int, c: int)
    requires m > 0 && c > 0
    ensures m * c > 0 && a % (m * c) % m == a % m
  {
    var n := m * c;
    var r := a % n;
    assert a == (a / n) * n + r;
    assert (a / n) * n == ((a / n) * c) * m;
    assert a == ((a / n) * c + r / m) * m + r % m;
    DivModUnique(a, m, (a / n) * c + r / m, r % m);
  }

  lemma ModShift(v: int, w: int, x: int, m: int)
    requires m > 0 && v % m == w % m
    ensures (v + x) % m == (w + x) % m
  {
    var k := v / m - w / m;
    assert v + x == ((w + x) / m + k) * m + (w + x) % m;
    DivModUnique(v + x, m, (w + x) / m + k, (w + x) % m);
  }

  lemma MulMonotone(x: int, y: int, z: int)
    requires x <= y && 0 <= z
    ensures x * z <= y * z && z * x <= z * y
  {
  }

  lemma Distribute(x: int, y: int, z: int)
    ensures (x + y) * z == x * z + y * z && z * (x + y) == z * x + z * y
  {
  }

  lemma WrapAdd(a: int, b: int)
    ensures Wrap(Wrap(a) + b) == Wrap(a + b) && Wrap(b - Wrap(a)) == Wrap(b - a)
  {
    ModShift(Wrap(a), a, b, 0x1_0000_0000);
    ModShift(Wrap(a), a, -b - a - Wrap(a), 0x1_0000_0000);
  }

  /** `1 << n`. */
  function Pow2(n: nat): (p: nat)
    ensures p > 0
  {
    if n == 0 then 1 else 2 * Pow2(n - 1)
  }

  lemma {:induction false} Pow2Add(m: nat, n: nat)
    ensures Pow2(m + n) == Pow2(m) * Pow2(n)
  {
    if m > 0 {
      Pow2Add(m - 1, n);
    }
  }

  lemma {:induction false} Pow2Grows(m: nat, n: nat)
    requires m <= n
    ensures Pow2(m) <= Pow2(n)
    decreases n
  {
    if m < n {
      Pow2Grows(m, n - 1);
    }
  }

  lemma Pow2Next(n: nat)
    ensures Pow2(n + 1) == 2 * Pow2(n) && Pow2(0) == 1
  {
  }

  lemma Pow2Bytes()
    ensures Pow2(8) == 0x100 && Pow2(16) == 0x1_0000 && Pow2(24) == 0x100_0000 && Pow2(32) == 0x1_0000_0000
  {
    assert Pow2(4) == 16;
    Pow2Add(4, 4);
    Pow2Add(8, 8);
    Pow2Add(8, 16);
    Pow2Add(16, 16);
  }

  lemma TailTail<T>(s: seq<T>, n: nat, m: nat)
    requires n + m <= |s|
    ensures s[n..][m..] == s[n + m..]
  {
  }

  lemma ConcatAssoc<T>(a: seq<T>, b: seq<T>, c: seq<T>)
    ensures (a + b) + c == a + (b + c)
  {
  }

  lemma TailConcat<T>(s: seq<T>, t: seq<T>, n: nat)
    requires n <= |s|
    ensures (s + t)[n..] == s[n..] + t
    ensures s[..n] + s[n..] == s
  {
  }

  /** Replacing the bytes after `done` in a partly converted buffer. */
  lemma Splice<T>(now: seq<T>, done: seq<T>, s: seq<T>, head: seq<T>)
    requires |done| + |head| <= |s| && now == done + s[|done|..]
    ensures now[..|done|] + head + now[|done + head|..] == (done + head) + s[|done + head|..]
  {
  }

  /** Moving `n` elements from a queue to what has left it. */
  lemma SplitQueue<T>(out: seq<T>, queue: seq<T>, head: nat, n: nat)
    requires head + n <= |queue|
    ensures out + queue[head..] == (out + queue[head..head + n]) + queue[head + n..]
  {
  }

  lemma HeadTail<T>(a: seq<T>, b: seq<T>)
    ensures (a + b)[|a|..] == b && (a + b)[..|a|] == a
  {
  }

  // ----- sums

  function Total(f: seq<nat>): nat {
    if f == [] then 0 else Total(f[..|f| - 1]) + f[|f| - 1]
  }

  lemma TotalSnoc(f: seq<nat>, x: nat)
    ensures Total(f + [x]) == Total(f) + x
  {
    assert (f + [x])[..|f|] == f;
  }

  lemma {:induction false} TotalHead(f: seq<nat>)
    requires f != []
    ensures Total(f) == f[0] + Total(f[1..])
    decreases |f|
  {
    if |f| > 1 {
      TotalHead(f[..|f| - 1]);
      assert f[..|f| - 1][1..] == f[1..][..|f| - 2];
    } else {
      assert f[..0] == [] && f[1..] == [];
    }
  }

  lemma {:induction false} TotalBound(f: seq<nat>, m: nat)
    requires forall i :: 0 <= i < |f| ==> f[i] <= m
    ensures Total(f) <= |f| * m
    decreases |f|
  {
    if f != [] {
      TotalBound(f[..|f| - 1], m);
      Distribute(|f| - 1, 1, m);
    }
  }

  lemma {:induction false} TotalUpdate(f: seq<nat>, n: nat, v: nat)
    requires n < |f|
    ensures Total(f[n := v]) == Total(f) - f[n] + v
    decreases |f|
  {
    var k := |f| - 1;
    if n < k {
      TotalUpdate(f[..k], n, v);
      assert f[n := v][..k] == f[..k][n := v];
    } else {
      assert f[n := v][..k] == f[..k];
    }
  }

  // ----- words in bytes

  /** What removing an entry by moving the last one into its place leaves. */
  function SwapRemove<T>(s: seq<T>, i: nat): (r: seq<T>)
    requires i < |s|
    ensures |r| == |s| - 1
  {
    s[i := s[|s| - 1]][..|s| - 1]
  }

  lemma SwapRemoveAt<T>(s: seq<T>, i: nat)
    requires i < |s|
    ensures forall k :: 0 <= k < |s| - 1 ==> SwapRemove(s, i)[k] == s[if k == i then |s| - 1 else k]
  {
  }

  function LoadLe(b: seq<Byte>): Word
    requires |b| == 4
  {
    var b0: int, b1: int, b2: int, b3: int := b[0], b[1], b[2], b[3];
    b0 + 0x100 * b1 + 0x1_0000 * b2 + 0x100_0000 * b3
  }

  function StoreLe(w: Word): (b: seq<Byte>)
    ensures |b| == 4
    ensures LoadLe(b) == w
  {
    assert w / 0x100 / 0x100 == w / 0x1_0000 && w / 0x1_0000 / 0x100 == w / 0x100_0000;
    [w % 0x100, w / 0x100 % 0x100, w / 0x1_0000 % 0x100, w / 0x100_0000]
  }

  function LoadBe(b: seq<Byte>): Word
    requires |b| == 4
  {
    LoadLe([b[3], b[2], b[1], b[0]])
  }

  function StoreBe(w: Word): (b: seq<Byte>)
    ensures |b| == 4
    ensures LoadBe(b) == w
  {
    var l := StoreLe(w);
    [l[3], l[2], l[1], l[0]]
  }

  lemma StoreLoadLe(b: seq<Byte>)
    requires |b| == 4
    ensures StoreLe(LoadLe(b)) == b
  {
    var w: int, b0: int, b1: int, b2: int, b3: int := LoadLe(b), b[0], b[1], b[2], b[3];
    DivModUnique(w, 0x100, b1 + 0x100 * b2 + 0x1_0000 * b3, b0);
    DivModUnique(w / 0x100, 0x100, b2 + 0x100 * b3, b1);
    DivModUnique(w, 0x1_0000, b2 + 0x100 * b3, b0 + 0x100 * b1);
    DivModUnique(w / 0x1_0000, 0x100, b3, b2);
    DivModUnique(w, 0x100_0000, b3, b0 + 0x100 * b1 + 0x1_0000 * b2);
  }

  lemma StoreLoadBe(b: seq<Byte>)
    requires |b| == 4
    ensures StoreBe(LoadBe(b)) == b
  {
    StoreLoadLe([b[3], b[2], b[1], b[0]]);
  }

  /** Overwrite the bytes from `at` on. */
  method Store(data: array<Byte>, at: nat, b: seq<Byte>)
    requires at + |b| <= data.Length
    modifies data
    ensures data[..] == old(data[..at]) + b + old(data[at + |b|..])
  {
    for k := 0 to |b|
      invariant data[..at] == old(data[..at])
      invariant data[at..at + k] == b[..k]
      invariant data[at + |b|..] == old(data[at + |b|..])
    {
      data[at + k] := b[k];
    }
  }

  // ----- finite sets

  lemma {:induction false} Below(n: nat) returns (s: set<nat>)
    ensures |s| == n && forall i: nat :: i in s <==> i < n
  {
    if n == 0 {
      s := {};
    } else {
      s := Below(n - 1);
      s := s + {n - 1};
    }
  }

  lemma {:induction false} SubsetSize(a: set<nat>, b: set<nat>)
    requires a <= b
    ensures |a| <= |b|
    decreases a
  {
    if a != {} {
      var x :| x in a;
      SubsetSize(a - {x}, b - {x});
    }
  }
}
