/**
 Adler-32: the blocked update (32 independent lanes, folded back once per block) against the recurrence of section 9
 of RFC 1950, which reduces after every byte.
 */
module Adler {
  import opened Words

  const MOD := 65521
  const BLOCK := 131072  // 32 * 4096

  datatype Sums = Sums(a: int, b: int)

  function Reduce(s: Sums): Sums { Sums(s.a % MOD, s.b % MOD) }

  predicate Reduced(s: Sums) { 0 <= s.a < MOD && 0 <= s.b < MOD }

  function Next(s: Sums, d: int): Sums { Sums(s.a + d, s.b + s.a + d) }

  /** The recurrence, reduced at every byte. */
  function Adler(s: Sums, data: seq<Byte>): Sums {
    if data == [] then s else Reduce(Next(Adler(s, data[..|data| - 1]), data[|data| - 1]))
  }

  /** The 32-bit value of the two sums. */
  function Value(s: Sums): (v: nat)
    requires Reduced(s)
    ensures v / 0x1_0000 == s.b && v % 0x1_0000 == s.a && v < 0x1_0000_0000
  {
    s.b * 0x1_0000 + s.a
  }

  /** The same without reductions. */
  function Raw(s: Sums, data: seq<Byte>): Sums {
    if data == [] then s else Next(Raw(s, data[..|data| - 1]), data[|data| - 1])
  }

  /** Each entry weighed by its index. */
  function Weighed(f: seq<nat>): nat {
    if f == [] then 0 else Weighed(f[..|f| - 1]) + (|f| - 1) * f[|f| - 1]
  }

  lemma ModAdd(x: int, y: int)
    ensures (x % MOD + y) % MOD == (x + y) % MOD
  {
    ModShift(x % MOD, x, y, MOD);
  }

  /** Reductions may be postponed to the end of a run. */
  lemma {:induction false} Postpone(s: Sums, data: seq<Byte>)
    requires Reduced(s)
    ensures Adler(s, data) == Reduce(Raw(s, data))
  {
    if data != [] {
      Postpone(s, data[..|data| - 1]);
      ReduceNext(Raw(s, data[..|data| - 1]), data[|data| - 1]);
    }
  }

  lemma ReduceNext(r: Sums, d: int)
    ensures Reduce(Next(Reduce(r), d)) == Reduce(Next(r, d))
  {
    ModAdd(r.a, d);
    ModAdd(r.b, r.a % MOD + d);
    ModAdd(r.a, r.b + d);
  }

  lemma {:induction false} AdlerAppend(s: Sums, x: seq<Byte>, y: seq<Byte>)
    ensures Adler(s, x + y) == Adler(Adler(s, x), y)
    decreases |y|
  {
    if y == [] {
      assert x + y == x;
    } else {
      assert (x + y)[..|x + y| - 1] == x + y[..|y| - 1];
      AdlerAppend(s, x, y[..|y| - 1]);
    }
  }

  lemma {:induction false} RawAppend(s: Sums, x: seq<Byte>, y: seq<Byte>)
    ensures Raw(s, x + y) == Raw(Raw(s, x), y)
    decreases |y|
  {
    if y == [] {
      assert x + y == x;
    } else {
      assert (x + y)[..|x + y| - 1] == x + y[..|y| - 1];
      RawAppend(s, x, y[..|y| - 1]);
    }
  }

  lemma AdlerNothing(s: Sums)
    ensures Adler(s, []) == s
  {
  }

  lemma {:induction false} AdlerReduced(s: Sums, data: seq<Byte>)
    requires Reduced(s)
    ensures Reduced(Adler(s, data))
  {
  }

  /** A byte counts once in `a`, and in `b` once for itself and once for every byte after it. */
  lemma {:induction false} RawClosed(s: Sums, data: seq<Byte>)
    ensures Raw(s, data).a == s.a + Total(data)
    ensures Raw(s, data).b == s.b + |data| * s.a + |data| * Total(data) - Weighed(data)
  {
    if data != [] {
      RawClosed(s, data[..|data| - 1]);
      Rearrange(s.a, Total(data[..|data| - 1]), data[|data| - 1], |data|);
    }
  }

  /** Each byte as often as there are bytes from it on. */
  function FromItOn(data: seq<Byte>): nat {
    if data == [] then 0 else |data| * data[0] + FromItOn(data[1..])
  }

  lemma {:induction false} FromItOnSnoc(data: seq<Byte>, d: Byte)
    ensures FromItOn(data + [d]) == FromItOn(data) + Total(data) + d
  {
    if data == [] {
      assert ([] + [d])[1..] == [];
      assert |[] + [d]| * d == d;
    } else {
      FromItOnSnoc(data[1..], d);
      assert (data + [d])[1..] == data[1..] + [d];
      TotalHead(data);
      Distribute(|data|, 1, data[0]);
    }
  }

  /** The definition of section 9 of RFC 1950: both sums modulo 65521, starting from 1 and 0. */
  lemma Definition(data: seq<Byte>)
    ensures Adler(Sums(1, 0), data) ==
      Sums((1 + Total(data)) % 65521, (|data| + FromItOn(data)) % 65521)
  {
    Postpone(Sums(1, 0), data);
    RawFromOne(data);
  }

  lemma {:induction false} RawFromOne(data: seq<Byte>)
    ensures Raw(Sums(1, 0), data) == Sums(1 + Total(data), |data| + FromItOn(data))
  {
    if data != [] {
      var n := |data| - 1;
      RawFromOne(data[..n]);
      FromItOnSnoc(data[..n], data[n]);
      assert data[..n] + [data[n]] == data;
    }
  }

  lemma Rearrange(a: int, t: int, d: int, n: int)
    ensures (n - 1) * a + (n - 1) * t + a + t + d == n * a + n * (t + d) - (n - 1) * d
  {
  }

  lemma {:induction false} RawGrows(s: Sums, data: seq<Byte>)
    requires s.a >= 0 && s.b >= 0
    ensures s.a <= Raw(s, data).a <= s.a + 255 * |data|
    ensures s.b <= Raw(s, data).b <= s.b + Reaches(s.a, |data|)
  {
    if data != [] {
      var n := |data|;
      RawGrows(s, data[..n - 1]);
      ReachesMore(s.a, n - 1);
    }
  }

  /** What `n` bytes can add to `b`. */
  function Reaches(a: int, n: nat): int { n * (a + 255 * n) }

  lemma ReachesMore(a: int, n: nat)
    requires a >= 0
    ensures Reaches(a, n) + (a + 255 * n) + 255 <= Reaches(a, n + 1)
  {
    assert (n + 1) * (a + 255 * (n + 1)) == n * (a + 255 * n) + n * 255 + (a + 255 * (n + 1));
  }

  // ----- lanes

  /** After `k` chunks no lane exceeds these bounds; both fit a `u32` as long as k <= 4096. */
  ghost predicate Bounded(s: seq<nat>, t: seq<nat>, k: nat) {
    && |s| == |t| == 32
    && (forall i :: 0 <= i < 32 ==> 0 <= s[i] <= 255 * k)
    && (forall i :: 0 <= i < 32 ==> 0 <= 2 * t[i] <= 255 * Triangle(k))
  }

  function Triangle(k: nat): nat { k * (k + 1) }

  /** What the lanes stand for after `k` chunks. */
  ghost predicate Stand(from: Sums, data: seq<Byte>, s: seq<nat>, t: seq<nat>, k: nat) {
    32 * k <= |data| &&
    Raw(from, data[..32 * k]) ==
      Sums(from.a + Total(s), from.b + 32 * (k * from.a) + 32 * Total(t) - Weighed(s))
  }

  /** Lane `i` takes byte `i` of the chunk; `t` accumulates `s` after each chunk. */
  method AddChunk(s: array<nat>, t: array<nat>, c: seq<Byte>, ghost k: nat)
    requires s != t && s.Length == t.Length == |c| == 32 && k < 4096
    requires Bounded(s[..], t[..], k)
    modifies s, t
    ensures Bounded(s[..], t[..], k + 1)
    ensures Total(s[..]) == old(Total(s[..])) + Total(c)
    ensures Weighed(s[..]) == old(Weighed(s[..])) + Weighed(c)
    ensures Total(t[..]) == old(Total(t[..])) + Total(s[..])
  {
    hide Total, Weighed, Triangle;
    ghost var s0, t0 := s[..], t[..];
    BoundMore(k);
    Nothing(s[..], t[..], c);
    for i := 0 to 32
      invariant forall j :: i <= j < 32 ==> s[j] == s0[j] && t[j] == t0[j]
      invariant forall j :: 0 <= j < i ==> 0 <= s[j] <= 255 * (k + 1) && 0 <= 2 * t[j] <= 255 * Triangle(k + 1)
      invariant Total(s[..i]) == Total(s0[..i]) + Total(c[..i])
      invariant Weighed(s[..i]) == Weighed(s0[..i]) + Weighed(c[..i])
      invariant Total(t[..i]) == Total(t0[..i]) + Total(s[..i])
    {
      ghost var s1, t1 := s[..i], t[..i];
      LaneStep(s1, s0[..i], c[..i], s0[i], c[i]);
      LaneStep(t1, t0[..i], s1, t0[i], s0[i] + c[i]);
      s[i] := s[i] + c[i];
      t[i] := t[i] + s[i];
      assert s[i] < 0x1_0000_0000 && t[i] < 0x1_0000_0000;
      assert s[..i + 1] == s1 + [s0[i] + c[i]] && t[..i + 1] == t1 + [t0[i] + (s0[i] + c[i])];
      assert c[..i + 1] == c[..i] + [c[i]] && s0[..i + 1] == s0[..i] + [s0[i]] && t0[..i + 1] == t0[..i] + [t0[i]];
    }
    assert s[..32] == s[..] && t[..32] == t[..] && c[..32] == c && s0[..32] == s0 && t0[..32] == t0;
  }

  lemma Nothing(s: seq<nat>, t: seq<nat>, c: seq<nat>)
    ensures Total(s[..0]) == Total(t[..0]) == Total(c[..0]) == 0
    ensures Weighed(s[..0]) == Weighed(t[..0]) == Weighed(c[..0]) == 0
  {
  }

  lemma LaneStep(f: seq<nat>, g: seq<nat>, h: seq<nat>, x: nat, y: nat)
    requires |f| == |g| == |h| && Total(f) == Total(g) + Total(h)
    ensures Total(f + [x + y]) == Total(g + [x]) + Total(h + [y])
    ensures Weighed(f) == Weighed(g) + Weighed(h) ==> Weighed(f + [x + y]) == Weighed(g + [x]) + Weighed(h + [y])
  {
    hide Total, Weighed;
    TotalMore(f, x + y);
    TotalMore(g, x);
    TotalMore(h, y);
    Distribute(x, y, |f|);
  }

  lemma TotalMore(f: seq<nat>, x: nat)
    ensures Total(f + [x]) == Total(f) + x
    ensures Weighed(f + [x]) == Weighed(f) + |f| * x
  {
    assert (f + [x])[..|f|] == f;
  }

  lemma BoundMore(k: nat)
    requires k < 4096
    ensures 0 <= Triangle(k) && Triangle(k) + 2 * (k + 1) == Triangle(k + 1) <= 4096 * 4097
  {
    TriangleBound(k + 1);
  }

  lemma TriangleBound(k: nat)
    requires k <= 4096
    ensures Triangle(k) <= 4096 * 4097
  {
    MulMonotone(k, 4096, k + 1);
  }

  lemma RawChunk(s: Sums, c: seq<Byte>)
    requires |c| == 32
    ensures Raw(s, c) == Sums(s.a + Total(c), s.b + 32 * s.a + 32 * Total(c) - Weighed(c))
  {
    hide Raw, Total, Weighed;
    RawClosed(s, c);
    MulThirtyTwo(|c|, s.a);
    MulThirtyTwo(|c|, Total(c));
  }

  lemma MulThirtyTwo(n: int, x: int)
    requires n == 32
    ensures n * x == 32 * x
  {
  }

  lemma ChunkStands(from: Sums, data: seq<Byte>, s: seq<nat>, t: seq<nat>, s1: seq<nat>, t1: seq<nat>, k: nat)
    requires Stand(from, data, s, t, k) && 32 * k + 32 <= |data|
    requires Total(s1) == Total(s) + Total(data[32 * k..32 * k + 32])
    requires Weighed(s1) == Weighed(s) + Weighed(data[32 * k..32 * k + 32])
    requires Total(t1) == Total(t) + Total(s1)
    ensures Stand(from, data, s1, t1, k + 1)
  {
    hide Raw, Total, Weighed;
    var c := data[32 * k..32 * k + 32];
    assert data[..32 * (k + 1)] == data[..32 * k] + c;
    RawAppend(from, data[..32 * k], c);
    RawChunk(Raw(from, data[..32 * k]), c);
    Distribute(k, 1, from.a);
    assert (k + 1) * from.a == k * from.a + from.a;
  }

  lemma {:induction false} TotalFlat(n: nat, f: seq<nat>)
    requires |f| == n && forall i :: 0 <= i < n ==> f[i] == 0
    ensures Total(f) == 0 && Weighed(f) == 0
    decreases n
  {
    if n > 0 {
      TotalFlat(n - 1, f[..n - 1]);
    }
  }

  /** A run of whole chunks: `a` and `b` after it, reduced once. */
  method FoldChunks(from: Sums, data: seq<Byte>) returns (r: Sums)
    requires Reduced(from) && 0 < |data| <= BLOCK && |data| % 32 == 0
    ensures r == Reduce(Raw(from, data))
  {
    hide Total, Weighed, Raw, Reduce, Triangle;
    var s, t := new nat[32](_ => 0), new nat[32](_ => 0);
    var chunks := |data| / 32;
    TotalFlat(32, s[..]);
    TotalFlat(32, t[..]);
    Start(from, data, s[..], t[..]);
    for k := 0 to chunks
      invariant Bounded(s[..], t[..], k)
      invariant Stand(from, data, s[..], t[..], k)
    {
      ghost var s0, t0 := s[..], t[..];
      AddChunk(s, t, data[32 * k..32 * k + 32], k);
      ChunkStands(from, data, s0, t0, s[..], t[..], k);
    }
    assert data[..32 * chunks] == data;
    r := JoinLanes(from, data, s, t, chunks);
  }

  lemma Start(from: Sums, data: seq<Byte>, s: seq<nat>, t: seq<nat>)
    requires Total(s) == Total(t) == Weighed(s) == 0 && |s| == |t| == 32
    requires forall i :: 0 <= i < 32 ==> s[i] == t[i] == 0
    ensures Stand(from, data, s, t, 0) && Bounded(s, t, 0)
  {
    assert data[..32 * 0] == [];
  }

  /** The totals of the lanes, folded back into `a` and `b`. */
  method JoinLanes(from: Sums, ghost data: seq<Byte>, s: array<nat>, t: array<nat>, chunks: nat) returns (r: Sums)
    requires Reduced(from) && chunks <= 4096 && |data| == 32 * chunks
    requires Bounded(s[..], t[..], chunks) && Stand(from, data, s[..], t[..], chunks)
    ensures r == Reduce(Raw(from, data))
  {
    hide Total, Weighed, Raw, Triangle;
    var sumS, sumT, weighted := 0, 0, 0;
    Nothing(s[..], t[..], []);
    for i := 0 to 32
      invariant sumS == Total(s[..i]) && sumT == Total(t[..i]) && weighted == Weighed(s[..i])
    {
      assert s[..i + 1] == s[..i] + [s[i]] && t[..i + 1] == t[..i] + [t[i]];
      TotalMore(s[..i], s[i]);
      TotalMore(t[..i], t[i]);
      sumS, sumT, weighted := sumS + s[i], sumT + t[i], weighted + i * s[i];
    }
    assert s[..32] == s[..] && t[..32] == t[..];
    assert data[..32 * chunks] == data;
    var bb := from.b + 32 * (chunks * from.a) + 32 * sumT - weighted;
    RawGrows(from, data);
    FitsSum(from, s[..], t[..], chunks);
    assert 0 <= bb && 0 <= from.b + 32 * (chunks * from.a) + 32 * sumT < 0x1_0000_0000_0000_0000;
    r := Sums((from.a + sumS) % MOD, bb % MOD);
  }

  /** No 64-bit sum wraps. */
  lemma FitsSum(from: Sums, s: seq<nat>, t: seq<nat>, k: nat)
    requires Reduced(from) && Bounded(s, t, k) && k <= 4096
    ensures 0 <= from.a + Total(s) < 0x1_0000_0000_0000_0000
    ensures 0 <= from.b + 32 * (k * from.a) + 32 * Total(t) < 0x1_0000_0000_0000_0000
  {
    hide Total, Triangle;
    TotalBound(s, 255 * k);
    TriangleBound(k);
    TotalBound(t, 255 * 4096 * 4097);
    assert 0 <= k * from.a <= 4096 * MOD by {
      Product(k, from.a);
    }
  }

  lemma Product(k: nat, a: nat)
    requires k <= 4096 && a <= MOD
    ensures 0 <= k * a <= 4096 * MOD
  {
    MulMonotone(k, 4096, a);
  }

  class Adler32 {
    var a: int
    var b: int

    ghost predicate Valid()
      reads this
    {
      Reduced(Sums(a, b))
    }

    constructor ()
      ensures Valid() && a == 1 && b == 0
    {
      a := 1;
      b := 0;
    }

    /** Under 32 bytes left: one at a time, no overflow possible. */
    method Tail(from: Sums, tail: seq<Byte>) returns (r: Sums)
      requires Reduced(from) && |tail| < 32
      ensures r == Adler(from, tail)
    {
      hide Reaches;
      r := from;
      for i := 0 to |tail|
        invariant r == Raw(from, tail[..i])
      {
        assert tail[..i + 1][..i] == tail[..i];
        r := Next(r, tail[i]);
        TailFits(from, i);
        RawGrows(from, tail[..i + 1]);
        assert 0 <= r.a < 0x1_0000_0000 && 0 <= r.b < 0x1_0000_0000;
      }
      assert tail[..|tail|] == tail;
      r := Reduce(r);
      Postpone(from, tail);
    }

    method Block(from: Sums, block: seq<Byte>) returns (r: Sums)
      requires Reduced(from) && 0 < |block| <= BLOCK
      ensures r == Adler(from, block)
      ensures Reduced(r)
    {
      hide Adler, Raw;
      var whole := |block| - |block| % 32;
      var chunks, tail := block[..whole], block[whole..];
      assert block == chunks + tail;
      AdlerAppend(from, chunks, tail);
      AdlerReduced(from, chunks);
      AdlerReduced(from, block);
      var sums := from;
      if whole > 0 {
        sums := FoldChunks(from, chunks);
        Postpone(from, chunks);
      } else {
        AdlerNothing(from);
      }
      r := Tail(sums, tail);
    }

    /** The checksum of everything fed so far: `b` in the upper half, `a` in the lower. */
    method Finalize() returns (checksum: nat)
      requires Valid()
      ensures checksum == Value(Sums(a, b)) < 0x1_0000_0000
    {
      checksum := b * 0x1_0000 + a;
    }

    method Update(data: seq<Byte>)
      requires Valid()
      modifies this
      ensures Valid()
      ensures Sums(a, b) == Adler(old(Sums(a, b)), data)
    {
      ghost var start := Sums(a, b);
      var sums := Sums(a, b);
      var at := 0;
      while at < |data|
        invariant at <= |data| && Reduced(sums) && sums == Adler(start, data[..at])
      {
        var next := if |data| - at < BLOCK then |data| else at + BLOCK;
        assert data[..next] == data[..at] + data[at..next];
        AdlerAppend(start, data[..at], data[at..next]);
        sums := Block(sums, data[at..next]);
        at := next;
      }
      assert data[..at] == data;
      a, b := sums.a, sums.b;
    }
  }

  /** The published checksum of "Wikipedia", 0x11E60398. */
  lemma KnownValue()
    ensures Value(Adler(Sums(1, 0), [87, 105, 107, 105, 112, 101, 100, 105, 97])) == 0x11E6_0398
  {
    var w: seq<Byte> := [87, 105, 107, 105, 112, 101, 100, 105, 97];
    assert w[..0] == [];
    ByteAdded(w, 0, Sums(1, 0));
    ByteAdded(w, 1, Sums(88, 88));
    ByteAdded(w, 2, Sums(193, 281));
    ByteAdded(w, 3, Sums(300, 581));
    ByteAdded(w, 4, Sums(405, 986));
    ByteAdded(w, 5, Sums(517, 1503));
    ByteAdded(w, 6, Sums(618, 2121));
    ByteAdded(w, 7, Sums(718, 2839));
    ByteAdded(w, 8, Sums(823, 3662));
    assert w[..9] == w;
  }

  lemma ByteAdded(w: seq<Byte>, k: nat, s: Sums)
    requires k < |w| && s == Adler(Sums(1, 0), w[..k]) && 0 <= s.a < 0x1000 && 0 <= s.b < 0x1000
    ensures Adler(Sums(1, 0), w[..k + 1]) == Next(s, w[k])
  {
    assert w[..k + 1][..k] == w[..k];
  }

  lemma TailFits(s: Sums, i: nat)
    requires Reduced(s) && i < 32 - 1
    ensures s.b + Reaches(s.a, i + 1) < 0x1_0000_0000
  {
    MulMonotone(i + 1, 31, s.a + 255 * (i + 1));
  }
}
