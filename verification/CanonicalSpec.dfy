/**
 Canonical prefix codes (section 3.2.2 of RFC 1951): which code each symbol gets from the code lengths, and why no code
 is a prefix of another.
 */
module CanonicalSpec {
  import opened Words

  // ----- bits

  /** The bit of weight 2^k. */
  function Bit(v: nat, k: nat): (b: nat)
    ensures b <= 1
  {
    v / Pow2(k) % 2
  }

  /** The low `n` bits of `v` in reverse: what a code of `n` bits reads when the stream is LSB-first. */
  function Rev(v: nat, n: nat): nat {
    if n == 0 then 0 else 2 * Rev(v, n - 1) + Bit(v, n - 1)
  }

  lemma DivDiv(v: nat, a: nat, b: nat)
    requires a > 0 && b > 0
    ensures a * b > 0 && v / (a * b) == v / a / b
  {
    var q, r := v / a / b, v / a % b;
    assert v == (q * b + r) * a + v % a;
    assert (q * b + r) * a == q * (a * b) + r * a;
    MulMonotone(r, b - 1, a);
    DivModUnique(v, a * b, q, r * a + v % a);
  }

  lemma BitHalf(v: nat, k: nat)
    ensures Bit(v, k + 1) == Bit(v / 2, k) && Bit(v, 0) == v % 2
  {
    hide Pow2;
    Pow2Next(k);
    Pow2Next(0);
    DivDiv(v, 2, Pow2(k));
  }

  /** The lowest bit of `v` comes first. */
  lemma {:induction false} RevFront(v: nat, n: nat)
    requires n > 0
    ensures Rev(v, n) == (v % 2) * Pow2(n - 1) + Rev(v / 2, n - 1)
    decreases n
  {
    hide Bit;
    BitHalf(v, n - 1);
    if n > 1 {
      RevFront(v, n - 1);
      BitHalf(v, n - 2);
      Pow2Next(n - 2);
      var p := Pow2(n - 2);
      assert 2 * ((v % 2) * p) == (v % 2) * (2 * p);
    } else {
      Pow2Next(0);
      BitHalf(v, 0);
    }
  }

  lemma {:induction false} RevBound(v: nat, n: nat)
    ensures Rev(v, n) < Pow2(n)
  {
    if n > 0 {
      RevBound(v, n - 1);
    }
  }

  /** The next bit up. */
  lemma ModBit(v: nat, n: nat)
    ensures v % Pow2(n + 1) == Bit(v, n) * Pow2(n) + v % Pow2(n)
  {
    hide Pow2;
    var p := Pow2(n);
    Pow2Next(n);
    var q := v / p;
    assert v == q * p + v % p;
    assert q == 2 * (q / 2) + q % 2;
    assert q * p == (q / 2) * (2 * p) + (q % 2) * p;
    assert 0 <= (q % 2) * p <= p;
    DivModUnique(v, 2 * p, q / 2, (q % 2) * p + v % p);
  }

  /** Reversing twice gives the low bits back. */
  lemma {:induction false} RevRev(v: nat, n: nat)
    ensures Rev(Rev(v, n), n) == v % Pow2(n)
    decreases n
  {
    hide Bit;
    if n > 0 {
      var w := Rev(v, n);
      RevFront(w, n);
      assert w / 2 == Rev(v, n - 1) && w % 2 == Bit(v, n - 1);
      RevRev(v, n - 1);
      ModBit(v, n - 1);
    }
  }

  lemma BitMod(v: nat, n: nat, k: nat)
    requires k < n
    ensures Bit(v % Pow2(n), k) == Bit(v, k)
  {
    hide Pow2;
    Pow2Add(k, n - k);
    Pow2Next(n - k - 1);
    ModDiv(v, Pow2(k), Pow2(n - k));
    ModMod(v / Pow2(k), 2, Pow2(n - k - 1));
  }

  lemma ModDiv(v: nat, a: nat, b: nat)
    requires a > 0 && b > 0
    ensures a * b > 0 && v % (a * b) / a == v / a % b
  {
    DivDiv(v, a, b);
    var q, r := v / (a * b), v / a % b;
    assert v / a == q * b + r;
    assert v == (q * b + r) * a + v % a;
    assert (q * b + r) * a == q * (a * b) + r * a;
    MulMonotone(r, b - 1, a);
    DivModUnique(v, a * b, q, r * a + v % a);
    DivModUnique(v % (a * b), a, r, v % a);
  }

  /** Only the low bits matter. */
  lemma {:induction false} RevMod(v: nat, m: nat, n: nat)
    requires n <= m
    ensures Rev(v % Pow2(m), n) == Rev(v, n)
    decreases n
  {
    hide Bit, Pow2;
    if n > 0 {
      RevMod(v, m, n - 1);
      BitMod(v, m, n - 1);
    }
  }

  /** `n` bits reading as `c` are exactly the low bits Rev(c, n). */
  lemma RevReads(v: nat, c: nat, n: nat)
    requires c < Pow2(n)
    ensures Rev(v, n) == c <==> v % Pow2(n) == Rev(c, n)
  {
    hide Rev, Pow2;
    RevRev(v, n);
    RevRev(c, n);
    RevMod(v, n, n);
    RevBound(c, n);
    SmallMod(c, Pow2(n));
  }

  lemma SmallMod(c: nat, p: nat)
    requires c < p
    ensures c % p == c
  {
  }

  /** The first `m` of `n` bits are a prefix of the whole. */
  lemma {:induction false} RevPrefix(v: nat, m: nat, n: nat)
    requires m <= n
    ensures Rev(v, m) * Pow2(n - m) <= Rev(v, n) < (Rev(v, m) + 1) * Pow2(n - m)
    decreases n
  {
    hide Bit, Pow2;
    if m < n {
      RevPrefix(v, m, n - 1);
      Pow2Next(n - 1 - m);
      Between(Rev(v, m), Rev(v, n - 1), Bit(v, n - 1), Pow2(n - 1 - m));
    } else {
      Pow2Next(0);
    }
  }

  lemma Between(r: nat, w: nat, b: nat, p: nat)
    requires r * p <= w < (r + 1) * p && b <= 1
    ensures r * (2 * p) <= 2 * w + b < (r + 1) * (2 * p)
  {
    assert r * (2 * p) == 2 * (r * p) && (r + 1) * (2 * p) == 2 * ((r + 1) * p);
  }

  // ----- counting

  const MAX_BITS := 15

  type Lengths = seq<nat>

  ghost predicate Capped(lengths: Lengths) {
    forall s :: 0 <= s < |lengths| ==> lengths[s] <= MAX_BITS
  }

  /** How many of the first `n` symbols have length `l`. */
  function CountTo(lengths: Lengths, l: nat, n: nat): (c: nat)
    requires n <= |lengths|
    ensures c <= n
  {
    if n == 0 then 0 else CountTo(lengths, l, n - 1) + if lengths[n - 1] == l then 1 else 0
  }

  /** How many symbols have length `l`; length zero means the symbol is not used. */
  function Count(lengths: Lengths, l: nat): (c: nat)
    ensures c <= |lengths|
  {
    if l == 0 then 0 else CountTo(lengths, l, |lengths|)
  }

  /** The position of a symbol among those of its length. */
  function Rank(lengths: Lengths, s: nat): (r: nat)
    requires s < |lengths|
    ensures r <= s
  {
    CountTo(lengths, lengths[s], s)
  }

  lemma {:induction false} CountGrows(lengths: Lengths, l: nat, m: nat, n: nat)
    requires m <= n <= |lengths|
    ensures CountTo(lengths, l, m) <= CountTo(lengths, l, n)
    ensures m < n && lengths[m] == l ==> CountTo(lengths, l, m) < CountTo(lengths, l, n)
    decreases n
  {
    if m < n {
      CountGrows(lengths, l, m, n - 1);
    }
  }

  lemma RankBelow(lengths: Lengths, s: nat)
    requires s < |lengths| && lengths[s] > 0
    ensures Rank(lengths, s) < Count(lengths, lengths[s])
  {
    hide CountTo;
    CountGrows(lengths, lengths[s], s, |lengths|);
  }

  /** Different symbols of one length have different ranks. */
  lemma RankDistinct(lengths: Lengths, s: nat, t: nat)
    requires s < |lengths| && t < |lengths| && lengths[s] == lengths[t]
    requires Rank(lengths, s) == Rank(lengths, t)
    ensures s == t
  {
    hide CountTo;
    if s < t {
      CountGrows(lengths, lengths[s], s, t);
    } else if t < s {
      CountGrows(lengths, lengths[s], t, s);
    }
  }

  /** Every rank is taken. */
  lemma {:induction false} RankTaken(lengths: Lengths, l: nat, r: nat, n: nat) returns (s: nat)
    requires n <= |lengths| && r < CountTo(lengths, l, n)
    ensures s < n && lengths[s] == l && Rank(lengths, s) == r
    decreases n
  {
    if lengths[n - 1] == l && CountTo(lengths, l, n - 1) == r {
      s := n - 1;
    } else {
      s := RankTaken(lengths, l, r, n - 1);
    }
  }

  // ----- codes

  /** The first code of length `l`. */
  function First(lengths: Lengths, l: nat): nat {
    if l == 0 then 0 else 2 * (First(lengths, l - 1) + Count(lengths, l - 1))
  }

  /** The code of a symbol, most significant bit first. */
  function Code(lengths: Lengths, s: nat): nat
    requires s < |lengths|
  {
    First(lengths, lengths[s]) + Rank(lengths, s)
  }

  /** The code space used by lengths 1 to `l`, in units of 2^-top. */
  function Used(lengths: Lengths, l: nat, top: nat): nat
    requires l <= top
  {
    if l == 0 then 0 else Used(lengths, l - 1, top) + Count(lengths, l) * Pow2(top - l)
  }

  /** The Kraft inequality, as the decoder tests it. */
  predicate Fits(lengths: Lengths) {
    Used(lengths, MAX_BITS, MAX_BITS) <= Pow2(MAX_BITS)
  }

  /** First codes add up the space used by shorter ones. */
  lemma {:induction false} FirstUsed(lengths: Lengths, l: nat, top: nat)
    requires l <= top
    ensures (First(lengths, l) + Count(lengths, l)) * Pow2(top - l) == Used(lengths, l, top)
    decreases l
  {
    hide Count, Pow2;
    if l > 0 {
      FirstUsed(lengths, l - 1, top);
      Pow2Next(top - l);
      var f, p := First(lengths, l - 1) + Count(lengths, l - 1), Pow2(top - l);
      assert f * (2 * p) == (2 * f) * p;
      Distribute(First(lengths, l), Count(lengths, l), p);
    } else {
      CountZero(lengths);
    }
  }

  lemma CountZero(lengths: Lengths)
    ensures Count(lengths, 0) == 0
  {
  }

  lemma {:induction false} UsedGrows(lengths: Lengths, l: nat, m: nat, top: nat)
    requires l <= m <= top
    ensures Used(lengths, l, top) <= Used(lengths, m, top)
    decreases m
  {
    hide Count, Pow2;
    if l < m {
      UsedGrows(lengths, l, m - 1, top);
      assert Count(lengths, m) * Pow2(top - m) >= 0;
    }
  }

  /** Within the Kraft inequality the codes of length `l` have `l` bits. */
  lemma CodesFit(lengths: Lengths, l: nat)
    requires Fits(lengths) && l <= MAX_BITS
    ensures First(lengths, l) + Count(lengths, l) <= Pow2(l)
  {
    hide First, Count, Pow2, Used;
    var top := MAX_BITS;
    FirstUsed(lengths, l, top);
    UsedGrows(lengths, l, top, top);
    Pow2Add(l, top - l);
    var f, p := First(lengths, l) + Count(lengths, l), Pow2(top - l);
    if f > Pow2(l) {
      MulMonotone(Pow2(l) + 1, f, p);
      Distribute(Pow2(l), 1, p);
    }
  }

  lemma CodeFits(lengths: Lengths, s: nat)
    requires Fits(lengths) && s < |lengths| && 0 < lengths[s] <= MAX_BITS
    ensures First(lengths, lengths[s]) <= Code(lengths, s) < First(lengths, lengths[s]) + Count(lengths, lengths[s])
    ensures Code(lengths, s) < Pow2(lengths[s])
  {
    hide First, Count, Pow2, Rank;
    RankBelow(lengths, s);
    CodesFit(lengths, lengths[s]);
  }

  /** Codes of a greater length begin after everything that extends a shorter code. */
  lemma {:induction false} FirstAfter(lengths: Lengths, l: nat, m: nat)
    requires l < m
    ensures First(lengths, m) >= (First(lengths, l) + Count(lengths, l)) * Pow2(m - l)
    decreases m
  {
    hide Count;
    if l + 1 < m {
      FirstAfter(lengths, l, m - 1);
      Pow2Next(m - 1 - l);
      var f, p := First(lengths, l) + Count(lengths, l), Pow2(m - 1 - l);
      assert f * (2 * p) == 2 * (f * p);
    } else {
      Pow2Next(0);
    }
  }

  // ----- canonical order

  /** Two symbols of one length, the second the next of that length: their codes follow each other. */
  lemma NextCode(lengths: Lengths, s: nat, t: nat)
    requires s < t < |lengths| && lengths[s] == lengths[t]
    requires forall r :: s < r < t ==> lengths[r] != lengths[s]
    ensures Code(lengths, t) == Code(lengths, s) + 1
  {
    hide First;
    Passed(lengths, lengths[s], s + 1, t);
  }

  lemma {:induction false} Passed(lengths: Lengths, l: nat, m: nat, n: nat)
    requires m <= n <= |lengths| && forall r :: m <= r < n ==> lengths[r] != l
    ensures CountTo(lengths, l, n) == CountTo(lengths, l, m)
    decreases n
  {
    if m < n {
      Passed(lengths, l, m, n - 1);
    }
  }

  /** Shorter codes come first: whatever follows a shorter code, it stays below every longer one. */
  lemma ShorterFirst(lengths: Lengths, s: nat, t: nat)
    requires s < |lengths| && t < |lengths| && 0 < lengths[s] < lengths[t]
    ensures (Code(lengths, s) + 1) * Pow2(lengths[t] - lengths[s]) <= Code(lengths, t)
  {
    hide First, Count, Rank, Pow2;
    var l, m := lengths[s], lengths[t];
    RankBelow(lengths, s);
    FirstAfter(lengths, l, m);
    MulMonotone(Code(lengths, s) + 1, First(lengths, l) + Count(lengths, l), Pow2(m - l));
  }

  /** The code of the example in section 3.2.2 of RFC 1951. */
  lemma Example()
    ensures var x: Lengths := [3, 3, 3, 3, 3, 2, 4, 4];
      && Code(x, 5) == 0
      && Code(x, 0) == 2 && Code(x, 1) == 3 && Code(x, 2) == 4 && Code(x, 3) == 5 && Code(x, 4) == 6
      && Code(x, 6) == 14 && Code(x, 7) == 15
  {
    var x: Lengths := [3, 3, 3, 3, 3, 2, 4, 4];
    assert CountTo(x, 1, 8) == 0 by { Passed(x, 1, 0, 8); }
    assert CountTo(x, 2, 8) == 1 by { Passed(x, 2, 0, 5); Passed(x, 2, 6, 8); }
    assert CountTo(x, 3, 8) == 5 by { FiveThrees(x); Passed(x, 3, 5, 8); }
    Passed(x, 2, 0, 5);
    Passed(x, 4, 0, 6);
    NextCode(x, 0, 1);
    NextCode(x, 1, 2);
    NextCode(x, 2, 3);
    NextCode(x, 3, 4);
    NextCode(x, 6, 7);
    ExampleFirsts(x);
  }

  lemma FiveThrees(x: Lengths)
    requires |x| >= 5 && x[0] == x[1] == x[2] == x[3] == x[4] == 3
    ensures CountTo(x, 3, 5) == 5
  {
    assert CountTo(x, 3, 2) == 2;
    assert CountTo(x, 3, 4) == 4;
  }

  lemma ExampleFirsts(x: Lengths)
    requires Count(x, 1) == 0 && Count(x, 2) == 1 && Count(x, 3) == 5
    ensures First(x, 2) == 0 && First(x, 3) == 2 && First(x, 4) == 14
  {
    hide Count;
    CountZero(x);
    assert First(x, 1) == 0;
  }

  // ----- reading a code

  /** The first of the `n` bits in `acc` are the code of symbol `s`. */
  ghost predicate Starts(lengths: Lengths, acc: nat, n: nat, s: nat) {
    s < |lengths| && 0 < lengths[s] <= n && Rev(acc, lengths[s]) == Code(lengths, s)
  }

  lemma LongerStarts(lengths: Lengths, acc: nat, n: nat, s: nat, t: nat)
    requires Starts(lengths, acc, n, s) && Starts(lengths, acc, n, t)
    ensures lengths[t] <= lengths[s]
  {
    hide Rev, First, Count, Rank, Pow2;
    var l, m := lengths[s], lengths[t];
    if l < m {
      RankBelow(lengths, s);
      FirstAfter(lengths, l, m);
      RevPrefix(acc, l, m);
      MulMonotone(Rev(acc, l) + 1, First(lengths, l) + Count(lengths, l), Pow2(m - l));
    }
  }

  /** No code is a prefix of another: at most one symbol can be read. */
  lemma PrefixFree(lengths: Lengths, acc: nat, n: nat, s: nat, t: nat)
    requires Starts(lengths, acc, n, s) && Starts(lengths, acc, n, t)
    ensures s == t
  {
    hide Rev, First, Rank;
    LongerStarts(lengths, acc, n, s, t);
    LongerStarts(lengths, acc, n, t, s);
    RankDistinct(lengths, s, t);
  }

  /** A symbol's reversed code, followed by any bits, reads as that symbol. */
  lemma CodeReads(lengths: Lengths, s: nat, later: nat, n: nat)
    requires Fits(lengths) && s < |lengths| && 0 < lengths[s] <= MAX_BITS && lengths[s] <= n
    ensures Starts(lengths, Rev(Code(lengths, s), lengths[s]) + Pow2(lengths[s]) * later, n, s)
  {
    hide Rev, Code, Pow2, Fits;
    var l, c := lengths[s], Code(lengths, s);
    var acc := Rev(c, l) + Pow2(l) * later;
    CodeFits(lengths, s);
    RevBound(c, l);
    DivModUnique(acc, Pow2(l), later, Rev(c, l));
    RevReads(acc, c, l);
  }

  lemma SomeStarts(lengths: Lengths, acc: nat, n: nat, l: nat)
    requires 0 < l <= n && First(lengths, l) <= Rev(acc, l) < First(lengths, l) + Count(lengths, l)
    ensures exists s: nat :: Starts(lengths, acc, n, s) && lengths[s] == l
  {
    hide Rev, First, CountTo, Rank;
    var r: nat := Rev(acc, l) - First(lengths, l);
    var s := RankTaken(lengths, l, r, |lengths|);
    assert Starts(lengths, acc, n, s);
  }

  /** Below length `l` nothing can be read exactly when the bits lie past all shorter codes. */
  lemma {:induction false} PastShorter(lengths: Lengths, acc: nat, n: nat, l: nat)
    requires l <= n
    requires forall s: nat :: Starts(lengths, acc, n, s) ==> s < |lengths| && lengths[s] > l
    ensures Rev(acc, l) >= First(lengths, l) + Count(lengths, l)
    decreases l
  {
    hide Bit, Count, Starts;
    if l > 0 {
      PastShorter(lengths, acc, n, l - 1);
      var code, first := Rev(acc, l), First(lengths, l);
      assert code >= 2 * Rev(acc, l - 1);
      assert first == 2 * (First(lengths, l - 1) + Count(lengths, l - 1));
      assert code >= first;
      if code < first + Count(lengths, l) {
        SomeStarts(lengths, acc, n, l);
      }
    } else {
      CountZero(lengths);
    }
  }

  /** When the code space is used up exactly, every long enough run of bits starts with a code. */
  lemma Complete(lengths: Lengths, acc: nat, n: nat, top: nat)
    requires top <= n && Used(lengths, top, top) == Pow2(top)
    ensures exists s: nat :: Starts(lengths, acc, n, s)
  {
    hide Rev, First, Count, Rank, Pow2, Used;
    if forall s: nat :: !Starts(lengths, acc, n, s) {
      PastShorter(lengths, acc, n, top);
      FirstUsed(lengths, top, top);
      Pow2Next(0);
      RevBound(acc, top);
    }
  }
}
