/**
 How good the interpolated logarithm is: 256 times log2(x) lies less than 24 above it.  Powers of x stand in for the
 logarithm itself, so that everything stays in integers.
 */
module LogAccuracy {
  import opened Words
  import opened ClusterSpec

  // ----- powers

  function Power(x: nat, n: nat): nat {
    if n == 0 then 1 else x * Power(x, n - 1)
  }

  lemma PowerNext(x: nat, n: nat)
    ensures Power(x, n + 1) == x * Power(x, n) && Power(x, 0) == 1
  {
  }

  lemma Swap(a: nat, b: nat, c: nat, d: nat)
    ensures (a * b) * (c * d) == (a * c) * (b * d)
  {
    assert (a * b) * (c * d) == a * (b * (c * d));
    assert b * (c * d) == c * (b * d);
  }

  lemma {:induction false} PowerMul(x: nat, y: nat, n: nat)
    ensures Power(x * y, n) == Power(x, n) * Power(y, n)
  {
    hide Power;
    if n == 0 {
      PowerNext(x, 0);
      PowerNext(y, 0);
      PowerNext(x * y, 0);
    } else {
      PowerMul(x, y, n - 1);
      PowerNext(x, n - 1);
      PowerNext(y, n - 1);
      PowerNext(x * y, n - 1);
      Swap(x, y, Power(x, n - 1), Power(y, n - 1));
    }
  }

  lemma {:induction false} PowerAdd(x: nat, m: nat, n: nat)
    ensures Power(x, m + n) == Power(x, m) * Power(x, n)
    decreases m
  {
    hide Power;
    if m == 0 {
      PowerNext(x, 0);
    } else {
      PowerAdd(x, m - 1, n);
      PowerNext(x, m - 1);
      PowerNext(x, m - 1 + n);
      Regroup(x, Power(x, m - 1), Power(x, n));
    }
  }

  lemma Regroup(a: nat, b: nat, c: nat)
    ensures a * (b * c) == (a * b) * c
  {
  }

  lemma Products(a: nat, b: nat, c: nat, d: nat)
    requires a <= b && c <= d
    ensures a * c <= b * d
  {
    MulMonotone(a, b, c);
    MulMonotone(c, d, b);
  }

  lemma {:induction false} PowerGrows(x: nat, y: nat, n: nat)
    requires x <= y
    ensures Power(x, n) <= Power(y, n)
  {
    hide Power;
    if n == 0 {
      PowerNext(x, 0);
      PowerNext(y, 0);
    } else {
      PowerGrows(x, y, n - 1);
      PowerNext(x, n - 1);
      PowerNext(y, n - 1);
      Products(x, y, Power(x, n - 1), Power(y, n - 1));
    }
  }

  lemma {:induction false} PowerStrict(x: nat, y: nat, n: nat)
    requires x < y && n > 0
    ensures Power(x, n) < Power(y, n)
  {
    hide Power;
    PowerNext(x, n - 1);
    PowerNext(y, n - 1);
    PowerGrows(x, y, n - 1);
    PowerPositive(y, n - 1);
    Products(x, x, Power(x, n - 1), Power(y, n - 1));
    Distribute(x, y - x, Power(y, n - 1));
    MulMonotone(1, y - x, Power(y, n - 1));
  }

  lemma {:induction false} PowerPositive(x: nat, n: nat)
    requires x > 0
    ensures Power(x, n) > 0
  {
    hide Power;
    if n == 0 {
      PowerNext(x, 0);
    } else {
      PowerPositive(x, n - 1);
      PowerNext(x, n - 1);
      MulMonotone(1, x, Power(x, n - 1));
    }
  }

  lemma {:induction false} PowerOfTwo(e: nat, n: nat)
    ensures Power(Pow2(e), n) == Pow2(n * e)
  {
    hide Power, Pow2;
    if n == 0 {
      PowerNext(Pow2(e), 0);
      Pow2Next(0);
    } else {
      PowerOfTwo(e, n - 1);
      PowerNext(Pow2(e), n - 1);
      Distribute(n - 1, 1, e);
      Pow2Add(e, (n - 1) * e);
    }
  }

  // ----- powers of neighbours

  /** The 256th power. */
  function G(n: nat): nat { Power(n, 256) }

  /** The powers of neighbours grow by ever smaller factors. */
  lemma Concave(n: nat)
    requires n >= 1
    ensures G(n - 1) * G(n + 1) <= G(n) * G(n)
  {
    hide Power;
    PowerMul(n - 1, n + 1, 256);
    PowerMul(n, n, 256);
    assert (n - 1) * (n + 1) <= n * n;
    PowerGrows((n - 1) * (n + 1), n * n, 256);
  }

  lemma Less(a: nat, b: nat, c: nat)
    requires c > 0 && a * c <= b * c
    ensures a <= b
  {
    if a > b {
      MulMonotone(b + 1, a, c);
      Distribute(b, 1, c);
    }
  }

  /** From a factor of at most two on, the factor stays at most two. */
  lemma SlowsDown(n: nat)
    requires n >= 1 && G(n + 1) <= 2 * G(n)
    ensures G(n + 2) <= 2 * G(n + 1)
  {
    hide G;
    Concave(n + 1);
    GPositive(n);
    MulMonotone(G(n + 1), 2 * G(n), G(n + 1));
    assert G(n) * G(n + 2) <= 2 * G(n) * G(n + 1);
    assert 2 * G(n) * G(n + 1) == (2 * G(n + 1)) * G(n);
    Less(G(n + 2), 2 * G(n + 1), G(n));
  }

  lemma GPositive(n: nat)
    requires n >= 1
    ensures G(n) > 0
  {
    hide Power;
    PowerPositive(n, 256);
  }

  lemma {:induction false} AtMostDoubling(n: nat, m: nat)
    requires n >= 1 && G(n + 1) <= 2 * G(n)
    ensures G(n + m) <= Pow2(m) * G(n) && G(n + m + 1) <= 2 * G(n + m)
    decreases m
  {
    hide G, Pow2;
    if m == 0 {
      Pow2Next(0);
    } else {
      AtMostDoubling(n, m - 1);
      SlowsDown(n + m - 1);
      Pow2Next(m - 1);
      Regroup(2, Pow2(m - 1), G(n));
    }
  }

  /** As long as a later factor is at least two, the earlier ones are. */
  lemma {:induction false} AtLeastDoubling(n: nat, m: nat)
    requires n >= 1 && G(n + m + 1) >= 2 * G(n + m)
    ensures Pow2(m) * G(n) <= G(n + m) && G(n + 1) >= 2 * G(n)
    decreases m
  {
    hide G, Pow2;
    if m == 0 {
      Pow2Next(0);
    } else {
      if G(n + m) < 2 * G(n + m - 1) {
        Strictly(n + m - 1);
      }
      AtLeastDoubling(n, m - 1);
      Pow2Next(m - 1);
      Regroup(2, Pow2(m - 1), G(n));
    }
  }

  lemma Strictly(n: nat)
    requires n >= 1 && G(n + 1) < 2 * G(n)
    ensures G(n + 2) < 2 * G(n + 1)
  {
    hide G;
    Concave(n + 1);
    GPositive(n);
    GPositive(n + 1);
    Regroup(2, G(n), G(n + 1));
    Regroup(2, G(n + 1), G(n));
    MulMonotone(G(n + 1) + 1, 2 * G(n), G(n + 1));
    Distribute(G(n + 1), 1, G(n + 1));
    if G(n + 2) >= 2 * G(n + 1) {
      MulMonotone(2 * G(n + 1), G(n + 2), G(n));
    }
  }

  // ----- from below

  /** Between 256 and 512 the power never falls below the powers of two. */
  lemma {:induction false} Above(k: nat)
    requires k <= 256
    ensures Pow2(2048 + k) <= G(256 + k)
    decreases k
  {
    hide G, Pow2;
    if k == 0 {
      Ends();
    } else {
      Above(k - 1);
      var n := 255 + k;
      Pow2Next(2047 + k);
      if G(n + 1) < 2 * G(n) {
        Ends();
        Strictly(n);
        AtMostDoubling(n + 1, 256 - k);
        assert n + 1 + (256 - k) == 512;
        Pow2Add(256 - k, 2048 + k);
        assert (256 - k) + (2048 + k) == 2304;
        assert Pow2(2048 + k) * Pow2(256 - k) <= G(n + 1) * Pow2(256 - k);
        Less(Pow2(2048 + k), G(n + 1), Pow2(256 - k));
      }
    }
  }

  lemma Ends()
    ensures G(256) == Pow2(2048) && G(512) == Pow2(2304)
  {
    hide Power, Pow2;
    Pow2Bytes();
    Pow2Next(8);
    PowerOfTwo(8, 256);
    PowerOfTwo(9, 256);
  }

  // ----- from above

  lemma PowerTwice(x: nat, n: nat)
    ensures Power(x, 2 * n) == Power(x, n) * Power(x, n)
  {
    PowerAdd(x, n, n);
  }

  /** Squaring a bound on a quotient of powers, in units of 2^-24. */
  lemma QuotientTwice(x: nat, y: nat, n: nat, q: nat, r: nat)
    requires Power(x, n) * 0x100_0000 <= Power(y, n) * q && q * q <= r * 0x100_0000
    ensures Power(x, 2 * n) * 0x100_0000 <= Power(y, 2 * n) * r
  {
    hide Power;
    var a, b := Power(x, n), Power(y, n);
    PowerTwice(x, n);
    PowerTwice(y, n);
    Products(a * 0x100_0000, b * q, a * 0x100_0000, b * q);
    Swap(a, 0x100_0000, a, 0x100_0000);
    Swap(b, q, b, q);
    MulMonotone(q * q, r * 0x100_0000, b * b);
    Regroup(b * b, r, 0x100_0000);
    Regroup(a * a, 0x100_0000, 0x100_0000);
    Less((a * a) * 0x100_0000, (b * b) * r, 0x100_0000);
  }

  /** Behind 369 the powers grow by less than a factor of two, */
  lemma Slow()
    ensures G(370) <= 2 * G(369)
  {
    hide Power;
    PowerNext(370, 0);
    PowerNext(369, 0);
    QuotientTwice(370, 369, 1, 0x100B19B, 0x10163B2);
    QuotientTwice(370, 369, 2, 0x10163B2, 0x102C953);
    QuotientTwice(370, 369, 4, 0x102C953, 0x1059A6A);
    QuotientTwice(370, 369, 8, 0x1059A6A, 0x10B543A);
    QuotientTwice(370, 369, 16, 0x10B543A, 0x11728CD);
    QuotientTwice(370, 369, 32, 0x11728CD, 0x13069F6);
    QuotientTwice(370, 369, 64, 0x13069F6, 0x169FBD5);
    QuotientTwice(370, 369, 128, 0x169FBD5, 0x1FFD837);
    QuotientEnds(G(370), G(369), 0x1FFD837);
  }

  /** and up to there by more. */
  lemma Fast()
    ensures 2 * G(368) <= G(369)
  {
    hide Power;
    PowerNext(368, 0);
    PowerNext(369, 0);
    QuotientTwice(368, 369, 1, 0xFF4E66, 0xFE9D48);
    QuotientTwice(368, 369, 2, 0xFE9D48, 0xFD3C7C);
    QuotientTwice(368, 369, 4, 0xFD3C7C, 0xFA809C);
    QuotientTwice(368, 369, 8, 0xFA809C, 0xF51F72);
    QuotientTwice(368, 369, 16, 0xF51F72, 0xEAB535);
    QuotientTwice(368, 369, 32, 0xEAB535, 0xD72FC6);
    QuotientTwice(368, 369, 64, 0xD72FC6, 0xB4E148);
    QuotientTwice(368, 369, 128, 0xB4E148, 0x7FCD94);
    QuotientEnds(G(368), G(369), 0x7FCD94);
  }

  lemma QuotientEnds(a: nat, b: nat, q: nat)
    requires a * 0x100_0000 <= b * q
    ensures q <= 0x200_0000 ==> a <= 2 * b
    ensures q <= 0x80_0000 ==> 2 * a <= b
  {
    if q <= 0x200_0000 {
      MulMonotone(q, 0x200_0000, b);
    }
    if q <= 0x80_0000 {
      MulMonotone(q, 0x80_0000, b);
    }
  }

  /** Squaring a bound by a number and a power of two. */
  lemma BoundTwice(n: nat, m: nat, e: nat, m': nat, s: nat)
    requires Power(369, n) <= m * Pow2(e) && m * m <= m' * Pow2(s)
    ensures Power(369, 2 * n) <= m' * Pow2(s + (e + e))
  {
    hide Power, Pow2;
    PowerTwice(369, n);
    var p, q := Power(369, n), Pow2(e);
    Products(p, m * q, p, m * q);
    Swap(m, q, m, q);
    MulMonotone(m * m, m' * Pow2(s), q * q);
    Pow2Add(e, e);
    Pow2Add(s, e + e);
    Regroup(m', Pow2(s), q * q);
  }

  lemma Peak()
    ensures G(369) <= Pow2(2184)
  {
    hide Power, Pow2;
    PowerNext(369, 0);
    Pow2Next(0);
    Pow2Bytes();
    Pow2Next(8);
    BoundTwice(1, 369, 0, 266, 9);
    BoundTwice(2, 266, 9, 277, 8);
    BoundTwice(4, 277, 26, 300, 8);
    BoundTwice(8, 300, 60, 352, 8);
    BoundTwice(16, 352, 128, 484, 8);
    BoundTwice(32, 484, 264, 458, 9);
    BoundTwice(64, 458, 537, 410, 9);
    BoundTwice(128, 410, 1083, 329, 9);
    MulMonotone(329, Pow2(9), Pow2(2175));
    Pow2Add(9, 2175);
  }

  /** From 257 to 512 the power stays within 24 powers of two of what the interpolation gives one step further down. */
  lemma Below(n: nat)
    requires 257 <= n <= 512
    ensures G(n) <= Pow2(1815 + n)
  {
    hide G, Pow2;
    Peak();
    Slow();
    Fast();
    if n >= 369 {
      AtMostDoubling(369, n - 369);
      MulMonotone(G(369), Pow2(2184), Pow2(n - 369));
      Pow2Add(n - 369, 2184);
    } else {
      AtLeastDoubling(n, 368 - n);
      Pow2Next(368 - n);
      Pow2Add(369 - n, 1815 + n);
      Regroup(2, Pow2(368 - n), G(n));
      assert Pow2(369 - n) * G(n) <= Pow2(2184);
      assert G(n) * Pow2(369 - n) <= Pow2(1815 + n) * Pow2(369 - n);
      Less(G(n), Pow2(1815 + n), Pow2(369 - n));
    }
  }

  // ----- the logarithm

  /** The mantissa between two neighbours. */
  lemma Between(x: nat, base: nat, k: nat)
    requires 0 < base <= x && k == (x - base) * 256 / base
    ensures (256 + k) * base <= 256 * x < (257 + k) * base
  {
    var v := (x - base) * 256;
    assert v == k * base + v % base;
    Distribute(256, k, base);
    Distribute(256 + k, 1, base);
  }

  /** 256 log2(x) lies in `[Log2Fixed(x), Log2Fixed(x) + 24)`. */
  lemma LogAccurate(x: nat)
    requires x >= 1
    ensures Pow2(Log2Fixed(x)) <= Power(x, 256) < Pow2(Log2Fixed(x) + 24)
  {
    hide Power, Pow2, FloorLog;
    var e := FloorLog(x);
    var base := Pow2(e);
    var k := (x - base) * 256 / base;
    LogRange(x);
    Between(x, base, k);
    Ends();
    PowerOfTwo(e, 256);
    PowerMul(256, x, 256);
    // from below
    PowerMul(256 + k, base, 256);
    PowerGrows((256 + k) * base, 256 * x, 256);
    Above(k);
    Scaled(Power(x, 256), G(256 + k), 256 * e, k);
    // from above
    PowerMul(257 + k, base, 256);
    PowerStrict(256 * x, (257 + k) * base, 256);
    Below(257 + k);
    ScaledUp(Power(x, 256), G(257 + k), 256 * e, k);
  }

  /** Doubling adds one bit. */
  lemma LogDoubles(x: nat)
    requires x >= 1
    ensures Log2Fixed(2 * x) == Log2Fixed(x) + 256
  {
    hide Pow2, FloorLog, Log2Fixed;
    var base := Pow2(FloorLog(x));
    FloorTwice(x);
    LogAt(x, base);
    LogAt(2 * x, 2 * base);
    TwiceOver(256 * x - 256 * base, base);
  }

  lemma TwiceOver(v: nat, base: nat)
    requires base > 0
    ensures 2 * v / (2 * base) == v / base
  {
    DivModUnique(2 * v, 2 * base, v / base, 2 * (v % base));
  }

  /** From 512 on the lowest bit does not count. */
  lemma LogHalves(x: nat)
    requires x >= 512
    ensures Log2Fixed(x) == Log2Fixed(x / 2) + 256
  {
    hide Pow2, FloorLog, Log2Fixed;
    var half := x / 2;
    LogDoubles(half);
    if x % 2 == 1 {
      FloorTwice(half);
      LongFloor(half);
      LowestBit(half, Pow2(FloorLog(half)) / 256, Pow2(FloorLog(2 * half)));
    }
  }

  lemma LowestBit(half: nat, c: nat, base: nat)
    requires half >= 1 && base == 512 * c == Pow2(FloorLog(2 * half)) == Pow2(FloorLog(2 * half + 1))
    requires FloorLog(2 * half) == FloorLog(2 * half + 1)
    ensures Log2Fixed(2 * half) == Log2Fixed(2 * half + 1)
  {
    hide Pow2, FloorLog, Log2Fixed;
    LogAt(2 * half, base);
    LogAt(2 * half + 1, base);
    OddBit(half - 256 * c, c, base);
  }

  lemma FloorTwice(x: nat)
    requires x >= 1
    ensures FloorLog(2 * x) == FloorLog(2 * x + 1) == FloorLog(x) + 1
    ensures Pow2(FloorLog(x) + 1) == 2 * Pow2(FloorLog(x))
  {
    assert (2 * x + 1) / 2 == x;
  }

  lemma LogAt(x: nat, base: nat)
    requires x >= 1 && base == Pow2(FloorLog(x))
    ensures Log2Fixed(x) == 256 * FloorLog(x) + (256 * x - 256 * base) / base
  {
    hide FloorLog;
  }

  lemma OddBit(v: nat, c: nat, d: nat)
    requires d == 512 * c > 0
    ensures (512 * v + 256) / d == 512 * v / d
  {
    var k := v / c;
    DivModUnique(512 * v, d, k, 512 * (v - k * c));
    DivModUnique(512 * v + 256, d, k, 512 * (v - k * c) + 256);
  }

  lemma LongFloor(x: nat)
    requires x >= 256
    ensures Pow2(FloorLog(x)) % 256 == 0
  {
    hide Pow2, FloorLog;
    Pow2Bytes();
    if FloorLog(x) < 8 {
      Pow2Grows(FloorLog(x), 7);
      Pow2Next(7);
    }
    Pow2Add(8, FloorLog(x) - 8);
    DivModUnique(Pow2(FloorLog(x)), 256, Pow2(FloorLog(x) - 8), 0);
  }

  /** Between 256 and 511 the logarithm is the line through its ends; with doubling and halving that is all of it. */
  lemma LogOctave(f: nat)
    requires f < 256
    ensures Log2Fixed(256 + f) == 2048 + f
  {
    hide Pow2, FloorLog;
    Pow2Bytes();
    Pow2Next(8);
    FloorIs(256 + f, 8);
    DivModUnique(f * 256, 256, f, 0);
  }

  lemma FloorIs(x: nat, n: nat)
    requires Pow2(n) <= x < 2 * Pow2(n)
    ensures FloorLog(x) == n
  {
    hide Pow2, FloorLog;
    var m := FloorLog(x);
    if m < n {
      Pow2Next(m);
      Pow2Grows(m + 1, n);
    } else if n < m {
      Pow2Next(n);
      Pow2Grows(n + 1, m);
    }
  }

  lemma Scaled(p: nat, g: nat, e: nat, k: nat)
    requires g * Pow2(e) <= Pow2(2048) * p && Pow2(2048 + k) <= g
    ensures Pow2(e + k) <= p
  {
    hide Pow2;
    Pow2Add(2048 + k, e);
    Pow2Add(2048, k + e);
    MulMonotone(Pow2(2048 + k), g, Pow2(e));
    assert (2048 + k) + e == 2048 + (k + e);
    assert Pow2(k + e) * Pow2(2048) <= p * Pow2(2048);
    Less(Pow2(k + e), p, Pow2(2048));
  }

  lemma ScaledUp(p: nat, g: nat, e: nat, k: nat)
    requires Pow2(2048) * p < g * Pow2(e) && g <= Pow2(2072 + k)
    ensures p < Pow2(e + k + 24)
  {
    hide Pow2;
    Pow2Add(2072 + k, e);
    Pow2Add(2048, 24 + k + e);
    MulMonotone(g, Pow2(2072 + k), Pow2(e));
    assert (2072 + k) + e == 2048 + (24 + k + e);
    if p >= Pow2(24 + k + e) {
      MulMonotone(Pow2(24 + k + e), p, Pow2(2048));
    }
  }

  // ----- the cost of a histogram

  lemma {:induction false} PowerPower(x: nat, m: nat, n: nat)
    ensures Power(x, m * n) == Power(Power(x, m), n)
    decreases n
  {
    hide Power;
    var p := Power(x, m);
    if n == 0 {
      PowerNext(x, 0);
      PowerNext(p, 0);
    } else {
      PowerPower(x, m, n - 1);
      PowerNext(p, n - 1);
      Distribute(n - 1, 1, m);
      PowerAdd(x, m, m * (n - 1));
    }
  }

  /** The product of all counts, each as often as it says, 256 times over: 2^(-256 times the entropy), but for the total. */
  function Ways(h: seq<nat>): nat {
    if h == [] then 1 else Ways(h[..|h| - 1]) * Power(h[|h| - 1], 256 * h[|h| - 1])
  }

  /** `count` times the logarithm of `x`. */
  lemma Raised(x: nat, count: nat)
    requires x >= 1
    ensures Pow2(count * Log2Fixed(x)) <= Power(x, 256 * count) <= Pow2(count * Log2Fixed(x) + 24 * count)
  {
    hide Power, Pow2, Log2Fixed;
    var l := Log2Fixed(x);
    LogAccurate(x);
    PowerPower(x, 256, count);
    PowerOfTwo(l, count);
    PowerOfTwo(l + 24, count);
    PowerGrows(Pow2(l), Power(x, 256), count);
    PowerGrows(Power(x, 256), Pow2(l + 24), count);
    Distribute(l, 24, count);
  }

  /** What one kind of symbol costs, against its share of the entropy. */
  lemma ShareAccurate(c: nat, t: nat)
    requires c <= t && t >= 1
    ensures Share(c, t) >= 0
    ensures Pow2(Share(c, t)) * Power(c, 256 * c) <= Power(t, 256 * c) * Pow2(24 * c)
    ensures Power(t, 256 * c) <= Pow2(Share(c, t) + 24 * c) * Power(c, 256 * c)
  {
    hide Power, Pow2, Log2Fixed;
    ShareBounds(c, t);
    if c == 0 {
      PowerNext(0, 0);
      PowerNext(t, 0);
      Pow2Next(0);
    } else {
      var s, lt, lc := Share(c, t), c * Log2Fixed(t), c * Log2Fixed(c);
      Distribute(Log2Fixed(t) - Log2Fixed(c), Log2Fixed(c), c);
      assert s + lc == lt;
      Raised(t, c);
      Raised(c, c);
      Pow2Add(s, lc + 24 * c);
      Pow2Add(lt, 24 * c);
      Pow2Add(s + 24 * c, lc);
      MulMonotone(Power(c, 256 * c), Pow2(lc + 24 * c), Pow2(s));
      MulMonotone(Pow2(lt), Power(t, 256 * c), Pow2(24 * c));
      MulMonotone(Pow2(lc), Power(c, 256 * c), Pow2(s + 24 * c));
    }
  }

  lemma Chained(a: nat, b: nat, c: nat, d: nat, e: nat, f: nat, g: nat, h: nat)
    requires a * b <= c * d && e * f <= g * h
    ensures (a * e) * (b * f) <= (c * g) * (d * h)
  {
    Products(a * b, c * d, e * f, g * h);
    Swap(a, b, e, f);
    Swap(c, d, g, h);
  }

  /**
   The cost of a histogram lies within 24/256 of a bit per symbol of its entropy, the total times its logarithm less
   each count times its own.
   */
  lemma {:induction false} CostAccurate(h: seq<nat>, t: nat)
    requires Total(h) <= t && t >= 1
    ensures Cost(h, t) >= 0
    ensures Pow2(Cost(h, t)) * Ways(h) <= Power(t, 256 * Total(h)) * Pow2(24 * Total(h))
    ensures Power(t, 256 * Total(h)) <= Pow2(Cost(h, t) + 24 * Total(h)) * Ways(h)
    decreases |h|
  {
    hide Power, Pow2, Share, Log2Fixed;
    if h == [] {
      PowerNext(t, 0);
      Pow2Next(0);
    } else {
      var n, c := Total(h[..|h| - 1]), h[|h| - 1];
      var k, s := Cost(h[..|h| - 1], t), Share(c, t);
      CostAccurate(h[..|h| - 1], t);
      ShareAccurate(c, t);
      Pow2Add(k, s);
      Pow2Add(24 * n, 24 * c);
      Pow2Add(k + 24 * n, s + 24 * c);
      PowerAdd(t, 256 * n, 256 * c);
      assert 256 * n + 256 * c == 256 * Total(h) && 24 * n + 24 * c == 24 * Total(h);
      assert (k + 24 * n) + (s + 24 * c) == Cost(h, t) + 24 * Total(h);
      Chained(Pow2(k), Ways(h[..|h| - 1]), Power(t, 256 * n), Pow2(24 * n), Pow2(s), Power(c, 256 * c),
              Power(t, 256 * c), Pow2(24 * c));
      Products(Power(t, 256 * n), Pow2(k + 24 * n) * Ways(h[..|h| - 1]), Power(t, 256 * c),
               Pow2(s + 24 * c) * Power(c, 256 * c));
      Swap(Pow2(k + 24 * n), Ways(h[..|h| - 1]), Pow2(s + 24 * c), Power(c, 256 * c));
    }
  }

  /** The same for a whole histogram with its own total. */
  lemma BitsAccurate(h: Hist)
    requires Total(h) >= 1
    ensures Bits(h) >= 0
    ensures Pow2(Bits(h)) * Ways(h) <= Power(Total(h), 256 * Total(h)) * Pow2(24 * Total(h))
    ensures Power(Total(h), 256 * Total(h)) <= Pow2(Bits(h) + 24 * Total(h)) * Ways(h)
  {
    hide Power, Pow2, Cost, Ways, Total;
    CostAccurate(h, Total(h));
  }
}
