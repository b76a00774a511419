/**
 CRC-32: the fast update (eight tables, four lanes joined by a multiplication) against the register that shifts one
 bit at a time, as section 8 of RFC 1952 defines it.
 */
module Crc {
  type Octet = bv8
  type Register = bv32

  const POLY: Register := 0xEDB8_8320
  const ONE: Register := 0x8000_0000  // x^0: the representation is reflected

  function Xor(a: Register, b: Register): Register { a ^ b }

  function Half(s: Register): Register { s >> 1 }

  predicate Odd(s: Register) { s & 1 != 0 }

  function Low(b: Octet): Register { b as Register }

  // ----- the bit-at-a-time register

  /** One shift: multiplication by x modulo the polynomial. */
  function Step(s: Register): Register {
    if Odd(s) then Xor(Half(s), POLY) else Half(s)
  }

  function Steps(s: Register, n: nat): Register
    decreases n
  {
    if n == 0 then s else Steps(Step(s), n - 1)
  }

  /** The register after `data`. */
  function Crc(s: Register, data: seq<Octet>): Register
    decreases |data|
  {
    if data == [] then s else Crc(Steps(Xor(s, Low(data[0])), 8), data[1..])
  }

  // ----- exclusive or, kept opaque to the inductions

  lemma XorAssoc(a: Register, b: Register, c: Register)
    ensures Xor(Xor(a, b), c) == Xor(a, Xor(b, c))
  {
  }

  lemma XorComm(a: Register, b: Register)
    ensures Xor(a, b) == Xor(b, a)
  {
  }

  lemma XorZero(a: Register)
    ensures Xor(a, 0) == a && Xor(0, a) == a
  {
  }

  lemma Interchange(a: Register, b: Register, c: Register, d: Register)
    ensures Xor(Xor(a, b), Xor(c, d)) == Xor(Xor(a, c), Xor(b, d))
  {
    hide Xor;
    XorAssoc(a, b, Xor(c, d));
    XorAssoc(b, c, d);
    XorComm(b, c);
    XorAssoc(c, b, d);
    XorAssoc(a, c, Xor(b, d));
  }

  // ----- linearity

  lemma HalfXor(a: Register, b: Register)
    ensures Half(Xor(a, b)) == Xor(Half(a), Half(b))
  {
  }

  lemma OddXor(a: Register, b: Register)
    ensures Odd(Xor(a, b)) <==> Odd(a) != Odd(b)
  {
    assert (a ^ b) & 1 == (a & 1) ^ (b & 1);
    assert a & 1 == 0 || a & 1 == 1;
    assert b & 1 == 0 || b & 1 == 1;
  }

  lemma StepXor(a: Register, b: Register)
    ensures Step(Xor(a, b)) == Xor(Step(a), Step(b))
  {
    hide Xor, Half, Odd;
    var p: Register, q: Register := Half(a), Half(b);
    HalfXor(a, b);
    OddXor(a, b);
    XorAssoc(p, q, POLY);
    if Odd(a) {
      XorAssoc(p, POLY, q);
      XorComm(POLY, q);
      if Odd(b) {
        XorAssoc(p, POLY, Xor(q, POLY));
        Interchange(p, POLY, q, POLY);
        XorSelf(POLY);
        XorZero(Xor(p, q));
      }
    }
  }

  lemma XorSelf(a: Register)
    ensures Xor(a, a) == 0
  {
  }

  lemma StepZero()
    ensures Step(0) == 0
  {
  }

  lemma StepsMore(s: Register, n: nat)
    requires n > 0
    ensures Steps(s, n) == Steps(Step(s), n - 1)
  {
    hide Step;
  }

  lemma StepsNone(s: Register)
    ensures Steps(s, 0) == s
  {
  }

  lemma {:induction false} StepsXor(a: Register, b: Register, n: nat)
    ensures Steps(Xor(a, b), n) == Xor(Steps(a, n), Steps(b, n))
    decreases n
  {
    hide Xor, Step, Steps;
    if n == 0 {
      StepsNone(a);
      StepsNone(b);
      StepsNone(Xor(a, b));
    } else {
      StepXor(a, b);
      StepsXor(Step(a), Step(b), n - 1);
      StepsMore(a, n);
      StepsMore(b, n);
      StepsMore(Xor(a, b), n);
    }
  }

  lemma {:induction false} StepsAdd(s: Register, m: nat, n: nat)
    ensures Steps(Steps(s, m), n) == Steps(s, m + n)
    decreases m
  {
    hide Step;
    if m > 0 {
      StepsAdd(Step(s), m - 1, n);
    }
  }

  lemma CrcMore(s: Register, data: seq<Octet>)
    requires data != []
    ensures Crc(s, data) == Crc(Steps(Xor(s, Low(data[0])), 8), data[1..])
  {
    hide Xor, Steps;
  }

  /** Splitting the data across calls gives the same register as one call. */
  lemma {:induction false} CrcAppend(s: Register, a: seq<Octet>, b: seq<Octet>)
    ensures Crc(s, a + b) == Crc(Crc(s, a), b)
    decreases |a|
  {
    hide Xor, Steps, Low;
    if a == [] {
      assert a + b == b;
    } else {
      assert (a + b)[1..] == a[1..] + b;
      CrcAppend(Steps(Xor(s, Low(a[0])), 8), a[1..], b);
    }
  }

  /** A register's own contribution passes through the data untouched: it is advanced over that many zero bytes. */
  lemma {:induction false} CrcLinear(r: Register, s: Register, data: seq<Octet>)
    ensures Crc(Xor(r, s), data) == Xor(Steps(r, 8 * |data|), Crc(s, data))
    decreases |data|
  {
    hide Xor, Steps, Low;
    if data == [] {
      StepsNone(r);
    } else {
      var d := Low(data[0]);
      XorAssoc(r, s, d);
      StepsXor(r, Xor(s, d), 8);
      CrcLinear(Steps(r, 8), Steps(Xor(s, d), 8), data[1..]);
      StepsAdd(r, 8, 8 * |data[1..]|);
    }
  }

  // ----- multiplication modulo the polynomial

  lemma MaskShrinks(m: Register)
    requires m != 0
    ensures m >> 1 < m
  {
  }

  function Pick(a: Register, m: Register, b: Register): Register {
    if a & m != 0 then b else 0
  }

  /** The terms of `a * b` for the coefficients of `a` from mask `m` on. */
  function Mul(a: Register, b: Register, m: Register): Register
    decreases m
  {
    if m == 0 then 0
    else
      MaskShrinks(m);
      Xor(Pick(a, m, b), Mul(a, Step(b), Half(m)))
  }

  lemma MulMore(a: Register, b: Register, m: Register)
    requires m != 0
    ensures Mul(a, b, m) == Xor(Pick(a, m, b), Mul(a, Step(b), Half(m))) && Half(m) < m
  {
    hide Xor, Pick, Step;
    MaskShrinks(m);
  }

  lemma MulNone(a: Register, b: Register)
    ensures Mul(a, b, 0) == 0
  {
  }

  lemma PickXor(a: Register, m: Register, b: Register, c: Register)
    ensures Pick(a, m, Xor(b, c)) == Xor(Pick(a, m, b), Pick(a, m, c))
  {
  }

  lemma PickStep(a: Register, m: Register, b: Register)
    ensures Pick(a, m, Step(b)) == Step(Pick(a, m, b))
  {
    hide Step;
    StepZero();
  }

  lemma {:induction false} MulXor(a: Register, b: Register, c: Register, m: Register)
    ensures Mul(a, Xor(b, c), m) == Xor(Mul(a, b, m), Mul(a, c, m))
    decreases m
  {
    hide Xor, Step, Pick, Half, Mul;
    if m == 0 {
      MulNone(a, b);
      MulNone(a, c);
      MulNone(a, Xor(b, c));
      XorZero(0);
    } else {
      MulMore(a, b, m);
      MulMore(a, c, m);
      MulMore(a, Xor(b, c), m);
      StepXor(b, c);
      MulXor(a, Step(b), Step(c), Half(m));
      PickXor(a, m, b, c);
      Interchange(Pick(a, m, b), Pick(a, m, c), Mul(a, Step(b), Half(m)), Mul(a, Step(c), Half(m)));
    }
  }

  /** Multiplying commutes with shifting. */
  lemma {:induction false} MulStep(a: Register, b: Register, m: Register)
    ensures Mul(a, Step(b), m) == Step(Mul(a, b, m))
    decreases m
  {
    hide Xor, Step, Pick, Half, Mul;
    if m == 0 {
      MulNone(a, b);
      MulNone(a, Step(b));
      StepZero();
    } else {
      MulMore(a, b, m);
      MulMore(a, Step(b), m);
      MulStep(a, Step(b), Half(m));
      PickStep(a, m, b);
      StepXor(Pick(a, m, b), Mul(a, Step(b), Half(m)));
    }
  }

  lemma {:induction false} MulSteps(a: Register, b: Register, m: Register, n: nat)
    ensures Mul(a, Steps(b, n), m) == Steps(Mul(a, b, m), n)
    decreases n
  {
    hide Step, Steps, Mul;
    if n == 0 {
      StepsNone(b);
      StepsNone(Mul(a, b, m));
    } else {
      MulSteps(a, Step(b), m, n - 1);
      MulStep(a, b, m);
      StepsMore(b, n);
      StepsMore(Mul(a, b, m), n);
    }
  }

  lemma {:induction false} MulZero(a: Register, m: Register)
    ensures Mul(a, 0, m) == 0
    decreases m
  {
    hide Xor, Step, Pick, Half, Mul;
    if m == 0 {
      MulNone(a, 0);
    } else {
      MulMore(a, 0, m);
      StepZero();
      MulZero(a, Half(m));
      PickZero(a, m);
      XorZero(0);
    }
  }

  lemma PickZero(a: Register, m: Register)
    ensures Pick(a, m, 0) == 0
  {
  }

  lemma PickMul(a: Register, b: Register, c: Register, m: Register)
    ensures Mul(a, Pick(b, m, c), ONE) == Pick(b, m, Mul(a, c, ONE))
  {
    hide Mul;
    MulZero(a, ONE);
  }

  lemma {:induction false} MulExchange(a: Register, b: Register, c: Register, m: Register)
    ensures Mul(a, Mul(b, c, m), ONE) == Mul(b, Mul(a, c, ONE), m)
    decreases m
  {
    hide Xor, Step, Pick, Half, Mul;
    var p := Mul(a, c, ONE);
    if m == 0 {
      MulNone(b, c);
      MulNone(b, p);
      MulZero(a, ONE);
    } else {
      MulMore(b, c, m);
      MulMore(b, p, m);
      var rest := Mul(b, Step(c), Half(m));
      MulXor(a, Pick(b, m, c), rest, ONE);
      PickMul(a, b, c, m);
      MulStep(a, c, ONE);
      MulExchange(a, b, Step(c), Half(m));
    }
  }

  /** Coefficients of `a` at mask `m`, a power of two, and below. */
  function Upto(a: Register, m: Register): Register { a & (m | (m - 1)) }

  predicate Single(m: Register) { m & (m - 1) == 0 && m > 0 }

  lemma HalfSingle(m: Register)
    requires Single(m) && m > 1
    ensures Single(Half(m)) && !Odd(m)
  {
  }

  lemma BelowHalf(a: Register, m: Register)
    requires Single(m) && m > 1
    ensures Upto(a, Half(m)) == a & (m - 1)
  {
    assert (m >> 1) | ((m >> 1) - 1) == m - 1;
  }

  lemma TopCoefficient(a: Register, m: Register)
    requires Single(m)
    ensures Pick(a, m, m) == a & m
  {
    assert a & m == 0 || a & m == m;
  }

  lemma Split(a: Register, m: Register, n: Register)
    requires m & n == 0
    ensures Xor(a & m, a & n) == a & (m | n)
  {
    assert a & (m | n) == (a & m) ^ (a & n);
  }

  lemma FromTop(a: Register, m: Register)
    requires Single(m)
    ensures Xor(a & m, a & (m - 1)) == Upto(a, m)
  {
    hide Xor;
    Split(a, m, m - 1);
  }

  lemma KeepTop(a: Register, m: Register)
    requires Single(m) && m > 1
    ensures Xor(Pick(a, m, m), Upto(a, Half(m))) == Upto(a, m)
  {
    hide Xor, Pick, Upto, Half, Single;
    BelowHalf(a, m);
    TopCoefficient(a, m);
    FromTop(a, m);
  }

  lemma KeepLast(a: Register)
    ensures Xor(Pick(a, 1, 1), 0) == Upto(a, 1)
    ensures Half(1) == 0
  {
    assert a & 1 == 0 || a & 1 == 1;
  }

  lemma {:induction false} MulUnit(a: Register, m: Register)
    requires Single(m)
    ensures Mul(a, m, m) == Upto(a, m)
    decreases m
  {
    hide Xor, Pick, Half, Mul, Upto, Odd;
    SingleNonzero(m);
    MulMore(a, m, m);
    if m == 1 {
      KeepLast(a);
      MulNone(a, Step(1));
    } else {
      KeepTop(a, m);
      HalfSingle(m);
      MulUnit(a, Half(m));
    }
  }

  lemma SingleNonzero(m: Register)
    requires Single(m)
    ensures m != 0 && (m != 1 ==> m > 1)
  {
  }

  lemma WholeUnit(a: Register)
    ensures Single(ONE) && Upto(a, ONE) == a
  {
    var m: Register := 0x8000_0000;
    assert m & (m - 1) == 0 && m > 0;
    assert m | (m - 1) == 0xFFFF_FFFF;
  }

  lemma MulOne(a: Register)
    ensures Mul(a, ONE, ONE) == a
  {
    hide Mul, Upto, Single;
    WholeUnit(a);
    MulUnit(a, ONE);
  }

  lemma MulComm(a: Register, b: Register)
    ensures Mul(a, b, ONE) == Mul(b, a, ONE)
  {
    hide Mul;
    MulExchange(a, b, ONE, ONE);
    MulOne(a);
    MulOne(b);
  }

  /** Multiplying by x^n advances a register by n shifts. */
  lemma MulPower(b: Register, n: nat)
    ensures Mul(Steps(ONE, n), b, ONE) == Steps(b, n)
  {
    hide Mul, Steps;
    MulComm(Steps(ONE, n), b);
    MulSteps(b, ONE, ONE, n);
    MulOne(b);
  }

  // ----- bytes of a register

  function Rest(v: Register): Register { v >> 8 }

  function First(v: Register): Register { v & 0xFF }

  function Above(v: Register): Register { v & 0xFFFF_FF00 }

  lemma Parts(v: Register)
    ensures v == Xor(Above(v), First(v)) && Rest(Above(v)) == Rest(v)
  {
  }

  /** While the coefficients in mask `m` are clear a shift only moves the others down. */
  lemma StepClear(h: Register, m: Register, n: nat)
    requires h & m == 0 && m & 1 == 1 && n > 0
    ensures Steps(h, n) == Steps(Half(h), n - 1) && Half(h) & (m >> 1) == 0
  {
    hide Xor, Steps;
    ClearHalf(h, m);
    StepsMore(h, n);
  }

  lemma ClearHalf(h: Register, m: Register)
    requires h & m == 0 && m & 1 == 1
    ensures h & 1 == 0 && (h >> 1) & (m >> 1) == 0
  {
  }

  lemma EightHalves(v: Register)
    ensures Half(Half(Half(Half(Half(Half(Half(Half(Above(v))))))))) == Rest(v)
  {
    hide Half, Above, Rest, Nibble;
    FourHalves(Above(v));
    FourHalves(Nibble(Above(v)));
    TwiceFour(v);
  }

  /** Four places down. */
  function Nibble(v: Register): Register { v >> 4 }

  lemma TwiceFour(v: Register)
    ensures Nibble(Nibble(Above(v))) == Rest(v)
  {
  }

  lemma FourHalves(v: Register)
    ensures Half(Half(Half(Half(v)))) == Nibble(v)
  {
    hide Half, Nibble, Pair;
    TwoHalves(v);
    TwoHalves(Pair(v));
    TwicePair(v);
  }

  /** Two places down. */
  function Pair(v: Register): Register { v >> 2 }

  lemma TwoHalves(v: Register)
    ensures Half(Half(v)) == Pair(v)
  {
  }

  lemma TwicePair(v: Register)
    ensures Pair(Pair(v)) == Nibble(v)
  {
  }

  lemma AboveClear(v: Register)
    ensures Above(v) & 0xFF == 0
  {
  }

  /** Without its lowest byte a register shifts down unchanged. */
  lemma StepsAbove(v: Register)
    ensures Steps(Above(v), 8) == Rest(v)
  {
    hide Half, Steps, Above, Rest;
    var h := Above(v);
    AboveClear(v);
    StepClear(h, 0xFF, 8);
    StepClear(Half(h), 0x7F, 7);
    StepClear(Half(Half(h)), 0x3F, 6);
    StepClear(Half(Half(Half(h))), 0x1F, 5);
    StepClear(Half(Half(Half(Half(h)))), 0xF, 4);
    StepClear(Half(Half(Half(Half(Half(h))))), 7, 3);
    StepClear(Half(Half(Half(Half(Half(Half(h)))))), 3, 2);
    StepClear(Half(Half(Half(Half(Half(Half(Half(h))))))), 1, 1);
    EightHalves(v);
    StepsNone(Rest(v));
  }

  /** The table form of eight shifts. */
  lemma EightSteps(v: Register)
    ensures Steps(v, 8) == Xor(Rest(v), Steps(First(v), 8))
  {
    hide Xor, Steps, Above, Rest, First;
    Parts(v);
    StepsXor(Above(v), First(v), 8);
    StepsAbove(v);
  }

  /** Each byte of a register may be advanced on its own. */
  lemma SplitByte(v: Register, n: nat)
    ensures Steps(v, 8 + n) == Xor(Steps(First(v), 8 + n), Steps(Rest(v), n))
  {
    hide Xor, Steps, Rest, First;
    EightSteps(v);
    StepsAdd(v, 8, n);
    StepsXor(Rest(v), Steps(First(v), 8), n);
    StepsAdd(First(v), 8, n);
    XorComm(Steps(Rest(v), n), Steps(First(v), 8 + n));
  }

  lemma TopByte(v: Register)
    ensures First(Rest(Rest(Rest(v)))) == Rest(Rest(Rest(v)))
  {
  }

  lemma FourBytes(v: Register, n: nat)
    ensures Steps(v, 32 + n) == Xor(Xor(Xor(Steps(First(v), 32 + n), Steps(First(Rest(v)), 24 + n)),
                                        Steps(First(Rest(Rest(v))), 16 + n)), Steps(First(Rest(Rest(Rest(v)))), 8 + n))
  {
    hide Xor, Steps, Rest, First;
    SplitByte(v, 24 + n);
    SplitByte(Rest(v), 16 + n);
    SplitByte(Rest(Rest(v)), 8 + n);
    TopByte(v);
    var p, q := Steps(First(v), 32 + n), Steps(First(Rest(v)), 24 + n);
    var r, t := Steps(First(Rest(Rest(v))), 16 + n), Steps(First(Rest(Rest(Rest(v)))), 8 + n);
    XorAssoc(p, q, Xor(r, t));
    XorAssoc(Xor(p, q), r, t);
  }

  /** Little-endian load of the (at most four) bytes. */
  function Le(data: seq<Octet>): Register {
    if data == [] then 0 else Xor(Low(data[0]), Up(Le(data[1..])))
  }

  function Up(v: Register): Register { v << 8 }

  ghost predicate Fits(v: Register, n: nat) {
    (n == 0 ==> v == 0) && (n == 1 ==> v < 0x100) && (n == 2 ==> v < 0x1_0000) && (n == 3 ==> v < 0x100_0000)
  }

  lemma FitsMore(d: Octet, v: Register, n: nat)
    requires Fits(v, n) && n < 4
    ensures Fits(Xor(Low(d), Up(v)), n + 1)
  {
    assert d as Register < 0x100;
    if n == 1 {
      FitsTwo(d as Register, v);
    } else if n == 2 {
      FitsThree(d as Register, v);
    }
  }

  lemma FitsTwo(d: Register, v: Register)
    requires d < 0x100 && v < 0x100
    ensures d ^ (v << 8) < 0x1_0000
  {
  }

  lemma FitsThree(d: Register, v: Register)
    requires d < 0x100 && v < 0x1_0000
    ensures d ^ (v << 8) < 0x100_0000
  {
  }

  lemma UpAbove(v: Register)
    requires v < 0x100_0000
    ensures Above(Up(v)) == Up(v) && Rest(Up(v)) == v
  {
  }

  lemma {:induction false} LeFits(data: seq<Octet>)
    requires |data| <= 4
    ensures Fits(Le(data), |data|)
  {
    hide Xor, Low, Up, Fits;
    if data == [] {
      NothingFits();
    } else {
      LeFits(data[1..]);
      FitsMore(data[0], Le(data[1..]), |data| - 1);
    }
  }

  lemma NothingFits()
    ensures Fits(0, 0)
  {
  }

  lemma FitsBound(v: Register, n: nat)
    requires Fits(v, n) && n < 4
    ensures v < 0x100_0000
  {
  }

  /** Folding in up to four bytes at once. */
  lemma {:induction false} FoldWord(s: Register, data: seq<Octet>)
    requires |data| <= 4
    ensures Crc(s, data) == Steps(Xor(s, Le(data)), 8 * |data|)
    decreases |data|
  {
    hide Xor, Low, Up, Fits, Steps, Above, Rest;
    if data == [] {
      XorZero(s);
      StepsNone(s);
    } else {
      var d, later := Low(data[0]), Le(data[1..]);
      CrcMore(s, data);
      FoldWord(Steps(Xor(s, d), 8), data[1..]);
      LeFits(data[1..]);
      FitsBound(later, |data| - 1);
      UpAbove(later);
      StepsAbove(Up(later));
      StepsXor(Xor(s, d), Up(later), 8);
      XorAssoc(s, d, Up(later));
      StepsAdd(Xor(Xor(s, d), Up(later)), 8, 8 * (|data| - 1));
    }
  }

  /** Folding in eight bytes: both words, the earlier one 32 shifts further on. */
  lemma FoldTwoWords(s: Register, data: seq<Octet>)
    requires |data| == 8
    ensures Crc(s, data) == Xor(Steps(Xor(Le(data[..4]), s), 64), Steps(Le(data[4..]), 32))
  {
    hide Xor, Steps, Le, Crc;
    var lo, hi := Xor(Le(data[..4]), s), Le(data[4..]);
    assert data == data[..4] + data[4..];
    CrcAppend(s, data[..4], data[4..]);
    FoldWord(s, data[..4]);
    XorComm(s, Le(data[..4]));
    FoldWord(Steps(lo, 32), data[4..]);
    StepsXor(Steps(lo, 32), hi, 32);
    StepsAdd(lo, 32, 32);
  }

  // ----- tables

  type Table = seq<Register>

  /** Row `x` holds the byte `x` advanced by `n` shifts. */
  ghost predicate Holds(t: Table, n: nat) {
    |t| == 256 && forall i :: 0 <= i < 256 ==> t[i] == Steps(i as Register, n)
  }

  ghost predicate Tables(t: seq<Table>) {
    |t| == 8 && forall k :: 0 <= k < 8 ==> Holds(t[k], 8 * (k + 1))
  }

  lemma Indexed(x: Register)
    ensures 0 <= First(x) as int < 256 && ((First(x) as int) as Register) == First(x)
  {
  }

  function At(t: Table, x: Register): Register
    requires |t| == 256
  {
    Indexed(x);
    t[First(x) as int]
  }

  lemma AtHolds(t: Table, n: nat, x: Register)
    requires Holds(t, n)
    ensures At(t, x) == Steps(First(x), n)
  {
    hide Steps, First;
    Indexed(x);
  }

  method BaseTable() returns (t: Table)
    ensures Holds(t, 8)
  {
    hide Steps, Step;
    t := [];
    var i := 0;
    while i < 256
      invariant 0 <= i <= 256 && |t| == i
      invariant forall j :: 0 <= j < i ==> t[j] == Steps(j as Register, 8)
    {
      var c := i as Register;
      var k := 0;
      while k < 8
        invariant 0 <= k <= 8 && Steps(c, 8 - k) == Steps(i as Register, 8)
      {
        StepsMore(c, 8 - k);
        c := Shift(c);
        k := k + 1;
      }
      StepsNone(c);
      t := t + [c];
      i := i + 1;
    }
  }

  /** One shift as the loops write it. */
  method Shift(c: Register) returns (d: Register)
    ensures d == Step(c)
  {
    hide Half;
    if Odd(c) {
      d := Xor(POLY, Half(c));
      XorComm(POLY, Half(c));
    } else {
      d := Half(c);
    }
  }

  /** Each further table folds in one more zero byte. */
  method NextTable(base: Table, t: Table, n: nat) returns (u: Table)
    requires Holds(base, 8) && Holds(t, n)
    ensures Holds(u, n + 8)
  {
    hide Steps, Step, Xor, Rest, First, At;
    u := [];
    var j := 0;
    while j < 256
      invariant 0 <= j <= 256 && |u| == j
      invariant forall i :: 0 <= i < j ==> u[i] == Steps(i as Register, n + 8)
    {
      var prev := t[j];
      AtHolds(base, 8, prev);
      EightSteps(prev);
      StepsAdd(j as Register, n, 8);
      u := u + [Xor(Rest(prev), At(base, prev))];
      j := j + 1;
    }
  }

  method BuildTables() returns (t: seq<Table>)
    ensures Tables(t)
  {
    hide Holds;
    var base := BaseTable();
    t := [base];
    while |t| < 8
      invariant 1 <= |t| <= 8 && t[0] == base
      invariant forall k :: 0 <= k < |t| ==> Holds(t[k], 8 * (k + 1))
    {
      var next := NextTable(base, t[|t| - 1], 8 * |t|);
      t := t + [next];
    }
  }

  // ----- the parts of the update

  const LANE := 2048

  /** x^(8 * LANE), by shifting. */
  method PowerOfLane() returns (p: Register)
    ensures p == Steps(ONE, 8 * LANE)
  {
    hide Steps, Step;
    p := ONE;
    var i := 0;
    while i < 8 * LANE
      invariant 0 <= i <= 8 * LANE && Steps(p, 8 * LANE - i) == Steps(ONE, 8 * LANE)
    {
      StepsMore(p, 8 * LANE - i);
      p := Shift(p);
      i := i + 1;
    }
    StepsNone(p);
  }

  method MultModP(a: Register, factor: Register) returns (p: Register)
    ensures p == Mul(a, factor, ONE)
  {
    hide Step, Xor, Half, Mul;
    var b := factor;
    p := 0;
    var m := ONE;
    XorZero(Mul(a, b, m));
    while m != 0
      invariant Xor(p, Mul(a, b, m)) == Mul(a, factor, ONE)
      decreases m
    {
      MulMore(a, b, m);
      var rest := Mul(a, Step(b), Half(m));
      XorAssoc(p, Pick(a, m, b), rest);
      XorZero(p);
      if a & m != 0 {
        p := Xor(p, b);
      }
      b := Shift(b);
      m := Half(m);
    }
    MulNone(a, b);
    XorZero(p);
  }

  /** Eight bytes by eight look-ups. */
  method Step8(t: seq<Table>, s: Register, c: seq<Octet>) returns (r: Register)
    requires Tables(t) && |c| == 8
    ensures r == Crc(s, c)
  {
    hide Steps, Step, Xor, Rest, First, At, Le, Crc, Holds;
    var lo, hi := Xor(Le(c[..4]), s), Le(c[4..]);
    TableSizes(t);
    var first := Xor(Xor(Xor(At(t[7], lo), At(t[6], Rest(lo))), At(t[5], Rest(Rest(lo)))), At(t[4], Rest(Rest(Rest(lo)))));
    r := Xor(Xor(Xor(Xor(first, At(t[3], hi)), At(t[2], Rest(hi))), At(t[1], Rest(Rest(hi)))), At(t[0], Rest(Rest(Rest(hi)))));
    LookUp(t, lo, 4);
    LookUp(t, hi, 0);
    FourBytes(lo, 32);
    FourBytes(hi, 0);
    Regroup(first, At(t[3], hi), At(t[2], Rest(hi)), At(t[1], Rest(Rest(hi))), At(t[0], Rest(Rest(Rest(hi)))));
    FoldTwoWords(s, c);
  }

  lemma TableSizes(t: seq<Table>)
    requires Tables(t)
    ensures forall k :: 0 <= k < 8 ==> |t[k]| == 256
  {
    hide Steps;
  }

  lemma LookUp(t: seq<Table>, v: Register, k: nat)
    requires Tables(t) && k <= 4
    ensures |t[k]| == |t[k + 1]| == |t[k + 2]| == |t[k + 3]| == 256
    ensures At(t[k + 3], v) == Steps(First(v), 32 + 8 * k)
    ensures At(t[k + 2], Rest(v)) == Steps(First(Rest(v)), 24 + 8 * k)
    ensures At(t[k + 1], Rest(Rest(v))) == Steps(First(Rest(Rest(v))), 16 + 8 * k)
    ensures At(t[k], Rest(Rest(Rest(v)))) == Steps(First(Rest(Rest(Rest(v)))), 8 + 8 * k)
  {
    hide Steps, First, Rest, At;
    TableSizes(t);
    AtHolds(t[k + 3], 8 * (k + 4), v);
    AtHolds(t[k + 2], 8 * (k + 3), Rest(v));
    AtHolds(t[k + 1], 8 * (k + 2), Rest(Rest(v)));
    AtHolds(t[k], 8 * (k + 1), Rest(Rest(Rest(v))));
  }

  lemma Regroup(f: Register, a: Register, b: Register, c: Register, d: Register)
    ensures Xor(Xor(Xor(Xor(f, a), b), c), d) == Xor(f, Xor(Xor(Xor(a, b), c), d))
  {
    hide Xor;
    XorAssoc(f, a, b);
    XorAssoc(f, Xor(a, b), c);
    XorAssoc(f, Xor(Xor(a, b), c), d);
  }

  /** Two consecutive stretches, the second started from zero, join by a multiplication. */
  lemma JoinLanes(power: Register, s: Register, s0: Register, first: seq<Octet>, second: seq<Octet>)
    requires power == Steps(ONE, 8 * LANE) && |second| == LANE && s0 == Crc(s, first)
    ensures Xor(Mul(power, s0, ONE), Crc(0, second)) == Crc(s, first + second)
  {
    hide Steps, Xor, Mul, Crc;
    MulPower(s0, 8 * LANE);
    CrcLinear(s0, 0, second);
    XorZero(s0);
    CrcAppend(s, first, second);
  }

  lemma Grow(s: Register, r: Register, data: seq<Octet>, i: nat, n: nat)
    requires i <= n <= |data| && r == Crc(s, data[..i])
    ensures Crc(r, data[i..n]) == Crc(s, data[..n])
  {
    hide Crc;
    assert data[..n] == data[..i] + data[i..n];
    CrcAppend(s, data[..i], data[i..n]);
  }

  // ----- what the checksum is

  /** The register, complemented. */
  function Checksum(s: Register): Register { Xor(s, 0xFFFF_FFFF) }

  /** A register's bytes, the lowest first. */
  function Bytes(v: Register): (b: seq<Octet>)
    ensures |b| == 4
  {
    [(v & 0xFF) as Octet, ((v >> 8) & 0xFF) as Octet, ((v >> 16) & 0xFF) as Octet, (v >> 24) as Octet]
  }

  lemma LeBytes(v: Register)
    ensures Le(Bytes(v)) == v
  {
    hide Le;
    var b := Bytes(v);
    assert b == [b[0]] + ([b[1]] + ([b[2]] + ([b[3]] + [])));
    LeMore(b[0], [b[1]] + ([b[2]] + ([b[3]] + [])));
    LeMore(b[1], [b[2]] + ([b[3]] + []));
    LeMore(b[2], [b[3]] + []);
    LeMore(b[3], []);
    Gather(v);
  }

  lemma LeMore(d: Octet, rest: seq<Octet>)
    ensures Le([d] + rest) == Xor(Low(d), Up(Le(rest))) && Le([]) == 0
  {
    hide Xor, Low, Up;
    assert ([d] + rest)[1..] == rest;
  }

  lemma Gather(v: Register)
    ensures (v & 0xFF) ^ ((((v >> 8) & 0xFF) ^ ((((v >> 16) & 0xFF) ^ (((v >> 24) ^ (0 << 8)) << 8)) << 8)) << 8) == v
  {
  }

  /** No two registers meet. */
  lemma StepOnce(a: Register, b: Register)
    requires Step(a) == Step(b)
    ensures a == b
  {
  }

  lemma {:induction false} StepsOnce(a: Register, b: Register, n: nat)
    requires Steps(a, n) == Steps(b, n)
    ensures a == b
    decreases n
  {
    hide Step;
    if n > 0 {
      StepsOnce(Step(a), Step(b), n - 1);
      StepOnce(a, b);
    }
  }

  /**
   A stream that carries its own checksum leaves one and the same register, whatever the data, and with any other four
   bytes behind them the data leave another.
   */
  lemma Residue(s: Register, data: seq<Octet>, tail: seq<Octet>)
    requires |tail| == 4
    ensures Crc(s, data + tail) == 0xDEBB_20E3 <==> Le(tail) == Checksum(Crc(s, data))
    ensures Crc(s, data + Bytes(Checksum(Crc(s, data)))) == 0xDEBB_20E3
  {
    hide Xor, Steps, Le, Crc, Bytes;
    var c := Crc(s, data);
    CrcAppend(s, data, tail);
    FoldWord(c, tail);
    AllOnes();
    XorFlip(c, Le(tail));
    if Crc(s, data + tail) == 0xDEBB_20E3 {
      StepsOnce(Xor(c, Le(tail)), 0xFFFF_FFFF, 32);
    }
    var own := Bytes(Checksum(c));
    LeBytes(Checksum(c));
    CrcAppend(s, data, own);
    FoldWord(c, own);
    XorFlip(c, Le(own));
  }

  lemma XorFlip(c: Register, t: Register)
    ensures Xor(c, t) == 0xFFFF_FFFF <==> t == Xor(c, 0xFFFF_FFFF)
  {
    hide Xor;
    XorAssoc(c, c, t);
    XorAssoc(c, c, 0xFFFF_FFFF);
    XorSelf(c);
    XorZero(t);
    XorZero(0xFFFF_FFFF);
  }

  function Eight(s: Register): Register {
    Step(Step(Step(Step(Step(Step(Step(Step(s))))))))
  }

  lemma EightOf(s: Register)
    ensures Steps(s, 8) == Eight(s)
  {
    hide Step;
    StepsAdd(s, 4, 4);
  }

  lemma AllOnes()
    ensures Steps(0xFFFF_FFFF, 32) == 0xDEBB_20E3
  {
    hide Steps;
    assert Eight(0xFFFF_FFFF) == 0x2DFD_1072;
    EightOf(0xFFFF_FFFF);
    assert Eight(0x2DFD_1072) == 0xBE26_ED00;
    EightOf(0x2DFD_1072);
    assert Eight(0xBE26_ED00) == 0x00BE_26ED;
    EightOf(0xBE26_ED00);
    assert Eight(0x00BE_26ED) == 0xDEBB_20E3;
    EightOf(0x00BE_26ED);
    StepsAdd(0xFFFF_FFFF, 8, 24);
    StepsAdd(0x2DFD_1072, 8, 16);
    StepsAdd(0xBE26_ED00, 8, 8);
  }

  /** The divisor, by its terms: x^32 is the sum of these lower powers. */
  lemma Divisor()
    ensures Steps(ONE, 32) ==
      Sum4(Steps(ONE, 26), Steps(ONE, 23), Steps(ONE, 22), Steps(ONE, 16),
      Sum4(Steps(ONE, 12), Steps(ONE, 11), Steps(ONE, 10), Steps(ONE, 8),
      Sum4(Steps(ONE, 7), Steps(ONE, 5), Steps(ONE, 4), Steps(ONE, 2), Xor(Steps(ONE, 1), Steps(ONE, 0)))))
  {
    hide Steps;
    assert Eight(ONE) == 0x0080_0000 && Eight(0x0080_0000) == 0x8000 && Eight(0x8000) == 0x80;
    EightOf(ONE);
    EightOf(0x0080_0000);
    EightOf(0x8000);
    EightOf(0x80);
    StepsAdd(ONE, 8, 8);
    StepsAdd(ONE, 8, 16);
    StepsAdd(0x0080_0000, 8, 8);
    StepsAdd(ONE, 24, 8);
    FewSteps(ONE);
    FewSteps(0x0080_0000);
    FewSteps(0x8000);
    FewSteps(0x80);
    StepsAdd(ONE, 24, 2);
    StepsAdd(ONE, 16, 7);
    StepsAdd(ONE, 16, 6);
    StepsAdd(ONE, 8, 4);
    StepsAdd(ONE, 8, 3);
    StepsAdd(ONE, 8, 2);
  }

  function Sum4(a: Register, b: Register, c: Register, d: Register, e: Register): Register {
    Xor(a, Xor(b, Xor(c, Xor(d, e))))
  }

  lemma FewSteps(s: Register)
    ensures Steps(s, 0) == s && Steps(s, 1) == Step(s) && Steps(s, 2) == Step(Step(s))
    ensures Steps(s, 3) == Step(Step(Step(s))) && Steps(s, 4) == Step(Step(Step(Step(s))))
    ensures Steps(s, 5) == Step(Step(Step(Step(Step(s))))) && Steps(s, 6) == Step(Step(Step(Step(Step(Step(s))))))
    ensures Steps(s, 7) == Step(Step(Step(Step(Step(Step(Step(s)))))))
  {
    hide Step;
    StepsAdd(s, 4, 1);
    StepsAdd(s, 4, 2);
    StepsAdd(s, 4, 3);
  }

  /** One byte of a concrete text. */
  lemma Next(s: Register, data: seq<Octet>, i: nat, t: Register)
    requires i < |data| && Eight(Xor(s, Low(data[i]))) == t
    ensures Crc(s, data[i..]) == Crc(t, data[i + 1..])
  {
    hide Step, Xor, Low, Steps;
    EightOf(Xor(s, Low(data[i])));
    CrcMore(s, data[i..]);
    assert data[i..][1..] == data[i + 1..];
  }

  /** The digits one to nine, on which catalogues of checksums compare them. */
  lemma CheckValue()
    ensures Checksum(Crc(0xFFFF_FFFF, [0x31, 0x32, 0x33, 0x34, 0x35, 0x36, 0x37, 0x38, 0x39])) == 0xCBF4_3926
  {
    hide Crc;
    var d: seq<Octet> := [0x31, 0x32, 0x33, 0x34, 0x35, 0x36, 0x37, 0x38, 0x39];
    assert d[0..] == d;
    Next(0xFFFF_FFFF, d, 0, 0x7C23_1048);
    Next(0x7C23_1048, d, 1, 0xB0AC_BB32);
    Next(0xB0AC_BB32, d, 2, 0x77B7_9C2D);
    Next(0x77B7_9C2D, d, 3, 0x641C_1F5C);
    Next(0x641C_1F5C, d, 4, 0x340A_C5E3);
    Next(0x340A_C5E3, d, 5, 0xF68D_2C9E);
    Next(0xF68D_2C9E, d, 6, 0xAFFC_9660);
    Next(0xAFFC_9660, d, 7, 0x651F_2550);
    Next(0x651F_2550, d, 8, 0x340B_C6D9);
    assert d[9..] == [];
    Ended(0x340B_C6D9);
  }

  lemma Ended(s: Register)
    ensures Crc(s, []) == s
  {
  }

  class Crc32 {
    const tables: seq<Table>
    const power: Register
    var state: Register

    ghost predicate Valid() { Tables(tables) && power == Steps(ONE, 8 * LANE) }

    constructor ()
      ensures Valid() && state == 0xFFFF_FFFF
    {
      var t := BuildTables();
      var p := PowerOfLane();
      tables := t;
      power := p;
      state := 0xFFFF_FFFF;
    }

    /** Four stretches side by side, then joined. */
    method FourLanes(s: Register, block: seq<Octet>) returns (r: Register)
      requires Valid() && |block| == 4 * LANE
      ensures r == Crc(s, block)
    {
      hide Steps, Xor, Mul, Crc, Tables;
      var l0, l1, l2, l3 := block[..LANE], block[LANE..2 * LANE], block[2 * LANE..3 * LANE], block[3 * LANE..];
      var s0, s1, s2, s3: Register := s, 0, 0, 0;
      var i := 0;
      Nothing(s, l0);
      Nothing(0, l1);
      Nothing(0, l2);
      Nothing(0, l3);
      while i < LANE
        invariant 0 <= i <= LANE && i % 8 == 0
        invariant s0 == Crc(s, l0[..i]) && s1 == Crc(0, l1[..i]) && s2 == Crc(0, l2[..i]) && s3 == Crc(0, l3[..i])
      {
        Grow(s, s0, l0, i, i + 8);
        Grow(0, s1, l1, i, i + 8);
        Grow(0, s2, l2, i, i + 8);
        Grow(0, s3, l3, i, i + 8);
        s0 := Step8(tables, s0, l0[i..i + 8]);
        s1 := Step8(tables, s1, l1[i..i + 8]);
        s2 := Step8(tables, s2, l2[i..i + 8]);
        s3 := Step8(tables, s3, l3[i..i + 8]);
        i := i + 8;
      }
      assert l0[..i] == l0 && l1[..i] == l1 && l2[..i] == l2 && l3[..i] == l3;
      var a := MultModP(power, s0);
      JoinLanes(power, s, s0, l0, l1);
      var b := MultModP(power, Xor(a, s1));
      JoinLanes(power, s, Xor(a, s1), l0 + l1, l2);
      var c := MultModP(power, Xor(b, s2));
      JoinLanes(power, s, Xor(b, s2), l0 + l1 + l2, l3);
      r := Xor(c, s3);
      assert block == l0 + l1 + l2 + l3;
    }

    method Update(data: seq<Octet>)
      requires Valid()
      modifies this`state
      ensures state == Crc(old(state), data)
    {
      hide Steps, Xor, Crc, Tables, Mul, Rest, At;
      var s := state;
      ghost var start := state;
      var at := 0;
      Nothing(s, data);
      while |data| - at >= 4 * LANE
        invariant at <= |data| && s == Crc(start, data[..at])
      {
        Grow(start, s, data, at, at + 4 * LANE);
        s := FourLanes(s, data[at..at + 4 * LANE]);
        at := at + 4 * LANE;
      }
      while |data| - at >= 8
        invariant at <= |data| && s == Crc(start, data[..at])
      {
        Grow(start, s, data, at, at + 8);
        s := Step8(tables, s, data[at..at + 8]);
        at := at + 8;
      }
      BaseRow(tables);
      while at < |data|
        invariant at <= |data| && s == Crc(start, data[..at])
      {
        Grow(start, s, data, at, at + 1);
        OneByte(tables[0], s, data[at]);
        assert data[at..at + 1] == [data[at]];
        s := Xor(Rest(s), At(tables[0], Xor(s, Low(data[at]))));
        at := at + 1;
      }
      assert data[..at] == data;
      state := s;
    }

    function Finalize(): (r: Register)
      reads this`state
    {
      Checksum(state)
    }
  }

  lemma Nothing(s: Register, data: seq<Octet>)
    ensures s == Crc(s, data[..0])
  {
  }

  lemma BaseRow(t: seq<Table>)
    requires Tables(t)
    ensures |t| == 8 && Holds(t[0], 8)
  {
    hide Holds;
  }

  lemma OneByte(t: Table, s: Register, b: Octet)
    requires Holds(t, 8)
    ensures Xor(Rest(s), At(t, Xor(s, Low(b)))) == Crc(s, [b])
  {
    hide Steps, Xor, Rest, At, Low, Holds;
    var v := Xor(s, Low(b));
    AtHolds(t, 8, v);
    EightSteps(v);
    RestLow(s, b);
    CrcMore(s, [b]);
  }

  lemma RestLow(s: Register, b: Octet)
    ensures Rest(Xor(s, Low(b))) == Rest(s)
  {
  }
}
