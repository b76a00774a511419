/**
 The coding side of the Arsenic range decoder: how a range is shared out, that every text has a stream, and that what
 a stream of a text decodes to is the text.
 */
module ArsenicStream {
  import opened Words
  import opened ArsenicRange

  // ----- sharing out a range

  /** The symbols' parts lie end to end and fill the whole range. */
  lemma Partition(c: Coder, p: Params, freq: seq<nat>, n: nat)
    requires HALF < c.range <= ONE && Usable(p, freq) && n < |freq|
    ensures Total(freq) > 0
    ensures n == 0 ==> Cut(c, freq, n).low == c.low
    ensures var d := Cut(c, freq, n);
      if n + 1 < |freq| then Cut(c, freq, n + 1).low == d.low + d.range else d.low + d.range == c.low + c.range
  {
    hide Total;
    CutInside(c, p, freq, n);
    TotalPrefix(freq, n);
    assert freq[..0] == [] && Total([]) == 0 by { NoTotal(); }
    assert freq[..|freq|] == freq;
    var step := c.range / Total(freq);
    Distribute(Total(freq[..n]), freq[n], step);
    if n + 1 < |freq| {
      TotalPrefix(freq, n + 1);
    }
  }

  lemma NoTotal()
    ensures Total([]) == 0
  {
  }

  /** Every part but the last is the symbol's share of the range, rounded down by less than one unit per count. */
  lemma Share(c: Coder, p: Params, freq: seq<nat>, n: nat)
    requires HALF < c.range <= ONE && Usable(p, freq) && n + 1 < |freq|
    ensures Total(freq) > 0
    ensures var w := Cut(c, freq, n).range;
      w * Total(freq) <= freq[n] * c.range < w * Total(freq) + freq[n] * Total(freq)
  {
    hide Total;
    CutInside(c, p, freq, n);
    TotalPrefix(freq, n);
    TotalPrefix(freq, n + 1);
    StepBounds(c.range, Total(freq));
    Shares(c.range, Total(freq), c.range / Total(freq), freq[n]);
  }

  lemma Shares(range: int, total: nat, step: int, f: nat)
    requires step * total <= range < (step + 1) * total && f >= 1
    ensures step * f * total <= f * range < step * f * total + f * total
  {
    MulMonotone(step * total, range, f);
    assert f * (step * total) == step * f * total;
    assert f * ((step + 1) * total) == step * f * total + f * total;
    Times(range, (step + 1) * total, f);
  }

  lemma Times(a: int, b: int, f: nat)
    requires a < b && f >= 1
    ensures f * a < f * b
  {
  }

  // ----- every text has a stream

  ghost predicate Sized(c: Coder) {
    c.low + c.range <= ONE * Pow2(c.shifts)
  }

  lemma {:induction false} NormalSized(c: Coder)
    requires Sized(c)
    ensures Sized(Normal(c))
    decreases ONE - c.range
  {
    if 0 < c.range <= HALF {
      Pow2Next(c.shifts);
      NormalSized(Coder(2 * c.low, 2 * c.range, c.shifts + 1));
    }
  }

  lemma {:induction false} AllSized(st: Coding, text: seq<Use>)
    requires Ready(st) && AllKnown(st, text) && Sized(st.coder)
    ensures Sized(CodeAll(st, text).coder)
    decreases |text|
  {
    hide Usable, Total, Pow2, Sized;
    if text != [] {
      var k := |text| - 1;
      AllSized(st, text[..k]);
      var before, u := CodeAll(st, text[..k]), text[k];
      assert Known(st, u);
      var t := before.models[u.model];
      CutInside(before.coder, t.params, t.freq, u.n);
      CutSized(before.coder, Cut(before.coder, t.freq, u.n));
      NormalSized(Cut(before.coder, t.freq, u.n));
    }
  }

  lemma CutSized(c: Coder, d: Coder)
    requires Sized(c) && d.shifts == c.shifts && d.low + d.range <= c.low + c.range
    ensures Sized(d)
  {
  }

  /** `n` bytes, the highest first. */
  function ToBytes(v: nat, n: nat): (b: seq<Byte>)
    ensures |b| == n
  {
    if n == 0 then [] else ToBytes(v / 0x100, n - 1) + [v % 0x100]
  }

  lemma {:induction false} ValueOfPrefix(a: seq<Byte>, b: seq<Byte>, k: nat)
    requires k <= 8 * |a|
    ensures Value(a + b, k) == Value(a, k)
  {
    if k > 0 {
      ValueOfPrefix(a, b, k - 1);
    }
  }

  /** The last byte's bits follow those before. */
  lemma LastByte(a: seq<Byte>, b: Byte)
    ensures Value(a + [b], 8 * |a| + 8) == 0x100 * Value(a, 8 * |a|) + b
  {
    hide Value, Pow2, BitAt;
    var d, k := a + [b], 8 * |a|;
    ValueOfPrefix(a, [b], k);
    FourMore(d, k);
    FourMore(d, k + 4);
    BitsOfByte(d, |a|);
    ByteDigits(b);
  }

  lemma FourMore(d: seq<Byte>, k: nat)
    ensures Value(d, k + 4) ==
      16 * Value(d, k) + 8 * BitAt(d, k) + 4 * BitAt(d, k + 1) + 2 * BitAt(d, k + 2) + BitAt(d, k + 3)
  {
    hide Value, BitAt;
    ValueMore(d, k);
    ValueMore(d, k + 1);
    ValueMore(d, k + 2);
    ValueMore(d, k + 3);
  }

  lemma ByteDigits(b: int)
    requires 0 <= b < 0x100
    ensures b == 128 * (b / 128 % 2) + 64 * (b / 64 % 2) + 32 * (b / 32 % 2) + 16 * (b / 16 % 2) + 8 * (b / 8 % 2)
                 + 4 * (b / 4 % 2) + 2 * (b / 2 % 2) + b % 2
  {
    assert b / 2 / 2 == b / 4 && b / 4 / 2 == b / 8 && b / 8 / 2 == b / 16 && b / 16 / 2 == b / 32;
    assert b / 32 / 2 == b / 64 && b / 64 / 2 == b / 128;
  }

  lemma BitsOfByte(d: seq<Byte>, i: nat)
    requires i < |d|
    ensures BitAt(d, 8 * i) == d[i] / 128 % 2 && BitAt(d, 8 * i + 1) == d[i] / 64 % 2
    ensures BitAt(d, 8 * i + 2) == d[i] / 32 % 2 && BitAt(d, 8 * i + 3) == d[i] / 16 % 2
    ensures BitAt(d, 8 * i + 4) == d[i] / 8 % 2 && BitAt(d, 8 * i + 5) == d[i] / 4 % 2
    ensures BitAt(d, 8 * i + 6) == d[i] / 2 % 2 && BitAt(d, 8 * i + 7) == d[i] % 2
  {
    hide BitAt;
    SmallPowers();
    BitOf(d, i, 0);
    BitOf(d, i, 1);
    BitOf(d, i, 2);
    BitOf(d, i, 3);
    BitOf(d, i, 4);
    BitOf(d, i, 5);
    BitOf(d, i, 6);
    BitOf(d, i, 7);
  }

  lemma SmallPowers()
    ensures Pow2(0) == 1 && Pow2(1) == 2 && Pow2(2) == 4 && Pow2(3) == 8
    ensures Pow2(4) == 16 && Pow2(5) == 32 && Pow2(6) == 64 && Pow2(7) == 128
  {
  }

  lemma BitOf(d: seq<Byte>, i: nat, j: nat)
    requires i < |d| && j < 8
    ensures BitAt(d, 8 * i + j) == d[i] / Pow2(7 - j) % 2
  {
    hide Pow2;
    DivModUnique(8 * i + j, 8, i, j);
  }

  lemma {:induction false} ValueOfBytes(v: nat, n: nat)
    requires v < Pow2(8 * n)
    ensures Value(ToBytes(v, n), 8 * n) == v
  {
    hide Pow2, Value;
    if n == 0 {
      Pow2Next(0);
      NoValue();
    } else {
      Pow2Add(8 * (n - 1), 8);
      Pow2Bytes();
      ValueOfBytes(v / 0x100, n - 1);
      LastByte(ToBytes(v / 0x100, n - 1), v % 0x100);
    }
  }

  lemma NoValue()
    ensures Value([], 0) == 0
  {
  }

  /** Fewer bits are the same number, rounded down. */
  lemma {:induction false} ValueCut(data: seq<Byte>, k: nat, m: nat)
    ensures Value(data, k) * Pow2(m) <= Value(data, k + m) < (Value(data, k) + 1) * Pow2(m)
    decreases m
  {
    hide Pow2, Value;
    if m == 0 {
      Pow2Next(0);
    } else {
      ValueCut(data, k, m - 1);
      ValueMore(data, k + m - 1);
      Pow2Next(m - 1);
      Doubled(Value(data, k), Pow2(m - 1));
    }
  }

  lemma Doubled(v: nat, p: nat)
    ensures v * (2 * p) == 2 * (v * p) && (v + 1) * (2 * p) == 2 * ((v + 1) * p)
  {
  }

  lemma ScaledOnce(a: nat, b: nat, p: nat)
    requires p > 0 && b * p <= a * p < (b + 1) * p
    ensures a == b
  {
    if a < b {
      MulMonotone(a + 1, b, p);
    } else if a > b {
      MulMonotone(b + 1, a, p);
    }
  }

  /** A stream of the interval: the bits of its lower end. */
  lemma StreamExists(c: Coder) returns (data: seq<Byte>)
    requires Sized(c) && c.range > 0
    ensures Contains(c, data)
  {
    hide Pow2, Value;
    var k := FIRST_BITS + c.shifts;
    var n := k / 8 + 1;
    var m := 8 * n - k;
    data := ToBytes(c.low * Pow2(m), n);
    FirstFits();
    Pow2Add(FIRST_BITS, c.shifts);
    Pow2Add(k, m);
    MulMonotone(ONE, 0x400_0000, Pow2(c.shifts));
    assert c.low < Pow2(k);
    MulMonotone(c.low + 1, Pow2(k), Pow2(m));
    Distribute(c.low, 1, Pow2(m));
    ValueOfBytes(c.low * Pow2(m), n);
    ValueCut(data, k, m);
    ScaledOnce(c.low, Value(data, k), Pow2(m));
  }

  /** Every text, whatever its models, has a stream, and decoding any of its streams gives it back. */
  lemma EveryText(models: seq<Table>, text: seq<Use>) returns (data: seq<Byte>)
    requires Ready(Coding(START, models)) && AllKnown(Coding(START, models), text)
    ensures var st := Coding(START, models);
      && Contains(CodeAll(st, text).coder, data)
      && DecodeAll(data, st, Kinds(text)) == Decoding(Symbols(text), CodeAll(st, text))
  {
    hide Contains, Usable;
    var st := Coding(START, models);
    assert Sized(START) by { Pow2Next(0); }
    AllSized(st, text);
    data := StreamExists(CodeAll(st, text).coder);
    RoundTrip(data, st, text);
  }

  // ----- fields of several bits

  /** The digits of a number, the lowest first, all coded with the one model there is. */
  function Field(v: nat, bits: nat): (text: seq<Use>)
    ensures |text| == bits && forall i :: 0 <= i < bits ==> text[i].model == 0 && text[i].n <= 1
    decreases bits
  {
    if bits == 0 then [] else Field(v % Pow2(bits - 1), bits - 1) + [Use(0, if v >= Pow2(bits - 1) then 1 else 0)]
  }

  lemma FieldMore(text: seq<Use>, u: Use)
    ensures Number(Symbols(text + [u])) == Number(Symbols(text)) + u.n * Pow2(|text|)
    ensures Kinds(text + [u]) == Kinds(text) + [u.model]
  {
    var t := text + [u];
    assert t[..|text|] == text;
    assert Symbols(t) == Symbols(text) + [u.n];
    assert (Symbols(text) + [u.n])[..|text|] == Symbols(text);
  }

  lemma {:induction false} FieldNumber(v: nat, bits: nat)
    requires v < Pow2(bits)
    ensures Number(Symbols(Field(v, bits))) == v && Kinds(Field(v, bits)) == Zeros(bits)
    decreases bits
  {
    hide Pow2, Number, Symbols, Kinds;
    if bits == 0 {
      Pow2Next(0);
      NoNumber();
    } else {
      Pow2Next(bits - 1);
      var p := Pow2(bits - 1);
      var n := if v >= p then 1 else 0;
      TopDigit(v, p);
      FieldNumber(v % p, bits - 1);
      FieldMore(Field(v % p, bits - 1), Use(0, n));
    }
  }

  lemma NoNumber()
    ensures Number(Symbols([])) == 0 && Kinds([]) == []
  {
  }

  lemma TopDigit(v: nat, p: nat)
    requires 0 < p && v < 2 * p
    ensures v % p < p && v == v % p + (if v >= p then 1 else 0) * p
  {
    DivModUnique(v, p, if v >= p then 1 else 0, if v >= p then v - p else v);
  }

  /** A number coded bit by bit is what `DecodeBits` makes of the stream. */
  lemma FieldBack(data: seq<Byte>, st: Coding, v: nat, bits: nat)
    requires Ready(st) && |st.models| == 1 && |st.models[0].freq| == 2 && v < Pow2(bits)
    requires AllKnown(st, Field(v, bits)) && Contains(CodeAll(st, Field(v, bits)).coder, data)
    ensures Number(DecodeAll(data, st, Zeros(bits)).symbols) == v
  {
    hide Contains, Usable, Pow2, CodeAll, DecodeAll;
    FieldNumber(v, bits);
    RoundTrip(data, st, Field(v, bits));
  }

  // ----- the signature

  /** The interval after one bit, with a model that has counted `a` zeros and `b` ones. */
  function BitStep(c: Coder, a: nat, b: nat, n: nat): Coder
    requires a + b > 0
  {
    var step := c.range / (a + b);
    if n == 0 then Normal(Coder(c.low, step * a, c.shifts))
    else if step * a >= 0 then Normal(Coder(c.low + step * a, c.range - step * a, c.shifts))
    else c
  }

  lemma TotalTwo(f: seq<nat>)
    requires |f| == 2
    ensures Total(f) == f[0] + f[1] && Total(f[..0]) == 0 && Total(f[..1]) == f[0]
  {
    assert f[..0] == [] && f[..1][..0] == [] && f[..2] == f;
    TotalPrefix(f, 0);
    TotalPrefix(f, 1);
  }

  lemma BitCoded(c: Coder, f: seq<nat>, n: nat)
    requires HALF < c.range <= ONE && |f| == 2 && f[0] >= 1 && f[1] >= 1 && n <= 1
    ensures Total(f) > 0 && Coded(c, f, n) == BitStep(c, f[0], f[1], n)
  {
    hide Total;
    TotalTwo(f);
    StepPositive(c.range, Total(f));
    MulMonotone(0, c.range / Total(f), f[0]);
    var step := c.range / Total(f);
    assert step * 0 == 0;
    if n == 0 {
      CutIs(c, f, 0);
      assert Cut(c, f, 0) == Coder(c.low, step * f[0], c.shifts);
    } else {
      CutIs(c, f, 1);
      assert Cut(c, f, 1) == Coder(c.low + step * f[0], c.range - step * f[0], c.shifts);
    }
  }

  lemma CutIs(c: Coder, f: seq<nat>, n: nat)
    requires n < |f| && Total(f) > 0 && c.range >= 0
    ensures var step: int := c.range / Total(f);
      var below: nat := Total(f[..n]);
      step * below >= 0 && Cut(c, f, n) ==
        Coder(c.low + step * below, if below + f[n] == Total(f) then c.range - step * below else step * f[n], c.shifts)
  {
    hide Total;
    StepPositive(c.range, Total(f));
    MulMonotone(0, c.range / Total(f), Total(f[..n]));
  }

  /** A text one bit longer. */
  lemma BitMore(st: Coding, text: seq<Use>, c: Coder, a: nat, b: nat, n: nat, d: Coder)
    requires Ready(st) && AllKnown(st, text) && |st.models| == 1 && |st.models[0].freq| == 2 && n <= 1
    requires CodeAll(st, text) == Coding(c, [Table(INITIAL_MODEL, [a, b])]) && a + b < 256 && a >= 1 && b >= 1
    requires d == BitStep(c, a, b, n)
    ensures AllKnown(st, text + [Use(0, n)])
    ensures CodeAll(st, text + [Use(0, n)]) ==
      Coding(d, [Table(INITIAL_MODEL, if n == 0 then [a + 1, b] else [a, b + 1])])
  {
    hide Coded, BitStep, Usable, Total, Adapted, Known;
    var u := Use(0, n);
    var more := text + [u];
    assert more[..|text|] == text;
    KnownBit(st, n);
    KnownBit(CodeAll(st, text), n);
    BitCoded(c, [a, b], n);
    AdaptedTwo([a, b], n);
  }

  lemma KnownBit(st: Coding, n: nat)
    requires |st.models| == 1 && |st.models[0].freq| == 2 && n <= 1
    ensures Known(st, Use(0, n))
  {
  }

  lemma AdaptedTwo(f: seq<nat>, n: nat)
    requires |f| == 2 && f[0] + f[1] < 256 && n <= 1
    ensures Adapted(INITIAL_MODEL, f, n) == if n == 0 then [f[0] + 1, f[1]] else [f[0], f[1] + 1]
  {
    hide Total;
    TotalTwo(f);
  }

  lemma NormalOnce(c: Coder)
    requires 0 < c.range <= HALF
    ensures Normal(c) == Normal(Coder(2 * c.low, 2 * c.range, c.shifts + 1))
  {
  }

  const FRESH_MODEL := Coding(START, [Table(INITIAL_MODEL, [1, 1])])

  /** The bits of the letters A and s. */
  const SIGNATURE: seq<Use> := [
    Use(0, 1), Use(0, 0), Use(0, 0), Use(0, 0), Use(0, 0), Use(0, 0), Use(0, 1), Use(0, 0),
    Use(0, 1), Use(0, 1), Use(0, 0), Use(0, 0), Use(0, 1), Use(0, 1), Use(0, 1), Use(0, 0)]

  lemma FreshReady()
    ensures Ready(FRESH_MODEL) && AllKnown(FRESH_MODEL, []) && CodeAll(FRESH_MODEL, []) == FRESH_MODEL
  {
    TotalTwo([1, 1]);
  }

  lemma BitIs(c: Coder, a: nat, b: nat, n: nat)
    requires a + b > 0 && c.range >= 0
    ensures var step := c.range / (a + b);
      step * a >= 0 && BitStep(c, a, b, n) ==
        Normal(if n == 0 then Coder(c.low, step * a, c.shifts) else Coder(c.low + step * a, c.range - step * a, c.shifts))
  {
    StepPositive(c.range, a + b);
    MulMonotone(0, c.range / (a + b), a);
  }

  lemma FirstFour()
    ensures Ready(FRESH_MODEL) && AllKnown(FRESH_MODEL, SIGNATURE[..4])
    ensures CodeAll(FRESH_MODEL, SIGNATURE[..4]) == Coding(Coder(0x10000000, 0x1999998, 4), [Table(INITIAL_MODEL, [4, 2])])
  {
    hide Ready, AllKnown, CodeAll, BitStep;
    FreshReady();
    var t: seq<Use> := [];
    NormalOnce(Coder(0x1000000, 0x1000000, 0));
    BitIs(Coder(0x0, 0x2000000, 0), 1, 1, 1);
    BitMore(FRESH_MODEL, t, Coder(0x0, 0x2000000, 0), 1, 1, 1, Coder(0x2000000, 0x2000000, 1));
    t := t + [Use(0, 1)];
    NormalOnce(Coder(0x2000000, 0xAAAAAA, 1));
    BitIs(Coder(0x2000000, 0x2000000, 1), 1, 2, 0);
    BitMore(FRESH_MODEL, t, Coder(0x2000000, 0x2000000, 1), 1, 2, 0, Coder(0x4000000, 0x1555554, 2));
    t := t + [Use(0, 0)];
    NormalOnce(Coder(0x4000000, 0xAAAAAA, 2));
    BitIs(Coder(0x4000000, 0x1555554, 2), 2, 2, 0);
    BitMore(FRESH_MODEL, t, Coder(0x4000000, 0x1555554, 2), 2, 2, 0, Coder(0x8000000, 0x1555554, 3));
    t := t + [Use(0, 0)];
    NormalOnce(Coder(0x8000000, 0xCCCCCC, 3));
    BitIs(Coder(0x8000000, 0x1555554, 3), 3, 2, 0);
    BitMore(FRESH_MODEL, t, Coder(0x8000000, 0x1555554, 3), 3, 2, 0, Coder(0x10000000, 0x1999998, 4));
    t := t + [Use(0, 0)];
    assert t == SIGNATURE[..4];
  }

  lemma FirstEight()
    ensures Ready(FRESH_MODEL) && AllKnown(FRESH_MODEL, SIGNATURE[..8])
    ensures CodeAll(FRESH_MODEL, SIGNATURE[..8]) == Coding(Coder(0x84924920, 0x104103C, 7), [Table(INITIAL_MODEL, [7, 3])])
  {
    hide Ready, AllKnown, CodeAll, BitStep;
    FirstFour();
    var t := SIGNATURE[..4];
    BitIs(Coder(0x10000000, 0x1999998, 4), 4, 2, 0);
    BitMore(FRESH_MODEL, t, Coder(0x10000000, 0x1999998, 4), 4, 2, 0, Coder(0x10000000, 0x1111110, 4));
    t := t + [Use(0, 0)];
    NormalOnce(Coder(0x10000000, 0xC30C30, 4));
    BitIs(Coder(0x10000000, 0x1111110, 4), 5, 2, 0);
    BitMore(FRESH_MODEL, t, Coder(0x10000000, 0x1111110, 4), 5, 2, 0, Coder(0x20000000, 0x1861860, 5));
    t := t + [Use(0, 0)];
    NormalOnce(Coder(0x21249248, 0x618618, 5));
    NormalOnce(Coder(0x42492490, 0xC30C30, 6));
    BitIs(Coder(0x20000000, 0x1861860, 5), 6, 2, 1);
    BitMore(FRESH_MODEL, t, Coder(0x20000000, 0x1861860, 5), 6, 2, 1, Coder(0x84924920, 0x1861860, 7));
    t := t + [Use(0, 1)];
    BitIs(Coder(0x84924920, 0x1861860, 7), 6, 3, 0);
    BitMore(FRESH_MODEL, t, Coder(0x84924920, 0x1861860, 7), 6, 3, 0, Coder(0x84924920, 0x104103C, 7));
    t := t + [Use(0, 0)];
    assert t == SIGNATURE[..8];
  }

  lemma FirstTwelve()
    ensures Ready(FRESH_MODEL) && AllKnown(FRESH_MODEL, SIGNATURE[..12])
    ensures CodeAll(FRESH_MODEL, SIGNATURE[..12]) ==
      Coding(Coder(0x10AF3F4FB0, 0x145E5D0, 12), [Table(INITIAL_MODEL, [9, 5])])
  {
    hide Ready, AllKnown, CodeAll, BitStep;
    FirstEight();
    var t := SIGNATURE[..8];
    NormalOnce(Coder(0x85485479, 0x4E04E3, 7));
    NormalOnce(Coder(0x10A90A8F2, 0x9C09C6, 8));
    BitIs(Coder(0x84924920, 0x104103C, 7), 7, 3, 1);
    BitMore(FRESH_MODEL, t, Coder(0x84924920, 0x104103C, 7), 7, 3, 1, Coder(0x2152151E4, 0x138138C, 9));
    t := t + [Use(0, 1)];
    NormalOnce(Coder(0x215E7E9F6, 0x717B7A, 9));
    NormalOnce(Coder(0x42BCFD3EC, 0xE2F6F4, 10));
    BitIs(Coder(0x2152151E4, 0x138138C, 9), 7, 4, 1);
    BitMore(FRESH_MODEL, t, Coder(0x2152151E4, 0x138138C, 9), 7, 4, 1, Coder(0x8579FA7D8, 0x1C5EDE8, 11));
    t := t + [Use(0, 1)];
    BitIs(Coder(0x8579FA7D8, 0x1C5EDE8, 11), 7, 5, 0);
    BitMore(FRESH_MODEL, t, Coder(0x8579FA7D8, 0x1C5EDE8, 11), 7, 5, 0, Coder(0x8579FA7D8, 0x108CAC5, 11));
    t := t + [Use(0, 0)];
    NormalOnce(Coder(0x8579FA7D8, 0xA2F2E8, 11));
    BitIs(Coder(0x8579FA7D8, 0x108CAC5, 11), 8, 5, 0);
    BitMore(FRESH_MODEL, t, Coder(0x8579FA7D8, 0x108CAC5, 11), 8, 5, 0, Coder(0x10AF3F4FB0, 0x145E5D0, 12));
    t := t + [Use(0, 0)];
    assert t == SIGNATURE[..12];
  }

  lemma Sixteen()
    ensures Ready(FRESH_MODEL) && AllKnown(FRESH_MODEL, SIGNATURE[..16])
    ensures CodeAll(FRESH_MODEL, SIGNATURE[..16]) ==
      Coding(Coder(0x2160E1AE43C, 0x1591176, 17), [Table(INITIAL_MODEL, [10, 8])])
  {
    hide Ready, AllKnown, CodeAll, BitStep;
    FirstTwelve();
    var t := SIGNATURE[..12];
    NormalOnce(Coder(0x10B010D11D, 0x746463, 12));
    NormalOnce(Coder(0x216021A23A, 0xE8C8C6, 13));
    BitIs(Coder(0x10AF3F4FB0, 0x145E5D0, 12), 9, 5, 1);
    BitMore(FRESH_MODEL, t, Coder(0x10AF3F4FB0, 0x145E5D0, 12), 9, 5, 1, Coder(0x42C0434474, 0x1D1918C, 14));
    t := t + [Use(0, 1)];
    NormalOnce(Coder(0x42C15A9BC8, 0xBA3A38, 14));
    BitIs(Coder(0x42C0434474, 0x1D1918C, 14), 9, 6, 1);
    BitMore(FRESH_MODEL, t, Coder(0x42C0434474, 0x1D1918C, 14), 9, 6, 1, Coder(0x8582B53790, 0x1747470, 15));
    t := t + [Use(0, 1)];
    NormalOnce(Coder(0x858386B90F, 0xA2F2F1, 15));
    BitIs(Coder(0x8582B53790, 0x1747470, 15), 9, 7, 1);
    BitMore(FRESH_MODEL, t, Coder(0x8582B53790, 0x1747470, 15), 9, 7, 1, Coder(0x10B070D721E, 0x145E5E2, 16));
    t := t + [Use(0, 1)];
    NormalOnce(Coder(0x10B070D721E, 0xAC88BB, 16));
    BitIs(Coder(0x10B070D721E, 0x145E5E2, 16), 9, 8, 0);
    BitMore(FRESH_MODEL, t, Coder(0x10B070D721E, 0x145E5E2, 16), 9, 8, 0, Coder(0x2160E1AE43C, 0x1591176, 17));
    t := t + [Use(0, 0)];
    assert t == SIGNATURE[..16];
  }

  /** The interval of all streams that begin with the signature. */
  lemma SignatureInterval()
    ensures Ready(FRESH_MODEL) && AllKnown(FRESH_MODEL, SIGNATURE)
    ensures CodeAll(FRESH_MODEL, SIGNATURE).coder == Coder(0x2160E1AE43C, 0x1591176, 17)
  {
    hide Ready, AllKnown, CodeAll;
    Sixteen();
    assert SIGNATURE[..16] == SIGNATURE;
  }

  /** They all begin with the bytes 42 C1. */
  lemma SignatureBytes(data: seq<Byte>)
    requires Ready(FRESH_MODEL) && AllKnown(FRESH_MODEL, SIGNATURE)
    requires Contains(CodeAll(FRESH_MODEL, SIGNATURE).coder, data)
    ensures Value(data, 16) == 0x42C1
  {
    hide Value, CodeAll, Pow2;
    SignatureInterval();
    ValueCut(data, 16, 27);
    Pow2Bytes();
    Pow2Add(24, 3);
    SmallPowers();
    var v := Value(data, 16);
    assert v * 0x800_0000 <= Value(data, 43) < (v + 1) * 0x800_0000;
  }
}
