/**
 The carry-less adaptive range decoder of the Arsenic format.  Its `Corrupt` guards cannot be reached: whatever the
 stream holds, the models and the range stay within bounds that rule them out.
 */
module ArsenicRange {
  import opened Words

  const ONE := 0x200_0000   // 2^25, the initial range
  const HALF := 0x100_0000  // 2^24, the renormalisation threshold

  datatype Params = Params(first: nat, last: nat, increment: nat, limit: nat)

  const INITIAL_MODEL := Params(0, 1, 1, 256)
  const SELECTOR_MODEL := Params(0, 10, 8, 1024)
  const MTF_MODELS: seq<Params> := [
    Params(2, 3, 8, 1024), Params(4, 7, 4, 1024), Params(8, 15, 4, 1024), Params(16, 31, 4, 1024),
    Params(32, 63, 2, 1024), Params(64, 127, 2, 1024), Params(128, 255, 1, 1024)]

  function NumSymbols(p: Params): int {
    p.last - p.first + 1
  }

  /** What a model needs so that a rescale brings its total back under the limit. */
  predicate Shipped(p: Params) {
    && 1 <= NumSymbols(p) && 1 <= p.increment
    && p.increment * NumSymbols(p) <= p.limit <= 1024
    && p.increment + NumSymbols(p) <= p.limit
  }

  /** All models the decoder ships satisfy it. */
  lemma AllShipped()
    ensures Shipped(INITIAL_MODEL) && Shipped(SELECTOR_MODEL)
    ensures forall k :: 0 <= k < |MTF_MODELS| ==> Shipped(MTF_MODELS[k])
  {
    forall k | 0 <= k < |MTF_MODELS| ensures Shipped(MTF_MODELS[k]) {
      if k == 0 {} else if k == 1 {} else if k == 2 {} else if k == 3 {} else if k == 4 {} else if k == 5 {} else {}
    }
  }

  ghost predicate Positive(f: seq<nat>) {
    forall i :: 0 <= i < |f| ==> f[i] >= 1
  }

  lemma {:induction false} TotalPrefix(f: seq<nat>, k: nat)
    requires k <= |f|
    ensures Total(f[..k]) <= Total(f)
    ensures k < |f| ==> Total(f[..k]) + f[k] == Total(f[..k + 1]) <= Total(f)
    decreases |f|
  {
    if k < |f| {
      assert f[..k + 1][..k] == f[..k];
      if k + 1 < |f| {
        TotalPrefix(f[..|f| - 1], k);
        assert f[..|f| - 1][..k] == f[..k];
        assert f[..|f| - 1][..k + 1] == f[..k + 1];
      } else {
        assert f[..k + 1] == f;
      }
    } else {
      assert f[..k] == f;
    }
  }

  lemma {:induction false} TotalFlat(n: nat, v: nat)
    ensures Total(seq(n, _ => v)) == n * v
    decreases n
  {
    if n > 0 {
      TotalFlat(n - 1, v);
      assert seq(n, _ => v)[..n - 1] == seq(n - 1, _ => v);
    }
  }

  /** Every frequency halved and rounded up. */
  function Halved(f: seq<nat>): (h: seq<nat>)
    ensures |h| == |f|
    ensures forall i :: 0 <= i < |f| ==> f[i] <= 2 * h[i] <= f[i] + 1
  {
    seq(|f|, i requires 0 <= i < |f| => (f[i] + 1) / 2)
  }

  lemma {:induction false} TotalHalved(f: seq<nat>)
    requires Positive(f)
    ensures |f| <= Total(Halved(f)) && 2 * Total(Halved(f)) <= Total(f) + |f|
    decreases |f|
  {
    if f != [] {
      var k := |f| - 1;
      TotalHalved(f[..k]);
      assert Halved(f)[..k] == Halved(f[..k]);
    }
  }

  /** The frequencies once symbol `n` has been counted. */
  function Adapted(p: Params, f: seq<nat>, n: nat): (r: seq<nat>)
    requires n < |f|
    ensures |r| == |f|
  {
    var bumped := f[n := f[n] + p.increment];
    if Total(f) + p.increment > p.limit then Halved(bumped) else bumped
  }

  /** Frequencies a model can have. */
  ghost predicate Usable(p: Params, f: seq<nat>) {
    Shipped(p) && |f| == NumSymbols(p) && Positive(f) && Total(f) <= p.limit
  }

  lemma AdaptedUsable(p: Params, f: seq<nat>, n: nat)
    requires Usable(p, f) && n < |f|
    ensures Usable(p, Adapted(p, f, n))
  {
    hide Total;
    var bumped := f[n := f[n] + p.increment];
    TotalUpdate(f, n, f[n] + p.increment);
    TotalHalved(bumped);
  }

  /** One adaptive frequency model. */
  class Model {
    const params: Params
    var freq: seq<nat>
    var total: nat

    ghost predicate Valid()
      reads this
    {
      Usable(params, freq) && total == Total(freq)
    }

    constructor (p: Params)
      requires Shipped(p)
      ensures Valid() && params == p && freq == seq(NumSymbols(p), _ => p.increment)
    {
      params := p;
      freq := seq(NumSymbols(p), _ => p.increment);
      total := p.increment * NumSymbols(p);
      TotalFlat(NumSymbols(p), p.increment);
    }

    method Reset()
      requires Valid()
      modifies this
      ensures Valid() && freq == seq(NumSymbols(params), _ => params.increment)
    {
      freq := seq(NumSymbols(params), _ => params.increment);
      total := params.increment * NumSymbols(params);
      TotalFlat(NumSymbols(params), params.increment);
    }

    /** Count a decoded symbol; halve all frequencies when the total passes the limit. */
    method Adapt(n: nat)
      requires Valid() && n < |freq|
      modifies this
      ensures Valid() && freq == Adapted(params, old(freq), n)
    {
      hide Total;
      AdaptedUsable(params, freq, n);
      TotalUpdate(freq, n, freq[n] + params.increment);
      freq := freq[n := freq[n] + params.increment];
      total := total + params.increment;
      if total > params.limit {
        freq, total := Halve(freq);
      }
    }
  }

  /** Halve every frequency, rounding up, and add them up again. */
  method Halve(freq: seq<nat>) returns (halved: seq<nat>, newTotal: nat)
    ensures halved == Halved(freq) && newTotal == Total(halved)
  {
    halved, newTotal := [], 0;
    for i := 0 to |freq|
      invariant halved == Halved(freq)[..i] && newTotal == Total(halved)
    {
      var f := (freq[i] + 1) / 2;
      assert (halved + [f])[..i] == halved;
      halved := halved + [f];
      newTotal := newTotal + f;
    }
  }

  /** The stream, read bit by bit from the top of each byte; past its end it yields zeros. */
  function BitAt(data: seq<Byte>, pos: nat): (b: int)
    ensures b == 0 || b == 1
  {
    if pos / 8 < |data| then data[pos / 8] / Pow2(7 - pos % 8) % 2 else 0
  }

  /** A value in 64-bit two's complement: bits shifted out at the top are lost. */
  function Signed64(x: int): (r: int)
    ensures -0x8000_0000_0000_0000 <= r < 0x8000_0000_0000_0000
    ensures -0x8000_0000_0000_0000 <= x < 0x8000_0000_0000_0000 ==> r == x
    ensures x % 2 == 0 ==> r % 2 == 0
  {
    (x + 0x8000_0000_0000_0000) % 0x1_0000_0000_0000_0000 - 0x8000_0000_0000_0000
  }

  /** The source's signed division, which truncates toward zero. */
  function Quotient(x: int, y: int): int
    requires y > 0
  {
    if x >= 0 then x / y else -(-x / y)
  }

  /** The point of the frequency line a register value stands for; values outside it go to the nearest end. */
  function Point(code: int, step: int, total: int): int
    requires step > 0
  {
    if code < 0 then 0 else if code / step < total then code / step else total - 1
  }

  /** The symbol whose slot of the frequency line holds `f`. */
  ghost predicate Selects(freq: seq<nat>, f: int, n: nat) {
    n < |freq| && Total(freq[..n]) <= f < Total(freq[..n]) + freq[n]
  }

  lemma {:induction false} SelectsOnce(freq: seq<nat>, f: int, m: nat, n: nat)
    requires Selects(freq, f, m) && Selects(freq, f, n)
    ensures m == n
  {
    hide Total;
    if m < n {
      PrefixGrows(freq, m + 1, n);
      TotalPrefix(freq, m);
    } else if n < m {
      PrefixGrows(freq, n + 1, m);
      TotalPrefix(freq, n);
    }
  }

  lemma PrefixGrows(freq: seq<nat>, m: nat, n: nat)
    requires m <= n <= |freq|
    ensures Total(freq[..m]) <= Total(freq[..n])
  {
    assert freq[..n][..m] == freq[..m];
    TotalPrefix(freq[..n], m);
  }

  // ----- what a stream stands for

  const FIRST_BITS := 26  // read before the first symbol

  /** The number formed by the first `k` bits of a stream. */
  function Value(data: seq<Byte>, k: nat): nat {
    if k == 0 then 0 else 2 * Value(data, k - 1) + BitAt(data, k - 1)
  }

  /** The symbols coded so far: the streams whose first `FIRST_BITS + shifts` bits lie in `[low, low + range)`. */
  datatype Coder = Coder(low: nat, range: int, shifts: nat)

  const START := Coder(0, ONE, 0)

  ghost predicate Contains(c: Coder, data: seq<Byte>) {
    c.low <= Value(data, FIRST_BITS + c.shifts) < c.low + c.range
  }

  /** The part of the interval that symbol `n` gets: its frequency in steps, and for the last one all that is left. */
  function Cut(c: Coder, freq: seq<nat>, n: nat): Coder
    requires n < |freq| && Total(freq) > 0 && c.range >= 0
  {
    StepPositive(c.range, Total(freq));
    var step: nat := c.range / Total(freq);
    var below := Total(freq[..n]);
    var size := if below + freq[n] == Total(freq) then c.range - step * below else step * freq[n];
    Coder(c.low + step * below, size, c.shifts)
  }

  lemma StepPositive(range: int, total: nat)
    requires total > 0 && range >= 0
    ensures range / total >= 0
  {
  }

  /** The same interval in finer units, until its size is above the threshold. */
  function Normal(c: Coder): (r: Coder)
    ensures 0 < c.range <= ONE ==> HALF < r.range <= ONE
    decreases ONE - c.range
  {
    if 0 < c.range <= HALF then Normal(Coder(2 * c.low, 2 * c.range, c.shifts + 1)) else c
  }

  function Coded(c: Coder, freq: seq<nat>, n: nat): Coder
    requires n < |freq| && Total(freq) > 0 && c.range >= 0
  {
    Normal(Cut(c, freq, n))
  }

  /** The decoder's register: how far into the interval the stream lies, in 64 bits. */
  function Register(data: seq<Byte>, c: Coder): int {
    Signed64(Value(data, FIRST_BITS + c.shifts) - c.low)
  }

  lemma SignedSame(x: int, k: int)
    ensures Signed64(x + k * 0x1_0000_0000_0000_0000) == Signed64(x)
  {
    var m := 0x1_0000_0000_0000_0000;
    var y := x + 0x8000_0000_0000_0000;
    DivModUnique(y + k * m, m, y / m + k, y % m);
  }

  lemma SignedAway(x: int) returns (k: int)
    ensures Signed64(x) == x + k * 0x1_0000_0000_0000_0000
  {
    var m := 0x1_0000_0000_0000_0000;
    var y := x + 0x8000_0000_0000_0000;
    k := -(y / m);
  }

  /** Shifting a bit in keeps the register in step. */
  lemma SignedShift(x: int, b: int)
    requires b == 0 || b == 1
    ensures Signed64(Signed64(x) * 2) + b == Signed64(2 * x + b)
  {
    hide Signed64;
    var k := SignedAway(x);
    var j := SignedAway(Signed64(x) * 2);
    var w := Signed64(Signed64(x) * 2);
    assert w + b == 2 * x + b + (2 * k + j) * 0x1_0000_0000_0000_0000;
    SignedSame(2 * x + b, 2 * k + j);
    SignedOdd(w, b);
  }

  lemma SignedOdd(w: int, b: int)
    requires -0x8000_0000_0000_0000 <= w < 0x8000_0000_0000_0000 && w % 2 == 0 && (b == 0 || b == 1)
    ensures Signed64(w + b) == w + b
  {
  }

  lemma SignedSub(x: int, d: int)
    requires -0x8000_0000_0000_0000 <= Signed64(x) - d < 0x8000_0000_0000_0000
    ensures Signed64(x) - d == Signed64(x - d)
  {
    hide Signed64;
    var k := SignedAway(x);
    assert Signed64(x) - d == x - d + k * 0x1_0000_0000_0000_0000;
    SignedSame(x - d, k);
    SignedFits(Signed64(x) - d);
  }

  lemma SignedFits(x: int)
    requires -0x8000_0000_0000_0000 <= x < 0x8000_0000_0000_0000
    ensures Signed64(x) == x
  {
  }

  lemma RegisterShift(data: seq<Byte>, c: Coder)
    ensures Signed64(Register(data, c) * 2) + BitAt(data, FIRST_BITS + c.shifts) ==
      Register(data, Coder(2 * c.low, 2 * c.range, c.shifts + 1))
    ensures 0 <= Register(data, c) <= HALF ==> Signed64(Register(data, c) * 2) == Register(data, c) * 2
  {
    hide Value, Signed64, BitAt;
    var k := FIRST_BITS + c.shifts;
    ValueMore(data, k);
    SignedShift(Value(data, k) - c.low, BitAt(data, k));
    SignedFits(if 0 <= Register(data, c) <= HALF then Register(data, c) * 2 else 0);
  }

  function Min(a: nat, b: nat): nat { if a < b then a else b }

  lemma ValueMore(data: seq<Byte>, k: nat)
    ensures Value(data, k + 1) == 2 * Value(data, k) + BitAt(data, k)
  {
  }

  lemma FirstFits()
    ensures Pow2(FIRST_BITS) == 0x400_0000
  {
    Pow2Bytes();
    Pow2Add(24, 2);
    assert Pow2(2) == 4;
  }

  // ----- which symbol is decoded

  /** The slot of the frequency line that holds `f`. */
  function Pick(freq: seq<nat>, f: int): (n: nat)
    requires freq != []
    ensures n < |freq|
  {
    if |freq| == 1 || f >= Total(freq[..|freq| - 1]) then |freq| - 1 else Pick(freq[..|freq| - 1], f)
  }

  lemma {:induction false} PickSelects(freq: seq<nat>, f: int)
    requires 0 <= f < Total(freq)
    ensures freq != [] && Selects(freq, f, Pick(freq, f))
    decreases |freq|
  {
    var k := |freq| - 1;
    assert freq[..k + 1] == freq;
    if k == 0 || f >= Total(freq[..k]) {
      assert k == 0 ==> freq[..k] == [];
    } else {
      PickSelects(freq[..k], f);
      var n := Pick(freq[..k], f);
      assert freq[..k][..n] == freq[..n];
    }
  }

  /** The symbol the stream asks for next. */
  function Chosen(data: seq<Byte>, c: Coder, freq: seq<nat>): (n: nat)
    requires Total(freq) > 0 && c.range >= Total(freq)
    ensures n < |freq|
  {
    StepAtLeast(c.range, Total(freq));
    Pick(freq, Point(Register(data, c), c.range / Total(freq), Total(freq)))
  }

  lemma StepAtLeast(range: int, total: nat)
    requires total > 0 && range >= total
    ensures range / total > 0
  {
  }

  lemma PointBounds(code: int, step: int, total: nat)
    requires step > 0 && total > 0
    ensures 0 <= Point(code, step, total) < total
  {
    if code >= 0 {
      SlotBounds(code, step);
    }
  }

  lemma ChosenOnly(data: seq<Byte>, c: Coder, freq: seq<nat>, n: nat)
    requires Total(freq) > 0 && c.range >= Total(freq) && c.range / Total(freq) > 0
    requires Selects(freq, Point(Register(data, c), c.range / Total(freq), Total(freq)), n)
    ensures Chosen(data, c, freq) == n
  {
    hide Total, Register, Point, Selects;
    var f := Point(Register(data, c), c.range / Total(freq), Total(freq));
    PointBounds(Register(data, c), c.range / Total(freq), Total(freq));
    PickSelects(freq, f);
    SelectsOnce(freq, f, n, Pick(freq, f));
  }

  // ----- what was coded comes back

  /** A cut is never empty and stays inside. */
  lemma CutInside(c: Coder, p: Params, freq: seq<nat>, n: nat)
    requires HALF < c.range <= ONE && Usable(p, freq) && n < |freq|
    ensures 1 <= Total(freq) <= 1024
    ensures var d := Cut(c, freq, n); c.low <= d.low && 0 < d.range && d.low + d.range <= c.low + c.range
  {
    hide Total;
    TotalPositive(freq);
    TotalPrefix(freq, n);
    var total, below := Total(freq), Total(freq[..n]);
    StepBounds(c.range, total);
    var step := c.range / total;
    MulMonotone(below + freq[n], total, step);
    MulMonotone(1, freq[n], step);
    MulMonotone(0, below, step);
    Distribute(below, freq[n], step);
  }

  lemma {:induction false} NormalContains(c: Coder, data: seq<Byte>)
    requires Contains(Normal(c), data)
    ensures Contains(c, data)
    decreases ONE - c.range
  {
    hide Value;
    if 0 < c.range <= HALF {
      NormalContains(Coder(2 * c.low, 2 * c.range, c.shifts + 1), data);
      ValueMore(data, FIRST_BITS + c.shifts);
    }
  }

  /** Inside the slot of a symbol the register points to that symbol. */
  lemma PointInside(v: int, range: int, total: nat, below: nat, size: nat)
    requires 1 <= total <= 1024 && HALF < range && size >= 1 && below + size <= total
    requires var step := range / total;
      step * below <= v < (if below + size == total then range else step * (below + size))
    ensures range / total > 0 && below <= Point(v, range / total, total) < below + size
  {
    StepBounds(range, total);
    var step := range / total;
    MulMonotone(0, below, step);
    SlotBounds(v, step);
    if v / step < below {
      MulMonotone(v / step + 1, below, step);
    }
    if below + size != total && v / step >= below + size {
      MulMonotone(below + size, v / step, step);
    }
  }

  /** A stream whose value lies in the interval of a symbol decodes to that symbol. */
  lemma Recovered(data: seq<Byte>, c: Coder, p: Params, freq: seq<nat>, n: nat)
    requires HALF < c.range <= ONE && Usable(p, freq) && n < |freq|
    requires Total(freq) > 0 && Contains(Coded(c, freq, n), data)
    ensures c.range >= Total(freq) && Chosen(data, c, freq) == n && Contains(c, data)
  {
    hide Total, Value, Point;
    CutInside(c, p, freq, n);
    TotalPrefix(freq, n);
    NormalContains(Cut(c, freq, n), data);
    var total, below := Total(freq), Total(freq[..n]);
    var v := Value(data, FIRST_BITS + c.shifts) - c.low;
    SignedFits(v);
    Distribute(below, freq[n], c.range / total);
    PointInside(v, c.range, total, below, freq[n]);
    ChosenOnly(data, c, freq, n);
  }

  /** One symbol, and the model it is coded with. */
  datatype Use = Use(model: nat, n: nat)

  datatype Table = Table(params: Params, freq: seq<nat>)

  /** The interval and the models, in the middle of a text. */
  datatype Coding = Coding(coder: Coder, models: seq<Table>)

  ghost predicate Ready(st: Coding) {
    && HALF < st.coder.range <= ONE
    && forall i :: 0 <= i < |st.models| ==> Usable(st.models[i].params, st.models[i].freq)
  }

  ghost predicate Known(st: Coding, u: Use) {
    u.model < |st.models| && u.n < |st.models[u.model].freq|
  }

  ghost predicate SameSizes(a: seq<Table>, b: seq<Table>) {
    |a| == |b| && forall i :: 0 <= i < |a| ==> |a[i].freq| == |b[i].freq|
  }

  ghost function After(st: Coding, u: Use): (r: Coding)
    requires Ready(st) && Known(st, u)
    ensures Ready(r) && SameSizes(r.models, st.models)
  {
    var t := st.models[u.model];
    CutInside(st.coder, t.params, t.freq, u.n);
    AdaptedUsable(t.params, t.freq, u.n);
    Coding(Coded(st.coder, t.freq, u.n), st.models[u.model := Table(t.params, Adapted(t.params, t.freq, u.n))])
  }

  ghost predicate AllKnown(st: Coding, text: seq<Use>) {
    forall i :: 0 <= i < |text| ==> Known(st, text[i])
  }

  /** The encoder: the interval of a whole text. */
  ghost function CodeAll(st: Coding, text: seq<Use>): (r: Coding)
    requires Ready(st) && AllKnown(st, text)
    ensures Ready(r) && SameSizes(r.models, st.models)
  {
    if text == [] then st else After(CodeAll(st, text[..|text| - 1]), text[|text| - 1])
  }

  datatype Decoding = Decoding(symbols: seq<nat>, st: Coding)

  /** The decoder: as many symbols as there are models to decode them with. */
  ghost function DecodeAll(data: seq<Byte>, st: Coding, which: seq<nat>): (d: Decoding)
    requires Ready(st) && forall i :: 0 <= i < |which| ==> which[i] < |st.models|
    ensures Ready(d.st) && SameSizes(d.st.models, st.models) && |d.symbols| == |which|
  {
    if which == [] then Decoding([], st)
    else
      var d := DecodeAll(data, st, which[..|which| - 1]);
      var m := which[|which| - 1];
      var n := Decoded(data, d.st, m);
      Decoding(d.symbols + [n], After(d.st, Use(m, n)))
  }

  /** The next symbol, with model `m`. */
  ghost function Decoded(data: seq<Byte>, st: Coding, m: nat): (n: nat)
    requires Ready(st) && m < |st.models|
    ensures Known(st, Use(m, n))
  {
    CutInside(st.coder, st.models[m].params, st.models[m].freq, 0);
    Chosen(data, st.coder, st.models[m].freq)
  }

  function Kinds(text: seq<Use>): (k: seq<nat>)
    ensures |k| == |text|
    ensures forall i :: 0 <= i < |text| ==> k[i] == text[i].model
  {
    if text == [] then [] else Kinds(text[..|text| - 1]) + [text[|text| - 1].model]
  }

  function Symbols(text: seq<Use>): (n: seq<nat>)
    ensures |n| == |text|
    ensures forall i :: 0 <= i < |text| ==> n[i] == text[i].n
  {
    if text == [] then [] else Symbols(text[..|text| - 1]) + [text[|text| - 1].n]
  }

  /**
   Decoding what was coded: of any stream whose value lies in the interval of a text, the decoder makes that text, all
   models adapting on the way, and its register stays in the range.
   */
  lemma {:induction false} RoundTrip(data: seq<Byte>, st: Coding, text: seq<Use>)
    requires Ready(st) && AllKnown(st, text) && Contains(CodeAll(st, text).coder, data)
    ensures DecodeAll(data, st, Kinds(text)) == Decoding(Symbols(text), CodeAll(st, text))
    ensures Contains(st.coder, data)
    decreases |text|
  {
    hide Chosen, Coded, Contains, Adapted, Usable, Total;
    if text != [] {
      var k := |text| - 1;
      var before, u := CodeAll(st, text[..k]), text[k];
      assert Known(st, u);
      var t := before.models[u.model];
      CutInside(before.coder, t.params, t.freq, u.n);
      Recovered(data, before.coder, t.params, t.freq, u.n);
      RoundTrip(data, st, text[..k]);
      assert Kinds(text)[..k] == Kinds(text[..k]);
    }
  }

  class Decoder {
    const data: seq<Byte>
    var pos: nat
    var underflow: bool
    var range: int
    var code: int
    ghost var coder: Coder  // the interval of the symbols decoded so far

    /** Every reachable state, whatever the stream: a register that leaves the range may even wrap to a negative one. */
    ghost predicate Valid()
      reads this
    {
      HALF < range <= ONE && Tracks()
    }

    /** Range and register are those of the interval, and all its bits have been read, zeros behind the end. */
    ghost predicate Tracks()
      reads this
    {
      && range == coder.range && code == Register(data, coder)
      && pos == Min(FIRST_BITS + coder.shifts, 8 * |data|)
      && (underflow <==> FIRST_BITS + coder.shifts > 8 * |data|)
    }

    /** The register lies in the range, as on every stream an encoder makes. */
    ghost predicate Inside()
      reads this
    {
      0 <= code < range
    }

    /** The `k`-th bit of the stream. */
    method NextBit(ghost k: nat) returns (b: int)
      requires pos == Min(k, 8 * |data|) && (underflow <==> k > 8 * |data|)
      modifies this`pos, this`underflow
      ensures b == BitAt(data, k)
      ensures pos == Min(k + 1, 8 * |data|) && (underflow <==> k + 1 > 8 * |data|)
    {
      var byteIdx := pos / 8;
      if byteIdx >= |data| {
        underflow := true;
        return 0;
      }
      b := data[byteIdx] / Pow2(7 - pos % 8) % 2;
      pos := pos + 1;
    }

    constructor (data: seq<Byte>)
      ensures Valid() && this.data == data && coder == START
    {
      this.data := data;
      pos, underflow, range, code, coder := 0, false, ONE, 0, START;
      new;
      for k := 0 to FIRST_BITS
        invariant code == Value(data, k) && code < Pow2(k) && range == ONE && coder == START && this.data == data
        invariant pos == Min(k, 8 * |data|) && (underflow <==> k > 8 * |data|)
      {
        var b := NextBit(k);
        code := code * 2 + b;
      }
      FirstFits();
    }

    /** Find the slot of `f` on the frequency line; below its start it is the first one. */
    method Select(freq: seq<nat>, f: int) returns (n: nat, cumulative: nat)
      requires f < Total(freq) && Positive(freq) && freq != []
      ensures Selects(freq, if f < 0 then 0 else f, n) && cumulative == Total(freq[..n])
    {
      n, cumulative := 0, 0;
      assert freq[..|freq|] == freq;
      while n < |freq| - 1 && f >= cumulative + freq[n]
        invariant n < |freq| && cumulative == Total(freq[..n]) && (n > 0 ==> cumulative <= f)
        decreases |freq| - n
      {
        TotalPrefix(freq, n);
        cumulative := cumulative + freq[n];
        n := n + 1;
      }
      TotalPrefix(freq, n);
    }

    /** Double the range, pulling in bits, until it is above the threshold.  The counter's limit is never met. */
    method Renormalise() returns (ok: bool)
      requires 0x4000 <= range <= ONE && Tracks()
      modifies this`pos, this`underflow, this`range, this`code, this`coder
      ensures ok && Valid() && coder == Normal(old(coder))
      ensures old(Inside()) ==> Inside()
    {
      hide Value, Register, BitAt;
      var guard := 0;
      ghost var inside := Inside();
      assert Pow2(0) == 1;
      while range <= HALF
        invariant 0 <= guard <= 11 && 0x4000 * Pow2(guard) <= range <= ONE
        invariant Tracks() && Normal(coder) == Normal(old(coder))
        invariant inside ==> Inside()
        decreases ONE - range
      {
        ghost var k := FIRST_BITS + coder.shifts;
        var b := NextBit(k);
        RegisterShift(data, coder);
        range := range * 2;
        code := Signed64(code * 2) + b;
        coder := Coder(2 * coder.low, 2 * coder.range, coder.shifts + 1);
        guard := guard + 1;
        GuardBound(guard - 1, range / 2);
        if guard > 28 {
          return false;
        }
      }
      return true;
    }

    /** Cut the interval down to the slot `[low, low + size)`; the last slot keeps the remainder. */
    method Narrow(total: nat, step: int, low: nat, size: nat, ghost freq: seq<nat>, ghost n: nat)
      requires Valid() && 1 <= total && step >= 0x4000 && step * total <= range < (step + 1) * total
      requires size >= 1 && low + size <= total && low <= Point(code, step, total) < low + size
      requires n < |freq| && total == Total(freq) && low == Total(freq[..n]) && size == freq[n] && step == range / total
      modifies this`range, this`code, this`coder
      ensures 0x4000 <= range <= ONE && Tracks() && coder == Cut(old(coder), freq, n)
      ensures old(Inside()) ==> Inside()
    {
      hide Value, Signed64, Total;
      NarrowBounds(range, code, total, step, low, size);
      var lowIncr := step * low;
      SignedSub(Value(data, FIRST_BITS + coder.shifts) - coder.low, lowIncr);
      coder := Cut(coder, freq, n);
      code := code - lowIncr;
      if low + size == total {
        range := range - lowIncr;
      } else {
        range := size * step;
      }
    }

    /** Decode one symbol and adapt its model. */
    method DecodeIndex(model: Model) returns (r: Outcome)
      requires Valid() && model.Valid()
      modifies this, model
      ensures Valid() && model.Valid()
      ensures r.Index? && r.n < |model.freq|
      ensures Selects(old(model.freq), Point(old(code), old(range) / old(model.total), old(model.total)), r.n)
      ensures 0 < old(model.total) <= old(coder.range) && r.n == Chosen(data, old(coder), old(model.freq))
      ensures coder == Coded(old(coder), old(model.freq), r.n)
      ensures model.freq == Adapted(model.params, old(model.freq), r.n)
      ensures old(Inside()) ==> Inside()
    {
      hide Total, Adapted, Register;
      var total := model.total;
      TotalPositive(model.freq);
      if total < 1 {
        return Corrupt;
      }
      var step := range / total;
      StepBounds(range, total);
      if step < 1 {
        return Corrupt;
      }
      var f := Quotient(code, step);
      if f >= total {
        f := total - 1;
      }
      QuotientPoint(code, step, total);
      var n, low := Select(model.freq, f);
      ChosenOnly(data, coder, model.freq, n);
      var size := model.freq[n];
      TotalPrefix(model.freq, n);
      Narrow(total, step, low, size, model.freq, n);
      var ok := Renormalise();
      if !ok {
        return Corrupt;
      }
      model.Adapt(n);
      return Index(n);
    }

    /** Several one-bit symbols, the first being the least significant. */
    method DecodeBits(model: Model, bits: nat) returns (value: nat)
      requires Valid() && model.Valid() && model.params == INITIAL_MODEL
      modifies this, model
      ensures Valid() && model.Valid()
      ensures value < Pow2(bits)
      ensures old(Ready(Alone(coder, model)))
      ensures var d := DecodeAll(data, old(Alone(coder, model)), Zeros(bits));
        value == Number(d.symbols) && Alone(coder, model) == d.st
      ensures old(Inside()) ==> Inside()
    {
      hide Chosen, Coded, Adapted, Register, Total, Point, After, Decoded, SoFar, DecodeAll, Selects;
      value := 0;
      ghost var inside, st := Inside(), Alone(coder, model);
      NothingSoFar(data, st);
      for k := 0 to bits
        invariant Valid() && model.Valid() && model.params == INITIAL_MODEL
        invariant value < Pow2(k) && SoFar(data, st, k, Alone(coder, model), value)
        invariant inside ==> Inside()
      {
        AloneNext(data, coder, model.params, model.freq);
        OneMore(data, st, k, Alone(coder, model), value);
        var r := DecodeIndex(model);
        value := value + r.n * Pow2(k);
        BitFits(r.n, Pow2(k));
      }
      assert Ready(st) by { SoFarReady(data, st, bits, Alone(coder, model), value); }
      AllSoFar(data, st, bits, Alone(coder, model), value);
    }
  }

  ghost function Alone(c: Coder, model: Model): Coding
    reads model
  {
    Coding(c, [Table(model.params, model.freq)])
  }

  function Zeros(n: nat): (z: seq<nat>)
    ensures |z| == n && forall i :: 0 <= i < n ==> z[i] == 0
  {
    if n == 0 then [] else Zeros(n - 1) + [0]
  }

  /** The number whose binary digits these are, the lowest first. */
  function Number(bits: seq<nat>): nat {
    if bits == [] then 0 else Number(bits[..|bits| - 1]) + bits[|bits| - 1] * Pow2(|bits| - 1)
  }

  /** The first `k` symbols of a single model, as a number. */
  ghost predicate SoFar(data: seq<Byte>, st: Coding, k: nat, now: Coding, value: int) {
    Ready(st) && |st.models| == 1 &&
    var d := DecodeAll(data, st, Zeros(k));
    now == d.st && value == Number(d.symbols)
  }

  lemma NothingSoFar(data: seq<Byte>, st: Coding)
    requires Ready(st) && |st.models| == 1
    ensures SoFar(data, st, 0, st, 0)
  {
  }

  lemma SoFarReady(data: seq<Byte>, st: Coding, k: nat, now: Coding, value: int)
    requires SoFar(data, st, k, now, value)
    ensures Ready(st) && |st.models| == 1
  {
  }

  lemma AllSoFar(data: seq<Byte>, st: Coding, k: nat, now: Coding, value: int)
    requires SoFar(data, st, k, now, value) && Ready(st) && |st.models| == 1
    ensures var d := DecodeAll(data, st, Zeros(k)); now == d.st && value == Number(d.symbols)
  {
  }

  lemma OneMore(data: seq<Byte>, st: Coding, k: nat, now: Coding, value: int)
    requires SoFar(data, st, k, now, value) && Ready(now) && |now.models| == 1
    ensures var n := Decoded(data, now, 0); SoFar(data, st, k + 1, After(now, Use(0, n)), value + n * Pow2(k))
  {
    hide Decoded, After, Ready;
    assert Zeros(k + 1)[..k] == Zeros(k);
    var d := DecodeAll(data, st, Zeros(k));
    var n := Decoded(data, now, 0);
    assert (d.symbols + [n])[..k] == d.symbols;
  }

  /** What a decoder with one model does next. */
  lemma AloneNext(data: seq<Byte>, c: Coder, p: Params, f: seq<nat>)
    requires HALF < c.range <= ONE && Usable(p, f)
    ensures var st := Coding(c, [Table(p, f)]);
      && Ready(st) && 0 < Total(f) <= c.range
      && Decoded(data, st, 0) == Chosen(data, c, f)
      && After(st, Use(0, Chosen(data, c, f))) ==
         Coding(Coded(c, f, Chosen(data, c, f)), [Table(p, Adapted(p, f, Chosen(data, c, f)))])
  {
    hide Chosen, Coded, Adapted, Total;
    var st := Coding(c, [Table(p, f)]);
    CutInside(c, p, f, 0);
  }

  datatype Outcome = Index(n: nat) | Corrupt

  lemma BitFits(b: nat, p: nat)
    requires b <= 1
    ensures b * p <= p
  {
  }

  lemma GuardBound(guard: nat, range: int)
    requires 0x4000 * Pow2(guard) <= range <= HALF
    ensures guard <= 10
  {
    PowerReaches(guard);
  }

  lemma PowerReaches(guard: nat)
    ensures guard >= 11 ==> Pow2(guard) >= 2048
  {
    Pow2Bytes();
    assert Pow2(11) == 8 * Pow2(8);
    if guard >= 11 {
      Pow2Add(11, guard - 11);
      MulMonotone(1, Pow2(guard - 11), Pow2(11));
    }
  }

  lemma {:induction false} TotalPositive(f: seq<nat>)
    requires Positive(f)
    ensures Total(f) >= |f|
    decreases |f|
  {
    if f != [] {
      TotalPositive(f[..|f| - 1]);
    }
  }

  lemma StepBounds(range: int, total: nat)
    requires HALF < range && 1 <= total <= 1024
    ensures 0x4000 <= range / total
    ensures range / total * total <= range < (range / total + 1) * total
  {
    if range / total < 0x4000 {
      MulMonotone(range / total + 1, 0x4000, total);
    }
  }

  lemma SlotBounds(code: int, step: nat)
    requires 0 <= code && step > 0
    ensures 0 <= code / step && code / step * step <= code < (code / step + 1) * step
  {
  }

  lemma QuotientPoint(code: int, step: nat, total: nat)
    requires step > 0 && total >= 1
    ensures var q := Quotient(code, step);
      var f := if q >= total then total - 1 else q;
      Point(code, step, total) == if f < 0 then 0 else f
  {
    if code < 0 {
      SlotBounds(-code, step);
    } else {
      SlotBounds(code, step);
    }
  }

  /** The narrowed interval: inside the old one, not empty, and around the code if the old one was. */
  lemma NarrowBounds(range: int, code: int, total: nat, step: int, low: nat, size: nat)
    requires HALF < range <= ONE && 1 <= total && step >= 0x4000
    requires step * total <= range < (step + 1) * total
    requires size >= 1 && low + size <= total && low <= Point(code, step, total) < low + size
    ensures if code < 0 then step * low == 0 else 0 <= step * low <= code
    ensures low + size == total ==>
      0x4000 <= range - step * low <= ONE && (0 <= code < range ==> code - step * low < range - step * low)
    ensures low + size != total ==>
      0x4000 <= size * step <= ONE && (0 <= code ==> code - step * low < size * step)
  {
    var slot := Point(code, step, total);
    if code >= 0 {
      SlotBounds(code, step);
      MulMonotone(slot, code / step, step);
    }
    MulMonotone(low, slot, step);
    Distribute(low, size, step);
    MulMonotone(low + size, total, step);
    MulMonotone(1, size, step);
    if low + size != total {
      MulMonotone(slot + 1, low + size, step);
    }
  }
}
