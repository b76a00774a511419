/**
 The adaptive binary range coder of the BCJ2 control stream.

 The encoder's state is read as one exact integer: every byte it has put out or still keeps back, followed by
 `low`.  A carry then is nothing but an addition, and a coded sequence is an interval of such integers.
 */
module RangeCoder {
  import opened Words

  const TOP := 0x100_0000
  const MODEL_TOTAL := 2048
  const MOVE_BITS := 32  // probabilities move by 1/32 of the distance

  /** The adaptation keeps every probability away from both ends. */
  type Prob = p: int | 31 <= p <= 2017 witness 1024

  const PROB_INIT: Prob := 1024

  function Adapt(p: Prob, bit: bool): Prob {
    if bit then p - p / MOVE_BITS else p + (MODEL_TOTAL - p) / MOVE_BITS
  }

  /** A zero bit draws the probability as close to its end as a one bit draws the opposite one to the other. */
  lemma AdaptSymmetric(p: Prob)
    ensures Adapt(p, false) + Adapt(MODEL_TOTAL - p, true) == MODEL_TOTAL
  {
  }

  function Bound(range: Word, p: Prob): (b: int)
    ensures 0 <= b <= range
    ensures range >= TOP ==> 0x1_0000 <= b <= range - 0x1_0000
  {
    BoundRange(range / MODEL_TOTAL, p, range);
    range / MODEL_TOTAL * p
  }

  lemma BoundRange(scaled: int, p: int, range: int)
    requires 31 <= p <= 2017 && 0 <= scaled && 2048 * scaled <= range < 2048 * scaled + 2048
    ensures 0 <= scaled * p <= range
    ensures range >= TOP ==> 0x1_0000 <= scaled * p <= range - 0x1_0000
  {
    MulMonotone(p, 2017, scaled);
    MulMonotone(31, p, scaled);
  }

  lemma LowShifted(low: nat)
    ensures low * 0x100 % 0x1_0000_0000 == low % 0x100_0000 * 0x100
  {
    DivModUnique(low * 0x100, 0x1_0000_0000, low / 0x100_0000, low % 0x100_0000 * 0x100);
  }

  // ----- the exact coder

  /** The interval `[low, low + range)`, in units of 256^-shifts. */
  datatype Coder = Coder(low: nat, range: Word, shifts: nat)

  const START := Coder(0, 0xFFFF_FFFF, 0)

  function Narrow(c: Coder, p: Prob, bit: bool): Coder
    requires c.range >= TOP
  {
    var bound := Bound(c.range, p);
    if bit then c.(low := c.low + bound, range := c.range - bound) else c.(range := bound)
  }

  /** One renormalisation step; after a coded bit it is always enough. */
  function Normal(c: Coder): (r: Coder)
    requires c.range >= 0x1_0000
    ensures r.range >= TOP
  {
    if c.range < TOP then Coder(c.low * 0x100, c.range * 0x100, c.shifts + 1) else c
  }

  /** One bit to code and the probability it is coded with. */
  datatype Decision = Decision(p: Prob, bit: bool)

  function Code(ds: seq<Decision>, c: Coder): (r: Coder)
    requires c.range >= TOP
    ensures r.range >= TOP
  {
    if ds == [] then c else Code(ds[1..], Normal(Narrow(c, ds[0].p, ds[0].bit)))
  }

  function Pow256(n: nat): (p: nat)
    ensures p > 0
  {
    if n == 0 then 1 else 0x100 * Pow256(n - 1)
  }

  /** `f`, in its own finer unit, lies in the interval of `c`. */
  ghost predicate Within(f: Coder, c: Coder) {
    && c.shifts <= f.shifts
    && c.low * Pow256(f.shifts - c.shifts) <= f.low < (c.low + c.range) * Pow256(f.shifts - c.shifts)
  }

  lemma WithinNormal(f: Coder, c: Coder)
    requires c.range >= 0x1_0000 && Within(f, Normal(c))
    ensures Within(f, c)
  {
    if c.range < TOP {
      var m := f.shifts - c.shifts;
      assert Pow256(m) == 0x100 * Pow256(m - 1);
      assert c.low * Pow256(m) == (c.low * 0x100) * Pow256(m - 1);
      assert (c.low + c.range) * Pow256(m) == (c.low * 0x100 + c.range * 0x100) * Pow256(m - 1);
    }
  }

  lemma WithinNarrow(f: Coder, c: Coder, p: Prob, bit: bool)
    requires c.range >= TOP && Within(f, Narrow(c, p, bit))
    ensures Within(f, c)
  {
    var n := Narrow(c, p, bit);
    MulMonotone(c.low, n.low, Pow256(f.shifts - c.shifts));
    MulMonotone(n.low + n.range, c.low + c.range, Pow256(f.shifts - c.shifts));
  }

  /** Whatever is coded later stays inside the interval coded so far. */
  lemma {:induction false} CodeWithin(ds: seq<Decision>, c: Coder)
    requires c.range >= TOP
    ensures Within(Code(ds, c), c)
    decreases |ds|
  {
    var f := Code(ds, c);
    if ds != [] {
      var n := Narrow(c, ds[0].p, ds[0].bit);
      CodeWithin(ds[1..], Normal(n));
      WithinNormal(f, n);
      WithinNarrow(f, c, ds[0].p, ds[0].bit);
    } else {
      assert Pow256(0) == 1;
    }
  }

  // ----- big-endian values

  function Value(s: seq<Byte>): nat {
    if s == [] then 0 else Value(s[..|s| - 1]) * 0x100 + s[|s| - 1]
  }

  lemma ValueSnoc(s: seq<Byte>, b: Byte)
    ensures Value(s + [b]) == Value(s) * 0x100 + b
  {
    assert (s + [b])[..|s|] == s;
  }

  /** Dropping `m` bytes is dividing by 256^m. */
  lemma {:induction false} ValuePrefix(s: seq<Byte>, k: nat)
    requires k <= |s|
    ensures Value(s[..k]) * Pow256(|s| - k) <= Value(s) < (Value(s[..k]) + 1) * Pow256(|s| - k)
    decreases |s|
  {
    if k == |s| {
      assert s[..k] == s;
    } else {
      var t := s[..|s| - 1];
      ValuePrefix(t, k);
      assert t[..k] == s[..k];
      ScaleUp(Value(s[..k]), Pow256(|t| - k), Value(t), s[|s| - 1]);
    }
  }

  lemma ScaleUp(v: nat, p: nat, w: nat, b: Byte)
    requires v * p <= w < (v + 1) * p
    ensures v * (0x100 * p) <= w * 0x100 + b < (v + 1) * (0x100 * p)
  {
    assert v * (0x100 * p) == 0x100 * (v * p);
    assert (v + 1) * (0x100 * p) == 0x100 * ((v + 1) * p);
  }

  /** The `n` big-endian bytes of `v`. */
  function ToBytes(v: nat, n: nat): (s: seq<Byte>)
    ensures |s| == n
  {
    if n == 0 then [] else ToBytes(v / 0x100, n - 1) + [v % 0x100]
  }

  /** The stream of a finished run. */
  function StreamBytes(f: Coder): seq<Byte> {
    ToBytes(f.low, f.shifts + 5)
  }

  /** Bytes are determined by their number and their value. */
  lemma {:induction false} ToBytesValue(s: seq<Byte>)
    ensures ToBytes(Value(s), |s|) == s
  {
    if s != [] {
      var t := s[..|s| - 1];
      ToBytesValue(t);
      DivModUnique(Value(s), 0x100, Value(t), s[|s| - 1]);
    }
  }

  // ----- the encoder

  function Fill(n: nat, b: Byte): seq<Byte> {
    seq(n, _ => b)
  }

  lemma FillAt(n: nat, b: Byte)
    ensures |Fill(n, b)| == n && forall i :: 0 <= i < n ==> Fill(n, b)[i] == b
  {
  }

  lemma FillSnoc(n: nat, b: Byte)
    ensures Fill(n + 1, b) == Fill(n, b) + [b]
  {
  }

  /** A carry into `c` followed by all-ones bytes clears the ones and adds one to `c`. */
  lemma {:induction false} CarryValue(out: seq<Byte>, c: Byte, n: nat)
    requires c < 0xFF
    ensures Value(out + [c + 1] + Fill(n, 0)) == Value(out + [c] + Fill(n, 0xFF)) + 1
  {
    if n == 0 {
      assert out + [c + 1] + Fill(0, 0) == out + [c + 1] && out + [c] + Fill(0, 0xFF) == out + [c];
      ValueSnoc(out, c + 1);
      ValueSnoc(out, c);
    } else {
      CarryValue(out, c, n - 1);
      FillSnoc(n - 1, 0);
      FillSnoc(n - 1, 0xFF);
      assert out + [c + 1] + Fill(n, 0) == (out + [c + 1] + Fill(n - 1, 0)) + [0];
      assert out + [c] + Fill(n, 0xFF) == (out + [c] + Fill(n - 1, 0xFF)) + [0xFF];
      ValueSnoc(out + [c + 1] + Fill(n - 1, 0), 0);
      ValueSnoc(out + [c] + Fill(n - 1, 0xFF), 0xFF);
    }
  }

  class RangeEnc {
    var low: nat
    var range: Word
    var cache: Byte
    var cacheSize: nat
    var out: seq<Byte>
    ghost var coder: Coder  // the exact coder this state stands for

    /** The bytes decided on so far, up to one carry: those put out, `cache`, and the ones after it. */
    ghost function Kept(): seq<Byte>
      requires cacheSize > 0
      reads this
    {
      out + [cache] + Fill(cacheSize - 1, 0xFF)
    }

    /** The fields stand for `coder`, and a carry that can still come finds a byte to go into. */
    ghost predicate Sound()
      reads this
    {
      && cacheSize > 0
      && range == coder.range
      && |Kept()| == coder.shifts + 1
      && Value(Kept()) * 0x1_0000_0000 + low == coder.low
      && low + range <= 0x2_0000_0000
      && (cache == 0xFF ==> low + range <= 0x1_0000_0000)
    }

    ghost predicate Valid()
      reads this
    {
      Sound() && range >= TOP
    }

    constructor ()
      ensures Valid() && coder == START
    {
      low, range, cache, cacheSize, out := 0, 0xFFFF_FFFF, 0, 1, [];
      coder := START;
    }

    /** Move the top byte of `low` out, holding back bytes a later carry could still reach. */
    method ShiftLow()
      requires cacheSize > 0 && low < 0x2_0000_0000
      requires low >= 0x1_0000_0000 ==> cache != 0xFF
      modifies this`low, this`cache, this`cacheSize, this`out
      ensures cacheSize > 0
      ensures |Kept()| == |old(Kept())| + 1
      ensures Value(Kept()) * 0x1_0000_0000 + low == 0x100 * (Value(old(Kept())) * 0x1_0000_0000 + old(low))
      ensures low == old(low) % 0x100_0000 * 0x100
      ensures cache == 0xFF ==>
        old(low) >= 0x1_FF00_0000 || (old(cache) == 0xFF && 0xFF00_0000 <= old(low) < 0x1_0000_0000)
      ensures old(low) < 0xFF00_0000 ==> cacheSize == 1 && out == old(Kept()) && cache == old(low) / 0x100_0000
    {
      hide Value;
      ghost var kept, base := Kept(), Kept();
      ghost var top: Byte := low / 0x100_0000 % 0x100;
      if low < 0xFF00_0000 || low > 0xFFFF_FFFF {
        PutKept();
        cache := low / 0x100_0000 % 0x100;
        base := out;
      }
      cacheSize := cacheSize + 1;
      assert Kept() == base + [top] by {
        if cacheSize > 1 {
          FillSnoc(cacheSize - 2, 0xFF);
        }
      }
      ValueSnoc(base, top);
      LowShifted(low);
      low := low * 0x100 % 0x1_0000_0000;
    }

    /** Put out everything kept back, with the carry added in. */
    method PutKept()
      requires cacheSize > 0 && low < 0x2_0000_0000
      requires low >= 0x1_0000_0000 ==> cache != 0xFF
      modifies this`cacheSize, this`out
      ensures cacheSize == 0
      ensures |out| == |old(Kept())|
      ensures Value(out) == Value(old(Kept())) + low / 0x1_0000_0000
      ensures low < 0x1_0000_0000 ==> out == old(Kept())
    {
      hide Value, Fill;
      ghost var carry: int, n, out0 := low / 0x1_0000_0000, cacheSize - 1, out;
      ghost var all := [cache + carry] + Fill(n, (0xFF + carry) % 0x100);
      FillAt(n, (0xFF + carry) % 0x100);
      var temp := cache;
      while true
        invariant 0 < cacheSize <= n + 1
        invariant temp == if cacheSize == n + 1 then cache else 0xFF
        invariant out == out0 + all[..n + 1 - cacheSize]
        decreases cacheSize
      {
        out := out + [(temp + low / 0x1_0000_0000) % 0x100];
        temp := 0xFF;
        cacheSize := cacheSize - 1;
        if cacheSize == 0 {
          break;
        }
      }
      assert all[..n + 1] == all;
      ConcatAssoc(out0, [cache + carry], Fill(n, (0xFF + carry) % 0x100));
      FillAt(n, 0xFF);
      if carry == 1 {
        assert [cache + carry] == [cache + 1];
        assert out == out0 + [cache + 1] + Fill(n, 0);
        assert old(Kept()) == out0 + [cache] + Fill(n, 0xFF);
        CarryValue(out0, cache, n);
      } else {
        assert carry == 0;
        assert out == out0 + [cache] + Fill(n, 0xFF);
        assert old(Kept()) == out0 + [cache] + Fill(n, 0xFF);
      }
    }
  
    /** Scale the interval up by one byte. */
    method Rescale()
      requires Sound() && 0 < range < TOP
      modifies this
      ensures Sound()
      ensures coder == Coder(old(coder.low) * 0x100, old(range) * 0x100, old(coder.shifts) + 1)
    {
      range := range * 0x100 % 0x1_0000_0000;
      coder := Coder(coder.low * 0x100, range, coder.shifts + 1);
      ShiftLow();
    }

    method NarrowTo(p: Prob, bit: bool)
      requires Valid()
      modifies this
      ensures Sound() && coder == Narrow(old(coder), p, bit) && range >= 0x1_0000
    {
      var bound := Bound(range, p);
      coder := Narrow(coder, p, bit);
      hide Bound;
      if !bit {
        range := bound;
      } else {
        low := low + bound;
        range := range - bound;
      }
    }

    /** Code one bit; the adapted probability goes back to the caller's model. */
    method EncodeBit(p: Prob, bit: bool) returns (adapted: Prob)
      requires Valid()
      modifies this
      ensures Valid()
      ensures coder == Normal(Narrow(old(coder), p, bit))
      ensures adapted == Adapt(p, bit)
    {
      hide Value, Narrow, Bound;
      NarrowTo(p, bit);
      adapted := Adapt(p, bit);
      ghost var rounds, narrow := 0, coder;
      while range < TOP
        invariant Sound()
        invariant rounds == 0 ==> coder == narrow && range >= 0x1_0000
        invariant rounds != 0 ==> coder == Normal(narrow)
        decreases TOP - range
      {
        Rescale();
        rounds := rounds + 1;
      }
    }

    /** Flush: the stream is the exact value in `shifts + 5` bytes. */
    method Finish() returns (rc: seq<Byte>)
      requires Valid()
      modifies this
      ensures rc == StreamBytes(old(coder))
    {
      hide Value, Pow256, ToBytes;
      ghost var l, n := coder.low, coder.shifts;
      PowNext(0, l);
      for k := 0 to 5
        invariant cacheSize > 0 && low < 0x2_0000_0000
        invariant low >= 0x1_0000_0000 ==> cache != 0xFF
        invariant |Kept()| == n + 1 + k
        invariant Value(Kept()) * 0x1_0000_0000 + low == Pow256(k) * l
        invariant k >= 1 ==> low % 0x100 == 0 && low < 0x1_0000_0000
        invariant k >= 2 ==> low % 0x1_0000 == 0
        invariant k >= 3 ==> low % 0x100_0000 == 0
        invariant k >= 4 ==> low == 0
        invariant k == 5 ==> Kept() == out + [0]
      {
        ghost var was := low;
        ShiftLow();
        ShiftZeros(was, low);
        PowNext(k, l);
        assert Fill(0, 0xFF) == [];
      }
      ValueSnoc(out, 0);
      FivePowers(l);
      ToBytesValue(out);
      rc := out;
    }
  }

  lemma PowNext(k: nat, l: nat)
    ensures 0x100 * (Pow256(k) * l) == Pow256(k + 1) * l
    ensures Pow256(0) == 1
  {
  }

  lemma ShiftZeros(was: nat, now: nat)
    requires now == was % 0x100_0000 * 0x100
    ensures now % 0x100 == 0 && now < 0x1_0000_0000
    ensures was % 0x100 == 0 ==> now % 0x1_0000 == 0
    ensures was % 0x1_0000 == 0 ==> now % 0x100_0000 == 0
    ensures was % 0x100_0000 == 0 ==> now == 0
  {
    ModMod(was, 0x100, 0x1_0000);
    ModMod(was, 0x1_0000, 0x100);
    var r := was % 0x100_0000;
    DivModUnique(now, 0x1_0000, r / 0x100, 0x100 * (r % 0x100));
    DivModUnique(now, 0x100_0000, r / 0x1_0000, 0x100 * (r % 0x1_0000));
  }

  lemma FivePowers(l: nat)
    ensures Pow256(5) * l == 0x100_0000_0000 * l
  {
    assert Pow256(1) == 0x100;
    assert Pow256(2) == 0x1_0000;
    assert Pow256(3) == 0x100_0000;
    assert Pow256(4) == 0x1_0000_0000;
    assert Pow256(5) == 0x100_0000_0000;
  }

  // ----- the decoder

  datatype Error = UnexpectedEnd | Corrupt

  datatype Result<+T> = Ok(value: T) | Err(error: Error)

  /** The decoder's registers; `pos` is the next byte of the stream. */
  datatype Dec = Dec(pos: nat, range: Word, code: Word)

  function Open(rc: seq<Byte>): Result<Dec> {
    if |rc| < 5 then Err(UnexpectedEnd)
    else if rc[0] != 0 then Err(Corrupt)
    else Ok(Dec(5, 0xFFFF_FFFF, LoadBe(rc[1..5])))
  }

  /** The decoder renormalises before a bit, the encoder after one. */
  function Refresh(d: Dec, rc: seq<Byte>): Result<Dec> {
    if d.range >= TOP then Ok(d)
    else if d.pos >= |rc| then Err(UnexpectedEnd)
    else
      var code: int := d.code;
      Ok(Dec(d.pos + 1, d.range * 0x100, Wrap(code * 0x100 + rc[d.pos])))
  }

  function DecodeBit(d: Dec, rc: seq<Byte>, p: Prob): Result<(Dec, bool)> {
    match Refresh(d, rc)
    case Err(e) => Err(e)
    case Ok(r) =>
      var bound := Bound(r.range, p);
      if r.code < bound then Ok((r.(range := bound), false))
      else Ok((r.(range := r.range - bound, code := r.code - bound), true))
  }

  /** The decoder has read five bytes more than the coder has shifted, and holds them less `low`. */
  ghost predicate Tracks(d: Dec, rc: seq<Byte>, c: Coder) {
    && d.range == c.range
    && d.pos == c.shifts + 5 <= |rc|
    && d.code == Value(rc[..d.pos]) - c.low
  }

  /** The stream of a finished run `f`. */
  ghost predicate StreamOf(rc: seq<Byte>, f: Coder) {
    |rc| == f.shifts + 5 && Value(rc) == f.low
  }

  lemma {:induction false} ToBytesRound(v: nat, n: nat)
    requires v < Pow256(n)
    ensures Value(ToBytes(v, n)) == v
    decreases n
  {
    if n > 0 {
      ToBytesRound(v / 0x100, n - 1);
      ValueSnoc(ToBytes(v / 0x100, n - 1), v % 0x100);
    }
  }

  /** A run leaves a stream that starts with a zero byte: no carry ever goes past it. */
  lemma RunStream(ds: seq<Decision>)
    ensures var f := Code(ds, START);
      StreamOf(StreamBytes(f), f) && Within(f, START) && StreamBytes(f)[0] == 0
  {
    var f := Code(ds, START);
    var rc := StreamBytes(f);
    CodeWithin(ds, START);
    PowSplit(f.shifts, 5);
    assert Pow256(5) == 0x100_0000_0000 by { FivePowers(1); }
    MulMonotone(0xFFFF_FFFF, 0x100_0000_0000, Pow256(f.shifts));
    ToBytesRound(f.low, f.shifts + 5);
    OpenTracks(rc, f);
  }

  lemma {:induction false} PowSplit(m: nat, n: nat)
    ensures Pow256(m + n) == Pow256(m) * Pow256(n)
  {
    if m > 0 {
      PowSplit(m - 1, n);
      assert Pow256(m + n) == 0x100 * (Pow256(m - 1) * Pow256(n));
    }
  }

  lemma CrossDivide(a: int, b: int, x: int, m: nat)
    requires m > 0 && a * m <= x < b * m
    ensures a < b
  {
    if a >= b {
      MulMonotone(b, a, m);
    }
  }

  /** A prefix of the stream lies in every interval that was coded by then. */
  lemma PrefixWithin(rc: seq<Byte>, f: Coder, c: Coder)
    requires StreamOf(rc, f) && Within(f, c)
    ensures c.low <= Value(rc[..c.shifts + 5]) < c.low + c.range
  {
    var k := c.shifts + 5;
    var m := Pow256(f.shifts - c.shifts);
    ValuePrefix(rc, k);
    CrossDivide(c.low, Value(rc[..k]) + 1, f.low, m);
    CrossDivide(Value(rc[..k]), c.low + c.range, f.low, m);
  }

  lemma OpenTracks(rc: seq<Byte>, f: Coder)
    requires StreamOf(rc, f) && Within(f, START)
    ensures Open(rc).Ok? && Tracks(Open(rc).value, rc, START)
  {
    var b0: int, b1: int, b2: int, b3: int, b4: int := rc[0], rc[1], rc[2], rc[3], rc[4];
    PrefixWithin(rc, f, START);
    assert rc[..5] == [rc[0], rc[1], rc[2], rc[3], rc[4]];
    ValueSnoc([], rc[0]);
    ValueSnoc([rc[0]], rc[1]);
    ValueSnoc([rc[0], rc[1]], rc[2]);
    ValueSnoc([rc[0], rc[1], rc[2]], rc[3]);
    ValueSnoc([rc[0], rc[1], rc[2], rc[3]], rc[4]);
    assert [] + [rc[0]] == [rc[0]];
    assert [rc[0]] + [rc[1]] == [rc[0], rc[1]];
    assert [rc[0], rc[1]] + [rc[2]] == [rc[0], rc[1], rc[2]];
    assert [rc[0], rc[1], rc[2]] + [rc[3]] == [rc[0], rc[1], rc[2], rc[3]];
    assert [rc[0], rc[1], rc[2], rc[3]] + [rc[4]] == [rc[0], rc[1], rc[2], rc[3], rc[4]];
    assert Value(rc[..5]) == 0x1_0000_0000 * b0 + 0x100_0000 * b1 + 0x1_0000 * b2 + 0x100 * b3 + b4;
  }

  lemma RefreshTracks(d: Dec, rc: seq<Byte>, c: Coder, f: Coder)
    requires c.range >= 0x1_0000 && Tracks(d, rc, c)
    requires StreamOf(rc, f) && Within(f, Normal(c))
    ensures Refresh(d, rc).Ok? && Tracks(Refresh(d, rc).value, rc, Normal(c))
  {
    var n := Normal(c);
    PrefixWithin(rc, f, n);
    if c.range < TOP {
      assert rc[..d.pos + 1] == rc[..d.pos] + [rc[d.pos]];
      ValueSnoc(rc[..d.pos], rc[d.pos]);
    }
  }

  /** Decoding a bit gives back the bit that was coded, and never runs off the stream. */
  lemma DecodeBitTracks(d: Dec, rc: seq<Byte>, c: Coder, f: Coder, p: Prob, bit: bool)
    requires c.range >= 0x1_0000 && Tracks(d, rc, c)
    requires StreamOf(rc, f) && Within(f, Narrow(Normal(c), p, bit))
    ensures var r := DecodeBit(d, rc, p);
      r.Ok? && r.value.1 == bit && Tracks(r.value.0, rc, Narrow(Normal(c), p, bit))
  {
    var n := Normal(c);
    WithinNarrow(f, n, p, bit);
    RefreshTracks(d, rc, c, f);
    PrefixWithin(rc, f, Narrow(n, p, bit));
  }

  class RangeDec {
    const rc: seq<Byte>
    var pos: nat
    var range: Word
    var code: Word

    ghost function Regs(): Dec
      reads this
    {
      Dec(pos, range, code)
    }

    constructor (rc: seq<Byte>, start: Dec)
      ensures this.rc == rc && Regs() == start
    {
      this.rc := rc;
      pos, range, code := start.pos, start.range, start.code;
    }

    method Normalize() returns (r: Result<()>)
      modifies this
      ensures match Refresh(old(Regs()), rc)
              case Ok(d) => r == Ok(()) && Regs() == d
              case Err(e) => r == Err(e) && Regs() == old(Regs())
    {
      if range < TOP {
        if pos >= |rc| {
          return Err(UnexpectedEnd);
        }
        range := range * 0x100 % 0x1_0000_0000;
        var wide: int := code;
        code := Wrap(wide * 0x100 + rc[pos]);
        pos := pos + 1;
      }
      return Ok(());
    }

    method Decode(p: Prob) returns (r: Result<bool>, adapted: Prob)
      modifies this
      ensures match DecodeBit(old(Regs()), rc, p)
              case Ok((d, bit)) => r == Ok(bit) && adapted == Adapt(p, bit) && Regs() == d
              case Err(e) => r == Err(e) && adapted == p && Regs() == old(Regs())
    {
      var n := Normalize();
      if n.Err? {
        return Err(n.error), p;
      }
      var bound := Bound(range, p);
      if code < bound {
        range := bound;
        return Ok(false), Adapt(p, false);
      } else {
        range := range - bound;
        code := code - bound;
        return Ok(true), Adapt(p, true);
      }
    }
  }
}
