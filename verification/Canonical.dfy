/**
 Canonical codes and their decoder: a nine-bit lookup table in front of a walk over code lengths, reading from an
 LSB-first bit reader that is left alone until a whole symbol is there.
 */
module Canonical {
  import opened Words
  import opened CanonicalSpec
  import Huffman

  const PRIMARY_BITS := 9
  const PRIMARY_SIZE := 512
  const SYMBOL_SPAN := 4096  // an entry holds the symbol in its low twelve bits, the length above

  datatype Result<+T> = Ok(value: T) | InvalidHuffmanTree

  /** What one call of `Decode` finds. */
  datatype Reading = Found(symbol: nat) | TooFewBits | InvalidCode

  // ----- bit reader

  /** LSB-first: the next bit is the lowest one of `acc`; bits above `nbits` are zero. */
  class BitReader {
    var acc: nat
    var nbits: nat

    ghost predicate Valid()
      reads this
    {
      nbits <= 64 && acc < Pow2(nbits)
    }

    constructor ()
      ensures Valid() && acc == 0 && nbits == 0
    {
      acc := 0;
      nbits := 0;
    }

    method Feed(byte: Byte)
      requires Valid() && nbits <= 56
      modifies this
      ensures Valid()
      ensures acc == old(acc) + byte * Pow2(old(nbits)) && nbits == old(nbits) + 8
    {
      hide Pow2;
      Pow2Bytes();
      Pow2Add(nbits, 8);
      MulMonotone(byte, 255, Pow2(nbits));
      acc := acc + byte * Pow2(nbits);
      nbits := nbits + 8;
    }

    function Peek(n: nat): (v: nat)
      requires n <= nbits && n < 64
      reads this
      ensures v < Pow2(n)
    {
      acc % Pow2(n)
    }

    method DropBits(n: nat)
      requires Valid() && n <= nbits && n < 64
      modifies this
      ensures Valid()
      ensures acc == old(acc) / Pow2(n) && nbits == old(nbits) - n
    {
      hide Pow2;
      Pow2Add(n, nbits - n);
      DropBound(acc, Pow2(n), Pow2(nbits - n));
      acc := acc / Pow2(n);
      nbits := nbits - n;
    }
  }

  lemma DropBound(v: nat, a: nat, b: nat)
    requires a > 0 && v < a * b
    ensures v / a < b
  {
    if v / a >= b {
      MulMonotone(b, v / a, a);
    }
  }

  // ----- positions in canonical order

  /** How many of the first `n` symbols have a length in 1..l-1. */
  function BaseTo(lengths: Lengths, l: nat, n: nat): nat
    requires n <= |lengths|
  {
    if l <= 1 then 0 else BaseTo(lengths, l - 1, n) + CountTo(lengths, l - 1, n)
  }

  /** Where the symbols of length `l` start. */
  function Base(lengths: Lengths, l: nat): nat {
    if l <= 1 then 0 else Base(lengths, l - 1) + Count(lengths, l - 1)
  }

  /** The place of a symbol in canonical order. */
  function Place(lengths: Lengths, s: nat): nat
    requires s < |lengths|
  {
    Base(lengths, lengths[s]) + Rank(lengths, s)
  }

  lemma {:induction false} BaseToNext(lengths: Lengths, l: nat, n: nat)
    requires n < |lengths|
    ensures BaseTo(lengths, l, n + 1) == BaseTo(lengths, l, n) + if 1 <= lengths[n] < l then 1 else 0
    decreases l
  {
    if l > 1 {
      BaseToNext(lengths, l - 1, n);
    }
  }

  lemma {:induction false} BaseToBound(lengths: Lengths, l: nat, n: nat)
    requires n <= |lengths|
    ensures BaseTo(lengths, l, n) <= n
    decreases n
  {
    if n > 0 {
      BaseToNext(lengths, l, n - 1);
      BaseToBound(lengths, l, n - 1);
    } else {
      NoneCounted(lengths, l);
    }
  }

  lemma {:induction false} NoneCounted(lengths: Lengths, l: nat)
    ensures BaseTo(lengths, l, 0) == 0
  {
    if l > 1 {
      NoneCounted(lengths, l - 1);
    }
  }

  lemma {:induction false} BaseWhole(lengths: Lengths, l: nat)
    ensures Base(lengths, l) == BaseTo(lengths, l, |lengths|) <= |lengths|
  {
    hide CountTo;
    if l > 1 {
      BaseWhole(lengths, l - 1);
    }
    BaseToBound(lengths, l, |lengths|);
  }

  lemma {:induction false} BaseGrows(lengths: Lengths, l: nat, m: nat)
    requires 0 < l < m
    ensures Base(lengths, l) + Count(lengths, l) <= Base(lengths, m)
    decreases m
  {
    hide Count;
    if l < m - 1 {
      BaseGrows(lengths, l, m - 1);
    }
  }

  lemma PlaceBound(lengths: Lengths, s: nat)
    requires s < |lengths| && lengths[s] > 0
    ensures Base(lengths, lengths[s]) <= Place(lengths, s) < Base(lengths, lengths[s]) + Count(lengths, lengths[s])
    ensures Place(lengths, s) < |lengths|
  {
    hide Count, Rank;
    RankBelow(lengths, s);
    BaseGrows(lengths, lengths[s], lengths[s] + 1);
    BaseWhole(lengths, lengths[s] + 1);
  }

  lemma PlaceDistinct(lengths: Lengths, s: nat, t: nat)
    requires s < |lengths| && t < |lengths| && lengths[s] > 0 && lengths[t] > 0
    requires Place(lengths, s) == Place(lengths, t)
    ensures s == t
  {
    hide Count, Rank, Base;
    PlaceBound(lengths, s);
    PlaceBound(lengths, t);
    if lengths[s] < lengths[t] {
      BaseGrows(lengths, lengths[s], lengths[t]);
    } else if lengths[t] < lengths[s] {
      BaseGrows(lengths, lengths[t], lengths[s]);
    } else {
      RankDistinct(lengths, s, t);
    }
  }

  // ----- the tables

  datatype Decoder = Decoder(counts: seq<nat>, symbols: seq<nat>, firstCode: seq<nat>, firstIdx: seq<nat>,
                             maxLength: nat, lut: seq<nat>)

  ghost predicate Counted(lengths: Lengths, counts: seq<nat>) {
    |counts| == MAX_BITS + 1 && forall l :: 0 <= l <= MAX_BITS ==> counts[l] == Count(lengths, l)
  }

  ghost predicate Longest(lengths: Lengths, max: nat) {
    && max <= MAX_BITS
    && (forall s :: 0 <= s < |lengths| ==> lengths[s] <= max)
    && (max > 0 ==> max in lengths)
  }

  ghost predicate Placed(lengths: Lengths, symbols: seq<nat>, n: nat) {
    && n <= |lengths| <= |symbols|
    && forall s :: 0 <= s < n && lengths[s] > 0 ==> Place(lengths, s) < |symbols| && symbols[Place(lengths, s)] == s
  }

  /** Symbol `s`, among the first `n`, has a short code and `slot` begins with it. */
  ghost predicate Hit(lengths: Lengths, n: nat, slot: nat, s: nat) {
    s < n <= |lengths| && lengths[s] <= PRIMARY_BITS && Starts(lengths, slot, PRIMARY_BITS, s)
  }

  function Packed(s: nat, len: nat): nat { s + SYMBOL_SPAN * len }

  ghost predicate Entry(lengths: Lengths, n: nat, slot: nat, e: nat) {
    || (e == 0 && forall s: nat :: !Hit(lengths, n, slot, s))
    || (exists s: nat :: Hit(lengths, n, slot, s) && e == Packed(s, lengths[s]))
  }

  ghost predicate Entries(lengths: Lengths, n: nat, lut: seq<nat>) {
    |lut| == PRIMARY_SIZE && forall slot :: 0 <= slot < PRIMARY_SIZE ==> Entry(lengths, n, slot, lut[slot])
  }

  ghost predicate Tabled(lengths: Lengths, firstCode: seq<nat>, firstIdx: seq<nat>) {
    && |firstCode| == |firstIdx| == MAX_BITS + 1
    && forall l :: 1 <= l <= MAX_BITS ==> firstCode[l] == First(lengths, l) && firstIdx[l] == Base(lengths, l)
  }

  /** The decoder's tables stand for the canonical code of `lengths`. */
  ghost predicate Built(d: Decoder, lengths: Lengths) {
    && |lengths| <= SYMBOL_SPAN
    && Fits(lengths) && Longest(lengths, d.maxLength)
    && Counted(lengths, d.counts) && Tabled(lengths, d.firstCode, d.firstIdx)
    && Placed(lengths, d.symbols, |lengths|) && Entries(lengths, |lengths|, d.lut)
  }

  // ----- building them

  /** Occurrences of each length, and the greatest; a length over 15 is refused. */
  method CountLengths(lengths: Lengths) returns (ok: bool, counts: seq<nat>, max: nat)
    ensures ok <==> Capped(lengths)
    ensures ok ==> Counted(lengths, counts) && Longest(lengths, max)
  {
    hide Count;
    var c := new nat[MAX_BITS + 1](_ => 0);
    max := 0;
    for n := 0 to |lengths|
      invariant c[0] == 0 && forall l :: 1 <= l <= MAX_BITS ==> c[l] == CountTo(lengths, l, n)
      invariant max <= MAX_BITS && forall s :: 0 <= s < n ==> lengths[s] <= max
      invariant max > 0 ==> max in lengths
    {
      var len := lengths[n];
      if len > MAX_BITS {
        return false, [], 0;
      }
      if len > 0 {
        c[len] := c[len] + 1;
        if len > max {
          max := len;
        }
      }
    }
    CountIs(lengths);
    ok, counts := true, c[..];
  }

  lemma CountIs(lengths: Lengths)
    ensures Count(lengths, 0) == 0
    ensures forall l :: l > 0 ==> Count(lengths, l) == CountTo(lengths, l, |lengths|)
  {
  }

  /** The Kraft test. */
  method KraftHolds(lengths: Lengths, counts: seq<nat>) returns (ok: bool)
    requires Counted(lengths, counts)
    ensures ok <==> Fits(lengths)
  {
    hide Count, Pow2;
    var kraft := 0;
    for l := 1 to MAX_BITS + 1
      invariant kraft == Used(lengths, l - 1, MAX_BITS)
    {
      kraft := kraft + counts[l] * Pow2(MAX_BITS - l);
    }
    ok := kraft <= Pow2(MAX_BITS);
  }

  lemma FirstStep(lengths: Lengths, l: nat)
    ensures First(lengths, 0) == 0 && Base(lengths, 1) == 0
    ensures l > 0 ==> First(lengths, l) == 2 * (First(lengths, l - 1) + Count(lengths, l - 1))
    ensures l > 0 ==> Base(lengths, l + 1) == Base(lengths, l) + Count(lengths, l)
  {
    hide Count;
  }

  /** First code and first place of every length. */
  method Firsts(lengths: Lengths, counts: seq<nat>) returns (firstCode: seq<nat>, firstIdx: seq<nat>)
    requires Counted(lengths, counts)
    ensures Tabled(lengths, firstCode, firstIdx)
  {
    hide Count, First, Base;
    var codes, idxs := new nat[MAX_BITS + 1](_ => 0), new nat[MAX_BITS + 1](_ => 0);
    var code, idx := 0, 0;
    CountZero(lengths);
    FirstStep(lengths, 0);
    for l := 1 to MAX_BITS + 1
      invariant code == First(lengths, l - 1) + Count(lengths, l - 1)
      invariant idx == Base(lengths, l)
      invariant forall m :: 1 <= m < l ==> codes[m] == First(lengths, m) && idxs[m] == Base(lengths, m)
    {
      FirstStep(lengths, l);
      code := 2 * code;
      codes[l] := code;
      idxs[l] := idx;
      code := code + counts[l];
      idx := idx + counts[l];
    }
    firstCode, firstIdx := codes[..], idxs[..];
  }

  /** Every symbol in use at its place in canonical order. */
  method PlaceSymbols(lengths: Lengths, firstIdx: seq<nat>, capacity: nat) returns (symbols: seq<nat>)
    requires Capped(lengths) && |lengths| <= capacity && |firstIdx| == MAX_BITS + 1
    requires forall l :: 1 <= l <= MAX_BITS ==> firstIdx[l] == Base(lengths, l)
    ensures Placed(lengths, symbols, |lengths|)
  {
    hide Base;
    var placed := new nat[capacity](_ => 0);
    var next := new nat[MAX_BITS + 1];
    for l := 0 to MAX_BITS + 1
      invariant forall m :: 0 <= m < l ==> next[m] == firstIdx[m]
    {
      next[l] := firstIdx[l];
    }
    for n := 0 to |lengths|
      invariant forall l :: 1 <= l <= MAX_BITS ==> next[l] == Base(lengths, l) + CountTo(lengths, l, n)
      invariant Placed(lengths, placed[..], n)
    {
      var len := lengths[n];
      if len > 0 {
        ghost var before := placed[..];
        PlaceBound(lengths, n);
        assert next[len] == Place(lengths, n);
        placed[next[len]] := n;
        PlacedMore(lengths, before, placed[..], n);
        next[len] := next[len] + 1;
      }
    }
    symbols := placed[..];
  }

  lemma PlacedMore(lengths: Lengths, was: seq<nat>, now: seq<nat>, n: nat)
    requires Placed(lengths, was, n) && n < |lengths| && lengths[n] > 0
    requires Place(lengths, n) < |was| && now == was[Place(lengths, n) := n]
    ensures Placed(lengths, now, n + 1)
  {
    hide Place;
    forall s | 0 <= s < n && lengths[s] > 0 ensures now[Place(lengths, s)] == s {
      if Place(lengths, s) == Place(lengths, n) {
        PlaceDistinct(lengths, s, n);
      }
    }
  }

  /** The low `n` bits of `v`, reversed one at a time. */
  method ReverseLow(v: nat, n: nat) returns (out: nat)
    ensures out == Rev(v, n)
  {
    var w := v;
    out := 0;
    for i := 0 to n
      invariant out == Rev(v, i) && w == v / Pow2(i)
    {
      out := 2 * out + w % 2;
      DivDiv(v, Pow2(i), 2);
      w := w / 2;
    }
  }

  /** Every `stride`-th slot from the reversed code on belongs to symbol `n`. */
  method FillSlots(lengths: Lengths, n: nat, code: nat, lut: array<nat>)
    requires Fits(lengths) && Capped(lengths) && n < |lengths| && 0 < lengths[n] <= PRIMARY_BITS
    requires code == Code(lengths, n)
    requires Entries(lengths, n, lut[..])
    modifies lut
    ensures Entries(lengths, n + 1, lut[..])
  {
    hide Rev, Fits, Entries, Pow2, Code, Packed, Low, CountTo;
    var len := lengths[n];
    CodeFits(lengths, n);
    var reversed := ReverseLow(code, len);
    RevBound(code, len);
    var entry := Packed(n, len);
    var stride := Pow2(len);
    ghost var was := lut[..];
    EntriesSize(lengths, n, was);
    var slot := reversed;
    LowSmall(reversed, stride);
    NoneBefore(reversed, stride);
    while slot < PRIMARY_SIZE
      invariant Low(slot, stride) == reversed
      invariant forall t :: 0 <= t < PRIMARY_SIZE ==>
        lut[t] == if t < slot && Low(t, stride) == reversed then entry else was[t]
    {
      lut[slot] := entry;
      NextSlot(slot, stride);
      slot := slot + stride;
    }
    Filled(lengths, n, was, lut[..]);
  }

  function Low(t: nat, stride: nat): nat
    requires stride > 0
  {
    t % stride
  }

  lemma EntriesSize(lengths: Lengths, n: nat, lut: seq<nat>)
    requires Entries(lengths, n, lut)
    ensures |lut| == PRIMARY_SIZE
  {
  }

  lemma LowSmall(c: nat, p: nat)
    requires c < p
    ensures Low(c, p) == c
  {
  }

  lemma NoneBefore(slot: nat, stride: nat)
    requires slot < stride
    ensures forall t: nat :: t < slot ==> Low(t, stride) != slot
  {
  }

  /** Between `slot` and `slot + stride` no slot has the same low bits. */
  lemma NextSlot(slot: nat, stride: nat)
    requires stride > 0
    ensures Low(slot + stride, stride) == Low(slot, stride)
    ensures forall t :: slot < t < slot + stride ==> Low(t, stride) != Low(slot, stride)
  {
    DivModUnique(slot + stride, stride, slot / stride + 1, slot % stride);
    forall t | slot < t < slot + stride ensures Low(t, stride) != Low(slot, stride) {
      var q, r := slot / stride, slot % stride + (t - slot);
      if r < stride {
        DivModUnique(t, stride, q, r);
      } else {
        assert (q + 1) * stride == q * stride + stride;
        DivModUnique(t, stride, q + 1, r - stride);
      }
    }
  }

  lemma Filled(lengths: Lengths, n: nat, was: seq<nat>, now: seq<nat>)
    requires Fits(lengths) && Capped(lengths) && n < |lengths| && 0 < lengths[n] <= PRIMARY_BITS
    requires Entries(lengths, n, was) && |now| == PRIMARY_SIZE
    requires forall t :: 0 <= t < PRIMARY_SIZE ==>
      now[t] == if Low(t, Pow2(lengths[n])) == Rev(Code(lengths, n), lengths[n]) then Packed(n, lengths[n]) else was[t]
    ensures Entries(lengths, n + 1, now)
  {
    hide Rev, Fits, Pow2, Code, Packed, Starts;
    var len := lengths[n];
    CodeFits(lengths, n);
    forall slot: nat | slot < PRIMARY_SIZE ensures Entry(lengths, n + 1, slot, now[slot]) {
      RevReads(slot, Code(lengths, n), len);
      assert Entry(lengths, n, slot, was[slot]);
      if slot % Pow2(len) == Rev(Code(lengths, n), len) {
        NewHit(lengths, n, slot);
      } else {
        EntryKept(lengths, n, slot, was[slot]);
      }
    }
  }

  lemma NewHit(lengths: Lengths, n: nat, slot: nat)
    requires n < |lengths| && 0 < lengths[n] <= PRIMARY_BITS && Rev(slot, lengths[n]) == Code(lengths, n)
    ensures Hit(lengths, n + 1, slot, n)
  {
    hide Rev, Code;
  }

  lemma EntryKept(lengths: Lengths, n: nat, slot: nat, e: nat)
    requires n < |lengths| && Entry(lengths, n, slot, e)
    requires !(0 < lengths[n] <= PRIMARY_BITS && Rev(slot, lengths[n]) == Code(lengths, n))
    ensures Entry(lengths, n + 1, slot, e)
  {
    hide Rev, Code, Packed;
    if e == 0 && forall s: nat :: !Hit(lengths, n, slot, s) {
      var m := n + 1;
      assert !Hit(lengths, m, slot, n);
      assert forall s: nat :: Hit(lengths, m, slot, s) ==> s == n || Hit(lengths, n, slot, s);
      assert forall s: nat :: !Hit(lengths, m, slot, s);
      assert Entry(lengths, n + 1, slot, e);
    } else {
      var s: nat :| Hit(lengths, n, slot, s) && e == Packed(s, lengths[s]);
      assert Hit(lengths, n + 1, slot, s);
    }
  }

  lemma NotShort(lengths: Lengths, n: nat, lut: seq<nat>)
    requires n < |lengths| && !(0 < lengths[n] <= PRIMARY_BITS) && Entries(lengths, n, lut)
    ensures Entries(lengths, n + 1, lut)
  {
    hide Entry, Code;
    forall slot: nat | slot < PRIMARY_SIZE ensures Entry(lengths, n + 1, slot, lut[slot]) {
      EntryKept(lengths, n, slot, lut[slot]);
    }
  }

  lemma NoEntries(lengths: Lengths, lut: seq<nat>)
    requires |lut| == PRIMARY_SIZE && forall t :: 0 <= t < PRIMARY_SIZE ==> lut[t] == 0
    ensures Entries(lengths, 0, lut)
  {
  }

  /** The lookup table: codes are handed out length by length as in `CanonicalCodes`. */
  method BuildLut(lengths: Lengths, counts: seq<nat>, max: nat) returns (lut: seq<nat>)
    requires Capped(lengths) && Fits(lengths) && Counted(lengths, counts) && Longest(lengths, max)
    ensures Entries(lengths, |lengths|, lut)
  {
    hide Fits, Entries, First, Handed, Code, CountTo;
    var slots := new nat[PRIMARY_SIZE](_ => 0);
    NoEntries(lengths, slots[..]);
    if max > 0 {
      var nextCode := FirstCodes(lengths, counts);
      HandedNone(lengths, nextCode[..]);
      for n := 0 to |lengths|
        invariant Entries(lengths, n, slots[..])
        invariant Handed(lengths, nextCode[..], n)
      {
        HandedSize(lengths, nextCode[..], n);
        var len := lengths[n];
        if len == 0 {
          NotShort(lengths, n, slots[..]);
          HandedSkip(lengths, nextCode[..], n);
        } else {
          var code := nextCode[len];
          HandOut(lengths, nextCode, n);
          if len <= PRIMARY_BITS {
            FillSlots(lengths, n, code, slots);
          } else {
            NotShort(lengths, n, slots[..]);
          }
        }
      }
    } else {
      NothingUsed(lengths, slots[..]);
    }
    lut := slots[..];
  }

  lemma NothingUsed(lengths: Lengths, lut: seq<nat>)
    requires Entries(lengths, 0, lut) && forall s :: 0 <= s < |lengths| ==> lengths[s] == 0
    requires forall t :: 0 <= t < |lut| ==> lut[t] == 0
    ensures Entries(lengths, |lengths|, lut)
  {
  }

  /** First code of each length, as the code-assigning loops compute it. */
  method FirstCodes(lengths: Lengths, counts: seq<nat>) returns (next: array<nat>)
    requires Counted(lengths, counts)
    ensures fresh(next) && next.Length == MAX_BITS + 1
    ensures forall l :: 1 <= l <= MAX_BITS ==> next[l] == First(lengths, l)
  {
    hide Count;
    next := new nat[MAX_BITS + 1](_ => 0);
    var code := 0;
    for bits := 1 to MAX_BITS + 1
      invariant code == First(lengths, bits - 1)
      invariant forall l :: 1 <= l < bits ==> next[l] == First(lengths, l)
    {
      code := 2 * (code + counts[bits - 1]);
      next[bits] := code;
    }
  }

  /** Build a decoder, or refuse lengths over 15 and lengths that overfill the code space. */
  method FromLengths(lengths: Lengths, capacity: nat) returns (r: Result<Decoder>)
    requires |lengths| <= capacity <= SYMBOL_SPAN
    ensures r.Ok? <==> Capped(lengths) && Fits(lengths)
    ensures r.Ok? ==> Built(r.value, lengths)
  {
    hide Fits, Count, Entries, Placed;
    var ok, counts, max := CountLengths(lengths);
    if !ok {
      return InvalidHuffmanTree;
    }
    ok := KraftHolds(lengths, counts);
    if !ok {
      return InvalidHuffmanTree;
    }
    var firstCode, firstIdx := Firsts(lengths, counts);
    var symbols := PlaceSymbols(lengths, firstIdx, capacity);
    var lut := BuildLut(lengths, counts, max);
    r := Ok(Decoder(counts, symbols, firstCode, firstIdx, max, lut));
  }

  // ----- decoding

  /** The slot for the next nine bits decides for every short code. */
  lemma SlotDecides(lengths: Lengths, acc: nat, n: nat, s: nat)
    requires n >= PRIMARY_BITS
    ensures Hit(lengths, |lengths|, acc % Pow2(PRIMARY_BITS), s) <==>
      Starts(lengths, acc, n, s) && lengths[s] <= PRIMARY_BITS
  {
    hide Rev, Pow2, Code;
    if s < |lengths| && lengths[s] <= PRIMARY_BITS {
      RevMod(acc, PRIMARY_BITS, lengths[s]);
    }
  }

  lemma Unpack(s: nat, len: nat)
    requires s < SYMBOL_SPAN
    ensures Packed(s, len) / SYMBOL_SPAN == len && Packed(s, len) % SYMBOL_SPAN == s
  {
    DivModUnique(Packed(s, len), SYMBOL_SPAN, len, s);
  }

  /** What the table says about the bits in `acc`. */
  lemma LookUp(d: Decoder, lengths: Lengths, acc: nat, n: nat)
    requires Built(d, lengths) && n >= PRIMARY_BITS
    ensures |d.lut| == PRIMARY_SIZE && acc % Pow2(PRIMARY_BITS) < PRIMARY_SIZE
    ensures var e := d.lut[acc % Pow2(PRIMARY_BITS)];
      e / SYMBOL_SPAN > 0 ==>
        Starts(lengths, acc, n, e % SYMBOL_SPAN) && lengths[e % SYMBOL_SPAN] == e / SYMBOL_SPAN
  {
    hide Pow2, Starts, Fits, Placed, Counted, Tabled;
    NinthPower();
    var slot := acc % Pow2(PRIMARY_BITS);
    var e := d.lut[slot];
    assert Entry(lengths, |lengths|, slot, e);
    if s: nat :| Hit(lengths, |lengths|, slot, s) && e == Packed(s, lengths[s]) {
      SlotDecides(lengths, acc, n, s);
      Unpack(s, lengths[s]);
    }
  }

  lemma NinthPower()
    ensures Pow2(PRIMARY_BITS) == PRIMARY_SIZE
  {
    Pow2Bytes();
    Pow2Next(8);
  }

  /** The bit the walk appends at each length. */
  lemma WalkBit(acc: nat, length: nat)
    requires length > 0
    ensures acc % Pow2(length) / Pow2(length - 1) % 2 == Bit(acc, length - 1)
  {
    hide Pow2;
    BitMod(acc, length, length - 1);
  }

  /** A code in the range of its length is some symbol's, and `symbols` has it. */
  lemma InRange(d: Decoder, lengths: Lengths, acc: nat, n: nat, length: nat)
    requires Built(d, lengths) && 0 < length <= MAX_BITS && length <= n
    requires First(lengths, length) <= Rev(acc, length) < First(lengths, length) + Count(lengths, length)
    ensures var k := Base(lengths, length) + Rev(acc, length) - First(lengths, length);
      k < |d.symbols| && Starts(lengths, acc, n, d.symbols[k]) && lengths[d.symbols[k]] == length
  {
    hide Rev, Pow2, Fits, Entries, Counted, Tabled, First, Base, CountTo;
    CountIs(lengths);
    var s := RankTaken(lengths, length, Rev(acc, length) - First(lengths, length), |lengths|);
    assert Place(lengths, s) == Base(lengths, length) + Rev(acc, length) - First(lengths, length);
  }

  lemma OutOfRange(lengths: Lengths, acc: nat, n: nat, s: nat)
    requires Starts(lengths, acc, n, s)
    ensures First(lengths, lengths[s]) <= Rev(acc, lengths[s])
      < First(lengths, lengths[s]) + Count(lengths, lengths[s])
  {
    hide Rev, First, Count, Rank;
    RankBelow(lengths, s);
  }

  /** No symbol of at most `l` bits can be read. */
  ghost predicate NoneUpTo(lengths: Lengths, acc: nat, n: nat, l: nat) {
    forall s: nat :: Starts(lengths, acc, n, s) ==> lengths[s] > l
  }

  lemma NoneMore(lengths: Lengths, acc: nat, n: nat, l: nat)
    requires NoneUpTo(lengths, acc, n, l)
    requires !(First(lengths, l + 1) <= Rev(acc, l + 1) < First(lengths, l + 1) + Count(lengths, l + 1))
    ensures NoneUpTo(lengths, acc, n, l + 1)
  {
    hide Rev, First, Count, Code;
    forall s: nat | Starts(lengths, acc, n, s) ensures lengths[s] > l + 1 {
      OutOfRange(lengths, acc, n, s);
    }
  }

  /** Reads the one symbol the buffered bits start with, if any; otherwise the reader is untouched. */
  method Decode(d: Decoder, reader: BitReader, ghost lengths: Lengths) returns (r: Reading)
    requires Built(d, lengths) && reader.Valid()
    modifies reader
    ensures reader.Valid()
    ensures forall s: nat :: r == Found(s) <==> Starts(lengths, old(reader.acc), old(reader.nbits), s)
    ensures r.Found? ==>
      && r.symbol < |lengths|
      && reader.nbits == old(reader.nbits) - lengths[r.symbol]
      && reader.acc == old(reader.acc) / Pow2(lengths[r.symbol])
    ensures !r.Found? ==> reader.nbits == old(reader.nbits) && reader.acc == old(reader.acc)
    ensures r.TooFewBits? ==> old(reader.nbits) < d.maxLength
    ensures r.InvalidCode? ==> old(reader.nbits) >= d.maxLength
  {
    hide Starts, Fits, Pow2, Placed, Entries, Rev, First, Count, Base, Bit;
    ghost var acc := reader.acc;
    ghost var n := reader.nbits;
    AtMostLongest(d, lengths, acc, n);
    if d.maxLength == 0 {
      return InvalidCode;
    }
    var available := reader.nbits;
    if available >= PRIMARY_BITS {
      var idx := reader.Peek(PRIMARY_BITS);
      LookUp(d, lengths, acc, n);
      var entry := d.lut[idx];
      var len := entry / SYMBOL_SPAN;
      if len > 0 {
        Only(lengths, acc, n, entry % SYMBOL_SPAN);
        reader.DropBits(len);
        return Found(entry % SYMBOL_SPAN);
      }
    }
    var code := 0;
    NoCode(lengths, acc, n);
    for length := 1 to d.maxLength + 1
      invariant reader.acc == acc && reader.nbits == n && reader.Valid()
      invariant code == Rev(acc, length - 1) && length - 1 <= n
      invariant NoneUpTo(lengths, acc, n, length - 1)
    {
      if length > available {
        NotEnough(lengths, acc, n, length - 1);
        return TooFewBits;
      }
      var bit := reader.Peek(length) / Pow2(length - 1) % 2;
      WalkBit(acc, length);
      RevNext(acc, length);
      code := 2 * code + bit;
      var count := d.counts[length];
      var first := d.firstCode[length];
      if count > 0 && code >= first && code < first + count {
        InRange(d, lengths, acc, n, length);
        var symbol := d.symbols[d.firstIdx[length] + (code - first)];
        Only(lengths, acc, n, symbol);
        reader.DropBits(length);
        return Found(symbol);
      }
      NoneMore(lengths, acc, n, length - 1);
    }
    r := InvalidCode;
  }

  lemma RevNext(acc: nat, length: nat)
    requires length > 0
    ensures Rev(acc, length) == 2 * Rev(acc, length - 1) + Bit(acc, length - 1)
  {
  }

  lemma NoCode(lengths: Lengths, acc: nat, n: nat)
    ensures NoneUpTo(lengths, acc, n, 0) && Rev(acc, 0) == 0
  {
  }

  lemma NotEnough(lengths: Lengths, acc: nat, n: nat, l: nat)
    requires NoneUpTo(lengths, acc, n, l) && n <= l
    ensures forall s: nat :: !Starts(lengths, acc, n, s)
  {
  }

  lemma AtMostLongest(d: Decoder, lengths: Lengths, acc: nat, n: nat)
    requires Built(d, lengths)
    ensures forall s: nat :: Starts(lengths, acc, n, s) ==>
      s < |lengths| && 0 < lengths[s] <= d.maxLength && lengths[s] <= n
  {
  }

  lemma Only(lengths: Lengths, acc: nat, n: nat, s: nat)
    requires Starts(lengths, acc, n, s)
    ensures forall t: nat :: Starts(lengths, acc, n, t) <==> t == s
  {
    hide Starts;
    forall t: nat | Starts(lengths, acc, n, t) ensures t == s {
      PrefixFree(lengths, acc, n, s, t);
    }
  }

  // ----- encoding

  /** The code of every symbol in use, in sixteen bits. */
  method CanonicalCodes(lengths: Lengths) returns (out: seq<nat>)
    requires Capped(lengths) && |lengths| <= 0x1_0000
    ensures |out| == |lengths|
    ensures forall s :: 0 <= s < |lengths| && lengths[s] > 0 ==> out[s] == Code(lengths, s) % 0x1_0000
  {
    hide First, Fits, Longest, Code, CountTo;
    var ok, counts, max := CountLengths(lengths);
    var nextCode := FirstCodes(lengths, counts);
    var codes := new nat[|lengths|](_ => 0);
    HandedNone(lengths, nextCode[..]);
    for n := 0 to |lengths|
      invariant Handed(lengths, nextCode[..], n)
      invariant forall s :: 0 <= s < n && lengths[s] > 0 ==> codes[s] == Code(lengths, s) % 0x1_0000
    {
      HandedSize(lengths, nextCode[..], n);
      var len := lengths[n];
      if len > 0 {
        codes[n] := nextCode[len] % 0x1_0000;
        HandOut(lengths, nextCode, n);
      } else {
        HandedSkip(lengths, nextCode[..], n);
      }
    }
    out := codes[..];
  }

  /** The next code of every length, once the first `n` symbols have theirs. */
  ghost predicate Handed(lengths: Lengths, next: seq<nat>, n: nat) {
    && n <= |lengths| && |next| == MAX_BITS + 1
    && forall l :: 1 <= l <= MAX_BITS ==> next[l] == First(lengths, l) + CountTo(lengths, l, n)
  }

  lemma HandedNone(lengths: Lengths, next: seq<nat>)
    requires |next| == MAX_BITS + 1 && forall l :: 1 <= l <= MAX_BITS ==> next[l] == First(lengths, l)
    ensures Handed(lengths, next, 0)
  {
    hide First;
  }

  lemma HandedSize(lengths: Lengths, next: seq<nat>, n: nat)
    requires Handed(lengths, next, n)
    ensures |next| == MAX_BITS + 1
    ensures n < |lengths| && 0 < lengths[n] <= MAX_BITS ==> next[lengths[n]] == Code(lengths, n)
  {
    hide First, CountTo;
  }

  lemma HandedSkip(lengths: Lengths, next: seq<nat>, n: nat)
    requires Handed(lengths, next, n) && n < |lengths| && lengths[n] == 0
    ensures Handed(lengths, next, n + 1)
  {
    hide First;
  }

  /** Symbol `n` has taken its code. */
  method HandOut(lengths: Lengths, next: array<nat>, n: nat)
    requires Handed(lengths, next[..], n) && n < |lengths| && 0 < lengths[n] <= MAX_BITS
    modifies next
    ensures Handed(lengths, next[..], n + 1)
  {
    hide First;
    next[lengths[n]] := next[lengths[n]] + 1;
  }

  /** Within the Kraft inequality the sixteen bits lose nothing. */
  lemma CodesKept(lengths: Lengths, s: nat)
    requires Fits(lengths) && s < |lengths| && 0 < lengths[s] <= MAX_BITS
    ensures Code(lengths, s) % 0x1_0000 == Code(lengths, s)
  {
    hide Code, Fits, Pow2;
    CodeFits(lengths, s);
    Pow2Bytes();
    Pow2Add(lengths[s], 16 - lengths[s]);
    assert Pow2(16 - lengths[s]) > 0;
    MulMonotone(1, Pow2(16 - lengths[s]), Pow2(lengths[s]));
  }

  /** A text as one LSB-first number: each symbol's reversed code below what follows. */
  function Stream(lengths: Lengths, text: seq<nat>): nat
    requires forall i :: 0 <= i < |text| ==> text[i] < |lengths|
  {
    if text == [] then 0
    else Rev(Code(lengths, text[0]), lengths[text[0]]) + Pow2(lengths[text[0]]) * Stream(lengths, text[1..])
  }

  /** Reading a coded text yields its first symbol, and dropping that code leaves the coded rest. */
  lemma StreamReads(lengths: Lengths, text: seq<nat>, n: nat)
    requires Fits(lengths) && Capped(lengths) && text != []
    requires forall i :: 0 <= i < |text| ==> text[i] < |lengths| && lengths[text[i]] > 0
    requires n >= lengths[text[0]]
    ensures Starts(lengths, Stream(lengths, text), n, text[0])
    ensures Stream(lengths, text) / Pow2(lengths[text[0]]) == Stream(lengths, text[1..])
  {
    hide Rev, Code, Pow2, Fits, Starts;
    var s := text[0];
    CodeReads(lengths, s, Stream(lengths, text[1..]), n);
    RevBound(Code(lengths, s), lengths[s]);
    DivModUnique(Stream(lengths, text), Pow2(lengths[s]), Stream(lengths, text[1..]), Rev(Code(lengths, s), lengths[s]));
  }

  /** Only the buffered bits matter: whatever is fed later does not change what can be read already. */
  lemma BufferedReads(lengths: Lengths, stream: nat, k: nat, n: nat, s: nat)
    requires k <= n
    ensures Starts(lengths, stream % Pow2(k), k, s) <==> Starts(lengths, stream, n, s) && lengths[s] <= k
  {
    hide Rev, Code, Pow2;
    if s < |lengths| && lengths[s] <= k {
      RevMod(stream, k, lengths[s]);
    }
  }

  // ----- lengths from package-merge

  /** The code space used by the first `n` symbols of lengths 1..l. */
  function UsedTo(lengths: Lengths, l: nat, top: nat, n: nat): nat
    requires l <= top && n <= |lengths|
  {
    if l == 0 then 0 else UsedTo(lengths, l - 1, top, n) + CountTo(lengths, l, n) * Pow2(top - l)
  }

  lemma {:induction false} UsedWhole(lengths: Lengths, l: nat, top: nat)
    requires l <= top
    ensures UsedTo(lengths, l, top, |lengths|) == Used(lengths, l, top)
  {
    hide CountTo, Pow2;
    if l > 0 {
      UsedWhole(lengths, l - 1, top);
    }
  }

  lemma {:induction false} UsedNext(lengths: Lengths, l: nat, top: nat, n: nat)
    requires l <= top && n < |lengths|
    ensures UsedTo(lengths, l, top, n + 1) ==
      UsedTo(lengths, l, top, n) + if 1 <= lengths[n] <= l then Pow2(top - lengths[n]) else 0
    decreases l
  {
    hide Pow2;
    if l > 0 {
      UsedNext(lengths, l - 1, top, n);
      Distribute(CountTo(lengths, l, n), 1, Pow2(top - l));
    }
  }

  lemma {:induction false} UsedNone(lengths: Lengths, l: nat, top: nat)
    requires l <= top
    ensures UsedTo(lengths, l, top, 0) == 0
  {
    if l > 0 {
      UsedNone(lengths, l - 1, top);
    }
  }

  lemma {:induction false} UsedSum(freqs: seq<nat>, lengths: Lengths, top: nat, i: nat)
    requires Huffman.Lengthed(freqs, lengths, top) && i <= |freqs|
    requires forall s :: 0 <= s < |freqs| ==> (lengths[s] == 0 <==> freqs[s] == 0)
    ensures UsedTo(lengths, top, top, i) + Huffman.SumOccurring(freqs, Huffman.Shares(lengths, top), i) ==
      UsedTo(lengths, top, top, |lengths|)
    decreases |freqs| - i
  {
    hide Pow2, UsedTo;
    if i < |freqs| {
      UsedSum(freqs, lengths, top, i + 1);
      UsedNext(lengths, top, top, i);
    }
  }

  lemma {:induction false} UsedBeyond(lengths: Lengths, top: nat, l: nat)
    requires top <= l <= MAX_BITS && forall s :: 0 <= s < |lengths| ==> lengths[s] <= top
    ensures Used(lengths, l, MAX_BITS) == Used(lengths, top, MAX_BITS)
    decreases l
  {
    hide Pow2;
    if top < l {
      UsedBeyond(lengths, top, l - 1);
      Unused(lengths, l, |lengths|);
    }
  }

  lemma {:induction false} Unused(lengths: Lengths, l: nat, n: nat)
    requires n <= |lengths| && forall s :: 0 <= s < n ==> lengths[s] < l
    ensures CountTo(lengths, l, n) == 0
    decreases n
  {
    if n > 0 {
      Unused(lengths, l, n - 1);
    }
  }

  lemma FullFits(lengths: Lengths, top: nat)
    requires top <= MAX_BITS && forall s :: 0 <= s < |lengths| ==> lengths[s] <= top
    requires Used(lengths, top, top) == Pow2(top)
    ensures Fits(lengths)
  {
    hide Pow2, Count, First, Used;
    FirstUsed(lengths, top, top);
    FirstUsed(lengths, top, MAX_BITS);
    Pow2Next(0);
    Pow2Add(top, MAX_BITS - top);
    UsedBeyond(lengths, top, MAX_BITS);
  }

  lemma AllCapped(freqs: seq<nat>, lengths: Lengths, top: nat)
    requires Huffman.Lengthed(freqs, lengths, top)
    requires forall s :: 0 <= s < |freqs| ==> (lengths[s] == 0 <==> freqs[s] == 0)
    ensures forall s :: 0 <= s < |lengths| ==> lengths[s] <= top
  {
  }

  /** Lengths from package-merge are accepted, and with at least `top` bits buffered no read can fail. */
  lemma MergedDecodes(freqs: seq<nat>, lengths: Lengths, top: nat, acc: nat, n: nat)
    requires Huffman.Lengthed(freqs, lengths, top) && 1 <= top <= MAX_BITS
    requires forall s :: 0 <= s < |freqs| ==> (lengths[s] == 0 <==> freqs[s] == 0)
    requires Huffman.KraftSum(freqs, lengths, top) == Pow2(top)
    ensures Capped(lengths) && Fits(lengths)
    ensures n >= top ==> exists s: nat :: Starts(lengths, acc, n, s)
  {
    hide Pow2, Count, CountTo, First, Used, UsedTo, Starts;
    assert UsedTo(lengths, top, top, 0) + Huffman.KraftSum(freqs, lengths, top) == UsedTo(lengths, top, top, |lengths|) by {
      UsedSum(freqs, lengths, top, 0);
    }
    UsedNone(lengths, top, top);
    UsedWhole(lengths, top, top);
    AllCapped(freqs, lengths, top);
    FullFits(lengths, top);
    if n >= top {
      Complete(lengths, acc, n, top);
    }
  }
}
