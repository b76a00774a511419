/**
 The x86 branch converter as it runs: in place, with the history packed into `prevMask` and aged lazily by the
 distance from `prevPos`.
 */
module X86 {
  import opened Words
  import opened X86Spec

  // Indexed by `prevMask >> 1`.
  const MASK_TO_ALLOWED: seq<bool> := [true, true, true, false, true, false, false, false]
  const MASK_TO_BIT_NUMBER: seq<nat> := [0, 1, 2, 2, 3, 3, 3, 3]

  /** The mask bits of the byte `k` positions back, where `bit == 1 << k`: an opcode, and an extreme fifth byte. */
  function SlotBits(s: Slot, bit: bv8): bv8 {
    if s.Clear? then 0 else if s.extreme then bit | (bit << 4) else bit
  }

  function MaskOf(h: History): bv8 {
    SlotBits(h.d0, 1) | SlotBits(h.d1, 2) | SlotBits(h.d2, 4) | SlotBits(h.d3, 8)
  }

  function AllowedBy(mask: bv8): bool {
    var index := ((mask >> 1) & 0x7) as int;
    MASK_TO_ALLOWED[index] && mask >> 1 < 0x10
  }

  function BitNumber(mask: bv8): nat
    requires mask < 0x10
  {
    MASK_TO_BIT_NUMBER[(mask >> 1) as int]
  }

  ghost function AgeBy(h: History, n: nat): (r: History)
    ensures n >= 4 ==> r == FRESH
  {
    if n == 0 then h
    else if n == 1 then Age(h)
    else if n == 2 then Age(Age(h))
    else if n == 3 then Age(Age(Age(h)))
    else FRESH
  }

  lemma AgeByNext(h: History, n: nat)
    ensures AgeBy(h, n + 1) == Age(AgeBy(h, n))
  {
  }

  lemma MaskAge(h: History)
    ensures (MaskOf(h) & 0x77) << 1 == MaskOf(Age(h))
  {
  }

  lemma MaskFresh()
    ensures MaskOf(FRESH) == 0
  {
  }

  lemma MaskMark(h: History, extreme: bool)
    requires h.d0.Clear?
    ensures MaskOf(Mark(h, extreme)) == MaskOf(h) | 1 | (if extreme then 0x10 else 0)
  {
  }

  /** The two table tests say exactly what `Allows` says. */
  lemma MaskAllows(h: History)
    requires h.d0.Clear?
    ensures Allows(h) <==> AllowedBy(MaskOf(h))
  {
  }

  /** On an allowed history the bit-number table gives the reach, so its index and the shift are in range. */
  lemma MaskReach(h: History)
    requires h.d0.Clear? && Allows(h)
    ensures MaskOf(h) == 0 <==> Reach(h) == 0
    ensures MaskOf(h) < 0x10
    ensures MaskOf(h) != 0 ==>
      var i := BitNumber(MaskOf(h));
      1 <= i <= 3 && Reach(h) == Pow2(32 - i * 8) && Reach(h) / 0x100 == Pow2(24 - i * 8)
  {
    Pow2Bytes();
  }

  /** The converter's running state: the mask as it was just after the opcode at `prevPos`. */
  class X86State {
    var prevMask: bv8
    var prevPos: Word
    var seen: bool
    ghost var last: History  // the history `prevMask` packs

    constructor ()
      ensures Valid()
      ensures forall ip :: Recent(ip) == FRESH
    {
      prevMask, prevPos, seen, last := 0, 0, false, FRESH;
    }

    method Clear()
      modifies this
      ensures Valid()
      ensures forall ip :: Recent(ip) == FRESH
    {
      prevMask, prevPos, seen, last := 0, 0, false, FRESH;
    }

    ghost predicate Valid()
      reads this
    {
      prevMask == MaskOf(last) && (!seen ==> last == FRESH)
    }

    /** The history at address `ip`, where the next call starts. */
    ghost function Recent(ip: int): History
      reads this
    {
      if !seen || Wrap(ip - prevPos) > 5 then FRESH else AgeBy(last, Wrap(ip - prevPos))
    }
  }

  /**
   Rewrite one operand.  The loop runs at most twice because the byte it tests is not extreme in `src0` and is
   complemented by the second round.
   */
  method ConvertOperand(src0: Word, pos: Word, encode: bool, prevMask: bv8, ghost h: History)
    returns (dest: Word)
    requires h.d0.Clear? && Allows(h) && prevMask == MaskOf(h)
    requires Reach(h) != 0 ==> !IsExtreme(Shared(src0, Reach(h)))
    ensures dest == Moved(src0, if encode then pos else -(pos as int), Reach(h))
  {
    ghost var delta: int := if encode then pos else -(pos as int);
    ghost var rounds := 0;
    var src := src0;
    MaskReach(h);
    MovedCases(src0, delta, Reach(h));
    hide Wrap, Flip, Shared, IsExtreme, MaskOf, Reach, Allows, Pow2, Moved, BitNumber;
    while true
      invariant rounds == 0 || rounds == 1
      invariant rounds == 0 ==> src == src0
      invariant rounds == 1 ==>
        && Reach(h) != 0
        && IsExtreme(Shared(Wrap(src0 + delta), Reach(h)))
        && src == Flip(Wrap(src0 + delta), Reach(h))
      decreases 1 - rounds
    {
      dest := if encode then Wrap(src + pos) else Wrap(src - pos);
      assert dest == Wrap(src + delta);
      if prevMask == 0 {
        break;
      }
      var i := BitNumber(prevMask);
      var tb := dest / Pow2(24 - i * 8) % 0x100;
      SharedShift(dest, Reach(h));
      assert tb == Shared(dest, Reach(h));
      if rounds == 1 {
        SecondRound(src0, delta, Reach(h));
      }
      if !IsExtreme(tb) {
        break;
      }
      src := Flip(dest, Pow2(32 - i * 8));
      rounds := rounds + 1;
    }
  }

  /** After the complement the tested byte is the operand's own, which is not extreme. */
  lemma SecondRound(src0: Word, delta: int, reach: int)
    requires reach in {0x100_0000, 0x1_0000, 0x100}
    requires !IsExtreme(Shared(src0, reach)) && IsExtreme(Shared(Wrap(src0 + delta), reach))
    ensures !IsExtreme(Shared(Wrap(Flip(Wrap(src0 + delta), reach) + delta), reach))
  {
    hide Wrap, Flip, Shared, IsExtreme;
    BendLow(src0, delta, reach);
    ComplementExtreme(Wrap(Flip(Wrap(src0 + delta), reach) + delta), src0, reach);
  }

  lemma MovedCases(src: Word, delta: int, reach: int)
    requires reach in {0, 0x100_0000, 0x1_0000, 0x100}
    ensures var dest := Wrap(src + delta);
      Moved(src, delta, reach) ==
      if reach == 0 || !IsExtreme(Shared(dest, reach)) then dest else Wrap(Flip(dest, reach) + delta)
  {
  }

  lemma SharedShift(w: Word, reach: int)
    requires reach in {0x100_0000, 0x1_0000, 0x100}
    ensures w / (reach / 0x100) % 0x100 == Shared(w, reach)
  {
    var m := reach / 0x100;
    var q, r := w / reach, w % reach;
    assert w == q * (0x100 * m) + (r / m * m + r % m);
    assert w == (q * 0x100 + r / m) * m + r % m;
    DivModUnique(w, m, q * 0x100 + r / m, r % m);
    DivModUnique(w / m, 0x100, q, r / m);
  }

  /** Age the mask by the distance since the previous opcode. */
  method Decay(prevMask0: bv8, offset: Word, ghost h: History) returns (prevMask: bv8)
    requires prevMask0 == MaskOf(h)
    ensures prevMask == MaskOf(AgeBy(h, offset))
  {
    prevMask := prevMask0;
    if offset > 5 {
      prevMask := 0;
    } else {
      for k := 0 to offset
        invariant prevMask == MaskOf(AgeBy(h, k))
      {
        MaskAge(AgeBy(h, k));
        AgeByNext(h, k);
        prevMask := (prevMask & 0x77) << 1;
      }
    }
  }

  /** Store a rewritten operand, its most significant byte forced to `00`/`FF` by bit 24. */
  method StoreOperand(data: array<Byte>, at: nat, dest: Word)
    requires at + 4 <= data.Length
    modifies data
    ensures data[..] == old(data[..at]) + StoreLe(SignExtend(dest)) + old(data[at + 4..])
  {
    var top := if dest / 0x100_0000 % 2 != 0 then 0xFF else 0;
    var outv := StoreLe(dest % 0x100_0000 + top * 0x100_0000);
    data[at] := outv[0];
    data[at + 1] := outv[1];
    data[at + 2] := outv[2];
    data[at + 3] := outv[3];
  }

  /** The scan of `s` has made `done` final and continues with history `cur`. */
  ghost predicate Reached(s: seq<Byte>, h: History, ip: int, encode: bool, done: seq<Byte>, cur: History) {
    && |done| <= |s|
    && Agrees(cur, s[|done|..])
    && Scan(s, h, ip, encode) == Prepend(done, Scan(s[|done|..], cur, ip + |done|, encode))
  }

  lemma ReachedNext(s: seq<Byte>, h: History, ip: int, encode: bool, done: seq<Byte>, cur: History)
    requires Reached(s, h, ip, encode, done, cur)
    requires |done| + 5 <= |s|
    ensures var rest := s[|done|..];
      Reached(s, h, ip, encode, done + Head(rest, cur, ip + |done|, encode), Next(rest, cur))
  {
    hide Head, Next, Agrees, Scan, Prepend;
    var rest := s[|done|..];
    var head, cur' := Head(rest, cur, ip + |done|, encode), Next(rest, cur);
    NextAgrees(rest, cur, ip + |done|, encode);
    ScanStep(rest, cur, ip + |done|, encode);
    TailTail(s, |done|, |head|);
    PrependPrepend(done, head, Scan(s[|done + head|..], cur', ip + |done + head|, encode));
  }

  lemma ReachedStart(s: seq<Byte>, h: History, ip: int, encode: bool)
    requires Agrees(h, s)
    ensures Reached(s, h, ip, encode, [], h)
  {
    assert s[0..] == s;
    assert [] + Scan(s, h, ip, encode).out == Scan(s, h, ip, encode).out;
  }

  lemma ReachedEnd(s: seq<Byte>, h: History, ip: int, encode: bool, done: seq<Byte>, cur: History)
    requires Reached(s, h, ip, encode, done, cur)
    requires |s| < |done| + 5
    ensures Scan(s, h, ip, encode) == Scanned(done, cur)
  {
  }

  lemma ReachedClear(s: seq<Byte>, h: History, ip: int, encode: bool, done: seq<Byte>, cur: History)
    requires Reached(s, h, ip, encode, done, cur)
    ensures |done| <= |s| && cur.d0.Clear? && Agrees(cur, s[|done|..])
  {
  }

  lemma HeadPlain(s: seq<Byte>, h: History, pc: int, encode: bool)
    requires |s| >= 5 && !IsOpcode(s[0])
    ensures Head(s, h, pc, encode) == [s[0]] && Next(s, h) == Age(h)
  {
  }

  lemma HeadKept(s: seq<Byte>, h: History, pc: int, encode: bool)
    requires |s| >= 5 && IsOpcode(s[0]) && !(IsExtreme(s[4]) && Allows(h))
    ensures Head(s, h, pc, encode) == [s[0]] && Next(s, h) == Age(Mark(h, IsExtreme(s[4])))
  {
  }

  lemma HeadConverted(s: seq<Byte>, h: History, pc: int, encode: bool)
    requires |s| >= 5 && IsOpcode(s[0]) && IsExtreme(s[4]) && Allows(h)
    requires Agrees(h, s)
    ensures Reach(h) != 0 ==> !IsExtreme(Shared(LoadLe(s[1..5]), Reach(h)))
    ensures Head(s, h, pc, encode) == [s[0]] + StoreLe(SignExtend(Moved(LoadLe(s[1..5]), Delta(pc, encode), Reach(h))))
    ensures Next(s, h) == FRESH
  {
    SharedByte(s, h);
  }

  lemma WrapNext(a: int, b: int)
    requires Wrap(a) == Wrap(b)
    ensures Wrap(a + 1) == Wrap(b + 1)
  {
    WrapAdd(a, 1);
    WrapAdd(b, 1);
  }

  lemma WrapGap(prevPos: int, here: int, gap: nat)
    requires gap < 0x1_0000_0000 && Wrap(prevPos + gap) == Wrap(here)
    ensures Wrap(Wrap(here) - prevPos) == gap
  {
    WrapAdd(prevPos + gap, -prevPos);
  }

  /** The scan's step at an opcode whose operand is present: convert it or leave it alone. */
  method AtOpcode(data: array<Byte>, at: nat, here: Word, encode: bool, prevMask: bv8, ghost cur: History)
    returns (next: nat, mask: bv8, ghost h: History)
    requires at + 5 <= data.Length
    requires IsOpcode(data[at]) && Agrees(cur, data[at..]) && prevMask == MaskOf(cur)
    modifies data
    ensures next == at + |Head(old(data[at..]), cur, here, encode)| <= data.Length
    ensures data[..] == old(data[..at]) + Head(old(data[at..]), cur, here, encode) + old(data[..])[next..]
    ensures mask == MaskOf(h) && AgeBy(h, next - at) == Next(old(data[at..]), cur)
  {
    hide Head, Next, Moved, Agrees, Allows, SignExtend, MaskOf, IsExtreme, Wrap, Reach, AllowedBy, LoadLe, StoreLe;
    ghost var rest := data[at..];
    var b4 := data[at + 4];
    AgreesClear(cur, rest);
    MaskAllows(cur);
    if IsExtreme(b4) && AllowedBy(prevMask) {
      HeadConverted(rest, cur, here, encode);
      assert data[at + 1..at + 5] == rest[1..5];
      var src := LoadLe(data[at + 1..at + 5]);
      var pos := Wrap(here + 5);
      var dest := ConvertOperand(src, pos, encode, prevMask, cur);
      ghost var was := data[..];
      StoreOperand(data, at + 1, dest);
      SpliceOperand(was, at, StoreLe(SignExtend(dest)));
      MaskFresh();
      next, mask, h := at + 5, 0, FRESH;
    } else {
      HeadKept(rest, cur, here, encode);
      MaskMark(cur, IsExtreme(b4));
      next, h := at + 1, Mark(cur, IsExtreme(b4));
      mask := prevMask | 1;
      if IsExtreme(b4) {
        mask := mask | 0x10;
      }
    }
  }

  lemma AgreesClear(h: History, s: seq<Byte>)
    requires Agrees(h, s)
    ensures h.d0.Clear?
  {
  }

  /** Where the previous opcode was, taken to be no more than five bytes before `ip`. */
  method Anchor(ip: Word, st: X86State) returns (prevPos: Word)
    requires st.Valid()
    ensures Wrap(ip - prevPos) <= 5
    ensures Wrap(prevPos + Wrap(ip - prevPos)) == Wrap(ip)
    ensures st.Recent(ip) == AgeBy(st.last, Wrap(ip - prevPos))
  {
    WrapDistance(ip, 5);
    prevPos := if st.seen then st.prevPos else Wrap(ip - 5);
    if Wrap(ip - prevPos) > 5 {
      prevPos := Wrap(ip - 5);
    }
    WrapRound(ip, prevPos);
  }

  /** The distance back to a wrapped position. */
  lemma WrapDistance(ip: int, d: Word)
    ensures Wrap(ip - Wrap(ip - d)) == d
  {
    ModShift(Wrap(ip - d), ip - d, d - ip, 0x1_0000_0000);
    DivModUnique(ip - Wrap(ip - d), 0x1_0000_0000, (ip - d) / 0x1_0000_0000, d);
  }

  lemma WrapRound(ip: int, q: int)
    ensures Wrap(q + Wrap(ip - q)) == Wrap(ip)
  {
    WrapAdd(ip - q, q);
  }

  lemma HeadWrap(s: seq<Byte>, h: History, pc: int, encode: bool)
    requires |s| >= 5
    ensures Head(s, h, Wrap(pc), encode) == Head(s, h, pc, encode)
  {
    WrapAdd(pc, 5);
  }

  lemma SpliceOperand(was: seq<Byte>, at: nat, b: seq<Byte>)
    requires at + 1 + |b| <= |was|
    ensures was[..at + 1] + b + was[at + 1 + |b|..] == was[..at] + ([was[at]] + b) + was[at + 1 + |b|..]
  {
  }

  /** One turn of the scan at position `at`. */
  method Step(data: array<Byte>, at: nat, ip: Word, encode: bool, prevMask: bv8, prevPos: Word,
              ghost h: History, ghost gap: nat)
    returns (next: nat, mask: bv8, pos: Word, ghost h': History, ghost gap': nat)
    requires at + 5 <= data.Length < 0x1_0000_0000
    requires prevMask == MaskOf(h)
    requires gap <= at + 5 && Wrap(prevPos + gap) == Wrap(ip + at)
    requires Agrees(AgeBy(h, gap), data[at..])
    modifies data
    ensures next == at + |Head(old(data[at..]), AgeBy(h, gap), ip + at, encode)| <= data.Length
    ensures data[..] ==
      old(data[..at]) + Head(old(data[at..]), AgeBy(h, gap), ip + at, encode) + old(data[..])[next..]
    ensures mask == MaskOf(h') && AgeBy(h', gap') == Next(old(data[at..]), AgeBy(h, gap))
    ensures gap' <= next + 5 && gap' <= at + 6 && Wrap(pos + gap') == Wrap(ip + next)
  {
    hide Agrees, MaskOf, Head, Next, AgeBy, Wrap;
    ghost var rest, pc, cur := data[at..], ip + at, AgeBy(h, gap);
    var b := data[at];
    if b != 0xE8 && b != 0xE9 {
      AgeByNext(h, gap);
      HeadPlain(rest, cur, pc, encode);
      WrapNext(prevPos + gap, pc);
      next, mask, pos, h', gap' := at + 1, prevMask, prevPos, h, gap + 1;
    } else {
      var here := Wrap(ip + at);
      var offset := Wrap(here - prevPos);
      WrapGap(prevPos, pc, gap);
      var decayed := Decay(prevMask, offset, h);
      next, mask, h' := AtOpcode(data, at, here, encode, decayed, cur);
      HeadWrap(rest, cur, pc, encode);
      pos, gap' := here, next - at;
      WrapAdd(pc, gap');
    }
  }

  /** Scan every opcode position whose operand is buffered, from a mask and the position of the last opcode. */
  method ScanAll(data: array<Byte>, ip: Word, encode: bool, mask0: bv8, pos0: Word, ghost last: History, ghost dist: nat)
    returns (n: nat, prevMask: bv8, prevPos: Word, ghost h: History, ghost gap: nat)
    requires 5 <= data.Length < 0x1_0000_0000
    requires mask0 == MaskOf(last) && dist <= 5 && Wrap(pos0 + dist) == Wrap(ip)
    requires Agrees(AgeBy(last, dist), data[..])
    modifies data
    ensures var r := Scan(old(data[..]), AgeBy(last, dist), ip, encode);
      && n == |r.out| <= data.Length
      && data[..] == r.out + old(data[..])[n..]
      && AgeBy(h, gap) == r.recent
    ensures prevMask == MaskOf(h) && gap <= data.Length + 1 && Wrap(prevPos + gap) == Wrap(ip + n)
  {
    hide Agrees, Scan, MaskOf, Reached, Head, Next, AgeBy, Wrap;
    ghost var s, h0, done: seq<Byte> := data[..], AgeBy(last, dist), [];
    ReachedStart(s, h0, ip, encode);
    prevMask, prevPos, h, gap := mask0, pos0, last, dist;
    var limit := data.Length - 5;
    n := 0;
    while n <= limit
      invariant 0 <= n == |done| <= data.Length
      invariant data[..] == done + s[n..]
      invariant prevMask == MaskOf(h)
      invariant gap <= n + 5 && gap <= limit + 6 && Wrap(prevPos + gap) == Wrap(ip + n)
      invariant Reached(s, h0, ip, encode, done, AgeBy(h, gap))
      decreases data.Length - n
    {
      ghost var cur := AgeBy(h, gap);
      ReachedNext(s, h0, ip, encode, done, cur);
      ReachedClear(s, h0, ip, encode, done, cur);
      ghost var head := Head(s[n..], cur, ip + n, encode);
      assert data[n..] == s[n..];
      Splice(data[..], done, s, head);
      done := done + head;
      n, prevMask, prevPos, h, gap := Step(data, n, ip, encode, prevMask, prevPos, h, gap);
    }
    ReachedEnd(s, h0, ip, encode, done, AgeBy(h, gap));
  }

  /**
   Convert `data` in place; the first `n` bytes are final and `st` describes exactly that boundary.  The state keeps
   32-bit addresses, so behind 2^32 - 1 bytes it may name a history that is 2^32 bytes old instead of a fresh one.
   */
  method Convert(data: array<Byte>, ip: Word, encode: bool, st: X86State) returns (n: nat)
    requires data.Length < 0x1_0000_0000
    requires st.Valid() && Agrees(st.Recent(ip), data[..])
    modifies data, st
    ensures st.Valid()
    ensures var r := Scan(old(data[..]), old(st.Recent(ip)), ip, encode);
      && n == |r.out|
      && data[..] == r.out + old(data[..])[n..]
      && (|| st.Recent(ip + n) == r.recent
          || (data.Length == 0xFFFF_FFFF && r.recent == FRESH && st.Recent(ip + n) == st.last))
  {
    hide Agrees, MaskOf, Reached, Head, Next, AgeBy, Wrap, X86State.Recent;
    if data.Length < 5 {
      return 0;
    }
    hide Scan;
    var prevMask := st.prevMask;
    var prevPos := Anchor(ip, st);
    ghost var h, gap;
    n, prevMask, prevPos, h, gap := ScanAll(data, ip, encode, prevMask, prevPos, st.last, Wrap(ip - prevPos));
    st.prevMask, st.prevPos, st.seen, st.last := prevMask, prevPos, true, h;
    RecentAfter(st, ip + n, gap);
  }

  lemma RecentAfter(st: X86State, ip: int, gap: nat)
    requires st.seen && gap <= 0x1_0000_0000 && Wrap(st.prevPos + gap) == Wrap(ip)
    ensures if gap < 0x1_0000_0000 then st.Recent(ip) == AgeBy(st.last, gap)
            else st.Recent(ip) == st.last && AgeBy(st.last, gap) == FRESH
  {
    var p: int, g: nat := st.prevPos, if gap < 0x1_0000_0000 then gap else 0;
    ModShift(p + gap, p + g, 0, 0x1_0000_0000);
    WrapGap(st.prevPos, ip, g);
    WrapAdd(ip, -p);
  }

  /** Addresses count modulo 2^32. */
  lemma {:induction false} ScanWrap(s: seq<Byte>, h: History, pc: int, pc': int, encode: bool)
    requires Wrap(pc) == Wrap(pc')
    ensures Scan(s, h, pc, encode) == Scan(s, h, pc', encode)
    decreases |s|
  {
    hide Scan, Head, Next, Wrap;
    ScanStep(s, h, pc, encode);
    ScanStep(s, h, pc', encode);
    if |s| >= 5 {
      HeadWrap(s, h, pc, encode);
      HeadWrap(s, h, pc', encode);
      var n := |Head(s, h, pc, encode)|;
      WrapAdd(pc, n);
      WrapAdd(pc', n);
      ScanWrap(s[n..], Next(s, h), pc + n, pc' + n, encode);
    }
  }

  lemma RecentWrap(st: X86State, ip: int)
    ensures st.Recent(Wrap(ip)) == st.Recent(ip)
  {
    var p: int := st.prevPos;
    WrapAdd(ip, -p);
  }
}
