/** The RISC-V branch converter as it runs: in place, over a byte array. */
module RiscV {
  import opened Words
  import opened RiscVSpec

  /** The scan of `s` has made `done` final. */
  ghost predicate Reached(s: seq<Byte>, ip: int, encode: bool, done: seq<Byte>) {
    && |done| <= |s|
    && Scan(s, ip, encode) == done + Scan(s[|done|..], ip + |done|, encode)
  }

  lemma ReachedStart(s: seq<Byte>, ip: int, encode: bool)
    ensures Reached(s, ip, encode, [])
  {
    assert s[0..] == s;
  }

  lemma ReachedNext(s: seq<Byte>, ip: int, encode: bool, done: seq<Byte>)
    requires Reached(s, ip, encode, done)
    requires |done| + 8 <= |s|
    ensures Reached(s, ip, encode, done + Head(s[|done|..], ip + |done|, encode))
  {
    hide Head, Scan;
    var rest := s[|done|..];
    var head := Head(rest, ip + |done|, encode);
    ScanStep(rest, ip + |done|, encode);
    TailTail(s, |done|, |head|);
    ConcatAssoc(done, head, Scan(s[|done + head|..], ip + |done + head|, encode));
  }

  lemma ReachedEnd(s: seq<Byte>, ip: int, encode: bool, done: seq<Byte>)
    requires Reached(s, ip, encode, done)
    requires |s| < |done| + 8
    ensures Scan(s, ip, encode) == done
  {
  }

  /** Overwrite part of an instruction in place. */
  lemma Patch(was: seq<Byte>, i: nat, skip: nat, b: seq<Byte>)
    requires i + skip + |b| <= |was|
    ensures was[..i + skip] + b + was[i + skip + |b|..] ==
      was[..i] + (was[i..i + skip] + b) + was[i + skip + |b|..]
  {
  }

  /** A `JAL` at offset `i`. */
  method AtJal(data: array<Byte>, i: nat, pc: Word, encode: bool) returns (next: nat)
    requires i + 8 <= data.Length && data[i] == 0xEF
    modifies data
    ensures var head := Head(old(data[i..]), pc, encode);
      && next == i + |head| <= data.Length
      && data[..] == old(data[..i]) + head + old(data[..])[next..]
  {
    ghost var was, rest := data[..], data[i..];
    var b1 := data[i + 1];
    if b1 % 2 != 0 || b1 / 4 % 4 != 0 {
      assert Head(rest, pc, encode) == was[i..i + 2];
      return i + 2;
    }
    var b2 := data[i + 2];
    var b3 := data[i + 3];
    var fields := if encode then JalDense(b1 % 0x10, Turn(JalOffset(b1, b2, b3), pc, true))
                  else JalScatter(b1 % 0x10, Turn(JalAddress(b1, b2, b3), pc, false));
    assert Head(rest, pc, encode) == was[i..i + 1] + fields;
    Store(data, i + 1, fields);
    Patch(was, i, 1, fields);
    next := i + 4;
  }

  /** An `AUIPC` at offset `i`, with the instruction or bytes after it. */
  method AtAuipc(data: array<Byte>, i: nat, pc: Word, encode: bool) returns (next: nat)
    requires i + 8 <= data.Length && data[i] % 0x80 == 0x17
    modifies data
    ensures var head := Head(old(data[i..]), pc, encode);
      && next == i + |head| <= data.Length
      && data[..] == old(data[..i]) + head + old(data[..])[next..]
  {
    hide Head, LoadLe, StoreLe, First, Second, PairBytes, IsPair, IsSpecial, Rd, Linked;
    ghost var was, rest := data[..], data[i..];
    HeadAuipc(rest, pc, encode);
    assert rest[..4] == data[i..i + 4] && rest[4..8] == data[i + 4..i + 8];
    var inst := LoadLe(data[i..i + 4]);
    var b := data[i + 4..i + 8];
    if Linked(Rd(inst)) {
      if !IsPair(inst, LoadLe(b)) {
        return i + 6;
      }
    } else if !IsSpecial(inst) {
      return i + 4;
    }
    var first, second := StoreLe(First(inst, b, pc, encode)), Second(inst, b, pc, encode);
    Store(data, i, first);
    Store(data, i + 4, second);
    PatchTwo(was, i, first, second);
    next := i + 8;
  }

  lemma PatchTwo(was: seq<Byte>, i: nat, a: seq<Byte>, b: seq<Byte>)
    requires i + |a| + |b| <= |was|
    ensures var now := was[..i] + a + was[i + |a|..];
      now[..i + |a|] + b + now[i + |a| + |b|..] == was[..i] + (a + b) + was[i + |a| + |b|..]
  {
  }

  lemma HeadAuipc(s: seq<Byte>, pc: int, encode: bool)
    requires |s| >= 8 && s[0] % 0x80 == 0x17
    ensures var inst, b := LoadLe(s[..4]), s[4..8];
      Head(s, pc, encode) ==
      if Linked(Rd(inst)) && !IsPair(inst, LoadLe(b)) then s[..6]
      else if !Linked(Rd(inst)) && !IsSpecial(inst) then s[..4]
      else StoreLe(First(inst, b, pc, encode)) + Second(inst, b, pc, encode)
  {
  }

  lemma HeadOther(s: seq<Byte>, pc: int, encode: bool)
    requires |s| >= 8 && s[0] != 0xEF && s[0] % 0x80 != 0x17
    ensures Head(s, pc, encode) == s[..2]
  {
  }

  /** One turn of the encoder's or the decoder's loop, at offset `i` and address `pc`. */
  method Step(data: array<Byte>, i: nat, pc: Word, encode: bool) returns (next: nat)
    requires i + 8 <= data.Length
    modifies data
    ensures var head := Head(old(data[i..]), pc, encode);
      && next == i + |head| <= data.Length
      && data[..] == old(data[..i]) + head + old(data[..])[next..]
  {
    hide Head;
    var b0 := data[i];
    if b0 == 0xEF {
      next := AtJal(data, i, pc, encode);
    } else if b0 % 0x80 == 0x17 {
      next := AtAuipc(data, i, pc, encode);
    } else {
      HeadOther(data[i..], pc, encode);
      next := i + 2;
    }
  }

  /** Convert `data` in place; the first `n` bytes are final. */
  method Convert(data: array<Byte>, nowPos: Word, encode: bool) returns (n: nat)
    modifies data
    ensures var out := Scan(old(data[..]), nowPos, encode);
      n == |out| && data[..] == out + old(data[..])[n..]
  {
    hide Head, Scan, Reached;
    ghost var s, done := data[..], [];
    ReachedStart(s, nowPos, encode);
    if data.Length < 8 {
      ReachedEnd(s, nowPos, encode, []);
      return 0;
    }
    var size := data.Length - 8;
    var i := 0;
    while i <= size
      invariant 0 <= i == |done| <= data.Length
      invariant data[..] == done + s[i..]
      invariant Reached(s, nowPos, encode, done)
      decreases data.Length - i
    {
      assert data[i..] == s[i..];
      ghost var head := Head(s[i..], nowPos + i, encode);
      ReachedNext(s, nowPos, encode, done);
      Splice(data[..], done, s, head);
      HeadWrap(s[i..], nowPos + i, encode);
      done := done + head;
      i := Step(data, i, Wrap(nowPos + i), encode);
    }
    ReachedEnd(s, nowPos, encode, done);
    n := i;
  }

  lemma TurnWrap(j: int, pc: int, encode: bool)
    ensures Turn(j, Wrap(pc), encode) == Turn(j, pc, encode)
  {
    WrapAdd(pc, 2 * j);
  }

  lemma TargetWrap(inst: Word, inst2: Word, pc: int)
    ensures Target(inst, inst2, Wrap(pc)) == Target(inst, inst2, pc)
  {
    var upper: int := Upper(inst);
    WrapAdd(pc, upper + inst2 / 0x10_0000 - (if inst2 >= 0x8000_0000 then 0x1000 else 0));
  }

  /** Addresses count modulo 2^32. */
  lemma HeadWrap(s: seq<Byte>, pc: int, encode: bool)
    requires |s| >= 8
    ensures Head(s, Wrap(pc), encode) == Head(s, pc, encode)
  {
    var b := s[4..8];
    TurnWrap(JalOffset(s[1], s[2], s[3]), pc, encode);
    TurnWrap(JalAddress(s[1], s[2], s[3]), pc, encode);
    TargetWrap(LoadLe(s[..4]), LoadLe(b), pc);
    WrapAdd(pc, LoadBe(b));
    hide Turn, Target, Wrap, Auipc, Special, Carried, Merge, Rewrites, IsJal, JalOffset, JalAddress, JalDense, JalScatter,
      LoadLe, StoreLe, LoadBe, StoreBe, Rd, Linked;
  }

  lemma {:induction false} ScanWrap(s: seq<Byte>, pc: int, pc': int, encode: bool)
    requires Wrap(pc) == Wrap(pc')
    ensures Scan(s, pc, encode) == Scan(s, pc', encode)
    decreases |s|
  {
    hide Scan, Head, Wrap;
    ScanStep(s, pc, encode);
    ScanStep(s, pc', encode);
    if |s| >= 8 {
      HeadWrap(s, pc, encode);
      HeadWrap(s, pc', encode);
      var n := |Head(s, pc, encode)|;
      WrapAdd(pc, n);
      WrapAdd(pc', n);
      ScanWrap(s[n..], pc + n, pc' + n, encode);
    }
  }
}
