/**
 What the RISC-V converter does, in terms of the instruction set: the immediates of `JAL`, `AUIPC` and the instruction
 behind it, the registers they name, and the addresses they stand for.
 */
module RiscVMeaning {
  import opened Words
  import R = RiscVSpec

  // ----- instruction fields, on 32-bit words

  function Opcode(w: Word): int { w % 0x80 }

  function Dest(w: Word): int { w / 0x80 % 0x20 }

  function Source(w: Word): int { w / 0x8000 % 0x20 }

  /** The J-type immediate: bits 20, 10..1, 11 and 19..12 from the top down. */
  function JumpImmediate(w: Word): int {
    2 * (w / 0x20_0000 % 0x400) + 0x800 * (w / 0x10_0000 % 2) + 0x1000 * (w / 0x1000 % 0x100)
    - 0x10_0000 * (w / 0x8000_0000)
  }

  /** The U-type immediate. */
  function UpperImmediate(w: Word): int { w / 0x1000 * 0x1000 }

  /** The I-type immediate, signed. */
  function LowerImmediate(w: Word): int {
    w / 0x10_0000 - (if w >= 0x8000_0000 then 0x1000 else 0)
  }

  function WordOf(b: seq<Byte>): Word
    requires |b| >= 4
  {
    var b0: int, b1: int, b2: int, b3: int := b[0], b[1], b[2], b[3];
    b0 + 0x100 * b1 + 0x1_0000 * b2 + 0x100_0000 * b3
  }

  /** Four bytes, the highest first. */
  function Big(b: seq<Byte>): Word
    requires |b| >= 4
  {
    WordOf([b[3], b[2], b[1], b[0]])
  }

  // ----- where the scan comes

  /** The scan of `s` comes to offset `o` with at least eight bytes to go. */
  predicate Comes(s: seq<Byte>, o: nat)
    decreases |s|
  {
    |s| >= 8 && (o == 0 || (R.HeadSize(s) <= o && Comes(s[R.HeadSize(s)..], o - R.HeadSize(s))))
  }

  lemma ComesInside(s: seq<Byte>, o: nat)
    requires Comes(s, o)
    ensures o + 8 <= |s|
    decreases |s|
  {
    hide R.HeadSize;
    if o > 0 {
      ComesInside(s[R.HeadSize(s)..], o - R.HeadSize(s));
    }
  }

  lemma SizeIs(s: seq<Byte>, pc: int, encode: bool)
    requires |s| >= 8
    ensures R.HeadSize(s) == |R.Head(s, pc, encode)| && 2 <= R.HeadSize(s) <= 8
  {
    R.HeadSizes(s, pc, encode);
    hide R.Head;
  }

  /** At every place the scan comes to, the filter leaves what it makes of the instruction there. */
  lemma {:induction false} FilterAt(s: seq<Byte>, pc: int, encode: bool, o: nat)
    requires Comes(s, o)
    ensures o + 8 <= |s|
    ensures var head := R.Head(s[o..], pc + o, encode);
      R.Filter(s, pc, encode)[o..o + |head|] == head
    decreases |s|
  {
    hide R.Head, R.Filter, R.HeadSize;
    ComesInside(s, o);
    R.FilterStep(s, pc, encode);
    SizeIs(s, pc, encode);
    var n := R.HeadSize(s);
    var rest := R.Filter(s[n..], pc + n, encode);
    if o == 0 {
      assert s[0..] == s;
    } else {
      FilterAt(s[n..], pc + n, encode, o - n);
      TailTail(s, n, o - n);
      ComesInside(s[n..], o - n);
      SizeIs(s[o..], pc + o, encode);
      var m := |R.Head(s[o..], pc + o, encode)|;
      Shifted(R.Head(s, pc, encode), rest, o, m);
    }
  }

  lemma Shifted(a: seq<Byte>, b: seq<Byte>, o: nat, m: nat)
    requires |a| <= o && o - |a| + m <= |b|
    ensures (a + b)[o..o + m] == b[o - |a|..o - |a| + m]
  {
  }

  // ----- JAL

  /** A `JAL` is converted if it links: through `x1` or `x5`. */
  lemma JalRegisters(s: seq<Byte>)
    requires |s| >= 4
    ensures R.IsJal(s) <==> Opcode(WordOf(s)) == 0x6F && Dest(WordOf(s)) in {1, 5}
  {
    var w: int, b0: int, b1: int, b2: int, b3: int := WordOf(s), s[0], s[1], s[2], s[3];
    DivModUnique(w, 0x80, b0 / 0x80 + 2 * b1 + 0x200 * b2 + 0x2_0000 * b3, b0 % 0x80);
    DivModUnique(w / 0x80, 0x20, b1 / 0x10 + 0x10 * b2 + 0x1000 * b3, b0 / 0x80 + 2 * (b1 % 0x10));
    R.MiddleBits(b1);
    ModMod(b1, 2, 8);
    JalNibble(b0, b1 % 0x10);
  }

  lemma JalNibble(b0: int, n: int)
    requires 0 <= b0 < 0x100 && 0 <= n < 0x10
    ensures b0 == 0xEF && n % 2 == 0 && n / 4 == 0 <==> b0 % 0x80 == 0x6F && b0 / 0x80 + 2 * n in {1, 5}
  {
  }

  /** The bytes of a word give its immediate. */
  lemma JumpBytes(b: seq<Byte>)
    requires |b| >= 4
    ensures var top: int := b[3] / 0x80;
      JumpImmediate(WordOf(b)) == 2 * R.JalOffset(b[1], b[2], b[3]) - 0x20_0000 * top
  {
    var w := WordOf(b);
    TenBits(w, b[0], b[1], b[2], b[3]);
    OneBit(w, b[0], b[1], b[2], b[3]);
    EightBits(w, b[0], b[1], b[2], b[3]);
    TopBit(w, b[0], b[1], b[2], b[3]);
  }

  predicate Holds(w: int, b0: int, b1: int, b2: int, b3: int) {
    && 0 <= b0 < 0x100 && 0 <= b1 < 0x100 && 0 <= b2 < 0x100 && 0 <= b3 < 0x100
    && w == b0 + 0x100 * b1 + 0x1_0000 * b2 + 0x100_0000 * b3
  }

  lemma TenBits(w: int, b0: int, b1: int, b2: int, b3: int)
    requires Holds(w, b0, b1, b2, b3)
    ensures w / 0x20_0000 % 0x400 == b2 / 0x20 + 8 * (b3 % 0x80)
  {
    DivModUnique(w, 0x20_0000, b2 / 0x20 + 8 * b3, b0 + 0x100 * b1 + 0x1_0000 * (b2 % 0x20));
    DivModUnique(w / 0x20_0000, 0x400, b3 / 0x80, b2 / 0x20 + 8 * (b3 % 0x80));
  }

  lemma OneBit(w: int, b0: int, b1: int, b2: int, b3: int)
    requires Holds(w, b0, b1, b2, b3)
    ensures w / 0x10_0000 % 2 == b2 / 0x10 % 2
  {
    DivModUnique(w, 0x10_0000, b2 / 0x10 + 0x10 * b3, b0 + 0x100 * b1 + 0x1_0000 * (b2 % 0x10));
    DivModUnique(w / 0x10_0000, 2, b2 / 0x20 + 8 * b3, b2 / 0x10 % 2);
  }

  lemma EightBits(w: int, b0: int, b1: int, b2: int, b3: int)
    requires Holds(w, b0, b1, b2, b3)
    ensures w / 0x1000 % 0x100 == b1 / 0x10 + 0x10 * (b2 % 0x10)
  {
    DivModUnique(w, 0x1000, b1 / 0x10 + 0x10 * b2 + 0x1000 * b3, b0 + 0x100 * (b1 % 0x10));
    DivModUnique(w / 0x1000, 0x100, b2 / 0x10 + 0x10 * b3, b1 / 0x10 + 0x10 * (b2 % 0x10));
  }

  lemma TopBit(w: int, b0: int, b1: int, b2: int, b3: int)
    requires Holds(w, b0, b1, b2, b3)
    ensures w / 0x8000_0000 == b3 / 0x80
  {
    DivModUnique(w, 0x8000_0000, b3 / 0x80, b0 + 0x100 * b1 + 0x1_0000 * b2 + 0x100_0000 * (b3 % 0x80));
  }

  /** The address in a converted `JAL`: bits 20 to 1, the highest first, behind the register nibble. */
  function JumpAddress(b: seq<Byte>): int
    requires |b| >= 4
  {
    var b1: int, b2: int, b3: int := b[1], b[2], b[3];
    2 * (0x1_0000 * (b1 / 0x10) + 0x100 * b2 + b3)
  }

  predicate Same21(a: int, b: int) {
    (a - b) % 0x20_0000 == 0
  }

  lemma Multiple(k: int, m: int)
    requires m > 0
    ensures k * m % m == 0
  {
    DivModUnique(k * m, m, k, 0);
  }

  /** Bits 1 to 20 of a sum: the sum itself, but for its lowest bit. */
  lemma TurnIs(j: int, pc: int, encode: bool)
    ensures var sum := 2 * j + (if encode then pc else -pc);
      Same21(2 * R.Turn(j, pc, encode), sum - sum % 2)
  {
    var sum := 2 * j + (if encode then pc else -pc);
    var w: int := Wrap(sum);
    var k := sum / 0x1_0000_0000;
    var t := w / 2 % 0x10_0000;
    var i := w / 2 / 0x10_0000;
    ModMod(sum, 2, 0x8000_0000);
    assert sum == w + k * 0x1_0000_0000 && w == 2 * (w / 2) + w % 2 && w / 2 == i * 0x10_0000 + t;
    assert 2 * t - (sum - sum % 2) == (-i - k * 0x800) * 0x20_0000;
    Multiple(-i - k * 0x800, 0x20_0000);
  }

  /** Encoding puts the jump's target in place of its offset, modulo 2^21 and but for the lowest bit. */
  lemma JalEncoded(s: seq<Byte>, pc: int)
    requires |s| >= 8 && R.IsJal(s)
    ensures var head := R.Head(s, pc, true);
      var target := JumpImmediate(WordOf(s)) + pc;
      && |head| == 4 && head[0] == s[0] && head[1] % 0x10 == s[1] % 0x10
      && Same21(JumpAddress(head), target - target % 2)
  {
    hide R.JalOffset, R.JalDense, R.Turn, R.JalAddress, Same21;
    var j := R.JalOffset(s[1], s[2], s[3]);
    var t := R.Turn(j, pc, true);
    JumpBytes(s);
    TurnIs(j, pc, true);
    R.JalDenseInverse(s[1], s[2], s[3], s[1] % 0x10, t);
    var head := R.Head(s, pc, true);
    assert head == [s[0]] + R.JalDense(s[1] % 0x10, t);
    AddressIs(head);
    Away(2 * t, 2 * j + pc, JumpImmediate(WordOf(s)) + pc, s[3] / 0x80);
  }

  lemma AddressIs(b: seq<Byte>)
    requires |b| >= 4
    ensures JumpAddress(b) == 2 * R.JalAddress(b[1], b[2], b[3])
  {
  }

  lemma Away(a: int, x: int, y: int, k: int)
    requires Same21(a, x - x % 2) && y == x - 0x20_0000 * k
    ensures Same21(a, y - y % 2)
  {
    DivModUnique(y, 2, x / 2 - 0x10_0000 * k, x % 2);
    var q := (a - (x - x % 2)) / 0x20_0000;
    assert a - (y - y % 2) == (q + k) * 0x20_0000;
    Multiple(q + k, 0x20_0000);
  }

  /** Decoding puts the offset back in place of the target. */
  lemma JalDecoded(s: seq<Byte>, pc: int)
    requires |s| >= 8 && R.IsJal(s)
    ensures var head := R.Head(s, pc, false);
      var offset := JumpAddress(s) - pc;
      && |head| == 4 && head[0] == s[0] && head[1] % 0x10 == s[1] % 0x10
      && Same21(JumpImmediate(WordOf(head)), offset - offset % 2)
  {
    hide R.JalOffset, R.JalScatter, R.Turn, R.JalAddress, Same21;
    var j := R.JalAddress(s[1], s[2], s[3]);
    var t := R.Turn(j, pc, false);
    AddressIs(s);
    TurnIs(j, pc, false);
    R.JalOffsetScatter(s[1] % 0x10, t);
    var head := R.Head(s, pc, false);
    assert head == [s[0]] + R.JalScatter(s[1] % 0x10, t);
    JumpBytes(head);
    Back(JumpImmediate(WordOf(head)), 2 * t, 2 * j - pc, head[3] / 0x80);
  }

  lemma Back(a: int, b: int, x: int, k: int)
    requires a == b - 0x20_0000 * k && Same21(b, x - x % 2)
    ensures Same21(a, x - x % 2)
  {
    var q := (b - (x - x % 2)) / 0x20_0000;
    assert a - (x - x % 2) == (q - k) * 0x20_0000;
    Multiple(q - k, 0x20_0000);
  }

  // ----- AUIPC

  /** The address an `AUIPC` at `pc` and the instruction behind it stand for. */
  function PairTarget(inst: Word, inst2: Word, pc: int): int {
    pc + UpperImmediate(inst) + LowerImmediate(inst2)
  }

  predicate Same32(a: int, b: int) {
    (a - b) % 0x1_0000_0000 == 0
  }

  /** A pair: `AUIPC` into a register other than `x0` and `x2`, and a full-size instruction that reads it. */
  predicate RealPair(s: seq<Byte>)
    requires |s| >= 8
  {
    var inst, inst2 := WordOf(s), WordOf(s[4..]);
    Opcode(inst) == 0x17 && Dest(inst) != 0 && Dest(inst) != 2 && inst2 % 4 == 3 && Source(inst2) == Dest(inst)
  }

  /** The mark of a converted pair: `AUIPC` into `x2` that carries a full-size instruction reading such a register. */
  predicate SpecialPair(s: seq<Byte>)
    requires |s| >= 8
  {
    var inst := WordOf(s);
    Opcode(inst) == 0x17 && Dest(inst) == 2 && inst / 0x1000 % 4 == 3 && inst / 0x800_0000 != 0
    && inst / 0x800_0000 != 2
  }

  lemma WordsAt(s: seq<Byte>)
    requires |s| >= 8
    ensures LoadLe(s[..4]) == WordOf(s) && LoadLe(s[4..8]) == WordOf(s[4..])
    ensures LoadBe(s[4..8]) == Big(s[4..])
    ensures WordOf(s) % 0x80 == s[0] % 0x80
  {
    R.FirstByte(s[..4]);
  }

  lemma SpecialFieldsOf(inst: Word)
    ensures inst % 0x4000 == 0x3117 <==> inst % 0x80 == 0x17 && inst / 0x80 % 0x20 == 2 && inst / 0x1000 % 4 == 3
  {
    var a, b, c, q := inst % 0x80, inst / 0x80 % 0x20, inst / 0x1000 % 4, inst / 0x1000 / 4;
    assert inst / 0x80 / 0x20 == inst / 0x1000;
    assert inst / 0x80 == b + 0x20 * (inst / 0x1000) && inst / 0x1000 == c + 4 * q;
    DivModUnique(inst, 0x4000, q, a + 0x80 * b + 0x1000 * c);
    Digits(a, b, c);
  }

  lemma Digits(a: int, b: int, c: int)
    requires 0 <= a < 0x80 && 0 <= b < 0x20 && 0 <= c < 4
    ensures a + 0x80 * b + 0x1000 * c == 0x3117 <==> a == 0x17 && b == 2 && c == 3
  {
  }

  lemma HeadPair(s: seq<Byte>, pc: int, encode: bool)
    requires |s| >= 8
    ensures RealPair(s) || SpecialPair(s) <==>
      s[0] % 0x80 == 0x17 && R.Rewrites(WordOf(s), WordOf(s[4..]))
    ensures RealPair(s) || SpecialPair(s) ==> R.Head(s, pc, encode) == R.PairBytes(s, pc, encode)
    ensures RealPair(s) ==> R.Linked(R.Rd(WordOf(s))) && R.IsPair(WordOf(s), WordOf(s[4..]))
    ensures SpecialPair(s) ==> !R.Linked(R.Rd(WordOf(s))) && R.IsSpecial(WordOf(s))
  {
    hide R.PairBytes, LoadLe, LoadBe, WordOf, R.JalBytes, R.IsJal;
    WordsAt(s);
    SpecialFieldsOf(WordOf(s));
    TopRegister(WordOf(s));
  }

  lemma TopRegister(inst: Word)
    ensures inst % 0x4000 == 0x3117 ==> !R.Linked(R.Rd(inst))
  {
    SpecialFieldsOf(inst);
  }

  /**
   Encoding a real pair: the second four bytes become the pair's target, the highest first, and the first four an
   `AUIPC` into `x2` that carries the rest of the second instruction.
   */
  lemma PairEncoded(s: seq<Byte>, pc: int)
    requires |s| >= 8 && RealPair(s)
    ensures var head := R.Head(s, pc, true);
      && |head| == 8
      && Same32(Big(head[4..]), PairTarget(WordOf(s), WordOf(s[4..]), pc))
      && WordOf(head) % 0x1000 == 0x117 && WordOf(head) / 0x1000 == WordOf(s[4..]) % 0x10_0000
  {
    HeadPair(s, pc, true);
    WordsAt(s);
    var inst, b, inst2 := WordOf(s), s[4..8], WordOf(s[4..]);
    var first, second := R.First(inst, b, pc, true), R.Second(inst, b, pc, true);
    var head := R.Head(s, pc, true);
    assert head == StoreLe(first) + second;
    WordsAt(head);
    HeadTail(StoreLe(first), second);
    assert head[..4] == StoreLe(first) && head[4..8] == second;
    hide R.Head, R.PairBytes, LoadLe, LoadBe, StoreLe, StoreBe, WordOf, Big, RealPair, SpecialPair;
    assert first == R.Special(inst2) && second == StoreBe(R.Target(inst, inst2, pc));
    R.SpecialFields(inst2);
    SpecialLow(inst2);
    TargetIs(inst, inst2, pc);
  }

  lemma SpecialLow(inst2: Word)
    ensures R.Special(inst2) % 0x1000 == 0x117
  {
    DivModUnique(R.Special(inst2), 0x1000, inst2 % 0x10_0000, 0x117);
  }

  lemma TargetIs(inst: Word, inst2: Word, pc: int)
    ensures Same32(R.Target(inst, inst2, pc), PairTarget(inst, inst2, pc))
  {
    var x := PairTarget(inst, inst2, pc);
    assert R.Upper(inst) == UpperImmediate(inst);
    assert R.Target(inst, inst2, pc) == Wrap(x);
    assert Wrap(x) - x == (-(x / 0x1_0000_0000)) * 0x1_0000_0000;
    Multiple(-(x / 0x1_0000_0000), 0x1_0000_0000);
  }

  /** Decoding a converted pair: a real one, with the same register and rest, that stands for the address stored. */
  lemma PairDecoded(s: seq<Byte>, pc: int)
    requires |s| >= 8 && SpecialPair(s)
    ensures var head := R.Head(s, pc, false);
      && |head| == 8 && RealPair(head)
      && Same32(PairTarget(WordOf(head), WordOf(head[4..]), pc), Big(s[4..]))
      && Dest(WordOf(head)) == WordOf(s) / 0x800_0000
      && WordOf(head[4..]) % 0x10_0000 == WordOf(s) / 0x1000
  {
    HeadPair(s, pc, false);
    WordsAt(s);
    var inst, b := WordOf(s), s[4..8];
    var first, second := R.First(inst, b, pc, false), R.Second(inst, b, pc, false);
    var head := R.Head(s, pc, false);
    assert head == StoreLe(first) + second;
    WordsAt(head);
    HeadTail(StoreLe(first), second);
    assert head[..4] == StoreLe(first) && head[4..8] == second;
    var addr: int := Wrap(LoadBe(b) - pc);
    hide R.Head, R.PairBytes, LoadLe, LoadBe, StoreLe, StoreBe, WordOf, Big, SpecialPair;
    var c := R.Carried(inst, addr);
    assert first == R.Auipc(inst / 0x800_0000, Wrap(addr + 0x800)) && second == StoreLe(c);
    R.AuipcFields(inst / 0x800_0000, Wrap(addr + 0x800));
    R.CarriedFields(inst, addr);
    R.TargetOf(first, c, addr, pc);
    TargetIs(first, c, pc);
    R.WrapBack(LoadBe(b), pc);
    SameBack(R.Target(first, c, pc), PairTarget(first, c, pc), LoadBe(b));
  }

  /**
   Encoding what only looks converted: a real pair into the register it names, with the rest and the low bits of the
   second word exchanged, no address being involved.
   */
  lemma FakeEncoded(s: seq<Byte>, pc: int)
    requires |s| >= 8 && SpecialPair(s)
    ensures var head, inst, word := R.Head(s, pc, true), WordOf(s), WordOf(s[4..]);
      && |head| == 8
      && Opcode(WordOf(head)) == 0x17 && Dest(WordOf(head)) == inst / 0x800_0000
      && WordOf(head) / 0x1000 == word / 0x1000
      && WordOf(head[4..]) == inst / 0x1000 + 0x10_0000 * (word % 0x1000)
  {
    HeadPair(s, pc, true);
    WordsAt(s);
    var inst, b, word := WordOf(s), s[4..8], WordOf(s[4..]);
    var first, second := R.First(inst, b, pc, true), R.Second(inst, b, pc, true);
    var head := R.Head(s, pc, true);
    assert head == StoreLe(first) + second;
    WordsAt(head);
    HeadTail(StoreLe(first), second);
    assert head[..4] == StoreLe(first) && head[4..8] == second;
    hide R.Head, R.PairBytes, LoadLe, LoadBe, StoreLe, StoreBe, WordOf, Big, SpecialPair;
    assert first == R.Auipc(inst / 0x800_0000, word) && second == StoreLe(R.Carried(inst, word));
    R.AuipcFields(inst / 0x800_0000, word);
  }

  /** Decoding a real pair, which the encoder leaves only of one that looked converted: the exchange undone. */
  lemma FakeDecoded(s: seq<Byte>, pc: int)
    requires |s| >= 8 && RealPair(s)
    ensures var head, inst, word := R.Head(s, pc, false), WordOf(s), WordOf(s[4..]);
      && |head| == 8
      && WordOf(head) % 0x1000 == 0x117 && WordOf(head) / 0x1000 == word % 0x10_0000
      && WordOf(head[4..]) == inst / 0x1000 * 0x1000 + word / 0x10_0000
  {
    HeadPair(s, pc, false);
    WordsAt(s);
    var inst, b, word := WordOf(s), s[4..8], WordOf(s[4..]);
    var first, second := R.First(inst, b, pc, false), R.Second(inst, b, pc, false);
    var head := R.Head(s, pc, false);
    assert head == StoreLe(first) + second;
    WordsAt(head);
    HeadTail(StoreLe(first), second);
    assert head[..4] == StoreLe(first) && head[4..8] == second;
    hide R.Head, R.PairBytes, LoadLe, LoadBe, StoreLe, StoreBe, WordOf, Big, RealPair, SpecialPair;
    assert first == R.Special(word) && second == StoreLe(R.Merge(inst, word));
    R.SpecialFields(word);
    SpecialLow(word);
  }

  lemma SameBack(a: int, x: int, y: int)
    requires Same32(a, x) && a == y
    ensures Same32(x, y)
  {
    var k := (a - x) / 0x1_0000_0000;
    assert x - y == (-k) * 0x1_0000_0000;
    Multiple(-k, 0x1_0000_0000);
  }

  /** Everything else stays as it is. */
  lemma OtherKept(s: seq<Byte>, pc: int, encode: bool)
    requires |s| >= 8 && !R.IsJal(s) && !RealPair(s) && !SpecialPair(s)
    ensures R.Head(s, pc, encode) <= s
  {
    HeadPair(s, pc, encode);
    WordsAt(s);
    hide WordOf, LoadLe, RealPair, SpecialPair, R.Rewrites;
  }
}
