/**
 The RISC-V branch converter, stated on values.

 `JAL` through `x1`/`x5` keeps its opcode and register nibble and gets its target in plain bit order.  An `AUIPC`
 whose next instruction uses the same register becomes a "special" `AUIPC` through `x2`; an input that already
 looks special is swapped into a "fake" pair, which is how the decoder tells the two apart.
 */
module RiscVSpec {
  import opened Words

  // ----- instruction fields

  function Rd(inst: Word): int { inst / 0x80 % 0x20 }

  function Rs1(inst: Word): int { inst / 0x8000 % 0x20 }

  /** The register is neither `x0` nor `x2`. */
  predicate Linked(r: int) { r != 0 && r != 2 }

  /** `inst2` is a 32-bit instruction that reads the register `auipc` writes. */
  predicate IsPair(auipc: Word, inst2: Word) {
    inst2 % 4 == 3 && Rs1(inst2) == Rd(auipc)
  }

  /** `auipc` could be a converted one: `rd` is `x2`, and its top bits name a register other than `x0`/`x2`. */
  predicate IsSpecial(auipc: Word) {
    auipc % 0x4000 == 0x3117 && Linked(auipc / 0x800_0000)
  }

  /** The source's one-comparison test for a pair reads exactly these two fields. */
  lemma PairTest(auipc: bv32, inst2: bv32)
    ensures ((auipc << 8) ^ (inst2 - 3)) & 0xF8003 != 0
      <==> !(inst2 & 0x3 == 3 && (inst2 >> 15) & 0x1F == (auipc >> 7) & 0x1F)
  {
  }

  /** The source's one-comparison test for a special `AUIPC` likewise. */
  lemma SpecialTest(auipc: bv32)
    ensures (auipc - 0x3117) << 18 >= (auipc >> 27) & 0x1D
      <==> !(auipc & 0x3FFF == 0x3117 && auipc >> 27 != 0 && auipc >> 27 != 2)
  {
  }

  // ----- JAL

  predicate IsJal(s: seq<Byte>)
    requires |s| >= 2
  {
    s[0] == 0xEF && s[1] % 2 == 0 && s[1] / 4 % 4 == 0
  }

  /** Half the offset in an unconverted `JAL`, whose bits are scattered over three bytes. */
  function JalOffset(b1: Byte, b2: Byte, b3: Byte): (j: int)
    ensures 0 <= j < 0x10_0000
  {
    var x1: int, x2: int, x3: int := b1, b2, b3;
    x2 / 0x20 + 8 * (x3 % 0x80) + 0x400 * (x2 / 0x10 % 2) + 0x800 * (x1 / 0x10) + 0x8000 * (x2 % 0x10)
    + 0x8_0000 * (x3 / 0x80)
  }

  /** The three bytes with half-offset `j` scattered over them; the register nibble is `low`. */
  function JalScatter(low: int, j: int): (b: seq<Byte>)
    requires 0 <= low < 0x10 && 0 <= j < 0x10_0000
    ensures |b| == 3
  {
    [low + 0x10 * (j / 0x800 % 0x10),
     j / 0x8000 % 0x10 + 0x10 * (j / 0x400 % 2) + 0x20 * (j % 8),
     j / 8 % 0x80 + 0x80 * (j / 0x8_0000)]
  }

  /** Half the address in a converted `JAL`, most significant bits first. */
  function JalAddress(b1: Byte, b2: Byte, b3: Byte): (j: int)
    ensures 0 <= j < 0x10_0000
  {
    var x1: int, x2: int, x3: int := b1, b2, b3;
    0x1_0000 * (x1 / 0x10) + 0x100 * x2 + x3
  }

  function JalDense(low: int, j: int): (b: seq<Byte>)
    requires 0 <= low < 0x10 && 0 <= j < 0x10_0000
    ensures |b| == 3
  {
    [low + 0x10 * (j / 0x1_0000), j / 0x100 % 0x100, j % 0x100]
  }

  /** The mixed-radix digits of a half-offset: 3, 7, 1, 4, 4 and 1 bits. */
  lemma OffsetDigits(j: int, c: int, d: int, e: int, f: int, g: int, h: int)
    requires 0 <= c < 8 && 0 <= d < 0x80 && 0 <= e < 2 && 0 <= f < 0x10 && 0 <= g < 0x10 && 0 <= h < 2
    requires j == c + 8 * d + 0x400 * e + 0x800 * f + 0x8000 * g + 0x8_0000 * h
    ensures j % 8 == c && j / 8 % 0x80 == d && j / 0x400 % 2 == e
    ensures j / 0x800 % 0x10 == f && j / 0x8000 % 0x10 == g && j / 0x8_0000 == h
  {
    DivModUnique(j, 8, d + 0x80 * e + 0x100 * f + 0x1000 * g + 0x1_0000 * h, c);
    DivModUnique(j / 8, 0x80, e + 2 * f + 0x20 * g + 0x200 * h, d);
    DivModUnique(j, 0x400, e + 2 * f + 0x20 * g + 0x200 * h, c + 8 * d);
    DivModUnique(j / 0x400, 2, f + 0x10 * g + 0x100 * h, e);
    DivModUnique(j, 0x800, f + 0x10 * g + 0x100 * h, c + 8 * d + 0x400 * e);
    DivModUnique(j / 0x800, 0x10, g + 0x10 * h, f);
    DivModUnique(j, 0x8000, g + 0x10 * h, c + 8 * d + 0x400 * e + 0x800 * f);
    DivModUnique(j / 0x8000, 0x10, h, g);
    DivModUnique(j, 0x8_0000, h, c + 8 * d + 0x400 * e + 0x800 * f + 0x8000 * g);
  }

  lemma OffsetSplit(j: int)
    requires 0 <= j < 0x10_0000
    ensures j == j % 8 + 8 * (j / 8 % 0x80) + 0x400 * (j / 0x400 % 2) + 0x800 * (j / 0x800 % 0x10)
                 + 0x8000 * (j / 0x8000 % 0x10) + 0x8_0000 * (j / 0x8_0000)
  {
    var a := j / 8;
    var b := a / 0x80;
    var c := b / 2;
    var d := c / 0x10;
    OffsetDigits(j, j % 8, a % 0x80, b % 2, c % 0x10, d % 0x10, d / 0x10);
  }

  lemma JalScatterOffset(b1: Byte, b2: Byte, b3: Byte)
    ensures JalScatter(b1 % 0x10, JalOffset(b1, b2, b3)) == [b1, b2, b3]
  {
    var x1: int, x2: int, x3: int := b1, b2, b3;
    OffsetDigits(JalOffset(b1, b2, b3), x2 / 0x20, x3 % 0x80, x2 / 0x10 % 2, x1 / 0x10, x2 % 0x10, x3 / 0x80);
    assert x2 / 0x20 == x2 / 0x10 / 2;
  }

  lemma JalOffsetScatter(low: int, j: int)
    requires 0 <= low < 0x10 && 0 <= j < 0x10_0000
    ensures var b := JalScatter(low, j); b[0] % 0x10 == low && JalOffset(b[0], b[1], b[2]) == j
  {
    var c, d, e, f, g, h := j % 8, j / 8 % 0x80, j / 0x400 % 2, j / 0x800 % 0x10, j / 0x8000 % 0x10, j / 0x8_0000;
    OffsetSplit(j);
    DivModUnique(low + 0x10 * f, 0x10, f, low);
    DivModUnique(g + 0x10 * e + 0x20 * c, 0x10, e + 2 * c, g);
    DivModUnique(e + 2 * c, 2, c, e);
    DivModUnique(g + 0x10 * e + 0x20 * c, 0x20, c, g + 0x10 * e);
    DivModUnique(d + 0x80 * h, 0x80, h, d);
  }

  lemma JalDenseInverse(b1: Byte, b2: Byte, b3: Byte, low: int, j: int)
    requires 0 <= low < 0x10 && 0 <= j < 0x10_0000
    ensures JalDense(b1 % 0x10, JalAddress(b1, b2, b3)) == [b1, b2, b3]
    ensures var b := JalDense(low, j); b[0] % 0x10 == low && JalAddress(b[0], b[1], b[2]) == j
  {
    var x1: int, x2: int, x3: int := b1, b2, b3;
    var k := JalAddress(b1, b2, b3);
    DivModUnique(k, 0x100, 0x100 * (x1 / 0x10) + x2, x3);
    DivModUnique(k / 0x100, 0x100, x1 / 0x10, x2);
    DivModUnique(k, 0x1_0000, x1 / 0x10, 0x100 * x2 + x3);
    DivModUnique(low + 0x10 * (j / 0x1_0000), 0x10, j / 0x1_0000, low);
    assert j / 0x1_0000 == j / 0x100 / 0x100;
  }

  /** The converted offset or address: bits 1 to 20 of the 32-bit sum. */
  function Turn(j: int, pc: int, encode: bool): (r: int)
    ensures 0 <= r < 0x10_0000
  {
    Wrap(2 * j + (if encode then pc else -pc)) / 2 % 0x10_0000
  }

  lemma TurnEven(j: int, pc: int, encode: bool)
    requires pc % 2 == 0
    ensures Turn(j, pc, encode) == (j + (if encode then pc / 2 else -(pc / 2))) % 0x10_0000
  {
    var k := j + (if encode then pc / 2 else -(pc / 2));
    DivModUnique(2 * k, 0x1_0000_0000, k / 0x8000_0000, 2 * (k % 0x8000_0000));
    ModMod(k, 0x10_0000, 0x800);
  }

  lemma TurnInverse(j: int, pc: int, encode: bool)
    requires pc % 2 == 0 && 0 <= j < 0x10_0000
    ensures Turn(Turn(j, pc, encode), pc, !encode) == j
  {
    var k := if encode then pc / 2 else -(pc / 2);
    TurnEven(j, pc, encode);
    TurnEven((j + k) % 0x10_0000, pc, !encode);
    ModShift((j + k) % 0x10_0000, j + k, -k, 0x10_0000);
  }

  lemma TurnHalf(j: int, pc: int, encode: bool)
    requires pc % 2 == 1
    ensures Turn(j, pc, encode) == (j + (if encode then pc / 2 else -(pc / 2) - 1)) % 0x10_0000
  {
    var k := j + (if encode then pc / 2 else -(pc / 2) - 1);
    DivModUnique(2 * k + 1, 0x1_0000_0000, k / 0x8000_0000, 2 * (k % 0x8000_0000) + 1);
    ModMod(k, 0x10_0000, 0x800);
  }

  /** The address field drops the lowest bit, so an offset survives both directions exactly at even addresses. */
  lemma TurnBack(j: int, pc: int, encode: bool)
    requires 0 <= j < 0x10_0000
    ensures Turn(Turn(j, pc, encode), pc, !encode) == j <==> pc % 2 == 0
  {
    if pc % 2 == 0 {
      TurnInverse(j, pc, encode);
    } else {
      TurnLoses(j, pc, encode);
      OneLess(j);
    }
  }

  lemma OneLess(j: int)
    requires 0 <= j < 0x10_0000
    ensures (j - 1) % 0x10_0000 != j
  {
  }

  /** At an odd address every offset comes back one too small. */
  lemma TurnLoses(j: int, pc: int, encode: bool)
    requires pc % 2 == 1
    ensures Turn(Turn(j, pc, encode), pc, !encode) == (j - 1) % 0x10_0000
  {
    hide Turn;
    var k := if encode then pc / 2 else -(pc / 2) - 1;
    TurnHalf(j, pc, encode);
    TurnHalf((j + k) % 0x10_0000, pc, !encode);
    ModShift((j + k) % 0x10_0000, j + k, -k - 1, 0x10_0000);
  }

  function JalBytes(s: seq<Byte>, pc: int, encode: bool): (b: seq<Byte>)
    requires |s| >= 4
    ensures |b| == 4
  {
    [s[0]] +
    if encode then JalDense(s[1] % 0x10, Turn(JalOffset(s[1], s[2], s[3]), pc, true))
    else JalScatter(s[1] % 0x10, Turn(JalAddress(s[1], s[2], s[3]), pc, false))
  }

  // ----- AUIPC pairs, as the two words (inst, word) in little-endian order

  function Upper(w: Word): Word { w - w % 0x1000 }

  /** The absolute address of a real pair at `pc`; the second instruction's 12-bit immediate is signed. */
  function Target(inst: Word, inst2: Word, pc: int): Word {
    var upper: int := Upper(inst);
    Wrap(upper + inst2 / 0x10_0000 - (if inst2 >= 0x8000_0000 then 0x1000 else 0) + pc)
  }

  /** The `AUIPC` through `x2` that carries the low 20 bits of `inst2`. */
  function Special(inst2: Word): Word {
    0x117 + 0x1000 * (inst2 % 0x10_0000)
  }

  /** The instruction whose low 20 bits a special `AUIPC` carries; its top 12 bits are the low bits of `low`. */
  function Carried(special: Word, low: Word): Word {
    var upper: int := special / 0x1000;
    upper + 0x10_0000 * (low % 0x1000)
  }

  /** An `AUIPC` through `rd` with the upper bits of `w`. */
  function Auipc(rd: int, w: Word): Word
    requires 0 <= rd < 0x20
  {
    var upper: int := Upper(w);
    0x17 + 0x80 * rd + upper
  }

  /** Does the pair at the head of the stream get rewritten? */
  predicate Rewrites(inst: Word, inst2: Word) {
    if Linked(Rd(inst)) then IsPair(inst, inst2) else IsSpecial(inst)
  }

  /** The first word of a rewritten pair, where `b` holds the bytes of the second. */
  function First(inst: Word, b: seq<Byte>, pc: int, encode: bool): Word
    requires |b| == 4
  {
    if Linked(Rd(inst)) then Special(LoadLe(b))
    else if encode then Auipc(inst / 0x800_0000, LoadLe(b))
    else Auipc(inst / 0x800_0000, Wrap(Wrap(LoadBe(b) - pc) + 0x800))
  }

  /** The second four bytes of a rewritten pair: an absolute address is stored big-endian. */
  function Second(inst: Word, b: seq<Byte>, pc: int, encode: bool): (r: seq<Byte>)
    requires |b| == 4
    ensures |r| == 4
  {
    if Linked(Rd(inst)) then
      if encode then StoreBe(Target(inst, LoadLe(b), pc)) else StoreLe(Merge(inst, LoadLe(b)))
    else
      StoreLe(Carried(inst, if encode then LoadLe(b) else Wrap(LoadBe(b) - pc)))
  }

  function PairBytes(s: seq<Byte>, pc: int, encode: bool): (b: seq<Byte>)
    requires |s| >= 8
    ensures |b| == 8
  {
    StoreLe(First(LoadLe(s[..4]), s[4..8], pc, encode)) + Second(LoadLe(s[..4]), s[4..8], pc, encode)
  }

  /** The upper bits of one word above the top twelve bits of another. */
  function Merge(w: Word, v: Word): Word {
    var upper: int := Upper(w);
    upper + v / 0x10_0000
  }

  // ----- the scan

  /** The bytes that become final at the head of `s`: an instruction, converted or not, of 2, 4, 6 or 8 bytes. */
  function Head(s: seq<Byte>, pc: int, encode: bool): (r: seq<Byte>)
    requires |s| >= 8
    ensures |r| == 2 || |r| == 4 || |r| == 6 || |r| == 8
  {
    if s[0] == 0xEF then
      if IsJal(s) then JalBytes(s, pc, encode) else s[..2]
    else if s[0] % 0x80 == 0x17 then
      var inst, inst2 := LoadLe(s[..4]), LoadLe(s[4..8]);
      if Rewrites(inst, inst2) then PairBytes(s, pc, encode)
      else if Linked(Rd(inst)) then s[..6]
      else s[..4]
    else s[..2]
  }

  function Scan(s: seq<Byte>, pc: int, encode: bool): (out: seq<Byte>)
    ensures |out| <= |s|
    ensures |s| >= 8 ==> |s| - 7 <= |out|
    decreases |s|
  {
    if |s| < 8 then []
    else
      var head := Head(s, pc, encode);
      head + Scan(s[|head|..], pc + |head|, encode)
  }

  function Filter(s: seq<Byte>, pc: int, encode: bool): (r: seq<Byte>)
    ensures |r| == |s|
  {
    var out := Scan(s, pc, encode);
    out + s[|out|..]
  }

  // ----- the pair arithmetic inverts

  lemma AuipcFields(rd: int, w: Word)
    requires 0 <= rd < 0x20
    ensures var a := Auipc(rd, w);
      a % 0x80 == 0x17 && Rd(a) == rd && Upper(a) == Upper(w) && a / 0x1000 == w / 0x1000
  {
    var u := w / 0x1000;
    DivModUnique(Auipc(rd, w), 0x80, rd + 0x20 * u, 0x17);
    DivModUnique(rd + 0x20 * u, 0x20, u, rd);
    DivModUnique(Auipc(rd, w), 0x1000, u, 0x17 + 0x80 * rd);
  }

  lemma AuipcUnique(inst: Word, w: Word)
    requires inst % 0x80 == 0x17 && Upper(w) == Upper(inst)
    ensures Auipc(Rd(inst), w) == inst
  {
    assert inst / 0x1000 == inst / 0x80 / 0x20;
  }

  lemma SpecialFields(inst2: Word)
    ensures var a := Special(inst2);
      && a % 0x80 == 0x17 && Rd(a) == 2
      && a / 0x800_0000 == Rs1(inst2)
      && a / 0x1000 == inst2 % 0x10_0000
      && (a % 0x4000 == 0x3117 <==> inst2 % 4 == 3)
  {
    var l := inst2 % 0x10_0000;
    var a: int := Special(inst2);
    DivModUnique(a, 0x80, 2 + 0x20 * l, 0x17);
    DivModUnique(2 + 0x20 * l, 0x20, l, 2);
    DivModUnique(a, 0x1000, l, 0x117);
    DivModUnique(a, 0x800_0000, l / 0x8000, 0x117 + 0x1000 * (l % 0x8000));
    DivModUnique(a, 0x4000, l / 4, 0x117 + 0x1000 * (l % 4));
    ModMod(inst2, 4, 0x4_0000);
    DivModUnique(inst2 / 0x8000, 0x20, inst2 / 0x10_0000, l / 0x8000);
  }

  lemma CarriedFields(special: Word, low: Word)
    ensures var c := Carried(special, low);
      && c % 0x10_0000 == special / 0x1000
      && c / 0x10_0000 == low % 0x1000
      && c % 4 == special / 0x1000 % 4
      && Rs1(c) == special / 0x800_0000
  {
    var u: int := special / 0x1000;
    var c: int := Carried(special, low);
    DivModUnique(c, 0x10_0000, low % 0x1000, u);
    ModMod(c, 4, 0x4_0000);
    DivModUnique(c, 0x8000, u / 0x8000 + 0x20 * (low % 0x1000), u % 0x8000);
    DivModUnique(u / 0x8000 + 0x20 * (low % 0x1000), 0x20, low % 0x1000, u / 0x8000);
    assert u / 0x8000 == special / 0x800_0000;
  }

  lemma SpecialUnique(inst: Word, c: Word)
    requires inst % 0x4000 == 0x3117 && c % 0x10_0000 == inst / 0x1000
    ensures Special(c) == inst
  {
    ModMod(inst, 0x1000, 4);
  }

  lemma CarriedUnique(inst2: Word, special: Word, low: Word)
    requires special / 0x1000 == inst2 % 0x10_0000 && low % 0x1000 == inst2 / 0x10_0000
    ensures Carried(special, low) == inst2
  {
  }

  lemma MergeFields(w: Word, v: Word)
    ensures Upper(Merge(w, v)) == Upper(w) && Merge(w, v) % 0x1000 == v / 0x10_0000
  {
    DivModUnique(Merge(w, v), 0x1000, w / 0x1000, v / 0x10_0000);
  }

  /** The decoder reads the signed immediate and the upper bits back out of an absolute address. */
  lemma TargetInverse(inst: Word, inst2: Word, pc: int)
    ensures var addr := Wrap(Target(inst, inst2, pc) - pc);
      addr % 0x1000 == inst2 / 0x10_0000 && Upper(Wrap(addr + 0x800)) == Upper(inst)
  {
    hide Target, Wrap, Upper;
    var q: int, t: int := inst / 0x1000, inst2 / 0x10_0000;
    var sign := if inst2 >= 0x8000_0000 then 1 else 0;
    var sum := 0x1000 * (q - sign) + t;
    TargetSum(inst, inst2, pc);
    assert inst2 < 0x1_0000_0000 && (t >= 0x800 <==> sign == 1);
    LowField(sum, q - sign, t);
    UpperField(inst, sum, q);
  }

  lemma LowField(sum: int, q: int, t: int)
    requires sum == 0x1000 * q + t && 0 <= t < 0x1000
    ensures Wrap(sum) % 0x1000 == t
  {
    DivModUnique(sum, 0x1000, q, t);
    ModMod(sum, 0x1000, 0x10_0000);
  }

  lemma UpperField(inst: Word, sum: int, q: int)
    requires q == inst / 0x1000 && 0x1000 * q <= sum + 0x800 < 0x1000 * q + 0x1000
    ensures Upper(Wrap(Wrap(sum) + 0x800)) == Upper(inst)
  {
    var x := sum + 0x800;
    ModShift(Wrap(sum), sum, 0x800, 0x1_0000_0000);
    assert Wrap(Wrap(sum) + 0x800) == x by {
      DivModUnique(x, 0x1_0000_0000, 0, x);
    }
    DivModUnique(x, 0x1000, q, x - 0x1000 * q);
  }

  lemma TargetSum(inst: Word, inst2: Word, pc: int)
    ensures Wrap(Target(inst, inst2, pc) - pc) ==
      Wrap(0x1000 * (inst / 0x1000 - if inst2 >= 0x8000_0000 then 1 else 0) + inst2 / 0x10_0000)
  {
    var sum := 0x1000 * (inst / 0x1000 - if inst2 >= 0x8000_0000 then 1 else 0) + inst2 / 0x10_0000;
    assert Target(inst, inst2, pc) == Wrap(sum + pc);
    ModShift(Wrap(sum + pc), sum + pc, -pc, 0x1_0000_0000);
  }

  /** The encoder rebuilds the address from the fields the decoder made of it. */
  lemma TargetOf(a: Word, c: Word, addr: Word, pc: int)
    requires Upper(a) == Upper(Wrap(addr + 0x800)) && c / 0x10_0000 == addr % 0x1000
    ensures Target(a, c, pc) == Wrap(addr + pc)
  {
    var q: int, t: int := addr / 0x1000, addr % 0x1000;
    assert c >= 0x8000_0000 <==> t >= 0x800;
    var carry := if t >= 0x800 then 1 else 0;
    DivModUnique(addr + 0x800, 0x1000, q + carry, t + 0x800 - 0x1000 * carry);
    ModMod(addr + 0x800, 0x1000, 0x10_0000);
    var k := (addr + 0x800) / 0x1_0000_0000;
    assert Upper(a) == 0x1000 * (q + carry) - k * 0x1_0000_0000;
    assert Target(a, c, pc) == Wrap(addr + pc - k * 0x1_0000_0000);
    DivModUnique(addr + pc - k * 0x1_0000_0000, 0x1_0000_0000, (addr + pc) / 0x1_0000_0000 - k, Wrap(addr + pc));
  }

  lemma WordsOf(inst: Word, b: seq<Byte>, pc: int, encode: bool)
    requires |b| == 4
    ensures var first, second := First(inst, b, pc, encode), Second(inst, b, pc, encode);
      var addr := Wrap(LoadBe(b) - pc);
      if Linked(Rd(inst)) then
        && first == Special(LoadLe(b))
        && second == if encode then StoreBe(Target(inst, LoadLe(b), pc)) else StoreLe(Merge(inst, LoadLe(b)))
      else
        && first == Auipc(inst / 0x800_0000, if encode then LoadLe(b) else Wrap(addr + 0x800))
        && second == StoreLe(Carried(inst, if encode then LoadLe(b) else addr))
  {
  }

  /** A real pair becomes a special one and back (`encode`), and a fake pair a special-looking one and back. */
  lemma LinkedInverse(inst: Word, b: seq<Byte>, pc: int, encode: bool)
    requires |b| == 4 && inst % 0x80 == 0x17 && Linked(Rd(inst)) && IsPair(inst, LoadLe(b))
    ensures var first, second := First(inst, b, pc, encode), Second(inst, b, pc, encode);
      && first % 0x80 == 0x17 && !Linked(Rd(first)) && IsSpecial(first)
      && First(first, second, pc, !encode) == inst
      && Second(first, second, pc, !encode) == b
  {
    hide First, Second, LoadLe, StoreLe, LoadBe, StoreBe, Target, Carried, Auipc, Special, Upper, Merge, Wrap, Rd, Rs1;
    var inst2 := LoadLe(b);
    var first, second := First(inst, b, pc, encode), Second(inst, b, pc, encode);
    SpecialFields(inst2);
    StoreLoadLe(b);
    WordsOf(inst, b, pc, encode);
    WordsOf(first, second, pc, !encode);
    if encode {
      var addr: int := Wrap(Target(inst, inst2, pc) - pc);
      TargetInverse(inst, inst2, pc);
      AuipcUnique(inst, Wrap(addr + 0x800));
      CarriedUnique(inst2, first, addr);
    } else {
      var low := Merge(inst, inst2);
      MergeFields(inst, inst2);
      AuipcUnique(inst, low);
      CarriedUnique(inst2, first, low);
    }
  }

  /** A special pair becomes a real one and back (`!encode`), and a special-looking pair a fake one and back. */
  lemma SpecialInverse(inst: Word, b: seq<Byte>, pc: int, encode: bool)
    requires |b| == 4 && inst % 0x80 == 0x17 && !Linked(Rd(inst)) && IsSpecial(inst)
    ensures var first, second := First(inst, b, pc, encode), Second(inst, b, pc, encode);
      && first % 0x80 == 0x17 && Linked(Rd(first)) && IsPair(first, LoadLe(second))
      && First(first, second, pc, !encode) == inst
      && Second(first, second, pc, !encode) == b
  {
    hide First, Second, LoadLe, StoreLe, LoadBe, StoreBe, Target, Carried, Auipc, Special, Upper, Merge, Wrap, Rd, Rs1;
    var addr: int := Wrap(LoadBe(b) - pc);
    var low: Word := if encode then LoadLe(b) else addr;
    var first, second := First(inst, b, pc, encode), Second(inst, b, pc, encode);
    var c := Carried(inst, low);
    StoreLoadLe(b);
    StoreLoadBe(b);
    CarriedFields(inst, low);
    AuipcFields(inst / 0x800_0000, if encode then low else Wrap(addr + 0x800));
    SpecialCarries(inst);
    SpecialUnique(inst, c);
    WordsOf(inst, b, pc, encode);
    WordsOf(first, second, pc, !encode);
    if encode {
      MergeUnique(low, first, c);
    } else {
      TargetOf(first, c, addr, pc);
      WrapBack(LoadBe(b), pc);
    }
  }

  lemma SpecialCarries(inst: Word)
    requires inst % 0x4000 == 0x3117
    ensures inst / 0x1000 % 4 == 3
  {
    DivModUnique(inst / 0x1000, 4, inst / 0x4000, 3);
  }

  lemma MergeUnique(w: Word, a: Word, c: Word)
    requires Upper(a) == Upper(w) && c / 0x10_0000 == w % 0x1000
    ensures Merge(a, c) == w
  {
  }

  lemma WrapBack(w: Word, pc: int)
    ensures Wrap(Wrap(w - pc) + pc) == w
  {
    ModShift(Wrap(w - pc), w - pc, pc, 0x1_0000_0000);
  }

  lemma FirstByte(b: seq<Byte>)
    requires |b| == 4
    ensures LoadLe(b) % 0x80 == b[0] % 0x80
  {
    var w: int, b0: int, b1: int, b2: int, b3: int := LoadLe(b), b[0], b[1], b[2], b[3];
    DivModUnique(w, 0x80, b0 / 0x80 + 2 * b1 + 0x200 * b2 + 0x2_0000 * b3, b0 % 0x80);
  }

  lemma LoadTwo(a: seq<Byte>, b: seq<Byte>, t: seq<Byte>)
    requires |a| == 4 && |b| == 4
    ensures (a + b + t)[..4] == a && (a + b + t)[4..8] == b && (a + b + t)[0] == a[0]
  {
  }

  /** A rewritten pair is restored by the rewrite in the other direction. */
  lemma PairInverse(s: seq<Byte>, pc: int, encode: bool, t: seq<Byte>)
    requires |s| >= 8 && s[0] % 0x80 == 0x17
    requires Rewrites(LoadLe(s[..4]), LoadLe(s[4..8]))
    ensures var y := PairBytes(s, pc, encode) + t;
      && y[0] % 0x80 == 0x17
      && Rewrites(LoadLe(y[..4]), LoadLe(y[4..8]))
      && PairBytes(y, pc, !encode) == s[..8]
  {
    var inst, b := LoadLe(s[..4]), s[4..8];
    var first, second := First(inst, b, pc, encode), Second(inst, b, pc, encode);
    FirstByte(s[..4]);
    FirstByte(StoreLe(first));
    StoreLoadLe(s[..4]);
    LoadTwo(StoreLe(first), second, t);
    assert s[..8] == s[..4] + s[4..8];
    hide First, Second, Rd, Linked, IsPair, IsSpecial, LoadLe, StoreLe;
    if Linked(Rd(inst)) {
      LinkedInverse(inst, b, pc, encode);
    } else {
      SpecialInverse(inst, b, pc, encode);
    }
  }

  lemma JalInverse(s: seq<Byte>, pc: int, encode: bool, t: seq<Byte>)
    requires |s| >= 4 && IsJal(s) && pc % 2 == 0
    ensures var y := JalBytes(s, pc, encode) + t;
      IsJal(y) && JalBytes(y, pc, !encode) == s[..4]
  {
    var low := s[1] % 0x10;
    var j := if encode then JalOffset(s[1], s[2], s[3]) else JalAddress(s[1], s[2], s[3]);
    var turned := Turn(j, pc, encode);
    TurnInverse(j, pc, encode);
    JalScatterOffset(s[1], s[2], s[3]);
    JalDenseInverse(s[1], s[2], s[3], low, turned);
    JalOffsetScatter(low, turned);
    NibbleBits(s[1], (JalBytes(s, pc, encode) + t)[1]);
    hide JalScatter, JalDense, JalOffset, JalAddress, Turn;
    assert s[..4] == [s[0]] + [s[1], s[2], s[3]];
  }

  lemma NibbleBits(a: Byte, b: Byte)
    requires a % 0x10 == b % 0x10
    ensures a % 2 == b % 2 && a / 4 % 4 == b / 4 % 4
  {
    ModMod(a, 2, 8);
    ModMod(b, 2, 8);
    MiddleBits(a);
    MiddleBits(b);
  }

  lemma MiddleBits(a: int)
    ensures a / 4 % 4 == a % 0x10 / 4
  {
    var q, r := a / 0x10, a % 0x10;
    DivModUnique(a, 4, 4 * q + r / 4, r % 4);
    DivModUnique(4 * q + r / 4, 4, q, r / 4);
  }

  /** The test fields of a pair lie below bit 20, so bytes after the sixth matter only by the sixth's low bits. */
  lemma PairLow(auipc: Word, v: seq<Byte>, w: seq<Byte>)
    requires |v| == 4 && |w| == 4
    requires v[0] == w[0] && v[1] == w[1] && v[2] % 0x80 == w[2] % 0x80
    ensures IsPair(auipc, LoadLe(v)) == IsPair(auipc, LoadLe(w))
  {
    LowFields(v);
    LowFields(w);
    ModMod(v[2], 0x10, 8);
    ModMod(w[2], 0x10, 8);
  }

  lemma LowFields(b: seq<Byte>)
    requires |b| == 4
    ensures LoadLe(b) % 4 == b[0] % 4
    ensures Rs1(LoadLe(b)) == b[1] / 0x80 + 2 * (b[2] % 0x10)
  {
    var w: int, b0: int, b1: int, b2: int, b3: int := LoadLe(b), b[0], b[1], b[2], b[3];
    DivModUnique(w, 4, b0 / 4 + 0x40 * b1 + 0x4000 * b2 + 0x40_0000 * b3, b0 % 4);
    DivModUnique(w, 0x8000, b1 / 0x80 + 2 * b2 + 0x200 * b3, b0 + 0x100 * (b1 % 0x80));
    DivModUnique(w / 0x8000, 0x20, b2 / 0x10 + 0x10 * b3, b1 / 0x80 + 2 * (b2 % 0x10));
  }

  /**
   One step is undone by the step in the other direction.  The bytes `t` that follow may differ from the input
   from the seventh bit of their first byte on; that is all an earlier test can have read.
   */
  lemma HeadInverse(s: seq<Byte>, pc: int, encode: bool, t: seq<Byte>)
    requires |s| >= 8 && (pc % 2 == 0 || !IsJal(s))
    requires var n := |Head(s, pc, encode)|;
      |t| == |s| - n && (|t| > 0 ==> t[0] % 0x80 == s[n] % 0x80)
    ensures var head := Head(s, pc, encode);
      var y := head + t;
      y[0] % 0x80 == s[0] % 0x80 && Head(y, pc, !encode) == s[..|head|]
  {
    var head := Head(s, pc, encode);
    var y := head + t;
    if s[0] == 0xEF {
      if IsJal(s) {
        JalInverse(s, pc, encode, t);
      }
    } else if s[0] % 0x80 == 0x17 {
      var inst := LoadLe(s[..4]);
      if Rewrites(inst, LoadLe(s[4..8])) {
        PairInverse(s, pc, encode, t);
      } else {
        assert y[..4] == s[..4];
        if Linked(Rd(inst)) {
          PairLow(inst, s[4..8], y[4..8]);
        }
      }
    }
  }

  lemma ScanStep(s: seq<Byte>, pc: int, encode: bool)
    ensures |s| < 8 ==> Scan(s, pc, encode) == []
    ensures |s| >= 8 ==>
      var head := Head(s, pc, encode);
      Scan(s, pc, encode) == head + Scan(s[|head|..], pc + |head|, encode)
  {
  }

  lemma FilterStep(s: seq<Byte>, pc: int, encode: bool)
    ensures |s| < 8 ==> Filter(s, pc, encode) == s
    ensures |s| >= 8 ==>
      var head := Head(s, pc, encode);
      Filter(s, pc, encode) == head + Filter(s[|head|..], pc + |head|, encode)
  {
    hide Head, Scan;
    ScanStep(s, pc, encode);
    if |s| >= 8 {
      var head := Head(s, pc, encode);
      var rest := Scan(s[|head|..], pc + |head|, encode);
      TailTail(s, |head|, |rest|);
      ConcatAssoc(head, rest, s[|head| + |rest|..]);
    }
  }

  /** The two directions are inverse at every even address, in lockstep over the same instruction boundaries. */
  lemma {:induction false} FilterInverse(s: seq<Byte>, pc: int, encode: bool)
    requires pc % 2 == 0
    ensures var y := Filter(s, pc, encode);
      && (|s| > 0 ==> y[0] % 0x80 == s[0] % 0x80)
      && Filter(y, pc, !encode) == s
      && |Scan(y, pc, !encode)| == |Scan(s, pc, encode)|
    decreases |s|
  {
    hide Head, Filter, Scan;
    var y := Filter(s, pc, encode);
    FilterStep(s, pc, encode);
    ScanStep(s, pc, encode);
    FilterStep(y, pc, !encode);
    ScanStep(y, pc, !encode);
    if |s| >= 8 {
      var head := Head(s, pc, encode);
      var t := Filter(s[|head|..], pc + |head|, encode);
      FilterInverse(s[|head|..], pc + |head|, encode);
      HeadInverse(s, pc, encode, t);
      HeadTail(head, t);
      TailConcat(s, [], |head|);
    }
  }

  // ----- odd addresses

  /** How many bytes become final at the head of `s`; neither address nor direction matters. */
  function HeadSize(s: seq<Byte>): (n: nat)
    requires |s| >= 8
    ensures 2 <= n <= 8
  {
    if s[0] == 0xEF then if IsJal(s) then 4 else 2
    else if s[0] % 0x80 == 0x17 then
      var inst := LoadLe(s[..4]);
      if Rewrites(inst, LoadLe(s[4..8])) then 8 else if Linked(Rd(inst)) then 6 else 4
    else 2
  }

  lemma HeadSizes(s: seq<Byte>, pc: int, encode: bool)
    requires |s| >= 8
    ensures |Head(s, pc, encode)| == HeadSize(s)
  {
    hide Rewrites, Linked, Rd, LoadLe, IsJal;
  }

  /** The scan comes to a `JAL` it converts. */
  predicate ReachesJal(s: seq<Byte>)
    decreases |s|
  {
    |s| >= 8 && (IsJal(s) || ReachesJal(s[HeadSize(s)..]))
  }

  /** At an odd address a `JAL` does not come back. */
  lemma JalLoses(s: seq<Byte>, pc: int, encode: bool, t: seq<Byte>)
    requires |s| >= 4 && IsJal(s) && pc % 2 == 1
    ensures var y := JalBytes(s, pc, encode) + t;
      IsJal(y) && JalBytes(y, pc, !encode) != s[..4]
  {
    var low := s[1] % 0x10;
    var j := if encode then JalOffset(s[1], s[2], s[3]) else JalAddress(s[1], s[2], s[3]);
    var turned := Turn(j, pc, encode);
    var back := Turn(turned, pc, !encode);
    TurnBack(j, pc, encode);
    JalDenseInverse(s[1], s[2], s[3], low, turned);
    JalOffsetScatter(low, turned);
    JalDenseInverse(s[1], s[2], s[3], low, back);
    JalOffsetScatter(low, back);
    NibbleBits(s[1], (JalBytes(s, pc, encode) + t)[1]);
    hide JalScatter, JalDense, JalOffset, JalAddress, Turn;
    var y := JalBytes(s, pc, encode) + t;
    var b := if encode then JalScatter(low, back) else JalDense(low, back);
    assert JalBytes(y, pc, !encode) == [s[0]] + b;
    assert b != [s[1], s[2], s[3]];
    assert s[..4] == [s[0]] + [s[1], s[2], s[3]];
    DifferAfter([s[0]], b, [s[1], s[2], s[3]]);
  }

  lemma DifferAfter(a: seq<Byte>, b: seq<Byte>, c: seq<Byte>)
    requires b != c
    ensures a + b != a + c
  {
    assert (a + b)[|a|..] == b && (a + c)[|a|..] == c;
  }

  /** Exactly which inputs survive both directions: all at an even address, those without a `JAL` at an odd one. */
  lemma {:induction false} FilterExact(s: seq<Byte>, pc: int, encode: bool)
    ensures Filter(Filter(s, pc, encode), pc, !encode) == s <==> pc % 2 == 0 || !ReachesJal(s)
    ensures |s| > 0 ==> Filter(s, pc, encode)[0] % 0x80 == s[0] % 0x80
    decreases |s|
  {
    hide Head, Filter, Scan, HeadSize, IsJal;
    if pc % 2 == 0 {
      FilterInverse(s, pc, encode);
    } else if |s| < 8 {
      FilterStep(s, pc, encode);
      FilterStep(s, pc, !encode);
    } else {
      var n := |Head(s, pc, encode)|;
      HeadSizes(s, pc, encode);
      FilterExact(s[n..], pc + n, encode);
      FilterStep(s, pc, encode);
      OddStep(s, pc, encode, Filter(s[n..], pc + n, encode));
    }
  }

  /** One step at an odd address: a `JAL` spoils the input, anything else leaves it to the rest. */
  lemma OddStep(s: seq<Byte>, pc: int, encode: bool, t: seq<Byte>)
    requires |s| >= 8 && pc % 2 == 1
    requires var n := |Head(s, pc, encode)|;
      |t| == |s| - n && (|t| > 0 ==> t[0] % 0x80 == s[n] % 0x80)
    ensures var head := Head(s, pc, encode);
      var n, y := |head|, head + t;
      && y[0] % 0x80 == s[0] % 0x80
      && (IsJal(s) ==> Filter(y, pc, !encode) != s)
      && (!IsJal(s) ==> (Filter(y, pc, !encode) == s <==> Filter(t, pc + n, !encode) == s[n..]))
  {
    hide Head, Filter, IsJal;
    var head := Head(s, pc, encode);
    var n, y := |head|, head + t;
    FilterStep(y, pc, !encode);
    var again := Head(y, pc, !encode);
    var m := |again|;
    HeadTail(again, Filter(y[m..], pc + m, !encode));
    HeadTail(head, t);
    if IsJal(s) {
      JalHeadLoses(s, pc, encode, t);
    } else {
      HeadInverse(s, pc, encode, t);
      assert s == s[..n] + s[n..];
    }
  }

  lemma JalHeadLoses(s: seq<Byte>, pc: int, encode: bool, t: seq<Byte>)
    requires |s| >= 8 && pc % 2 == 1 && IsJal(s) && |t| == |s| - |Head(s, pc, encode)|
    ensures var y := Head(s, pc, encode) + t;
      y[0] == s[0] && |Head(y, pc, !encode)| == 4 && Head(y, pc, !encode) != s[..4]
  {
    JalLoses(s, pc, encode, t);
    hide JalBytes;
  }

  lemma JalReached(s: seq<Byte>)
    requires |s| >= 8 && IsJal(s)
    ensures ReachesJal(s)
  {
  }

  /** The promise for every input holds exactly at the even addresses. */
  lemma EvenExactly(pc: int, encode: bool)
    ensures (forall s :: Filter(Filter(s, pc, encode), pc, !encode) == s) <==> pc % 2 == 0
  {
    hide Filter;
    var jal: seq<Byte> := [0xEF, 0, 0, 0, 0, 0, 0, 0];
    JalReached(jal);
    FilterExact(jal, pc, encode);
    if pc % 2 == 0 {
      forall s ensures Filter(Filter(s, pc, encode), pc, !encode) == s {
        FilterInverse(s, pc, encode);
      }
    }
  }

  /** At address 1 a single `JAL` is enough to break the inverse. */
  lemma OddAddress()
    ensures var s := [0xEF, 0, 0, 0, 0, 0, 0, 0];
      Filter(Filter(s, 1, true), 1, false) != s
  {
    hide Filter;
    var s: seq<Byte> := [0xEF, 0, 0, 0, 0, 0, 0, 0];
    JalReached(s);
    FilterExact(s, 1, true);
  }

  lemma HeadOnly(s: seq<Byte>, t: seq<Byte>, pc: int, encode: bool)
    requires |s| >= 8
    ensures Head(s + t, pc, encode) == Head(s, pc, encode)
  {
    assert (s + t)[..8] == s[..8];
    assert (s + t)[..4] == s[..4] && (s + t)[4..8] == s[4..8];
  }

  /** What is final stays final: more input only continues the scan from where it stopped. */
  lemma {:induction false} ScanAppend(s: seq<Byte>, t: seq<Byte>, pc: int, encode: bool)
    ensures var out := Scan(s, pc, encode);
      Scan(s + t, pc, encode) == out + Scan(s[|out|..] + t, pc + |out|, encode)
    decreases |s|
  {
    hide Head, Scan;
    var out := Scan(s, pc, encode);
    ScanStep(s, pc, encode);
    if |s| >= 8 {
      var head := Head(s, pc, encode);
      var n := |head|;
      var out' := Scan(s[n..], pc + n, encode);
      HeadOnly(s, t, pc, encode);
      ScanStep(s + t, pc, encode);
      ScanAppend(s[n..], t, pc + n, encode);
      TailConcat(s, t, n);
      TailTail(s, n, |out'|);
      ConcatAssoc(head, out', Scan(s[|out|..] + t, pc + |out|, encode));
    } else {
      assert s[0..] == s;
    }
  }

  /** A scan always stops at an even offset. */
  lemma {:induction false} ScanEven(s: seq<Byte>, pc: int, encode: bool)
    ensures |Scan(s, pc, encode)| % 2 == 0
    decreases |s|
  {
    hide Head, Scan;
    ScanStep(s, pc, encode);
    if |s| >= 8 {
      var n := |Head(s, pc, encode)|;
      ScanEven(s[n..], pc + n, encode);
    }
  }
}
