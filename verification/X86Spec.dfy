/**
 The x86 branch converter, stated on values.

 The scanner looks at every `E8`/`E9` whose four operand bytes are present.  Whether the operand is
 rewritten depends on the opcodes up to three bytes back that were left alone: `History` says where they are
 and whether their own fifth byte is `00`/`FF`.
 */
module X86Spec {
  import opened Words

  /** What is known about the byte a fixed distance back: nothing, or an opcode left unconverted. */
  datatype Slot = Clear | Opcode(extreme: bool)

  /** `dk` describes the byte `k` positions before the current one. */
  datatype History = History(d0: Slot, d1: Slot, d2: Slot, d3: Slot)

  const FRESH: History := History(Clear, Clear, Clear, Clear)

  predicate IsOpcode(b: Byte) { b == 0xE8 || b == 0xE9 }

  predicate IsExtreme(b: Byte) { b == 0x00 || b == 0xFF }

  function Age(h: History): History {
    History(Clear, h.d0, h.d1, h.d2)
  }

  function Mark(h: History, extreme: bool): History {
    h.(d0 := Opcode(extreme))
  }

  /** At most one opcode left alone in the three bytes back, and not one with an extreme fifth byte. */
  predicate Allows(h: History) {
    && h.d1 != Opcode(true) && h.d2 != Opcode(true) && h.d3 != Opcode(true)
    && (h.d1.Clear? || h.d2.Clear?) && (h.d1.Clear? || h.d3.Clear?) && (h.d2.Clear? || h.d3.Clear?)
  }

  /**
   One more than the largest value of the low operand bits that reach up to the fifth byte of the one opcode
   left alone; 0 when there is none.
   */
  function Reach(h: History): (p: int)
    ensures p in {0, 0x100_0000, 0x1_0000, 0x100}
  {
    if h.d1.Opcode? then 0x100_0000
    else if h.d2.Opcode? then 0x1_0000
    else if h.d3.Opcode? then 0x100
    else 0
  }

  /** The operand byte just below `reach`: it is the fifth byte of the opcode left alone. */
  function Shared(w: Word, reach: int): Byte
    requires reach in {0x100_0000, 0x1_0000, 0x100}
  {
    w % reach / (reach / 0x100)
  }

  /** `w ^ (reach - 1)` for a power of two: the low bits are complemented. */
  function Flip(w: Word, reach: int): Word
    requires reach in {0x100_0000, 0x1_0000, 0x100}
  {
    w - w % reach + (reach - 1 - w % reach)
  }

  /** What is added to an operand: the address after the instruction, or its negation when decoding. */
  function Delta(pc: int, encode: bool): int {
    var pos: int := Wrap(pc + 5);
    if encode then pos else -pos
  }

  /** Bit 24 extended over the top byte: the operand is kept modulo 2^25. */
  function SignExtend(w: Word): Word {
    w % 0x100_0000 + (if w / 0x100_0000 % 2 != 0 then 0xFF00_0000 else 0)
  }

  /** The rewritten operand before sign extension. */
  function Moved(src: Word, delta: int, reach: int): Word
    requires reach in {0, 0x100_0000, 0x1_0000, 0x100}
  {
    var dest := Wrap(src + delta);
    if reach == 0 || !IsExtreme(Shared(dest, reach)) then dest else Wrap(Flip(dest, reach) + delta)
  }

  function Operand(src: Word, delta: int, reach: int): Word
    requires reach in {0, 0x100_0000, 0x1_0000, 0x100}
  {
    SignExtend(Moved(src, delta, reach))
  }

  /** The final bytes of a scan and the history at the position where it stopped. */
  datatype Scanned = Scanned(out: seq<Byte>, recent: History)

  function Prepend(b: seq<Byte>, r: Scanned): Scanned {
    Scanned(b + r.out, r.recent)
  }

  predicate Converts(s: seq<Byte>, h: History)
    requires |s| >= 5
  {
    IsOpcode(s[0]) && IsExtreme(s[4]) && Allows(h)
  }

  /** The history one byte on, when the head of `s` is not converted. */
  function Pass(s: seq<Byte>, h: History): History
    requires |s| >= 5
  {
    Age(if IsOpcode(s[0]) then Mark(h, IsExtreme(s[4])) else h)
  }

  /** The converted instruction at the head of `s`. */
  function Converted(s: seq<Byte>, h: History, pc: int, encode: bool): (r: seq<Byte>)
    requires |s| >= 5
    ensures |r| == 5
  {
    [s[0]] + StoreLe(Operand(LoadLe(s[1..5]), Delta(pc, encode), Reach(h)))
  }

  /** The bytes that become final at the head of `s`: a converted instruction or one byte as it is. */
  function Head(s: seq<Byte>, h: History, pc: int, encode: bool): (r: seq<Byte>)
    requires |s| >= 5
    ensures |r| == 1 || |r| == 5
    ensures r[0] == s[0]
  {
    if Converts(s, h) then Converted(s, h, pc, encode) else [s[0]]
  }

  /** The history after the head of `s`. */
  function Next(s: seq<Byte>, h: History): History
    requires |s| >= 5
  {
    if Converts(s, h) then FRESH else Pass(s, h)
  }

  /** Scan `s`, whose first byte is at address `pc`; the last four bytes (or fewer) are never final. */
  function Scan(s: seq<Byte>, h: History, pc: int, encode: bool): (r: Scanned)
    ensures |r.out| <= |s|
    ensures |s| < 5 ==> r.out == []
    ensures |s| >= 5 ==> |s| - 4 <= |r.out|
    decreases |s|
  {
    if |s| < 5 then Scanned([], h)
    else
      var head := Head(s, h, pc, encode);
      Prepend(head, Scan(s[|head|..], Next(s, h), pc + |head|, encode))
  }

  /** The whole filter: what the scan makes final, then the raw tail. */
  function Filter(s: seq<Byte>, h: History, pc: int, encode: bool): (r: seq<Byte>)
    ensures |r| == |s|
  {
    var out := Scan(s, h, pc, encode).out;
    out + s[|out|..]
  }

  /** The fifth bytes the history speaks of all lie inside `s`, and it tells the truth about them. */
  predicate Agrees(h: History, s: seq<Byte>) {
    && h.d0.Clear?
    && (h.d1.Opcode? ==> 3 < |s| && IsExtreme(s[3]) == h.d1.extreme)
    && (h.d2.Opcode? ==> 2 < |s| && IsExtreme(s[2]) == h.d2.extreme)
    && (h.d3.Opcode? ==> 1 < |s| && IsExtreme(s[1]) == h.d3.extreme)
  }

  // ----- the 25-bit operand ring

  /** Sign extension keeps the value modulo 2^25 and makes the top byte extreme. */
  lemma SignExtendRing(w: Word)
    ensures SignExtend(w) % 0x200_0000 == w % 0x200_0000
    ensures IsExtreme(SignExtend(w) / 0x100_0000)
  {
  }

  /** A word with an extreme top byte is determined by its low 25 bits. */
  lemma RingUnique(v: Word, w: Word)
    requires v % 0x200_0000 == w % 0x200_0000
    requires IsExtreme(v / 0x100_0000) && IsExtreme(w / 0x100_0000)
    ensures v == w
  {
  }

  lemma RingAdd(v: Word, w: Word, d: int)
    requires v % 0x200_0000 == w % 0x200_0000
    ensures Wrap(v + d) % 0x200_0000 == Wrap(w + d) % 0x200_0000
  {
    ModMod(v + d, 0x200_0000, 0x80);
    ModMod(w + d, 0x200_0000, 0x80);
    ModShift(v, w, d, 0x200_0000);
  }

  lemma WrapBack(w: Word, d: int)
    ensures Wrap(Wrap(w + d) - d) == w
  {
    ModShift(Wrap(w + d), w + d, -d, 0x1_0000_0000);
  }

  lemma RingReach(v: Word, w: Word, reach: int)
    requires reach in {0x100_0000, 0x1_0000, 0x100}
    requires v % 0x200_0000 == w % 0x200_0000
    ensures v % reach == w % reach
    ensures Flip(v, reach) % 0x200_0000 == Flip(w, reach) % 0x200_0000
  {
    var c := if reach == 0x100_0000 then 2 else if reach == 0x1_0000 then 0x200 else 0x2_0000;
    ModMod(v, reach, c);
    ModMod(w, reach, c);
    ModShift(v, w, reach - 1 - 2 * (v % reach), 0x200_0000);
  }

  lemma FlipTwice(w: Word, reach: int)
    requires reach in {0x100_0000, 0x1_0000, 0x100}
    ensures Flip(w, reach) % reach == reach - 1 - w % reach
    ensures Flip(Flip(w, reach), reach) == w
  {
    DivModUnique(Flip(w, reach), reach, w / reach, reach - 1 - w % reach);
  }

  /** Moving, complementing and moving again complements the low bits. */
  lemma BendLow(w: Word, d: int, reach: int)
    requires reach in {0x100_0000, 0x1_0000, 0x100}
    ensures Wrap(Flip(Wrap(w + d), reach) + d) % reach == reach - 1 - w % reach
  {
    var c := if reach == 0x100_0000 then 0x100 else if reach == 0x1_0000 then 0x1_0000 else 0x100_0000;
    var dest: int := Wrap(w + d);
    var bent: int := Flip(dest, reach);
    var k, j := (w + d) / 0x1_0000_0000, dest / reach;
    ModMod(bent + d, reach, c);
    assert bent + d == 2 * (j * reach) + reach - 1 - dest + d;
    assert bent + d == (2 * j + k * c - w / reach) * reach + (reach - 1 - w % reach);
    DivModUnique(bent + d, reach, 2 * j + k * c - w / reach, reach - 1 - w % reach);
  }

  lemma ComplementExtreme(v: Word, w: Word, reach: int)
    requires reach in {0x100_0000, 0x1_0000, 0x100}
    requires v % reach == reach - 1 - w % reach
    ensures IsExtreme(Shared(v, reach)) == IsExtreme(Shared(w, reach))
  {
    if reach == 0x100_0000 {} else if reach == 0x1_0000 {} else {}
  }

  /** Moving by `d` and by `-d` are inverse modulo 2^25. */
  lemma MovedInverse(src: Word, w: Word, d: int, reach: int)
    requires reach in {0, 0x100_0000, 0x1_0000, 0x100}
    requires reach != 0 ==> !IsExtreme(Shared(src, reach))
    requires w % 0x200_0000 == Moved(src, d, reach) % 0x200_0000
    ensures Moved(w, -d, reach) % 0x200_0000 == src % 0x200_0000
    ensures reach != 0 ==> !IsExtreme(Shared(w, reach))
  {
    var dest, back := Wrap(src + d), Wrap(w - d);
    hide Wrap, Flip, Shared, IsExtreme;
    RingAdd(w, Moved(src, d, reach), -d);
    WrapBack(src, d);
    if reach != 0 {
      RingReach(w, Moved(src, d, reach), reach);
      SharedOf(w, Moved(src, d, reach), reach);
      if IsExtreme(Shared(dest, reach)) {
        var bent := Flip(dest, reach);
        BendLow(src, d, reach);
        ComplementExtreme(Wrap(bent + d), src, reach);
        WrapBack(bent, d);
        RingReach(back, bent, reach);
        SharedOf(back, bent, reach);
        FlipTwice(dest, reach);
        ComplementExtreme(bent, dest, reach);
        RingAdd(Flip(back, reach), dest, -d);
      } else {
        RingReach(back, src, reach);
        SharedOf(back, src, reach);
      }
    }
  }

  lemma SharedOf(v: Word, w: Word, reach: int)
    requires reach in {0x100_0000, 0x1_0000, 0x100}
    requires v % reach == w % reach
    ensures Shared(v, reach) == Shared(w, reach)
  {
  }

  /** Both directions of the converter's arithmetic undo each other on an operand the scan may rewrite. */
  lemma OperandInverse(src: Word, d: int, reach: int)
    requires reach in {0, 0x100_0000, 0x1_0000, 0x100}
    requires IsExtreme(src / 0x100_0000)
    requires reach != 0 ==> !IsExtreme(Shared(src, reach))
    ensures var w := Operand(src, d, reach);
      && IsExtreme(w / 0x100_0000)
      && (reach != 0 ==> !IsExtreme(Shared(w, reach)))
      && Operand(w, -d, reach) == src
  {
    var w := Operand(src, d, reach);
    SignExtendRing(Moved(src, d, reach));
    MovedInverse(src, w, d, reach);
    SignExtendRing(Moved(w, -d, reach));
    RingUnique(Operand(w, -d, reach), src);
  }

  // ----- the scan

  /** The shared operand byte is the byte of `s` that the history describes. */
  lemma SharedByte(s: seq<Byte>, h: History)
    requires |s| >= 5 && Allows(h)
    ensures LoadLe(s[1..5]) / 0x100_0000 == s[4]
    ensures h.d1.Opcode? ==> Reach(h) == 0x100_0000 && Shared(LoadLe(s[1..5]), Reach(h)) == s[3]
    ensures h.d2.Opcode? ==> Reach(h) == 0x1_0000 && Shared(LoadLe(s[1..5]), Reach(h)) == s[2]
    ensures h.d3.Opcode? ==> Reach(h) == 0x100 && Shared(LoadLe(s[1..5]), Reach(h)) == s[1]
  {
    var b := s[1..5];
    var w: int, b0: int, b1: int, b2: int, b3: int := LoadLe(b), b[0], b[1], b[2], b[3];
    DivModUnique(w, 0x100_0000, b3, b0 + 0x100 * b1 + 0x1_0000 * b2);
    DivModUnique(w, 0x1_0000, b2 + 0x100 * b3, b0 + 0x100 * b1);
    DivModUnique(w, 0x100, b1 + 0x100 * b2 + 0x1_0000 * b3, b0);
  }

  lemma ScanStep(s: seq<Byte>, h: History, pc: int, encode: bool)
    ensures |s| < 5 ==> Scan(s, h, pc, encode) == Scanned([], h)
    ensures |s| >= 5 ==>
      var head := Head(s, h, pc, encode);
      Scan(s, h, pc, encode) == Prepend(head, Scan(s[|head|..], Next(s, h), pc + |head|, encode))
  {
  }

  lemma FilterStep(s: seq<Byte>, h: History, pc: int, encode: bool)
    ensures |s| < 5 ==> Filter(s, h, pc, encode) == s
    ensures |s| >= 5 ==>
      var head := Head(s, h, pc, encode);
      Filter(s, h, pc, encode) == head + Filter(s[|head|..], Next(s, h), pc + |head|, encode)
  {
    hide Head, Next, Scan;
    ScanStep(s, h, pc, encode);
    if |s| >= 5 {
      var head := Head(s, h, pc, encode);
      var rest := Scan(s[|head|..], Next(s, h), pc + |head|, encode);
      TailTail(s, |head|, |rest.out|);
      ConcatAssoc(head, rest.out, s[|head| + |rest.out|..]);
    }
  }

  /** The history stays truthful from one step to the next. */
  lemma NextAgrees(s: seq<Byte>, h: History, pc: int, encode: bool)
    requires |s| >= 5 && Agrees(h, s)
    ensures Agrees(Next(s, h), s[|Head(s, h, pc, encode)|..])
  {
  }

  /** Converting one instruction one way and then the other restores it, with the same decision taken. */
  lemma ConvertedInverse(s: seq<Byte>, h: History, pc: int, encode: bool, t: seq<Byte>)
    requires |s| >= 5 && Agrees(h, s) && Converts(s, h)
    ensures var y := Converted(s, h, pc, encode) + t;
      && Agrees(h, y) && Converts(y, h)
      && Converted(y, h, pc, !encode) == s[..5]
  {
    var y := Converted(s, h, pc, encode) + t;
    var src, d := LoadLe(s[1..5]), Delta(pc, encode);
    var w := Operand(src, d, Reach(h));
    SharedByte(s, h);
    OperandInverse(src, d, Reach(h));
    assert y[1..5] == StoreLe(w);
    SharedByte(y, h);
    StoreLoadLe(s[1..5]);
    assert s[..5] == [s[0]] + s[1..5];
  }

  /** One step is undone by the step in the other direction, whatever truthful bytes `t` follow. */
  lemma HeadInverse(s: seq<Byte>, h: History, pc: int, encode: bool, t: seq<Byte>)
    requires |s| >= 5 && Agrees(h, s)
    requires var n := |Head(s, h, pc, encode)|;
      |t| == |s| - n && Agrees(Next(s, h), t) && (|t| > 0 ==> t[0] == s[n])
    ensures var head := Head(s, h, pc, encode);
      var y := head + t;
      && Agrees(h, y)
      && Head(y, h, pc, !encode) == s[..|head|]
      && Next(y, h) == Next(s, h)
  {
    if Converts(s, h) {
      ConvertedInverse(s, h, pc, encode, t);
    }
  }

  /**
   The converter's two directions are inverse: the second scan stops at the same places, sees the same history
   and takes the same decisions, although the bytes its earlier decisions read may have been rewritten since.
   */
  lemma {:induction false} FilterInverse(s: seq<Byte>, h: History, pc: int, encode: bool)
    requires Agrees(h, s)
    ensures var y := Filter(s, h, pc, encode);
      && Agrees(h, y)
      && (|s| > 0 ==> y[0] == s[0])
      && Filter(y, h, pc, !encode) == s
      && Scan(y, h, pc, !encode).recent == Scan(s, h, pc, encode).recent
      && |Scan(y, h, pc, !encode).out| == |Scan(s, h, pc, encode).out|
    decreases |s|
  {
    hide Head, Next, Agrees, Filter, Scan;
    var y := Filter(s, h, pc, encode);
    FilterStep(s, h, pc, encode);
    ScanStep(s, h, pc, encode);
    FilterStep(y, h, pc, !encode);
    ScanStep(y, h, pc, !encode);
    if |s| >= 5 {
      var head, h' := Head(s, h, pc, encode), Next(s, h);
      var t := Filter(s[|head|..], h', pc + |head|, encode);
      NextAgrees(s, h, pc, encode);
      FilterInverse(s[|head|..], h', pc + |head|, encode);
      HeadInverse(s, h, pc, encode, t);
      HeadTail(head, t);
      TailConcat(s, [], |head|);
    }
  }

  lemma HeadOnly(s: seq<Byte>, t: seq<Byte>, h: History, pc: int, encode: bool)
    requires |s| >= 5
    ensures Head(s + t, h, pc, encode) == Head(s, h, pc, encode)
    ensures Next(s + t, h) == Next(s, h)
  {
    assert (s + t)[1..5] == s[1..5];
  }

  lemma PrependPrepend(a: seq<Byte>, b: seq<Byte>, r: Scanned)
    ensures Prepend(a, Prepend(b, r)) == Prepend(a + b, r)
  {
    assert a + (b + r.out) == (a + b) + r.out;
  }

  /** What is final stays final: more input only continues the scan from where it stopped. */
  lemma {:induction false} ScanAppend(s: seq<Byte>, t: seq<Byte>, h: History, pc: int, encode: bool)
    ensures var r := Scan(s, h, pc, encode);
      Scan(s + t, h, pc, encode) == Prepend(r.out, Scan(s[|r.out|..] + t, r.recent, pc + |r.out|, encode))
    decreases |s|
  {
    hide Head, Next, Scan;
    var r := Scan(s, h, pc, encode);
    ScanStep(s, h, pc, encode);
    if |s| >= 5 {
      var head, h' := Head(s, h, pc, encode), Next(s, h);
      var n := |head|;
      var r' := Scan(s[n..], h', pc + n, encode);
      HeadOnly(s, t, h, pc, encode);
      ScanStep(s + t, h, pc, encode);
      ScanAppend(s[n..], t, h', pc + n, encode);
      TailConcat(s, t, n);
      TailTail(s, n, |r'.out|);
      PrependPrepend(head, r'.out, Scan(s[|r.out|..] + t, r.recent, pc + |r.out|, encode));
    } else {
      assert s[0..] == s;
    }
  }

  /** The history a scan ends with tells the truth about the raw bytes that are left. */
  lemma {:induction false} ScanAgrees(s: seq<Byte>, h: History, pc: int, encode: bool)
    requires Agrees(h, s)
    ensures var r := Scan(s, h, pc, encode); Agrees(r.recent, s[|r.out|..])
    decreases |s|
  {
    hide Head, Next, Agrees;
    if |s| >= 5 {
      var n := |Head(s, h, pc, encode)|;
      NextAgrees(s, h, pc, encode);
      ScanAgrees(s[n..], Next(s, h), pc + n, encode);
      TailTail(s, n, |Scan(s[n..], Next(s, h), pc + n, encode).out|);
    }
  }
}
