/**
 What the x86 converter does, said by positions: which opcodes have their operand converted, and that the operand
 becomes the address the branch goes to (or back), modulo 2^25.  Nothing here looks at how the scan keeps its history
 or computes an operand.
 */
module X86Meaning {
  import opened Words
  import X = X86Spec

  // ----- which branches

  /** A call or jump with its four operand bytes. */
  predicate Branch(s: seq<Byte>, p: int) {
    0 <= p && p + 5 <= |s| && (s[p] == 0xE8 || s[p] == 0xE9)
  }

  /** Its operand, as a displacement, stays within 16 MiB. */
  predicate Near(s: seq<Byte>, p: int)
    requires Branch(s, p)
  {
    s[p + 4] == 0x00 || s[p + 4] == 0xFF
  }

  /** Inside the operand of a converted branch. */
  predicate Covered(marks: set<int>, p: int) {
    p - 4 in marks || p - 3 in marks || p - 2 in marks || p - 1 in marks
  }

  /** A branch that is seen but not converted. */
  predicate LeftAlone(s: seq<Byte>, marks: set<int>, p: int) {
    Branch(s, p) && p !in marks && !Covered(marks, p)
  }

  predicate LeftNear(s: seq<Byte>, marks: set<int>, p: int) {
    LeftAlone(s, marks, p) && Near(s, p)
  }

  /** Of the three positions back, no near branch was left alone, and at most one of any kind. */
  predicate Quiet(s: seq<Byte>, marks: set<int>, p: int) {
    && !LeftNear(s, marks, p - 1) && !LeftNear(s, marks, p - 2) && !LeftNear(s, marks, p - 3)
    && !(LeftAlone(s, marks, p - 1) && LeftAlone(s, marks, p - 2))
    && !(LeftAlone(s, marks, p - 1) && LeftAlone(s, marks, p - 3))
    && !(LeftAlone(s, marks, p - 2) && LeftAlone(s, marks, p - 3))
  }

  predicate Marked(s: seq<Byte>, marks: set<int>, p: int) {
    Branch(s, p) && !Covered(marks, p) && Near(s, p) && Quiet(s, marks, p)
  }

  /** `marks` are the positions of the converted branches. */
  ghost predicate Marks(s: seq<Byte>, marks: set<int>) {
    forall p :: p in marks <==> Marked(s, marks, p)
  }

  /** How far back the one branch left alone is; 0 if there is none. */
  function Back(s: seq<Byte>, marks: set<int>, p: int): int {
    if LeftAlone(s, marks, p - 1) then 1
    else if LeftAlone(s, marks, p - 2) then 2
    else if LeftAlone(s, marks, p - 3) then 3
    else 0
  }

  /** There is only one such set. */
  lemma {:induction false} MarksAgree(s: seq<Byte>, a: set<int>, b: set<int>, n: int)
    requires Marks(s, a) && Marks(s, b)
    ensures forall p :: p < n ==> (p in a <==> p in b)
    decreases if n < 0 then 0 else n
  {
    if n <= 0 {
      forall p | p < n ensures p in a <==> p in b {
        assert !Marked(s, a, p) && !Marked(s, b, p);
      }
    } else {
      MarksAgree(s, a, b, n - 1);
      assert Marked(s, a, n - 1) <==> Marked(s, b, n - 1);
    }
  }

  lemma MarksUnique(s: seq<Byte>, a: set<int>, b: set<int>)
    requires Marks(s, a) && Marks(s, b)
    ensures a == b
  {
    forall p ensures p in a <==> p in b {
      MarksAgree(s, a, b, p + 1);
    }
  }

  // ----- what becomes of an operand

  /** Bits 24 to 31 are all equal. */
  predicate Extended(w: Word) {
    w < 0x100_0000 || w >= 0xFF00_0000
  }

  predicate Same25(a: int, b: int) {
    (a - b) % 0x200_0000 == 0
  }

  /** 2^(32 - 8 back): the low bits that reach up to the fifth byte of a branch that far back. */
  function Span(back: int): (n: int)
    requires 1 <= back <= 3
    ensures n > 0
  {
    if back == 1 then 0x100_0000 else if back == 2 then 0x1_0000 else 0x100
  }

  /** The low bits complemented. */
  function Inverted(v: int, span: int): int
    requires span > 0
  {
    v - v % span + (span - 1 - v % span)
  }

  /**
   Operand `src` moved by `shift` is `dst`.  With a branch left alone `back` bytes before, the byte the two share must not
   become extreme: if it would, the bits below are complemented and moved once more.
   */
  predicate Moved(src: Word, dst: Word, shift: int, back: int)
    requires 0 <= back <= 3
  {
    var sum := src + shift;
    Extended(dst) &&
    if back == 0 then Same25(dst, sum)
    else
      var span := Span(back);
      var shared := sum % span / (span / 0x100);
      Same25(dst, if shared == 0x00 || shared == 0xFF then Inverted(sum, span) + shift else sum)
  }

  /** The four bytes behind the opcode, the lowest first. */
  function OperandAt(s: seq<Byte>, p: int): (w: Word)
    requires 0 <= p && p + 5 <= |s|
    ensures w == LoadLe(s[p + 1..p + 5])
  {
    var b1: int, b2: int, b3: int, b4: int := s[p + 1], s[p + 2], s[p + 3], s[p + 4];
    b1 + 0x100 * b2 + 0x1_0000 * b3 + 0x100_0000 * b4
  }

  /** `y` is `s` at address `start` with the marked branches in absolute form, or, decoding, in relative form. */
  ghost predicate Relocated(s: seq<Byte>, y: seq<Byte>, start: int, encode: bool, marks: set<int>) {
    && |y| == |s|
    && (forall p :: 0 <= p < |s| && !Covered(marks, p) ==> y[p] == s[p])
    && (forall p :: p in marks ==> MovedAt(s, y, 0, p, start, encode, marks))
  }

  /** The operand of the branch at `p`; `y` begins at position `i`. */
  ghost predicate MovedAt(s: seq<Byte>, y: seq<Byte>, i: int, p: int, start: int, encode: bool, marks: set<int>) {
    Branch(s, p) && 0 <= p - i && p - i + 5 <= |y| &&
    var next := start + p + 5;
    Moved(OperandAt(s, p), OperandAt(y, p - i), if encode then next else -next, Back(s, marks, p))
  }

  // ----- the converter does that

  lemma Congruent(a: int, b: int, m: int, c: int)
    requires m > 0 && c > 0 && (a - b) % (m * c) == 0
    ensures (a - b) % m == 0 && a % m == b % m
  {
    ModMod(a - b, m, c);
    ZeroMod(m);
    ModShift(a - b, 0, b, m);
  }

  lemma ZeroMod(m: int)
    requires m > 0
    ensures 0 % m == 0
  {
  }

  lemma Multiple(k: int, m: int)
    requires m > 0
    ensures k * m % m == 0
  {
    DivModUnique(k * m, m, k, 0);
  }

  lemma WrapAway(x: int)
    ensures exists k :: Wrap(x) == x + k * 0x1_0000_0000
  {
    assert Wrap(x) == x + (-(x / 0x1_0000_0000)) * 0x1_0000_0000;
  }

  /** Words that differ by a multiple of 2^32 share their low bits, and so do their complements. */
  lemma SharedSame(dest: Word, sum: int, k: int, back: int)
    requires 1 <= back <= 3 && dest == sum + k * 0x1_0000_0000
    ensures var span := Span(back);
      && X.Shared(dest, span) == sum % span / (span / 0x100)
      && X.Flip(dest, span) == Inverted(sum, span) + k * 0x1_0000_0000
  {
    var c := if back == 1 then 0x100 else if back == 2 then 0x1_0000 else 0x100_0000;
    Multiple(k, 0x1_0000_0000);
    Congruent(dest, sum, Span(back), c);
  }

  lemma Ring(w: Word, x: int, k: int)
    requires w == x + k * 0x1_0000_0000
    ensures Same25(X.SignExtend(w), x) && Extended(X.SignExtend(w))
  {
    X.SignExtendRing(w);
    var e: int := X.SignExtend(w);
    var q := e / 0x200_0000 - w / 0x200_0000;
    assert e - x == (q + 0x80 * k) * 0x200_0000;
    Multiple(q + 0x80 * k, 0x200_0000);
  }

  /** The operand arithmetic, for a history with its one opcode left alone `back` bytes before. */
  lemma OperandMoves(src: Word, pc: int, encode: bool, h: X.History, back: int)
    requires 0 <= back <= 3
    requires X.Reach(h) == if back == 0 then 0 else Span(back)
    ensures Moved(src, X.Operand(src, X.Delta(pc, encode), X.Reach(h)), if encode then pc + 5 else -(pc + 5), back)
  {
    hide X.SignExtend, X.Shared, X.Flip, X.Delta, X.IsExtreme, Same25, Extended, Span, Wrap;
    var shift := if encode then pc + 5 else -(pc + 5);
    var delta := X.Delta(pc, encode);
    var d := DeltaAway(pc, encode);
    var j := Away(src, delta, src + shift, d);
    var dest := Wrap(src + delta);
    Ring(dest, src + shift, j);
    if back != 0 {
      SharedSame(dest, src + shift, j, back);
      Extremes();
      var bent: int := X.Flip(dest, Span(back));
      var straight := Inverted(src + shift, Span(back));
      var i := Away(bent, delta, straight + shift, j + d);
      Ring(Wrap(bent + delta), straight + shift, i);
    }
  }

  lemma Extremes()
    ensures forall b: Byte :: X.IsExtreme(b) <==> b == 0x00 || b == 0xFF
  {
  }

  lemma DeltaAway(pc: int, encode: bool) returns (k: int)
    ensures X.Delta(pc, encode) == (if encode then pc + 5 else -(pc + 5)) + k * 0x1_0000_0000
  {
    WrapAway(pc + 5);
    k :| Wrap(pc + 5) == pc + 5 + k * 0x1_0000_0000;
    k := if encode then k else -k;
  }

  lemma Away(x: int, delta: int, sum: int, k: int) returns (j: int)
    requires x + delta == sum + k * 0x1_0000_0000
    ensures Wrap(x + delta) == sum + j * 0x1_0000_0000
  {
    WrapAway(x + delta);
    j :| Wrap(x + delta) == x + delta + j * 0x1_0000_0000;
    j := j + k;
  }

  /** The positions at which the scan from `i` on converts. */
  function Places(s: seq<Byte>, i: nat, h: X.History): (m: set<int>)
    ensures forall p :: p in m ==> p >= i
    decreases |s| - i
  {
    if i + 5 > |s| then {}
    else if X.Converts(s[i..], h) then {i} + Places(s, i + 5, X.FRESH)
    else Places(s, i + 1, X.Pass(s[i..], h))
  }

  /** What the history should say about a position. */
  function SlotAt(s: seq<Byte>, marks: set<int>, p: int): X.Slot {
    if LeftAlone(s, marks, p) then X.Opcode(Near(s, p)) else X.Clear
  }

  ghost predicate Knows(s: seq<Byte>, marks: set<int>, i: int, h: X.History) {
    h == X.History(X.Clear, SlotAt(s, marks, i - 1), SlotAt(s, marks, i - 2), SlotAt(s, marks, i - 3))
  }

  ghost predicate Remaining(s: seq<Byte>, marks: set<int>, i: nat, h: X.History) {
    forall p :: p >= i ==> (p in marks <==> p in Places(s, i, h))
  }

  lemma Decides(s: seq<Byte>, marks: set<int>, i: nat, h: X.History)
    requires i + 5 <= |s| && Knows(s, marks, i, h) && !Covered(marks, i)
    ensures X.Converts(s[i..], h) <==> Marked(s, marks, i)
    ensures X.Converts(s[i..], h) ==> X.Reach(h) == if Back(s, marks, i) == 0 then 0 else Span(Back(s, marks, i))
  {
    hide LeftAlone, Covered;
    assert s[i..][0] == s[i] && s[i..][4] == s[i + 4];
  }

  lemma Passes(s: seq<Byte>, marks: set<int>, i: nat, h: X.History)
    requires i + 5 <= |s| && Knows(s, marks, i, h) && !Covered(marks, i) && i !in marks
    ensures Knows(s, marks, i + 1, X.Pass(s[i..], h)) && !Covered(marks, i + 1)
  {
    assert s[i..][0] == s[i] && s[i..][4] == s[i + 4];
    assert SlotAt(s, marks, i) == if Branch(s, i) then X.Opcode(Near(s, i)) else X.Clear;
    hide LeftAlone;
  }

  lemma Leaps(s: seq<Byte>, marks: set<int>, i: nat)
    requires i in marks && forall p :: i < p < i + 5 ==> p !in marks
    ensures Knows(s, marks, i + 5, X.FRESH) && !Covered(marks, i + 5)
    ensures forall p :: i < p < i + 5 ==> Covered(marks, p)
  {
    assert Covered(marks, i + 4) && Covered(marks, i + 3) && Covered(marks, i + 2);
  }

  lemma RemainingNext(s: seq<Byte>, marks: set<int>, i: nat, h: X.History)
    requires i + 5 <= |s| && Remaining(s, marks, i, h)
    ensures if X.Converts(s[i..], h) then
              i in marks && (forall p :: i < p < i + 5 ==> p !in marks) && Remaining(s, marks, i + 5, X.FRESH)
            else i !in marks && Remaining(s, marks, i + 1, X.Pass(s[i..], h))
  {
    hide X.Converts;
    assert i in marks <==> i in Places(s, i, h);
  }

  /** The bytes from `i` on are those of a relocated text. */
  ghost predicate RelocatedFrom(s: seq<Byte>, y: seq<Byte>, i: nat, start: int, encode: bool, marks: set<int>)
  {
    && i + |y| == |s|
    && (forall p :: i <= p < |s| && !Covered(marks, p) ==> y[p - i] == s[p])
    && (forall p :: p in marks && p >= i ==> MovedAt(s, y, i, p, start, encode, marks))
  }

  lemma {:induction false} Sweep(s: seq<Byte>, i: nat, h: X.History, start: int, encode: bool, marks: set<int>)
    requires i <= |s| && Remaining(s, marks, i, h) && Knows(s, marks, i, h) && !Covered(marks, i)
    ensures forall p :: p >= i ==> (p in marks <==> Marked(s, marks, p))
    ensures RelocatedFrom(s, X.Filter(s[i..], h, start + i, encode), i, start, encode, marks)
    decreases |s| - i
  {
    hide X.Filter, X.Converts, X.Converted, X.Pass, X.Head, X.Next, X.Reach, Quiet, LeftAlone, Knows, Remaining, Covered,
      MovedAt, Back;
    X.FilterStep(s[i..], h, start + i, encode);
    if i + 5 > |s| {
      NoneLeft(s, marks, i, h);
    } else {
      RemainingNext(s, marks, i, h);
      Decides(s, marks, i, h);
      HeadOf(s[i..], h, start + i, encode);
      if X.Converts(s[i..], h) {
        Leaps(s, marks, i);
        Sweep(s, i + 5, X.FRESH, start, encode, marks);
        assert s[i..][5..] == s[i + 5..];
        Converted(s, i, h, start, encode, marks);
      } else {
        Passes(s, marks, i, h);
        Sweep(s, i + 1, X.Pass(s[i..], h), start, encode, marks);
        assert s[i..][1..] == s[i + 1..];
        Kept(s, X.Filter(s[i + 1..], X.Pass(s[i..], h), start + i + 1, encode), i, start, encode, marks);
      }
    }
  }

  lemma NoneLeft(s: seq<Byte>, marks: set<int>, i: nat, h: X.History)
    requires i <= |s| < i + 5 && Remaining(s, marks, i, h)
    ensures forall p :: p >= i ==> p !in marks && !Marked(s, marks, p)
  {
  }

  lemma HeadOf(s: seq<Byte>, h: X.History, pc: int, encode: bool)
    requires |s| >= 5
    ensures if X.Converts(s, h) then X.Head(s, h, pc, encode) == X.Converted(s, h, pc, encode) && X.Next(s, h) == X.FRESH
            else X.Head(s, h, pc, encode) == [s[0]] && X.Next(s, h) == X.Pass(s, h)
  {
  }

  lemma Kept(s: seq<Byte>, rest: seq<Byte>, i: nat, start: int, encode: bool, marks: set<int>)
    requires i < |s| && i !in marks && RelocatedFrom(s, rest, i + 1, start, encode, marks)
    ensures RelocatedFrom(s, [s[i]] + rest, i, start, encode, marks)
  {
    hide Moved, Covered, Back;
    var y := [s[i]] + rest;
    forall p | p in marks && p >= i ensures MovedAt(s, y, i, p, start, encode, marks) {
      assert MovedAt(s, rest, i + 1, p, start, encode, marks);
      assert y[p - i + 1..p - i + 5] == rest[p - i..p - i + 4];
    }
  }

  lemma Converted(s: seq<Byte>, i: nat, h: X.History, start: int, encode: bool, marks: set<int>)
    requires i + 5 <= |s| && i in marks && Branch(s, i) && (forall p :: i < p < i + 5 ==> p !in marks && Covered(marks, p))
    requires X.Reach(h) == if Back(s, marks, i) == 0 then 0 else Span(Back(s, marks, i))
    requires RelocatedFrom(s, X.Filter(s[i + 5..], X.FRESH, start + i + 5, encode), i + 5, start, encode, marks)
    ensures RelocatedFrom(s, X.Converted(s[i..], h, start + i, encode)
                             + X.Filter(s[i + 5..], X.FRESH, start + i + 5, encode),
                          i, start, encode, marks)
  {
    hide Moved, Covered, Back, X.Filter, X.Operand, X.Delta, X.Reach;
    var rest := X.Filter(s[i + 5..], X.FRESH, start + i + 5, encode);
    var w := X.Operand(OperandAt(s, i), X.Delta(start + i, encode), X.Reach(h));
    assert s[i..][1..5] == s[i + 1..i + 5] && s[i..][0] == s[i];
    var y := [s[i]] + StoreLe(w) + rest;
    assert 0 <= Back(s, marks, i) <= 3 by { BackBound(s, marks, i); }
    OperandMoves(OperandAt(s, i), start + i, encode, h, Back(s, marks, i));
    assert y[1..5] == StoreLe(w);
    forall p | p in marks && p >= i ensures MovedAt(s, y, i, p, start, encode, marks) {
      if p > i {
        assert MovedAt(s, rest, i + 5, p, start, encode, marks);
        assert y[p - i + 1..p - i + 5] == rest[p - i - 4..p - i];
      }
    }
  }

  lemma BackBound(s: seq<Byte>, marks: set<int>, p: int)
    ensures 0 <= Back(s, marks, p) <= 3
  {
  }

  /** The one-shot filter converts exactly the marked branches, each to the address it goes to, or back. */
  lemma FilterMeans(s: seq<Byte>, start: int, encode: bool) returns (marks: set<int>)
    ensures Marks(s, marks)
    ensures Relocated(s, X.Filter(s, X.FRESH, start, encode), start, encode, marks)
  {
    hide X.Filter, Moved, LeftAlone;
    marks := Places(s, 0, X.FRESH);
    assert s[0..] == s;
    assert Knows(s, marks, 0, X.FRESH) && !Covered(marks, 0) by { NothingBefore(s, marks); }
    Sweep(s, 0, X.FRESH, start, encode, marks);
    forall p ensures p in marks <==> Marked(s, marks, p) {
      if p < 0 {
      }
    }
  }

  lemma NothingBefore(s: seq<Byte>, marks: set<int>)
    requires forall p :: p in marks ==> p >= 0
    ensures Knows(s, marks, 0, X.FRESH) && !Covered(marks, 0)
  {
  }

  /** With no branch left alone just before, the operand becomes the address the branch goes to. */
  lemma Straight(s: seq<Byte>, y: seq<Byte>, start: int, marks: set<int>, p: int)
    requires Relocated(s, y, start, true, marks) && p in marks && Back(s, marks, p) == 0
    ensures Branch(s, p) && |y| == |s| && Extended(OperandAt(y, p))
    ensures Same25(OperandAt(y, p), OperandAt(s, p) + (start + p + 5))
  {
    hide Back, LoadLe, Same25, Extended;
    assert MovedAt(s, y, 0, p, start, true, marks);
  }

  /** Branches to one place get one operand, wherever they stand: the point of the filter. */
  lemma OneTarget(s: seq<Byte>, y: seq<Byte>, start: int, marks: set<int>, p: int, q: int)
    requires Relocated(s, y, start, true, marks) && p in marks && q in marks
    requires Back(s, marks, p) == 0 == Back(s, marks, q) && Branch(s, p) && Branch(s, q)
    requires Same25(OperandAt(s, p) + (start + p + 5), OperandAt(s, q) + (start + q + 5))
    ensures |y| == |s| && OperandAt(y, p) == OperandAt(y, q)
  {
    hide Back, LoadLe, Relocated, Same25, Extended, OperandAt;
    Straight(s, y, start, marks, p);
    Straight(s, y, start, marks, q);
    Chain25(OperandAt(y, p), OperandAt(s, p) + (start + p + 5), OperandAt(s, q) + (start + q + 5), OperandAt(y, q));
    RingOnce(OperandAt(y, p), OperandAt(y, q));
  }

  lemma Chain25(a: int, u: int, v: int, b: int)
    requires Same25(a, u) && Same25(u, v) && Same25(b, v)
    ensures Same25(a, b)
  {
    var m := 0x200_0000;
    var i, j, k := (a - u) / m, (u - v) / m, (b - v) / m;
    assert a - b == (i + j - k) * m;
    Multiple(i + j - k, m);
  }

  lemma RingOnce(a: Word, b: Word)
    requires Same25(a, b) && Extended(a) && Extended(b)
    ensures a == b
  {
  }
}
