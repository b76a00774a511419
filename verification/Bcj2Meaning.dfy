/**
 What the BCJ2 split is, said by positions: which branches are converted, and what each of the streams holds.  Nothing
 here looks at how the split goes about it.
 */
module Bcj2Meaning {
  import opened Words
  import opened Bcj2
  import opened RangeCoder

  // ----- which branches

  /** `E8`, `E9`, or the second byte of `0F 80` to `0F 8F`. */
  predicate Opcode(s: seq<Byte>, p: int) {
    0 <= p < |s| && (s[p] == 0xE8 || s[p] == 0xE9 || (p > 0 && s[p - 1] == 0x0F && 0x80 <= s[p] <= 0x8F))
  }

  /** Inside the operand of a converted branch. */
  predicate Covered(marks: set<int>, p: int) {
    p - 4 in marks || p - 3 in marks || p - 2 in marks || p - 1 in marks
  }

  predicate Marked(s: seq<Byte>, marks: set<int>, p: int) {
    Opcode(s, p) && !Covered(marks, p) && p + 5 <= |s|
  }

  /** `marks` are the converted branches: every opcode with four bytes behind it that is not part of an operand. */
  ghost predicate Marks(s: seq<Byte>, marks: set<int>) {
    forall p :: p in marks <==> Marked(s, marks, p)
  }

  lemma {:induction false} MarksAgree(s: seq<Byte>, a: set<int>, b: set<int>, n: int)
    requires Marks(s, a) && Marks(s, b)
    ensures forall p :: p < n ==> (p in a <==> p in b)
    decreases if n < 0 then 0 else n
  {
    if n <= 0 {
      forall p | p < n ensures p in a <==> p in b {
        assert !Marked(s, a, p) && !Marked(s, b, p);
      }
    } else {
      MarksAgree(s, a, b, n - 1);
      assert Marked(s, a, n - 1) <==> Marked(s, b, n - 1);
    }
  }

  /** There is only one such set. */
  lemma MarksUnique(s: seq<Byte>, a: set<int>, b: set<int>)
    requires Marks(s, a) && Marks(s, b)
    ensures a == b
  {
    forall p ensures p in a <==> p in b {
      MarksAgree(s, a, b, p + 1);
    }
  }

  // ----- what the streams hold, from position `i` on

  /** Everything but the operands. */
  function Rest(s: seq<Byte>, marks: set<int>, i: nat): seq<Byte>
    decreases |s| - i
  {
    if i >= |s| then [] else (if Covered(marks, i) then [] else [s[i]]) + Rest(s, marks, i + 1)
  }

  /** Where the branch at `p` goes to: its operand, little-endian, counts from the instruction behind it. */
  function Target(s: seq<Byte>, p: int): int
    requires 0 <= p && p + 5 <= |s|
  {
    var b1: int, b2: int, b3: int, b4: int := s[p + 1], s[p + 2], s[p + 3], s[p + 4];
    b1 + 0x100 * b2 + 0x1_0000 * b3 + 0x100_0000 * b4 + p + 5
  }

  /** The low 32 bits, the highest byte first. */
  function BigEndian(x: int): (b: seq<Byte>)
    ensures |b| == 4
  {
    [x / 0x100_0000 % 0x100, x / 0x1_0000 % 0x100, x / 0x100 % 0x100, x % 0x100]
  }

  /** The targets of the calls, or of the jumps. */
  function Targets(s: seq<Byte>, marks: set<int>, i: nat, calls: bool): seq<Byte>
    decreases |s| - i
  {
    if i >= |s| then []
    else
      TargetHere(s, marks, i, calls) + Targets(s, marks, i + 1, calls)
  }

  function TargetHere(s: seq<Byte>, marks: set<int>, p: nat, calls: bool): seq<Byte>
    requires p < |s|
  {
    if p in marks && p + 5 <= |s| && (s[p] == 0xE8) == calls then BigEndian(Target(s, p)) else []
  }

  /** One context for conditional jumps, one for `E9`, and one for `E8` after each byte. */
  function Context(s: seq<Byte>, p: nat): Model
    requires p < |s|
  {
    var before: int := if p == 0 then 0 else s[p - 1];
    if s[p] == 0xE8 then 2 + before else if s[p] == 0xE9 then 1 else 0
  }

  /** Of each opcode that is not part of an operand, whether it is converted. */
  function Bits(s: seq<Byte>, marks: set<int>, i: nat): seq<Choice>
    decreases |s| - i
  {
    if i >= |s| then []
    else
      (if Opcode(s, i) && !Covered(marks, i) then [Choice(Context(s, i), i in marks)] else []) + Bits(s, marks, i + 1)
  }

  ghost predicate Splits(r: Split, s: seq<Byte>, marks: set<int>, i: nat) {
    && r.main == Rest(s, marks, i)
    && r.call == Targets(s, marks, i, true) && r.jump == Targets(s, marks, i, false)
    && r.control == Bits(s, marks, i)
  }

  // ----- the split does that

  function Places(s: seq<Byte>, i: nat, prev: Byte): (m: set<int>)
    ensures forall p :: p in m ==> p >= i
    decreases |s| - i
  {
    if i >= |s| then {}
    else if IsCandidate(prev, s[i]) && i + 5 <= |s| then {i} + Places(s, i + 5, s[i + 4])
    else Places(s, i + 1, s[i])
  }

  ghost predicate Remaining(s: seq<Byte>, marks: set<int>, i: nat, prev: Byte) {
    forall p :: p >= i ==> (p in marks <==> p in Places(s, i, prev))
  }

  /** The byte before position `i`, or zero. */
  ghost predicate Behind(s: seq<Byte>, i: nat, prev: Byte) {
    i <= |s| && prev == if i == 0 then 0 else s[i - 1]
  }

  lemma Decides(s: seq<Byte>, marks: set<int>, i: nat, prev: Byte)
    requires i < |s| && Behind(s, i, prev) && !Covered(marks, i)
    ensures IsCandidate(prev, s[i]) <==> Opcode(s, i)
    ensures ProbIndex(s[i], prev) == Context(s, i)
  {
  }

  lemma RemainingNext(s: seq<Byte>, marks: set<int>, i: nat, prev: Byte)
    requires i < |s| && Remaining(s, marks, i, prev)
    ensures if IsCandidate(prev, s[i]) && i + 5 <= |s| then
              i in marks && (forall p :: i < p < i + 5 ==> p !in marks) && Remaining(s, marks, i + 5, s[i + 4])
            else i !in marks && Remaining(s, marks, i + 1, s[i])
  {
    hide IsCandidate;
    assert i in marks <==> i in Places(s, i, prev);
  }

  lemma Leaps(marks: set<int>, i: int)
    requires i in marks && !Covered(marks, i) && forall p :: i < p < i + 5 ==> p !in marks
    ensures !Covered(marks, i + 5)
    ensures Covered(marks, i + 1) && Covered(marks, i + 2) && Covered(marks, i + 3) && Covered(marks, i + 4)
    ensures forall p :: i < p < i + 5 ==> Covered(marks, p)
  {
  }

  /** The operand stands in no other stream. */
  lemma OverOperand(s: seq<Byte>, marks: set<int>, i: nat)
    requires i + 5 <= |s| && forall p :: i < p < i + 5 ==> p !in marks
    requires Covered(marks, i + 1) && Covered(marks, i + 2) && Covered(marks, i + 3) && Covered(marks, i + 4)
    ensures Rest(s, marks, i + 1) == Rest(s, marks, i + 5) && Bits(s, marks, i + 1) == Bits(s, marks, i + 5)
    ensures Targets(s, marks, i + 1, true) == Targets(s, marks, i + 5, true)
    ensures Targets(s, marks, i + 1, false) == Targets(s, marks, i + 5, false)
  {
    hide Covered, Opcode;
    Over(s, marks, i + 1);
    Over(s, marks, i + 2);
    Over(s, marks, i + 3);
    Over(s, marks, i + 4);
  }

  lemma Over(s: seq<Byte>, marks: set<int>, i: nat)
    requires i < |s| && i !in marks && Covered(marks, i)
    ensures Rest(s, marks, i) == Rest(s, marks, i + 1) && Bits(s, marks, i) == Bits(s, marks, i + 1)
    ensures forall c :: Targets(s, marks, i, c) == Targets(s, marks, i + 1, c)
  {
  }

  /** The absolute operand of the code is the target. */
  lemma TargetBytes(s: seq<Byte>, p: nat)
    requires p + 5 <= |s|
    ensures StoreBe(Absolute(LoadLe(s[p + 1..p + 5]), p + 1)) == BigEndian(Target(s, p))
  {
    var rel: int := LoadLe(s[p + 1..p + 5]);
    var t := Target(s, p);
    assert t == rel + (p + 5);
    WrapAdd(p + 5, rel);
    assert Absolute(rel, p + 1) == Wrap(t);
    LowBytes(t);
  }

  lemma LowBytes(t: int)
    ensures StoreBe(Wrap(t)) == BigEndian(t)
  {
    var w: int := Wrap(t);
    var k := t / 0x1_0000_0000;
    ModMod(t, 0x100, 0x100_0000);
    DivModUnique(t, 0x100, w / 0x100 + k * 0x100_0000, w % 0x100);
    ModMod(t / 0x100, 0x100, 0x1_0000);
    DivModUnique(t / 0x100, 0x100_0000, k, w / 0x100);
    DivModUnique(t, 0x1_0000, w / 0x1_0000 + k * 0x1_0000, w % 0x1_0000);
    DivModUnique(t / 0x1_0000, 0x1_0000, k, w / 0x1_0000);
    ModMod(t / 0x1_0000, 0x100, 0x100);
    DivModUnique(t, 0x100_0000, w / 0x100_0000 + k * 0x100, w % 0x100_0000);
    DivModUnique(t / 0x100_0000, 0x100, k, w / 0x100_0000);
  }

  lemma SplitStep(s: seq<Byte>, i: nat, prev: Byte)
    requires i < |s|
    ensures var r := SplitFrom(s[i..], i, prev);
      var b, m := s[i], ProbIndex(s[i], prev);
      if !IsCandidate(prev, b) then
        var n := SplitFrom(s[i + 1..], i + 1, b);
        r == n.(main := [b] + n.main)
      else if i + 5 > |s| then
        var n := SplitFrom(s[i + 1..], i + 1, b);
        r == n.(main := [b] + n.main, control := [Choice(m, false)] + n.control)
      else
        var n, t := SplitFrom(s[i + 5..], i + 5, s[i + 4]), BigEndian(Target(s, i));
        r == Split([b] + n.main, (if b == 0xE8 then t else []) + n.call, (if b == 0xE8 then [] else t) + n.jump,
                   [Choice(m, true)] + n.control)
  {
    hide IsCandidate, ProbIndex, Absolute, LoadLe, StoreBe, Target, BigEndian;
    TailTail(s, i, 1);
    if i + 5 <= |s| {
      TargetBytes(s, i);
      TailTail(s, i, 5);
      assert s[i..][1..5] == s[i + 1..i + 5];
      var n := SplitFrom(s[i + 5..], i + 5, s[i + 4]);
      assert [] + n.call == n.call && [] + n.jump == n.jump;
    }
  }

  lemma SplitsNext(s: seq<Byte>, marks: set<int>, i: nat)
    requires i < |s| && !Covered(marks, i)
    ensures Rest(s, marks, i) == [s[i]] + Rest(s, marks, i + 1)
    ensures Bits(s, marks, i) ==
      (if Opcode(s, i) then [Choice(Context(s, i), i in marks)] else []) + Bits(s, marks, i + 1)
    ensures forall c :: Targets(s, marks, i, c) == TargetHere(s, marks, i, c) + Targets(s, marks, i + 1, c)
  {
  }

  lemma {:induction false} Sweep(s: seq<Byte>, i: nat, prev: Byte, marks: set<int>)
    requires Behind(s, i, prev) && Remaining(s, marks, i, prev) && !Covered(marks, i)
    ensures forall p :: p >= i ==> (p in marks <==> Marked(s, marks, p))
    ensures Splits(SplitFrom(s[i..], i, prev), s, marks, i)
    decreases |s| - i
  {
    hide SplitFrom, IsCandidate, ProbIndex, Opcode, Covered, Context, Target, BigEndian, Remaining, Rest, Targets, Bits;
    if i == |s| {
      NoneLeft(s, marks, i, prev);
    } else {
      RemainingNext(s, marks, i, prev);
      Decides(s, marks, i, prev);
      SplitStep(s, i, prev);
      SplitsNext(s, marks, i);
      if IsCandidate(prev, s[i]) && i + 5 <= |s| {
        Leaps(marks, i);
        OverOperand(s, marks, i);
        Sweep(s, i + 5, s[i + 4], marks);
      } else {
        Uncovered(marks, i);
        Sweep(s, i + 1, s[i], marks);
        assert forall c: seq<Byte> :: [] + c == c;
        assert forall c: seq<Choice> :: [] + c == c;
      }
    }
  }

  lemma Uncovered(marks: set<int>, i: int)
    requires !Covered(marks, i) && i !in marks
    ensures !Covered(marks, i + 1)
  {
  }

  lemma NoneLeft(s: seq<Byte>, marks: set<int>, i: nat, prev: Byte)
    requires i == |s| && Remaining(s, marks, i, prev)
    ensures forall p :: p >= i ==> p !in marks && !Marked(s, marks, p)
    ensures Splits(SplitFrom(s[i..], i, prev), s, marks, i)
  {
    assert s[i..] == [];
  }

  /**
   The streams of any input: the marked branches' targets, most significant byte first, calls and jumps apart; the
   input without those operands; and one control bit for every opcode met.
   */
  lemma EncodedMeans(input: seq<Byte>) returns (marks: set<int>)
    ensures Marks(input, marks)
    ensures Encoded(input).main == Rest(input, marks, 0)
    ensures Encoded(input).call == Targets(input, marks, 0, true)
    ensures Encoded(input).jump == Targets(input, marks, 0, false)
    ensures Encoded(input).rc == ControlStream(Bits(input, marks, 0))
  {
    hide SplitFrom, Rest, Targets, Bits, ControlStream, IsCandidate, Opcode;
    marks := Places(input, 0, 0);
    assert input[0..] == input;
    Sweep(input, 0, 0, marks);
    forall p ensures p in marks <==> Marked(input, marks, p) {
      if p < 0 {
        assert !Opcode(input, p) by { NoOpcode(input, p); }
      }
    }
  }

  lemma NoOpcode(s: seq<Byte>, p: int)
    requires p < 0
    ensures !Opcode(s, p)
  {
  }

  // ----- a known stream

  /** Two jumps to the instruction behind them. */
  lemma TwoJumps()
    ensures Encoded([0xE9, 0, 0, 0, 0, 0xE9, 0, 0, 0, 0]) ==
      Streams([0xE9, 0xE9], [], [0, 0, 0, 5, 0, 0, 0, 10], [0, 0xBD, 0xFF, 0xFC, 0])
  {
    var s: seq<Byte> := [0xE9, 0, 0, 0, 0, 0xE9, 0, 0, 0, 0];
    TwoBits();
    BothJumps(s);
    hide SplitFrom, ControlStream;
  }

  lemma BothJumps(s: seq<Byte>)
    requires s == [0xE9, 0, 0, 0, 0, 0xE9, 0, 0, 0, 0]
    ensures SplitFrom(s, 0, 0) ==
      Split([0xE9, 0xE9], [], [0, 0, 0, 5, 0, 0, 0, 10], [Choice(1, true), Choice(1, true)])
  {
    TwoTargets(s);
    hide SplitFrom, BigEndian, Target;
    SplitNothing(10, 0);
    assert s[10..] == [] && s[0..] == s;
    OneJump(s, 5);
    var t: seq<Byte> := [0, 0, 0, 10];
    assert [0xE9] + [] == [0xE9] && t + [] == t && [Choice(1, true)] + [] == [Choice(1, true)];
    OneJump(s, 0);
    assert [0xE9] + [0xE9] == [0xE9, 0xE9] && [0, 0, 0, 5] + t == [0, 0, 0, 5, 0, 0, 0, 10];
    assert [Choice(1, true)] + [Choice(1, true)] == [Choice(1, true), Choice(1, true)];
  }

  lemma OneJump(s: seq<Byte>, i: nat)
    requires i + 5 <= |s| && s[i] == 0xE9 && s[i + 4] == 0
    ensures var n := SplitFrom(s[i + 5..], i + 5, 0);
      SplitFrom(s[i..], i, 0) ==
        Split([0xE9] + n.main, n.call, BigEndian(Target(s, i)) + n.jump, [Choice(1, true)] + n.control)
  {
    hide SplitFrom, BigEndian, Target;
    SplitStep(s, i, 0);
    var n := SplitFrom(s[i + 5..], i + 5, 0);
    assert [] + n.call == n.call;
  }

  lemma SplitNothing(at: nat, prev: Byte)
    ensures SplitFrom([], at, prev) == Split([], [], [], [])
  {
  }

  lemma TwoTargets(s: seq<Byte>)
    requires s == [0xE9, 0, 0, 0, 0, 0xE9, 0, 0, 0, 0]
    ensures BigEndian(Target(s, 0)) == [0, 0, 0, 5] && BigEndian(Target(s, 5)) == [0, 0, 0, 10]
  {
  }

  lemma TwoBits()
    ensures ControlStream([Choice(1, true), Choice(1, true)]) == [0, 0xBD, 0xFF, 0xFC, 0]
  {
    var probs := FreshProbs();
    var next := Adapted(probs, 1, true);
    assert probs[1] == 1024 && next[1] == 992;
    var two: seq<Choice> := [Choice(1, true), Choice(1, true)];
    var one: seq<Choice> := [Choice(1, true)];
    assert two[1..] == one && one[1..] == [];
    var ds := Decisions(two, probs);
    assert Decisions(one, next) == [Decision(992, true)] + Decisions([], Adapted(next, 1, true));
    assert ds == [Decision(1024, true)] + Decisions(one, next);
    assert ds == [Decision(1024, true), Decision(992, true)];
    OneBit(START, 1024, true, ds);
    var c := Coder(0x7FFF_FC00, 0x8000_03FF, 0);
    assert Normal(Narrow(START, 1024, true)) == c;
    OneBit(c, 992, true, ds[1..]);
    var f := Coder(0xBDFF_FC00, 0x4200_03FF, 0);
    assert Normal(Narrow(c, 992, true)) == f;
    assert Code([], f) == f;
    FiveBytes();
  }

  lemma OneBit(c: Coder, p: Prob, bit: bool, ds: seq<Decision>)
    requires c.range >= TOP && ds != [] && ds[0] == Decision(p, bit)
    ensures Code(ds, c) == Code(ds[1..], Normal(Narrow(c, p, bit)))
  {
  }

  lemma FiveBytes()
    ensures ToBytes(0xBDFF_FC00, 5) == [0, 0xBD, 0xFF, 0xFC, 0]
  {
    assert ToBytes(0xBD, 2) == [0, 0xBD];
    assert ToBytes(0xBDFF, 3) == [0, 0xBD] + [0xFF];
    assert ToBytes(0xBDFF_FC, 4) == [0, 0xBD, 0xFF] + [0xFC];
  }
}
