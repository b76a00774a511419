/** BCJ2: the four-stream x86 branch filter over the adaptive range coder. */
module Bcj2 {
  import opened Words
  import opened RangeCoder

  const NUM_PROBS := 258

  /** The probability models: one for `0F 8x`, one for `E9`, and one for `E8` after each byte. */
  type Probs = s: seq<Prob> | |s| == NUM_PROBS witness seq(258, _ => 1024)

  function FreshProbs(): Probs {
    seq(NUM_PROBS, _ => PROB_INIT)
  }

  type Model = i: nat | i < NUM_PROBS

  /** One bit of the control stream and the model it is coded with. */
  datatype Choice = Choice(model: Model, bit: bool)

  predicate IsCandidate(prev: Byte, b: Byte) {
    b == 0xE8 || b == 0xE9 || (prev == 0x0F && b / 0x10 == 8)
  }

  function ProbIndex(b: Byte, prev: Byte): Model {
    if b == 0xE8 then prev + 2 else if b == 0xE9 then 1 else 0
  }

  // ----- splitting

  /** What a suffix of the input contributes to the four streams; the control stream as model index and bit. */
  datatype Split = Split(main: seq<Byte>, call: seq<Byte>, jump: seq<Byte>, control: seq<Choice>)

  /** The absolute target of a relative operand whose first byte is at output position `at`. */
  function Absolute(rel: Word, at: int): Word {
    var r: int := rel;
    Wrap(r + Wrap(at + 4))
  }

  function Relative(abs: Word, at: int): Word {
    Wrap(abs - Wrap(at + 4))
  }

  /** Split `s`, whose first byte is at position `at` and follows `prev`. */
  function SplitFrom(s: seq<Byte>, at: nat, prev: Byte): Split
    decreases |s|
  {
    if s == [] then Split([], [], [], [])
    else
      var b := s[0];
      var index := ProbIndex(b, prev);
      if !IsCandidate(prev, b) then
        var r := SplitFrom(s[1..], at + 1, b);
        r.(main := [b] + r.main)
      else if |s| < 5 then
        var r := SplitFrom(s[1..], at + 1, b);
        r.(main := [b] + r.main, control := [Choice(index, false)] + r.control)
      else
        var abs := StoreBe(Absolute(LoadLe(s[1..5]), at + 1));
        var r := SplitFrom(s[5..], at + 5, s[4]);
        if b == 0xE8 then
          r.(main := [b] + r.main, call := abs + r.call, control := [Choice(index, true)] + r.control)
        else
          r.(main := [b] + r.main, jump := abs + r.jump, control := [Choice(index, true)] + r.control)
  }

  /** The control bits with the adaptive probabilities they are coded with. */
  function Decisions(control: seq<Choice>, probs: Probs): seq<Decision> {
    if control == [] then []
    else
      var c := control[0];
      [Decision(probs[c.model], c.bit)] + Decisions(control[1..], Adapted(probs, c.model, c.bit))
  }

  function Adapted(probs: Probs, m: Model, bit: bool): Probs {
    probs[m := Adapt(probs[m], bit)]
  }

  /** The control stream. */
  function ControlStream(control: seq<Choice>): seq<Byte> {
    StreamBytes(Code(Decisions(control, FreshProbs()), START))
  }

  datatype Streams = Streams(main: seq<Byte>, call: seq<Byte>, jump: seq<Byte>, rc: seq<Byte>)

  function Encoded(input: seq<Byte>): Streams {
    var r := SplitFrom(input, 0, 0);
    Streams(r.main, r.call, r.jump, ControlStream(r.control))
  }

  // ----- joining

  /** Rebuild the last `left` bytes of the output from what is left of the streams. */
  function JoinFrom(main: seq<Byte>, call: seq<Byte>, jump: seq<Byte>, rc: seq<Byte>, d: Dec, probs: Probs,
                    left: nat, at: nat, prev: Byte): Result<seq<Byte>>
    decreases left
  {
    if left == 0 then Ok([])
    else if main == [] then Err(UnexpectedEnd)
    else
      var b := main[0];
      if !IsCandidate(prev, b) then
        Before([b], JoinFrom(main[1..], call, jump, rc, d, probs, left - 1, at + 1, b))
      else
        var index := ProbIndex(b, prev);
        match DecodeBit(d, rc, probs[index])
        case Err(e) => Err(e)
        case Ok(step) =>
          var d' := step.0;
          var probs' := Adapted(probs, index, step.1);
          if !step.1 then
            Before([b], JoinFrom(main[1..], call, jump, rc, d', probs', left - 1, at + 1, b))
          else if left - 1 < 4 then Err(Corrupt)
          else
            var src := if b == 0xE8 then call else jump;
            if |src| < 4 then Err(UnexpectedEnd)
            else
              var rel := StoreLe(Relative(LoadBe(src[..4]), at + 1));
              var call' := if b == 0xE8 then call[4..] else call;
              var jump' := if b == 0xE8 then jump else jump[4..];
              Before([b] + rel, JoinFrom(main[1..], call', jump', rc, d', probs', left - 5, at + 5, rel[3]))
  }

  function Before(b: seq<Byte>, r: Result<seq<Byte>>): Result<seq<Byte>> {
    match r
    case Err(e) => Err(e)
    case Ok(rest) => Ok(b + rest)
  }

  function Decoded(s: Streams, outLen: nat): Result<seq<Byte>> {
    if outLen > |s.main| + |s.call| + |s.jump| then Err(UnexpectedEnd)
    else
      match Open(s.rc)
      case Err(e) => Err(e)
      case Ok(d) => JoinFrom(s.main, s.call, s.jump, s.rc, d, FreshProbs(), outLen, 0, 0)
  }

  // ----- the round trip

  lemma RelativeAbsolute(rel: Word, at: int)
    ensures Relative(Absolute(rel, at), at) == rel
  {
    var r: int, k: int := rel, Wrap(at + 4);
    ModShift(Wrap(r + k), r + k, -k, 0x1_0000_0000);
  }

  /** No byte is lost or added: the three byte streams together are as long as the input. */
  lemma {:induction false} SplitLength(s: seq<Byte>, at: nat, prev: Byte)
    ensures var r := SplitFrom(s, at, prev);
      |r.main| + |r.call| + |r.jump| == |s|
    decreases |s|
  {
    if s != [] {
      if IsCandidate(prev, s[0]) && |s| >= 5 {
        SplitLength(s[5..], at + 5, s[4]);
      } else {
        SplitLength(s[1..], at + 1, s[0]);
      }
    }
  }

  /** One coded choice is read back, and both sides go on with the same interval. */
  lemma ChoiceTracks(d: Dec, rc: seq<Byte>, c: Coder, f: Coder, probs: Probs, first: Choice, rest: seq<Choice>)
    requires c.range >= 0x1_0000 && Tracks(d, rc, c) && StreamOf(rc, f)
    requires f == Code(Decisions([first] + rest, probs), Normal(c))
    ensures var n := Narrow(Normal(c), probs[first.model], first.bit);
      var r := DecodeBit(d, rc, probs[first.model]);
      && n.range >= 0x1_0000
      && r.Ok? && r.value.1 == first.bit && Tracks(r.value.0, rc, n)
      && f == Code(Decisions(rest, Adapted(probs, first.model, first.bit)), Normal(n))
  {
    var p := probs[first.model];
    var n := Narrow(Normal(c), p, first.bit);
    var ds := Decisions(rest, Adapted(probs, first.model, first.bit));
    assert ([first] + rest)[1..] == rest;
    var all := Decisions([first] + rest, probs);
    assert all[0] == Decision(p, first.bit) && all[1..] == ds;
    CodeWithin(ds, Normal(n));
    WithinNormal(f, n);
    DecodeBitTracks(d, rc, c, f, p, first.bit);
  }

  /**
   The decoder rebuilds every suffix of the input from what the splitter made of it.  Its range decoder lags one
   renormalisation behind the encoder's coder.
   */
  lemma {:induction false} JoinInverse(s: seq<Byte>, at: nat, prev: Byte, rc: seq<Byte>, f: Coder, c: Coder, d: Dec,
                                       probs: Probs)
    requires c.range >= 0x1_0000 && Tracks(d, rc, c) && StreamOf(rc, f)
    requires f == Code(Decisions(SplitFrom(s, at, prev).control, probs), Normal(c))
    ensures var r := SplitFrom(s, at, prev);
      JoinFrom(r.main, r.call, r.jump, rc, d, probs, |s|, at, prev) == Ok(s)
    decreases |s|
  {
    if s != [] {
      var b, r := s[0], SplitFrom(s, at, prev);
      assert s == [b] + s[1..];
      if !IsCandidate(prev, b) {
        JoinInverse(s[1..], at + 1, b, rc, f, c, d, probs);
        assert r.main[1..] == SplitFrom(s[1..], at + 1, b).main;
      } else {
        var first := Choice(ProbIndex(b, prev), |s| >= 5);
        var p := probs[first.model];
        var rest := if first.bit then SplitFrom(s[5..], at + 5, s[4]) else SplitFrom(s[1..], at + 1, b);
        assert r.control == [first] + rest.control;
        ChoiceTracks(d, rc, c, f, probs, first, rest.control);
        var d' := DecodeBit(d, rc, p).value.0;
        var n := Narrow(Normal(c), p, first.bit);
        var probs' := Adapted(probs, first.model, first.bit);
        assert r.main[1..] == rest.main;
        if first.bit {
          JoinInverse(s[5..], at + 5, s[4], rc, f, n, d', probs');
          OperandBack(s, at, b, r, rest);
        } else {
          JoinInverse(s[1..], at + 1, b, rc, f, n, d', probs');
        }
      }
    }
  }

  /** The operand is read back from the stream it went to. */
  lemma OperandBack(s: seq<Byte>, at: nat, b: Byte, r: Split, rest: Split)
    requires |s| >= 5
    requires var abs := StoreBe(Absolute(LoadLe(s[1..5]), at + 1));
      if b == 0xE8 then r.call == abs + rest.call && r.jump == rest.jump
      else r.call == rest.call && r.jump == abs + rest.jump
    ensures var src := if b == 0xE8 then r.call else r.jump;
      && |src| >= 4
      && StoreLe(Relative(LoadBe(src[..4]), at + 1)) == s[1..5]
      && src[4..] == (if b == 0xE8 then rest.call else rest.jump)
      && [s[0]] + s[1..5] + s[5..] == s
  {
    RelativeAbsolute(LoadLe(s[1..5]), at + 1);
    StoreLoadLe(s[1..5]);
    var abs := StoreBe(Absolute(LoadLe(s[1..5]), at + 1));
    HeadTail(abs, if b == 0xE8 then rest.call else rest.jump);
  }

  /** Decoding the four streams of any input gives the input back. */
  lemma RoundTrip(input: seq<Byte>)
    ensures var s := Encoded(input);
      && Decoded(s, |input|) == Ok(input)
      && |s.main| + |s.call| + |s.jump| == |input|
      && |s.rc| >= 5 && s.rc[0] == 0
  {
    var control := SplitFrom(input, 0, 0).control;
    var ds := Decisions(control, FreshProbs());
    var f := Code(ds, START);
    RunStream(ds);
    OpenTracks(StreamBytes(f), f);
    SplitLength(input, 0, 0);
    JoinInverse(input, 0, 0, StreamBytes(f), f, START, Open(StreamBytes(f)).value, FreshProbs());
  }

  // ----- the code as it runs

  /** The parts built so far and the split of the remaining input make up the whole; so do the control bits. */
  ghost predicate Building(all: Split, f: Coder, main: seq<Byte>, call: seq<Byte>, jump: seq<Byte>, rest: Split,
                           probs: Probs, coder: Coder) {
    && all.main == main + rest.main && all.call == call + rest.call && all.jump == jump + rest.jump
    && coder.range >= TOP
    && f == Code(Decisions(rest.control, probs), coder)
  }

  lemma CodeChoice(first: Choice, rest: seq<Choice>, probs: Probs, coder: Coder)
    requires coder.range >= TOP
    ensures Code(Decisions([first] + rest, probs), coder) ==
      Code(Decisions(rest, Adapted(probs, first.model, first.bit)), Normal(Narrow(coder, probs[first.model], first.bit)))
  {
    assert ([first] + rest)[1..] == rest;
    var all := Decisions([first] + rest, probs);
    assert all[1..] == Decisions(rest, Adapted(probs, first.model, first.bit));
  }

  lemma BuildPlain(all: Split, f: Coder, main: seq<Byte>, call: seq<Byte>, jump: seq<Byte>, probs: Probs,
                   coder: Coder, s: seq<Byte>, at: nat, prev: Byte)
    requires s != [] && !IsCandidate(prev, s[0])
    requires Building(all, f, main, call, jump, SplitFrom(s, at, prev), probs, coder)
    ensures Building(all, f, main + [s[0]], call, jump, SplitFrom(s[1..], at + 1, s[0]), probs, coder)
  {
    ConcatAssoc(main, [s[0]], SplitFrom(s[1..], at + 1, s[0]).main);
  }

  lemma BuildShort(all: Split, f: Coder, main: seq<Byte>, call: seq<Byte>, jump: seq<Byte>, probs: Probs,
                   coder: Coder, s: seq<Byte>, at: nat, prev: Byte)
    requires 0 < |s| < 5 && IsCandidate(prev, s[0])
    requires Building(all, f, main, call, jump, SplitFrom(s, at, prev), probs, coder)
    ensures var m := ProbIndex(s[0], prev);
      Building(all, f, main + [s[0]], call, jump, SplitFrom(s[1..], at + 1, s[0]), Adapted(probs, m, false),
               Normal(Narrow(coder, probs[m], false)))
  {
    var r := SplitFrom(s[1..], at + 1, s[0]);
    ConcatAssoc(main, [s[0]], r.main);
    CodeChoice(Choice(ProbIndex(s[0], prev), false), r.control, probs, coder);
  }

  lemma BuildBranch(all: Split, f: Coder, main: seq<Byte>, call: seq<Byte>, jump: seq<Byte>, probs: Probs,
                    coder: Coder, s: seq<Byte>, at: nat, prev: Byte)
    requires 5 <= |s| && IsCandidate(prev, s[0])
    requires Building(all, f, main, call, jump, SplitFrom(s, at, prev), probs, coder)
    ensures var m := ProbIndex(s[0], prev);
      var abs := StoreBe(Absolute(LoadLe(s[1..5]), at + 1));
      Building(all, f, main + [s[0]],
               if s[0] == 0xE8 then call + abs else call, if s[0] == 0xE8 then jump else jump + abs,
               SplitFrom(s[5..], at + 5, s[4]), Adapted(probs, m, true), Normal(Narrow(coder, probs[m], true)))
  {
    var r := SplitFrom(s[5..], at + 5, s[4]);
    var abs := StoreBe(Absolute(LoadLe(s[1..5]), at + 1));
    ConcatAssoc(main, [s[0]], r.main);
    ConcatAssoc(call, abs, r.call);
    ConcatAssoc(jump, abs, r.jump);
    CodeChoice(Choice(ProbIndex(s[0], prev), true), r.control, probs, coder);
  }

  lemma BuildStart(input: seq<Byte>)
    ensures var all := SplitFrom(input, 0, 0);
      Building(all, Code(Decisions(all.control, FreshProbs()), START), [], [], [], all, FreshProbs(), START)
  {
    var all := SplitFrom(input, 0, 0);
    assert [] + all.main == all.main && [] + all.call == all.call && [] + all.jump == all.jump;
  }

  lemma BuildEnd(input: seq<Byte>, main: seq<Byte>, call: seq<Byte>, jump: seq<Byte>, probs: Probs, coder: Coder,
                 at: nat, prev: Byte)
    requires var all := SplitFrom(input, 0, 0);
      Building(all, Code(Decisions(all.control, FreshProbs()), START), main, call, jump, SplitFrom([], at, prev),
               probs, coder)
    ensures Encoded(input) == Streams(main, call, jump, StreamBytes(coder))
  {
    assert main + [] == main && call + [] == call && jump + [] == jump;
  }

  /** Split a payload into the four streams. */
  method Encode(input: seq<Byte>) returns (s: Streams)
    ensures s == Encoded(input)
  {
    hide Building, SplitFrom, Encoded, Absolute, LoadLe, StoreBe, IsCandidate, ProbIndex, Normal, Narrow, Code,
      Decisions, FreshProbs, RangeEnc.Valid;
    var main: seq<Byte>, call: seq<Byte>, jump: seq<Byte> := [], [], [];
    var probs := NewProbs();
    var rc := new RangeEnc();
    ghost var all := SplitFrom(input, 0, 0);
    ghost var f := Code(Decisions(all.control, FreshProbs()), START);

    var i := 0;
    var prev: Byte := 0;
    BuildStart(input);
    assert input[0..] == input;
    while i < |input|
      invariant 0 <= i <= |input| && probs.Length == NUM_PROBS && rc.Valid() && fresh(rc) && fresh(probs)
      invariant Building(all, f, main, call, jump, SplitFrom(input[i..], i, prev), probs[..], rc.coder)
      decreases |input| - i
    {
      ghost var rest, was, at, before := input[i..], probs[..], i, prev;
      ghost var main0, coder0 := main, rc.coder;
      var b := input[i];
      main := main + [b];
      var candidate := IsCandidate(prev, b);
      var pidx := ProbIndex(b, prev);
      prev := b;
      i := i + 1;
      TailTail(input, at, 1);
      if !candidate {
        BuildPlain(all, f, main0, call, jump, was, coder0, rest, at, before);
        continue;
      }
      if i + 4 > |input| {
        BuildShort(all, f, main0, call, jump, was, coder0, rest, at, before);
        probs[pidx] := rc.EncodeBit(probs[pidx], false);
        assert probs[..] == Adapted(was, pidx, false);
        continue;
      }
      BuildBranch(all, f, main0, call, jump, was, coder0, rest, at, before);
      var rel := LoadLe(input[i..i + 4]);
      assert rest[1..5] == input[i..i + 4];
      var abs := StoreBe(Absolute(rel, i));
      probs[pidx] := rc.EncodeBit(probs[pidx], true);
      assert probs[..] == Adapted(was, pidx, true);
      if b == 0xE8 {
        call := call + abs;
      } else {
        jump := jump + abs;
      }
      i := i + 4;
      prev := input[i - 1];
      TailTail(input, at, 5);
    }
    assert input[i..] == [];
    BuildEnd(input, main, call, jump, probs[..], rc.coder, i, prev);
    var control := rc.Finish();
    s := Streams(main, call, jump, control);
  }

  method NewProbs() returns (probs: array<Prob>)
    ensures fresh(probs) && probs.Length == NUM_PROBS && probs[..] == FreshProbs()
  {
    probs := new Prob[NUM_PROBS](_ => PROB_INIT);
  }

  /** The verdict on the whole output, given what has been rebuilt and the verdict on the rest. */
  lemma BeforeAssoc(a: seq<Byte>, b: seq<Byte>, r: Result<seq<Byte>>)
    ensures Before(a, Before(b, r)) == Before(a + b, r)
  {
    if r.Ok? {
      ConcatAssoc(a, b, r.value);
    }
  }

  /** The verdict on the whole output follows from what is rebuilt and what the rest of the streams will say. */
  ghost predicate Joining(verdict: Result<seq<Byte>>, done: seq<Byte>, main: seq<Byte>, call: seq<Byte>,
                          jump: seq<Byte>, rc: seq<Byte>, d: Dec, probs: Probs, left: nat, at: nat, prev: Byte) {
    verdict == Before(done, JoinFrom(main, call, jump, rc, d, probs, left, at, prev))
  }

  lemma JoiningStart(s: Streams, d: Dec, outLen: nat)
    requires outLen <= |s.main| + |s.call| + |s.jump| && Open(s.rc) == Ok(d)
    ensures Joining(Decoded(s, outLen), [], s.main[0..], s.call[0..], s.jump[0..], s.rc, d, FreshProbs(), outLen, 0, 0)
  {
    assert s.main[0..] == s.main && s.call[0..] == s.call && s.jump[0..] == s.jump;
    assert forall t: seq<Byte> :: [] + t == t;
  }

  lemma JoiningEnd(verdict: Result<seq<Byte>>, done: seq<Byte>, main: seq<Byte>, call: seq<Byte>, jump: seq<Byte>,
                   rc: seq<Byte>, d: Dec, probs: Probs, at: nat, prev: Byte)
    requires Joining(verdict, done, main, call, jump, rc, d, probs, 0, at, prev)
    ensures verdict == Ok(done)
  {
    assert done + [] == done;
  }

  /** One turn of the decoder: the byte copied, the bit read, the operand restored, or the error. */
  lemma JoiningNext(verdict: Result<seq<Byte>>, done: seq<Byte>, main: seq<Byte>, call: seq<Byte>, jump: seq<Byte>,
                    rc: seq<Byte>, d: Dec, probs: Probs, left: nat, at: nat, prev: Byte)
    requires left > 0 && Joining(verdict, done, main, call, jump, rc, d, probs, left, at, prev)
    ensures main == [] ==> verdict == Err(UnexpectedEnd)
    ensures main != [] && !IsCandidate(prev, main[0]) ==>
      Joining(verdict, done + [main[0]], main[1..], call, jump, rc, d, probs, left - 1, at + 1, main[0])
    ensures main != [] && IsCandidate(prev, main[0]) ==>
      var b := main[0];
      var m := ProbIndex(b, prev);
      match DecodeBit(d, rc, probs[m])
      case Err(e) => verdict == Err(e)
      case Ok(step) =>
        var probs' := Adapted(probs, m, step.1);
        var src := if b == 0xE8 then call else jump;
        if !step.1 then
          Joining(verdict, done + [b], main[1..], call, jump, rc, step.0, probs', left - 1, at + 1, b)
        else if left < 5 then verdict == Err(Corrupt)
        else if |src| < 4 then verdict == Err(UnexpectedEnd)
        else
          var rel := StoreLe(Relative(LoadBe(src[..4]), at + 1));
          Joining(verdict, (done + [b]) + rel, main[1..], if b == 0xE8 then call[4..] else call,
                  if b == 0xE8 then jump else jump[4..], rc, step.0, probs', left - 5, at + 5, rel[3])
  {
    hide Relative, LoadBe, StoreLe, IsCandidate, ProbIndex, DecodeBit, Adapted, Before;
    if main != [] {
      var b := main[0];
      BeforeAssoc(done, [b], JoinFrom(main[1..], call, jump, rc, d, probs, left - 1, at + 1, b));
      if IsCandidate(prev, b) {
        BeforeErr(done);
        var m := ProbIndex(b, prev);
        var bit := DecodeBit(d, rc, probs[m]);
        if bit.Ok? {
          var d' := bit.value.0;
          var probs' := Adapted(probs, m, bit.value.1);
          var src := if b == 0xE8 then call else jump;
          if !bit.value.1 {
            BeforeAssoc(done, [b], JoinFrom(main[1..], call, jump, rc, d', probs', left - 1, at + 1, b));
          } else if left >= 5 && |src| >= 4 {
            var rel := StoreLe(Relative(LoadBe(src[..4]), at + 1));
            ConcatAssoc(done, [b], rel);
            BeforeAssoc(done, [b] + rel,
                        JoinFrom(main[1..], if b == 0xE8 then call[4..] else call, if b == 0xE8 then jump else jump[4..],
                                 rc, d', probs', left - 5, at + 5, rel[3]));
          }
        }
      }
    }
    BeforeErr(done);
  }

  lemma BeforeErr(b: seq<Byte>)
    ensures forall e :: Before(b, Err(e)) == Err(e)
  {
  }

  /** Store a restored operand. */
  method PutOperand(out: array<Byte>, op: nat, rel: seq<Byte>)
    requires |rel| == 4 && op + 4 <= out.Length
    modifies out
    ensures out[..op + 4] == old(out[..op]) + rel
  {
    out[op] := rel[0];
    out[op + 1] := rel[1];
    out[op + 2] := rel[2];
    out[op + 3] := rel[3];
  }

  /** Decode one bit with model `m`, which adapts. */
  method TakeBit(rd: RangeDec, probs: array<Prob>, m: Model) returns (bit: Result<bool>)
    requires probs.Length == NUM_PROBS
    modifies rd, probs
    ensures match DecodeBit(old(rd.Regs()), rd.rc, old(probs[m]))
            case Ok((d, b)) => bit == Ok(b) && rd.Regs() == d && probs[..] == Adapted(old(probs[..]), m, b)
            case Err(e) => bit == Err(e)
  {
    hide DecodeBit;
    var adapted;
    bit, adapted := rd.Decode(probs[m]);
    probs[m] := adapted;
  }

  /** Restore the next operand of `src` at `op`; its last byte is the new previous byte. */
  method TakeOperand(src: seq<Byte>, at: nat, out: array<Byte>, op: nat) returns (prev: Byte)
    requires at + 4 <= |src| && op + 4 <= out.Length
    modifies out
    ensures src[at..][4..] == src[at + 4..]
    ensures var rel := StoreLe(Relative(LoadBe(src[at..][..4]), op));
      prev == rel[3] && out[..op + 4] == old(out[..op]) + rel
  {
    hide Relative, LoadBe, StoreLe;
    assert src[at..][..4] == src[at..at + 4];
    TailTail(src, at, 4);
    var rel := StoreLe(Relative(LoadBe(src[at..at + 4]), op));
    PutOperand(out, op, rel);
    prev := rel[3];
  }

  /** Recombine the four streams into `outLen` bytes. */
  method Decode(s: Streams, outLen: nat) returns (r: Result<seq<Byte>>)
    ensures r == Decoded(s, outLen)
  {
    if outLen > |s.main| + |s.call| + |s.jump| {
      return Err(UnexpectedEnd);
    }
    var out := new Byte[outLen];
    var probs := NewProbs();
    var start := Open(s.rc);
    if start.Err? {
      return Err(start.error);
    }
    hide JoinFrom, Joining, Decoded, Open, Relative, LoadBe, StoreLe, IsCandidate, ProbIndex, DecodeBit, FreshProbs;
    hide Before, Adapt;
    var rd := new RangeDec(s.rc, start.value);
    ghost var verdict := Decoded(s, outLen);
    JoiningStart(s, start.value, outLen);

    var mp, cp, jp, op := 0, 0, 0, 0;
    var prev: Byte := 0;
    assert out[..0] == [];
    while op < outLen
      invariant 0 <= op <= outLen == out.Length && mp <= |s.main| && cp <= |s.call| && jp <= |s.jump|
      invariant probs.Length == NUM_PROBS && fresh(probs) && fresh(rd) && fresh(out) && rd.rc == s.rc
      invariant out as object != probs as object
      invariant Joining(verdict, out[..op], s.main[mp..], s.call[cp..], s.jump[jp..], s.rc, rd.Regs(), probs[..],
                        outLen - op, op, prev)
      decreases outLen - op
    {
      ghost var done, was := out[..op], probs[..];
      JoiningNext(verdict, done, s.main[mp..], s.call[cp..], s.jump[jp..], s.rc, rd.Regs(), was, outLen - op, op, prev);
      if mp >= |s.main| {
        return Err(UnexpectedEnd);
      }
      var b := s.main[mp];
      TailTail(s.main, mp, 1);
      mp := mp + 1;
      out[op] := b;
      op := op + 1;
      assert out[..op] == done + [b];

      var candidate := IsCandidate(prev, b);
      var before := prev;
      prev := b;
      if !candidate {
        continue;
      }
      var pidx := ProbIndex(b, before);
      var bit := TakeBit(rd, probs, pidx);
      if bit.Err? {
        return Err(bit.error);
      }
      if !bit.value {
        continue;
      }
      if outLen - op < 4 {
        return Err(Corrupt);
      }
      var src, at := if b == 0xE8 then s.call else s.jump, if b == 0xE8 then cp else jp;
      if at + 4 > |src| {
        return Err(UnexpectedEnd);
      }
      prev := TakeOperand(src, at, out, op);
      cp, jp, op := if b == 0xE8 then cp + 4 else cp, if b == 0xE8 then jp else jp + 4, op + 4;
    }
    JoiningEnd(verdict, out[..op], s.main[mp..], s.call[cp..], s.jump[jp..], s.rc, rd.Regs(), probs[..], op, prev);
    assert out[..op] == out[..];
    return Ok(out[..]);
  }
}
