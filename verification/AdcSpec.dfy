/** Apple Data Compression on values: what token bytes do, self-overlapping copies, and what a stream decodes to. */
module AdcSpec {
  import opened Words

  const MAX_LONG_OFFSET := 65536
  const MAX_SHORT_OFFSET := 1024
  const MAX_LONG_MATCH := 67
  const MAX_SHORT_MATCH := 18
  const MIN_MATCH := 3
  const MAX_LITERAL_RUN := 128

  /** Copy `n` bytes from `d` back, one at a time: the copy may run into its own output. */
  function Copy(out: seq<Byte>, d: nat, n: nat): (r: seq<Byte>)
    requires 1 <= d <= |out|
    ensures |r| == |out| + n
    decreases n
  {
    if n == 0 then out else Copy(out + [out[|out| - d]], d, n - 1)
  }

  lemma {:induction false} CopyAdd(out: seq<Byte>, d: nat, m: nat, n: nat)
    requires 1 <= d <= |out|
    ensures Copy(Copy(out, d, m), d, n) == Copy(out, d, m + n)
    decreases m
  {
    if m > 0 {
      CopyAdd(out + [out[|out| - d]], d, m - 1, n);
    }
  }

  /** A copy no longer than its distance is a plain copy of a slice. */
  lemma {:induction false} CopySlice(out: seq<Byte>, d: nat, n: nat)
    requires 1 <= d <= |out| && n <= d
    ensures Copy(out, d, n) == out + out[|out| - d..|out| - d + n]
    decreases n
  {
    if n > 0 {
      CopySlice(out, d, n - 1);
      CopyAdd(out, d, n - 1, 1);
      var before := Copy(out, d, n - 1);
      assert before[|before| - d] == out[|out| - d + n - 1];
      assert Copy(before, d, 1) == Copy(before + [before[|before| - d]], d, 0);
    }
  }

  /** Text that repeats at distance `d` is what the copy makes. */
  lemma {:induction false} CopyRepeats(text: seq<Byte>, i: nat, d: nat, n: nat)
    requires 1 <= d <= i && i + n <= |text|
    requires forall k :: i <= k < i + n ==> text[k] == text[k - d]
    ensures Copy(text[..i], d, n) == text[..i + n]
    decreases n
  {
    if n > 0 {
      assert text[i] == text[i - d];
      assert text[..i] + [text[..i][i - d]] == text[..i + 1];
      CopyRepeats(text, i + 1, d, n - 1);
    }
  }

  // ----- tokens

  datatype Phase =
    | Tag
    | Literal(remaining: nat)
    | LongHi(length: nat)
    | LongLo(length: nat, hi: nat)
    | ShortLo(length: nat, hi: nat)

  datatype State = State(phase: Phase, out: seq<Byte>)

  const START := State(Tag, [])

  /** One byte of the stream; `None` is a distance that reaches back too far. */
  function Step(st: State, b: Byte): Option<State> {
    match st.phase
    case Tag =>
      Some(State(if b >= 0x80 then Literal(b - 0x80 + 1)
                 else if b >= 0x40 then LongHi(b % 0x40 + 4)
                 else ShortLo(b / 4 % 0x10 + 3, b % 4), st.out))
    case Literal(r) => Some(State(if r <= 1 then Tag else Literal(r - 1), st.out + [b]))
    case LongHi(len) => Some(State(LongLo(len, b), st.out))
    case LongLo(len, hi) => Reach(st.out, hi * 0x100 + b + 1, len)
    case ShortLo(len, hi) => Reach(st.out, hi * 0x100 + b + 1, len)
  }

  function Reach(out: seq<Byte>, d: nat, len: nat): Option<State>
    requires d >= 1
  {
    if d > |out| then None else Some(State(Tag, Copy(out, d, len)))
  }

  function Run(bytes: seq<Byte>): Option<State> {
    if bytes == [] then Some(START)
    else
      var before := Run(bytes[..|bytes| - 1]);
      if before.None? then None else Step(before.value, bytes[|bytes| - 1])
  }

  lemma RunMore(bytes: seq<Byte>, b: Byte)
    ensures Run(bytes + [b]) == if Run(bytes).None? then None else Step(Run(bytes).value, b)
  {
    assert (bytes + [b])[..|bytes|] == bytes;
  }

  /** Once a stream is refused it stays refused. */
  lemma {:induction false} RunRefused(bytes: seq<Byte>, more: seq<Byte>)
    requires Run(bytes).None?
    ensures Run(bytes + more).None?
    decreases |more|
  {
    if more == [] {
      assert bytes + more == bytes;
    } else {
      var n := |more| - 1;
      RunRefused(bytes, more[..n]);
      assert bytes + more == (bytes + more[..n]) + [more[n]];
      RunMore(bytes + more[..n], more[n]);
    }
  }

  lemma {:induction false} CopyKeeps(out: seq<Byte>, d: nat, n: nat)
    requires 1 <= d <= |out|
    ensures out <= Copy(out, d, n)
    decreases n
  {
    if n > 0 {
      CopyKeeps(out + [out[|out| - d]], d, n - 1);
    }
  }

  lemma StepKeeps(st: State, b: Byte)
    ensures Step(st, b).Some? ==> st.out <= Step(st, b).value.out
  {
    if (st.phase.LongLo? || st.phase.ShortLo?) && st.phase.hi * 0x100 + b + 1 <= |st.out| {
      CopyKeeps(st.out, st.phase.hi * 0x100 + b + 1, st.phase.length);
    }
  }

  /** The beginning of a stream that is accepted is accepted, and decodes to the beginning of its text. */
  lemma {:induction false} RunParts(bytes: seq<Byte>, more: seq<Byte>)
    requires Run(bytes + more).Some?
    ensures Run(bytes).Some? && Run(bytes).value.out <= Run(bytes + more).value.out
    decreases |more|
  {
    hide Run, Step;
    if Run(bytes).None? {
      RunRefused(bytes, more);
    } else if more == [] {
      assert bytes + more == bytes;
    } else {
      var n := |more| - 1;
      assert bytes + more == (bytes + more[..n]) + [more[n]];
      RunMore(bytes + more[..n], more[n]);
      RunParts(bytes, more[..n]);
      StepKeeps(Run(bytes + more[..n]).value, more[n]);
    }
  }

  /** The bytes of a literal run follow each other to the output. */
  lemma {:induction false} RunLiterals(bytes: seq<Byte>, out: seq<Byte>, r: nat, lits: seq<Byte>)
    requires Run(bytes) == Some(State(Literal(r), out)) && |lits| <= r && r >= 1
    ensures Run(bytes + lits) == Some(State(if |lits| == r then Tag else Literal(r - |lits|), out + lits))
    decreases |lits|
  {
    if lits == [] {
      assert bytes + lits == bytes && out + lits == out;
    } else {
      var n := |lits| - 1;
      RunLiterals(bytes, out, r, lits[..n]);
      assert bytes + lits == (bytes + lits[..n]) + [lits[n]];
      assert out + lits == (out + lits[..n]) + [lits[n]];
      RunMore(bytes + lits[..n], lits[n]);
    }
  }

  /** A literal token. */
  lemma LiteralToken(bytes: seq<Byte>, out: seq<Byte>, lits: seq<Byte>)
    requires Run(bytes) == Some(State(Tag, out)) && 1 <= |lits| <= MAX_LITERAL_RUN
    ensures Run(bytes + ([(0x80 + |lits| - 1) as Byte] + lits)) == Some(State(Tag, out + lits))
  {
    hide Run;
    var tag: Byte := 0x80 + |lits| - 1;
    RunMore(bytes, tag);
    assert Step(State(Tag, out), tag) == Some(State(Literal(|lits|), out));
    RunLiterals(bytes + [tag], out, |lits|, lits);
    assert bytes + ([tag] + lits) == (bytes + [tag]) + lits;
  }

  function ShortToken(d: nat, len: nat): (t: seq<Byte>)
    requires 1 <= d <= MAX_SHORT_OFFSET && MIN_MATCH <= len <= MAX_SHORT_MATCH
  {
    [(len - MIN_MATCH) * 4 + (d - 1) / 0x100, (d - 1) % 0x100]
  }

  function LongToken(d: nat, len: nat): (t: seq<Byte>)
    requires 1 <= d <= MAX_LONG_OFFSET && 4 <= len <= MAX_LONG_MATCH
  {
    [0x40 + (len - 4), (d - 1) / 0x100, (d - 1) % 0x100]
  }

  lemma ShortTag(d: nat, len: nat)
    requires 1 <= d <= MAX_SHORT_OFFSET && MIN_MATCH <= len <= MAX_SHORT_MATCH
    ensures var t := ShortToken(d, len);
      t[0] < 0x40 && t[0] / 4 % 0x10 + 3 == len && t[0] % 4 == (d - 1) / 0x100
  {
    var q, r := len - MIN_MATCH, (d - 1) / 0x100;
    DivModUnique(4 * q + r, 4, q, r);
  }

  lemma OffsetBack(d: nat)
    requires d >= 1
    ensures (d - 1) / 0x100 * 0x100 + (d - 1) % 0x100 + 1 == d
  {
  }

  lemma ShortSteps(out: seq<Byte>, d: nat, len: nat)
    requires 1 <= d <= MAX_SHORT_OFFSET && MIN_MATCH <= len <= MAX_SHORT_MATCH
    ensures var t, hi := ShortToken(d, len), (d - 1) / 0x100;
      && Step(State(Tag, out), t[0]) == Some(State(ShortLo(len, hi), out))
      && Step(State(ShortLo(len, hi), out), t[1]) == Reach(out, d, len)
  {
    hide Reach;
    ShortTag(d, len);
    OffsetBack(d);
  }

  /** A short match token copies. */
  lemma ShortMatch(bytes: seq<Byte>, out: seq<Byte>, d: nat, len: nat)
    requires Run(bytes) == Some(State(Tag, out)) && d <= |out|
    requires 1 <= d <= MAX_SHORT_OFFSET && MIN_MATCH <= len <= MAX_SHORT_MATCH
    ensures Run(bytes + ShortToken(d, len)) == Some(State(Tag, Copy(out, d, len)))
  {
    hide Run, Step;
    var t := ShortToken(d, len);
    ShortSteps(out, d, len);
    RunMore(bytes, t[0]);
    RunMore(bytes + [t[0]], t[1]);
    assert bytes + t == (bytes + [t[0]]) + [t[1]];
  }

  lemma LongSteps(out: seq<Byte>, d: nat, len: nat)
    requires 1 <= d <= MAX_LONG_OFFSET && 4 <= len <= MAX_LONG_MATCH
    ensures var t, hi := LongToken(d, len), (d - 1) / 0x100;
      && Step(State(Tag, out), t[0]) == Some(State(LongHi(len), out))
      && Step(State(LongHi(len), out), t[1]) == Some(State(LongLo(len, hi), out))
      && Step(State(LongLo(len, hi), out), t[2]) == Reach(out, d, len)
  {
    hide Reach;
    OffsetBack(d);
  }

  /** A long match token copies. */
  lemma LongMatch(bytes: seq<Byte>, out: seq<Byte>, d: nat, len: nat)
    requires Run(bytes) == Some(State(Tag, out)) && d <= |out|
    requires 1 <= d <= MAX_LONG_OFFSET && 4 <= len <= MAX_LONG_MATCH
    ensures Run(bytes + LongToken(d, len)) == Some(State(Tag, Copy(out, d, len)))
  {
    hide Run, Step;
    var t := LongToken(d, len);
    LongSteps(out, d, len);
    RunMore(bytes, t[0]);
    RunMore(bytes + [t[0]], t[1]);
    RunMore((bytes + [t[0]]) + [t[1]], t[2]);
    assert bytes + t == ((bytes + [t[0]]) + [t[1]]) + [t[2]];
  }
}
