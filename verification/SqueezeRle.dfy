/** The run-length stage of ARC Squeeze: runs become `b 0x90 n`, a literal 0x90 becomes `0x90 0`. */
module SqueezeRle {
  import opened Words

  const FLAG: Byte := 0x90
  const MAX_RUN := 255

  /** How many `b`s `s` starts with, counting no further than `limit`. */
  function Run(s: seq<Byte>, b: Byte, limit: nat): (n: nat)
    ensures n <= |s| && n <= limit
    decreases limit
  {
    if limit == 0 || s == [] || s[0] != b then 0 else 1 + Run(s[1..], b, limit - 1)
  }

  function Rle(s: seq<Byte>): seq<Byte>
    decreases |s|
  {
    if s == [] then []
    else if s[0] == FLAG then [FLAG, 0] + Rle(s[1..])
    else
      var run := Run(s, s[0], MAX_RUN);
      if run >= 3 then [s[0], FLAG, run as Byte] + Rle(s[run..]) else [s[0]] + Rle(s[1..])
  }

  lemma {:induction false} RunIs(s: seq<Byte>, b: Byte, limit: nat)
    ensures var n := Run(s, b, limit);
      && (forall i :: 0 <= i < n ==> s[i] == b)
      && (n < |s| && n < limit ==> s[n] != b)
    decreases limit
  {
    if limit > 0 && s != [] && s[0] == b {
      RunIs(s[1..], b, limit - 1);
      var n := Run(s, b, limit);
      assert forall i :: 0 < i < n ==> s[i] == s[1..][i - 1];
      if n < |s| && n < limit {
        assert s[n] == s[1..][n - 1];
      }
    }
  }

  lemma {:induction false} RunUnique(s: seq<Byte>, b: Byte, limit: nat, n: nat)
    requires n <= |s| && n <= limit && forall i :: 0 <= i < n ==> s[i] == b
    requires n < |s| && n < limit ==> s[n] != b
    ensures Run(s, b, limit) == n
  {
    RunIs(s, b, limit);
  }

  // ----- undoing it

  datatype State = State(last: Byte, haveLast: bool, awaiting: bool)

  const FRESH := State(0, false, false)

  /** The state and the bytes put out after some input, or a count with nothing to repeat. */
  datatype Fed = Fed(state: State, out: seq<Byte>) | Corrupt

  function Copies(b: Byte, n: nat): (s: seq<Byte>)
    ensures |s| == n && forall i :: 0 <= i < n ==> s[i] == b
  {
    if n == 0 then [] else [b] + Copies(b, n - 1)
  }

  function Feed(st: State, b: Byte): Fed {
    if st.awaiting then
      if b == 0 then Fed(State(FLAG, true, false), [FLAG])
      else if st.haveLast then Fed(st.(awaiting := false), Copies(st.last, b - 1))
      else Corrupt
    else if b == FLAG then Fed(st.(awaiting := true), [])
    else Fed(State(b, true, false), [b])
  }

  function After(out: seq<Byte>, f: Fed): Fed {
    match f
    case Corrupt => Corrupt
    case Fed(st, more) => Fed(st, out + more)
  }

  function FeedAll(st: State, bytes: seq<Byte>): Fed
    decreases |bytes|
  {
    if bytes == [] then Fed(st, [])
    else
      var f := Feed(st, bytes[0]);
      if f.Corrupt? then Corrupt else After(f.out, FeedAll(f.state, bytes[1..]))
  }

  lemma FeedHead(st: State, b: Byte, rest: seq<Byte>)
    ensures var f := Feed(st, b);
      FeedAll(st, [b] + rest) == if f.Corrupt? then Corrupt else After(f.out, FeedAll(f.state, rest))
  {
    assert ([b] + rest)[1..] == rest;
  }

  /** The three ways a coded text begins. */
  lemma RleCases(s: seq<Byte>)
    requires s != []
    ensures var b := s[0];
      var run := Run(s, b, MAX_RUN);
      Rle(s) ==
        if b == FLAG then [FLAG, 0] + Rle(s[1..])
        else if run >= 3 then [b, FLAG, run as Byte] + Rle(s[run..])
        else [b] + Rle(s[1..])
  {
    hide Run;
  }

  lemma FlagBack(st: State, rest: seq<Byte>)
    requires !st.awaiting
    ensures FeedAll(st, [FLAG, 0] + rest) == After([FLAG], FeedAll(State(FLAG, true, false), rest))
  {
    hide FeedAll, Feed;
    FeedOne(st, FLAG);
    assert [FLAG, 0] + rest == [FLAG] + ([0] + rest);
    FeedHead(st, FLAG, [0] + rest);
    FeedHead(st.(awaiting := true), 0, rest);
    AfterAfter([], [FLAG], FeedAll(State(FLAG, true, false), rest));
  }

  lemma RunBack(st: State, b: Byte, run: nat, rest: seq<Byte>)
    requires !st.awaiting && b != FLAG && 3 <= run <= MAX_RUN
    ensures FeedAll(st, [b, FLAG, run as Byte] + rest) == After(Copies(b, run), FeedAll(State(b, true, false), rest))
  {
    hide FeedAll, Feed;
    FeedOne(st, b);
    FeedRun(b, run);
    var tail := [run as Byte] + rest;
    assert [b, FLAG, run as Byte] + rest == [b] + ([FLAG] + tail);
    FeedHead(st, b, [FLAG] + tail);
    FeedHead(State(b, true, false), FLAG, tail);
    FeedHead(State(b, true, true), run as Byte, rest);
    var f := FeedAll(State(b, true, false), rest);
    AfterAfter([], Copies(b, run - 1), f);
    AfterAfter([b], Copies(b, run - 1), f);
    assert [] + Copies(b, run - 1) == Copies(b, run - 1) && [b] + Copies(b, run - 1) == Copies(b, run);
  }

  lemma AfterAfter(x: seq<Byte>, y: seq<Byte>, f: Fed)
    ensures After(x, After(y, f)) == After(x + y, f)
  {
    if f.Fed? {
      assert x + (y + f.out) == (x + y) + f.out;
    }
  }

  lemma ByteBack(st: State, b: Byte, rest: seq<Byte>)
    requires !st.awaiting && b != FLAG
    ensures FeedAll(st, [b] + rest) == After([b], FeedAll(State(b, true, false), rest))
  {
    FeedOne(st, b);
    FeedHead(st, b, rest);
  }

  /** Whatever came before, undoing the run-length stage gives the text back and leaves nothing pending. */
  lemma {:induction false} RoundTrip(st: State, s: seq<Byte>)
    requires !st.awaiting
    ensures FeedAll(st, Rle(s)).Fed? && FeedAll(st, Rle(s)).out == s && !FeedAll(st, Rle(s)).state.awaiting
    decreases |s|
  {
    hide Feed, FeedAll, Run, Rle, Copies;
    if s == [] {
      NothingFed(st);
    } else {
      var b := s[0];
      var run := Run(s, b, MAX_RUN);
      RleCases(s);
      if b == FLAG {
        FlagBack(st, Rle(s[1..]));
        RoundTrip(State(FLAG, true, false), s[1..]);
      } else if run >= 3 {
        RunIs(s, b, MAX_RUN);
        RunBack(st, b, run, Rle(s[run..]));
        RoundTrip(State(b, true, false), s[run..]);
        assert s == Copies(b, run) + s[run..];
      } else {
        ByteBack(st, b, Rle(s[1..]));
        RoundTrip(State(b, true, false), s[1..]);
      }
    }
  }

  lemma NothingFed(st: State)
    ensures FeedAll(st, Rle([])) == Fed(st, [])
  {
  }

  lemma FeedOne(st: State, b: Byte)
    requires !st.awaiting
    ensures b != FLAG ==> Feed(st, b) == Fed(State(b, true, false), [b])
    ensures b == FLAG ==>
      Feed(st, b) == Fed(st.(awaiting := true), []) && Feed(st.(awaiting := true), 0) == Fed(State(FLAG, true, false), [FLAG])
  {
  }

  lemma FeedRun(b: Byte, run: nat)
    requires 3 <= run <= MAX_RUN && b != FLAG
    ensures Feed(State(b, true, false), FLAG) == Fed(State(b, true, true), [])
    ensures Feed(State(b, true, true), run as Byte) == Fed(State(b, true, false), Copies(b, run - 1))
  {
  }

  // ----- as it runs

  /** What the head of the text contributes. */
  lemma RleHead(input: seq<Byte>, i: nat, out: seq<Byte>)
    requires i < |input|
    ensures var b, rest := input[i], input[i..];
      var run := Run(rest, b, MAX_RUN);
      && run <= |rest|
      && (b == FLAG ==> out + Rle(rest) == (out + [b] + [0]) + Rle(input[i + 1..]))
      && (b != FLAG && run >= 3 ==> out + Rle(rest) == (out + [b] + [FLAG, run as Byte]) + Rle(input[i + run..]))
      && (b != FLAG && run < 3 ==> out + Rle(rest) == (out + [b]) + Rle(input[i + 1..]))
  {
    hide Rle, Run;
    var b, rest := input[i], input[i..];
    var run := Run(rest, b, MAX_RUN);
    RleCases(rest);
    TailTail(input, i, 1);
    if b == FLAG {
      ConcatAssoc(out, [b] + [0], Rle(input[i + 1..]));
    } else if run >= 3 {
      TailTail(input, i, run);
      ConcatAssoc(out, [b] + [FLAG, run as Byte], Rle(input[i + run..]));
    } else {
      ConcatAssoc(out, [b], Rle(input[i + 1..]));
    }
  }

  method RleEncode(input: seq<Byte>) returns (out: seq<Byte>)
    ensures out == Rle(input)
  {
    hide Rle, Run;
    out := [];
    var i := 0;
    assert [] + Rle(input) == Rle(input) && input[0..] == input;
    while i < |input|
      invariant i <= |input| && out + Rle(input[i..]) == Rle(input)
      decreases |input| - i
    {
      RleHead(input, i, out);
      var b := input[i];
      out := out + [b];
      if b == FLAG {
        out := out + [0];
        i := i + 1;
        continue;
      }
      var run := 1;
      while i + run < |input| && input[i + run] == b && run < MAX_RUN
        invariant 1 <= run <= MAX_RUN && i + run <= |input|
        invariant forall k :: 0 <= k < run ==> input[i..][k] == b
        decreases MAX_RUN - run
      {
        run := run + 1;
      }
      RunUnique(input[i..], b, MAX_RUN, run);
      if run >= 3 {
        out := out + [FLAG, run as Byte];
        i := i + run;
      } else {
        i := i + 1;
      }
    }
    NothingLeft(input, i, out);
  }

  lemma NothingLeft(input: seq<Byte>, i: nat, out: seq<Byte>)
    requires i == |input|
    ensures out + Rle(input[i..]) == out
  {
  }

  class RleDecoder {
    var last: Byte
    var haveLast: bool
    var awaiting: bool

    function Now(): State
      reads this
    {
      State(last, haveLast, awaiting)
    }

    constructor ()
      ensures Now() == FRESH
    {
      last, haveLast, awaiting := 0, false, false;
    }

    /** One coded byte; the bytes it stands for go to the end of `out0`. */
    method FeedByte(b: Byte, out0: seq<Byte>) returns (ok: bool, out: seq<Byte>)
      modifies this
      ensures var f := Feed(old(Now()), b);
        if f.Corrupt? then !ok && out == out0 else ok && Now() == f.state && out == out0 + f.out
    {
      out := out0;
      if awaiting {
        awaiting := false;
        if b == 0 {
          out := out + [FLAG];
          last, haveLast := FLAG, true;
        } else {
          if !haveLast {
            return false, out;
          }
          for k := 1 to b
            invariant Copies(last, 0) == []
            invariant out == out0 + Copies(last, k - 1)
            invariant Now() == old(Now()).(awaiting := false)
          {
            out := out + [last];
          }
        }
        return true, out;
      }
      if b == FLAG {
        awaiting := true;
      } else {
        out := out + [b];
        last, haveLast := b, true;
      }
      ok := true;
    }
  }
}
