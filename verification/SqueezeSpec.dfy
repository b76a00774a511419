/** The ARC Squeeze payload on values: node table, prefix-coded symbols, and what a decoder makes of any byte string. */
module SqueezeSpec {
  import opened Words
  import opened BitStrings
  import opened SqueezeTree
  import Rle = SqueezeRle

  const SPEOF := 256
  const MAX_NODES := 514

  // ----- serialised node tables

  function Low16(x: int): (b: seq<Byte>)
    ensures |b| == 2
  {
    [x % 0x100, x / 0x100 % 0x100]
  }

  function Unsigned16(lo: Byte, hi: Byte): nat {
    var l: int, h: int := lo, hi;
    l + 0x100 * h
  }

  function Signed16(lo: Byte, hi: Byte): int {
    var v: int := Unsigned16(lo, hi);
    if v >= 0x8000 then v - 0x1_0000 else v
  }

  lemma Low16Back(x: int)
    requires -0x8000 <= x < 0x8000
    ensures Signed16(Low16(x)[0], Low16(x)[1]) == x
  {
  }

  function TableBytes(table: seq<Pair>): (b: seq<Byte>)
    ensures |b| == 4 * |table|
  {
    if table == [] then []
    else TableBytes(table[..|table| - 1]) + PairBytes(table[|table| - 1])
  }

  function PairBytes(p: Pair): (b: seq<Byte>)
    ensures |b| == 4
  {
    Low16(p.left) + Low16(p.right)
  }

  function PairAt(b: seq<Byte>, i: nat): Pair
    requires i + 4 <= |b|
  {
    Pair(Signed16(b[i], b[i + 1]), Signed16(b[i + 2], b[i + 3]))
  }

  function ReadTable(b: seq<Byte>, n: nat): (t: seq<Pair>)
    requires 4 * n <= |b|
    ensures |t| == n
  {
    if n == 0 then [] else ReadTable(b, n - 1) + [PairAt(b, 4 * (n - 1))]
  }

  /** Small references survive serialisation, whatever follows. */
  lemma {:induction false} TableBack(table: seq<Pair>, rest: seq<Byte>)
    requires forall k :: 0 <= k < |table| ==> -0x8000 <= table[k].left < 0x8000 && -0x8000 <= table[k].right < 0x8000
    ensures ReadTable(TableBytes(table) + rest, |table|) == table
    decreases |table|
  {
    if table != [] {
      var n := |table| - 1;
      var last := PairBytes(table[n]);
      TableBack(table[..n], last + rest);
      assert TableBytes(table) + rest == TableBytes(table[..n]) + (last + rest);
      Low16Back(table[n].left);
      Low16Back(table[n].right);
      var all := TableBytes(table) + rest;
      assert all[4 * n] == last[0] && all[4 * n + 1] == last[1] && all[4 * n + 2] == last[2] && all[4 * n + 3] == last[3];
    }
  }

  // ----- payloads

  function Count(s: seq<Byte>, b: nat): nat {
    if s == [] then 0 else Count(s[..|s| - 1], b) + if s[|s| - 1] == b then 1 else 0
  }

  /** How often each symbol is sent, in 32-bit counters; the end marker once. */
  function FreqsOf(s: seq<Byte>): (f: Freqs)
    ensures |f| == NUM_SYMBOLS
  {
    Tally(s, NUM_SYMBOLS)
  }

  function Tally(s: seq<Byte>, n: nat): (f: seq<nat>)
    ensures |f| == n
  {
    if n == 0 then [] else Tally(s, n - 1) + [if n - 1 == SPEOF then 1 else Wrap(Count(s, n - 1))]
  }

  function WordBits(codes: seq<Code>, sym: nat): seq<bool> {
    if sym < |codes| then Bits(codes[sym].bits, codes[sym].len) else []
  }

  /** The coded bytes, without the end marker. */
  function Coding(codes: seq<Code>, s: seq<Byte>): seq<bool> {
    if s == [] then [] else Coding(codes, s[..|s| - 1]) + WordBits(codes, s[|s| - 1])
  }

  /** Everything that is sent has a word. */
  predicate Worded(codes: seq<Code>, s: seq<Byte>) {
    |codes| == NUM_SYMBOLS && codes[SPEOF].len > 0 && AllWorded(codes, s)
  }

  predicate AllWorded(codes: seq<Code>, s: seq<Byte>)
    requires |codes| == NUM_SYMBOLS
  {
    forall i :: 0 <= i < |s| ==> codes[s[i]].len > 0
  }

  function HeaderOf(table: seq<Pair>): seq<Byte> {
    Low16(|table|) + TableBytes(table)
  }

  /** The node table and behind it the bits, zero-padded. */
  ghost predicate Carries(out: seq<Byte>, table: seq<Pair>, bits: seq<bool>) {
    HeaderOf(table) <= out && Packs(out[|HeaderOf(table)|..], bits)
  }

  ghost predicate PayloadOf(out: seq<Byte>, s: seq<Byte>, table: seq<Pair>, codes: seq<Code>, t: Tree) {
    && Coded(table, codes, t, FreqsOf(s)) && Worded(codes, s)
    && Carries(out, table, Coding(codes, s) + WordBits(codes, SPEOF))
  }

  /** `out` is a payload of `input`: run-length coded, then coded with a tree for its frequencies. */
  ghost predicate IsPayload(out: seq<Byte>, input: seq<Byte>) {
    exists table, codes, t :: PayloadOf(out, Rle.Rle(input), table, codes, t)
  }

  // ----- decoding

  /** Where a decoder stops: inside a code, at the end marker, or at something that cannot be. */
  datatype Halt = Short(node: int, rle: Rle.State, out: seq<Byte>) | Ended(out: seq<Byte>, left: seq<bool>) | Broken

  function Before(out: seq<Byte>, h: Halt): Halt {
    match h
    case Short(node, rle, more) => Short(node, rle, out + more)
    case Ended(more, left) => Ended(out + more, left)
    case Broken => Broken
  }

  function Run(table: seq<Pair>, node: int, rle: Rle.State, bits: seq<bool>): Halt
    decreases |bits|
  {
    if !(0 <= node < |table|) then Broken
    else if bits == [] then Short(node, rle, [])
    else
      var next := if bits[0] then table[node].right else table[node].left;
      if next >= 0 then Run(table, next, rle, bits[1..])
      else if next == -1 - SPEOF then Ended([], bits[1..])
      else if next < -1 - SPEOF then Broken
      else
        var f := Rle.Feed(rle, -1 - next);
        if f.Corrupt? then Broken else Before(f.out, Run(table, 0, f.state, bits[1..]))
  }

  /** The whole decoder: header, table, codes. */
  function Decoded(b: seq<Byte>): Halt {
    if |b| < 2 then Short(0, Rle.FRESH, [])
    else
      var n := Unsigned16(b[0], b[1]);
      if n > MAX_NODES then Broken
      else if n == 0 then Ended([], ByteBits(b[2..]))
      else if |b| < 2 + 4 * n then Short(0, Rle.FRESH, [])
      else
        var table := ReadTable(b[2..], n);
        if InRange(table) then Run(table, 0, Rle.FRESH, ByteBits(b[2 + 4 * n..])) else Broken
  }

  lemma BeforeBefore(a: seq<Byte>, b: seq<Byte>, h: Halt)
    ensures Before(a, Before(b, h)) == Before(a + b, h) && Before([], h) == h
  {
    match h
    case Short(_, _, out) =>
      ConcatAssoc(a, b, out);
      assert [] + out == out;
    case Ended(out, _) =>
      ConcatAssoc(a, b, out);
      assert [] + out == out;
    case Broken =>
  }

  /** One bit. */
  lemma RunBit(table: seq<Pair>, node: int, rle: Rle.State, bit: bool, rest: seq<bool>)
    requires 0 <= node < |table|
    ensures Run(table, node, rle, [bit] + rest) ==
      var next := if bit then table[node].right else table[node].left;
      if next >= 0 then Run(table, next, rle, rest)
      else if next == -1 - SPEOF then Ended([], rest)
      else if next < -1 - SPEOF then Broken
      else
        var f := Rle.Feed(rle, -1 - next);
        if f.Corrupt? then Broken else Before(f.out, Run(table, 0, f.state, rest))
  {
    assert ([bit] + rest)[1..] == rest;
  }

  /** Bits may arrive in pieces. */
  lemma {:induction false} RunAppend(table: seq<Pair>, node: int, rle: Rle.State, bits: seq<bool>, more: seq<bool>)
    ensures Run(table, node, rle, bits + more) ==
      match Run(table, node, rle, bits)
      case Broken => Broken
      case Ended(out, left) => Ended(out, left + more)
      case Short(n, r, out) => Before(out, Run(table, n, r, more))
    decreases |bits|
  {
    hide Rle.Feed;
    if 0 <= node < |table| {
      if bits == [] {
        assert [] + more == more;
        BeforeBefore([], [], Run(table, node, rle, more));
      } else {
        var next := if bits[0] then table[node].right else table[node].left;
        assert bits == [bits[0]] + bits[1..];
        assert bits + more == [bits[0]] + (bits[1..] + more);
        RunBit(table, node, rle, bits[0], bits[1..]);
        RunBit(table, node, rle, bits[0], bits[1..] + more);
        if next >= 0 {
          RunAppend(table, next, rle, bits[1..], more);
        } else if -1 - SPEOF < next {
          var f := Rle.Feed(rle, -1 - next);
          if f.Fed? {
            RunAppend(table, 0, f.state, bits[1..], more);
            var h := Run(table, 0, f.state, bits[1..]);
            if h.Short? {
              BeforeBefore(f.out, h.out, Run(table, h.node, h.rle, more));
            }
          }
        }
      }
    }
  }

  /** A path from `node` leads to its symbol. */
  lemma {:induction false} RunPath(table: seq<Pair>, node: int, t: Tree, path: seq<bool>, sym: nat, rle: Rle.State,
                                   rest: seq<bool>)
    requires Roots(table, node, t) && IsPath(t, path, sym) && path != [] && sym <= SPEOF
    ensures Run(table, node, rle, path + rest) ==
      if sym == SPEOF then Ended([], rest)
      else
        var f := Rle.Feed(rle, sym);
        if f.Corrupt? then Broken else Before(f.out, Run(table, 0, f.state, rest))
    decreases t
  {
    hide Rle.Feed;
    var child := if path[0] then t.right else t.left;
    var next := if path[0] then table[node].right else table[node].left;
    assert path + rest == [path[0]] + (path[1..] + rest);
    RunBit(table, node, rle, path[0], path[1..] + rest);
    if child.Node? {
      RunPath(table, next, child, path[1..], sym, rle, rest);
    } else {
      assert path[1..] + rest == rest;
    }
  }

  lemma {:induction false} TallyAt(s: seq<Byte>, n: nat, b: nat)
    requires b < n
    ensures Tally(s, n)[b] == if b == SPEOF then 1 else Wrap(Count(s, b))
  {
    if b < n - 1 {
      TallyAt(s, n - 1, b);
    }
  }

  /** The word of a symbol that is sent is a path from the root. */
  lemma SentWord(s: seq<Byte>, table: seq<Pair>, codes: seq<Code>, t: Tree, sym: nat)
    requires Coded(table, codes, t, FreqsOf(s)) && Worded(codes, s)
    requires sym == SPEOF || exists i :: 0 <= i < |s| && s[i] == sym
    ensures IsPath(t, WordBits(codes, sym), sym) && WordBits(codes, sym) != []
  {
    hide Coded, IsPath, Pow2;
    WordOf(table, codes, t, FreqsOf(s), sym);
  }

  lemma CodedSize(table: seq<Pair>, codes: seq<Code>, t: Tree, f: Freqs)
    requires Coded(table, codes, t, f)
    ensures |codes| == NUM_SYMBOLS && 0 < |table| < NUM_SYMBOLS && InRange(table) && Roots(table, 0, t)
  {
  }

  /** The bits of a prefix of the coded bytes take the decoder to the root, with those bytes through the run-length stage. */
  lemma {:induction false} RunCoding(s: seq<Byte>, k: nat, table: seq<Pair>, codes: seq<Code>, t: Tree, rest: seq<bool>,
                                     f: Rle.Fed)
    requires Coded(table, codes, t, FreqsOf(s)) && Worded(codes, s) && k <= |s|
    requires f == Rle.FeedAll(Rle.FRESH, s[..k]) && f.Fed?
    ensures Run(table, 0, Rle.FRESH, Coding(codes, s[..k]) + rest) == Before(f.out, Run(table, 0, f.state, rest))
    decreases k
  {
    hide Coded, IsPath, Rle.Feed, Run, Before;
    if k == 0 {
      assert Coding(codes, []) + rest == rest;
      BeforeBefore([], [], Run(table, 0, f.state, rest));
    } else {
      var b := s[k - 1];
      assert s[..k][..k - 1] == s[..k - 1];
      assert Coding(codes, s[..k]) + rest == Coding(codes, s[..k - 1]) + (WordBits(codes, b) + rest);
      FeedLast(Rle.FRESH, s[..k - 1], b);
      assert s[..k] == s[..k - 1] + [b];
      var g := Rle.FeedAll(Rle.FRESH, s[..k - 1]);
      RunCoding(s, k - 1, table, codes, t, WordBits(codes, b) + rest, g);
      SentWord(s, table, codes, t, b);
      CodedSize(table, codes, t, FreqsOf(s));
      RunPath(table, 0, t, WordBits(codes, b), b, g.state, rest);
      var step := Rle.Feed(g.state, b);
      BeforeBefore(g.out, step.out, Run(table, 0, step.state, rest));
    }
  }

  /** Feeding one byte more. */
  lemma {:induction false} FeedLast(st: Rle.State, s: seq<Byte>, b: Byte)
    ensures var g := Rle.FeedAll(st, s);
      Rle.FeedAll(st, s + [b]) ==
        if g.Corrupt? || Rle.Feed(g.state, b).Corrupt? then Rle.Corrupt
        else Rle.Fed(Rle.Feed(g.state, b).state, g.out + Rle.Feed(g.state, b).out)
    decreases |s|
  {
    hide Rle.Feed;
    if s == [] {
      assert [] + [b] == [b] && [b][1..] == [];
    } else {
      assert (s + [b])[0] == s[0] && (s + [b])[1..] == s[1..] + [b];
      var f := Rle.Feed(st, s[0]);
      if f.Fed? {
        FeedLast(f.state, s[1..], b);
      }
    }
  }

  /** Decoding a payload gives the text back, with less than a byte of padding left over. */
  lemma RoundTrip(out: seq<Byte>, input: seq<Byte>)
    requires IsPayload(out, input)
    ensures Decoded(out).Ended? && Decoded(out).out == input && |Decoded(out).left| < 8
  {
    var s := Rle.Rle(input);
    var table, codes, t :| PayloadOf(out, s, table, codes, t);
    Rle.RoundTrip(Rle.FRESH, input);
    BodyEnds(s, table, codes, t, out[|HeaderOf(table)|..]);
    CodedSize(table, codes, t, FreqsOf(s));
    HeaderBack(table, out);
  }

  /** The body runs to the end marker. */
  lemma BodyEnds(s: seq<Byte>, table: seq<Pair>, codes: seq<Code>, t: Tree, body: seq<Byte>)
    requires Coded(table, codes, t, FreqsOf(s)) && Worded(codes, s)
    requires Packs(body, Coding(codes, s) + WordBits(codes, SPEOF))
    requires Rle.FeedAll(Rle.FRESH, s).Fed?
    ensures var h := Run(table, 0, Rle.FRESH, ByteBits(body));
      h.Ended? && h.out == Rle.FeedAll(Rle.FRESH, s).out && |h.left| < 8
  {
    hide Coded, Run, Rle.FeedAll, Coding, WordBits, IsPath, ByteBits, Bits;
    CodedSize(table, codes, t, FreqsOf(s));
    assert s[..|s|] == s;
    var f := Rle.FeedAll(Rle.FRESH, s);
    var k: nat :| k < 8 && ByteBits(body) == (Coding(codes, s) + WordBits(codes, SPEOF)) + Bits(0, k);
    ConcatAssoc(Coding(codes, s), WordBits(codes, SPEOF), Bits(0, k));
    RunCoding(s, |s|, table, codes, t, WordBits(codes, SPEOF) + Bits(0, k), f);
    SentWord(s, table, codes, t, SPEOF);
    RunPath(table, 0, t, WordBits(codes, SPEOF), SPEOF, f.state, Bits(0, k));
    assert f.out + [] == f.out;
  }

  lemma HeaderBack(table: seq<Pair>, out: seq<Byte>)
    requires 0 < |table| < NUM_SYMBOLS && InRange(table) && HeaderOf(table) <= out
    ensures Decoded(out) == Run(table, 0, Rle.FRESH, ByteBits(out[|HeaderOf(table)|..]))
  {
    hide Run, ByteBits, TableBytes, ReadTable, InRange;
    var n := |table|;
    var head, body := Low16(n), out[|HeaderOf(table)|..];
    ConcatAssoc(head, TableBytes(table), body);
    assert out == HeaderOf(table) + body;
    assert out[0] == head[0] && out[1] == head[1];
    Low16Count(n);
    assert out[2..] == TableBytes(table) + body && out[2 + 4 * n..] == body;
    SmallReferences(table);
    TableBack(table, body);
  }

  lemma Low16Count(n: nat)
    requires n < 0x1_0000
    ensures Unsigned16(Low16(n)[0], Low16(n)[1]) == n
  {
  }

  lemma SmallReferences(table: seq<Pair>)
    requires |table| < NUM_SYMBOLS && InRange(table)
    ensures forall k :: 0 <= k < |table| ==> -0x8000 <= table[k].left < 0x8000 && -0x8000 <= table[k].right < 0x8000
  {
  }
}
