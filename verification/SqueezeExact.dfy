/**
 When an ARC Squeeze stream is a payload.  Codes go through a 32-bit accumulator that may hold up to seven bits
 already, so a long code can lose its top bits, and a symbol deeper than 32 has no code at all.  The stream reads back
 as the symbols sent exactly if neither happens to any of them.
 */
module SqueezeExact {
  import opened Words
  import opened BitStrings
  import opened SqueezeTree
  import opened SqueezeSpec
  import Rle = SqueezeRle

  // ----- the accumulator

  /** What is left of a code behind `count` bits in a 32-bit accumulator. */
  function Kept(c: Code, count: nat): (b: seq<bool>)
    requires count < 8
    ensures |b| == c.len
  {
    Bits(c.bits % Pow2(32 - count), c.len)
  }

  /** The coded bytes as the accumulator lets them through. */
  function Emitted(codes: seq<Code>, s: seq<Byte>): (e: seq<bool>)
    requires |codes| == NUM_SYMBOLS
    ensures |e| == |Coding(codes, s)|
  {
    if s == [] then []
    else
      var e := Emitted(codes, s[..|s| - 1]);
      e + Kept(codes[s[|s| - 1]], |e| % 8)
  }

  /** The same with the end marker. */
  function Sending(codes: seq<Code>, s: seq<Byte>): (e: seq<bool>)
    requires |codes| == NUM_SYMBOLS
    ensures |e| == |Coding(codes, s)| + |WordBits(codes, SPEOF)|
  {
    var e := Emitted(codes, s);
    e + Kept(codes[SPEOF], |e| % 8)
  }

  /** No bit of the code is shifted out of the accumulator. */
  predicate Keeps(c: Code, count: nat) {
    c.bits * Pow2(count) < 0x1_0000_0000
  }

  /** Everything that is sent has a code, and none loses a bit. */
  predicate Fits(codes: seq<Code>, s: seq<Byte>) {
    Worded(codes, s) && AllKept(codes, s) && Keeps(codes[SPEOF], |Coding(codes, s)| % 8)
  }

  predicate AllKept(codes: seq<Code>, s: seq<Byte>)
    requires |codes| == NUM_SYMBOLS
  {
    forall i :: 0 <= i < |s| ==> Keeps(codes[s[i]], |Coding(codes, s[..i])| % 8)
  }

  /** What the encoder makes of the coded bytes `s`. */
  ghost predicate MadeOf(out: seq<Byte>, s: seq<Byte>, table: seq<Pair>, codes: seq<Code>, t: Tree) {
    Coded(table, codes, t, FreqsOf(s)) && Carries(out, table, Sending(codes, s))
  }

  lemma KeptWhole(c: Code, count: nat)
    requires c.bits < Pow2(c.len) && count < 8
    ensures Kept(c, count) == Bits(c.bits, c.len) <==> Keeps(c, count)
  {
    hide Pow2, Bits;
    var p, m := Pow2(count), Pow2(32 - count);
    Pow2Bytes();
    Pow2Add(32 - count, count);
    if c.bits < m {
      MulMonotone(c.bits + 1, m, p);
      Distribute(c.bits, 1, p);
      DivModUnique(c.bits, m, 0, c.bits);
    } else {
      MulMonotone(m, c.bits, p);
      NumberBits(c.bits % m, c.len);
      NumberBits(c.bits, c.len);
    }
  }

  /** With at most 25 bits a code fits beside the seven that may still be waiting: no bit is shifted out. */
  lemma NoLoss(c: Code, count: nat)
    requires c.bits < Pow2(c.len) && c.len <= 25 && count < 8
    ensures Keeps(c, count)
  {
    hide Pow2;
    Pow2Grows(c.len, 25);
    Pow2Grows(count, 7);
    Pow2Add(25, 7);
    Pow2Bytes();
    MulMonotone(c.bits + 1, Pow2(25), Pow2(count));
    MulMonotone(Pow2(count), Pow2(7), Pow2(25));
    Distribute(c.bits, 1, Pow2(count));
  }

  lemma SameParts<T>(a: seq<T>, b: seq<T>, c: seq<T>, d: seq<T>)
    requires |a| == |c|
    ensures a + b == c + d <==> a == c && b == d
  {
    HeadTail(a, b);
    HeadTail(c, d);
  }

  ghost predicate Narrow(codes: seq<Code>) {
    |codes| == NUM_SYMBOLS && forall k :: 0 <= k < |codes| ==> codes[k].bits < Pow2(codes[k].len)
  }

  lemma AllKeptMore(codes: seq<Code>, s: seq<Byte>, n: nat)
    requires |codes| == NUM_SYMBOLS && |s| == n + 1
    ensures AllKept(codes, s) <==> AllKept(codes, s[..n]) && Keeps(codes[s[n]], |Coding(codes, s[..n])| % 8)
  {
    hide Keeps, Coding;
    assert forall i :: 0 <= i < n ==> s[..n][..i] == s[..i] && s[..n][i] == s[i];
  }

  lemma {:induction false} EmittedWhole(codes: seq<Code>, s: seq<Byte>)
    requires Narrow(codes)
    ensures Emitted(codes, s) == Coding(codes, s) <==> AllKept(codes, s)
    decreases |s|
  {
    hide Kept, Keeps, Pow2, Bits, AllKept;
    if s == [] {
      assert AllKept(codes, []) by { NothingLost(codes); }
    } else {
      var n := |s| - 1;
      EmittedWhole(codes, s[..n]);
      AllKeptMore(codes, s, n);
      KeptWhole(codes[s[n]], |Coding(codes, s[..n])| % 8);
      SameParts(Emitted(codes, s[..n]), Kept(codes[s[n]], |Coding(codes, s[..n])| % 8),
                Coding(codes, s[..n]), WordBits(codes, s[n]));
    }
  }

  lemma NothingLost(codes: seq<Code>)
    requires |codes| == NUM_SYMBOLS
    ensures AllKept(codes, [])
  {
  }

  lemma SendingWhole(codes: seq<Code>, s: seq<Byte>)
    requires Narrow(codes) && Worded(codes, s)
    ensures Sending(codes, s) == Coding(codes, s) + WordBits(codes, SPEOF) <==> Fits(codes, s)
  {
    hide Kept, Keeps, AllKept, Pow2, Bits, Emitted, Coding;
    EmittedWhole(codes, s);
    KeptWhole(codes[SPEOF], |Coding(codes, s)| % 8);
    SameParts(Emitted(codes, s), Kept(codes[SPEOF], |Coding(codes, s)| % 8), Coding(codes, s), WordBits(codes, SPEOF));
  }

  lemma PackedSame(bytes: seq<Byte>, a: seq<bool>, b: seq<bool>)
    requires Packs(bytes, a) && |a| == |b|
    ensures Packs(bytes, b) <==> a == b
  {
    hide Bits, ByteBits;
    var k: nat :| k < 8 && ByteBits(bytes) == a + Bits(0, k);
    if Packs(bytes, b) {
      var j: nat :| j < 8 && ByteBits(bytes) == b + Bits(0, j);
      HeadTail(a, Bits(0, k));
      HeadTail(b, Bits(0, j));
    }
  }

  lemma CodesNarrow(table: seq<Pair>, codes: seq<Code>, t: Tree, f: Freqs)
    requires Coded(table, codes, t, f)
    ensures Narrow(codes)
  {
    hide Coded, IsPath, Pow2;
    CodedSize(table, codes, t, f);
    forall k | 0 <= k < |codes| ensures codes[k].bits < Pow2(codes[k].len) {
      WordOf(table, codes, t, f, k);
    }
  }

  /** The stream is a payload exactly if every code is there and whole. */
  lemma FitsExactly(out: seq<Byte>, s: seq<Byte>, table: seq<Pair>, codes: seq<Code>, t: Tree)
    requires MadeOf(out, s, table, codes, t)
    ensures Fits(codes, s) <==> PayloadOf(out, s, table, codes, t)
  {
    hide Coded, Packs, Sending, FreqsOf, Coding, HeaderOf, Keeps;
    CodesNarrow(table, codes, t, FreqsOf(s));
    if Worded(codes, s) {
      SendingWhole(codes, s);
      PackedSame(out[|HeaderOf(table)|..], Sending(codes, s), Coding(codes, s) + WordBits(codes, SPEOF));
    }
  }

  lemma Payload(out: seq<Byte>, input: seq<Byte>, table: seq<Pair>, codes: seq<Code>, t: Tree)
    requires MadeOf(out, Rle.Rle(input), table, codes, t) && Fits(codes, Rle.Rle(input))
    ensures IsPayload(out, input)
  {
    hide PayloadOf, MadeOf, Fits;
    FitsExactly(out, Rle.Rle(input), table, codes, t);
  }

  /** Codes of at most 25 bits always fit. */
  lemma ShortFits(codes: seq<Code>, s: seq<Byte>)
    requires Narrow(codes) && Worded(codes, s)
    requires codes[SPEOF].len <= 25 && forall i :: 0 <= i < |s| ==> codes[s[i]].len <= 25
    ensures Fits(codes, s)
  {
    hide Keeps, Pow2, Coding;
    forall i | 0 <= i < |s| ensures Keeps(codes[s[i]], |Coding(codes, s[..i])| % 8) {
      NoLoss(codes[s[i]], |Coding(codes, s[..i])| % 8);
    }
    NoLoss(codes[SPEOF], |Coding(codes, s)| % 8);
  }

  // ----- reading symbols

  /** The bytes in front of the end marker, and whether it was read. */
  datatype Symbols = Symbols(bytes: seq<Byte>, ended: bool)

  /** The symbols a decoder reads from the bits, before the run-length stage. */
  function Read(table: seq<Pair>, node: int, bits: seq<bool>): Symbols
    decreases |bits|
  {
    if !(0 <= node < |table|) || bits == [] then Symbols([], false)
    else
      var next := if bits[0] then table[node].right else table[node].left;
      if next >= 0 then Read(table, next, bits[1..]) else Sym(-1 - next, Read(table, 0, bits[1..]))
  }

  /** One symbol in front of others. */
  function Sym(sym: nat, more: Symbols): Symbols {
    if sym < SPEOF then Symbols([sym] + more.bytes, more.ended) else Symbols([], sym == SPEOF)
  }

  /** The decoder ends exactly if the end marker is read behind bytes the run-length stage takes; it puts out theirs. */
  lemma {:induction false} RunReads(table: seq<Pair>, node: int, rle: Rle.State, bits: seq<bool>)
    requires InRange(table) && 0 <= node < |table|
    ensures var h, r := Run(table, node, rle, bits), Read(table, node, bits);
      var f := Rle.FeedAll(rle, r.bytes);
      (h.Ended? <==> r.ended && f.Fed?) && (h.Ended? ==> h.out == f.out)
    decreases |bits|
  {
    hide Rle.Feed, Rle.FeedAll;
    if bits == [] {
    } else {
      var next := if bits[0] then table[node].right else table[node].left;
      if next >= 0 {
        RunReads(table, next, rle, bits[1..]);
      } else if next == -1 - SPEOF {
        FedNothing(rle);
      } else {
        var f := Rle.Feed(rle, -1 - next);
        Rle.FeedHead(rle, -1 - next, Read(table, 0, bits[1..]).bytes);
        if f.Fed? {
          RunReads(table, 0, f.state, bits[1..]);
        }
      }
    }
  }

  lemma FedNothing(st: Rle.State)
    ensures Rle.FeedAll(st, []) == Rle.Fed(st, [])
  {
  }

  // ----- one symbol

  datatype Leg = Leg(sym: nat, rest: seq<bool>)

  /** Down from the root of `t`, a bit at a time: the leaf it comes to and the bits behind. */
  function Walk(t: Tree, bits: seq<bool>): Option<Leg>
    decreases t
  {
    match t
    case Leaf(sym) => Some(Leg(sym, bits))
    case Node(l, r) => if bits == [] then None else Walk(if bits[0] then r else l, bits[1..])
  }

  lemma {:induction false} ReadWalk(table: seq<Pair>, node: int, t: Tree, bits: seq<bool>)
    requires Roots(table, node, t) && t.Node?
    ensures var w := Walk(t, bits);
      Read(table, node, bits) ==
        if w.None? then Symbols([], false) else Sym(w.value.sym, Read(table, 0, w.value.rest))
    decreases t
  {
    hide Sym;
    if bits != [] {
      var child := if bits[0] then t.right else t.left;
      var next := if bits[0] then table[node].right else table[node].left;
      if child.Node? {
        ReadWalk(table, next, child, bits[1..]);
      }
    }
  }

  lemma {:induction false} WalkThere(t: Tree, sym: nat, rest: seq<bool>)
    requires Occurs(t, sym)
    ensures Walk(t, PathTo(t, sym) + rest) == Some(Leg(sym, rest))
  {
    if t.Leaf? {
      assert [] + rest == rest;
    } else {
      var right := Occurs(t.right, sym);
      var child := if right then t.right else t.left;
      WalkThere(child, sym, rest);
      var path := PathTo(child, sym);
      assert ([right] + path) + rest == [right] + (path + rest);
      assert ([right] + (path + rest))[1..] == path + rest;
    }
  }

  /** Whoever comes to a leaf came along its path. */
  lemma {:induction false} WalkBack(t: Tree, bits: seq<bool>)
    ensures var w := Walk(t, bits);
      w.Some? ==> Occurs(t, w.value.sym) && (Once(t) ==> bits == PathTo(t, w.value.sym) + w.value.rest)
    decreases t
  {
    if t.Leaf? {
      assert [] + bits == bits;
    } else if bits != [] {
      var child := if bits[0] then t.right else t.left;
      WalkBack(child, bits[1..]);
      var w := Walk(child, bits[1..]);
      if w.Some? && Once(t) {
        var path := PathTo(child, w.value.sym);
        assert PathTo(t, w.value.sym) == [bits[0]] + path;
        assert bits == [bits[0]] + bits[1..];
        ConcatAssoc([bits[0]], path, w.value.rest);
      }
    }
  }

  // ----- all symbols

  /** The paths of the symbols one after another. */
  function Paths(t: Tree, s: seq<Byte>): seq<bool> {
    if s == [] then [] else Paths(t, s[..|s| - 1]) + PathTo(t, s[|s| - 1])
  }

  function Behind(s: seq<Byte>, more: Symbols): Symbols {
    Symbols(s + more.bytes, more.ended)
  }

  /** Paths read as their symbols. */
  lemma {:induction false} ReadOn(table: seq<Pair>, t: Tree, s: seq<Byte>, rest: seq<bool>)
    requires Roots(table, 0, t) && t.Node? && forall i :: 0 <= i < |s| ==> Occurs(t, s[i])
    ensures Read(table, 0, Paths(t, s) + rest) == Behind(s, Read(table, 0, rest))
    decreases |s|
  {
    hide Read, Occurs, Walk, PathTo, Roots;
    if s == [] {
      assert [] + rest == rest;
    } else {
      var n := |s| - 1;
      var path := PathTo(t, s[n]);
      ConcatAssoc(Paths(t, s[..n]), path, rest);
      ReadOn(table, t, s[..n], path + rest);
      WalkThere(t, s[n], rest);
      ReadWalk(table, 0, t, path + rest);
      assert s == s[..n] + [s[n]];
      ConcatAssoc(s[..n], [s[n]], Read(table, 0, rest).bytes);
    }
  }

  /** What reads as symbols begins with their paths. */
  lemma {:induction false} ReadBack(table: seq<Pair>, t: Tree, s: seq<Byte>, bits: seq<bool>)
    requires Roots(table, 0, t) && t.Node? && Once(t) && s <= Read(table, 0, bits).bytes
    ensures Paths(t, s) <= bits
    ensures Read(table, 0, bits) == Behind(s, Read(table, 0, bits[|Paths(t, s)|..]))
    ensures forall i :: 0 <= i < |s| ==> Occurs(t, s[i])
    decreases |s|
  {
    hide Read, Occurs, Walk, PathTo, Roots, Once;
    if s == [] {
      assert bits[0..] == bits;
    } else {
      var n := |s| - 1;
      ReadBack(table, t, s[..n], bits);
      var before := Paths(t, s[..n]);
      var rest := bits[|before|..];
      WalkBack(t, rest);
      ReadWalk(table, 0, t, rest);
      var w := Walk(t, rest);
      assert Read(table, 0, bits).bytes[n] == s[n];
      assert w.Some? && w.value.sym == s[n];
      var path := PathTo(t, s[n]);
      assert bits == before + rest;
      ConcatAssoc(before, path, w.value.rest);
      HeadTail(before + path, w.value.rest);
      assert s == s[..n] + [s[n]];
      ConcatAssoc(s[..n], [s[n]], Read(table, 0, w.value.rest).bytes);
    }
  }

  // ----- when the symbols come back

  /** Where a symbol has a word it is the path to it; otherwise the path is longer than 32 bits. */
  lemma WordPath(table: seq<Pair>, codes: seq<Code>, t: Tree, f: Freqs, sym: nat)
    requires Coded(table, codes, t, f) && sym < NUM_SYMBOLS && Once(t)
    ensures |codes| == NUM_SYMBOLS
    ensures codes[sym].len > 0 ==> Occurs(t, sym) && WordBits(codes, sym) == PathTo(t, sym)
    ensures codes[sym].len == 0 && Occurs(t, sym) ==> |PathTo(t, sym)| > 32
  {
    hide Coded, IsPath, Once, Occurs, PathTo;
    CodedSize(table, codes, t, f);
    WordOf(table, codes, t, f, sym);
    if codes[sym].len > 0 {
      PathOccurs(t, WordBits(codes, sym), sym);
      PathUnique(t, WordBits(codes, sym), sym);
    } else if Occurs(t, sym) {
      PathToIs(t, sym);
    }
  }

  /** All symbols' paths are their words, or together at least 33 bits longer. */
  lemma {:induction false} PathsOrLonger(table: seq<Pair>, codes: seq<Code>, t: Tree, f: Freqs, s: seq<Byte>)
    requires Coded(table, codes, t, f) && Once(t) && forall i :: 0 <= i < |s| ==> Occurs(t, s[i])
    ensures |codes| == NUM_SYMBOLS && |Paths(t, s)| >= |Coding(codes, s)|
    ensures if AllWorded(codes, s) then Paths(t, s) == Coding(codes, s) else |Paths(t, s)| > |Coding(codes, s)| + 32
    decreases |s|
  {
    hide Coded, Once, Occurs, PathTo, AllWorded, Bits;
    CodedSize(table, codes, t, f);
    AllWordedMore(codes, s);
    if s != [] {
      var n := |s| - 1;
      PathsOrLonger(table, codes, t, f, s[..n]);
      WordPath(table, codes, t, f, s[n]);
    }
  }

  lemma AllWordedMore(codes: seq<Code>, s: seq<Byte>)
    requires |codes| == NUM_SYMBOLS
    ensures s == [] ==> AllWorded(codes, s)
    ensures s != [] ==>
      (AllWorded(codes, s) <==> AllWorded(codes, s[..|s| - 1]) && codes[s[|s| - 1]].len > 0)
  {
    assert forall i :: 0 <= i < |s| - 1 ==> s[..|s| - 1][i] == s[i];
  }

  /** Every code is there and whole: the symbols come back. */
  lemma FitsReads(out: seq<Byte>, s: seq<Byte>, table: seq<Pair>, codes: seq<Code>, t: Tree)
    requires MadeOf(out, s, table, codes, t) && Once(t) && Fits(codes, s)
    ensures Read(table, 0, ByteBits(out[|HeaderOf(table)|..])) == Symbols(s, true)
  {
    var f, body := FreqsOf(s), out[|HeaderOf(table)|..];
    var word := WordBits(codes, SPEOF);
    FitsExactly(out, s, table, codes, t);
    assert t.Node? by { CodedNode(table, codes, t, f); }
    hide MadeOf, Fits, Coded, Read, Occurs, Walk, PathTo, Once, HeaderOf, Coding, FreqsOf, Roots, Bits, ByteBits;
    CodedSize(table, codes, t, f);
    forall i | 0 <= i < |s| ensures Occurs(t, s[i]) {
      WordPath(table, codes, t, f, s[i]);
    }
    PathsOrLonger(table, codes, t, f, s);
    WordPath(table, codes, t, f, SPEOF);
    var k: nat :| k < 8 && ByteBits(body) == (Coding(codes, s) + word) + Bits(0, k);
    ConcatAssoc(Coding(codes, s), word, Bits(0, k));
    ReadOn(table, t, s, word + Bits(0, k));
    WalkThere(t, SPEOF, Bits(0, k));
    ReadWalk(table, 0, t, word + Bits(0, k));
    assert s + [] == s;
  }

  lemma CodedNode(table: seq<Pair>, codes: seq<Code>, t: Tree, f: Freqs)
    requires Coded(table, codes, t, f)
    ensures t.Node? && (Twin(t) || (Once(t) && Balanced(t, f) && Weight(t, f) == Total(f)))
    ensures forall sym :: 0 <= sym < NUM_SYMBOLS && f[sym] > 0 ==> Occurs(t, sym)
  {
  }

  /** The symbols come back: every code was there and whole. */
  lemma ReadsFit(out: seq<Byte>, s: seq<Byte>, table: seq<Pair>, codes: seq<Code>, t: Tree)
    requires MadeOf(out, s, table, codes, t) && Once(t)
    requires Read(table, 0, ByteBits(out[|HeaderOf(table)|..])) == Symbols(s, true)
    ensures Fits(codes, s)
  {
    var f, bits := FreqsOf(s), ByteBits(out[|HeaderOf(table)|..]);
    CodesNarrow(table, codes, t, f);
    CodedNode(table, codes, t, f);
    var k: nat :| k < 8 && bits == Sending(codes, s) + Bits(0, k);
    hide MadeOf, Coded, Read, Occurs, PathTo, Once, HeaderOf, Coding, FreqsOf, Roots, Bits, ByteBits, Sending, Fits,
      AllWorded, Weight, Total, Paths, Balanced;
    CodedSize(table, codes, t, f);
    var left := ReadWhole(table, t, s, bits);
    PathsOrLonger(table, codes, t, f, s);
    WordPath(table, codes, t, f, SPEOF);
    PathsFit(codes, s, t, bits, k, left);
  }

  /** What reads as the symbols and the end marker begins with all their paths. */
  lemma ReadWhole(table: seq<Pair>, t: Tree, s: seq<Byte>, bits: seq<bool>) returns (left: seq<bool>)
    requires Roots(table, 0, t) && t.Node? && Once(t) && Read(table, 0, bits) == Symbols(s, true)
    ensures bits == Paths(t, s) + (PathTo(t, SPEOF) + left)
    ensures Occurs(t, SPEOF) && forall i :: 0 <= i < |s| ==> Occurs(t, s[i])
  {
    hide Read, Occurs, Walk, PathTo, Once, Roots, Paths;
    ReadBack(table, t, s, bits);
    var rest := bits[|Paths(t, s)|..];
    var more := Read(table, 0, rest);
    assert |s + more.bytes| == |s|;
    WalkBack(t, rest);
    ReadWalk(table, 0, t, rest);
    left := Walk(t, rest).value.rest;
  }

  /** The bits of the stream against the paths they begin with. */
  lemma PathsFit(codes: seq<Code>, s: seq<Byte>, t: Tree, bits: seq<bool>, k: nat, left: seq<bool>)
    requires Narrow(codes) && k < 8 && bits == Sending(codes, s) + Bits(0, k)
    requires bits == Paths(t, s) + (PathTo(t, SPEOF) + left)
    requires if AllWorded(codes, s) then Paths(t, s) == Coding(codes, s) else |Paths(t, s)| > |Coding(codes, s)| + 32
    requires if codes[SPEOF].len > 0 then WordBits(codes, SPEOF) == PathTo(t, SPEOF) else |PathTo(t, SPEOF)| > 32
    requires |Paths(t, s)| >= |Coding(codes, s)|
    ensures Fits(codes, s)
  {
    hide Bits, Sending, Coding, Paths, PathTo, Fits, AllWorded;
    assert |Sending(codes, s)| == |Coding(codes, s)| + |WordBits(codes, SPEOF)|;
    assert Worded(codes, s);
    ConcatAssoc(Paths(t, s), PathTo(t, SPEOF), left);
    HeadTail(Sending(codes, s), Bits(0, k));
    HeadTail(Paths(t, s) + PathTo(t, SPEOF), left);
    SendingWhole(codes, s);
  }

  /** The tree of a single symbol reads every bit as the end marker, which is all that was sent. */
  lemma TwinExactly(out: seq<Byte>, s: seq<Byte>, table: seq<Pair>, codes: seq<Code>, t: Tree)
    requires MadeOf(out, s, table, codes, t) && Twin(t)
    ensures Read(table, 0, ByteBits(out[|HeaderOf(table)|..])) == Symbols(s, true) <==> Fits(codes, s)
  {
    var f, bits := FreqsOf(s), ByteBits(out[|HeaderOf(table)|..]);
    CodesNarrow(table, codes, t, f);
    TwinLeaf(s, table, codes, t);
    var k: nat :| k < 8 && bits == Sending(codes, s) + Bits(0, k);
    hide MadeOf, Coded, HeaderOf, Coding, FreqsOf, Bits, ByteBits, Sending, Keeps, Pow2, Read, Roots, Fits;
    CodedSize(table, codes, t, f);
    TwinReads(table, t, bits);
    TwinWords(table, codes, t, f, SPEOF);
    assert |Sending(codes, s)| == |Coding(codes, s)| + |WordBits(codes, SPEOF)|;
    if s == [] {
      ShortFits(codes, s);
    } else {
      TwinWords(table, codes, t, f, s[0]);
      Unworded(codes, s);
    }
  }

  lemma Unworded(codes: seq<Code>, s: seq<Byte>)
    requires |codes| == NUM_SYMBOLS && s != [] && codes[s[0]].len == 0
    ensures !Fits(codes, s)
  {
  }

  lemma TwinLeaf(s: seq<Byte>, table: seq<Pair>, codes: seq<Code>, t: Tree)
    requires Coded(table, codes, t, FreqsOf(s)) && Twin(t)
    ensures t.left == Leaf(SPEOF) == t.right
  {
    FreqPositive(s, SPEOF);
    CodedNode(table, codes, t, FreqsOf(s));
    hide FreqsOf;
    assert Occurs(t, SPEOF);
    assert Occurs(t.left, SPEOF);
  }

  lemma TwinReads(table: seq<Pair>, t: Tree, bits: seq<bool>)
    requires Roots(table, 0, t) && t.Node? && t.left == Leaf(SPEOF) == t.right
    ensures Read(table, 0, bits) == Symbols([], bits != [])
  {
    assert Roots(table, table[0].left, Leaf(SPEOF)) && Roots(table, table[0].right, Leaf(SPEOF));
    if bits != [] {
      assert Read(table, 0, bits) == Sym(SPEOF, Read(table, 0, bits[1..]));
    }
  }

  lemma TwinWords(table: seq<Pair>, codes: seq<Code>, t: Tree, f: Freqs, sym: nat)
    requires Coded(table, codes, t, f) && t.Node? && t.left == Leaf(SPEOF) == t.right && sym < NUM_SYMBOLS
    ensures |codes| == NUM_SYMBOLS && codes[sym].len == if sym == SPEOF then 1 else 0
  {
    hide Coded, Pow2, Bits;
    CodedSize(table, codes, t, f);
    WordOf(table, codes, t, f, sym);
    assert IsPath(t, [true], SPEOF);
    var w := Bits(codes[sym].bits, codes[sym].len);
    if codes[sym].len > 0 {
      assert IsPath(if w[0] then t.right else t.left, w[1..], sym);
    }
  }

  /** The symbols sent, and no others, come back exactly if every code is there and whole. */
  lemma ReadsExactly(out: seq<Byte>, s: seq<Byte>, table: seq<Pair>, codes: seq<Code>, t: Tree)
    requires MadeOf(out, s, table, codes, t)
    ensures Read(table, 0, ByteBits(out[|HeaderOf(table)|..])) == Symbols(s, true) <==> Fits(codes, s)
  {
    hide Read, Fits, ByteBits, HeaderOf;
    CodedNode(table, codes, t, FreqsOf(s));
    if Twin(t) {
      TwinExactly(out, s, table, codes, t);
    } else {
      hide Once;
      if Fits(codes, s) {
        FitsReads(out, s, table, codes, t);
      } else if Read(table, 0, ByteBits(out[|HeaderOf(table)|..])) == Symbols(s, true) {
        ReadsFit(out, s, table, codes, t);
      }
    }
  }

  /** Header and body together are what an encoder makes, and what that is worth. */
  lemma Made(out: seq<Byte>, input: seq<Byte>, table: seq<Pair>, codes: seq<Code>, t: Tree)
    requires Coded(table, codes, t, FreqsOf(Rle.Rle(input)))
    requires |HeaderOf(table)| <= |out| && out[..|HeaderOf(table)|] == HeaderOf(table)
    requires |codes| == NUM_SYMBOLS && Packs(out[|HeaderOf(table)|..], Sending(codes, Rle.Rle(input)))
    ensures MadeOf(out, Rle.Rle(input), table, codes, t)
    ensures Fits(codes, Rle.Rle(input)) <==> PayloadOf(out, Rle.Rle(input), table, codes, t)
    ensures |Rle.Rle(input)| < 317810 ==> IsPayload(out, input)
  {
    hide Coded, HeaderOf, Packs, Sending, Fits, PayloadOf, IsPayload, FreqsOf, Rle.Rle;
    var s := Rle.Rle(input);
    assert out == HeaderOf(table) + out[|HeaderOf(table)|..];
    FitsExactly(out, s, table, codes, t);
    if |s| < 317810 {
      SmallFits(out, s, table, codes, t);
      Payload(out, input, table, codes, t);
    }
  }

  // ----- small inputs

  lemma {:induction false} CountPositive(s: seq<Byte>, i: nat)
    requires i < |s|
    ensures 0 < Count(s, s[i]) <= |s|
    decreases |s|
  {
    CountSize(s[..|s| - 1], s[i]);
    if i < |s| - 1 {
      CountPositive(s[..|s| - 1], i);
    }
  }

  lemma {:induction false} CountSize(s: seq<Byte>, b: nat)
    ensures Count(s, b) <= |s|
    decreases |s|
  {
    if s != [] {
      CountSize(s[..|s| - 1], b);
    }
  }

  lemma {:induction false} NoneCounted(n: nat)
    ensures Total(Tally([], n)) == if n > SPEOF then 1 else 0
  {
    hide Wrap;
    WrapSmall(0);
    if n > 0 {
      NoneCounted(n - 1);
      assert Count([], n - 1) == 0;
      TotalSnoc(Tally([], n - 1), if n - 1 == SPEOF then 1 else 0);
    }
  }

  lemma WrapSmall(n: nat)
    requires n < 0x1_0000_0000
    ensures Wrap(n) == n
  {
  }

  /** A byte that is sent fewer than 2^32 times is used, and so is the end marker. */
  lemma FreqPositive(s: seq<Byte>, sym: nat)
    requires sym == SPEOF || ((exists i :: 0 <= i < |s| && s[i] == sym) && |s| < 0x1_0000_0000)
    ensures FreqsOf(s)[sym] > 0
  {
    if sym != SPEOF {
      var i :| 0 <= i < |s| && s[i] == sym;
      CountPositive(s, i);
    }
    TallyAt(s, NUM_SYMBOLS, sym);
  }

  lemma {:induction false} TallyMore(s: seq<Byte>, b: Byte, n: nat)
    requires |s| + 1 < 0x1_0000_0000
    ensures Tally(s + [b], n) == if b < n then Tally(s, n)[b := Tally(s, n)[b] + 1] else Tally(s, n)
  {
    hide Wrap;
    if n > 0 {
      TallyMore(s, b, n - 1);
      assert (s + [b])[..|s|] == s;
      CountSize(s, n - 1);
      WrapSmall(Count(s, n - 1));
      WrapSmall(Count(s + [b], n - 1));
    }
  }

  /** Every byte sent counts once, and the end marker; fewer than 2^32 bytes cannot overflow a counter. */
  lemma {:induction false} FreqsTotal(s: seq<Byte>)
    requires |s| < 0x1_0000_0000
    ensures Total(FreqsOf(s)) == |s| + 1
    decreases |s|
  {
    if s == [] {
      NoneCounted(NUM_SYMBOLS);
    } else {
      var n := |s| - 1;
      FreqsTotal(s[..n]);
      assert s == s[..n] + [s[n]];
      TallyMore(s[..n], s[n], NUM_SYMBOLS);
      TotalUpdate(FreqsOf(s[..n]), s[n], FreqsOf(s[..n])[s[n]] + 1);
    }
  }

  /** Below 317810 coded bytes every code that is sent is there and whole. */
  lemma SmallFits(out: seq<Byte>, s: seq<Byte>, table: seq<Pair>, codes: seq<Code>, t: Tree)
    requires MadeOf(out, s, table, codes, t) && |s| < 317810
    ensures Fits(codes, s)
  {
    var f := FreqsOf(s);
    hide Coded, Carries, Sending, FreqsOf, Fits;
    FreqsTotal(s);
    CodedSize(table, codes, t, f);
    CodesNarrow(table, codes, t, f);
    FreqPositive(s, SPEOF);
    ShortWord(table, codes, t, f, SPEOF);
    forall i | 0 <= i < |s| ensures 0 < codes[s[i]].len <= 25 {
      FreqPositive(s, s[i]);
      ShortWord(table, codes, t, f, s[i]);
    }
    ShortFits(codes, s);
  }

  // ----- texts

  lemma {:induction false} PlainFed(st: Rle.State, s: seq<Byte>)
    requires !st.awaiting && forall i :: 0 <= i < |s| ==> s[i] != Rle.FLAG
    ensures Rle.FeedAll(st, s).Fed? && Rle.FeedAll(st, s).out == s
    decreases |s|
  {
    if s != [] {
      PlainFed(Rle.Feed(st, s[0]).state, s[1..]);
      assert s == [s[0]] + s[1..];
    }
  }

  /** Only symbols of the tree are read. */
  lemma {:induction false} ReadOccurs(table: seq<Pair>, t: Tree, bits: seq<bool>)
    requires Roots(table, 0, t) && t.Node?
    ensures forall i :: 0 <= i < |Read(table, 0, bits).bytes| ==> Occurs(t, Read(table, 0, bits).bytes[i])
    decreases |bits|
  {
    hide Read, Occurs, Walk, Roots;
    ReadWalk(table, 0, t, bits);
    WalkBack(t, bits);
    WalkShorter(t, bits);
    var w := Walk(t, bits);
    if w.Some? {
      ReadOccurs(table, t, w.value.rest);
    }
  }

  lemma {:induction false} WalkShorter(t: Tree, bits: seq<bool>)
    ensures Walk(t, bits).Some? ==> |Walk(t, bits).value.rest| <= |bits|
    ensures Walk(t, bits).Some? && t.Node? ==> |Walk(t, bits).value.rest| < |bits|
    decreases t
  {
    if t.Node? && bits != [] {
      WalkShorter(if bits[0] then t.right else t.left, bits[1..]);
    }
  }

  lemma {:induction false} LeafCounts(t: Tree, f: Freqs, sym: nat)
    requires Balanced(t, f) && Occurs(t, sym)
    ensures 1 <= FreqOf(f, sym) <= Weight(t, f)
  {
    if t.Node? {
      LeafCounts(if Occurs(t.left, sym) then t.left else t.right, f, sym);
    }
  }

  /** A byte that is not sent has no leaf. */
  lemma UnusedAbsent(table: seq<Pair>, codes: seq<Code>, t: Tree, s: seq<Byte>, b: Byte)
    requires Coded(table, codes, t, FreqsOf(s)) && Count(s, b) == 0
    ensures !Occurs(t, b)
  {
    TallyAt(s, NUM_SYMBOLS, b);
    assert FreqsOf(s)[b] == 0;
    hide FreqsOf, Balanced, Once;
    CodedNode(table, codes, t, FreqsOf(s));
    if Twin(t) {
      TwinLeaf(s, table, codes, t);
    } else if Occurs(t, b) {
      LeafCounts(t, FreqsOf(s), b);
    }
  }

  lemma {:induction false} CountNone(s: seq<Byte>, b: Byte)
    requires forall i :: 0 <= i < |s| ==> s[i] != b
    ensures Count(s, b) == 0
    decreases |s|
  {
    if s != [] {
      CountNone(s[..|s| - 1], b);
    }
  }

  /** Where run-length coding leaves no flag, the text itself comes back exactly if every code is there and whole. */
  lemma TextExactly(out: seq<Byte>, input: seq<Byte>, table: seq<Pair>, codes: seq<Code>, t: Tree)
    requires MadeOf(out, Rle.Rle(input), table, codes, t)
    requires forall i :: 0 <= i < |Rle.Rle(input)| ==> Rle.Rle(input)[i] != Rle.FLAG
    ensures Decoded(out).Ended? && Decoded(out).out == input <==> Fits(codes, Rle.Rle(input))
  {
    var s := Rle.Rle(input);
    var bits := ByteBits(out[|HeaderOf(table)|..]);
    assert t.Node? by { CodedNode(table, codes, t, FreqsOf(s)); }
    ReadsExactly(out, s, table, codes, t);
    hide Coded, Read, Fits, Run, Occurs, Roots, Sending, Rle.Rle, Rle.FeedAll, FreqsOf, HeaderOf;
    CodedSize(table, codes, t, FreqsOf(s));
    HeaderBack(table, out);
    RunReads(table, 0, Rle.FRESH, bits);
    Rle.RoundTrip(Rle.FRESH, input);
    PlainFed(Rle.FRESH, s);
    CountNone(s, Rle.FLAG);
    UnusedAbsent(table, codes, t, s, Rle.FLAG);
    ReadOccurs(table, t, bits);
    PlainFed(Rle.FRESH, Read(table, 0, bits).bytes);
  }
}
