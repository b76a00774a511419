/** The ADC encoder as it runs: a hash of three-byte prefixes, matches extended eight bytes at a time, literal runs. */
module Adc {
  import opened Words
  import opened AdcSpec

  const HASH_TABLE_SIZE := 8192
  const HASH_EMPTY := 0xFFFF_FFFF

  // ----- comparing eight bytes at once

  /** Exclusive or of two words. */
  function Xor(a: nat, b: nat): nat
    decreases a + b
  {
    if a == 0 && b == 0 then 0 else (if a % 2 == b % 2 then 0 else 1) + 2 * Xor(a / 2, b / 2)
  }

  function TrailingZeros(x: nat): nat
    requires x > 0
  {
    if x % 2 == 1 then 0 else 1 + TrailingZeros(x / 2)
  }

  lemma {:induction false} XorEqual(a: nat, b: nat)
    ensures Xor(a, b) == 0 <==> a == b
    decreases a + b
  {
    if a != 0 || b != 0 {
      XorEqual(a / 2, b / 2);
    }
  }

  /** The lowest bit in which two numbers differ. */
  function Differ(a: nat, b: nat): nat
    requires a != b
  {
    XorEqual(a, b);
    TrailingZeros(Xor(a, b))
  }

  lemma DifferStep(a: nat, b: nat)
    requires a != b
    ensures a % 2 != b % 2 ==> Differ(a, b) == 0
    ensures a % 2 == b % 2 ==> a / 2 != b / 2 && Differ(a, b) == 1 + Differ(a / 2, b / 2)
  {
    XorEqual(a, b);
    XorEqual(a / 2, b / 2);
    assert Xor(a, b) / 2 == Xor(a / 2, b / 2);
  }

  lemma Halve(h: nat, p: nat, a: nat)
    ensures (h + 2 * p * a) / 2 == h / 2 + p * a && (h + 2 * p * a) % 2 == h % 2
  {
    assert 2 * p * a == 2 * (p * a);
  }

  /** Equal low bits put the difference that much higher. */
  lemma {:induction false} DifferAbove(h: nat, n: nat, a: nat, b: nat)
    requires h < Pow2(n) && a != b
    ensures h + Pow2(n) * a != h + Pow2(n) * b
    ensures Differ(h + Pow2(n) * a, h + Pow2(n) * b) == n + Differ(a, b)
    decreases n
  {
    hide Differ;
    if n == 0 {
      assert Pow2(0) * a == a && Pow2(0) * b == b;
    } else {
      var p := Pow2(n - 1);
      DifferAbove(h / 2, n - 1, a, b);
      Halve(h, p, a);
      Halve(h, p, b);
      DifferStep(h + 2 * p * a, h + 2 * p * b);
    }
  }

  /** Different low bits keep the difference below. */
  lemma {:induction false} DifferBelow(g: nat, h: nat, n: nat, a: nat, b: nat)
    requires g < Pow2(n) && h < Pow2(n) && g != h
    ensures g + Pow2(n) * a != h + Pow2(n) * b
    ensures Differ(g + Pow2(n) * a, h + Pow2(n) * b) < n
    decreases n
  {
    hide Differ;
    var p := Pow2(n - 1);
    Halve(g, p, a);
    Halve(h, p, b);
    if g % 2 == h % 2 {
      DifferBelow(g / 2, h / 2, n - 1, a, b);
    }
    assert g + 2 * p * a != h + 2 * p * b;
    DifferStep(g + 2 * p * a, h + 2 * p * b);
  }

  /** Little-endian load. */
  function Load(s: seq<Byte>): nat {
    if s == [] then 0 else s[0] + Pow2(8) * Load(s[1..])
  }

  /** The lowest differing bit lies in the first differing byte. */
  lemma {:induction false} FirstDifference(s: seq<Byte>, t: seq<Byte>)
    requires |s| == |t|
    ensures s == t <==> Load(s) == Load(t)
    ensures s != t ==>
      var k := Differ(Load(s), Load(t)) / 8;
      k < |s| && s[..k] == t[..k] && s[k] != t[k]
    decreases |s|
  {
    hide Differ, Pow2;
    Pow2Bytes();
    if s != [] {
      var g: nat, h: nat := s[0], t[0];
      var a, b := Load(s[1..]), Load(t[1..]);
      assert s == [s[0]] + s[1..] && t == [t[0]] + t[1..];
      FirstDifference(s[1..], t[1..]);
      if g != h {
        DifferBelow(g, h, 8, a, b);
      } else if a != b {
        DifferAbove(g, 8, a, b);
        var k := Differ(a, b) / 8;
        assert s[..k + 1] == [s[0]] + s[1..][..k] && t[..k + 1] == [t[0]] + t[1..][..k];
      }
    }
  }

  /** How many bytes match, counted one by one. */
  function Matching(s: seq<Byte>, a: nat, b: nat, limit: nat): (n: nat)
    requires b <= a && limit <= |s|
    ensures a <= limit ==> a + n <= limit
    decreases limit - a
  {
    if a < limit && s[a] == s[b] then 1 + Matching(s, a + 1, b + 1, limit) else 0
  }

  /** Equal stretches count in full. */
  lemma {:induction false} MatchingRun(s: seq<Byte>, a: nat, b: nat, limit: nat, n: nat)
    requires b <= a && a + n <= limit <= |s| && s[a..a + n] == s[b..b + n]
    ensures Matching(s, a, b, limit) == n + Matching(s, a + n, b + n, limit)
    decreases n
  {
    if n > 0 {
      assert s[a..a + n][0] == s[b..b + n][0];
      assert s[a + 1..a + n] == s[a..a + n][1..] && s[b + 1..b + n] == s[b..b + n][1..];
      MatchingRun(s, a + 1, b + 1, limit, n - 1);
    }
  }

  lemma {:induction false} MatchingMeans(s: seq<Byte>, a: nat, b: nat, limit: nat)
    requires b <= a <= limit <= |s|
    ensures forall k :: a <= k < a + Matching(s, a, b, limit) ==> s[k] == s[k - (a - b)]
    decreases limit - a
  {
    if a < limit && s[a] == s[b] {
      MatchingMeans(s, a + 1, b + 1, limit);
    }
  }

  /** The first difference of two words of eight bytes, by the zeros below it. */
  method CompareEight(xa: seq<Byte>, xb: seq<Byte>) returns (k: nat)
    requires |xa| == |xb| == 8
    ensures k == 8 ==> xa == xb
    ensures k < 8 ==> xa[..k] == xb[..k] && xa[k] != xb[k]
    ensures k <= 8
  {
    hide Xor, TrailingZeros, Load;
    FirstDifference(xa, xb);
    var x := Xor(Load(xa), Load(xb));
    XorEqual(Load(xa), Load(xb));
    k := if x != 0 then TrailingZeros(x) / 8 else 8;
  }

  /** Eight bytes per step, with the scalar loop's result. */
  method MatchForward(input: seq<Byte>, a: nat, b: nat, aLimit: nat) returns (len: nat)
    requires b <= a && aLimit <= |input|
    ensures len == Matching(input, a, b, aLimit)
  {
    hide Matching;
    len := 0;
    while a + len + 8 <= aLimit
      invariant a + len <= aLimit || len == 0
      invariant Matching(input, a, b, aLimit) == len + Matching(input, a + len, b + len, aLimit)
      decreases aLimit - len
    {
      var xa, xb := input[a + len..a + len + 8], input[b + len..b + len + 8];
      var k := CompareEight(xa, xb);
      if k < 8 {
        EndsAt(input, a + len, b + len, aLimit, k);
        return len + k;
      }
      MatchingRun(input, a + len, b + len, aLimit, 8);
      len := len + 8;
    }
    var more := MatchRest(input, a + len, b + len, aLimit);
    len := len + more;
  }

  /** The last bytes one by one. */
  method MatchRest(input: seq<Byte>, a: nat, b: nat, aLimit: nat) returns (len: nat)
    requires b <= a && aLimit <= |input|
    ensures len == Matching(input, a, b, aLimit)
  {
    hide Matching;
    len := 0;
    MatchingStep(input, a, b, aLimit);
    while a + len < aLimit && input[a + len] == input[b + len]
      invariant Matching(input, a, b, aLimit) == len + Matching(input, a + len, b + len, aLimit)
      decreases aLimit - len
    {
      MatchingStep(input, a + len, b + len, aLimit);
      len := len + 1;
    }
    MatchingStep(input, a + len, b + len, aLimit);
  }

  lemma MatchingStep(s: seq<Byte>, a: nat, b: nat, limit: nat)
    requires b <= a && limit <= |s|
    ensures Matching(s, a, b, limit) == if a < limit && s[a] == s[b] then 1 + Matching(s, a + 1, b + 1, limit) else 0
  {
  }

  /** The first differing byte of eight ends the match. */
  lemma EndsAt(s: seq<Byte>, a: nat, b: nat, limit: nat, k: nat)
    requires b <= a && a + 8 <= limit <= |s|
    requires k < 8 && s[a..a + 8][..k] == s[b..b + 8][..k] && s[a..a + 8][k] != s[b..b + 8][k]
    ensures Matching(s, a, b, limit) == k
  {
    assert s[a..a + k] == s[a..a + 8][..k] && s[b..b + k] == s[b..b + 8][..k];
    MatchingRun(s, a, b, limit, k);
  }

  // ----- building the stream

  function Hash3(b0: Byte, b1: Byte, b2: Byte): (h: nat)
    ensures h < HASH_TABLE_SIZE
  {
    var x0: int, x1: int, x2: int := b0, b1, b2;
    (x0 + 0x100 * x1 + 0x1_0000 * x2) * 2654435761 % 0x1_0000_0000 / 0x8_0000
  }

  /** Literal runs of at most 128 bytes. */
  method FlushLiterals(encoded0: seq<Byte>, input: seq<Byte>, start: nat, len: nat) returns (encoded: seq<Byte>)
    requires start + len <= |input| && Run(encoded0) == Some(State(Tag, input[..start]))
    ensures Run(encoded) == Some(State(Tag, input[..start + len]))
  {
    hide Run;
    encoded := encoded0;
    var off, rem := start, len;
    while rem > 0
      invariant off + rem == start + len && rem >= 0 && off >= 0
      invariant Run(encoded) == Some(State(Tag, input[..off]))
    {
      var take := if rem < MAX_LITERAL_RUN then rem else MAX_LITERAL_RUN;
      LiteralToken(encoded, input[..off], input[off..off + take]);
      assert input[..off] + input[off..off + take] == input[..off + take];
      var tag: Byte := 0x80 + take - 1;
      encoded := encoded + ([tag] + input[off..off + take]);
      off, rem := off + take, rem - take;
    }
  }

  /** A match that can be encoded: it repeats at its distance, and only short distances go with three bytes. */
  ghost predicate Usable(input: seq<Byte>, i: nat, len: nat, dist: nat) {
    && MIN_MATCH <= len <= MAX_LONG_MATCH && i + len <= |input|
    && 1 <= dist <= i && dist <= MAX_LONG_OFFSET && (dist <= MAX_SHORT_OFFSET || len >= 4)
    && forall k :: i <= k < i + len ==> input[k] == input[k - dist]
  }

  /** Three bytes repeat from within reach, four if a long distance has to be written. */
  predicate Repeats(input: seq<Byte>, i: nat, from: nat)
    requires i + 3 <= |input|
  {
    && from < i && i - from <= 65536
    && input[from..from + 3] == input[i..i + 3]
    && (i - from <= 1024 || (i + 3 < |input| && input[from + 3] == input[i + 3]))
  }

  /** Nothing longer can be copied: one token holds no more, the input ends, or the next byte differs. */
  predicate CannotGrow(input: seq<Byte>, i: nat, len: nat, dist: nat)
    requires dist <= i
  {
    len == 67 || i + len >= |input| || input[i + len] != input[i + len - dist]
  }

  lemma {:induction false} MatchingEnds(s: seq<Byte>, a: nat, b: nat, limit: nat)
    requires b <= a <= limit <= |s|
    ensures var n := Matching(s, a, b, limit); a + n == limit || s[a + n] != s[b + n]
    ensures Matching(s, a, b, limit) > 0 <==> a < limit && s[a] == s[b]
    decreases limit - a
  {
    if a < limit && s[a] == s[b] {
      MatchingEnds(s, a + 1, b + 1, limit);
    }
  }

  lemma FirstThree(input: seq<Byte>, i: nat, from: nat)
    requires i + 3 <= |input|
    ensures Repeats(input, i, from) ==> from < i && i - from <= 65536
    ensures Repeats(input, i, from) ==>
      input[from] == input[i] && input[from + 1] == input[i + 1] && input[from + 2] == input[i + 2]
  {
    if Repeats(input, i, from) {
      assert input[from..from + 3][0] == input[i..i + 3][0] && input[from..from + 3][1] == input[i..i + 3][1];
      assert input[from..from + 3][2] == input[i..i + 3][2];
    }
  }

  /** What the extension of three equal bytes gives. */
  lemma Extended(input: seq<Byte>, i: nat, from: nat, len: nat)
    requires i + 3 <= |input| && from < i && i - from <= 65536
    requires input[from] == input[i] && input[from + 1] == input[i + 1] && input[from + 2] == input[i + 2]
    requires len == 3 + Matching(input, i + 3, from + 3, i + if |input| - i < 67 then |input| - i else 67)
    ensures Repeats(input, i, from) <==> i - from <= 1024 || len >= 4
    ensures i - from <= 1024 || len >= 4 ==> Usable(input, i, len, i - from)
    ensures CannotGrow(input, i, len, i - from)
  {
    hide Matching;
    var limit := i + if |input| - i < 67 then |input| - i else 67;
    MatchingMeans(input, i + 3, from + 3, limit);
    MatchingEnds(input, i + 3, from + 3, limit);
    assert input[from..from + 3] == input[i..i + 3];
    forall k | i <= k < i + len ensures input[k] == input[k - (i - from)] {
      if k >= i + 3 {
        assert input[k] == input[k - ((i + 3) - (from + 3))];
      }
    }
  }

  /**
   The candidate the hash table holds for the three bytes at `i`, whatever it is: a match exactly if bytes repeat from
   there, and then the longest.
   */
  method FindMatch(input: seq<Byte>, i: nat, candidate: nat) returns (bestLen: nat, bestDist: nat)
    requires i + MIN_MATCH <= |input|
    ensures bestLen == 0 || Usable(input, i, bestLen, bestDist)
    ensures bestLen > 0 <==> candidate != HASH_EMPTY && Repeats(input, i, candidate)
    ensures bestLen > 0 ==> bestDist == i - candidate && CannotGrow(input, i, bestLen, bestDist)
  {
    hide Matching, Usable, CannotGrow, Repeats;
    FirstThree(input, i, candidate);
    bestLen, bestDist := 0, 0;
    if candidate != HASH_EMPTY && candidate < i {
      var dist := i - candidate;
      if 1 <= dist <= MAX_LONG_OFFSET {
        if input[candidate] == input[i] && input[candidate + 1] == input[i + 1] && input[candidate + 2] == input[i + 2] {
          var limit := if |input| - i < MAX_LONG_MATCH then |input| - i else MAX_LONG_MATCH;
          var more := MatchForward(input, i + 3, candidate + 3, i + limit);
          var len := 3 + more;
          Extended(input, i, candidate, len);
          if dist <= MAX_SHORT_OFFSET {
            bestLen, bestDist := len, dist;
          } else if len >= 4 {
            bestLen, bestDist := len, dist;
          }
        }
      }
    }
  }

  /** The shorter form where distance and length fit it. */
  method MatchToken(len: nat, dist: nat) returns (token: seq<Byte>)
    requires MIN_MATCH <= len <= MAX_LONG_MATCH && 1 <= dist <= MAX_LONG_OFFSET
    requires dist <= MAX_SHORT_OFFSET || len >= 4
    ensures dist <= MAX_SHORT_OFFSET && len <= MAX_SHORT_MATCH ==> token == ShortToken(dist, len)
    ensures !(dist <= MAX_SHORT_OFFSET && len <= MAX_SHORT_MATCH) ==> token == LongToken(dist, len)
  {
    var off := dist - 1;
    if dist <= MAX_SHORT_OFFSET && len <= MAX_SHORT_MATCH {
      token := [(len - MIN_MATCH) * 4 + off / 0x100, off % 0x100];
    } else {
      token := [0x40 + (len - 4), off / 0x100, off % 0x100];
    }
  }

  lemma TokenCopies(encoded: seq<Byte>, input: seq<Byte>, i: nat, len: nat, dist: nat, token: seq<Byte>)
    requires Usable(input, i, len, dist) && Run(encoded) == Some(State(Tag, input[..i]))
    requires dist <= MAX_SHORT_OFFSET && len <= MAX_SHORT_MATCH ==> token == ShortToken(dist, len)
    requires !(dist <= MAX_SHORT_OFFSET && len <= MAX_SHORT_MATCH) ==> token == LongToken(dist, len)
    ensures Run(encoded + token) == Some(State(Tag, input[..i + len]))
  {
    hide Run, ShortToken, LongToken;
    CopyRepeats(input, i, dist, len);
    if dist <= MAX_SHORT_OFFSET && len <= MAX_SHORT_MATCH {
      ShortMatch(encoded, input[..i], dist, len);
    } else {
      LongMatch(encoded, input[..i], dist, len);
    }
  }

  /** Tokens for the whole input: they decode to it. */
  method Build(input: seq<Byte>) returns (encoded: seq<Byte>)
    ensures Run(encoded) == Some(State(Tag, input))
  {
    hide Run, Hash3, Usable;
    encoded := [];
    NothingRun(input);
    var n := |input|;
    var table := new nat[HASH_TABLE_SIZE](_ => HASH_EMPTY);
    var start, pending, i := 0, 0, 0;
    while i + MIN_MATCH <= n
      invariant 0 <= start && 0 <= pending && start + pending == i <= n
      invariant Run(encoded) == Some(State(Tag, input[..start]))
      decreases n - i
    {
      var h := Hash3(input[i], input[i + 1], input[i + 2]);
      var bestLen, bestDist := FindMatch(input, i, table[h]);
      table[h] := i % 0x1_0000_0000;
      if bestLen >= MIN_MATCH {
        UsableEnds(input, i, bestLen, bestDist);
        if pending > 0 {
          encoded := FlushLiterals(encoded, input, start, pending);
          pending := 0;
        }
        var token := MatchToken(bestLen, bestDist);
        TokenCopies(encoded, input, i, bestLen, bestDist, token);
        encoded := encoded + token;
        var matchEnd := i + bestLen;
        var j := i + 1;
        while j + MIN_MATCH <= matchEnd && j < n - 2
          invariant i < j
        {
          table[Hash3(input[j], input[j + 1], input[j + 2])] := j % 0x1_0000_0000;
          j := j + 1;
        }
        i := matchEnd;
        start, pending := i, 0;
      } else {
        pending, i := pending + 1, i + 1;
      }
    }
    if i < n {
      pending := pending + (n - i);
    }
    if pending > 0 {
      encoded := FlushLiterals(encoded, input, start, pending);
    }
    assert input[..n] == input;
  }

  lemma NothingRun(input: seq<Byte>)
    ensures Run([]) == Some(State(Tag, input[..0]))
  {
  }

  lemma UsableEnds(input: seq<Byte>, i: nat, len: nat, dist: nat)
    requires Usable(input, i, len, dist)
    ensures i + len <= |input| && len <= MAX_LONG_MATCH && 1 <= dist <= MAX_LONG_OFFSET
    ensures dist <= MAX_SHORT_OFFSET || len >= 4
  {
  }

  datatype EncPhase = Buffering | Flushing | Done

  /** Collects the input; the tokens are found when it is complete. */
  class Encoder {
    var input: seq<Byte>
    var encoded: seq<Byte>
    var encodedIdx: nat
    var phase: EncPhase
    ghost var emitted: seq<Byte>

    ghost predicate Valid()
      reads this
    {
      && encodedIdx <= |encoded| && emitted == encoded[..encodedIdx]
      && (phase.Buffering? ==> encoded == [])
      && (phase.Done? ==> encodedIdx == |encoded|)
      && (!phase.Buffering? ==> Run(encoded) == Some(State(Tag, input)))
    }

    constructor ()
      ensures Valid() && input == [] && emitted == [] && phase.Buffering?
    {
      input, encoded, encodedIdx, phase, emitted := [], [], 0, Buffering, [];
    }

    /** Accepts everything until the stream is finished, then nothing. */
    method Encode(more: seq<Byte>) returns (consumed: nat)
      requires Valid()
      modifies this`input
      ensures Valid() && consumed == (if phase.Buffering? then |more| else 0)
      ensures input == old(input) + more[..consumed]
    {
      if !phase.Buffering? {
        assert input + more[..0] == input;
        return 0;
      }
      input := input + more;
      assert more[..|more|] == more;
      consumed := |more|;
    }

    /** Find the tokens. */
    method Complete()
      requires Valid() && phase.Buffering?
      modifies this`encoded, this`phase
      ensures Valid() && !phase.Buffering?
    {
      hide Run;
      assert encodedIdx == 0;
      if input != [] {
        encoded := Build(input);
        phase := Flushing;
      } else {
        NothingRun([]);
        phase := Done;
      }
    }

    /** Hand out what fits. */
    method Flush(output: array<Byte>) returns (n: nat)
      requires Valid() && phase.Flushing?
      modifies this`encodedIdx, this`phase, this`emitted, output
      ensures Valid() && !phase.Buffering?
      ensures n <= output.Length && emitted == old(emitted) + output[..n]
      ensures n < output.Length ==> phase.Done?
    {
      hide Run;
      n := if |encoded| - encodedIdx < output.Length then |encoded| - encodedIdx else output.Length;
      var bytes := encoded[encodedIdx..encodedIdx + n];
      Store(output, 0, bytes);
      assert output[..n] == bytes;
      assert encoded[..encodedIdx + n] == encoded[..encodedIdx] + bytes;
      emitted, encodedIdx := emitted + bytes, encodedIdx + n;
      if encodedIdx == |encoded| {
        phase := Done;
      }
    }

    /** Build once, then hand out; done when the whole stream is out. */
    method Finish(output: array<Byte>) returns (written: nat, done: bool)
      requires Valid()
      modifies this, output
      ensures Valid() && !phase.Buffering? && input == old(input)
      ensures written <= output.Length && emitted == old(emitted) + output[..written]
      ensures done <==> phase.Done?
      ensures done ==> emitted == encoded && Run(emitted) == Some(State(Tag, input))
      ensures written < output.Length ==> done
    {
      hide Run;
      written := 0;
      assert output[..0] == [];
      if phase.Buffering? {
        Complete();
      }
      if phase.Flushing? {
        written := Flush(output);
      }
      done := phase.Done?;
      if done {
        assert encoded[..encodedIdx] == encoded;
      }
    }
  }
}
