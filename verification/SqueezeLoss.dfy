/**
 An ARC Squeeze input that does not come back.  In the ruler text of order k the byte j occurs 2^(k - j) times; two of
 order 27 and the end marker weigh 1, 2, 4, and so on, which forces the deepest possible tree.  The code of byte 27 has
 27 bits with only the top one set, and behind 7 waiting bits that one is lost.
 */
module SqueezeLoss {
  import opened Words
  import opened BitStrings
  import opened SqueezeTree
  import opened SqueezeSpec
  import opened SqueezeExact
  import Rle = SqueezeRle

  const ORDER := 27

  function Ruler(k: nat): seq<Byte>
    requires k < 0x90
  {
    if k == 0 then [] else Ruler(k - 1) + [k] + Ruler(k - 1)
  }

  function Text(): seq<Byte> {
    Ruler(ORDER) + Ruler(ORDER)
  }

  // ----- run-length coding leaves it alone

  predicate Changing(s: seq<Byte>) {
    forall i :: 0 <= i < |s| - 1 ==> s[i] != s[i + 1]
  }

  lemma {:induction false} RulerChanges(k: nat)
    requires k < 0x90
    ensures Changing(Ruler(k)) && forall i :: 0 <= i < |Ruler(k)| ==> 1 <= Ruler(k)[i] <= k
  {
    if k > 0 {
      RulerChanges(k - 1);
      var r := Ruler(k - 1);
      var n := |r|;
      assert forall i :: 0 <= i < n ==> Ruler(k)[i] == r[i] && Ruler(k)[n + 1 + i] == r[i];
      forall i | 0 <= i < |Ruler(k)| - 1 ensures Ruler(k)[i] != Ruler(k)[i + 1] {
        if i > n {
          assert Ruler(k)[i] == r[i - n - 1] && Ruler(k)[i + 1] == r[i - n];
        }
      }
    }
  }

  /** No flag, and no byte three times in a row. */
  predicate Plain(s: seq<Byte>) {
    && (forall i :: 0 <= i < |s| ==> s[i] != Rle.FLAG)
    && (forall i :: 0 <= i < |s| - 2 ==> !(s[i] == s[i + 1] == s[i + 2]))
  }

  lemma TextPlain()
    ensures Plain(Text())
  {
    RulerChanges(ORDER);
    var r := Ruler(ORDER);
    TwicePlain(r);
  }

  lemma TwicePlain(r: seq<Byte>)
    requires Changing(r) && forall i :: 0 <= i < |r| ==> r[i] != Rle.FLAG
    ensures |r| > 1 ==> Plain(r + r)
  {
    if |r| > 1 {
      var s, n := r + r, |r|;
      forall i | 0 <= i < |s| - 2 ensures !(s[i] == s[i + 1] == s[i + 2]) {
        if i + 1 < n {
          assert s[i] == r[i] && s[i + 1] == r[i + 1];
        } else {
          assert s[i + 1] == r[i + 1 - n] && s[i + 2] == r[i + 2 - n];
        }
      }
    }
  }

  lemma {:induction false} PlainRle(s: seq<Byte>)
    requires Plain(s)
    ensures Rle.Rle(s) == s
    decreases |s|
  {
    hide Rle.Run;
    if s != [] {
      Rle.RleCases(s);
      Rle.RunIs(s, s[0], Rle.MAX_RUN);
      assert Plain(s[1..]);
      PlainRle(s[1..]);
      assert s == [s[0]] + s[1..];
      assert |s| > 2 ==> !(s[0] == s[1] == s[2]);
    }
  }

  // ----- its frequencies

  lemma {:induction false} CountJoin(a: seq<Byte>, b: seq<Byte>, x: nat)
    ensures Count(a + b, x) == Count(a, x) + Count(b, x)
    decreases |b|
  {
    if b == [] {
      assert a + b == a;
    } else {
      var n := |b| - 1;
      CountJoin(a, b[..n], x);
      assert (a + b)[..|a| + n] == a + b[..n];
    }
  }

  lemma {:induction false} RulerCounts(k: nat, j: nat)
    requires k < 0x90
    ensures Count(Ruler(k), j) == if 1 <= j <= k then Pow2(k - j) else 0
    ensures |Ruler(k)| == Pow2(k) - 1
  {
    if k > 0 {
      var r := Ruler(k - 1);
      RulerCounts(k - 1, j);
      CountJoin(r + [k], r, j);
      CountJoin(r, [k], j);
    }
  }

  lemma Powers()
    ensures Pow2(26) == 0x400_0000 && Pow2(27) == 0x800_0000 && Pow2(28) == 0x1000_0000
  {
    Pow2Bytes();
    assert Pow2(2) == 4;
    Pow2Add(24, 2);
    Pow2Next(26);
    Pow2Next(27);
  }

  /** Byte j occurs 2^(28 - j) times, and the end marker once. */
  lemma TextFreqs(j: nat)
    requires j < NUM_SYMBOLS
    ensures FreqsOf(Text())[j] == if 1 <= j <= ORDER then Pow2(28 - j) else if j == SPEOF then 1 else 0
    ensures |Text()| == Pow2(28) - 2
  {
    hide Pow2, Ruler;
    TallyAt(Text(), NUM_SYMBOLS, j);
    CountJoin(Ruler(ORDER), Ruler(ORDER), j);
    RulerCounts(ORDER, j);
    Powers();
    if 1 <= j <= ORDER {
      Pow2Next(ORDER - j);
      Pow2Grows(28 - j, 28);
      WrapSmall(Pow2(28 - j));
    }
  }

  // ----- its tree

  /** The tree that merges one byte after the other, the rarest first. */
  function Chain(m: nat): Tree
    requires m <= ORDER + 1
    decreases ORDER + 1 - m
  {
    if m > ORDER then Leaf(SPEOF) else Node(Chain(m + 1), Leaf(m))
  }

  ghost predicate Doubling(f: Freqs) {
    |f| == NUM_SYMBOLS && f[SPEOF] == 1 && forall j: nat :: 1 <= j <= ORDER ==> f[j] == Pow2(28 - j)
  }

  /** Two trees with the byte `m`, which outweighs all that are rarer: it is alone on the right. */
  lemma HeavyAlone(l: Tree, r: Tree, f: Freqs, m: nat)
    requires Doubling(f) && Balanced(Node(l, r), f) && 1 <= m <= ORDER
    requires Weight(Node(l, r), f) == 2 * Pow2(28 - m) - 1 && Occurs(Node(l, r), m)
    ensures r == Leaf(m) && Weight(l, f) == Pow2(28 - m) - 1
  {
    hide Pow2;
    NodeFacts(Node(l, r), f);
    if Occurs(r, m) {
      HeavyLeaf(r, l, f, m);
    } else {
      HeavyLeaf(l, r, f, m);
    }
  }

  lemma HeavyLeaf(t: Tree, other: Tree, f: Freqs, m: nat)
    requires Doubling(f) && Balanced(t, f) && 1 <= m <= ORDER && Occurs(t, m)
    requires Weight(t, f) + Weight(other, f) == 2 * Pow2(28 - m) - 1 && Child(t, f) <= Weight(other, f)
    ensures t == Leaf(m) && Weight(t, f) == Pow2(28 - m)
  {
    hide Pow2, Balanced;
    LeafCounts(t, f, m);
    if t.Node? {
      NodeFacts(t, f);
      LeafCounts(if Occurs(t.left, m) then t.left else t.right, f, m);
    }
  }

  lemma {:induction false} IsChain(t: Tree, f: Freqs, m: nat)
    requires Doubling(f) && Balanced(t, f) && 1 <= m <= ORDER + 1 && Weight(t, f) == 2 * Pow2(28 - m) - 1
    requires Occurs(t, SPEOF) && forall j: nat :: m <= j <= ORDER ==> Occurs(t, j)
    ensures t == Chain(m)
    decreases ORDER + 1 - m
  {
    hide Weight, Balanced, Doubling, Pow2;
    if m <= ORDER {
      assert Occurs(t, m);
      HeavyAlone(t.left, t.right, f, m);
      NodeFacts(t, f);
      Pow2Next(27 - m);
      forall j: nat | m + 1 <= j <= ORDER ensures Occurs(t.left, j) {
        assert Occurs(t, j);
      }
      assert 28 - (m + 1) == 27 - m;
      IsChain(t.left, f, m + 1);
    } else {
      Pow2Next(0);
      if t.Node? {
        NodeFacts(t, f);
        WeightPositive(t.left, f);
        WeightPositive(t.right, f);
      }
    }
  }

  /** The code of byte j: one bit set, at the end of the path. */
  lemma {:induction false} ChainPath(m: nat, path: seq<bool>, j: nat)
    requires 1 <= m <= j <= ORDER && IsPath(Chain(m), path, j)
    ensures |path| == j - m + 1 && Number(path) == Pow2(j - m)
    decreases ORDER - m
  {
    if path[0] {
      assert path[1..] == [];
    } else if m == j {
      ChainAbsent(m + 1, path[1..], j);
    } else {
      ChainPath(m + 1, path[1..], j);
    }
  }

  lemma {:induction false} ChainAbsent(m: nat, path: seq<bool>, j: nat)
    requires j < m <= ORDER + 1
    ensures !IsPath(Chain(m), path, j)
    decreases ORDER + 1 - m
  {
    if m <= ORDER && path != [] {
      ChainAbsent(m + 1, path[1..], j);
    }
  }

  lemma TextCodes(table: seq<Pair>, codes: seq<Code>, t: Tree, j: nat)
    requires Coded(table, codes, t, FreqsOf(Text())) && 1 <= j <= ORDER
    ensures |codes| == NUM_SYMBOLS && codes[j] == Code(Pow2(j - 1), j)
  {
    var f := FreqsOf(Text());
    TextTree(table, codes, t);
    hide Coded, FreqsOf, Pow2, IsPath;
    CodedSize(table, codes, t, f);
    WordOf(table, codes, t, f, j);
    ChainHas(1, j);
    PathToIs(t, j);
    ChainPath(1, PathTo(t, j), j);
    var w := Bits(codes[j].bits, codes[j].len);
    assert codes[j].len > 0;
    ChainPath(1, w, j);
    NumberBits(codes[j].bits, codes[j].len);
  }

  lemma {:induction false} ChainHas(m: nat, j: nat)
    requires m <= j <= ORDER
    ensures Occurs(Chain(m), j)
    decreases ORDER - m
  {
    if m < j {
      ChainHas(m + 1, j);
    }
  }

  lemma TextTree(table: seq<Pair>, codes: seq<Code>, t: Tree)
    requires Coded(table, codes, t, FreqsOf(Text()))
    ensures t == Chain(1)
  {
    var f := FreqsOf(Text());
    CodedNode(table, codes, t, f);
    TextDoubles();
    hide FreqsOf, Text, Coded, Pow2, Balanced, Weight, Total, Once;
    TextUses(t);
    TwinUses(t);
    Powers();
    Pow2Next(27);
    IsChain(t, f, 1);
  }

  lemma TextDoubles()
    ensures Doubling(FreqsOf(Text())) && Total(FreqsOf(Text())) == 2 * Pow2(27) - 1
  {
    hide FreqsOf, Text, Pow2;
    var f := FreqsOf(Text());
    forall j: nat | j < NUM_SYMBOLS
      ensures f[j] == if 1 <= j <= ORDER then Pow2(28 - j) else if j == SPEOF then 1 else 0
    {
      TextFreqs(j);
    }
    TextFreqs(0);
    Powers();
    FreqsTotal(Text());
  }

  lemma TextUses(t: Tree)
    requires forall sym :: 0 <= sym < NUM_SYMBOLS && FreqsOf(Text())[sym] > 0 ==> Occurs(t, sym)
    ensures Occurs(t, SPEOF) && forall j: nat :: 1 <= j <= ORDER ==> Occurs(t, j)
  {
    TextDoubles();
    hide FreqsOf, Text, Pow2;
  }

  lemma TwinUses(t: Tree)
    requires Occurs(t, SPEOF) && Occurs(t, 1)
    ensures !Twin(t)
  {
  }

  // ----- the loss

  lemma {:induction false} CodingJoin(codes: seq<Code>, a: seq<Byte>, b: seq<Byte>)
    ensures Coding(codes, a + b) == Coding(codes, a) + Coding(codes, b)
    decreases |b|
  {
    hide WordBits;
    if b == [] {
      assert a + b == a;
      assert Coding(codes, a) + [] == Coding(codes, a);
    } else {
      var n := |b| - 1;
      CodingJoin(codes, a, b[..n]);
      assert (a + b)[..|a| + n] == a + b[..n];
      ConcatAssoc(Coding(codes, a), Coding(codes, b[..n]), WordBits(codes, b[n]));
    }
  }

  lemma {:induction false} RulerBits(codes: seq<Code>, k: nat)
    requires k <= ORDER && |codes| == NUM_SYMBOLS && forall j: nat :: 1 <= j <= ORDER ==> codes[j].len == j
    ensures |Coding(codes, Ruler(k))| == 2 * Pow2(k) - k - 2
  {
    hide Coding, Pow2;
    if k == 0 {
      NoCoding(codes);
      Pow2Next(0);
    } else {
      var r := Ruler(k - 1);
      Pow2Next(k - 1);
      RulerBits(codes, k - 1);
      CodingJoin(codes, r + [k], r);
      CodingJoin(codes, r, [k]);
      OneWord(codes, k);
    }
  }

  lemma NoCoding(codes: seq<Code>)
    ensures Coding(codes, []) == []
  {
  }

  lemma OneWord(codes: seq<Code>, b: Byte)
    requires |codes| == NUM_SYMBOLS
    ensures |Coding(codes, [b])| == codes[b].len
  {
    assert [b][..0] == [];
  }

  /** The bits in front of the last byte 27: seven more than whole bytes. */
  lemma LastWaits(codes: seq<Code>)
    requires |codes| == NUM_SYMBOLS && forall j: nat :: 1 <= j <= ORDER ==> codes[j].len == j
    ensures var before := Ruler(27) + Ruler(26);
      && |before| < |Text()| && Text()[..|before|] == before && Text()[|before|] == 27
      && |Coding(codes, before)| % 8 == 7
  {
    hide Coding, Pow2;
    var r, q := Ruler(27), Ruler(26);
    assert r == q + [27] + q;
    RulerBits(codes, 27);
    RulerBits(codes, 26);
    CodingJoin(codes, r, q);
    Powers();
  }

  lemma TopBitLost()
    ensures !Keeps(Code(Pow2(26), 27), 7)
  {
    Powers();
    assert Pow2(7) == 128;
  }

  /** The last byte 27 meets seven waiting bits. */
  lemma TextLoses(table: seq<Pair>, codes: seq<Code>, t: Tree)
    requires Coded(table, codes, t, FreqsOf(Text()))
    ensures |codes| == NUM_SYMBOLS && !Fits(codes, Text())
  {
    CodedSize(table, codes, t, FreqsOf(Text()));
    forall j: nat | 1 <= j <= ORDER ensures codes[j] == Code(Pow2(j - 1), j) {
      TextCodes(table, codes, t, j);
    }
    hide Coded, FreqsOf, Coding, Pow2, Ruler, Text, Worded, Keeps;
    LastWaits(codes);
    TopBitLost();
    assert codes[27] == Code(Pow2(26), 27);
    var i := |Ruler(27) + Ruler(26)|;
    assert !Keeps(codes[Text()[i]], |Coding(codes, Text()[..i])| % 8);
  }

  /** Whatever the encoder makes of the text, decoding it does not give the text back. */
  lemma TextLost(out: seq<Byte>, table: seq<Pair>, codes: seq<Code>, t: Tree)
    requires MadeOf(out, Rle.Rle(Text()), table, codes, t)
    ensures !(Decoded(out).Ended? && Decoded(out).out == Text())
  {
    hide Text, Decoded, FreqsOf, Fits, Coded, Carries;
    TextPlain();
    PlainRle(Text());
    TextLoses(table, codes, t);
    TextExactly(out, Text(), table, codes, t);
  }
}
