/** The ARC Squeeze encoder as it runs. */
module Squeeze {
  import opened Words
  import opened BitStrings
  import opened SqueezeTree
  import opened SqueezeSpec
  import opened SqueezeExact
  import Rle = SqueezeRle

  // ----- frequencies

  method CountFreqs(s: seq<Byte>) returns (f: Freqs)
    ensures f == FreqsOf(s)
    ensures f[SPEOF] > 0
  {
    var freq := new nat[NUM_SYMBOLS](_ => 0);
    for i := 0 to |s|
      invariant forall b :: 0 <= b < NUM_SYMBOLS ==> freq[b] == Wrap(Count(s[..i], b))
    {
      assert s[..i + 1][..i] == s[..i];
      freq[s[i]] := Wrap(freq[s[i]] + 1);
    }
    assert s[..|s|] == s;
    freq[SPEOF] := 1;
    f := freq[..];
    forall b | 0 <= b < NUM_SYMBOLS ensures f[b] == FreqsOf(s)[b] {
      TallyAt(s, NUM_SYMBOLS, b);
    }
  }

  // ----- encoder

  lemma FieldBelow(acc: nat, bits: nat, count: nat, len: nat)
    requires acc < Pow2(count) && bits < Pow2(len)
    ensures acc + bits * Pow2(count) < Pow2(count + len)
  {
    hide Pow2;
    Pow2Add(count, len);
    MulMonotone(bits + 1, Pow2(len), Pow2(count));
    Distribute(bits, 1, Pow2(count));
  }

  /** Append one code to the 32-bit accumulator, which may lose its top bits, and push whole bytes. */
  method Emit(c: Code, acc0: nat, count0: nat, out0: seq<Byte>) returns (acc: nat, count: nat, out: seq<Byte>)
    requires c.bits < Pow2(c.len) && acc0 < Pow2(count0) && count0 < 8
    ensures acc < Pow2(count) && count < 8
    ensures |out0| <= |out| && out[..|out0|] == out0
    ensures ByteBits(out[|out0|..]) + Bits(acc, count) == Bits(acc0, count0) + Kept(c, count0)
  {
    hide Pow2, Bits, ByteBits;
    acc, count, out := acc0 + Wrap(c.bits * Pow2(count0)), count0 + c.len, out0;
    ghost var kept := c.bits % Pow2(32 - count0);
    ShiftKeeps(c.bits, count0);
    KeptBelow(c.bits, Pow2(32 - count0));
    FieldBelow(acc0, kept, count0, c.len);
    BitsJoin(acc0, count0, kept, c.len);
    NoBytes(Bits(acc, count), out);
    while count >= 8
      invariant acc < Pow2(count) && |out0| <= |out| && out[..|out0|] == out0
      invariant ByteBits(out[|out0|..]) + Bits(acc, count) == Bits(acc0, count0) + Kept(c, count0)
      decreases count
    {
      TakeByte(out[|out0|..], acc, count);
      assert (out + [acc % 0x100])[|out0|..] == out[|out0|..] + [acc % 0x100];
      out := out + [acc % 0x100];
      acc := acc / 0x100;
      count := count - 8;
    }
  }

  lemma KeptBelow(x: nat, m: nat)
    requires m > 0
    ensures 0 <= x % m <= x
  {
    if x < m {
      DivModUnique(x, m, 0, x);
    }
  }

  /** Shifting left in 32 bits keeps the low bits. */
  lemma ShiftKeeps(bits: nat, count: nat)
    requires count < 8
    ensures Wrap(bits * Pow2(count)) == bits % Pow2(32 - count) * Pow2(count)
  {
    hide Pow2;
    var p, m := Pow2(count), Pow2(32 - count);
    Pow2Bytes();
    Pow2Add(32 - count, count);
    var q, k := bits / m, bits % m;
    MulMonotone(k + 1, m, p);
    Distribute(k, 1, p);
    Distribute(q * m, k, p);
    assert q * m * p == q * (m * p);
    DivModUnique(bits * p, m * p, q, k * p);
  }

  lemma NoBytes(b: seq<bool>, out: seq<Byte>)
    ensures ByteBits(out[|out|..]) + b == b
  {
  }

  lemma TakeByte(out: seq<Byte>, acc: nat, count: nat)
    requires acc < Pow2(count) && count >= 8
    ensures acc / 0x100 < Pow2(count - 8)
    ensures ByteBits(out + [acc % 0x100]) + Bits(acc / 0x100, count - 8) == ByteBits(out) + Bits(acc, count)
  {
    hide Pow2, Bits, ByteBits;
    Pow2Bytes();
    var q, r: Byte := acc / 0x100, acc % 0x100;
    BitsCut(acc, count, 8, q, r);
    ByteBitsMore(out, r);
    ConcatAssoc(ByteBits(out), Bits(r, 8), Bits(q, count - 8));
  }

  /** The table in front of the coded bytes. */
  method Header(table: seq<Pair>) returns (out: seq<Byte>)
    ensures out == HeaderOf(table)
  {
    hide Low16;
    out := Low16(|table|);
    assert TableBytes([]) == [];
    for k := 0 to |table|
      invariant out == Low16(|table|) + TableBytes(table[..k])
    {
      assert table[..k + 1][..k] == table[..k];
      ConcatAssoc(Low16(|table|), TableBytes(table[..k]), PairBytes(table[k]));
      out := out + (Low16(table[k].left) + Low16(table[k].right));
    }
    assert table[..|table|] == table;
  }

  /** The coded bytes and the end marker as the accumulator lets them through, zero-padded. */
  method Body(s: seq<Byte>, codes: seq<Code>, out0: seq<Byte>) returns (out: seq<Byte>)
    requires |codes| == NUM_SYMBOLS && forall k :: 0 <= k < |codes| ==> codes[k].bits < Pow2(codes[k].len)
    ensures |out0| <= |out| && out[..|out0|] == out0
    ensures Packs(out[|out0|..], Sending(codes, s))
  {
    hide Pow2, Bits, ByteBits, Packs, Kept;
    out := out0;
    var acc: nat, count: nat := 0, 0;
    BodyStart(out0, codes);
    for i := 0 to |s|
      invariant acc < Pow2(count) && count < 8 && |out0| <= |out| && out[..|out0|] == out0
      invariant ByteBits(out[|out0|..]) + Bits(acc, count) == Emitted(codes, s[..i])
    {
      ghost var before, was, wasCount := out, acc, count;
      assert s[..i + 1][..i] == s[..i];
      InByte(out[|out0|..], acc, count, Emitted(codes, s[..i]));
      acc, count, out := Emit(codes[s[i]], acc, count, out);
      Joined(out0, before, out, Bits(was, wasCount), Bits(acc, count), Kept(codes[s[i]], wasCount));
    }
    assert s[..|s|] == s;
    ghost var before, was, wasCount := out, acc, count;
    InByte(out[|out0|..], acc, count, Emitted(codes, s));
    acc, count, out := Emit(codes[SPEOF], acc, count, out);
    Joined(out0, before, out, Bits(was, wasCount), Bits(acc, count), Kept(codes[SPEOF], wasCount));
    Padded(out[|out0|..], acc, count, Sending(codes, s));
    if count > 0 {
      BelowByte(acc, count);
      assert (out + [acc as Byte])[|out0|..] == out[|out0|..] + [acc as Byte];
      out := out + [acc];
    }
  }

  /** The accumulator holds the bits behind the last whole byte. */
  lemma InByte(out: seq<Byte>, acc: nat, count: nat, bits: seq<bool>)
    requires count < 8 && ByteBits(out) + Bits(acc, count) == bits
    ensures count == |bits| % 8
  {
    hide Bits, ByteBits;
    ByteBitsLength(out);
    assert |bits| == 8 * |out| + count;
  }

  lemma BodyStart(out0: seq<Byte>, codes: seq<Code>)
    requires |codes| == NUM_SYMBOLS
    ensures 0 < Pow2(0) && ByteBits(out0[|out0|..]) + Bits(0, 0) == Emitted(codes, [])
  {
  }

  lemma Joined(out0: seq<Byte>, before: seq<Byte>, out: seq<Byte>, was: seq<bool>, now: seq<bool>, word: seq<bool>)
    requires |out0| <= |before| <= |out| && before[..|out0|] == out0 && out[..|before|] == before
    requires ByteBits(out[|before|..]) + now == was + word
    ensures ByteBits(out[|out0|..]) + now == (ByteBits(before[|out0|..]) + was) + word
  {
    hide ByteBits;
    assert out[|out0|..] == before[|out0|..] + out[|before|..];
    ByteBitsAppend(before[|out0|..], out[|before|..]);
    ConcatAssoc(ByteBits(before[|out0|..]), ByteBits(out[|before|..]), now);
    ConcatAssoc(ByteBits(before[|out0|..]), was, word);
  }

  lemma Padded(out: seq<Byte>, acc: nat, count: nat, bits: seq<bool>)
    requires acc < Pow2(count) && count < 8 && ByteBits(out) + Bits(acc, count) == bits
    ensures count == 0 ==> Packs(out, bits)
    ensures count > 0 ==> acc < 0x100 && Packs(out + [acc], bits)
  {
    hide Pow2, ByteBits, Bits;
    if count == 0 {
      NoBits(acc);
      assert ByteBits(out) == bits + Bits(0, 0);
    } else {
      BelowByte(acc, count);
      PadByte(acc, count);
      var b: Byte := acc;
      ByteBitsMore(out, b);
      ConcatAssoc(ByteBits(out), Bits(acc, count), Bits(0, 8 - count));
      assert ByteBits(out + [b]) == bits + Bits(0, 8 - count);
    }
  }

  /** A two-pass encoder: it collects the input and produces the payload at the end. */
  class Encoder {
    var input: seq<Byte>
    var out: seq<Byte>
    var outHead: nat
    var built: bool
    var completed: bool
    ghost var emitted: seq<Byte>
    ghost var table: seq<Pair>   // once built, the node table,
    ghost var codes: seq<Code>   // the codes,
    ghost var tree: Tree         // and the tree of `out`

    ghost predicate Valid()
      reads this
    {
      && outHead <= |out| && emitted == out[..outHead]
      && (!built ==> out == [] && !completed)
      && (completed ==> outHead == |out|)
      && (built ==> MadeOf(out, Rle.Rle(input), table, codes, tree))
    }

    constructor ()
      ensures Valid() && input == [] && emitted == [] && !built
    {
      input, out, outHead, built, completed, emitted := [], [], 0, false, false, [];
      table, codes, tree := [], [], Leaf(0);
    }

    method Encode(more: seq<Byte>)
      requires Valid() && !built
      modifies this`input
      ensures Valid() && !built && input == old(input) + more
    {
      input := input + more;
    }

    /** Node table and coded bytes: a payload of the input exactly if no code sent is missing or loses a bit. */
    method Build()
      requires Valid() && !built
      modifies this`out, this`built, this`table, this`codes, this`tree
      ensures Valid() && built
      ensures Fits(codes, Rle.Rle(input)) <==> PayloadOf(out, Rle.Rle(input), table, codes, tree)
      ensures |Rle.Rle(input)| < 317810 ==> IsPayload(out, input)
    {
      hide IsPayload, PayloadOf, Fits, MadeOf, Coded, HeaderOf, Packs, Sending, Rle.Rle, FreqsOf, Pow2;
      var s := Rle.RleEncode(input);
      var f := CountFreqs(s);
      var nodes, words;
      ghost var t;
      nodes, words, t := BuildTree(f);
      CodedSize(nodes, words, t, f);
      out := Header(nodes);
      out := Body(s, words, out);
      built, table, codes, tree := true, nodes, words, t;
      Made(out, input, table, codes, tree);
    }

    /** Hand out the payload; done once nothing is left. */
    method Finish(output: array<Byte>) returns (written: nat, done: bool)
      requires Valid()
      modifies this, output
      ensures Valid() && built && input == old(input)
      ensures written <= output.Length && emitted == old(emitted) + output[..written]
      ensures done ==> emitted == out
      ensures written < output.Length ==> done
    {
      hide MadeOf, IsPayload, PayloadOf, Fits, Rle.Rle;
      assert output[..0] == [];
      if completed {
        assert out[..outHead] == out;
        return 0, true;
      }
      if !built {
        Build();
      }
      written := if |out| - outHead < output.Length then |out| - outHead else output.Length;
      var bytes := out[outHead..outHead + written];
      Store(output, 0, bytes);
      assert output[..written] == bytes;
      assert out[..outHead + written] == out[..outHead] + bytes;
      emitted, outHead := emitted + bytes, outHead + written;
      done := outHead >= |out|;
      if done {
        completed := true;
      }
    }
  }
}
