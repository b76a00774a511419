/** The ARC Squeeze decoder as it runs: header, bit-by-bit walk through the table, run-length stage, output queue. */
module SqueezeDecoder {
  import opened Words
  import opened BitStrings
  import opened SqueezeTree
  import opened SqueezeSpec
  import Rle = SqueezeRle

  const EMIT_LIMIT := 16384
  const COMPACT_LIMIT := 65536

  datatype Outcome = Progress(written: nat, done: bool) | InvalidData

  /** A header that is not all there yet decodes to nothing, and one that never can be is broken. */
  ghost predicate HeaderOpen(b: seq<Byte>) {
    || |b| < 2
    || (0 < Unsigned16(b[0], b[1]) <= MAX_NODES && |b| < 2 + 4 * Unsigned16(b[0], b[1]))
  }

  class Decoder {
    const rle: Rle.RleDecoder
    var inBuf: seq<Byte>
    var inPos: nat
    var numNodes: Option<nat>
    var table: seq<Pair>
    var headerDone: bool
    var emptyStream: bool
    var bitAcc: nat
    var bitCount: nat
    var curNode: int
    var emitBuf: seq<Byte>  // from `emitHead` on not yet handed out
    var emitHead: nat
    var eos: bool
    var completed: bool
    ghost var fed: seq<Byte>      // everything accepted
    ghost var emitted: seq<Byte>  // everything handed out

    /** The bits not walked yet. */
    ghost function Left(): seq<bool>
      requires inPos <= |inBuf|
      reads this`inBuf, this`inPos, this`bitAcc, this`bitCount
    {
      Bits(bitAcc, bitCount) + ByteBits(inBuf[inPos..])
    }

    /** Everything decoded so far. */
    ghost function Out(): seq<Byte>
      requires emitHead <= |emitBuf|
      reads this`emitBuf, this`emitHead, this`emitted
    {
      emitted + emitBuf[emitHead..]
    }

    ghost predicate Shape()
      reads this
    {
      && inPos <= |inBuf| && emitHead <= |emitBuf| && bitAcc < Pow2(bitCount) && bitCount <= 8
    }

    /** Before the table: the buffer is what was accepted, and at most the node count has been taken. */
    ghost predicate Heading()
      requires Shape()
      reads this, rle
    {
      && inBuf == fed && Out() == [] && rle.Now() == Rle.FRESH && curNode == 0 && bitCount == 0
      && !eos && !emptyStream && !completed
      && match numNodes
         case None => inPos == 0
         case Some(n) => inPos == 2 && n == Unsigned16(fed[0], fed[1]) && 0 < n <= MAX_NODES
    }

    /** Behind the table: what is left continues what all the accepted bytes decode to. */
    ghost predicate Walking()
      requires Shape()
      reads this, rle
    {
      !HeaderOpen(fed) &&
      if eos then Decoded(fed).Ended? && Decoded(fed).out == Out()
      else if emptyStream then Out() == [] && Decoded(fed).Ended? && Decoded(fed).out == []
      else
        && InRange(table) && 0 <= curNode < |table| && table == TableOf(fed)
        && Decoded(fed) == Before(Out(), Run(table, curNode, rle.Now(), Left()))
    }

    ghost predicate Valid()
      reads this, rle
    {
      Shape() && if headerDone then Walking() else Heading()
    }

    constructor ()
      ensures Valid() && fresh(rle)
      ensures fed == [] && emitted == []
    {
      rle := new Rle.RleDecoder();
      inBuf, inPos, numNodes, table, headerDone, emptyStream := [], 0, None, [], false, false;
      bitAcc, bitCount, curNode, emitBuf, emitHead, eos, completed := 0, 0, 0, [], 0, false, false;
      fed, emitted := [], [];
    }

    /** Take in more bytes. */
    method Accept(input: seq<Byte>)
      requires Valid()
      modifies this`inBuf, this`fed
      ensures Valid() && fed == old(fed) + input
    {
      hide Pow2, Run, InRange, Decoded, Bits, ByteBits;
      if headerDone {
        DecodedMore(fed, input);
        MoreLeft(Bits(bitAcc, bitCount), inBuf, inPos, input);
        if !eos && !emptyStream {
          RunAppend(table, curNode, rle.Now(), Left(), ByteBits(input));
          BeforeMore(Out(), Run(table, curNode, rle.Now(), Left()), table, ByteBits(input));
        }
      }
      inBuf, fed := inBuf + input, fed + input;
    }

    /** Parse the header once it is there; `ok` is false for a table that cannot be. */
    method ParseHeader() returns (ok: bool)
      requires Valid() && !headerDone
      modifies this`inPos, this`numNodes, this`table, this`headerDone, this`emptyStream
      ensures fed == old(fed)
      ensures ok ==> Valid() && (headerDone <==> !HeaderOpen(fed))
      ensures !ok ==> Decoded(fed) == Broken
    {
      hide Pow2, Run, Bits, ByteBits, ReadTable, InRange, Unsigned16;
      if numNodes.None? {
        if |inBuf| - inPos < 2 {
          return true;
        }
        var count := Unsigned16(inBuf[inPos], inBuf[inPos + 1]);
        inPos := inPos + 2;
        if count > MAX_NODES {
          return false;
        }
        numNodes := Some(count);
        if count == 0 {
          emptyStream, headerDone := true, true;
          return true;
        }
      }
      var n := numNodes.value;
      if |inBuf| - inPos < 4 * n {
        return true;
      }
      table, inPos := ReadPairs(inBuf, n);
      if !InRange(table) {
        return false;
      }
      headerDone := true;
      HeaderWalk(fed, n, table, bitAcc);
      assert Out() == [];
      ok := true;
    }

    /** The pairs of the node table. */
    static method ReadPairs(buf: seq<Byte>, n: nat) returns (pairs: seq<Pair>, pos: nat)
      requires |buf| >= 2 + 4 * n
      ensures pairs == ReadTable(buf[2..], n) && pos == 2 + 4 * n
    {
      pairs, pos := [], 2;
      for k := 0 to n
        invariant pos == 2 + 4 * k && pairs == ReadTable(buf[2..], k)
      {
        pairs := pairs + [PairAt(buf, pos)];
        pos := pos + 4;
      }
    }

    /** One bit, and what it leads to. */
    method WalkBit() returns (ok: bool)
      requires Valid() && headerDone && !eos && !emptyStream && bitCount > 0
      modifies this`bitAcc, this`bitCount, this`curNode, this`eos, this`emitBuf, rle
      ensures ok ==> Valid() && bitCount == old(bitCount) - 1
      ensures !ok ==> Decoded(fed) == Broken
      ensures emitHead <= |emitBuf|
    {
      hide Pow2, Run, Decoded, Rle.Feed, Bits, ByteBits;
      ghost var d, rest := Out(), ByteBits(inBuf[inPos..]);
      FirstBit(bitAcc, bitCount, rest);
      var bit := bitAcc % 2 == 1;
      bitAcc, bitCount := bitAcc / 2, bitCount - 1;
      RunBit(table, curNode, rle.Now(), bit, Bits(bitAcc, bitCount) + rest);
      var next := if bit then table[curNode].right else table[curNode].left;
      if next >= 0 {
        curNode := next;
        return true;
      }
      curNode := 0;
      var leaf := -1 - next;
      if leaf == SPEOF {
        eos := true;
        assert d + [] == d;
        return true;
      }
      if leaf > 255 {
        return false;
      }
      ghost var f := Rle.Feed(rle.Now(), leaf);
      ghost var queue := emitBuf;
      ok, emitBuf := rle.FeedByte(leaf, emitBuf);
      if ok {
        QueueMore(emitted, queue, emitHead, f.out);
        BeforeBefore(d, f.out, Run(table, 0, f.state, Bits(bitAcc, bitCount) + rest));
      }
    }

    /** The empty stream ends at once. */
    method EndEmpty()
      requires Valid() && headerDone && emptyStream
      modifies this`eos
      ensures Valid() && eos
    {
      hide Run, Bits, ByteBits, Pow2, Decoded, InRange;
      eos := true;
    }

    /** The next byte's bits. */
    method LoadByte()
      requires Valid() && headerDone && !eos && !emptyStream && bitCount == 0 && inPos < |inBuf|
      modifies this`inPos, this`bitAcc, this`bitCount
      ensures Valid() && bitCount == 8 && inPos == old(inPos) + 1
    {
      hide Run, Bits, ByteBits, Pow2, Decoded, InRange;
      ByteToBits(bitAcc, inBuf, inPos);
      bitAcc, bitCount, inPos := inBuf[inPos], 8, inPos + 1;
    }

    /** With no bit left the decoder waits inside a code. */
    lemma Waits()
      requires Valid() && headerDone && !eos && !emptyStream && bitCount == 0 && inPos == |inBuf|
      ensures Decoded(fed).Short? && Decoded(fed).out == Out()
    {
      hide Bits, ByteBits, Pow2, Decoded, InRange;
      NoBitsLeft(bitAcc, inBuf[inPos..]);
      assert Out() + [] == Out();
    }

    /** Walk until the end marker, a full queue, or the last bit. */
    method Pump() returns (ok: bool)
      requires Valid() && headerDone
      modifies this`inPos, this`bitAcc, this`bitCount, this`curNode, this`eos, this`emitBuf, rle
      ensures ok ==> Valid()
      ensures !ok ==> Decoded(fed) == Broken
      ensures emitHead <= |emitBuf|
      ensures ok && emitHead == |emitBuf| ==> eos || (Decoded(fed).Short? && Decoded(fed).out == emitted)
    {
      hide Decoded, Decoder.Valid;
      Status();
      if emptyStream {
        EndEmpty();
        return true;
      }
      while true
        invariant Valid() && headerDone && !emptyStream && emitHead <= |emitBuf| && inPos <= |inBuf|
        decreases 8 * (|inBuf| - inPos) + bitCount
      {
        if eos {
          return true;
        }
        if |emitBuf| - emitHead > EMIT_LIMIT {
          return true;
        }
        if bitCount == 0 {
          if inPos >= |inBuf| {
            Waits();
            assert emitHead == |emitBuf| ==> Out() == emitted;
            return true;
          }
          LoadByte();
        }
        ok := WalkBit();
        if !ok {
          return false;
        }
        Status();
      }
    }

    /** Hand out what fits, from `written` on. */
    method Drain(output: array<Byte>, written: nat, ghost before: seq<Byte>) returns (total: nat)
      requires Valid() && written <= output.Length && emitted == before + output[..written]
      modifies this`emitBuf, this`emitHead, this`emitted, output
      ensures Valid()
      ensures written <= total <= output.Length && emitted == before + output[..total]
      ensures emitHead <= |emitBuf| && (emitHead < |emitBuf| ==> total == output.Length)
      ensures old(emitHead) < |old(emitBuf)| && written < output.Length ==> written < total
    {
      var n := if |emitBuf| - emitHead < output.Length - written then |emitBuf| - emitHead else output.Length - written;
      ghost var left, tail := output[..written], output[written + n..];
      var bytes := Pop(n);
      Store(output, written, bytes);
      total := written + n;
      HeadTail(left + bytes, tail);
      assert output[..total] == output[..][..total];
      ConcatAssoc(before, left, bytes);
    }

    /** The next `n` bytes of the queue. */
    method Pop(n: nat) returns (bytes: seq<Byte>)
      requires Valid() && emitHead + n <= |emitBuf|
      modifies this`emitBuf, this`emitHead, this`emitted
      ensures Valid() && |bytes| == n && emitted == old(emitted) + bytes
      ensures |emitBuf| - emitHead == old(|emitBuf| - emitHead) - n
    {
      hide Run, Bits, ByteBits, Pow2, Decoded, InRange;
      bytes := emitBuf[emitHead..emitHead + n];
      SplitQueue(emitted, emitBuf, emitHead, n);
      emitted, emitHead := emitted + bytes, emitHead + n;
      if emitHead == |emitBuf| {
        emitBuf, emitHead := [], 0;
      }
    }

    /** Drop the part of the input buffer that has been used. */
    method Compact()
      requires Valid()
      modifies this`inBuf, this`inPos
      ensures Valid()
    {
      hide Run, Bits, ByteBits, Pow2, Decoded, InRange;
      if inPos >= COMPACT_LIMIT {
        inBuf, inPos := inBuf[inPos..], 0;
        assert inBuf[0..] == inBuf;
      }
    }

    /**
     Take in all of the input and hand out decoded bytes until the output is full or nothing more can be decoded.
     Short of a full output, everything the accepted bytes decode to has been handed out.
     */
    method Decode(input: seq<Byte>, output: array<Byte>) returns (p: Outcome)
      requires Valid()
      modifies this, rle, output
      ensures fed == old(fed) + input
      ensures p.Progress? ==>
        && Valid()
        && p.written <= output.Length && emitted == old(emitted) + output[..p.written]
      ensures p.Progress? && p.written < output.Length ==> Caught(fed, emitted) && (p.done <==> Decoded(fed).Ended?)
      ensures p.Progress? && p.done ==> Decoded(fed).Ended? && Decoded(fed).out == emitted
      ensures p.InvalidData? ==> Decoded(fed) == Broken
    {
      hide Decoded, Decoder.Valid, HeaderOpen;
      Accept(input);
      assert output[..0] == [];
      Status();
      if !headerDone {
        var ok := ParseHeader();
        if !ok {
          return InvalidData;
        }
        Status();
        if !headerDone {
          HeaderWaits(fed);
          return Progress(0, false);
        }
      }
      var written, ok := Fill(output);
      if !ok {
        return InvalidData;
      }
      Compact();
      Status();
      var done := eos && emitHead >= |emitBuf|;
      if done {
        Complete();
      }
      p := Progress(written, done);
    }

    /** Pump and drain until the output is full or nothing more can be decoded. */
    method Fill(output: array<Byte>) returns (written: nat, ok: bool)
      requires Valid() && headerDone
      modifies this`inPos, this`bitAcc, this`bitCount, this`curNode, this`eos, this`emitBuf, this`emitHead, this`emitted,
               rle, output
      ensures written <= output.Length
      ensures ok ==> Valid() && emitted == old(emitted) + output[..written]
      ensures ok && written < output.Length ==>
        emitHead == |emitBuf| && (eos || (Decoded(fed).Short? && Decoded(fed).out == emitted))
      ensures !ok ==> Decoded(fed) == Broken
    {
      hide Decoded, Decoder.Valid;
      Status();
      assert output[..0] == [];
      written, ok := 0, true;
      if emitHead < |emitBuf| {
        written := Drain(output, 0, emitted);
      }
      while written < output.Length
        invariant Valid() && headerDone && emitHead <= |emitBuf| && ok
        invariant written <= output.Length && emitted == old(emitted) + output[..written]
        decreases output.Length - written
      {
        if emitHead >= |emitBuf| {
          ok := Pump();
          if !ok {
            return;
          }
          if emitHead >= |emitBuf| {
            break;
          }
        }
        written := Drain(output, written, old(emitted));
      }
    }

    lemma Status()
      requires Valid()
      ensures emitHead <= |emitBuf| && inPos <= |inBuf|
      ensures headerDone ==> !HeaderOpen(fed)
      ensures !headerDone ==> emitted == []
      ensures headerDone && eos ==> Decoded(fed).Ended?
      ensures headerDone && eos && emitHead == |emitBuf| ==> Decoded(fed).out == emitted
    {
      assert emitHead == |emitBuf| ==> Out() == emitted;
    }

    method Complete()
      requires Valid() && headerDone
      modifies this`completed
      ensures Valid()
    {
      completed := true;
    }
  }

  /** `out` is all that the accepted bytes decode to. */
  ghost predicate Caught(fed: seq<Byte>, out: seq<Byte>) {
    !Decoded(fed).Broken? && Decoded(fed).out == out
  }

  lemma HeaderWaits(b: seq<Byte>)
    requires HeaderOpen(b)
    ensures Decoded(b).Short? && Decoded(b).out == []
  {
  }

  lemma QueueMore(out: seq<Byte>, queue: seq<Byte>, head: nat, more: seq<Byte>)
    requires head <= |queue|
    ensures out + (queue + more)[head..] == (out + queue[head..]) + more
  {
  }

  lemma MoreLeft(bits: seq<bool>, buf: seq<Byte>, pos: nat, more: seq<Byte>)
    requires pos <= |buf|
    ensures bits + ByteBits((buf + more)[pos..]) == (bits + ByteBits(buf[pos..])) + ByteBits(more)
  {
    hide ByteBits;
    assert (buf + more)[pos..] == buf[pos..] + more;
    ByteBitsAppend(buf[pos..], more);
    ConcatAssoc(bits, ByteBits(buf[pos..]), ByteBits(more));
  }

  lemma BeforeMore(out: seq<Byte>, h: Halt, table: seq<Pair>, more: seq<bool>)
    ensures h.Short? ==>
      var rest := Run(table, h.node, h.rle, more);
      Before(out + h.out, rest) == Before(out, Before(h.out, rest))
  {
    if h.Short? {
      BeforeBefore(out, h.out, Run(table, h.node, h.rle, more));
    }
  }

  /** The table of a complete header. */
  ghost function TableOf(b: seq<Byte>): seq<Pair>
    requires !HeaderOpen(b)
  {
    var n := Unsigned16(b[0], b[1]);
    if n <= MAX_NODES then ReadTable(b[2..], n) else []
  }

  /** The bytes behind a complete header only add bits. */
  lemma DecodedMore(b: seq<Byte>, more: seq<Byte>)
    requires !HeaderOpen(b)
    ensures !HeaderOpen(b + more) && TableOf(b + more) == TableOf(b)
    ensures var h := Decoded(b);
      && (h.Broken? ==> Decoded(b + more) == Broken)
      && (h.Ended? ==> Decoded(b + more) == Ended(h.out, h.left + ByteBits(more)))
      && (h.Short? ==>
        Decoded(b + more) == Before(h.out, Run(TableOf(b), h.node, h.rle, ByteBits(more))))
  {
    hide Run, ByteBits, InRange, ReadTable, Unsigned16;
    var n := Unsigned16(b[0], b[1]);
    assert (b + more)[0] == b[0] && (b + more)[1] == b[1];
    if n == 0 {
      assert (b + more)[2..] == b[2..] + more;
      ByteBitsAppend(b[2..], more);
    } else if n <= MAX_NODES {
      ReadMore(b, more, n);
      assert (b + more)[2 + 4 * n..] == b[2 + 4 * n..] + more;
      ByteBitsAppend(b[2 + 4 * n..], more);
      RunAppend(ReadTable(b[2..], n), 0, Rle.FRESH, ByteBits(b[2 + 4 * n..]), ByteBits(more));
    }
  }

  lemma {:induction false} ReadMore(b: seq<Byte>, more: seq<Byte>, n: nat)
    requires 2 + 4 * n <= |b|
    ensures ReadTable((b + more)[2..], n) == ReadTable(b[2..], n)
  {
    if n > 0 {
      ReadMore(b, more, n - 1);
    }
  }

  lemma HeaderWalk(fed: seq<Byte>, n: nat, table: seq<Pair>, acc: nat)
    requires |fed| >= 2 + 4 * n && n == Unsigned16(fed[0], fed[1]) && 0 < n <= MAX_NODES
    requires table == ReadTable(fed[2..], n) && InRange(table)
    ensures Decoded(fed) == Before([], Run(table, 0, Rle.FRESH, Bits(acc, 0) + ByteBits(fed[2 + 4 * n..])))
  {
    hide Run, ByteBits;
    BeforeBefore([], [], Run(table, 0, Rle.FRESH, ByteBits(fed[2 + 4 * n..])));
    assert Bits(acc, 0) + ByteBits(fed[2 + 4 * n..]) == ByteBits(fed[2 + 4 * n..]);
  }

  lemma FirstBit(acc: nat, count: nat, rest: seq<bool>)
    requires count > 0 && acc < Pow2(count)
    ensures acc / 2 < Pow2(count - 1)
    ensures Bits(acc, count) + rest == [acc % 2 == 1] + (Bits(acc / 2, count - 1) + rest)
  {
  }

  lemma NoBitsLeft(acc: nat, rest: seq<Byte>)
    requires rest == []
    ensures Bits(acc, 0) + ByteBits(rest) == []
  {
  }

  lemma {:induction false} ByteBitsHead(b: seq<Byte>)
    requires b != []
    ensures ByteBits(b) == Bits(b[0], 8) + ByteBits(b[1..])
  {
    hide Bits;
    ByteBitsMore([], b[0]);
    assert [] + [b[0]] == [b[0]] && ByteBits([]) == [];
    assert [] + Bits(b[0], 8) == Bits(b[0], 8);
    ByteBitsAppend([b[0]], b[1..]);
    assert [b[0]] + b[1..] == b;
  }

  lemma ByteToBits(acc: nat, buf: seq<Byte>, pos: nat)
    requires pos < |buf|
    ensures buf[pos] < Pow2(8)
    ensures Bits(acc, 0) + ByteBits(buf[pos..]) == Bits(buf[pos], 8) + ByteBits(buf[pos + 1..])
  {
    hide ByteBits;
    Pow2Bytes();
    ByteBitsHead(buf[pos..]);
    assert Bits(acc, 0) == [];
  }

  /** The beginning of bytes that are not broken is not broken, and decodes to the beginning of what they decode to. */
  lemma DecodedParts(b: seq<Byte>, more: seq<Byte>)
    requires !Decoded(b + more).Broken?
    ensures !Decoded(b).Broken? && Decoded(b).out <= Decoded(b + more).out
  {
    if HeaderOpen(b) {
      HeaderWaits(b);
    } else {
      DecodedMore(b, more);
    }
  }

  /**
   However a finished payload is cut into pieces, no beginning of it is refused, whoever has caught up with one has the
   beginning of the text, and whoever has caught up with all of it has the text.
   */
  lemma Delivered(payload: seq<Byte>, text: seq<Byte>)
    requires IsPayload(payload, text)
    ensures forall k :: 0 <= k <= |payload| ==> !Decoded(payload[..k]).Broken?
    ensures forall k, out :: 0 <= k <= |payload| && Caught(payload[..k], out) ==> out <= text
    ensures forall out :: Caught(payload, out) <==> out == text
  {
    hide IsPayload, Decoded;
    RoundTrip(payload, text);
    forall k | 0 <= k <= |payload| ensures !Decoded(payload[..k]).Broken? && Decoded(payload[..k]).out <= text {
      assert payload == payload[..k] + payload[k..];
      DecodedParts(payload[..k], payload[k..]);
    }
  }
}
