/** The Crunch decoder as it runs: parent tables, a bit accumulator, and a scratch buffer that turns chains around. */
module CrunchDecoder {
  import opened Words
  import opened BitStrings
  import opened CrunchSpec
  import opened CrunchBits

  const MIN_BITS := 9
  const MAX_BITS := 16
  const MAX_SIZE := 65536

  datatype Progress = Progress(consumed: nat, written: nat) | Unsupported | Corrupted

  /** A code's text is no longer than the chain of entries below it. */
  lemma {:induction false} TextLength(d: Dict, code: nat)
    requires WellFormed(d) && Known(d, code)
    ensures |Text(d, code)| <= if code < CLEAR then 1 else code - FIRST + 2
    decreases code
  {
    if code >= CLEAR {
      TextLength(d, d[code - FIRST].prefix);
    }
  }

  lemma TextStep(d: Dict, code: nat)
    requires WellFormed(d) && Known(d, code)
    ensures code < CLEAR ==> Text(d, code) == [code]
    ensures code >= CLEAR ==>
      && FIRST <= code < Free(d) && Known(d, d[code - FIRST].prefix) && d[code - FIRST].prefix < code
      && Text(d, code) == Text(d, d[code - FIRST].prefix) + [d[code - FIRST].suffix]
  {
  }

  lemma NewDecSound(maxBits: nat)
    requires MIN_BITS <= maxBits
    ensures Sound(NEW_DEC, maxBits)
  {
    Pow2Known();
  }

  /** The width check does not change what will be read. */
  lemma RunBump(d: Dec, maxBits: nat, bits: seq<bool>)
    requires Sound(d, maxBits)
    ensures Sound(Bump(d, maxBits), maxBits) && Run(Bump(d, maxBits), maxBits, bits) == Run(d, maxBits, bits)
  {
    hide Pow2, Bump, Sound, Number;
    RunOne(d, maxBits, bits);
    RunOne(Bump(d, maxBits), maxBits, bits);
  }

  /** One code off the front. */
  lemma RunCode(d: Dec, maxBits: nat, code: nat, left: seq<bool>)
    requires Sound(d, maxBits) && Bump(d, maxBits) == d && code < Pow2(d.width)
    ensures code < Pow2(maxBits)
    ensures match DecStep(d, maxBits, code)
            case None => Run(d, maxBits, Bits(code, d.width) + left) == Corrupt
            case Some(d') => Sound(d', maxBits) && Run(d, maxBits, Bits(code, d.width) + left) == Run(d', maxBits, left)
  {
    hide Pow2, Bump, Number, Bits;
    var bits := Bits(code, d.width) + left;
    RunOne(d, maxBits, bits);
    NumberBits(code, d.width);
    assert bits[..d.width] == Bits(code, d.width) && bits[d.width..] == left;
  }

  class Decoder {
    const prefix: array<nat>
    const suffix: array<Byte>
    const stack: array<Byte>
    var headerDone: bool
    var maxBits: nat
    var nextCode: nat
    var nbits: nat
    var bitAcc: nat
    var bitCount: nat
    var prev: Option<nat>
    var finchar: Byte
    var emitBuf: seq<Byte>  // from `emitHead` on not yet handed out
    var emitHead: nat
    ghost var dict: Dict          // what the parent tables say
    ghost var fed: seq<Byte>      // everything accepted
    ghost var emitted: seq<Byte>  // everything handed out

    ghost predicate TableValid()
      reads this`dict, this`nextCode, prefix, suffix
    {
      && prefix.Length == suffix.Length == stack.Length == MAX_SIZE && stack != suffix
      && nextCode == Free(dict) <= MAX_SIZE
      && forall k :: 0 <= k < |dict| ==> prefix[FIRST + k] == dict[k].prefix && suffix[FIRST + k] == dict[k].suffix
    }

    /** The decoder's state as a value. */
    ghost function State(): Dec
      requires emitHead <= |emitBuf|
      reads this`dict, this`nbits, this`prev, this`emitted, this`emitBuf, this`emitHead
    {
      Dec(dict, nbits, prev, emitted + emitBuf[emitHead..])
    }

    ghost predicate Ready()
      reads this, prefix, suffix
    {
      && TableValid() && emitHead <= |emitBuf|
      && MIN_BITS <= maxBits <= MAX_BITS && Sound(State(), maxBits)
      && bitAcc < Pow2(bitCount)
    }

    /** What is still to be decoded continues what the bytes accepted so far decode to. */
    ghost predicate Following()
      requires Ready()
      reads this, prefix, suffix
    {
      if headerDone then
        && fed != [] && fed[0] == maxBits && Sound(NEW_DEC, maxBits)
        && Run(NEW_DEC, maxBits, ByteBits(fed[1..])) == Run(State(), maxBits, Bits(bitAcc, bitCount))
      else fed == [] && State() == NEW_DEC && bitCount == 0
    }

    ghost predicate Valid()
      reads this, prefix, suffix
    {
      Ready() && Following()
    }

    constructor ()
      ensures Valid() && fresh(prefix) && fresh(suffix) && fresh(stack)
      ensures fed == [] && emitted == []
    {
      prefix, suffix, stack := new nat[MAX_SIZE](_ => 0), new Byte[MAX_SIZE](_ => 0), new Byte[MAX_SIZE](_ => 0);
      headerDone, maxBits, nextCode, nbits, bitAcc, bitCount := false, ENC_MAX_BITS, FIRST, INIT_BITS, 0, 0;
      prev, finchar, emitBuf, emitHead := None, 0, [], 0;
      dict, fed, emitted := [], [], [];
      new;
      NewDecSound(ENC_MAX_BITS);
    }

    /** Put the text of `code` at the end of the queue; the guards against broken chains never fire. */
    method DecodeString(code0: nat) returns (ok: bool)
      requires TableValid() && WellFormed(dict) && Known(dict, code0)
      modifies this`emitBuf, this`finchar, stack
      ensures ok
      ensures emitBuf == old(emitBuf) + Text(dict, code0)
      ensures finchar == Text(dict, code0)[0]
    {
      hide WellFormed, Known, Text;
      TextStep(dict, code0);
      if code0 < CLEAR {
        finchar := code0;
        emitBuf := emitBuf + [code0];
        return true;
      }
      var code: nat, i: nat := code0, MAX_SIZE;
      ghost var text := Text(dict, code0);
      TextLength(dict, code0);
      assert stack[i..] == [];
      while code >= CLEAR
        invariant WellFormed(dict) && Known(dict, code) && TableValid()
        invariant 0 < i <= MAX_SIZE && text == Text(dict, code) + stack[i..]
        invariant emitBuf == old(emitBuf)
        decreases code
      {
        TextStep(dict, code);
        if code >= prefix.Length || i == 0 {
          return false;
        }
        ghost var tail := stack[i..];
        i := i - 1;
        stack[i] := suffix[code];
        assert stack[i..] == [suffix[code]] + tail;
        ConcatAssoc(Text(dict, prefix[code]), [suffix[code]], tail);
        code := prefix[code];
      }
      TextStep(dict, code);
      if i == 0 {
        return false;
      }
      finchar := code;
      ghost var tail := stack[i..];
      i := i - 1;
      stack[i] := finchar;
      assert stack[i..] == [code as Byte] + tail;
      emitBuf := emitBuf + stack[i..];
      return true;
    }

    /** Collect whole bytes until a code is there. */
    method TryReadCode(input: seq<Byte>, cursor: nat) returns (code: Option<nat>, next: nat)
      requires cursor <= |input| && bitAcc < Pow2(bitCount)
      modifies this`bitAcc, this`bitCount, this`fed
      ensures bitAcc < Pow2(bitCount)
      ensures cursor <= next <= |input| && fed == old(fed) + input[cursor..next]
      ensures code.None? ==>
        && bitCount < nbits && next == |input|
        && Bits(old(bitAcc), old(bitCount)) + ByteBits(input[cursor..next]) == Bits(bitAcc, bitCount)
      ensures code.Some? ==>
        && code.value < Pow2(nbits)
        && Bits(old(bitAcc), old(bitCount)) + ByteBits(input[cursor..next]) ==
           Bits(code.value, nbits) + Bits(bitAcc, bitCount)
        && bitCount + nbits == old(bitCount) + 8 * (next - cursor)
    {
      hide Pow2, Bits, ByteBits;
      next := cursor;
      NoByteRead(input, cursor, bitAcc, bitCount);
      ghost var acc0, count0 := bitAcc, bitCount;
      while bitCount < nbits
        invariant bitAcc < Pow2(bitCount)
        invariant cursor <= next <= |input| && fed == old(fed) + input[cursor..next]
        invariant Bits(acc0, count0) + ByteBits(input[cursor..next]) == Bits(bitAcc, bitCount)
        invariant bitCount == count0 + 8 * (next - cursor)
        decreases |input| - next
      {
        if next >= |input| {
          return None, next;
        }
        ReadByte(acc0, count0, input, cursor, next, bitAcc, bitCount);
        bitAcc := bitAcc + input[next] * Pow2(bitCount);
        bitCount := bitCount + 8;
        assert fed + [input[next]] == old(fed) + input[cursor..next + 1];
        fed := fed + [input[next]];
        next := next + 1;
      }
      var read := bitAcc % Pow2(nbits);
      BitsCut(bitAcc, bitCount, nbits, bitAcc / Pow2(nbits), read);
      bitAcc := bitAcc / Pow2(nbits);
      bitCount := bitCount - nbits;
      code := Some(read);
    }

    /** Empty the dictionary. */
    method ResetDict()
      modifies this`nextCode, this`nbits, this`prev, this`dict
      ensures nextCode == FIRST && nbits == INIT_BITS && prev.None? && dict == []
    {
      nextCode, nbits, prev, dict := FIRST, INIT_BITS, None, [];
    }

    /** Record the entry for the previous text and the first byte of this one. */
    method AddPair(p: nat)
      requires TableValid() && WellFormed(dict) && Known(dict, p) && maxBits <= MAX_BITS
      modifies this`nextCode, this`dict, prefix, suffix
      ensures TableValid()
      ensures dict == if old(nextCode) < Pow2(maxBits) then old(dict) + [Entry(p, finchar)] else old(dict)
    {
      hide Pow2;
      Pow2Bytes();
      Pow2Grows(maxBits, MAX_BITS);
      if nextCode < Pow2(maxBits) {
        prefix[nextCode] := p;
        suffix[nextCode] := finchar;
        nextCode := nextCode + 1;
        dict := dict + [Entry(p, finchar)];
      }
    }

    /** One code. */
    method Apply(code: nat) returns (ok: bool)
      requires Ready() && emitHead == |emitBuf| && code < Pow2(maxBits)
      modifies this`nextCode, this`nbits, this`prev, this`dict, this`finchar, this`emitBuf, prefix, suffix, stack
      ensures emitHead <= |emitBuf|
      ensures ok <==> DecStep(old(State()), maxBits, code).Some?
      ensures ok ==> TableValid() && DecStep(old(State()), maxBits, code) == Some(State())
    {
      hide Pow2, WellFormed, Text;
      ghost var d := State();
      assert emitBuf[emitHead..] == [] && d.out == emitted;
      if code == CLEAR {
        ResetDict();
        return true;
      }
      if prev.None? {
        if code >= CLEAR {
          return false;
        }
        finchar := code;
        emitBuf := emitBuf + [code];
        prev := Some(code);
        assert emitBuf[emitHead..] == [code as Byte];
        return true;
      }
      if code > nextCode {
        return false;
      }
      var p := prev.value;
      ghost var text := if code == Free(dict) then Again(Text(dict, p)) else Text(dict, code);
      if code == nextCode {
        ok := DecodeString(p);
        emitBuf := emitBuf + [finchar];
      } else {
        ok := DecodeString(code);
      }
      if !ok {
        return false;
      }
      assert emitBuf[emitHead..] == text && finchar == text[0];
      AddPair(p);
      prev := Some(code);
    }

    /** Hand out what fits, from `written` on. */
    method Drain(output: array<Byte>, written: nat, ghost before: seq<Byte>) returns (total: nat)
      requires Valid() && written <= output.Length && emitted == before + output[..written]
      requires output != suffix && output != stack
      modifies this`emitBuf, this`emitHead, this`emitted, output
      ensures Valid()
      ensures written <= total <= output.Length && emitted == before + output[..total]
      ensures emitHead <= |emitBuf| && (emitHead < |emitBuf| ==> total == output.Length)
      ensures emitHead == |emitBuf| ==> State().out == emitted
    {
      var n := if |emitBuf| - emitHead < output.Length - written then |emitBuf| - emitHead else output.Length - written;
      ghost var left, tail := output[..written], output[written + n..];
      var bytes := Pop(n);
      Store(output, written, bytes);
      total := written + n;
      HeadTail(left + bytes, tail);
      assert output[..total] == output[..][..total];
      ConcatAssoc(before, left, bytes);
    }

    /** The next `n` bytes of the queue. */
    method Pop(n: nat) returns (bytes: seq<Byte>)
      requires Valid() && emitHead + n <= |emitBuf|
      modifies this`emitBuf, this`emitHead, this`emitted
      ensures Valid() && |bytes| == n && emitted == old(emitted) + bytes
      ensures |emitBuf| - emitHead == old(|emitBuf| - emitHead) - n
    {
      hide Sound, Run, Bits, ByteBits, Pow2;
      bytes := emitBuf[emitHead..emitHead + n];
      SplitQueue(emitted, emitBuf, emitHead, n);
      emitted, emitHead := emitted + bytes, emitHead + n;
      if emitHead == |emitBuf| {
        emitBuf, emitHead := [], 0;
      }
    }

    /** The header byte, if it is there. */
    method ReadHeader(b: Byte) returns (ok: bool)
      requires Valid() && !headerDone
      modifies this`headerDone, this`maxBits, this`fed
      ensures ok <==> MIN_BITS <= b <= MAX_BITS
      ensures ok ==> Valid() && headerDone && fed == [b]
      ensures !ok ==> Valid() && !headerDone && fed == []
    {
      hide Run, Bits, ByteBits, Pow2;
      if !(MIN_BITS <= b <= MAX_BITS) {
        return false;
      }
      NewDecSound(b);
      NoBits(bitAcc);
      maxBits, headerDone, fed := b, true, [b];
      assert fed[1..] == [];
      return true;
    }

    /** The width check. */
    method CheckWidth()
      requires Valid() && headerDone
      modifies this`nbits
      ensures Valid() && State() == Bump(old(State()), maxBits) && Bump(State(), maxBits) == State()
    {
      hide Run, Bits, ByteBits, Pow2;
      RunBump(State(), maxBits, Bits(bitAcc, bitCount));
      BumpSound(State(), maxBits);
      if nbits < maxBits && nextCode >= Pow2(nbits) {
        nbits := nbits + 1;
      }
    }

    /** One round: a code is read and applied, or there is none, or it is corrupt. */
    method Round(input: seq<Byte>, cursor: nat) returns (found: bool, ok: bool, next: nat)
      requires Valid() && headerDone && emitHead == |emitBuf| && cursor <= |input|
      modifies this`nextCode, this`nbits, this`prev, this`dict, this`finchar, this`emitBuf, this`bitAcc, this`bitCount,
               this`fed, prefix, suffix, stack
      ensures cursor <= next <= |input| && fed == old(fed) + input[cursor..next]
      ensures ok ==> Valid()
      ensures ok && found ==> 8 * (|input| - next) + bitCount < 8 * (|input| - cursor) + old(bitCount)
      ensures ok && !found ==>
        && next == |input| && emitBuf == old(emitBuf)
        && Run(NEW_DEC, maxBits, ByteBits(fed[1..])) == Short(State(), Bits(bitAcc, bitCount))
      ensures !ok ==> Sound(NEW_DEC, maxBits) && Run(NEW_DEC, maxBits, ByteBits(fed[1..])) == Corrupt
    {
      hide Run, Bits, ByteBits, Pow2, Bump, Sound;
      CheckWidth();
      ghost var d, acc0, count0, fed0 := State(), bitAcc, bitCount, fed;
      var code;
      code, next := TryReadCode(input, cursor);
      ghost var more := ByteBits(input[cursor..next]);
      Fed(fed0, input, cursor, next, maxBits, d, Bits(acc0, count0));
      if code.None? {
        RunOne(d, maxBits, Bits(bitAcc, bitCount));
        return false, true, next;
      }
      RunCode(d, maxBits, code.value, Bits(bitAcc, bitCount));
      AtLeastOne(d, maxBits);
      ok := Apply(code.value);
      found := true;
    }

    /**
     Accept input and hand out decoded bytes until the output is full or the input used up.  Short of a full output,
     everything the accepted bytes decode to has been handed out, however input and output are sliced.
     */
    method Decode(input: seq<Byte>, output: array<Byte>) returns (p: Progress)
      requires Valid() && output != suffix && output != stack
      modifies this, prefix, suffix, stack, output
      ensures p.Progress? ==>
        && Valid() && p.consumed <= |input| && fed == old(fed) + input[..p.consumed]
        && p.written <= output.Length && emitted == old(emitted) + output[..p.written]
      ensures p.Progress? && p.written < output.Length ==>
        p.consumed == |input| && (fed == [] || Caught(fed, emitted))
      ensures p.Corrupted? ==> fed != [] && old(fed) <= fed <= old(fed) + input && Refused(fed)
      ensures p.Unsupported? ==> old(fed) == [] && input != [] && !(MIN_BITS <= input[0] <= MAX_BITS)
    {
      hide Decoder.Valid, Decoder.Ready, Caught, Refused, ByteBits, Bits, Run, Sound;
      HeaderFirst();
      var cursor := 0;
      if !headerDone {
        if |input| == 0 {
          assert output[..0] == [];
          return Progress(0, 0);
        }
        var ok := ReadHeader(input[0]);
        if !ok {
          return Unsupported;
        }
        cursor := 1;
        assert input[..1] == [input[0]];
      }
      p := Pump(input, cursor, output);
      assert input == input[..cursor] + input[cursor..];
      if p.Progress? {
        assert input[..p.consumed] == input[..cursor] + input[cursor..p.consumed];
      }
    }

    /** The rounds behind the header. */
    method Pump(input: seq<Byte>, start: nat, output: array<Byte>) returns (p: Progress)
      requires Valid() && headerDone && start <= |input| && output != suffix && output != stack
      modifies this`nextCode, this`nbits, this`prev, this`dict, this`finchar, this`emitBuf, this`emitHead, this`bitAcc,
               this`bitCount, this`fed, this`emitted, prefix, suffix, stack, output
      ensures p.Progress? ==>
        && Valid() && start <= p.consumed <= |input| && fed == old(fed) + input[start..p.consumed]
        && p.written <= output.Length && emitted == old(emitted) + output[..p.written]
      ensures p.Progress? && p.written < output.Length ==>
        p.consumed == |input| && fed != [] && Caught(fed, emitted)
      ensures !p.Progress? ==>
        p.Corrupted? && fed != [] && old(fed) <= fed <= old(fed) + input[start..] && Refused(fed)
    {
      hide Decoder.Valid, Decoder.Ready, Caught, Refused, ByteBits, Bits, Run, Sound;
      var cursor, written := start, 0;
      assert output[..0] == [];
      while true
        invariant Valid() && headerDone && start <= cursor <= |input|
        invariant fed == old(fed) + input[start..cursor]
        invariant written <= output.Length && emitted == old(emitted) + output[..written]
        decreases 8 * (|input| - cursor) + bitCount
      {
        HeaderFirst();
        if emitHead < |emitBuf| {
          written := Drain(output, written, old(emitted));
          if emitHead < |emitBuf| {
            return Progress(cursor, written);
          }
        }
        HeaderFirst();
        ghost var before := cursor;
        var found, ok;
        found, ok, cursor := Round(input, cursor);
        SlicesJoin(old(fed), input, start, before, cursor);
        if !ok {
          Refusal(fed, maxBits);
          return Corrupted;
        }
        if !found {
          CaughtUp();
          return Progress(cursor, written);
        }
      }
    }

    lemma HeaderFirst()
      requires Valid()
      ensures emitHead <= |emitBuf| && MIN_BITS <= maxBits
      ensures if headerDone then fed != [] && fed[0] == maxBits else fed == []
    {
    }

    lemma CaughtUp()
      requires Valid() && headerDone && emitHead == |emitBuf|
      requires Run(NEW_DEC, maxBits, ByteBits(fed[1..])) == Short(State(), Bits(bitAcc, bitCount))
      ensures fed != [] && Caught(fed, emitted)
    {
      assert emitted + emitBuf[emitHead..] == emitted;
    }
  }

  /** `out` is all that the accepted bytes, header first, decode to. */
  ghost predicate Caught(fed: seq<Byte>, out: seq<Byte>)
    requires fed != []
  {
    MIN_BITS <= fed[0] && Sound(NEW_DEC, fed[0]) &&
    var h := Run(NEW_DEC, fed[0], ByteBits(fed[1..]));
    h.Short? && h.d.out == out
  }

  /** The accepted bytes contain a code that cannot be. */
  ghost predicate Refused(fed: seq<Byte>)
    requires fed != []
  {
    MIN_BITS <= fed[0] && Sound(NEW_DEC, fed[0]) && Run(NEW_DEC, fed[0], ByteBits(fed[1..])) == Corrupt
  }

  lemma SlicesJoin(a: seq<Byte>, s: seq<Byte>, i: nat, j: nat, k: nat)
    requires i <= j <= k <= |s|
    ensures (a + s[i..j]) + s[j..k] == a + s[i..k] <= a + s[i..]
  {
    assert s[i..k] + s[k..] == s[i..];
  }

  lemma Refusal(fed: seq<Byte>, maxBits: nat)
    requires fed != [] && fed[0] == maxBits && MIN_BITS <= maxBits && Sound(NEW_DEC, maxBits)
    requires Run(NEW_DEC, maxBits, ByteBits(fed[1..])) == Corrupt
    ensures Refused(fed)
  {
  }

  /** Running on from a beginning that is not corrupt: what it decodes to is kept. */
  lemma RunParts(maxBits: nat, bits: seq<bool>, more: seq<bool>)
    requires Sound(NEW_DEC, maxBits) && Run(NEW_DEC, maxBits, bits + more).Short?
    ensures var h := Run(NEW_DEC, maxBits, bits);
      h.Short? && h.d.out <= Run(NEW_DEC, maxBits, bits + more).d.out
  {
    hide Run, Sound;
    RunAppend(NEW_DEC, maxBits, bits, more);
    var h := Run(NEW_DEC, maxBits, bits);
    if h.Short? {
      RunKeeps(h.d, maxBits, h.left + more);
    }
  }

  /**
   However a finished payload is cut into pieces, no beginning of it is refused, whoever has caught up with one has the
   beginning of the text, and whoever has caught up with all of it has the text.
   */
  lemma Delivered(payload: seq<Byte>, text: seq<Byte>)
    requires IsPayload(payload, text)
    ensures forall k :: 1 <= k <= |payload| ==> !Refused(payload[..k])
    ensures forall k, out :: 1 <= k <= |payload| && Caught(payload[..k], out) ==> out <= text
    ensures forall out :: Caught(payload, out) <==> out == text
  {
    RoundTrip(payload, text);
    hide IsPayload, Refused, Caught;
    forall k | 1 <= k <= |payload|
      ensures !Refused(payload[..k]) && forall out :: Caught(payload[..k], out) ==> out <= text
    {
      PartAccepted(payload, k);
    }
    PartAccepted(payload, |payload|);
    assert payload[..|payload|] == payload;
    assert Caught(payload, text) by { CaughtAll(payload, text); }
    forall out | Caught(payload, out) ensures out == text {
      CaughtOnce(payload, out, text);
    }
  }

  /** A beginning of bytes that run without corruption. */
  lemma PartAccepted(payload: seq<Byte>, k: nat)
    requires 1 <= k <= |payload| && Sound(NEW_DEC, payload[0])
    requires Run(NEW_DEC, payload[0], ByteBits(payload[1..])).Short?
    ensures !Refused(payload[..k])
    ensures forall out :: Caught(payload[..k], out) ==> out <= Run(NEW_DEC, payload[0], ByteBits(payload[1..])).d.out
  {
    hide Run, Sound, ByteBits;
    var part, rest := payload[1..][..k - 1], payload[1..][k - 1..];
    assert payload[..k][1..] == part && payload[..k][0] == payload[0];
    assert payload[1..] == part + rest;
    ByteBitsAppend(part, rest);
    RunParts(payload[0], ByteBits(part), ByteBits(rest));
  }

  lemma CaughtAll(payload: seq<Byte>, text: seq<Byte>)
    requires IsPayload(payload, text)
    ensures Caught(payload, text)
  {
    RoundTrip(payload, text);
    hide Run, Sound, ByteBits, Packs;
  }

  lemma CaughtOnce(fed: seq<Byte>, a: seq<Byte>, b: seq<Byte>)
    requires fed != [] && Caught(fed, a) && Caught(fed, b)
    ensures a == b
  {
    hide Run, Sound, ByteBits;
  }

  lemma NoByteRead(input: seq<Byte>, cursor: nat, acc: nat, count: nat)
    requires cursor <= |input|
    ensures Bits(acc, count) + ByteBits(input[cursor..cursor]) == Bits(acc, count)
  {
  }

  lemma ReadByte(acc0: nat, count0: nat, input: seq<Byte>, cursor: nat, next: nat, acc: nat, count: nat)
    requires cursor <= next < |input| && acc < Pow2(count)
    requires Bits(acc0, count0) + ByteBits(input[cursor..next]) == Bits(acc, count)
    ensures acc + input[next] * Pow2(count) < Pow2(count + 8)
    ensures Bits(acc0, count0) + ByteBits(input[cursor..next + 1]) == Bits(acc + input[next] * Pow2(count), count + 8)
  {
    hide Pow2, Bits, ByteBits;
    var b: nat := input[next];
    assert input[cursor..next + 1] == input[cursor..next] + [input[next]];
    ByteBitsMore(input[cursor..next], input[next]);
    BitsJoin(acc, count, b, 8);
    Pow2Add(count, 8);
    Pow2Bytes();
    MulMonotone(b + 1, 0x100, Pow2(count));
    Distribute(b, 1, Pow2(count));
    ConcatAssoc(Bits(acc0, count0), ByteBits(input[cursor..next]), Bits(b, 8));
  }

  /** Newly accepted bytes are run on from the present state. */
  lemma Fed(fed: seq<Byte>, input: seq<Byte>, i: nat, j: nat, maxBits: nat, d: Dec, bits: seq<bool>)
    requires fed != [] && i <= j <= |input| && Sound(NEW_DEC, maxBits) && Sound(d, maxBits)
    requires Run(NEW_DEC, maxBits, ByteBits(fed[1..])) == Run(d, maxBits, bits)
    ensures Run(NEW_DEC, maxBits, ByteBits((fed + input[i..j])[1..])) == Run(d, maxBits, bits + ByteBits(input[i..j]))
  {
    hide Run, Bits, ByteBits, Pow2, Sound;
    var more := input[i..j];
    assert (fed + more)[1..] == fed[1..] + more;
    ByteBitsAppend(fed[1..], more);
    RunAppend(NEW_DEC, maxBits, ByteBits(fed[1..]), ByteBits(more));
    RunAppend(d, maxBits, bits, ByteBits(more));
  }
}