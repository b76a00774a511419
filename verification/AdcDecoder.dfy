/** The ADC decoder as it runs: a state machine over tokens and a 64 KiB ring of the bytes handed out last. */
module AdcDecoder {
  import opened Words
  import opened AdcSpec

  const WINDOW_SIZE := 65536

  datatype DecPhase = At(phase: Phase) | Copying(distance: nat, remaining: nat)

  datatype Outcome = Progress(consumed: nat, written: nat) | InvalidDistance | Poisoned

  // ----- the ring

  /** Where the byte `k` places back is. */
  function Behind(pos: nat, k: nat): (i: nat)
    requires pos < WINDOW_SIZE && k <= WINDOW_SIZE
    ensures i < WINDOW_SIZE
  {
    (pos + WINDOW_SIZE - k) % WINDOW_SIZE
  }

  /** The ring holds the last bytes of `out`, as many as fit. */
  ghost predicate Ring(window: seq<Byte>, pos: nat, out: seq<Byte>) {
    && |window| == WINDOW_SIZE && pos < WINDOW_SIZE
    && forall k :: 1 <= k <= WINDOW_SIZE && k <= |out| ==> window[Behind(pos, k)] == out[|out| - k]
  }

  /** `now` is `was` with the bytes of `s` written from `pos` on, around the end. */
  ghost predicate Written(was: seq<Byte>, now: seq<Byte>, pos: nat, s: seq<Byte>) {
    && |was| == |now| == WINDOW_SIZE && pos < WINDOW_SIZE && |s| < WINDOW_SIZE
    && forall i :: 0 <= i < WINDOW_SIZE ==>
      now[i] ==
        if pos <= i < pos + |s| then s[i - pos] else if i + WINDOW_SIZE < pos + |s| then s[i + WINDOW_SIZE - pos] else was[i]
  }

  lemma RingWritten(was: seq<Byte>, now: seq<Byte>, pos: nat, out: seq<Byte>, s: seq<Byte>)
    requires Ring(was, pos, out) && Written(was, now, pos, s)
    ensures Ring(now, (pos + |s|) % WINDOW_SIZE, out + s)
  {
    var next, all := (pos + |s|) % WINDOW_SIZE, out + s;
    forall k | 1 <= k <= WINDOW_SIZE && k <= |all| ensures now[Behind(next, k)] == all[|all| - k] {
      if k <= |s| {
        assert all[|all| - k] == s[|s| - k];
      } else {
        assert was[Behind(pos, k - |s|)] == out[|out| - (k - |s|)];
        assert Behind(next, k) == Behind(pos, k - |s|);
      }
    }
  }

  /** A slice read from the ring, in one piece or two. */
  lemma RingSlice(window: seq<Byte>, pos: nat, out: seq<Byte>, d: nat, n: nat, first: nat)
    requires Ring(window, pos, out) && 1 <= d <= WINDOW_SIZE && d <= |out| && n <= d
    requires first == if WINDOW_SIZE - Behind(pos, d) < n then WINDOW_SIZE - Behind(pos, d) else n
    ensures var src := Behind(pos, d);
      src + first <= WINDOW_SIZE && n - first <= WINDOW_SIZE
      && window[src..src + first] + window[..n - first] == out[|out| - d..|out| - d + n]
  {
    var src := Behind(pos, d);
    var piece := window[src..src + first] + window[..n - first];
    forall i | 0 <= i < n ensures piece[i] == out[|out| - d + i] {
      assert Behind(pos, d - i) == if i < first then src + i else i - first;
      assert window[Behind(pos, d - i)] == out[|out| - (d - i)];
    }
  }

  /** What tags and offset bytes can say. */
  predicate InBounds(p: Phase) {
    match p
    case Tag => true
    case Literal(r) => 1 <= r <= MAX_LITERAL_RUN
    case LongHi(len) => len <= MAX_LONG_MATCH
    case LongLo(len, hi) => len <= MAX_LONG_MATCH && hi < 0x100
    case ShortLo(len, hi) => len <= MAX_SHORT_MATCH && hi < 4
  }

  class Decoder {
    const window: array<Byte>
    var windowPos: nat
    var emittedCount: nat
    var phase: DecPhase
    var poisoned: bool
    ghost var fed: seq<Byte>      // everything accepted
    ghost var emitted: seq<Byte>  // everything handed out

    ghost predicate RingValid()
      reads this`windowPos, this`emittedCount, this`emitted, window
    {
      window.Length == WINDOW_SIZE && Ring(window[..], windowPos, emitted) && emittedCount == |emitted|
    }

    /** The accepted bytes decode to what is out, and the rest of a copy under way. */
    ghost predicate Following()
      reads this`phase, this`fed, this`emitted
    {
      match phase
      case At(p) => Run(fed) == Some(State(p, emitted)) && InBounds(p)
      case Copying(d, n) =>
        && 1 <= d <= |emitted| && d <= WINDOW_SIZE && n <= MAX_LONG_MATCH
        && Run(fed) == Some(State(Tag, Copy(emitted, d, n)))
    }

    ghost predicate Valid()
      reads this, window
    {
      RingValid() && if poisoned then Run(fed).None? else Following()
    }

    constructor ()
      ensures Valid() && fresh(window)
      ensures fed == [] && emitted == [] && !poisoned
    {
      window := new Byte[WINDOW_SIZE](_ => 0);
      windowPos, emittedCount, phase, poisoned := 0, 0, At(Tag), false;
      fed, emitted := [], [];
    }

    /** The byte `distance` places back. */
    method Lookback(distance: nat) returns (b: Byte)
      requires RingValid() && 1 <= distance <= WINDOW_SIZE && distance <= |emitted|
      ensures b == emitted[|emitted| - distance]
    {
      b := window[(windowPos + WINDOW_SIZE - distance) % WINDOW_SIZE];
      assert window[..][Behind(windowPos, distance)] == b;
    }

    /** Hand out one byte and keep it in the ring. */
    method EmitByte(b: Byte, output: array<Byte>, written: nat, ghost before: seq<Byte>)
      requires RingValid() && written < output.Length && output != window
      requires emitted == before + output[..written]
      modifies this`windowPos, this`emittedCount, this`emitted, window, output
      ensures RingValid() && emitted == old(emitted) + [b]
      ensures emitted == before + output[..written + 1]
    {
      hide Ring;
      ghost var was, pos := window[..], windowPos;
      RingPos(was, pos, emitted);
      output[written] := b;
      window[windowPos] := b;
      windowPos := (windowPos + 1) % WINDOW_SIZE;
      emittedCount := emittedCount + 1;
      RingWritten(was, window[..], pos, emitted, [b]);
      emitted := emitted + [b];
      assert output[..written + 1] == output[..written] + [b];
    }

    /** Write bytes into the ring, split at its end. */
    method WriteRing(s: seq<Byte>)
      requires RingValid() && |s| <= MAX_LITERAL_RUN
      modifies this`windowPos, this`emittedCount, this`emitted, window
      ensures RingValid() && emitted == old(emitted) + s
    {
      hide Ring, Written;
      ghost var was, pos := window[..], windowPos;
      RingPos(was, pos, emitted);
      var first := if WINDOW_SIZE - windowPos < |s| then WINDOW_SIZE - windowPos else |s|;
      assert was[..pos] == window[..pos] && was[pos + first..] == window[pos + first..];
      Store(window, windowPos, s[..first]);
      ghost var mid := window[..];
      if first < |s| {
        assert mid[|s| - first..] == window[|s| - first..] && window[..0] == [];
        Store(window, 0, s[first..]);
      }
      TwoStores(was, mid, window[..], pos, s, first);
      RingWritten(was, window[..], pos, emitted, s);
      windowPos := (windowPos + |s|) % WINDOW_SIZE;
      emittedCount := emittedCount + |s|;
      emitted := emitted + s;
    }

    /** Literal bytes, in bulk. */
    method EmitLiterals(src: seq<Byte>, output: array<Byte>, written: nat, ghost before: seq<Byte>)
      requires RingValid() && written + |src| <= output.Length && output != window && |src| <= MAX_LITERAL_RUN
      requires emitted == before + output[..written]
      modifies this`windowPos, this`emittedCount, this`emitted, window, output
      ensures RingValid() && emitted == old(emitted) + src
      ensures emitted == before + output[..written + |src|]
    {
      hide Ring;
      PutOut(output, written, src);
      ConcatAssoc(before, output[..written], src);
      WriteRing(src);
    }

    /** A copy no longer than its distance, in bulk. */
    method CopyBulk(distance: nat, n: nat, output: array<Byte>, written: nat, ghost before: seq<Byte>)
      requires RingValid() && written + n <= output.Length && output != window
      requires 1 <= distance <= WINDOW_SIZE && distance <= |emitted| && n <= distance && n <= MAX_LONG_MATCH
      requires emitted == before + output[..written]
      modifies this`windowPos, this`emittedCount, this`emitted, window, output
      ensures RingValid() && emitted == Copy(old(emitted), distance, n)
      ensures emitted == before + output[..written + n]
    {
      hide Ring, Copy;
      CopySlice(emitted, distance, n);
      ghost var back := emitted[|emitted| - distance..|emitted| - distance + n];
      RingPos(window[..], windowPos, emitted);
      var src := (windowPos + WINDOW_SIZE - distance) % WINDOW_SIZE;
      var first := if WINDOW_SIZE - src < n then WINDOW_SIZE - src else n;
      RingSlice(window[..], windowPos, emitted, distance, n, first);
      var bytes := window[src..src + first];
      if first < n {
        bytes := bytes + window[..n - first];
      } else {
        assert window[..][..n - first] == [];
      }
      assert bytes == back;
      PutOut(output, written, bytes);
      ConcatAssoc(before, output[..written], bytes);
      WriteRing(bytes);
    }

    /** Carry on with the copy under way, in bulk where it does not overlap itself. */
    method CopyOn(output: array<Byte>, written0: nat, ghost before: seq<Byte>) returns (written: nat)
      requires Valid() && !poisoned && phase.Copying? && written0 <= output.Length && output != window
      requires emitted == before + output[..written0]
      modifies this`windowPos, this`emittedCount, this`emitted, this`phase, window, output
      ensures Valid() && (phase == At(Tag) || (phase.Copying? && written == output.Length))
      ensures written0 <= written <= output.Length && emitted == before + output[..written]
    {
      hide Ring, Run, Copy;
      written := written0;
      var distance: nat, rem: nat := phase.distance, phase.remaining;
      ghost var whole := Copy(emitted, distance, rem);
      var room := output.Length - written;
      var chunk := if rem < room then rem else room;
      if chunk > 0 && distance >= chunk {
        CopyAdd(emitted, distance, chunk, rem - chunk);
        CopyBulk(distance, chunk, output, written, before);
        written, rem := written + chunk, rem - chunk;
      }
      while rem > 0
        invariant RingValid() && !poisoned && written0 <= written <= output.Length
        invariant 1 <= distance <= |emitted| && distance <= WINDOW_SIZE && rem <= MAX_LONG_MATCH
        invariant Run(fed) == Some(State(Tag, whole)) && whole == Copy(emitted, distance, rem)
        invariant emitted == before + output[..written]
        invariant fed == old(fed)
        decreases rem
      {
        if written == output.Length {
          phase := Copying(distance, rem);
          return;
        }
        var b := Lookback(distance);
        CopyOne(emitted, distance, rem);
        EmitByte(b, output, written, before);
        written, rem := written + 1, rem - 1;
      }
      CopyNone(emitted, distance);
      phase := At(Tag);
    }

    /** Carry on with the literal run as far as input and output go. */
    method LiteralsOn(input: seq<Byte>, consumed0: nat, output: array<Byte>, written0: nat, ghost before: seq<Byte>)
      returns (consumed: nat, written: nat)
      requires Valid() && !poisoned && phase.At? && phase.phase.Literal? && output != window
      requires consumed0 <= |input| && written0 <= output.Length && emitted == before + output[..written0]
      modifies this`windowPos, this`emittedCount, this`emitted, this`phase, this`fed, window, output
      ensures Valid() && consumed0 <= consumed <= |input| && fed == old(fed) + input[consumed0..consumed]
      ensures written0 <= written <= output.Length && emitted == before + output[..written]
      ensures phase.At?
      ensures if phase == At(Tag) then consumed0 < consumed else consumed == |input| || written == output.Length
    {
      hide Ring, Run;
      var rem := phase.phase.remaining;
      var inRoom, outRoom := |input| - consumed0, output.Length - written0;
      var least := if rem < inRoom then rem else inRoom;
      var chunk := if least < outRoom then least else outRoom;
      var src := input[consumed0..consumed0 + chunk];
      RunLiterals(fed, emitted, rem, src);
      if chunk > 0 {
        EmitLiterals(src, output, written0, before);
      } else {
        assert emitted + src == emitted;
      }
      fed := fed + src;
      consumed, written, rem := consumed0 + chunk, written0 + chunk, rem - chunk;
      phase := At(if rem > 0 then Literal(rem) else Tag);
    }

    /** Copy from a distance, unless it reaches back too far. */
    method StartCopy(length: nat, distance: nat) returns (ok: bool)
      requires RingValid() && !poisoned && 1 <= distance <= WINDOW_SIZE && length <= MAX_LONG_MATCH
      requires Run(fed) == Reach(emitted, distance, length)
      modifies this`phase, this`poisoned
      ensures Valid() && (ok <==> !poisoned)
    {
      hide Ring, Run, Copy;
      if distance > emittedCount {
        poisoned := true;
        return false;
      }
      phase := Copying(distance, length);
      ok := true;
    }

    /** One byte of a tag or an offset. */
    method TakeByte(b: Byte) returns (ok: bool)
      requires Valid() && !poisoned && phase.At? && !phase.phase.Literal?
      modifies this`phase, this`poisoned, this`fed
      ensures Valid() && fed == old(fed) + [b]
      ensures ok <==> !poisoned
    {
      hide Ring, Run, Copy;
      RunMore(fed, b);
      fed := fed + [b];
      match phase.phase {
        case Tag =>
          if b >= 0x80 {
            phase := At(Literal(b - 0x80 + 1));
          } else if b >= 0x40 {
            phase := At(LongHi(b % 0x40 + 4));
          } else {
            phase := At(ShortLo(b / 4 % 0x10 + 3, b % 4));
          }
        case LongHi(length) =>
          phase := At(LongLo(length, b));
        case LongLo(length, hi) =>
          ok := StartCopy(length, hi * 0x100 + b + 1);
          return;
        case ShortLo(length, hi) =>
          ok := StartCopy(length, hi * 0x100 + b + 1);
          return;
      }
      ok := true;
    }

    /**
     Take in bytes and hand out what they decode to until the output is full or the input used up.  Short of a full
     output everything is out, and a distance that reaches back too far is reported exactly when it is met.
     */
    method Decode(input: seq<Byte>, output: array<Byte>) returns (p: Outcome)
      requires Valid() && output != window
      modifies this, window, output
      ensures Valid()
      ensures p.Progress? ==>
        && !poisoned && p.consumed <= |input| && fed == old(fed) + input[..p.consumed]
        && p.written <= output.Length && emitted == old(emitted) + output[..p.written]
      ensures p.Progress? && p.written < output.Length ==>
        p.consumed == |input| && Caught(fed, emitted)
      ensures p.InvalidDistance? ==> old(fed) <= fed <= old(fed) + input && Run(fed).None?
      ensures p.Poisoned? <==> old(poisoned)
    {
      hide Ring, Run;
      if poisoned {
        return Poisoned;
      }
      var consumed, written := 0, 0;
      assert output[..0] == [] && input[..0] == [];
      while true
        invariant Valid() && !poisoned && consumed <= |input| && written <= output.Length
        invariant fed == old(fed) + input[..consumed]
        invariant emitted == old(emitted) + output[..written]
        decreases |input| - consumed, if phase.Copying? then 1 else 0
      {
        if phase.Copying? {
          written := CopyOn(output, written, old(emitted));
          if phase.Copying? {
            return Progress(consumed, written);
          }
          continue;
        }
        if phase.phase.Literal? {
          ghost var before := consumed;
          consumed, written := LiteralsOn(input, consumed, output, written, old(emitted));
          assert input[..consumed] == input[..before] + input[before..consumed];
          if phase != At(Tag) {
            return Progress(consumed, written);
          }
          continue;
        }
        if consumed == |input| {
          return Progress(consumed, written);
        }
        var ok := TakeByte(input[consumed]);
        assert input[..consumed + 1] == input[..consumed] + [input[consumed]];
        consumed := consumed + 1;
        if !ok {
          assert input == input[..consumed] + input[consumed..];
          return InvalidDistance;
        }
      }
    }
  }

  /** `out` is all that the accepted bytes decode to. */
  ghost predicate Caught(fed: seq<Byte>, out: seq<Byte>) {
    Run(fed).Some? && Run(fed).value.out == out
  }

  /**
   However a finished stream is cut into pieces, no beginning of it is refused, whoever has caught up with one has the
   beginning of the text, and whoever has caught up with all of it has the text.
   */
  lemma Delivered(payload: seq<Byte>, text: seq<Byte>)
    requires Run(payload) == Some(State(Tag, text))
    ensures forall k :: 0 <= k <= |payload| ==> Run(payload[..k]).Some?
    ensures forall k, out :: 0 <= k <= |payload| && Caught(payload[..k], out) ==> out <= text
    ensures forall out :: Caught(payload, out) <==> out == text
  {
    hide Run;
    forall k | 0 <= k <= |payload| ensures Run(payload[..k]).Some? && Run(payload[..k]).value.out <= text {
      assert payload == payload[..k] + payload[k..];
      RunParts(payload[..k], payload[k..]);
    }
  }

  /** Bytes go out behind those already written. */
  method PutOut(output: array<Byte>, written: nat, bytes: seq<Byte>)
    requires written + |bytes| <= output.Length
    modifies output
    ensures output[..written] == old(output[..written])
    ensures output[..written + |bytes|] == output[..written] + bytes
  {
    ghost var left, tail := output[..written], output[written + |bytes|..];
    Store(output, written, bytes);
    HeadTail(left + bytes, tail);
    assert output[..written + |bytes|] == output[..][..written + |bytes|];
    assert output[..written] == output[..written + |bytes|][..written];
  }

  lemma RingPos(window: seq<Byte>, pos: nat, out: seq<Byte>)
    requires Ring(window, pos, out)
    ensures |window| == WINDOW_SIZE && pos < WINDOW_SIZE
  {
  }

  lemma TwoStores(was: seq<Byte>, mid: seq<Byte>, now: seq<Byte>, pos: nat, s: seq<Byte>, first: nat)
    requires |was| == WINDOW_SIZE && pos < WINDOW_SIZE && |s| <= MAX_LITERAL_RUN
    requires first == if WINDOW_SIZE - pos < |s| then WINDOW_SIZE - pos else |s|
    requires mid == was[..pos] + s[..first] + was[pos + first..]
    requires now == if first < |s| then s[first..] + mid[|s| - first..] else mid
    ensures Written(was, now, pos, s)
  {
    if first == |s| {
      StoredAt(was, now, pos, s);
    } else {
      StoredAround(was, mid, now, pos, s, first);
    }
  }

  lemma StoredAt(was: seq<Byte>, now: seq<Byte>, pos: nat, s: seq<Byte>)
    requires |was| == WINDOW_SIZE && pos < WINDOW_SIZE && |s| <= MAX_LITERAL_RUN && pos + |s| <= WINDOW_SIZE
    requires now == was[..pos] + s[..|s|] + was[pos + |s|..]
    ensures Written(was, now, pos, s)
  {
    assert s[..|s|] == s;
  }

  lemma StoredAround(was: seq<Byte>, mid: seq<Byte>, now: seq<Byte>, pos: nat, s: seq<Byte>, first: nat)
    requires |was| == WINDOW_SIZE && pos < WINDOW_SIZE && |s| <= MAX_LITERAL_RUN
    requires first == WINDOW_SIZE - pos < |s|
    requires mid == was[..pos] + s[..first] + was[pos + first..]
    requires now == s[first..] + mid[|s| - first..]
    ensures Written(was, now, pos, s)
  {
    var n := |s| - first;
    assert mid == was[..pos] + s[..first];
    forall i | 0 <= i < WINDOW_SIZE
      ensures now[i] == if pos <= i then s[i - pos] else if i < n then s[i + first] else was[i]
    {
      if i >= n {
        assert now[i] == mid[n..][i - n] && mid[n..][i - n] == mid[i];
      }
    }
  }

  lemma CopyOne(out: seq<Byte>, d: nat, n: nat)
    requires 1 <= d <= |out| && n > 0
    ensures Copy(out, d, n) == Copy(out + [out[|out| - d]], d, n - 1)
  {
  }

  lemma CopyNone(out: seq<Byte>, d: nat)
    requires 1 <= d <= |out|
    ensures Copy(out, d, 0) == out
  {
  }
}
