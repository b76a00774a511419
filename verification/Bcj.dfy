/**
 The streaming engine shared by the BCJ encoders and decoders: bytes wait in `hold` until a whole window of 16 is
 there, are converted in place, and wait in `pending` for room in the caller's output.
 */
module Bcj {
  import opened Words
  import X86Spec
  import X86
  import X86Meaning
  import RiscVSpec
  import RiscV

  const MAX_INSN := 16

  datatype Arch = X86Arch | RiscVArch

  /** The final bytes and the closing history of a scan; RISC-V keeps no history. */
  function Scan(arch: Arch, s: seq<Byte>, h: X86Spec.History, pc: int, encode: bool): (r: X86Spec.Scanned)
    ensures |r.out| <= |s|
  {
    if arch.X86Arch? then X86Spec.Scan(s, h, pc, encode)
    else X86Spec.Scanned(RiscVSpec.Scan(s, pc, encode), h)
  }

  /** The one-shot filter from address `start`: what one scan makes final, then the raw tail. */
  function Filter(arch: Arch, s: seq<Byte>, start: int, encode: bool): (r: seq<Byte>)
    ensures |r| == |s|
  {
    var out := Scan(arch, s, X86Spec.FRESH, start, encode).out;
    out + s[|out|..]
  }

  /** Decoding what was encoded, and encoding what was decoded, from the same aligned address is the identity. */
  lemma FilterInverse(arch: Arch, s: seq<Byte>, start: int, encode: bool)
    requires arch.RiscVArch? ==> start % 2 == 0
    ensures Filter(arch, Filter(arch, s, start, encode), start, !encode) == s
  {
    FilterExact(arch, s, start, encode);
  }

  /** The x86 filter converts exactly the marked branches, each to the address it goes to, or back. */
  lemma X86Means(s: seq<Byte>, start: int, encode: bool) returns (marks: set<int>)
    ensures X86Meaning.Marks(s, marks)
    ensures X86Meaning.Relocated(s, Filter(X86Arch, s, start, encode), start, encode, marks)
  {
    hide X86Spec.Scan, X86Meaning.Marks, X86Meaning.Relocated;
    marks := X86Meaning.FilterMeans(s, start, encode);
  }

  /** Which inputs come back: all through x86, and through RISC-V all but those with a `JAL` from an odd address. */
  lemma FilterExact(arch: Arch, s: seq<Byte>, start: int, encode: bool)
    ensures Filter(arch, Filter(arch, s, start, encode), start, !encode) == s
      <==> arch.X86Arch? || start % 2 == 0 || !RiscVSpec.ReachesJal(s)
  {
    hide X86Spec.Scan, RiscVSpec.Scan, RiscVSpec.ReachesJal;
    if arch.X86Arch? {
      X86Spec.FilterInverse(s, X86Spec.FRESH, start, encode);
    } else {
      RiscVSpec.FilterExact(s, start, encode);
    }
  }

  /** The promise for every input: unconditional for x86, and for RISC-V exactly at even addresses. */
  lemma InverseExactly(arch: Arch, start: int, encode: bool)
    ensures (forall s :: Filter(arch, Filter(arch, s, start, encode), start, !encode) == s)
      <==> arch.X86Arch? || start % 2 == 0
  {
    hide Filter, RiscVSpec.ReachesJal;
    var jal: seq<Byte> := [0xEF, 0, 0, 0, 0, 0, 0, 0];
    FilterExact(arch, jal, start, encode);
    RiscVSpec.JalReached(jal);
    if arch.X86Arch? || start % 2 == 0 {
      forall s ensures Filter(arch, Filter(arch, s, start, encode), start, !encode) == s {
        FilterExact(arch, s, start, encode);
      }
    }
  }

  lemma ScanAppend(arch: Arch, s: seq<Byte>, t: seq<Byte>, h: X86Spec.History, pc: int, encode: bool)
    ensures var r := Scan(arch, s, h, pc, encode);
      Scan(arch, s + t, h, pc, encode) ==
      X86Spec.Prepend(r.out, Scan(arch, s[|r.out|..] + t, r.recent, pc + |r.out|, encode))
  {
    hide X86Spec.Scan, RiscVSpec.Scan;
    if arch.X86Arch? {
      X86Spec.ScanAppend(s, t, h, pc, encode);
    } else {
      RiscVSpec.ScanAppend(s, t, pc, encode);
    }
  }

  /** A full window always makes progress, and what is left is shorter than an instruction. */
  lemma ScanLeft(arch: Arch, s: seq<Byte>, h: X86Spec.History, pc: int, encode: bool)
    ensures |s| - |Scan(arch, s, h, pc, encode).out| < 8
    ensures Scan(arch, s, h, pc, encode).out == [] ==> |s| < 8
  {
  }

  /** `done` is final for `s` and every continuation of it; the scan goes on from there with history `cur`. */
  ghost predicate Reached(arch: Arch, s: seq<Byte>, start: int, encode: bool, done: seq<Byte>, cur: X86Spec.History) {
    && |done| <= |s|
    && X86Spec.Agrees(cur, s[|done|..])
    && Scan(arch, s, X86Spec.FRESH, start, encode)
       == X86Spec.Prepend(done, Scan(arch, s[|done|..], cur, start + |done|, encode))
  }

  lemma ReachedStart(arch: Arch, start: int, encode: bool)
    ensures Reached(arch, [], start, encode, [], X86Spec.FRESH)
  {
  }

  lemma AgreesMore(h: X86Spec.History, s: seq<Byte>, t: seq<Byte>)
    requires X86Spec.Agrees(h, s)
    ensures X86Spec.Agrees(h, s + t)
  {
  }

  /** More input does not disturb what has been reached. */
  lemma ReachedFeed(arch: Arch, s: seq<Byte>, t: seq<Byte>, start: int, encode: bool, done: seq<Byte>,
                    cur: X86Spec.History)
    requires Reached(arch, s, start, encode, done, cur)
    ensures Reached(arch, s + t, start, encode, done, cur)
  {
    hide Scan, X86Spec.Agrees, X86Spec.Prepend;
    var hold := s[|done|..];
    var r := Scan(arch, hold, cur, start + |done|, encode);
    var all := Scan(arch, s, X86Spec.FRESH, start, encode);
    PrependParts(done, r);
    ScanAppend(arch, s, t, X86Spec.FRESH, start, encode);
    ScanAppend(arch, hold, t, cur, start + |done|, encode);
    TailTail(s, |done|, |r.out|);
    TailConcat(s, t, |done|);
    AgreesMore(cur, hold, t);
    X86Spec.PrependPrepend(done, r.out, Scan(arch, s[|all.out|..] + t, r.recent, start + |all.out|, encode));
  }

  lemma PrependParts(b: seq<Byte>, r: X86Spec.Scanned)
    ensures X86Spec.Prepend(b, r).out == b + r.out && X86Spec.Prepend(b, r).recent == r.recent
  {
  }

  /** Converting the held bytes advances what has been reached. */
  lemma ReachedConvert(arch: Arch, s: seq<Byte>, start: int, encode: bool, done: seq<Byte>, cur: X86Spec.History)
    requires Reached(arch, s, start, encode, done, cur)
    ensures var r := Scan(arch, s[|done|..], cur, start + |done|, encode);
      Reached(arch, s, start, encode, done + r.out, r.recent)
  {
    hide Scan, X86Spec.Agrees, X86Spec.Prepend;
    var hold := s[|done|..];
    var r := Scan(arch, hold, cur, start + |done|, encode);
    ConvertAgrees(arch, s, start, encode, done, cur);
    ScanAppend(arch, hold, [], cur, start + |done|, encode);
    TailTail(s, |done|, |r.out|);
    assert hold + [] == hold && hold[|r.out|..] + [] == hold[|r.out|..];
    X86Spec.PrependPrepend(done, r.out, Scan(arch, hold[|r.out|..], r.recent, start + |done| + |r.out|, encode));
  }

  lemma ConvertAgrees(arch: Arch, s: seq<Byte>, start: int, encode: bool, done: seq<Byte>, cur: X86Spec.History)
    requires Reached(arch, s, start, encode, done, cur)
    ensures var r := Scan(arch, s[|done|..], cur, start + |done|, encode);
      X86Spec.Agrees(r.recent, s[|done|..][|r.out|..])
  {
    if arch.X86Arch? {
      X86Spec.ScanAgrees(s[|done|..], cur, start + |done|, encode);
    }
  }

  lemma ReachedEnd(arch: Arch, s: seq<Byte>, start: int, encode: bool, done: seq<Byte>, cur: X86Spec.History)
    requires Reached(arch, s, start, encode, done, cur)
    ensures var out := Scan(arch, s[|done|..], cur, start + |done|, encode).out;
      Filter(arch, s, start, encode) == done + out + s[|done|..][|out|..]
  {
  }

  /** What converting `hold` makes ready, and what it leaves. */
  lemma ReadyFacts(arch: Arch, s: seq<Byte>, start: int, encode: bool, done: seq<Byte>, cur: X86Spec.History,
                   hold: seq<Byte>)
    requires Reached(arch, s, start, encode, done, cur) && |s| == |done| + |hold| && hold == s[|done|..]
    ensures var r := Scan(arch, hold, cur, start + |done|, encode);
      var left := hold[|r.out|..];
      && Reached(arch, s, start, encode, done + r.out, r.recent)
      && |left| < 8 && left == s[|done + r.out|..]
      && Filter(arch, s, start, encode) == (done + r.out) + left
  {
    hide Filter, Reached, Scan, X86Spec.Agrees;
    var r := Scan(arch, hold, cur, start + |done|, encode);
    ReachedConvert(arch, s, start, encode, done, cur);
    ReachedEnd(arch, s, start, encode, done, cur);
    ScanLeft(arch, hold, cur, start + |done|, encode);
    TailTail(s, |done|, |r.out|);
  }

  /** One filter stream. */
  class Stream {
    const arch: Arch
    const encode: bool
    const startIp: Word
    const state: X86.X86State
    var hold: seq<Byte>     // accepted, not yet converted
    var pending: seq<Byte>  // converted, from `head` on not yet handed out
    var head: nat
    var ip: Word            // the address of `hold[0]`
    ghost var fed: seq<Byte>         // everything accepted since the start
    ghost var emitted: seq<Byte>     // everything handed out since the start
    ghost var recent: X86Spec.History  // what `state` says about the bytes before `ip`
    ghost var flushed: bool          // the raw tail has been let go

    /** What has left `hold`. */
    ghost function Done(): seq<Byte>
      requires head <= |pending|
      reads this
    {
      emitted + pending[head..]
    }

    /** The bytes that have left `hold` are exactly what the one-shot filter makes of the bytes accepted. */
    ghost predicate Faithful()
      requires head <= |pending|
      reads this
    {
      && |fed| == |Done()| + |hold|
      && hold == fed[|Done()|..]
      && (if flushed then hold == [] && Done() == Filter(arch, fed, startIp, encode)
          else Reached(arch, fed, startIp, encode, Done(), recent))
    }

    ghost predicate Valid()
      reads this, state
    {
      && head <= |pending|
      && |hold| <= MAX_INSN
      && state.Valid()
      && Faithful()
      && ip == Wrap(startIp + |Done()|)
      && (arch.X86Arch? ==> recent == state.Recent(ip))
    }

    constructor (arch: Arch, encode: bool, startOffset: Word)
      ensures Valid() && fresh(state)
      ensures this.arch == arch && this.encode == encode && startIp == startOffset
      ensures fed == [] && emitted == [] && hold == [] && !flushed
    {
      this.arch, this.encode, startIp := arch, encode, startOffset;
      state := new X86.X86State();
      hold, pending, head, ip := [], [], 0, startOffset;
      fed, emitted, recent, flushed := [], [], X86Spec.FRESH, false;
      new;
      ReachedStart(arch, startIp, encode);
    }

    /** Hand out what fits, from `written` on. */
    method DrainPending(output: array<Byte>, written: nat) returns (n: nat)
      requires Valid() && written <= output.Length
      modifies this`pending, this`head, this`emitted, output
      ensures Valid() && Done() == old(Done())
      ensures n == Min(|old(pending)| - old(head), output.Length - written)
      ensures head <= |pending| && (head < |pending| ==> written + n == output.Length)
      ensures pending[head..] == old(pending)[old(head) + n..]
      ensures output[..written] == old(output[..written])
      ensures emitted == old(emitted) + output[written..written + n]
    {
      hide Filter, Reached, X86Spec.Agrees;
      n := Min(|pending| - head, output.Length - written);
      var bytes := pending[head..head + n];
      Store(output, written, bytes);
      assert output[written..written + n] == bytes;
      assert pending[head..] == bytes + pending[head + n..];
      emitted, head := emitted + bytes, head + n;
      if head == |pending| {
        pending, head := [], 0;
      }
      assert Done() == old(Done());
    }
  
    /** Convert a window of held bytes in place; the first `n` bytes are final. */
    method ConvertWindow(window: array<Byte>) returns (n: nat)
      requires Valid() && !flushed && window[..] == hold
      modifies window, state
      ensures var r := Scan(arch, old(window[..]), recent, startIp + |Done()|, encode);
        && n == |r.out|
        && window[..] == r.out + old(window[..])[n..]
        && state.Valid()
        && (arch.X86Arch? ==> r.recent == state.Recent(Wrap(ip + n)))
    {
      hide Filter, Reached, X86Spec.Scan, RiscVSpec.Scan, X86.X86State.Recent;
      WrapAdd(ip, 0);
      assert X86Spec.Agrees(recent, hold) by { HoldAgrees(arch, fed, startIp, encode, Done(), recent); }
      if arch.X86Arch? {
        X86.ScanWrap(hold, recent, startIp + |Done()|, ip, encode);
        n := X86.Convert(window, ip, encode, state);
        X86.RecentWrap(state, ip + n);
      } else {
        RiscV.ScanWrap(hold, startIp + |Done()|, ip, encode);
        n := RiscV.Convert(window, ip, encode);
      }
    }

    /** Convert the held bytes in a scratch window; what is final comes back. */
    method ConvertCopy() returns (ready: seq<Byte>)
      requires Valid() && !flushed
      modifies state
      ensures var r := Scan(arch, hold, recent, startIp + |Done()|, encode);
        && ready == r.out
        && state.Valid()
        && (arch.X86Arch? ==> r.recent == state.Recent(Wrap(ip + |ready|)))
    {
      hide Filter, Reached, Scan, X86Spec.Agrees, X86.X86State.Recent;
      var scratch := new Byte[|hold|](k requires 0 <= k < |hold| reads this => hold[k]);
      assert scratch[..] == hold;
      var processed := ConvertWindow(scratch);
      ready := scratch[..processed];
      ghost var r := Scan(arch, hold, recent, startIp + |Done()|, encode);
      HeadTail(r.out, hold[processed..]);
    }

    /** Move everything that is final out of `hold`.  If the stream ended here, `hold` would be its raw tail. */
    method ConvertReady()
      requires Valid() && hold != []
      modifies this`hold, this`pending, this`ip, this`recent, state
      ensures Valid() && head == old(head) && old(pending) <= pending
      ensures |hold| < 8 && |hold| <= |old(hold)|
      ensures Filter(arch, fed, startIp, encode) == Done() + hold
    {
      hide Filter, Reached, Scan, X86Spec.Agrees, X86.X86State.Recent;
      ghost var done, cur := Done(), recent;
      ReadyFacts(arch, fed, startIp, encode, done, cur, hold);
      var ready := ConvertCopy();
      WrapAdd(startIp + |done|, |ready|);
      DoneMore(emitted, pending, head, ready);
      recent := Scan(arch, hold, cur, startIp + |done|, encode).recent;
      pending, hold, ip := pending + ready, hold[|ready|..], Wrap(ip + |ready|);
      assert Done() == done + ready;
    }

    /** At the end of the stream the partial trailing instruction goes out unchanged. */
    method ReleaseTail()
      requires Valid()
      requires Filter(arch, fed, startIp, encode) == Done() + hold
      modifies this`hold, this`pending, this`ip, this`recent, this`flushed
      ensures Valid() && head == old(head) && old(pending) <= pending
      ensures flushed
    {
      hide Filter, Reached, Scan, X86Spec.Agrees, X86.X86State.Recent;
      ghost var done := Done();
      WrapAdd(startIp + |done|, |hold|);
      if hold != [] {
        pending, ip := pending + hold, Wrap(ip + |hold|);
      }
      assert Done() == done + hold;
      hold, flushed := [], true;
      recent := if arch.X86Arch? then state.Recent(ip) else recent;
    }

    /** Convert what is final; on the final call (`flushTail`) let the rest go as well. */
    method ConvertHold(flushTail: bool)
      requires Valid() && (flushed ==> flushTail)
      modifies this`hold, this`pending, this`ip, this`recent, this`flushed, state
      ensures Valid() && head == old(head) && old(pending) <= pending
      ensures flushed == flushTail
      ensures |hold| < 8 && |hold| <= |old(hold)|
    {
      if hold != [] {
        ConvertReady();
      } else {
        NothingHeld();
      }
      if flushTail {
        ReleaseTail();
      }
    }

    /** Accept one raw byte. */
    method Hold(b: Byte)
      requires Valid() && !flushed && |hold| < MAX_INSN
      modifies this`hold, this`fed
      ensures Valid()
      ensures hold == old(hold) + [b] && fed == old(fed) + [b]
    {
      hide Filter, Reached, X86Spec.Agrees;
      ReachedFeed(arch, fed, [b], startIp, encode, Done(), recent);
      hold := hold + [b];
      fed := fed + [b];
    }

    /** Fill `hold` up to a whole window. */
    method Refill(input: seq<Byte>, consumed: nat) returns (next: nat)
      requires Valid() && consumed <= |input|
      requires flushed ==> consumed == |input|
      modifies this`hold, this`fed
      ensures Valid()
      ensures consumed <= next <= |input|
      ensures fed == old(fed) + input[consumed..next]
      ensures |hold| == |old(hold)| + next - consumed
      ensures |hold| == MAX_INSN || next == |input|
    {
      Accounted();
      hide Filter, Reached, X86Spec.Agrees, Stream.Faithful, Stream.Valid, Stream.Done;
      next := consumed;
      while |hold| < MAX_INSN && next < |input|
        invariant Valid() && consumed <= next <= |input|
        invariant fed == old(fed) + input[consumed..next]
        invariant |hold| == |old(hold)| + next - consumed && |hold| <= MAX_INSN
        decreases |input| - next
      {
        ConcatAssoc(old(fed), input[consumed..next], [input[next]]);
        Hold(input[next]);
        SliceNext(input, consumed, next);
        next := next + 1;
      }
    }

    /** Forget the stream and start again at the same address. */
    method Reset()
      requires state.Valid()
      modifies this, state
      ensures Valid()
      ensures fed == [] && emitted == [] && hold == [] && !flushed
    {
      hold, pending, head, ip := [], [], 0, startIp;
      state.Clear();
      fed, emitted, recent, flushed := [], [], X86Spec.FRESH, false;
      ReachedStart(arch, startIp, encode);
    }

    /** Drain if there is something to drain and room for it. */
    method DrainMore(output: array<Byte>, written: nat, ghost before: seq<Byte>) returns (total: nat)
      requires Valid() && written <= output.Length && emitted == before + output[..written]
      modifies this`pending, this`head, this`emitted, output
      ensures Valid()
      ensures written <= total <= output.Length && emitted == before + output[..total]
      ensures head < |pending| ==> total == output.Length
    {
      Accounted();
      hide Filter, Reached, X86Spec.Agrees, Stream.Faithful, Stream.Valid, Stream.Done;
      total := written;
      if head < |pending| && written < output.Length {
        ghost var was := output[..];
        var n := DrainPending(output, written);
        total := written + n;
        AppendOut(before, was, output[..], written, total);
      }
    }

    /** Convert once the window is full, or whatever is there on the final call. */
    method ConvertWhenReady(finalCall: bool)
      requires Valid() && (flushed ==> finalCall)
      modifies this`hold, this`pending, this`ip, this`recent, this`flushed, state
      ensures Valid() && flushed == finalCall && head <= |pending|
      ensures |hold| < MAX_INSN && (finalCall ==> hold == [])
    {
      Accounted();
      if finalCall {
        ConvertHold(true);
      } else if |hold| == MAX_INSN {
        ConvertHold(false);
      }
      Accounted();
    }

    /**
     One streaming call, in either direction: drain, refill, convert, drain, until neither input nor output can be
     used further.  What has been handed out is always the one-shot filter's output so far, however the caller
     slices input and output.
     */
    method Step(input: seq<Byte>, output: array<Byte>, finalCall: bool)
      returns (consumed: nat, written: nat, done: bool)
      requires Valid() && |hold| < MAX_INSN
      requires finalCall ==> input == []
      requires !finalCall ==> !flushed
      modifies this, state, output
      ensures Valid() && |hold| < MAX_INSN && (flushed ==> finalCall)
      ensures consumed <= |input| && fed == old(fed) + input[..consumed]
      ensures written <= output.Length && emitted == old(emitted) + output[..written]
      ensures |fed| == |emitted| + (|pending| - head) + |hold|
      ensures done ==> emitted == Filter(arch, fed, startIp, encode)
      ensures written < output.Length ==> consumed == |input| && (finalCall ==> done)
    {
      hide Filter, Reached, X86Spec.Agrees, Stream.Faithful, Stream.Valid;
      consumed, written := 0, 0;
      Accounted();
      while true
        invariant Valid() && |hold| < MAX_INSN && (flushed ==> finalCall) && head <= |pending|
        invariant consumed <= |input| && fed == old(fed) + input[..consumed]
        invariant written <= output.Length && emitted == old(emitted) + output[..written]
        decreases |input| - consumed
      {
        written := DrainMore(output, written, old(emitted));
        Accounted();
        if written == output.Length && output.Length != 0 {
          if head < |pending| {
            break;
          }
        }

        var before := consumed;
        consumed := Refill(input, consumed);
        SliceJoin(input, 0, before, consumed);
        var refilled := consumed > before;

        ConvertWhenReady(finalCall);
        written := DrainMore(output, written, old(emitted));
        Accounted();

        var pendingLeft := head < |pending|;
        var canMakePending := |hold| == MAX_INSN || (finalCall && hold != []);
        if !pendingLeft && !refilled && !canMakePending {
          break;
        }
        if written == output.Length && output.Length != 0 && pendingLeft {
          break;
        }
        if output.Length == 0 && !refilled {
          break;
        }
      }
      done := finalCall && hold == [] && head >= |pending|;
    }

    /** Conservation: every byte accepted is handed out, pending or held. */
    lemma Accounted()
      requires Valid()
      ensures head <= |pending| && |hold| <= MAX_INSN
      ensures |fed| == |emitted| + (|pending| - head) + |hold|
      ensures flushed ==> hold == [] && emitted + pending[head..] == Filter(arch, fed, startIp, encode)
    {
    }

    /** With nothing held, what is done is what the filter makes of everything accepted. */
    lemma NothingHeld()
      requires Valid() && hold == []
      ensures Filter(arch, fed, startIp, encode) == Done() + hold
    {
      hide Reached, Filter;
      if !flushed {
        ReachedEnd(arch, fed, startIp, encode, Done(), recent);
        assert Done() + [] + [] == Done();
      }
    }
  }

  lemma HoldAgrees(arch: Arch, s: seq<Byte>, start: int, encode: bool, done: seq<Byte>, cur: X86Spec.History)
    requires Reached(arch, s, start, encode, done, cur)
    ensures |done| <= |s| && X86Spec.Agrees(cur, s[|done|..])
  {
  }

  lemma SliceNext<T>(s: seq<T>, i: nat, j: nat)
    requires i <= j < |s|
    ensures s[i..j] + [s[j]] == s[i..j + 1]
  {
  }

  lemma SliceJoin<T>(s: seq<T>, i: nat, j: nat, k: nat)
    requires i <= j <= k <= |s|
    ensures s[i..j] + s[j..k] == s[i..k]
  {
  }

  lemma DoneMore(emitted: seq<Byte>, pending: seq<Byte>, head: nat, more: seq<Byte>)
    requires head <= |pending|
    ensures emitted + (pending + more)[head..] == (emitted + pending[head..]) + more
  {
  }

  lemma AppendOut(before: seq<Byte>, was: seq<Byte>, now: seq<Byte>, i: nat, j: nat)
    requires |was| == |now| && i <= j <= |now| && was[..i] == now[..i]
    ensures (before + was[..i]) + now[i..j] == before + now[..j]
  {
    assert now[..j] == now[..i] + now[i..j];
  }

  function Min(a: int, b: int): int {
    if a <= b then a else b
  }
}
