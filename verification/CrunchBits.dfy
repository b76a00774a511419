/**
 The Crunch bit stream: codes written LSB-first at changing widths, packed into bytes, and the decoder's run over such
 bits, which does not depend on how they arrive.
 */
module CrunchBits {
  import opened Words
  import opened BitStrings
  import opened CrunchSpec

  // ----- streams

  function Stream(sent: seq<Sent>): seq<bool> {
    if sent == [] then [] else Stream(sent[..|sent| - 1]) + Bits(sent[|sent| - 1].code, sent[|sent| - 1].width)
  }

  lemma StreamMore(sent: seq<Sent>, s: Sent)
    ensures Stream(sent + [s]) == Stream(sent) + Bits(s.code, s.width)
  {
    assert (sent + [s])[..|sent|] == sent;
  }

  // ----- running the decoder

  /** Where the decoder stops: short of a whole code, or at a code that cannot be. */
  datatype Halt = Short(d: Dec, left: seq<bool>) | Corrupt

  ghost function Run(d: Dec, maxBits: nat, bits: seq<bool>): (h: Halt)
    requires Sound(d, maxBits)
    ensures h.Short? ==> Sound(h.d, maxBits)
    decreases |bits|
  {
    var b := Bump(d, maxBits);
    BumpSound(d, maxBits);
    if |bits| < b.width then Short(b, bits)
    else
      var code := Number(bits[..b.width]);
      BitsNumber(bits[..b.width]);
      StepSound(b, maxBits, code);
      match DecStep(b, maxBits, code)
      case None => Corrupt
      case Some(d') => Run(d', maxBits, bits[b.width..])
  }

  /** Bits may arrive in pieces: running on from where the decoder stopped is the same as starting over. */
  lemma {:induction false} RunAppend(d: Dec, maxBits: nat, bits: seq<bool>, more: seq<bool>)
    requires Sound(d, maxBits)
    ensures Run(d, maxBits, bits + more) ==
      match Run(d, maxBits, bits) case Corrupt => Corrupt case Short(e, left) => Run(e, maxBits, left + more)
    decreases |bits|
  {
    hide Number, Pow2, Bump;
    var b := Bump(d, maxBits);
    RunOne(d, maxBits, bits);
    RunOne(d, maxBits, bits + more);
    if |bits| >= b.width {
      var code := Number(bits[..b.width]);
      assert (bits + more)[..b.width] == bits[..b.width] && (bits + more)[b.width..] == bits[b.width..] + more;
      AtLeastOne(b, maxBits);
      match DecStep(b, maxBits, code)
      case None =>
      case Some(d') => RunAppend(d', maxBits, bits[b.width..], more);
    } else {
      RunOne(b, maxBits, bits + more);
    }
  }

  lemma AtLeastOne(d: Dec, maxBits: nat)
    requires Sound(d, maxBits)
    ensures 9 <= d.width <= maxBits
  {
  }

  /** One round of the decoder. */
  lemma RunOne(d: Dec, maxBits: nat, bits: seq<bool>)
    requires Sound(d, maxBits)
    ensures Sound(Bump(d, maxBits), maxBits) && Bump(Bump(d, maxBits), maxBits) == Bump(d, maxBits)
    ensures var b := Bump(d, maxBits);
      if |bits| < b.width then Run(d, maxBits, bits) == Short(b, bits)
      else
        var code := Number(bits[..b.width]);
        && code < Pow2(b.width) && code < Pow2(maxBits)
        && match DecStep(b, maxBits, code)
           case None => Run(d, maxBits, bits) == Corrupt
           case Some(d') => Sound(d', maxBits) && Run(d, maxBits, bits) == Run(d', maxBits, bits[b.width..])
  {
    hide Number, Pow2;
    BumpSound(d, maxBits);
    var b := Bump(d, maxBits);
    if |bits| >= b.width {
      BitsNumber(bits[..b.width]);
      StepSound(b, maxBits, Number(bits[..b.width]));
    }
  }

  /** A decoder only adds to what it has put out. */
  lemma {:induction false} RunKeeps(d: Dec, maxBits: nat, bits: seq<bool>)
    requires Sound(d, maxBits)
    ensures var h := Run(d, maxBits, bits); h.Short? ==> d.out <= h.d.out
    decreases |bits|
  {
    hide Number, Pow2, Run, Sound;
    RunOne(d, maxBits, bits);
    var b := Bump(d, maxBits);
    if |bits| >= b.width {
      AtLeastOne(b, maxBits);
      var next := Stepped(b, maxBits, Number(bits[..b.width]));
      if next.Some? {
        RunKeeps(next.value, maxBits, bits[b.width..]);
      }
    }
  }

  /** One code, and what it adds. */
  lemma Stepped(d: Dec, maxBits: nat, code: nat) returns (next: Option<Dec>)
    requires Sound(d, maxBits) && code < Pow2(maxBits)
    ensures next == DecStep(d, maxBits, code)
    ensures next.Some? ==> d.out <= next.value.out
  {
    next := DecStep(d, maxBits, code);
  }

  /** The bits of accepted codes take the decoder where the codes do. */
  lemma {:induction false} RunAccepted(sent: seq<Sent>, maxBits: nat)
    requires INIT_BITS <= maxBits && Accepted(sent, maxBits).Some?
    ensures Sound(NEW_DEC, maxBits)
    ensures Run(NEW_DEC, maxBits, Stream(sent)) == Short(Bump(Accepted(sent, maxBits).value, maxBits), [])
    decreases |sent|
  {
    SoundStart(maxBits);
    hide Pow2, Bits, Sound, Bump;
    RunOne(NEW_DEC, maxBits, []);
    if sent != [] {
      var n := |sent| - 1;
      var s, before := sent[n], sent[..n];
      RunAccepted(before, maxBits);
      var d := Accepted(before, maxBits).value;
      RunOne(d, maxBits, Bits(s.code, s.width));
      RunAppend(NEW_DEC, maxBits, Stream(before), Bits(s.code, s.width));
      assert [] + Bits(s.code, s.width) == Bits(s.code, s.width);
      var b := Bump(d, maxBits);
      RunOne(b, maxBits, Bits(s.code, s.width));
      NumberBits(s.code, s.width);
      assert Bits(s.code, s.width)[..s.width] == Bits(s.code, s.width) && Bits(s.code, s.width)[s.width..] == [];
      AtLeastOne(b, maxBits);
      RunOne(Accepted(sent, maxBits).value, maxBits, []);
      AtLeastOne(Bump(Accepted(sent, maxBits).value, maxBits), maxBits);
    } else {
      AtLeastOne(Bump(NEW_DEC, maxBits), maxBits);
    }
  }

  /** The payload of a text: the width limit, then all its codes. */
  ghost predicate IsPayload(payload: seq<Byte>, text: seq<Byte>) {
    payload != [] && payload[0] == ENC_MAX_BITS && Packs(payload[1..], Stream(Codes(text)))
  }

  /** Decoding a payload yields the text and leaves nothing but padding. */
  lemma RoundTrip(payload: seq<Byte>, text: seq<Byte>)
    requires IsPayload(payload, text)
    ensures Sound(NEW_DEC, payload[0])
    ensures var h := Run(NEW_DEC, payload[0], ByteBits(payload[1..]));
      h.Short? && h.d.out == text && |h.left| < 8
  {
    TokensRoundTrip(text);
    var sent := Codes(text);
    RunAccepted(sent, ENC_MAX_BITS);
    var d := Accepted(sent, ENC_MAX_BITS).value;
    hide Pow2, Bits, Sound, Stream, Run, Codes, Accepted;
    var k: nat :| k < 8 && ByteBits(payload[1..]) == Stream(sent) + Bits(0, k);
    RunAppend(NEW_DEC, ENC_MAX_BITS, Stream(sent), Bits(0, k));
    RunOne(d, ENC_MAX_BITS, []);
    var b := Bump(d, ENC_MAX_BITS);
    assert [] + Bits(0, k) == Bits(0, k);
    RunOne(b, ENC_MAX_BITS, Bits(0, k));
    AtLeastOne(b, ENC_MAX_BITS);
  }

  /** A text has one payload: nothing depends on how the encoder was fed or drained. */
  lemma OnePayload(a: seq<Byte>, b: seq<Byte>, text: seq<Byte>)
    requires IsPayload(a, text) && IsPayload(b, text)
    ensures a == b
  {
    PacksOnce(a[1..], b[1..], Stream(Codes(text)));
    assert a == [a[0]] + a[1..] && b == [b[0]] + b[1..];
  }
}
