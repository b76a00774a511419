/**
 The Crunch variant of LZW on values: what the encoder's codes mean, at which width each is written, and why the
 decoder, whose dictionary lags by one entry, reads every code at that width and gets the text back.
 */
module CrunchSpec {
  import opened Words

  const INIT_BITS := 9
  const ENC_MAX_BITS := 12
  const CLEAR := 256
  const FIRST := 257

  // ----- dictionary

  /** Code FIRST + i stands for the text of `prefix` followed by `suffix`. */
  datatype Entry = Entry(prefix: nat, suffix: Byte)

  type Dict = seq<Entry>

  /** The next free code. */
  function Free(d: Dict): nat { FIRST + |d| }

  /** A code that stands for a text: a literal or an entry. */
  predicate Known(d: Dict, code: nat) {
    code < CLEAR || FIRST <= code < Free(d)
  }

  ghost predicate WellFormed(d: Dict) {
    forall i :: 0 <= i < |d| ==> Known(d, d[i].prefix) && d[i].prefix < FIRST + i
  }

  function Text(d: Dict, code: nat): (t: seq<Byte>)
    requires WellFormed(d) && Known(d, code)
    ensures t != []
    decreases code
  {
    if code < CLEAR then [code]
    else Text(d, d[code - FIRST].prefix) + [d[code - FIRST].suffix]
  }

  /** The code of an entry, if there is one. */
  function Find(d: Dict, e: Entry): (r: Option<nat>)
    ensures r.Some? ==> FIRST <= r.value < Free(d) && d[r.value - FIRST] == e
    ensures r.None? ==> e !in d
  {
    if d == [] then None
    else if d[|d| - 1] == e then Some(FIRST + |d| - 1)
    else Find(d[..|d| - 1], e)
  }

  /** New entries leave the meaning of older codes alone. */
  lemma {:induction false} TextKept(d: Dict, e: Entry, code: nat)
    requires WellFormed(d) && Known(d, code) && Known(d, e.prefix)
    ensures WellFormed(d + [e]) && Text(d + [e], code) == Text(d, code)
    decreases code
  {
    AddEntry(d, e);
    if code >= CLEAR {
      TextKept(d, e, d[code - FIRST].prefix);
    }
  }

  lemma AddEntry(d: Dict, e: Entry)
    requires WellFormed(d) && Known(d, e.prefix)
    ensures WellFormed(d + [e])
  {
  }

  lemma TextOfNew(d: Dict, e: Entry)
    requires WellFormed(d) && Known(d, e.prefix)
    ensures WellFormed(d + [e]) && Text(d + [e], Free(d)) == Text(d, e.prefix) + [e.suffix]
  {
    AddEntry(d, e);
    TextKept(d, e, e.prefix);
  }

  // ----- encoder

  /** A code together with the number of bits it is written in. */
  datatype Sent = Sent(code: nat, width: nat)

  datatype Enc = Enc(dict: Dict, width: nat, current: Option<nat>, sent: seq<Sent>)

  const NEW_ENC := Enc([], INIT_BITS, None, [])

  /** Widen once the next code no longer fits, or clear a full dictionary. */
  function Widened(e: Enc): Enc {
    if e.width < ENC_MAX_BITS then
      if Free(e.dict) > Pow2(e.width) then e.(width := e.width + 1) else e
    else if Free(e.dict) >= Pow2(ENC_MAX_BITS) then
      Enc([], INIT_BITS, e.current, e.sent + [Sent(CLEAR, e.width)])
    else e
  }

  function EncStep(e: Enc, b: Byte): Enc {
    match e.current
    case None => e.(current := Some(b))
    case Some(w) =>
      match Find(e.dict, Entry(w, b))
      case Some(code) => e.(current := Some(code))
      case None =>
        var out := e.(sent := e.sent + [Sent(w, e.width)]);
        var grown := if Free(e.dict) < Pow2(ENC_MAX_BITS) then out.(dict := e.dict + [Entry(w, b)]) else out;
        Widened(grown).(current := Some(b))
  }

  function Encoded(text: seq<Byte>): Enc {
    if text == [] then NEW_ENC else EncStep(Encoded(text[..|text| - 1]), text[|text| - 1])
  }

  /** All codes of a text. */
  function Codes(text: seq<Byte>): seq<Sent> {
    var e := Encoded(text);
    e.sent + match e.current case None => [] case Some(w) => [Sent(w, e.width)]
  }

  // ----- decoder

  datatype Dec = Dec(dict: Dict, width: nat, prev: Option<nat>, out: seq<Byte>)

  const NEW_DEC := Dec([], INIT_BITS, None, [])

  /** The width check before each code. */
  function Bump(d: Dec, maxBits: nat): Dec {
    if d.width < maxBits && Free(d.dict) >= Pow2(d.width) then d.(width := d.width + 1) else d
  }

  /** What every step keeps: a sound dictionary within its limit and a width that is never too small by more than one. */
  ghost predicate Sound(d: Dec, maxBits: nat) {
    && WellFormed(d.dict) && (d.prev.Some? ==> Known(d.dict, d.prev.value))
    && INIT_BITS <= d.width <= maxBits
    && Free(d.dict) <= Pow2(d.width)
  }

  /** One code of at most `maxBits` bits; `None` is corruption. */
  function DecStep(d: Dec, maxBits: nat, code: nat): (r: Option<Dec>)
    requires WellFormed(d.dict) && (d.prev.Some? ==> Known(d.dict, d.prev.value))
    requires code < Pow2(maxBits)
  {
    if code == CLEAR then Some(Dec([], INIT_BITS, None, d.out))
    else if d.prev.None? then
      if code < CLEAR then Some(d.(out := d.out + [code], prev := Some(code))) else None
    else if code > Free(d.dict) then None
    else
      var text := if code == Free(d.dict) then Again(Text(d.dict, d.prev.value)) else Text(d.dict, code);
      Some(Dec(if Free(d.dict) < Pow2(maxBits) then d.dict + [Entry(d.prev.value, text[0])] else d.dict,
               d.width, Some(code), d.out + text))
  }

  /** A text followed by its own first byte. */
  function Again(t: seq<Byte>): (r: seq<Byte>)
    requires t != []
    ensures r != []
  {
    t + [t[0]]
  }

  lemma Pow2Known()
    ensures Pow2(9) == 512 && Pow2(10) == 1024 && Pow2(11) == 2048 && Pow2(12) == 4096
  {
    Pow2Bytes();
  }

  /** After the check the next code fits, and checking twice is checking once. */
  lemma BumpSound(d: Dec, maxBits: nat)
    requires Sound(d, maxBits)
    ensures Sound(Bump(d, maxBits), maxBits) && Bump(Bump(d, maxBits), maxBits) == Bump(d, maxBits)
    ensures Bump(d, maxBits).width < maxBits ==> Free(d.dict) < Pow2(Bump(d, maxBits).width)
  {
    hide Pow2;
    Pow2Grows(9, d.width);
    Pow2Known();
    assert Pow2(d.width + 1) == 2 * Pow2(d.width) by { Pow2Add(1, d.width); Pow2One(); }
  }

  lemma Pow2One()
    ensures Pow2(1) == 2
  {
  }

  /** Whatever code comes after the check, soundness is kept. */
  lemma StepSound(d: Dec, maxBits: nat, code: nat)
    requires Sound(d, maxBits) && code < Pow2(d.width)
    requires d.width < maxBits ==> Free(d.dict) < Pow2(d.width)
    ensures code < Pow2(maxBits)
    ensures DecStep(d, maxBits, code).Some? ==> Sound(DecStep(d, maxBits, code).value, maxBits)
  {
    hide Pow2, Text;
    Pow2Grows(d.width, maxBits);
    Pow2Known();
    var r := DecStep(d, maxBits, code);
    if r.Some? && code != CLEAR && d.prev.Some? && Free(d.dict) < Pow2(maxBits) {
      AddEntry(d.dict, r.value.dict[|d.dict|]);
    }
  }

  // ----- lockstep

  /** The encoder's dictionary is sound and never full between bytes, and its width holds every code. */
  ghost predicate EncSound(e: Enc) {
    && WellFormed(e.dict) && (e.current.Some? ==> Known(e.dict, e.current.value))
    && INIT_BITS <= e.width <= ENC_MAX_BITS
    && Free(e.dict) <= Pow2(e.width) && Free(e.dict) < Pow2(ENC_MAX_BITS)
  }

  /**
   The decoder has read what the encoder has sent.  It lacks exactly the encoder's newest entry, whose last byte is
   the first byte of the text the encoder is still matching, and it will next read at the encoder's width.
   */
  ghost predicate Lockstep(e: Enc, d: Dec, text: seq<Byte>) {
    && EncSound(e) && Sound(d, ENC_MAX_BITS)
    && match e.current
       case None => text == [] && e == NEW_ENC && d == NEW_DEC
       case Some(w) =>
         && text == d.out + Text(e.dict, w)
         && Bump(d, ENC_MAX_BITS).width == e.width
         && match d.prev
            case None => e.dict == [] && d.dict == [] && w < CLEAR
            case Some(p) => e.dict == d.dict + [Entry(p, Text(e.dict, w)[0])]
  }

  /** Reading the encoder's current code, known to the decoder or not, catches the decoder up. */
  lemma CatchUp(e: Enc, d: Dec, text: seq<Byte>)
    requires Lockstep(e, d, text) && e.current.Some?
    ensures var w, b := e.current.value, Bump(d, ENC_MAX_BITS);
      && w != CLEAR && w < Pow2(e.width) <= Pow2(ENC_MAX_BITS)
      && DecStep(b, ENC_MAX_BITS, w) == Some(Dec(e.dict, e.width, Some(w), text))
  {
    hide Pow2;
    var w, b := e.current.value, Bump(d, ENC_MAX_BITS);
    Pow2Grows(9, e.width);
    Pow2Grows(e.width, ENC_MAX_BITS);
    Pow2Known();
    if d.prev.Some? {
      var p := d.prev.value;
      var first := Entry(p, Text(e.dict, w)[0]);
      if w == Free(d.dict) {
        TextOfNew(d.dict, first);
        assert Text(e.dict, w) == Text(d.dict, p) + [first.suffix];
        assert first.suffix == Text(d.dict, p)[0];
      } else {
        TextKept(d.dict, first, w);
      }
    }
  }

  /** What a decoder makes of codes that arrive at the widths it expects. */
  ghost function Accepted(sent: seq<Sent>, maxBits: nat): (r: Option<Dec>)
    requires INIT_BITS <= maxBits
    ensures r.Some? ==> Sound(r.value, maxBits)
  {
    if sent == [] then SoundStart(maxBits); Some(NEW_DEC)
    else
      match Accepted(sent[..|sent| - 1], maxBits)
      case None => None
      case Some(d) => Accept(d, sent[|sent| - 1], maxBits)
  }

  ghost function Accept(d: Dec, s: Sent, maxBits: nat): (r: Option<Dec>)
    requires Sound(d, maxBits)
    ensures r.Some? ==> Sound(r.value, maxBits)
  {
    var b := Bump(d, maxBits);
    BumpSound(d, maxBits);
    if s.width != b.width || s.code >= Pow2(s.width) then None
    else
      StepSound(b, maxBits, s.code);
      DecStep(b, maxBits, s.code)
  }

  lemma SoundStart(maxBits: nat)
    requires INIT_BITS <= maxBits
    ensures Sound(NEW_DEC, maxBits)
  {
    Pow2Known();
  }

  lemma AcceptedMore(sent: seq<Sent>, s: Sent, maxBits: nat)
    requires INIT_BITS <= maxBits && Accepted(sent, maxBits).Some?
    ensures Accepted(sent + [s], maxBits) == Accept(Accepted(sent, maxBits).value, s, maxBits)
  {
    assert (sent + [s])[..|sent|] == sent;
  }

  /** Extending the match changes nothing for the decoder. */
  lemma MatchLonger(e: Enc, d: Dec, text: seq<Byte>, b: Byte)
    requires Lockstep(e, d, text) && e.current.Some? && Find(e.dict, Entry(e.current.value, b)).Some?
    ensures Lockstep(EncStep(e, b), d, text + [b])
  {
    hide Pow2;
    var w, code := e.current.value, Find(e.dict, Entry(e.current.value, b)).value;
    assert Text(e.dict, code) == Text(e.dict, w) + [b];
    assert d.out + (Text(e.dict, w) + [b]) == (d.out + Text(e.dict, w)) + [b];
  }

  /** The encoder's two ways of going on after a miss. */
  lemma MissCases(e: Enc, b: Byte)
    requires EncSound(e) && e.current.Some? && Find(e.dict, Entry(e.current.value, b)).None?
    ensures var w := e.current.value;
      var dict, sent := e.dict + [Entry(w, b)], e.sent + [Sent(w, e.width)];
      EncStep(e, b) ==
        if e.width == ENC_MAX_BITS && Free(dict) == Pow2(ENC_MAX_BITS) then
          Enc([], INIT_BITS, Some(b), sent + [Sent(CLEAR, e.width)])
        else Enc(dict, if Free(dict) > Pow2(e.width) then e.width + 1 else e.width, Some(b), sent)
  {
    hide Pow2;
  }

  lemma Grown(e: Enc, d: Dec, text: seq<Byte>, w: nat, b: Byte, e1: Enc)
    requires EncSound(e) && Known(e.dict, w)
    requires d == Dec(e.dict, e.width, Some(w), text)
    requires e1.dict == e.dict + [Entry(w, b)] && e1.current == Some(b)
    requires e1.width == if Free(e1.dict) > Pow2(e.width) then e.width + 1 else e.width
    requires e.width == ENC_MAX_BITS ==> Free(e1.dict) < Pow2(ENC_MAX_BITS)
    ensures Lockstep(e1, d, text + [b])
  {
    hide Pow2;
    AddEntry(e.dict, Entry(w, b));
    LiteralText(e1.dict, b);
    Pow2Known();
    Pow2Grows(9, e.width);
    Pow2Next(e.width);
    if e.width < ENC_MAX_BITS {
      Pow2Grows(e.width + 1, ENC_MAX_BITS);
    }
  }

  lemma Cleared(text: seq<Byte>, b: Byte, e1: Enc)
    requires e1.dict == [] && e1.width == INIT_BITS && e1.current == Some(b)
    ensures Lockstep(e1, Dec([], INIT_BITS, None, text), text + [b])
  {
    Pow2Known();
  }

  /** A miss sends the current code and adds an entry; the decoder is one entry behind again, or both start over. */
  lemma Miss(e: Enc, d: Dec, text: seq<Byte>, b: Byte) returns (d': Dec)
    requires Lockstep(e, d, text) && e.current.Some? && Find(e.dict, Entry(e.current.value, b)).None?
    requires Accepted(e.sent, ENC_MAX_BITS) == Some(d)
    ensures Lockstep(EncStep(e, b), d', text + [b]) && Accepted(EncStep(e, b).sent, ENC_MAX_BITS) == Some(d')
  {
    var w := e.current.value;
    CatchUp(e, d, text);
    MissCases(e, b);
    hide Pow2, Text, Lockstep, EncStep, Find;
    var caught := Dec(e.dict, e.width, Some(w), text);
    var sent := e.sent + [Sent(w, e.width)];
    AcceptedMore(e.sent, Sent(w, e.width), ENC_MAX_BITS);
    assert Accepted(sent, ENC_MAX_BITS) == Some(caught);
    var e1 := EncStep(e, b);
    if e1.dict != [] {
      d' := caught;
      Grown(e, caught, text, w, b, e1);
    } else {
      AcceptedMore(sent, Sent(CLEAR, e.width), ENC_MAX_BITS);
      Pow2Known();
      d' := Dec([], INIT_BITS, None, text);
      Cleared(text, b, e1);
    }
  }

  lemma LiteralText(d: Dict, b: Byte)
    requires WellFormed(d)
    ensures Text(d, b) == [b]
  {
  }

  /** However much of the text has gone in, the two are in lockstep. */
  lemma {:induction false} Follows(text: seq<Byte>) returns (d: Dec)
    ensures Accepted(Encoded(text).sent, ENC_MAX_BITS) == Some(d) && Lockstep(Encoded(text), d, text)
    decreases |text|
  {
    hide Accepted, Lockstep, EncStep, Encoded, Find, Pow2;
    if text == [] {
      NothingRead();
      d := NEW_DEC;
    } else {
      var n := |text| - 1;
      d := Follows(text[..n]);
      var e := Encoded(text[..n]);
      assert text[..n] + [text[n]] == text;
      EncodedNext(text);
      if e.current.None? {
        FirstByte(e, d, text[n]);
      } else if Find(e.dict, Entry(e.current.value, text[n])).Some? {
        MatchLonger(e, d, text[..n], text[n]);
        SentKept(e, text[n]);
      } else {
        d := Miss(e, d, text[..n], text[n]);
      }
    }
  }

  lemma NothingRead()
    ensures Accepted(Encoded([]).sent, ENC_MAX_BITS) == Some(NEW_DEC) && Lockstep(Encoded([]), NEW_DEC, [])
  {
    Pow2Known();
  }

  lemma EncodedNext(text: seq<Byte>)
    requires text != []
    ensures Encoded(text) == EncStep(Encoded(text[..|text| - 1]), text[|text| - 1])
  {
  }

  lemma SentKept(e: Enc, b: Byte)
    requires e.current.Some? && Find(e.dict, Entry(e.current.value, b)).Some?
    ensures EncStep(e, b).sent == e.sent
  {
  }

  lemma FirstByte(e: Enc, d: Dec, b: Byte)
    requires e.current.None?
    requires exists text :: Lockstep(e, d, text)
    ensures Lockstep(EncStep(e, b), d, [b]) && EncStep(e, b).sent == e.sent
    ensures forall text :: Lockstep(e, d, text) ==> text + [b] == [b]
  {
    Pow2Known();
  }

  /** The decoder reads every code at the width it was written in, and the text comes back. */
  lemma TokensRoundTrip(text: seq<Byte>)
    ensures Accepted(Codes(text), ENC_MAX_BITS).Some? && Accepted(Codes(text), ENC_MAX_BITS).value.out == text
  {
    hide Accepted, EncStep;
    var e := Encoded(text);
    var d := Follows(text);
    if e.current.Some? {
      CatchUp(e, d, text);
      AcceptedMore(e.sent, Sent(e.current.value, e.width), ENC_MAX_BITS);
    } else {
      assert e.sent + [] == e.sent;
    }
  }
}
