/** The Crunch encoder is greedy: no two codes mean the same, and it sends one only when no code means more. */
module CrunchGreedy {
  import opened Words
  import opened BitStrings
  import opened CrunchSpec
  import opened CrunchBits

  ghost predicate Distinct(d: Dict) {
    forall i, j :: 0 <= i < j < |d| ==> d[i] != d[j]
  }

  /** Different codes mean different texts. */
  lemma {:induction false} TextOnce(d: Dict, v: nat, w: nat)
    requires WellFormed(d) && Distinct(d) && Known(d, v) && Known(d, w) && Text(d, v) == Text(d, w)
    ensures v == w
    decreases v
  {
    if v >= CLEAR && w >= CLEAR {
      var x, y := d[v - FIRST], d[w - FIRST];
      var s, t := Text(d, x.prefix), Text(d, y.prefix);
      assert (s + [x.suffix])[..|s|] == s && (t + [y.suffix])[..|t|] == t;
      assert (s + [x.suffix])[|s|] == x.suffix && (t + [y.suffix])[|t|] == y.suffix;
      TextOnce(d, x.prefix, y.prefix);
    }
  }

  lemma {:induction false} AllDistinct(text: seq<Byte>)
    ensures Distinct(Encoded(text).dict)
  {
    hide Distinct, EncStep;
    if text == [] {
      Nothing();
    } else {
      var n := |text| - 1;
      AllDistinct(text[..n]);
      StepDistinct(Encoded(text[..n]), text[n]);
    }
  }

  lemma Nothing()
    ensures Distinct([])
  {
  }

  lemma StepDistinct(e: Enc, b: Byte)
    requires Distinct(e.dict)
    ensures Distinct(EncStep(e, b).dict)
  {
  }

  /** Some code means `t`. */
  ghost predicate Has(d: Dict, t: seq<Byte>)
    requires WellFormed(d)
  {
    exists c: nat :: Known(d, c) && Text(d, c) == t
  }

  /**
   After any text, one byte more: if some code means the current match and that byte, the match goes on with it and
   nothing is sent.  If none does, the code of the match is sent and becomes an entry with the byte, and when that is
   entry 4095, the last of twelve bits, the clear code follows and the dictionary is empty again.
   */
  lemma Greedy(text: seq<Byte>, b: Byte)
    requires text != []
    ensures var e, next := Encoded(text), Encoded(text + [b]);
      && EncSound(e) && EncSound(next) && e.current.Some? && next.current.Some?
      && var longer := Text(e.dict, e.current.value) + [b];
         if Has(e.dict, longer) then
           && next.sent == e.sent && next.dict == e.dict
           && Text(next.dict, next.current.value) == longer
         else
           && next.current == Some(b)
           && var full := |e.dict| == 4095 - 257;
              && next.sent == e.sent + [Sent(e.current.value, e.width)] + (if full then [Sent(256, 12)] else [])
              && next.dict == if full then [] else e.dict + [Entry(e.current.value, b)]
  {
    hide Accepted, Lockstep, EncStep, Encoded, Find, Pow2, Text, Has, Distinct;
    var d := Follows(text);
    var d' := Follows(text + [b]);
    var e, next := Encoded(text), Encoded(text + [b]);
    assert (text + [b])[..|text|] == text;
    EncodedNext(text + [b]);
    InStep(e, d, text);
    InStep(next, d', text + [b]);
    AllDistinct(text);
    var w := e.current.value;
    if Find(e.dict, Entry(w, b)).Some? {
      var c := Find(e.dict, Entry(w, b)).value;
      Longer(e.dict, w, b, c);
      Goes(e, b, c);
    } else {
      None(e.dict, w, b);
      MissCases(e, b);
      Pow2Known();
      assert e.sent + [Sent(w, e.width)] + [] == e.sent + [Sent(w, e.width)];
      if |e.dict| == 4095 - 257 {
        FullWidth(e);
      }
    }
  }

  lemma InStep(e: Enc, d: Dec, text: seq<Byte>)
    requires Lockstep(e, d, text) && text != []
    ensures EncSound(e) && e.current.Some?
  {
  }

  lemma Goes(e: Enc, b: Byte, c: nat)
    requires e.current.Some? && Find(e.dict, Entry(e.current.value, b)) == Some(c)
    ensures EncStep(e, b) == e.(current := Some(c))
  {
  }

  lemma Longer(d: Dict, w: nat, b: Byte, c: nat)
    requires WellFormed(d) && Known(d, w) && Find(d, Entry(w, b)) == Some(c)
    ensures Known(d, c) && Text(d, c) == Text(d, w) + [b] && Has(d, Text(d, w) + [b])
  {
    assert d[c - FIRST] == Entry(w, b);
    assert Text(d, c) == Text(d, w) + [b];
  }

  lemma None(d: Dict, w: nat, b: Byte)
    requires WellFormed(d) && Distinct(d) && Known(d, w) && Find(d, Entry(w, b)).None?
    ensures !Has(d, Text(d, w) + [b])
  {
    hide Distinct;
    if c: nat :| Known(d, c) && Text(d, c) == Text(d, w) + [b] {
      var e := d[c - FIRST];
      var s, t := Text(d, e.prefix), Text(d, w);
      assert (s + [e.suffix])[..|s|] == s && (t + [b])[..|t|] == t;
      assert (s + [e.suffix])[|s|] == e.suffix && (t + [b])[|t|] == b;
      TextOnce(d, e.prefix, w);
      assert false;
    }
  }

  /** Six letters 'a': a literal, then twice the entry that the code before has just begun. */
  lemma SixCodes()
    ensures Codes([97, 97, 97, 97, 97, 97]) == [Sent(97, 9), Sent(257, 9), Sent(258, 9)]
  {
    var a: Byte := 97;
    SixSteps(a);
    hide Encoded;
    assert [97, 97, 97, 97, 97, 97] == Letters(a, 6);
  }

  function Letters(b: Byte, n: nat): (s: seq<Byte>)
    ensures |s| == n && forall k :: 0 <= k < n ==> s[k] == b
  {
    if n == 0 then [] else Letters(b, n - 1) + [b]
  }

  lemma SixSteps(a: Byte)
    ensures Encoded(Letters(a, 6)) ==
      Enc([Entry(a, a), Entry(257, a)], 9, Some(258), [Sent(a, 9), Sent(257, 9)])
  {
    FindLetters(a);
    hide EncStep, Find, Encoded;
    var one, two := [Entry(a, a)], [Entry(a, a), Entry(257, a)];
    var first, second := [Sent(a, 9)], [Sent(a, 9), Sent(257, 9)];
    assert [] + [Entry(a, a)] == one && one + [Entry(257, a)] == two;
    assert [] + [Sent(a, 9)] == first && first + [Sent(257, 9)] == second;
    StartsWith(a);
    After([], a, Enc([], 9, Some(a), []));
    Sends(Enc([], 9, Some(a), []), a);
    After(Letters(a, 1), a, Enc(one, 9, Some(a), first));
    Goes(Enc(one, 9, Some(a), first), a, 257);
    After(Letters(a, 2), a, Enc(one, 9, Some(257), first));
    Sends(Enc(one, 9, Some(257), first), a);
    After(Letters(a, 3), a, Enc(two, 9, Some(a), second));
    Goes(Enc(two, 9, Some(a), second), a, 257);
    After(Letters(a, 4), a, Enc(two, 9, Some(257), second));
    Goes(Enc(two, 9, Some(257), second), a, 258);
    After(Letters(a, 5), a, Enc(two, 9, Some(258), second));
  }

  lemma FindLetters(a: Byte)
    ensures var one, two := [Entry(a, a)], [Entry(a, a), Entry(257, a)];
      && Find([], Entry(a, a)).None? && Find(one, Entry(a, a)) == Some(257) && Find(one, Entry(257, a)).None?
      && Find(two, Entry(a, a)) == Some(257) && Find(two, Entry(257, a)) == Some(258)
  {
    var one, two := [Entry(a, a)], [Entry(a, a), Entry(257, a)];
    assert two[..1] == one && one[..0] == [];
  }

  lemma StartsWith(b: Byte)
    ensures EncStep(Encoded([]), b) == Enc([], 9, Some(b), [])
  {
  }

  lemma Sends(e: Enc, b: Byte)
    requires e.width == 9 && |e.dict| < 200 && e.current.Some? && Find(e.dict, Entry(e.current.value, b)).None?
    ensures EncStep(e, b) ==
      Enc(e.dict + [Entry(e.current.value, b)], 9, Some(b), e.sent + [Sent(e.current.value, 9)])
  {
    hide Pow2;
    Pow2Known();
  }

  lemma After(text: seq<Byte>, b: Byte, e: Enc)
    requires EncStep(Encoded(text), b) == e
    ensures Encoded(text + [b]) == e
  {
    assert (text + [b])[..|text|] == text;
  }

  /** Behind the width limit the codes follow each other, lowest bits first. */
  lemma SixLetters()
    ensures IsPayload([12, 0x61, 0x02, 0x0A, 0x04], [97, 97, 97, 97, 97, 97])
  {
    SixCodes();
    hide Codes, Bits, Pow2;
    var whole := 0x040A_0261;
    ThreeCodes(whole);
    FourBytes(whole);
    Pow2Known();
    Pow2Bytes();
    Pow2Add(24, 3);
    Pow2Eight();
    BitsJoin(whole, 27, 0, 5);
    assert [12, 0x61, 0x02, 0x0A, 0x04][1..] == [0x61, 0x02, 0x0A, 0x04];
  }

  lemma ThreeCodes(whole: nat)
    requires whole == 97 + 0x200 * (257 + 0x200 * 258)
    ensures Stream([Sent(97, 9), Sent(257, 9), Sent(258, 9)]) == Bits(whole, 27)
  {
    hide Bits, Pow2;
    var a, b, c := Sent(97, 9), Sent(257, 9), Sent(258, 9);
    StreamMore([], a);
    StreamMore([a], b);
    StreamMore([a, b], c);
    assert [a, b, c] == [a, b] + [c] && [a, b] == [a] + [b] && [a] == [] + [a];
    Pow2Known();
    BitsJoin(257, 9, 258, 9);
    BitsJoin(97, 9, 257 + 0x200 * 258, 18);
    ConcatAssoc(Bits(97, 9), Bits(257, 9), Bits(258, 9));
    assert [] + Bits(97, 9) == Bits(97, 9);
  }

  lemma FourBytes(whole: nat)
    requires whole == 0x61 + 0x100 * (0x02 + 0x100 * (0x0A + 0x100 * 0x04))
    ensures ByteBits([0x61, 0x02, 0x0A, 0x04]) == Bits(whole, 32)
  {
    hide Bits, Pow2;
    var b: seq<Byte> := [0x61, 0x02, 0x0A, 0x04];
    ByteBitsMore([], b[0]);
    ByteBitsMore([b[0]], b[1]);
    ByteBitsMore([b[0], b[1]], b[2]);
    ByteBitsMore([b[0], b[1], b[2]], b[3]);
    assert b == [b[0], b[1], b[2]] + [b[3]] && [b[0], b[1], b[2]] == [b[0], b[1]] + [b[2]];
    assert [b[0], b[1]] == [b[0]] + [b[1]] && [b[0]] == [] + [b[0]];
    Pow2Bytes();
    BitsJoin(0x0A, 8, 0x04, 8);
    BitsJoin(0x02, 8, 0x0A + 0x100 * 0x04, 16);
    BitsJoin(0x61, 8, 0x02 + 0x100 * (0x0A + 0x100 * 0x04), 24);
    ConcatAssoc(Bits(0x02, 8), Bits(0x0A, 8), Bits(0x04, 8));
    ConcatAssoc(Bits(0x61, 8), Bits(0x02, 8), Bits(0x0A, 8) + Bits(0x04, 8));
    ConcatAssoc(Bits(0x61, 8) + Bits(0x02, 8), Bits(0x0A, 8), Bits(0x04, 8));
    assert [] + Bits(0x61, 8) == Bits(0x61, 8);
  }

  lemma Pow2Eight()
    ensures Pow2(3) == 8
  {
    assert Pow2(1) == 2;
  }

  /** An almost full dictionary is written in twelve bits. */
  lemma FullWidth(e: Enc)
    requires EncSound(e) && |e.dict| == 4095 - 257
    ensures e.width == 12
  {
    hide Pow2;
    Pow2Known();
    if e.width <= 11 {
      Pow2Grows(e.width, 11);
    }
  }
}
