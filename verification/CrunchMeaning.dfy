/**
 What Crunch codes mean, for every width limit and every encoder: the k-th code since the last clear and the first byte
 of the next one's text make entry 257 + k, as long as there is room, and a code is written in the least width that
 holds the next free code.  Nothing here looks at how encoder or decoder keep their dictionaries.
 */
module CrunchMeaning {
  import opened Words
  import opened CrunchSpec
  import opened CrunchBits

  // ----- codes between two clears

  /** Each code is a literal or an entry made by the codes before it, the one just being made included. */
  predicate Lawful(codes: seq<nat>, maxBits: nat) {
    forall j :: 0 <= j < |codes| ==> LawfulAt(codes[j], j, maxBits)
  }

  predicate LawfulAt(code: nat, j: nat, maxBits: nat) {
    code < 256 || (257 <= code <= 256 + j && code < Pow2(maxBits))
  }

  predicate Stands(codes: seq<nat>, c: nat) {
    c < 256 || 257 <= c < 256 + |codes|
  }

  /** The first byte of a code's text. */
  function First(codes: seq<nat>, maxBits: nat, c: nat): Byte
    requires Lawful(codes, maxBits) && (c < 256 || 257 <= c < 257 + |codes|)
    decreases c
  {
    if c < 256 then c
    else assert LawfulAt(codes[c - 257], c - 257, maxBits); First(codes, maxBits, codes[c - 257])
  }

  /** The text of a code. */
  function Meaning(codes: seq<nat>, maxBits: nat, c: nat): (t: seq<Byte>)
    requires Lawful(codes, maxBits) && Stands(codes, c)
    ensures t != [] && t[0] == First(codes, maxBits, c)
    decreases c
  {
    if c < 256 then [c]
    else
      assert LawfulAt(codes[c - 257], c - 257, maxBits) && LawfulAt(codes[c - 256], c - 256, maxBits);
      Meaning(codes, maxBits, codes[c - 257]) + [First(codes, maxBits, codes[c - 256])]
  }

  /** The text of the first `n` codes. */
  function Plain(codes: seq<nat>, maxBits: nat, n: nat): seq<Byte>
    requires Lawful(codes, maxBits) && n <= |codes|
  {
    if n == 0 then []
    else
      assert LawfulAt(codes[n - 1], n - 1, maxBits);
      Plain(codes, maxBits, n - 1) + Meaning(codes, maxBits, codes[n - 1])
  }

  // ----- widths

  /** The least width, from nine up to the limit, that holds the next free code when `j` codes have been read. */
  predicate GoodWidth(j: nat, w: nat, maxBits: nat) {
    && 9 <= w <= maxBits
    && (w > 9 ==> Pow2(w - 1) <= 256 + j)
    && (w < maxBits ==> 256 + j < Pow2(w))
  }

  function Least(j: nat, w: nat, maxBits: nat): (r: nat)
    requires 9 <= w <= maxBits && (w > 9 ==> Pow2(w - 1) <= 256 + j)
    ensures GoodWidth(j, r, maxBits)
    decreases maxBits - w
  {
    if w == maxBits || 256 + j < Pow2(w) then w else Least(j, w + 1, maxBits)
  }

  function Width(j: nat, maxBits: nat): (w: nat)
    requires 9 <= maxBits
    ensures GoodWidth(j, w, maxBits)
  {
    Least(j, 9, maxBits)
  }

  lemma OneWidth(j: nat, v: nat, w: nat, maxBits: nat)
    requires GoodWidth(j, v, maxBits) && GoodWidth(j, w, maxBits)
    ensures v == w
  {
    hide Pow2;
    if v < w {
      Pow2Grows(v, w - 1);
    } else if w < v {
      Pow2Grows(w, v - 1);
    }
  }

  // ----- the decoder

  /** The k-th entry: the k-th code, and the first byte of the next one's text. */
  function EntryAt(codes: seq<nat>, maxBits: nat, k: nat): Entry
    requires Lawful(codes, maxBits) && k + 1 < |codes|
  {
    assert LawfulAt(codes[k + 1], k + 1, maxBits);
    Entry(codes[k], First(codes, maxBits, codes[k + 1]))
  }

  /** The first `n` entries. */
  function Made(codes: seq<nat>, maxBits: nat, n: nat): (d: Dict)
    requires Lawful(codes, maxBits) && (n == 0 || n < |codes|)
    ensures |d| == n
    ensures forall k :: 0 <= k < n ==> d[k] == EntryAt(codes, maxBits, k)
  {
    if n == 0 then [] else Made(codes, maxBits, n - 1) + [EntryAt(codes, maxBits, n - 1)]
  }

  /** How many entries `j` codes make. */
  function Count(j: nat, maxBits: nat): nat {
    if j == 0 then 0
    else if 257 + (j - 1) <= Pow2(maxBits) then j - 1
    else if Pow2(maxBits) >= 257 then Pow2(maxBits) - 257
    else 0
  }

  /** The decoder has read the first `j` codes since it started over with `before` put out. */
  ghost predicate HasRead(d: Dec, codes: seq<nat>, maxBits: nat, j: nat, before: seq<Byte>) {
    && 9 <= maxBits && Lawful(codes, maxBits) && j <= |codes|
    && d.dict == Made(codes, maxBits, Count(j, maxBits))
    && d.prev == (if j == 0 then None else Some(codes[j - 1]))
    && d.out == before + Plain(codes, maxBits, j)
    && GoodWidth(if j == 0 then 0 else j - 1, d.width, maxBits)
  }

  lemma {:induction false} MadeWellFormed(codes: seq<nat>, maxBits: nat, n: nat)
    requires Lawful(codes, maxBits) && (n == 0 || n < |codes|)
    ensures WellFormed(Made(codes, maxBits, n))
  {
    hide Pow2;
    var d := Made(codes, maxBits, n);
    forall k | 0 <= k < n ensures Known(d, d[k].prefix) && d[k].prefix < FIRST + k {
      assert d[k] == EntryAt(codes, maxBits, k);
      assert LawfulAt(codes[k], k, maxBits);
    }
  }

  /** Entries stand for what the codes mean. */
  lemma {:induction false} TextIs(codes: seq<nat>, maxBits: nat, n: nat, c: nat)
    requires Lawful(codes, maxBits) && (n == 0 || n < |codes|)
    requires WellFormed(Made(codes, maxBits, n)) && Known(Made(codes, maxBits, n), c)
    ensures Stands(codes, c) && Text(Made(codes, maxBits, n), c) == Meaning(codes, maxBits, c)
    decreases c
  {
    hide Pow2;
    if c >= 256 {
      var d, k := Made(codes, maxBits, n), c - 257;
      assert d[k] == EntryAt(codes, maxBits, k);
      TextIs(codes, maxBits, n, codes[k]);
    }
  }

  /** The width check finds the least width. */
  lemma WidthFound(d: Dec, codes: seq<nat>, maxBits: nat, j: nat, before: seq<Byte>)
    requires HasRead(d, codes, maxBits, j, before)
    ensures GoodWidth(j, Bump(d, maxBits).width, maxBits)
  {
    hide Pow2, Made, Plain;
    Pow2Known();
    Pow2Next(d.width);
    Pow2Next(d.width - 1);
    Pow2Grows(9, maxBits);
    if d.width < maxBits {
      Pow2Grows(d.width, maxBits);
      Pow2Grows(d.width + 1, maxBits);
    }
    Pow2Grows(9, d.width);
  }

  /** A code is accepted exactly if it is lawful where it stands, and then means what it should. */
  lemma Reads(d: Dec, codes: seq<nat>, maxBits: nat, j: nat, before: seq<Byte>)
    requires HasRead(d, codes, maxBits, j, before) && j < |codes|
    ensures Sound(d, maxBits)
    ensures Accept(d, Sent(codes[j], Width(j, maxBits)), maxBits).Some?
    ensures HasRead(Accept(d, Sent(codes[j], Width(j, maxBits)), maxBits).value, codes, maxBits, j + 1, before)
  {
    hide Pow2, Made, Plain, Text, Meaning, First;
    SoundRead(d, codes, maxBits, j, before);
    WidthFound(d, codes, maxBits, j, before);
    BumpSound(d, maxBits);
    var b := Bump(d, maxBits);
    OneWidth(j, b.width, Width(j, maxBits), maxBits);
    CodeFits(codes, maxBits, j, b.width);
    StepSound(b, maxBits, codes[j]);
    Steps(b, codes, maxBits, j, before);
  }

  lemma CodeFits(codes: seq<nat>, maxBits: nat, j: nat, w: nat)
    requires Lawful(codes, maxBits) && j < |codes| && GoodWidth(j, w, maxBits)
    ensures codes[j] < Pow2(w) && codes[j] != CLEAR
  {
    hide Pow2;
    assert LawfulAt(codes[j], j, maxBits);
    Pow2Known();
    Pow2Grows(9, w);
  }

  lemma SoundRead(d: Dec, codes: seq<nat>, maxBits: nat, j: nat, before: seq<Byte>)
    requires HasRead(d, codes, maxBits, j, before)
    ensures Sound(d, maxBits)
  {
    hide Pow2, Made, Plain;
    MadeWellFormed(codes, maxBits, Count(j, maxBits));
    Pow2Known();
    Pow2Grows(9, maxBits);
    Pow2Grows(9, d.width);
    Pow2Grows(d.width, maxBits);
    if j > 0 {
      assert LawfulAt(codes[j - 1], j - 1, maxBits);
    }
  }

  lemma Steps(b: Dec, codes: seq<nat>, maxBits: nat, j: nat, before: seq<Byte>)
    requires 9 <= maxBits && Lawful(codes, maxBits) && j < |codes| && GoodWidth(j, b.width, maxBits)
    requires b.dict == Made(codes, maxBits, Count(j, maxBits)) && b.out == before + Plain(codes, maxBits, j)
    requires b.prev == if j == 0 then None else Some(codes[j - 1])
    requires Sound(b, maxBits) && codes[j] < Pow2(maxBits) && codes[j] != CLEAR
    ensures DecStep(b, maxBits, codes[j]).Some?
    ensures HasRead(DecStep(b, maxBits, codes[j]).value, codes, maxBits, j + 1, before)
  {
    hide Pow2, Text, Meaning, First, Plain;
    var c, n := codes[j], Count(j, maxBits);
    assert LawfulAt(c, j, maxBits);
    Pow2Known();
    Pow2Grows(9, maxBits);
    PlainMore(codes, maxBits, j);
    ConcatAssoc(before, Plain(codes, maxBits, j), Meaning(codes, maxBits, c));
    if j == 0 {
      LiteralMeans(codes, maxBits, c);
    } else {
      if c == Free(b.dict) {
        TextIs(codes, maxBits, n, codes[j - 1]);
        NewestMeans(codes, maxBits, j);
      } else {
        TextIs(codes, maxBits, n, c);
      }
      if Free(b.dict) < Pow2(maxBits) {
        MadeMore(codes, maxBits, j);
      }
    }
  }

  lemma PlainMore(codes: seq<nat>, maxBits: nat, j: nat)
    requires Lawful(codes, maxBits) && j < |codes|
    ensures Stands(codes, codes[j])
    ensures Plain(codes, maxBits, j + 1) == Plain(codes, maxBits, j) + Meaning(codes, maxBits, codes[j])
  {
    assert LawfulAt(codes[j], j, maxBits);
  }

  lemma LiteralMeans(codes: seq<nat>, maxBits: nat, c: nat)
    requires Lawful(codes, maxBits) && c < 256
    ensures Meaning(codes, maxBits, c) == [c]
  {
  }

  /** A code for the entry it completes itself. */
  lemma NewestMeans(codes: seq<nat>, maxBits: nat, j: nat)
    requires Lawful(codes, maxBits) && 0 < j < |codes| && codes[j] == 256 + j && Stands(codes, codes[j - 1])
    ensures Stands(codes, codes[j])
    ensures Meaning(codes, maxBits, codes[j]) == Again(Meaning(codes, maxBits, codes[j - 1]))
  {
    assert LawfulAt(codes[j - 1], j - 1, maxBits) && LawfulAt(codes[j], j, maxBits);
  }

  lemma MadeMore(codes: seq<nat>, maxBits: nat, j: nat)
    requires Lawful(codes, maxBits) && 0 < j < |codes| && Stands(codes, codes[j])
    ensures Made(codes, maxBits, j) ==
      Made(codes, maxBits, j - 1) + [Entry(codes[j - 1], Meaning(codes, maxBits, codes[j])[0])]
  {
    assert LawfulAt(codes[j], j, maxBits);
  }

  // ----- whole streams

  /** The codes of one segment with their widths. */
  function Written(codes: seq<nat>, maxBits: nat, n: nat): seq<Sent>
    requires 9 <= maxBits && n <= |codes|
  {
    if n == 0 then [] else Written(codes, maxBits, n - 1) + [Sent(codes[n - 1], Width(n - 1, maxBits))]
  }

  /** Segments with a clear in between. */
  function Stretch(segments: seq<seq<nat>>, maxBits: nat): seq<Sent>
    requires 9 <= maxBits && segments != []
  {
    var n := |segments| - 1;
    var last := segments[n];
    if n == 0 then Written(last, maxBits, |last|)
    else
      (Stretch(segments[..n], maxBits) + [Sent(256, Width(|segments[n - 1]|, maxBits))])
      + Written(last, maxBits, |last|)
  }

  ghost predicate AllLawful(segments: seq<seq<nat>>, maxBits: nat) {
    forall i :: 0 <= i < |segments| ==> Lawful(segments[i], maxBits)
  }

  function AllPlain(segments: seq<seq<nat>>, maxBits: nat): seq<Byte>
    requires forall i :: 0 <= i < |segments| ==> Lawful(segments[i], maxBits)
  {
    if segments == [] then []
    else
      var n := |segments| - 1;
      AllPlain(segments[..n], maxBits) + Plain(segments[n], maxBits, |segments[n]|)
  }

  lemma {:induction false} SegmentRead(sent: seq<Sent>, d: Dec, codes: seq<nat>, maxBits: nat, n: nat, before: seq<Byte>)
    returns (e: Dec)
    requires 9 <= maxBits && Accepted(sent, maxBits) == Some(d) && HasRead(d, codes, maxBits, 0, before) && n <= |codes|
    ensures Accepted(sent + Written(codes, maxBits, n), maxBits) == Some(e) && HasRead(e, codes, maxBits, n, before)
    decreases n
  {
    hide Accepted, Accept, HasRead, Width, Sound;
    if n == 0 {
      assert sent + [] == sent;
      e := d;
    } else {
      e := SegmentRead(sent, d, codes, maxBits, n - 1, before);
      var so := sent + Written(codes, maxBits, n - 1);
      Reads(e, codes, maxBits, n - 1, before);
      AcceptedMore(so, Sent(codes[n - 1], Width(n - 1, maxBits)), maxBits);
      ConcatAssoc(sent, Written(codes, maxBits, n - 1), [Sent(codes[n - 1], Width(n - 1, maxBits))]);
      e := Accept(e, Sent(codes[n - 1], Width(n - 1, maxBits)), maxBits).value;
    }
  }

  /** A clear starts over. */
  lemma Cleared(d: Dec, codes: seq<nat>, maxBits: nat, before: seq<Byte>, next: seq<nat>)
    requires HasRead(d, codes, maxBits, |codes|, before) && Lawful(next, maxBits)
    ensures Sound(d, maxBits)
    ensures var r := Accept(d, Sent(256, Width(|codes|, maxBits)), maxBits);
      r.Some? && HasRead(r.value, next, maxBits, 0, d.out)
  {
    hide Pow2, Text;
    SoundRead(d, codes, maxBits, |codes|, before);
    WidthFound(d, codes, maxBits, |codes|, before);
    BumpSound(d, maxBits);
    var b := Bump(d, maxBits);
    OneWidth(|codes|, b.width, Width(|codes|, maxBits), maxBits);
    Pow2Known();
    Pow2Grows(9, b.width);
    Pow2Grows(b.width, maxBits);
    StepSound(b, maxBits, 256);
    assert d.out + [] == d.out;
  }

  lemma Starts(codes: seq<nat>, maxBits: nat)
    requires 9 <= maxBits && Lawful(codes, maxBits)
    ensures Accepted([], maxBits) == Some(NEW_DEC) && HasRead(NEW_DEC, codes, maxBits, 0, [])
  {
    Pow2Known();
  }

  lemma {:induction false} StretchRead(segments: seq<seq<nat>>, maxBits: nat) returns (d: Dec, before: seq<Byte>)
    requires 9 <= maxBits && segments != [] && AllLawful(segments, maxBits)
    ensures Accepted(Stretch(segments, maxBits), maxBits) == Some(d)
    ensures var last := segments[|segments| - 1]; HasRead(d, last, maxBits, |last|, before)
    ensures d.out == AllPlain(segments, maxBits)
    decreases |segments|
  {
    hide Accepted, Accept, HasRead, Width, Sound, Lawful, Plain;
    var n := |segments| - 1;
    var last := segments[n];
    if n == 0 {
      Starts(last, maxBits);
      d := SegmentRead([], NEW_DEC, last, maxBits, |last|, []);
      assert [] + Written(last, maxBits, |last|) == Written(last, maxBits, |last|);
      before := [];
      PutOut(d, last, maxBits, before);
      assert segments[..0] == [] && AllPlain([], maxBits) == [];
    } else {
      d, before := StretchRead(segments[..n], maxBits);
      var so, clear := Stretch(segments[..n], maxBits), Sent(256, Width(|segments[n - 1]|, maxBits));
      assert segments[..n][n - 1] == segments[n - 1];
      Cleared(d, segments[n - 1], maxBits, before, last);
      AcceptedMore(so, clear, maxBits);
      before := d.out;
      d := Accept(d, clear, maxBits).value;
      d := SegmentRead(so + [clear], d, last, maxBits, |last|, before);
      PutOut(d, last, maxBits, before);
    }
  }

  lemma PutOut(d: Dec, codes: seq<nat>, maxBits: nat, before: seq<Byte>)
    requires HasRead(d, codes, maxBits, |codes|, before)
    ensures Lawful(codes, maxBits) && d.out == before + Plain(codes, maxBits, |codes|)
  {
  }

  /**
   The bits of any lawful codes, whatever encoder chose them, whatever the limit, cleared at any time or never: the
   decoder puts out what they mean.
   */
  lemma AnyEncoder(segments: seq<seq<nat>>, maxBits: nat)
    requires 9 <= maxBits && segments != [] && AllLawful(segments, maxBits)
    ensures Sound(NEW_DEC, maxBits)
    ensures var h := Run(NEW_DEC, maxBits, Stream(Stretch(segments, maxBits)));
      h.Short? && h.d.out == AllPlain(segments, maxBits) && h.left == []
  {
    hide Run, Sound, Accepted, HasRead, Stretch, Stream, AllPlain, Lawful, AllLawful;
    var d, before := StretchRead(segments, maxBits);
    RunAccepted(Stretch(segments, maxBits), maxBits);
    BumpOut(d, maxBits);
  }

  lemma BumpOut(d: Dec, maxBits: nat)
    ensures Bump(d, maxBits).out == d.out
  {
  }

  /** A code that is not lawful where it stands is refused. */
  lemma Unlawful(d: Dec, codes: seq<nat>, maxBits: nat, j: nat, before: seq<Byte>, code: nat)
    requires HasRead(d, codes, maxBits, j, before) && code != 256 && !LawfulAt(code, j, maxBits)
    requires code < Pow2(Width(j, maxBits))
    ensures Sound(d, maxBits) && Accept(d, Sent(code, Width(j, maxBits)), maxBits).None?
  {
    hide Pow2, Text, Made, Plain;
    SoundRead(d, codes, maxBits, j, before);
    WidthFound(d, codes, maxBits, j, before);
    OneWidth(j, Bump(d, maxBits).width, Width(j, maxBits), maxBits);
    BumpSound(d, maxBits);
    Pow2Grows(Width(j, maxBits), maxBits);
    Pow2Known();
    Pow2Grows(9, maxBits);
  }
}
