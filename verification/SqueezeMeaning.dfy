/** What the run-length stage of ARC Squeeze says and what its streams look like, byte by byte. */
module SqueezeMeaning {
  import opened Words
  import opened BitStrings
  import opened SqueezeTree
  import opened SqueezeSpec
  import Rle = SqueezeRle

  // ----- what coded bytes mean, whoever coded them

  /** A byte for itself, an escaped flag, or the last byte again up to `n` of it. */
  datatype Chunk = Plain(b: Byte) | Escaped | Again(n: nat)

  function Wire(c: Chunk): seq<Byte>
    requires c.Again? ==> 1 <= c.n <= 255
  {
    match c
    case Plain(b) => [b]
    case Escaped => [0x90, 0]
    case Again(n) => [0x90, n]
  }

  /** Flags are escaped, counts fit a byte, and there is something to repeat. */
  predicate Proper(chunks: seq<Chunk>) {
    forall k :: 0 <= k < |chunks| ==> ProperAt(chunks[k], k)
  }

  predicate ProperAt(c: Chunk, k: nat) {
    (c.Plain? ==> c.b != 0x90) && (c.Again? ==> 1 <= c.n <= 255 && k > 0)
  }

  function AllWire(chunks: seq<Chunk>): seq<Byte>
    requires Proper(chunks)
  {
    if chunks == [] then []
    else
      var k := |chunks| - 1;
      assert ProperAt(chunks[k], k);
      AllWire(chunks[..k]) + Wire(chunks[k])
  }

  /** What a chunk adds. */
  function More(said: seq<Byte>, c: Chunk): (s: seq<Byte>)
    requires c.Again? ==> said != [] && c.n >= 1
    ensures s != []
  {
    match c
    case Plain(b) => said + [b]
    case Escaped => said + [0x90]
    case Again(n) => said + Rle.Copies(said[|said| - 1], n - 1)
  }

  function Said(chunks: seq<Chunk>): (s: seq<Byte>)
    requires Proper(chunks)
    ensures chunks != [] ==> s != []
  {
    if chunks == [] then []
    else
      var k := |chunks| - 1;
      assert ProperAt(chunks[k], k);
      More(Said(chunks[..k]), chunks[k])
  }

  function After(s: seq<Byte>): Rle.State {
    if s == [] then Rle.FRESH else Rle.State(s[|s| - 1], true, false)
  }

  lemma ChunkFed(wire: seq<Byte>, said: seq<Byte>, c: Chunk)
    requires Rle.FeedAll(Rle.FRESH, wire) == Rle.Fed(After(said), said)
    requires (c.Plain? ==> c.b != 0x90) && (c.Again? ==> 1 <= c.n <= 255 && said != [])
    ensures Rle.FeedAll(Rle.FRESH, wire + Wire(c)) == Rle.Fed(After(More(said, c)), More(said, c))
  {
    hide Rle.FeedAll, Rle.Copies;
    FeedLast(Rle.FRESH, wire, Wire(c)[0]);
    if !c.Plain? {
      assert wire + Wire(c) == (wire + [0x90]) + [Wire(c)[1]];
      FeedLast(Rle.FRESH, wire + [0x90], Wire(c)[1]);
      assert said + [] == said;
    }
  }

  /** Any chunks are undone to what they say. */
  lemma {:induction false} AnyChunks(chunks: seq<Chunk>)
    requires Proper(chunks)
    ensures Rle.FeedAll(Rle.FRESH, AllWire(chunks)) == Rle.Fed(After(Said(chunks)), Said(chunks))
    decreases |chunks|
  {
    if chunks != [] {
      hide Rle.FeedAll, More, Wire;
      var k := |chunks| - 1;
      AnyChunks(chunks[..k]);
      assert ProperAt(chunks[k], k);
      ChunkFed(AllWire(chunks[..k]), Said(chunks[..k]), chunks[k]);
    }
  }

  // ----- what this encoder does with a run

  function Repeated(s: seq<Byte>, n: nat): seq<Byte> {
    if n == 0 then [] else s + Repeated(s, n - 1)
  }

  /** A run of `n` bytes: flags one by one; others in repeats of 255, and the rest as a repeat if three or more. */
  function RunCoded(b: Byte, n: nat): seq<Byte> {
    if b == 0x90 then Repeated([0x90, 0], n)
    else Repeated([b, 0x90, 255], n / 255) + if n % 255 >= 3 then [b, 0x90, n % 255] else Repeated([b], n % 255)
  }

  /** The run-length stage codes run by run, where runs are as long as they can be. */
  lemma {:induction false} RunByRun(b: Byte, n: nat, rest: seq<Byte>)
    requires rest == [] || rest[0] != b
    ensures Rle.Rle(Rle.Copies(b, n) + rest) == RunCoded(b, n) + Rle.Rle(rest)
    decreases n
  {
    hide Rle.Rle, Rle.Run, RunCoded, Repeated, Rle.Copies;
    var s := Rle.Copies(b, n) + rest;
    if n == 0 {
      assert s == rest;
      assert [] + Rle.Rle(rest) == Rle.Rle(rest);
      NothingCoded(b);
    } else {
      var run := if n < 255 then n else 255;
      FirstRun(b, n, rest, run);
      if b == 0x90 || n < 3 {
        RunByRun(b, n - 1, rest);
        OneOff(b, n);
        ConcatAssoc(if b == 0x90 then [0x90, 0] else [b], RunCoded(b, n - 1), Rle.Rle(rest));
      } else {
        RunByRun(b, n - run, rest);
        RunOff(b, n, run);
        ConcatAssoc([b, 0x90, run], RunCoded(b, n - run), Rle.Rle(rest));
      }
    }
  }

  /** What is coded first. */
  lemma FirstRun(b: Byte, n: nat, rest: seq<Byte>, run: nat)
    requires n >= 1 && (rest == [] || rest[0] != b) && run == if n < 255 then n else 255
    ensures Rle.Rle(Rle.Copies(b, n) + rest) ==
      if b == 0x90 || n < 3 then
        (if b == 0x90 then [0x90, 0] else [b]) + Rle.Rle(Rle.Copies(b, n - 1) + rest)
      else [b, 0x90, run as Byte] + Rle.Rle(Rle.Copies(b, n - run) + rest)
  {
    hide Rle.Rle, Rle.Run, Rle.Copies;
    var s := Rle.Copies(b, n) + rest;
    Rle.RleCases(s);
    Rle.RunUnique(s, b, 255, run);
    assert s[1..] == Rle.Copies(b, n - 1) + rest;
    assert s[run..] == Rle.Copies(b, n - run) + rest;
  }

  lemma NothingCoded(b: Byte)
    ensures RunCoded(b, 0) == []
  {
  }

  lemma OneOff(b: Byte, n: nat)
    requires n >= 1 && (b == 0x90 || n < 3)
    ensures RunCoded(b, n) == (if b == 0x90 then [0x90, 0] else [b]) + RunCoded(b, n - 1)
  {
  }

  lemma RunOff(b: Byte, n: nat, run: nat)
    requires b != 0x90 && n >= 3 && run == if n < 255 then n else 255
    ensures RunCoded(b, n) == [b, 0x90, run] + RunCoded(b, n - run)
  {
    if n >= 255 {
      assert n / 255 == 1 + (n - 255) / 255 && n % 255 == (n - 255) % 255;
      var tail := if n % 255 >= 3 then [b, 0x90, (n % 255) as Byte] else Repeated([b], n % 255);
      ConcatAssoc([b, 0x90, 255], Repeated([b, 0x90, 255], (n - 255) / 255), tail);
    }
  }

  // ----- a stream

  /**
   One node: 'A' to the left, the end marker to the right.  Count and references are two bytes each, the low one first,
   a leaf for symbol v is -v - 1, and the bits 0, 0, 1 come lowest first.
   */
  lemma TwoLetters()
    ensures Decoded([1, 0, 0xBE, 0xFF, 0xFF, 0xFE, 4]).Ended?
    ensures Decoded([1, 0, 0xBE, 0xFF, 0xFF, 0xFE, 4]).out == [0x41, 0x41]
  {
    var stream: seq<Byte> := [1, 0, 0xBE, 0xFF, 0xFF, 0xFE, 4];
    var table := [Pair(-66, -257)];
    assert ReadTable(stream[2..], 1) == table by {
      assert ReadTable(stream[2..], 0) == [];
    }
    assert stream[6..] == [] + [4];
    ByteBitsMore([], 4);
    FourBits();
    var rest := [false, false, false, false, false];
    assert ByteBits([4]) == [false] + ([false] + ([true] + rest));
    hide Run;
    RunBit(table, 0, Rle.FRESH, false, [false] + ([true] + rest));
    RunBit(table, 0, Rle.State(0x41, true, false), false, [true] + rest);
    RunBit(table, 0, Rle.State(0x41, true, false), true, rest);
  }

  lemma FourBits()
    ensures Bits(4, 8) == [false, false, true, false, false, false, false, false]
  {
    assert Bits(1, 6) == [true, false, false, false, false, false] by {
      assert Bits(0, 2) == [false, false];
      assert Bits(0, 5) == [false, false, false, false, false];
    }
  }
}
