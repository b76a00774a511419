/** The Crunch encoder as it runs: an open-addressing dictionary, a bit accumulator and a byte queue. */
module Crunch {
  import opened Words
  import opened BitStrings
  import opened CrunchSpec
  import opened CrunchBits

  const HASH_SIZE := 16384

  // ----- the encoder's dictionary

  /** The 24-bit key of an entry. */
  function Key(prefix: nat, suffix: Byte): nat { prefix * 256 + suffix }

  function Hash(key: nat): (h: nat)
    ensures h < HASH_SIZE
  {
    key * 2654435761 % 0x1_0000_0000 % HASH_SIZE
  }

  /** The `j`-th slot of the probe sequence from `h`. */
  function Slot(h: nat, j: nat): (s: nat)
    ensures s < HASH_SIZE
  {
    (h + j) % HASH_SIZE
  }

  function KeyOf(e: Entry): nat { Key(e.prefix, e.suffix) }

  lemma KeyUnique(e: Entry, f: Entry)
    ensures KeyOf(e) == KeyOf(f) ==> e == f
  {
    DivModUnique(KeyOf(e), 256, e.prefix, e.suffix);
    DivModUnique(KeyOf(f), 256, f.prefix, f.suffix);
  }

  ghost predicate Unique(d: Dict) {
    forall i, j :: 0 <= i < j < |d| ==> d[i] != d[j]
  }

  /** Entry `k` is found at probe `j`, and every slot before it is taken. */
  ghost predicate At(d: Dict, keys: seq<nat>, codes: seq<nat>, k: nat, j: nat) {
    && |keys| == |codes| == HASH_SIZE && k < |d|
    && codes[Slot(Hash(KeyOf(d[k])), j)] == FIRST + k
    && forall i :: 0 <= i < j ==> codes[Slot(Hash(KeyOf(d[k])), i)] != 0
  }

  ghost predicate Reachable(d: Dict, keys: seq<nat>, codes: seq<nat>, k: nat) {
    exists j: nat :: At(d, keys, codes, k, j)
  }

  /** The table holds exactly the entries of `d`. */
  ghost predicate Tabled(d: Dict, keys: seq<nat>, codes: seq<nat>, used: set<nat>) {
    && |keys| == |codes| == HASH_SIZE
    && Unique(d) && |used| == |d|
    && (forall i: nat :: i in used <==> i < HASH_SIZE && codes[i] != 0)
    && (forall i: nat :: i < HASH_SIZE && codes[i] != 0 ==>
      FIRST <= codes[i] < Free(d) && KeyOf(d[codes[i] - FIRST]) == keys[i])
    && (forall k: nat :: k < |d| ==> Reachable(d, keys, codes, k))
  }

  lemma NothingTabled(keys: seq<nat>, codes: seq<nat>)
    requires |keys| == |codes| == HASH_SIZE && forall i :: 0 <= i < HASH_SIZE ==> codes[i] == 0
    ensures Tabled([], keys, codes, {})
  {
  }

  /** A table that is not full has a free slot somewhere on every probe sequence. */
  lemma FreeSlot(d: Dict, keys: seq<nat>, codes: seq<nat>, used: set<nat>, h: nat) returns (j: nat)
    requires Tabled(d, keys, codes, used) && |d| < HASH_SIZE && h < HASH_SIZE
    ensures j < HASH_SIZE && codes[Slot(h, j)] == 0
  {
    var all := Below(HASH_SIZE);
    if all <= used {
      SubsetSize(all, used);
    }
    var i :| i in all && i !in used;
    j := if i >= h then i - h else i - h + HASH_SIZE;
  }

  /** A free slot ends the search: an entry would have been met before it. */
  lemma NotTabled(d: Dict, keys: seq<nat>, codes: seq<nat>, used: set<nat>, e: Entry, t: nat)
    requires Tabled(d, keys, codes, used)
    requires codes[Slot(Hash(KeyOf(e)), t)] == 0
    requires forall i :: 0 <= i < t ==>
      codes[Slot(Hash(KeyOf(e)), i)] != 0 && keys[Slot(Hash(KeyOf(e)), i)] != KeyOf(e)
    ensures e !in d
  {
    hide Hash, Slot, KeyOf;
    forall k: nat | k < |d| ensures d[k] != e {
      assert Reachable(d, keys, codes, k);
      var j: nat :| At(d, keys, codes, k, j);
      assert codes[Slot(Hash(KeyOf(d[k])), j)] == FIRST + k;
      assert keys[Slot(Hash(KeyOf(d[k])), j)] == KeyOf(d[k]);
    }
  }

  /** The search for `e` ends at the free `slot`, its `probe`-th. */
  ghost predicate FreeAt(codes: seq<nat>, e: Entry, slot: nat, probe: nat) {
    && |codes| == HASH_SIZE && slot == Slot(Hash(KeyOf(e)), probe) && codes[slot] == 0
    && forall i :: 0 <= i < probe ==> codes[Slot(Hash(KeyOf(e)), i)] != 0
  }

  lemma FindIs(d: Dict, e: Entry, k: nat)
    requires Unique(d) && k < |d| && d[k] == e
    ensures Find(d, e) == Some(FIRST + k)
  {
    assert e in d;
  }

  lemma FindNone(d: Dict, e: Entry)
    requires e !in d
    ensures Find(d, e) == None
  {
  }

  /** Linear probing: the code of (prefix, byte), or the slot where it would go. */
  method Lookup(keys: array<nat>, codes: array<nat>, e: Entry, ghost d: Dict, ghost used: set<nat>)
    returns (found: Option<nat>, slot: nat, ghost probe: nat)
    requires keys.Length == codes.Length == HASH_SIZE
    requires Tabled(d, keys[..], codes[..], used) && |d| < HASH_SIZE
    ensures found == Find(d, e)
    ensures found.None? ==> e !in d && FreeAt(codes[..], e, slot, probe)
  {
    hide Hash;
    var key := KeyOf(e);
    ghost var end := FreeSlot(d, keys[..], codes[..], used, Hash(key));
    slot := Hash(key);
    probe := 0;
    assert slot == Slot(Hash(key), 0);
    while true
      invariant probe <= end && slot == Slot(Hash(key), probe)
      invariant forall i :: 0 <= i < probe ==>
        codes[..][Slot(Hash(key), i)] != 0 && keys[..][Slot(Hash(key), i)] != key
      decreases end - probe
    {
      var code := codes[slot];
      if code == 0 {
        NotTabled(d, keys[..], codes[..], used, e, probe);
        FindNone(d, e);
        return None, slot, probe;
      }
      assert codes[..][slot] == code;
      if keys[slot] == key {
        KeyUnique(d[code - FIRST], e);
        FindIs(d, e, code - FIRST);
        return Some(code), slot, probe;
      }
      NextProbe(Hash(key), probe);
      slot := (slot + 1) % HASH_SIZE;
      probe := probe + 1;
    }
  }

  lemma NextProbe(h: nat, j: nat)
    ensures (Slot(h, j) + 1) % HASH_SIZE == Slot(h, j + 1)
  {
  }

  /** Filling the slot the search ended at adds the entry and disturbs no other. */
  lemma Inserted(d: Dict, keys: seq<nat>, codes: seq<nat>, used: set<nat>, e: Entry, slot: nat, probe: nat)
    requires Tabled(d, keys, codes, used) && e !in d && FreeAt(codes, e, slot, probe)
    ensures Tabled(d + [e], keys[slot := KeyOf(e)], codes[slot := Free(d)], used + {slot})
  {
    hide Hash, Slot, KeyOf;
    var d', keys', codes' := d + [e], keys[slot := KeyOf(e)], codes[slot := Free(d)];
    forall k: nat | k < |d'| ensures Reachable(d', keys', codes', k) {
      if k < |d| {
        assert Reachable(d, keys, codes, k);
        var j: nat :| At(d, keys, codes, k, j);
        assert At(d', keys', codes', k, j);
      } else {
        assert At(d', keys', codes', k, probe);
      }
    }
  }

  // ----- encoder

  /** The bytes and the accumulator hold exactly the codes sent. */
  ghost predicate Holds(payload: seq<Byte>, acc: nat, count: nat, sent: seq<Sent>) {
    acc < Pow2(count) && ByteBits(payload) + Bits(acc, count) == Stream(sent)
  }

  lemma HoldsNothing()
    ensures Holds([], 0, 0, [])
  {
    assert ByteBits([]) == [];
  }

  lemma FieldFits(acc: nat, code: nat, p: nat, q: nat)
    requires acc < p && code < q
    ensures acc + code * p < p * q
  {
    MulMonotone(code + 1, q, p);
    Distribute(code, 1, p);
  }

  lemma HoldsMore(payload: seq<Byte>, acc: nat, count: nat, sent: seq<Sent>, s: Sent)
    requires Holds(payload, acc, count, sent) && s.code < Pow2(s.width)
    ensures Holds(payload, acc + s.code * Pow2(count), count + s.width, sent + [s])
  {
    hide Pow2, Bits, Stream, ByteBits;
    BitsJoin(acc, count, s.code, s.width);
    StreamMore(sent, s);
    Pow2Add(count, s.width);
    FieldFits(acc, s.code, Pow2(count), Pow2(s.width));
    assert ByteBits(payload) + (Bits(acc, count) + Bits(s.code, s.width)) ==
      (ByteBits(payload) + Bits(acc, count)) + Bits(s.code, s.width);
  }

  /** A whole byte leaves the accumulator. */
  lemma HoldsByte(payload: seq<Byte>, acc: nat, count: nat, sent: seq<Sent>)
    requires Holds(payload, acc, count, sent) && count >= 8
    ensures Holds(payload + [acc % 0x100], acc / 0x100, count - 8, sent)
  {
    hide Pow2, Bits, Stream, ByteBits;
    Pow2Bytes();
    var q, r: Byte := acc / 0x100, acc % 0x100;
    BitsCut(acc, count, 8, q, r);
    ByteBitsMore(payload, r);
    assert (ByteBits(payload) + Bits(r, 8)) + Bits(q, count - 8) == ByteBits(payload) + (Bits(r, 8) + Bits(q, count - 8));
  }

  /** The final byte is zero-padded. */
  lemma HoldsTail(payload: seq<Byte>, acc: nat, count: nat, sent: seq<Sent>)
    requires Holds(payload, acc, count, sent) && count < 8
    ensures count == 0 ==> Packs(payload, Stream(sent))
    ensures count > 0 ==> acc < 0x100 && Packs(payload + [acc], Stream(sent))
  {
    hide Pow2, Stream, ByteBits, Bits;
    if count == 0 {
      NoBits(acc);
      assert ByteBits(payload) == Stream(sent) + Bits(0, 0);
    } else {
      Pow2Bytes();
      Pow2Grows(count, 8);
      var b: Byte := acc;
      PadByte(acc, count);
      ByteBitsMore(payload, b);
      assert ByteBits(payload) + (Bits(acc, count) + Bits(0, 8 - count)) == Stream(sent) + Bits(0, 8 - count);
    }
  }

  lemma NewEncSound()
    ensures EncSound(NEW_ENC)
  {
    Pow2Known();
  }

  lemma EncodedMore(text: seq<Byte>, b: Byte)
    ensures Encoded(text + [b]) == EncStep(Encoded(text), b)
  {
    assert (text + [b])[..|text|] == text;
  }

  lemma EncodeSound(text: seq<Byte>)
    ensures EncSound(Encoded(text))
  {
    var d := Follows(text);
  }

  lemma DictSmall(e: Enc)
    requires EncSound(e)
    ensures |e.dict| < HASH_SIZE && Free(e.dict) < Pow2(ENC_MAX_BITS)
  {
    Pow2Known();
  }

  lemma CurrentFits(e: Enc)
    requires EncSound(e) && e.current.Some?
    ensures e.current.value < Pow2(e.width) && e.width <= ENC_MAX_BITS
  {
    hide Pow2;
    Pow2Grows(9, e.width);
    Pow2Known();
  }

  lemma CodesOf(text: seq<Byte>)
    ensures var e := Encoded(text);
      Codes(text) == if e.current.Some? then e.sent + [Sent(e.current.value, e.width)] else e.sent
  {
  }

  lemma SentSound(e: Enc, sent: seq<Sent>)
    requires EncSound(e)
    ensures EncSound(e.(sent := sent))
  {
  }

  class Encoder {
    const keys: array<nat>
    const codes: array<nat>
    var nextCode: nat
    var nbits: nat
    var bitAcc: nat
    var bitCount: nat
    var current: Option<nat>
    var headerPending: bool
    var pending: seq<Byte>  // from `head` on not yet handed out
    var head: nat
    var completed: bool
    ghost var enc: Enc             // what has been sent, as a value
    ghost var used: set<nat>       // the taken slots
    ghost var fed: seq<Byte>       // everything accepted
    ghost var emitted: seq<Byte>   // everything handed out
    ghost var payload: seq<Byte>   // everything produced after the header
    ghost var closed: bool         // the last code has been sent

    ghost predicate TableValid()
      reads this`enc, this`used, this`nextCode, this`nbits, keys, codes
    {
      && keys.Length == codes.Length == HASH_SIZE && keys != codes
      && Tabled(enc.dict, keys[..], codes[..], used)
      && EncSound(enc) && nextCode == Free(enc.dict) && nbits == enc.width
    }

    ghost predicate QueueValid()
      reads this`head, this`pending, this`emitted, this`headerPending, this`payload
    {
      head <= |pending| && emitted + pending[head..] == if headerPending then [] else [ENC_MAX_BITS] + payload
    }

    ghost predicate Valid()
      reads this, keys, codes
    {
      && TableValid() && QueueValid()
      && (headerPending ==> payload == [] && !closed && current.None?)
      && (completed ==> closed && head == |pending|)
      && if closed then Shut() else Open()
    }

    /** Everything accepted is sent or in the current match. */
    ghost predicate Open()
      reads this`current, this`enc, this`fed, this`payload, this`bitAcc, this`bitCount
    {
      current == enc.current && enc == Encoded(fed) && bitCount < 8 && Holds(payload, bitAcc, bitCount, enc.sent)
    }

    /** Everything is sent, and the payload complete. */
    ghost predicate Shut()
      reads this`current, this`fed, this`payload, this`bitCount
    {
      current.None? && bitCount == 0 && Packs(payload, Stream(Codes(fed)))
    }

    constructor ()
      ensures Valid() && fresh(keys) && fresh(codes)
      ensures fed == [] && emitted == [] && !closed
    {
      keys, codes := new nat[HASH_SIZE](_ => 0), new nat[HASH_SIZE](_ => 0);
      nextCode, nbits, bitAcc, bitCount, current := FIRST, INIT_BITS, 0, 0, None;
      headerPending, pending, head, completed := true, [], 0, false;
      enc, used, fed, emitted, payload, closed := NEW_ENC, {}, [], [], [], false;
      new;
      NothingTabled(keys[..], codes[..]);
      NewEncSound();
      HoldsNothing();
    }

    method EnsureHeader()
      requires Valid()
      modifies this`pending, this`headerPending
      ensures Valid() && !headerPending
    {
      hide Pow2, Tabled, EncSound, Holds, Packs, Encoded;
      if headerPending {
        assert emitted == [] && pending[head..] == [];
        pending := pending + [ENC_MAX_BITS];
        headerPending := false;
        assert pending[head..] == [ENC_MAX_BITS];
      }
    }

    /** Append one code at the current width. */
    method EmitCode(code: nat)
      requires QueueValid() && !headerPending && bitCount < 8 && nbits == enc.width <= ENC_MAX_BITS && code < Pow2(nbits)
      requires Holds(payload, bitAcc, bitCount, enc.sent)
      modifies this`bitAcc, this`bitCount, this`pending, this`payload, this`enc
      ensures QueueValid() && bitCount < 8
      ensures Holds(payload, bitAcc, bitCount, enc.sent)
      ensures enc == old(enc).(sent := old(enc.sent) + [Sent(code, nbits)])
    {
      hide Pow2, Holds;
      HoldsMore(payload, bitAcc, bitCount, enc.sent, Sent(code, nbits));
      bitAcc := bitAcc + code * Pow2(bitCount);
      bitCount := bitCount + nbits;
      enc := enc.(sent := enc.sent + [Sent(code, nbits)]);
      while bitCount >= 8
        invariant QueueValid() && !headerPending
        invariant Holds(payload, bitAcc, bitCount, enc.sent)
        invariant enc == old(enc).(sent := old(enc.sent) + [Sent(code, nbits)])
        decreases bitCount
      {
        HoldsByte(payload, bitAcc, bitCount, enc.sent);
        ghost var before, was := pending[head..], payload;
        var b: Byte := bitAcc % 0x100;
        pending := pending + [b];
        payload := payload + [b];
        assert pending[head..] == before + [b];
        assert emitted + (before + [b]) == (emitted + before) + [b];
        assert [ENC_MAX_BITS] + payload == ([ENC_MAX_BITS] + was) + [b];
        bitAcc := bitAcc / 0x100;
        bitCount := bitCount - 8;
      }
    }

    /** Empty the dictionary. */
    method ResetDict()
      requires keys.Length == codes.Length == HASH_SIZE && keys != codes
      modifies this`nextCode, this`nbits, this`used, this`enc, keys, codes
      ensures enc == old(enc).(dict := [], width := INIT_BITS)
      ensures nextCode == FIRST && nbits == INIT_BITS
      ensures Tabled([], keys[..], codes[..], used)
    {
      for i := 0 to HASH_SIZE
        invariant enc == old(enc)
      {
        keys[i] := 0;
      }
      for i := 0 to HASH_SIZE
        invariant forall k :: 0 <= k < i ==> codes[k] == 0
        invariant enc == old(enc)
      {
        codes[i] := 0;
      }
      nextCode, nbits := FIRST, INIT_BITS;
      enc, used := enc.(dict := [], width := INIT_BITS), {};
      NothingTabled(keys[..], codes[..]);
    }

    /** A free slot takes the new entry. */
    method Insert(slot: nat, e: Entry, ghost probe: nat)
      requires keys.Length == codes.Length == HASH_SIZE && keys != codes
      requires Tabled(enc.dict, keys[..], codes[..], used) && nextCode == Free(enc.dict)
      requires e !in enc.dict && FreeAt(codes[..], e, slot, probe)
      modifies keys, codes, this`nextCode, this`used, this`enc
      ensures enc == old(enc).(dict := old(enc.dict) + [e]) && nextCode == Free(enc.dict)
      ensures Tabled(enc.dict, keys[..], codes[..], used)
    {
      hide Tabled, Hash, Slot;
      Inserted(enc.dict, keys[..], codes[..], used, e, slot, probe);
      ghost var k0, c0 := keys[..], codes[..];
      keys[slot] := KeyOf(e);
      codes[slot] := nextCode;
      assert keys[..] == k0[slot := KeyOf(e)] && codes[..] == c0[slot := nextCode];
      nextCode := nextCode + 1;
      enc, used := enc.(dict := enc.dict + [e]), used + {slot};
    }

    /** Widen once the next code no longer fits, or clear a full dictionary. */
    method MaybeWiden()
      requires keys.Length == codes.Length == HASH_SIZE && keys != codes
      requires Tabled(enc.dict, keys[..], codes[..], used) && nextCode == Free(enc.dict)
      requires QueueValid() && !headerPending && bitCount < 8 && nbits == enc.width <= ENC_MAX_BITS
      requires Holds(payload, bitAcc, bitCount, enc.sent)
      modifies this`nextCode, this`nbits, this`used, this`enc, this`bitAcc, this`bitCount, this`pending, this`payload,
               keys, codes
      ensures enc == Widened(old(enc))
      ensures Tabled(enc.dict, keys[..], codes[..], used) && nextCode == Free(enc.dict) && nbits == enc.width
      ensures QueueValid() && bitCount < 8
      ensures Holds(payload, bitAcc, bitCount, enc.sent)
    {
      hide Tabled, Holds, Encoder.QueueValid, Pow2;
      Pow2Known();
      if nbits < ENC_MAX_BITS {
        if nextCode > Pow2(nbits) {
          nbits := nbits + 1;
          enc := enc.(width := nbits);
        }
      } else if nextCode >= Pow2(ENC_MAX_BITS) {
        EmitCode(CLEAR);
        ResetDict();
      }
    }

    /** Send the current code and add an entry for it and the byte that did not match. */
    method SendMiss(w: nat, b: Byte, slot: nat, ghost probe: nat)
      requires keys.Length == codes.Length == HASH_SIZE && keys != codes
      requires Tabled(enc.dict, keys[..], codes[..], used)
      requires nextCode == Free(enc.dict) < Pow2(ENC_MAX_BITS) && nbits == enc.width <= ENC_MAX_BITS
      requires QueueValid() && !headerPending && bitCount < 8
      requires w < Pow2(nbits) && Holds(payload, bitAcc, bitCount, enc.sent)
      requires Entry(w, b) !in enc.dict && FreeAt(codes[..], Entry(w, b), slot, probe)
      modifies this`nextCode, this`nbits, this`used, this`enc, this`bitAcc, this`bitCount, this`pending, this`payload,
               keys, codes
      ensures enc == Widened(old(enc).(sent := old(enc.sent) + [Sent(w, old(nbits))],
                                       dict := old(enc.dict) + [Entry(w, b)]))
      ensures Tabled(enc.dict, keys[..], codes[..], used) && nextCode == Free(enc.dict) && nbits == enc.width
      ensures QueueValid() && bitCount < 8
      ensures Holds(payload, bitAcc, bitCount, enc.sent)
    {
      hide Tabled, Holds, Pow2, Widened, Encoder.QueueValid, FreeAt;
      EmitCode(w);
      if nextCode < Pow2(ENC_MAX_BITS) {
        Insert(slot, Entry(w, b), probe);
      }
      MaybeWiden();
    }

    /** Extend the current match by a byte, or send it; the code to go on with. */
    method Match(b: Byte) returns (next: Option<nat>)
      requires TableValid() && QueueValid() && !headerPending && bitCount < 8
      requires Holds(payload, bitAcc, bitCount, enc.sent) && current == enc.current && current.Some?
      modifies this`nextCode, this`nbits, this`used, this`enc, this`bitAcc, this`bitCount, this`pending, this`payload,
               keys, codes
      ensures enc.(current := next) == EncStep(old(enc), b)
      ensures Tabled(enc.dict, keys[..], codes[..], used) && nextCode == Free(enc.dict) && nbits == enc.width
      ensures QueueValid() && bitCount < 8 && Holds(payload, bitAcc, bitCount, enc.sent)
    {
      hide Tabled, Holds, Pow2, EncSound, Widened, FreeAt, Find, Encoder.QueueValid;
      var e := Entry(current.value, b);
      DictSmall(enc);
      var slot;
      ghost var probe;
      next, slot, probe := Lookup(keys, codes, e, enc.dict, used);
      if next.None? {
        CurrentFits(enc);
        SendMiss(e.prefix, b, slot, probe);
        next := Some(b);
      }
    }

    /** One byte of input: extend the match, or send it and start a new one. */
    method EncodeByte(b: Byte)
      requires Valid() && !closed && !headerPending
      modifies this`current, this`fed, this`nextCode, this`nbits, this`used, this`enc, this`bitAcc, this`bitCount,
               this`pending, this`payload, keys, codes
      ensures Valid() && !closed
      ensures fed == old(fed) + [b]
    {
      hide Tabled, Holds, Pow2, Codes, EncSound, Widened, Find, Packs, Encoder.QueueValid, Encoder.Shut;
      EncodedMore(fed, b);
      EncodeSound(fed + [b]);
      fed := fed + [b];
      var next := Some(b as nat);
      if current.Some? {
        next := Match(b);
      }
      current := next;
      enc := enc.(current := next);
    }

    /** Hand out what fits, from `written` on. */
    method DrainMore(output: array<Byte>, written: nat, ghost before: seq<Byte>) returns (total: nat)
      requires Valid() && written <= output.Length && output != keys as object && output != codes as object
      requires emitted == before + output[..written]
      modifies this`head, this`pending, this`emitted, output
      ensures Valid()
      ensures written <= total <= output.Length
      ensures emitted == before + output[..total]
      ensures head <= |pending| && (head < |pending| ==> total == output.Length)
    {
      Waiting();
      hide Encoder.Valid;
      var n := if |pending| - head < output.Length - written then |pending| - head else output.Length - written;
      ghost var left, tail := output[..written], output[written + n..];
      var bytes := Pop(n);
      Store(output, written, bytes);
      total := written + n;
      HeadTail(left + bytes, tail);
      assert output[..total] == output[..][..total];
      ConcatAssoc(before, left, bytes);
    }

    lemma Waiting()
      requires Valid()
      ensures head <= |pending|
    {
    }

    /** The next `n` bytes of the queue. */
    method Pop(n: nat) returns (bytes: seq<Byte>)
      requires Valid() && head + n <= |pending|
      modifies this`head, this`pending, this`emitted
      ensures Valid() && |bytes| == n
      ensures emitted == old(emitted) + bytes
      ensures head <= |pending| && |pending| - head == old(|pending| - head) - n
    {
      hide Encoder.TableValid, Encoder.Open, Encoder.Shut;
      bytes := pending[head..head + n];
      SplitQueue(emitted, pending, head, n);
      emitted, head := emitted + bytes, head + n;
      if head == |pending| {
        pending, head := [], 0;
      }
    }

    /** Accept input as far as the output keeps up. */
    method Encode(input: seq<Byte>, output: array<Byte>) returns (consumed: nat, written: nat)
      requires Valid() && !closed && output != keys as object && output != codes as object
      modifies this, keys, codes, output
      ensures Valid() && !closed
      ensures consumed <= |input| && fed == old(fed) + input[..consumed]
      ensures written <= output.Length && emitted == old(emitted) + output[..written]
      ensures written < output.Length ==> consumed == |input| && head == |pending|
    {
      hide Encoder.Valid, Encoder.TableValid;
      EnsureHeader();
      consumed, written := 0, 0;
      assert output[..0] == [];
      written := DrainMore(output, 0, emitted);
      while consumed < |input|
        invariant Valid() && !closed && !headerPending
        invariant consumed <= |input| && fed == old(fed) + input[..consumed]
        invariant written <= output.Length && emitted == old(emitted) + output[..written]
        invariant head <= |pending| && (head < |pending| ==> written == output.Length)
      {
        if |pending| - head >= output.Length - written + 64 {
          break;
        }
        EncodeByte(input[consumed]);
        assert input[..consumed + 1] == input[..consumed] + [input[consumed]];
        consumed := consumed + 1;
        written := DrainMore(output, written, old(emitted));
      }
      written := DrainMore(output, written, old(emitted));
    }

    /** Send the last code and the padding, and hand out what fits; done once nothing is left. */
    method Finish(output: array<Byte>) returns (written: nat, done: bool)
      requires Valid() && output != keys as object && output != codes as object
      modifies this, output
      ensures Valid() && closed
      ensures fed == old(fed)
      ensures written <= output.Length && emitted == old(emitted) + output[..written]
      ensures done ==> IsPayload(emitted, fed)
      ensures written < output.Length ==> done
    {
      hide Encoder.Valid;
      assert output[..0] == [];
      if completed {
        Complete();
        return 0, true;
      }
      EnsureHeader();
      Close();
      written := DrainMore(output, 0, emitted);
      done := head == |pending|;
      if done {
        Complete();
      }
    }

    /** Nothing is left to hand out. */
    method Complete()
      requires Valid() && (completed || (closed && head == |pending|))
      modifies this`completed
      ensures Valid() && closed && IsPayload(emitted, fed)
    {
      hide Encoder.TableValid, Packs;
      completed := true;
      assert emitted + pending[head..] == emitted;
      assert emitted[1..] == payload;
    }

    /** The current match goes out. */
    method SendLast()
      requires TableValid() && QueueValid() && !headerPending && Open() && current.Some?
      modifies this`current, this`bitAcc, this`bitCount, this`pending, this`payload, this`enc
      ensures TableValid() && QueueValid() && current.None? && bitCount < 8
      ensures Holds(payload, bitAcc, bitCount, Codes(fed))
    {
      hide Tabled, Holds, Pow2, EncSound, Codes, Encoder.QueueValid;
      CodesOf(fed);
      CurrentFits(enc);
      EmitCode(current.value);
      SentSound(old(enc), enc.sent);
      current := None;
    }

    /** The last code and the zero-padded final byte. */
    method Close()
      requires Valid() && !headerPending
      modifies this`current, this`bitAcc, this`bitCount, this`pending, this`payload, this`enc, this`closed
      ensures Valid() && closed
    {
      hide Encoder.TableValid, Encoder.QueueValid, Holds, Packs, Pow2, Codes, Encoded;
      if current.Some? {
        SendLast();
      } else if !closed {
        CodesOf(fed);
      }
      if bitCount > 0 {
        PadLast();
      } else if !closed {
        HoldsTail(payload, bitAcc, bitCount, Codes(fed));
      }
      closed := true;
    }

    /** The bits that are left go out in a byte of their own. */
    method PadLast()
      requires QueueValid() && !headerPending && 0 < bitCount < 8
      requires Holds(payload, bitAcc, bitCount, Codes(fed))
      modifies this`pending, this`payload, this`bitAcc, this`bitCount
      ensures QueueValid() && bitCount == 0 && Packs(payload, Stream(Codes(fed)))
    {
      hide Encoder.QueueValid, Holds, Packs, Pow2, Codes;
      HoldsTail(payload, bitAcc, bitCount, Codes(fed));
      PushLast(bitAcc);
    }

    method PushLast(b: Byte)
      requires QueueValid() && !headerPending
      modifies this`pending, this`payload, this`bitAcc, this`bitCount
      ensures QueueValid() && payload == old(payload) + [b] && bitAcc == bitCount == 0
    {
      ghost var before := pending[head..];
      pending := pending + [b];
      assert pending[head..] == before + [b];
      assert emitted + (before + [b]) == (emitted + before) + [b];
      assert [ENC_MAX_BITS] + (payload + [b]) == ([ENC_MAX_BITS] + payload) + [b];
      payload := payload + [b];
      bitAcc, bitCount := 0, 0;
    }
  }
}
