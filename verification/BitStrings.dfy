/** LSB-first bit strings: numbers as bits, bytes as bits, and packing bits into bytes. */
module BitStrings {
  import opened Words

  // ----- numbers as bits

  /** The low `n` bits of `v`, lowest first. */
  function Bits(v: nat, n: nat): (b: seq<bool>)
    ensures |b| == n
    decreases n
  {
    if n == 0 then [] else [v % 2 == 1] + Bits(v / 2, n - 1)
  }

  function Number(b: seq<bool>): nat {
    if b == [] then 0 else (if b[0] then 1 else 0) + 2 * Number(b[1..])
  }

  lemma {:induction false} NumberBits(v: nat, n: nat)
    requires v < Pow2(n)
    ensures Number(Bits(v, n)) == v
    decreases n
  {
    if n > 0 {
      NumberBits(v / 2, n - 1);
    }
  }

  lemma {:induction false} BitsNumber(b: seq<bool>)
    ensures Number(b) < Pow2(|b|) && Bits(Number(b), |b|) == b
  {
    if b != [] {
      BitsNumber(b[1..]);
    }
  }

  lemma HalfJoin(v: nat, w: nat, p: nat)
    ensures (v + w * (2 * p)) / 2 == v / 2 + w * p && (v + w * (2 * p)) % 2 == v % 2
    ensures v < 2 * p ==> v / 2 < p
  {
    assert w * (2 * p) == 2 * (w * p);
  }

  /** Two fields side by side. */
  lemma {:induction false} BitsJoin(v: nat, n: nat, w: nat, m: nat)
    requires v < Pow2(n)
    ensures Bits(v + w * Pow2(n), n + m) == Bits(v, n) + Bits(w, m)
    decreases n
  {
    if n > 0 {
      hide Pow2;
      Pow2Next(n - 1);
      HalfJoin(v, w, Pow2(n - 1));
      BitsJoin(v / 2, n - 1, w, m);
    } else {
      assert [] + Bits(w, m) == Bits(w, m);
    }
  }

  /** Cutting a field in two. */
  lemma BitsCut(v: nat, n: nat, k: nat, q: nat, r: nat)
    requires k <= n && v < Pow2(n)
    requires v == r + q * Pow2(k) && r < Pow2(k)
    ensures q < Pow2(n - k)
    ensures Bits(v, n) == Bits(r, k) + Bits(q, n - k)
  {
    hide Pow2, Bits;
    BitsJoin(r, k, q, n - k);
    Pow2Add(k, n - k);
    if q >= Pow2(n - k) {
      MulMonotone(Pow2(n - k), q, Pow2(k));
    }
  }

  lemma NoBits(v: nat)
    ensures Bits(v, 0) == [] && ByteBits([]) == []
  {
  }

  lemma PadByte(acc: nat, count: nat)
    requires acc < Pow2(count) && count <= 8
    ensures Bits(acc, 8) == Bits(acc, count) + Bits(0, 8 - count)
  {
    hide Pow2, Bits;
    assert 0 * Pow2(count) == 0;
    BitsJoin(acc, count, 0, 8 - count);
  }

  lemma BelowByte(acc: nat, count: nat)
    requires acc < Pow2(count) && count < 8
    ensures acc < 0x100
  {
    hide Pow2;
    Pow2Bytes();
    Pow2Grows(count, 8);
  }

  // ----- bytes as bits

  function ByteBits(bytes: seq<Byte>): seq<bool> {
    if bytes == [] then [] else ByteBits(bytes[..|bytes| - 1]) + Bits(bytes[|bytes| - 1], 8)
  }

  lemma ByteBitsMore(bytes: seq<Byte>, b: Byte)
    ensures ByteBits(bytes + [b]) == ByteBits(bytes) + Bits(b, 8)
  {
    assert (bytes + [b])[..|bytes|] == bytes;
  }

  /** Whole bytes first, then the remaining bits, if any, zero-padded. */
  ghost predicate Packs(bytes: seq<Byte>, bits: seq<bool>) {
    exists k: nat :: k < 8 && ByteBits(bytes) == bits + Bits(0, k)
  }

  lemma {:induction false} ByteBitsLength(bytes: seq<Byte>)
    ensures |ByteBits(bytes)| == 8 * |bytes|
  {
    if bytes != [] {
      ByteBitsLength(bytes[..|bytes| - 1]);
    }
  }

  /** Bytes are determined by their bits. */
  lemma {:induction false} ByteBitsInjective(a: seq<Byte>, b: seq<Byte>)
    requires ByteBits(a) == ByteBits(b)
    ensures a == b
    decreases |a|
  {
    hide Bits, Pow2;
    ByteBitsLength(a);
    ByteBitsLength(b);
    if a != [] {
      var n := |a| - 1;
      ByteBitsLength(a[..n]);
      ByteBitsLength(b[..n]);
      var x, y := ByteBits(a), ByteBits(b);
      assert ByteBits(a[..n]) == x[..8 * n] && Bits(a[n], 8) == x[8 * n..];
      assert ByteBits(b[..n]) == y[..8 * n] && Bits(b[n], 8) == y[8 * n..];
      ByteBitsInjective(a[..n], b[..n]);
      Pow2Bytes();
      NumberBits(a[n], 8);
      NumberBits(b[n], 8);
      assert a == a[..n] + [a[n]] && b == b[..n] + [b[n]];
    }
  }

  /** There is only one way to pack bits into bytes. */
  lemma PacksOnce(a: seq<Byte>, b: seq<Byte>, bits: seq<bool>)
    requires Packs(a, bits) && Packs(b, bits)
    ensures a == b
  {
    hide Bits, ByteBits;
    ByteBitsLength(a);
    ByteBitsLength(b);
    var k: nat :| k < 8 && ByteBits(a) == bits + Bits(0, k);
    var j: nat :| j < 8 && ByteBits(b) == bits + Bits(0, j);
    SamePadding(|bits|, |a|, |b|, k, j);
    ByteBitsInjective(a, b);
  }

  lemma SamePadding(n: nat, a: nat, b: nat, k: nat, j: nat)
    requires 8 * a == n + k && 8 * b == n + j && k < 8 && j < 8
    ensures k == j
  {
  }

  lemma {:induction false} ByteBitsAppend(a: seq<Byte>, b: seq<Byte>)
    ensures ByteBits(a + b) == ByteBits(a) + ByteBits(b)
    decreases |b|
  {
    hide Bits;
    if b == [] {
      assert a + b == a;
      assert ByteBits(a) + [] == ByteBits(a);
    } else {
      var n := |b| - 1;
      ByteBitsAppend(a, b[..n]);
      assert (a + b)[..|a| + n] == a + b[..n];
    }
  }
}
