// The bit-level layout shared by huffman_compress and huffman_decompress:
// code symbols are packed most significant bit first, eight to a byte, and
// a trailing partial byte is padded with zero low bits.
module BitStream {
  import opened HuffmanTypes

  function Pow2(k: nat): (r: nat)
    ensures r >= 1
  {
    if k == 0 then 1 else 2 * Pow2(k - 1)
  }

  /** `x >> j` on a non-negative value. */
  function Shr(x: nat, j: nat): nat
  {
    if j == 0 then x else Shr(x / 2, j - 1)
  }

  /** `x << j`, before any truncation to the destination's width. */
  function Shl(x: nat, j: nat): nat
    decreases j
  {
    if j == 0 then x else Shl(2 * x, j - 1)
  }

  /** Bit k of byte b, counting from the most significant: `(b >> (7 - k)) & 0x01`. */
  function BitOf(b: byte, k: nat): bool
    requires k < 8
  {
    Shr(b, 7 - k) % 2 == 1
  }

  /** The eight bits of a byte, most significant first. */
  function ByteBits(b: byte): seq<bool>
  {
    seq(8, k requires 0 <= k < 8 => BitOf(b, k))
  }

  /** The bit stream a byte buffer holds, as huffman_decompress reads it: eight bits per byte. */
  function Unpack(s: seq<byte>): (r: seq<bool>)
    ensures |r| == 8 * |s|
  {
    if s == [] then [] else ByteBits(s[0]) + Unpack(s[1..])
  }

  /** The accumulator after shifting the bits in one at a time: `tmp = tmp << 1 | bit`. */
  function Value(bs: seq<bool>): nat
  {
    if bs == [] then 0 else 2 * Value(bs[..|bs| - 1]) + (if bs[|bs| - 1] then 1 else 0)
  }

  function Zeros(m: nat): seq<bool>
  {
    seq(m, _ => false)
  }

  /**
   * The bytes huffman_compress emits for a bit stream: one byte per eight
   * bits, and a last byte `tmp << (8 - bits)` for a partial group, so
   * b bits take (b + 7) / 8 bytes.
   */
  function Pack(bs: seq<bool>): (r: seq<byte>)
    ensures |r| == (|bs| + 7) / 8
    decreases |bs|
  {
    if bs == [] then []
    else if |bs| < 8 then
      ShlValue(bs, 8 - |bs|);
      ValueBound(bs + Zeros(8 - |bs|));
      assert Pow2(8) == 256;
      [Shl(Value(bs), 8 - |bs|)]
    else
      ValueBound(bs[..8]);
      assert Pow2(8) == 256;
      [Value(bs[..8])] + Pack(bs[8..])
  }

  lemma {:induction false} ValueBound(bs: seq<bool>)
    ensures Value(bs) < Pow2(|bs|)
  {
    if bs != [] {
      ValueBound(bs[..|bs| - 1]);
    }
  }

  lemma ValueSnoc(bs: seq<bool>, b: bool)
    ensures Value(bs + [b]) == 2 * Value(bs) + (if b then 1 else 0)
  {
    assert (bs + [b])[..|bs|] == bs;
  }

  /** Shifting the accumulator left by m appends m zero bits. */
  lemma {:induction false} ShlValue(bs: seq<bool>, m: nat)
    ensures Shl(Value(bs), m) == Value(bs + Zeros(m))
    decreases m
  {
    if m == 0 {
      assert bs + Zeros(0) == bs;
    } else {
      ValueSnoc(bs, false);
      ShlValue(bs + [false], m - 1);
      assert bs + [false] + Zeros(m - 1) == bs + Zeros(m);
    }
  }

  /** Reading bit k back out of an accumulated value gives the k-th bit shifted in. */
  lemma {:induction false} ShrValue(bs: seq<bool>, k: nat)
    requires k < |bs|
    ensures Shr(Value(bs), |bs| - 1 - k) % 2 == (if bs[k] then 1 else 0)
  {
    var init := bs[..|bs| - 1];
    var v := Value(init);
    var c := if bs[|bs| - 1] then 1 else 0;
    assert Value(bs) == 2 * v + c;
    if k < |bs| - 1 {
      var m := |bs| - 1 - k;
      assert Shr(2 * v + c, m) == Shr((2 * v + c) / 2, m - 1);
      assert (2 * v + c) / 2 == v;
      ShrValue(init, k);
      assert init[k] == bs[k];
    }
  }

  lemma ByteBitsValue(bs: seq<bool>)
    requires |bs| == 8
    ensures Value(bs) < 256 && ByteBits(Value(bs)) == bs
  {
    ValueBound(bs);
    forall k | 0 <= k < 8
      ensures ByteBits(Value(bs))[k] == bs[k]
    {
      ShrValue(bs, k);
    }
  }

  lemma {:induction false} UnpackAppend(a: seq<byte>, b: seq<byte>)
    ensures Unpack(a + b) == Unpack(a) + Unpack(b)
  {
    if a != [] {
      assert (a + b)[1..] == a[1..] + b;
      UnpackAppend(a[1..], b);
    } else {
      assert a + b == b;
    }
  }

  /** Bit k of byte i of a buffer sits at position 8 * i + k of its bit stream. */
  lemma {:induction false} UnpackAt(s: seq<byte>, i: nat, k: nat)
    requires i < |s| && k < 8
    ensures Unpack(s)[8 * i + k] == BitOf(s[i], k)
  {
    if i > 0 {
      UnpackAt(s[1..], i - 1, k);
    }
  }

  /** Packing splits at any byte boundary. */
  lemma {:induction false} PackSplit(a: seq<bool>, b: seq<bool>)
    requires |a| % 8 == 0
    ensures Pack(a + b) == Pack(a) + Pack(b)
    decreases |a|
  {
    if a == [] {
      assert a + b == b;
    } else {
      assert (a + b)[..8] == a[..8];
      assert (a + b)[8..] == a[8..] + b;
      PackSplit(a[8..], b);
    }
  }

  /**
   * The bytes of Pack hold the stream: unpacking them gives the packed bits
   * back, followed only by the zero padding of the last byte.
   */
  lemma {:induction false} UnpackPack(bs: seq<bool>)
    ensures |Unpack(Pack(bs))| >= |bs|
    ensures Unpack(Pack(bs))[..|bs|] == bs
    decreases |bs|
  {
    if bs == [] {
    } else if |bs| < 8 {
      var padded := bs + Zeros(8 - |bs|);
      ShlValue(bs, 8 - |bs|);
      ByteBitsValue(padded);
      assert Unpack(Pack(bs)) == ByteBits(Value(padded)) + Unpack([]);
      assert padded[..|bs|] == bs;
    } else {
      ByteBitsValue(bs[..8]);
      UnpackPack(bs[8..]);
      assert Unpack(Pack(bs)) == bs[..8] + Unpack(Pack(bs[8..]));
      assert bs == bs[..8] + bs[8..];
    }
  }

  /**
   * What huffman_decompress reads from what huffman_compress wrote: the
   * first |bs| bits of the packed bytes, followed by any zero bytes, are bs.
   */
  lemma UnpackPackPadded(bs: seq<bool>, pad: seq<byte>)
    ensures |Unpack(Pack(bs) + pad)| >= |bs|
    ensures Unpack(Pack(bs) + pad)[..|bs|] == bs
  {
    UnpackAppend(Pack(bs), pad);
    UnpackPack(bs);
    assert (Unpack(Pack(bs)) + Unpack(pad))[..|bs|] == Unpack(Pack(bs))[..|bs|];
  }

  /** The zero bytes calloc leaves after the last one written. */
  function ZeroBytes(m: nat): seq<byte>
  {
    seq(m, _ => 0)
  }

  /** Eight more bits complete one more byte of the packed stream. */
  lemma PackByte(e: seq<bool>, d: nat)
    requires 8 * d + 8 <= |e|
    ensures Pack(e[..8 * d + 8]) == Pack(e[..8 * d]) + [Value(e[8 * d..8 * d + 8])]
  {
    var a, b := e[..8 * d], e[8 * d..8 * d + 8];
    assert e[..8 * d + 8] == a + b;
    PackSplit(a, b);
    assert b[..8] == b && b[8..] == [];
  }

  /**
   * A stream ending in a partial byte packs to its full bytes followed by
   * the partial byte shifted up to the most significant end.
   */
  lemma PackTail(e: seq<bool>, d: nat)
    requires 8 * d < |e| < 8 * d + 8
    ensures Pack(e) == Pack(e[..8 * d]) + [Shl(Value(e[8 * d..]), 8 * d + 8 - |e|)]
  {
    var a, b := e[..8 * d], e[8 * d..];
    assert e == a + b;
    PackSplit(a, b);
  }

  lemma {:induction false} Pow2Monotone(a: nat, b: nat)
    requires a <= b
    ensures Pow2(a) <= Pow2(b)
    decreases b
  {
    if a < b {
      Pow2Monotone(a, b - 1);
    }
  }

  /**
   * `tmp = tmp << 1 | bit` in an unsigned char holding fewer than eight
   * bits shifts the bit in without losing any.
   */
  lemma ValueShiftIn(x: seq<bool>, bit: bool)
    requires |x| < 8
    ensures Value(x + [bit]) < 256
    ensures (2 * Value(x) + (if bit then 1 else 0)) % 256 == Value(x + [bit])
  {
    ValueBound(x + [bit]);
    Pow2Monotone(|x| + 1, 8);
    assert Pow2(8) == 256;
    ValueSnoc(x, bit);
  }
}
