// The coder record of huffman.h and the operations of huffman.c over it.
// Node pointers are indices into the arena `nodes`; the priority queue is
// the sequence `mpq` of arena indices, with the ULLONG_MAX tail sentinel
// kept as the flag `sentinel`.
module Huffman {
  import opened HuffmanTypes
  import opened BitStream
  import opened CStrings
  import opened FrequencyTable
  import opened PriorityQueue
  import opened TreeBuild
  import opened CodeTree

  /** The last cell of a code_table row. */
  const LAST_CELL: nat := CODE_LEN - 1

  /** What mpq_extract_min hands back: NULL, the tail sentinel, or a node of the arena. */
  datatype Popped = Null | Sentinel | NodeAt(idx: nat)

  /** Row r of a two-dimensional character table, as a sequence. */
  ghost function Row(t: array2<char>, r: nat): seq<char>
    requires r < t.Length0
    reads t
  {
    seq(t.Length1, k requires 0 <= k < t.Length1 reads t => t[r, k])
  }

  /** Row v of t holds the string s followed by its NUL. */
  ghost predicate RowHolds(t: array2<char>, v: nat, s: seq<char>)
    reads t
  {
    v < t.Length0 && |s| < t.Length1 &&
    (forall k :: 0 <= k < |s| ==> t[v, k] == s[k]) && t[v, |s|] == '\0'
  }

  lemma RowHoldsCStr(t: array2<char>, v: nat, s: seq<char>)
    requires RowHolds(t, v, s) && '\0' !in s
    ensures CStr(Row(t, v)) == s
  {
    var row := Row(t, v);
    assert forall k :: 0 <= k < |s| ==> row[k] != '\0';
    CStrAt(row, |s|);
  }

  /** Reversing a code string reverses its bits. */
  lemma CodeStringReverse(bits: seq<bool>)
    ensures Reverse(CodeString(bits)) == CodeString(Reverse(bits))
  {
  }

  /** After appending a bit's character the string spells the longer path. */
  lemma CodeStringSnoc(bits: seq<bool>, b: bool)
    ensures CodeString(bits) + [if b then '1' else '0'] == CodeString(bits + [b])
  {
  }

  /**
   * One step of the walk up from leaf i: if the path to i is the path to
   * np followed by the reversed bits c, then it is also the path to np's
   * parent followed by the reversed bits c plus np's branch bit.
   */
  lemma PathStep(nodes: seq<Node>, root: nat, i: nat, np: nat, c: seq<bool>)
    requires np < |nodes| && np != root && np < nodes[np].pa < |nodes|
    requires PathTo(nodes, root, i) == PathTo(nodes, root, np) + Reverse(c)
    ensures var pp := nodes[np].pa;
      PathTo(nodes, root, i) == PathTo(nodes, root, pp) + Reverse(c + [nodes[pp].lc != np])
  {
    var pp := nodes[np].pa;
    var bit := nodes[pp].lc != np;
    var up := PathTo(nodes, root, pp);
    var rc := Reverse(c);
    assert PathTo(nodes, root, np) == up + [bit];
    assert Reverse(c + [bit]) == [bit] + rc by {
      ReverseSnoc(c, bit);
    }
    assert (up + [bit]) + rc == up + ([bit] + rc);
  }

  /** The code string of bits collected backwards is the reverse of the code string of the path. */
  lemma ReversedCode(c: seq<bool>, path: seq<bool>)
    requires path == [] + Reverse(c)
    ensures CodeString(c) == Reverse(CodeString(path))
  {
    assert path == Reverse(c);
    CodeStringReverse(path);
    assert Reverse(path) == c;
  }

  /** Reversing in place a buffer that holds a reversed code leaves it holding the code. */
  lemma ReversedBack(before: seq<char>, after: seq<char>, code: seq<char>)
    requires CStr(before) == Reverse(code) && |code| < |before| && '\0' !in code
    requires after == Reverse(before[..|code|]) + before[|code|..]
    ensures CStr(after) == code
  {
    var m := |code|;
    assert before[..m] == Reverse(code);
    forall k | 0 <= k < m
      ensures after[k] == code[k]
    {
      assert after[k] == before[m - 1 - k];
    }
    assert after[m] == '\0';
    CStrAt(after, m);
  }

  /** strrev on re_code holding a code backwards leaves it holding the code. */
  method TurnAround(reCode: array<char>, ghost code: seq<char>)
    requires CStr(reCode[..]) == Reverse(code) && |code| < reCode.Length && '\0' !in code
    modifies reCode
    ensures CStr(reCode[..]) == code
  {
    ghost var before := reCode[..];
    StrRev(reCode);
    ReversedBack(before, reCode[..], code);
  }

  /**
   * The output state of huffman_compress after the bits e have been
   * shifted in: d whole bytes stored in out, the bits after them held in
   * tmp, and calloc's zeros from byte d on.
   */
  ghost predicate Emitted(out: seq<byte>, d: nat, tmp: int, bits: nat, e: seq<bool>)
  {
    bits < 8 && |e| == 8 * d + bits && d <= |out| &&
    out[..d] == Pack(e[..8 * d]) && tmp == Value(e[8 * d..]) &&
    forall k :: d <= k < |out| ==> out[k] == 0
  }

  /**
   * The compressor's state after the bytes s: their concatenated codes
   * are emitted and bits_sum counts them modulo 2^32.
   */
  ghost predicate Encoding(codes: seq<seq<char>>, s: seq<byte>, out: seq<byte>, d: nat, tmp: int, bits: nat, bitsSum: nat)
    requires |codes| == RANGE_SIZE
  {
    var e := Encode(codes, s);
    |e| <= 8 * |s| && Emitted(out, d, tmp, bits, e) && bitsSum == Bump32(0, |e|)
  }

  /** A bit that leaves tmp short of eight bits is only shifted in. */
  lemma EmitPartial(out: seq<byte>, d: nat, tmp: int, bits: nat, e: seq<bool>, bit: bool)
    requires Emitted(out, d, tmp, bits, e) && bits < 7
    ensures Emitted(out, d, (2 * tmp + (if bit then 1 else 0)) % 256, bits + 1, e + [bit])
  {
    var e', x := e + [bit], e[8 * d..];
    var t := (2 * tmp + (if bit then 1 else 0)) % 256;
    assert e'[8 * d..] == x + [bit];
    assert e'[..8 * d] == e[..8 * d];
    assert t == Value(e'[8 * d..]) by {
      ValueShiftIn(x, bit);
    }
  }

  /** The eighth bit completes the byte, which is stored at out[d]; tmp starts over. */
  lemma EmitFull(out: seq<byte>, d: nat, tmp: int, bits: nat, e: seq<bool>, bit: bool)
    requires Emitted(out, d, tmp, bits, e) && bits == 7 && d < |out|
    ensures var t := (2 * tmp + (if bit then 1 else 0)) % 256;
      0 <= t < 256 && Emitted(out[d := t], d + 1, 0, 0, e + [bit])
  {
    var e', x := e + [bit], e[8 * d..];
    var t := (2 * tmp + (if bit then 1 else 0)) % 256;
    assert e'[8 * d..] == x + [bit];
    assert e'[..8 * d] == e[..8 * d];
    assert 0 <= t < 256 && t == Value(e'[8 * d..]) by {
      ValueShiftIn(x, bit);
    }
    PackByte(e', d);
    assert e'[8 * d..8 * d + 8] == e'[8 * d..];
    assert e'[8 * (d + 1)..] == [];
  }

  /**
   * The inner loop of huffman_compress for the code string in row ch of
   * the table: every symbol is shifted in, and bits_sum is incremented,
   * as an unsigned int, once per symbol.
   */
  method EmitCode(t: array2<char>, ch: byte, ghost code: seq<char>, dest: array<byte>,
                  d: nat, tmp: byte, bits: nat, bitsSum: nat, ghost e: seq<bool>)
    returns (d': nat, tmp': byte, bits': nat, bitsSum': nat)
    requires RowHolds(t, ch, code) && '\0' !in code && Emitted(dest[..], d, tmp, bits, e)
    requires |e| + |code| <= 8 * dest.Length
    modifies dest
    ensures Emitted(dest[..], d', tmp', bits', e + CodeBits(code))
    ensures bitsSum' == Bump32(bitsSum, |code|)
  {
    d', tmp', bits', bitsSum' := d, tmp, bits, bitsSum;
    var c := 0;
    ghost var done := e;
    assert code[..0] == [];
    while t[ch, c] != '\0'
      invariant c <= |code| && done == e + CodeBits(code[..c]) && Emitted(dest[..], d', tmp', bits', done)
      invariant bitsSum' == Bump32(bitsSum, c)
      decreases |code| - c
    {
      var sym := t[ch, c];
      assert |done| < 8 * dest.Length;
      d', tmp', bits' := EmitBit(dest, d', tmp', bits', sym, done);
      assert done + [sym != '0'] == e + CodeBits(code[..c + 1]) by {
        CodeBitsSnoc(code, c);
      }
      done := done + [sym != '0'];
      c := c + 1;
      bitsSum' := (bitsSum' + 1) % U32;
    }
    assert code[..c] == code;
  }

  /**
   * One symbol of a code string: tmp shifts in a 0 bit for '0' and a 1
   * bit for anything else; once it holds eight bits it is stored at
   * dest[d] and starts over empty.
   */
  method EmitBit(dest: array<byte>, d: nat, tmp: byte, bits: nat, sym: char, ghost e: seq<bool>)
    returns (d': nat, tmp': byte, bits': nat)
    requires Emitted(dest[..], d, tmp, bits, e) && |e| < 8 * dest.Length
    modifies dest
    ensures Emitted(dest[..], d', tmp', bits', e + [sym != '0'])
  {
    if bits < 7 {
      EmitPartial(dest[..], d, tmp, bits, e, sym != '0');
    } else {
      EmitFull(dest[..], d, tmp, bits, e, sym != '0');
    }
    if sym == '0' {
      tmp' := (tmp * 2) % 256;
    } else {
      tmp' := (tmp * 2 + 1) % 256;
    }
    d', bits' := d, bits + 1;
    if bits' == 8 {
      dest[d] := tmp';
      d', tmp', bits' := d + 1, 0, 0;
    }
  }

  /** With no bits held in tmp, the bytes written are the whole packed stream. */
  lemma FlushEmpty(out: seq<byte>, d: nat, tmp: int, e: seq<bool>)
    requires Emitted(out, d, tmp, 0, e)
    ensures |Pack(e)| == d && out == Pack(e) + ZeroBytes(|out| - d)
  {
    assert e[..8 * d] == e;
    assert out == out[..d] + out[d..];
  }

  /**
   * With bits held in tmp, `tmp << (8 - bits)` stored at out[d] is the last
   * byte of the packed stream.
   */
  lemma FlushPartial(out: seq<byte>, d: nat, tmp: int, bits: nat, e: seq<bool>)
    requires Emitted(out, d, tmp, bits, e) && bits != 0 && |e| <= 8 * |out|
    ensures var t := Shl(tmp, 8 - bits) % 256;
      d < |out| && |Pack(e)| == d + 1 && 0 <= t < 256 &&
      out[d := t] == Pack(e) + ZeroBytes(|out| - d - 1)
  {
    PackTail(e, d);
    var t := Shl(tmp, 8 - bits) % 256;
    var o := out[d := t];
    assert o[..d + 1] == o[..d] + [t];
    assert o == o[..d + 1] + o[d + 1..];
  }

  /**
   * The end of huffman_compress: a partly filled last byte has its bits
   * moved to the high end and is stored; the buffer then holds the packed
   * bits followed by calloc's zeros.
   */
  method Flush(dest: array<byte>, d: nat, tmp: byte, bits: nat, ghost e: seq<bool>)
    requires Emitted(dest[..], d, tmp, bits, e) && |e| <= 8 * dest.Length
    modifies dest
    ensures |Pack(e)| <= dest.Length && dest[..] == Pack(e) + ZeroBytes(dest.Length - |Pack(e)|)
  {
    if bits != 0 {
      ghost var out := dest[..];
      FlushPartial(out, d, tmp, bits, e);
      var last: byte := Shl(tmp, 8 - bits) % 256;
      dest[d] := last;
      assert dest[..] == out[d := last];
    } else {
      FlushEmpty(dest[..], d, tmp, e);
    }
  }

  /**
   * The size of the buffer huffman_decompress allocates for len bits, as
   * written: ((len / 8) + 1) * 7 bytes, for the decoded bytes and the NUL
   * after them.
   */
  function DecompressCapacity(len: nat): (r: nat)
    ensures r >= 7
  {
    (len / 8 + 1) * 7
  }

  /** From 49 bits on, that buffer has fewer than len + 1 bytes. */
  lemma CapacityShort(len: nat)
    requires len >= 49
    ensures DecompressCapacity(len) < len + 1
  {
    var q, r := len / 8, len % 8;
    assert len == 8 * q + r;
    assert q >= 6 && (q == 6 ==> r >= 1);
  }

  /**
   * The as-written buffer overflows: with two byte values present every
   * bit decodes to one byte, so 56 bits (the 7 bytes that compressing 56
   * bytes yields) decode to 56 bytes, and with the NUL 57 bytes are
   * written into a buffer of DecompressCapacity(56) == 56.
   */
  lemma DecompressOverflows(nodes: seq<Node>, root: nat, syms: seq<byte>, f: seq<uintmax>, bits: seq<bool>)
    requires BuiltTree(nodes, root, syms, f) && |syms| == 2 && |bits| == 56
    ensures Linked(nodes) && nodes[root].kind != LEAF_NODE
    ensures |DecodeFrom(nodes, root, root, bits)| + 1 > DecompressCapacity(|bits|)
  {
    TwoLeafDecode(nodes, root, syms, f, bits);
    CapacityShort(|bits|);
  }

  /**
   * The body of huffman_decompress's loop for bit k of the stream, bit
   * `bits` of byte b: the walk moves from tp to the child the bit selects;
   * a leaf reached has its byte stored at dest[outLen], and the walk
   * restarts at the root.
   */
  method DecodeBit(nodes: seq<Node>, root: nat, b: byte, bits: nat, tp: nat, dest: array<byte>, outLen: nat,
                   ghost stream: seq<bool>, ghost k: nat)
    returns (tp': nat, outLen': nat)
    requires Linked(nodes) && root < |nodes| && tp < |nodes|
    requires nodes[root].kind != LEAF_NODE && nodes[tp].kind != LEAF_NODE
    requires bits < 8 && k < |stream| && stream[k] == BitOf(b, bits) && outLen < dest.Length
    modifies dest
    ensures tp' < |nodes| && nodes[tp'].kind != LEAF_NODE && outLen' <= outLen + 1
    ensures dest[..outLen'] + DecodeFrom(nodes, root, tp', stream[k + 1..]) ==
      old(dest[..outLen]) + DecodeFrom(nodes, root, tp, stream[k..])
  {
    var bitCh := Shr(b, 7 - bits) % 2;
    DecodeStep(nodes, root, tp, stream, k, dest[..outLen]);
    if bitCh == 0 {
      tp' := nodes[tp].lc;
    } else {
      tp' := nodes[tp].rc;
    }
    outLen' := outLen;
    if nodes[tp'].kind == LEAF_NODE {
      dest[outLen] := nodes[tp'].ch;
      assert dest[..outLen + 1] == old(dest[..outLen]) + [nodes[tp'].ch];
      outLen' := outLen + 1;
      tp' := root;
    }
  }

  /** The loop of huffman_decompress: the walk over the first len bits of src from the root of a linked arena. */
  method DecodeBits(nodes: seq<Node>, root: nat, src: array<byte>, len: nat) returns (dest: array<byte>, outLen: nat)
    requires Linked(nodes) && root < |nodes| && (len == 0 || nodes[root].kind != LEAF_NODE)
    requires len <= 8 * src.Length
    ensures |Unpack(src[..])| == 8 * src.Length
    ensures dest.Length == len + 1 && outLen <= len && dest[outLen] == 0
    ensures dest[..outLen] == DecodeFrom(nodes, root, root, Unpack(src[..])[..len])
  {
    ghost var stream := Unpack(src[..])[..len];
    dest := new byte[len + 1](_ => 0);
    var tp := root;
    var s, bits, srcLen := 0, 0, len;
    outLen := 0;
    while srcLen > 0
      invariant srcLen <= len && len - srcLen == 8 * s + bits && bits < 8
      invariant 0 <= tp < |nodes| && (len > 0 ==> nodes[tp].kind != LEAF_NODE)
      invariant outLen <= len - srcLen
      invariant dest[..outLen] + DecodeFrom(nodes, root, tp, stream[len - srcLen..]) ==
        DecodeFrom(nodes, root, root, stream)
    {
      ghost var k := len - srcLen;
      assert stream[k] == BitOf(src[s], bits) by {
        UnpackAt(src[..], s, bits);
      }
      tp, outLen := DecodeBit(nodes, root, src[s], bits, tp, dest, outLen, stream, k);
      srcLen := srcLen - 1;
      bits := bits + 1;
      if bits == 8 {
        bits := 0;
        s := s + 1;
      }
    }
    dest[outLen] := 0;
  }

  class Coder {
    /** Number of distinct byte values, set by create_huffman_tree. */
    var n: int
    /** Occurrence counter of each byte value. */
    const frequency: array<uintmax>
    /** The minimum priority queue, head first, without its sentinel. */
    var mpq: seq<nat>
    /** Whether the ULLONG_MAX sentinel sits at the tail of the queue. */
    var sentinel: bool
    /** The counters the current tree was built from: frequency as create_huffman_tree read it. */
    ghost var counts: seq<uintmax>
    /** Every node allocated for the current tree. */
    var nodes: seq<Node>
    /** The root of the Huffman tree, NIL before one is built. */
    var huffTree: int
    /** leaf_node[j]: the leaf of the j-th present byte value. */
    const leafNode: array<int>
    /** code_table[v]: the NUL-terminated code string of byte value v. */
    const codeTable: array2<char>

    /**
     * One slot per byte value in each table, rows of CODE_LEN characters,
     * and a NUL in the last cell of every row, so that no row runs into the
     * next one.
     */
    ghost predicate Valid()
      reads codeTable
    {
      (frequency.Length, leafNode.Length, codeTable.Length0, codeTable.Length1) ==
        (RANGE_SIZE, RANGE_SIZE, RANGE_SIZE, CODE_LEN) &&
      forall v :: 0 <= v < RANGE_SIZE ==> codeTable[v, LAST_CELL] == '\0'
    }

    /** The code string stored for byte value v. */
    ghost function Code(v: byte): seq<char>
      requires Valid()
      reads codeTable
    {
      CStr(Row(codeTable, v))
    }

    /** All 256 code strings. */
    ghost function Codes(): (r: seq<seq<char>>)
      requires Valid()
      reads codeTable
      ensures |r| == RANGE_SIZE
    {
      seq(RANGE_SIZE, v requires 0 <= v < RANGE_SIZE && Valid() reads codeTable => Code(v))
    }

    /** A stored code has at most CODE_LEN - 1 symbols. */
    lemma CodeBound(v: byte)
      requires Valid()
      ensures |Code(v)| < CODE_LEN
    {
      var row := Row(codeTable, v);
      assert row[LAST_CELL] == '\0';
    }

    /** Row v holds its code string followed by NUL. */
    lemma CodeRow(v: byte)
      requires Valid()
      ensures RowHolds(codeTable, v, Code(v))
    {
      CodeBound(v);
    }

    /** The coder as calloc leaves it: all counters zero, no nodes, empty queue, empty codes. */
    constructor ()
      ensures Valid() && fresh(frequency) && fresh(leafNode) && fresh(codeTable)
      ensures n == 0 && mpq == [] && !sentinel && nodes == [] && huffTree == NIL
      ensures forall v :: 0 <= v < RANGE_SIZE ==> frequency[v] == 0 && leafNode[v] == NIL
      ensures forall v, k :: 0 <= v < RANGE_SIZE && 0 <= k < CODE_LEN ==> codeTable[v, k] == '\0'
    {
      n := 0;
      frequency := new uintmax[RANGE_SIZE](_ => 0);
      mpq := [];
      sentinel := false;
      counts := [];
      nodes := [];
      huffTree := NIL;
      leafNode := new int[RANGE_SIZE](_ => NIL);
      codeTable := new char[RANGE_SIZE, CODE_LEN]((_, _) => '\0');
    }

    /**
     * compute_frequency: adds to each counter the number of occurrences of
     * its byte value among the first l bytes of b, wrapping modulo 2^64 as
     * uintmax_t does. l = 0 leaves the table as it is.
     */
    method ComputeFrequency(b: seq<byte>, l: nat)
      requires Valid() && l <= |b|
      modifies frequency
      ensures forall v :: 0 <= v < RANGE_SIZE ==>
        frequency[v] == (old(frequency[v]) + Occurrences(b[..l], v)) % U64
    {
      var i := 0;
      while i < l
        invariant 0 <= i <= l
        invariant forall v :: 0 <= v < RANGE_SIZE ==>
          frequency[v] == (old(frequency[v]) + Occurrences(b[..i], v)) % U64
      {
        var x := b[i];
        assert b[..i + 1][..i] == b[..i];
        WrapIncrement(old(frequency[x]) + Occurrences(b[..i], x));
        frequency[x] := (frequency[x] + 1) % U64;
        i := i + 1;
      }
    }

    /** character_count: the number of byte values with a non-zero counter. */
    method CharacterCount() returns (count: int)
      requires Valid()
      ensures count == |Present(frequency[..])|
    {
      count := 0;
      var i := 0;
      while i < RANGE_SIZE
        invariant 0 <= i <= RANGE_SIZE
        invariant count == |Present(frequency[..i])|
      {
        PresentSnoc(frequency[..], i);
        assert frequency[..][..i + 1] == frequency[..i + 1];
        if frequency[i] > 0 {
          count := count + 1;
        }
        i := i + 1;
      }
      assert frequency[..i] == frequency[..];
    }

    /**
     * mpq_insert: an empty queue gets node z followed by the sentinel;
     * otherwise z goes before the first entry whose weight is at least its
     * own, and the sentinel's ULLONG_MAX weight stops the scan at the tail.
     */
    method MpqInsert(z: nat)
      requires z < |nodes| && InArena(nodes, mpq) && (sentinel || mpq == [])
      modifies this`mpq, this`sentinel
      ensures sentinel
      ensures mpq == InsertAt(old(mpq), InsertPos(nodes, old(mpq), nodes[z].weight), z)
    {
      if mpq == [] && !sentinel {
        sentinel := true;
        mpq := [z];
        return;
      }
      var w := nodes[z].weight;
      var k := 0;
      var found := false;
      while !found
        invariant 0 <= k <= |mpq|
        invariant forall j :: 0 <= j < k ==> nodes[mpq[j]].weight < w
        invariant found ==> k < |mpq| ==> w <= nodes[mpq[k]].weight
        decreases |mpq| - k, !found
      {
        var vw := if k < |mpq| then nodes[mpq[k]].weight else ULLONG_MAX;
        if w <= vw {
          found := true;
        } else {
          k := k + 1;
        }
      }
      assert k == InsertPos(nodes, mpq, w);
      mpq := mpq[..k] + [z] + mpq[k..];
    }

    /**
     * mpq_extract_min: NULL from an empty queue; otherwise the head is
     * unlinked and returned, and the rest keeps its order. The sentinel is
     * the head only once every node has left.
     */
    method MpqExtractMin() returns (r: Popped)
      modifies this`mpq, this`sentinel
      ensures old(mpq) != [] ==> r == NodeAt(old(mpq)[0]) && mpq == old(mpq)[1..] && sentinel == old(sentinel)
      ensures old(mpq) == [] && old(sentinel) ==> r == Sentinel && mpq == [] && !sentinel
      ensures old(mpq) == [] && !old(sentinel) ==> r == Null && mpq == [] && !sentinel
    {
      if mpq != [] {
        r := NodeAt(mpq[0]);
        mpq := mpq[1..];
      } else if sentinel {
        r := Sentinel;
        sentinel := false;
      } else {
        r := Null;
      }
    }

    /**
     * The tree create_huffman_tree leaves: n present byte values in the
     * counters it read, the arena and root of HuffmanTree, and the j-th
     * leaf recorded in leaf_node[j].
     */
    ghost predicate TreeBuilt()
      reads this, leafNode
    {
      leafNode.Length == RANGE_SIZE && Buildable(counts) && n == |Present(counts)| &&
      (nodes, huffTree) == HuffmanTree(counts) &&
      (forall j :: 0 <= j < n ==> leafNode[j] == j)
    }

    /**
     * The built arena is a Huffman tree of the counters it was built from:
     * 2n - 1 nodes, the root weighing the sum of the counters, and parent
     * links from every node leading up to the root.
     */
    lemma TreeFacts()
      requires TreeBuilt()
      ensures BuiltTree(nodes, huffTree, Present(counts), counts)
      ensures |nodes| == 2 * n - 1 && 0 <= huffTree && Rooted(nodes, huffTree)
      ensures nodes[huffTree].weight == Sum(counts)
    {
      HuffmanTreeShape(counts);
      BuiltTreeIsRooted(nodes, huffTree, Present(counts), counts);
    }

    /**
     * create_mp_queue: a fresh queue holding one leaf per byte value with a
     * non-zero counter, created in ascending byte order, the j-th stored in
     * leaf_node[j], weighted by its counter; the queue ends in the sentinel
     * unless it is empty. SeedQueueForest states what this arena and queue
     * are: the forest of these leaves, totalling the sum of the counters.
     */
    method CreateMpQueue()
      requires Valid()
      modifies this`mpq, this`sentinel, this`nodes, leafNode
      ensures (nodes, mpq) == SeedQueue(frequency[..], RANGE_SIZE)
      ensures sentinel == (nodes != [])
      ensures forall k :: 0 <= k < RANGE_SIZE ==> leafNode[k] == if k < |nodes| then k else old(leafNode[k])
    {
      mpq := [];
      sentinel := false;
      nodes := [];
      var i := 0;
      var j := 0;
      while i < RANGE_SIZE
        invariant 0 <= i <= RANGE_SIZE
        invariant (nodes, mpq) == SeedQueue(frequency[..], i)
        invariant j == |nodes| <= i && sentinel == (j != 0)
        invariant forall k :: 0 <= k < RANGE_SIZE ==> leafNode[k] == if k < j then k else old(leafNode[k])
      {
        if frequency[i] > 0 {
          AddLeaf(i, j);
          j := j + 1;
        }
        i := i + 1;
      }
    }

    /**
     * The body of create_mp_queue's loop for a byte value v with a non-zero
     * counter: a zero-filled node becomes the leaf of v, is recorded in
     * leaf_node[j] and is queued.
     */
    method AddLeaf(v: byte, j: nat)
      requires Valid() && frequency[v] > 0
      requires InArena(nodes, mpq) && j == |nodes| <= v && sentinel == (j != 0)
      modifies this`mpq, this`sentinel, this`nodes, leafNode
      ensures (nodes, mpq) == SeedLeaf(old(nodes), old(mpq), v, frequency[v]) && sentinel
      ensures forall k :: 0 <= k < RANGE_SIZE ==> leafNode[k] == if k == j then j else old(leafNode[k])
    {
      assert mpq != [] ==> mpq[0] < |nodes|;
      var chp := |nodes|;
      nodes := nodes + [ZeroNode];
      leafNode[j] := chp;
      nodes := nodes[chp := nodes[chp].(kind := LEAF_NODE, ch := v, weight := frequency[v])];
      assert nodes == old(nodes) + [LeafNode(v, frequency[v])];
      MpqInsert(chp);
    }

    /**
     * create_huffman_tree: n = character_count, which must not be 0; then
     * n - 1 merges, each taking the two lightest nodes off the queue, the
     * first as left and the second as right child of a new node whose
     * weight is their sum, and queueing the new node. The last node left
     * becomes the root and the sentinel is freed.
     */
    method CreateHuffmanTree() returns (status: int)
      requires Valid() && Buildable(frequency[..])
      modifies this`n, this`mpq, this`sentinel, this`nodes, this`huffTree, this`counts, leafNode
      ensures status == HUFFMAN_OK && TreeBuilt() && counts == old(frequency[..])
      ensures mpq == [] && !sentinel
      ensures forall k :: n <= k < RANGE_SIZE ==> leafNode[k] == old(leafNode[k])
    {
      counts := frequency[..];
      n := CharacterCount();
      CreateMpQueue();
      MergeForest();
      status := HUFFMAN_OK;
    }

    /**
     * The state between create_mp_queue and the merges: n counted, and the
     * queue holding one leaf per present byte value, the j-th in slot j.
     */
    ghost predicate Seeded()
      reads this, leafNode
    {
      leafNode.Length == RANGE_SIZE && Buildable(counts) && n == |Present(counts)| &&
      (nodes, mpq) == SeedQueue(counts, RANGE_SIZE) && sentinel &&
      (forall j :: 0 <= j < n ==> leafNode[j] == j)
    }

    /** The rest of create_huffman_tree: n - 1 merges, then the root is recorded. */
    method MergeForest()
      requires Seeded()
      modifies this`mpq, this`sentinel, this`nodes, this`huffTree
      ensures TreeBuilt() && mpq == [] && !sentinel
    {
      HuffmanTreeAfter(counts, nodes, mpq);
      MergeAll();
      RecordRoot();
    }

    /**
     * The end of create_huffman_tree: the one node left in the queue
     * becomes the root, and the sentinel behind it is unlinked and freed.
     */
    method RecordRoot()
      requires |mpq| == 1 && sentinel
      modifies this`mpq, this`sentinel, this`huffTree
      ensures huffTree == old(mpq[0]) && mpq == [] && !sentinel
    {
      var root := MpqExtractMin();
      huffTree := root.idx;
      // TAILQ_LAST is the sentinel: unlink and free it
      sentinel := false;
    }

    /** The loop of create_huffman_tree: n - 1 merges of the two lightest queued nodes. */
    method MergeAll()
      requires InArena(nodes, mpq) && 1 <= |mpq| == n && sentinel && SumW(nodes, mpq) < U64
      modifies this`nodes, this`mpq, this`sentinel
      ensures (nodes, mpq) == Build(old(nodes), old(mpq), |old(mpq)| - 1) && sentinel
    {
      ghost var nodes0, q0 := nodes, mpq;
      for i := 1 to n
        invariant (nodes, mpq) == Build(nodes0, q0, i - 1) && sentinel
      {
        MergeMin();
      }
    }

    /**
     * The body of create_huffman_tree's loop: a zero-filled node z takes
     * the first extracted node as left child and the second as right
     * child, both get z as parent, z gets their summed weight and is
     * queued.
     */
    method MergeMin()
      requires InArena(nodes, mpq) && |mpq| >= 2 && sentinel && SumW(nodes, mpq) < U64
      modifies this`nodes, this`mpq, this`sentinel
      ensures (nodes, mpq) == MergeQ(old(nodes), old(mpq)) && sentinel
    {
      ghost var nodes0, q0 := nodes, mpq;
      SumWHeads(nodes, mpq);
      var z := |nodes|;
      nodes := nodes + [ZeroNode];
      var x := MpqExtractMin();
      nodes := nodes[x.idx := nodes[x.idx].(pa := z)];
      var y := MpqExtractMin();
      nodes := nodes[y.idx := nodes[y.idx].(pa := z)];
      nodes := nodes[z := nodes[z].(lc := x.idx, rc := y.idx, weight := nodes[x.idx].weight + nodes[y.idx].weight)];
      assert nodes == Merged(nodes0, q0[0], q0[1]);
      MpqInsert(z);
    }

    /** The j-th leaf holds the j-th present byte value. */
    lemma LeafChar(j: nat)
      requires TreeBuilt() && j < n
      ensures j < |nodes| && nodes[j].kind == LEAF_NODE && nodes[j].ch == Present(counts)[j]
    {
      TreeFacts();
      assert LeafAt(nodes, Present(counts), counts, j);
    }

    /**
     * What the walks of create_huffman_code_table rely on: parent links
     * from every node lead up to the root, and leaf_node[j] is the leaf of
     * the j-th present byte value.
     */
    ghost predicate Walkable()
      reads this, leafNode
    {
      leafNode.Length == RANGE_SIZE && |counts| == RANGE_SIZE && n == |Present(counts)| &&
      0 <= huffTree && Rooted(nodes, huffTree) && n <= |nodes| &&
      forall j :: 0 <= j < n ==>
        leafNode[j] == j && nodes[j].kind == LEAF_NODE && nodes[j].ch == Present(counts)[j]
    }

    /** The built tree can be walked. */
    lemma BuiltIsWalkable()
      requires TreeBuilt()
      ensures Walkable()
    {
      TreeFacts();
      forall j | 0 <= j < n
        ensures nodes[j].kind == LEAF_NODE && nodes[j].ch == Present(counts)[j]
      {
        LeafChar(j);
      }
    }

    /** Rows of the first i present byte values hold the codes of their leaves. */
    ghost predicate CodesUpTo(i: nat)
      requires |counts| == RANGE_SIZE && 0 <= huffTree && i <= |Present(counts)|
      reads this, codeTable
    {
      forall j :: 0 <= j < i ==>
        RowHolds(codeTable, Present(counts)[j], CodeString(PathTo(nodes, huffTree, j)))
    }

    /**
     * The inner loop of create_huffman_code_table for leaf np: from the
     * leaf up the parent links to the root, appending '0' at each left
     * child and '1' at each right child, so that re_code ends up holding
     * the leaf's code backwards.
     */
    method WalkUp(reCode: array<char>, np: nat)
      requires 0 <= huffTree && Rooted(nodes, huffTree)
      requires np < |nodes| && |PathTo(nodes, huffTree, np)| < CODE_LEN
      requires reCode.Length == CODE_LEN && reCode[0] == '\0'
      modifies reCode
      ensures CStr(reCode[..]) == Reverse(CodeString(PathTo(nodes, huffTree, np)))
    {
      ghost var path := PathTo(nodes, huffTree, np);
      ghost var c: seq<bool> := [];
      CStrAt(reCode[..], 0);
      var cur := np;
      while cur != huffTree
        invariant cur < |nodes|
        invariant path == PathTo(nodes, huffTree, cur) + Reverse(c)
        invariant CStr(reCode[..]) == CodeString(c)
        decreases |nodes| - cur
      {
        var pp := nodes[cur].pa;
        var bit := nodes[pp].lc != cur;
        if !bit {
          StrCat(reCode, '0');
        } else {
          StrCat(reCode, '1');
        }
        CodeStringSnoc(c, bit);
        PathStep(nodes, huffTree, np, cur, c);
        c := c + [bit];
        cur := pp;
      }
      ReversedCode(c, path);
    }

    /**
     * The first half of create_huffman_code_table's round for the i-th
     * leaf: its code is collected backwards in re_code and reversed in
     * place, so that re_code holds the code; ch is the leaf's byte value.
     */
    method BuildCode(reCode: array<char>, i: nat) returns (ch: byte)
      requires Walkable() && CodesFit(nodes, huffTree, n) && i < n
      requires reCode.Length == CODE_LEN && reCode[0] == '\0'
      modifies reCode
      ensures ch == Present(counts)[i]
      ensures CStr(reCode[..]) == CodeString(PathTo(nodes, huffTree, i))
    {
      ghost var code := CodeString(PathTo(nodes, huffTree, i));
      var np := leafNode[i];
      ch := nodes[np].ch;
      WalkUp(reCode, np);
      TurnAround(reCode, code);
    }

    /**
     * The second half of the round: strlcpy copies the string in re_code
     * into the row of byte value ch, and re_code is emptied again. No other
     * row changes.
     */
    method StoreCode(reCode: array<char>, ch: byte, ghost code: seq<char>)
      requires Valid() && reCode.Length == CODE_LEN
      requires CStr(reCode[..]) == code && |code| < CODE_LEN
      modifies reCode, codeTable
      ensures Valid() && reCode[0] == '\0' && RowHolds(codeTable, ch, code)
      ensures forall v, k :: 0 <= v < RANGE_SIZE && v != ch && 0 <= k < CODE_LEN ==>
        codeTable[v, k] == old(codeTable[v, k])
    {
      var _ := StrLCpy(codeTable, ch, reCode, CODE_LEN);
      reCode[0] := '\0';
    }

    /**
     * Storing the code of the i-th present byte value ch completes the rows
     * of the first i + 1 present values: earlier rows belong to smaller
     * byte values and are left alone, as are rows of absent values.
     */
    method RecordCode(reCode: array<char>, i: nat, ch: byte)
      requires Valid() && reCode.Length == CODE_LEN
      requires |counts| == RANGE_SIZE && 0 <= huffTree && i < |Present(counts)| && ch == Present(counts)[i]
      requires CodesUpTo(i) && |PathTo(nodes, huffTree, i)| < CODE_LEN
      requires CStr(reCode[..]) == CodeString(PathTo(nodes, huffTree, i))
      modifies reCode, codeTable
      ensures Valid() && reCode[0] == '\0' && CodesUpTo(i + 1)
      ensures forall v, k :: 0 <= v < RANGE_SIZE && counts[v] == 0 && 0 <= k < CODE_LEN ==>
        codeTable[v, k] == old(codeTable[v, k])
    {
      StoreCode(reCode, ch, CodeString(PathTo(nodes, huffTree, i)));
      PresentAscending(counts);
      forall j | 0 <= j < i
        ensures RowHolds(codeTable, Present(counts)[j], CodeString(PathTo(nodes, huffTree, j)))
      {
        assert Present(counts)[j] < ch;
        assert old(RowHolds(codeTable, Present(counts)[j], CodeString(PathTo(nodes, huffTree, j))));
      }
    }

    /**
     * One round of create_huffman_code_table's loop for the i-th leaf: the
     * row of its byte value gets its code, the rows of the earlier leaves
     * keep theirs, and re_code is left empty.
     */
    method WriteCode(reCode: array<char>, i: nat)
      requires Valid() && Walkable() && CodesFit(nodes, huffTree, n) && i < n
      requires reCode.Length == CODE_LEN && reCode[0] == '\0' && CodesUpTo(i)
      modifies reCode, codeTable
      ensures Valid() && reCode[0] == '\0' && CodesUpTo(i + 1)
      ensures forall v, k :: 0 <= v < RANGE_SIZE && counts[v] == 0 && 0 <= k < CODE_LEN ==>
        codeTable[v, k] == old(codeTable[v, k])
    {
      var ch := BuildCode(reCode, i);
      RecordCode(reCode, i, ch);
    }

    /**
     * create_huffman_code_table: for each of the n leaves, the row of its
     * byte value gets the leaf's code, the branch bits from the root down
     * to it as '0' and '1' characters, NUL-terminated. The rows of absent
     * byte values keep what they held.
     */
    method CreateHuffmanCodeTable() returns (status: int)
      requires Valid() && TreeBuilt() && CodesFit(nodes, huffTree, n)
      modifies codeTable
      ensures status == HUFFMAN_OK && Valid() && CodesUpTo(n)
      ensures forall v, k :: 0 <= v < RANGE_SIZE && counts[v] == 0 && 0 <= k < CODE_LEN ==>
        codeTable[v, k] == old(codeTable[v, k])
    {
      BuiltIsWalkable();
      WriteCodes();
      status := HUFFMAN_OK;
    }

    /**
     * The loop of create_huffman_code_table over the n leaves, with its
     * re_code buffer: after round i the rows of the first i present byte
     * values hold their codes.
     */
    method WriteCodes()
      requires Valid() && Walkable() && CodesFit(nodes, huffTree, n)
      modifies codeTable
      ensures Valid() && CodesUpTo(n)
      ensures forall v, k :: 0 <= v < RANGE_SIZE && counts[v] == 0 && 0 <= k < CODE_LEN ==>
        codeTable[v, k] == old(codeTable[v, k])
    {
      var reCode := new char[CODE_LEN](_ => '\0');
      var i := 0;
      while i < n
        invariant 0 <= i <= n && Valid() && reCode[0] == '\0'
        invariant CodesUpTo(i)
        invariant forall v, k :: 0 <= v < RANGE_SIZE && counts[v] == 0 && 0 <= k < CODE_LEN ==>
          codeTable[v, k] == old(codeTable[v, k])
      {
        WriteCode(reCode, i);
        i := i + 1;
      }
    }

    /**
     * huffman_compress: the code strings of the first len bytes of src
     * shifted in one symbol at a time ('0' as a 0 bit, any other character
     * as a 1 bit), each eight bits stored as the next byte of dest and a
     * last partial byte padded with zero low bits. dest is the len bytes
     * calloc returned, and the count of bits comes back as an unsigned int.
     */
    method Compress(src: array<byte>, len: nat) returns (dest: array<byte>, bitsSum: nat)
      requires Valid() && len <= src.Length && len < INT_LIMIT
      ensures var e := Encode(Codes(), src[..len]);
        dest.Length == len && |Pack(e)| <= len &&
        dest[..] == Pack(e) + ZeroBytes(len - |Pack(e)|) && bitsSum == |e| % U32
    {
      dest := new byte[len](_ => 0);
      var d: nat, tmp: byte, bits: nat;
      d, tmp, bits, bitsSum := EmitAll(src, len, dest);
      ghost var e := Encode(Codes(), src[..len]);
      assert bitsSum == |e| % U32 by {
        Bump32Wraps(0, |e|);
      }
      Flush(dest, d, tmp, bits, e);
    }

    /**
     * The outer loop of huffman_compress: the code string of each of the
     * first len bytes of src is shifted in, in order.
     */
    method EmitAll(src: array<byte>, len: nat, dest: array<byte>)
      returns (d: nat, tmp: byte, bits: nat, bitsSum: nat)
      requires Valid() && len <= src.Length && dest.Length == len && src != dest
      requires forall k :: 0 <= k < len ==> dest[k] == 0
      modifies dest
      ensures var e := Encode(Codes(), src[..len]);
        |e| <= 8 * len && Emitted(dest[..], d, tmp, bits, e) && bitsSum == Bump32(0, |e|)
    {
      d, tmp, bits, bitsSum := 0, 0, 0, 0;
      for i := 0 to len
        invariant Encoding(Codes(), src[..i], dest[..], d, tmp, bits, bitsSum)
      {
        d, tmp, bits, bitsSum := EmitSymbol(src[i], dest, d, tmp, bits, bitsSum, src[..i]);
        assert src[..i + 1] == src[..i] + [src[i]];
      }
    }

    /** One pass of huffman_compress's loop: the code of ch is appended. */
    method EmitSymbol(ch: byte, dest: array<byte>, d: nat, tmp: byte, bits: nat, bitsSum: nat, ghost s: seq<byte>)
      returns (d': nat, tmp': byte, bits': nat, bitsSum': nat)
      requires Valid() && |s| < dest.Length && Encoding(Codes(), s, dest[..], d, tmp, bits, bitsSum)
      modifies dest
      ensures Encoding(Codes(), s + [ch], dest[..], d', tmp', bits', bitsSum')
    {
      ghost var codes := Codes();
      ghost var e := Encode(codes, s);
      ghost var code := Code(ch);
      CodeBound(ch);
      CodeRow(ch);
      d', tmp', bits', bitsSum' := EmitCode(codeTable, ch, code, dest, d, tmp, bits, bitsSum, e);
      ghost var e' := e + CodeBits(code);
      assert |e'| == |e| + |code|;
      assert bitsSum' == Bump32(0, |e'|) by {
        Bump32Add(0, |e|, |code|);
      }
      assert Encode(codes, s + [ch]) == e' by {
        assert codes[ch] == code;
        EncodeSnoc(codes, s, ch);
      }
    }

    /** The code table holds, for each present byte value, the code of its leaf. */
    lemma TableCodes()
      requires Valid() && |counts| == RANGE_SIZE && 0 <= huffTree && 0 <= n <= |Present(counts)| && CodesUpTo(n)
      ensures forall j :: 0 <= j < n ==> Codes()[Present(counts)[j]] == CodeString(PathTo(nodes, huffTree, j))
    {
      forall j | 0 <= j < n
        ensures Codes()[Present(counts)[j]] == CodeString(PathTo(nodes, huffTree, j))
      {
        var v, code := Present(counts)[j], CodeString(PathTo(nodes, huffTree, j));
        assert RowHolds(codeTable, v, code);
        RowHoldsCStr(codeTable, v, code);
      }
    }

    /**
     * decompress(compress(s)) == s on the coder: once the tree and the code
     * table are built (at least two byte values present), the bits the
     * compressor packs for a text of present byte values, followed by any
     * padding, decode from the root back to the text.
     */
    lemma CompressDecompress(s: seq<byte>, pad: seq<byte>)
      requires Valid() && TreeBuilt() && CodesUpTo(n) && n >= 2
      requires forall i :: 0 <= i < |s| ==> counts[s[i]] > 0
      ensures Linked(nodes) && 0 <= huffTree < |nodes| && nodes[huffTree].kind != LEAF_NODE
      ensures var e := Encode(Codes(), s); var bits := Unpack(Pack(e) + pad);
        |bits| >= |e| && DecodeFrom(nodes, huffTree, huffTree, bits[..|e|]) == s
    {
      TreeFacts();
      TableCodes();
      RoundTrip(nodes, huffTree, counts, Codes(), s, pad);
    }

    /**
     * With a single present value its code is the empty string, so every
     * buffer of that value compresses to no bits at all.
     */
    lemma SingleValueEncodesNothing(s: seq<byte>)
      requires Valid() && TreeBuilt() && CodesUpTo(n) && n == 1
      requires forall i :: 0 <= i < |s| ==> counts[s[i]] > 0
      ensures Encode(Codes(), s) == []
    {
      TreeFacts();
      SingleLeafCodeEmpty(nodes, huffTree, Present(counts), counts);
      TableCodes();
      forall i | 0 <= i < |s|
        ensures Codes()[s[i]] == []
      {
        assert s[i] in Present(counts);
        assert Present(counts)[0] == s[i];
      }
    }

    /**
     * huffman_decompress with a buffer of len + 1 bytes: the first len bits
     * of src, most significant bit of each byte first, walk the tree from
     * the root, 0 to the left child and 1 to the right; each leaf reached
     * emits its byte and the walk restarts at the root. outLen counts the
     * bytes emitted, and a NUL follows them.
     */
    method Decompress(src: array<byte>, len: nat) returns (dest: array<byte>, outLen: nat)
      requires TreeBuilt() && len < U32 && len <= 8 * src.Length
      requires len == 0 || n >= 2
      ensures Linked(nodes) && 0 <= huffTree < |nodes| && (len == 0 || nodes[huffTree].kind != LEAF_NODE)
      ensures |Unpack(src[..])| == 8 * src.Length
      ensures dest.Length == len + 1 && outLen <= len && dest[outLen] == 0
      ensures dest[..outLen] == DecodeFrom(nodes, huffTree, huffTree, Unpack(src[..])[..len])
    {
      TreeFacts();
      BuiltTreeIsLinked(nodes, Present(counts), counts);
      if len > 0 {
        RootIsInternal(nodes, huffTree, Present(counts), counts);
      }
      dest, outLen := DecodeBits(nodes, huffTree, src, len);
    }

  }
}
