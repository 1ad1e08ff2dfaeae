// The built tree as a code: the path from the root to each leaf (what
// create_huffman_code_table derives through the parent links), descent by
// bits (what huffman_decompress does through the child links), and the
// facts that make the two agree.
module CodeTree {
  import opened HuffmanTypes
  import opened FrequencyTable
  import opened BitStream
  import opened TreeBuild

  /** Every non-leaf node has two children in the arena. */
  ghost predicate Linked(nodes: seq<Node>)
  {
    forall k :: 0 <= k < |nodes| && nodes[k].kind != LEAF_NODE ==>
      0 <= nodes[k].lc < |nodes| && 0 <= nodes[k].rc < |nodes|
  }

  /**
   * Every node other than the root has a parent link to a younger non-leaf
   * node that has it as a child: walking parent links from any node ends at
   * the root.
   */
  ghost predicate Rooted(nodes: seq<Node>, root: nat)
  {
    root < |nodes| && Linked(nodes) &&
    forall j :: 0 <= j < |nodes| && j != root ==>
      var p := nodes[j].pa;
      j < p < |nodes| && nodes[p].kind != LEAF_NODE && (nodes[p].lc == j || nodes[p].rc == j)
  }

  /**
   * In a laid-out arena every merge node has both children in the arena and
   * every leaf has no child links.
   */
  lemma BuiltTreeIsLinked(nodes: seq<Node>, syms: seq<byte>, f: seq<uintmax>)
    requires Layout(nodes, syms, f)
    ensures Linked(nodes)
    ensures forall k :: 0 <= k < |nodes| && nodes[k].kind == LEAF_NODE ==> nodes[k].lc == NIL && nodes[k].rc == NIL
  {
    forall k | 0 <= k < |syms|
      ensures nodes[k].kind == LEAF_NODE && nodes[k].lc == NIL && nodes[k].rc == NIL
    {
      assert LeafAt(nodes, syms, f, k);
    }
    forall k | |syms| <= k < |nodes|
      ensures nodes[k].kind == INTERNAL_NODE && 0 <= nodes[k].lc < |nodes| && 0 <= nodes[k].rc < |nodes|
    {
      assert InternalAt(nodes, k);
    }
  }

  /** In the built tree the parent links lead from every node to the root. */
  lemma BuiltTreeIsRooted(nodes: seq<Node>, root: nat, syms: seq<byte>, f: seq<uintmax>)
    requires BuiltTree(nodes, root, syms, f)
    ensures Rooted(nodes, root)
  {
    BuiltTreeIsLinked(nodes, syms, f);
    forall j | 0 <= j < |nodes| && j != root
      ensures var p := nodes[j].pa;
        j < p < |nodes| && nodes[p].kind != LEAF_NODE && (nodes[p].lc == j || nodes[p].rc == j)
    {
      assert ParentAt(nodes, j);
    }
  }

  /** The child a bit selects: 0 (false) is the left child, 1 (true) the right one. */
  function Child(n: Node, bit: bool): int
  {
    if bit then n.rc else n.lc
  }

  /** The node reached from node i by following path; NIL if the path runs past a leaf. */
  function Descend(nodes: seq<Node>, i: nat, path: seq<bool>): (r: int)
    requires Linked(nodes) && i < |nodes|
    ensures r == NIL || 0 <= r < |nodes|
    decreases |path|
  {
    if path == [] then i
    else if nodes[i].kind == LEAF_NODE then NIL
    else Descend(nodes, Child(nodes[i], path[0]), path[1..])
  }

  lemma {:induction false} DescendAppend(nodes: seq<Node>, i: nat, p: seq<bool>, q: seq<bool>)
    requires Linked(nodes) && i < |nodes|
    ensures var m := Descend(nodes, i, p);
      Descend(nodes, i, p + q) == if m == NIL then NIL else Descend(nodes, m, q)
    decreases |p|
  {
    if p == [] {
      assert p + q == q;
    } else if nodes[i].kind != LEAF_NODE {
      assert (p + q)[1..] == p[1..] + q;
      DescendAppend(nodes, Child(nodes[i], p[0]), p[1..], q);
    }
  }

  /**
   * The code of node j: the branch bits from the root down to j, as the walk
   * over parent links collects them ('0' when the node is its parent's left
   * child, '1' otherwise), in root-to-node order. Each step up reaches a
   * younger node, so the code of node j has fewer bits than there are
   * nodes from j on.
   */
  ghost function PathTo(nodes: seq<Node>, root: nat, j: nat): (r: seq<bool>)
    ensures j < |nodes| ==> |r| < |nodes| - j
    decreases |nodes| - j
  {
    if j == root || j >= |nodes| then []
    else
      var p := nodes[j].pa;
      if j < p < |nodes| then PathTo(nodes, root, p) + [nodes[p].lc != j] else []
  }

  /** Following the code of a node from the root reaches that node. */
  lemma {:induction false} PathLeadsTo(nodes: seq<Node>, root: nat, j: nat)
    requires Rooted(nodes, root) && j < |nodes|
    ensures Descend(nodes, root, PathTo(nodes, root, j)) == j
    decreases |nodes| - j
  {
    if j != root {
      var p := nodes[j].pa;
      PathLeadsTo(nodes, root, p);
      DescendAppend(nodes, root, PathTo(nodes, root, p), [nodes[p].lc != j]);
    }
  }

  /** The first k leaves have codes of at most CODE_LEN - 1 bits: they fit re_code with its NUL. */
  ghost predicate CodesFit(nodes: seq<Node>, root: nat, k: nat)
  {
    forall j :: 0 <= j < k ==> |PathTo(nodes, root, j)| < CODE_LEN
  }

  ghost predicate IsPrefix(a: seq<bool>, b: seq<bool>)
  {
    |a| <= |b| && b[..|a|] == a
  }

  /** Prefix property: no leaf's code begins another leaf's code. */
  lemma PrefixFree(nodes: seq<Node>, root: nat, a: nat, b: nat)
    requires Rooted(nodes, root) && a < |nodes| && b < |nodes| && a != b
    requires nodes[a].kind == LEAF_NODE
    ensures !IsPrefix(PathTo(nodes, root, a), PathTo(nodes, root, b))
  {
    var pa, pb := PathTo(nodes, root, a), PathTo(nodes, root, b);
    if IsPrefix(pa, pb) {
      var rest := pb[|pa|..];
      assert Descend(nodes, a, rest) == b by {
        assert pb == pa + rest;
        PathLeadsTo(nodes, root, a);
        PathLeadsTo(nodes, root, b);
        DescendAppend(nodes, root, pa, rest);
      }
      assert false;
    }
  }

  /**
   * What huffman_decompress emits for a run of bits, starting at node cur:
   * each bit moves to a child, and on reaching a leaf its byte is emitted
   * and the walk restarts at the root. An unfinished code at the end emits
   * nothing. Bits may only follow a non-leaf node. Every emitted byte
   * takes at least one bit, so the output is never longer than the input.
   */
  function DecodeFrom(nodes: seq<Node>, root: nat, cur: nat, bits: seq<bool>): (r: seq<byte>)
    requires Linked(nodes) && root < |nodes| && cur < |nodes|
    requires bits == [] || (nodes[root].kind != LEAF_NODE && nodes[cur].kind != LEAF_NODE)
    ensures |r| <= |bits|
    decreases |bits|
  {
    if bits == [] then []
    else
      var next := Child(nodes[cur], bits[0]);
      if nodes[next].kind == LEAF_NODE then [nodes[next].ch] + DecodeFrom(nodes, root, root, bits[1..])
      else DecodeFrom(nodes, root, next, bits[1..])
  }

  /** Decoding a path that ends on a leaf emits that leaf's byte and goes on from the root. */
  lemma {:induction false} DecodePath(nodes: seq<Node>, root: nat, cur: nat, p: seq<bool>, j: nat, rest: seq<bool>)
    requires Linked(nodes) && root < |nodes| && cur < |nodes| && j < |nodes|
    requires nodes[root].kind != LEAF_NODE && nodes[cur].kind != LEAF_NODE
    requires p != [] && Descend(nodes, cur, p) == j && nodes[j].kind == LEAF_NODE
    ensures DecodeFrom(nodes, root, cur, p + rest) == [nodes[j].ch] + DecodeFrom(nodes, root, root, rest)
    decreases |p|
  {
    var next := Child(nodes[cur], p[0]);
    assert (p + rest)[0] == p[0];
    assert (p + rest)[1..] == p[1..] + rest;
    if |p| > 1 {
      assert nodes[next].kind != LEAF_NODE;
      DecodePath(nodes, root, next, p[1..], j, rest);
    }
  }

  /**
   * One bit of the walk, as huffman_decompress takes it for bit k of the
   * stream after emitting out: a leaf reached is appended to out and the
   * walk restarts at the root; otherwise the walk moves to the child.
   */
  lemma DecodeStep(nodes: seq<Node>, root: nat, cur: nat, bits: seq<bool>, k: nat, out: seq<byte>)
    requires Linked(nodes) && root < |nodes| && cur < |nodes|
    requires nodes[root].kind != LEAF_NODE && nodes[cur].kind != LEAF_NODE && k < |bits|
    ensures var next := Child(nodes[cur], bits[k]);
      0 <= next < |nodes| &&
      (nodes[next].kind == LEAF_NODE ==>
        out + DecodeFrom(nodes, root, cur, bits[k..]) == (out + [nodes[next].ch]) + DecodeFrom(nodes, root, root, bits[k + 1..])) &&
      (nodes[next].kind != LEAF_NODE ==>
        out + DecodeFrom(nodes, root, cur, bits[k..]) == out + DecodeFrom(nodes, root, next, bits[k + 1..]))
  {
    assert bits[k..][1..] == bits[k + 1..];
  }

  /**
   * With two leaves both children of the root are leaves, so every bit
   * decodes to one byte: the output is exactly as long as the bit count.
   */
  lemma {:induction false} TwoLeafDecode(nodes: seq<Node>, root: nat, syms: seq<byte>, f: seq<uintmax>, bits: seq<bool>)
    requires BuiltTree(nodes, root, syms, f) && |syms| == 2
    ensures Linked(nodes) && nodes[root].kind != LEAF_NODE
    ensures |DecodeFrom(nodes, root, root, bits)| == |bits|
    decreases |bits|
  {
    RootIsInternal(nodes, root, syms, f);
    BuiltTreeIsLinked(nodes, syms, f);
    if bits != [] {
      assert InternalAt(nodes, root);
      var next := Child(nodes[root], bits[0]);
      assert LeafAt(nodes, syms, f, next);
      TwoLeafDecode(nodes, root, syms, f, bits[1..]);
    }
  }

  /** A code as its characters: '1' for a right branch, '0' for a left one. */
  function CodeString(bits: seq<bool>): seq<char>
  {
    seq(|bits|, k requires 0 <= k < |bits| => if bits[k] then '1' else '0')
  }

  /** The bits huffman_compress shifts in for a code string: 0 for '0', 1 for anything else. */
  function CodeBits(code: seq<char>): seq<bool>
  {
    seq(|code|, k requires 0 <= k < |code| => code[k] != '0')
  }

  lemma CodeBitsOfString(bits: seq<bool>)
    ensures CodeBits(CodeString(bits)) == bits
  {
  }

  /** One more symbol of a code string adds its bit. */
  lemma CodeBitsSnoc(code: seq<char>, c: nat)
    requires c < |code|
    ensures CodeBits(code[..c + 1]) == CodeBits(code[..c]) + [code[c] != '0']
  {
  }

  /**
   * The bit stream huffman_compress produces for s from a table of code
   * strings. It is empty exactly when every byte of s has an empty code.
   */
  function Encode(codes: seq<seq<char>>, s: seq<byte>): (r: seq<bool>)
    requires |codes| == RANGE_SIZE
    ensures r == [] <==> forall i :: 0 <= i < |s| ==> codes[s[i]] == []
  {
    if s == [] then [] else CodeBits(codes[s[0]]) + Encode(codes, s[1..])
  }

  lemma {:induction false} EncodeSnoc(codes: seq<seq<char>>, s: seq<byte>, x: byte)
    requires |codes| == RANGE_SIZE
    ensures Encode(codes, s + [x]) == Encode(codes, s) + CodeBits(codes[x])
  {
    if s != [] {
      assert (s + [x])[1..] == s[1..] + [x];
      EncodeSnoc(codes, s[1..], x);
    } else {
      assert Encode(codes, []) == [];
    }
  }

  /** Byte i of s is held by leaf idx[i], and the table's code for it is that leaf's path. */
  ghost predicate CodedBy(nodes: seq<Node>, root: nat, codes: seq<seq<char>>, s: seq<byte>, idx: seq<nat>)
    requires Rooted(nodes, root) && |codes| == RANGE_SIZE
  {
    |idx| == |s| &&
    forall i :: 0 <= i < |s| ==>
      idx[i] < |nodes| && nodes[idx[i]].kind == LEAF_NODE && nodes[idx[i]].ch == s[i] &&
      CodeBits(codes[s[i]]) == PathTo(nodes, root, idx[i])
  }

  /** Decoding the encoding of s gives s back, whenever the root is not a leaf. */
  lemma {:induction false} DecodeEncode(nodes: seq<Node>, root: nat, codes: seq<seq<char>>, s: seq<byte>, idx: seq<nat>)
    requires Rooted(nodes, root) && nodes[root].kind != LEAF_NODE && |codes| == RANGE_SIZE
    requires CodedBy(nodes, root, codes, s, idx)
    ensures DecodeFrom(nodes, root, root, Encode(codes, s)) == s
  {
    if s != [] {
      var j := idx[0];
      PathLeadsTo(nodes, root, j);
      assert j != root;
      assert CodedBy(nodes, root, codes, s[1..], idx[1..]) by {
        forall i | 0 <= i < |s| - 1
          ensures s[1..][i] == s[i + 1] && idx[1..][i] == idx[i + 1]
        {
        }
      }
      DecodeEncode(nodes, root, codes, s[1..], idx[1..]);
      DecodePath(nodes, root, root, PathTo(nodes, root, j), j, Encode(codes, s[1..]));
    }
  }

  /** With two or more leaves the root of the built tree is the last merge node. */
  lemma RootIsInternal(nodes: seq<Node>, root: nat, syms: seq<byte>, f: seq<uintmax>)
    requires BuiltTree(nodes, root, syms, f) && |syms| >= 2
    ensures root == |nodes| - 1 && nodes[root].kind == INTERNAL_NODE
  {
    var last := |nodes| - 1;
    assert ParentAt(nodes, last);
    assert InternalAt(nodes, last);
  }

  /** With one leaf the tree is that leaf, and its code is empty. */
  lemma SingleLeafCodeEmpty(nodes: seq<Node>, root: nat, syms: seq<byte>, f: seq<uintmax>)
    requires BuiltTree(nodes, root, syms, f) && |syms| == 1
    ensures Rooted(nodes, root) && root == 0 && nodes[0].kind == LEAF_NODE &&
      PathTo(nodes, root, 0) == []
  {
    BuiltTreeIsRooted(nodes, root, syms, f);
    assert LeafAt(nodes, syms, f, 0);
  }

  /**
   * decompress(compress(s)) == s: with the code table derived from the
   * built tree (at least two leaves), every byte of s present in the
   * frequency table, and the packed bytes followed by any padding, decoding
   * the first |Encode(codes, s)| bits from the root gives s back.
   */
  lemma RoundTrip(nodes: seq<Node>, root: nat, f: seq<uintmax>, codes: seq<seq<char>>, s: seq<byte>, pad: seq<byte>)
    requires |f| == RANGE_SIZE
    requires BuiltTree(nodes, root, Present(f), f)
    requires |Present(f)| >= 2 && |codes| == RANGE_SIZE
    requires forall j :: 0 <= j < |Present(f)| ==> codes[Present(f)[j]] == CodeString(PathTo(nodes, root, j))
    requires forall i :: 0 <= i < |s| ==> f[s[i]] > 0
    ensures Rooted(nodes, root)
    ensures var e := Encode(codes, s);
      |Unpack(Pack(e) + pad)| >= |e| && nodes[root].kind != LEAF_NODE &&
      DecodeFrom(nodes, root, root, Unpack(Pack(e) + pad)[..|e|]) == s
  {
    var syms := Present(f);
    BuiltTreeIsRooted(nodes, root, syms, f);
    RootIsInternal(nodes, root, syms, f);
    var idx := seq(|s|, i requires 0 <= i < |s| => IndexOf(syms, s[i]));
    forall i | 0 <= i < |s|
      ensures idx[i] < |nodes| && nodes[idx[i]].kind == LEAF_NODE && nodes[idx[i]].ch == s[i] &&
        CodeBits(codes[s[i]]) == PathTo(nodes, root, idx[i])
    {
      assert LeafAt(nodes, syms, f, idx[i]);
      CodeBitsOfString(PathTo(nodes, root, idx[i]));
    }
    DecodeEncode(nodes, root, codes, s, idx);
    UnpackPackPadded(Encode(codes, s), pad);
  }
}
