// The node arena during create_mp_queue and create_huffman_tree, as values.
// Leaves occupy the first slots, one per present byte value in ascending
// order; every merge appends one internal node. The queue holds exactly the
// nodes that have no parent yet: the roots of the current forest.
module TreeBuild {
  import opened HuffmanTypes
  import opened FrequencyTable
  import opened PriorityQueue

  /** Slot j holds the leaf of the j-th present byte value, weighted by its counter. */
  ghost predicate LeafAt(nodes: seq<Node>, syms: seq<byte>, f: seq<uintmax>, j: nat)
    requires j < |syms| <= |nodes| && |f| == RANGE_SIZE
  {
    nodes[j] == Node(LEAF_NODE, syms[j], f[syms[j]], NIL, NIL, nodes[j].pa)
  }

  /**
   * Slot k holds a merge node: internal, two distinct older children that
   * point back to it, and the sum of their weights.
   */
  ghost predicate InternalAt(nodes: seq<Node>, k: nat)
    requires k < |nodes|
  {
    var z := nodes[k];
    z.kind == INTERNAL_NODE && 0 <= z.lc < k && 0 <= z.rc < k && z.lc != z.rc &&
    nodes[z.lc].pa == k && nodes[z.rc].pa == k &&
    z.weight == nodes[z.lc].weight + nodes[z.rc].weight
  }

  /** A node's parent link is NULL or names a younger internal node that has it as a child. */
  ghost predicate ParentAt(nodes: seq<Node>, j: nat)
    requires j < |nodes|
  {
    var p := nodes[j].pa;
    p == NIL ||
    (j < p < |nodes| && nodes[p].kind == INTERNAL_NODE && (nodes[p].lc == j || nodes[p].rc == j))
  }

  ghost predicate Layout(nodes: seq<Node>, syms: seq<byte>, f: seq<uintmax>)
  {
    |f| == RANGE_SIZE && |syms| <= |nodes| &&
    (forall j :: 0 <= j < |syms| ==> LeafAt(nodes, syms, f, j)) &&
    (forall k :: |syms| <= k < |nodes| ==> InternalAt(nodes, k)) &&
    (forall j :: 0 <= j < |nodes| ==> ParentAt(nodes, j))
  }

  /**
   * The state between merges: the queue is ordered, holds each parentless
   * node once and nothing else, and shrinks by one for each internal node.
   */
  ghost predicate Forest(nodes: seq<Node>, q: seq<nat>, syms: seq<byte>, f: seq<uintmax>)
  {
    Layout(nodes, syms, f) && InArena(nodes, q) && Distinct(q) &&
    (forall j :: 0 <= j < |nodes| ==> (nodes[j].pa == NIL <==> j in q)) &&
    Sorted(nodes, q) && |q| + |nodes| == 2 * |syms|
  }

  /** The finished tree: n leaves, n - 1 merge nodes, and only the root without a parent. */
  ghost predicate BuiltTree(nodes: seq<Node>, root: nat, syms: seq<byte>, f: seq<uintmax>)
  {
    Layout(nodes, syms, f) && |syms| >= 1 && |nodes| == 2 * |syms| - 1 && root < |nodes| &&
    (forall j :: 0 <= j < |nodes| ==> (nodes[j].pa == NIL <==> j == root))
  }

  /**
   * A leaf as create_mp_queue fills it in: a zero-filled node with its
   * type, byte value and weight set, and no links.
   */
  function LeafNode(v: byte, w: uintmax): (r: Node)
    ensures r == ZeroNode.(kind := LEAF_NODE, ch := v, weight := w)
  {
    Node(LEAF_NODE, v, w, NIL, NIL, NIL)
  }

  /**
   * The arena after one merge of create_huffman_tree: x and y get the new
   * node as parent, and the new node has x on the left, y on the right and
   * their summed weight. No other node changes.
   */
  function Merged(nodes: seq<Node>, x: nat, y: nat): (m: seq<Node>)
    requires x < |nodes| && y < |nodes| && nodes[x].weight + nodes[y].weight < U64
    ensures var z := |nodes|;
      |m| == z + 1 &&
      m[x] == nodes[x].(pa := z) && m[y] == nodes[y].(pa := z) &&
      (forall j :: 0 <= j < z && j != x && j != y ==> m[j] == nodes[j]) &&
      m[z] == Node(INTERNAL_NODE, 0, nodes[x].weight + nodes[y].weight, x, y, NIL)
  {
    var z := |nodes|;
    nodes[x := nodes[x].(pa := z)][y := nodes[y].(pa := z)]
      + [Node(INTERNAL_NODE, 0, nodes[x].weight + nodes[y].weight, x, y, NIL)]
  }

  /** Seeding one more leaf keeps the forest invariant and adds its weight to the queue. */
  lemma SeedStep(nodes: seq<Node>, q: seq<nat>, syms: seq<byte>, f: seq<uintmax>, v: byte)
    requires Forest(nodes, q, syms, f) && |nodes| == |syms| && f[v] > 0
    ensures var r := SeedLeaf(nodes, q, v, f[v]);
      Forest(r.0, r.1, syms + [v], f) && SumW(r.0, r.1) == SumW(nodes, q) + f[v]
  {
    var z := |nodes|;
    var nodes' := nodes + [LeafNode(v, f[v])];
    var syms' := syms + [v];
    var k := InsertPos(nodes', q, f[v]);
    var q' := InsertAt(q, k, z);
    assert InArena(nodes', q') && Sorted(nodes', q') by {
      assert forall j :: 0 <= j < z ==> nodes'[j] == nodes[j];
      assert Sorted(nodes', q);
      InsertKeepsSorted(nodes', q, z);
    }
    assert SumW(nodes', q') == SumW(nodes, q) + f[v] by {
      assert forall j :: 0 <= j < z ==> nodes'[j] == nodes[j];
      SumWFrame(nodes, nodes', q);
      SumWInsert(nodes', q, k, z);
    }
    assert Distinct(q') && forall j :: j in q' <==> j in q || j == z by {
      InsertKeepsDistinct(q, k, z);
    }
    forall j | 0 <= j < |syms'|
      ensures LeafAt(nodes', syms', f, j)
    {
      if j < z {
        assert LeafAt(nodes, syms, f, j);
      }
    }
    forall j | 0 <= j < |nodes'|
      ensures ParentAt(nodes', j) && (nodes'[j].pa == NIL <==> j in q')
    {
      if j < z {
        assert ParentAt(nodes, j);
        assert nodes'[j] == nodes[j];
      }
    }
    assert SeedLeaf(nodes, q, v, f[v]) == (nodes', q');
  }

  /** A merge of two parentless nodes keeps the arena's layout. */
  lemma MergeLayout(nodes: seq<Node>, syms: seq<byte>, f: seq<uintmax>, x: nat, y: nat)
    requires Layout(nodes, syms, f) && x < |nodes| && y < |nodes| && x != y
    requires nodes[x].pa == NIL && nodes[y].pa == NIL
    requires nodes[x].weight + nodes[y].weight < U64
    ensures Layout(Merged(nodes, x, y), syms, f)
  {
    var z := |nodes|;
    var m := Merged(nodes, x, y);
    forall j | 0 <= j < |syms|
      ensures LeafAt(m, syms, f, j)
    {
      assert LeafAt(nodes, syms, f, j);
    }
    // an older merge node's children have it as parent, so neither is x or y
    forall k | |syms| <= k < |m|
      ensures InternalAt(m, k)
    {
      if k < z {
        assert InternalAt(nodes, k);
      }
    }
    forall j | 0 <= j < |m|
      ensures ParentAt(m, j)
    {
      if j < z && j != x && j != y {
        assert ParentAt(nodes, j);
      }
    }
  }

  /** After a merge the parentless nodes are the rest of the queue and the new node. */
  lemma MergeRoots(nodes: seq<Node>, q: seq<nat>, k: nat)
    requires InArena(nodes, q) && Distinct(q) && |q| >= 2 && k <= |q| - 2
    requires forall j :: 0 <= j < |nodes| ==> (nodes[j].pa == NIL <==> j in q)
    requires nodes[q[0]].weight + nodes[q[1]].weight < U64
    ensures var m := Merged(nodes, q[0], q[1]); var q' := InsertAt(q[2..], k, |nodes|);
      Distinct(q') && forall j :: 0 <= j < |m| ==> (m[j].pa == NIL <==> j in q')
  {
    var x, y, z := q[0], q[1], |nodes|;
    var rest := q[2..];
    assert forall j :: j in rest ==> j in q && j != x && j != y;
    assert forall j :: j in q ==> j == x || j == y || j in rest;
    assert z !in rest;
    InsertKeepsDistinct(rest, k, z);
  }

  /**
   * After a merge the rest of the queue with the new node inserted at
   * InsertPos is ordered, and carries the same total weight as before.
   */
  lemma MergeQueue(nodes: seq<Node>, q: seq<nat>)
    requires InArena(nodes, q) && Sorted(nodes, q) && |q| >= 2 && q[0] != q[1]
    requires nodes[q[0]].weight + nodes[q[1]].weight < U64
    ensures var m := Merged(nodes, q[0], q[1]);
      InArena(m, q[2..]) &&
      var q' := InsertAt(q[2..], InsertPos(m, q[2..], m[|nodes|].weight), |nodes|);
      InArena(m, q') && Sorted(m, q') && SumW(m, q') == SumW(nodes, q)
  {
    var x, y, z := q[0], q[1], |nodes|;
    var m := Merged(nodes, x, y);
    var rest := q[2..];
    // weights are untouched, so the rest of the queue stays ordered and keeps its total
    assert InArena(m, rest) && Sorted(m, rest) && SumW(m, rest) == SumW(nodes, rest) by {
        assert forall j :: 0 <= j < z ==> m[j].weight == nodes[j].weight;
      SumWFrame(nodes, m, rest);
    }
    var k := InsertPos(m, rest, m[z].weight);
    var q' := InsertAt(rest, k, z);
    assert InArena(m, q') && Sorted(m, q') by {
      InsertKeepsSorted(m, rest, z);
    }
    assert SumW(m, q') == SumW(m, rest) + m[z].weight by {
      SumWInsert(m, rest, k, z);
    }
    assert m[z].weight + SumW(nodes, rest) == SumW(nodes, q) by {
        SumWHeads(nodes, q);
    }
  }

  /**
   * One merge keeps the forest invariant: the two queue heads leave the
   * queue as children of a new node, which enters it at InsertPos, and the
   * queue's total weight is unchanged.
   */
  lemma MergeStep(nodes: seq<Node>, q: seq<nat>, syms: seq<byte>, f: seq<uintmax>)
    requires Forest(nodes, q, syms, f) && |q| >= 2
    requires nodes[q[0]].weight + nodes[q[1]].weight < U64
    ensures var m := Merged(nodes, q[0], q[1]);
      InArena(m, q[2..]) &&
      var q' := InsertAt(q[2..], InsertPos(m, q[2..], m[|nodes|].weight), |nodes|);
      Forest(m, q', syms, f) && SumW(m, q') == SumW(nodes, q)
  {
    var x, y := q[0], q[1];
    assert x in q && y in q;
    MergeLayout(nodes, syms, f, x, y);
    MergeQueue(nodes, q);
    var m := Merged(nodes, x, y);
    MergeRoots(nodes, q, InsertPos(m, q[2..], m[|nodes|].weight));
  }

  /** When one root is left, the forest is the finished tree and the root carries the queue's total. */
  lemma ForestDone(nodes: seq<Node>, q: seq<nat>, syms: seq<byte>, f: seq<uintmax>)
    requires Forest(nodes, q, syms, f) && |q| == 1
    ensures BuiltTree(nodes, q[0], syms, f)
    ensures SumW(nodes, q) == nodes[q[0]].weight
  {
    assert forall j :: j in q <==> j == q[0];
  }

  /**
   * The greedy choice of create_huffman_tree: the two nodes it extracts,
   * q[0] and q[1], weigh no more than any other node without a parent.
   */
  lemma GreedyChoice(nodes: seq<Node>, q: seq<nat>, syms: seq<byte>, f: seq<uintmax>)
    requires Forest(nodes, q, syms, f) && |q| >= 2
    ensures forall j :: 0 <= j < |nodes| && nodes[j].pa == NIL ==> nodes[q[0]].weight <= nodes[j].weight
    ensures forall j :: 0 <= j < |nodes| && nodes[j].pa == NIL && j != q[0] ==> nodes[q[1]].weight <= nodes[j].weight
  {
    forall j | 0 <= j < |nodes| && nodes[j].pa == NIL
      ensures nodes[q[0]].weight <= nodes[j].weight
      ensures j != q[0] ==> nodes[q[1]].weight <= nodes[j].weight
    {
      var k :| 0 <= k < |q| && q[k] == j;
      if k >= 2 {
        assert nodes[q[1]].weight <= nodes[q[k]].weight;
      }
    }
  }

  /**
   * create_mp_queue's handling of one byte value v with weight w: its leaf
   * joins the arena and is queued where mpq_insert puts it.
   */
  function SeedLeaf(nodes: seq<Node>, q: seq<nat>, v: byte, w: uintmax): (r: (seq<Node>, seq<nat>))
    requires InArena(nodes, q)
    ensures InArena(r.0, r.1) && |r.0| == |nodes| + 1 && |r.1| == |q| + 1
    ensures SumW(r.0, r.1) == SumW(nodes, q) + w
  {
    var ns := nodes + [LeafNode(v, w)];
    SumWFrame(nodes, ns, q);
    var k := InsertPos(ns, q, w);
    SumWInsert(ns, q, k, |nodes|);
    (ns, InsertAt(q, k, |nodes|))
  }

  /**
   * The arena and the queue once create_mp_queue has scanned the counters
   * of the byte values below i: one leaf per present value, and a queue
   * whose total weight is the sum of those counters.
   */
  function SeedQueue(f: seq<uintmax>, i: nat): (r: (seq<Node>, seq<nat>))
    requires |f| == RANGE_SIZE && i <= RANGE_SIZE
    ensures InArena(r.0, r.1) && |r.0| == |r.1| == |Present(f[..i])|
    ensures SumW(r.0, r.1) == Sum(f[..i])
  {
    if i == 0 then
      assert f[..0] == [];
      ([], [])
    else
      var prev := SeedQueue(f, i - 1);
      PresentSnoc(f, i - 1);
      SumSnoc(f, i - 1);
      if f[i - 1] > 0 then SeedLeaf(prev.0, prev.1, i - 1, f[i - 1]) else prev
  }

  /** The seeded queue is the forest of one leaf per present byte value, in ascending order. */
  lemma {:induction false} SeedQueueForest(f: seq<uintmax>, i: nat)
    requires |f| == RANGE_SIZE && i <= RANGE_SIZE
    ensures var r := SeedQueue(f, i); Forest(r.0, r.1, Present(f[..i]), f)
  {
    if i == 0 {
      assert f[..0] == [];
    } else {
      SeedQueueForest(f, i - 1);
      PresentSnoc(f, i - 1);
      SeedQueueNext(f, i - 1, Present(f[..i - 1]), Present(f[..i]));
    }
  }

  /**
   * The induction step of SeedQueueForest: scanning the counter of byte
   * value v adds its leaf when the counter is non-zero.
   */
  lemma SeedQueueNext(f: seq<uintmax>, v: nat, syms: seq<byte>, syms': seq<byte>)
    requires |f| == RANGE_SIZE && v < RANGE_SIZE
    requires syms' == if f[v] > 0 then syms + [v as byte] else syms
    requires var r := SeedQueue(f, v); Forest(r.0, r.1, syms, f) && |r.0| == |syms|
    ensures var r := SeedQueue(f, v + 1); Forest(r.0, r.1, syms', f)
  {
    var prev := SeedQueue(f, v);
    if f[v] > 0 {
      SeedStep(prev.0, prev.1, syms, f, v);
    }
  }

  /**
   * One merge of create_huffman_tree: the two queue heads become the
   * children of a new node, which is queued where mpq_insert puts it. The
   * queue loses one entry and keeps its total weight.
   */
  function MergeQ(nodes: seq<Node>, q: seq<nat>): (r: (seq<Node>, seq<nat>))
    requires InArena(nodes, q) && |q| >= 2 && SumW(nodes, q) < U64
    ensures InArena(r.0, r.1) && |r.0| == |nodes| + 1 && |r.1| == |q| - 1
    ensures SumW(r.0, r.1) == SumW(nodes, q)
  {
    SumWHeads(nodes, q);
    var m := Merged(nodes, q[0], q[1]);
    var rest := q[2..];
    assert forall j :: 0 <= j < |nodes| ==> m[j].weight == nodes[j].weight;
    SumWFrame(nodes, m, rest);
    var k := InsertPos(m, rest, m[|nodes|].weight);
    SumWInsert(m, rest, k, |nodes|);
    (m, InsertAt(rest, k, |nodes|))
  }

  /** The arena and queue after k merges from (nodes, q). */
  ghost function Build(nodes: seq<Node>, q: seq<nat>, k: nat): (r: (seq<Node>, seq<nat>))
    requires InArena(nodes, q) && k < |q| && SumW(nodes, q) < U64
    ensures InArena(r.0, r.1) && |r.0| == |nodes| + k && |r.1| == |q| - k
    ensures SumW(r.0, r.1) == SumW(nodes, q)
    decreases k
  {
    if k == 0 then (nodes, q)
    else
      var prev := Build(nodes, q, k - 1);
      MergeQ(prev.0, prev.1)
  }

  /** Every merge keeps the forest invariant. */
  lemma {:induction false} BuildForest(nodes: seq<Node>, q: seq<nat>, syms: seq<byte>, f: seq<uintmax>, k: nat)
    requires Forest(nodes, q, syms, f) && k < |q| && SumW(nodes, q) < U64
    ensures var r := Build(nodes, q, k); Forest(r.0, r.1, syms, f)
  {
    if k > 0 {
      BuildForest(nodes, q, syms, f, k - 1);
      var prev := Build(nodes, q, k - 1);
      SumWHeads(prev.0, prev.1);
      MergeStep(prev.0, prev.1, syms, f);
    }
  }

  /**
   * After n - 1 merges of the n leaves the forest is one tree whose root
   * carries the total weight.
   */
  lemma BuildDone(nodes: seq<Node>, q: seq<nat>, syms: seq<byte>, f: seq<uintmax>, k: nat)
    requires Forest(nodes, q, syms, f) && |q| == k + 1 && SumW(nodes, q) < U64
    ensures var r := Build(nodes, q, k);
      |r.1| == 1 && BuiltTree(r.0, r.1[0], syms, f) && r.0[r.1[0]].weight == SumW(nodes, q)
  {
    var r := Build(nodes, q, k);
    BuildForest(nodes, q, syms, f, k);
    ForestDone(r.0, r.1, syms, f);
  }

  /** Counters from which create_huffman_tree can build a tree: some byte occurs, and the total fits a uintmax_t. */
  ghost predicate Buildable(f: seq<uintmax>)
  {
    |f| == RANGE_SIZE && |Present(f)| != 0 && Sum(f) < U64
  }

  /**
   * The arena and root create_huffman_tree produces from the counters f:
   * the seeded forest merged until one tree is left. Each merge adds one
   * node for one leaf, so the arena holds an odd number of nodes, and the
   * root lies inside it.
   */
  ghost function HuffmanTree(f: seq<uintmax>): (r: (seq<Node>, nat))
    requires Buildable(f)
    ensures |r.0| == 2 * |Present(f)| - 1 && r.1 < |r.0|
  {
    assert f[..RANGE_SIZE] == f;
    var s := SeedQueue(f, RANGE_SIZE);
    var b := Build(s.0, s.1, |s.1| - 1);
    (b.0, b.1[0])
  }

  /**
   * That arena is a Huffman tree of f: one leaf per present byte value,
   * every other node the merge of two older ones, parent links up to the
   * root, and the root weighing the sum of all counters.
   */
  lemma HuffmanTreeShape(f: seq<uintmax>)
    requires Buildable(f)
    ensures var r := HuffmanTree(f);
      BuiltTree(r.0, r.1, Present(f), f) && r.0[r.1].weight == Sum(f)
  {
    var s := SeedQueue(f, RANGE_SIZE);
    SeedAll(f);
    BuildDone(s.0, s.1, Present(f), f, |s.1| - 1);
  }

  /** The scan over the whole table seeds a forest of all present byte values. */
  lemma SeedAll(f: seq<uintmax>)
    requires |f| == RANGE_SIZE
    ensures var s := SeedQueue(f, RANGE_SIZE);
      Forest(s.0, s.1, Present(f), f) && |s.1| == |Present(f)| && SumW(s.0, s.1) == Sum(f)
  {
    assert f[..RANGE_SIZE] == f;
    SeedQueueForest(f, RANGE_SIZE);
  }

  /** HuffmanTree is the seeded forest of f merged |q0| - 1 times. */
  lemma HuffmanTreeAfter(f: seq<uintmax>, nodes0: seq<Node>, q0: seq<nat>)
    requires Buildable(f) && (nodes0, q0) == SeedQueue(f, RANGE_SIZE)
    ensures |q0| == |Present(f)| && SumW(nodes0, q0) < U64
    ensures var b := Build(nodes0, q0, |q0| - 1); |b.1| == 1 && HuffmanTree(f) == (b.0, b.1[0])
  {
    assert f[..RANGE_SIZE] == f;
  }
}
