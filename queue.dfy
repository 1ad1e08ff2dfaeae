// The minimum priority queue of huffman.c as a value: a sequence of arena
// indices kept in non-decreasing weight order. The ULLONG_MAX sentinel at
// the tail of the C list is not an element of the sequence; it is the
// reason an insertion scan always finds a place (at the end at the latest).
module PriorityQueue {
  import opened HuffmanTypes

  /** Every queue entry names a node of the arena. */
  ghost predicate InArena(nodes: seq<Node>, q: seq<nat>)
  {
    forall k :: 0 <= k < |q| ==> q[k] < |nodes|
  }

  ghost predicate Distinct(q: seq<nat>)
  {
    forall a, b :: 0 <= a < b < |q| ==> q[a] != q[b]
  }

  /** Non-decreasing weight from head to tail. */
  ghost predicate Sorted(nodes: seq<Node>, q: seq<nat>)
    requires InArena(nodes, q)
  {
    forall a, b :: 0 <= a < b < |q| ==> nodes[q[a]].weight <= nodes[q[b]].weight
  }

  /** Total weight of the nodes in the queue. */
  function SumW(nodes: seq<Node>, q: seq<nat>): nat
    requires InArena(nodes, q)
  {
    if q == [] then 0 else nodes[q[0]].weight + SumW(nodes, q[1..])
  }

  /**
   * Where mpq_insert puts a node of weight w: before the first entry whose
   * weight is at least w, so ahead of every entry of equal weight; after
   * all entries (just before the sentinel) when every weight is below w.
   */
  function InsertPos(nodes: seq<Node>, q: seq<nat>, w: int): (k: nat)
    requires InArena(nodes, q)
    ensures k <= |q|
    ensures forall j :: 0 <= j < k ==> nodes[q[j]].weight < w
    ensures k < |q| ==> w <= nodes[q[k]].weight
  {
    if q == [] || w <= nodes[q[0]].weight then 0 else 1 + InsertPos(nodes, q[1..], w)
  }

  function InsertAt(q: seq<nat>, k: nat, z: nat): seq<nat>
    requires k <= |q|
  {
    q[..k] + [z] + q[k..]
  }

  /** The j-th entry after an insertion at k. */
  lemma InsertAtIndex(q: seq<nat>, k: nat, z: nat, j: nat)
    requires k <= |q| && j <= |q|
    ensures InsertAt(q, k, z)[j] == if j < k then q[j] else if j == k then z else q[j - 1]
  {
  }

  /** Inserting at InsertPos keeps the queue ordered. */
  lemma InsertKeepsSorted(nodes: seq<Node>, q: seq<nat>, z: nat)
    requires InArena(nodes, q) && z < |nodes| && Sorted(nodes, q)
    ensures var q' := InsertAt(q, InsertPos(nodes, q, nodes[z].weight), z);
      InArena(nodes, q') && Sorted(nodes, q')
  {
    var w := nodes[z].weight;
    var k := InsertPos(nodes, q, w);
    var q' := InsertAt(q, k, z);
    forall j | 0 <= j < |q'|
      ensures q'[j] < |nodes|
    {
      InsertAtIndex(q, k, z, j);
    }
    forall a, b | 0 <= a < b < |q'|
      ensures nodes[q'[a]].weight <= nodes[q'[b]].weight
    {
      InsertAtIndex(q, k, z, a);
      InsertAtIndex(q, k, z, b);
      if b == k {
        assert nodes[q[a]].weight < w;
      } else if a == k {
        assert w <= nodes[q[k]].weight;
      }
    }
  }

  /** Inserting a node that is not in the queue keeps the entries distinct. */
  lemma InsertKeepsDistinct(q: seq<nat>, k: nat, z: nat)
    requires k <= |q| && Distinct(q) && z !in q
    ensures Distinct(InsertAt(q, k, z))
    ensures forall j :: j in InsertAt(q, k, z) <==> j in q || j == z
  {
    var q' := InsertAt(q, k, z);
    forall a, b | 0 <= a < b < |q'|
      ensures q'[a] != q'[b]
    {
      InsertAtIndex(q, k, z, a);
      InsertAtIndex(q, k, z, b);
    }
    assert q == q[..k] + q[k..];
  }

  /** Inserting a node adds its weight to the queue's total. */
  lemma {:induction false} SumWInsert(nodes: seq<Node>, q: seq<nat>, k: nat, z: nat)
    requires InArena(nodes, q) && k <= |q| && z < |nodes|
    ensures InArena(nodes, InsertAt(q, k, z))
    ensures SumW(nodes, InsertAt(q, k, z)) == SumW(nodes, q) + nodes[z].weight
  {
    if k > 0 {
      SumWInsert(nodes, q[1..], k - 1, z);
      assert InsertAt(q, k, z)[1..] == InsertAt(q[1..], k - 1, z);
    }
  }

  /** The two heads and the rest make up the queue's total. */
  lemma SumWHeads(nodes: seq<Node>, q: seq<nat>)
    requires InArena(nodes, q) && |q| >= 2
    ensures nodes[q[0]].weight + nodes[q[1]].weight + SumW(nodes, q[2..]) == SumW(nodes, q)
  {
    assert q[1..][1..] == q[2..];
  }

  /** The total depends only on the weights of the queued nodes. */
  lemma {:induction false} SumWFrame(nodes: seq<Node>, nodes': seq<Node>, q: seq<nat>)
    requires InArena(nodes, q) && |nodes| <= |nodes'|
    requires forall j :: 0 <= j < |nodes| ==> nodes'[j].weight == nodes[j].weight
    ensures InArena(nodes', q) && SumW(nodes', q) == SumW(nodes, q)
  {
    if q != [] {
      SumWFrame(nodes, nodes', q[1..]);
    }
  }
}
