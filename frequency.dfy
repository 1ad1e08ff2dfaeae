// The frequency table as values: which byte values are present, how many
// there are, and what the counters add up to.
module FrequencyTable {
  import opened HuffmanTypes

  /**
   * The byte values with a non-zero counter, in ascending order: the order
   * in which create_mp_queue creates their leaves. Defined on a prefix of
   * the table so that a scan over the table can follow it.
   */
  function Present(f: seq<uintmax>): (r: seq<byte>)
    requires |f| <= RANGE_SIZE
    ensures |r| <= |f|
    ensures forall v :: v in r <==> 0 <= v < |f| && f[v] > 0
    ensures forall k :: 0 <= k < |r| ==> r[k] < |f|
  {
    if f == [] then []
    else
      var v := |f| - 1;
      Present(f[..v]) + (if f[v] > 0 then [v as byte] else [])
  }

  /** The present byte values come in strictly ascending order, each once. */
  lemma {:induction false} PresentAscending(f: seq<uintmax>)
    requires |f| <= RANGE_SIZE
    ensures forall a, b :: 0 <= a < b < |Present(f)| ==> Present(f)[a] < Present(f)[b]
  {
    if f != [] {
      var v := |f| - 1;
      PresentAscending(f[..v]);
    }
  }

  lemma PresentSnoc(f: seq<uintmax>, i: nat)
    requires i < |f| <= RANGE_SIZE
    ensures Present(f[..i + 1]) == Present(f[..i]) + (if f[i] > 0 then [i as byte] else [])
  {
    assert f[..i + 1][..i] == f[..i];
  }

  /** Position of a value in a sequence that holds it. */
  function IndexOf(r: seq<byte>, v: byte): (k: nat)
    requires v in r
    ensures k < |r| && r[k] == v
  {
    if r[0] == v then 0 else 1 + IndexOf(r[1..], v)
  }

  /** Sum of a sequence of counters. */
  function Sum(s: seq<int>): int
  {
    if s == [] then 0 else Sum(s[..|s| - 1]) + s[|s| - 1]
  }

  lemma SumSnoc(s: seq<int>, i: nat)
    requires i < |s|
    ensures Sum(s[..i + 1]) == Sum(s[..i]) + s[i]
  {
    assert s[..i + 1][..i] == s[..i];
  }

  /** Adding one to one counter adds one to the sum. */
  lemma {:induction false} SumIncrement(h: seq<int>, x: nat)
    requires x < |h|
    ensures Sum(h[x := h[x] + 1]) == Sum(h) + 1
  {
    var h' := h[x := h[x] + 1];
    var last := |h| - 1;
    assert h'[..last] == if x < last then h[..last][x := h[x] + 1] else h[..last];
    if x < last {
      SumIncrement(h[..last], x);
    }
  }

  /** How many times v occurs in s: never more than |s|. */
  function Occurrences(s: seq<byte>, v: int): (r: nat)
    ensures r <= |s|
  {
    if s == [] then 0 else Occurrences(s[..|s| - 1], v) + (if s[|s| - 1] == v then 1 else 0)
  }

  /** Occurrences is the multiplicity of v in the multiset of s. */
  lemma {:induction false} OccurrencesMultiset(s: seq<byte>, v: byte)
    ensures Occurrences(s, v) == multiset(s)[v]
  {
    if s != [] {
      var init := s[..|s| - 1];
      assert s == init + [s[|s| - 1]];
      OccurrencesMultiset(init, v);
    }
  }

  /** The counters compute_frequency fills in from an all-zero table: one per occurrence. */
  function Histogram(s: seq<byte>): seq<int>
  {
    seq(RANGE_SIZE, v requires 0 <= v < RANGE_SIZE => Occurrences(s, v))
  }

  /** The counters of a table filled from zero add up to the number of bytes scanned. */
  lemma {:induction false} HistogramSum(s: seq<byte>)
    ensures Sum(Histogram(s)) == |s|
  {
    if s == [] {
      var h := Histogram(s);
      ZeroSum(h, |h|);
      assert h[..|h|] == h;
    } else {
      var init := s[..|s| - 1];
      var x := s[|s| - 1];
      HistogramSum(init);
      assert Histogram(s) == Histogram(init)[x := Histogram(init)[x] + 1];
      SumIncrement(Histogram(init), x);
    }
  }

  lemma {:induction false} ZeroSum(h: seq<int>, k: nat)
    requires k <= |h|
    requires forall v :: 0 <= v < |h| ==> h[v] == 0
    ensures Sum(h[..k]) == 0
  {
    if k > 0 {
      SumSnoc(h, k - 1);
      ZeroSum(h, k - 1);
    }
  }
}
