// The declarations of huffman.h: status codes, table sizes, the node record
// and the integer widths the coder works with.
module HuffmanTypes {

  /** Status values returned by the tree and code-table builders. */
  const HUFFMAN_OK: int := 1
  const HUFFMAN_ERR: int := 0

  /** One table slot per byte value. */
  const RANGE_SIZE: nat := 256

  /**
   * Length of a code_table row and of the code-building buffer:
   * (int)(log10(256) / log10(2)) + 1 = 9, that is at most 8 code symbols
   * followed by the terminating NUL.
   */
  const CODE_LEN: nat := 9

  /** 2^64: uintmax_t counters and weights wrap modulo this value. */
  const U64: int := 0x1_0000_0000_0000_0000
  /** ULLONG_MAX, the weight of the queue's tail sentinel. */
  const ULLONG_MAX: int := 0xFFFF_FFFF_FFFF_FFFF

  /** 2^32: unsigned int lengths and bit counts wrap modulo this value. */
  const U32: int := 0x1_0000_0000
  /** INT_MAX + 1: the loop index of huffman_compress is a signed int. */
  const INT_LIMIT: int := 0x8000_0000

  /** unsigned char */
  type byte = x: int | 0 <= x < 256
  /** uintmax_t */
  type uintmax = x: int | 0 <= x < 0x1_0000_0000_0000_0000

  /** enum CHAR_NODE_TYPE: a zero-filled node is an internal one. */
  const INTERNAL_NODE: int := 0
  const LEAF_NODE: int := 1

  /** The NULL link of the node arena. */
  const NIL: int := -1

  /**
   * CHAR_NODE, with its pointers turned into arena indices: `lc`, `rc`
   * and `pa` are NIL or the index of another node. The TAILQ links are
   * not kept in the node: the queue is a sequence of indices.
   */
  datatype Node = Node(kind: int, ch: byte, weight: uintmax, lc: int, rc: int, pa: int)

  /** A node as calloc returns it: internal, weight 0, no links. */
  const ZeroNode: Node := Node(INTERNAL_NODE, 0, 0, NIL, NIL, NIL)

  /** Adding one to a wrapped counter is adding one before wrapping. */
  lemma WrapIncrement(a: int)
    ensures ((a % U64) + 1) % U64 == (a + 1) % U64
  {
  }

  /** Adding to a count kept modulo 2^32 is adding before wrapping. */
  lemma WrapAdd32(a: int, b: int)
    ensures ((a % U32) + b) % U32 == (a + b) % U32
  {
  }

  /** The value of an unsigned int starting at a after n increments `++`. */
  function Bump32(a: nat, n: nat): nat
  {
    if n == 0 then a else (Bump32(a, n - 1) + 1) % U32
  }

  lemma {:induction false} Bump32Add(a: nat, m: nat, k: nat)
    ensures Bump32(Bump32(a, m), k) == Bump32(a, m + k)
  {
    if k > 0 {
      Bump32Add(a, m, k - 1);
    }
  }

  lemma {:induction false} Bump32Wraps(a: nat, n: nat)
    requires a < U32
    ensures Bump32(a, n) == (a + n) % U32
  {
    if n > 0 {
      Bump32Wraps(a, n - 1);
      WrapAdd32(a + n - 1, 1);
    }
  }
}
