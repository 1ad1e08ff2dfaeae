# Huffman coder over bytes

This project models a small C Huffman coder (`huffman.c`, `huffman.h`) and
proves properties of the model. The coder record holds four things:
- 256 occurrence counters, one per byte value;
- a minimum priority queue of tree nodes;
- the Huffman tree;
- a table of code strings, one row of nine characters per byte value.

The operations run in order:
1. `compute_frequency` counts the bytes of a buffer.
2. `create_huffman_tree` seeds the queue with one leaf per byte value
   that occurs, then merges the two lightest nodes until one tree is left.
3. `create_huffman_code_table` walks from every leaf up to the root. It
   writes each leaf's code backwards, reverses it with `strrev` and copies
   it into the table with `strlcpy`.
4. `huffman_compress` shifts the codes of a buffer MSB-first into bytes
   and reports the number of bits.
5. `huffman_decompress` walks the tree bit by bit and emits a byte at
   every leaf.

How the C maps to Dafny:
- `HuffmanTypes` holds the constants, the integer widths and the node record.
  - `RANGE_SIZE` is 256, so each table has one slot per byte value.
  - `CODE_LEN` is 9, so a row holds at most eight code characters and a NUL.
  - `INTERNAL_NODE` is 0 and `LEAF_NODE` is 1. A calloc'd node (`ZeroNode`) is therefore internal.
  - `HUFFMAN_OK` is 1 and `HUFFMAN_ERR` is 0.
  - Weights and counters are `uintmax` values in [0, 2^64).
- `Huffman.Coder` is a class whose fields are the record's fields.
- Node pointers are indices into a sequence `nodes` (the arena). `NIL`
  (-1) stands for NULL.
- The TAILQ queue is a sequence of arena indices. Its `ULLONG_MAX` tail
  sentinel is the flag `sentinel`.
- `code_table` is a 256 × 9 `array2<char>`.
- The compressor's and decompressor's loops are methods with loop
  invariants. Each is proved against specification functions:
  - `Pack`/`Unpack` turn bits into bytes and back, MSB first;
  - `Encode` concatenates the codes;
  - `DecodeFrom` walks the tree.

Results proved about these functions:
- The tree is a Huffman tree of the counters.
- Codes are prefix-free.
- Decompressing the output of compress gives back the input.

## Model

| member | source | states |
|---|---|---|
| FrequencyTable.Present | huffman.c:120-129 | the byte values whose counter is non-zero: v is in the result exactly when f[v] > 0 |
| FrequencyTable.PresentAscending | huffman.c:172-183 | the present byte values come in strictly ascending order, the order in which create_mp_queue visits them |
| FrequencyTable.PresentSnoc | huffman.c:173-182 | looking at one more counter adds that byte value exactly when its counter is non-zero |
| FrequencyTable.Occurrences | huffman.c:56-57 | how many times a byte value occurs in a buffer, the amount compute_frequency adds to its counter; never more than the buffer's length |
| FrequencyTable.OccurrencesMultiset | huffman.c:56-58 | the count of v in a buffer is its multiplicity in the buffer's multiset |
| FrequencyTable.HistogramSum | huffman.c:51-59 | the counters of a buffer counted from zero add up to the buffer's length |
| FrequencyTable.SumIncrement | huffman.c:57 | incrementing one counter increases the total by one |
| HuffmanTypes.WrapIncrement | huffman.c:57 | incrementing a uintmax_t counter modulo 2^64 step by step equals adding once modulo 2^64 |
| HuffmanTypes.Bump32Wraps | huffman.c:286 | counting bits_sum up one at a time in an unsigned int leaves the total modulo 2^32 |
| Huffman.Coder.constructor | huffman.h:39-48 | a zero-filled record: all counters zero, no leaves, an empty queue without sentinel, no tree, every code row all NUL |
| Huffman.Coder.ComputeFrequency | huffman.c:51-59 | each counter grows by the number of occurrences of its byte value among the first l bytes, modulo 2^64 |
| Huffman.Coder.CharacterCount | huffman.c:120-129 | returns the number of byte values whose counter is non-zero |
| PriorityQueue.InsertPos | huffman.c:145-149 | the insertion slot is before the first node at least as heavy as the new one: every node before it is lighter |
| PriorityQueue.InsertKeepsSorted | huffman.c:131-150 | inserting at that slot keeps the queue ordered by weight (a new node goes before nodes of equal weight) and its entries in the arena |
| PriorityQueue.InsertKeepsDistinct | huffman.c:149 | inserting a node not yet queued keeps the queue free of duplicates and adds exactly that node |
| PriorityQueue.SumWInsert | huffman.c:149 | inserting a node adds its weight to the queue's total weight |
| PriorityQueue.SumWHeads | huffman.c:206-213 | the two head weights plus the rest make up the queue's total weight |
| Huffman.Coder.MpqInsert | huffman.c:131-150 | the node goes into the slot InsertPos names; inserting into an empty queue also raises the sentinel |
| Huffman.Coder.MpqExtractMin | huffman.c:152-162 | returns NULL on an empty queue, otherwise removes and returns the head (the sentinel once only nodes are gone) |
| TreeBuild.LeafNode | huffman.c:175-180 | the leaf create_mp_queue makes: the calloc'd zero node with its type set to LEAF_NODE, its byte value and its counter as weight, and no links |
| TreeBuild.SeedLeaf | huffman.c:174-181 | one new leaf is appended to the arena and queued, adding its weight to the queue |
| TreeBuild.SeedQueue | huffman.c:172-184 | after the first i counters the queue holds one leaf per present value and weighs the sum of those counters |
| TreeBuild.SeedStep | huffman.c:174-181 | queuing a leaf for a present value keeps the forest invariant (sorted, distinct, the j-th leaf in slot j, parents NIL exactly for queued nodes) |
| TreeBuild.SeedQueueNext | huffman.c:172-183 | visiting one more byte value keeps the forest invariant, with that value added exactly when it is present |
| TreeBuild.SeedQueueForest | huffman.c:168-189 | the seeded queue is a forest of one-leaf trees, one per present value |
| TreeBuild.SeedAll | huffman.c:168-189 | after all 256 counters the queue holds one leaf per present value and weighs the sum of all counters |
| Huffman.Coder.CreateMpQueue | huffman.c:168-189 | the arena and queue are those of SeedQueue over the counters, and leaf_node[j] records the j-th leaf |
| Huffman.Coder.AddLeaf | huffman.c:174-181 | one present byte value gets its leaf, recorded in leaf_node[j] and inserted into the queue |
| TreeBuild.Merged | huffman.c:206-216 | the arena after one merge: one node more, the new node internal with x on the left, y on the right and their summed weight, x and y pointing to it as parent, and every other node unchanged |
| TreeBuild.MergeLayout | huffman.c:206-216 | merging two parentless nodes keeps the arena's layout: leaves first, every internal node the parent of its two children |
| TreeBuild.MergeRoots | huffman.c:206-217 | after a merge the parentless nodes are exactly the queued ones |
| TreeBuild.MergeQueue | huffman.c:206-217 | after removing the two heads and inserting their parent, the queue stays sorted and keeps its total weight |
| TreeBuild.MergeStep | huffman.c:205-218 | one iteration of the merge loop keeps the forest invariant and the total weight |
| TreeBuild.MergeQ | huffman.c:206-217 | one merge grows the arena by one node and shrinks the queue by one while keeping its total weight |
| TreeBuild.Build | huffman.c:205-218 | k merges shrink the queue by k and keep its total weight |
| TreeBuild.BuildForest | huffman.c:205-218 | any number of merges keeps the forest invariant |
| TreeBuild.GreedyChoice | huffman.c:205-213 | in the forest between merges, the two nodes taken off the queue weigh no more than any other node without a parent: the greedy choice of a Huffman tree |
| TreeBuild.ForestDone | huffman.c:220-221 | a forest with one queued node is a finished tree rooted at that node, which carries the whole weight |
| TreeBuild.BuildDone | huffman.c:205-221 | n - 1 merges of n queued nodes leave one tree whose root weighs the queue's total |
| TreeBuild.HuffmanTree | huffman.c:191-228 | the arena and root create_huffman_tree produces from the counters: the seeded queue merged until one node is left; it holds 2n - 1 nodes for n present values, and the root is one of them |
| TreeBuild.HuffmanTreeShape | huffman.c:191-228 | the built arena is a Huffman tree of the counters: one leaf per present value with its counter as weight, each internal node the sum of its children, and the root weighing the sum of all counters |
| TreeBuild.HuffmanTreeAfter | huffman.c:196-221 | merging the seeded queue n - 1 times yields the tree HuffmanTree names |
| Huffman.Coder.CreateHuffmanTree | huffman.c:191-228 | returns HUFFMAN_OK having built HuffmanTree of the counters, n the number of present values, queue and sentinel both gone |
| Huffman.Coder.MergeForest | huffman.c:205-226 | from the seeded queue, the merges and the root record leave the built tree and an empty queue |
| Huffman.Coder.MergeAll | huffman.c:205-218 | the loop performs exactly n - 1 merges (Build) and keeps the sentinel |
| Huffman.Coder.MergeMin | huffman.c:206-217 | extracts the two lightest nodes, makes them children of a new node of their summed weight and inserts it |
| Huffman.Coder.RecordRoot | huffman.c:220-226 | the last queued node becomes the root and the sentinel is freed, leaving the queue empty |
| Huffman.Coder.TreeFacts | huffman.c:191-228 | the built tree has 2n - 1 nodes, reaches the root by parent links from every node and weighs the sum of the counters |
| Huffman.Coder.LeafChar | huffman.c:176-178 | leaf_node[j] is a leaf carrying the j-th present byte value |
| CodeTree.BuiltTreeIsLinked | huffman.c:207-215 | every child link of a built tree points inside the arena and a leaf has none |
| CodeTree.BuiltTreeIsRooted | huffman.c:207-221 | following parent links from any node reaches the root |
| CodeTree.Descend | huffman.c:324-329 | following a path of bits from a node ends at a node of the arena or falls off at NIL |
| CodeTree.DescendAppend | huffman.c:322-340 | descending along p + q is descending along p, then along q |
| CodeTree.PathTo | huffman.c:240-250 | the code of a node: the branch bits ('0' for a left child, '1' otherwise) collected on the walk up the parent links to the root, in root-to-node order; each step up reaches a younger node, so node j's code has fewer bits than there are nodes from j on |
| CodeTree.PathLeadsTo | huffman.c:240-250 | descending from the root along a node's code reaches exactly that node |
| CodeTree.PrefixFree | huffman.c:240-250 | no leaf's code is a prefix of another node's code |
| CodeTree.RootIsInternal | huffman.c:205-221 | with two or more present values the root is the last, internal node |
| CodeTree.SingleLeafCodeEmpty | huffman.c:205-221 | with one present value the tree is that single leaf and its code is empty |
| CodeTree.CodeBitsOfString | huffman.c:279-283 | reading '0'/'1' characters back as bits inverts writing them |
| CodeTree.Encode | huffman.c:276-292 | the bits compress emits for a buffer: the code strings of its bytes read as bits and concatenated; empty exactly when every byte of the buffer has an empty code |
| CodeTree.EncodeSnoc | huffman.c:276-292 | the bits of a buffer with one more byte are the earlier bits followed by that byte's code |
| CodeTree.DecodeFrom | huffman.c:322-340 | the bytes the decompressor's walk emits for a run of bits: each bit moves to the left (0) or right (1) child, a leaf emits its byte and restarts at the root, and an unfinished code emits nothing; never more bytes than bits |
| CodeTree.DecodePath | huffman.c:322-335 | decoding a leaf's full path emits that leaf's byte and restarts at the root |
| CodeTree.DecodeStep | huffman.c:324-334 | one decoded bit moves to the child it selects; at a leaf it emits the leaf's byte and restarts at the root |
| CodeTree.TwoLeafDecode | huffman.c:322-340 | with two present values every bit decodes to one byte |
| CodeTree.DecodeEncode | huffman.c:266-343 | decoding the concatenated path codes of a buffer gives back the buffer |
| CodeTree.RoundTrip | huffman.c:266-343 | with two or more present values, decoding the first |e| bits of the packed codes, whatever bytes follow, gives back every buffer of present values |
| BitStream.Unpack | huffman.c:322-339 | the bits decompress reads from a buffer, eight per byte, most significant first |
| BitStream.Pack | huffman.c:276-296 | the bytes compress writes for a bit stream: eight bits per byte, most significant first, and a partial last byte shifted to the high end, so b bits take (b + 7) / 8 bytes |
| BitStream.ValueBound | huffman.c:279-283 | a value shifted in from b bits stays below 2^b |
| BitStream.ValueShiftIn | huffman.c:279-283 | shifting one more bit into an unsigned char holding fewer than eight bits loses nothing |
| BitStream.ShrValue | huffman.c:323-324 | `>> (7 - bits) & 1` reads the bit at that position, MSB first |
| BitStream.ShlValue | huffman.c:293-294 | shifting left pads the bits with zeros |
| BitStream.ByteBitsValue | huffman.c:287-291 | eight bits shifted in make a byte whose bits they are |
| BitStream.UnpackAppend | huffman.c:322-340 | unpacking concatenated bytes concatenates their bits |
| BitStream.UnpackAt | huffman.c:323-339 | bit k of byte i of the input is bit 8i + k of the stream |
| BitStream.PackSplit | huffman.c:287-291 | packing whole bytes then the rest is packing everything |
| BitStream.PackByte | huffman.c:287-291 | eight more bits add one byte holding them |
| BitStream.PackTail | huffman.c:293-296 | a partial last byte is its bits shifted left to the high end |
| BitStream.UnpackPack | huffman.c:266-343 | unpacking packed bits yields at least as many bits, and the first of them are the packed bits |
| BitStream.UnpackPackPadded | huffman.c:266-343 | that stays true whatever bytes follow the packed ones |
| Huffman.EmitPartial | huffman.c:279-285 | a bit that leaves tmp short of eight bits is only shifted in |
| Huffman.EmitFull | huffman.c:287-291 | the eighth bit stores tmp as the next output byte and clears tmp |
| Huffman.EmitBit | huffman.c:278-291 | one code character becomes one more emitted bit |
| Huffman.EmitCode | huffman.c:277-292 | a row's code string is emitted bit by bit and bits_sum counts its length modulo 2^32 |
| Huffman.FlushEmpty | huffman.c:293 | with no bits pending the output is the packed bits followed by calloc's zeros |
| Huffman.FlushPartial | huffman.c:293-296 | pending bits shifted to the high end and stored make the output the packed bits followed by zeros |
| Huffman.Flush | huffman.c:293-296 | after the flush the output buffer is Pack of all emitted bits followed by zero bytes |
| Huffman.Coder.CodeBound | huffman.h:48 | a stored code has at most eight characters, leaving room for its NUL |
| Huffman.Coder.CodeRow | huffman.h:48 | row v holds code v followed by a NUL |
| Huffman.Coder.EmitSymbol | huffman.c:277-292 | one more source byte appends its code to the emitted bits and bits_sum |
| Huffman.Coder.EmitAll | huffman.c:276-292 | after the loop the bits emitted are the concatenated codes of the source bytes, no more than 8 per byte |
| Huffman.Coder.Compress | huffman.c:266-301 | the output is len bytes: Pack of the concatenated codes, then zeros; the bit count returned is their number modulo 2^32 |
| CStrings.CStr | huffman.c:361-411 | the C string in a buffer: the characters before the first NUL |
| CStrings.CStrAt | huffman.c:364-366 | a NUL at m with none before makes the C string the first m characters |
| CStrings.ReverseSnoc | huffman.c:370-375 | reversing a string with one more character puts that character first |
| CStrings.StrRev | huffman.c:361-378 | reverses the C string in place and leaves its NUL and everything after it unchanged |
| CStrings.ReverseRange | huffman.c:368-375 | the two-pointer swap reverses the first len characters and nothing else |
| CStrings.StrCat | huffman.c:243-247 | appending one character extends the C string by it and moves the NUL one on |
| CStrings.StrLCpy | huffman.c:385-411 | returns strlen(src); with siz > 0 copies min(strlen, siz - 1) characters and a NUL into the row, and writes nowhere else |
| Huffman.CodeStringReverse | huffman.c:251 | reversing a code string is the code string of the reversed bits |
| Huffman.PathStep | huffman.c:241-249 | one step up from np to its parent adds '0' for a left child and '1' otherwise, at the front of the path |
| Huffman.ReversedCode | huffman.c:240-251 | the backwards string reversed is the code from the root down |
| Huffman.TurnAround | huffman.c:251 | strrev on re_code holding a code backwards leaves it holding the code |
| Huffman.ReversedBack | huffman.c:251 | after strrev the buffer holds the code the right way round |
| Huffman.RowHoldsCStr | huffman.c:252 | a row holding s and a NUL reads back as the C string s |
| Huffman.Coder.WalkUp | huffman.c:240-250 | re_code ends up holding the leaf's code backwards |
| Huffman.Coder.BuiltIsWalkable | huffman.c:237-250 | on the built tree, leaf_node[i] is the leaf of the i-th present value and the parent links from every node reach huff_tree, which is what the walk up relies on |
| Huffman.Coder.BuildCode | huffman.c:237-251 | re_code ends up holding the code of leaf i, the path from the root to it, for byte value ch |
| Huffman.Coder.StoreCode | huffman.c:252-255 | the code is copied into its byte value's row with a NUL, re_code is reset, and no other row changes |
| Huffman.Coder.RecordCode | huffman.c:252-255 | storing the i-th present value's code extends the finished rows to the first i + 1 present values; rows of absent values stay as they were |
| Huffman.Coder.WriteCode | huffman.c:236-256 | one more leaf's code is stored, and rows of absent byte values stay as they were |
| Huffman.Coder.WriteCodes | huffman.c:235-256 | after the loop over the n leaves the rows of all present values hold their codes, and rows of absent values stay as they were |
| Huffman.Coder.CreateHuffmanCodeTable | huffman.c:230-258 | returns HUFFMAN_OK, and the row of every present value holds its leaf's path as '0'/'1' characters; rows of absent values stay as they were |
| Huffman.Coder.TableCodes | huffman.c:236-256 | the stored code of the j-th present value is the path to leaf j |
| Huffman.Coder.CompressDecompress | huffman.c:266-343 | after the tree and the table are built, decompressing compress's output gives back every buffer of present values, whatever bytes follow |
| Huffman.Coder.SingleValueEncodesNothing | huffman.c:237-298 | with one present value, compress emits no bits for any buffer of that value, because its stored code is empty |
| Huffman.DecodeBit | huffman.c:323-339 | one bit of the input advances the walk and possibly emits a byte, keeping what was emitted plus what the rest decodes to |
| Huffman.DecodeBits | huffman.c:309-343 | the output is DecodeFrom of the first len bits of the input, followed by a NUL |
| Huffman.Coder.Decompress | huffman.c:309-343 | the output holds the decoding of the first len bits of the input from the root, at most len bytes, then a NUL |
| Huffman.DecompressCapacity | huffman.c:315-316 | the buffer size huffman_decompress allocates: ((len / 8) + 1) * 7 bytes |
| Huffman.CapacityShort | huffman.c:315-316 | from 49 bits on, that size is smaller than the len + 1 bytes a one-bit-per-byte decoding needs |
| Huffman.DecompressOverflows | huffman.c:315-341 | with two present values, 56 bits decode to 56 bytes, and those plus the NUL exceed the 56 bytes allocated |

## Left out

- Loading and writing the weights log (`load_wetghts_log`, `write_wetghts_log`) and `compute_frequency_file` are file I/O and are not modelled.
- `main` prints its results and is not modelled.
- `huffman_init` and its copy of the name are not modelled: the constructor stands for the zero-filled record.
- `huffman_deinit` and `inorder_tree_walk` only free memory and are not modelled.
- `calloc`/`free` have no counterpart. Allocation never fails, and the nodes of an earlier tree are not freed.
- `Huffman.Coder.CreateMpQueue` restarts the arena. The C leaks the previous tree's nodes.
- `Huffman.Coder.CreateMpQueue` returns nothing. The C declares an `int` result but has no return statement.
- The TAILQ links are a sequence of arena indices. The sentinel node is the flag `sentinel`.
- A code_table row is 9 characters long. The C computes `(int)(log10(256)/log10(2)) + 1`, and the model uses the value 9 without the floating-point computation.
- `Huffman.Coder.CreateHuffmanTree`: requires at least one present value, as the C's `assert(n != 0)` does.
- `Huffman.Coder.CreateHuffmanTree`: requires the counters to add up to less than 2^64. The C would silently wrap the summed weights.
- `Huffman.Coder.CreateHuffmanCodeTable`: requires every code to be at most 8 bits (`CodesFit`). A longer code overflows the C's 9-byte `re_code` buffer, which is undefined behaviour.
- `Huffman.Coder.Compress`: requires `len` below 2^31, because the C loop index is a signed `int`.
- `Huffman.Coder.EmitAll`: requires the source and destination arrays to differ. In the C, the destination is always freshly allocated.
- `Huffman.Coder.Decompress`: requires two or more present values unless `len` is 0. With a single leaf, the C follows the root's NULL child on the first bit.
- `Huffman.Coder.Decompress`: requires `len` below 2^32, the range of the C's `unsigned int`.
- `Huffman.Coder.Decompress`: allocates `len + 1` bytes rather than the C's `((len/8)+1)*7`. See Findings.
- `Huffman.Coder.Decompress` returns the decoded length as `outLen` instead of writing it through `*len`. Likewise, Compress returns `bitsSum`.
- A single present value gets the empty code, as the C does: the walk up at huffman.c:240 starts at the root, so strlcpy stores the empty string. Compressing then yields no bits (`Huffman.Coder.SingleValueEncodesNothing`), and the round-trip lemmas require two or more present values.
- `CodeTree.PathTo` is total. For a node not linked to the root it yields an arbitrary path, which is used only under `Rooted`.
- The ghost field `counts` records the counters the tree was built from. The C has no such field. It lets the table and coding contracts name the tree without re-reading `frequency`.
- Several loops, loop bodies and calls are separate methods so that each proof stays small. The statements they contain are those of the C:
  - loop bodies: AddLeaf (create_mp_queue), MergeMin (create_huffman_tree), WriteCode (create_huffman_code_table), EmitSymbol (huffman_compress's outer loop), EmitBit (one character of its inner loop) and DecodeBit (huffman_decompress);
  - loops: MergeAll (the merges of create_huffman_tree), WalkUp (the walk up to the root), WriteCodes (create_huffman_code_table's loop), EmitCode (huffman_compress's inner loop), EmitAll (its outer loop), DecodeBits (huffman_decompress's loop) and ReverseRange (strrev's second loop);
  - straight-line parts: MergeForest (the merges and the root record), RecordRoot (huffman.c:220-226), BuildCode (huffman.c:238-251), TurnAround (the strrev call at huffman.c:251), StoreCode and RecordCode (huffman.c:252-255), and Flush (huffman.c:293-296).

## Findings

| source | as written | input that shows it | evidently intended | confidence | as-written member | corrected member |
|---|---|---|---|---|---|---|
| huffman.c:315-316 | the output buffer of huffman_decompress holds `((len/8)+1)*7` bytes | counters with exactly two present byte values, so both codes are one bit long; 56 bytes compress to len = 56 bits, which decode to 56 bytes plus the NUL at line 341, 57 bytes written into 56 | a buffer of at least len + 1 bytes, since every decoded byte consumes at least one bit | not executed | Huffman.DecompressOverflows | Huffman.Coder.Decompress |
