# Huffman file compression: a Dafny model

This project models the Huffman codec in `compression.c`:

- the array min-heap of tree nodes, ordered by frequency;
- the tree builder, which merges the two lightest nodes until one is left;
- the code table, built by walking the tree (left = `0`, right = `1`);
- the compressor: byte counting, the ascending list of bytes that occur,
  the header, and the bit packing (lowest bit of each byte first);
- the decompressor: header checks, rebuilding the tree, and the bit walk
  that stops after the announced number of bytes.

Everything is pure functions over immutable data. A heap is a `seq<Tree>`.
A bit string is a `seq<bool>`, with `true` for `'1'`. A file is a
`seq<Byte>`.

Both sides build the tree with the same function from the same ordered
list, so the decoder rebuilds the encoder's tree exactly. The main theorem,
`RoundTrip.RoundTrip`, states that decompressing the compressed bytes gives
back the input, for every input with at least two distinct bytes and fewer
than 2^31 bytes.

With only one distinct byte, the source does not special-case the lone-leaf
tree. That byte gets the empty code, no data bytes are written, and the
decoder stops at once with nothing emitted. `RoundTrip.SingleSymbolIsLost`
proves this behaviour as the code has it. The lone leaf is not given a
one-bit code.

The decoder's "Invalid Huffman tree traversal" check is not a general guard
against corrupt data. In a tree with two or more leaves every internal node
has two children, so the walk can never reach a NULL child.
`Decoder.InvalidOnlyForLoneRecord` proves that the check fires exactly for a
header with one record and a positive count, followed by at least one data
byte.

A compressed file that loses some of its data bytes (but not its header)
decodes to a proper prefix of the input and then stops at the end of the
data. Each byte is written as soon as its code has been read whole, so the
prefix is exactly the longest one whose codes fit in the bits that remain.
`RoundTrip.Truncated` proves this.

Node weights are C `unsigned` values: each merge adds the two weights
modulo 2^32, and the decoder hands each signed header count to the tree
builder as an `unsigned`, so a negative count becomes a weight near 2^32.
The model does both, so a crafted header builds the same (wrapped) tree as
the C code.

Files, one module each: `basics.dfy` (Byte, the `unsigned` conversion, Option, Result), `bags.dfy`
(sums and multisets over sequences, and their invariance under
permutation), `tree.dfy`, `minheap.dfy`, `builder.dfy`, `codes.dfy`,
`frequency.dfy`, `bitpack.dfy`, `header.dfy`, `encoder.dfy`, `decoder.dfy`,
`roundtrip.dfy`.

## Model

| member | source | states |
|---|---|---|
| HuffmanTree.IsLeaf | compression.c:157-160 | a node is a leaf exactly when neither a left nor a right step leads anywhere from it |
| Basics.Unsigned | compression.c:174 | an `int` count passed as newNode's `unsigned` frequency lies in 0..2^32-1, is kept when already in range, and gains 2^32 when negative |
| HuffmanTree.WeightIsLeafTotal | compression.c:206-209 | when every internal node weighs the `unsigned` sum of its children, the root weighs the total of its leaves' frequencies modulo 2^32, and exactly that total when it is below 2^32 |
| MinHeap.MinHeapify | compression.c:97-115 | heapify keeps the array's length and its nodes (same multiset) |
| MinHeap.MinHeapifyRestores | compression.c:97-115 | heapify at i restores the heap property below a bound when it was broken only at i |
| MinHeap.MinHeapifyKeepsTies | compression.c:103-109 | the comparisons are strict: a node no heavier than its children, equal weights included, is left in place and the array is unchanged |
| MinHeap.ExtractMin | compression.c:124-131 | extractMin returns one node and leaves the other nodes; from a heap it returns a lightest node and leaves a heap |
| MinHeap.RootIsMinimal | compression.c:124-131 | in a heap, the root weighs no more than any node |
| MinHeap.InsertMinHeap | compression.c:134-145 | insertMinHeap grows the heap by exactly the new node and keeps the heap property |
| MinHeap.SiftUpRestores | compression.c:134-145 | moving a node up while it is lighter than its parent repairs a heap broken only at that node |
| MinHeap.InsertKeepsTies | compression.c:136-144 | the loop test is strict: a new node no lighter than its parent, equal weight included, stays in the last slot and nothing else moves |
| MinHeap.BuildMinHeap | compression.c:148-154 | buildMinHeap keeps the nodes and leaves a heap, with the C start index (n-1)/2 for n = size-1 |
| MinHeap.HeapifyDownRestores | compression.c:148-154 | heapifying every index from i down to 0 turns an array ordered above i into a heap |
| MinHeap.BuildMinHeapKeepsHeap | compression.c:148-154 | buildMinHeap leaves an array that is already a heap exactly as it is, so equal weights keep their order |
| TreeBuilder.CreateAndBuildMinHeap | compression.c:163-187 | the initial heap holds exactly one leaf per (byte, count) pair and is a heap |
| TreeBuilder.MergeAll | compression.c:201-215 | the merge loop runs size-1 times |
| TreeBuilder.MergeOnceTakesLightest | compression.c:200-208 | one loop pass takes out a lightest node, then a lightest node of the rest (so the left child weighs no more than the right), puts back their merge with the first as left child, and keeps the heap property |
| TreeBuilder.MergeOnceShape | compression.c:202-210 | one merge keeps the forest's leaves and symbols, and keeps every tree well formed |
| TreeBuilder.MergeAllShape | compression.c:190-216 | the final root is well formed and carries every leaf and symbol of the starting forest |
| TreeBuilder.BuildHuffmanTree | compression.c:190-216 | the tree's leaves are exactly the input pairs, internal nodes are the `unsigned` sums of their children, the root weighs the input total modulo 2^32 (the total itself when below 2^32), and the root is a lone leaf exactly when there is one pair |
| CodeTable.StoreCodes | compression.c:240-263 | storeCodes adds a code for exactly the tree's symbols |
| CodeTable.StoreCodesArePaths | compression.c:240-263 | each symbol's code is the current path followed by the path to its leaf; other codes are left alone |
| CodeTable.CodesOfTree | compression.c:240-263 | one code per symbol, each leading to that symbol's leaf, none a prefix of another, and empty exactly for a lone-leaf tree |
| CodeTable.HuffmanCodes | compression.c:266-275 | every listed byte, and no other, gets a code |
| Frequency.CountFrequency | compression.c:281-311 | 256 counters, each the number of occurrences of its byte, adding up to the input length |
| Frequency.SymbolList | compression.c:421-430 | the list holds exactly the bytes with nonzero counts, in strictly ascending order, each with its count |
| BitPacking.PackBitsLayout | compression.c:484-512 | bit j pushed goes to bit j%8 of byte j/8, later bits stay clear, and the output has ceil(n/8) bytes |
| BitPacking.Pack | compression.c:474-512 | bit j of the stream is bit j%8 of byte j/8, padding bits are 0, and the stream has ceil(n/8) bytes |
| BitPacking.Unpack | compression.c:622-629 | the decoder reads bit i of each byte as (ch >> i) & 1, bytes in order |
| BitPacking.UnpackPack | compression.c:484-512 | unpacking the packed stream gives the bits back, then only clear padding bits |
| BitPacking.UnpackTruncated | compression.c:622-629 | dropping packed bytes from the end leaves a proper prefix of the bit stream, with no padding bits |
| Header.IntRoundTrip | compression.c:458-461 | a 32-bit int written as four bytes reads back as the same int |
| Header.WriteHeader | compression.c:457-462 | the header is 4 + 5k bytes for k distinct bytes |
| Header.ReadRecords | compression.c:587-595 | reading k records needs 5k bytes and fails on fewer; record i is the byte at 5i followed by the four-byte `int` count after it, negative counts included; the rest of the input is left |
| Header.ReadHeader | compression.c:567-595 | a short count, a count <= 0 or > 256, or missing records are errors; a count in 1..256 is accepted exactly when 5 bytes per record follow, and the records are read in file order |
| Header.ReadWrittenHeader | compression.c:456-462 | reading a written header gives back the (byte, count) pairs in order, and the bytes after it |
| Encoder.EncodeBits | compression.c:479-497 | the encoded stream is empty when every input byte has the empty code |
| Encoder.Compress | compression.c:384-438 | an empty input is refused; any other gives at least a header with one record |
| Decoder.Walk | compression.c:616-655 | the walk emits at most the announced number of bytes, completes exactly when it emits all of them, and emits only symbols of the tree |
| Decoder.WalkNeverInvalid | compression.c:628-641 | when the root is an internal node the walk never meets a NULL child, so it never ends with "Invalid Huffman tree traversal" |
| Decoder.LoneLeafIsInvalid | compression.c:628-641 | with a lone-leaf root, the first bit already steps to a NULL child: nothing is emitted and the traversal is invalid |
| Decoder.TreeEntries | compression.c:174 | each record keeps its byte, and its `int` count reaches newNode as an `unsigned` frequency: a count in 0..2^31-1 is kept and a negative count gains 2^32 |
| Decoder.Decompress | compression.c:537-655 | header errors stop decoding with the C conditions; otherwise every emitted byte is a header byte, and decoding completes exactly when total_chars bytes are emitted |
| Decoder.InvalidOnlyForLoneRecord | compression.c:567-641 | decompression ends with an invalid traversal exactly when the header holds one record, the counts add up to a positive total, and at least one data byte follows |
| RoundTrip.WalkCode | compression.c:628-646 | walking a code from an internal node emits its symbol and returns to the root |
| RoundTrip.WalkMessage | compression.c:622-655 | walking the encoded message, whatever follows it, emits the message and completes |
| RoundTrip.WalkCodeCut | compression.c:628-646 | walking a proper prefix of a code from an internal node never reaches a leaf or a NULL child: the bits run out first |
| RoundTrip.WalkMessageCut | compression.c:622-646 | walking a proper prefix of the encoded message emits exactly the longest prefix of the message whose codes lie whole within the bits read, and then ends at end-of-data |
| RoundTrip.AscendingSymsOnce | compression.c:421-430 | a strictly ascending byte list names no byte twice |
| RoundTrip.RoundTrip | compression.c:384-655 | with two or more distinct bytes, decompress(compress(data)) is data, complete |
| RoundTrip.Truncated | compression.c:616-655 | with two or more distinct bytes, the output is the header then the data bytes; with 1 up to all of the data bytes dropped, the decoder emits exactly the longest prefix of the input whose codes fit in the bytes kept, then reports end-of-data, never an invalid traversal |
| RoundTrip.SingleSymbolIsLost | compression.c:384-655 | with one distinct byte, decompress(compress(data)) emits nothing and ends at the end of the data |

## Left out

- File I/O is left out: opening files, chunked `fread`/`fwrite`, `fseek`/`ftell` sizes, and `rewind`. The model works on whole byte sequences. The 8 KiB chunking gives the same bytes.
- Progress messages, `printCodes`, the compression ratio (floating point), `validatePath`, `getFileSize`, and `main` are left out. They do not change the output bytes, with one caveat: the decoder's progress line (compression.c:648) computes `decoded_chars * 100` in a signed `int`, which overflows (undefined behaviour in C) once more than 21,474,836 bytes are decoded. The model assumes that overflow is harmless, which the C standard does not promise.
- Allocation failures (`exit(1)` after `malloc`) are left out. The model has no heap memory.
- The fixed `arr[MAX_TREE_HT]` path buffer in `HuffmanCodes` is left out. Paths are unbounded sequences, so codes longer than 100 bits are not modelled as overflowing.
- Frequency.CountFrequency: the counters are unbounded. The C `int` counters overflow after 2^31 occurrences. The round-trip theorem assumes fewer than 2^31 input bytes.
- Decoder.Decompress: `total_chars` is an unbounded sum of the signed counts. The C `int` sum can overflow on crafted headers, which is undefined behaviour in C.
- Header.IntBytes: the byte order of `fwrite(&int)` is the machine's. The model fixes it to little-endian and the width to 32 bits.
- MinHeap.InsertMinHeap: the C code moves a hole up and writes the node once. The model swaps the node upward instead. Both leave the same array.
- Decoder.Walk: the C loop reads one byte, then up to eight bits. The model walks the unpacked bit string. The result is the same: both stop when the announced count is reached, and both report end-of-data when the bytes run out first. Output already written before an invalid traversal is kept in `output`.
