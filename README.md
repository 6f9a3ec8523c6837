# Huffman compressor, modelled in Dafny

A model of `huffman.py`, a Huffman prefix-code compressor, and proofs about it.
`compress` counts the characters of a text, builds a Huffman tree by greedily
merging the two lightest trees of a priority queue, derives each character's
codeword as its root-to-leaf path ('0' left, '1' right), concatenates the
codewords of the text, prepends an eight-bit padding header and appends zero
bits up to a byte boundary, and packs the bits into bytes. `decompress`
expands the bytes back into bits, strips the header and the padding, and walks
a tree bit by bit, emitting a character at every leaf and going back to the
root.

Modules, one per stage:

- `Base` (base.dfy): symbols (`char`), bit strings (`seq<char>` of '0'/'1'), the
  error values and a `Result` type. The exceptions of the source become
  `Failure` values: `EmptyQueue` for the `IndexError` of `priority_queue[0]`,
  `MissingCodeword` for the `KeyError` of `codeword_table[char]`, `EmptyHeader`
  for the `ValueError` of `int('', 2)`, and `NoChild` for reading `.char` of
  the `None` child of a leaf.
- `HuffmanTree` (tree.dfy): `HuffmanNode` as a datatype `Leaf(sym, freq) |
  Node(freq, left, right)`. A merged node has no symbol and always two
  children. Also paths in a tree and the facts about them.
- `Frequency` (frequency.dfy): `build_frequency_table`, a loop updating a map.
- `TreeBuilder` (tree_builder.dfy): `build_huffman_tree`. The heap is a
  sequence of trees, and `heappop` is a scan for a least-weight tree.
- `Codewords` (codewords.dfy): `build_codeword_table` and its `traverse`.
- `Encoder` (encoder.dfy): `encode`.
- `Decoder` (decoder.dfy): the decoding walk of huffman.py:115-124, for any tree.
- `BitPacking` (bit_packing.dfy): `pad_encoded_data`, the packing at
  huffman.py:91, the unpacking at huffman.py:103 and the strip at
  huffman.py:106-109.
- `Pipeline` (pipeline.dfy): `compress` and `decompress`.

Files are replaced by their contents: `Compress` takes the text, and
`Decompress` takes the byte list. `Compress` also returns the tree it built, and
`Decompress` takes a tree. The source's own `decompress` does not do this: it
rebuilds a tree from the frequencies of the bits it reads (huffman.py:112).
That version is modelled as written, as `DecompressAsWritten`, and is recorded
under Findings.

Behaviour of the source that the model keeps as it is:
- The padding amount is `8 - len % 8` (huffman.py:66), so it is between 1
  and 8 and never 0. An already aligned bit string gets a whole byte of
  zeros.
- The decoding walk (huffman.py:115-124) does not fail when the bits end in
  the middle of a codeword. It returns the characters decoded so far.
- The strip `binary_data[8:-padding_amount]` (huffman.py:109) raises no
  error when the header is larger than the remaining bits: the Python slice
  is then empty, and the model gives the empty bit string too. A header
  of 0 also gives the empty bit string, because `[8:-0]` is `[8:0]`.
- A text of a single distinct character builds a tree that is a single leaf.
  `traverse` gives its character the empty codeword (huffman.py:51-52). The
  encoding then has no data bits, and decoding with that tree gives the
  empty text (`Decoder.SingleLeafLosesText`).

## Model

| member | source | states |
|---|---|---|
| Frequency.BuildFrequencyTable | huffman.py:21-28 | a character is a key exactly when it occurs in the text, its count is its number of occurrences, and the counts add up to the length of the text |
| Frequency.TallyStep | huffman.py:24-27 | one more character raises its own count by one, or creates it with count 1, and keeps the table a correct tally of the longer prefix |
| Frequency.SumValuesUpdate | huffman.py:25-27 | setting one key's count changes the total by exactly the difference |
| TreeBuilder.MinIndex | huffman.py:35-36 | `heappop` takes a tree of least weight, with weight as the only ordering (huffman.py:18-19) |
| TreeBuilder.InitialQueue | huffman.py:31-32 | the initial queue holds as many trees as the table has entries, each a bare leaf carrying its symbol's count; its leaves are the table's keys, each once, and its total weight is the sum of the counts |
| TreeBuilder.PopTwoLightest | huffman.py:35-36 | the two popped trees are the lightest of the queue, the first no heavier than the second, and the queue keeps all the other trees |
| TreeBuilder.MergeStep | huffman.py:38-42 | pushing the merged node, whose weight is the sum of its children's, keeps the queue's leaves and its total weight |
| TreeBuilder.BuildTree | huffman.py:30-44 | fails exactly on an empty table; otherwise every merged node weighs the sum of its children, the leaves are the table's symbols, each once with its own count, and the root weighs the sum of all counts |
| TreeBuilder.LastTree | huffman.py:44 | when at most one tree is left, the queue is empty exactly when the table was, and a single tree left is the whole result |
| TreeBuilder.RootIsNodeIffTwoSymbols | huffman.py:34-44 | the root is a merged node exactly when the table has two or more symbols, so it is a single leaf exactly when there is one |
| TreeBuilder.KeysAreDistinct | huffman.py:31 | each table key labels exactly one leaf of the built tree |
| HuffmanTree.PathTo | huffman.py:49-54 | the path to a leaf symbol is a '0'/'1' string that leads from the root to that symbol's leaf |
| HuffmanTree.PathUnique | huffman.py:49-54 | when the leaf symbols are distinct, a path that reaches a symbol's leaf is the only such path |
| HuffmanTree.LeafPathsPrefixFree | huffman.py:49-54 | a path that reaches a leaf is a prefix of another such path only when the two are the same path to the same leaf |
| HuffmanTree.DescendStep | huffman.py:118-121 | following one more bit from a merged node moves to its left child on '0' and its right child otherwise |
| HuffmanTree.DescendSyms | huffman.py:117-124 | every leaf reached from a node reached from the root is a leaf of the whole tree |
| Codewords.TraverseInto | huffman.py:49-54 | the recursive walk that writes into one dictionary adds an entry for every leaf symbol and keeps every other entry; with distinct leaf symbols, a leaf's entry is the code so far followed by its path; the result is `Traverse` of the same arguments |
| Codewords.ComputeCodewordTable | huffman.py:46-57 | the keys are exactly the leaf symbols; with distinct leaf symbols each codeword is the '0'/'1' path from the root to its leaf; a single-leaf tree gives its symbol the empty codeword; a larger tree gives no empty codeword |
| Codewords.Traverse | huffman.py:49-54 | `traverse` with the dictionary passed along, left subtree first; its properties are the contracts of `TraverseKeeps` and `TraversePath` |
| Codewords.BuildCodewordTable | huffman.py:46-57 | `build_codeword_table`; its contract is `CodewordTableSpec` and `PrefixFree` |
| Codewords.NodeCodewordsNonEmpty | huffman.py:49-54 | under a merged root, even with repeated leaf symbols, every codeword written is at least one bit long |
| Codewords.TraverseKeeps | huffman.py:49-54 | the walk adds an entry for every leaf symbol and leaves the entries of all other symbols unchanged |
| Codewords.TraversePath | huffman.py:49-54 | with distinct leaf symbols, a leaf's entry is the code so far followed by its path, because a later write never overwrites it |
| Codewords.CodewordTableSpec | huffman.py:46-57 | the keys are exactly the leaf symbols; each codeword is a '0'/'1' string that leads to its symbol's leaf and is the only one that does; a single-leaf tree gives the empty codeword; otherwise no codeword is empty |
| Codewords.PrefixFree | huffman.py:46-57 | no codeword of one symbol is a prefix of the codeword of another symbol |
| Encoder.Concat | huffman.py:59-63 | the codewords of the text in text order, one after another; its contracts are `ConcatAppend`, `ConcatLength` and `ConcatShape` |
| Encoder.Encode | huffman.py:59-63 | succeeds with the in-order concatenation of the codewords when every character has one; otherwise fails on the first character without one |
| Encoder.ConcatAppend | huffman.py:61-62 | encoding a concatenation of two texts gives the concatenation of their encodings |
| Encoder.ConcatLength | huffman.py:59-63 | the encoding's length is the sum of the codeword lengths of the text's characters |
| Encoder.ConcatShape | huffman.py:59-63 | the encoding is a '0'/'1' string; with no empty codeword it is at least as long as the text; it is empty exactly when every character of the text has the empty codeword |
| Decoder.Step | huffman.py:118-124 | one bit of the walk: fails from a leaf, moves to a child, and emits the symbol and goes back to the root on reaching a leaf; its properties are the contracts of `WalkCodeword` and `RunEmitsLeafSymbols` |
| Decoder.Run | huffman.py:117-124 | the walk only appends to the output, and appends at most one character per bit |
| Decoder.Decode | huffman.py:115-124 | a decoded text has at most one character per bit; its round trip is `RoundTrip`, and its converse is `EndsAtRootIffWholeCodewords` |
| Decoder.DecodeWalk | huffman.py:115-124 | the loop returns what the recursive walk `Decode` defines: it fails only when it steps from a leaf, and returns the partial output when the bits end mid-path |
| Decoder.WalkCodeword | huffman.py:117-124 | walking a codeword from a merged node emits exactly its symbol and goes back to the root |
| Decoder.RunEncoded | huffman.py:115-124 | walking the encoding of a text from the root emits exactly that text and ends at the root |
| Decoder.RoundTrip | huffman.py:115-124 | with a tree of at least two leaves, decoding the encoding of any text over its leaves gives the text back |
| Decoder.RunEndsAtRoot | huffman.py:115-124 | a walk that ends at the root has read exactly the codewords of the characters it emitted |
| Decoder.EndsAtRootIffWholeCodewords | huffman.py:115-124 | the walk ends back at the root exactly when the bit string is a concatenation of whole codewords |
| Decoder.RunEmitsLeafSymbols | huffman.py:122-124 | every character the walk emits, for any bits and any tree, is a leaf symbol of that tree |
| Decoder.SingleLeafLosesText | huffman.py:49-52 | with a single-leaf tree, any text of its one character encodes to no bits, and decoding gives the empty text |
| BitPacking.FromBits | huffman.py:91 | `int(s, 2)` of a bit string is below 2 to the power of its length, so eight bits fit in a byte |
| BitPacking.ToBits | huffman.py:68 | `format(n, '0wb')` writes exactly w '0'/'1' digits; `FromToBits` and `ToFromBits` show that it inverts `int(s, 2)` |
| BitPacking.FromToBits | huffman.py:103 | `format(n, '08b')` writes exactly eight '0'/'1' digits, which read back as n |
| BitPacking.ToFromBits | huffman.py:91 | writing the value of a bit string with as many digits as it had gives the bit string back |
| BitPacking.Pad | huffman.py:65-69 | `pad_encoded_data`; its contract is `PadSpec` |
| BitPacking.Pack | huffman.py:91 | one byte for every eight bits, rounding up; it inverts `Unpack` (`UnpackPack`, `PackUnpack`) |
| BitPacking.PadSpec | huffman.py:65-69 | the padding amount is between 1 and 8; the padded string is `8 + len + amount` long, a multiple of 8; its first eight bits read as the amount, then come the encoded bits, then only '0' |
| BitPacking.Unpack | huffman.py:103 | the bytes expand to a '0'/'1' string of eight bits per byte |
| BitPacking.UnpackPack | huffman.py:91 | packing a byte-aligned bit string gives one byte per eight bits, and expanding those bytes gives the bit string back |
| BitPacking.PackUnpack | huffman.py:103 | packing the expansion of any byte list gives the byte list back |
| BitPacking.StripPadding | huffman.py:106-109 | fails exactly when there are no bits to read a header from; a success is a '0'/'1' string that is empty or at least nine bits shorter than the input; `StripPad` shows that it undoes `Pad` |
| BitPacking.StripPad | huffman.py:106-109 | stripping the header and `[8:-amount]` from a padded string gives exactly the encoded bits, including when there are none |
| BitPacking.ReadBack | huffman.py:91-109 | expanding the written bytes and stripping the padding gives exactly the encoded bits |
| BitPacking.ZeroPaddingKeepsNothing | huffman.py:109 | a header that reads 0 makes `[8:-0]` keep no bits at all |
| Pipeline.Compress | huffman.py:71-95 | fails exactly on the empty text. Otherwise: the tree is well weighted, with the text's characters as leaves, each once, weighted by its count; the root weighs the text's length; the bytes are the packed, padded encoding; it is a merged node exactly when the text has two distinct characters; decompressing with it gives the text back, or the empty text for one repeated character |
| Pipeline.BuiltTree | huffman.py:77-78 | the tree built from a text's frequency table has the text's characters as leaves, each once with its count, weighs the text's length, and is a single leaf exactly when the text has one distinct character |
| Pipeline.TwoKeysIffTwoSymbols | huffman.py:31 | the frequency table has two keys exactly when the text has two different characters |
| Pipeline.DecompressCompressed | huffman.py:84-124 | decompressing with a tree the bytes written for a text over its leaves gives the text, or the empty text when the tree is a single leaf |
| Pipeline.Decompressed | huffman.py:103-124 | the text decompress recovers with a given tree; `DecompressCompressed` shows what it gives for the bytes compress writes |
| Pipeline.Decompress | huffman.py:97-124 | expanding, stripping and walking with the given tree computes `Decompressed` |
| Pipeline.DecompressAsWritten | huffman.py:97-124 | with the tree rebuilt from the bit string: no bytes fail at the header; no bits left after the strip fail at the rebuild; stripped bits that are all the same rebuild a single leaf, and the walk fails at its first bit as `None.char` does (huffman.py:119-122); every successful output is a '0'/'1' string |
| Pipeline.CompressThenDecompressAsWritten | huffman.py:147-151 | compressing, then decompressing as the source does, never gives back a text that holds a character other than '0' and '1', and fails on the empty text |
| Pipeline.CompressThenDecompress | huffman.py:147-151 | compressing, then decompressing with the compress tree, gives back any text with two distinct characters, gives the empty text for one repeated character, and fails on the empty text |

## Left out

- File reading and writing, and the `print` calls (huffman.py:72-74, 90-95, 98-100, 126-130). The text and the byte list are parameters and results.
- The module-level script that creates fixed-name files and runs the pipeline (huffman.py:133-151). Only its compress-then-decompress sequence is modelled.
- Text-mode character decoding of the input file. Symbols are Dafny `char`s, and the model does not depend on their encoding.
- The internals of `heapq` (`heapify`, `heappop`, `heappush`). The queue is a sequence. A pop takes the first least-weight tree in queue order. The initial queue takes the table's entries in an unspecified order. Among equal weights, the heap may choose differently from the model, so tree shapes can differ. Every stated property holds for any least-weight choice.
- BuildTree: does not state that the tree has the least total weighted path length, which is Huffman optimality. It also does not state that two builds give the same codeword lengths. Only the greedy choice of the two lightest trees (`PopTwoLightest`) and the shape and weight facts are proved.
- DecompressAsWritten: states what the rebuilt tree can produce ('0'/'1' strings only) and when it fails. It does not state which string it produces. When the stripped bits hold both '0' and '1', the rebuilt tree has exactly those two leaves, and the output is the stripped bits when '0' ends up on the left, or their complement otherwise. When they hold only one of the two, the tree is a single leaf, and the walk fails at its first bit (stated: the source's `AttributeError` on `None.char`, the model's `NoChild`). The source pops the rarer of the two first and makes it the left child; when the two counts are equal, the order comes from the heap. The model's `BuildTree` does not state which child is which, and its initial queue order is unspecified rather than the dictionary's insertion order.
- `bytes(bytes_list)` raising on a value above 255 cannot happen: every group that is packed has at most eight bits (`BitPacking.FromBits`). So `Pack` returns `Byte`s, and the `ValueError` is not modelled.

## Findings

| source | as written | input that shows it | evidently intended | confidence | as-written member | corrected member |
|---|---|---|---|---|---|---|
| huffman.py:112 | `decompress` rebuilds the tree from the frequencies of the stripped bit string, so the rebuilt tree's leaves are '0' and '1' and the output is made only of those characters | the text "ab": compress writes the bytes [6, 64], whose stripped bits are "01"; the rebuilt tree has leaves '0' and '1', and the output is "01", not "ab" | decode with the tree that `compress` built, kept or sent along with the bytes | not executed | Pipeline.CompressThenDecompressAsWritten | Pipeline.CompressThenDecompress |
