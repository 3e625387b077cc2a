# Huffman codec

A model of the Huffman text codec in src/compress.rs (module `huffman`) and
of its compress-only twin src/huffman.rs, with proofs about the model.

`compress` works in these steps:

1. It counts the letters of the text. `freq_count` sorts them and
   run-length counts them.
2. It builds the Huffman tree. `construct_huffman_tree` merges the two
   lightest trees of a priority queue until one tree is left.
3. It derives the code of every letter. `to_hashmap` takes the letter's path
   from the root, 0 for left and 1 for right. A tree that is a single leaf
   gets the code 0.
4. It writes the container:
   - one length byte `n`;
   - the `n` post-order bytes of the tree (`to_string` / `embed_tree`), with
     the byte 0 marking each internal node;
   - a padding byte;
   - the codes of the text, packed most significant bit first
     (`compress_data`).

`decompress` reads the container back:

- `construct_tree_from_postorder` rebuilds the tree with a stack.
- `decompress_data` expands the data bytes into bits, drops the padding and
  walks the tree.

The central theorem is `Huffman.RoundTripAnyTree`. Take any text of
one-byte letters without NUL, and any tree over the text's letters with at
most 128 leaves. The container `compress` writes with that tree is one
`decompress` accepts without a panic, and decoding it gives the text back.
`TreeBuild.Builds` describes every tree the loop of `construct_huffman_tree`
may end with when each pop takes some node of least weight, whichever one the
heap's layout picks. `Huffman.RoundTripHeap` shows that all of them are such
trees, so the round trip holds however the heap breaks ties between trees of
equal weight. `Huffman.RoundTrip` applies it to the tree the model builds.

The model follows the source's own form:

- The loops of `freq_count`, `construct_huffman_tree`, `compress_data`,
  `construct_tree_from_postorder` and `decompress_data` are methods with
  loops. Each is proved equal to a specification function.
- The recursive traversals `to_hashmap` and `to_string` are functions.
- The properties are lemmas about those functions.

Modules:

| file | module | models |
|---|---|---|
| bits.dfy | `Bits` | bytes, most-significant-first bit strings, the padding byte and packing |
| tree.dfy | `Optional`, `HuffmanTree` | `Node`, the leaves and weights of a tree and of a queue of trees |
| freq.dfy | `Frequency` | `freq_count` |
| build.dfy | `TreeBuild` | `construct_huffman_tree` |
| codes.dfy | `Codes` | the recursive `encode` of `to_hashmap`, and the packing loop of `compress_data` |
| serial.dfy | `TreeSerial` | `to_string`, `embed_tree`, `construct_tree_from_postorder` |
| decode.dfy | `Decoding` | `decompress_data` |
| huffman.dfy | `Huffman` | `to_hashmap`, `compress_data`, `compress` and `decompress` of src/compress.rs |
| legacy.dfy | `LegacyCodec` | `to_hashmap`, `compress_data` and `compress` of src/huffman.rs |

Panics in the source become preconditions. Examples are `expect` on empty
input, `unwrap` on a letter without a code, popping an empty stack, and
slicing past the end of the container.

The model follows the code as written, including where it panics or
truncates instead of reporting an error:

- The source has no error results; it panics.
- The length byte is `len() as u8` and truncates (`TreeSerial.EmbedTree`
  keeps the `% 256`). For one-byte letters the length is at most 255, so
  truncation cannot happen there (`Huffman.TreeAscii`).
- Reconstruction returns the last node on the stack, even when more than one
  node is left.
- A walk that stops inside the tree emits the internal node's letter `'\0'`;
  it does not report corrupt data.
- src/huffman.rs keeps the one behavioural difference: a single-leaf tree
  gets the empty code (see Findings).

## Model

| member | source | states |
|---|---|---|
| Bits.Padding | src/compress.rs:165-172 | the padding is below 8, it makes the bit count a multiple of 8, and it equals (8 - B mod 8) mod 8 |
| Bits.Pack | src/compress.rs:148-174 | the packed output has 1 + ceil(B/8) bytes, and byte 0 is the padding, below 8 |
| Bits.MsbBits | src/compress.rs:228-232 | testing bit 7 and shifting left n times yields n bits |
| Bits.Unpack | src/compress.rs:226-233 | expanding the data bytes yields 8 bits per byte |
| Bits.UnpackPack | src/compress.rs:226-234 | expanding the packed bytes gives the bits followed by `padding` zero bits; the padding never exceeds the data bits; dropping it restores the bits exactly |
| Bits.UnpackChunk | src/compress.rs:226-234 | expanding bytes made of 8-bit groups gives those bits back |
| Bits.MsbBitsValue | src/compress.rs:228-233 | reading a byte's bits from bit 7 down gives the bits the byte was made of |
| Bits.ChunkAppend | src/compress.rs:155-162 | packing two strings of whole bytes packs each in turn |
| Bits.ValueZeros | src/compress.rs:165-168 | shifting left by p appends p zero bits |
| Bits.Unpadded | src/compress.rs:234 | dropping the padding leaves 8 × (bytes − 1) − padding bits |
| HuffmanTree.Strip | src/compress.rs:200-214 | a rebuilt node has the same shape and letters with every frequency 0 |
| HuffmanTree.QueueRemove | src/compress.rs:76 | taking one tree out of the queue takes its leaves, letters and weight out of the queue's sums |
| HuffmanTree.QueueOfLeaves | src/compress.rs:71-74 | a queue of leaves holds exactly those leaves and their letters |
| Frequency.SortChars | src/compress.rs:41-42 | the sorted letters are in order, a permutation of the text, and of the same length |
| Frequency.InsertSorted | src/compress.rs:42 | inserting into a sorted list keeps it sorted |
| Frequency.CountFrequency | src/compress.rs:43-55 | run-length counting a sorted non-empty text gives one leaf per distinct letter, in strictly ascending order, each holding its count (at least 1); the counts sum to the length |
| Frequency.FrequencyListPerm | src/compress.rs:41-42 | the frequency list of a permutation of the text is a frequency list of the text |
| Frequency.Count | src/compress.rs:43-55 | the loop state after a non-empty prefix: the current letter is the prefix's last, and the current run is between 1 and the prefix's length |
| Frequency.FreqCount | src/compress.rs:39-56 | the loop's result is the counting function's, and it is a frequency list of the text |
| Frequency.AscendingBound | src/compress.rs:133-136 | strictly ascending letters all below 128 and at least lo number at most 128 − lo |
| TreeBuild.Pop | src/compress.rs:76 | removing the minimum leaves one node fewer |
| TreeBuild.PopMin | src/compress.rs:76 | the popped node weighs no more than any node of the queue |
| TreeBuild.PopBag | src/compress.rs:76 | the queue is the popped node plus the rest |
| TreeBuild.Combine | src/compress.rs:75-84 | one round shrinks the queue by one |
| TreeBuild.CombineRound | src/compress.rs:75-84 | one round removes a least-weight node a, then a least-weight node b of the rest, and adds back Merge(a.freq + b.freq, a, b) |
| TreeBuild.MergeStep | src/compress.rs:75-84 | a round with both pops of least weight shrinks the queue by one and leaves the merged node in it |
| TreeBuild.CombineWellWeighted | src/compress.rs:77-82 | if every queued tree weighs the sum of its children at each node, so does every tree after a round |
| TreeBuild.CombineLeaves | src/compress.rs:75-84 | a round keeps the queue's leaves |
| TreeBuild.CombineWeight | src/compress.rs:75-84 | a round keeps the queue's weight |
| TreeBuild.Huffman | src/compress.rs:75-85 | combining until one tree is left ends in an internal node whenever the queue starts with two or more trees |
| TreeBuild.HuffmanSums | src/compress.rs:70-86 | the final tree's leaves and letters are exactly the queue's, and its root weighs the queue's total; a well-weighted queue gives a well-weighted tree |
| TreeBuild.RoundAt | src/compress.rs:75-84 | a round that pops the nodes at any two indices shrinks the queue by one |
| TreeBuild.Builds | src/compress.rs:70-86 | the trees the heap loop may end with when each pop takes any least-weight node (the helper `LeastAt` says a node is of least weight); such a tree exists only for a non-empty queue, and is an internal node when two or more trees were queued |
| TreeBuild.RoundAtSums | src/compress.rs:75-84 | a round keeps the queue's leaves, letters and weight, whichever nodes it pops |
| TreeBuild.BuildsSums | src/compress.rs:70-86 | every tree the loop may end with, under any choice of least-weight nodes, has exactly the queue's leaves and letters and weighs its total |
| TreeBuild.HuffmanBuilds | src/compress.rs:70-86 | the first-minimum tree is one of the trees the loop may end with |
| TreeBuild.ConstructHuffmanTree | src/compress.rs:70-86 | the loop returns the tree of the round-by-round specification, with the sums above |
| Codes.Encode | src/compress.rs:96-109 | the table has a code for exactly the letters of the tree |
| Codes.EncodePath | src/compress.rs:96-109 | a letter's code is the path prefix followed by its path from the node |
| Codes.EncodeReaches | src/compress.rs:96-110 | every code leads from the root to a leaf with its letter; under an internal root it is non-empty |
| Codes.PrefixFree | src/compress.rs:96-110 | no letter's code is a prefix of another letter's code |
| Codes.ReachesPrefix | src/compress.rs:96-110 | two paths to leaves where one is a prefix of the other are the same path to the same letter |
| Codes.EncodeStrip | src/compress.rs:96-109 | the codes do not depend on the frequencies |
| Codes.FollowAppend | src/compress.rs:242-250 | following a path in two parts is following the first part, then the second from where it ends |
| Codes.TextBits | src/compress.rs:153-155 | when every code is non-empty the text spells at least one bit per letter |
| Codes.TextBitsCons | src/compress.rs:153-155 | the text's bits are the first letter's code followed by the bits of the rest |
| Codes.TextBitsLength | src/compress.rs:153-164 | with one-bit codes a text has one bit per letter |
| Codes.PackCodes | src/compress.rs:148-174 | the loop's bytes are the padding byte and the packed bits of the letters' codes in text order |
| Codes.PushCode | src/compress.rs:155-163 | shifting one code into the packer appends its bits to those written, keeping the whole bytes pushed and the fewer than eight bits in `byte` |
| Codes.PackStep | src/compress.rs:156-162 | one bit shifts into the partial byte, and the eighth completes it |
| Codes.PackTail | src/compress.rs:165-172 | the tail step writes the partial byte left-aligned with zero low bits behind padding 8 − count, or padding 0 when nothing is partial |
| TreeSerial.PostOrder | src/compress.rs:114-128 | the post-order has 2k − 1 letters for k leaves and ends with the root's letter |
| TreeSerial.AsciiBytes | src/compress.rs:140 | one-byte letters become their byte values, one each |
| TreeSerial.AsciiBytesAppend | src/compress.rs:140 | the bytes of two strings are the bytes of each in turn |
| TreeSerial.EmbedTree | src/compress.rs:139-143 | the tree bytes are the length (mod 256) then the post-order bytes, 2k bytes in all |
| TreeSerial.EmbedTreeLength | src/compress.rs:141 | the length byte counts the post-order bytes exactly when the tree has at most 128 leaves |
| TreeSerial.PostOrderBytesMerge | src/compress.rs:116-123 | an internal node's bytes are its children's followed by the marker 0 |
| TreeSerial.Reconstruct | src/compress.rs:195-215 | the stack machine never grows the stack by more than one node per byte, leaves a non-empty stack after any byte, and fails on a marker with an empty stack |
| TreeSerial.Rebuildable | src/compress.rs:195-217 | tree bytes that rebuild without a panic are non-empty and start with a letter, not a marker |
| TreeSerial.ReconstructMarker | src/compress.rs:196-206 | a marker combines the two top nodes, the older one becoming the left child |
| TreeSerial.ReconstructPostOrder | src/compress.rs:195-215 | reading a tree's post-order bytes pushes the tree, with frequencies 0, onto whatever stack is there |
| TreeSerial.PostOrderInverse | src/compress.rs:191-218 | for one-byte letters without NUL, reconstruction inverts serialisation: the stack ends as exactly the tree, with frequencies 0 |
| TreeSerial.ConstructTreeFromPostorder | src/compress.rs:191-218 | the stack loop returns the top of the reconstruction function's stack |
| Decoding.Walk | src/compress.rs:242-254 | the walk emits at most one letter per bit, plus one at the end; from the root at most one per bit |
| Decoding.Decoded | src/compress.rs:235-254 | the decoder emits at most one letter per data bit, and a single-leaf tree exactly one |
| Decoding.DataOk | src/compress.rs:221-234 | data is accepted exactly when it has a padding byte no larger than the number of expanded data bits |
| Decoding.Repeat | src/compress.rs:237-239 | the output is the letter n times |
| Decoding.DecompressData | src/compress.rs:220-255 | the output is the decoding of the data bits with the padding dropped |
| Decoding.ExpandBits | src/compress.rs:226-233 | the loop's bits are every byte's 8 bits in order |
| Decoding.PushByte | src/compress.rs:228-232 | eight shifts push a byte's bits from bit 7 down |
| Decoding.RepeatLetter | src/compress.rs:235-241 | the single-leaf loop emits the letter once per bit |
| Decoding.WalkBits | src/compress.rs:242-254 | the walking loop and the final emission give the walk function's output |
| Decoding.WalkFollow | src/compress.rs:243-250 | a path inside the tree moves the cursor along it |
| Decoding.WalkCode | src/compress.rs:243-250 | a letter's code followed by more bits emits the letter, then decodes the rest from the root |
| Decoding.WalkText | src/compress.rs:242-254 | the bits of a text, spelled with codes that each reach their letter, walk back to the text |
| Decoding.DecodeText | src/compress.rs:242-254 | under an internal root, decoding the bits of the text's codes gives the text |
| Decoding.DecodeSingle | src/compress.rs:235-241 | a single-leaf tree decodes n bits to its letter n times |
| Huffman.ToHashmap | src/compress.rs:89-112 | the table has a code for exactly the tree's letters |
| Huffman.ToHashmapCodes | src/compress.rs:89-112 | every code is non-empty; a single leaf gets 0; otherwise a code leads from the root to its letter |
| Huffman.ToHashmapPrefixFree | src/compress.rs:96-110 | no code is a prefix of another letter's code |
| Huffman.CompressData | src/compress.rs:148-174 | the output is the padding byte and the packed codes of the text |
| Huffman.TreeOf | src/compress.rs:185-186 | the tree `compress` builds weighs the text's length and every internal node weighs the sum of its children |
| Huffman.IncreasingOnce | src/compress.rs:45-53 | in strictly ascending letters each letter occurs once |
| Huffman.LeafTree | src/compress.rs:70-86 | the tree built from leaves has exactly those leaves, their letters and their total weight, and is well weighted |
| Huffman.TreeOfText | src/compress.rs:184-186 | the tree of a text has one leaf per distinct letter holding its count; the root weighs the text's length; every internal node weighs the sum of its children |
| Huffman.TreeLetters | src/compress.rs:184-186 | the tree's letters are the text's letters |
| Huffman.TreeAscii | src/compress.rs:133-141 | for one-byte letters the tree has at most 128 leaves, serialises to one byte per letter, and has a code for every letter of the text |
| Huffman.Container | src/compress.rs:184-190 | the container holds the post-order bytes after its length byte, then a padding byte below 8 |
| Huffman.Compressed | src/compress.rs:184-190 | for one-byte letters the length byte is exactly the number of tree bytes, and a padding byte follows them |
| Huffman.Compress | src/compress.rs:184-190 | the output is the embedded tree followed by the packed codes of the text; for a text without NUL it is a container `decompress` accepts and turns back into the text |
| Huffman.ContainerOk | src/compress.rs:256-262 | an accepted container has at least a length byte, one tree byte and a padding byte, and a non-zero length |
| Huffman.Decompressed | src/compress.rs:256-262 | `decompress` returns at most one letter per data bit |
| Huffman.Decompress | src/compress.rs:256-262 | the output decodes the data after the tree bytes with the tree rebuilt from them |
| Huffman.Layout | src/compress.rs:176-183 | byte 0 counts the tree bytes, which follow as the post-order bytes, and the packed data comes after them |
| Huffman.DecodeRebuilt | src/compress.rs:235-254 | the tree rebuilt with frequencies 0 decodes the bits of the original tree's codes back into the text |
| Huffman.Unbox | src/compress.rs:256-262 | a container of a NUL-free tree and packed bits is accepted, and decodes the packed bits against the tree without frequencies |
| Huffman.RoundTripAnyTree | src/compress.rs:184-262 | for any tree over the text's letters with at most 128 leaves, the container is accepted by `decompress` and returns the text |
| Huffman.RoundTripHeap | src/compress.rs:184-262 | for every tree the heap may build, the container is accepted by `decompress` and returns the text |
| Huffman.RoundTrip | src/compress.rs:184-262 | for a non-empty text of one-byte letters without NUL, the container is accepted by `decompress`, and `decompress` returns the text |
| LegacyCodec.ToHashmap | src/huffman.rs:89-107 | the table has a code for exactly the tree's letters |
| LegacyCodec.ToHashmapAgrees | src/huffman.rs:89-107 | on a tree with several leaves the table is that of src/compress.rs; a single leaf gets the empty code |
| LegacyCodec.CompressData | src/huffman.rs:138-164 | the output is the padding byte and the packed codes of the text |
| LegacyCodec.Compressed | src/huffman.rs:174-180 | the length byte is exactly the number of tree bytes, and a padding byte below 8 follows them |
| LegacyCodec.Compress | src/huffman.rs:174-180 | the output is the embedded tree followed by the packed codes; a text that repeats one letter c comes out as `[1, c, 0]` |
| LegacyCodec.SameOutput | src/huffman.rs:174-180 | with two or more distinct letters both codecs write the same bytes |
| LegacyCodec.EmptyCodes | src/huffman.rs:145-154 | empty codes spell no bits |
| LegacyCodec.SingleLetterTree | src/huffman.rs:39-86 | a text repeating one letter yields a single leaf with that letter |
| LegacyCodec.SingleLeafData | src/huffman.rs:138-164 | for a single leaf `compress_data` writes no bits and returns exactly `[0]` |
| LegacyCodec.SingleLeafTree | src/huffman.rs:129-133 | a single leaf with letter c embeds as `[1, c]` |
| LegacyCodec.SingleLetterOutput | src/huffman.rs:174-180 | a text repeating c, however long, compresses to `[1, c, 0]` |
| LegacyCodec.DecodeEmpty | src/compress.rs:256-262 | `[1, c, 0]` is accepted and decodes to the empty text |
| LegacyCodec.SingleLetterLost | src/huffman.rs:91-92 | "a" and "aa" compress to the same `[1, 97, 0]`, which decodes to the empty text |
| LegacyCodec.PreOrder | src/huffman.rs:167-169 | the pre-order has the post-order's length and starts with the root's letter |
| LegacyCodec.PostOrderFirst | src/huffman.rs:109-123 | the post-order starts with a leaf letter |
| LegacyCodec.NotPreOrder | src/huffman.rs:165-169 | for a tree of several leaves without NUL, the bytes written are not the pre-order the doc comment names |

## Left out

- src/main.rs (argument parsing, file reading and writing, the `.cmp` suffix): input and output around the codec.
- The `BinaryHeap` tie-break between equal weights, and the disagreement between the derived `Ord` and the hand-written `PartialOrd` of `Node`. The heap does not say which of several equal-weight nodes it pops.
- TreeBuild.ConstructHuffmanTree: the specification pops the first least-weight node in queue order. `BinaryHeap::pop` may pick another node of equal weight: on four weight-1 leaves a, b, c, d it merges a with c first. So `Huffman.Compressed` gives the bytes of the first-minimum choice only, and `TreeBuild.CombineRound` and the sums after it are proved for that choice; `TreeBuild.RoundAtSums` proves the sums for any choice. The round trip itself is proved for every tree the loop may build under any choice of least-weight nodes (`Huffman.RoundTripHeap`), and the first-minimum choice is one of them (`TreeBuild.HuffmanBuilds`).
- Huffman.Compress, Huffman.Compressed, Huffman.Container, LegacyCodec.Compress, LegacyCodec.Compressed, TreeSerial.EmbedTree: require one-byte (ASCII) letters. The source accepts any UTF-8 text, but `into_bytes` and `*c as char` agree only on one-byte letters.
- Huffman.RoundTrip, Huffman.RoundTripAnyTree: require that the text contain no NUL. The source assumes this, because byte 0 is also the merge marker.
- Frequency.FreqCount: frequencies are unbounded integers; `i32` overflow past 2^31 − 1 letters is not modelled.
- `HashMap<char, String>` with '0'/'1' strings is modelled as a map to bit sequences. `String` and `Vec<u8>` are sequences.
- `Option<Box<Node>>` children are modelled as a node with exactly two children. The source never builds a node with one child.
- `chars.sort()` is modelled as insertion sort. Any sort gives the same sorted sequence.

## Findings

| source | as written | input that shows it | evidently intended | confidence | as-written member | corrected member |
|---|---|---|---|---|---|---|
| src/huffman.rs:91-92 | a tree that is a single leaf gives its letter the empty code, so `compress_data` writes no bits and the output no longer records the text's length | "a" and "aa" both compress to `[1, 97, 0]`, which decodes to "" | the one-bit code 0 for a single-leaf tree, as src/compress.rs:92-95 gives, so that every letter contributes a bit | not executed | LegacyCodec.SingleLetterLost | Huffman.RoundTrip |
