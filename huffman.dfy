/**
 * The public codec of src/compress.rs: `compress` counts the letters, builds
 * the Huffman tree, and writes the serialised tree followed by the packed
 * codes; `decompress` reads the tree back and decodes the rest. The container
 * is one length byte `n`, the `n` post-order bytes of the tree, one padding
 * byte, then the data bytes.
 */
module Huffman {
  import opened Bits
  import opened HuffmanTree
  import opened TreeSerial
  import opened Codes
  import opened Frequency
  import opened TreeBuild
  import opened Decoding

  /**
   * `to_hashmap`: the code of every leaf letter. A tree that is a single leaf
   * gets the one-bit code 0; otherwise each letter's code is its path from the
   * root, 0 for left and 1 for right.
   */
  function ToHashmap(t: Node): (m: map<char, seq<bool>>)
    ensures forall c :: c in m <==> c in LetterBag(t)
  {
    if t.Leaf? then map[t.letter := [false]] else Encode(t, [])
  }

  /** Every code is non-empty and, in a tree with more than one leaf, leads from the root to its letter. */
  lemma ToHashmapCodes(t: Node, c: char)
    requires c in ToHashmap(t)
    ensures |ToHashmap(t)[c]| >= 1
    ensures t.Leaf? ==> ToHashmap(t)[c] == [false]
    ensures t.Merge? ==> Reaches(t, ToHashmap(t)[c], c)
  {
    if t.Merge? {
      EncodeReaches(t, c);
    }
  }

  /** No code is a prefix of the code of another letter. */
  lemma ToHashmapPrefixFree(t: Node, c: char, d: char)
    requires c in ToHashmap(t) && d in ToHashmap(t) && c != d
    ensures !(ToHashmap(t)[c] <= ToHashmap(t)[d])
  {
    if t.Merge? {
      PrefixFree(t, c, d);
    }
  }

  /**
   * `compress_data`: the codes of the letters of `text`, one after another,
   * packed eight bits to a byte behind a padding byte. A letter without a
   * code is the panic of `unwrap`.
   */
  method CompressData(text: seq<char>, huffmanNode: Node) returns (byteStream: seq<Byte>)
    requires Encodable(text, ToHashmap(huffmanNode))
    ensures byteStream == Pack(TextBits(text, ToHashmap(huffmanNode)))
  {
    var huffmanMap := ToHashmap(huffmanNode);
    byteStream := PackCodes(text, huffmanMap);
  }

  /** The tree `compress` builds for `text`. */
  function TreeOf(text: seq<char>): (r: Node)
    requires |text| >= 1
    ensures r.freq == |text| && WellWeighted(r)
  {
    var freq := Count(SortChars(text)).Leaves();
    CountSorted(text);
    LeafTree(freq);
    Huffman(freq)
  }

  /** In a strictly increasing sequence every letter occurs once. */
  lemma {:induction false} IncreasingOnce(s: seq<char>, c: char)
    requires Increasing(s)
    ensures multiset(s)[c] == if c in s then 1 else 0
  {
    if s != [] {
      assert s == [s[0]] + s[1..];
      assert Increasing(s[1..]) by {
        assert forall j, k :: 0 <= j < k < |s| - 1 ==> s[1..][j] == s[j + 1] && s[1..][k] == s[k + 1];
      }
      assert s[0] !in s[1..] by {
        assert forall k :: 0 <= k < |s| - 1 ==> s[1..][k] == s[k + 1] && s[0] < s[k + 1];
      }
      IncreasingOnce(s[1..], c);
    }
  }

  /** The tree built from a list of leaves has those leaves, their letters and their total weight. */
  lemma LeafTree(freq: seq<Node>)
    requires |freq| >= 1 && forall k :: 0 <= k < |freq| ==> freq[k].Leaf?
    ensures LeafBag(Huffman(freq)) == multiset(freq)
    ensures LetterBag(Huffman(freq)) == multiset(Letters(freq))
    ensures Huffman(freq).freq == QueueWeight(freq)
    ensures WellWeighted(Huffman(freq))
  {
    QueueOfLeaves(freq);
    HuffmanSums(freq);
  }

  /** The frequency list of `text` and the tree built from it. */
  lemma FrequencyTree(text: seq<char>, freq: seq<Node>)
    requires |text| >= 1 && freq == Count(SortChars(text)).Leaves()
    ensures FrequencyList(freq, text) && TreeOf(text) == Huffman(freq)
    ensures LeafBag(TreeOf(text)) == multiset(freq)
    ensures LetterBag(TreeOf(text)) == multiset(Letters(freq))
    ensures TreeOf(text).freq == |text|
    ensures WellWeighted(TreeOf(text))
  {
    CountSorted(text);
    LeafTree(freq);
  }

  /**
   * The tree `compress` builds has one leaf for each distinct letter of the
   * text, holding the number of times that letter occurs; the root weighs the
   * length of the text and every internal node the sum of its children.
   */
  lemma TreeOfText(text: seq<char>)
    requires |text| >= 1
    ensures forall c :: LetterBag(TreeOf(text))[c] == if c in text then 1 else 0
    ensures forall x :: x in LeafBag(TreeOf(text)) ==> x.Leaf? && x.freq == multiset(text)[x.letter]
    ensures TreeOf(text).freq == |text|
    ensures WellWeighted(TreeOf(text))
  {
    var freq := Count(SortChars(text)).Leaves();
    FrequencyTree(text, freq);
    forall c
      ensures LetterBag(TreeOf(text))[c] == if c in text then 1 else 0
    {
      IncreasingOnce(Letters(freq), c);
    }
  }

  /** The letters of the tree are the letters of the text. */
  lemma TreeLetters(text: seq<char>)
    requires |text| >= 1
    ensures forall c :: c in LetterBag(TreeOf(text)) <==> c in text
  {
    TreeOfText(text);
  }

  /** A tree built from the letters of a text of one-byte letters has at most 128 leaves. */
  lemma LeafBound(text: seq<char>, freq: seq<Node>)
    requires |text| >= 1 && IsAscii(text) && freq == Count(SortChars(text)).Leaves()
    ensures LeafCount(TreeOf(text)) <= 128
  {
    FrequencyTree(text, freq);
    forall k | 0 <= k < |freq|
      ensures 0 <= freq[k].Letter() as int < 128
    {
      assert Letters(freq)[k] in Letters(freq);
    }
    AscendingBound(freq, 0);
  }

  /**
   * For a text of one-byte letters the tree serialises to one byte per
   * letter, has at most 128 leaves, and has a code for every letter.
   */
  lemma TreeAscii(text: seq<char>)
    requires |text| >= 1 && IsAscii(text)
    ensures AsciiLetters(TreeOf(text)) && LeafCount(TreeOf(text)) <= 128
    ensures Encodable(text, ToHashmap(TreeOf(text)))
  {
    TreeLetters(text);
    LeafBound(text, Count(SortChars(text)).Leaves());
  }

  /**
   * The container `compress` writes for `text` once it holds the tree `tree`:
   * the serialised tree, whose length byte is `len() as u8`, then the padding
   * byte and the packed codes.
   */
  function Container(text: seq<char>, tree: Node): (r: seq<Byte>)
    requires AsciiLetters(tree) && Encodable(text, ToHashmap(tree))
    ensures |r| >= 2 * LeafCount(tree) + 1
    ensures r[1..2 * LeafCount(tree)] == AsciiBytes(PostOrder(tree)) && r[2 * LeafCount(tree)] < 8
  {
    var header, packed := EmbedTree(tree), Pack(TextBits(text, ToHashmap(tree)));
    HeaderThenData(header, packed);
    header + packed
  }

  /** What follows a header is the data, first byte first. */
  lemma HeaderThenData(header: seq<Byte>, data: seq<Byte>)
    requires |header| >= 1 && |data| >= 1
    ensures |header + data| >= |header| + 1
    ensures (header + data)[1..|header|] == header[1..] && (header + data)[|header|] == data[0]
  {
  }

  /**
   * The container `compress` writes for `text`: its length byte counts the
   * tree bytes exactly, and at least a padding byte follows them.
   */
  function Compressed(text: seq<char>): (r: seq<Byte>)
    requires |text| >= 1 && IsAscii(text)
    ensures |r| >= 2 * LeafCount(TreeOf(text)) + 1 && r[0] == 2 * LeafCount(TreeOf(text)) - 1
  {
    TreeAscii(text);
    EmbedTreeLength(TreeOf(text));
    Container(text, TreeOf(text))
  }

  /** `compress`; without NUL letters its output is a container that `decompress` turns back into `text`. */
  method Compress(text: seq<char>) returns (compressedData: seq<Byte>)
    requires |text| >= 1 && IsAscii(text)
    ensures compressedData == Compressed(text)
    ensures SENTINEL !in text ==> ContainerOk(compressedData) && Decompressed(compressedData) == text
  {
    var frequency := FreqCount(text);
    var huffmanTree := ConstructHuffmanTree(frequency);
    TreeAscii(text);
    compressedData := EmbedTree(huffmanTree);
    var data := CompressData(text, huffmanTree);
    compressedData := compressedData + data;
    if SENTINEL !in text {
      RoundTrip(text);
    }
  }

  /**
   * Containers `decompress` accepts without a panic: a length byte, that many
   * tree bytes the stack machine accepts, and data `decompress_data` accepts.
   */
  ghost predicate ContainerOk(data: seq<Byte>)
    ensures ContainerOk(data) ==> |data| >= 3 && data[0] >= 1
  {
    |data| >= 1 && data[0] + 1 <= |data|
      && Rebuildable(data[1..data[0] + 1]) && DataOk(data[data[0] + 1..])
  }

  /** What `decompress` returns: the data decoded against the tree rebuilt from the tree bytes. */
  function Decompressed(data: seq<Byte>): (r: seq<char>)
    requires ContainerOk(data)
    ensures |r| <= 8 * (|data| - data[0] - 2)
  {
    var n := data[0];
    var stack := Reconstruct([], data[1..n + 1]).value;
    Decoded(stack[|stack| - 1], Unpadded(data[n + 1..]))
  }

  /** `decompress`. */
  method Decompress(data: seq<Byte>) returns (text: seq<char>)
    requires ContainerOk(data)
    ensures text == Decompressed(data)
  {
    var postOrderLength := data[0];
    var postOrder := data[1..postOrderLength + 1];
    var huffmanTree := ConstructTreeFromPostorder(postOrder);
    var rest := data[postOrderLength + 1..];
    text := DecompressData(rest, huffmanTree);
  }

  /**
   * The layout of a container: the length byte counts the tree bytes that
   * follow it, which are the post-order letters, and the packed data comes
   * after them.
   */
  lemma Layout(tree: Node, packed: seq<Byte>)
    requires AsciiLetters(tree) && LeafCount(tree) <= 128
    ensures var r := EmbedTree(tree) + packed;
      r[0] == 2 * LeafCount(tree) - 1
      && r[1..r[0] + 1] == AsciiBytes(PostOrder(tree))
      && r[r[0] + 1..] == packed
  {
    EmbedTreeLength(tree);
    var e := EmbedTree(tree);
    assert (e + packed)[1..e[0] + 1] == e[1..];
  }

  /**
   * The tree rebuilt from the container, which has the letters and shape of
   * `tree` but no frequencies, decodes the bits of `tree`'s codes back into
   * the text.
   */
  lemma DecodeRebuilt(tree: Node, text: seq<char>)
    requires forall i :: 0 <= i < |text| ==> text[i] in ToHashmap(tree)
    ensures Decoded(Strip(tree), TextBits(text, ToHashmap(tree))) == text
  {
    var table := ToHashmap(tree);
    if tree.Leaf? {
      forall c | c in table
        ensures |table[c]| == 1
      {
        ToHashmapCodes(tree, c);
      }
      TextBitsLength(text, table);
      DecodeSingle(tree.letter, 0, text, TextBits(text, table));
    } else {
      EncodeStrip(tree, []);
      DecodeText(Strip(tree), text);
    }
  }

  /**
   * `decompress` takes a container apart again: it rebuilds the tree without
   * its frequencies and decodes exactly the bits that were packed.
   */
  lemma Unbox(tree: Node, bits: seq<bool>)
    requires AsciiLetters(tree) && SENTINEL !in LetterBag(tree) && LeafCount(tree) <= 128
    ensures ContainerOk(EmbedTree(tree) + Pack(bits))
    ensures Decompressed(EmbedTree(tree) + Pack(bits)) == Decoded(Strip(tree), bits)
  {
    Layout(tree, Pack(bits));
    PostOrderInverse(tree);
    UnpackPack(bits);
  }

  /** A tree with the letters of a text of one-byte letters other than NUL has such letters too. */
  lemma TextTree(text: seq<char>, tree: Node)
    requires IsAscii(text) && SENTINEL !in text
    requires forall c :: c in LetterBag(tree) <==> c in text
    ensures AsciiLetters(tree) && SENTINEL !in LetterBag(tree) && Encodable(text, ToHashmap(tree))
  {
    forall c | c in LetterBag(tree)
      ensures c as int < 128
    {
      var i :| 0 <= i < |text| && text[i] == c;
    }
  }

  /**
   * `decompress` inverts `compress` whatever tree it is built on: for every
   * text of one-byte letters other than NUL and every tree with at most 128
   * leaves whose letters are the text's, the container is accepted and
   * decodes to the text. This covers every way the heap may break ties
   * between trees of equal weight.
   */
  lemma RoundTripAnyTree(text: seq<char>, tree: Node)
    requires IsAscii(text) && SENTINEL !in text
    requires (forall c :: c in LetterBag(tree) <==> c in text) && LeafCount(tree) <= 128
    ensures AsciiLetters(tree) && Encodable(text, ToHashmap(tree))
    ensures ContainerOk(Container(text, tree)) && Decompressed(Container(text, tree)) == text
  {
    TextTree(text, tree);
    var bits := TextBits(text, ToHashmap(tree));
    Unbox(tree, bits);
    DecodeRebuilt(tree, text);
  }

  /**
   * `decompress` inverts `compress` on the tree the heap builds, whichever
   * least-weight nodes its pops take: every such tree has the text's letters
   * on at most 128 leaves.
   */
  lemma RoundTripHeap(text: seq<char>, tree: Node)
    requires |text| >= 1 && IsAscii(text) && SENTINEL !in text
    requires Builds(Count(SortChars(text)).Leaves(), tree)
    ensures AsciiLetters(tree) && Encodable(text, ToHashmap(tree))
    ensures ContainerOk(Container(text, tree)) && Decompressed(Container(text, tree)) == text
  {
    var freq := Count(SortChars(text)).Leaves();
    BuildsSums(freq, tree);
    FrequencyTree(text, freq);
    QueueOfLeaves(freq);
    TreeAscii(text);
    TreeLetters(text);
    assert LetterBag(tree) == LetterBag(TreeOf(text));
    RoundTripAnyTree(text, tree);
  }

  /**
   * `decompress` inverts `compress`: for every non-empty text of one-byte
   * letters other than NUL, the container is accepted and decodes to the text.
   */
  lemma RoundTrip(text: seq<char>)
    requires |text| >= 1 && IsAscii(text) && SENTINEL !in text
    ensures ContainerOk(Compressed(text)) && Decompressed(Compressed(text)) == text
  {
    TreeAscii(text);
    TreeLetters(text);
    RoundTripAnyTree(text, TreeOf(text));
  }
}
