/**
 * src/huffman.rs, the compress-only twin of src/compress.rs. Its
 * `freq_count`, `construct_huffman_tree`, `to_string`, `embed_tree` and the
 * packing loop of `compress_data` are the same code; its `to_hashmap` has no
 * case for a tree that is a single leaf, whose letter then gets the empty
 * code.
 */
module LegacyCodec {
  import opened Bits
  import opened Optional
  import opened HuffmanTree
  import opened TreeSerial
  import opened Codes
  import opened Frequency
  import opened TreeBuild
  import opened Decoding
  import Huffman

  /** `to_hashmap` of src/huffman.rs: every letter's path from the root, with no special case. */
  function ToHashmap(t: Node): (m: map<char, seq<bool>>)
    ensures forall c :: c in m <==> c in LetterBag(t)
  {
    Encode(t, [])
  }

  /**
   * The two code tables agree on every tree with more than one leaf, where the
   * codes are non-empty and prefix-free; a single leaf gets the empty code.
   */
  lemma ToHashmapAgrees(t: Node)
    ensures t.Merge? ==> ToHashmap(t) == Huffman.ToHashmap(t)
    ensures t.Leaf? ==> ToHashmap(t) == map[t.letter := []]
  {
  }

  /** `compress_data` of src/huffman.rs: the same packing, over this table. */
  method CompressData(text: seq<char>, huffmanNode: Node) returns (byteStream: seq<Byte>)
    requires Encodable(text, ToHashmap(huffmanNode))
    ensures byteStream == Pack(TextBits(text, ToHashmap(huffmanNode)))
  {
    var huffmanMap := ToHashmap(huffmanNode);
    byteStream := PackCodes(text, huffmanMap);
  }

  /** Every letter of the text has a code in this table too. */
  lemma TreeCodes(text: seq<char>)
    requires |text| >= 1 && IsAscii(text)
    ensures AsciiLetters(Huffman.TreeOf(text)) && Encodable(text, ToHashmap(Huffman.TreeOf(text)))
  {
    Huffman.TreeAscii(text);
  }

  /** The output of `compress` of src/huffman.rs for `text`. */
  function Compressed(text: seq<char>): (r: seq<Byte>)
    requires |text| >= 1 && IsAscii(text)
    ensures |r| >= 2 * LeafCount(Huffman.TreeOf(text)) + 1
    ensures r[0] == 2 * LeafCount(Huffman.TreeOf(text)) - 1 && r[2 * LeafCount(Huffman.TreeOf(text))] < 8
  {
    TreeCodes(text);
    Huffman.TreeAscii(text);
    var tree := Huffman.TreeOf(text);
    EmbedTreeLength(tree);
    var header, packed := EmbedTree(tree), Pack(TextBits(text, ToHashmap(tree)));
    Huffman.HeaderThenData(header, packed);
    header + packed
  }

  /** `compress` of src/huffman.rs; a text that repeats one letter comes out as three bytes. */
  method Compress(text: seq<char>) returns (compressedData: seq<Byte>)
    requires |text| >= 1 && IsAscii(text)
    ensures compressedData == Compressed(text)
    ensures (forall i :: 0 <= i < |text| ==> text[i] == text[0]) ==> compressedData == [1, text[0] as int, 0]
  {
    var frequency := FreqCount(text);
    var huffmanTree := ConstructHuffmanTree(frequency);
    TreeCodes(text);
    compressedData := EmbedTree(huffmanTree);
    var data := CompressData(text, huffmanTree);
    compressedData := compressedData + data;
    ghost var oneLetter := forall i :: 0 <= i < |text| ==> text[i] == text[0];
    if oneLetter {
      SingleLetterOutput(text, text[0]);
    }
  }

  /** When the text has two or more distinct letters, both codecs write the same bytes. */
  lemma SameOutput(text: seq<char>)
    requires |text| >= 1 && IsAscii(text) && Huffman.TreeOf(text).Merge?
    ensures Compressed(text) == Huffman.Compressed(text)
  {
    ToHashmapAgrees(Huffman.TreeOf(text));
  }

  /** Empty codes spell no bits. */
  lemma {:induction false} EmptyCodes(text: seq<char>, table: map<char, seq<bool>>)
    requires Encodable(text, table) && forall c :: c in table ==> table[c] == []
    ensures TextBits(text, table) == []
  {
    if text != [] {
      assert Encodable(text[..|text| - 1], table) by {
        assert forall i :: 0 <= i < |text| - 1 ==> text[..|text| - 1][i] == text[i];
      }
      EmptyCodes(text[..|text| - 1], table);
    }
  }

  /** A text that repeats one letter gets a tree that is a single leaf with that letter. */
  lemma SingleLetterTree(text: seq<char>, c: char)
    requires |text| >= 1 && forall i :: 0 <= i < |text| ==> text[i] == c
    ensures Huffman.TreeOf(text).Leaf? && Huffman.TreeOf(text).letter == c
  {
    Huffman.TreeOfText(text);
    var t := Huffman.TreeOf(text);
    assert text[0] in text;
    assert LetterBag(t) == multiset{c} by {
      forall d
        ensures LetterBag(t)[d] == multiset{c}[d]
      {
        assert d in text <==> d == c;
      }
    }
    assert c in LetterBag(t);
  }

  /**
   * For a single-leaf tree `compress_data` writes no bits and returns just
   * the padding byte 0, however many letters the text has.
   */
  lemma SingleLeafData(c: char, f: int, text: seq<char>)
    requires forall i :: 0 <= i < |text| ==> text[i] == c
    ensures Encodable(text, ToHashmap(Leaf(c, f)))
    ensures Pack(TextBits(text, ToHashmap(Leaf(c, f)))) == [0]
  {
    EmptyCodes(text, ToHashmap(Leaf(c, f)));
    assert Pack([]) == [0];
  }

  /** A single-leaf tree serialises to its length 1 and its letter. */
  lemma SingleLeafTree(c: char, f: int)
    requires c as int < 128
    ensures AsciiLetters(Leaf(c, f)) && EmbedTree(Leaf(c, f)) == [1, c as int]
  {
    assert PostOrder(Leaf(c, f)) == [c];
  }

  /** A text that repeats one letter `c` is written as `[1, c, 0]`, however long it is. */
  lemma SingleLetterOutput(text: seq<char>, c: char)
    requires |text| >= 1 && IsAscii(text) && forall i :: 0 <= i < |text| ==> text[i] == c
    ensures Compressed(text) == [1, c as int, 0]
  {
    SingleLetterTree(text, c);
    var t := Huffman.TreeOf(text);
    SingleLeafData(c, t.freq, text);
    SingleLeafTree(c, t.freq);
  }

  /** The decoder of src/compress.rs reads `[1, c, 0]` as the empty text. */
  lemma DecodeEmpty(c: Byte)
    requires c != 0
    ensures Huffman.ContainerOk([1, c, 0]) && Huffman.Decompressed([1, c, 0]) == []
  {
    var data: seq<Byte> := [1, c, 0];
    assert data[1..2] == [c];
    var tree: seq<Byte> := [c];
    ReconstructStep([], tree, 0);
    assert tree[0..] == tree && tree[1..] == [] && [] + [Leaf(c as char, 0)] == [Leaf(c as char, 0)];
    assert data[2..] == [0];
    assert Unpadded([0]) == [];
  }

  /**
   * The output of src/huffman.rs no longer determines the text: "a" and "aa"
   * compress to the same bytes, which the decoder of src/compress.rs reads
   * as the empty text.
   */
  lemma SingleLetterLost()
    ensures Compressed("a") == Compressed("aa") == [1, 'a' as int, 0]
    ensures Huffman.ContainerOk([1, 'a' as int, 0]) && Huffman.Decompressed([1, 'a' as int, 0]) == []
  {
    assert forall i :: 0 <= i < |"a"| ==> "a"[i] == 'a';
    assert forall i :: 0 <= i < |"aa"| ==> "aa"[i] == 'a';
    SingleLetterOutput("a", 'a');
    SingleLetterOutput("aa", 'a');
    DecodeEmpty('a' as int);
  }

  /**
   * The letters of a tree, each node before its children: the order the
   * "pre-order" doc comment of `compress` names.
   */
  function PreOrder(t: Node): (s: seq<char>)
    ensures |s| == |PostOrder(t)| && s[0] == t.Letter()
  {
    match t
    case Leaf(c, _) => [c]
    case Merge(_, l, r) => [SENTINEL] + PreOrder(l) + PreOrder(r)
  }

  /** The first letter of the post-order is the letter of the leftmost leaf. */
  lemma {:induction false} PostOrderFirst(t: Node)
    ensures PostOrder(t)[0] in LetterBag(t)
  {
    if t.Merge? {
      PostOrderFirst(t.left);
      assert PostOrder(t)[0] == PostOrder(t.left)[0];
    }
  }

  /**
   * The bytes `embed_tree` writes for a tree with more than one leaf and no NUL
   * letter are not its pre-order: that starts with the marker of the root,
   * the post-order with a leaf letter.
   */
  lemma NotPreOrder(t: Node)
    requires t.Merge? && SENTINEL !in LetterBag(t)
    ensures PostOrder(t) != PreOrder(t)
  {
    PostOrderFirst(t);
  }
}
