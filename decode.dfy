/**
 * `decompress_data` of src/compress.rs: expand the data bytes into bits,
 * drop the padding, and walk the tree from the root, emitting a letter each
 * time a leaf is reached.
 */
module Decoding {
  import opened Bits
  import opened HuffmanTree
  import opened Codes

  /**
   * The walk of the decoding loop from node `cur` over `bits`: on each bit,
   * a leaf first emits its letter and restarts at the root, then the bit
   * selects a child. When the bits run out a node other than the root emits
   * its letter, which is `'\0'` if the walk stopped inside the tree.
   */
  function Walk(root: Node, cur: Node, bits: seq<bool>): (r: seq<char>)
    requires root.Merge?
    ensures |r| <= |bits| + 1
    ensures cur == root ==> |r| <= |bits|
    decreases |bits|
  {
    if bits == [] then
      if cur != root then [cur.Letter()] else []
    else if cur.Leaf? then
      [cur.letter] + Walk(root, Child(root, bits[0]), bits[1..])
    else
      Walk(root, Child(cur, bits[0]), bits[1..])
  }

  /** `n` copies of `c`. */
  function Repeat(c: char, n: nat): (s: seq<char>)
    ensures |s| == n && forall i :: 0 <= i < n ==> s[i] == c
  {
    if n == 0 then [] else Repeat(c, n - 1) + [c]
  }

  /**
   * The text the decoder makes of the unpadded bits: a single-leaf tree
   * repeats its letter once per bit; otherwise the walk from the root.
   */
  function Decoded(tree: Node, bits: seq<bool>): (r: seq<char>)
    ensures |r| <= |bits|
    ensures tree.Leaf? ==> r == Repeat(tree.letter, |bits|)
  {
    if tree.Leaf? then Repeat(tree.letter, |bits|) else Walk(tree, tree, bits)
  }

  /**
   * Data bytes `decompress_data` accepts without a panic: a padding byte
   * (`expect("Data empty")`) and no more padding than data bits (the
   * `usize` subtraction in `resize`).
   */
  predicate DataOk(data: seq<Byte>)
    ensures DataOk(data) <==> |data| >= 1 && data[0] <= |Unpack(data[1..])|
  {
    |data| >= 1 && data[0] <= 8 * (|data| - 1)
  }

  /**
   * `decompress_data`: the bits of every data byte, most significant first,
   * with the last `padding` bits dropped, decoded against `tree`.
   */
  method DecompressData(data: seq<Byte>, tree: Node) returns (output: seq<char>)
    requires DataOk(data)
    ensures output == Decoded(tree, Unpadded(data))
  {
    var padding := data[0];
    var bitStream := ExpandBits(data[1..]);
    bitStream := bitStream[..|bitStream| - padding];
    if tree.Leaf? {
      output := RepeatLetter(tree.letter, |bitStream|);
      return;
    }
    output := WalkBits(tree, bitStream);
  }

  /** The first loop of `decompress_data`: the bits of every byte, one byte after another. */
  method ExpandBits(bytes: seq<Byte>) returns (bitStream: seq<bool>)
    ensures bitStream == Unpack(bytes)
  {
    bitStream := [];
    for i := 0 to |bytes|
      invariant bitStream == Unpack(bytes[..i])
    {
      bitStream := PushByte(bitStream, bytes[i]);
      assert bytes[..i + 1] == bytes[..i] + [bytes[i]];
      UnpackSnoc(bytes[..i], bytes[i]);
    }
    assert bytes[..|bytes|] == bytes;
  }

  /** The inner loop: test bit 7 (`character >> 7 & 1`), push it, shift left, eight times. */
  method PushByte(start: seq<bool>, c: Byte) returns (bitStream: seq<bool>)
    ensures bitStream == start + MsbBits(c, 8)
  {
    bitStream := start;
    var character: Byte := c;
    for k := 0 to 8
      invariant bitStream + MsbBits(character, 8 - k) == start + MsbBits(c, 8)
    {
      var bit := (character / 128) % 2 == 1;
      character := (character as int * 2) % 256;
      ConcatAssoc(bitStream, [bit], MsbBits(character, 8 - k - 1));
      bitStream := bitStream + [bit];
    }
    assert bitStream + [] == bitStream;
  }

  /** The loop for a single-leaf tree: the letter once per bit. */
  method RepeatLetter(c: char, n: nat) returns (output: seq<char>)
    ensures output == Repeat(c, n)
  {
    output := [];
    for k := 0 to n
      invariant output == Repeat(c, k)
    {
      output := output + [c];
    }
  }

  /** The decoding loop of `decompress_data` and the letter emitted after it. */
  method WalkBits(tree: Node, bitStream: seq<bool>) returns (output: seq<char>)
    requires tree.Merge?
    ensures output == Walk(tree, tree, bitStream)
  {
    output := [];
    var tmp := tree;
    for i := 0 to |bitStream|
      invariant output + Walk(tree, tmp, bitStream[i..]) == Walk(tree, tree, bitStream)
    {
      var bit := bitStream[i];
      WalkStep(tree, tmp, bitStream, i);
      if tmp.Leaf? {
        output := output + [tmp.letter];
        tmp := tree;
      }
      tmp := if bit then tmp.right else tmp.left;
    }
    if tmp != tree {
      output := output + [tmp.Letter()];
    }
    assert bitStream[|bitStream|..] == [];
  }

  /** One bit of the decoding loop. */
  lemma WalkStep(root: Node, cur: Node, bits: seq<bool>, i: nat)
    requires root.Merge? && i < |bits|
    ensures var next := if cur.Leaf? then root else cur;
      Walk(root, cur, bits[i..]) ==
        (if cur.Leaf? then [cur.letter] else []) + Walk(root, Child(next, bits[i]), bits[i + 1..])
  {
    assert bits[i..][0] == bits[i] && bits[i..][1..] == bits[i + 1..];
  }

  /** Following a path that stays inside the tree moves the walk along it. */
  lemma {:induction false} WalkFollow(root: Node, cur: Node, p: seq<bool>, rest: seq<bool>)
    requires root.Merge? && Follow(cur, p).Some?
    ensures Walk(root, cur, p + rest) == Walk(root, Follow(cur, p).value, rest)
    decreases |p|
  {
    if p == [] {
      assert p + rest == rest;
    } else {
      assert (p + rest)[0] == p[0] && (p + rest)[1..] == p[1..] + rest;
      WalkFollow(root, Child(cur, p[0]), p[1..], rest);
    }
  }

  /** A leaf emits its letter and the walk restarts from the root. */
  lemma WalkLeaf(root: Node, c: char, f: int, rest: seq<bool>)
    requires root.Merge?
    ensures Walk(root, Leaf(c, f), rest) == [c] + Walk(root, root, rest)
  {
  }

  /** Decoding the code of `c` followed by more bits emits `c`, then decodes the rest. */
  lemma WalkCode(root: Node, code: seq<bool>, c: char, rest: seq<bool>)
    requires root.Merge? && Reaches(root, code, c)
    ensures Walk(root, root, code + rest) == [c] + Walk(root, root, rest)
  {
    WalkFollow(root, root, code, rest);
    var leaf := Follow(root, code).value;
    WalkLeaf(root, c, leaf.freq, rest);
  }

  /**
   * Walking the bits of a text, spelled with codes that each lead from the
   * root to a leaf with their letter, gives the text back.
   */
  lemma {:induction false} WalkText(root: Node, text: seq<char>, table: map<char, seq<bool>>)
    requires root.Merge? && Encodable(text, table)
    requires forall c :: c in table ==> Reaches(root, table[c], c)
    ensures Walk(root, root, TextBits(text, table)) == text
    decreases |text|
  {
    if text == [] {
    } else {
      TextBitsCons(text, table);
      assert Encodable(text[1..], table) by {
        assert forall i :: 0 <= i < |text| - 1 ==> text[1..][i] == text[i + 1];
      }
      WalkCode(root, table[text[0]], text[0], TextBits(text[1..], table));
      WalkText(root, text[1..], table);
      assert text == [text[0]] + text[1..];
    }
  }

  /** For an internal root, decoding the bits `encode`'s codes spell gives the text back. */
  lemma DecodeText(root: Node, text: seq<char>)
    requires root.Merge? && Encodable(text, Encode(root, []))
    ensures Decoded(root, TextBits(text, Encode(root, []))) == text
  {
    var table := Encode(root, []);
    forall c | c in table
      ensures Reaches(root, table[c], c)
    {
      EncodeReaches(root, c);
    }
    WalkText(root, text, table);
  }

  /** For a single-leaf tree, one bit per letter decodes to the text when it is that letter repeated. */
  lemma DecodeSingle(c: char, f: int, text: seq<char>, bits: seq<bool>)
    requires |bits| == |text| && forall i :: 0 <= i < |text| ==> text[i] == c
    ensures Decoded(Leaf(c, f), bits) == text
  {
    assert Repeat(c, |bits|) == text;
  }
}
