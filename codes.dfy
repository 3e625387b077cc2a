/**
 * Codes of a Huffman tree (`encode` inside `to_hashmap`, shared by
 * src/compress.rs and src/huffman.rs): the root-to-leaf path of each leaf,
 * 0 for left and 1 for right, and the bit string a text spells with them.
 * A code is a `seq<bool>` (`true` is the character '1') and the table a `map`.
 */
module Codes {
  import opened Bits
  import opened Optional
  import opened HuffmanTree

  /** The child a code bit selects: 0 is the left child, 1 the right. */
  function Child(t: Node, bit: bool): Node
    requires t.Merge?
  {
    if bit then t.right else t.left
  }

  /** The node reached from `t` along `bits`; `None` when a leaf is reached before the bits end. */
  function Follow(t: Node, bits: seq<bool>): Option<Node>
    decreases |bits|
  {
    if bits == [] then Some(t)
    else if t.Leaf? then None
    else Follow(Child(t, bits[0]), bits[1..])
  }

  /** Following `bits` from `t` ends on a leaf labelled `c`. */
  predicate Reaches(t: Node, bits: seq<bool>, c: char)
  {
    Follow(t, bits).Some? && Follow(t, bits).value.Leaf? && Follow(t, bits).value.letter == c
  }

  /** Following a concatenation is following its parts one after the other. */
  lemma {:induction false} FollowAppend(t: Node, p: seq<bool>, q: seq<bool>)
    ensures Follow(t, p + q) == if Follow(t, p).Some? then Follow(Follow(t, p).value, q) else None
    decreases |p|
  {
    if p == [] {
      assert p + q == q;
    } else if t.Merge? {
      assert (p + q)[0] == p[0];
      assert (p + q)[1..] == p[1..] + q;
      FollowAppend(Child(t, p[0]), p[1..], q);
    }
  }

  /**
   * `encode(hm, t, path)`: every leaf below `t` maps its letter to `path`
   * followed by its path from `t`. Leaves are inserted left to right, so
   * when two leaves share a letter the later insert wins, as with
   * `HashMap::insert`; map union keeps the right operand's entry.
   */
  function Encode(t: Node, path: seq<bool>): (m: map<char, seq<bool>>)
    ensures forall c :: c in m <==> c in LetterBag(t)
  {
    match t
    case Leaf(c, _) => map[c := path]
    case Merge(_, l, r) => Encode(l, path + [false]) + Encode(r, path + [true])
  }

  /** The root-to-leaf path of the last leaf labelled `c`, the one whose insert `encode` keeps. */
  function PathTo(t: Node, c: char): seq<bool>
  {
    match t
    case Leaf(_, _) => []
    case Merge(_, l, r) =>
      if c in LetterBag(r) then [true] + PathTo(r, c) else [false] + PathTo(l, c)
  }

  /** The path of a leaf below an internal node is at least one bit long and leads to that leaf. */
  lemma {:induction false} PathReaches(t: Node, c: char)
    requires c in LetterBag(t)
    ensures t.Merge? ==> |PathTo(t, c)| >= 1
    ensures Reaches(t, PathTo(t, c), c)
  {
    if t.Merge? {
      var bit := c in LetterBag(t.right);
      var rest := if bit then PathTo(t.right, c) else PathTo(t.left, c);
      assert PathTo(t, c) == [bit] + rest;
      PathReaches(Child(t, bit), c);
      FollowCons(t, bit, rest);
    }
  }

  /** One step down an internal node. */
  lemma FollowCons(t: Node, bit: bool, rest: seq<bool>)
    requires t.Merge?
    ensures Follow(t, [bit] + rest) == Follow(Child(t, bit), rest)
  {
    assert ([bit] + rest)[1..] == rest;
  }

  /** Below an internal node, a letter's code is the one its last subtree holding it gives. */
  lemma EncodeMerge(t: Node, path: seq<bool>, c: char)
    requires t.Merge? && c in LetterBag(t)
    ensures var bit := c in LetterBag(t.right);
      Encode(t, path)[c] == Encode(Child(t, bit), path + [bit])[c]
  {
  }

  /** `encode` maps each letter to the starting path followed by that letter's path. */
  lemma {:induction false} EncodePath(t: Node, path: seq<bool>, c: char)
    requires c in LetterBag(t)
    ensures c in Encode(t, path) && Encode(t, path)[c] == path + PathTo(t, c)
  {
    if t.Merge? {
      var bit := c in LetterBag(t.right);
      var child := Child(t, bit);
      assert c in LetterBag(child);
      EncodeMerge(t, path, c);
      EncodePath(child, path + [bit], c);
      assert PathTo(t, c) == [bit] + PathTo(child, c);
      ConcatAssoc(path, [bit], PathTo(child, c));
    } else {
      assert path + [] == path;
    }
  }

  /**
   * `to_hashmap`'s table for an internal root: every letter's code leads
   * from the root to a leaf with that letter, and is at least one bit long.
   */
  lemma EncodeReaches(t: Node, c: char)
    requires c in Encode(t, [])
    ensures Reaches(t, Encode(t, [])[c], c)
    ensures t.Merge? ==> |Encode(t, [])[c]| >= 1
  {
    EncodePath(t, [], c);
    PathReaches(t, c);
    assert [] + PathTo(t, c) == PathTo(t, c);
  }

  /**
   * The codes of a tree are prefix-free: no letter's code is a prefix of
   * another letter's code.
   */
  lemma PrefixFree(t: Node, c: char, d: char)
    requires c in Encode(t, []) && d in Encode(t, []) && c != d
    ensures !(Encode(t, [])[c] <= Encode(t, [])[d])
  {
    var m := Encode(t, []);
    EncodeReaches(t, c);
    EncodeReaches(t, d);
    if m[c] <= m[d] {
      ReachesPrefix(t, m[c], m[d], c, d);
    }
  }

  /** A path that ends on a leaf is a prefix only of itself among the paths that end on a leaf. */
  lemma ReachesPrefix(t: Node, p: seq<bool>, q: seq<bool>, c: char, d: char)
    requires Reaches(t, p, c) && Reaches(t, q, d) && p <= q
    ensures p == q && c == d
  {
    var rest := q[|p|..];
    assert q == p + rest;
    FollowAppend(t, p, rest);
    assert rest == [];
  }

  /** Frequencies play no part in the codes. */
  lemma {:induction false} EncodeStrip(t: Node, path: seq<bool>)
    ensures Encode(Strip(t), path) == Encode(t, path)
  {
    if t.Merge? {
      EncodeStrip(t.left, path + [false]);
      EncodeStrip(t.right, path + [true]);
    }
  }

  /** Every letter of `text` has a code. */
  predicate Encodable(text: seq<char>, table: map<char, seq<bool>>)
  {
    forall i :: 0 <= i < |text| ==> text[i] in table
  }

  /** The codes of the letters of `text`, one after another. */
  function TextBits(text: seq<char>, table: map<char, seq<bool>>): (r: seq<bool>)
    requires Encodable(text, table)
    ensures (forall c :: c in table ==> |table[c]| >= 1) ==> |r| >= |text|
  {
    if text == [] then [] else TextBits(text[..|text| - 1], table) + table[text[|text| - 1]]
  }

  /** The bits of one more letter of `text` are the bits so far followed by its code. */
  lemma TextBitsPrefix(text: seq<char>, table: map<char, seq<bool>>, i: nat)
    requires Encodable(text, table) && i < |text|
    ensures Encodable(text[..i], table) && Encodable(text[..i + 1], table)
    ensures TextBits(text[..0], table) == []
    ensures TextBits(text[..i + 1], table) == TextBits(text[..i], table) + table[text[i]]
  {
    assert text[..i + 1][..i] == text[..i];
    assert text[..0] == [];
  }

  /** The bits of a text start with the code of its first letter. */
  lemma {:induction false} TextBitsCons(text: seq<char>, table: map<char, seq<bool>>)
    requires Encodable(text, table) && |text| >= 1
    ensures TextBits(text, table) == table[text[0]] + TextBits(text[1..], table)
    decreases |text|
  {
    if |text| > 1 {
      var init := text[..|text| - 1];
      TextBitsCons(init, table);
      assert init[1..] == text[1..][..|text[1..]| - 1];
      assert init[0] == text[0];
    } else {
      assert text[1..] == [];
      assert text[..0] == [];
    }
  }

  /** With one-bit codes, a text spells as many bits as it has letters. */
  lemma {:induction false} TextBitsLength(text: seq<char>, table: map<char, seq<bool>>)
    requires Encodable(text, table)
    requires forall c :: c in table ==> |table[c]| == 1
    ensures |TextBits(text, table)| == |text|
    decreases |text|
  {
    if text != [] {
      TextBitsLength(text[..|text| - 1], table);
    }
  }

  /**
   * The bit-packing loop of `compress_data`: append each code bit to `byte`
   * (`byte << 1 | bit` on a `u8`), push `byte` after every eighth bit, then
   * shift the last partial byte up by the padding, push it, and put the
   * padding in front. The result is the packed form of the text's bits.
   */
  method PackCodes(text: seq<char>, table: map<char, seq<bool>>) returns (byteStream: seq<Byte>)
    requires Encodable(text, table)
    ensures byteStream == Pack(TextBits(text, table))
  {
    byteStream := [];
    var byte: Byte, count := 0, 0;
    // the bits written so far: whole bytes already pushed, then the bits held in `byte`
    ghost var flushed: seq<bool>, partial: seq<bool> := [], [];
    assert text[..0] == [];
    for i := 0 to |text|
      invariant flushed + partial == TextBits(text[..i], table)
      invariant PackState(flushed, partial, byteStream, byte, count)
    {
      TextBitsPrefix(text, table, i);
      byteStream, byte, count, flushed, partial := PushCode(table[text[i]], byteStream, byte, count, flushed, partial);
    }
    assert text[..|text|] == text;
    PackTail(flushed, partial, byte, count);
    if count != 0 {
      var padding: Byte := 8 - count;
      byte := (byte * Pow2(padding)) % 256;
      byteStream := byteStream + [byte];
      byteStream := [padding] + byteStream;
    } else {
      byteStream := [0] + byteStream;
    }
  }

  /**
   * The packer's state: `flushed` are the bits already pushed as whole
   * bytes and `partial` the fewer than eight bits held in `byte`.
   */
  ghost predicate PackState(flushed: seq<bool>, partial: seq<bool>, byteStream: seq<Byte>, byte: Byte, count: int)
  {
    |flushed| % 8 == 0 && byteStream == Chunk(flushed) && count == |partial| < 8 && byte == Value(partial)
  }

  /** The inner loop of `compress_data`: shift the bits of one code into the packer. */
  method PushCode(encoding: seq<bool>, byteStream0: seq<Byte>, byte0: Byte, count0: int,
                  ghost flushed0: seq<bool>, ghost partial0: seq<bool>)
    returns (byteStream: seq<Byte>, byte: Byte, count: int, ghost flushed: seq<bool>, ghost partial: seq<bool>)
    requires PackState(flushed0, partial0, byteStream0, byte0, count0)
    ensures PackState(flushed, partial, byteStream, byte, count)
    ensures flushed + partial == flushed0 + partial0 + encoding
  {
    byteStream, byte, count, flushed, partial := byteStream0, byte0, count0, flushed0, partial0;
    for j := 0 to |encoding|
      invariant flushed + partial == flushed0 + partial0 + encoding[..j]
      invariant PackState(flushed, partial, byteStream, byte, count)
    {
      var bit := encoding[j];
      PackStep(flushed, partial, bit, byte, count);
      byte := (byte * 2) % 256 + (if bit then 1 else 0);
      count := (count + 1) % 8;
      ConcatAssoc(flushed, partial, [bit]);
      ConcatAssoc(flushed0 + partial0, encoding[..j], [bit]);
      assert encoding[..j + 1] == encoding[..j] + [bit];
      partial := partial + [bit];
      if count == 0 {
        byteStream := byteStream + [byte];
        byte := 0;
        flushed, partial := flushed + partial, [];
        assert flushed + partial == flushed;
      }
    }
    assert encoding[..|encoding|] == encoding;
  }

  /**
   * One bit of the packing loop: the partial byte, shifted and or-ed with
   * the bit, spells the partial bits with the bit appended, and once eight
   * bits are held it is the next whole byte.
   */
  lemma PackStep(flushed: seq<bool>, partial: seq<bool>, bit: bool, byte: int, count: int)
    requires |flushed| % 8 == 0 && count == |partial| < 8 && byte == Value(partial)
    ensures (byte * 2) % 256 + (if bit then 1 else 0) == Value(partial + [bit]) < 256
    ensures (count + 1) % 8 == (if count == 7 then 0 else count + 1)
    ensures count == 7 ==> |flushed + (partial + [bit])| % 8 == 0
    ensures count == 7 ==> Chunk(flushed) + [Value(partial + [bit])] == Chunk(flushed + (partial + [bit]))
  {
    Pow2Mono(|partial|, 7);
    Pow2Byte();
    ValueSnoc(partial, bit);
    if |partial| == 7 {
      ChunkAppend(flushed, partial + [bit]);
      ChunkByte(partial + [bit]);
    }
  }

  /** The end of the packing loop: the partial byte shifted up by the padding is the last byte of `Pack`. */
  lemma PackTail(flushed: seq<bool>, partial: seq<bool>, byte: int, count: int)
    requires |flushed| % 8 == 0 && count == |partial| < 8 && byte == Value(partial)
    ensures count == 0 ==> Pack(flushed + partial) == [0] + Chunk(flushed)
    ensures count != 0 ==> byte * Pow2(8 - count) < 256
    ensures count != 0 ==> Pack(flushed + partial) == [8 - count] + (Chunk(flushed) + [(byte * Pow2(8 - count)) % 256])
  {
    var bits := flushed + partial;
    assert |bits| % 8 == |partial|;
    if partial == [] {
      assert bits + Zeros(0) == flushed;
    } else {
      var p := 8 - count;
      var last := partial + Zeros(p);
      ConcatAssoc(flushed, partial, Zeros(p));
      ChunkAppend(flushed, last);
      ChunkByte(last);
      ValueZeros(partial, p);
      var v := byte * Pow2(p);
      assert v == Value(last) && v % 256 == v;
    }
  }
}
