/**
 * Tree serialisation of src/compress.rs (identical in src/huffman.rs): the
 * post-order string `to_string` writes, the length-prefixed bytes
 * `embed_tree` makes of it, and the stack machine
 * `construct_tree_from_postorder` reads them back with.
 */
module TreeSerial {
  import opened Bits
  import opened Optional
  import opened HuffmanTree

  /**
   * `to_string`: the left subtree, then the right subtree, then the node's
   * own letter (`'\0'` for an internal node).
   */
  function PostOrder(t: Node): (s: seq<char>)
    ensures |s| == 2 * LeafCount(t) - 1
    ensures s[|s| - 1] == t.Letter()
    ensures AsciiLetters(t) ==> IsAscii(s)
  {
    match t
    case Leaf(c, _) => assert c in LetterBag(t); [c]
    case Merge(_, l, r) =>
      AsciiChildren(t);
      var left, right := PostOrder(l), PostOrder(r);
      IsAsciiConcat(left, right);
      IsAsciiConcat(left + right, [SENTINEL]);
      left + right + [SENTINEL]
  }

  /** Every leaf letter is one byte in UTF-8, so `into_bytes` gives one byte per letter. */
  ghost predicate AsciiLetters(t: Node)
  {
    forall c :: c in LetterBag(t) ==> c as int < 128
  }

  /** The letters of an internal node's children are its own letters. */
  lemma AsciiChildren(t: Node)
    requires t.Merge?
    ensures AsciiLetters(t) ==> AsciiLetters(t.left) && AsciiLetters(t.right)
    ensures SENTINEL !in LetterBag(t) ==> SENTINEL !in LetterBag(t.left) && SENTINEL !in LetterBag(t.right)
  {
    assert forall c :: c in LetterBag(t.left) ==> c in LetterBag(t);
    assert forall c :: c in LetterBag(t.right) ==> c in LetterBag(t);
  }

  lemma IsAsciiConcat(x: seq<char>, y: seq<char>)
    ensures IsAscii(x) && IsAscii(y) ==> IsAscii(x + y)
  {
  }

  /** Every letter of the string is a single byte in UTF-8. */
  predicate IsAscii(s: seq<char>)
  {
    forall i :: 0 <= i < |s| ==> s[i] as int < 128
  }

  /** `into_bytes` of a string of single-byte letters. */
  function AsciiBytes(s: seq<char>): (r: seq<Byte>)
    requires IsAscii(s)
    ensures |r| == |s| && forall i :: 0 <= i < |s| ==> r[i] == s[i] as int
  {
    if s == [] then [] else [s[0] as int] + AsciiBytes(s[1..])
  }

  lemma AsciiBytesAppend(x: seq<char>, y: seq<char>)
    requires IsAscii(x + y)
    ensures IsAscii(x) && IsAscii(y)
    ensures AsciiBytes(x + y) == AsciiBytes(x) + AsciiBytes(y)
  {
    assert forall i :: 0 <= i < |x| ==> x[i] == (x + y)[i];
    assert forall i :: 0 <= i < |y| ==> y[i] == (x + y)[|x| + i];
    var a, b := AsciiBytes(x + y), AsciiBytes(x) + AsciiBytes(y);
    forall i | 0 <= i < |a|
      ensures a[i] == b[i]
    {
      if i >= |x| {
        assert (x + y)[i] == y[i - |x|];
      }
    }
  }

  /**
   * `embed_tree`: the post-order bytes behind a one-byte length, cast to
   * `u8` and so taken modulo 256.
   */
  function EmbedTree(t: Node): (r: seq<Byte>)
    requires AsciiLetters(t)
    ensures |r| == 2 * LeafCount(t)
    ensures r[0] == (2 * LeafCount(t) - 1) % 256
    ensures r[1..] == AsciiBytes(PostOrder(t))
  {
    var body := AsciiBytes(PostOrder(t));
    [|body| % 256] + body
  }

  /** The length byte is the true length exactly when the tree has at most 128 leaves. */
  lemma EmbedTreeLength(t: Node)
    requires AsciiLetters(t)
    ensures EmbedTree(t)[0] == |EmbedTree(t)| - 1 <==> LeafCount(t) <= 128
  {
    ByteCast(2 * LeafCount(t) - 1);
  }

  /** A cast to `u8` keeps a count exactly when it is below 256. */
  lemma ByteCast(m: nat)
    ensures m % 256 == m <==> m < 256
  {
    if m >= 256 {
      assert m % 256 < 256;
    }
  }

  /**
   * The stack machine of `construct_tree_from_postorder`, run from `stack`
   * over `bytes`: a non-zero byte pushes a leaf with frequency 0; a zero byte
   * pops the last node (bound to `left` in the source) and the one before it
   * (bound to `right`) and pushes an internal node whose left child is the
   * one before and whose right child is the last. `None` is the panic of
   * popping an empty stack.
   */
  function Reconstruct(stack: seq<Node>, bytes: seq<Byte>): (r: Option<seq<Node>>)
    ensures r.Some? ==> |r.value| <= |stack| + |bytes|
    ensures r.Some? && bytes != [] ==> |r.value| >= 1
    ensures |stack| == 0 && bytes != [] && bytes[0] == 0 ==> r.None?
    decreases |bytes|
  {
    if bytes == [] then Some(stack)
    else if bytes[0] == 0 then
      if |stack| < 2 then None
      else
        var last, before := stack[|stack| - 1], stack[|stack| - 2];
        Reconstruct(stack[..|stack| - 2] + [Merge(0, before, last)], bytes[1..])
    else
      Reconstruct(stack + [Leaf(bytes[0] as char, 0)], bytes[1..])
  }

  /** Tree bytes `construct_tree_from_postorder` accepts without a panic. */
  ghost predicate Rebuildable(bytes: seq<Byte>)
    ensures Rebuildable(bytes) ==> |bytes| >= 1 && bytes[0] != 0
  {
    Reconstruct([], bytes).Some? && |Reconstruct([], bytes).value| > 0
  }

  /** The post-order bytes of an internal node: its children's, then the marker 0. */
  lemma PostOrderBytesMerge(t: Node)
    requires t.Merge? && AsciiLetters(t)
    ensures AsciiLetters(t.left) && AsciiLetters(t.right)
    ensures AsciiBytes(PostOrder(t)) == AsciiBytes(PostOrder(t.left)) + AsciiBytes(PostOrder(t.right)) + [0]
  {
    AsciiChildren(t);
    var x, y := PostOrder(t.left), PostOrder(t.right);
    AsciiBytesAppend(x, y);
    AsciiBytesAppend(x + y, [SENTINEL]);
    assert AsciiBytes([SENTINEL]) == [0];
  }

  /**
   * The post-order bytes spelled directly on the tree: letters as bytes, 0
   * for a marker. A proof helper for `ReconstructTree`, equal to
   * `AsciiBytes(PostOrder(t))` on one-byte letters (`TreeBytesAscii`).
   */
  function TreeBytes(t: Node): (r: seq<Byte>)
    ensures |r| == 2 * LeafCount(t) - 1
  {
    match t
    case Leaf(c, _) => [c as int % 256]
    case Merge(_, l, r) => TreeBytes(l) + TreeBytes(r) + [0]
  }

  /** For single-byte letters, the bytes of the post-order string are `TreeBytes`. */
  lemma {:induction false} TreeBytesAscii(t: Node)
    requires AsciiLetters(t)
    ensures AsciiBytes(PostOrder(t)) == TreeBytes(t)
  {
    if t.Leaf? {
      assert t.letter in LetterBag(t);
    } else {
      PostOrderBytesMerge(t);
      TreeBytesAscii(t.left);
      TreeBytesAscii(t.right);
    }
  }

  /** A merge marker on top of two pushed subtrees combines them. */
  lemma ReconstructMarker(stack: seq<Node>, l: Node, r: Node, rest: seq<Byte>)
    ensures Reconstruct(stack + [l] + [r], [0] + rest) == Reconstruct(stack + [Merge(0, l, r)], rest)
  {
    var st := stack + [l] + [r];
    assert st[..|st| - 2] == stack;
    assert ([0] + rest)[1..] == rest;
  }

  /**
   * Running the stack machine over the bytes of `t` pushes `t` with its
   * frequencies reset, whatever is on the stack and comes after, provided
   * every letter is a single non-zero byte.
   */
  lemma {:induction false} ReconstructTree(t: Node, stack: seq<Node>, rest: seq<Byte>)
    requires AsciiLetters(t) && SENTINEL !in LetterBag(t)
    ensures Reconstruct(stack, TreeBytes(t) + rest) == Reconstruct(stack + [Strip(t)], rest)
  {
    if t.Leaf? {
      assert t.letter in LetterBag(t);
      var bytes := TreeBytes(t) + rest;
      assert bytes[0] == t.letter as int && bytes[1..] == rest;
    } else {
      var l, r := t.left, t.right;
      AsciiChildren(t);
      var a, b := TreeBytes(l), TreeBytes(r);
      assert TreeBytes(t) + rest == a + (b + ([0] + rest));
      ReconstructTree(l, stack, b + ([0] + rest));
      ReconstructTree(r, stack + [Strip(l)], [0] + rest);
      ReconstructMarker(stack, Strip(l), Strip(r), rest);
    }
  }

  /** The same, stated on the post-order string `to_string` writes. */
  lemma ReconstructPostOrder(t: Node, stack: seq<Node>, rest: seq<Byte>)
    requires AsciiLetters(t) && SENTINEL !in LetterBag(t)
    ensures Reconstruct(stack, AsciiBytes(PostOrder(t)) + rest) == Reconstruct(stack + [Strip(t)], rest)
  {
    TreeBytesAscii(t);
    ReconstructTree(t, stack, rest);
  }

  /** Reading back the post-order bytes of `t` rebuilds `t`'s shape and letters. */
  lemma PostOrderInverse(t: Node)
    requires AsciiLetters(t) && SENTINEL !in LetterBag(t)
    ensures Reconstruct([], AsciiBytes(PostOrder(t))) == Some([Strip(t)])
    ensures Rebuildable(AsciiBytes(PostOrder(t)))
  {
    ReconstructPostOrder(t, [], []);
    assert AsciiBytes(PostOrder(t)) + [] == AsciiBytes(PostOrder(t));
    assert [] + [Strip(t)] == [Strip(t)];
  }

  /** One step of the stack machine, on the first byte of what is left. */
  lemma ReconstructStep(stack: seq<Node>, bytes: seq<Byte>, i: nat)
    requires i < |bytes|
    ensures Reconstruct(stack, bytes[i..]) ==
      if bytes[i] == 0 then
        if |stack| < 2 then None
        else Reconstruct(stack[..|stack| - 2] + [Merge(0, stack[|stack| - 2], stack[|stack| - 1])], bytes[i + 1..])
      else Reconstruct(stack + [Leaf(bytes[i] as char, 0)], bytes[i + 1..])
  {
    assert bytes[i..][0] == bytes[i] && bytes[i..][1..] == bytes[i + 1..];
  }

  /**
   * `construct_tree_from_postorder`: push a leaf for every non-zero byte;
   * on a zero byte pop `left`, then `right`, and push the node with `right`
   * as left child and `left` as right child; the result is the last node
   * pushed. A pop of an empty stack panics (`expect`/`unwrap`), so the bytes
   * must be ones the machine runs through to a non-empty stack.
   */
  method ConstructTreeFromPostorder(postorder: seq<Byte>) returns (root: Node)
    requires Rebuildable(postorder)
    ensures root == Reconstruct([], postorder).value[|Reconstruct([], postorder).value| - 1]
  {
    var stack: seq<Node> := [];
    for i := 0 to |postorder|
      invariant Reconstruct(stack, postorder[i..]) == Reconstruct([], postorder)
    {
      ReconstructStep(stack, postorder, i);
      var c := postorder[i];
      if c == 0 {
        ghost var before := stack;
        var left := stack[|stack| - 1];
        stack := stack[..|stack| - 1];
        var right := stack[|stack| - 1];
        stack := stack[..|stack| - 1];
        assert stack == before[..|before| - 2] && right == before[|before| - 2];
        stack := stack + [Merge(0, right, left)];
      } else {
        stack := stack + [Leaf(c as char, 0)];
      }
    }
    assert postorder[|postorder|..] == [];
    root := stack[|stack| - 1];
  }
}
