/** The result of a partial operation. */
module Optional {
  datatype Option<T> = None | Some(value: T)
}

/**
 * The Huffman tree of src/compress.rs (shared, unchanged, by src/huffman.rs):
 * nodes, the measures the algorithms preserve, and sums over a queue of trees.
 */
module HuffmanTree {

  /** The letter every internal node carries, and the merge marker of the serialised tree. */
  const SENTINEL: char := '\0'

  /**
   * A tree node. A leaf holds a letter and its frequency; an internal node
   * holds the sum of its children's frequencies and exactly two children, so
   * every tree is a full binary tree. The source's node has a `letter` field
   * on both kinds, always `'\0'` on internal nodes; `Letter()` returns it.
   */
  datatype Node = Leaf(letter: char, freq: int) | Merge(freq: int, left: Node, right: Node)
  {
    function Letter(): char
    {
      if Leaf? then letter else SENTINEL
    }
  }

  function LeafCount(t: Node): (n: nat)
    ensures n >= 1
  {
    match t
    case Leaf(_, _) => 1
    case Merge(_, l, r) => LeafCount(l) + LeafCount(r)
  }

  /** The leaves of a tree, as a multiset of nodes. */
  function LeafBag(t: Node): (b: multiset<Node>)
    ensures |b| == LeafCount(t)
    ensures forall x :: x in b ==> x.Leaf?
  {
    match t
    case Leaf(_, _) => multiset{t}
    case Merge(_, l, r) => LeafBag(l) + LeafBag(r)
  }

  /** The letters of a tree's leaves, with repetitions. */
  function LetterBag(t: Node): (b: multiset<char>)
    ensures |b| == LeafCount(t)
  {
    match t
    case Leaf(c, _) => multiset{c}
    case Merge(_, l, r) => LetterBag(l) + LetterBag(r)
  }

  /** Every internal node weighs the sum of its children. */
  predicate WellWeighted(t: Node)
  {
    match t
    case Leaf(_, _) => true
    case Merge(f, l, r) => f == l.freq + r.freq && WellWeighted(l) && WellWeighted(r)
  }

  /** The same tree with every frequency reset to 0. */
  function Strip(t: Node): (s: Node)
    ensures s.Leaf? <==> t.Leaf?
    ensures s.freq == 0 && LetterBag(s) == LetterBag(t)
  {
    match t
    case Leaf(c, _) => Leaf(c, 0)
    case Merge(_, l, r) => Merge(0, Strip(l), Strip(r))
  }

  /** The leaves of all the trees of a queue. */
  function QueueLeaves(q: seq<Node>): multiset<Node>
  {
    if q == [] then multiset{} else LeafBag(q[0]) + QueueLeaves(q[1..])
  }

  /** The leaf letters of all the trees of a queue. */
  function QueueLetters(q: seq<Node>): multiset<char>
  {
    if q == [] then multiset{} else LetterBag(q[0]) + QueueLetters(q[1..])
  }

  /** The sum of the frequencies of a queue. */
  function QueueWeight(q: seq<Node>): int
  {
    if q == [] then 0 else q[0].freq + QueueWeight(q[1..])
  }

  /** The letters of a list of nodes, in order. */
  function Letters(q: seq<Node>): (r: seq<char>)
    ensures |r| == |q| && forall k :: 0 <= k < |q| ==> r[k] == q[k].Letter()
  {
    seq(|q|, k requires 0 <= k < |q| => q[k].Letter())
  }

  /** The three queue sums are additive. */
  lemma {:induction false} QueueAppend(a: seq<Node>, b: seq<Node>)
    ensures QueueLeaves(a + b) == QueueLeaves(a) + QueueLeaves(b)
    ensures QueueLetters(a + b) == QueueLetters(a) + QueueLetters(b)
    ensures QueueWeight(a + b) == QueueWeight(a) + QueueWeight(b)
  {
    if a == [] {
      assert a + b == b;
    } else {
      assert (a + b)[1..] == a[1..] + b;
      QueueAppend(a[1..], b);
    }
  }

  lemma QueueSingle(x: Node)
    ensures QueueLeaves([x]) == LeafBag(x)
    ensures QueueLetters([x]) == LetterBag(x)
    ensures QueueWeight([x]) == x.freq
  {
    assert [x][1..] == [];
  }

  /** Pushing a node at the end of a list adds its weight and its letter. */
  lemma QueueSnoc(q: seq<Node>, x: Node)
    ensures QueueWeight(q + [x]) == QueueWeight(q) + x.freq
    ensures Letters(q + [x]) == Letters(q) + [x.Letter()]
  {
    QueueAppend(q, [x]);
    QueueSingle(x);
    LettersSnoc(q, x);
  }

  lemma LettersSnoc(q: seq<Node>, x: Node)
    ensures Letters(q + [x]) == Letters(q) + [x.Letter()]
  {
    var a, b := Letters(q + [x]), Letters(q) + [x.Letter()];
    assert |a| == |b|;
    forall k | 0 <= k < |a|
      ensures a[k] == b[k]
    {
      if k < |q| {
        assert (q + [x])[k] == q[k];
      }
    }
  }

  /** Taking the node at index `i` out of a queue takes its share out of each sum. */
  lemma {:induction false} QueueRemove(q: seq<Node>, i: nat)
    requires i < |q|
    ensures QueueLeaves(q) == LeafBag(q[i]) + QueueLeaves(q[..i] + q[i + 1..])
    ensures QueueLetters(q) == LetterBag(q[i]) + QueueLetters(q[..i] + q[i + 1..])
    ensures QueueWeight(q) == q[i].freq + QueueWeight(q[..i] + q[i + 1..])
  {
    SplitAround(q, i);
    QueueAppend(q[..i], [q[i]] + q[i + 1..]);
    QueueAppend(q[..i], q[i + 1..]);
    QueueCons(q[i], q[i + 1..]);
  }

  lemma SplitAround<T>(q: seq<T>, i: nat)
    requires i < |q|
    ensures q == q[..i] + ([q[i]] + q[i + 1..])
  {
  }

  lemma QueueCons(x: Node, b: seq<Node>)
    ensures QueueLeaves([x] + b) == LeafBag(x) + QueueLeaves(b)
    ensures QueueLetters([x] + b) == LetterBag(x) + QueueLetters(b)
    ensures QueueWeight([x] + b) == x.freq + QueueWeight(b)
  {
    assert ([x] + b)[1..] == b;
  }

  /** A list of leaves is its own multiset of leaves, and its letters are its letter bag. */
  lemma QueueOfLeaves(q: seq<Node>)
    requires forall k :: 0 <= k < |q| ==> q[k].Leaf?
    ensures QueueLeaves(q) == multiset(q)
    ensures QueueLetters(q) == multiset(Letters(q))
  {
    LeafQueueLeaves(q);
    LeafQueueLetters(q);
  }

  lemma {:induction false} LeafQueueLeaves(q: seq<Node>)
    requires forall k :: 0 <= k < |q| ==> q[k].Leaf?
    ensures QueueLeaves(q) == multiset(q)
  {
    if q != [] {
      var rest := q[1..];
      assert forall k :: 0 <= k < |rest| ==> rest[k] == q[k + 1];
      LeafQueueLeaves(rest);
      assert q == [q[0]] + rest;
      assert LeafBag(q[0]) == multiset{q[0]};
    }
  }

  lemma {:induction false} LeafQueueLetters(q: seq<Node>)
    requires forall k :: 0 <= k < |q| ==> q[k].Leaf?
    ensures QueueLetters(q) == multiset(Letters(q))
  {
    if q != [] {
      var rest := q[1..];
      assert forall k :: 0 <= k < |rest| ==> rest[k] == q[k + 1];
      LeafQueueLetters(rest);
      LettersCons(q);
      assert LetterBag(q[0]) == multiset{q[0].Letter()};
    }
  }

  /** The letters of a non-empty list are its first letter, then the letters of the rest. */
  lemma LettersCons(q: seq<Node>)
    requires q != []
    ensures Letters(q) == [q[0].Letter()] + Letters(q[1..])
  {
    var a, b := Letters(q), [q[0].Letter()] + Letters(q[1..]);
    assert |a| == |b|;
    forall k | 0 <= k < |a|
      ensures a[k] == b[k]
    {
      if k > 0 {
        assert q[1..][k - 1] == q[k];
      }
    }
  }
}
