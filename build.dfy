/**
 * `construct_huffman_tree` of src/compress.rs (shared by src/huffman.rs):
 * Huffman's greedy construction over a priority queue of trees.
 *
 * The source's `BinaryHeap` orders nodes through the custom `partial_cmp`,
 * which reverses the frequency order, so `pop` removes a node of least
 * frequency. The queue is modelled as a sequence and `Pop` removes the
 * first node of least frequency; which of several equal nodes the heap
 * returns depends on its internal layout, and the contracts below only
 * rely on the node being of least frequency. `Builds` describes the trees
 * the loop may end with under every such choice.
 *
 * Several short lemmas here state a single step (an associativity, one
 * shift, one pop, one run). Dafny proves most of them without help; they are
 * separate so that the proofs calling them see only that one fact, which
 * keeps each of those proof obligations small.
 */
module TreeBuild {
  import opened HuffmanTree

  /** `a` is in the queue and no node of the queue weighs less. */
  ghost predicate IsMin(a: Node, q: multiset<Node>)
  {
    a in q && forall x :: x in q ==> a.freq <= x.freq
  }

  /**
   * One round of Huffman's algorithm turns queue `q` into `q2`: take out `a`,
   * a node of least frequency, then `b`, a node of least frequency among the
   * rest, and put back their combination.
   */
  ghost predicate MergeStep(q: multiset<Node>, a: Node, b: Node, q2: multiset<Node>)
    ensures MergeStep(q, a, b, q2) ==> |q2| == |q| - 1 && Merge(a.freq + b.freq, a, b) in q2
  {
    IsMin(a, q) && IsMin(b, q - multiset{a})
      && q2 == q - multiset{a} - multiset{b} + multiset{Merge(a.freq + b.freq, a, b)}
  }

  /** Every tree of the queue weighs the sum of its children at every node. */
  ghost predicate AllWellWeighted(q: multiset<Node>)
  {
    forall x :: x in q ==> WellWeighted(x)
  }

  /** The index of the first node of least frequency. */
  function MinIndex(q: seq<Node>): (k: nat)
    requires |q| >= 1
    ensures k < |q| && forall j :: 0 <= j < |q| ==> q[k].freq <= q[j].freq
  {
    if |q| == 1 then 0
    else
      var k := MinIndex(q[1..]) + 1;
      assert forall j :: 1 <= j < |q| ==> q[1..][j - 1] == q[j];
      if q[k].freq < q[0].freq then k else 0
  }

  /** `pq.pop()`: a node of least frequency and the queue without it. */
  function Pop(q: seq<Node>): (r: (Node, seq<Node>))
    requires |q| >= 1
    ensures |r.1| == |q| - 1
  {
    var k := MinIndex(q);
    (q[k], Without(q, k))
  }

  /** The queue without its node at index `k`. */
  function Without(q: seq<Node>, k: nat): (r: seq<Node>)
    requires k < |q|
    ensures |r| == |q| - 1
  {
    if k == 0 then q[1..] else [q[0]] + Without(q[1..], k - 1)
  }

  lemma {:induction false} WithoutSlices(q: seq<Node>, k: nat)
    requires k < |q|
    ensures Without(q, k) == q[..k] + q[k + 1..]
  {
    if k > 0 {
      WithoutSlices(q[1..], k - 1);
      assert q[..k] == [q[0]] + q[1..][..k - 1];
      assert q[k + 1..] == q[1..][k..];
    }
  }

  /** The popped node is of least frequency. */
  lemma PopMin(q: seq<Node>)
    requires |q| >= 1
    ensures IsMin(Pop(q).0, multiset(q))
  {
    MinIsMin(q, MinIndex(q));
  }

  /** The queue is the popped node and the rest. */
  lemma PopBag(q: seq<Node>)
    requires |q| >= 1
    ensures multiset(q) == multiset(Pop(q).1) + multiset{Pop(q).0}
  {
    WithoutSlices(q, MinIndex(q));
    RemoveAt(q, MinIndex(q));
  }

  /** Popping takes the popped tree's leaves out of the queue's. */
  lemma PopLeaves(q: seq<Node>)
    requires |q| >= 1
    ensures QueueLeaves(q) == LeafBag(Pop(q).0) + QueueLeaves(Pop(q).1)
  {
    WithoutSlices(q, MinIndex(q));
    QueueRemove(q, MinIndex(q));
  }

  /** Popping takes the popped tree's letters out of the queue's. */
  lemma PopLetters(q: seq<Node>)
    requires |q| >= 1
    ensures QueueLetters(q) == LetterBag(Pop(q).0) + QueueLetters(Pop(q).1)
  {
    WithoutSlices(q, MinIndex(q));
    QueueRemove(q, MinIndex(q));
  }

  /** Popping takes the popped tree's frequency out of the queue's weight. */
  lemma PopWeight(q: seq<Node>)
    requires |q| >= 1
    ensures QueueWeight(q) == Pop(q).0.freq + QueueWeight(Pop(q).1)
  {
    WithoutSlices(q, MinIndex(q));
    QueueRemove(q, MinIndex(q));
  }

  lemma RemoveAt<T>(q: seq<T>, k: nat)
    requires k < |q|
    ensures multiset(q) == multiset(q[..k] + q[k + 1..]) + multiset{q[k]}
  {
    assert q == q[..k] + [q[k]] + q[k + 1..];
  }

  lemma MinIsMin(q: seq<Node>, k: nat)
    requires k < |q| && forall j :: 0 <= j < |q| ==> q[k].freq <= q[j].freq
    ensures IsMin(q[k], multiset(q))
  {
    forall x | x in multiset(q)
      ensures q[k].freq <= x.freq
    {
      var j :| 0 <= j < |q| && q[j] == x;
    }
  }

  lemma TakeOut(q: multiset<Node>, a: Node, r: multiset<Node>)
    requires q == r + multiset{a}
    ensures r == q - multiset{a}
  {
  }

  lemma SplitWellWeighted(m: multiset<Node>, r: multiset<Node>, a: Node)
    requires m == r + multiset{a} && AllWellWeighted(m)
    ensures AllWellWeighted(r) && WellWeighted(a)
  {
    forall x | x in r
      ensures WellWeighted(x)
    {
      assert x in m;
    }
  }

  lemma JoinWellWeighted(r: multiset<Node>, x: Node)
    requires AllWellWeighted(r) && WellWeighted(x)
    ensures AllWellWeighted(r + multiset{x})
  {
  }

  lemma UnionShuffle<T>(x: multiset<T>, y: multiset<T>, z: multiset<T>)
    ensures x + (y + z) == z + (x + y)
  {
  }

  /**
   * One pass of the `while` loop: pop `a`, pop `b`, push the node whose
   * left child is `a`, whose right child is `b` and whose frequency is the
   * sum of theirs.
   */
  function Combine(q: seq<Node>): (r: seq<Node>)
    requires |q| >= 2
    ensures |r| == |q| - 1
  {
    var first := Pop(q);
    var second := Pop(first.1);
    second.1 + [Merge(first.0.freq + second.0.freq, first.0, second.0)]
  }

  /** The tree the loop ends with: combine until one node is left. */
  function Huffman(q: seq<Node>): (r: Node)
    requires |q| >= 1
    ensures |q| >= 2 ==> r.Merge?
    decreases |q|
  {
    if |q| == 1 then q[0] else Huffman(Combine(q))
  }

  /** A pass is one round of Huffman's algorithm. */
  lemma CombineRound(q: seq<Node>)
    requires |q| >= 2
    ensures MergeStep(multiset(q), Pop(q).0, Pop(Pop(q).1).0, multiset(Combine(q)))
  {
    PopMin(q);
    PopMin(Pop(q).1);
    PopBag(q);
    PopBag(Pop(q).1);
    TakeOut(multiset(q), Pop(q).0, multiset(Pop(q).1));
    TakeOut(multiset(Pop(q).1), Pop(Pop(q).1).0, multiset(Pop(Pop(q).1).1));
    CombineDef(q);
    MultisetSnoc(Pop(Pop(q).1).1, Merge(Pop(q).0.freq + Pop(Pop(q).1).0.freq, Pop(q).0, Pop(Pop(q).1).0));
  }

  /** A pass keeps every tree well weighted. */
  lemma CombineWellWeighted(q: seq<Node>)
    requires |q| >= 2
    ensures AllWellWeighted(multiset(q)) ==> AllWellWeighted(multiset(Combine(q)))
  {
    if AllWellWeighted(multiset(q)) {
      PopBag(q);
      SplitWellWeighted(multiset(q), multiset(Pop(q).1), Pop(q).0);
      PopBag(Pop(q).1);
      SplitWellWeighted(multiset(Pop(q).1), multiset(Pop(Pop(q).1).1), Pop(Pop(q).1).0);
      CombineDef(q);
      MultisetSnoc(Pop(Pop(q).1).1, Merge(Pop(q).0.freq + Pop(Pop(q).1).0.freq, Pop(q).0, Pop(Pop(q).1).0));
      JoinWellWeighted(multiset(Pop(Pop(q).1).1), Merge(Pop(q).0.freq + Pop(Pop(q).1).0.freq, Pop(q).0, Pop(Pop(q).1).0));
    }
  }

  lemma MultisetSnoc<T>(s: seq<T>, x: T)
    ensures multiset(s + [x]) == multiset(s) + multiset{x}
  {
  }

  lemma CombineDef(q: seq<Node>)
    requires |q| >= 2
    ensures Combine(q) == Pop(Pop(q).1).1 + [Merge(Pop(q).0.freq + Pop(Pop(q).1).0.freq, Pop(q).0, Pop(Pop(q).1).0)]
  {
  }

  /** A pass keeps the leaves of the queue. */
  lemma CombineLeaves(q: seq<Node>)
    requires |q| >= 2
    ensures QueueLeaves(Combine(q)) == QueueLeaves(q)
  {
    PopLeaves(q);
    PopLeaves(Pop(q).1);
    CombineDef(q);
    QueueSingle(Merge(Pop(q).0.freq + Pop(Pop(q).1).0.freq, Pop(q).0, Pop(Pop(q).1).0));
    QueueAppend(Pop(Pop(q).1).1, [Merge(Pop(q).0.freq + Pop(Pop(q).1).0.freq, Pop(q).0, Pop(Pop(q).1).0)]);
    UnionShuffle(LeafBag(Pop(q).0), LeafBag(Pop(Pop(q).1).0), QueueLeaves(Pop(Pop(q).1).1));
  }

  /** A pass keeps the letters of the queue. */
  lemma CombineLetters(q: seq<Node>)
    requires |q| >= 2
    ensures QueueLetters(Combine(q)) == QueueLetters(q)
  {
    PopLetters(q);
    PopLetters(Pop(q).1);
    CombineDef(q);
    QueueSingle(Merge(Pop(q).0.freq + Pop(Pop(q).1).0.freq, Pop(q).0, Pop(Pop(q).1).0));
    QueueAppend(Pop(Pop(q).1).1, [Merge(Pop(q).0.freq + Pop(Pop(q).1).0.freq, Pop(q).0, Pop(Pop(q).1).0)]);
    UnionShuffle(LetterBag(Pop(q).0), LetterBag(Pop(Pop(q).1).0), QueueLetters(Pop(Pop(q).1).1));
  }

  /** A pass keeps the total weight of the queue. */
  lemma CombineWeight(q: seq<Node>)
    requires |q| >= 2
    ensures QueueWeight(Combine(q)) == QueueWeight(q)
  {
    PopWeight(q);
    PopWeight(Pop(q).1);
    CombineDef(q);
    QueueSnoc(Pop(Pop(q).1).1, Merge(Pop(q).0.freq + Pop(Pop(q).1).0.freq, Pop(q).0, Pop(Pop(q).1).0));
  }

  /**
   * The root holds every leaf and letter of the initial queue and weighs its
   * total, and it is well weighted when the initial trees are.
   */
  lemma {:induction false} HuffmanSums(q: seq<Node>)
    requires |q| >= 1
    ensures LeafBag(Huffman(q)) == QueueLeaves(q)
    ensures LetterBag(Huffman(q)) == QueueLetters(q)
    ensures Huffman(q).freq == QueueWeight(q)
    ensures AllWellWeighted(multiset(q)) ==> WellWeighted(Huffman(q))
    decreases |q|
  {
    if |q| == 1 {
      QueueSingle(q[0]);
      assert q == [q[0]];
    } else {
      CombineWellWeighted(q);
      CombineLeaves(q);
      CombineLetters(q);
      CombineWeight(q);
      HuffmanSums(Combine(q));
    }
  }

  /** Two pops and a push are one pass, so the loop keeps the tree it ends with. */
  lemma PassStep(q: seq<Node>, a: Node, rest: seq<Node>, b: Node, rest2: seq<Node>)
    requires |q| >= 2 && (a, rest) == Pop(q) && (b, rest2) == Pop(rest)
    ensures Combine(q) == rest2 + [Merge(a.freq + b.freq, a, b)]
    ensures Huffman(rest2 + [Merge(a.freq + b.freq, a, b)]) == Huffman(q)
  {
    CombineDef(q);
  }

  /**
   * `construct_huffman_tree`: push every node, then, while two or more are
   * left, pop two nodes of least frequency and push their combination; the
   * last node is the root. `pop().unwrap()` panics on an empty list, so the
   * list must not be empty.
   */
  method ConstructHuffmanTree(freq: seq<Node>) returns (root: Node)
    requires |freq| >= 1
    ensures root == Huffman(freq)
    ensures LeafBag(root) == QueueLeaves(freq)
    ensures LetterBag(root) == QueueLetters(freq)
    ensures root.freq == QueueWeight(freq)
    ensures AllWellWeighted(multiset(freq)) ==> WellWeighted(root)
  {
    var pq: seq<Node> := [];
    for i := 0 to |freq|
      invariant pq == freq[..i]
    {
      pq := pq + [freq[i]];
    }
    assert pq == freq;
    while |pq| > 1
      invariant |pq| >= 1 && Huffman(pq) == Huffman(freq)
      decreases |pq|
    {
      var first := Pop(pq);
      var a, rest := first.0, first.1;
      var second := Pop(rest);
      var b, rest2 := second.0, second.1;
      var newNode := Merge(a.freq + b.freq, a, b);
      PassStep(pq, a, rest, b, rest2);
      pq := rest2 + [newNode];
    }
    root := Pop(pq).0;
    HuffmanSums(freq);
  }

  /** No node of the queue weighs less than the node at index `i`. */
  ghost predicate LeastAt(q: seq<Node>, i: nat)
  {
    i < |q| && forall k :: 0 <= k < |q| ==> q[i].freq <= q[k].freq
  }

  /**
   * One round that pops the node at index `i`, then the node at index `j` of
   * what is left, and pushes their combination.
   */
  function RoundAt(q: seq<Node>, i: nat, j: nat): (r: seq<Node>)
    requires i < |q| && j < |q| - 1
    ensures |r| == |q| - 1 && r[|r| - 1].Merge?
  {
    var rest := Without(q, i);
    Without(rest, j) + [Merge(q[i].freq + rest[j].freq, q[i], rest[j])]
  }

  /**
   * `t` is a tree the loop may end with when each pop takes some node of
   * least weight, whichever one the heap's layout makes it take.
   */
  ghost predicate Builds(q: seq<Node>, t: Node)
    ensures Builds(q, t) ==> |q| >= 1 && (|q| >= 2 ==> t.Merge?)
    decreases |q|
  {
    if |q| <= 1 then q == [t]
    else
      exists i: nat, j: nat ::
        i < |q| && j < |q| - 1 && LeastAt(q, i) && LeastAt(Without(q, i), j) && Builds(RoundAt(q, i, j), t)
  }

  /** Any round, whichever least-weight nodes it pops, keeps the queue's leaves, letters and weight. */
  lemma RoundAtSums(q: seq<Node>, i: nat, j: nat)
    requires i < |q| && j < |q| - 1
    ensures QueueLeaves(RoundAt(q, i, j)) == QueueLeaves(q)
    ensures QueueLetters(RoundAt(q, i, j)) == QueueLetters(q)
    ensures QueueWeight(RoundAt(q, i, j)) == QueueWeight(q)
  {
    WithoutSums(q, i);
    WithoutSums(Without(q, i), j);
    PushSums(Without(Without(q, i), j), Merge(q[i].freq + Without(q, i)[j].freq, q[i], Without(q, i)[j]));
    UnionShuffle(LeafBag(q[i]), LeafBag(Without(q, i)[j]), QueueLeaves(Without(Without(q, i), j)));
    UnionShuffle(LetterBag(q[i]), LetterBag(Without(q, i)[j]), QueueLetters(Without(Without(q, i), j)));
  }

  /** Taking out the node at index `i` takes its share out of each sum. */
  lemma WithoutSums(q: seq<Node>, i: nat)
    requires i < |q|
    ensures QueueLeaves(q) == LeafBag(q[i]) + QueueLeaves(Without(q, i))
    ensures QueueLetters(q) == LetterBag(q[i]) + QueueLetters(Without(q, i))
    ensures QueueWeight(q) == q[i].freq + QueueWeight(Without(q, i))
  {
    WithoutSlices(q, i);
    QueueRemove(q, i);
  }

  /** Pushing a node adds its share to each sum. */
  lemma PushSums(q: seq<Node>, x: Node)
    ensures QueueLeaves(q + [x]) == QueueLeaves(q) + LeafBag(x)
    ensures QueueLetters(q + [x]) == QueueLetters(q) + LetterBag(x)
    ensures QueueWeight(q + [x]) == QueueWeight(q) + x.freq
  {
    QueueAppend(q, [x]);
    QueueSingle(x);
  }

  /**
   * Every tree the loop may end with, whatever the tie-breaks, has exactly
   * the queue's leaves and letters, and its root weighs the queue's total.
   */
  lemma {:induction false} BuildsSums(q: seq<Node>, t: Node)
    requires Builds(q, t)
    ensures LeafBag(t) == QueueLeaves(q)
    ensures LetterBag(t) == QueueLetters(q)
    ensures t.freq == QueueWeight(q)
    decreases |q|
  {
    if |q| <= 1 {
      QueueSingle(t);
    } else {
      var i: nat, j: nat :| i < |q| && j < |q| - 1 && LeastAt(q, i) && LeastAt(Without(q, i), j)
        && Builds(RoundAt(q, i, j), t);
      BuildsSums(RoundAt(q, i, j), t);
      RoundAtSums(q, i, j);
    }
  }

  /** The first-minimum choice is one of the heap's possible choices. */
  lemma {:induction false} HuffmanBuilds(q: seq<Node>)
    requires |q| >= 1
    ensures Builds(q, Huffman(q))
    decreases |q|
  {
    if |q| >= 2 {
      var i := MinIndex(q);
      var j := MinIndex(Pop(q).1);
      assert LeastAt(q, i);
      assert LeastAt(Without(q, i), j);
      CombineDef(q);
      assert RoundAt(q, i, j) == Combine(q);
      HuffmanBuilds(Combine(q));
    } else {
      assert q == [q[0]];
    }
  }
}
