/**
 * `freq_count` of src/compress.rs (identical in src/huffman.rs): sort the
 * letters, then count each run of equal letters into a leaf.
 *
 * Several short lemmas here state a single step (an associativity, one
 * shift, one pop, one run). Dafny proves most of them without help; they are
 * separate so that the proofs calling them see only that one fact, which
 * keeps each of those proof obligations small.
 */
module Frequency {
  import opened HuffmanTree

  predicate Sorted(s: seq<char>)
  {
    forall j, k :: 0 <= j < k < |s| ==> s[j] <= s[k]
  }

  /** Puts `c` in front of the first letter of `s` that is not smaller. */
  function Insert(c: char, s: seq<char>): (r: seq<char>)
    ensures multiset(r) == multiset(s) + multiset{c} && |r| == |s| + 1
  {
    if s == [] then [c]
    else if c <= s[0] then [c] + s
    else
      assert s == [s[0]] + s[1..];
      [s[0]] + Insert(c, s[1..])
  }

  /** Inserting into a sorted string keeps it sorted. */
  lemma {:induction false} InsertSorted(c: char, s: seq<char>)
    requires Sorted(s)
    ensures Sorted(Insert(c, s))
  {
    if s != [] && c > s[0] {
      var rest := s[1..];
      var tail := Insert(c, rest);
      InsertSorted(c, rest);
      forall k | 0 <= k < |tail|
        ensures s[0] <= tail[k]
      {
        assert tail[k] in multiset(tail);
        if tail[k] != c {
          assert tail[k] in rest;
        }
      }
      ConsSorted(s[0], tail);
    }
  }

  lemma ConsSorted(x: char, t: seq<char>)
    requires Sorted(t) && forall k :: 0 <= k < |t| ==> x <= t[k]
    ensures Sorted([x] + t)
  {
  }

  /** `chars.sort()`: the letters of `s` in ascending order. */
  function SortChars(s: seq<char>): (r: seq<char>)
    ensures Sorted(r) && multiset(r) == multiset(s) && |r| == |s|
  {
    if s == [] then []
    else
      assert s == [s[0]] + s[1..];
      var rest := SortChars(s[1..]);
      InsertSorted(s[0], rest);
      Insert(s[0], rest)
  }

  /** Strictly increasing letters. */
  predicate Increasing(s: seq<char>)
  {
    forall j, k :: 0 <= j < k < |s| ==> s[j] < s[k]
  }

  /** The letters of a list of nodes strictly increase. */
  predicate Ascending(q: seq<Node>)
  {
    Increasing(Letters(q))
  }

  /** Every node is a leaf that holds the count of its letter in `m`, which is at least one. */
  ghost predicate Counted(q: seq<Node>, m: multiset<char>)
  {
    forall k :: 0 <= k < |q| ==> q[k].Leaf? && q[k].freq == m[q[k].letter] >= 1
  }

  /** `s` and `t` contain the same letters. */
  ghost predicate Covers(s: seq<char>, t: seq<char>)
  {
    forall c :: c in s <==> c in t
  }

  /**
   * What `freq_count` returns for `text`: one leaf per distinct letter, in
   * strictly ascending letter order, each holding the number of times its
   * letter occurs, which is at least one; the frequencies add up to the
   * length of the text.
   */
  ghost predicate FrequencyList(freq: seq<Node>, text: seq<char>)
  {
    Counted(freq, multiset(text)) && Ascending(freq) && Covers(text, Letters(freq)) && QueueWeight(freq) == |text|
  }

  /**
   * The state of the counting loop: the leaves pushed so far, the letter of
   * the current run and its length.
   */
  datatype Tally = Tally(done: seq<Node>, prev: char, freq: int)
  {
    /** The list `freq_count` returns from this state, after pushing the current run. */
    function Leaves(): seq<Node>
    {
      done + [Leaf(prev, freq)]
    }
  }

  /**
   * The loop state after counting a non-empty string letter by letter: the
   * next letter either continues the current run or pushes it and starts a
   * new run of length 1.
   */
  function Count(s: seq<char>): (t: Tally)
    requires |s| >= 1
    ensures t.prev == s[|s| - 1] && 1 <= t.freq <= |s|
    decreases |s|
  {
    if |s| == 1 then Tally([], s[0], 1)
    else
      var t := Count(s[..|s| - 1]);
      var c := s[|s| - 1];
      if c == t.prev then Tally(t.done, t.prev, t.freq + 1)
      else Tally(t.done + [Leaf(t.prev, t.freq)], c, 1)
  }

  lemma IncreasingSnoc(s: seq<char>, c: char)
    requires Increasing(s) && (s == [] || s[|s| - 1] < c)
    ensures Increasing(s + [c])
  {
  }

  /** Counts of letters other than `x` do not change when `x` is added. */
  lemma CountedKeep(q: seq<Node>, m: multiset<char>, x: char)
    requires Counted(q, m) && forall k :: 0 <= k < |q| ==> q[k].Letter() < x
    ensures Counted(q, m + multiset{x})
  {
  }

  lemma CountedSnoc(q: seq<Node>, m: multiset<char>, c: char)
    requires Counted(q, m) && m[c] >= 1
    ensures Counted(q + [Leaf(c, m[c])], m)
  {
  }

  lemma CountedSplit(q: seq<Node>, x: Node, m: multiset<char>)
    requires Counted(q + [x], m)
    ensures Counted(q, m) && x.Leaf? && x.freq == m[x.letter] >= 1
  {
    assert forall k :: 0 <= k < |q| ==> (q + [x])[k] == q[k];
    assert (q + [x])[|q|] == x;
  }

  lemma CoversAdd(s: seq<char>, t: seq<char>, c: char)
    requires Covers(s, t)
    ensures Covers(s + [c], t + [c])
    ensures c in t ==> Covers(s + [c], t)
  {
  }

  lemma PrefixStep(chars: seq<char>, i: nat)
    requires i < |chars|
    ensures |chars[..i + 1]| == i + 1 && chars[..i + 1][..i] == chars[..i] && chars[..i + 1][i] == chars[i]
  {
  }

  /** The last letter of the current letters is the current run's; those of `done` are smaller. */
  lemma RunLetters(done: seq<Node>, prev: char, freq: int)
    requires Increasing(Letters(done + [Leaf(prev, freq)]))
    ensures Letters(done + [Leaf(prev, freq)]) == Letters(done) + [prev]
    ensures forall k :: 0 <= k < |done| ==> done[k].Letter() < prev
  {
    QueueSnoc(done, Leaf(prev, freq));
    var all := Letters(done) + [prev];
    assert forall k :: 0 <= k < |done| ==> all[k] == done[k].Letter();
    assert all[|done|] == prev;
  }

  /** A letter equal to the current run's letter continues that run. */
  lemma RunSame(p: seq<char>, done: seq<Node>, prev: char, freq: int)
    requires FrequencyList(done + [Leaf(prev, freq)], p)
    ensures FrequencyList(done + [Leaf(prev, freq + 1)], p + [prev])
  {
    var m := multiset(p);
    assert multiset(p + [prev]) == m + multiset{prev};
    CountedSplit(done, Leaf(prev, freq), m);
    RunLetters(done, prev, freq);
    QueueSnoc(done, Leaf(prev, freq));
    QueueSnoc(done, Leaf(prev, freq + 1));
    CountedKeep(done, m, prev);
    CountedSnoc(done, m + multiset{prev}, prev);
    CoversAdd(p, Letters(done) + [prev], prev);
  }

  /** A letter greater than the current run's letter closes that run and starts a new one. */
  lemma RunNew(p: seq<char>, done: seq<Node>, prev: char, freq: int, c: char)
    requires FrequencyList(done + [Leaf(prev, freq)], p) && prev < c
    ensures FrequencyList(done + [Leaf(prev, freq)] + [Leaf(c, 1)], p + [c])
  {
    var m := multiset(p);
    assert multiset(p + [c]) == m + multiset{c};
    RunLetters(done, prev, freq);
    var done2 := done + [Leaf(prev, freq)];
    assert forall k :: 0 <= k < |done2| ==> Letters(done2)[k] < c;
    assert c !in Letters(done2);
    QueueSnoc(done2, Leaf(c, 1));
    IncreasingSnoc(Letters(done2), c);
    CountedKeep(done2, m, c);
    CountedSnoc(done2, m + multiset{c}, c);
    CoversAdd(p, Letters(done2), c);
  }

  /** One more letter advances the count by one step. */
  lemma CountSnoc(p: seq<char>, c: char)
    requires |p| >= 1
    ensures var t := Count(p);
      Count(p + [c]) == if c == t.prev then Tally(t.done, t.prev, t.freq + 1)
                        else Tally(t.done + [Leaf(t.prev, t.freq)], c, 1)
  {
    assert (p + [c])[..|p|] == p;
  }

  /** The runs of a sorted string are its frequency list. */
  lemma {:induction false} CountFrequency(s: seq<char>)
    requires Sorted(s) && |s| >= 1
    ensures FrequencyList(Count(s).Leaves(), s)
    decreases |s|
  {
    if |s| == 1 {
      var x := Leaf(s[0], 1);
      QueueSingle(x);
      assert s == [s[0]];
      assert Count(s).Leaves() == [x];
      assert Letters([x]) == [s[0]];
    } else {
      var p := s[..|s| - 1];
      LastSplit(s);
      CountFrequency(p);
      CountNext(p, s[|s| - 1]);
    }
  }

  lemma LastSplit<T>(s: seq<T>)
    requires |s| >= 1
    ensures s == s[..|s| - 1] + [s[|s| - 1]]
  {
  }

  /** One more letter, not below the last, keeps the count a frequency list. */
  lemma CountNext(p: seq<char>, c: char)
    requires |p| >= 1 && p[|p| - 1] <= c
    requires FrequencyList(Count(p).Leaves(), p)
    ensures FrequencyList(Count(p + [c]).Leaves(), p + [c])
  {
    CountSnoc(p, c);
    Step(p, c, Count(p), Count(p + [c]));
  }

  /** One counting step from a state that is the frequency list so far. */
  lemma Step(p: seq<char>, c: char, t: Tally, t2: Tally)
    requires t.prev <= c && FrequencyList(t.Leaves(), p)
    requires t2 == if c == t.prev then Tally(t.done, t.prev, t.freq + 1)
                   else Tally(t.done + [Leaf(t.prev, t.freq)], c, 1)
    ensures FrequencyList(t2.Leaves(), p + [c])
  {
    if c == t.prev {
      RunSame(p, t.done, t.prev, t.freq);
    } else {
      RunNew(p, t.done, t.prev, t.freq, c);
    }
  }

  /** The frequency list depends only on the multiset of letters. */
  lemma FrequencyListPerm(q: seq<Node>, s: seq<char>, t: seq<char>)
    requires multiset(s) == multiset(t) && FrequencyList(q, s)
    ensures FrequencyList(q, t)
  {
    assert |s| == |multiset(s)|;
    forall c
      ensures c in s <==> c in t
    {
      assert c in s <==> c in multiset(s);
      assert c in t <==> c in multiset(t);
    }
  }

  /**
   * `freq_count`: sort the letters, then walk them keeping the current
   * letter `prev` and its count `freq`; on a new letter push a leaf for
   * `prev` and start counting the new one, and push the last run at the end.
   * `chars.first().expect(...)` panics on empty text, so the text must not
   * be empty.
   */
  method FreqCount(text: seq<char>) returns (freqVec: seq<Node>)
    requires |text| >= 1
    ensures freqVec == Count(SortChars(text)).Leaves()
    ensures FrequencyList(freqVec, text)
  {
    freqVec := [];
    var chars := SortChars(text);
    var freq := 0;
    var prev := chars[0];
    for i := 0 to |chars|
      invariant i == 0 ==> freq == 0 && freqVec == [] && prev == chars[0]
      invariant i > 0 ==> Count(chars[..i]) == Tally(freqVec, prev, freq)
    {
      var c := chars[i];
      CountStep(chars, i, Tally(freqVec, prev, freq));
      if c == prev {
        freq := freq + 1;
      } else {
        freqVec := freqVec + [Leaf(prev, freq)];
        freq := 1;
        prev := c;
      }
    }
    CountAll(chars, Tally(freqVec, prev, freq));
    CountSorted(text);
    freqVec := freqVec + [Leaf(prev, freq)];
  }

  /** One letter of the counting loop, from the state before it. */
  lemma CountStep(chars: seq<char>, i: nat, t: Tally)
    requires i < |chars|
    requires i == 0 ==> t == Tally([], chars[0], 0)
    requires i > 0 ==> Count(chars[..i]) == t
    ensures Count(chars[..i + 1]) ==
      if chars[i] == t.prev then Tally(t.done, t.prev, t.freq + 1)
      else Tally(t.done + [Leaf(t.prev, t.freq)], chars[i], 1)
  {
    PrefixStep(chars, i);
    if i > 0 {
      CountSnoc(chars[..i], chars[i]);
    }
  }

  lemma CountAll(s: seq<char>, t: Tally)
    requires |s| >= 1 && Count(s[..|s|]) == t
    ensures Count(s) == t
  {
    assert s[..|s|] == s;
  }

  /** Counting the sorted letters of a text gives its frequency list. */
  lemma CountSorted(text: seq<char>)
    requires |text| >= 1
    ensures FrequencyList(Count(SortChars(text)).Leaves(), text)
  {
    var chars := SortChars(text);
    CountFrequency(chars);
    FrequencyListPerm(Count(chars).Leaves(), chars, text);
  }

  /** Letters that strictly ascend within `lo .. 127` number at most `128 - lo`. */
  lemma {:induction false} AscendingBound(q: seq<Node>, lo: int)
    requires Ascending(q) && lo <= 128
    requires forall k :: 0 <= k < |q| ==> lo <= q[k].Letter() as int < 128
    ensures |q| <= 128 - lo
    decreases |q|
  {
    if q != [] {
      var rest := q[1..];
      var s, t := Letters(q), Letters(rest);
      assert forall k :: 0 <= k < |rest| ==> t[k] == s[k + 1];
      assert forall k :: 0 <= k < |rest| ==> s[0] < t[k];
      AscendingBound(rest, q[0].Letter() as int + 1);
    }
  }
}
