/**
 * The completion search: a bounded min-heap of capacity `k` is offered, in
 * order, every word the prefix collector, the exact-length collector and the
 * approximate collector keep. A word the heap does not end up holding was
 * either never a candidate or was beaten: the heap is full and every word in
 * it is at least as important.
 */
module QueryEngine {
  import opened TriePaths
  import opened HashTrie
  import opened MinHeaps

  /** The words the three collectors offer the heap for `word`, in the order
      they offer them. */
  ghost function Candidates(kids: Kids, wordLength: seq<int>, importance: seq<int>, word: string):
    (r: seq<Item>)
    requires WellFormed(kids)
  {
    var all := Visit(kids, 0, []);
    Select(StartsWith(word), all, wordLength, importance) +
    Select(OfLength(|word|), all, wordLength, importance) +
    Select(Near(word), all, wordLength, importance)
  }

  /** Entries with the same word carry the same importance. */
  ghost predicate Consistent(s: seq<Item>) {
    forall i, j :: 0 <= i < |s| && 0 <= j < |s| && s[i].0 == s[j].0 ==> s[i].1 == s[j].1
  }

  /** After an offer of `c`, it is held, or it lost: the heap is full and
      holds nothing less important than `c`. */
  ghost predicate Retained(c: Item, items: seq<Item>, capacity: int) {
    c in items || (|items| == capacity && AtMost(c.1, items))
  }

  /** Every candidate is a word of the trie offered with its own node's
      importance, whichever collector offers it. */
  lemma CandidateImportance(kids: Kids, wordLength: seq<int>, importance: seq<int>, word: string, x: Item)
    requires WellFormed(kids) && |wordLength| == |importance| == |kids|
    requires x in Candidates(kids, wordLength, importance, word)
    ensures Walk(kids, 0, x.0).Some? && x.1 == importance[Walk(kids, 0, x.0).value]
  {
    var all := Visit(kids, 0, []);
    if x in Select(StartsWith(word), all, wordLength, importance) {
      Collected(kids, wordLength, importance, StartsWith(word), x.0, x.1);
    } else if x in Select(OfLength(|word|), all, wordLength, importance) {
      Collected(kids, wordLength, importance, OfLength(|word|), x.0, x.1);
    } else {
      Collected(kids, wordLength, importance, Near(word), x.0, x.1);
    }
  }

  lemma CandidatesConsistent(kids: Kids, wordLength: seq<int>, importance: seq<int>, word: string)
    requires WellFormed(kids) && |wordLength| == |importance| == |kids|
    ensures Consistent(Candidates(kids, wordLength, importance, word))
  {
    var s := Candidates(kids, wordLength, importance, word);
    forall i, j | 0 <= i < |s| && 0 <= j < |s| && s[i].0 == s[j].0 ensures s[i].1 == s[j].1 {
      CandidateImportance(kids, wordLength, importance, word, s[i]);
      CandidateImportance(kids, wordLength, importance, word, s[j]);
    }
  }

  /** One offer of `x` to a heap holding `b`, leaving `a` as the heap's
      insertion promises, keeps every earlier offer retained and retains `x`. */
  lemma Offered(b: seq<Item>, a: seq<Item>, x: Item, capacity: int, all: seq<Item>)
    requires |b| <= capacity && |a| <= capacity
    requires |b| > 0 ==> AtMost(b[0].1, b)
    requires x in all && Consistent(all)
    requires forall k :: 0 <= k < |b| ==> b[k] in all
    requires x.0 in Words(b) ==> a == b
    requires x.0 !in Words(b) && |b| < capacity ==> multiset(a) == multiset(b) + multiset{x}
    requires x.0 !in Words(b) && |b| == capacity && 0 < |b| && x.1 > b[0].1 ==>
      multiset(a) == multiset(b) - multiset{b[0]} + multiset{x}
    requires x.0 !in Words(b) && |b| == capacity && 0 < |b| && x.1 <= b[0].1 ==> a == b
    requires |b| == capacity ==> 0 < |b|
    ensures forall c :: Retained(c, b, capacity) ==> Retained(c, a, capacity)
    ensures Retained(x, a, capacity)
    ensures forall k :: 0 <= k < |a| ==> a[k] in all
  {
    if x.0 in Words(b) {
      var k :| 0 <= k < |b| && b[k].0 == x.0;
      var i :| 0 <= i < |all| && all[i] == b[k];
      var j :| 0 <= j < |all| && all[j] == x;
      assert b[k] == x;
    } else if |b| < capacity {
      forall c | Retained(c, b, capacity) ensures Retained(c, a, capacity) {
        assert c in multiset(b);
        assert c in multiset(a);
      }
      assert x in multiset(a);
      forall k | 0 <= k < |a| ensures a[k] in all {
        assert a[k] in multiset(a);
        if a[k] != x {
          assert a[k] in multiset(b);
        }
      }
    } else if x.1 > b[0].1 {
      assert forall k :: 0 <= k < |a| ==> b[0].1 <= a[k].1 && a[k] in all by {
        forall k | 0 <= k < |a| ensures b[0].1 <= a[k].1 && a[k] in all {
          assert a[k] in multiset(a);
          if a[k] != x {
            assert a[k] in multiset(b);
          }
        }
      }
      assert |a| == |b| by {
        assert |multiset(a)| == |multiset(b)|;
      }
      forall c | Retained(c, b, capacity) ensures Retained(c, a, capacity) {
        if c in b && c != b[0] {
          assert c in multiset(b) - multiset{b[0]};
          assert c in multiset(a);
        } else if c in b {
          assert AtMost(c.1, a);
        } else {
          assert AtMost(c.1, a) by {
            assert c.1 <= b[0].1;
          }
        }
      }
      assert x in multiset(a);
    } else {
      assert AtMost(x.1, a);
    }
  }

  /** The completion search for `word`: the heap of capacity `k` after the
      three collectors have offered it their words, in their order. */
  method FindTopKWords(trie: Trie, word: string, k: int) returns (heap: MinHeap)
    requires trie.Valid() && k >= 1
    ensures fresh(heap) && heap.Valid() && heap.capacity == k
    ensures forall j :: 0 <= j < |heap.Items| ==>
      heap.Items[j] in Candidates(trie.kids, trie.wordLength, trie.importance, word)
    ensures forall c :: c in Candidates(trie.kids, trie.wordLength, trie.importance, word) ==>
      Retained(c, heap.Items, k)
  {
    heap := new MinHeap(k);
    var byPrefix := trie.Collect(StartsWith(word), 0, []);
    var byLength := trie.Collect(OfLength(|word|), 0, []);
    var near := trie.Collect(Near(word), 0, []);
    var offers := byPrefix + byLength + near;
    CandidatesConsistent(trie.kids, trie.wordLength, trie.importance, word);
    Offer(heap, offers);
  }

  /** Offers `offers` to an empty heap, one insertion after another. */
  method Offer(heap: MinHeap, offers: seq<Item>)
    requires heap.Valid() && heap.Items == [] && Consistent(offers)
    modifies heap, heap.heap, heap.importance
    ensures heap.Valid()
    ensures forall j :: 0 <= j < |heap.Items| ==> heap.Items[j] in offers
    ensures forall c :: c in offers ==> Retained(c, heap.Items, heap.capacity)
  {
    var i := 0;
    while i < |offers|
      invariant 0 <= i <= |offers|
      invariant heap.Valid()
      invariant forall j :: 0 <= j < i ==> Retained(offers[j], heap.Items, heap.capacity)
      invariant forall j :: 0 <= j < |heap.Items| ==> heap.Items[j] in offers
    {
      ghost var before := heap.Items;
      if |before| > 0 {
        RootIsMinimum(before);
      }
      heap.Insert(offers[i].0, offers[i].1);
      Offered(before, heap.Items, offers[i], heap.capacity, offers);
      i := i + 1;
    }
    forall c | c in offers ensures Retained(c, heap.Items, heap.capacity) {
      var j :| 0 <= j < |offers| && offers[j] == c;
    }
  }

  /** A word of the trie that one of the collectors keeps for `word` but that
      the finished heap does not hold was beaten: the heap is full and every
      word in it is at least as important. */
  lemma Beaten(kids: Kids, wordLength: seq<int>, importance: seq<int>, word: string,
               items: seq<Item>, k: int, w: string)
    requires WellFormed(kids) && |wordLength| == |importance| == |kids|
    requires forall c :: c in Candidates(kids, wordLength, importance, word) ==> Retained(c, items, k)
    requires Walk(kids, 0, w).Some?
    requires var n := Walk(kids, 0, w).value;
      Accepts(StartsWith(word), w, wordLength[n], importance[n]) ||
      Accepts(OfLength(|word|), w, wordLength[n], importance[n]) ||
      Accepts(Near(word), w, wordLength[n], importance[n])
    requires (w, importance[Walk(kids, 0, w).value]) !in items
    ensures |items| == k && AtMost(importance[Walk(kids, 0, w).value], items)
  {
    var n := Walk(kids, 0, w).value;
    var all := Visit(kids, 0, []);
    Collected(kids, wordLength, importance, StartsWith(word), w, importance[n]);
    Collected(kids, wordLength, importance, OfLength(|word|), w, importance[n]);
    Collected(kids, wordLength, importance, Near(word), w, importance[n]);
    assert (w, importance[n]) in Candidates(kids, wordLength, importance, word);
  }
}
