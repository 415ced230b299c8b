/**
 * The bounded min-heap of the completion search: two parallel arrays hold
 * the words and their importances, the first `size` slots form a binary
 * min-heap on importance, and a word is never held twice. Once the heap is
 * full, a new word displaces the root only if it is strictly more important,
 * so the heap keeps the most important words it has been offered.
 *
 * The ghost sequence `Items` pairs each live slot's word with its
 * importance; the heap order, the distinctness of the words and the
 * minimality of the root are stated on it.
 */
module MinHeaps {
  import opened Options

  type Item = (string, int)

  function Parent(i: int): int { (i - 1) / 2 }

  function Left(i: int): int { 2 * i + 1 }

  function Right(i: int): int { 2 * i + 2 }

  /** `s` with the entries at `i` and `j` exchanged. */
  function Swapped<T>(s: seq<T>, i: int, j: int): (r: seq<T>)
    requires 0 <= i < |s| && 0 <= j < |s|
    ensures |r| == |s| && r[i] == s[j] && r[j] == s[i]
    ensures forall k :: 0 <= k < |s| && k != i && k != j ==> r[k] == s[k]
  {
    s[i := s[j]][j := s[i]]
  }

  /** Every entry is at least as important as its parent. */
  ghost predicate HeapOrdered(s: seq<Item>) {
    forall k :: 0 < k < |s| ==> s[Parent(k)].1 <= s[k].1
  }

  /** No word occurs twice. */
  ghost predicate Distinct(s: seq<Item>) {
    forall i, j :: Apart(s, i, j)
  }

  ghost predicate Apart(s: seq<Item>, i: int, j: int) {
    0 <= i < j < |s| ==> s[i].0 != s[j].0
  }

  /** The words of `s`. */
  ghost function Words(s: seq<Item>): (r: set<string>)
    ensures forall w :: w in r <==> exists k :: 0 <= k < |s| && s[k].0 == w
  {
    set k | 0 <= k < |s| :: s[k].0
  }

  /** The state during sift-up: ordered except possibly between `c` and its
      parent, and `c`'s parent is no more important than `c`'s children. */
  ghost predicate UpExcept(s: seq<Item>, c: int) {
    (forall k :: 0 < k < |s| && k != c ==> s[Parent(k)].1 <= s[k].1) &&
    (0 < c < |s| ==> forall k :: 0 < k < |s| && Parent(k) == c ==> s[Parent(c)].1 <= s[k].1)
  }

  /** The state during heapify: ordered except possibly between `i` and its
      children, and `i`'s parent is no more important than `i`'s children. */
  ghost predicate DownExcept(s: seq<Item>, i: int) {
    (forall k :: 0 < k < |s| && Parent(k) != i ==> s[Parent(k)].1 <= s[k].1) &&
    (0 < i < |s| ==> forall k :: 0 < k < |s| && Parent(k) == i ==> s[Parent(i)].1 <= s[k].1)
  }

  /** No entry of `s` is less important than `v`. */
  ghost predicate AtMost(v: int, s: seq<Item>) {
    forall k :: 0 <= k < |s| ==> v <= s[k].1
  }

  /** The root of a heap-ordered sequence is an entry of least importance. */
  lemma RootIsMinimum(s: seq<Item>)
    requires HeapOrdered(s) && |s| > 0
    ensures AtMost(s[0].1, s)
  {
    forall k | 0 <= k < |s| ensures s[0].1 <= s[k].1 {
      RootBelow(s, k);
    }
  }

  lemma {:induction false} RootBelow(s: seq<Item>, k: int)
    requires HeapOrdered(s) && 0 <= k < |s|
    ensures s[0].1 <= s[k].1
    decreases k
  {
    if k > 0 {
      RootBelow(s, Parent(k));
    }
  }

  lemma SwapKeepsMultiset<T>(s: seq<T>, i: int, j: int)
    requires 0 <= i < |s| && 0 <= j < |s|
    ensures multiset(Swapped(s, i, j)) == multiset(s)
  {
    var t := s[i := s[j]];
    assert multiset(t) == multiset(s) - multiset{s[i]} + multiset{s[j]};
  }

  lemma SwapKeepsDistinct(s: seq<Item>, i: int, j: int)
    requires 0 <= i < |s| && 0 <= j < |s| && Distinct(s)
    ensures Distinct(Swapped(s, i, j))
  {
    var t := Swapped(s, i, j);
    forall a, b ensures Apart(t, a, b) {
      if 0 <= a < b < |t| {
        var a' := if a == i then j else if a == j then i else a;
        var b' := if b == i then j else if b == j then i else b;
        assert t[a] == s[a'] && t[b] == s[b'];
        assert if a' < b' then Apart(s, a', b') else Apart(s, b', a');
      }
    }
  }

  /** One exchange of the sift-up moves the exception to the parent. */
  lemma SiftUpStep(s: seq<Item>, c: int)
    requires 0 < c < |s| && UpExcept(s, c) && s[c].1 < s[Parent(c)].1
    ensures UpExcept(Swapped(s, c, Parent(c)), Parent(c))
  {
    var p := Parent(c);
    var t := Swapped(s, c, p);
    forall k | 0 < k < |t| && k != p ensures t[Parent(k)].1 <= t[k].1 {
      if k == c {
      } else if Parent(k) == c {
        assert t[k] == s[k];
      } else if Parent(k) == p {
        assert t[k] == s[k];
      } else if k != p {
        assert t[k] == s[k] && t[Parent(k)] == s[Parent(k)];
      }
    }
    if 0 < p {
      forall k | 0 < k < |t| && Parent(k) == p ensures t[Parent(p)].1 <= t[k].1 {
        assert t[Parent(p)] == s[Parent(p)];
        if k != c {
          assert t[k] == s[k];
        }
      }
    }
  }

  /** The sift-up stops once the exception is resolved. */
  lemma SiftUpDone(s: seq<Item>, c: int)
    requires 0 <= c < |s| && UpExcept(s, c) && (c == 0 || s[Parent(c)].1 <= s[c].1)
    ensures HeapOrdered(s)
  {
  }

  /** The heapify's choice: `m` is the least important of `i` and its
      children. Exchanging `i` with `m` moves the exception down to `m`. */
  lemma HeapifyStep(s: seq<Item>, i: int, m: int)
    requires 0 <= i < |s| && DownExcept(s, i)
    requires m == Left(i) || m == Right(i)
    requires m < |s| && s[m].1 < s[i].1
    requires Left(i) < |s| ==> s[m].1 <= s[Left(i)].1
    requires Right(i) < |s| ==> s[m].1 <= s[Right(i)].1
    ensures DownExcept(Swapped(s, i, m), m)
  {
    var t := Swapped(s, i, m);
    assert Parent(m) == i;
    forall k | 0 < k < |t| && Parent(k) != m ensures t[Parent(k)].1 <= t[k].1 {
      if k == m {
      } else if Parent(k) == i {
        assert k == Left(i) || k == Right(i);
        assert t[k] == s[k];
      } else if k == i {
        assert t[Parent(k)] == s[Parent(k)];
      } else {
        assert t[k] == s[k] && t[Parent(k)] == s[Parent(k)];
      }
    }
    forall k | 0 < k < |t| && Parent(k) == m ensures t[Parent(m)].1 <= t[k].1 {
      assert t[k] == s[k];
    }
  }

  /** The heapify stops once `i` is no more important than its children. */
  lemma HeapifyDone(s: seq<Item>, i: int)
    requires 0 <= i && DownExcept(s, i)
    requires Left(i) < |s| ==> s[i].1 <= s[Left(i)].1
    requires Right(i) < |s| ==> s[i].1 <= s[Right(i)].1
    ensures HeapOrdered(s)
  {
    forall k | 0 < k < |s| ensures s[Parent(k)].1 <= s[k].1 {
      if Parent(k) == i {
        assert k == Left(i) || k == Right(i);
      }
    }
  }

  class MinHeap {
    const heap: array<string>
    const importance: array<int>
    const capacity: int
    var size: int
    /** The live slots as (word, importance) pairs. */
    ghost var Items: seq<Item>

    ghost predicate Valid()
      reads this, heap, importance
    {
      Synced() && HeapOrdered(Items) && Distinct(Items)
    }

    /** The arrays hold `Items` in their first `size` slots. */
    ghost predicate Synced()
      reads this, heap, importance
    {
      1 <= capacity && heap.Length == capacity && importance.Length == capacity &&
      0 <= size <= capacity && |Items| == size &&
      forall k {:trigger Items[k]} :: 0 <= k < size ==> Items[k] == (heap[k], importance[k])
    }

    /** An empty heap for at most `capacity` words. */
    constructor (capacity: int)
      requires capacity >= 1
      ensures Valid() && fresh(heap) && fresh(importance)
      ensures this.capacity == capacity && size == 0 && Items == []
    {
      this.capacity := capacity;
      size := 0;
      heap := new string[capacity];
      importance := new int[capacity];
      Items := [];
    }

    /** Exchanges two live slots, word and importance together. */
    method Swap(i: int, j: int)
      requires Synced() && 0 <= i < size && 0 <= j < size
      modifies this, heap, importance
      ensures Synced() && size == old(size)
      ensures Items == Swapped(old(Items), i, j)
      ensures multiset(Items) == multiset(old(Items))
      ensures Distinct(old(Items)) ==> Distinct(Items)
    {
      heap[i], heap[j] := heap[j], heap[i];
      importance[i], importance[j] := importance[j], importance[i];
      Items := Swapped(Items, i, j);
      SwapKeepsMultiset(old(Items), i, j);
      if Distinct(old(Items)) {
        SwapKeepsDistinct(old(Items), i, j);
      }
    }

    /** Whether a live slot holds `word`. */
    method Contains(word: string) returns (b: bool)
      requires Synced()
      ensures b <==> word in Words(Items)
    {
      var i := 0;
      while i < size
        invariant 0 <= i <= size
        invariant forall k :: 0 <= k < i ==> Items[k].0 != word
      {
        if heap[i] == word {
          assert Items[i].0 == word;
          return true;
        }
        i := i + 1;
      }
      return false;
    }

    /** Offers `word` with importance `wordImportance`: a word already held
        is ignored; otherwise it is added while there is room, and once the
        heap is full it replaces the root only if strictly more important. */
    method Insert(word: string, wordImportance: int)
      requires Valid()
      modifies this, heap, importance
      ensures Valid()
      ensures word in Words(old(Items)) ==> Items == old(Items)
      ensures word !in Words(old(Items)) && old(size) < capacity ==>
        size == old(size) + 1 && multiset(Items) == multiset(old(Items)) + multiset{(word, wordImportance)}
      ensures word !in Words(old(Items)) && old(size) == capacity && wordImportance > old(Items)[0].1 ==>
        size == old(size) &&
        multiset(Items) == multiset(old(Items)) - multiset{old(Items)[0]} + multiset{(word, wordImportance)}
      ensures word !in Words(old(Items)) && old(size) == capacity && wordImportance <= old(Items)[0].1 ==>
        Items == old(Items)
    {
      var present := Contains(word);
      if present {
        return;
      }
      if size < capacity {
        Push(word, wordImportance);
      } else if wordImportance > importance[0] {
        ReplaceRoot(word, wordImportance);
      }
    }

    /** Adds a new word in the first free slot and sifts it up. */
    method Push(word: string, wordImportance: int)
      requires Valid() && size < capacity && word !in Words(Items)
      modifies this, heap, importance
      ensures Valid() && size == old(size) + 1
      ensures multiset(Items) == multiset(old(Items)) + multiset{(word, wordImportance)}
    {
      heap[size] := word;
      importance[size] := wordImportance;
      AppendStep(Items, (word, wordImportance));
      Items := Items + [(word, wordImportance)];
      var current := size;
      size := size + 1;
      while current > 0 && importance[current] < importance[Parent(current)]
        invariant Synced() && size == old(size) + 1 && 0 <= current < size
        invariant UpExcept(Items, current) && Distinct(Items)
        invariant multiset(Items) == multiset(old(Items)) + multiset{(word, wordImportance)}
      {
        SiftUpStep(Items, current);
        Swap(current, Parent(current));
        current := Parent(current);
      }
      SiftUpDone(Items, current);
    }

    /** Puts a new word in the root's place and heapifies from the root. */
    method ReplaceRoot(word: string, wordImportance: int)
      requires Valid() && size == capacity && word !in Words(Items)
      modifies this, heap, importance
      ensures Valid() && size == old(size)
      ensures multiset(Items) == multiset(old(Items)) - multiset{old(Items)[0]} + multiset{(word, wordImportance)}
    {
      heap[0] := word;
      importance[0] := wordImportance;
      NewRootStep(Items, (word, wordImportance));
      Items := Items[0 := (word, wordImportance)];
      Heapify(0);
    }

    /** Restores the heap order below `i`, the one place where it may fail. */
    method Heapify(i: int)
      requires Synced() && Distinct(Items) && 0 <= i && DownExcept(Items, i)
      modifies this, heap, importance
      ensures Valid() && size == old(size)
      ensures multiset(Items) == multiset(old(Items))
      decreases size - i
    {
      var left, right := Left(i), Right(i);
      var smallest := i;
      if left < size && importance[left] < importance[smallest] {
        smallest := left;
      }
      if right < size && importance[right] < importance[smallest] {
        smallest := right;
      }
      if smallest != i {
        HeapifyStep(Items, i, smallest);
        Swap(i, smallest);
        Heapify(smallest);
      } else {
        HeapifyDone(Items, i);
      }
    }

    /** Removes and returns a word of least importance; None on an empty
        heap. */
    method RemoveMin() returns (r: Option<string>)
      requires Valid()
      modifies this, heap, importance
      ensures Valid()
      ensures old(size) == 0 ==> r == None && Items == old(Items)
      ensures old(size) > 0 ==>
        r == Some(old(Items)[0].0) && size == old(size) - 1 &&
        multiset(Items) == multiset(old(Items)) - multiset{old(Items)[0]} &&
        AtMost(old(Items)[0].1, old(Items))
    {
      if size == 0 {
        return None;
      }
      r := Some(heap[0]);
      DropRoot();
    }

    /** Moves the last entry into the root's place, shrinks the heap by one
        and heapifies from the root. */
    method DropRoot()
      requires Valid() && size > 0
      modifies this, heap, importance
      ensures Valid() && size == old(size) - 1
      ensures multiset(Items) == multiset(old(Items)) - multiset{old(Items)[0]}
      ensures AtMost(old(Items)[0].1, old(Items))
    {
      RemoveRootStep(Items);
      var last := size - 1;
      heap[0] := heap[last];
      importance[0] := importance[last];
      Items := Items[0 := Items[last]][..last];
      size := last;
      Heapify(0);
    }

    /** The `min(k, size)` least important words, removed from the heap one
        by one, so in non-decreasing importance. */
    method GetTopKWords(k: int) returns (result: array<string>, ghost removed: seq<Item>)
      requires Valid() && k >= 0
      modifies this, heap, importance
      ensures Valid() && fresh(result)
      ensures result.Length == |removed| == (if k < old(size) then k else old(size))
      ensures WordsOf(result[..], removed)
      ensures NonDecreasing(removed)
      ensures multiset(removed) + multiset(Items) == multiset(old(Items))
      ensures forall i :: 0 <= i < |removed| ==> AtMost(removed[i].1, Items)
    {
      var n := if k < size then k else size;
      var words;
      words, removed := RemoveMany(n);
      result := new string[n](j requires 0 <= j < n => words[j]);
      assert result[..] == words;
      SortedBelowRemaining(removed, Items);
    }

    /** Removes the root `n` times, returning the removed words in order. */
    method RemoveMany(n: int) returns (words: seq<string>, ghost removed: seq<Item>)
      requires Valid() && 0 <= n <= size
      modifies this, heap, importance
      ensures Valid() && |removed| == n && size == old(size) - n
      ensures WordsOf(words, removed) && NonDecreasing(removed)
      ensures multiset(removed) + multiset(Items) == multiset(old(Items))
      ensures n > 0 ==> AtMost(removed[n - 1].1, Items)
    {
      words := [];
      removed := [];
      while |words| < n
        invariant |words| <= n && |removed| == |words| && size == old(size) - |words|
        invariant Valid()
        invariant WordsOf(words, removed)
        invariant NonDecreasing(removed)
        invariant multiset(removed) + multiset(Items) == multiset(old(Items))
        invariant |removed| > 0 ==> AtMost(removed[|removed| - 1].1, Items)
      {
        ghost var before := Items;
        var w := RemoveMin();
        TopKStep(removed, before, Items, multiset(old(Items)));
        WordsOfAppend(words, removed, before[0]);
        words := words + [w.value];
        removed := removed + [before[0]];
      }
    }
  }

  /** What removing the root does to a heap: the root is an entry of least
      importance, and with the last entry in its place and the last slot
      dropped, the rest is a heap again once heapified from the root. */
  lemma RemoveRootStep(s: seq<Item>)
    requires |s| > 0 && HeapOrdered(s) && Distinct(s)
    ensures var u := s[0 := s[|s| - 1]][..|s| - 1];
      DownExcept(u, 0) && Distinct(u) && multiset(u) == multiset(s) - multiset{s[0]}
    ensures AtMost(s[0].1, s)
  {
    RootIsMinimum(s);
    var n := |s| - 1;
    var u := s[0 := s[n]][..n];
    forall k | 0 < k < |u| && Parent(k) != 0 ensures u[Parent(k)].1 <= u[k].1 {
      assert u[k] == s[k] && u[Parent(k)] == s[Parent(k)];
    }
    forall a, b ensures Apart(u, a, b) {
      if 0 <= a < b < |u| {
        var a' := if a == 0 then n else a;
        assert u[a] == s[a'] && u[b] == s[b];
        assert if a' < b then Apart(s, a', b) else Apart(s, b, a');
      }
    }
    if n == 0 {
      assert u == [];
    } else {
      assert s == [s[0]] + s[1..n] + [s[n]];
      assert u == [s[n]] + s[1..n];
    }
  }

  /** Appending a word not yet held leaves the sift-up's exception at the
      new entry. */
  lemma AppendStep(s: seq<Item>, x: Item)
    requires HeapOrdered(s) && Distinct(s) && x.0 !in Words(s)
    ensures UpExcept(s + [x], |s|) && Distinct(s + [x])
  {
    var t := s + [x];
    forall k | 0 < k < |t| && k != |s| ensures t[Parent(k)].1 <= t[k].1 {
      assert t[k] == s[k] && t[Parent(k)] == s[Parent(k)];
    }
    forall a, b ensures Apart(t, a, b) {
      if 0 <= a < b < |t| {
        assert t[a] == s[a];
        if b < |s| {
          assert t[b] == s[b] && Apart(s, a, b);
        }
      }
    }
  }

  /** Overwriting the root with a word not yet held leaves the heapify's
      exception at the root. */
  lemma NewRootStep(s: seq<Item>, x: Item)
    requires HeapOrdered(s) && Distinct(s) && |s| > 0 && x.0 !in Words(s)
    ensures DownExcept(s[0 := x], 0) && Distinct(s[0 := x])
    ensures multiset(s[0 := x]) == multiset(s) - multiset{s[0]} + multiset{x}
  {
    var t := s[0 := x];
    forall k | 0 < k < |t| && Parent(k) != 0 ensures t[Parent(k)].1 <= t[k].1 {
      assert t[k] == s[k] && t[Parent(k)] == s[Parent(k)];
    }
    forall a, b ensures Apart(t, a, b) {
      if 0 <= a < b < |t| {
        assert t[b] == s[b];
        if a > 0 {
          assert t[a] == s[a] && Apart(s, a, b);
        }
      }
    }
  }

  /** `words` lists the words of `items`, in order. */
  ghost predicate WordsOf(words: seq<string>, items: seq<Item>) {
    |words| == |items| && forall j :: 0 <= j < |words| ==> words[j] == items[j].0
  }

  lemma WordsOfAppend(words: seq<string>, items: seq<Item>, x: Item)
    requires WordsOf(words, items)
    ensures WordsOf(words + [x.0], items + [x])
  {
  }

  /** Importances never decrease along `s`. */
  ghost predicate NonDecreasing(s: seq<Item>) {
    forall a, b :: 0 <= a < b < |s| ==> s[a].1 <= s[b].1
  }

  /** One removal of the top-k loop: the removed root extends the removed
      entries in order, and all of them stay below what remains. */
  lemma TopKStep(removed: seq<Item>, before: seq<Item>, after: seq<Item>, all: multiset<Item>)
    requires NonDecreasing(removed) && multiset(removed) + multiset(before) == all
    requires |removed| > 0 ==> AtMost(removed[|removed| - 1].1, before)
    requires |before| > 0 && multiset(after) == multiset(before) - multiset{before[0]}
    requires AtMost(before[0].1, before)
    ensures NonDecreasing(removed + [before[0]])
    ensures multiset(removed + [before[0]]) + multiset(after) == all
    ensures AtMost(before[0].1, after)
  {
    var least := before[0];
    forall j | 0 <= j < |after| ensures least.1 <= after[j].1 {
      assert after[j] in multiset(after);
      var i :| 0 <= i < |before| && before[i] == after[j];
    }
    var t := removed + [least];
    forall a, b | 0 <= a < b < |t| ensures t[a].1 <= t[b].1 {
      if b == |removed| {
        assert removed[|removed| - 1].1 <= least.1;
        assert t[a] == removed[a];
      } else {
        assert t[a] == removed[a] && t[b] == removed[b];
      }
    }
    assert multiset(before) == multiset(after) + multiset{least};
  }

  /** A non-decreasing sequence whose last entry is below all of `rest` has
      every entry below all of `rest`. */
  lemma SortedBelowRemaining(removed: seq<Item>, rest: seq<Item>)
    requires NonDecreasing(removed)
    requires |removed| > 0 ==> AtMost(removed[|removed| - 1].1, rest)
    ensures forall i :: 0 <= i < |removed| ==> AtMost(removed[i].1, rest)
  {
  }
}
