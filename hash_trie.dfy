/**
 * The trie whose nodes keep their children in a Robin Hood child table. The
 * word-completion application and the benchmarking trie share this node
 * layout and the recursive insertion; the first adds importance counters and
 * the three candidate collectors, the second printing and a memory estimate.
 *
 * Nodes live in an arena: node `n` has the child table `kids[n]`, given by
 * the key-to-child mapping the table stands for (the view that
 * `ChildTable.Search` and `ChildTable.Insert` are proved to implement), the
 * table capacity `caps[n]`, the word length `wordLength[n]` (0 when no word
 * ends there) and the importance counter `importance[n]`. The root is node 0.
 */
module HashTrie {
  import opened Options
  import opened RobinHood
  import opened TriePaths
  import opened Similarity

  /** The bytes the estimate charges for node `n`: its word length field, its
      table's slots of 12 bytes each and 12 bytes of table bookkeeping. */
  function NodeMem(caps: seq<int>, n: nat): int {
    if n < |caps| then 4 + 12 * caps[n] + 12 else 0
  }

  /** The estimate summed over the nodes of `xs`. */
  ghost function Mem(xs: seq<(string, nat)>, caps: seq<int>): (r: int) {
    if xs == [] then 0 else NodeMem(caps, xs[0].1) + Mem(xs[1..], caps)
  }

  lemma {:induction false} MemAppend(a: seq<(string, nat)>, b: seq<(string, nat)>, caps: seq<int>)
    ensures Mem(a + b, caps) == Mem(a, caps) + Mem(b, caps)
    decreases |a|
  {
    if a == [] {
      assert a + b == b;
    } else {
      assert (a + b)[0] == a[0] && (a + b)[1..] == a[1..] + b;
      MemAppend(a[1..], b, caps);
    }
  }

  /** With every capacity on the schedule 5 .. 29, each node costs between 76
      and 364 bytes. */
  lemma {:induction false} MemBounds(xs: seq<(string, nat)>, caps: seq<int>)
    requires forall x :: x in xs ==> x.1 < |caps|
    requires forall n :: 0 <= n < |caps| ==> InSchedule(caps[n])
    ensures 76 * |xs| <= Mem(xs, caps) <= 364 * |xs|
    decreases |xs|
  {
    if xs != [] {
      assert xs[0] in xs;
      forall x | x in xs[1..] ensures x.1 < |caps| {
        assert x in xs;
      }
      MemBounds(xs[1..], caps);
    }
  }

  /** A trie holding only its root, with an empty table of the initial
      capacity, is estimated at 76 bytes. */
  lemma FreshMemory()
    ensures Mem(Visit([map[]], 0, []), [InitialCapacity]) == 76
  {
    var kids: Kids := [map[]];
    assert VisitFrom(kids, 0, [], 'z' as int + 1) == [];
    VisitFromPast(kids, 0, [], 'a' as int);
    assert Visit(kids, 0, []) == [([], 0)];
  }

  /** The same split for the memory estimate. */
  lemma MemFromStep(kids: Kids, n: nat, prefix: string, code: int, caps: seq<int>)
    requires WellFormed(kids) && n < |kids| && 'a' as int <= code <= 'z' as int
    ensures var c := code as char;
      Mem(VisitFrom(kids, n, prefix, code), caps) ==
      (if c in kids[n] then Mem(Visit(kids, kids[n][c], prefix + [c]), caps) else 0) +
      Mem(VisitFrom(kids, n, prefix, code + 1), caps)
  {
    var c := code as char;
    if c in kids[n] {
      MemAppend(Visit(kids, kids[n][c], prefix + [c]), VisitFrom(kids, n, prefix, code + 1), caps);
    } else {
      assert VisitFrom(kids, n, prefix, code) == VisitFrom(kids, n, prefix, code + 1);
    }
  }

  /** How many of `words` are non-empty and lead from the root to the
      terminal node `n`. */
  ghost function Hits(kids: Kids, wordLength: seq<int>, words: seq<string>, n: nat): (r: nat)
    requires WellFormed(kids)
    ensures r <= |words|
    decreases |words|
  {
    if words == [] then 0
    else
      var w := words[|words| - 1];
      Hits(kids, wordLength, words[..|words| - 1], n) +
      (if w != [] && Walk(kids, 0, w) == Some(n) && n < |wordLength| && wordLength[n] > 0 then 1 else 0)
  }

  /** Only terminal nodes are ever credited. */
  lemma {:induction false} HitsOnlyTerminal(kids: Kids, wordLength: seq<int>, words: seq<string>, n: nat)
    requires WellFormed(kids) && (n >= |wordLength| || wordLength[n] <= 0)
    ensures Hits(kids, wordLength, words, n) == 0
    decreases |words|
  {
    if words != [] {
      HitsOnlyTerminal(kids, wordLength, words[..|words| - 1], n);
    }
  }

  /** Each occurrence of a word that ends at terminal node `n` credits it once. */
  lemma {:induction false} HitsRepeated(kids: Kids, wordLength: seq<int>, w: string, k: nat, n: nat)
    requires WellFormed(kids) && w != [] && Walk(kids, 0, w) == Some(n) && n < |wordLength| && wordLength[n] > 0
    ensures Hits(kids, wordLength, seq(k, _ => w), n) == k
    decreases k
  {
    if k > 0 {
      var ws := seq(k, _ => w);
      assert ws[..k - 1] == seq(k - 1, _ => w);
      HitsRepeated(kids, wordLength, w, k - 1, n);
    }
  }

  /** `next` is `prev` followed by zeros. */
  ghost predicate Grown(prev: seq<int>, next: seq<int>) {
    |prev| <= |next| && next[..|prev|] == prev && forall m :: |prev| <= m < |next| ==> next[m] == 0
  }

  lemma GrownTransitive(a: seq<int>, b: seq<int>, c: seq<int>)
    requires Grown(a, b) && Grown(b, c)
    ensures Grown(a, c)
  {
    assert c[..|a|] == c[..|b|][..|a|];
  }

  /** A walk breaks off at the first character without a child: once `u`
      leads to a node that lacks `c`, nothing beyond `u + [c]` is found. */
  lemma WalkStops(kids: Kids, n: nat, u: string, c: char, v: string)
    requires WellFormed(kids) && n < |kids| && Walk(kids, n, u).Some? && c !in kids[Walk(kids, n, u).value]
    ensures Walk(kids, n, u + [c] + v) == None
  {
    WalkAppend(kids, n, u, [c] + v);
    assert u + [c] + v == u + ([c] + v);
    assert ([c] + v)[0] == c;
  }

  class Trie {
    /** The children of each node, as the mapping its table stands for. */
    var kids: Kids
    /** The capacity of each node's table, which the growth schedule fixes
        from the number of its children. */
    var caps: seq<int>
    var wordLength: seq<int>
    var importance: seq<int>

    /** The arena is consistent: one entry per node in each field, a well
        formed shape, and each table's capacity the one the growth schedule
        gives for its number of children. */
    ghost predicate Shaped()
      reads this
    {
      |kids| == |caps| == |wordLength| == |importance| && WellFormed(kids) &&
      forall n :: 0 <= n < |caps| ==> caps[n] == CapacityFor(|kids[n]|)
    }

    /** A consistent arena that is a tree: every node but the root has
        exactly one parent. */
    ghost predicate Valid()
      reads this
    {
      Shaped() && Tree(kids)
    }

    /** A trie holding only the root, which has an empty table. */
    constructor ()
      ensures Valid()
      ensures kids == [map[]] && caps == [InitialCapacity] && wordLength == [0] && importance == [0]
    {
      CapacityForStep(0);
      kids := [map[]];
      caps := [InitialCapacity];
      wordLength := [0];
      importance := [0];
    }

    /** The node reached from `node` by the characters of `w` from `index` on;
        None once a character has no child, or when `node` is None. */
    function SearchNode(w: string, node: Option<nat>, index: nat): (r: Option<nat>)
      reads this
      requires Shaped() && index <= |w| && (node.Some? ==> node.value < |kids|)
      ensures r == if node.None? then None else Walk(kids, node.value, w[index..])
      decreases |w| - index
    {
      if node.None? || index == |w| then
        assert index == |w| ==> w[index..] == [];
        node
      else
        var n := node.value;
        var c := w[index];
        assert w[index..][0] == c && w[index..][1..] == w[index + 1..];
        SearchNode(w, if c in kids[n] then Some(kids[n][c]) else None, index + 1)
    }

    /** The child of `node` under `c`; when the table has none, a new empty
        node is appended and inserted into the table under `c`. */
    method Child(node: nat, c: char) returns (next: nat)
      requires Shaped() && node < |kids| && IsLower(c)
      modifies this
      ensures Shaped()
      ensures c in old(kids)[node] ==>
        next == old(kids)[node][c] && kids == old(kids) && caps == old(caps) &&
        wordLength == old(wordLength) && importance == old(importance)
      ensures c !in old(kids)[node] ==>
        (var m: map<char, nat> := old(kids)[node][c := next];
         next == old(|kids|) && kids == (old(kids) + [map[]])[node := m] &&
         caps == (old(caps) + [InitialCapacity])[node := CapacityAfterInsert(|old(kids)[node]|, old(caps)[node])] &&
         wordLength == old(wordLength) + [0] && importance == old(importance) + [0])
    {
      if c in kids[node] {
        next := kids[node][c];
        return;
      }
      next := |kids|;
      WellFormedGrow(kids);
      kids := kids + [map[]];
      caps := caps + [InitialCapacity];
      wordLength := wordLength + [0];
      importance := importance + [0];
      WellFormedLink(kids, node, c, next);
      CapacityForStep(|kids[node]|);
      caps := caps[node := CapacityAfterInsert(|kids[node]|, caps[node])];
      var m: map<char, nat> := kids[node][c := next];
      assert |m| == |kids[node]| + 1;
      kids := kids[node := m];
    }

    /** Makes the path of `w` from `index` on exist below `node`, creating a
        child only where the search finds none, and marks its end node with
        the length of `w`. */
    method InsertFrom(w: string, index: nat, node: nat)
      requires Shaped() && Lower(w) && index <= |w| && node < |kids|
      modifies this
      ensures Shaped()
      ensures kids == Graft(old(kids), node, w[index..])
      ensures Extends(old(kids), kids)
      ensures Marked(old(wordLength), wordLength, Walk(kids, node, w[index..]), |w|)
      ensures |kids| == old(|kids|) + (|w| - index - Depth(old(kids), node, w[index..]))
      ensures Grown(old(importance), importance)
      ensures old(Walk(kids, node, w[index..])).Some? ==> kids == old(kids) && caps == old(caps)
      decreases |w| - index
    {
      if index == |w| {
        assert w[index..] == [];
        wordLength := wordLength[node := |w|];
        return;
      }
      var c := w[index];
      var rest := w[index + 1..];
      assert w[index..] == [c] + rest;
      var next := Child(node, c);
      ghost var kids1, wordLength1, importance1 := kids, wordLength, importance;
      InsertFrom(w, index + 1, next);
      InsertPathStep(old(kids), kids1, kids, old(wordLength), wordLength1, wordLength, node, c, next, rest, |w|);
      GraftStep(old(kids), kids1, node, c, next, rest);
      GrownTransitive(old(importance), importance1, importance);
    }

    /** Inserts the lowercase word `w`: afterwards its path exists, its end
        node records its length, the only new edges are those of its path,
        and the words of the trie are the old ones and `w`. */
    method Insert(w: string)
      requires Valid() && Lower(w)
      modifies this
      ensures Valid()
      ensures Extends(old(kids), kids) && NewEdgesFresh(old(kids), kids) && NewEdgesOnPath(old(kids), kids, 0, w)
      ensures Marked(old(wordLength), wordLength, Walk(kids, 0, w), |w|)
      ensures |kids| == old(|kids|) + (|w| - Depth(old(kids), 0, w))
      ensures Grown(old(importance), importance)
      ensures old(Walk(kids, 0, w)).Some? ==> kids == old(kids) && caps == old(caps)
      ensures w != [] ==> forall v :: IsWord(kids, wordLength, v) <==> old(IsWord(kids, wordLength, v)) || v == w
    {
      assert w[0..] == w;
      InsertFrom(w, 0, 0);
      GraftEdges(old(kids), 0, w);
      GraftTree(old(kids), 0, w);
      if w != [] {
        forall v ensures IsWord(kids, wordLength, v) <==> old(IsWord(kids, wordLength, v)) || v == w {
          InsertedWords(old(kids), kids, old(wordLength), wordLength, w, |w|, v);
        }
      }
    }

    /** The importance update: every non-empty word of `words` that leads to
        a terminal node adds one to that node's importance. */
    method UpdateImportance(words: seq<string>)
      requires Valid()
      modifies this
      ensures Valid()
      ensures kids == old(kids) && caps == old(caps) && wordLength == old(wordLength)
      ensures |importance| == old(|importance|)
      ensures forall n :: 0 <= n < |importance| ==>
        importance[n] == old(importance)[n] + Hits(kids, wordLength, words, n)
    {
      var i := 0;
      while i < |words|
        invariant 0 <= i <= |words|
        invariant Valid() && kids == old(kids) && caps == old(caps) && wordLength == old(wordLength)
        invariant |importance| == old(|importance|)
        invariant forall n :: 0 <= n < |importance| ==>
          importance[n] == old(importance)[n] + Hits(kids, wordLength, words[..i], n)
      {
        var w := words[i];
        assert words[..i + 1][..i] == words[..i] && words[..i + 1][i] == w;
        if w != [] {
          assert w[0..] == w;
          var node := SearchNode(w, Some(0), 0);
          if node.Some? && wordLength[node.value] > 0 {
            importance := importance[node.value := importance[node.value] + 1];
          }
        }
        i := i + 1;
      }
      assert words[..i] == words;
    }

    /** The filter of query `q` on the node `node`, whose word is `word`; the
        approximate query runs the character-distribution test. */
    method Admits(q: Query, word: string, node: nat) returns (b: bool)
      requires Shaped() && node < |kids|
      ensures b == Accepts(q, word, wordLength[node], importance[node])
    {
      var wl, imp := wordLength[node], importance[node];
      match q
      case StartsWith(p) =>
        b := |p| <= |word| && word[..|p|] == p && wl > 0 && imp > 0;
      case OfLength(n) =>
        b := wl > 0 && |word| == n && imp > 0;
      case Near(t) =>
        var d := |word| - |t|;
        b := wl > 0 && imp > 0 && -1 <= d <= 2;
        if b {
          b := AreCharactersSimilar(word, t);
        }
      case AnyWord =>
        b := wl > 0;
    }

    /** The depth-first collector below `node`, whose word is `current`: the
        node's own word when it passes the filter, then the words under each
        child from 'a' to 'z'. */
    method Collect(q: Query, node: nat, current: string) returns (r: seq<(string, int)>)
      requires Shaped() && node < |kids|
      ensures r == Select(q, Visit(kids, node, current), wordLength, importance)
      decreases |kids| - node, 2
    {
      var keep := Admits(q, current, node);
      var own := if keep then [(current, importance[node])] else [];
      assert own == Select(q, [(current, node)], wordLength, importance);
      SelectAppend(q, [(current, node)], VisitFrom(kids, node, current, 'a' as int), wordLength, importance);
      var below := CollectChildren(q, node, current);
      r := own + below;
    }

    /** The words under the children of `node`, from 'a' to 'z'. */
    method CollectChildren(q: Query, node: nat, current: string) returns (r: seq<(string, int)>)
      requires Shaped() && node < |kids|
      ensures r == Select(q, VisitFrom(kids, node, current, 'a' as int), wordLength, importance)
      decreases |kids| - node, 1
    {
      r := [];
      var code := 'a' as int;
      ghost var all := Select(q, VisitFrom(kids, node, current, code), wordLength, importance);
      while code <= 'z' as int
        invariant 'a' as int <= code <= 'z' as int + 1
        invariant r + Select(q, VisitFrom(kids, node, current, code), wordLength, importance) == all
      {
        var sub := CollectChild(q, node, current, code as char);
        ghost var later := Select(q, VisitFrom(kids, node, current, code + 1), wordLength, importance);
        assert (r + sub) + later == all by {
          SelectFromStep(q, kids, node, current, code, wordLength, importance);
          Regroup(r, sub, later, all);
        }
        r := r + sub;
        code := code + 1;
      }
    }

    /** The words under the child of `node` for `c`: none when the table has
        no such child. */
    method CollectChild(q: Query, node: nat, current: string, c: char) returns (r: seq<(string, int)>)
      requires Shaped() && node < |kids|
      ensures r == if c in kids[node] then Select(q, Visit(kids, kids[node][c], current + [c]), wordLength, importance) else []
      decreases |kids| - node, 0
    {
      r := [];
      if c in kids[node] {
        r := Collect(q, kids[node][c], current + [c]);
      }
    }

    /** The words of the trie, in the order the printer visits them. */
    method PrintWords() returns (words: seq<string>)
      requires Valid()
      ensures var s := Select(AnyWord, Visit(kids, 0, []), wordLength, importance);
        |words| == |s| && forall i :: 0 <= i < |s| ==> words[i] == s[i].0
    {
      var found := Collect(AnyWord, 0, []);
      words := seq(|found|, i requires 0 <= i < |found| => found[i].0);
    }

    /** The memory estimate of the subtree under `node`, whose word is
        `prefix`. */
    method CalcMemFrom(node: nat, ghost prefix: string) returns (r: int)
      requires Shaped() && node < |kids|
      ensures r == Mem(Visit(kids, node, prefix), caps)
      decreases |kids| - node
    {
      r := 4 + (12 * caps[node] + 12);
      MemAppend([(prefix, node)], VisitFrom(kids, node, prefix, 'a' as int), caps);
      var code := 'a' as int;
      while code <= 'z' as int
        invariant 'a' as int <= code <= 'z' as int + 1
        invariant r + Mem(VisitFrom(kids, node, prefix, code), caps) == Mem(Visit(kids, node, prefix), caps)
      {
        var c := code as char;
        MemFromStep(kids, node, prefix, code, caps);
        if c in kids[node] {
          var sub := CalcMemFrom(kids[node][c], prefix + [c]);
          r := r + sub;
        }
        code := code + 1;
      }
    }

    /** The memory estimate of the whole trie. */
    method CalcMem() returns (r: int)
      requires Valid()
      ensures r == Mem(Visit(kids, 0, []), caps)
    {
      r := CalcMemFrom(0, []);
    }
  }

  /** What the traversal from the root reports, word by word: a pair is
      collected exactly when its word leads to a node that passes the filter,
      with that node's importance. */
  lemma Collected(kids: Kids, wordLength: seq<int>, importance: seq<int>, q: Query, w: string, i: int)
    requires WellFormed(kids) && |wordLength| == |importance| == |kids|
    ensures (w, i) in Select(q, Visit(kids, 0, []), wordLength, importance) <==>
      Walk(kids, 0, w).Some? &&
      var n := Walk(kids, 0, w).value;
      Accepts(q, w, wordLength[n], importance[n]) && i == importance[n]
  {
    var xs := Visit(kids, 0, []);
    SelectMember(q, xs, wordLength, importance, w, i);
    VisitSound(kids, 0, []);
    assert w[0..] == w && w[..0] == [];
    if Walk(kids, 0, w).Some? {
      VisitComplete(kids, 0, [], w);
      assert [] + w == w;
    }
  }

  /** The traversal from the root reports each word once, a prefix before
      its extensions and siblings from 'a' to 'z'. */
  lemma CollectedInOrder(kids: Kids, wordLength: seq<int>, importance: seq<int>, q: Query)
    requires WellFormed(kids)
    ensures Ordered(Select(q, Visit(kids, 0, []), wordLength, importance))
    ensures var r := Select(q, Visit(kids, 0, []), wordLength, importance);
      forall i, j :: 0 <= i < j < |r| ==> r[i].0 != r[j].0
  {
    VisitOrdered(kids, 0, []);
    SelectOrdered(q, Visit(kids, 0, []), wordLength, importance);
    OrderedDistinct(Select(q, Visit(kids, 0, []), wordLength, importance));
  }

  /** The estimate for the trie holding only "a", with the capacities the
      growth schedule gives its two tables. */
  lemma OneWordMemory(caps: seq<int>)
    requires caps == [CapacityFor(1), CapacityFor(0)]
    ensures Mem(Visit([map['a' := 1], map[]], 0, []), caps) == 152
  {
    OneWordVisit();
    var xs: seq<(string, nat)> := [([], 0), ("a", 1)];
    assert xs[1..] == [("a", 1)] && xs[1..][1..] == [];
    assert NodeMem(caps, 0) == 76 && NodeMem(caps, 1) == 76;
    assert Mem(xs[1..], caps) == 76;
  }

  /** A fresh trie loaded with the single word "a": the printer lists "a"
      alone, the search for "b" finds no node, and the memory estimate counts
      two nodes whose tables have capacity 5, 76 bytes each. */
  method OneWord() returns (words: seq<string>, b: Option<nat>, mem: int)
    ensures words == ["a"] && b == None && mem == 152
  {
    var t := LoadOneWord();
    words, b, mem := OneWordReport(t);
  }

  /** A fresh trie into which the single word "a" was inserted: a root and
      one child under 'a', which ends a word of length 1; both tables have
      the capacity of the growth schedule. */
  method LoadOneWord() returns (t: Trie)
    ensures fresh(t) && t.Valid()
    ensures t.kids == [map['a' := 1], map[]] && t.caps == [CapacityFor(1), CapacityFor(0)]
    ensures t.wordLength == [0, 1] && t.importance == [0, 0]
  {
    t := new Trie();
    t.Insert("a");
    assert Depth([map[]], 0, "a") == 0;
    OneWordShape(t.kids);
    assert "a"[0] == 'a' && "a"[1..] == [];
    assert Walk(t.kids, 0, "a") == Some(1);
  }

  /** In the trie holding only "a", the printer lists "a", the search for
      "b" finds no node and the estimate is 152 bytes. */
  method OneWordReport(t: Trie) returns (words: seq<string>, b: Option<nat>, mem: int)
    requires t.Valid() && t.kids == [map['a' := 1], map[]] && t.caps == [CapacityFor(1), CapacityFor(0)]
    requires t.wordLength == [0, 1] && t.importance == [0, 0]
    ensures words == ["a"] && b == None && mem == 152
  {
    OneWordSelect(t.wordLength, t.importance);
    OneWordMemory(t.caps);
    words := t.PrintWords();
    assert "b"[0..] == "b" && "b"[0] == 'b';
    b := t.SearchNode("b", Some(0), 0);
    mem := t.CalcMem();
    assert words[0] == "a";
  }
}
