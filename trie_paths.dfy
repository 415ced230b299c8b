/**
 * The shape shared by both tries of the repository. Nodes are numbered, the
 * root is node 0, and `kids[n]` maps each character to the child of node `n`
 * under it. Children are always numbered above their parent, which is what
 * makes walks and traversals terminate.
 *
 * The traversal `Visit` is the depth-first, preorder, 'a'-to-'z' walk that
 * the tries' printing, memory counting and word collecting code performs.
 * `Select` filters it the way the collectors and the printers do, and
 * `Marked` describes the word lengths an insertion leaves behind; both tries
 * use these.
 */
module TriePaths {
  import opened Options
  import opened Similarity

  type Kids = seq<map<char, nat>>

  predicate IsLower(c: char) {
    'a' <= c <= 'z'
  }

  predicate Lower(w: string) {
    forall i :: 0 <= i < |w| ==> IsLower(w[i])
  }

  /** There is a root; every child is a lowercase key and a later node. */
  ghost predicate WellFormed(kids: Kids) {
    |kids| > 0 &&
    forall n, c {:trigger c in kids[n]} :: 0 <= n < |kids| && c in kids[n] ==> IsLower(c) && n < kids[n][c] < |kids|
  }

  /** The node reached from `n` by following the characters of `w`, or None
      once a character has no child. */
  ghost function Walk(kids: Kids, n: nat, w: string): (r: Option<nat>)
    requires WellFormed(kids) && n < |kids|
    ensures r.Some? ==> n <= r.value < |kids|
    ensures r.Some? ==> Lower(w)
    decreases |w|
  {
    if w == [] then Some(n)
    else if w[0] in kids[n] then Walk(kids, kids[n][w[0]], w[1..])
    else None
  }

  /** How many leading characters of `w` already have nodes below `n`. */
  ghost function Depth(kids: Kids, n: nat, w: string): (d: nat)
    requires WellFormed(kids) && n < |kids|
    ensures d <= |w|
    decreases |w|
  {
    if w == [] then 0
    else if w[0] in kids[n] then 1 + Depth(kids, kids[n][w[0]], w[1..])
    else 0
  }

  /** Appending an empty node keeps the shape well formed. */
  lemma WellFormedGrow(kids: Kids)
    requires WellFormed(kids)
    ensures WellFormed(kids + [map[]])
  {
  }

  /** Linking a later node as a new lowercase child keeps the shape well
      formed. */
  lemma WellFormedLink(kids: Kids, node: nat, c: char, id: nat)
    requires WellFormed(kids) && node < id < |kids| && IsLower(c)
    ensures var m: map<char, nat> := kids[node][c := id]; WellFormed(kids[node := m])
  {
  }

  /** `next` keeps every node and every child edge of `prev`. */
  ghost predicate Extends(prev: Kids, next: Kids) {
    |prev| <= |next| &&
    forall n, c :: 0 <= n < |prev| && c in prev[n] ==> c in next[n] && next[n][c] == prev[n][c]
  }

  lemma ExtendsTransitive(a: Kids, b: Kids, c: Kids)
    requires Extends(a, b) && Extends(b, c)
    ensures Extends(a, c)
  {
  }

  /** A walk that exists keeps its end node once the trie is extended. */
  lemma {:induction false} WalkExtends(prev: Kids, next: Kids, n: nat, w: string)
    requires WellFormed(prev) && WellFormed(next) && Extends(prev, next) && n < |prev|
    requires Walk(prev, n, w).Some?
    ensures Walk(next, n, w) == Walk(prev, n, w)
    decreases |w|
  {
    if w != [] {
      WalkExtends(prev, next, prev[n][w[0]], w[1..]);
    }
  }

  /** Walking `u + v` is walking `u`, then `v` from where `u` ended. */
  lemma {:induction false} WalkAppend(kids: Kids, n: nat, u: string, v: string)
    requires WellFormed(kids) && n < |kids|
    ensures Walk(kids, n, u + v) ==
      if Walk(kids, n, u).None? then None else Walk(kids, Walk(kids, n, u).value, v)
    decreases |u|
  {
    if u != [] {
      assert |u + v| > 0 && (u + v)[0] == u[0] && (u + v)[1..] == u[1..] + v;
      if u[0] in kids[n] {
        WalkAppend(kids, kids[n][u[0]], u[1..], v);
      }
    } else {
      assert u + v == v;
    }
  }

  /** Every character of `w` has a node exactly when the walk succeeds. */
  lemma {:induction false} DepthFull(kids: Kids, n: nat, w: string)
    requires WellFormed(kids) && n < |kids|
    ensures Depth(kids, n, w) == |w| <==> Walk(kids, n, w).Some?
    decreases |w|
  {
    if w != [] && w[0] in kids[n] {
      DepthFull(kids, kids[n][w[0]], w[1..]);
    }
  }

  /** `u` comes before `v` in the traversal order: `u` is a proper prefix of
      `v`, or at the first position where they differ `u` has the smaller
      character. */
  predicate Before(u: string, v: string) {
    (|u| < |v| && u == v[..|u|]) ||
    (exists k :: 0 <= k < |u| && k < |v| && u[..k] == v[..k] && u[k] < v[k])
  }

  lemma BeforeIrreflexive(u: string)
    ensures !Before(u, u)
  {
  }

  /** The first components are in strictly increasing traversal order. */
  ghost predicate Ordered<T>(xs: seq<(string, T)>) {
    forall i, j :: 0 <= i < j < |xs| ==> Before(xs[i].0, xs[j].0)
  }

  /** Depth-first preorder from node `n`, whose word is `prefix`: the node
      itself, then the subtree under each present child from 'a' to 'z'. */
  ghost function Visit(kids: Kids, n: nat, prefix: string): (r: seq<(string, nat)>)
    requires WellFormed(kids) && n < |kids|
    ensures |r| > 0 && r[0] == (prefix, n)
    decreases |kids| - n, 1
  {
    [(prefix, n)] + VisitFrom(kids, n, prefix, 'a' as int)
  }

  /** The subtrees of `n` under the characters from `code` to 'z'. */
  ghost function VisitFrom(kids: Kids, n: nat, prefix: string, code: int): (r: seq<(string, nat)>)
    requires WellFormed(kids) && n < |kids| && 'a' as int <= code <= 'z' as int + 1
    decreases |kids| - n, 0, 'z' as int + 1 - code
  {
    if code > 'z' as int then []
    else
      var c := code as char;
      (if c in kids[n] then Visit(kids, kids[n][c], prefix + [c]) else []) +
      VisitFrom(kids, n, prefix, code + 1)
  }

  /** Every entry of the traversal from `n` extends `prefix` by a lowercase
      suffix whose walk from `n` ends at the entry's node. */
  lemma {:induction false} VisitSound(kids: Kids, n: nat, prefix: string)
    requires WellFormed(kids) && n < |kids|
    ensures forall x :: x in Visit(kids, n, prefix) ==>
      |prefix| <= |x.0| && x.0[..|prefix|] == prefix && Walk(kids, n, x.0[|prefix|..]) == Some(x.1)
    decreases |kids| - n, 1
  {
    VisitFromSound(kids, n, prefix, 'a' as int);
    forall x | x in Visit(kids, n, prefix)
      ensures |prefix| <= |x.0| && x.0[..|prefix|] == prefix && Walk(kids, n, x.0[|prefix|..]) == Some(x.1)
    {
      if x == (prefix, n) {
        assert x.0[|prefix|..] == [];
      }
    }
  }

  lemma {:induction false} VisitFromSound(kids: Kids, n: nat, prefix: string, code: int)
    requires WellFormed(kids) && n < |kids| && 'a' as int <= code <= 'z' as int + 1
    ensures forall x :: x in VisitFrom(kids, n, prefix, code) ==>
      |prefix| < |x.0| && x.0[..|prefix|] == prefix && code <= x.0[|prefix|] as int &&
      Walk(kids, n, x.0[|prefix|..]) == Some(x.1)
    decreases |kids| - n, 0, 'z' as int + 1 - code
  {
    if code <= 'z' as int {
      var c := code as char;
      VisitFromSound(kids, n, prefix, code + 1);
      if c in kids[n] {
        var m := kids[n][c];
        var p' := prefix + [c];
        VisitSound(kids, m, p');
        forall x | x in Visit(kids, m, p')
          ensures |prefix| < |x.0| && x.0[..|prefix|] == prefix && code <= x.0[|prefix|] as int &&
            Walk(kids, n, x.0[|prefix|..]) == Some(x.1)
        {
          assert x.0[..|p'|] == p';
          assert x.0[..|prefix|] == p'[..|prefix|] == prefix;
          assert x.0[|prefix|] == p'[|prefix|] == c;
          var s := x.0[|prefix|..];
          assert s[0] == c && s[1..] == x.0[|p'|..];
        }
      }
    }
  }

  /** Every node reachable from `n` appears in the traversal, with its word. */
  lemma {:induction false} VisitComplete(kids: Kids, n: nat, prefix: string, s: string)
    requires WellFormed(kids) && n < |kids| && Walk(kids, n, s).Some?
    ensures (prefix + s, Walk(kids, n, s).value) in Visit(kids, n, prefix)
    decreases |s|
  {
    if s == [] {
      assert prefix + s == prefix;
    } else {
      var c := s[0];
      var m := kids[n][c];
      VisitComplete(kids, m, prefix + [c], s[1..]);
      assert prefix + [c] + s[1..] == prefix + s;
      VisitFromHas(kids, n, prefix, 'a' as int, c);
    }
  }

  /** The subtree under a present child `c` at or after `code` lies inside the
      traversal from `code`. */
  lemma {:induction false} VisitFromHas(kids: Kids, n: nat, prefix: string, code: int, c: char)
    requires WellFormed(kids) && n < |kids| && 'a' as int <= code <= c as int && c in kids[n]
    ensures forall x :: x in Visit(kids, kids[n][c], prefix + [c]) ==> x in VisitFrom(kids, n, prefix, code)
    decreases c as int - code
  {
    assert IsLower(c);
    if code < c as int {
      VisitFromHas(kids, n, prefix, code + 1, c);
    } else {
      assert code as char == c;
    }
  }

  /** Joining two ordered lists keeps the order when every word of the first
      comes before every word of the second. */
  lemma OrderedAppend<T>(a: seq<(string, T)>, b: seq<(string, T)>)
    requires Ordered(a) && Ordered(b)
    requires forall x, y :: x in a && y in b ==> Before(x.0, y.0)
    ensures Ordered(a + b)
  {
    forall i, j | 0 <= i < j < |a + b| ensures Before((a + b)[i].0, (a + b)[j].0) {
      if j < |a| {
      } else if i >= |a| {
        assert (a + b)[i] == b[i - |a|] && (a + b)[j] == b[j - |a|];
      } else {
        assert (a + b)[i] in a && (a + b)[j] in b;
      }
    }
  }

  /** The traversal lists its words in strictly increasing order: a prefix
      before its extensions, and siblings from 'a' to 'z'. */
  lemma {:induction false} VisitOrdered(kids: Kids, n: nat, prefix: string)
    requires WellFormed(kids) && n < |kids|
    ensures Ordered(Visit(kids, n, prefix))
    decreases |kids| - n, 1
  {
    VisitFromOrdered(kids, n, prefix, 'a' as int);
    VisitFromSound(kids, n, prefix, 'a' as int);
    forall y | y in VisitFrom(kids, n, prefix, 'a' as int) ensures Before(prefix, y.0) {
      assert |prefix| < |y.0| && prefix == y.0[..|prefix|];
    }
    OrderedAppend([(prefix, n)], VisitFrom(kids, n, prefix, 'a' as int));
  }

  lemma {:induction false} VisitFromOrdered(kids: Kids, n: nat, prefix: string, code: int)
    requires WellFormed(kids) && n < |kids| && 'a' as int <= code <= 'z' as int + 1
    ensures Ordered(VisitFrom(kids, n, prefix, code))
    decreases |kids| - n, 0, 'z' as int + 1 - code
  {
    if code <= 'z' as int {
      var c := code as char;
      VisitFromOrdered(kids, n, prefix, code + 1);
      if c in kids[n] {
        var m := kids[n][c];
        var p' := prefix + [c];
        VisitOrdered(kids, m, p');
        VisitSound(kids, m, p');
        VisitFromSound(kids, n, prefix, code + 1);
        forall x, y | x in Visit(kids, m, p') && y in VisitFrom(kids, n, prefix, code + 1)
          ensures Before(x.0, y.0)
        {
          BranchBefore(prefix, c, x.0, y.0);
        }
        OrderedAppend(Visit(kids, m, p'), VisitFrom(kids, n, prefix, code + 1));
      }
    }
  }

  /** A word under the branch `prefix + [c]` comes before a word under
      `prefix` whose next character is later than `c`. */
  lemma BranchBefore(prefix: string, c: char, u: string, v: string)
    requires |prefix| < |u| && u[..|prefix| + 1] == prefix + [c]
    requires |prefix| < |v| && v[..|prefix|] == prefix && c < v[|prefix|]
    ensures Before(u, v)
  {
    var k := |prefix|;
    assert u[..k] == u[..k + 1][..k] == prefix;
    assert u[k] == u[..k + 1][k] == c;
  }

  /** At most `hi - 'a'` characters lie in 'a' .. `hi - 1`. */
  lemma {:induction false} BoundedCodes(keys: set<char>, hi: int)
    requires hi <= 'z' as int + 1
    requires forall k :: k in keys ==> 'a' as int <= k as int < hi
    ensures |keys| <= if hi < 'a' as int then 0 else hi - 'a' as int
    decreases hi
  {
    if hi <= 'a' as int {
      assert keys == {};
    } else {
      var top := (hi - 1) as char;
      BoundedCodes(keys - {top}, hi - 1);
    }
  }

  /** A node with lowercase keys that lacks `c` has fewer than 26 children,
      so one more child still fits its table. */
  lemma FewerThanAlphabet(m: map<char, nat>, c: char)
    requires forall k :: k in m ==> IsLower(k)
    requires IsLower(c) && c !in m
    ensures |m| < 26
  {
    BoundedCodes(m.Keys + {c}, 'z' as int + 1);
    assert |m.Keys + {c}| == |m| + 1;
  }

  /** The filters of the traversals: the three collectors of the completion
      search, and the printer, which keeps every word. */
  datatype Query = StartsWith(prefix: string) | OfLength(length: int) | Near(target: string) | AnyWord

  /** Whether the traversal keeps `word`, whose node has the given word length
      and importance. */
  predicate Accepts(q: Query, word: string, wordLength: int, importance: int) {
    match q
    case StartsWith(p) => |p| <= |word| && word[..|p|] == p && wordLength > 0 && importance > 0
    case OfLength(n) => wordLength > 0 && |word| == n && importance > 0
    case Near(t) => wordLength > 0 && importance > 0 && -1 <= |word| - |t| <= 2 && Similar(word, t)
    case AnyWord => wordLength > 0
  }

  /** The (word, importance) pairs a traversal keeps from the entries `xs`,
      in their order. */
  ghost function Select(q: Query, xs: seq<(string, nat)>, wordLength: seq<int>, importance: seq<int>):
    (r: seq<(string, int)>)
  {
    if xs == [] then [] else Kept(q, xs[0], wordLength, importance) + Select(q, xs[1..], wordLength, importance)
  }

  /** The pair a traversal reports for one entry: none, or its word with the
      importance of its node. */
  ghost function Kept(q: Query, x: (string, nat), wordLength: seq<int>, importance: seq<int>): (r: seq<(string, int)>)
  {
    if x.1 < |wordLength| && x.1 < |importance| && Accepts(q, x.0, wordLength[x.1], importance[x.1])
    then [(x.0, importance[x.1])] else []
  }

  /** Selecting from `a + b` selects from `a`, then from `b`. */
  lemma {:induction false} SelectAppend(q: Query, a: seq<(string, nat)>, b: seq<(string, nat)>,
                                        wordLength: seq<int>, importance: seq<int>)
    ensures Select(q, a + b, wordLength, importance) ==
      Select(q, a, wordLength, importance) + Select(q, b, wordLength, importance)
    decreases |a|
  {
    if a == [] {
      assert a + b == b;
    } else {
      assert (a + b)[0] == a[0] && (a + b)[1..] == a[1..] + b;
      SelectAppend(q, a[1..], b, wordLength, importance);
    }
  }

  /** A pair is selected exactly when one of the entries has its word, passes
      the filter, and carries the pair's importance. */
  lemma {:induction false} SelectMember(q: Query, xs: seq<(string, nat)>, wordLength: seq<int>,
                                        importance: seq<int>, w: string, i: int)
    ensures (w, i) in Select(q, xs, wordLength, importance) <==>
      exists n :: (w, n) in xs && Credits(q, w, n, wordLength, importance, i)
    decreases |xs|
  {
    if xs != [] {
      var rest := Select(q, xs[1..], wordLength, importance);
      var head := Kept(q, xs[0], wordLength, importance);
      assert Select(q, xs, wordLength, importance) == head + rest;
      SelectMember(q, xs[1..], wordLength, importance, w, i);
      if (w, i) in head + rest {
        if (w, i) in head {
          assert (w, xs[0].1) == xs[0];
          assert Credits(q, w, xs[0].1, wordLength, importance, i);
        } else {
          var n :| (w, n) in xs[1..] && Credits(q, w, n, wordLength, importance, i);
          assert (w, n) in xs;
        }
      }
      if exists n :: (w, n) in xs && Credits(q, w, n, wordLength, importance, i) {
        var n :| (w, n) in xs && Credits(q, w, n, wordLength, importance, i);
        if xs[0] == (w, n) {
          assert (w, i) in head;
        } else {
          assert xs == [xs[0]] + xs[1..];
          assert (w, n) in xs[1..];
        }
      }
    }
  }

  /** Node `n`, reached by `w`, passes the filter and has importance `i`. */
  ghost predicate Credits(q: Query, w: string, n: nat, wordLength: seq<int>, importance: seq<int>, i: int) {
    n < |wordLength| && n < |importance| && Accepts(q, w, wordLength[n], importance[n]) && i == importance[n]
  }

  /** Selecting keeps the order of the entries. */
  lemma {:induction false} SelectOrdered(q: Query, xs: seq<(string, nat)>, wordLength: seq<int>, importance: seq<int>)
    requires Ordered(xs)
    ensures Ordered(Select(q, xs, wordLength, importance))
    decreases |xs|
  {
    if xs != [] {
      var rest := Select(q, xs[1..], wordLength, importance);
      assert Ordered(xs[1..]) by {
        forall i, j | 0 <= i < j < |xs[1..]| ensures Before(xs[1..][i].0, xs[1..][j].0) {
          assert xs[1..][i] == xs[i + 1] && xs[1..][j] == xs[j + 1];
        }
      }
      SelectOrdered(q, xs[1..], wordLength, importance);
      forall y | y in rest ensures Before(xs[0].0, y.0) {
        SelectMember(q, xs[1..], wordLength, importance, y.0, y.1);
        var n :| (y.0, n) in xs[1..] && Credits(q, y.0, n, wordLength, importance, y.1);
        var j :| 0 <= j < |xs[1..]| && xs[1..][j] == (y.0, n);
        assert xs[j + 1] == (y.0, n);
      }
      OrderedAppend(Kept(q, xs[0], wordLength, importance), rest);
    }
  }

  /** Words in strictly increasing order are pairwise distinct. */
  lemma OrderedDistinct<T>(xs: seq<(string, T)>)
    requires Ordered(xs)
    ensures forall i, j :: 0 <= i < j < |xs| ==> xs[i].0 != xs[j].0
  {
    forall i, j | 0 <= i < j < |xs| ensures xs[i].0 != xs[j].0 {
      if xs[i].0 == xs[j].0 {
        BeforeIrreflexive(xs[i].0);
      }
    }
  }

  /** Selecting from the subtrees of `n` from `code` on: the subtree of the
      child for `code`, if any, then the later ones. */
  lemma SelectFromStep(q: Query, kids: Kids, n: nat, prefix: string, code: int,
                       wordLength: seq<int>, importance: seq<int>)
    requires WellFormed(kids) && n < |kids| && 'a' as int <= code <= 'z' as int
    ensures var c := code as char;
      Select(q, VisitFrom(kids, n, prefix, code), wordLength, importance) ==
      (if c in kids[n] then Select(q, Visit(kids, kids[n][c], prefix + [c]), wordLength, importance) else []) +
      Select(q, VisitFrom(kids, n, prefix, code + 1), wordLength, importance)
  {
    var c := code as char;
    if c in kids[n] {
      SelectAppend(q, Visit(kids, kids[n][c], prefix + [c]), VisitFrom(kids, n, prefix, code + 1), wordLength, importance);
    } else {
      assert VisitFrom(kids, n, prefix, code) == VisitFrom(kids, n, prefix, code + 1);
    }
  }

  lemma Regroup<T>(r: seq<T>, sub: seq<T>, later: seq<T>, all: seq<T>)
    requires r + (sub + later) == all
    ensures r + sub + later == all
  {
    assert r + sub + later == r + (sub + later);
  }

  /** A node without children from `code` on contributes no further
      subtrees. */
  lemma {:induction false} VisitFromPast(kids: Kids, n: nat, prefix: string, code: int)
    requires WellFormed(kids) && n < |kids| && 'a' as int <= code <= 'z' as int + 1
    requires forall c :: c in kids[n] ==> c as int < code
    ensures VisitFrom(kids, n, prefix, code) == []
    decreases 'z' as int + 1 - code
  {
    if code <= 'z' as int {
      assert (code as char) !in kids[n];
      VisitFromPast(kids, n, prefix, code + 1);
    }
  }

  /** `next` is `prev` grown with zeros, except that `e` holds `len`: the
      word lengths after an insertion that ends at `e`. */
  ghost predicate Marked(prev: seq<int>, next: seq<int>, e: Option<nat>, len: int) {
    e.Some? && e.value < |next| && |prev| <= |next| && next[e.value] == len &&
    forall m :: 0 <= m < |next| && m != e.value ==> next[m] == if m < |prev| then prev[m] else 0
  }

  /** One step of the insertion: from `k0`, the child `next` of `node` under
      `c` is found or created (giving `k1`), and the rest of the word is
      inserted below it (giving `k2`). */
  lemma InsertPathStep(k0: Kids, k1: Kids, k2: Kids, wl0: seq<int>, wl1: seq<int>, wl2: seq<int>,
                   node: nat, c: char, next: nat, rest: string, len: int)
    requires WellFormed(k0) && WellFormed(k1) && WellFormed(k2) && node < |k0| && IsLower(c)
    requires c in k0[node] ==> next == k0[node][c] && k1 == k0 && wl1 == wl0
    requires c !in k0[node] ==>
      (var m: map<char, nat> := k0[node][c := next];
       next == |k0| && k1 == (k0 + [map[]])[node := m] && wl1 == wl0 + [0])
    requires next < |k1| && Extends(k1, k2)
    requires Marked(wl1, wl2, Walk(k2, next, rest), len)
    requires |k2| == |k1| + (|rest| - Depth(k1, next, rest))
    requires Walk(k1, next, rest).Some? ==> k2 == k1
    ensures Extends(k0, k2)
    ensures Marked(wl0, wl2, Walk(k2, node, [c] + rest), len)
    ensures |k2| == |k0| + (|[c] + rest| - Depth(k0, node, [c] + rest))
    ensures Walk(k0, node, [c] + rest).Some? ==> k2 == k0
  {
    var w := [c] + rest;
    assert w[0] == c && w[1..] == rest;
    assert c in k2[node] && k2[node][c] == next;
    assert Walk(k2, node, w) == Walk(k2, next, rest);
    if c !in k0[node] {
      assert Depth(k1, next, rest) == 0 by {
        if rest != [] {
          assert k1[next] == map[];
        }
      }
    }
  }

  /** Every edge of `next` that `prev` lacks leads to a node `prev` lacks. */
  ghost predicate NewEdgesFresh(prev: Kids, next: Kids) {
    forall n, c {:trigger c in next[n]} :: 0 <= n < |next| && c in next[n] && (n >= |prev| || c !in prev[n]) ==>
      next[n][c] >= |prev|
  }

  /** A word whose walk did not exist before an extension that only adds
      fresh nodes below new edges ends, if it exists now, at a new node. */
  lemma {:induction false} WalkFresh(prev: Kids, next: Kids, n: nat, w: string)
    requires WellFormed(prev) && WellFormed(next) && Extends(prev, next) && NewEdgesFresh(prev, next)
    requires n < |prev| && Walk(prev, n, w).None? && Walk(next, n, w).Some?
    ensures Walk(next, n, w).value >= |prev|
    decreases |w|
  {
    var c := w[0];
    if c in prev[n] {
      WalkFresh(prev, next, prev[n][c], w[1..]);
    } else {
      assert next[n][c] >= |prev|;
    }
  }

  /** Every node has at most one parent: no two edges lead to the same
      node. */
  ghost predicate Tree(kids: Kids) {
    forall n1, c1, n2, c2 {:trigger kids[n1][c1], kids[n2][c2]} ::
      (0 <= n1 < |kids| && 0 <= n2 < |kids| && c1 in kids[n1] && c2 in kids[n2] &&
       kids[n1][c1] == kids[n2][c2]) ==> n1 == n2 && c1 == c2
  }

  /** Linking a new node under a missing character keeps every parent
      unique. */
  lemma TreeLink(kids: Kids, node: nat, c: char)
    requires WellFormed(kids) && Tree(kids) && node < |kids| && c !in kids[node]
    ensures var m: map<char, nat> := kids[node][c := |kids|]; Tree((kids + [map[]])[node := m])
  {
    var m: map<char, nat> := kids[node][c := |kids|];
    var k := (kids + [map[]])[node := m];
    forall n, d | 0 <= n < |k| && d in k[n] && (n != node || d != c)
      ensures n < |kids| && d in kids[n] && k[n][d] == kids[n][d] < |kids|
    {
    }
    assert k[node][c] == |kids|;
  }

  /** The last step of a walk from the root. */
  lemma WalkLast(kids: Kids, u: string)
    requires WellFormed(kids) && u != [] && Walk(kids, 0, u).Some?
    ensures var p := Walk(kids, 0, u[..|u| - 1]);
      p.Some? && u[|u| - 1] in kids[p.value] && Walk(kids, 0, u) == Some(kids[p.value][u[|u| - 1]])
  {
    var a := u[|u| - 1];
    WalkAppend(kids, 0, u[..|u| - 1], [a]);
    assert u[..|u| - 1] + [a] == u;
    assert [a][0] == a && [a][1..] == [];
  }

  /** A non-empty word never leads from the root back to the root. */
  lemma WalkLeavesRoot(kids: Kids, v: string)
    requires WellFormed(kids)
    ensures v != [] && Walk(kids, 0, v).Some? ==> Walk(kids, 0, v).value > 0
  {
    if v != [] && v[0] in kids[0] && Walk(kids, 0, v).Some? {
      assert Walk(kids, 0, v).value >= kids[0][v[0]] > 0;
    }
  }

  /** In a tree, two different words never lead from the root to the same
      node. */
  lemma {:induction false} WalkInjective(kids: Kids, u: string, v: string)
    requires WellFormed(kids) && Tree(kids) && Walk(kids, 0, u).Some? && Walk(kids, 0, u) == Walk(kids, 0, v)
    ensures u == v
    decreases |u|
  {
    WalkLeavesRoot(kids, u);
    WalkLeavesRoot(kids, v);
    if u != [] && v != [] {
      WalkLast(kids, u);
      WalkLast(kids, v);
      var p, q := Walk(kids, 0, u[..|u| - 1]).value, Walk(kids, 0, v[..|v| - 1]).value;
      assert kids[p][u[|u| - 1]] == kids[q][v[|v| - 1]];
      WalkInjective(kids, u[..|u| - 1], v[..|v| - 1]);
      assert u == u[..|u| - 1] + [u[|u| - 1]] && v == v[..|v| - 1] + [v[|v| - 1]];
    }
  }

  /** Every edge of `next` that `prev` lacks lies on the path of `s` from
      `n`: it leaves the node that a prefix of `s` leads to, under the
      character of `s` that follows that prefix. */
  ghost predicate NewEdgesOnPath(prev: Kids, next: Kids, n: nat, s: string) {
    WellFormed(next) && n < |next| &&
    forall m, c {:trigger c in next[m]} :: 0 <= m < |next| && c in next[m] && (m >= |prev| || c !in prev[m]) ==>
      exists j :: 0 <= j < |s| && s[j] == c && Walk(next, n, s[..j]) == Some(m)
  }

  /** The shape an insertion of the path `s` below `n` leaves: each missing
      child is a new empty node, appended and linked under its character. */
  ghost function Graft(kids: Kids, n: nat, s: string): (r: Kids)
    requires WellFormed(kids) && n < |kids| && Lower(s)
    decreases |s|
  {
    if s == [] then kids
    else if s[0] in kids[n] then Graft(kids, kids[n][s[0]], s[1..])
    else
      var m: map<char, nat> := kids[n][s[0] := |kids|];
      WellFormedGrow(kids);
      WellFormedLink(kids + [map[]], n, s[0], |kids|);
      Graft((kids + [map[]])[n := m], |kids|, s[1..])
  }

  /** One step of `Graft`: the child under `c` found or linked, the rest
      grafted below it. */
  lemma GraftStep(k0: Kids, k1: Kids, node: nat, c: char, next: nat, rest: string)
    requires WellFormed(k0) && WellFormed(k1) && node < |k0| && IsLower(c) && Lower(rest)
    requires c in k0[node] ==> next == k0[node][c] && k1 == k0
    requires c !in k0[node] ==>
      (var m: map<char, nat> := k0[node][c := next]; next == |k0| && k1 == (k0 + [map[]])[node := m])
    requires next < |k1|
    ensures Lower([c] + rest) && Graft(k0, node, [c] + rest) == Graft(k1, next, rest)
  {
    var s := [c] + rest;
    assert s[0] == c && s[1..] == rest;
  }

  /** The trie after the insertion of `s` below `n` keeps every edge, and
      each edge it adds lies on the path of `s` and leads to a new node. */
  lemma {:induction false} GraftEdges(kids: Kids, n: nat, s: string)
    requires WellFormed(kids) && n < |kids| && Lower(s)
    ensures var r := Graft(kids, n, s);
      WellFormed(r) && Extends(kids, r) && NewEdgesFresh(kids, r) && NewEdgesOnPath(kids, r, n, s)
    decreases |s|
  {
    if s == [] {
      NoNewEdges(kids, n, s);
    } else {
      var c, rest := s[0], s[1..];
      assert s == [c] + rest;
      var k1 := kids;
      var next: nat;
      if c in kids[n] {
        next := kids[n][c];
      } else {
        var m: map<char, nat> := kids[n][c := |kids|];
        WellFormedGrow(kids);
        WellFormedLink(kids + [map[]], n, c, |kids|);
        k1 := (kids + [map[]])[n := m];
        next := |kids|;
      }
      GraftEdges(k1, next, rest);
      var r := Graft(k1, next, rest);
      NewEdgesStep(kids, k1, r, n, c, next, rest);
      ExtendsTransitive(kids, k1, r);
    }
  }

  /** The insertion keeps a tree a tree: every new node gets one parent. */
  lemma {:induction false} GraftTree(kids: Kids, n: nat, s: string)
    requires WellFormed(kids) && n < |kids| && Lower(s) && Tree(kids)
    ensures Tree(Graft(kids, n, s))
    decreases |s|
  {
    if s != [] {
      var c := s[0];
      if c in kids[n] {
        GraftTree(kids, kids[n][c], s[1..]);
      } else {
        var m: map<char, nat> := kids[n][c := |kids|];
        WellFormedGrow(kids);
        WellFormedLink(kids + [map[]], n, c, |kids|);
        TreeLink(kids, n, c);
        GraftTree((kids + [map[]])[n := m], |kids|, s[1..]);
      }
    }
  }

  /** A trie that did not change has no new edges. */
  lemma NoNewEdges(kids: Kids, n: nat, s: string)
    requires WellFormed(kids) && n < |kids|
    ensures NewEdgesFresh(kids, kids) && NewEdgesOnPath(kids, kids, n, s)
  {
  }

  /** One step of the insertion, for the new edges: the child `next` of
      `node` under `c` was found (`k1` is `k0`) or created (`k1` adds it),
      and the rest was inserted below it. */
  lemma NewEdgesStep(k0: Kids, k1: Kids, k2: Kids, node: nat, c: char, next: nat, rest: string)
    requires WellFormed(k0) && WellFormed(k1) && WellFormed(k2) && node < |k0|
    requires c in k0[node] ==> next == k0[node][c] && k1 == k0
    requires c !in k0[node] ==>
      (var m: map<char, nat> := k0[node][c := next]; next == |k0| && k1 == (k0 + [map[]])[node := m])
    requires next < |k1| && Extends(k1, k2)
    requires NewEdgesFresh(k1, k2) && NewEdgesOnPath(k1, k2, next, rest)
    ensures NewEdgesFresh(k0, k2) && NewEdgesOnPath(k0, k2, node, [c] + rest)
  {
    var s := [c] + rest;
    forall m, d | 0 <= m < |k2| && d in k2[m] && (m >= |k0| || d !in k0[m])
      ensures k2[m][d] >= |k0| && exists j :: 0 <= j < |s| && s[j] == d && Walk(k2, node, s[..j]) == Some(m)
    {
      NewEdgeStep(k0, k1, k2, node, c, next, rest, m, d);
    }
  }

  /** The same step for one new edge, from `m` under `d`. */
  lemma NewEdgeStep(k0: Kids, k1: Kids, k2: Kids, node: nat, c: char, next: nat, rest: string, m: nat, d: char)
    requires WellFormed(k0) && WellFormed(k1) && WellFormed(k2) && node < |k0|
    requires c in k0[node] ==> next == k0[node][c] && k1 == k0
    requires c !in k0[node] ==>
      (var m: map<char, nat> := k0[node][c := next]; next == |k0| && k1 == (k0 + [map[]])[node := m])
    requires next < |k1| && Extends(k1, k2)
    requires NewEdgesFresh(k1, k2) && NewEdgesOnPath(k1, k2, next, rest)
    requires m < |k2| && d in k2[m] && (m >= |k0| || d !in k0[m])
    ensures k2[m][d] >= |k0|
    ensures exists j :: 0 <= j < |[c] + rest| && ([c] + rest)[j] == d && Walk(k2, node, ([c] + rest)[..j]) == Some(m)
  {
    var s := [c] + rest;
    assert c in k2[node] && k2[node][c] == next;
    if m < |k1| && d in k1[m] {
      LinkedEdge(k0, k1, node, c, next, m, d);
      assert s[..0] == [];
    } else {
      LaterEdge(k1, k2, node, c, next, rest, m, d);
    }
  }

  /** The only edge the first step adds is the link from `node` under `c`. */
  lemma LinkedEdge(k0: Kids, k1: Kids, node: nat, c: char, next: nat, m: nat, d: char)
    requires WellFormed(k0) && node < |k0|
    requires c in k0[node] ==> next == k0[node][c] && k1 == k0
    requires c !in k0[node] ==>
      (var m: map<char, nat> := k0[node][c := next]; next == |k0| && k1 == (k0 + [map[]])[node := m])
    requires m < |k1| && d in k1[m] && (m >= |k0| || d !in k0[m])
    ensures m == node && d == c && next == |k0|
  {
  }

  /** An edge added below `next` lies on the path `[c] + rest` from `node`,
      one character further along. */
  lemma LaterEdge(k1: Kids, k2: Kids, node: nat, c: char, next: nat, rest: string, m: nat, d: char)
    requires WellFormed(k2) && node < |k2| && c in k2[node] && k2[node][c] == next
    requires NewEdgesOnPath(k1, k2, next, rest)
    requires m < |k2| && d in k2[m] && (m >= |k1| || d !in k1[m])
    ensures exists j :: 0 <= j < |[c] + rest| && ([c] + rest)[j] == d && Walk(k2, node, ([c] + rest)[..j]) == Some(m)
  {
    var s := [c] + rest;
    var j :| 0 <= j < |rest| && rest[j] == d && Walk(k2, next, rest[..j]) == Some(m);
    var p := rest[..j];
    assert s[..j + 1] == [c] + p;
    assert ([c] + p)[0] == c && ([c] + p)[1..] == p;
    assert Walk(k2, node, s[..j + 1]) == Some(m);
    assert s[j + 1] == d;
  }

  /** `v` leads from the root to a node that ends a word. */
  ghost predicate IsWord(kids: Kids, wordLength: seq<int>, v: string) {
    WellFormed(kids) && Walk(kids, 0, v).Some? && Walk(kids, 0, v).value < |wordLength| &&
    wordLength[Walk(kids, 0, v).value] > 0
  }

  /** The words of a tree after an insertion of `u` that records the positive
      length `len`: exactly the words before, and `u`. */
  lemma InsertedWords(k0: Kids, k1: Kids, wl0: seq<int>, wl1: seq<int>, u: string, len: int, v: string)
    requires WellFormed(k0) && WellFormed(k1) && Tree(k1) && Extends(k0, k1) && NewEdgesFresh(k0, k1)
    requires |wl0| == |k0| && |wl1| == |k1| && len > 0
    requires Marked(wl0, wl1, Walk(k1, 0, u), len)
    ensures IsWord(k1, wl1, v) <==> IsWord(k0, wl0, v) || v == u
  {
    var e := Walk(k1, 0, u).value;
    if Walk(k0, 0, v).Some? {
      WalkExtends(k0, k1, 0, v);
    }
    if IsWord(k1, wl1, v) {
      var f := Walk(k1, 0, v).value;
      if f == e {
        WalkInjective(k1, v, u);
      } else if Walk(k0, 0, v).None? {
        WalkFresh(k0, k1, 0, v);
      }
    }
    if IsWord(k0, wl0, v) && v != u {
      if Walk(k1, 0, v) == Walk(k1, 0, u) {
        WalkInjective(k1, v, u);
      }
    }
  }

  /** The trie a lone root becomes once "a" is inserted, given the shape an
      insertion promises: two nodes, a path for "a", and no edge off it. */
  lemma OneWordShape(kids: Kids)
    requires WellFormed(kids) && |kids| == 2 && Walk(kids, 0, "a").Some? && NewEdgesOnPath([map[]], kids, 0, "a")
    ensures kids == [map['a' := 1], map[]]
  {
    assert "a"[0] == 'a' && "a"[1..] == [];
    assert 'a' in kids[0] && kids[0]['a'] == 1;
    forall d | d in kids[0] ensures d == 'a' {
      var j :| 0 <= j < |"a"| && "a"[j] == d && Walk(kids, 0, "a"[..j]) == Some(0);
    }
    assert kids[0] == map['a' := 1];
    assert kids[1] == map[];
  }

  /** The traversal of that trie: the root, then the node of "a". */
  lemma OneWordVisit()
    ensures Visit([map['a' := 1], map[]], 0, []) == [([], 0), ("a", 1)]
  {
    var kids: Kids := [map['a' := 1], map[]];
    VisitFromPast(kids, 1, "a", 'a' as int);
    VisitFromPast(kids, 0, [], 'b' as int);
    assert [] + ['a'] == "a";
    assert Visit(kids, 1, "a") == [("a", 1)];
    assert VisitFrom(kids, 0, [], 'a' as int) == Visit(kids, 1, "a") + VisitFrom(kids, 0, [], 'b' as int);
  }

  /** What the printer reports on that trie when only "a" ends a word. */
  lemma OneWordSelect(wordLength: seq<int>, importance: seq<int>)
    requires |wordLength| == |importance| == 2 && wordLength[0] <= 0 && wordLength[1] > 0
    ensures Select(AnyWord, Visit([map['a' := 1], map[]], 0, []), wordLength, importance) == [("a", importance[1])]
  {
    OneWordVisit();
    var xs: seq<(string, nat)> := [([], 0), ("a", 1)];
    assert xs[1..] == [("a", 1)] && xs[1..][1..] == [];
    assert Kept(AnyWord, xs[0], wordLength, importance) == [];
    assert Select(AnyWord, xs[1..], wordLength, importance) == [("a", importance[1])];
  }
}
