/**
 The character trie. Python's nested dictionaries become an arena of nodes:
 node v is a map from symbol to the index of its child, the root is node 0,
 and a fresh empty dictionary `{}` is a fresh empty map appended to the arena.
 A word is stored as the path of its characters followed by the terminator.
 */
module CharTrie {
  import opened Strings
  import opened Levenshtein
  import opened EditTable

  /** The reserved terminator symbol `"\0"` that ends every stored word. */
  const T: char := '\0'

  datatype Option<A> = None | Some(value: A)

  type Nodes = seq<map<char, nat>>

  /** The node reached from v by following the symbols of s, if every edge exists. */
  ghost function Follow(nodes: Nodes, v: nat, s: string): Option<nat>
    decreases |s|
  {
    if |s| == 0 then Some(v)
    else if v < |nodes| && s[0] in nodes[v] then Follow(nodes, nodes[v][s[0]], s[1..])
    else None
  }

  ghost predicate HasPath(nodes: Nodes, s: string)
  {
    Follow(nodes, 0, s).Some?
  }

  /** s (free of terminators) is stored below v: the path s + "\0" exists from v. */
  ghost predicate Below(nodes: Nodes, v: nat, s: string)
  {
    T !in s && Follow(nodes, v, s + [T]).Some?
  }

  /**
   The shape every trie keeps: a root, edges that point forward in the arena
   (so every walk terminates) and terminator edges that end in an empty node.
   */
  ghost predicate Arena(nodes: Nodes)
  {
    |nodes| >= 1 &&
    forall v, c :: 0 <= v < |nodes| && c in nodes[v] ==>
      v < nodes[v][c] < |nodes| && (c == T ==> nodes[nodes[v][c]] == map[])
  }

  /** pathOf[v] is the path from the root to v: every node has one parent. */
  ghost predicate Labelled(nodes: Nodes, pathOf: seq<string>)
  {
    |pathOf| == |nodes| >= 1 && pathOf[0] == [] &&
    forall v, c :: 0 <= v < |nodes| && c in nodes[v] && nodes[v][c] < |nodes| ==>
      pathOf[nodes[v][c]] == pathOf[v] + [c]
  }

  // ---------------------------------------------------------------------------
  // Paths

  lemma {:induction false} FollowAppend(nodes: Nodes, v: nat, p: string, q: string)
    ensures Follow(nodes, v, p + q) ==
            if Follow(nodes, v, p).Some? then Follow(nodes, Follow(nodes, v, p).value, q) else None
    decreases |p|
  {
    if |p| > 0 {
      assert (p + q)[0] == p[0] && (p + q)[1..] == p[1..] + q;
      if v < |nodes| && p[0] in nodes[v] {
        FollowAppend(nodes, nodes[v][p[0]], p[1..], q);
      }
    } else {
      assert p + q == q;
    }
  }

  lemma {:induction false} FollowLabel(nodes: Nodes, pathOf: seq<string>, v: nat, t: string, x: nat)
    requires Arena(nodes) && Labelled(nodes, pathOf) && v < |nodes|
    requires Follow(nodes, v, t) == Some(x)
    ensures x < |nodes| && pathOf[x] == pathOf[v] + t
    decreases |t|
  {
    if |t| > 0 {
      FollowLabel(nodes, pathOf, nodes[v][t[0]], t[1..], x);
      assert t == [t[0]] + t[1..];
    }
  }

  /** The arena after `node[c] = {}`: a new empty node, linked from `node` by c. */
  function Grow(nodes: Nodes, node: nat, c: char): Nodes
    requires node < |nodes|
  {
    (nodes + [map[]])[node := nodes[node][c := |nodes|]]
  }

  /** Growing keeps every path that already existed, ending at the same node. */
  lemma {:induction false} GrowKeeps(nodes: Nodes, node: nat, c: char, v: nat, t: string)
    requires Arena(nodes) && node < |nodes| && c !in nodes[node] && v < |nodes|
    requires Follow(nodes, v, t).Some?
    ensures Follow(Grow(nodes, node, c), v, t) == Follow(nodes, v, t)
    decreases |t|
  {
    if |t| > 0 {
      GrowKeeps(nodes, node, c, nodes[v][t[0]], t[1..]);
    }
  }

  /** The only new destination after growing is the new node itself. */
  lemma {:induction false} GrowOnlyNew(nodes: Nodes, node: nat, c: char, v: nat, t: string)
    requires Arena(nodes) && node < |nodes| && c !in nodes[node] && v < |nodes|
    requires Follow(Grow(nodes, node, c), v, t).Some?
    requires Follow(Grow(nodes, node, c), v, t) != Some(|nodes|)
    ensures Follow(nodes, v, t) == Follow(Grow(nodes, node, c), v, t)
    decreases |t|
  {
    var g := Grow(nodes, node, c);
    if |t| > 0 {
      var u := g[v][t[0]];
      if u == |nodes| {
        assert false;
      } else {
        GrowOnlyNew(nodes, node, c, u, t[1..]);
      }
    }
  }

  // ---------------------------------------------------------------------------
  // Words below a node

  function Head(s: string): char
  {
    if |s| == 0 then T else s[0]
  }

  /** x extends sofar, and the rest of x is stored below v. */
  ghost predicate Yieldable(nodes: Nodes, v: nat, sofar: string, x: string)
  {
    |sofar| <= |x| && x[..|sofar|] == sofar && Below(nodes, v, x[|sofar|..])
  }

  predicate NoDupWords(r: seq<(string, int)>)
  {
    forall a, b :: 0 <= a < b < |r| ==> r[a].0 != r[b].0
  }

  lemma NoDupConcat(r1: seq<(string, int)>, r2: seq<(string, int)>)
    requires NoDupWords(r1) && NoDupWords(r2)
    requires forall e1, e2 :: e1 in r1 && e2 in r2 ==> e1.0 != e2.0
    ensures NoDupWords(r1 + r2)
  {
    forall a, b | 0 <= a < b < |r1 + r2| ensures (r1 + r2)[a].0 != (r1 + r2)[b].0 {
      if b >= |r1| && a < |r1| {
        assert (r1 + r2)[a] in r1 && (r1 + r2)[b] in r2;
      }
    }
  }

  /** Descending along a non-terminator edge c narrows the words to those continuing with c. */
  lemma StepDown(nodes: Nodes, v: nat, sofar: string, c: char, x: string)
    requires Arena(nodes) && v < |nodes| && c in nodes[v] && c != T
    ensures Yieldable(nodes, v, sofar, x) && Head(x[|sofar|..]) == c <==>
            Yieldable(nodes, nodes[v][c], sofar + [c], x)
  {
    var u := nodes[v][c];
    var n := |sofar|;
    if Yieldable(nodes, v, sofar, x) && Head(x[n..]) == c {
      var s := x[n..];
      assert (s + [T])[0] == c && (s + [T])[1..] == s[1..] + [T];
      assert x[..n + 1] == sofar + [c];
      assert x[n + 1..] == s[1..];
    }
    if Yieldable(nodes, u, sofar + [c], x) {
      var s := x[n..];
      assert x[..n + 1] == sofar + [c];
      assert x[..n] == x[..n + 1][..n];
      assert s == [c] + x[n + 1..];
      assert (s + [T])[1..] == x[n + 1..] + [T];
    }
  }

  /** The terminator edge of v stands for exactly one word: the path so far. */
  lemma AtTerminator(nodes: Nodes, v: nat, sofar: string, x: string)
    requires v < |nodes|
    ensures Yieldable(nodes, v, sofar, x) && Head(x[|sofar|..]) == T <==> x == sofar && T in nodes[v]
  {
    assert Follow(nodes, v, [T]).Some? <==> T in nodes[v];
    if x == sofar {
      assert x[|sofar|..] == [];
      assert x[|sofar|..] + [T] == [T];
    }
    if Yieldable(nodes, v, sofar, x) && Head(x[|sofar|..]) == T {
      var s := x[|sofar|..];
      assert |s| == 0;
      assert x == x[..|sofar|];
      assert s + [T] == [T];
    }
  }

  lemma LeafHoldsNothing(nodes: Nodes, u: nat, sofar: string, x: string)
    requires u < |nodes| && nodes[u] == map[]
    ensures !Yieldable(nodes, u, sofar, x)
  {
    if |sofar| <= |x| {
      var s := x[|sofar|..];
      assert (s + [T])[0] == T || (s + [T])[0] in s;
    }
  }

  // ---------------------------------------------------------------------------
  // Enumeration

  /**
   `Trie.traverse`: every word stored below v, prefixed with `sofar`, each
   paired with the distance d the caller already committed to.
   */
  function Traverse(nodes: Nodes, d: int, v: nat, sofar: string): seq<(string, int)>
    requires Arena(nodes) && v < |nodes|
    decreases |nodes| - v, |nodes[v].Keys| + 1
  {
    TraverseKeys(nodes, d, v, sofar, nodes[v].Keys)
  }

  /** The loop of `traverse` over the children of v whose symbols are in keys. */
  function TraverseKeys(nodes: Nodes, d: int, v: nat, sofar: string, keys: set<char>): seq<(string, int)>
    requires Arena(nodes) && v < |nodes| && keys <= nodes[v].Keys
    decreases |nodes| - v, |keys|
  {
    if keys == {} then []
    else
      var c := Least(keys);
      (if c == T then [(sofar, d)] else Traverse(nodes, d, nodes[v][c], sofar + [c]))
      + TraverseKeys(nodes, d, v, sofar, keys - {c})
  }

  /** `traverse(d, node, sofar)` yields exactly `(sofar + s, d)` for each word s below node, once each. */
  lemma {:induction false} TraverseExact(nodes: Nodes, d: int, v: nat, sofar: string)
    requires Arena(nodes) && v < |nodes|
    ensures forall e :: e in Traverse(nodes, d, v, sofar) ==> e.1 == d && Yieldable(nodes, v, sofar, e.0)
    ensures forall x :: Yieldable(nodes, v, sofar, x) ==> (x, d) in Traverse(nodes, d, v, sofar)
    ensures NoDupWords(Traverse(nodes, d, v, sofar))
    decreases |nodes| - v, |nodes[v].Keys| + 1
  {
    TraverseKeysExact(nodes, d, v, sofar, nodes[v].Keys);
    forall x | Yieldable(nodes, v, sofar, x) ensures Head(x[|sofar|..]) in nodes[v].Keys {
      var s := x[|sofar|..];
      assert (s + [T])[0] == Head(s);
    }
  }

  lemma {:induction false} TraverseKeysExact(nodes: Nodes, d: int, v: nat, sofar: string, keys: set<char>)
    requires Arena(nodes) && v < |nodes| && keys <= nodes[v].Keys
    ensures forall e :: e in TraverseKeys(nodes, d, v, sofar, keys) ==>
              e.1 == d && Yieldable(nodes, v, sofar, e.0) && Head(e.0[|sofar|..]) in keys
    ensures forall x :: Yieldable(nodes, v, sofar, x) && Head(x[|sofar|..]) in keys ==>
              (x, d) in TraverseKeys(nodes, d, v, sofar, keys)
    ensures NoDupWords(TraverseKeys(nodes, d, v, sofar, keys))
    decreases |nodes| - v, |keys|
  {
    if keys != {} {
      var c := Least(keys);
      var rest := TraverseKeys(nodes, d, v, sofar, keys - {c});
      TraverseKeysExact(nodes, d, v, sofar, keys - {c});
      var first := if c == T then [(sofar, d)] else Traverse(nodes, d, nodes[v][c], sofar + [c]);
      assert TraverseKeys(nodes, d, v, sofar, keys) == first + rest;
      if c == T {
        AtTerminator(nodes, v, sofar, sofar);
        forall x | Yieldable(nodes, v, sofar, x) && Head(x[|sofar|..]) == c ensures x == sofar {
          AtTerminator(nodes, v, sofar, x);
        }
        assert sofar[|sofar|..] == [];
      } else {
        var u := nodes[v][c];
        TraverseExact(nodes, d, u, sofar + [c]);
        forall x ensures Yieldable(nodes, v, sofar, x) && Head(x[|sofar|..]) == c <==> Yieldable(nodes, u, sofar + [c], x) {
          StepDown(nodes, v, sofar, c, x);
        }
      }
      assert forall e :: e in first ==> Head(e.0[|sofar|..]) == c;
      NoDupConcat(first, rest);
    }
  }

  // ---------------------------------------------------------------------------
  // The trie object

  class Trie {
    /** The nested dictionaries, as an arena; `nodes[0]` is `self.root`. */
    var nodes: Nodes
    /** The path that leads from the root to each node. */
    ghost var pathOf: seq<string>
    /** The words inserted so far. */
    ghost var words: set<string>

    ghost predicate Valid()
      reads this
    {
      Arena(nodes) && Labelled(nodes, pathOf) &&
      forall s :: Below(nodes, 0, s) <==> s in words
    }

    constructor ()
      ensures Valid() && words == {}
    {
      nodes := [map[]];
      pathOf := [[]];
      words := {};
    }

    /**
     `Trie.insert`: walks the path of `w + "\0"` from the root, creating each
     missing child as a fresh empty node.
     */
    method Insert(w: string)
      requires Valid() && T !in w
      modifies this
      ensures Valid()
      ensures words == old(words) + {w}
      ensures forall t :: HasPath(old(nodes), t) ==> Follow(nodes, 0, t) == Follow(old(nodes), 0, t)
      ensures old(w in words) ==> nodes == old(nodes) && words == old(words)
    {
      var word := w + [T];
      ghost var start := nodes;
      var node: nat := 0;
      assert word[..0] == [];
      for i := 0 to |word|
        invariant InsertInv(nodes, pathOf, start, word, i, node)
        invariant words == old(words)
      {
        var c := word[i];
        if c !in nodes[node] {
          GrowStep(nodes, pathOf, start, w, i, node);
          pathOf := pathOf + [word[..i + 1]];
          nodes := Grow(nodes, node, c);
        } else {
          KeepStep(nodes, pathOf, start, w, i, node);
        }
        node := nodes[node][c];
      }
      InsertDone(nodes, pathOf, start, w, node, words);
      words := words + {w};
    }

    /**
     `Trie.fuzzy`: every stored word within the budget of the query, with its
     distance. The table has n + k + 1 rows, so the walk stops at depth
     n + k + 1 before it looks at the terminators there: a word of length
     n + k or more is never reported, and with k = 0 nothing is.
     */
    method Fuzzy(query: string, k: nat, kFn: DepthBudget, prefix: bool) returns (out: seq<(string, int)>)
      requires Valid()
      ensures forall e :: e in out ==>
                e.0 in words && e.1 == Reported(e.0, query, prefix) &&
                e.1 <= BudgetFn(kFn, k)(Depth(e.0, query, prefix)) &&
                (|e.0| < |query| + k || (prefix && |e.0| >= |query|))
      ensures forall w ::
                (w in words && (|w| < |query| + k || (prefix && |w| >= |query|)) &&
                 WithinBudget(w, query, prefix, BudgetFn(kFn, k), 1)) ==>
                (w, Reported(w, query, prefix)) in out
      ensures NoDupWords(out)
      ensures kFn.Default? && !prefix ==>
                forall w :: (w, Lev(w, query)) in out <==> w in words && Lev(w, query) <= k && |w| < |query| + k
      ensures kFn.Default? && !prefix && k == 0 ==> out == []
    {
      var n := |query|;
      var tab := NewTable(n, n + k + 1);
      FirstRowHolds(tab, query);
      out := FuzzyWalk(BudgetFn(kFn, k), tab, 0, 1, [], query, prefix);
      RootWords(nodes, words);
      if kFn.Default? && !prefix {
        forall w | w in words && Lev(w, query) <= k && |w| < n + k
          ensures WithinBudget(w, query, prefix, BudgetFn(kFn, k), 1)
        {
        }
        if k == 0 && out != [] {
          LengthGap(out[0].0, query);
        }
      }
    }

    /**
     The walk as evidently intended: one more table row, so that terminators
     at depth n + k + 1 are examined. It reports exactly the stored words
     within distance k, whatever their length.
     */
    method FuzzyCorrected(query: string, k: nat) returns (out: seq<(string, int)>)
      requires Valid()
      ensures forall e :: e in out ==> e.0 in words && e.1 == Lev(e.0, query) && e.1 <= k
      ensures forall w :: w in words && Lev(w, query) <= k ==> (w, Lev(w, query)) in out
      ensures NoDupWords(out)
    {
      var n := |query|;
      var tab := NewTable(n, n + k + 2);
      FirstRowHolds(tab, query);
      out := FuzzyWalk(BudgetFn(Default, k), tab, 0, 1, [], query, false);
      RootWords(nodes, words);
      forall w | w in words && Lev(w, query) <= k
        ensures Expected(nodes, 0, [], query, false, BudgetFn(Default, k), n + k + 2, 1, w)
      {
        LengthGap(w, query);
      }
    }

    /**
     `Trie.fuzzy_`: at depth i, below node v reached by `sofar`, with row i - 1
     of the table holding the distances from `sofar`. Reports each word it
     accepts once, and every word the budget and the table height admit.
     */
    method FuzzyWalk(kFn: nat -> int, tab: array2<int>, v: nat, i: nat, sofar: string, query: string, prefix: bool)
      returns (out: seq<(string, int)>)
      requires Arena(nodes) && v < |nodes|
      requires 1 <= i <= tab.Length0 && |sofar| == i - 1 && tab.Length0 > |query|
      requires RowHolds(tab, i - 1, sofar, query)
      requires prefix ==> i <= |query| + 1
      modifies tab
      decreases tab.Length0 - i
      ensures forall r, j :: 0 <= r < i && 0 <= j < tab.Length1 ==> tab[r, j] == old(tab[r, j])
      ensures forall e :: e in out ==> Sound(nodes, v, sofar, query, prefix, kFn, tab.Length0, e)
      ensures forall x :: Expected(nodes, v, sofar, query, prefix, kFn, tab.Length0, i, x) ==>
                (x, Reported(x, query, prefix)) in out
      ensures NoDupWords(out)
    {
      var k := kFn(i);
      if prefix && i >= |query| + 1 {
        // completion mode: the whole query is consumed
        var d := tab[i - 1, |query|];
        if d <= k {
          out := Traverse(nodes, d, v, sofar);
        } else {
          out := [];
        }
        PrefixBranch(nodes, v, sofar, query, kFn, tab.Length0, i, d, out);
        return;
      }
      if i >= tab.Length0 {
        CutoffBranch(nodes, v, sofar, query, prefix, kFn, tab.Length0, i);
        return [];
      }
      out := [];
      var remaining := nodes[v].Keys;
      ghost var processed: set<char> := {};
      while remaining != {}
        invariant remaining + processed == nodes[v].Keys && remaining !! processed
        invariant forall r, j :: 0 <= r < i && 0 <= j < tab.Length1 ==> tab[r, j] == old(tab[r, j])
        invariant forall e :: e in out ==>
                    Sound(nodes, v, sofar, query, prefix, kFn, tab.Length0, e) && Head(e.0[|sofar|..]) in processed
        invariant forall x ::
                    (Expected(nodes, v, sofar, query, prefix, kFn, tab.Length0, i, x) && Head(x[|sofar|..]) in processed) ==>
                    (x, Reported(x, query, prefix)) in out
        invariant NoDupWords(out)
        decreases remaining
      {
        var c :| c in remaining;
        var child := nodes[v][c];
        assert RowHolds(tab, i - 1, sofar, query);
        var d := tab[i - 1, |query|];
        if c == T && d <= k {
          TerminatorBranch(nodes, v, sofar, query, prefix, kFn, tab.Length0, i, d);
          NoDupConcat(out, [(sofar, d)]);
          out := out + [(sofar, d)];
        } else {
          FillRow(tab, i, c, query, sofar);
          var smallest := RowMin(tab, i, sofar + [c], query);
          ChildBranch(nodes, v, sofar, c, query, prefix, kFn, tab.Length0, i, d);
          if smallest <= k {
            var sub := FuzzyWalk(kFn, tab, child, i + 1, sofar + [c], query, prefix);
            NoDupConcat(out, sub);
            out := out + sub;
          }
        }
        remaining := remaining - {c};
        processed := processed + {c};
      }
    }
  }

  /**
   The state of `insert` after the first i symbols of `word`: node is the end
   of `word[..i]`, every path of the trie before the call is kept, and the
   only new paths are prefixes of `word[..i]`.
   */
  ghost predicate InsertInv(nodes: Nodes, pathOf: seq<string>, start: Nodes, word: string, i: nat, node: nat)
  {
    Arena(nodes) && Labelled(nodes, pathOf) && i <= |word| &&
    node < |nodes| && Follow(nodes, 0, word[..i]) == Some(node) && pathOf[node] == word[..i] &&
    |start| <= |nodes| &&
    (forall t :: HasPath(start, t) ==> Follow(nodes, 0, t) == Follow(start, 0, t)) &&
    (forall t :: HasPath(nodes, t) <==> HasPath(start, t) || (|t| <= i && t == word[..|t|])) &&
    (HasPath(start, word) ==> nodes == start)
  }

  /** Once all of `w + "\0"` is walked, the stored words are the old ones and w. */
  lemma InsertDone(nodes: Nodes, pathOf: seq<string>, start: Nodes, w: string, node: nat, words: set<string>)
    requires T !in w && InsertInv(nodes, pathOf, start, w + [T], |w + [T]|, node)
    requires forall s :: Below(start, 0, s) <==> s in words
    ensures forall s :: Below(nodes, 0, s) <==> s in words || s == w
  {
    var word := w + [T];
    assert word[..|word|] == word;
    forall s ensures Below(nodes, 0, s) <==> s in words || s == w {
      if |s| < |w| {
        assert word[..|s| + 1][|s|] == w[|s|] != T;
      }
    }
  }

  lemma KeepStep(nodes: Nodes, pathOf: seq<string>, start: Nodes, w: string, i: nat, node: nat)
    requires T !in w && i < |w + [T]| && InsertInv(nodes, pathOf, start, w + [T], i, node)
    requires (w + [T])[i] in nodes[node]
    ensures InsertInv(nodes, pathOf, start, w + [T], i + 1, nodes[node][(w + [T])[i]])
  {
    var word, c := w + [T], (w + [T])[i];
    assert word[..i + 1] == word[..i] + [c];
    FollowAppend(nodes, 0, word[..i], [c]);
    FollowLabel(nodes, pathOf, 0, word[..i + 1], nodes[node][c]);
    forall t ensures HasPath(nodes, t) <==> HasPath(start, t) || (|t| <= i + 1 && t == word[..|t|]) {
      if |t| == i + 1 && t == word[..|t|] {
        assert t == word[..i + 1];
      }
    }
  }

  lemma GrowStep(nodes: Nodes, pathOf: seq<string>, start: Nodes, w: string, i: nat, node: nat)
    requires T !in w && i < |w + [T]| && InsertInv(nodes, pathOf, start, w + [T], i, node)
    requires (w + [T])[i] !in nodes[node]
    ensures InsertInv(Grow(nodes, node, (w + [T])[i]), pathOf + [(w + [T])[..i + 1]], start, w + [T], i + 1, |nodes|)
  {
    var word, c := w + [T], (w + [T])[i];
    var g, pg := Grow(nodes, node, c), pathOf + [word[..i + 1]];
    GrowShapeStep(nodes, pathOf, start, w, i, node);
    GrowPathsStep(nodes, pathOf, start, w, i, node);
    InsertInvIntro(g, pg, start, word, i + 1, |nodes|);
  }

  /** The grown arena is well formed, labelled, and the next prefix of the word reaches the new node. */
  lemma GrowShapeStep(nodes: Nodes, pathOf: seq<string>, start: Nodes, w: string, i: nat, node: nat)
    requires T !in w && i < |w + [T]| && InsertInv(nodes, pathOf, start, w + [T], i, node)
    requires (w + [T])[i] !in nodes[node]
    ensures var g := Grow(nodes, node, (w + [T])[i]);
      Arena(g) && Labelled(g, pathOf + [(w + [T])[..i + 1]]) && |g| == |nodes| + 1 &&
      Follow(g, 0, (w + [T])[..i + 1]) == Some(|nodes|)
  {
    var word, c := w + [T], (w + [T])[i];
    assert word[..i + 1] == word[..i] + [c];
    assert i <= |w| && word[..i] == w[..i];
    NotTerminatorChild(nodes, pathOf, node, w, i);
    GrowShape(nodes, pathOf, node, c);
    GrowReach(nodes, node, c, word[..i]);
  }

  /** After growing, old paths keep their ends and exactly one new path exists. */
  lemma GrowPathsStep(nodes: Nodes, pathOf: seq<string>, start: Nodes, w: string, i: nat, node: nat)
    requires T !in w && i < |w + [T]| && InsertInv(nodes, pathOf, start, w + [T], i, node)
    requires (w + [T])[i] !in nodes[node]
    requires var g := Grow(nodes, node, (w + [T])[i]);
      Arena(g) && Labelled(g, pathOf + [(w + [T])[..i + 1]]) && |g| == |nodes| + 1 &&
      Follow(g, 0, (w + [T])[..i + 1]) == Some(|nodes|)
    ensures var g := Grow(nodes, node, (w + [T])[i]);
      (forall t :: HasPath(start, t) ==> Follow(g, 0, t) == Follow(start, 0, t)) &&
      (forall t :: HasPath(g, t) <==> HasPath(start, t) || (|t| <= i + 1 && t == (w + [T])[..|t|])) &&
      !HasPath(start, w + [T])
  {
    var word, c := w + [T], (w + [T])[i];
    NotStoredYet(nodes, start, word, i, node);
    GrowOldPaths(nodes, start, node, c);
    GrowNewPaths(nodes, pathOf + [word[..i + 1]], start, word, i, node);
  }

  /** The word is not stored yet when an edge along it is still missing. */
  lemma NotStoredYet(nodes: Nodes, start: Nodes, word: string, i: nat, node: nat)
    requires i < |word| && node < |nodes| && Follow(nodes, 0, word[..i]) == Some(node) && word[i] !in nodes[node]
    requires forall t :: HasPath(start, t) ==> Follow(nodes, 0, t) == Follow(start, 0, t)
    ensures !HasPath(start, word)
  {
    FollowAppend(nodes, 0, word[..i], word[i..]);
    assert word[..i] + word[i..] == word;
    assert word[i..][0] == word[i];
    assert Follow(nodes, 0, word) == None;
  }

  /** The new edge extends the path that reached its source. */
  lemma GrowReach(nodes: Nodes, node: nat, c: char, p: string)
    requires Arena(nodes) && node < |nodes| && c !in nodes[node] && Follow(nodes, 0, p) == Some(node)
    ensures Follow(Grow(nodes, node, c), 0, p + [c]) == Some(|nodes|)
  {
    GrowKeeps(nodes, node, c, 0, p);
    FollowAppend(Grow(nodes, node, c), 0, p, [c]);
  }

  lemma InsertInvIntro(nodes: Nodes, pathOf: seq<string>, start: Nodes, word: string, i: nat, node: nat)
    requires Arena(nodes) && Labelled(nodes, pathOf) && i <= |word|
    requires node < |nodes| && Follow(nodes, 0, word[..i]) == Some(node) && pathOf[node] == word[..i]
    requires |start| <= |nodes|
    requires forall t :: HasPath(start, t) ==> Follow(nodes, 0, t) == Follow(start, 0, t)
    requires forall t :: HasPath(nodes, t) <==> HasPath(start, t) || (|t| <= i && t == word[..|t|])
    requires !HasPath(start, word)
    ensures InsertInv(nodes, pathOf, start, word, i, node)
  {
  }

  /** Paths that existed before the insertion started still lead where they did. */
  lemma GrowOldPaths(nodes: Nodes, start: Nodes, node: nat, c: char)
    requires Arena(nodes) && node < |nodes| && c !in nodes[node]
    requires forall t :: HasPath(start, t) ==> Follow(nodes, 0, t) == Follow(start, 0, t)
    ensures forall t :: HasPath(start, t) ==> Follow(Grow(nodes, node, c), 0, t) == Follow(start, 0, t)
  {
    forall t | HasPath(start, t) ensures Follow(Grow(nodes, node, c), 0, t) == Follow(start, 0, t) {
      GrowKeeps(nodes, node, c, 0, t);
    }
  }

  /** The new edge adds exactly one path: the next prefix of the word. */
  lemma GrowNewPaths(nodes: Nodes, pg: seq<string>, start: Nodes, word: string, i: nat, node: nat)
    requires i < |word| && node < |nodes| && Arena(nodes) && word[i] !in nodes[node]
    requires Arena(Grow(nodes, node, word[i])) && Labelled(Grow(nodes, node, word[i]), pg)
    requires pg[|nodes|] == word[..i + 1] && pg[0] == []
    requires Follow(Grow(nodes, node, word[i]), 0, word[..i + 1]) == Some(|nodes|)
    requires forall t :: HasPath(nodes, t) <==> HasPath(start, t) || (|t| <= i && t == word[..|t|])
    ensures forall t :: HasPath(Grow(nodes, node, word[i]), t) <==> HasPath(start, t) || (|t| <= i + 1 && t == word[..|t|])
  {
    var g := Grow(nodes, node, word[i]);
    forall t | HasPath(nodes, t) ensures HasPath(g, t) {
      GrowKeeps(nodes, node, word[i], 0, t);
    }
    forall t | HasPath(g, t) ensures HasPath(nodes, t) || t == word[..i + 1] {
      if Follow(g, 0, t) == Some(|nodes|) {
        FollowLabel(g, pg, 0, t, |nodes|);
      } else {
        GrowOnlyNew(nodes, node, word[i], 0, t);
      }
    }
    forall t ensures HasPath(g, t) <==> HasPath(start, t) || (|t| <= i + 1 && t == word[..|t|]) {
      if |t| == i + 1 && t == word[..|t|] {
        assert t == word[..i + 1];
      }
    }
  }

  /** The node a new edge is added to is never the end of a terminator edge. */
  lemma NotTerminatorChild(nodes: Nodes, pathOf: seq<string>, node: nat, w: string, i: nat)
    requires Arena(nodes) && Labelled(nodes, pathOf) && node < |nodes|
    requires T !in w && i <= |w| && pathOf[node] == w[..i]
    ensures forall p :: 0 <= p < |nodes| && T in nodes[p] ==> nodes[p][T] != node
  {
    assert T !in pathOf[node];
    forall p | 0 <= p < |nodes| && T in nodes[p] ensures nodes[p][T] != node {
      assert pathOf[nodes[p][T]] == pathOf[p] + [T];
      assert T in pathOf[nodes[p][T]];
    }
  }

  /** Growing at a node that is not a terminator child keeps the arena's shape and its labels. */
  lemma GrowShape(nodes: Nodes, pathOf: seq<string>, node: nat, c: char)
    requires Arena(nodes) && Labelled(nodes, pathOf) && node < |nodes| && c !in nodes[node]
    requires forall p :: 0 <= p < |nodes| && T in nodes[p] ==> nodes[p][T] != node
    ensures Arena(Grow(nodes, node, c))
    ensures Labelled(Grow(nodes, node, c), pathOf + [pathOf[node] + [c]])
  {
    var g := Grow(nodes, node, c);
    var pg := pathOf + [pathOf[node] + [c]];
    forall v, c' | 0 <= v < |g| && c' in g[v]
      ensures v < g[v][c'] < |g| && (c' == T ==> g[g[v][c']] == map[])
      ensures pg[g[v][c']] == pg[v] + [c']
    {
      if v == node && c' == c {
      } else {
        assert v < |nodes| && c' in nodes[v];
      }
    }
  }

  // ---------------------------------------------------------------------------
  // What the bounded walk of `Trie.fuzzy_` reports

  /** The optional `k_fn` of `Trie.fuzzy`: a budget per trie depth, by default the constant k. */
  datatype DepthBudget = Default | Custom(fn: nat -> int)

  function BudgetFn(kFn: DepthBudget, k: int): nat -> int
  {
    if kFn.Custom? then kFn.fn else (_: nat) => k
  }

  /** What a reported word is compared with: in completion mode, only its first n symbols. */
  function Target(x: string, query: string, prefix: bool): string
  {
    if prefix && |x| >= |query| then x[..|query|] else x
  }

  ghost function Reported(x: string, query: string, prefix: bool): nat
  {
    Lev(Target(x, query, prefix), query)
  }

  /** The depth of the call that accepts x: one below its terminator, or n + 1 when completing. */
  function Depth(x: string, query: string, prefix: bool): nat
  {
    |Target(x, query, prefix)| + 1
  }

  /** The budget admits x's distance at every depth from `from` down to where x is accepted. */
  ghost predicate WithinBudget(x: string, query: string, prefix: bool, kFn: nat -> int, from: nat)
  {
    forall r: nat :: from <= r <= Depth(x, query, prefix) ==> Reported(x, query, prefix) <= kFn(r)
  }

  /** x is short enough for a table of `rows` rows (or is reached by completion). */
  predicate InReach(x: string, query: string, prefix: bool, rows: nat)
  {
    |x| + 1 < rows || (prefix && |x| >= |query|)
  }

  /** A pair the walk may report: a stored word, its true distance, within budget and reach. */
  ghost predicate Sound(nodes: Nodes, v: nat, sofar: string, query: string, prefix: bool,
                        kFn: nat -> int, rows: nat, e: (string, int))
  {
    Yieldable(nodes, v, sofar, e.0) && e.1 == Reported(e.0, query, prefix) &&
    e.1 <= kFn(Depth(e.0, query, prefix)) && InReach(e.0, query, prefix, rows)
  }

  /** A word the walk at depth i must report. */
  ghost predicate Expected(nodes: Nodes, v: nat, sofar: string, query: string, prefix: bool,
                           kFn: nat -> int, rows: nat, i: nat, x: string)
  {
    Yieldable(nodes, v, sofar, x) && InReach(x, query, prefix, rows) && WithinBudget(x, query, prefix, kFn, i)
  }

  lemma RootWords(nodes: Nodes, words: set<string>)
    requires forall s :: Below(nodes, 0, s) <==> s in words
    ensures forall x :: Yieldable(nodes, 0, [], x) <==> x in words
  {
    forall x ensures Yieldable(nodes, 0, [], x) <==> Below(nodes, 0, x) {
      assert x[0..] == x;
    }
  }

  lemma PrefixBranch(nodes: Nodes, v: nat, sofar: string, query: string, kFn: nat -> int, rows: nat, i: nat,
                     d: int, out: seq<(string, int)>)
    requires Arena(nodes) && v < |nodes| && i == |query| + 1 && |sofar| == i - 1
    requires d == Lev(sofar, query[..|query|])
    requires out == if d <= kFn(i) then Traverse(nodes, d, v, sofar) else []
    ensures forall e :: e in out ==> Sound(nodes, v, sofar, query, true, kFn, rows, e)
    ensures forall x :: Expected(nodes, v, sofar, query, true, kFn, rows, i, x) ==> (x, Reported(x, query, true)) in out
    ensures NoDupWords(out)
  {
    assert query[..|query|] == query;
    TraverseExact(nodes, d, v, sofar);
    forall x | Yieldable(nodes, v, sofar, x)
      ensures Reported(x, query, true) == d && Depth(x, query, true) == i && InReach(x, query, true, rows)
    {
      assert Target(x, query, true) == sofar;
    }
  }

  lemma CutoffBranch(nodes: Nodes, v: nat, sofar: string, query: string, prefix: bool, kFn: nat -> int, rows: nat, i: nat)
    requires |sofar| == i - 1 && i >= rows > |query| && !(prefix && i >= |query| + 1)
    ensures forall x :: !Expected(nodes, v, sofar, query, prefix, kFn, rows, i, x)
  {
  }

  lemma TerminatorBranch(nodes: Nodes, v: nat, sofar: string, query: string, prefix: bool,
                         kFn: nat -> int, rows: nat, i: nat, d: int)
    requires Arena(nodes) && v < |nodes| && T in nodes[v]
    requires 1 <= i < rows && |sofar| == i - 1 && !(prefix && i >= |query| + 1)
    requires d == Lev(sofar, query[..|query|]) && d <= kFn(i)
    ensures Sound(nodes, v, sofar, query, prefix, kFn, rows, (sofar, d)) && Head(sofar[|sofar|..]) == T
    ensures forall x :: Yieldable(nodes, v, sofar, x) && Head(x[|sofar|..]) == T ==>
              x == sofar && Reported(x, query, prefix) == d
  {
    assert query[..|query|] == query;
    AtTerminator(nodes, v, sofar, sofar);
    forall x | Yieldable(nodes, v, sofar, x) && Head(x[|sofar|..]) == T ensures x == sofar {
      AtTerminator(nodes, v, sofar, x);
    }
    assert sofar[|sofar|..] == [];
  }

  /**
   What one child edge c contributes: the child's reports are the parent's
   reports that continue with c, and a word the parent must report through c
   passes the pruning test on row i.
   */
  lemma ChildBranch(nodes: Nodes, v: nat, sofar: string, c: char, query: string, prefix: bool,
                    kFn: nat -> int, rows: nat, i: nat, d: int)
    requires Arena(nodes) && v < |nodes| && c in nodes[v]
    requires 1 <= i < rows && |sofar| == i - 1 && !(prefix && i >= |query| + 1)
    requires d == Lev(sofar, query[..|query|]) && (c == T ==> d > kFn(i))
    ensures forall e :: Sound(nodes, nodes[v][c], sofar + [c], query, prefix, kFn, rows, e) ==>
              Sound(nodes, v, sofar, query, prefix, kFn, rows, e) && Head(e.0[|sofar|..]) == c
    ensures forall x :: Expected(nodes, v, sofar, query, prefix, kFn, rows, i, x) && Head(x[|sofar|..]) == c ==>
              Expected(nodes, nodes[v][c], sofar + [c], query, prefix, kFn, rows, i + 1, x) &&
              MinRow(sofar + [c], query, |query|) <= kFn(i)
  {
    var u := nodes[v][c];
    assert query[..|query|] == query;
    if c == T {
      forall e | Sound(nodes, u, sofar + [c], query, prefix, kFn, rows, e) ensures false {
        LeafHoldsNothing(nodes, u, sofar + [c], e.0);
      }
      forall x | Expected(nodes, v, sofar, query, prefix, kFn, rows, i, x) ensures Head(x[|sofar|..]) != T {
        AtTerminator(nodes, v, sofar, x);
      }
    } else {
      forall x ensures Yieldable(nodes, v, sofar, x) && Head(x[|sofar|..]) == c <==> Yieldable(nodes, u, sofar + [c], x) {
        StepDown(nodes, v, sofar, c, x);
      }
      forall x | Expected(nodes, v, sofar, query, prefix, kFn, rows, i, x) && Head(x[|sofar|..]) == c
        ensures MinRow(sofar + [c], query, |query|) <= kFn(i)
      {
        var t := Target(x, query, prefix);
        assert x[..i] == sofar + [c];
        assert |t| >= i && t[..i] == sofar + [c];
        ExtensionLowerBound(sofar + [c], t, query);
      }
    }
  }

  /**
   The cut-off of `Trie.fuzzy` on a concrete trie: with query "cat" and k = 1
   the stored word "cats", at distance 1, is missed, while the walk with one
   more row reports it.
   */
  method CutoffMissesLongWord() returns (asWritten: seq<(string, int)>, corrected: seq<(string, int)>)
    ensures Lev("cats", "cat") == 1
    ensures ("cats", 1) !in asWritten
    ensures ("cats", 1) in corrected
  {
    var t := new Trie();
    t.Insert("cat");
    t.Insert("cats");
    t.Insert("bat");
    t.Insert("rat");
    LevAppendOne("cat", 's');
    assert "cat" + ['s'] == "cats";
    asWritten := t.Fuzzy("cat", 1, Default, false);
    corrected := t.FuzzyCorrected("cat", 1);
  }
}
