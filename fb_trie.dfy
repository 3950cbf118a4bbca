/**
 The forward/backward index: a trie of the words as they are and a trie of the
 words reversed. A query is split at its midpoint; the forward trie is walked
 with a small budget until the first half of the query is matched and the full
 budget afterwards, and the backward trie likewise against the reversed second
 half. Both walks visit children in ascending symbol order.
 */
module ForwardBackward {
  import opened Strings
  import opened Levenshtein
  import opened EditTable
  import opened CharTrie

  /** A pair a walk may report: a word below v, its true distance, within k and within the table. */
  ghost predicate Accepted(nodes: Nodes, v: nat, sofar: string, query: string, k: int, rows: nat, e: (string, int))
  {
    Yieldable(nodes, v, sofar, e.0) && e.1 == Lev(e.0, query) && e.1 <= k && |e.0| + 1 < rows
  }

  /** Some prefix of x of length at least i is within subk of the first part `subq` of the query. */
  ghost predicate HalfMatched(x: string, subq: string, subk: int, i: nat)
  {
    exists m :: i <= m <= |x| && Lev(x[..m], subq) <= subk
  }

  /** Some non-empty suffix of x is within `bound` of h. */
  ghost predicate TailMatched(x: string, h: string, bound: int)
  {
    exists j :: 0 <= j < |x| && Lev(x[j..], h) <= bound
  }

  /**
   A word the two-phase walk at depth i must report: within k of the query,
   short enough for the table, and, while the walk is still in phase 1,
   either accepted at this depth or matching the first part in budget at a
   depth still ahead.
   */
  ghost predicate Due(nodes: Nodes, v: nat, sofar: string, query: string, subq: string, subk: int, k: int,
                      rows: nat, i: nat, phase: int, x: string)
  {
    Yieldable(nodes, v, sofar, x) && Lev(x, query) <= k && |x| + 1 < rows &&
    (phase == 2 || |x| < i || HalfMatched(x, subq, subk, i))
  }

  /** The backward word set holds exactly the reversals of the forward word set. */
  ghost predicate Mirrored(fw: set<string>, bw: set<string>)
  {
    forall s {:trigger s in bw} :: s in bw <==> Reverse(s) in fw
  }

  /** Strictly ascending in lexicographic order of the words (so no word twice). */
  predicate LexSorted(r: seq<(string, int)>)
  {
    forall a, b :: 0 <= a < b < |r| ==> LexLess(r[a].0, r[b].0)
  }

  /** The words of a result list read backwards, each in strictly ascending order. */
  ghost predicate ReverseSorted(r: seq<(string, int)>)
  {
    forall a, b :: 0 <= a < b < |r| ==> LexLess(Reverse(r[a].0), Reverse(r[b].0))
  }

  lemma NoDupFromSorted(r: seq<(string, int)>)
    requires LexSorted(r)
    ensures NoDupWords(r)
  {
    forall a, b | 0 <= a < b < |r| ensures r[a].0 != r[b].0 {
      LexLessIrreflexive(r[a].0);
    }
  }

  /**
   Every stored word within k of the query and shorter than n + k that is
   empty or has a non-empty prefix within subk of subq is among the results,
   at its distance.
   */
  ghost predicate Covers(r: seq<(string, int)>, words: set<string>, query: string, k: int, subq: string, subk: int)
  {
    forall x {:trigger x in words} ::
      (x in words && Lev(x, query) <= k && |x| < |query| + k && (|x| == 0 || HalfMatched(x, subq, subk, 1))) ==>
      (x, Lev(x, query)) in r
  }

  /** The same for words that are empty or have a non-empty suffix within `bound` of h. */
  ghost predicate CoversTails(r: seq<(string, int)>, words: set<string>, query: string, k: int, h: string, bound: int)
  {
    forall w {:trigger w in words} ::
      (w in words && Lev(w, query) <= k && |w| < |query| + k && (|w| == 0 || TailMatched(w, h, bound))) ==>
      (w, Lev(w, query)) in r
  }

  /** Every result is a stored word at its true distance, within k, and shorter than n + k. */
  ghost predicate InBudget(r: seq<(string, int)>, words: set<string>, query: string, k: int)
  {
    forall e :: e in r ==> e.0 in words && e.1 == Lev(e.0, query) && e.1 <= k && |e.0| < |query| + k
  }

  lemma InBudgetConcat(a: seq<(string, int)>, b: seq<(string, int)>, words: set<string>, query: string, k: int)
    requires InBudget(a, words, query, k) && InBudget(b, words, query, k)
    ensures InBudget(a + b, words, query, k)
  {
  }

  /** With budget 0 and the length cut-off at n, no result can remain. */
  lemma NothingWithinZero(r: seq<(string, int)>, words: set<string>, query: string)
    requires InBudget(r, words, query, 0)
    ensures r == []
  {
    if r != [] {
      assert r[0] in r;
      LengthGap(r[0].0, query);
    }
  }

  /** Two words below the same path are ordered by the first symbols where they leave it. */
  lemma HeadOrder(sofar: string, x: string, y: string)
    requires |sofar| <= |x| && x[..|sofar|] == sofar
    requires |sofar| <= |y| && y[..|sofar|] == sofar
    requires Head(x[|sofar|..]) < Head(y[|sofar|..])
    ensures LexLess(x, y)
  {
    var m := |sofar|;
    assert x[..m] == y[..m];
    LexLessAt(x, y, m);
  }

  lemma SortedConcat(a: seq<(string, int)>, b: seq<(string, int)>)
    requires LexSorted(a) && LexSorted(b)
    requires forall e, f :: e in a && f in b ==> LexLess(e.0, f.0)
    ensures LexSorted(a + b)
  {
    forall p, q | 0 <= p < q < |a + b| ensures LexLess((a + b)[p].0, (a + b)[q].0) {
      if q < |a| {
      } else if p >= |a| {
        assert (a + b)[p] == b[p - |a|] && (a + b)[q] == b[q - |a|];
      } else {
        assert (a + b)[p] in a && (a + b)[q] in b;
      }
    }
  }

  /** The new results, all leaving `sofar` by symbol c, follow the old ones, which leave it by smaller symbols. */
  lemma AppendInOrder(out: seq<(string, int)>, sub: seq<(string, int)>, sofar: string, processed: set<char>, c: char)
    requires LexSorted(out) && LexSorted(sub)
    requires forall e :: e in out ==> |sofar| <= |e.0| && e.0[..|sofar|] == sofar && Head(e.0[|sofar|..]) in processed
    requires forall e :: e in sub ==> |sofar| <= |e.0| && e.0[..|sofar|] == sofar && Head(e.0[|sofar|..]) == c
    requires forall p :: p in processed ==> p < c
    ensures LexSorted(out + sub)
  {
    forall e, f | e in out && f in sub ensures LexLess(e.0, f.0) {
      HeadOrder(sofar, e.0, f.0);
    }
    SortedConcat(out, sub);
  }

  /** At a terminator within budget, the walk reports `sofar` itself and nothing else leaves by that edge. */
  lemma FinishBranch(nodes: Nodes, v: nat, sofar: string, query: string, k: int, rows: nat, i: nat, d: int)
    requires Arena(nodes) && v < |nodes| && T in nodes[v]
    requires 1 <= i < rows && |sofar| == i - 1
    requires d == Lev(sofar, query[..|query|]) && d <= k
    ensures Accepted(nodes, v, sofar, query, k, rows, (sofar, d)) && Head(sofar[|sofar|..]) == T
    ensures forall x :: Yieldable(nodes, v, sofar, x) && Head(x[|sofar|..]) == T ==> x == sofar && Lev(x, query) == d
  {
    assert query[..|query|] == query;
    AtTerminator(nodes, v, sofar, sofar);
    forall x | Yieldable(nodes, v, sofar, x) && Head(x[|sofar|..]) == T ensures x == sofar {
      AtTerminator(nodes, v, sofar, x);
    }
    assert sofar[|sofar|..] == [];
  }

  /** The reports below the child by c are reports of this walk, leaving `sofar` by c. */
  lemma DescendSound(nodes: Nodes, v: nat, sofar: string, c: char, query: string, k: int, rows: nat)
    requires Arena(nodes) && v < |nodes| && c in nodes[v]
    ensures forall e :: Accepted(nodes, nodes[v][c], sofar + [c], query, k, rows, e) ==>
              Accepted(nodes, v, sofar, query, k, rows, e) && Head(e.0[|sofar|..]) == c
  {
    var u := nodes[v][c];
    if c == T {
      forall e | Accepted(nodes, u, sofar + [c], query, k, rows, e) ensures false {
        LeafHoldsNothing(nodes, u, sofar + [c], e.0);
      }
    } else {
      forall e | Accepted(nodes, u, sofar + [c], query, k, rows, e)
        ensures Yieldable(nodes, v, sofar, e.0) && Head(e.0[|sofar|..]) == c
      {
        StepDown(nodes, v, sofar, c, e.0);
      }
    }
  }

  /**
   A word due at depth i that leaves `sofar` by a symbol c other than the
   terminator is due below the child: in phase 2 by the lower bound of the row
   minimum, in phase 1 either because the switch happens on this row or
   because the match of the first part lies deeper, which keeps the row
   minimum within the small budget.
   */
  lemma DescendOne(nodes: Nodes, v: nat, sofar: string, c: char, query: string, subq: string,
                   subk: int, k: int, rows: nat, i: nat, phase: int, x: string)
    requires Arena(nodes) && v < |nodes| && c in nodes[v] && c != T
    requires |sofar| == i - 1 && 1 <= i
    requires |subq| <= |query| && subq == query[..|subq|]
    requires phase == 1 || phase == 2
    requires phase == 2 ==> subk == k
    requires Due(nodes, v, sofar, query, subq, subk, k, rows, i, phase, x) && Head(x[|sofar|..]) == c
    ensures Yieldable(nodes, nodes[v][c], sofar + [c], x)
    ensures phase != 1 || Lev(sofar + [c], subq) > subk ==> MinRow(sofar + [c], query, |query|) <= subk
    ensures phase == 1 && Lev(sofar + [c], subq) > subk ==> HalfMatched(x, subq, subk, i + 1)
  {
    StepDown(nodes, v, sofar, c, x);
    assert |x| >= i && x[i - 1] == c;
    assert x[..i] == sofar + [c];
    PhaseStep(x, sofar + [c], query, subq, subk, k, i, phase);
  }

  /** The same step on the word alone: x continues with the row's path p of length i. */
  lemma PhaseStep(x: string, p: string, query: string, subq: string, subk: int, k: int, i: nat, phase: int)
    requires |p| == i <= |x| && x[..i] == p
    requires |subq| <= |query| && subq == query[..|subq|]
    requires phase == 1 || phase == 2
    requires phase == 2 ==> subk == k
    requires Lev(x, query) <= k
    requires phase == 2 || HalfMatched(x, subq, subk, i)
    ensures phase != 1 || Lev(p, subq) > subk ==> MinRow(p, query, |query|) <= subk
    ensures phase == 1 && Lev(p, subq) > subk ==> HalfMatched(x, subq, subk, i + 1)
  {
    if phase != 1 {
      ExtensionLowerBound(p, x, query);
    } else if Lev(p, subq) > subk {
      var m :| i <= m <= |x| && Lev(x[..m], subq) <= subk;
      assert m != i;
      assert x[..m][..i] == p;
      HalfLowerBound(p, x[..m], subq, query);
    }
  }

  /** No word due at depth i leaves `sofar` by a terminator edge whose distance is over budget. */
  lemma NotByTerminator(nodes: Nodes, v: nat, sofar: string, query: string, subq: string,
                        subk: int, k: int, rows: nat, i: nat, phase: int, x: string)
    requires Arena(nodes) && v < |nodes| && T in nodes[v]
    requires Lev(sofar, query) > k
    requires Due(nodes, v, sofar, query, subq, subk, k, rows, i, phase, x)
    ensures Head(x[|sofar|..]) != T
  {
    AtTerminator(nodes, v, sofar, x);
  }

  /** `DescendOne` for every due word leaving by c, in the shape the walk uses. */
  lemma DescendComplete(nodes: Nodes, v: nat, sofar: string, c: char, query: string, subq: string,
                        subk: int, k: int, rows: nat, i: nat, phase: int, d: int, switch: bool)
    requires Arena(nodes) && v < |nodes| && c in nodes[v]
    requires 1 <= i && |sofar| == i - 1
    requires |subq| <= |query| && subq == query[..|subq|]
    requires phase == 1 || phase == 2
    requires phase == 2 ==> subk == k
    requires d == Lev(sofar, query[..|query|]) && (c == T ==> d > k)
    requires switch == (phase == 1 && Lev(sofar + [c], subq) <= subk)
    ensures forall x :: Due(nodes, v, sofar, query, subq, subk, k, rows, i, phase, x) && Head(x[|sofar|..]) == c ==>
              if switch then Due(nodes, nodes[v][c], sofar + [c], query, subq, k, k, rows, i + 1, 2, x)
              else MinRow(sofar + [c], query, |query|) <= subk &&
                   Due(nodes, nodes[v][c], sofar + [c], query, subq, subk, k, rows, i + 1, phase, x)
  {
    assert query[..|query|] == query;
    forall x | Due(nodes, v, sofar, query, subq, subk, k, rows, i, phase, x) && Head(x[|sofar|..]) == c
      ensures if switch then Due(nodes, nodes[v][c], sofar + [c], query, subq, k, k, rows, i + 1, 2, x)
              else MinRow(sofar + [c], query, |query|) <= subk &&
                   Due(nodes, nodes[v][c], sofar + [c], query, subq, subk, k, rows, i + 1, phase, x)
    {
      if c == T {
        NotByTerminator(nodes, v, sofar, query, subq, subk, k, rows, i, phase, x);
      } else {
        DescendOne(nodes, v, sofar, c, query, subq, subk, k, rows, i, phase, x);
      }
    }
  }

  /** The index: a forward trie and a backward trie holding the same words, the latter reversed. */
  class FBTrie {
    var f: Trie
    var b: Trie

    ghost predicate Valid()
      reads this, f, b
    {
      f != b && f.Valid() && b.Valid() && Mirrored(f.words, b.words)
    }

    constructor ()
      ensures Valid() && f.words == {} && fresh(f) && fresh(b)
    {
      f := new Trie();
      b := new Trie();
    }

    /** `FBTrie.insert`: the word goes into the forward trie and its reversal into the backward one. */
    method Insert(w: string)
      requires Valid() && T !in w
      modifies f, b
      ensures Valid()
      ensures f.words == old(f.words) + {w} && b.words == old(b.words) + {Reverse(w)}
    {
      f.Insert(w);
      ReverseMember(w, T);
      b.Insert(Reverse(w));
      forall s ensures s in b.words <==> Reverse(s) in f.words {
        ReverseInvolutive(s);
        ReverseInvolutive(w);
      }
    }

    /**
     `FBTrie.fuzzy`: the forward walk with budget (k - 1) / 2 on the first half
     of the query, then the backward walk with budget k / 2 on the reversed
     second half, its words turned back. Everything reported is a stored word
     at its true distance, at most k, and shorter than n + k. The first m
     results come from the forward walk: they contain every such word with a
     non-empty prefix within (k - 1) / 2 of the first half. The rest come from
     the backward walk: they contain every such word with a non-empty suffix
     within k / 2 of the second half.
     */
    method Fuzzy(query: string, k: nat) returns (out: seq<(string, int)>, ghost m: nat)
      requires Valid()
      ensures m <= |out|
      ensures InBudget(out, f.words, query, k)
      ensures LexSorted(out[..m]) && ReverseSorted(out[m..])
      ensures k == 0 ==> out == []
      ensures Covers(out[..m], f.words, query, k, query[..|query| / 2], (k - 1) / 2)
      ensures CoversTails(out[m..], f.words, query, k, query[|query| / 2..], k / 2)
    {
      var n := |query|;
      var q1, q2 := query[..n / 2], query[n / 2..];
      var k1 := (k - 1) / 2;
      var fwd := TrieFuzzy(f, k1, k, q1, query);
      var k2 := k / 2;
      assert query == q1 + q2;
      ReverseAppend(q1, q2);
      ReverseLength(q1);
      ReverseLength(q2);
      assert Reverse(query)[..|q2|] == Reverse(q2);
      var bwd := TrieFuzzy(b, k2, k, Reverse(q2), Reverse(query));
      out, m := fwd + TurnBack(bwd), |fwd|;
      ForwardThenBackward(f.words, b.words, query, k, fwd, bwd);
    }

    /** `FBTrie.trie_fuzzy`: a fresh table of n + k + 1 rows, then the walk from the root in phase 1. */
    method TrieFuzzy(t: Trie, subk: int, k: nat, subq: string, query: string) returns (out: seq<(string, int)>)
      requires t.Valid()
      requires |subq| <= |query| && subq == query[..|subq|]
      ensures InBudget(out, t.words, query, k)
      ensures LexSorted(out)
      ensures Covers(out, t.words, query, k, subq, subk)
    {
      var n := |query|;
      var tab := NewTable(n, n + k + 1);
      FirstRowHolds(tab, query);
      out := TrieFuzzyWalk(t, subk, k, tab, 0, 1, [], subq, query, 1);
      RootWords(t.nodes, t.words);
    }

    /**
     `FBTrie.trie_fuzzy_`: like the plain walk, but over children in ascending
     order and in two phases. In phase 1 a row whose column |subq| is within
     subk sends the walk into phase 2 with budget k; otherwise the row minimum
     must be within the current budget.
     */
    method TrieFuzzyWalk(t: Trie, subk: int, k: int, tab: array2<int>, v: nat, i: nat, sofar: string,
                         subq: string, query: string, phase: int) returns (out: seq<(string, int)>)
      requires Arena(t.nodes) && v < |t.nodes|
      requires 1 <= i <= tab.Length0 && |sofar| == i - 1 && tab.Length0 > |query|
      requires RowHolds(tab, i - 1, sofar, query)
      requires |subq| <= |query| && subq == query[..|subq|]
      requires phase == 1 || phase == 2
      requires phase == 2 ==> subk == k
      modifies tab
      decreases tab.Length0 - i, 1
      ensures forall r, j :: 0 <= r < i && 0 <= j < tab.Length1 ==> tab[r, j] == old(tab[r, j])
      ensures forall e :: e in out ==> Accepted(t.nodes, v, sofar, query, k, tab.Length0, e)
      ensures LexSorted(out)
      ensures forall x :: Due(t.nodes, v, sofar, query, subq, subk, k, tab.Length0, i, phase, x) ==>
                (x, Lev(x, query)) in out
    {
      if i >= tab.Length0 {
        return [];
      }
      var nodes := t.nodes;
      out := [];
      var remaining := nodes[v].Keys;
      ghost var processed: set<char> := {};
      while remaining != {}
        invariant remaining + processed == nodes[v].Keys && remaining !! processed
        invariant forall p, r :: p in processed && r in remaining ==> p < r
        invariant forall r, j :: 0 <= r < i && 0 <= j < tab.Length1 ==> tab[r, j] == old(tab[r, j])
        invariant Collected(nodes, v, sofar, query, subq, subk, k, tab.Length0, i, phase, processed, out)
        decreases remaining
      {
        var c := Least(remaining);
        var sub := TrieFuzzyChild(t, subk, k, tab, v, i, sofar, subq, query, phase, c);
        CollectStep(nodes, v, sofar, query, subq, subk, k, tab.Length0, i, phase, processed, c, out, sub);
        out := out + sub;
        remaining := remaining - {c};
        processed := processed + {c};
      }
    }

    /**
     One pass of the loop over `sorted(node)`: the terminator reports `sofar`
     when it is within k; any other symbol fills row i and descends, switching
     to phase 2 or pruning by the row minimum.
     */
    method TrieFuzzyChild(t: Trie, subk: int, k: int, tab: array2<int>, v: nat, i: nat, sofar: string,
                          subq: string, query: string, phase: int, c: char) returns (sub: seq<(string, int)>)
      requires Arena(t.nodes) && v < |t.nodes| && c in t.nodes[v]
      requires 1 <= i < tab.Length0 && |sofar| == i - 1 && tab.Length0 > |query|
      requires RowHolds(tab, i - 1, sofar, query)
      requires |subq| <= |query| && subq == query[..|subq|]
      requires phase == 1 || phase == 2
      requires phase == 2 ==> subk == k
      modifies tab
      decreases tab.Length0 - i, 0
      ensures forall r, j :: 0 <= r < i && 0 <= j < tab.Length1 ==> tab[r, j] == old(tab[r, j])
      ensures Collected(t.nodes, v, sofar, query, subq, subk, k, tab.Length0, i, phase, {c}, sub)
    {
      var nodes := t.nodes;
      var child := nodes[v][c];
      var d := tab[i - 1, |query|];
      if c == T && d <= k {
        FinishBranch(nodes, v, sofar, query, k, tab.Length0, i, d);
        sub := [(sofar, d)];
        return;
      }
      FillRow(tab, i, c, query, sofar);
      var switch := phase == 1 && tab[i, |subq|] <= subk;
      assert query[..|subq|] == subq;
      DescendComplete(nodes, v, sofar, c, query, subq, subk, k, tab.Length0, i, phase, d, switch);
      if switch {
        sub := TrieFuzzyWalk(t, k, k, tab, child, i + 1, sofar + [c], subq, query, 2);
        ChildCollected(nodes, v, sofar, c, query, subq, subk, k, tab.Length0, i, phase, k, 2, sub);
      } else {
        var smallest := RowMin(tab, i, sofar + [c], query);
        if smallest <= subk {
          sub := TrieFuzzyWalk(t, subk, k, tab, child, i + 1, sofar + [c], subq, query, phase);
          ChildCollected(nodes, v, sofar, c, query, subq, subk, k, tab.Length0, i, phase, subk, phase, sub);
        } else {
          sub := [];
        }
      }
    }
  }

  /** The results so far: accepted, leaving `sofar` by one of `heads`, ascending, and every due word among them. */
  ghost predicate Collected(nodes: Nodes, v: nat, sofar: string, query: string, subq: string, subk: int, k: int,
                            rows: nat, i: nat, phase: int, heads: set<char>, out: seq<(string, int)>)
  {
    (forall e :: e in out ==> Accepted(nodes, v, sofar, query, k, rows, e) && Head(e.0[|sofar|..]) in heads) &&
    LexSorted(out) &&
    (forall x :: Due(nodes, v, sofar, query, subq, subk, k, rows, i, phase, x) && Head(x[|sofar|..]) in heads ==>
                 (x, Lev(x, query)) in out)
  }

  /** The results of the walk below child c, by its contract, are this walk's results through c. */
  lemma ChildCollected(nodes: Nodes, v: nat, sofar: string, c: char, query: string, subq: string, subk: int, k: int,
                       rows: nat, i: nat, phase: int, subk': int, phase': int, sub: seq<(string, int)>)
    requires Arena(nodes) && v < |nodes| && c in nodes[v]
    requires forall e :: e in sub ==> Accepted(nodes, nodes[v][c], sofar + [c], query, k, rows, e)
    requires LexSorted(sub)
    requires forall x :: Due(nodes, nodes[v][c], sofar + [c], query, subq, subk', k, rows, i + 1, phase', x) ==>
               (x, Lev(x, query)) in sub
    requires forall x :: Due(nodes, v, sofar, query, subq, subk, k, rows, i, phase, x) && Head(x[|sofar|..]) == c ==>
               Due(nodes, nodes[v][c], sofar + [c], query, subq, subk', k, rows, i + 1, phase', x)
    ensures Collected(nodes, v, sofar, query, subq, subk, k, rows, i, phase, {c}, sub)
  {
    DescendSound(nodes, v, sofar, c, query, k, rows);
  }

  /** Appending the results through c, larger than every symbol already processed, keeps `Collected`. */
  lemma CollectStep(nodes: Nodes, v: nat, sofar: string, query: string, subq: string, subk: int, k: int,
                    rows: nat, i: nat, phase: int, processed: set<char>, c: char,
                    out: seq<(string, int)>, sub: seq<(string, int)>)
    requires forall p :: p in processed ==> p < c
    requires Collected(nodes, v, sofar, query, subq, subk, k, rows, i, phase, processed, out)
    requires Collected(nodes, v, sofar, query, subq, subk, k, rows, i, phase, {c}, sub)
    ensures Collected(nodes, v, sofar, query, subq, subk, k, rows, i, phase, processed + {c}, out + sub)
  {
    AppendInOrder(out, sub, sofar, processed, c);
  }

  /** The generator expression of `FBTrie.fuzzy`: each backward result with its word turned back. */
  function TurnBack(r: seq<(string, int)>): (t: seq<(string, int)>)
    ensures |t| == |r|
  {
    if |r| == 0 then [] else [(Reverse(r[0].0), r[0].1)] + TurnBack(r[1..])
  }

  /** `back` is `bwd` with every word reversed, pair by pair. */
  ghost predicate TurnedBackFrom(bwd: seq<(string, int)>, back: seq<(string, int)>)
  {
    |back| == |bwd| && forall j :: 0 <= j < |bwd| ==> back[j] == (Reverse(bwd[j].0), bwd[j].1)
  }

  lemma {:induction false} TurnBackAt(r: seq<(string, int)>, j: nat)
    requires j < |r|
    ensures TurnBack(r)[j] == (Reverse(r[j].0), r[j].1)
  {
    if j > 0 {
      TurnBackAt(r[1..], j - 1);
    }
  }

  /** The results of `FBTrie.fuzzy` assembled from the two walks' contracts. */
  lemma ForwardThenBackward(fw: set<string>, bw: set<string>, query: string, k: nat,
                            fwd: seq<(string, int)>, bwd: seq<(string, int)>)
    requires Mirrored(fw, bw)
    requires InBudget(fwd, fw, query, k) && LexSorted(fwd)
    requires Covers(fwd, fw, query, k, query[..|query| / 2], (k - 1) / 2)
    requires InBudget(bwd, bw, Reverse(query), k) && LexSorted(bwd)
    requires Covers(bwd, bw, Reverse(query), k, Reverse(query[|query| / 2..]), k / 2)
    ensures InBudget(fwd + TurnBack(bwd), fw, query, k)
    ensures LexSorted((fwd + TurnBack(bwd))[..|fwd|]) && ReverseSorted((fwd + TurnBack(bwd))[|fwd|..])
    ensures k == 0 ==> fwd + TurnBack(bwd) == []
    ensures Covers((fwd + TurnBack(bwd))[..|fwd|], fw, query, k, query[..|query| / 2], (k - 1) / 2)
    ensures CoversTails((fwd + TurnBack(bwd))[|fwd|..], fw, query, k, query[|query| / 2..], k / 2)
  {
    var back := TurnBack(bwd);
    var out := fwd + back;
    forall j | 0 <= j < |bwd| ensures back[j] == (Reverse(bwd[j].0), bwd[j].1) {
      TurnBackAt(bwd, j);
    }
    BackwardSound(fw, bw, query, k, bwd, back);
    BackwardComplete(fw, bw, query, k, bwd, back);
    assert out[..|fwd|] == fwd && out[|fwd|..] == back;
    InBudgetConcat(fwd, back, fw, query, k);
    if k == 0 {
      NothingWithinZero(out, fw, query);
    }
  }

  /** The backward walk's words, turned back, are forward words at their distance to the query. */
  lemma BackwardSound(fw: set<string>, bw: set<string>, query: string, k: nat,
                      bwd: seq<(string, int)>, back: seq<(string, int)>)
    requires Mirrored(fw, bw)
    requires InBudget(bwd, bw, Reverse(query), k)
    requires LexSorted(bwd)
    requires TurnedBackFrom(bwd, back)
    ensures InBudget(back, fw, query, k)
    ensures ReverseSorted(back)
  {
    forall e | e in back ensures e.0 in fw && e.1 == Lev(e.0, query) && e.1 <= k && |e.0| < |query| + k {
      var j :| 0 <= j < |back| && back[j] == e;
      BackwardEntry(fw, bw, query, k, bwd, back, j);
    }
    BackwardOrder(bwd, back);
  }

  /** One backward result, turned back. */
  lemma BackwardEntry(fw: set<string>, bw: set<string>, query: string, k: nat,
                      bwd: seq<(string, int)>, back: seq<(string, int)>, j: nat)
    requires Mirrored(fw, bw)
    requires InBudget(bwd, bw, Reverse(query), k)
    requires TurnedBackFrom(bwd, back) && j < |bwd|
    ensures back[j].0 in fw && back[j].1 == Lev(back[j].0, query) && back[j].1 <= k && |back[j].0| < |query| + k
  {
    var x := bwd[j].0;
    assert bwd[j] in bwd;
    assert x in bw;
    ReverseLength(x);
    ReverseLength(query);
    ReverseInvolutive(query);
    LevReverse(x, Reverse(query));
  }

  /** Ascending backward words are, turned back, ascending when read backwards. */
  lemma BackwardOrder(bwd: seq<(string, int)>, back: seq<(string, int)>)
    requires LexSorted(bwd)
    requires TurnedBackFrom(bwd, back)
    ensures ReverseSorted(back)
  {
    forall a, c | 0 <= a < c < |back| ensures LexLess(Reverse(back[a].0), Reverse(back[c].0)) {
      ReverseInvolutive(bwd[a].0);
      ReverseInvolutive(bwd[c].0);
    }
  }

  /** A word with a suffix within k / 2 of the second half reaches the backward walk's results. */
  lemma BackwardComplete(fw: set<string>, bw: set<string>, query: string, k: nat,
                         bwd: seq<(string, int)>, back: seq<(string, int)>)
    requires Mirrored(fw, bw)
    requires Covers(bwd, bw, Reverse(query), k, Reverse(query[|query| / 2..]), k / 2)
    requires TurnedBackFrom(bwd, back)
    ensures CoversTails(back, fw, query, k, query[|query| / 2..], k / 2)
  {
    var q2 := query[|query| / 2..];
    forall w | w in fw && Lev(w, query) <= k && |w| < |query| + k && (|w| == 0 || TailMatched(w, q2, k / 2))
      ensures (w, Lev(w, query)) in back
    {
      BackwardFinds(fw, bw, query, k, bwd, back, w);
    }
  }

  lemma BackwardFinds(fw: set<string>, bw: set<string>, query: string, k: nat,
                      bwd: seq<(string, int)>, back: seq<(string, int)>, w: string)
    requires Mirrored(fw, bw)
    requires Covers(bwd, bw, Reverse(query), k, Reverse(query[|query| / 2..]), k / 2)
    requires TurnedBackFrom(bwd, back)
    requires w in fw && Lev(w, query) <= k && |w| < |query| + k && (|w| == 0 || TailMatched(w, query[|query| / 2..], k / 2))
    ensures (w, Lev(w, query)) in back
  {
    var q2 := query[|query| / 2..];
    var x := Reverse(w);
    ReverseInvolutive(w);
    ReverseLength(w);
    ReverseLength(query);
    assert x in bw;
    LevReverse(w, query);
    if |w| > 0 {
      var j :| 0 <= j < |w| && Lev(w[j..], q2) <= k / 2;
      SuffixToPrefix(w, j, q2, k / 2);
    }
    CoversGives(bwd, bw, Reverse(query), k, Reverse(q2), k / 2, x);
    TurnedBack(bwd, back, x, Lev(x, Reverse(query)));
  }

  lemma CoversGives(r: seq<(string, int)>, words: set<string>, query: string, k: int, subq: string, subk: int, x: string)
    requires Covers(r, words, query, k, subq, subk)
    requires x in words && Lev(x, query) <= k && |x| < |query| + k && (|x| == 0 || HalfMatched(x, subq, subk, 1))
    ensures (x, Lev(x, query)) in r
  {
  }

  /** A suffix of w within a budget of h is, read backwards, a prefix of w reversed within it of h reversed. */
  lemma SuffixToPrefix(w: string, j: nat, h: string, bound: int)
    requires j < |w| && Lev(w[j..], h) <= bound
    ensures HalfMatched(Reverse(w), Reverse(h), bound, 1)
  {
    assert w == w[..j] + w[j..];
    ReverseAppend(w[..j], w[j..]);
    ReverseLength(w[..j]);
    ReverseLength(w[j..]);
    assert Reverse(w)[..|w| - j] == Reverse(w[j..]);
    LevReverse(w[j..], h);
  }

  lemma TurnedBack(bwd: seq<(string, int)>, back: seq<(string, int)>, x: string, d: int)
    requires TurnedBackFrom(bwd, back)
    requires (x, d) in bwd
    ensures (Reverse(x), d) in back
  {
    var p :| 0 <= p < |bwd| && bwd[p] == (x, d);
    assert back[p] == (Reverse(x), d);
  }
}
