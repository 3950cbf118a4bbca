/**
 The dynamic-programming table both trie walks share: (rows) x (n + 1) cells,
 row r standing for the trie path of length r and column j for the query
 prefix of length j. One table is allocated per query and overwritten row by
 row as the depth-first walk advances and backtracks.
 */
module EditTable {
  import opened Levenshtein

  /** Row r of `tab` holds the distances from `a` to every prefix of `query`. */
  ghost predicate RowHolds(tab: array2<int>, r: nat, a: string, query: string)
    reads tab
  {
    tab.Length1 == |query| + 1 && r < tab.Length0 &&
    forall j :: 0 <= j <= |query| ==> tab[r, j] == Lev(a, query[..j])
  }

  /** Allocates the table with every cell 0, then sets row 0 to 0, 1, ..., n. */
  method NewTable(n: nat, rows: nat) returns (tab: array2<int>)
    requires rows >= 1
    ensures fresh(tab) && tab.Length0 == rows && tab.Length1 == n + 1
    ensures forall j :: 0 <= j <= n ==> tab[0, j] == j
    ensures forall r, j :: 1 <= r < rows && 0 <= j <= n ==> tab[r, j] == 0
  {
    tab := new int[rows, n + 1]((_, _) => 0);
    for j := 0 to n + 1
      invariant forall j' :: 0 <= j' < j ==> tab[0, j'] == j'
      invariant forall j' :: j <= j' <= n ==> tab[0, j'] == 0
      invariant forall r, j' :: 1 <= r < rows && 0 <= j' <= n ==> tab[r, j'] == 0
    {
      tab[0, j] := j;
    }
  }

  /** Row 0 as `NewTable` leaves it holds the distances from the empty path. */
  lemma FirstRowHolds(tab: array2<int>, query: string)
    requires tab.Length0 >= 1 && tab.Length1 == |query| + 1
    requires forall j :: 0 <= j <= |query| ==> tab[0, j] == j
    ensures RowHolds(tab, 0, [], query)
  {
  }

  /**
   Computes row i for the path `sofar + [c]` from row i - 1 (the path `sofar`)
   by the Levenshtein recurrence, leaving every other row as it was.
   */
  method FillRow(tab: array2<int>, i: nat, c: char, query: string, ghost sofar: string)
    requires 1 <= i && |sofar| == i - 1
    requires RowHolds(tab, i - 1, sofar, query) && i < tab.Length0
    modifies tab
    ensures RowHolds(tab, i, sofar + [c], query)
    ensures forall r, j :: 0 <= r < tab.Length0 && 0 <= j < tab.Length1 && r != i ==> tab[r, j] == old(tab[r, j])
  {
    ghost var a := sofar + [c];
    assert a[..|a| - 1] == sofar;
    tab[i, 0] := i;
    for j := 1 to |query| + 1
      invariant forall j' :: 0 <= j' < j ==> tab[i, j'] == Lev(a, query[..j'])
      invariant forall r, j' :: 0 <= r < tab.Length0 && 0 <= j' < tab.Length1 && r != i ==> tab[r, j'] == old(tab[r, j'])
    {
      assert query[..j][..j - 1] == query[..j - 1];
      var subCost := if c != query[j - 1] then 1 else 0;
      var sub := tab[i - 1, j - 1] + subCost;
      var insert := tab[i - 1, j] + 1;
      var delete := tab[i, j - 1] + 1;
      tab[i, j] := Min3(sub, insert, delete);
    }
  }

  /** Python's `min(tab[i])`: the smallest distance in the row for `a`. */
  method RowMin(tab: array2<int>, i: nat, ghost a: string, query: string) returns (smallest: int)
    requires RowHolds(tab, i, a, query)
    ensures smallest == MinRow(a, query, |query|)
  {
    smallest := tab[i, 0];
    for j := 1 to |query| + 1
      invariant smallest == MinRow(a, query, j - 1)
    {
      if tab[i, j] < smallest {
        smallest := tab[i, j];
      }
    }
  }
}
