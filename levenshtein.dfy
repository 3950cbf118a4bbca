/**
 Levenshtein distance and the facts the bounded trie walks rely on: the
 recurrence the dynamic-programming table evaluates, the lower bound that
 justifies pruning on a row minimum, the length bound behind the depth cutoff,
 and invariance under reversing both strings (which the backward trie needs).
 */
module Levenshtein {
  import opened Strings

  function Min3(x: int, y: int, z: int): int
  {
    if x <= y && x <= z then x else if y <= z then y else z
  }

  /** Substitution cost: 0 when the characters agree, 1 otherwise. */
  function Cost(x: char, y: char): nat
  {
    if x == y then 0 else 1
  }

  /**
   Levenshtein distance from the candidate `a` to the query `b`, by the
   recurrence on last characters that the table rows follow: drop the last
   character of both (substitution), of `a` only, or of `b` only.
   */
  ghost function Lev(a: string, b: string): nat
    decreases |a| + |b|
  {
    if |a| == 0 then |b|
    else if |b| == 0 then |a|
    else Min3(Lev(a[..|a| - 1], b[..|b| - 1]) + Cost(a[|a| - 1], b[|b| - 1]),
              Lev(a[..|a| - 1], b) + 1,
              Lev(a, b[..|b| - 1]) + 1)
  }

  /** The same distance by the recurrence on first characters. */
  ghost function LevFront(a: string, b: string): nat
    decreases |a| + |b|
  {
    if |a| == 0 then |b|
    else if |b| == 0 then |a|
    else Min3(LevFront(a[1..], b[1..]) + Cost(a[0], b[0]),
              LevFront(a[1..], b) + 1,
              LevFront(a, b[1..]) + 1)
  }

  /** Smallest entry among the first j + 1 columns of the table row for `a`. */
  ghost function MinRow(a: string, b: string, j: nat): nat
    requires j <= |b|
  {
    if j == 0 then Lev(a, b[..0])
    else if Lev(a, b[..j]) <= MinRow(a, b, j - 1) then Lev(a, b[..j])
    else MinRow(a, b, j - 1)
  }

  lemma {:induction false} MinRowBelow(a: string, b: string, j: nat, m: nat)
    requires m <= j <= |b|
    ensures MinRow(a, b, j) <= Lev(a, b[..m])
  {
    if m < j {
      MinRowBelow(a, b, j - 1, m);
    }
  }

  // ---------------------------------------------------------------------------
  // Length bounds (the depth cutoff)

  /** Levenshtein distance is at least the difference of the lengths. */
  lemma {:induction false} LengthGap(a: string, b: string)
    ensures Lev(a, b) >= |a| - |b| && Lev(a, b) >= |b| - |a|
    decreases |a| + |b|
  {
    if |a| > 0 && |b| > 0 {
      LengthGap(a[..|a| - 1], b[..|b| - 1]);
      LengthGap(a[..|a| - 1], b);
      LengthGap(a, b[..|b| - 1]);
    }
  }

  lemma {:induction false} LevSelf(a: string)
    ensures Lev(a, a) == 0
  {
    if |a| > 0 {
      LevSelf(a[..|a| - 1]);
    }
  }

  /** One extra character at the end costs exactly one edit. */
  lemma LevAppendOne(a: string, x: char)
    ensures Lev(a + [x], a) == 1
  {
    assert (a + [x])[..|a|] == a;
    LevSelf(a);
    LengthGap(a + [x], a);
  }

  // ---------------------------------------------------------------------------
  // Row minimum as a lower bound (the pruning test)

  /** Every entry of the row for `a + [x]` is bounded below by the row for `a` so far. */
  lemma {:induction false} StepLowerBound(a: string, x: char, b: string, j: nat)
    requires j <= |b|
    ensures Lev(a + [x], b[..j]) >= MinRow(a, b, j)
  {
    var ax := a + [x];
    assert ax[..|ax| - 1] == a;
    if j > 0 {
      assert b[..j][..j - 1] == b[..j - 1];
      StepLowerBound(a, x, b, j - 1);
      MinRowBelow(a, b, j, j - 1);
      MinRowBelow(a, b, j, j);
    }
  }

  lemma {:induction false} MinRowGrows(a: string, x: char, b: string, j: nat)
    requires j <= |b|
    ensures MinRow(a + [x], b, j) >= MinRow(a, b, j)
  {
    StepLowerBound(a, x, b, j);
    if j > 0 {
      MinRowGrows(a, x, b, j - 1);
      MinRowBelow(a, b, j, j - 1);
      MinRowBelow(a, b, j - 1, j - 1);
    }
  }

  /**
   The minimum of the row for a prefix `p` of `t` bounds the distance from `t`
   to the whole query: no extension of a pruned path can come back in budget.
   */
  lemma {:induction false} ExtensionLowerBound(p: string, t: string, b: string)
    requires |p| <= |t| && t[..|p|] == p
    ensures Lev(t, b) >= MinRow(p, b, |b|)
    decreases |t| - |p|
  {
    if |p| == |t| {
      assert p == t && b[..|b|] == b;
      MinRowBelow(p, b, |b|, |b|);
    } else {
      var q := t[..|p| + 1];
      assert q == p + [t[|p|]];
      assert t[..|q|] == q;
      ExtensionLowerBound(q, t, b);
      MinRowGrows(p, t[|p|], b, |b|);
    }
  }

  /** The row for the whole query includes the columns of each of its prefixes h. */
  lemma {:induction false} MinRowHalf(a: string, h: string, q: string, j: nat)
    requires j <= |h| <= |q| && h == q[..|h|]
    ensures MinRow(a, q, |q|) <= MinRow(a, h, j)
  {
    assert h[..j] == q[..j];
    MinRowBelow(a, q, |q|, j);
    if j > 0 {
      MinRowHalf(a, h, q, j - 1);
    }
  }

  /**
   The pruning test of a prefix p of t against the whole query passes whenever
   t is within a budget of the first part h of the query.
   */
  lemma HalfLowerBound(p: string, t: string, h: string, q: string)
    requires |p| <= |t| && t[..|p|] == p
    requires |h| <= |q| && h == q[..|h|]
    ensures MinRow(p, q, |q|) <= Lev(t, h)
  {
    ExtensionLowerBound(p, t, h);
    MinRowHalf(p, h, q, |h|);
  }

  // ---------------------------------------------------------------------------
  // Reversal invariance

  /** The closed form of the distance between one character and a string. */
  ghost function OneToMany(x: char, b: string): nat
  {
    if |b| == 0 then 1 else if x in b then |b| - 1 else |b|
  }

  lemma {:induction false} LevOneLeft(x: char, b: string)
    ensures Lev([x], b) == OneToMany(x, b)
  {
    if |b| > 0 {
      var bl := b[..|b| - 1];
      assert b == bl + [b[|b| - 1]];
      assert x in b <==> x in bl || x == b[|b| - 1];
      assert [x][..0] == [];
      LevOneLeft(x, bl);
    }
  }

  lemma {:induction false} LevOneRight(a: string, y: char)
    ensures Lev(a, [y]) == OneToMany(y, a)
  {
    if |a| > 0 {
      var al := a[..|a| - 1];
      assert a == al + [a[|a| - 1]];
      assert y in a <==> y in al || y == a[|a| - 1];
      assert [y][..0] == [];
      LevOneRight(al, y);
    }
  }

  lemma {:induction false} LevFrontOneLeft(x: char, b: string)
    ensures LevFront([x], b) == OneToMany(x, b)
  {
    if |b| > 0 {
      assert b == [b[0]] + b[1..];
      assert x in b <==> x == b[0] || x in b[1..];
      assert [x][1..] == [];
      LevFrontOneLeft(x, b[1..]);
    }
  }

  lemma {:induction false} LevFrontOneRight(a: string, y: char)
    ensures LevFront(a, [y]) == OneToMany(y, a)
  {
    if |a| > 0 {
      assert a == [a[0]] + a[1..];
      assert y in a <==> y == a[0] || y in a[1..];
      assert [y][1..] == [];
      LevFrontOneRight(a[1..], y);
    }
  }

  /** Both recurrences define the same distance. */
  lemma {:induction false} LevFrontAgrees(a: string, b: string)
    ensures LevFront(a, b) == Lev(a, b)
    decreases |a| + |b|, 3
  {
    if |a| == 0 || |b| == 0 {
    } else if |a| == 1 {
      assert a == [a[0]];
      LevOneLeft(a[0], b);
      LevFrontOneLeft(a[0], b);
    } else if |b| == 1 {
      assert b == [b[0]];
      LevOneRight(a, b[0]);
      LevFrontOneRight(a, b[0]);
    } else {
      LevFrontAgreesLong(a, b);
    }
  }

  /** Min3 distributes over the nine ways of removing one character at each end. */
  lemma NineWays(l: int, f: int, l1: int, l2: int, l3: int, f1: int, f2: int, f3: int,
                  p1: int, p2: int, p3: int, p4: int, p5: int, p6: int, p7: int, p8: int, p9: int, c0: int, cL: int)
    requires l == Min3(l1 + cL, l2 + 1, l3 + 1) && f == Min3(f1 + c0, f2 + 1, f3 + 1)
    requires l1 == Min3(p1 + c0, p2 + 1, p3 + 1) && l2 == Min3(p4 + c0, p5 + 1, p6 + 1) && l3 == Min3(p7 + c0, p8 + 1, p9 + 1)
    requires f1 == Min3(p1 + cL, p4 + 1, p7 + 1) && f2 == Min3(p2 + cL, p5 + 1, p8 + 1) && f3 == Min3(p3 + cL, p6 + 1, p9 + 1)
    ensures l == f
  {
  }

  /** One unfolding of each recurrence, for strings of length at least two. */
  lemma UnfoldLev(x: string, y: string, p1: int, p2: int, p3: int, c: int)
    requires |x| >= 1 && |y| >= 1 && c == Cost(x[|x| - 1], y[|y| - 1])
    requires p1 == Lev(x[..|x| - 1], y[..|y| - 1]) && p2 == Lev(x[..|x| - 1], y) && p3 == Lev(x, y[..|y| - 1])
    ensures Lev(x, y) == Min3(p1 + c, p2 + 1, p3 + 1)
  {
  }

  lemma UnfoldFront(x: string, y: string, p1: int, p2: int, p3: int, c: int)
    requires |x| >= 1 && |y| >= 1 && c == Cost(x[0], y[0])
    requires p1 == LevFront(x[1..], y[1..]) && p2 == LevFront(x[1..], y) && p3 == LevFront(x, y[1..])
    ensures LevFront(x, y) == Min3(p1 + c, p2 + 1, p3 + 1)
  {
  }

  lemma {:induction false} LevFrontAgreesLong(a: string, b: string)
    requires |a| >= 2 && |b| >= 2
    ensures LevFront(a, b) == Lev(a, b)
    decreases |a| + |b|, 2
  {
    var aL, bL, a1, b1 := a[..|a| - 1], b[..|b| - 1], a[1..], b[1..];
    var a1L, b1L := a[1..|a| - 1], b[1..|b| - 1];
    var c0, cL := Cost(a[0], b[0]), Cost(a[|a| - 1], b[|b| - 1]);
    // the nine sub-sub-problems both recurrences meet
    var p1, p2, p3 := Lev(a1L, b1L), Lev(a1L, bL), Lev(aL, b1L);
    var p4, p5, p6 := Lev(a1L, b1), Lev(a1L, b), Lev(aL, b1);
    var p7, p8, p9 := Lev(a1, b1L), Lev(a1, bL), Lev(a, b1L);
    var l1, l2, l3 := LevSide(a, b, p1, p2, p3, p4, p5, p6, p7, p8, p9);
    var f1, f2, f3 := FrontSide(a, b, p1, p2, p3, p4, p5, p6, p7, p8, p9);
    NineWays(Lev(a, b), LevFront(a, b), l1, l2, l3, f1, f2, f3, p1, p2, p3, p4, p5, p6, p7, p8, p9, c0, cL);
  }

  /** Lev unfolded twice: at the last characters, then (by agreement) at the first ones. */
  lemma {:induction false} LevSide(a: string, b: string, p1: int, p2: int, p3: int, p4: int, p5: int, p6: int,
                                   p7: int, p8: int, p9: int) returns (l1: int, l2: int, l3: int)
    requires |a| >= 2 && |b| >= 2
    requires p1 == Lev(a[1..|a| - 1], b[1..|b| - 1]) && p2 == Lev(a[1..|a| - 1], b[..|b| - 1])
    requires p3 == Lev(a[..|a| - 1], b[1..|b| - 1]) && p4 == Lev(a[1..|a| - 1], b[1..])
    requires p5 == Lev(a[1..|a| - 1], b) && p6 == Lev(a[..|a| - 1], b[1..])
    requires p7 == Lev(a[1..], b[1..|b| - 1]) && p8 == Lev(a[1..], b[..|b| - 1]) && p9 == Lev(a, b[1..|b| - 1])
    ensures var c0 := Cost(a[0], b[0]);
      l1 == Min3(p1 + c0, p2 + 1, p3 + 1) && l2 == Min3(p4 + c0, p5 + 1, p6 + 1) && l3 == Min3(p7 + c0, p8 + 1, p9 + 1)
    ensures Lev(a, b) == Min3(l1 + Cost(a[|a| - 1], b[|b| - 1]), l2 + 1, l3 + 1)
    decreases |a| + |b|, 1
  {
    var aL, bL, a1, b1 := a[..|a| - 1], b[..|b| - 1], a[1..], b[1..];
    var a1L, b1L := a[1..|a| - 1], b[1..|b| - 1];
    assert aL[1..] == a1L && bL[1..] == b1L;
    assert aL[0] == a[0] && bL[0] == b[0];
    l1, l2, l3 := Lev(aL, bL), Lev(aL, b), Lev(a, bL);
    LevViaFront(aL, bL, p1, p2, p3);
    LevViaFront(aL, b, p4, p5, p6);
    LevViaFront(a, bL, p7, p8, p9);
    UnfoldLev(a, b, l1, l2, l3, Cost(a[|a| - 1], b[|b| - 1]));
  }

  /** Lev of non-empty strings by the recurrence on first characters. */
  lemma {:induction false} LevViaFront(x: string, y: string, q1: int, q2: int, q3: int)
    requires |x| >= 1 && |y| >= 1
    requires q1 == Lev(x[1..], y[1..]) && q2 == Lev(x[1..], y) && q3 == Lev(x, y[1..])
    ensures Lev(x, y) == Min3(q1 + Cost(x[0], y[0]), q2 + 1, q3 + 1)
    decreases |x| + |y| + 1, 0
  {
    LevFrontAgrees(x, y);
    LevFrontAgrees(x[1..], y[1..]);
    LevFrontAgrees(x[1..], y);
    LevFrontAgrees(x, y[1..]);
    UnfoldFront(x, y, q1, q2, q3, Cost(x[0], y[0]));
  }

  /** LevFront unfolded twice: at the first characters, then (by agreement) at the last ones. */
  lemma {:induction false} FrontSide(a: string, b: string, p1: int, p2: int, p3: int, p4: int, p5: int, p6: int,
                                     p7: int, p8: int, p9: int) returns (f1: int, f2: int, f3: int)
    requires |a| >= 2 && |b| >= 2
    requires p1 == Lev(a[1..|a| - 1], b[1..|b| - 1]) && p2 == Lev(a[1..|a| - 1], b[..|b| - 1])
    requires p3 == Lev(a[..|a| - 1], b[1..|b| - 1]) && p4 == Lev(a[1..|a| - 1], b[1..])
    requires p5 == Lev(a[1..|a| - 1], b) && p6 == Lev(a[..|a| - 1], b[1..])
    requires p7 == Lev(a[1..], b[1..|b| - 1]) && p8 == Lev(a[1..], b[..|b| - 1]) && p9 == Lev(a, b[1..|b| - 1])
    ensures var cL := Cost(a[|a| - 1], b[|b| - 1]);
      f1 == Min3(p1 + cL, p4 + 1, p7 + 1) && f2 == Min3(p2 + cL, p5 + 1, p8 + 1) && f3 == Min3(p3 + cL, p6 + 1, p9 + 1)
    ensures LevFront(a, b) == Min3(f1 + Cost(a[0], b[0]), f2 + 1, f3 + 1)
    decreases |a| + |b|, 1
  {
    var a1, b1 := a[1..], b[1..];
    var a1L, b1L := a[1..|a| - 1], b[1..|b| - 1];
    assert a1[..|a1| - 1] == a1L && b1[..|b1| - 1] == b1L;
    assert a1[|a1| - 1] == a[|a| - 1] && b1[|b1| - 1] == b[|b| - 1];
    var cL := Cost(a[|a| - 1], b[|b| - 1]);
    LevFrontAgrees(a1, b1); LevFrontAgrees(a1, b); LevFrontAgrees(a, b1);
    UnfoldLev(a1, b1, p1, p4, p7, cL);
    UnfoldLev(a1, b, p2, p5, p8, cL);
    UnfoldLev(a, b1, p3, p6, p9, cL);
    f1, f2, f3 := LevFront(a1, b1), LevFront(a1, b), LevFront(a, b1);
    assert f1 == Min3(p1 + cL, p4 + 1, p7 + 1);
    assert f2 == Min3(p2 + cL, p5 + 1, p8 + 1);
    assert f3 == Min3(p3 + cL, p6 + 1, p9 + 1);
    UnfoldFront(a, b, f1, f2, f3, Cost(a[0], b[0]));
  }

  lemma {:induction false} LevReverseFront(a: string, b: string)
    ensures Lev(Reverse(a), Reverse(b)) == LevFront(a, b)
    decreases |a| + |b|
  {
    ReverseLength(a);
    ReverseLength(b);
    if |a| > 0 && |b| > 0 {
      var ra, rb := Reverse(a), Reverse(b);
      assert ra[..|ra| - 1] == Reverse(a[1..]) && ra[|ra| - 1] == a[0];
      assert rb[..|rb| - 1] == Reverse(b[1..]) && rb[|rb| - 1] == b[0];
      LevReverseFront(a[1..], b[1..]);
      LevReverseFront(a[1..], b);
      LevReverseFront(a, b[1..]);
    }
  }

  /** Reversing both strings leaves the distance unchanged. */
  lemma LevReverse(a: string, b: string)
    ensures Lev(Reverse(a), Reverse(b)) == Lev(a, b)
  {
    LevReverseFront(a, b);
    LevFrontAgrees(a, b);
  }
}
