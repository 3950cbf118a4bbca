/**
 Strings as sequences of characters: reversal (Python's `s[::-1]`), the
 lexicographic order that `sorted` uses on one-character keys, and the least
 element of a finite set of characters.
 */
module Strings {

  /** Python's `s[::-1]`. */
  function Reverse(s: string): (r: string)
  {
    if |s| == 0 then [] else Reverse(s[1..]) + [s[0]]
  }

  lemma {:induction false} ReverseLength(s: string)
    ensures |Reverse(s)| == |s|
  {
    if |s| > 0 {
      ReverseLength(s[1..]);
    }
  }

  lemma {:induction false} ReverseAt(s: string, k: nat)
    requires k < |s|
    ensures k < |Reverse(s)| && Reverse(s)[k] == s[|s| - 1 - k]
  {
    ReverseLength(s);
    ReverseLength(s[1..]);
    if k < |s| - 1 {
      ReverseAt(s[1..], k);
    }
  }

  lemma {:induction false} ReverseAppend(a: string, b: string)
    ensures Reverse(a + b) == Reverse(b) + Reverse(a)
  {
    if |a| == 0 {
      assert a + b == b;
    } else {
      assert (a + b)[1..] == a[1..] + b;
      ReverseAppend(a[1..], b);
    }
  }

  lemma {:induction false} ReverseInvolutive(s: string)
    ensures Reverse(Reverse(s)) == s
  {
    if |s| > 0 {
      ReverseAppend(Reverse(s[1..]), [s[0]]);
      assert Reverse([s[0]]) == [s[0]];
      ReverseInvolutive(s[1..]);
    }
  }

  lemma {:induction false} ReverseMember(s: string, c: char)
    ensures c in Reverse(s) <==> c in s
  {
    if |s| > 0 {
      ReverseMember(s[1..], c);
      assert s == [s[0]] + s[1..];
    }
  }

  /** Strict lexicographic order on strings: a proper prefix comes first. */
  predicate LexLess(a: string, b: string)
    decreases |a|
  {
    |b| > 0 && (|a| == 0 || a[0] < b[0] || (a[0] == b[0] && LexLess(a[1..], b[1..])))
  }

  /** Two strings that agree on their first m characters are ordered by what follows. */
  lemma {:induction false} LexLessAt(a: string, b: string, m: nat)
    requires m <= |a| && m < |b| && a[..m] == b[..m]
    requires m == |a| || a[m] < b[m]
    ensures LexLess(a, b)
  {
    if m > 0 {
      assert a[0] == a[..m][0] == b[..m][0] == b[0];
      assert a[1..][..m - 1] == a[..m][1..] == b[..m][1..] == b[1..][..m - 1];
      LexLessAt(a[1..], b[1..], m - 1);
    }
  }

  lemma {:induction false} LexLessIrreflexive(a: string)
    ensures !LexLess(a, a)
  {
    if |a| > 0 {
      LexLessIrreflexive(a[1..]);
    }
  }

  lemma LeastExists(s: set<char>)
    requires s != {}
    ensures exists c :: c in s && forall x :: x in s ==> c <= x
  {
    var y :| y in s;
    var rest := s - {y};
    if rest == {} {
      forall x | x in s ensures y <= x {
        assert x !in rest;
      }
    } else {
      LeastExists(rest);
      var m :| m in rest && forall x :: x in rest ==> m <= x;
      var c := if y < m then y else m;
      forall x | x in s ensures c <= x {
        if x != y {
          assert x in rest;
        }
      }
      assert c in s;
    }
  }

  /** The least character of a non-empty set: the next key `sorted` hands out. */
  function Least(s: set<char>): (c: char)
    requires s != {}
    ensures c in s && forall x :: x in s ==> c <= x
  {
    LeastExists(s);
    var c :| c in s && forall x :: x in s ==> c <= x;
    c
  }
}
