/**
 * Python's `list.sort()` on strings and `sorted()` on a set of string pairs,
 * under Python's ordering of strings (code-point lexicographic) and of
 * tuples (lexicographic on components).
 */
module Sorting {
  import opened Text

  lemma StrLeTransitive(a: string, b: string, c: string)
    requires StrLe(a, b) && StrLe(b, c)
    ensures StrLe(a, c)
  {
    if a != b && b != c {
      StrLtTransitive(a, b, c);
    }
  }

  /** Ascending order (ties allowed). */
  ghost predicate SortedStrings(s: seq<string>) {
    forall i, j :: 0 <= i < j < |s| ==> StrLe(s[i], s[j])
  }

  /** Inserts `x` before the first element of `s` it does not exceed. */
  function InsertString(x: string, s: seq<string>): seq<string>
    decreases |s|
  {
    if s == [] then [x]
    else if StrLe(x, s[0]) then [x] + s
    else [s[0]] + InsertString(x, s[1..])
  }

  /** Inserting adds exactly one occurrence of `x`. */
  lemma {:induction false} InsertStringMultiset(x: string, s: seq<string>)
    ensures multiset(InsertString(x, s)) == multiset(s) + multiset{x}
    decreases |s|
  {
    if s != [] && !StrLe(x, s[0]) {
      InsertStringMultiset(x, s[1..]);
      assert s == [s[0]] + s[1..];
    }
  }

  /** Inserting adds `x` and keeps every other element. */
  lemma {:induction false} InsertStringMembers(x: string, s: seq<string>, y: string)
    requires y in InsertString(x, s)
    ensures y == x || exists k :: 0 <= k < |s| && s[k] == y
    decreases |s|
  {
    if s != [] && !StrLe(x, s[0]) && y != s[0] {
      InsertStringMembers(x, s[1..], y);
      if y != x {
        var k :| 0 <= k < |s[1..]| && s[1..][k] == y;
        assert s[k + 1] == y;
      }
    }
  }

  /** Inserting into a sorted sequence keeps it sorted. */
  lemma {:induction false} InsertStringSorted(x: string, s: seq<string>)
    requires SortedStrings(s)
    ensures SortedStrings(InsertString(x, s))
    decreases |s|
  {
    if s == [] {
    } else if StrLe(x, s[0]) {
      forall j | 0 < j < |s| ensures StrLe(x, s[j]) {
        StrLeTransitive(x, s[0], s[j]);
      }
    } else {
      var tail := s[1..];
      var rest := InsertString(x, tail);
      InsertStringSorted(x, tail);
      assert StrLe(s[0], x) by { StrLtTotal(x, s[0]); }
      forall y | y in rest ensures StrLe(s[0], y) {
        InsertStringMembers(x, tail, y);
      }
      var r := [s[0]] + rest;
      forall i, j | 0 <= i < j < |r| ensures StrLe(r[i], r[j]) {
        if i == 0 {
          assert r[j] == rest[j - 1] && rest[j - 1] in rest;
        } else {
          assert r[i] == rest[i - 1] && r[j] == rest[j - 1];
        }
      }
    }
  }

  /** Python's `xs.sort()` on a list of strings: an ascending permutation of `xs`. */
  function SortStrings(xs: seq<string>): (r: seq<string>)
    ensures SortedStrings(r)
    ensures multiset(r) == multiset(xs)
    decreases |xs|
  {
    if xs == [] then []
    else
      assert xs == [xs[0]] + xs[1..];
      var rest := SortStrings(xs[1..]);
      InsertStringSorted(xs[0], rest);
      InsertStringMultiset(xs[0], rest);
      InsertString(xs[0], rest)
  }

  /** Python's `<` on pairs of strings. */
  predicate PairLt(p: (string, string), q: (string, string)) {
    StrLt(p.0, q.0) || (p.0 == q.0 && StrLt(p.1, q.1))
  }

  lemma PairLtTransitive(p: (string, string), q: (string, string), t: (string, string))
    requires PairLt(p, q) && PairLt(q, t)
    ensures PairLt(p, t)
  {
    if StrLt(p.0, q.0) && StrLt(q.0, t.0) {
      StrLtTransitive(p.0, q.0, t.0);
    } else if p.0 == q.0 && q.0 == t.0 {
      StrLtTransitive(p.1, q.1, t.1);
    }
  }

  lemma PairLtTotal(p: (string, string), q: (string, string))
    requires p != q
    ensures PairLt(p, q) || PairLt(q, p)
  {
    if p.0 != q.0 {
      StrLtTotal(p.0, q.0);
    } else {
      StrLtTotal(p.1, q.1);
    }
  }

  lemma PairLtIrreflexive(p: (string, string))
    ensures !PairLt(p, p)
  {
    StrLtIrreflexive(p.0);
    StrLtIrreflexive(p.1);
  }

  /** Strictly ascending, hence without duplicates. */
  ghost predicate StrictlySortedPairs(s: seq<(string, string)>) {
    forall i, j :: 0 <= i < j < |s| ==> PairLt(s[i], s[j])
  }

  /** Inserts a pair that is not yet present into a strictly sorted sequence. */
  function InsertPair(x: (string, string), s: seq<(string, string)>): (r: seq<(string, string)>)
    requires StrictlySortedPairs(s) && x !in s
    ensures StrictlySortedPairs(r)
    ensures forall y :: y in r <==> y in s || y == x
    ensures |r| == |s| + 1
    decreases |s|
  {
    if s == [] then [x]
    else if PairLt(x, s[0]) then
      assert forall j :: 0 <= j < |s| ==> PairLt(x, s[j]) by {
        forall j | 0 <= j < |s| ensures PairLt(x, s[j]) {
          if j > 0 { PairLtTransitive(x, s[0], s[j]); }
        }
      }
      [x] + s
    else
      assert x != s[0];
      PairLtTotal(x, s[0]);
      assert s == [s[0]] + s[1..];
      var rest := InsertPair(x, s[1..]);
      assert forall y :: y in rest ==> PairLt(s[0], y);
      [s[0]] + rest
  }

  lemma PairLtAsymmetric(p: (string, string), q: (string, string))
    requires PairLt(p, q)
    ensures !PairLt(q, p)
  {
    if p.0 != q.0 {
      StrLtAsymmetric(p.0, q.0);
    } else {
      StrLtIrreflexive(p.0);
      StrLtAsymmetric(p.1, q.1);
    }
  }

  /** `x` is the least element of `s`. */
  predicate IsLeast(x: (string, string), s: set<(string, string)>) {
    x in s && forall y :: y in s && y != x ==> PairLt(x, y)
  }

  /** Every non-empty finite set of pairs has a least element. */
  lemma {:induction false} LeastExists(s: set<(string, string)>)
    requires s != {}
    ensures exists x :: IsLeast(x, s)
    decreases |s|
  {
    var z :| z in s;
    if s - {z} == {} {
      assert s == {z};
      assert IsLeast(z, s);
    } else {
      LeastExists(s - {z});
      var m :| IsLeast(m, s - {z});
      if PairLt(m, z) {
        assert IsLeast(m, s);
      } else {
        PairLtTotal(m, z);
        forall y | y in s && y != z ensures PairLt(z, y) {
          if y != m {
            PairLtTransitive(z, m, y);
          }
        }
        assert IsLeast(z, s);
      }
    }
  }

  /** At most one element is least. */
  lemma LeastUnique(x: (string, string), x': (string, string), s: set<(string, string)>)
    requires IsLeast(x, s) && IsLeast(x', s)
    ensures x == x'
  {
    if x != x' {
      PairLtAsymmetric(x, x');
    }
  }

  /**
   * Python's `sorted(pairs)` on a set of pairs: the strictly ascending listing
   * of the set, built by taking the least remaining element first.
   */
  function SortedListing(pairs: set<(string, string)>): (r: seq<(string, string)>)
    ensures StrictlySortedPairs(r)
    ensures forall y :: y in r <==> y in pairs
    ensures |r| == |pairs|
    decreases |pairs|
  {
    if pairs == {} then []
    else
      LeastExists(pairs);
      assert forall x, x' :: IsLeast(x, pairs) && IsLeast(x', pairs) ==> x == x' by {
        forall x, x' | IsLeast(x, pairs) && IsLeast(x', pairs) ensures x == x' {
          LeastUnique(x, x', pairs);
        }
      }
      var x :| IsLeast(x, pairs);
      var rest := SortedListing(pairs - {x});
      assert forall y :: y in rest ==> PairLt(x, y);
      [x] + rest
  }

  /** A list in strictly ascending order has no duplicates. */
  lemma StrictlySortedNoDup(s: seq<(string, string)>, i: nat, j: nat)
    requires StrictlySortedPairs(s) && i < j < |s|
    ensures s[i] != s[j]
  {
    PairLtIrreflexive(s[i]);
  }
}
