/** Listings without repeats, the order Python sorts strings by, and the uniqueness of a strictly sorted listing. */
module Ordering {

  /** Lexicographic order by code point. */
  predicate StrLess(a: string, b: string) {
    if b == [] then false
    else if a == [] then true
    else if a[0] != b[0] then a[0] < b[0]
    else StrLess(a[1..], b[1..])
  }

  /** One string is less than another where it ends first or the first different character is less. */
  lemma {:induction false} StrLessExactly(a: string, b: string)
    ensures StrLess(a, b) <==>
      exists k: nat :: k <= |a| && k < |b| && a[..k] == b[..k] && (k == |a| || a[k] < b[k])
  {
    if b != [] && a != [] && a[0] == b[0] {
      StrLessExactly(a[1..], b[1..]);
      if k: nat :| k <= |a[1..]| && k < |b[1..]| && a[1..][..k] == b[1..][..k] && (k == |a[1..]| || a[1..][k] < b[1..][k]) {
        assert a[..k + 1] == [a[0]] + a[1..][..k] && b[..k + 1] == [b[0]] + b[1..][..k];
      }
      if k: nat :| k <= |a| && k < |b| && a[..k] == b[..k] && (k == |a| || a[k] < b[k]) {
        assert k > 0;
        assert a[1..][..k - 1] == a[..k][1..] && b[1..][..k - 1] == b[..k][1..];
        assert k < |a| ==> a[1..][k - 1] == a[k] && b[1..][k - 1] == b[k];
      }
    } else if b != [] {
      assert a[..0] == b[..0];
    }
  }

  lemma {:induction false} StrLessAsymmetric(a: string, b: string)
    requires StrLess(a, b)
    ensures !StrLess(b, a) && a != b
  {
    if a != [] && a[0] == b[0] {
      StrLessAsymmetric(a[1..], b[1..]);
    }
  }

  lemma {:induction false} StrLessTransitive(a: string, b: string, c: string)
    requires StrLess(a, b) && StrLess(b, c)
    ensures StrLess(a, c)
  {
    if a != [] && a[0] == b[0] == c[0] {
      StrLessTransitive(a[1..], b[1..], c[1..]);
    }
  }

  lemma {:induction false} StrLessTotal(a: string, b: string)
    ensures StrLess(a, b) || a == b || StrLess(b, a)
  {
    if a != [] && b != [] && a[0] == b[0] {
      StrLessTotal(a[1..], b[1..]);
      assert a == [a[0]] + a[1..] && b == [b[0]] + b[1..];
    }
  }

  /** No value occurs twice. */
  ghost predicate Distinct<T>(s: seq<T>) {
    forall i, j | 0 <= i < j < |s| :: s[i] != s[j]
  }

  /** The first occurrence of every value, in order. */
  function Dedupe(s: seq<string>): seq<string> {
    if s == [] then []
    else
      var front := Dedupe(s[..|s| - 1]);
      if s[|s| - 1] in s[..|s| - 1] then front else front + [s[|s| - 1]]
  }

  lemma {:induction false} DedupeMembers(s: seq<string>)
    ensures Distinct(Dedupe(s)) && forall x :: x in Dedupe(s) <==> x in s
  {
    if s != [] {
      var front := s[..|s| - 1];
      DedupeMembers(front);
      assert s == front + [s[|s| - 1]];
    }
  }

  lemma SomeMember<T>(s: seq<T>)
    ensures s != [] ==> exists x :: x in s
  {
    if s != [] {
      assert s[0] in s;
    }
  }

  ghost predicate StrictlySorted<T>(s: seq<T>, less: (T, T) -> bool) {
    forall i, j | 0 <= i < j < |s| :: less(s[i], s[j])
  }

  ghost predicate Asymmetric<T(!new)>(less: (T, T) -> bool) {
    forall x, y :: less(x, y) ==> !less(y, x)
  }

  /** A set has at most one strictly sorted listing. */
  lemma {:induction false} SortedListingUnique<T(!new)>(a: seq<T>, b: seq<T>, less: (T, T) -> bool)
    requires Asymmetric(less)
    requires StrictlySorted(a, less) && StrictlySorted(b, less)
    requires forall x :: x in a <==> x in b
    ensures a == b
  {
    if a == [] {

      assert forall i | 0 <= i < |b| :: b[i] in b;
    } else {
      assert a[0] in b;
      var k :| 0 <= k < |b| && b[k] == a[0];
      assert b[0] in a;
      var j :| 0 <= j < |a| && a[j] == b[0];
      assert k == 0;
      forall x
        ensures x in a[1..] <==> x in b[1..]
      {
        TailMembers(a, less, x);
        TailMembers(b, less, x);
      }
      SortedListingUnique(a[1..], b[1..], less);
    }
  }

  lemma TailMembers<T(!new)>(s: seq<T>, less: (T, T) -> bool, x: T)
    requires Asymmetric(less) && StrictlySorted(s, less) && s != []
    ensures x in s[1..] <==> x in s && x != s[0]
  {
    assert s == [s[0]] + s[1..];
    forall i | 0 <= i < |s| - 1
      ensures s[1..][i] != s[0]
    {
      assert less(s[0], s[i + 1]);
    }
  }

  lemma LeastString(s: set<string>) returns (m: string)
    requires s != {}
    ensures m in s && forall y | y in s :: y == m || StrLess(m, y)
    decreases s
  {
    hide StrLess;
    m :| m in s;
    if s != {m} {
      assert s - {m} != {} by {
        assert s == {m} + (s - {m});
      }
      var n := LeastString(s - {m});
      StrLessTotal(m, n);
      if StrLess(n, m) {
        m := n;
      } else {
        forall y | y in s && y != m && y != n ensures StrLess(m, y) {
          StrLessTransitive(m, n, y);
        }
      }
    }
  }

  /** Python's `sorted` on a set of strings. */
  function SortedSet(s: set<string>): (r: seq<string>)
    ensures StrictlySorted(r, StrLess)
    ensures forall x :: x in r <==> x in s
    decreases s
  {
    if s == {} then []
    else
      assert exists m :: m in s && forall y | y in s :: y == m || StrLess(m, y) by {
        var m := LeastString(s);
      }
      assert forall m, n | m in s && n in s && StrLess(m, n) :: !StrLess(n, m) by {
        forall m, n | m in s && n in s && StrLess(m, n) ensures !StrLess(n, m) {
          StrLessAsymmetric(m, n);
        }
      }
      var m :| m in s && forall y | y in s :: y == m || StrLess(m, y);
      [m] + SortedSet(s - {m})
  }

  lemma StrLessIsAsymmetric()
    ensures Asymmetric(StrLess)
  {
    forall x, y | StrLess(x, y) ensures !StrLess(y, x) {
      StrLessAsymmetric(x, y);
    }
  }
}
