/** The Python list operations the search relies on: `in`, `list.index` and `list.remove`. */
module Lists {

  /** No element occurs twice. */
  predicate Distinct<T(==)>(s: seq<T>) {
    forall i, j | 0 <= i < j < |s| :: s[i] != s[j]
  }

  /** `s.index(x)`: the position of the first occurrence of `x` (Python raises ValueError when `x` is absent). */
  function IndexOf<T(==)>(s: seq<T>, x: T): (k: nat)
    requires x in s
    ensures k < |s| && s[k] == x
    ensures x !in s[..k]
  {
    if s[0] == x then 0
    else
      var k := 1 + IndexOf(s[1..], x);
      assert s[..k] == [s[0]] + s[1..][..k - 1];
      k
  }

  /** `s.remove(x)`: the list without the first occurrence of `x` (Python raises ValueError when `x` is absent). */
  function RemoveFirst<T(==)>(s: seq<T>, x: T): (r: seq<T>)
    requires x in s
    ensures |r| == |s| - 1
    ensures multiset(r) == multiset(s) - multiset{x}
    ensures forall y | y in r :: y in s
    ensures forall i | 0 <= i < |r| :: r[i] == s[if i < IndexOf(s, x) then i else i + 1]
  {
    var k := IndexOf(s, x);
    assert s == s[..k] + [x] + s[k + 1..];
    s[..k] + s[k + 1..]
  }

  /** Removing from a duplicate-free list takes the element out altogether and keeps everything else. */
  lemma RemoveFirstDistinct<T>(s: seq<T>, x: T)
    requires x in s && Distinct(s)
    ensures Distinct(RemoveFirst(s, x))
    ensures forall y :: y in RemoveFirst(s, x) <==> y in s && y != x
  {
    var k := IndexOf(s, x);
    var r := RemoveFirst(s, x);
    forall y | y in s && y != x ensures y in r {
      var i :| 0 <= i < |s| && s[i] == y;
      assert r[if i < k then i else i - 1] == y;
    }
    forall y | y in r ensures y in s && y != x {
      var i :| 0 <= i < |r| && r[i] == y;
      assert s[if i < k then i else i + 1] == y;
    }
  }

  /** Joining two duplicate-free lists with no common element gives a duplicate-free list. */
  lemma DistinctConcat<T>(a: seq<T>, b: seq<T>)
    requires Distinct(a) && Distinct(b)
    requires forall y | y in a :: y !in b
    ensures Distinct(a + b)
  {
    forall i, j | 0 <= i < j < |a + b| ensures (a + b)[i] != (a + b)[j] {
      if j < |a| {
      } else if i >= |a| {
        assert (a + b)[i] == b[i - |a|] && (a + b)[j] == b[j - |a|];
      } else {
        assert (a + b)[i] in a && (a + b)[j] in b;
      }
    }
  }

  /** A duplicate-free list of numbers below `n` has at most `n` elements. */
  lemma {:induction false} DistinctBelow(s: seq<int>, n: nat)
    requires Distinct(s) && forall i | 0 <= i < |s| :: 0 <= s[i] < n
    ensures |s| <= n
  {
    if |s| > 0 {
      assert 0 <= s[0] < n;
      if n - 1 in s {
        var r := RemoveFirst(s, n - 1);
        RemoveFirstDistinct(s, n - 1);
        forall i | 0 <= i < |r| ensures 0 <= r[i] < n - 1 {
          assert r[i] in r;
        }
        DistinctBelow(r, n - 1);
      } else {
        forall i | 0 <= i < |s| ensures 0 <= s[i] < n - 1 {
          assert s[i] in s;
        }
        DistinctBelow(s, n - 1);
      }
    }
  }
}
