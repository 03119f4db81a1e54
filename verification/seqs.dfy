/** Sequence helpers shared by the ordered dictionary, the menu extraction
    and the location filter. */
module Seqs {

  /** No element occurs twice. */
  predicate Distinct<T(==,!new)>(s: seq<T>)
  {
    forall i, j :: 0 <= i < j < |s| ==> s[i] != s[j]
  }

  /** `s` with every occurrence of `x` dropped, the other elements in their
      original order (a Python list comprehension `[y for y in s if y != x]`). */
  function RemoveValue<T(==,!new)>(s: seq<T>, x: T): (r: seq<T>)
    ensures forall y :: y in r <==> y in s && y != x
    ensures |r| <= |s|
    decreases |s|
  {
    if |s| == 0 then []
    else if s[0] == x then RemoveValue(s[1..], x)
    else [s[0]] + RemoveValue(s[1..], x)
  }

  /** Removing a value that does not occur changes nothing. */
  lemma {:induction false} RemoveValueAbsent<T(!new)>(s: seq<T>, x: T)
    requires x !in s
    ensures RemoveValue(s, x) == s
    decreases |s|
  {
    if |s| > 0 {
      assert s[0] in s;
      assert forall y :: y in s[1..] ==> y in s;
      RemoveValueAbsent(s[1..], x);
    }
  }

  /** Filtering distributes over concatenation, so relative order is kept. */
  lemma {:induction false} RemoveValueAppend<T(!new)>(a: seq<T>, b: seq<T>, x: T)
    ensures RemoveValue(a + b, x) == RemoveValue(a, x) + RemoveValue(b, x)
    decreases |a|
  {
    if |a| == 0 {
      assert a + b == b;
    } else {
      assert (a + b)[0] == a[0];
      assert (a + b)[1..] == a[1..] + b;
      RemoveValueAppend(a[1..], b, x);
    }
  }

  /** Filtering a sequence without duplicates leaves one without duplicates. */
  lemma {:induction false} RemoveValueDistinct<T(!new)>(s: seq<T>, x: T)
    requires Distinct(s)
    ensures Distinct(RemoveValue(s, x))
    decreases |s|
  {
    if |s| > 0 {
      assert Distinct(s[1..]) by {
        forall i, j | 0 <= i < j < |s[1..]|
          ensures s[1..][i] != s[1..][j]
        {
          assert s[1..][i] == s[i + 1] && s[1..][j] == s[j + 1];
        }
      }
      RemoveValueDistinct(s[1..], x);
      if s[0] != x {
        var rest := RemoveValue(s[1..], x);
        assert s[0] !in s[1..] by {
          forall k | 0 <= k < |s[1..]|
            ensures s[1..][k] != s[0]
          {
            assert s[1..][k] == s[k + 1];
          }
        }
        assert s[0] !in rest;
        var r := [s[0]] + rest;
        forall i, j | 0 <= i < j < |r|
          ensures r[i] != r[j]
        {
          if i == 0 {
            assert r[j] == rest[j - 1];
          } else {
            assert r[i] == rest[i - 1] && r[j] == rest[j - 1];
          }
        }
      }
    }
  }

  /** The position of the first occurrence of `x` in `s`. */
  function IndexOf<T(==,!new)>(s: seq<T>, x: T): (i: nat)
    requires x in s
    ensures i < |s| && s[i] == x
    ensures x !in s[..i]
    decreases |s|
  {
    if s[0] == x then 0
    else
      assert x in s[1..] by {
        var k :| 0 <= k < |s| && s[k] == x;
        assert k > 0 && s[1..][k - 1] == x;
      }
      var i := 1 + IndexOf(s[1..], x);
      assert s[..i] == [s[0]] + s[1..][..i - 1];
      i
  }

  /** Appending elements behind the first occurrence does not move it. */
  lemma {:induction false} IndexOfAppend<T(!new)>(s: seq<T>, t: seq<T>, x: T)
    requires x in s
    ensures IndexOf(s + t, x) == IndexOf(s, x)
    decreases |s|
  {
    assert (s + t)[0] == s[0];
    if s[0] != x {
      assert (s + t)[1..] == s[1..] + t;
      assert x in s[1..] by {
        var k := IndexOf(s, x);
        assert s[1..][k - 1] == x;
      }
      IndexOfAppend(s[1..], t, x);
    }
  }

  /** A sequence without duplicates has as many distinct elements as
      positions. */
  lemma {:induction false} DistinctCard<T(!new)>(s: seq<T>)
    requires Distinct(s)
    ensures |set x | x in s| == |s|
    decreases |s|
  {
    if |s| > 0 {
      var n := |s| - 1;
      var p := s[..n];
      assert Distinct(p) by {
        forall i, j | 0 <= i < j < |p| ensures p[i] != p[j] {
          assert p[i] == s[i] && p[j] == s[j];
        }
      }
      DistinctCard(p);
      assert s == p + [s[n]];
      assert s[n] !in p by {
        forall k | 0 <= k < |p| ensures p[k] != s[n] {
          assert p[k] == s[k];
        }
      }
      assert (set x | x in s) == (set x | x in p) + {s[n]};
    }
  }
}
