/** Sequence operations shared by the table models: filtering (a WHERE
    clause), first match (a `get` of one row) and key uniqueness (a UNIQUE
    constraint or a primary key). */
module SeqUtil {
  import opened Wrappers

  /** The elements of `s` that satisfy `p`, in their original order. */
  function Filter<T(!new)>(s: seq<T>, p: T -> bool): (r: seq<T>)
    ensures |r| <= |s|
    ensures forall x :: x in r <==> x in s && p(x)
    ensures |r| == |s| <==> forall x :: x in s ==> p(x)
    ensures |r| == 0 <==> forall x :: x in s ==> !p(x)
    decreases |s|
  {
    if |s| == 0 then []
    else
      assert forall x :: x in s <==> x == s[0] || x in s[1..];
      if p(s[0]) then [s[0]] + Filter(s[1..], p)
      else Filter(s[1..], p)
  }

  /** `a` is `b` with some elements left out, the rest in their order. */
  predicate IsSubseq<T(==)>(a: seq<T>, b: seq<T>)
    decreases |b|
  {
    if |a| == 0 then true
    else if |b| == 0 then false
    else if a[0] == b[0] then IsSubseq(a[1..], b[1..])
    else IsSubseq(a, b[1..])
  }

  /** A filter keeps the selected elements in their original order. */
  lemma {:induction false} FilterSubseq<T(!new)>(s: seq<T>, p: T -> bool)
    ensures IsSubseq(Filter(s, p), s)
    decreases |s|
  {
    if |s| > 0 {
      FilterSubseq(s[1..], p);
      var rest := Filter(s[1..], p);
      if p(s[0]) {
        var r := [s[0]] + rest;
        assert r[0] == s[0] && r[1..] == rest;
      } else if |rest| > 0 {
        assert rest[0] in rest;
      }
    }
  }

  /** A filter that every element passes keeps the sequence as it is. */
  lemma {:induction false} FilterKeepsAll<T(!new)>(s: seq<T>, p: T -> bool)
    requires forall x :: x in s ==> p(x)
    ensures Filter(s, p) == s
    decreases |s|
  {
    if |s| > 0 {
      assert s[0] in s;
      assert forall x :: x in s[1..] ==> x in s;
      FilterKeepsAll(s[1..], p);
      assert s == [s[0]] + s[1..];
    }
  }

  /** `f` applied to each element of `s`, in turn. */
  function Map<T, U>(s: seq<T>, f: T -> U): (r: seq<U>)
    ensures |r| == |s|
    ensures forall k :: 0 <= k < |s| ==> r[k] == f(s[k])
  {
    seq(|s|, k requires 0 <= k < |s| => f(s[k]))
  }

  /** The first element of `s` that satisfies `p`, if any. */
  function FindFirst<T(!new)>(s: seq<T>, p: T -> bool): (r: Option<T>)
    ensures r.Some? <==> exists x :: x in s && p(x)
    ensures r.Some? ==> r.value in s && p(r.value)
    decreases |s|
  {
    if |s| == 0 then None
    else
      assert forall x :: x in s <==> x == s[0] || x in s[1..];
      if p(s[0]) then Some(s[0]) else FindFirst(s[1..], p)
  }

  /** No two positions of `s` carry the same key. */
  predicate UniqueKeys<T, K(==)>(s: seq<T>, key: T -> K) {
    forall i, j :: 0 <= i < j < |s| ==> key(s[i]) != key(s[j])
  }

  /** Under a unique key, two members with the same key are the same row. */
  lemma UniqueKeysMembers<T, K>(s: seq<T>, key: T -> K, x: T, y: T)
    requires UniqueKeys(s, key)
    requires x in s && y in s && key(x) == key(y)
    ensures x == y
  {
  }

  /** Under a unique key, a sequence holding `x` and nothing else holds it once. */
  lemma UniqueKeysOnly<T(!new), K>(s: seq<T>, key: T -> K, x: T)
    requires UniqueKeys(s, key)
    requires x in s && forall y :: y in s ==> y == x
    ensures |s| == 1
  {
    var sameKey := (y: T) => key(y) == key(x);
    forall i, j | 0 <= i < j < |s| && sameKey(s[i]) ensures !sameKey(s[j]) {
      assert key(s[i]) != key(s[j]);
    }
    FilterAtMostOne(s, sameKey);
    assert forall y :: y in s ==> sameKey(y);
  }

  /** Removing rows keeps every key unique. */
  lemma {:induction false} FilterUniqueKeys<T(!new), K>(s: seq<T>, p: T -> bool, key: T -> K)
    requires UniqueKeys(s, key)
    ensures UniqueKeys(Filter(s, p), key)
    decreases |s|
  {
    if |s| > 0 {
      var tail := s[1..];
      assert UniqueKeys(tail, key) by {
        forall i, j | 0 <= i < j < |tail| ensures key(tail[i]) != key(tail[j]) {
          assert tail[i] == s[i + 1] && tail[j] == s[j + 1];
        }
      }
      FilterUniqueKeys(tail, p, key);
      var rest := Filter(tail, p);
      if p(s[0]) {
        var r := [s[0]] + rest;
        forall i, j | 0 <= i < j < |r| ensures key(r[i]) != key(r[j]) {
          if i == 0 {
            assert r[j] in tail;
            var k :| 0 <= k < |tail| && tail[k] == r[j];
            assert s[k + 1] == r[j];
          } else {
            assert r[i] == rest[i - 1] && r[j] == rest[j - 1];
          }
        }
      }
    }
  }

  /** Appending a row whose key is new keeps every key unique. */
  lemma AppendUniqueKeys<T, K>(s: seq<T>, x: T, key: T -> K)
    requires UniqueKeys(s, key)
    requires forall y :: y in s ==> key(y) != key(x)
    ensures UniqueKeys(s + [x], key)
  {
    var r := s + [x];
    forall i, j | 0 <= i < j < |r| ensures key(r[i]) != key(r[j]) {
      assert r[i] == s[i];
      if j < |s| {
        assert r[j] == s[j];
      } else {
        assert s[i] in s;
      }
    }
  }

  /** Joining two runs of rows whose keys are unique and disjoint keeps
      every key unique. */
  lemma ConcatUniqueKeys<T, K>(a: seq<T>, b: seq<T>, key: T -> K)
    requires UniqueKeys(a, key) && UniqueKeys(b, key)
    requires forall x, y :: x in a && y in b ==> key(x) != key(y)
    ensures UniqueKeys(a + b, key)
  {
    var r := a + b;
    forall i, j | 0 <= i < j < |r| ensures key(r[i]) != key(r[j]) {
      if j < |a| {
        assert r[i] == a[i] && r[j] == a[j];
      } else if i < |a| {
        assert r[i] == a[i] && a[i] in a;
        assert r[j] == b[j - |a|] && b[j - |a|] in b;
      } else {
        assert r[i] == b[i - |a|] && r[j] == b[j - |a|];
      }
    }
  }

  /** A filter and its complement split the rows between them. */
  lemma {:induction false} FilterSplit<T(!new)>(s: seq<T>, p: T -> bool, q: T -> bool)
    requires forall x :: q(x) == !p(x)
    ensures |Filter(s, p)| + |Filter(s, q)| == |s|
    decreases |s|
  {
    if |s| > 0 {
      FilterSplit(s[1..], p, q);
    }
  }

  /** A filter that nothing passes selects nothing. */
  lemma {:induction false} FilterNone<T(!new)>(s: seq<T>, p: T -> bool)
    requires forall x :: x in s ==> !p(x)
    ensures Filter(s, p) == []
    decreases |s|
  {
    if |s| > 0 {
      assert s[0] in s;
      FilterNone(s[1..], p);
    }
  }

  /** Rewriting rows in place without touching their keys keeps every key unique. */
  lemma SameKeysUnique<T, K>(s: seq<T>, s': seq<T>, key: T -> K)
    requires UniqueKeys(s, key)
    requires |s'| == |s|
    requires forall k :: 0 <= k < |s| ==> key(s'[k]) == key(s[k])
    ensures UniqueKeys(s', key)
  {
  }

  /** When no two positions can both satisfy `p`, at most one row is selected. */
  lemma {:induction false} FilterAtMostOne<T(!new)>(s: seq<T>, p: T -> bool)
    requires forall i, j :: 0 <= i < j < |s| && p(s[i]) ==> !p(s[j])
    ensures |Filter(s, p)| <= 1
    decreases |s|
  {
    if |s| > 0 {
      var tail := s[1..];
      if p(s[0]) {
        forall x | x in tail ensures !p(x) {
          var k :| 0 <= k < |tail| && tail[k] == x;
          assert s[k + 1] == x;
        }
        FilterNone(tail, p);
      } else {
        forall i, j | 0 <= i < j < |tail| && p(tail[i]) ensures !p(tail[j]) {
          assert tail[i] == s[i + 1] && tail[j] == s[j + 1];
        }
        FilterAtMostOne(tail, p);
      }
    }
  }
}
