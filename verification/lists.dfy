/** Sequence operations that the store borrows from JavaScript arrays:
    `filter`, `indexOf`, and the absence of duplicates. */
module Lists {

  /** `Array.prototype.filter`: the elements of `s` that satisfy `p`, in their original order. */
  function Filter<T>(s: seq<T>, p: T -> bool): (r: seq<T>)
    ensures |r| <= |s|
    ensures forall i :: 0 <= i < |r| ==> p(r[i])
  {
    if s == [] then []
    else
      (if p(s[0]) then [s[0]] else []) + Filter(s[1..], p)
  }

  /** An element survives the filter exactly when it was there and passes it. */
  lemma {:induction false} FilterMembership<T>(s: seq<T>, p: T -> bool, x: T)
    ensures x in Filter(s, p) <==> x in s && p(x)
  {
    if s != [] {
      FilterMembership(s[1..], p, x);
      assert s == [s[0]] + s[1..];
    }
  }

  /** Filtering adds nothing: every kept element comes from the input. */
  lemma FilterSubset<T>(s: seq<T>, p: T -> bool)
    ensures forall x :: x in Filter(s, p) ==> x in s
  {
    forall x | x in Filter(s, p) ensures x in s {
      FilterMembership(s, p, x);
    }
  }

  /** Filtering distributes over concatenation. */
  lemma {:induction false} FilterConcat<T>(s: seq<T>, t: seq<T>, p: T -> bool)
    ensures Filter(s + t, p) == Filter(s, p) + Filter(t, p)
  {
    if s == [] {
      assert s + t == t;
    } else {
      assert (s + t)[0] == s[0];
      assert (s + t)[1..] == s[1..] + t;
      FilterConcat(s[1..], t, p);
    }
  }

  /** Filtering a one-element sequence. */
  lemma FilterSingleton<T>(a: T, p: T -> bool)
    ensures Filter([a], p) == if p(a) then [a] else []
  {
    assert [a][1..] == [];
  }

  /** Filtering a sequence extended by one element. */
  lemma FilterSnoc<T>(s: seq<T>, a: T, p: T -> bool)
    ensures Filter(s + [a], p) == Filter(s, p) + (if p(a) then [a] else [])
  {
    FilterConcat(s, [a], p);
    FilterSingleton(a, p);
  }

  /** A filter that every element passes keeps the whole sequence. */
  lemma {:induction false} FilterAll<T>(s: seq<T>, p: T -> bool)
    requires forall i :: 0 <= i < |s| ==> p(s[i])
    ensures Filter(s, p) == s
  {
    if s != [] {
      FilterAll(s[1..], p);
    }
  }

  /** Two filters in a row are one filter by the conjunction. */
  lemma {:induction false} FilterCompose<T>(s: seq<T>, p: T -> bool, q: T -> bool, pq: T -> bool)
    requires forall x :: pq(x) == (p(x) && q(x))
    ensures Filter(Filter(s, p), q) == Filter(s, pq)
  {
    if s != [] {
      var head := if p(s[0]) then [s[0]] else [];
      FilterConcat(head, Filter(s[1..], p), q);
      FilterCompose(s[1..], p, q, pq);
    }
  }

  /** `Array.prototype.indexOf`: the first index holding `x`, or -1 when there is none. */
  function IndexOf<T(==)>(s: seq<T>, x: T): (r: int)
    ensures -1 <= r < |s|
    ensures r == -1 <==> x !in s
    ensures 0 <= r ==> s[r] == x && x !in s[..r]
  {
    if s == [] then -1
    else if s[0] == x then 0
    else
      var k := IndexOf(s[1..], x);
      if k == -1 then -1
      else
        assert s[..k + 1] == [s[0]] + s[1..][..k];
        k + 1
  }

  /** The first occurrence of an element of `t` is the same in `t + u`. */
  lemma IndexOfPrefix<T>(t: seq<T>, u: seq<T>, x: T)
    requires x in t
    ensures IndexOf(t + u, x) == IndexOf(t, x)
  {
    var j, k := IndexOf(t, x), IndexOf(t + u, x);
    assert (t + u)[j] == x;
    assert (t + u)[..j] == t[..j];
  }

  /** A filter keeps elements in their relative order: a key that increases along `s`
      increases along the filtered sequence. */
  lemma {:induction false} FilterKeepsOrder<T>(s: seq<T>, p: T -> bool, key: T -> int)
    requires forall i, j :: 0 <= i < j < |s| ==> key(s[i]) < key(s[j])
    ensures var r := Filter(s, p);
      forall i, j :: 0 <= i < j < |r| ==> key(r[i]) < key(r[j])
  {
    if s != [] {
      FilterKeepsOrder(s[1..], p, key);
      var tail := Filter(s[1..], p);
      forall k | 0 <= k < |tail| ensures key(s[0]) < key(tail[k]) {
        FilterMembership(s[1..], p, tail[k]);
        var m :| 0 <= m < |s[1..]| && s[1..][m] == tail[k];
        assert s[m + 1] == tail[k];
      }
    }
  }

  /** Concatenation is associative. */
  lemma AppendAssoc<T>(a: seq<T>, b: seq<T>, c: seq<T>)
    ensures a + b + c == a + (b + c)
  {
  }

  /** No element occurs twice. */
  predicate NoDup<T(==)>(s: seq<T>) {
    forall i, j :: 0 <= i < j < |s| ==> s[i] != s[j]
  }
}
