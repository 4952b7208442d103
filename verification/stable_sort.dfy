/** `Array.prototype.sort` with the favourites-first comparator. JavaScript's sort is stable,
    so it is modelled by a stable insertion sort; `SortUnique` shows that any sorted, stable
    permutation is this one, so the model does not depend on the algorithm the engine uses. */
module StableSort {
  import opened MatchTypes
  import opened Comparators
  import opened Lists

  /** No pair of positions is out of order under the comparator. */
  predicate Sorted(o: SortOrder, s: seq<Match>) {
    forall i, j :: 0 <= i < j < |s| ==> Cmp(o, s[i], s[j]) <= 0
  }

  /** The matches tied with `x` under the comparator. */
  function TiedWith(o: SortOrder, x: Match): Match -> bool {
    (m: Match) => Cmp(o, x, m) == 0
  }

  /** The subsequence of `s` of the matches tied with `x`, in the order of `s`. A stable
      sort keeps each of these subsequences as it was. */
  function Tied(o: SortOrder, x: Match, s: seq<Match>): seq<Match> {
    Filter(s, TiedWith(o, x))
  }

  /** Inserts `y` after the last element of `t` that may come before it. */
  function Insert(o: SortOrder, y: Match, t: seq<Match>): (r: seq<Match>)
    ensures multiset(r) == multiset(t) + multiset{y}
    decreases |t|
  {
    if t == [] then [y]
    else if Cmp(o, t[|t| - 1], y) <= 0 then t + [y]
    else
      assert t == t[..|t| - 1] + [t[|t| - 1]];
      Insert(o, y, t[..|t| - 1]) + [t[|t| - 1]]
  }

  /** The stable sort of `s`: inserts its elements one by one, from the first to the last. */
  function Sort(o: SortOrder, s: seq<Match>): (r: seq<Match>)
    ensures multiset(r) == multiset(s)
    ensures |r| == |s|
  {
    if s == [] then []
    else
      assert s == s[..|s| - 1] + [s[|s| - 1]];
      assert |multiset(s)| == |s|;
      Insert(o, s[|s| - 1], Sort(o, s[..|s| - 1]))
  }

  lemma {:induction false} InsertSorted(o: SortOrder, y: Match, t: seq<Match>)
    requires Sorted(o, t)
    ensures Sorted(o, Insert(o, y, t))
    decreases |t|
  {
    if t == [] {
    } else if Cmp(o, t[|t| - 1], y) <= 0 {
      var r := t + [y];
      forall i | 0 <= i < |t| ensures Cmp(o, r[i], y) <= 0 {
        if i < |t| - 1 {
          CmpTransitive(o, t[i], t[|t| - 1], y);
        }
      }
    } else {
      var init, last := t[..|t| - 1], t[|t| - 1];
      InsertSorted(o, y, init);
      var front := Insert(o, y, init);
      CmpAntisymmetric(o, last, y);
      forall i | 0 <= i < |front| ensures Cmp(o, front[i], last) <= 0 {
        assert front[i] in multiset(init) + multiset{y};
        if front[i] != y {
          assert front[i] in init;
        }
      }
    }
  }

  /** The sort puts its result in comparator order. */
  lemma {:induction false} SortSorted(o: SortOrder, s: seq<Match>)
    ensures Sorted(o, Sort(o, s))
  {
    if s != [] {
      SortSorted(o, s[..|s| - 1]);
      InsertSorted(o, s[|s| - 1], Sort(o, s[..|s| - 1]));
    }
  }

  /** Two matches that are not tied are never both tied with a third, so their tie
      subsequences commute. */
  lemma TiedCommute(o: SortOrder, x: Match, y: Match, z: Match)
    requires Cmp(o, z, y) > 0
    ensures Tied(o, x, [y]) + Tied(o, x, [z]) == Tied(o, x, [z]) + Tied(o, x, [y])
  {
    FilterSingleton(y, TiedWith(o, x));
    FilterSingleton(z, TiedWith(o, x));
    CmpAntisymmetric(o, x, z);
    if Cmp(o, x, y) == 0 && Cmp(o, x, z) == 0 {
      TiedTransitive(o, z, x, y);
    }
  }

  lemma {:induction false} InsertTied(o: SortOrder, x: Match, y: Match, t: seq<Match>)
    ensures Tied(o, x, Insert(o, y, t)) == Tied(o, x, t) + Tied(o, x, [y])
    decreases |t|
  {
    if t == [] {
    } else if Cmp(o, t[|t| - 1], y) <= 0 {
      FilterConcat(t, [y], TiedWith(o, x));
    } else {
      var init, last := t[..|t| - 1], t[|t| - 1];
      var front := Insert(o, y, init);
      var p := TiedWith(o, x);
      assert t == init + [last];
      assert Insert(o, y, t) == front + [last];
      calc {
        Tied(o, x, Insert(o, y, t));
        { FilterConcat(front, [last], p); }
        Tied(o, x, front) + Tied(o, x, [last]);
        { InsertTied(o, x, y, init); }
        (Tied(o, x, init) + Tied(o, x, [y])) + Tied(o, x, [last]);
        { AppendAssoc(Tied(o, x, init), Tied(o, x, [y]), Tied(o, x, [last])); }
        Tied(o, x, init) + (Tied(o, x, [y]) + Tied(o, x, [last]));
        { TiedCommute(o, x, y, last); }
        Tied(o, x, init) + (Tied(o, x, [last]) + Tied(o, x, [y]));
        { AppendAssoc(Tied(o, x, init), Tied(o, x, [last]), Tied(o, x, [y])); }
        (Tied(o, x, init) + Tied(o, x, [last])) + Tied(o, x, [y]);
        { FilterConcat(init, [last], p); }
        Tied(o, x, t) + Tied(o, x, [y]);
      }
    }
  }

  /** Stability: the matches tied with any `x` keep their relative order. */
  lemma {:induction false} SortStable(o: SortOrder, x: Match, s: seq<Match>)
    ensures Tied(o, x, Sort(o, s)) == Tied(o, x, s)
  {
    if s != [] {
      var init, last := s[..|s| - 1], s[|s| - 1];
      assert s == init + [last];
      SortStable(o, x, init);
      InsertTied(o, x, last, Sort(o, init));
      FilterConcat(init, [last], TiedWith(o, x));
    }
  }

  /** Splits off the first element of a tie subsequence. */
  lemma TiedCons(o: SortOrder, x: Match, s: seq<Match>)
    requires s != []
    ensures Tied(o, x, s) == (if Cmp(o, x, s[0]) == 0 then [s[0]] else []) + Tied(o, x, s[1..])
  {
  }

  /** The first element of a sorted sequence may come before every element. */
  lemma SortedFirst(o: SortOrder, s: seq<Match>, m: Match)
    requires Sorted(o, s) && s != [] && m in s
    ensures Cmp(o, s[0], m) <= 0
  {
    CmpReflexive(o, m);
  }

  /** Two sorted permutations of each other whose tie subsequences agree start alike. */
  lemma SameFirst(o: SortOrder, r: seq<Match>, q: seq<Match>)
    requires Sorted(o, r) && Sorted(o, q) && r != [] && q != []
    requires r[0] in q && q[0] in r
    requires Tied(o, r[0], r) == Tied(o, r[0], q)
    ensures r[0] == q[0]
  {
    SortedFirst(o, r, q[0]);
    SortedFirst(o, q, r[0]);
    CmpAntisymmetric(o, r[0], q[0]);
    CmpReflexive(o, r[0]);
    assert Cmp(o, r[0], q[0]) == 0;
    TiedCons(o, r[0], r);
    TiedCons(o, r[0], q);
    assert Tied(o, r[0], r)[0] == r[0];
    assert Tied(o, r[0], q)[0] == q[0];
  }

  /** Removing the same first element from two sequences keeps their tie subsequences
      for `x` in agreement. */
  lemma TailTied(o: SortOrder, x: Match, r: seq<Match>, q: seq<Match>)
    requires r != [] && q != [] && r[0] == q[0]
    requires Tied(o, x, r) == Tied(o, x, q)
    ensures Tied(o, x, r[1..]) == Tied(o, x, q[1..])
  {
    TiedCons(o, x, r);
    TiedCons(o, x, q);
    var h := if Cmp(o, x, r[0]) == 0 then [r[0]] else [];
    assert Tied(o, x, r[1..]) == (h + Tied(o, x, r[1..]))[|h|..];
    assert Tied(o, x, q[1..]) == (h + Tied(o, x, q[1..]))[|h|..];
  }

  /** Removing the same first element from two permutations of each other leaves
      permutations of each other. */
  lemma TailMultiset(r: seq<Match>, q: seq<Match>)
    requires r != [] && q != [] && r[0] == q[0]
    requires multiset(r) == multiset(q)
    ensures multiset(r[1..]) == multiset(q[1..])
  {
    assert r == [r[0]] + r[1..] && q == [q[0]] + q[1..];
    assert multiset(r[1..]) == multiset(r) - multiset{r[0]};
    assert multiset(q[1..]) == multiset(q) - multiset{q[0]};
  }

  /** Two sorted sequences with the same elements and the same order inside every tie
      class are equal. */
  lemma {:induction false} SortedTiedUnique(o: SortOrder, r: seq<Match>, q: seq<Match>)
    requires Sorted(o, r) && Sorted(o, q)
    requires multiset(r) == multiset(q)
    requires forall x :: Tied(o, x, r) == Tied(o, x, q)
    ensures r == q
    decreases |r|
  {
    assert |multiset(q)| == |q| && |multiset(r)| == |r|;
    if r != [] {
      assert r[0] in multiset(q) && q[0] in multiset(r);
      SameFirst(o, r, q);
      TailMultiset(r, q);
      forall x ensures Tied(o, x, r[1..]) == Tied(o, x, q[1..]) {
        TailTied(o, x, r, q);
      }
      SortedTiedUnique(o, r[1..], q[1..]);
      assert r == [r[0]] + r[1..] && q == [q[0]] + q[1..];
    }
  }

  /** The sort is the only sorted, stable permutation of its input. */
  lemma SortUnique(o: SortOrder, s: seq<Match>, r: seq<Match>)
    requires Sorted(o, r) && multiset(r) == multiset(s)
    requires forall x :: Tied(o, x, r) == Tied(o, x, s)
    ensures r == Sort(o, s)
  {
    SortSorted(o, s);
    forall x ensures Tied(o, x, r) == Tied(o, x, Sort(o, s)) {
      SortStable(o, x, s);
    }
    SortedTiedUnique(o, r, Sort(o, s));
  }

  /** Sorting a sequence that is already in comparator order leaves it as it is. */
  lemma SortOfSorted(o: SortOrder, s: seq<Match>)
    requires Sorted(o, s)
    ensures Sort(o, s) == s
  {
    SortUnique(o, s, s);
  }

  /** Sorting twice is sorting once. */
  lemma SortIdempotent(o: SortOrder, s: seq<Match>)
    ensures Sort(o, Sort(o, s)) == Sort(o, s)
  {
    SortSorted(o, s);
    SortOfSorted(o, Sort(o, s));
  }

  /** Keeps the favourite matches. */
  function FavoritePred(favorites: seq<string>): Match -> bool {
    (m: Match) => IsFavorite(favorites, m)
  }

  /** Keeps the matches that are not favourites. */
  function NonFavoritePred(favorites: seq<string>): Match -> bool {
    (m: Match) => !IsFavorite(favorites, m)
  }

  /** The two halves of the partition hold what their names say. */
  lemma PartitionSides(favorites: seq<string>, s: seq<Match>)
    ensures forall i :: 0 <= i < |Filter(s, FavoritePred(favorites))| ==>
      IsFavorite(favorites, Filter(s, FavoritePred(favorites))[i])
    ensures forall i :: 0 <= i < |Filter(s, NonFavoritePred(favorites))| ==>
      !IsFavorite(favorites, Filter(s, NonFavoritePred(favorites))[i])
  {
    var f, n := Filter(s, FavoritePred(favorites)), Filter(s, NonFavoritePred(favorites));
    assert forall i :: 0 <= i < |f| ==> FavoritePred(favorites)(f[i]);
    assert forall i :: 0 <= i < |n| ==> NonFavoritePred(favorites)(n[i]);
  }

  /** One step of `Insert` on a non-empty sequence. */
  lemma InsertStep(o: SortOrder, y: Match, t: seq<Match>)
    requires t != []
    ensures Insert(o, y, t) ==
      if Cmp(o, t[|t| - 1], y) <= 0 then t + [y] else Insert(o, y, t[..|t| - 1]) + [t[|t| - 1]]
  {
  }

  /** In the `default` mode `a` may precede `b` unless only `b` is a favourite. */
  lemma CmpDefault(o: SortOrder, a: Match, b: Match)
    requires o.sortBy == Default
    ensures Cmp(o, a, b) <= 0 <==> IsFavorite(o.favorites, a) || !IsFavorite(o.favorites, b)
  {
  }

  /** In the `default` mode a match goes at the end of the favourites `f` when it is a
      favourite, and at the very end otherwise. */
  lemma {:induction false} InsertDefault(o: SortOrder, y: Match, f: seq<Match>, n: seq<Match>)
    requires o.sortBy == Default
    requires f != [] ==> IsFavorite(o.favorites, f[|f| - 1])
    requires forall i :: 0 <= i < |n| ==> !IsFavorite(o.favorites, n[i])
    ensures Insert(o, y, f + n) == if IsFavorite(o.favorites, y) then f + [y] + n else f + n + [y]
    decreases |n|
  {
    var t := f + n;
    if n == [] {
      assert t == f;
      if f != [] {
        InsertStep(o, y, t);
        CmpDefault(o, f[|f| - 1], y);
      }
    } else {
      var init, last := n[..|n| - 1], n[|n| - 1];
      assert n == init + [last];
      assert t[|t| - 1] == last;
      InsertStep(o, y, t);
      CmpDefault(o, last, y);
      if IsFavorite(o.favorites, y) {
        assert t[..|t| - 1] == f + init by {
          AppendAssoc(f, init, [last]);
        }
        InsertDefault(o, y, f, init);
        AppendAssoc(f + [y], init, [last]);
      }
    }
  }

  /** Inserting one more match into the partition of `init` gives the partition of
      `init + [last]`. */
  lemma InsertPartition(favorites: seq<string>, init: seq<Match>, last: Match)
    ensures Insert(SortOrder(favorites, Default), last,
                   Filter(init, FavoritePred(favorites)) + Filter(init, NonFavoritePred(favorites)))
         == Filter(init + [last], FavoritePred(favorites)) + Filter(init + [last], NonFavoritePred(favorites))
  {
    var fp, np := FavoritePred(favorites), NonFavoritePred(favorites);
    var f, n := Filter(init, fp), Filter(init, np);
    var o := SortOrder(favorites, Default);
    assert Insert(o, last, f + n)
        == if IsFavorite(favorites, last) then f + [last] + n else f + n + [last] by {
      PartitionSides(favorites, init);
      InsertDefault(o, last, f, n);
    }
    FilterSnoc(init, last, fp);
    FilterSnoc(init, last, np);
    if IsFavorite(favorites, last) {
      assert fp(last) && !np(last);
      assert Filter(init + [last], fp) == f + [last];
      assert Filter(init + [last], np) == n;
    } else {
      assert !fp(last) && np(last);
      assert Filter(init + [last], fp) == f;
      assert Filter(init + [last], np) == n + [last];
      AppendAssoc(f, n, [last]);
    }
  }

  /** In the `default` mode the comparator only separates favourites from the rest, so the
      sort is a stable partition: the favourites in input order, then the others in input
      order. */
  lemma {:induction false} SortDefault(favorites: seq<string>, s: seq<Match>)
    ensures Sort(SortOrder(favorites, Default), s)
         == Filter(s, FavoritePred(favorites)) + Filter(s, NonFavoritePred(favorites))
  {
    if s != [] {
      var init, last := s[..|s| - 1], s[|s| - 1];
      assert s == init + [last];
      SortDefault(favorites, init);
      InsertPartition(favorites, init, last);
    }
  }
}
