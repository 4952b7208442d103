/** The favourites toggle of `setFavoriteMatch`: remove the id where `indexOf` finds it, or
    push it at the end. */
module Favorites {
  import opened Lists

  /** The favourites after toggling `id`: its first occurrence spliced out when present,
      otherwise `id` pushed at the end; nothing else moves. */
  function Toggle(favorites: seq<string>, id: string): (r: seq<string>)
    ensures id !in favorites ==> r == favorites + [id]
    ensures id in favorites ==>
      exists k :: 0 <= k < |favorites| && favorites[k] == id && id !in favorites[..k] &&
                  r == favorites[..k] + favorites[k + 1..]
  {
    var index := IndexOf(favorites, id);
    if index > -1 then favorites[..index] + favorites[index + 1..] else favorites + [id]
  }

  /** Toggling takes one `id` out of the favourites when there is one, and adds one
      otherwise. */
  lemma ToggleMultiset(favorites: seq<string>, id: string)
    ensures multiset(Toggle(favorites, id)) ==
      if id in favorites then multiset(favorites) - multiset{id}
      else multiset(favorites) + multiset{id}
  {
    var index := IndexOf(favorites, id);
    if index > -1 {
      var before, after := favorites[..index], favorites[index + 1..];
      assert favorites == before + [id] + after;
      assert Toggle(favorites, id) == before + after;
      assert multiset(favorites) == multiset(before) + multiset{id} + multiset(after);
      assert multiset(before + after) == multiset(before) + multiset(after);
    } else {
      assert Toggle(favorites, id) == favorites + [id];
    }
  }

  /** Toggling an id that was not a favourite twice restores the list exactly. */
  lemma ToggleTwiceAbsent(favorites: seq<string>, id: string)
    requires id !in favorites
    ensures Toggle(Toggle(favorites, id), id) == favorites
  {
    var once := Toggle(favorites, id);
    assert once == favorites + [id];
    var k :| 0 <= k < |once| && once[k] == id && id !in once[..k] &&
             Toggle(once, id) == once[..k] + once[k + 1..];
    assert once[..|favorites|] == favorites;
  }

  /** Toggling a favourite that occurs once twice keeps the same ids, with `id` moved to
      the end. */
  lemma ToggleTwiceOnce(favorites: seq<string>, id: string)
    requires multiset(favorites)[id] == 1
    ensures Toggle(Toggle(favorites, id), id) == Toggle(favorites, id) + [id]
    ensures multiset(Toggle(Toggle(favorites, id), id)) == multiset(favorites)
  {
    assert id in multiset(favorites);
    ToggleMultiset(favorites, id);
    assert multiset(Toggle(favorites, id))[id] == 0;
    ToggleMultiset(Toggle(favorites, id), id);
  }

  /** When `id` occurs more than once, two toggles remove its first two occurrences. */
  lemma ToggleTwiceRepeated(favorites: seq<string>, id: string)
    requires multiset(favorites)[id] >= 2
    ensures multiset(Toggle(Toggle(favorites, id), id)) == multiset(favorites) - multiset{id, id}
  {
    var m := multiset(favorites);
    var once := Toggle(favorites, id);
    assert id in favorites by {
      assert id in m;
    }
    ToggleMultiset(favorites, id);
    assert id in once by {
      assert multiset(once)[id] == m[id] - 1;
    }
    ToggleMultiset(once, id);
    RemoveTwice(m, id);
  }

  lemma RemoveTwice<T>(m: multiset<T>, x: T)
    ensures m - multiset{x} - multiset{x} == m - multiset{x, x}
  {
  }

  /** Splicing one entry out of a duplicate-free list leaves it duplicate-free and without
      that entry. */
  lemma SpliceNoDup(favorites: seq<string>, k: nat)
    requires NoDup(favorites) && k < |favorites|
    ensures NoDup(favorites[..k] + favorites[k + 1..])
    ensures favorites[k] !in favorites[..k] + favorites[k + 1..]
  {
    var r := favorites[..k] + favorites[k + 1..];
    forall i, j | 0 <= i < j < |r| ensures r[i] != r[j] {
      var i', j' := if i < k then i else i + 1, if j < k then j else j + 1;
      assert r[i] == favorites[i'] && r[j] == favorites[j'];
    }
    forall i | 0 <= i < |r| ensures r[i] != favorites[k] {
      var i' := if i < k then i else i + 1;
      assert r[i] == favorites[i'] && i' != k;
    }
  }

  /** A duplicate-free list stays duplicate-free, and afterwards holds `id` exactly when it
      did not before. */
  lemma ToggleKeepsNoDup(favorites: seq<string>, id: string)
    requires NoDup(favorites)
    ensures NoDup(Toggle(favorites, id))
    ensures id in Toggle(favorites, id) <==> id !in favorites
  {
    var r := Toggle(favorites, id);
    if id in favorites {
      var k :| 0 <= k < |favorites| && favorites[k] == id && id !in favorites[..k] &&
               r == favorites[..k] + favorites[k + 1..];
      SpliceNoDup(favorites, k);
    } else {
      assert r == favorites + [id];
    }
  }

  /** Other ids are untouched: each occurs as often as before. */
  lemma ToggleOthers(favorites: seq<string>, id: string, other: string)
    requires other != id
    ensures multiset(Toggle(favorites, id))[other] == multiset(favorites)[other]
  {
    ToggleMultiset(favorites, id);
  }
}
