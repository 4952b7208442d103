/** The comparators of `app.ts`: `sortComparators` and the favourites-first comparator that
    the `filteredMatches` getter passes to `sort`. */
module Comparators {
  import opened MatchTypes
  import Text

  /** What the favourites-first comparator reads from the store: the favourite ids and the
      sort mode. */
  datatype SortOrder = SortOrder(favorites: seq<string>, sortBy: SortBy)

  /** `favoriteMatch.includes(m.id)`. */
  predicate IsFavorite(favorites: seq<string>, m: Match): (r: bool)
    ensures r <==> exists i :: 0 <= i < |favorites| && favorites[i] == m.id
  {
    m.id in favorites
  }

  /** `sortComparators[sortBy]`. The lookup's fallback to `default` is unreachable because
      the sort mode is one of the three, so this is an exhaustive match. */
  function SortComparator(sortBy: SortBy, a: Match, b: Match): (r: int)
    ensures r <= 0 <==> GroupOrdered(sortBy, a, b)
    ensures r == 0 <==> sortBy == Default ||
                        (sortBy == Time && a.lastUpdated == b.lastUpdated) ||
                        (sortBy == Alphabetical && a.homeTeam == b.homeTeam)
  {
    match sortBy
    case Default => 0
    case Time => b.lastUpdated - a.lastUpdated
    case Alphabetical => Text.Compare(a.homeTeam, b.homeTeam)
  }

  /** The comparator handed to `result.sort`: a favourite comes before a non-favourite; two
      matches on the same side are compared by the selected mode. */
  function Cmp(o: SortOrder, a: Match, b: Match): (r: int)
    ensures IsFavorite(o.favorites, a) && !IsFavorite(o.favorites, b) ==> r < 0
    ensures !IsFavorite(o.favorites, a) && IsFavorite(o.favorites, b) ==> r > 0
    ensures r == 0 <==> IsFavorite(o.favorites, a) == IsFavorite(o.favorites, b) &&
                        SortComparator(o.sortBy, a, b) == 0
  {
    var aIsFavorite := if IsFavorite(o.favorites, a) then 1 else 0;
    var bIsFavorite := if IsFavorite(o.favorites, b) then 1 else 0;
    if aIsFavorite != bIsFavorite then bIsFavorite - aIsFavorite
    else SortComparator(o.sortBy, a, b)
  }

  /** Inside one group (both favourites or both not), `a` may precede `b` in each mode:
      always for `default`, most recent first for `time`, ascending home team for
      `alphabetical`. */
  predicate GroupOrdered(sortBy: SortBy, a: Match, b: Match) {
    match sortBy
    case Default => true
    case Time => a.lastUpdated >= b.lastUpdated
    case Alphabetical => Text.Compare(a.homeTeam, b.homeTeam) <= 0
  }

  /** What "a may come before b" means under the comparator. */
  lemma CmpMeaning(o: SortOrder, a: Match, b: Match)
    ensures Cmp(o, a, b) <= 0 <==>
      (IsFavorite(o.favorites, a) && !IsFavorite(o.favorites, b)) ||
      (IsFavorite(o.favorites, a) == IsFavorite(o.favorites, b) && GroupOrdered(o.sortBy, a, b))
  {
  }

  /** The comparator is antisymmetric: swapping the operands negates the result. */
  lemma CmpAntisymmetric(o: SortOrder, a: Match, b: Match)
    ensures Cmp(o, a, b) == -Cmp(o, b, a)
  {
    Text.CompareAntisymmetric(a.homeTeam, b.homeTeam);
  }

  /** Every match is tied with itself. */
  lemma CmpReflexive(o: SortOrder, a: Match)
    ensures Cmp(o, a, a) == 0
  {
    CmpAntisymmetric(o, a, a);
  }

  /** "May come before" is transitive, so the comparator is a consistent total preorder and
      a stable sort with it has one well-defined result. */
  lemma CmpTransitive(o: SortOrder, a: Match, b: Match, c: Match)
    requires Cmp(o, a, b) <= 0 && Cmp(o, b, c) <= 0
    ensures Cmp(o, a, c) <= 0
  {
    if o.sortBy == Alphabetical && IsFavorite(o.favorites, a) == IsFavorite(o.favorites, b) == IsFavorite(o.favorites, c) {
      Text.CompareTransitive(a.homeTeam, b.homeTeam, c.homeTeam);
    }
  }

  /** Being tied (comparing as 0) is an equivalence: symmetric and transitive. */
  lemma TiedTransitive(o: SortOrder, a: Match, b: Match, c: Match)
    requires Cmp(o, a, b) == 0 && Cmp(o, b, c) == 0
    ensures Cmp(o, a, c) == 0 && Cmp(o, c, a) == 0
  {
    CmpAntisymmetric(o, a, b);
    CmpAntisymmetric(o, b, c);
    CmpAntisymmetric(o, a, c);
    CmpTransitive(o, a, b, c);
    CmpTransitive(o, c, b, a);
  }
}
