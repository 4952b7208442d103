/** The `filteredMatches` getter as a function of the store's state: the league filter, the
    search filter, then the favourites-first stable sort. */
module MatchView {
  import opened MatchTypes
  import opened Comparators
  import opened Lists
  import opened StableSort
  import Text

  /** `match.league === selectedLeague`. */
  function LeaguePred(league: string): Match -> bool {
    (m: Match) => m.league == league
  }

  /** The lower-cased home or away team name contains the search term. The empty term is
      contained in every name, and a term longer than both names matches nothing. */
  predicate MatchesTerm(term: string, m: Match): (r: bool)
    ensures term == "" ==> r
    ensures r ==> |term| <= |m.homeTeam| || |term| <= |m.awayTeam|
  {
    Text.IncludesEmpty(Text.Lower(m.homeTeam));
    Text.Includes(Text.Lower(m.homeTeam), term) || Text.Includes(Text.Lower(m.awayTeam), term)
  }

  /** What the search test means: the term occurs somewhere in the lower-cased home or away
      team name. */
  lemma MatchesTermMeaning(term: string, m: Match)
    ensures MatchesTerm(term, m) <==>
      Text.Occurs(Text.Lower(m.homeTeam), term) || Text.Occurs(Text.Lower(m.awayTeam), term)
  {
    Text.IncludesMeaning(Text.Lower(m.homeTeam), term);
    Text.IncludesMeaning(Text.Lower(m.awayTeam), term);
  }

  function TermPred(term: string): Match -> bool {
    (m: Match) => MatchesTerm(term, m)
  }

  /** The league step: filters only when the selected league is not `"all"`. */
  function ByLeague(league: string, s: seq<Match>): (r: seq<Match>)
    ensures |r| <= |s|
    ensures forall i :: 0 <= i < |r| ==> league == "all" || r[i].league == league
    ensures league == "all" ==> r == s
    ensures forall m :: m in r ==> m in s
  {
    if league != "all" then
      FilterSubset(s, LeaguePred(league));
      Filter(s, LeaguePred(league))
    else s
  }

  /** The search step: filters only when the term is not empty. */
  function BySearch(term: string, s: seq<Match>): (r: seq<Match>)
    ensures |r| <= |s|
    ensures forall i :: 0 <= i < |r| ==> MatchesTerm(term, r[i])
    ensures term == "" ==> r == s
    ensures forall m :: m in r ==> m in s
  {
    if term != "" then
      FilterSubset(s, TermPred(term));
      Filter(s, TermPred(term))
    else s
  }

  /** The result of `filteredMatches` for the given state. */
  function FilteredView(all: seq<Match>, favorites: seq<string>, term: string, league: string,
                        sortBy: SortBy): (r: seq<Match>)
    ensures multiset(r) == multiset(Selected(all, league, term))
  {
    FiltersSelect(all, league, term);
    Sort(SortOrder(favorites, sortBy), BySearch(term, ByLeague(league, all)))
  }

  /** Neither filter applies, so the getter sorts `allMatches` itself. */
  predicate NoFilter(league: string, term: string) {
    league == "all" && term == ""
  }

  /** What `allMatches` holds after the getter has run: the sorted view when it sorted the
      store's own array, the old contents otherwise. */
  function MatchesAfterView(all: seq<Match>, favorites: seq<string>, term: string, league: string,
                            sortBy: SortBy): (r: seq<Match>)
    ensures multiset(r) == multiset(all)
  {
    if NoFilter(league, term) then FilteredView(all, favorites, term, league, sortBy) else all
  }

  /** Reference definition of what the view shows: a match passes when its league is the
      selected one (or `"all"` is selected) and the term is empty or found in a team name. */
  predicate Passes(league: string, term: string, m: Match) {
    (league == "all" || m.league == league) && (term == "" || MatchesTerm(term, m))
  }

  function PassPred(league: string, term: string): Match -> bool {
    (m: Match) => Passes(league, term, m)
  }

  /** The matches of `all` that pass both filters, in their original order. */
  function Selected(all: seq<Match>, league: string, term: string): seq<Match> {
    Filter(all, PassPred(league, term))
  }

  /** An empty term keeps every match, so skipping the search step for `""` changes
      nothing. */
  lemma EmptyTermKeepsAll(s: seq<Match>)
    ensures Filter(s, TermPred("")) == s
  {
    FilterAll(s, TermPred(""));
  }

  /** The two filter steps in a row select exactly the passing matches, in order. */
  lemma FiltersSelect(all: seq<Match>, league: string, term: string)
    ensures BySearch(term, ByLeague(league, all)) == Selected(all, league, term)
  {
    var pass := PassPred(league, term);
    if league != "all" && term != "" {
      FilterCompose(all, LeaguePred(league), TermPred(term), pass);
    } else if league != "all" {
      assert forall m :: pass(m) == LeaguePred(league)(m);
      FilterCompose(all, LeaguePred(league), (m: Match) => true, pass);
      FilterAll(Filter(all, LeaguePred(league)), (m: Match) => true);
    } else if term != "" {
      FilterCompose(all, (m: Match) => true, TermPred(term), pass);
      FilterAll(all, (m: Match) => true);
    } else {
      FilterAll(all, pass);
    }
  }

  /** The view holds exactly the matches of `all` that pass both filters, each as often
      as in `all`. */
  lemma ViewContents(all: seq<Match>, favorites: seq<string>, term: string, league: string,
                     sortBy: SortBy, m: Match)
    ensures multiset(FilteredView(all, favorites, term, league, sortBy))
         == multiset(Selected(all, league, term))
    ensures m in FilteredView(all, favorites, term, league, sortBy) <==> m in all && Passes(league, term, m)
  {
    FiltersSelect(all, league, term);
    var v := FilteredView(all, favorites, term, league, sortBy);
    assert m in v <==> m in multiset(v);
    FilterMembership(all, PassPred(league, term), m);
  }

  /** Favourites first: no non-favourite comes before a favourite. */
  lemma ViewFavoritesFirst(all: seq<Match>, favorites: seq<string>, term: string, league: string,
                           sortBy: SortBy)
    ensures var v := FilteredView(all, favorites, term, league, sortBy);
      forall i, j :: 0 <= i < j < |v| && IsFavorite(favorites, v[j]) ==> IsFavorite(favorites, v[i])
  {
    SortSorted(SortOrder(favorites, sortBy), BySearch(term, ByLeague(league, all)));
  }

  /** Inside the favourites, and inside the rest, the selected mode orders the view: most
      recent first for `time`, ascending home team for `alphabetical`. */
  lemma ViewGroupOrder(all: seq<Match>, favorites: seq<string>, term: string, league: string,
                       sortBy: SortBy)
    ensures var v := FilteredView(all, favorites, term, league, sortBy);
      forall i, j :: 0 <= i < j < |v| && IsFavorite(favorites, v[i]) == IsFavorite(favorites, v[j]) ==>
        GroupOrdered(sortBy, v[i], v[j])
  {
    var o := SortOrder(favorites, sortBy);
    SortSorted(o, BySearch(term, ByLeague(league, all)));
    var v := FilteredView(all, favorites, term, league, sortBy);
    forall i, j | 0 <= i < j < |v| && IsFavorite(favorites, v[i]) == IsFavorite(favorites, v[j])
      ensures GroupOrdered(sortBy, v[i], v[j])
    {
      CmpMeaning(o, v[i], v[j]);
    }
  }

  /** Matches that the comparator ties keep the order the filters left them in; in the
      `time` mode that is equal timestamps, in `alphabetical` equal home teams. */
  lemma ViewStable(all: seq<Match>, favorites: seq<string>, term: string, league: string,
                   sortBy: SortBy, x: Match)
    ensures Tied(SortOrder(favorites, sortBy), x, FilteredView(all, favorites, term, league, sortBy))
         == Tied(SortOrder(favorites, sortBy), x, Selected(all, league, term))
  {
    FiltersSelect(all, league, term);
    SortStable(SortOrder(favorites, sortBy), x, Selected(all, league, term));
  }

  /** In the `default` mode the view is the selected favourites in their original order,
      then the other selected matches in their original order. */
  lemma ViewDefaultOrder(all: seq<Match>, favorites: seq<string>, term: string, league: string)
    ensures var sel := Selected(all, league, term);
      FilteredView(all, favorites, term, league, Default)
      == Filter(sel, FavoritePred(favorites)) + Filter(sel, NonFavoritePred(favorites))
  {
    FiltersSelect(all, league, term);
    SortDefault(favorites, Selected(all, league, term));
  }

  /** Whatever stable sort the engine runs, the view is determined: any ordering of the
      selected matches that is sorted and keeps ties in order is the view. */
  lemma ViewIsTheStableSort(all: seq<Match>, favorites: seq<string>, term: string, league: string,
                            sortBy: SortBy, r: seq<Match>)
    requires Sorted(SortOrder(favorites, sortBy), r)
    requires multiset(r) == multiset(Selected(all, league, term))
    requires forall x :: Tied(SortOrder(favorites, sortBy), x, r)
                      == Tied(SortOrder(favorites, sortBy), x, Selected(all, league, term))
    ensures r == FilteredView(all, favorites, term, league, sortBy)
  {
    FiltersSelect(all, league, term);
    SortUnique(SortOrder(favorites, sortBy), Selected(all, league, term), r);
  }

  /** Reading the view twice with the same state gives the same order, although the first
      read may have reordered `allMatches`. */
  lemma ViewRepeatable(all: seq<Match>, favorites: seq<string>, term: string, league: string,
                       sortBy: SortBy)
    ensures FilteredView(MatchesAfterView(all, favorites, term, league, sortBy), favorites, term, league, sortBy)
         == FilteredView(all, favorites, term, league, sortBy)
  {
    if NoFilter(league, term) {
      SortIdempotent(SortOrder(favorites, sortBy), all);
    }
  }

  /** A favourite comes first even when its home team sorts later: with `Zeta` at home in a
      favourite and `Alpha` at home in a plain match, the alphabetical view is the favourite,
      then the other. */
  lemma FavoriteBeatsAlphabet()
    ensures var a := Match("a", "Zeta", "Omega", "EPL", 0);
            var b := Match("b", "Alpha", "Beta", "EPL", 0);
            FilteredView([a, b], ["a"], "", "all", Alphabetical) == [a, b]
  {
    var a := Match("a", "Zeta", "Omega", "EPL", 0);
    var b := Match("b", "Alpha", "Beta", "EPL", 0);
    var o := SortOrder(["a"], Alphabetical);
    assert [a, b][..1] == [a];
    assert Sort(o, [a]) == [a];
    assert Cmp(o, a, b) < 0;
  }

  /** The getter's in-place sort is visible later: after an alphabetical read with no
      filter, the `default` view no longer shows the fetched order. */
  lemma ReadReordersLaterViews()
    ensures var z := Match("1", "Zeta", "Omega", "EPL", 0);
            var a := Match("2", "Alpha", "Beta", "EPL", 0);
            FilteredView([z, a], [], "", "all", Default) == [z, a] &&
            MatchesAfterView([z, a], [], "", "all", Alphabetical) == [a, z] &&
            FilteredView(MatchesAfterView([z, a], [], "", "all", Alphabetical), [], "", "all", Default) == [a, z]
  {
    var z := Match("1", "Zeta", "Omega", "EPL", 0);
    var a := Match("2", "Alpha", "Beta", "EPL", 0);
    var alpha, dflt := SortOrder([], Alphabetical), SortOrder([], Default);
    assert [z, a][..1] == [z];
    assert Sort(alpha, [z]) == [z];
    assert Text.Compare(z.homeTeam, a.homeTeam) == 1;
    assert Sort(alpha, [z, a]) == [a, z];
    SortOfSorted(dflt, [z, a]);
    SortOfSorted(dflt, [a, z]);
  }
}
