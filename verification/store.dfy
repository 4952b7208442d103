/** The `matches` store: its state, its actions and its two getters. */
module MatchesStore {
  import opened MatchTypes
  import opened Lists
  import opened Comparators
  import opened StableSort
  import opened MatchView
  import Favorites
  import Leagues
  import Text

  /** A new array holding `s`, as `filter` returns. */
  method FromSeq(s: seq<Match>) returns (a: array<Match>)
    ensures fresh(a) && a[..] == s
  {
    a := new Match[|s|](i requires 0 <= i < |s| => s[i]);
  }

  /** Writes `s` over the elements of `a`, as `Array.prototype.sort` does. */
  method Overwrite(a: array<Match>, s: seq<Match>)
    requires a.Length == |s|
    modifies a
    ensures a[..] == s
  {
    forall i | 0 <= i < a.Length {
      a[i] := s[i];
    }
  }

  class Store {
    var allMatches: array<Match>
    var favoriteMatch: seq<string>
    var searchTerm: string
    var selectedLeague: string
    var sortBy: SortBy

    /** What the actions keep: no id is a favourite twice, and the search term is stored
        lower-cased. */
    ghost predicate Valid()
      reads this
    {
      NoDup(favoriteMatch) && Text.Lower(searchTerm) == searchTerm
    }

    /** The initial state: no matches, no favourites, no search term, every league, the
        default order. */
    constructor ()
      ensures Valid()
      ensures fresh(allMatches) && allMatches.Length == 0
      ensures favoriteMatch == [] && searchTerm == "" && selectedLeague == "all" && sortBy == Default
    {
      allMatches := new Match[0];
      favoriteMatch := [];
      searchTerm := "";
      selectedLeague := "all";
      sortBy := Default;
    }

    /** Stores the caller's array itself, not a copy. */
    method SetMatches(newMatches: array<Match>)
      requires Valid()
      modifies this`allMatches
      ensures Valid()
      ensures allMatches == newMatches
    {
      allMatches := newMatches;
    }

    method SetSelectedLeague(league: string)
      requires Valid()
      modifies this`selectedLeague
      ensures Valid()
      ensures selectedLeague == league
    {
      selectedLeague := league;
    }

    /** Stores the term lower-cased. */
    method SetSearchTerm(term: string)
      requires Valid()
      modifies this`searchTerm
      ensures Valid()
      ensures searchTerm == Text.Lower(term)
    {
      searchTerm := Text.Lower(term);
      Text.LowerIdempotent(term);
    }

    method SetSortBy(sort: SortBy)
      requires Valid()
      modifies this`sortBy
      ensures Valid()
      ensures sortBy == sort
    {
      sortBy := sort;
    }

    /** Removes the id where `indexOf` finds it, or pushes it. */
    method SetFavoriteMatch(matchId: string)
      requires Valid()
      modifies this`favoriteMatch
      ensures Valid()
      ensures favoriteMatch == Favorites.Toggle(old(favoriteMatch), matchId)
    {
      Favorites.ToggleKeepsNoDup(favoriteMatch, matchId);
      var index := IndexOf(favoriteMatch, matchId);
      if index > -1 {
        favoriteMatch := favoriteMatch[..index] + favoriteMatch[index + 1..];
      } else {
        favoriteMatch := favoriteMatch + [matchId];
      }
    }

    /** The `filteredMatches` getter. When neither filter applies it sorts the store's own
        array in place and returns that array; otherwise it sorts and returns a new one. */
    method FilteredMatches() returns (result: array<Match>)
      requires Valid()
      modifies allMatches
      ensures Valid()
      ensures result[..] == FilteredView(old(allMatches[..]), favoriteMatch, searchTerm, selectedLeague, sortBy)
      ensures NoFilter(selectedLeague, searchTerm) ==> result == allMatches
      ensures !NoFilter(selectedLeague, searchTerm) ==> fresh(result)
      ensures allMatches[..] == MatchesAfterView(old(allMatches[..]), favoriteMatch, searchTerm, selectedLeague, sortBy)
    {
      ghost var all := allMatches[..];
      result := allMatches;
      if selectedLeague != "all" {
        result := FromSeq(Filter(result[..], LeaguePred(selectedLeague)));
      }
      assert result[..] == ByLeague(selectedLeague, all);
      ghost var byLeague := result[..];
      if searchTerm != "" {
        result := FromSeq(Filter(result[..], TermPred(searchTerm)));
      }
      assert result[..] == BySearch(searchTerm, byLeague);
      assert NoFilter(selectedLeague, searchTerm) <==> result == allMatches;
      Overwrite(result, Sort(SortOrder(favoriteMatch, sortBy), result[..]));
    }

    /** The `availableLeagues` getter: `"all"` first, then the non-empty leagues of the
        stored matches. */
    function AvailableLeagues(): (r: seq<string>)
      reads this, allMatches
      ensures |r| >= 1 && r[0] == "all" && "" !in r
      ensures forall l :: l in r[1..] <==> l != "" && exists i :: 0 <= i < allMatches.Length && allMatches[i].league == l
      ensures NoDup(r[1..])
      ensures forall i, j :: 1 <= i < j < |r| ==>
        IndexOf(Leagues.LeagueNames(allMatches[..]), r[i]) < IndexOf(Leagues.LeagueNames(allMatches[..]), r[j])
    {
      Leagues.AvailableLeaguesListed(allMatches[..]);
      assert forall i :: 0 <= i < allMatches.Length ==> allMatches[..][i] == allMatches[i];
      Leagues.AvailableLeagues(allMatches[..])
    }
  }
}
