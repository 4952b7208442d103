/** The match record and the sort modes of the store. */
module MatchTypes {

  /** The three sort modes a view can be ordered by. */
  datatype SortBy = Time | Alphabetical | Default

  /** A match as the store sees it: only the fields its logic reads. `lastUpdated` is a
      timestamp in milliseconds. */
  datatype Match = Match(id: string, homeTeam: string, awayTeam: string, league: string, lastUpdated: int)
}
