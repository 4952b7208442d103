/** The `availableLeagues` getter: `"all"`, then each league of the loaded matches once, in
    the order the leagues first appear, without the empty league. */
module Leagues {
  import opened MatchTypes
  import opened Lists

  /** `allMatches.map(match => match.league)`. */
  function LeagueNames(ms: seq<Match>): (r: seq<string>)
    ensures |r| == |ms|
    ensures forall i :: 0 <= i < |ms| ==> r[i] == ms[i].league
  {
    if ms == [] then [] else [ms[0].league] + LeagueNames(ms[1..])
  }

  /** The iteration order of `new Set(s)`: each value once, where it was first inserted. */
  function Distinct(s: seq<string>): (r: seq<string>)
    ensures NoDup(r)
  {
    if s == [] then []
    else
      var d := Distinct(s[..|s| - 1]);
      if s[|s| - 1] in d then d else d + [s[|s| - 1]]
  }

  /** `Distinct` keeps exactly the values of `s`. */
  lemma {:induction false} DistinctMembership(s: seq<string>, x: string)
    ensures x in Distinct(s) <==> x in s
  {
    if s != [] {
      var init := s[..|s| - 1];
      assert s == init + [s[|s| - 1]];
      DistinctMembership(init, x);
    }
  }

  /** `Distinct` lists values in the order of their first occurrence in `s`. */
  lemma {:induction false} DistinctFirstOccurrence(s: seq<string>)
    ensures var d := Distinct(s);
      forall i, j :: 0 <= i < j < |d| ==> IndexOf(s, d[i]) < IndexOf(s, d[j])
  {
    if s != [] {
      var init, last := s[..|s| - 1], s[|s| - 1];
      assert s == init + [last];
      DistinctFirstOccurrence(init);
      var d := Distinct(init);
      forall i | 0 <= i < |d| ensures IndexOf(s, d[i]) == IndexOf(init, d[i]) < |init| {
        DistinctMembership(init, d[i]);
        IndexOfPrefix(init, [last], d[i]);
      }
      var r := Distinct(s);
      if last in d {
        assert r == d;
      } else {
        assert r == d + [last];
        DistinctMembership(init, last);
        IndexOfLast(init, last);
        forall i, j | 0 <= i < j < |r| ensures IndexOf(s, r[i]) < IndexOf(s, r[j]) {
          if j == |d| {
            assert r[j] == last && r[i] == d[i];
          } else {
            assert r[i] == d[i] && r[j] == d[j];
          }
        }
      }
    }
  }

  /** A value absent from `init` is first found at the end of `init + [x]`. */
  lemma IndexOfLast(init: seq<string>, x: string)
    requires x !in init
    ensures IndexOf(init + [x], x) == |init|
  {
    assert (init + [x])[|init|] == x;
    assert (init + [x])[..|init|] == init;
  }

  /** JavaScript truthiness of a string: only the empty string is falsy. */
  function NonEmptyPred(): string -> bool {
    (l: string) => l != ""
  }

  /** `['all', ...Array.from(new Set(leagues))].filter(l => l)`. */
  function AvailableLeagues(ms: seq<Match>): (r: seq<string>)
    ensures |r| >= 1 && r[0] == "all" && "" !in r
  {
    var d := Distinct(LeagueNames(ms));
    FilterConcat(["all"], d, NonEmptyPred());
    FilterSingleton("all", NonEmptyPred());
    FilterMembership(["all"] + d, NonEmptyPred(), "");
    Filter(["all"] + d, NonEmptyPred())
  }

  /** The list starts with `"all"`, never holds the empty string, and after the first entry
      is the distinct non-empty leagues. */
  lemma AvailableLeaguesShape(ms: seq<Match>)
    ensures var r := AvailableLeagues(ms);
      |r| >= 1 && r[0] == "all" && "" !in r &&
      r[1..] == Filter(Distinct(LeagueNames(ms)), NonEmptyPred())
  {
    var d := Distinct(LeagueNames(ms));
    FilterConcat(["all"], d, NonEmptyPred());
    FilterSingleton("all", NonEmptyPred());
  }

  /** After `"all"`, a league is listed exactly when it is non-empty and some match has it. */
  lemma AvailableLeaguesContents(ms: seq<Match>, l: string)
    ensures l in AvailableLeagues(ms)[1..] <==> l != "" && exists i :: 0 <= i < |ms| && ms[i].league == l
  {
    AvailableLeaguesShape(ms);
    var names := LeagueNames(ms);
    FilterMembership(Distinct(names), NonEmptyPred(), l);
    DistinctMembership(names, l);
    if exists i :: 0 <= i < |ms| && ms[i].league == l {
      var i :| 0 <= i < |ms| && ms[i].league == l;
      assert names[i] == l;
    }
    if l in Distinct(names) {
      var i :| 0 <= i < |names| && names[i] == l;
      assert ms[i].league == l;
    }
  }

  /** After `"all"`, the leagues come in the order of their first match, each once. */
  lemma AvailableLeaguesOrder(ms: seq<Match>)
    ensures var r := AvailableLeagues(ms)[1..];
      NoDup(r) &&
      forall i, j :: 0 <= i < j < |r| ==> IndexOf(LeagueNames(ms), r[i]) < IndexOf(LeagueNames(ms), r[j])
  {
    AvailableLeaguesShape(ms);
    var names := LeagueNames(ms);
    DistinctFirstOccurrence(names);
    var key := (l: string) => IndexOf(names, l);
    FilterKeepsOrder(Distinct(names), NonEmptyPred(), key);
  }

  /** Everything a caller of the getter relies on, for every league at once, with positions
      counted in the whole list. */
  lemma AvailableLeaguesListed(ms: seq<Match>)
    ensures var r := AvailableLeagues(ms);
      (forall l :: l in r[1..] <==> l != "" && exists i :: 0 <= i < |ms| && ms[i].league == l) &&
      NoDup(r[1..]) &&
      forall i, j :: 1 <= i < j < |r| ==> IndexOf(LeagueNames(ms), r[i]) < IndexOf(LeagueNames(ms), r[j])
  {
    var r := AvailableLeagues(ms);
    forall l ensures l in r[1..] <==> l != "" && exists i :: 0 <= i < |ms| && ms[i].league == l {
      AvailableLeaguesContents(ms, l);
    }
    AvailableLeaguesOrder(ms);
    var names := LeagueNames(ms);
    forall i, j | 1 <= i < j < |r| ensures IndexOf(names, r[i]) < IndexOf(names, r[j]) {
      assert r[i] == r[1..][i - 1] && r[j] == r[1..][j - 1];
    }
  }

  /** A match whose league is literally `"all"` makes `"all"` appear twice. */
  lemma AllListedTwice(ms: seq<Match>, k: nat)
    requires k < |ms| && ms[k].league == "all"
    ensures AvailableLeagues(ms)[0] == "all" && "all" in AvailableLeagues(ms)[1..]
  {
    AvailableLeaguesShape(ms);
    AvailableLeaguesContents(ms, "all");
  }

  /** Adding one value to the set: it goes last unless it is already there. */
  lemma DistinctSnoc(s: seq<string>, x: string)
    ensures Distinct(s + [x]) == if x in Distinct(s) then Distinct(s) else Distinct(s) + [x]
  {
    assert (s + [x])[..|s|] == s;
  }

  /** `new Set([a, b, a, c])` iterates `a`, `b`, `c`: a repeated value keeps its first place. */
  lemma DistinctExample(a: string, b: string, c: string)
    requires a != b && a != c && b != c
    ensures Distinct([a, b, a, c]) == [a, b, c]
  {
    assert Distinct([a]) == [a] by {
      assert [] + [a] == [a];
      DistinctSnoc([], a);
    }
    assert Distinct([a, b]) == [a, b] by {
      assert [a] + [b] == [a, b];
      DistinctSnoc([a], b);
    }
    assert Distinct([a, b, a]) == [a, b] by {
      assert [a, b] + [a] == [a, b, a];
      DistinctSnoc([a, b], a);
    }
    assert [a, b, a] + [c] == [a, b, a, c];
    DistinctSnoc([a, b, a], c);
  }

  /** Leagues `EPL`, empty, `EPL`, `LaLiga` give `all`, `EPL`, `LaLiga`. */
  lemma AvailableLeaguesExample()
    ensures AvailableLeagues([Match("1", "A", "B", "EPL", 0), Match("2", "C", "D", "", 0),
                              Match("3", "E", "F", "EPL", 0), Match("4", "G", "H", "LaLiga", 0)])
         == ["all", "EPL", "LaLiga"]
  {
    var ms := [Match("1", "A", "B", "EPL", 0), Match("2", "C", "D", "", 0),
               Match("3", "E", "F", "EPL", 0), Match("4", "G", "H", "LaLiga", 0)];
    assert LeagueNames(ms) == ["EPL", "", "EPL", "LaLiga"];
    DistinctExample("EPL", "", "LaLiga");
    var p := NonEmptyPred();
    assert Filter(["EPL", "", "LaLiga"], p) == ["EPL", "LaLiga"] by {
      FilterConcat(["EPL"], ["", "LaLiga"], p);
      FilterConcat([""], ["LaLiga"], p);
      FilterSingleton("EPL", p);
      assert ["EPL"] + ["", "LaLiga"] == ["EPL", "", "LaLiga"];
      assert [""] + ["LaLiga"] == ["", "LaLiga"];
    }
    AvailableLeaguesShape(ms);
    var r := AvailableLeagues(ms);
    assert r == [r[0]] + r[1..];
  }
}
