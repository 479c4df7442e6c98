/** Records, configuration constants and small generic helpers shared by
    every stage of the attribution pipeline. Dates are day numbers and
    market values are whole currency units. */
module Tables {

  datatype Option<+T> = None | Some(value: T)

  /** The ways a stage of the pipeline can fail instead of producing a table. */
  datatype Error =
    | NothingToConcatenate   // concatenating an empty list of per-club tables
    | MissingSortColumn      // sorting a table built from no records at all

  datatype Result<+T> = Ok(value: T) | Err(error: Error)

  // Configuration of the manager-tenure builder.
  const Competition: string := "GB1"
  const FirstSeason: int := 2014
  const LastSeason: int := 2024
  const MinGames: nat := 10
  const ExcludedClubs: set<int> :=
    {603, 3008, 1010, 1031, 1071, 1110, 2288,
     641, 1032, 1039, 1123, 1132, 289, 512, 350, 399, 984}

  /** One row of the raw games table. */
  datatype Game = Game(
    competitionId: string,
    season: int,
    homeClubId: int,
    awayClubId: int,
    homeManager: string,
    awayManager: string,
    date: int)

  /** One row of the raw lineups table. */
  datatype Lineup = Lineup(clubId: int, playerId: int, playerName: string, date: int)

  /** One row of the raw player valuations table. */
  datatype Valuation = Valuation(playerId: int, date: int, marketValue: int)

  /** A closed interval of days. */
  datatype Span = Span(start: int, end: int)

  predicate InSpan(d: int, s: Span) {
    s.start <= d <= s.end
  }

  /** The earliest and latest of a list of dates, or None for no dates
      (the NaN that pandas' min and max give on an empty column). */
  function SpanOf(dates: seq<int>): (r: Option<Span>)
    ensures r.None? <==> |dates| == 0
    ensures r.Some? ==> r.value.start in dates && r.value.end in dates
    ensures r.Some? ==> forall d :: d in dates ==> InSpan(d, r.value)
  {
    if |dates| == 0 then None
    else
      var last := dates[|dates| - 1];
      assert dates == dates[..|dates| - 1] + [last];
      match SpanOf(dates[..|dates| - 1])
      case None => Some(Span(last, last))
      case Some(s) =>
        Some(Span(if last < s.start then last else s.start,
                  if last > s.end then last else s.end))
  }

  /** The distinct elements of a sequence, in order of first appearance
      (pandas' `unique`). */
  function Dedup<T(==,!new)>(s: seq<T>): (r: seq<T>)
    ensures forall x :: x in r <==> x in s
    ensures forall i, j :: 0 <= i < j < |r| ==> r[i] != r[j]
  {
    if |s| == 0 then []
    else
      var r := Dedup(s[..|s| - 1]);
      assert s == s[..|s| - 1] + [s[|s| - 1]];
      if s[|s| - 1] in r then r else r + [s[|s| - 1]]
  }
}
