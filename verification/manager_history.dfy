/** The manager-tenure builder: counting the games each manager took charge
    of for each club, dropping the excluded clubs and the short spells, and
    finding the first and last match of each remaining spell. */
module ManagerHistory {
  import opened Tables

  /** One side of one game: the club and the manager recorded for it. */
  datatype Side = Side(clubId: int, managerName: string)

  /** A manager history row before its dates are known. */
  datatype ManagerGames = ManagerGames(clubId: int, managerName: string, gamesManaged: nat)

  /** A manager history row with its tenure. A span of None stands for the
      missing dates pandas produces when no game matches the row. */
  datatype ManagerTenure = ManagerTenure(
    clubId: int,
    managerName: string,
    gamesManaged: nat,
    span: Option<Span>)

  function KeyOf(row: ManagerGames): Side {
    Side(row.clubId, row.managerName)
  }

  /** A Premier League game of the configured seasons. */
  predicate InScope(g: Game) {
    g.competitionId == Competition && FirstSeason <= g.season <= LastSeason
  }

  function HomeSide(g: Game): Side {
    Side(g.homeClubId, g.homeManager)
  }

  function AwaySide(g: Game): Side {
    Side(g.awayClubId, g.awayManager)
  }

  /** The in-scope games, in table order. */
  function PremierLeagueGames(games: seq<Game>): (pl: seq<Game>)
    ensures forall g :: g in pl <==> g in games && InScope(g)
  {
    if |games| == 0 then []
    else
      var last := games[|games| - 1];
      assert games == games[..|games| - 1] + [last];
      PremierLeagueGames(games[..|games| - 1]) + (if InScope(last) then [last] else [])
  }

  function HomeSides(games: seq<Game>): seq<Side> {
    if |games| == 0 then []
    else HomeSides(games[..|games| - 1]) + [HomeSide(games[|games| - 1])]
  }

  function AwaySides(games: seq<Game>): seq<Side> {
    if |games| == 0 then []
    else AwaySides(games[..|games| - 1]) + [AwaySide(games[|games| - 1])]
  }

  /** Every home side of the in-scope games, followed by every away side:
      a pair occurs as often as it has in-scope home and away games. */
  function Observations(games: seq<Game>): (obs: seq<Side>)
    ensures forall p :: multiset(obs)[p] == HomeGames(games, p) + AwayGames(games, p)
  {
    var pl := PremierLeagueGames(games);
    assert forall p :: multiset(HomeSides(pl) + AwaySides(pl))[p] == HomeGames(games, p) + AwayGames(games, p) by {
      forall p ensures multiset(HomeSides(pl) + AwaySides(pl))[p] == HomeGames(games, p) + AwayGames(games, p) {
        HomeSidesCount(games, p);
        AwaySidesCount(games, p);
      }
    }
    HomeSides(pl) + AwaySides(pl)
  }

  /** Reference count: the in-scope games the club played at home with that home manager. */
  function HomeGames(games: seq<Game>, p: Side): nat {
    if |games| == 0 then 0
    else
      var last := games[|games| - 1];
      HomeGames(games[..|games| - 1], p) + (if InScope(last) && HomeSide(last) == p then 1 else 0)
  }

  /** Reference count: the in-scope games the club played away with that away manager. */
  function AwayGames(games: seq<Game>, p: Side): nat {
    if |games| == 0 then 0
    else
      var last := games[|games| - 1];
      AwayGames(games[..|games| - 1], p) + (if InScope(last) && AwaySide(last) == p then 1 else 0)
  }

  lemma {:induction false} HomeSidesCount(games: seq<Game>, p: Side)
    ensures multiset(HomeSides(PremierLeagueGames(games)))[p] == HomeGames(games, p)
  {
    if |games| > 0 {
      var pre, last := games[..|games| - 1], games[|games| - 1];
      HomeSidesCount(pre, p);
      var pl := PremierLeagueGames(pre);
      if InScope(last) {
        assert (pl + [last])[..|pl|] == pl;
        assert HomeSides(pl + [last]) == HomeSides(pl) + [HomeSide(last)];
      } else {
        assert PremierLeagueGames(games) == pl;
      }
    }
  }

  lemma {:induction false} AwaySidesCount(games: seq<Game>, p: Side)
    ensures multiset(AwaySides(PremierLeagueGames(games)))[p] == AwayGames(games, p)
  {
    if |games| > 0 {
      var pre, last := games[..|games| - 1], games[|games| - 1];
      AwaySidesCount(pre, p);
      var pl := PremierLeagueGames(pre);
      if InScope(last) {
        assert (pl + [last])[..|pl|] == pl;
        assert AwaySides(pl + [last]) == AwaySides(pl) + [AwaySide(last)];
      } else {
        assert PremierLeagueGames(games) == pl;
      }
    }
  }

  /** One row per distinct observed (club, manager) pair, with its group
      size: each row's count is the number of times its pair was observed,
      no pair has two rows, and every observed pair has a row. */
  function Groups(obs: seq<Side>): (rows: seq<ManagerGames>)
    ensures forall i :: 0 <= i < |rows| ==> rows[i].gamesManaged == multiset(obs)[KeyOf(rows[i])] > 0
    ensures forall i, j :: 0 <= i < j < |rows| ==> KeyOf(rows[i]) != KeyOf(rows[j])
    ensures forall p :: p in obs ==> exists i :: 0 <= i < |rows| && KeyOf(rows[i]) == p
  {
    var keys := Dedup(obs);
    var rows := seq(|keys|, i requires 0 <= i < |keys| =>
      ManagerGames(keys[i].clubId, keys[i].managerName, multiset(obs)[keys[i]]));
    assert forall i :: 0 <= i < |keys| ==> KeyOf(rows[i]) == keys[i];
    assert forall i :: 0 <= i < |keys| ==> keys[i] in multiset(obs) by {
      forall i | 0 <= i < |keys| ensures keys[i] in multiset(obs) {
        assert keys[i] in keys;
      }
    }
    assert forall p :: p in obs ==> exists i :: 0 <= i < |rows| && KeyOf(rows[i]) == p by {
      forall p | p in obs ensures exists i :: 0 <= i < |rows| && KeyOf(rows[i]) == p {
        var i :| 0 <= i < |keys| && keys[i] == p;
      }
    }
    rows
  }

  /** `create_manager_history`: group the observations by (club, manager)
      and count each group. */
  function CreateManagerHistory(games: seq<Game>): (rows: seq<ManagerGames>)
    ensures forall i :: 0 <= i < |rows| ==>
      rows[i].gamesManaged == HomeGames(games, KeyOf(rows[i])) + AwayGames(games, KeyOf(rows[i]))
    ensures forall i :: 0 <= i < |rows| ==> rows[i].gamesManaged > 0
    ensures forall i, j :: 0 <= i < j < |rows| ==> KeyOf(rows[i]) != KeyOf(rows[j])
    ensures forall p :: HomeGames(games, p) + AwayGames(games, p) > 0 ==>
      exists i :: 0 <= i < |rows| && KeyOf(rows[i]) == p
  {
    var obs := Observations(games);
    forall p | HomeGames(games, p) + AwayGames(games, p) > 0 ensures p in obs {
      assert p in multiset(obs);
    }
    Groups(obs)
  }

  /** The filter of `clean_manager_history`. */
  predicate Keep(row: ManagerGames) {
    row.clubId !in ExcludedClubs && row.gamesManaged >= MinGames
  }

  /** `clean_manager_history`: exactly the rows that pass both tests,
      unchanged and as often as they occur. */
  function CleanManagerHistory(rows: seq<ManagerGames>): (kept: seq<ManagerGames>)
    ensures forall r :: multiset(kept)[r] == if Keep(r) then multiset(rows)[r] else 0
    ensures forall r :: r in kept <==> r in rows && Keep(r)
  {
    if |rows| == 0 then []
    else
      var last := rows[|rows| - 1];
      assert rows == rows[..|rows| - 1] + [last];
      CleanManagerHistory(rows[..|rows| - 1]) + (if Keep(last) then [last] else [])
  }

  /** Cleaning only drops rows, so a history with one row per (club,
      manager) pair keeps that property. */
  lemma {:induction false} CleanKeepsKeysDistinct(rows: seq<ManagerGames>)
    requires forall i, j :: 0 <= i < j < |rows| ==> KeyOf(rows[i]) != KeyOf(rows[j])
    ensures forall i, j :: 0 <= i < j < |CleanManagerHistory(rows)| ==>
      KeyOf(CleanManagerHistory(rows)[i]) != KeyOf(CleanManagerHistory(rows)[j])
  {
    if |rows| > 0 {
      var pre, last := rows[..|rows| - 1], rows[|rows| - 1];
      LastKeyIsNew(rows);
      CleanKeepsKeysDistinct(pre);
      if Keep(last) {
        KeptKeysDiffer(pre, last);
        KeysDistinctAppend(CleanManagerHistory(pre), last);
      }
    }
  }

  lemma LastKeyIsNew(rows: seq<ManagerGames>)
    requires |rows| > 0
    requires forall i, j :: 0 <= i < j < |rows| ==> KeyOf(rows[i]) != KeyOf(rows[j])
    ensures var pre := rows[..|rows| - 1];
      && (forall i, j :: 0 <= i < j < |pre| ==> KeyOf(pre[i]) != KeyOf(pre[j]))
      && (forall i :: 0 <= i < |pre| ==> KeyOf(pre[i]) != KeyOf(rows[|rows| - 1]))
  {
  }

  lemma KeptKeysDiffer(rows: seq<ManagerGames>, last: ManagerGames)
    requires forall i :: 0 <= i < |rows| ==> KeyOf(rows[i]) != KeyOf(last)
    ensures forall i :: 0 <= i < |CleanManagerHistory(rows)| ==> KeyOf(CleanManagerHistory(rows)[i]) != KeyOf(last)
  {
    var kept := CleanManagerHistory(rows);
    forall i | 0 <= i < |kept| ensures KeyOf(kept[i]) != KeyOf(last) {
      assert kept[i] in kept;
      var k :| 0 <= k < |rows| && rows[k] == kept[i];
    }
  }

  lemma KeysDistinctAppend(rows: seq<ManagerGames>, last: ManagerGames)
    requires forall i, j :: 0 <= i < j < |rows| ==> KeyOf(rows[i]) != KeyOf(rows[j])
    requires forall i :: 0 <= i < |rows| ==> KeyOf(rows[i]) != KeyOf(last)
    ensures forall i, j :: 0 <= i < j < |rows + [last]| ==> KeyOf((rows + [last])[i]) != KeyOf((rows + [last])[j])
  {
  }

  /** No two manager tenures share a club and a manager. */
  predicate DistinctTenures(tenures: seq<ManagerTenure>) {
    forall i, j :: 0 <= i < j < |tenures| ==>
      tenures[i].clubId != tenures[j].clubId || tenures[i].managerName != tenures[j].managerName
  }

  /** Whether the club played the game with that manager on its own side. */
  predicate ManagedIn(g: Game, clubId: int, manager: string) {
    || (g.homeClubId == clubId && g.homeManager == manager)
    || (g.awayClubId == clubId && g.awayManager == manager)
  }

  /** The dates of the games the club played under that manager. */
  function MatchDates(games: seq<Game>, clubId: int, manager: string): (dates: seq<int>)
    ensures forall g :: g in games && ManagedIn(g, clubId, manager) ==> g.date in dates
    ensures forall d :: d in dates ==> exists g :: g in games && ManagedIn(g, clubId, manager) && g.date == d
  {
    if |games| == 0 then []
    else
      var last := games[|games| - 1];
      assert games == games[..|games| - 1] + [last];
      MatchDates(games[..|games| - 1], clubId, manager) +
        (if ManagedIn(last, clubId, manager) then [last.date] else [])
  }

  /** The tenure of a manager at a club: from the earliest to the latest game
      the club played under that manager, on either side; None when there is
      no such game. */
  function TenureSpan(games: seq<Game>, clubId: int, manager: string): (r: Option<Span>)
    ensures r.None? <==> forall g :: g in games ==> !ManagedIn(g, clubId, manager)
    ensures r.Some? ==> r.value.start <= r.value.end
    ensures r.Some? ==> exists g :: g in games && ManagedIn(g, clubId, manager) && g.date == r.value.start
    ensures r.Some? ==> exists g :: g in games && ManagedIn(g, clubId, manager) && g.date == r.value.end
    ensures r.Some? ==> forall g :: g in games && ManagedIn(g, clubId, manager) ==> InSpan(g.date, r.value)
  {
    SpanOf(MatchDates(games, clubId, manager))
  }

  /** `fetch_manager_dates`: one span per manager history row, found by
      scanning the games table handed to it. */
  method FetchManagerDates(rows: seq<ManagerGames>, games: seq<Game>) returns (tenures: seq<ManagerTenure>)
    ensures |tenures| == |rows|
    ensures forall i :: 0 <= i < |rows| ==>
      tenures[i] == ManagerTenure(rows[i].clubId, rows[i].managerName, rows[i].gamesManaged,
                                  TenureSpan(games, rows[i].clubId, rows[i].managerName))
  {
    var spans: seq<Option<Span>> := [];
    for i := 0 to |rows|
      invariant |spans| == i
      invariant forall k :: 0 <= k < i ==> spans[k] == TenureSpan(games, rows[k].clubId, rows[k].managerName)
    {
      var row := rows[i];
      spans := spans + [SpanOf(MatchDates(games, row.clubId, row.managerName))];
    }
    tenures := seq(|rows|, k requires 0 <= k < |rows| =>
      ManagerTenure(rows[k].clubId, rows[k].managerName, rows[k].gamesManaged, spans[k]));
  }

  /** A pair counted at least once has a game in which the club played under
      that manager. */
  lemma {:induction false} CountedPairHasGame(games: seq<Game>, p: Side)
    requires HomeGames(games, p) + AwayGames(games, p) > 0
    ensures exists g :: g in games && InScope(g) && ManagedIn(g, p.clubId, p.managerName)
  {
    var pre, last := games[..|games| - 1], games[|games| - 1];
    assert games == pre + [last];
    if InScope(last) && (HomeSide(last) == p || AwaySide(last) == p) {
      assert ManagedIn(last, p.clubId, p.managerName);
    } else {
      CountedPairHasGame(pre, p);
    }
  }

  /** Every row that survives cleaning has at least one game in the same
      games table, so its dates are never missing and its start is no later
      than its end. */
  lemma SurvivorsHaveDates(games: seq<Game>)
    ensures forall r :: r in CleanManagerHistory(CreateManagerHistory(games)) ==>
      TenureSpan(games, r.clubId, r.managerName).Some?
  {
    var rows := CreateManagerHistory(games);
    forall r | r in CleanManagerHistory(rows)
      ensures TenureSpan(games, r.clubId, r.managerName).Some?
    {
      var i :| 0 <= i < |rows| && rows[i] == r;
      CountedPairHasGame(games, KeyOf(r));
    }
  }
}
