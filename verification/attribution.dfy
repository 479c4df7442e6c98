/** The attribution joiner: each player tenure is paired with every manager
    tenure at the same club that overlaps it, and the pair's record covers
    the days the two tenures share. */
module Attribution {
  import opened Tables
  import opened PlayerIndex
  import opened ManagerIds

  /** One row of the player-manager table. The three values are filled in by
      the valuation resolver; the joiner leaves them absent. */
  datatype AttributedRecord = AttributedRecord(
    playerId: int,
    playerName: string,
    clubId: int,
    managerId: nat,
    managerName: string,
    span: Span,
    startValue: Option<int>,
    peakValue: Option<int>,
    endValue: Option<int>)

  /** The selection of `create_player_manager_relationships`: the same club,
      and the manager starts no later than the player's last day and ends no
      earlier than the player's first day. A manager whose dates are missing
      never matches, as comparisons with a missing date are false. */
  predicate Overlaps(p: PlayerTenure, m: NumberedTenure) {
    && m.clubId == p.clubId
    && m.span.Some?
    && m.span.value.start <= p.span.end
    && m.span.value.end >= p.span.start
  }

  /** The record for a player and an overlapping manager: the player's row
      with the manager's id and name and the later start and earlier end. */
  function Clip(p: PlayerTenure, m: NumberedTenure): (r: AttributedRecord)
    requires m.span.Some?
    ensures r.playerId == p.playerId && r.playerName == p.playerName && r.clubId == p.clubId
    ensures r.managerId == m.managerId && r.managerName == m.managerName
    ensures r.startValue.None? && r.peakValue.None? && r.endValue.None?
    ensures forall d :: InSpan(d, r.span) <==> InSpan(d, p.span) && InSpan(d, m.span.value)
    ensures Overlaps(p, m) && p.span.start <= p.span.end && m.span.value.start <= m.span.value.end ==>
      r.span.start <= r.span.end
  {
    var ms := m.span.value;
    AttributedRecord(
      p.playerId, p.playerName, p.clubId, m.managerId, m.managerName,
      Span(if p.span.start < ms.start then ms.start else p.span.start,
           if p.span.end < ms.end then p.span.end else ms.end),
      None, None, None)
  }

  /** The inclusive test selects exactly the managers of the same club whose
      tenure shares at least one day with the player's. */
  lemma OverlapMeansSharedDay(p: PlayerTenure, m: NumberedTenure)
    requires p.span.start <= p.span.end
    requires m.span.Some? ==> m.span.value.start <= m.span.value.end
    ensures Overlaps(p, m) <==>
      m.clubId == p.clubId && m.span.Some? && exists d :: InSpan(d, p.span) && InSpan(d, m.span.value)
  {
    if m.clubId == p.clubId && m.span.Some? && m.span.value.start <= p.span.end && m.span.value.end >= p.span.start {
      var d := if p.span.start < m.span.value.start then m.span.value.start else p.span.start;
      assert InSpan(d, p.span) && InSpan(d, m.span.value);
    }
  }

  /** The records of one player, in the order of the manager table. */
  function AttributeOne(p: PlayerTenure, managers: seq<NumberedTenure>): seq<AttributedRecord> {
    if |managers| == 0 then []
    else
      var m := managers[|managers| - 1];
      AttributeOne(p, managers[..|managers| - 1]) + (if Overlaps(p, m) then [Clip(p, m)] else [])
  }

  /** The records of every player, player by player. */
  function AttributeAll(players: seq<PlayerTenure>, managers: seq<NumberedTenure>): seq<AttributedRecord> {
    if |players| == 0 then []
    else AttributeAll(players[..|players| - 1], managers) + AttributeOne(players[|players| - 1], managers)
  }

  lemma {:induction false} AttributeOneMembership(p: PlayerTenure, managers: seq<NumberedTenure>, r: AttributedRecord)
    ensures r in AttributeOne(p, managers) <==>
      exists j :: 0 <= j < |managers| && Overlaps(p, managers[j]) && r == Clip(p, managers[j])
  {
    if |managers| > 0 {
      var pre, m := managers[..|managers| - 1], managers[|managers| - 1];
      AttributeOneMembership(p, pre, r);
      assert forall j :: 0 <= j < |pre| ==> pre[j] == managers[j];
    }
  }

  /** A record is produced exactly for a player tenure and a manager tenure
      of the same club whose intervals overlap, and it is their clipped pair. */
  lemma {:induction false} AttributionMembership(players: seq<PlayerTenure>, managers: seq<NumberedTenure>, r: AttributedRecord)
    ensures r in AttributeAll(players, managers) <==>
      exists i, j :: 0 <= i < |players| && 0 <= j < |managers| &&
        Overlaps(players[i], managers[j]) && r == Clip(players[i], managers[j])
  {
    if |players| > 0 {
      var pre, p := players[..|players| - 1], players[|players| - 1];
      AttributionMembership(pre, managers, r);
      AttributeOneMembership(p, managers, r);
      assert forall i :: 0 <= i < |pre| ==> pre[i] == players[i];
      if r in AttributeOne(p, managers) {
        var j :| 0 <= j < |managers| && Overlaps(p, managers[j]) && r == Clip(p, managers[j]);
        assert Overlaps(players[|players| - 1], managers[j]);
      }
    }
  }

  /** The player and the manager a record is about. */
  function PairOf(r: AttributedRecord): (PlayerKey, nat) {
    (PlayerKey(r.playerId, r.playerName, r.clubId), r.managerId)
  }

  /** At most one record per player tenure and manager. */
  predicate OnePerPair(records: seq<AttributedRecord>) {
    forall i, j :: 0 <= i < j < |records| ==> PairOf(records[i]) != PairOf(records[j])
  }

  lemma OnePerPairAppend(a: seq<AttributedRecord>, b: seq<AttributedRecord>)
    requires OnePerPair(a) && OnePerPair(b)
    requires forall x, y :: x in a && y in b ==> PairOf(x) != PairOf(y)
    ensures OnePerPair(a + b)
  {
    var s := a + b;
    forall i, j | 0 <= i < j < |s| ensures PairOf(s[i]) != PairOf(s[j]) {
      if j < |a| {
        assert s[i] == a[i] && s[j] == a[j];
      } else if i < |a| {
        assert s[i] == a[i] && s[j] == b[j - |a|];
      } else {
        assert s[i] == b[i - |a|] && s[j] == b[j - |a|];
      }
    }
  }

  /** With one manager row per (club, manager id), a player tenure gets at
      most one record per manager. */
  lemma {:induction false} AttributeOneOnePerPair(p: PlayerTenure, managers: seq<NumberedTenure>)
    requires DistinctManagers(managers)
    ensures OnePerPair(AttributeOne(p, managers))
  {
    if |managers| > 0 {
      var pre, m := managers[..|managers| - 1], managers[|managers| - 1];
      assert forall j :: 0 <= j < |pre| ==> pre[j] == managers[j];
      AttributeOneOnePerPair(p, pre);
      if Overlaps(p, m) {
        forall x, y | x in AttributeOne(p, pre) && y in [Clip(p, m)] ensures PairOf(x) != PairOf(y) {
          AttributeOneMembership(p, pre, x);
          var j :| 0 <= j < |pre| && Overlaps(p, pre[j]) && x == Clip(p, pre[j]);
          assert pre[j].clubId == m.clubId;
        }
        OnePerPairAppend(AttributeOne(p, pre), [Clip(p, m)]);
      } else {
        assert AttributeOne(p, managers) == AttributeOne(p, pre) + [];
      }
    }
  }

  /** With one player tenure per key and one manager row per (club, manager
      id), the join produces at most one record per player tenure and
      manager: nothing is counted twice. */
  lemma {:induction false} AttributeAllOnePerPair(players: seq<PlayerTenure>, managers: seq<NumberedTenure>)
    requires forall i, j :: 0 <= i < j < |players| ==> TenureKey(players[i]) != TenureKey(players[j])
    requires DistinctManagers(managers)
    ensures OnePerPair(AttributeAll(players, managers))
  {
    if |players| > 0 {
      var pre, p := players[..|players| - 1], players[|players| - 1];
      assert forall i :: 0 <= i < |pre| ==> pre[i] == players[i];
      AttributeAllOnePerPair(pre, managers);
      AttributeOneOnePerPair(p, managers);
      forall x, y | x in AttributeAll(pre, managers) && y in AttributeOne(p, managers)
        ensures PairOf(x) != PairOf(y)
      {
        AttributionMembership(pre, managers, x);
        AttributeOneMembership(p, managers, y);
        var i, j :| 0 <= i < |pre| && 0 <= j < |managers| &&
          Overlaps(pre[i], managers[j]) && x == Clip(pre[i], managers[j]);
        assert PairOf(x).0 == TenureKey(players[i]);
      }
      OnePerPairAppend(AttributeAll(pre, managers), AttributeOne(p, managers));
    }
  }

  /** Every record lies within both tenures it comes from, its start is no
      later than its end, and it keeps the player's and the manager's
      identity. */
  lemma RecordsAreClipped(players: seq<PlayerTenure>, managers: seq<NumberedTenure>)
    requires forall p :: p in players ==> p.span.start <= p.span.end
    requires forall m :: m in managers && m.span.Some? ==> m.span.value.start <= m.span.value.end
    ensures forall r :: r in AttributeAll(players, managers) ==>
      && r.span.start <= r.span.end
      && (exists p :: p in players && p.clubId == r.clubId && p.playerId == r.playerId &&
            p.playerName == r.playerName && p.span.start <= r.span.start && r.span.end <= p.span.end)
      && (exists m :: m in managers && m.clubId == r.clubId && m.managerId == r.managerId &&
            m.managerName == r.managerName && m.span.Some? &&
            m.span.value.start <= r.span.start && r.span.end <= m.span.value.end)
  {
    forall r | r in AttributeAll(players, managers)
      ensures r.span.start <= r.span.end
      ensures exists p ::
        p in players && p.clubId == r.clubId && p.playerId == r.playerId &&
        p.playerName == r.playerName && p.span.start <= r.span.start && r.span.end <= p.span.end
      ensures exists m ::
        m in managers && m.clubId == r.clubId && m.managerId == r.managerId &&
        m.managerName == r.managerName && m.span.Some? &&
        m.span.value.start <= r.span.start && r.span.end <= m.span.value.end
    {
      AttributionMembership(players, managers, r);
      var i, j :| 0 <= i < |players| && 0 <= j < |managers| &&
        Overlaps(players[i], managers[j]) && r == Clip(players[i], managers[j]);
      var p, m := players[i], managers[j];
      assert p in players && m in managers;
      assert InSpan(r.span.start, r.span) && InSpan(r.span.end, r.span);
    }
  }

  /** Two consecutive manager tenures at a club that both overlap a
      player's tenure split it into exactly two records: the first ends the
      day before the second starts, so they share no day, and together they
      cover exactly the player's days under either manager. */
  lemma ConsecutiveManagersSplitTenure(p: PlayerTenure, first: NumberedTenure, second: NumberedTenure)
    requires first.span.Some? && second.span.Some?
    requires first.span.value.end + 1 == second.span.value.start
    requires Overlaps(p, first) && Overlaps(p, second)
    ensures AttributeAll([p], [first, second]) == [Clip(p, first), Clip(p, second)]
    ensures Clip(p, first).span.end + 1 == Clip(p, second).span.start
    ensures forall d :: !(InSpan(d, Clip(p, first).span) && InSpan(d, Clip(p, second).span))
    ensures forall d :: InSpan(d, Clip(p, first).span) || InSpan(d, Clip(p, second).span) <==>
      InSpan(d, p.span) && (InSpan(d, first.span.value) || InSpan(d, second.span.value))
  {
    assert [first, second][..1] == [first] && [first][..0] == [];
    assert AttributeOne(p, [first]) == [Clip(p, first)];
    assert AttributeOne(p, [first, second]) == [Clip(p, first), Clip(p, second)];
    assert [p][..0] == [];
  }

  /** The same split on dates: a player from 2016-01-01 to 2018-01-01 under
      managers from 2015-01-01 to 2016-06-01 and from 2016-06-02 to
      2019-01-01 (days counted from 1970-01-01). */
  lemma ConsecutiveManagersExample()
    ensures var p := PlayerTenure(7, "P", 1, Span(16801, 17532));
      var first := NumberedTenure(1, "A", 1, 20, Some(Span(16436, 16953)));
      var second := NumberedTenure(1, "B", 2, 30, Some(Span(16954, 17897)));
      AttributeAll([p], [first, second]) ==
        [AttributedRecord(7, "P", 1, 1, "A", Span(16801, 16953), None, None, None),
         AttributedRecord(7, "P", 1, 2, "B", Span(16954, 17532), None, None, None)]
  {
    var p := PlayerTenure(7, "P", 1, Span(16801, 17532));
    var first := NumberedTenure(1, "A", 1, 20, Some(Span(16436, 16953)));
    var second := NumberedTenure(1, "B", 2, 30, Some(Span(16954, 17897)));
    assert [first, second][..1] == [first] && [first][..0] == [];
    assert AttributeOne(p, [first]) == [Clip(p, first)];
    assert AttributeOne(p, [first, second]) == [Clip(p, first), Clip(p, second)];
    assert [p][..0] == [];
  }

  /** The nested loop of `create_player_manager_relationships`: for each
      player, one record per overlapping manager, in table order. */
  method JoinTenures(players: seq<PlayerTenure>, numbered: seq<NumberedTenure>)
    returns (newRecords: seq<AttributedRecord>)
    ensures newRecords == AttributeAll(players, numbered)
  {
    newRecords := [];
    for i := 0 to |players|
      invariant newRecords == AttributeAll(players[..i], numbered)
    {
      var p := players[i];
      for j := 0 to |numbered|
        invariant newRecords == AttributeAll(players[..i], numbered) + AttributeOne(p, numbered[..j])
      {
        var m := numbered[j];
        assert numbered[..j + 1][..j] == numbered[..j];
        if m.clubId == p.clubId && m.span.Some? && m.span.value.start <= p.span.end && m.span.value.end >= p.span.start {
          newRecords := newRecords + [Clip(p, m)];
        }
      }
      assert numbered[..|numbered|] == numbered;
      assert players[..i + 1][..i] == players[..i];
    }
    assert players[..|players|] == players;
  }

  /** `create_player_manager_relationships`: number the managers, then join.
      Sorting a table built from no record at all fails, as the table then
      has no columns. */
  method CreatePlayerManagerRelationships(players: seq<PlayerTenure>, managers: seq<ManagerHistory.ManagerTenure>)
    returns (numbered: seq<NumberedTenure>, records: Result<seq<AttributedRecord>>)
    ensures numbered == AssignManagerIds(managers)
    ensures records.Err? <==> AttributeAll(players, numbered) == []
    ensures records.Err? ==> records.error == MissingSortColumn
    ensures records.Ok? ==> records.value == AttributeAll(players, numbered)
  {
    numbered := AssignManagerIds(managers);
    var newRecords := JoinTenures(players, numbered);
    if |newRecords| == 0 {
      records := Err(MissingSortColumn);
    } else {
      records := Ok(newRecords);
    }
  }
}
