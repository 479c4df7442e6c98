/** The batch run: every stage in order, each reading the table the previous
    one produced. */
module Pipeline {
  import opened Tables
  import opened ManagerHistory
  import opened PlayerIndex
  import opened ManagerIds
  import opened Attribution
  import opened Valuations

  /** The two tables the run leaves behind: the numbered manager tenures and
      the valued player-manager records. */
  datatype Output = Output(managers: seq<NumberedTenure>, records: seq<AttributedRecord>)

  /** A manager tenure as the run leaves it: a retained club, enough games,
      and dates in order. */
  predicate RetainedAndDated(clubId: int, gamesManaged: int, span: Option<Span>) {
    && clubId !in ExcludedClubs
    && gamesManaged >= MinGames
    && span.Some?
    && span.value.start <= span.value.end
  }

  predicate WellFormedTenure(m: ManagerTenure) {
    RetainedAndDated(m.clubId, m.gamesManaged, m.span)
  }

  predicate WellFormedManager(m: NumberedTenure) {
    RetainedAndDated(m.clubId, m.gamesManaged, m.span)
  }

  /** A record lies within a tenure of the same manager at the same club. */
  predicate UnderManager(r: AttributedRecord, m: NumberedTenure) {
    && m.clubId == r.clubId
    && m.managerId == r.managerId
    && m.managerName == r.managerName
    && m.span.Some?
    && m.span.value.start <= r.span.start
    && r.span.end <= m.span.value.end
  }

  /** The values of a record, resolved from the valuation table. */
  ghost predicate Valued(r: AttributedRecord, vals: seq<Valuation>) {
    && ValueOnOrBefore(vals, r.playerId, r.span.start, r.startValue)
    && ValueOnOrBefore(vals, r.playerId, r.span.end, r.endValue)
    && PeakOver(vals, r.playerId, r.span, r.peakValue)
  }

  /** Two records that agree on everything but the three value columns. */
  predicate SameRecord(a: AttributedRecord, b: AttributedRecord) {
    a.(startValue := None, peakValue := None, endValue := None) ==
    b.(startValue := None, peakValue := None, endValue := None)
  }

  /** A record as the run leaves it: dates in order, within a tenure of its
      manager, and valued from the valuation table. */
  ghost predicate WellFormedRecord(r: AttributedRecord, managers: seq<NumberedTenure>, vals: seq<Valuation>) {
    && r.span.start <= r.span.end
    && (exists m :: m in managers && UnderManager(r, m))
    && Valued(r, vals)
  }

  /** The cleaned manager history, each row dated by its matches. */
  function DatedHistory(games: seq<Game>): seq<ManagerTenure> {
    var h := CleanManagerHistory(CreateManagerHistory(games));
    seq(|h|, i requires 0 <= i < |h| =>
      ManagerTenure(h[i].clubId, h[i].managerName, h[i].gamesManaged, TenureSpan(games, h[i].clubId, h[i].managerName)))
  }

  /** The player-index row of a lineup row: its key with the key's first and
      last lineup dates. */
  function LineupTenure(lineups: seq<Lineup>, l: Lineup): PlayerTenure
    requires l in lineups
  {
    PlayerTenure(l.playerId, l.playerName, l.clubId, PlayerSpan(lineups, LineupKey(l)).value)
  }

  /** A lineup row of a managed club whose player tenure overlaps a numbered
      manager tenure. */
  predicate Joined(lineups: seq<Lineup>, managers: seq<ManagerTenure>, numbered: seq<NumberedTenure>,
                   l: Lineup, m: NumberedTenure) {
    && l in lineups
    && HasManager(managers, l.clubId)
    && m in numbered
    && Overlaps(LineupTenure(lineups, l), m)
  }

  ghost predicate AnyJoined(lineups: seq<Lineup>, managers: seq<ManagerTenure>, numbered: seq<NumberedTenure>) {
    exists l, m :: Joined(lineups, managers, numbered, l, m)
  }

  /** A record that, but for its values, is the clipped pair of a joined
      lineup row and manager tenure. (The conditions of `Joined` are written
      out so that the witnesses of this predicate do not themselves call for
      records.) */
  ghost predicate FromJoined(r: AttributedRecord, lineups: seq<Lineup>, managers: seq<ManagerTenure>,
                             numbered: seq<NumberedTenure>) {
    exists l, m ::
      && l in lineups && HasManager(managers, l.clubId) && m in numbered
      && Overlaps(LineupTenure(lineups, l), m)
      && SameRecord(r, Clip(LineupTenure(lineups, l), m))
  }

  /** Every dated row of the cleaned history has a retained club, enough
      games and dates in order. */
  lemma DatedHistoryWellFormed(games: seq<Game>)
    ensures forall m :: m in DatedHistory(games) ==> WellFormedTenure(m)
  {
    var h := CleanManagerHistory(CreateManagerHistory(games));
    var dated := DatedHistory(games);
    SurvivorsHaveDates(games);
    forall i | 0 <= i < |dated| ensures WellFormedTenure(dated[i]) {
      var r := h[i];
      assert r in h;
      var span := TenureSpan(games, r.clubId, r.managerName);
      assert span.Some? && span.value.start <= span.value.end;
      assert dated[i] == ManagerTenure(r.clubId, r.managerName, r.gamesManaged, span);
    }
  }

  /** The dated cleaned history has one row per (club, manager) pair, as
      the grouped history it comes from does. */
  lemma DatedHistoryDistinct(games: seq<Game>)
    ensures DistinctTenures(DatedHistory(games))
  {
    CleanKeepsKeysDistinct(CreateManagerHistory(games));
  }

  /** The first three stages: count the games of each manager at each club,
      drop excluded clubs and short tenures, and date what is left. */
  method ManagerStage(games: seq<Game>) returns (tenures: seq<ManagerTenure>)
    ensures var h := CleanManagerHistory(CreateManagerHistory(games));
      && |tenures| == |h|
      && forall i :: 0 <= i < |h| ==>
           tenures[i] == ManagerTenure(h[i].clubId, h[i].managerName, h[i].gamesManaged,
                                       TenureSpan(games, h[i].clubId, h[i].managerName))
    ensures tenures == DatedHistory(games)
    ensures forall m :: m in tenures ==> WellFormedTenure(m)
  {
    var history := CleanManagerHistory(CreateManagerHistory(games));
    tenures := FetchManagerDates(history, games);
    assert tenures == DatedHistory(games);
    DatedHistoryWellFormed(games);
  }

  /** Numbering keeps every other column of a tenure. */
  lemma NumberedTenuresWellFormed(tenures: seq<ManagerTenure>)
    requires forall m :: m in tenures ==> WellFormedTenure(m)
    ensures forall m :: m in AssignManagerIds(tenures) ==> WellFormedManager(m)
  {
    var numbered := AssignManagerIds(tenures);
    forall m | m in numbered ensures WellFormedManager(m) {
      var i :| 0 <= i < |numbered| && numbered[i] == m;
      assert tenures[i] in tenures;
    }
  }

  /** A player-index row is the player tenure of each lineup row with its key. */
  lemma IndexRowIsLineupTenure(managers: seq<ManagerTenure>, lineups: seq<Lineup>, players: seq<PlayerTenure>,
                               t: PlayerTenure)
    requires IndexOfManagedClubs(managers, lineups, players)
    requires t in players
    ensures exists l :: l in lineups && HasManager(managers, l.clubId) && LineupTenure(lineups, l) == t
  {
    var l :| l in lineups && LineupKey(l) == TenureKey(t) && l.date == t.span.start;
    assert LineupTenure(lineups, l) == t;
  }

  /** Every lineup row of a managed club has its player tenure in the index. */
  lemma LineupTenureIndexed(managers: seq<ManagerTenure>, lineups: seq<Lineup>, players: seq<PlayerTenure>,
                            l: Lineup)
    requires IndexOfManagedClubs(managers, lineups, players)
    requires l in lineups && HasManager(managers, l.clubId)
    ensures LineupTenure(lineups, l) in players
  {
    var t :| t in players && TenureKey(t) == LineupKey(l);
    assert LineupTenure(lineups, l) == t;
  }

  /** A record of the join over the player index is the clipped pair of a
      joined lineup row. */
  lemma RecordOfJoinedLineup(managers: seq<ManagerTenure>, lineups: seq<Lineup>, players: seq<PlayerTenure>,
                             numbered: seq<NumberedTenure>, r: AttributedRecord)
    requires IndexOfManagedClubs(managers, lineups, players)
    requires r in AttributeAll(players, numbered)
    ensures exists l, m :: Joined(lineups, managers, numbered, l, m) && r == Clip(LineupTenure(lineups, l), m)
  {
    AttributionMembership(players, numbered, r);
    var i, j :| 0 <= i < |players| && 0 <= j < |numbered| &&
      Overlaps(players[i], numbered[j]) && r == Clip(players[i], numbered[j]);
    IndexRowIsLineupTenure(managers, lineups, players, players[i]);
    var l :| l in lineups && HasManager(managers, l.clubId) && LineupTenure(lineups, l) == players[i];
    assert Joined(lineups, managers, numbered, l, numbered[j]);
  }

  /** The clipped pair of a joined lineup row is a record of the join over
      the player index. */
  lemma JoinedLineupHasRecord(managers: seq<ManagerTenure>, lineups: seq<Lineup>, players: seq<PlayerTenure>,
                              numbered: seq<NumberedTenure>, l: Lineup, m: NumberedTenure)
    requires IndexOfManagedClubs(managers, lineups, players)
    requires Joined(lineups, managers, numbered, l, m)
    ensures Clip(LineupTenure(lineups, l), m) in AttributeAll(players, numbered)
  {
    var r := Clip(LineupTenure(lineups, l), m);
    AttributionMembership(players, numbered, r);
    LineupTenureIndexed(managers, lineups, players, l);
    var i :| 0 <= i < |players| && players[i] == LineupTenure(lineups, l);
    var j :| 0 <= j < |numbered| && numbered[j] == m;
  }

  /** The join over the player index is the join over the lineup rows of the
      managed clubs: a record is produced exactly for a lineup row of a
      managed club and a manager tenure its player tenure overlaps. */
  lemma JoinedLineups(managers: seq<ManagerTenure>, lineups: seq<Lineup>, players: seq<PlayerTenure>,
                      numbered: seq<NumberedTenure>)
    requires IndexOfManagedClubs(managers, lineups, players)
    ensures forall r :: r in AttributeAll(players, numbered) ==>
      exists l, m :: Joined(lineups, managers, numbered, l, m) && r == Clip(LineupTenure(lineups, l), m)
    ensures forall l, m :: Joined(lineups, managers, numbered, l, m) ==>
      Clip(LineupTenure(lineups, l), m) in AttributeAll(players, numbered)
  {
    forall r | r in AttributeAll(players, numbered)
      ensures exists l, m :: Joined(lineups, managers, numbered, l, m) && r == Clip(LineupTenure(lineups, l), m)
    {
      RecordOfJoinedLineup(managers, lineups, players, numbered, r);
    }
    forall l, m | Joined(lineups, managers, numbered, l, m)
      ensures Clip(LineupTenure(lineups, l), m) in AttributeAll(players, numbered)
    {
      JoinedLineupHasRecord(managers, lineups, players, numbered, l, m);
    }
  }

  /** The join is empty exactly when no lineup row of a managed club has a
      player tenure that overlaps a numbered manager tenure. */
  lemma EmptyJoinIffNoneJoined(managers: seq<ManagerTenure>, lineups: seq<Lineup>, players: seq<PlayerTenure>,
                               numbered: seq<NumberedTenure>)
    requires IndexOfManagedClubs(managers, lineups, players)
    ensures AttributeAll(players, numbered) == [] <==> !AnyJoined(lineups, managers, numbered)
  {
    var rows := AttributeAll(players, numbered);
    if AnyJoined(lineups, managers, numbered) {
      var l, m :| Joined(lineups, managers, numbered, l, m);
      JoinedLineupHasRecord(managers, lineups, players, numbered, l, m);
    }
    if rows != [] {
      RecordOfJoinedLineup(managers, lineups, players, numbered, rows[0]);
    }
  }

  /** Joined records keep their window and manager once valued. */
  lemma ValuedRecordsWellFormed(players: seq<PlayerTenure>, numbered: seq<NumberedTenure>,
                                vals: seq<Valuation>, valued: seq<AttributedRecord>)
    requires forall p :: p in players ==> p.span.start <= p.span.end
    requires forall m :: m in numbered ==> WellFormedManager(m)
    requires var rows := AttributeAll(players, numbered);
      && |valued| == |rows|
      && forall i :: 0 <= i < |rows| ==> SameRecord(valued[i], rows[i]) && Valued(valued[i], vals)
    ensures forall r :: r in valued ==> WellFormedRecord(r, numbered, vals)
  {
    var rows := AttributeAll(players, numbered);
    RecordsAreClipped(players, numbered);
    forall r | r in valued ensures WellFormedRecord(r, numbered, vals) {
      var i :| 0 <= i < |valued| && valued[i] == r;
      assert rows[i] in rows;
      assert r.span == rows[i].span;
      var m :| m in numbered && m.clubId == rows[i].clubId && m.managerId == rows[i].managerId &&
        m.managerName == rows[i].managerName && m.span.Some? &&
        m.span.value.start <= rows[i].span.start && rows[i].span.end <= m.span.value.end;
      assert UnderManager(r, m);
    }
  }

  /** Valuing the records row by row keeps them in one-to-one
      correspondence with the joined pairs. */
  lemma ValuedRecordsJoined(managers: seq<ManagerTenure>, lineups: seq<Lineup>, numbered: seq<NumberedTenure>,
                            rows: seq<AttributedRecord>, valued: seq<AttributedRecord>)
    requires forall r :: r in rows ==>
      exists l, m :: Joined(lineups, managers, numbered, l, m) && r == Clip(LineupTenure(lineups, l), m)
    requires forall l, m :: Joined(lineups, managers, numbered, l, m) ==> Clip(LineupTenure(lineups, l), m) in rows
    requires |valued| == |rows|
    requires forall i :: 0 <= i < |rows| ==> SameRecord(valued[i], rows[i])
    ensures forall r :: r in valued ==> FromJoined(r, lineups, managers, numbered)
    ensures forall l, m :: Joined(lineups, managers, numbered, l, m) ==>
      exists r :: r in valued && SameRecord(r, Clip(LineupTenure(lineups, l), m))
  {
    forall r | r in valued ensures FromJoined(r, lineups, managers, numbered) {
      var i :| 0 <= i < |valued| && valued[i] == r;
      assert rows[i] in rows;
    }
    forall l, m | Joined(lineups, managers, numbered, l, m)
      ensures exists r :: r in valued && SameRecord(r, Clip(LineupTenure(lineups, l), m))
    {
      var c := Clip(LineupTenure(lineups, l), m);
      assert c in rows;
      var i :| 0 <= i < |rows| && rows[i] == c;
      assert valued[i] in valued;
    }
  }

  /** Valuing the records row by row keeps at most one record per player
      tenure and manager. */
  lemma ValuedRecordsOnePerPair(rows: seq<AttributedRecord>, valued: seq<AttributedRecord>)
    requires OnePerPair(rows)
    requires |valued| == |rows|
    requires forall i :: 0 <= i < |rows| ==> SameRecord(valued[i], rows[i])
    ensures OnePerPair(valued)
  {
    forall i, j | 0 <= i < j < |valued| ensures PairOf(valued[i]) != PairOf(valued[j]) {
      assert PairOf(valued[i]) == PairOf(rows[i]) && PairOf(valued[j]) == PairOf(rows[j]);
    }
  }

  /** The last stage on the player-manager table: the table is written,
      read back as a frame, valued row by row in place, and returned. */
  method ValuationStage(rows: seq<AttributedRecord>, vals: seq<Valuation>) returns (valued: seq<AttributedRecord>)
    ensures |valued| == |rows|
    ensures forall i :: 0 <= i < |rows| ==> SameRecord(valued[i], rows[i]) && Valued(valued[i], vals)
  {
    var table := new AttributedRecord[|rows|](i requires 0 <= i < |rows| => rows[i]);
    AddPlayerValuations(table, vals);
    valued := table[..];
    forall i | 0 <= i < |rows| ensures SameRecord(valued[i], rows[i]) && Valued(valued[i], vals) {
      ResolvedValues(rows[i], vals);
    }
  }

  /** Every tenure of the player index starts no later than it ends. */
  lemma IndexSpansOrdered(managers: seq<ManagerTenure>, lineups: seq<Lineup>, players: seq<PlayerTenure>)
    requires IndexOfManagedClubs(managers, lineups, players)
    ensures forall p :: p in players ==> p.span.start <= p.span.end
  {
    forall p | p in players ensures p.span.start <= p.span.end {
      assert Some(p.span) == PlayerSpan(lineups, TenureKey(p));
    }
  }

  /** The output of a run that reaches the valuation stage is well formed:
      every numbered manager tenure has a retained club, enough games and
      dates in order; there is at least one record; and every record lies
      within a tenure of its manager and is valued from the valuation
      table. */
  ghost predicate WellFormedOutput(vals: seq<Valuation>, o: Output) {
    && (forall m :: m in o.managers ==> WellFormedManager(m))
    && |o.records| > 0
    && (forall r :: r in o.records ==> WellFormedRecord(r, o.managers, vals))
  }

  /** The records of an output are, but for their values, exactly the
      clipped pairs of a joined lineup row and manager tenure: every record
      is such a pair, and every such pair has a record. */
  ghost predicate RecordsOfJoin(lineups: seq<Lineup>, managers: seq<ManagerTenure>, o: Output) {
    && (forall r :: r in o.records ==> FromJoined(r, lineups, managers, o.managers))
    && (forall l, m :: Joined(lineups, managers, o.managers, l, m) ==>
          exists r :: r in o.records && SameRecord(r, Clip(LineupTenure(lineups, l), m)))
  }

  /** The output of a run that reaches the valuation stage, from the dated
      cleaned history `managers`. */
  ghost predicate Completed(lineups: seq<Lineup>, vals: seq<Valuation>, managers: seq<ManagerTenure>, o: Output) {
    WellFormedOutput(vals, o) && RecordsOfJoin(lineups, managers, o)
  }

  /** Valuing a non-empty join over well-formed managers gives a
      well-formed output. */
  lemma CompletedRunWellFormed(managers: seq<ManagerTenure>, lineups: seq<Lineup>, vals: seq<Valuation>,
                               players: seq<PlayerTenure>, numbered: seq<NumberedTenure>,
                               valued: seq<AttributedRecord>)
    requires IndexOfManagedClubs(managers, lineups, players)
    requires forall m :: m in numbered ==> WellFormedManager(m)
    requires var rows := AttributeAll(players, numbered);
      && rows != []
      && |valued| == |rows|
      && forall i :: 0 <= i < |rows| ==> SameRecord(valued[i], rows[i]) && Valued(valued[i], vals)
    ensures WellFormedOutput(vals, Output(numbered, valued))
  {
    IndexSpansOrdered(managers, lineups, players);
    ValuedRecordsWellFormed(players, numbered, vals, valued);
  }

  /** Valuing the join keeps its records those of the joined lineup rows. */
  lemma CompletedRunJoined(managers: seq<ManagerTenure>, lineups: seq<Lineup>,
                           players: seq<PlayerTenure>, numbered: seq<NumberedTenure>,
                           valued: seq<AttributedRecord>)
    requires IndexOfManagedClubs(managers, lineups, players)
    requires var rows := AttributeAll(players, numbered);
      && |valued| == |rows|
      && forall i :: 0 <= i < |rows| ==> SameRecord(valued[i], rows[i])
    ensures RecordsOfJoin(lineups, managers, Output(numbered, valued))
  {
    JoinedLineups(managers, lineups, players, numbered);
    ValuedRecordsJoined(managers, lineups, numbered, AttributeAll(players, numbered), valued);
  }

  /** The main block: manager history, cleaning, manager dates, player index,
      player-manager join, valuations. The run stops when the cleaned history
      is empty (no club to concatenate) or when no player overlaps any
      manager (nothing to sort). Otherwise the managers are the dated cleaned
      history, numbered; and the records are, up to their values, exactly
      the clipped pairs of a lineup row of a managed club and a manager tenure
      its player tenure overlaps, each valued from the valuation table, with
      no player tenure and manager counted twice. */
  method RunPipeline(games: seq<Game>, lineups: seq<Lineup>, vals: seq<Valuation>)
    returns (out: Result<Output>)
    ensures out.Err? ==> out == Err(NothingToConcatenate) || out == Err(MissingSortColumn)
    ensures out == Err(NothingToConcatenate) <==> DatedHistory(games) == []
    ensures out == Err(MissingSortColumn) <==>
      DatedHistory(games) != [] &&
      !AnyJoined(lineups, DatedHistory(games), AssignManagerIds(DatedHistory(games)))
    ensures out.Ok? ==> out.value.managers == AssignManagerIds(DatedHistory(games))
    ensures out.Ok? ==> Completed(lineups, vals, DatedHistory(games), out.value)
    ensures out.Ok? ==> OnePerPair(out.value.records)
  {
    var tenures := ManagerStage(games);
    var index := CreatePlayerIndex(tenures, lineups);
    if index.Err? {
      assert tenures == [];
      return Err(NothingToConcatenate);
    }
    var players := index.value;
    var numbered, joined := CreatePlayerManagerRelationships(players, tenures);
    EmptyJoinIffNoneJoined(tenures, lineups, players, numbered);
    if joined.Err? {
      assert !AnyJoined(lineups, tenures, numbered);
      return Err(MissingSortColumn);
    }
    var valued := ValuationStage(joined.value, vals);
    NumberedTenuresWellFormed(tenures);
    CompletedRunWellFormed(tenures, lineups, vals, players, numbered, valued);
    CompletedRunJoined(tenures, lineups, players, numbered, valued);
    DatedHistoryDistinct(games);
    NumberingKeepsDistinct(tenures);
    AttributeAllOnePerPair(players, numbered);
    ValuedRecordsOnePerPair(joined.value, valued);
    out := Ok(Output(numbered, valued));
  }
}
