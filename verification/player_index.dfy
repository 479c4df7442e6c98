/** The player-tenure builder: for every club that has a manager history
    row, the first and last lineup date of each of its players. */
module PlayerIndex {
  import opened Tables
  import opened ManagerHistory

  /** The grouping key of `create_player_index`. */
  datatype PlayerKey = PlayerKey(playerId: int, playerName: string, clubId: int)

  /** One row of the player index. */
  datatype PlayerTenure = PlayerTenure(playerId: int, playerName: string, clubId: int, span: Span)

  function LineupKey(l: Lineup): PlayerKey {
    PlayerKey(l.playerId, l.playerName, l.clubId)
  }

  function TenureKey(t: PlayerTenure): PlayerKey {
    PlayerKey(t.playerId, t.playerName, t.clubId)
  }

  /** The keys of the club's lineup rows, with repetitions. */
  function ClubKeys(lineups: seq<Lineup>, clubId: int): (keys: seq<PlayerKey>)
    ensures forall k :: k in keys <==> exists l :: l in lineups && l.clubId == clubId && LineupKey(l) == k
  {
    if |lineups| == 0 then []
    else
      var last := lineups[|lineups| - 1];
      assert lineups == lineups[..|lineups| - 1] + [last];
      ClubKeys(lineups[..|lineups| - 1], clubId) + (if last.clubId == clubId then [LineupKey(last)] else [])
  }

  /** The dates of the lineup rows with that key. */
  function KeyDates(lineups: seq<Lineup>, k: PlayerKey): (dates: seq<int>)
    ensures forall l :: l in lineups && LineupKey(l) == k ==> l.date in dates
    ensures forall d :: d in dates ==> exists l :: l in lineups && LineupKey(l) == k && l.date == d
  {
    if |lineups| == 0 then []
    else
      var last := lineups[|lineups| - 1];
      assert lineups == lineups[..|lineups| - 1] + [last];
      KeyDates(lineups[..|lineups| - 1], k) + (if LineupKey(last) == k then [last.date] else [])
  }

  /** The tenure of a player at a club: from the earliest to the latest
      lineup row with that key; None when the key has no row. */
  function PlayerSpan(lineups: seq<Lineup>, k: PlayerKey): (r: Option<Span>)
    ensures r.None? <==> forall l :: l in lineups ==> LineupKey(l) != k
    ensures r.Some? ==> r.value.start <= r.value.end
    ensures r.Some? ==> exists l :: l in lineups && LineupKey(l) == k && l.date == r.value.start
    ensures r.Some? ==> exists l :: l in lineups && LineupKey(l) == k && l.date == r.value.end
    ensures r.Some? ==> forall l :: l in lineups && LineupKey(l) == k ==> InSpan(l.date, r.value)
  {
    SpanOf(KeyDates(lineups, k))
  }

  /** One tenure per key, in the order of the keys. */
  function TenuresOf(lineups: seq<Lineup>, keys: seq<PlayerKey>): (ts: seq<PlayerTenure>)
    requires forall k :: k in keys ==> PlayerSpan(lineups, k).Some?
    ensures |ts| == |keys|
    ensures forall i :: 0 <= i < |keys| ==>
      TenureKey(ts[i]) == keys[i] && Some(ts[i].span) == PlayerSpan(lineups, keys[i])
  {
    seq(|keys|, i requires 0 <= i < |keys| =>
      PlayerTenure(keys[i].playerId, keys[i].playerName, keys[i].clubId, PlayerSpan(lineups, keys[i]).value))
  }

  /** The tenures are exactly one per key. */
  lemma TenuresOfKeys(lineups: seq<Lineup>, keys: seq<PlayerKey>)
    requires forall k :: k in keys ==> PlayerSpan(lineups, k).Some?
    ensures forall t :: t in TenuresOf(lineups, keys) ==>
      TenureKey(t) in keys && Some(t.span) == PlayerSpan(lineups, TenureKey(t))
    ensures forall k :: k in keys ==> exists t :: t in TenuresOf(lineups, keys) && TenureKey(t) == k
  {
    var ts := TenuresOf(lineups, keys);
    forall k | k in keys ensures exists t :: t in ts && TenureKey(t) == k {
      var i :| 0 <= i < |keys| && keys[i] == k;
      assert ts[i] in ts;
    }
  }

  lemma ClubKeysAreGrouped(lineups: seq<Lineup>, clubId: int, keys: seq<PlayerKey>)
    requires forall k :: k in keys <==> k in ClubKeys(lineups, clubId)
    ensures forall k :: k in keys ==> k.clubId == clubId && PlayerSpan(lineups, k).Some?
    ensures forall l :: l in lineups && l.clubId == clubId ==> LineupKey(l) in keys
  {
    forall k | k in keys ensures k.clubId == clubId && PlayerSpan(lineups, k).Some? {
      var l :| l in lineups && l.clubId == clubId && LineupKey(l) == k;
    }
  }

  /** The per-club group-by of `create_player_index`: one tenure per
      distinct (player id, player name) among the club's lineup rows. */
  function ClubPlayers(lineups: seq<Lineup>, clubId: int): (ts: seq<PlayerTenure>)
    ensures forall t :: t in ts ==> t.clubId == clubId && Some(t.span) == PlayerSpan(lineups, TenureKey(t))
    ensures forall l :: l in lineups && l.clubId == clubId ==> exists t :: t in ts && TenureKey(t) == LineupKey(l)
    ensures forall i, j :: 0 <= i < j < |ts| ==> TenureKey(ts[i]) != TenureKey(ts[j])
  {
    var keys := Dedup(ClubKeys(lineups, clubId));
    ClubKeysAreGrouped(lineups, clubId, keys);
    TenuresOfKeys(lineups, keys);
    TenuresOf(lineups, keys)
  }

  /** The club id column of the manager history. */
  function ClubIds(managers: seq<ManagerTenure>): (ids: seq<int>)
    ensures forall c :: c in ids <==> exists m :: m in managers && m.clubId == c
  {
    if |managers| == 0 then []
    else
      var last := managers[|managers| - 1];
      assert managers == managers[..|managers| - 1] + [last];
      ClubIds(managers[..|managers| - 1]) + [last.clubId]
  }

  /** A club that has a row in the manager history. */
  predicate HasManager(managers: seq<ManagerTenure>, clubId: int) {
    exists m :: m in managers && m.clubId == clubId
  }

  /** The tenures gathered from the clubs done so far: each belongs to one of
      them and spans its key's lineup dates, every lineup row of those clubs
      is covered, and no key appears twice. */
  ghost predicate Gathered(lineups: seq<Lineup>, done: seq<int>, records: seq<PlayerTenure>) {
    && (forall t :: t in records ==> t.clubId in done && Some(t.span) == PlayerSpan(lineups, TenureKey(t)))
    && (forall l :: l in lineups && l.clubId in done ==> exists t :: t in records && TenureKey(t) == LineupKey(l))
    && (forall a, b :: 0 <= a < b < |records| ==> TenureKey(records[a]) != TenureKey(records[b]))
  }

  /** Appending the group of a club not done yet gathers that club too. */
  lemma GatherClub(lineups: seq<Lineup>, done: seq<int>, records: seq<PlayerTenure>, clubId: int)
    requires Gathered(lineups, done, records)
    requires clubId !in done
    ensures Gathered(lineups, done + [clubId], records + ClubPlayers(lineups, clubId))
  {
    var group := ClubPlayers(lineups, clubId);
    var all := records + group;
    forall a, b | 0 <= a < b < |all| ensures TenureKey(all[a]) != TenureKey(all[b]) {
      if a < |records| && b >= |records| {
        assert all[a] in records && all[b] in group;
      }
    }
  }

  /** The player index of the managed clubs: every tenure belongs to a club
      with a manager row and spans its key's lineup dates, every lineup row of
      such a club is covered, and no key appears twice. */
  ghost predicate IndexOfManagedClubs(managers: seq<ManagerTenure>, lineups: seq<Lineup>, records: seq<PlayerTenure>) {
    && (forall t :: t in records ==>
          HasManager(managers, t.clubId) && Some(t.span) == PlayerSpan(lineups, TenureKey(t)))
    && (forall l :: l in lineups && HasManager(managers, l.clubId) ==>
          exists t :: t in records && TenureKey(t) == LineupKey(l))
    && (forall i, j :: 0 <= i < j < |records| ==> TenureKey(records[i]) != TenureKey(records[j]))
  }

  /** Once every club of the manager history is done, the gathered tenures
      are the player index of the managed clubs. */
  lemma GatheredManagedClubs(managers: seq<ManagerTenure>, lineups: seq<Lineup>, records: seq<PlayerTenure>)
    requires Gathered(lineups, Dedup(ClubIds(managers)), records)
    ensures IndexOfManagedClubs(managers, lineups, records)
  {
    var clubs := Dedup(ClubIds(managers));
    assert forall c :: c in clubs <==> HasManager(managers, c);
  }

  /** The loop of `create_player_index` over the distinct club ids: each
      club's group is appended to the records. */
  method GatherClubs(lineups: seq<Lineup>, clubs: seq<int>) returns (records: seq<PlayerTenure>)
    requires forall i, j :: 0 <= i < j < |clubs| ==> clubs[i] != clubs[j]
    ensures Gathered(lineups, clubs, records)
  {
    records := [];
    for i := 0 to |clubs|
      invariant Gathered(lineups, clubs[..i], records)
    {
      GatherClub(lineups, clubs[..i], records, clubs[i]);
      assert clubs[..i + 1] == clubs[..i] + [clubs[i]];
      records := records + ClubPlayers(lineups, clubs[i]);
    }
    assert clubs[..|clubs|] == clubs;
  }

  /** `create_player_index`: the per-club groups of every club of the
      manager history, concatenated. Concatenating no group at all fails. */
  method CreatePlayerIndex(managers: seq<ManagerTenure>, lineups: seq<Lineup>)
    returns (index: Result<seq<PlayerTenure>>)
    ensures index.Err? <==> |managers| == 0
    ensures index.Err? ==> index.error == NothingToConcatenate
    ensures index.Ok? ==> IndexOfManagedClubs(managers, lineups, index.value)
  {
    var clubs := Dedup(ClubIds(managers));
    if |clubs| == 0 {
      return Err(NothingToConcatenate);
    }
    var records := GatherClubs(lineups, clubs);
    GatheredManagedClubs(managers, lineups, records);
    index := Ok(records);
  }
}
