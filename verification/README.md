# Manager attribution pipeline — a verified model

This project models the batch data pipeline of *the_manager_project*
(`data_processor.py`). The pipeline turns three raw tables into a table that
credits each player's market value to the managers the player served under.
The three input tables are the games, the match lineups and the player
valuations. The stages are:

1. **Manager history** (`create_manager_history`). It keeps the Premier League games
   (competition `GB1`, seasons 2014–2024). It turns each game into a home and an away
   (club, manager) observation and counts the games of each pair.
2. **Cleaning** (`clean_manager_history`). It drops 17 hard-coded club ids and every
   pair with fewer than 10 games.
3. **Manager dates** (`fetch_manager_dates`). It dates each surviving pair with the first
   and last game, of any competition and season, in which the club played
   under that manager.
4. **Player index** (`create_player_index`). For every club with a manager history
   row, it records the first and last lineup date of each (player id, player name).
5. **Attribution** (`create_player_manager_relationships`). It numbers the managers 1, 2, …
   in the ascending order of their names. It then pairs every player tenure with every
   manager tenure at the same club that overlaps it, clipped to the shared days.
6. **Valuations** (`add_player_valuations`). For each attributed record, it works in place to find
   the player's value at the start of the record, the value at its end, and the peak value
   within the record.

`clean_pl_clubs` is modelled too. It normalises club names by removing
" Football Club" and then " Association Football Club", ignoring case.

Dates are whole day numbers and market values are whole currency units.
Tables are sequences of datatypes.

The modules follow the stages:

- `Tables`: records, the configuration constants, `Option`/`Result`, minimum and maximum of a date list, removal of repeats.
- `ManagerHistory`: stages 1–3.
- `PlayerIndex`: stage 4.
- `ManagerIds` and `Attribution`: stage 5.
- `Valuations`: stage 6.
- `ClubNames`: `clean_pl_clubs`.
- `Pipeline`: the main block, with end-to-end guarantees.

Each loop of the source becomes a `method` with loop invariants.
`FetchManagerDates`, `JoinTenures` and `AddPlayerValuations` are proved against
functions that define their results (`TenureSpan`, `AttributeAll` and
`Resolve`); `AddPlayerValuations` updates an `array` in place.
`CreatePlayerIndex` is proved against the predicate `IndexOfManagedClubs`, and
its loop over the club ids is the method `GatherClubs`. Group-bys, filters,
the id mapping and the string replacement are functions.

Both failures of the source are modelled as errors:

- If the cleaned manager history is empty, `pd.concat` gets an empty list: `Err(NothingToConcatenate)`.
- If no player overlaps any manager, the record-less frame has no column to sort by: `Err(MissingSortColumn)`.

A manager pair with no dated game would get missing (NaN) dates. These are
modelled as `None`, and such a manager never overlaps a player. The model also
proves that this cannot happen inside one run (`SurvivorsHaveDates`).

## Model

| member | source | states |
|---|---|---|
| Tables.SpanOf | data_processor.py:107-109 | The minimum and maximum of a date list. Both are dates of the list, and every date of the list lies between them. The result is absent exactly when the list is empty. |
| Tables.Dedup | data_processor.py:129 | `unique()`: the same members as the input, each once. |
| ManagerHistory.PremierLeagueGames | data_processor.py:8-11 | A game is kept exactly when it is in the input, has competition GB1 and has a season between 2014 and 2024 inclusive. |
| ManagerHistory.HomeSidesCount | data_processor.py:14-16 | The number of home observations of a (club, manager) pair equals the number of in-scope games where that club is at home under that home manager. |
| ManagerHistory.AwaySidesCount | data_processor.py:18-20 | The same count for away observations. |
| ManagerHistory.Observations | data_processor.py:13-23 | The concatenated home and away observations hold each (club, manager) pair exactly as many times as its in-scope home games plus its in-scope away games. |
| ManagerHistory.Groups | data_processor.py:26-28 | `groupby(...).size()`: each row's count is the number of times its pair was observed, and is positive. No pair has two rows, and every observed pair has a row. |
| ManagerHistory.CreateManagerHistory | data_processor.py:8-28 | One row per pair, with no key twice. A row exists for every pair with a game. Each row's games_managed equals its home-game count plus its away-game count and is positive. |
| ManagerHistory.Keep | data_processor.py:56-59 | The row filter: the club is not one of the 17 excluded ids and the pair has at least 10 games. Its properties are stated by `CleanManagerHistory`. |
| ManagerHistory.CleanManagerHistory | data_processor.py:50-59 | A row is kept, with its multiplicity and unchanged, exactly when its club is not excluded and it has at least 10 games. Every other row is dropped. |
| ManagerHistory.CleanKeepsKeysDistinct | data_processor.py:50-59 | Cleaning a history with one row per (club, manager) pair leaves one row per pair. |
| ManagerHistory.MatchDates | data_processor.py:98-105 | The dates of exactly those games where the club is at home under that home manager or away under that away manager. |
| ManagerHistory.TenureSpan | data_processor.py:98-109 | The earliest and latest such match date. Both are attained, start ≤ end, and every match lies within them. The span is absent exactly when there is no such match. |
| ManagerHistory.FetchManagerDates | data_processor.py:96-116 | One tenure per history row, in order. Each keeps the row's club, manager and game count, and its dates are that row's `TenureSpan`. |
| ManagerHistory.CountedPairHasGame | data_processor.py:8-28 | A pair counted at least once has an in-scope game that the date lookup finds. |
| ManagerHistory.SurvivorsHaveDates | data_processor.py:96-112 | Every row that survives cleaning gets dates; none is missing. |
| PlayerIndex.ClubKeys | data_processor.py:137 | The (player id, player name, club id) keys of exactly the lineup rows of that club. |
| PlayerIndex.KeyDates | data_processor.py:140-147 | The dates of exactly the lineup rows with that key. |
| PlayerIndex.PlayerSpan | data_processor.py:140-150 | The first and last lineup date of a key. Both are attained, start ≤ end, and every lineup of the key lies within them. The span is absent exactly when the key has no lineup. |
| PlayerIndex.TenuresOf | data_processor.py:143-150 | One tenure per key, in key order, each dated by that key's `PlayerSpan`; what those dates mean is stated by `PlayerSpan`. |
| PlayerIndex.ClubPlayers | data_processor.py:137-150 | Every tenure belongs to the club and spans its key's lineup dates. Every lineup row of the club is covered, and no key appears twice. |
| PlayerIndex.ClubIds | data_processor.py:129 | Exactly the club ids of the manager history. |
| PlayerIndex.GatherClub | data_processor.py:137-152 | Appending the group of a club not yet handled keeps the gathered tenures correct for that club too: each is correct, every lineup row is covered, and no key appears twice. |
| PlayerIndex.GatherClubs | data_processor.py:135-152 | The loop over distinct club ids gathers, for all of them, tenures that span their keys' lineup dates. Every lineup row of those clubs is covered, and no key appears twice. |
| PlayerIndex.GatheredManagedClubs | data_processor.py:128-155 | After every club of the manager history is handled, the gathered tenures are the player index of exactly the managed clubs. |
| PlayerIndex.CreatePlayerIndex | data_processor.py:128-155 | It fails with the concatenation error exactly when the manager history is empty. Otherwise every tenure's club has a manager row and each tenure spans its key's lineup dates. Every lineup row of such a club is covered, and no key appears twice. |
| ManagerIds.NameLeqTotal | data_processor.py:172 | Python's string order is total. |
| ManagerIds.NameLeqAntisymmetric | data_processor.py:172 | Python's string order is antisymmetric. |
| ManagerIds.NameLeqTransitive | data_processor.py:172 | Python's string order is transitive. |
| ManagerIds.Insert | data_processor.py:172 | Inserting into a sorted list keeps it sorted and adds exactly that name. |
| ManagerIds.Sort | data_processor.py:172 | `sorted`: an ascending permutation of its input. |
| ManagerIds.NameColumn | data_processor.py:171 | Exactly the manager names of the table. |
| ManagerIds.SortedNames | data_processor.py:171-172 | Every manager name exactly once, in strictly ascending order. |
| ManagerIds.DistinctCardinality | data_processor.py:171-172 | The number of distinct names equals the length of the list of distinct names. |
| ManagerIds.IdMapping | data_processor.py:172 | `manager_id_mapping`: each distinct name to its 1-based position in the sorted list. Its properties are stated by `NumberingByName`. |
| ManagerIds.NumberRows | data_processor.py:175 | `map` over the name column: one row per manager row, in order, each carrying the id its name maps to. What the ids mean is stated by `NumberingByName`. |
| ManagerIds.NumberingByName | data_processor.py:171-175 | Every manager name is a key of the mapping, and numbering the rows by sorted position is a numbering by name, as `AssignManagerIds` states. |
| ManagerIds.AssignManagerIds | data_processor.py:171-175 | Every other column is unchanged. Two rows have equal names exactly when they have equal ids. A smaller name gets a smaller id. Ids lie in 1..(number of distinct names), and every id in that range is used. |
| ManagerIds.NumberingKeepsDistinct | data_processor.py:171-175 | A history with one row per (club, manager name) gets one row per (club, manager id). |
| Attribution.Overlaps | data_processor.py:191-200 | The selection test: same club, and the manager's start is on or before the player's end and the manager's end on or after the player's start. A manager with missing dates never matches. Its meaning is stated by `OverlapMeansSharedDay`. |
| Attribution.Clip | data_processor.py:204-209 | The record copies the player's id, name and club and the manager's id and name. Its days are exactly the days both tenures share. Its start ≤ end when the two overlap. |
| Attribution.OverlapMeansSharedDay | data_processor.py:191-200 | The inclusive overlap test holds exactly when the clubs are equal, the manager is dated, and the two tenures share a day. |
| Attribution.AttributeOneMembership | data_processor.py:203-210 | A player's records are exactly the clipped pairs with each overlapping manager. |
| Attribution.AttributeOne | data_processor.py:189-210 | The records of one player, one per overlapping manager in table order. Its contents are stated by `AttributeOneMembership`. |
| Attribution.AttributeAll | data_processor.py:189-210 | The records of every player, player by player. Its contents are stated by `AttributionMembership`. |
| Attribution.AttributionMembership | data_processor.py:189-210 | A record is produced exactly when it is the clipped pair of some player tenure and some overlapping manager tenure of the same club. |
| Attribution.RecordsAreClipped | data_processor.py:204-210 | Every record has start ≤ end. It lies within a player tenure with the same player and club, and within a manager tenure with the same club, id and name. |
| Attribution.AttributeOneOnePerPair | data_processor.py:203-210 | With one manager row per (club, manager id), a player tenure gets at most one record per manager. |
| Attribution.AttributeAllOnePerPair | data_processor.py:189-210 | With one player tenure per key and one manager row per (club, manager id), no two records share a player tenure and a manager: nothing is counted twice. |
| Attribution.ConsecutiveManagersSplitTenure | data_processor.py:189-210 | Two manager tenures at a club, the second starting the day after the first ends, that both overlap a player's tenure split it into exactly two records. The first record ends the day before the second starts, so they share no day. Together they cover exactly the player's days under either manager. |
| Attribution.ConsecutiveManagersExample | data_processor.py:189-210 | The same split on dates: a player from 2016-01-01 to 2018-01-01 under managers from 2015-01-01 to 2016-06-01 and from 2016-06-02 to 2019-01-01 gets records 2016-01-01..2016-06-01 and 2016-06-02..2018-01-01. |
| Attribution.JoinTenures | data_processor.py:186-210 | The nested loop builds exactly `AttributeAll`, player by player and manager by manager. |
| Attribution.CreatePlayerManagerRelationships | data_processor.py:165-216 | The managers are numbered as `AssignManagerIds` says. The result is the attribution over the numbered managers. It fails with the sort error exactly when that attribution is empty. |
| Valuations.LatestOnOrBefore | data_processor.py:245-247 | The position of a valuation of the player dated on or before the day. No qualifying valuation is later, and none before it has the same date (`argmax`). It is absent exactly when nothing qualifies. |
| Valuations.PeakWithin | data_processor.py:256-262 | The highest value of the player's valuations within the interval. It is attained and absent exactly when none falls within. |
| Valuations.Resolve | data_processor.py:239-263 | One row of `add_player_valuations`: every column apart from the three values is left unchanged. The values themselves are stated by `ResolvedValues`. |
| Valuations.ResolvedValues | data_processor.py:239-263 | Resolving a row changes only its three value columns. The start and end values are the latest valuations on or before those days. The peak is the maximum within the interval. Each is absent exactly when nothing qualifies. |
| Valuations.LatestIsUnique | data_processor.py:247 | With at most one valuation per player and date, the lookup returns the unique latest valuation. |
| Valuations.ResolveExample | data_processor.py:239-263 | Valuations 10M, 20M and 15M on 2015-06-01, 2017-01-01 and 2018-01-01, and a record from 2016-01-01 to 2017-06-01. The record gets start 10M, peak 20M and end 20M. |
| Valuations.AddPlayerValuations | data_processor.py:233-263 | In place, every row of the table becomes its resolved row. |
| ClubNames.RemoveAll | data_processor.py:78-79 | `str.replace` with a case-insensitive literal pattern: the result is never longer than the name. Its other properties are stated by the lemmas below. |
| ClubNames.RemoveAllChangesIffOccurs | data_processor.py:78-79 | A name changes exactly when the pattern occurs in it, ignoring case, and it then gets shorter. |
| ClubNames.UnchangedWithoutOccurrence | data_processor.py:78-79 | A name that does not contain the pattern, ignoring case, is left as it is. |
| ClubNames.OccurrenceShortens | data_processor.py:78-79 | A name that contains the pattern gets shorter. |
| ClubNames.RemoveAllKeepsPrefix | data_processor.py:78-79 | Text before the first occurrence of the pattern is kept unchanged. |
| ClubNames.RemoveAllStripsSuffix | data_processor.py:78 | A name that ends with the pattern, and has no other occurrence of it, loses exactly that suffix. |
| ClubNames.AssociationHoldsFootball | data_processor.py:78-79 | A name that holds " Association Football Club" also holds " Football Club", ignoring case. |
| ClubNames.CleanClubName | data_processor.py:78-79 | Both replacements on one name: the name changes exactly when it holds " Football Club", ignoring case, and it then gets shorter. |
| ClubNames.SecondReplacementCanApply | data_processor.py:78-79 | The second replacement is not dead code. "X Association Football Football Club Club" becomes "X Association Football Club" after the first pass and "X" after the second. |
| Pipeline.DatedHistoryDistinct | data_processor.py:26-116 | The dated cleaned history has one row per (club, manager) pair. |
| Pipeline.DatedHistoryWellFormed | data_processor.py:50-116 | Every row of the dated cleaned history has a retained club, at least 10 games, and dates with start ≤ end. |
| Pipeline.ManagerStage | data_processor.py:280-284 | One tenure per cleaned history row, in order, keeping its club, manager and game count and dated by that row's `TenureSpan`. The result is the dated cleaned history, and every tenure has a retained club, at least 10 games, and dates with start ≤ end. |
| Pipeline.NumberedTenuresWellFormed | data_processor.py:171-175 | Numbering keeps those guarantees. |
| Pipeline.IndexRowIsLineupTenure | data_processor.py:137-150 | Every player-index row is the player tenure of some lineup row of a managed club. |
| Pipeline.LineupTenureIndexed | data_processor.py:137-150 | The player tenure of every lineup row of a managed club is a player-index row. |
| Pipeline.RecordOfJoinedLineup | data_processor.py:189-210 | Every record of the join over the player index is the clipped pair of a lineup row of a managed club and a manager tenure that overlaps its player tenure. |
| Pipeline.JoinedLineupHasRecord | data_processor.py:189-210 | Every such clipped pair is a record of the join over the player index. |
| Pipeline.JoinedLineups | data_processor.py:128-210 | Both directions together: the join over the player index is exactly the join over the lineup rows of the managed clubs. |
| Pipeline.EmptyJoinIffNoneJoined | data_processor.py:189-216 | The join is empty exactly when no lineup row of a managed club has a player tenure that overlaps a numbered manager tenure. |
| Pipeline.ValuedRecordsWellFormed | data_processor.py:204-263 | Valued records keep start ≤ end. Each lies within a tenure of its own manager at its club, and its values are resolved. |
| Pipeline.ValuedRecordsJoined | data_processor.py:204-263 | Valuing keeps the records those of the joined pairs: every valued record is, but for its values, a joined pair, and every joined pair has a valued record. |
| Pipeline.ValuedRecordsOnePerPair | data_processor.py:225-263 | Valuing the records row by row keeps at most one record per player tenure and manager. |
| Pipeline.ValuationStage | data_processor.py:225-263 | The record table, valued in place, keeps every row apart from the three values and resolves those values. |
| Pipeline.IndexSpansOrdered | data_processor.py:140-150 | Every player-index tenure starts no later than it ends. |
| Pipeline.CompletedRunWellFormed | data_processor.py:171-263 | Valuing a non-empty join over well-formed managers gives a well-formed output: managers retained and dated, at least one record, each within a tenure of its manager and valued. |
| Pipeline.CompletedRunJoined | data_processor.py:189-263 | The valued records are, but for their values, exactly the joined pairs of lineup rows and manager tenures. |
| Pipeline.RunPipeline | data_processor.py:270-293 | The run fails only with the two errors. It fails with the concatenation error exactly when the dated cleaned history is empty. It fails with the sort error exactly when the history is not empty and no lineup row of a managed club has a player tenure overlapping a numbered manager tenure. Otherwise the managers are the dated cleaned history numbered by `AssignManagerIds`, all retained and dated. There is at least one record, and the records are, but for their values, exactly the clipped joined pairs, with no player tenure and manager counted twice. Each record has start ≤ end, lies within a tenure of its manager at its club, and carries resolved values. |

## Left out

- CSV reading and writing, `os.makedirs` and `pd.to_datetime` are left out. Tables are passed as sequences, and dates are day numbers compared as integers. `fetch_manager_dates` (data_processor.py:107-109) and `create_player_index` (data_processor.py:143-145) take the minimum and maximum of raw ISO date strings. `create_player_manager_relationships` (data_processor.py:182-183) and `add_player_valuations` (data_processor.py:229-231) convert to datetimes first. For ISO dates both orders agree with the order of the day numbers.
- The no-op column rename in `clean_manager_history` is left out. It renames columns that do not exist.
- The left merge of club names into the manager history (data_processor.py:62-66) is left out. The name column is not read by any later stage of the core.
- Orderings are left out. Groups come out in order of first appearance rather than pandas' sorted group order. The presentation sorts by club (data_processor.py:31), by club and player name (data_processor.py:158), and by club, player name and start date (data_processor.py:216) are not modelled. Membership and contents are proved, but row order is not.
- Pandas' group-by drops rows whose key has a missing manager or player name. The model treats every name as a present string.
- ClubNames.RemoveAll: only ASCII letters are folded. Python's Unicode case-insensitive matching (for example the Kelvin sign matching "k") is not modelled.
- `app.py` is not part of this model: the Streamlit page, the charts and their floating-point arithmetic are left out.
- A manager pair with no matching game would get missing (NaN) dates from `min`/`max` (data_processor.py:107-109). They are modelled as `None`, and `SurvivorsHaveDates` shows that the case cannot arise within one run.
- `add_player_valuations` updates its frame in place (data_processor.py:233-263). It is modelled as an update of an array.
- The configuration constants (competition, seasons, minimum games, excluded clubs) are hard-coded in the source. They are fixed constants here.
- When several valuations share the latest date, `argmax` returns the first of them (data_processor.py:247, 253). That is modelled exactly, and `LatestIsUnique` shows that the choice does not matter when dates are unique per player.
- The comment in `clean_manager_history` speaks of "less than 5 games", but the code keeps rows with at least 10. The model follows the code.
