# sharks_ice_api: scraping and store model

This project models the normalisation layer of sharks_ice_api in Dafny. That layer sits between
the scraped pages of the San Jose Sharks Ice adult hockey league (standings, schedules, game
sheets) and the SQLite store that the API serves from. It proves properties of that model.

The model covers:

- **Standings** (`Standings`, `Rename`). `scrape_season_divisions` cuts the flat list of table
  rows into one block per division header. Each block is labelled with the level and the ids read
  from the header's stats link. Every team row is renamed through `team_columns_rename`, and
  `ordinal` writes each team's place.
- **Schedule** (`Schedule`, `Dates`). The header loop of `get_season_games` turns the two
  "Goals" headers into `away_goals` and `home_goals`. The row loop keeps or skips each row and
  rewrites rink and level. Each game's start is read by `DumbDateTime.from_date_time` ("12 Noon"
  included) and placed in a year by `guess_year` against the first game's date.
  `sync_season_games` then cleans the game id and looks up both teams before `add_game`.
- **Store** (`Store`, `Listing`, `Sorting`). The tables of `database.py` are modelled as follows:
  - Seasons, Divisions, Teams and Games are maps from primary key to row, so INSERT OR REPLACE is
    a map update.
  - TeamStats is a sequence of rows in table order, since `get_team_id` depends on that order.
  - The queries are modelled: `get_current_season`, the name-to-id resolution of `get_team_id`
    (with its comparison exactly as written), the grouping and sorting of `list_season_divisions`,
    and the empty-list guards of `get_team_games` and `get_team_stats`.
- **Syncer** (`Sync`). The class `Syncer` holds the database and `min_season`.
  - `sync_season_teams` writes divisions, teams and placed stats.
  - `sync_season_games` stores games until one raises.
  - `sync` walks the seasons from `min_season` and stops after four failures in a row.
- **LiveBarn** (`Livebarn`). `time_in_seconds`, the arithmetic of `_estimate_time`, the rounding
  to the half hour in `get_livebarn_url`, and `add_livebarn_links`, which annotates the goal and
  penalty arrays in place.
- **Links** (`Query`). `util.get_value_from_link`: the query component of the URL is parsed as
  `parse_qsl` does, and the last pair with the key wins.

Python's string operations are modelled in `Text`: `strip`, `split`, `split(sep, 1)`, `replace`,
`int()` and `'%d'`. The model covers the ASCII and Latin-1 characters the scraped pages use; the
differences from Python are listed under "Left out".

Two points where the model follows the code rather than the intent its comments suggest:

- The loop in `get_team_id` (database.py:355-359) compares a row's distance to the target season
  with that row's distance to the season kept so far. It does not compare against the kept row's
  distance to the target. The model does the same (`Store.NearestAsWritten`). It sets this beside
  a true nearest-season choice (`Store.NearestSeason`) and shows two inputs on which they differ.
- `list_season_divisions` takes the season id and name from the last row it fetches. With no
  rows it fails, since `row` is never bound. The model returns an error in that case.

## Model

| member | source | states |
|---|---|---|
| `Rename.RenameRow` | sharks_ice_lib.py:44-55 | the dict `rename` builds is the items of `initial` written in order under their mapped names (`Renamed`) |
| `Rename.RenamedSpec` | sharks_ice_lib.py:44-55 | a new name is present iff some entry maps onto it, and it holds what the last such entry wrote |
| `Rename.RenameKeepsUnmapped` | sharks_ice_lib.py:48 | a key absent from the mapping keeps its name and value, unless another entry is renamed onto it |
| `Rename.RenameDropsNone` | sharks_ice_lib.py:49-50 | a key mapped to None is dropped, unless another entry is renamed onto it |
| `Rename.RenameAppliesFunction` | sharks_ice_lib.py:51-53 | a key mapped to (new_key, func) appears under new_key holding func(value), unless a later entry also writes new_key |
| `Rename.TeamColumnsTable` | sharks_ice_lib.py:25-34 | `team_columns_rename` sends GP, W, T, L, OTL, PTS, Streak and Tie Breaker to gamesPlayed, wins, ties, losses, overtimeLosses, points, streak and tieBreaker; it names no other column; the new names are distinct |
| `Rename.TableRenames` | sharks_ice_lib.py:44-55 | under a mapping that renames a list of columns one to one, on a row with distinct columns and none already carrying a new name, the c-th column's value ends up under the c-th new name |
| `Rename.TableKeepsOthers` | sharks_ice_lib.py:44-55 | under such a mapping, on such a row, every column the mapping does not mention keeps its name and value |
| `Rename.TeamColumnsRenamed` | sharks_ice_lib.py:86-88 | on a standings row with distinct columns, none already carrying a new name, each stat column's value ends up under its new name |
| `Rename.TeamColumnsKeepOthers` | sharks_ice_lib.py:86-88 | on such a row every other column keeps its name and value |
| `Rename.NoLink` | sharks_ice_lib.py:59 | the cell's text, without its link |
| `Rename.NoLinkIntOfNumber` | sharks_ice_lib.py:58 | a cell holding a written integer reads back as that integer, whatever link it carries |
| `Query.LastValueSpec` | util.py:23-24 | the lookup is None iff no pair has the key; otherwise it is the value of a pair with the key after which no pair has it (last occurrence wins) |
| `Query.ParseBuildQuery` | util.py:23 | `parse_qsl` recovers the plain name/value pairs a query string was built from |
| `Query.QueryPartOf` | util.py:22 | only the query component is read: the path before '?' and the fragment after '#' are ignored |
| `Query.NoQueryNoValue` | util.py:22-24 | a link without '?' gives None for every key |
| `Query.ValueFromBuiltLink` | util.py:21-24 | on a link built from plain pairs, `get_value_from_link` is the last value paired with the key, None when absent |
| `Dates.NoonBecomesClock` | util.py:28 | "12 Noon" is rewritten to "12:00 PM" |
| `Dates.ClockUnchanged` | sharks_ice_lib.py:152 | a time cell without 'N' (any "h:mm AM/PM") is not rewritten |
| `Dates.MonthNumberOf` | sharks_ice_lib.py:163 | the month is the 1-based index of its name in MONTHS |
| `Dates.FromDateTimeOfCells` | sharks_ice_lib.py:151-166 | on every well-formed date and time cell, `from_date_time` gives the month number, the day, the minute, and the hour with 12 added for PM hours below 12 (12 PM stays 12, AM unchanged) |
| `Dates.FromDateTimeNoon` | sharks_ice_lib.py:152 | "12 Noon" parses as "12:00 PM" does |
| `Dates.FromDateTimeNoonCell` | sharks_ice_lib.py:152-166 | a game at "12 Noon" starts at hour 12, minute 0 of its day |
| `Dates.FromDateTimeMalformed` | sharks_ice_lib.py:153-161 | a date cell that is not three words, or a time cell that is not two, raises the parse failure |
| `Dates.FromDateTimeUnknownMonth` | sharks_ice_lib.py:162-163 | an unknown month name raises ValueError |
| `Dates.FromPiecesOk` | sharks_ice_lib.py:155-166 | when every piece reads as a number, the result is built from those numbers with the 12-hour rule |
| `Dates.FromStringOfStr` | sharks_ice_lib.py:143-169 | `from_string` splits what `__str__` wrote back into pieces that int() reads as the original month, day, hour and minute |
| `Dates.AsDateCalendar` | sharks_ice_lib.py:171-172 | `as_date` raises ValueError for a year outside 1..9999 or an hour, minute or month out of range; otherwise days 1..28 give that date in every month, Feb 29 exists exactly in leap years, Feb 30 never, day 30 in every other month, day 31 only in the seven long months, and no day outside 1..31 |
| `Dates.GuessYearIsFirstOccurrence` | sharks_ice_lib.py:194-202 | `guess_year` succeeds iff the date exists and is not before the anchor in the anchor's year or the next; the result is in one of those two years, valid, not before the anchor, and in the anchor's year exactly when that year qualifies |
| `Dates.GuessYearRollsOver` | sharks_ice_lib.py:194-202 | same year when that date is valid and not before the anchor; next year when it is before the anchor or does not exist (Feb 29) |
| `Dates.LeapDayAfterLeapYear` | sharks_ice_lib.py:195-199 | Feb 29 against a leap-year anchor from March on raises: the next year lacks Feb 29 too |
| `Dates.GuessYearScenario` | sharks_ice_lib.py:194-202 | concrete instances: a game on the anchor's day stays in its year; a game a day earlier moves to the next year |
| `Standings.Ordinal` | sharks_ice_lib.py:174-181 | the ordinal starts with the number written in decimal and is two characters longer |
| `Standings.OrdinalMatchesDigits` | sharks_ice_lib.py:177-181 | for every n >= 0 the suffix is "th" for a tens digit 1, otherwise "st", "nd", "rd" for a last digit 1, 2, 3, and "th" for anything else |
| `Standings.OrdinalReadsBack` | sharks_ice_lib.py:178-181 | cutting the two-letter suffix off and reading the rest with int() gives n back |
| `Standings.OrdinalOfNegative` | sharks_ice_lib.py:177-181 | a negative n takes, under Python's floor modulo, the suffix the place n % 100 (in 0..99) is written with: -1 reads as 99 and gives "-1th", -9 reads as 91 and gives "-9st" |
| `Standings.OrdinalOfNegativeExamples` | sharks_ice_lib.py:177-181 | ordinal gives -1th, -9st, -8nd, -7rd and -11th |
| `Standings.ScrapeSeasonDivisions` | sharks_ice_lib.py:92-133 | the divisions scraped from the page's rows are the closed blocks plus the last block (`Scrape`), or the first error a division header raises |
| `Standings.SegmentRows` | sharks_ice_lib.py:100-132 | the segmentation loop, for any header reader, computes `Scrape` |
| `Standings.Snoc` | sharks_ice_lib.py:100-122 | one more row: a team row joins the open block; a header closes the open block (as a division only if it holds more than one row) and opens a new one |
| `Standings.LabelStaysFailed` | sharks_ice_lib.py:119-121 | once a header has raised, the whole scrape fails with that error |
| `Standings.LabelAfterDivisionHeader` | sharks_ice_lib.py:116-121 | after an "Adult Division" or "Senior" header, the label is read from that header alone |
| `Standings.HeaderLabelFromLink` | sharks_ice_lib.py:116-121 | such a header whose stats link carries level and conf numbers is labelled with its stripped text and those numbers |
| `Standings.LinkNumberOf` | sharks_ice_lib.py:120-121 | a link value that is a written integer reads as that integer |
| `Standings.LabelAfterOtherRow` | sharks_ice_lib.py:102-104 | team rows and other headers leave the level and ids as they were |
| `Standings.ScrapeAppendBlock` | sharks_ice_lib.py:107-122 | a header followed by team rows adds one division, labelled by the label in force after the header, exactly when it has at least one team |
| `Standings.LabelSkipsTeams` | sharks_ice_lib.py:102-104 | team rows do not change the label |
| `Standings.OpenBlockTakesTeams` | sharks_ice_lib.py:102-104 | team rows extend the open block |
| `Standings.ClosedSkipsTeams` | sharks_ice_lib.py:102-104 | team rows close no division |
| `Standings.TeamsAccounted` | sharks_ice_lib.py:100-122 | during the scan every team row seen is in a closed division or in the open block, in order |
| `Standings.ScrapeKeepsEveryTeam` | sharks_ice_lib.py:100-132 | on a page that starts with a header, the divisions hold every team row, each once, in page order |
| `Standings.LoneHeaderNoDivision` | sharks_ice_lib.py:125-132 | a final header with no team under it adds no division |
| `Standings.MissingLinkFails` | sharks_ice_lib.py:119 | a division header without a link in the next row fails the whole scrape |
| `Schedule.RenameColumn` | sharks_ice_lib.py:246 | `column_rename.get` names a column away_goals only when the header already reads away_goals |
| `Schedule.ParseHeaders` | sharks_ice_lib.py:241-247 | the header loop gives each header its column in turn (`Columns`) |
| `Schedule.AwayGoalsPresent` | sharks_ice_lib.py:244-245 | the columns hold away_goals iff some header is "Goals" |
| `Schedule.HeaderColumnCases` | sharks_ice_lib.py:243-246 | "Goals" becomes away_goals while there is none and home_goals after; any other header goes through `column_rename` |
| `Schedule.GoalsColumns` | sharks_ice_lib.py:241-247 | the first "Goals" header becomes away_goals, every later one home_goals, and every other header its renamed text |
| `Schedule.ZipMap` | sharks_ice_lib.py:257 | the game dict has exactly the columns as keys |
| `Schedule.ZipMapLast` | sharks_ice_lib.py:257 | a column holds the value of its last occurrence |
| `Schedule.CleanCells` | sharks_ice_lib.py:252-253 | every cell is stripped and its double spaces made single, one for one |
| `Schedule.Screen` | sharks_ice_lib.py:258-261 | a row is dropped iff it is a practice or has neither team; a missing column raises; a passing row has a type other than Practice and a team |
| `Schedule.Rewrite` | sharks_ice_lib.py:262-263 | the rink loses "San Jose " and "Adult Division" becomes "Div" in the level; every other column is unchanged; a missing rink or level raises |
| `Schedule.Stamp` | sharks_ice_lib.py:265-268 | the kept game drops date and time and its start_dt comes from them against the anchor; the anchor is the one already set, or the date of this game's id |
| `Schedule.ProcessRowSkips` | sharks_ice_lib.py:250-261 | a row is skipped iff its cell count differs from the columns, it is a practice, or both teams are empty |
| `Schedule.ProcessRowKept` | sharks_ice_lib.py:250-268 | a kept game is the row's dict without date and time, with rink and level rewritten and start_dt from its cells, not a practice and with a team |
| `Schedule.StampOfRewrite` | sharks_ice_lib.py:262-268 | a passing row's dict, rewritten and stamped, keeps every key but date and time, changes only rink and level, and takes start_dt from its date and time cells against the anchor |
| `Schedule.SeasonGames` | sharks_ice_lib.py:239-269 | the games yielded from the header and data rows, with the exception that ends the generator (`GamesFrom`) |
| `Schedule.CollectGames` | sharks_ice_lib.py:249-269 | the row loop yields games in row order until a row raises |
| `Schedule.GamesUseAnchor` | sharks_ice_lib.py:265-268 | once first_game_dt is set, each game yielded is what its row gives under that anchor |
| `Schedule.RowStepKeepsAnchor` | sharks_ice_lib.py:265-268 | first_game_dt is fetched once; every later game is placed in a year against it |
| `Schedule.CleanGameIdSpec` | sharks_ice_lib.py:318 | the cleaned id is the id's characters other than '*' and '^', in order; it holds neither; the other characters keep their counts; cleaning twice equals cleaning once |
| `Schedule.PrepareGame` | sharks_ice_lib.py:306-333 | a missing home_goals, then away_goals, then game_id raises KeyError on that key; then add_game raises TypeError when level, rink, home or away is missing or the game has a season_id; otherwise the stored game has its cleaned id, its own level, rink, home and away, the looked-up team ids (-1 on failure), its start_dt, and every non-argument key in info with its value |
| `Sync.StorableKeys` | sharks_ice_lib.py:309-333 | a game is stored iff it has both goal columns and a game id, has level, rink, home and away, and has no season_id |
| `Schedule.LookupFailureDoesNotAbort` | sharks_ice_lib.py:320-330 | whether a game is stored does not depend on the team lookups; failed lookups give -1 for both ids |
| `Sorting.SortBy` | database.py:256-257 | `list.sort(key=...)` gives a list sorted by the key that is a permutation of the input |
| `Listing.GroupRows` | database.py:239-253 | the grouping loop gives one division per (division_id, conference_id) pair, holding exactly the teams of that pair's rows in row order |
| `Listing.GroupedGroupsRows` | database.py:239-252 | the grouped divisions have distinct keys, each holds its key's teams, and every row's key has a division |
| `Listing.GroupNamedByFirstRow` | database.py:242-248 | each division is named by the first row with its key |
| `Listing.SortTeamLists` | database.py:255-256 | every division keeps its fields and order, and its teams are sorted by name and hold the same teams |
| `Listing.ListedAfterSorting` | database.py:239-257 | after both sorts, the divisions are sorted by name with distinct keys; each division's key is carried by some row and its name is that of the first row with the key; each division's teams are sorted by name and are a permutation of its rows' teams; every row's key has a division |
| `Store.UpsertTable` | database.py:140-143 | INSERT OR REPLACE on TeamStats keeps one row per key, sets this key's stats, and leaves every other key's row unchanged |
| `Store.StatsSeasonsOf` | database.py:352-354 | the (team_id, season_id) rows fetched belong to the matching teams |
| `Store.StatsSeasonsOfRows` | database.py:352-354 | every fetched pair is the (team_id, season_id) of a TeamStats row, and every row of a matching team is fetched |
| `Store.StatsSeasonsOfAppend` | database.py:352-354 | the query keeps table order: two stretches of the table give their pairs one after the other |
| `Store.StatsSeasonsOfRow` | database.py:352-354 | a single row gives its pair iff its team is among those asked for |
| `Store.NearestAsWrittenIsRow` | database.py:355-359 | the row the loop settles on is one of the fetched rows |
| `Store.NearestAsWrittenExact` | database.py:355-359 | a row of exactly the target season is always chosen over rows of other seasons |
| `Store.NearestSeason` | database.py:351 | the reference choice: a fetched row of least distance to the target season |
| `Store.NearestAsWrittenIsNotNearest` | database.py:357-358 | seasons 60 and 100 with target 62: the comparison as written picks 100, the nearest is 60 |
| `Store.NearestAsWrittenTieTakesLater` | database.py:357-358 | seasons 60 and 64 with target 62: the later row wins where the nearest choice keeps the first |
| `Store.ResolveTeamIdNamed` | database.py:338-359 | for a non-empty name, the id returned is that of a team with exactly that name |
| `Store.ResolveTeamId` | database.py:338-359 | -1 for an empty name; an error when no team has the name; that team's id when exactly one has it; otherwise the team of the row the comparison loop settles on, or an error when no stats row matches |
| `Store.JoinRows` | database.py:224-238 | any join row means the requested season exists; every row is of that season and carries its name |
| `Store.JoinRowsKeys` | database.py:224-238 | every join row comes from a TeamStats row and carries its season, division, conference and team ids |
| `Store.JoinRowsDistinct` | database.py:224-238 | with one TeamStats row per key, the join rows are pairwise distinct, so `SELECT DISTINCT` removes none |
| `Store.Database.constructor` | database.py:24-85 | an empty store satisfying the one-row-per-key invariant |
| `Store.Database.AddSeason` | database.py:87-92 | the Seasons row of that id is replaced; no other table changes |
| `Store.Database.AddDivision` | database.py:94-109 | the Divisions row of (id, conference_id) is replaced; no other table changes |
| `Store.Database.AddTeam` | database.py:111-127 | the Teams row of that id is replaced; no other table changes |
| `Store.Database.SetTeamStats` | database.py:129-159 | the TeamStats row of its four-part key is replaced and moves to the end of table order; one row per key is kept; other keys' rows are unchanged |
| `Store.Database.AddGame` | database.py:161-206 | the whole Games row is replaced, so its stats become NULL; no other table changes |
| `Store.Database.AddGameStats` | database.py:208-216 | only that game's stats change; no row is added for an absent id |
| `Store.Database.GetCurrentSeason` | database.py:219-221 | the maximum Season id, NULL for an empty table |
| `Store.Database.GetTeamId` | database.py:338-359 | the lookup loop (with `nearest` updated as written) returns `ResolveTeamId` |
| `Store.Database.ListSeasonDivisions` | database.py:223-262 | on a store with one TeamStats row per key (where `SELECT DISTINCT` changes nothing): fails iff the season has no join rows; otherwise that season's id and name, with one division per key the rows carry, named by its first row, holding that key's teams sorted by name, the divisions sorted by name |
| `Store.Database.TeamGames` | database.py:264-296 | nothing for an empty team list; otherwise exactly the games from min_season on in which one of the teams plays, each summary carrying its Games row's start, rink, level, teams and team ids |
| `Store.Database.TeamStatsOf` | database.py:298-329 | nothing for an empty team list; otherwise exactly the season's stats rows of the teams whose season, team and division exist: every record carries the team's name, the season's name, and the division name and stats of one such TeamStats row of that team, and every such row gives its record |
| `Sync.UpsertAllTable` | sharks_ice_lib.py:291-297 | the set_team_stats calls keep one row per key and write each row's stats over the table in order |
| `Sync.WrittenOverLast` | sharks_ice_lib.py:291-297 | a key written several times holds its last write |
| `Sync.WrittenOverOther` | sharks_ice_lib.py:291-297 | a key not written keeps what it had |
| `Sync.PlaceOfTeam` | sharks_ice_lib.py:283-297 | with distinct team ids, every team's stored stats are its scraped row with place = ordinal of its 1-based position, which reads back as that position |
| `Sync.PlaceOfTeamBy` | sharks_ice_lib.py:283-290 | the same for any place writer |
| `Sync.PrepareInStorable` | sharks_ice_lib.py:320-330 | whether a game is stored does not depend on the database it is looked up in |
| `Sync.PreparedUntilSpec` | sharks_ice_lib.py:306-337 | storing stops iff some game raises, and there with that error; with no error every game is stored in order as its record |
| `Sync.PreparedUntilStops` | sharks_ice_lib.py:306-333 | once a game has raised, later games change nothing |
| `Sync.StopAtWindow` | sharks_ice_lib.py:345-352 | the loop stops at an offset of at least 4 whose four preceding seasons all failed |
| `Sync.StopAtFrom` | sharks_ice_lib.py:345-358 | the loop stops within four seasons past the scraped ones |
| `Sync.SyncedFromSpec` | sharks_ice_lib.py:345-358 | the seasons synced from a point are exactly the successful ones before the stop, in increasing order |
| `Sync.SyncStops` | sharks_ice_lib.py:342-358 | `sync` stops at the first offset p >= 4 whose four preceding seasons all failed (every earlier one has a success among its four predecessors); it syncs exactly the successful seasons before p, in increasing order |
| `Sync.Syncer.constructor` | sharks_ice_lib.py:206-208 | the Syncer holds the given database and min_season 0 |
| `Sync.Syncer.SetMinSeason` | sharks_ice_lib.py:339-340 | sets min_season and nothing else |
| `Sync.Syncer.SyncSeasonTeams` | sharks_ice_lib.py:271-297 | raises and writes nothing when the scrape fails or finds no division; otherwise the divisions, teams and placed stats of every division are written in order |
| `Sync.Syncer.StoreDivisions` | sharks_ice_lib.py:277-297 | the division loop writes the divisions, teams and stats of each division in turn |
| `Sync.Syncer.StoreDivision` | sharks_ice_lib.py:278-297 | one division: its Divisions row, its teams, and one stats row per team with place |
| `Sync.Syncer.StoreGame` | sharks_ice_lib.py:309-334 | one game: the prepared record is added to Games, or the error is raised with Games unchanged |
| `Sync.Syncer.SyncSeasonGames` | sharks_ice_lib.py:299-337 | succeeds iff every game can be stored and the schedule ends without error, returning the number of games; Games holds the records up to the first error |
| `Sync.Syncer.StoreGames` | sharks_ice_lib.py:306-334 | the game loop stores records in order until one raises |
| `Sync.Syncer.SyncSeason` | sharks_ice_lib.py:348-358 | the teams sync iff the scrape gave divisions, and then the divisions, teams and placed stats are written and the season's games stored up to the first error, looked up in the updated tables; otherwise nothing changes |
| `Sync.Syncer.SyncOffset` | sharks_ice_lib.py:348-358 | one pass on season min_season + idx: the teams sync iff that season's scrape gave divisions, the pass fails iff they sync and its games cannot all be stored, and a failed team sync changes nothing |
| `Sync.Syncer.Sync` | sharks_ice_lib.py:342-358 | succeeds iff every season it reaches has storable games, and then returns the ids of the seasons synced: min_season plus exactly the successful offsets before four failures in a row |
| `Livebarn.ClockOfNumbers` | livebarn.py:12-20 | for any number reader, "ss" gives ss and "mm:ss" gives 60*mm + ss |
| `Livebarn.MinutesAndSeconds` | livebarn.py:12-20 | `time_in_seconds("ss")` is ss and `time_in_seconds("mm:ss")` is 60*mm + ss |
| `Livebarn.ClockFails` | livebarn.py:13-20 | the clock is rejected iff one of its parts does not read as a number |
| `Livebarn.TimeInSecondsFails` | livebarn.py:13 | `time_in_seconds` raises exactly when a part is not a number |
| `Livebarn.EstimateFormula` | livebarn.py:28-36 | the estimate arithmetic is start + 5 min + (period - 1) * P + (P - remaining), P the period length in seconds |
| `Livebarn.EstimateAtFaceOff` | livebarn.py:30-35 | period 1 with the full period remaining is exactly start + 5 min |
| `Livebarn.EstimateMonotone` | livebarn.py:35 | within a period, less time remaining gives a later estimate |
| `Livebarn.EstimateNextPeriod` | livebarn.py:33 | one period later adds P |
| `Livebarn.LivebarnUrl` | livebarn.py:50-55 | an unknown rink fails; otherwise the rink's sid from LIVEBARN_RINKS and a begin minute on a half hour, not later than the input and less than 30 minutes before it |
| `Livebarn.HalfHourBackBounds` | livebarn.py:52-53 | the instant moved back starts on a half hour, at most the instant itself and less than 30 minutes before it |
| `Livebarn.LivebarnUrlOnHalfHour` | livebarn.py:52-53 | an instant already on a half hour keeps its minute |
| `Livebarn.Annotate` | livebarn.py:41-42 | an event gets a link iff its clock reads and the rink is known; its other fields are kept |
| `Livebarn.AnnotateLink` | livebarn.py:41-42 | the link points at the rink's surface, at the half hour at or before the event's estimated time |
| `Livebarn.AnnotateAll` | livebarn.py:40-47 | every event of the array is annotated in place; the first event that raises stops the loop, with the events before it annotated and the rest untouched |
| `Livebarn.AddLivebarnLinks` | livebarn.py:38-47 | every goal (by its time) and then every penalty (by its off-ice time) gets its link, written in place; lengths and other fields are kept; the first goal that raises gives its error, with the goals before it annotated and the rest of the goals and all penalties untouched; when every goal annotates, they all keep their links and the first penalty that raises gives its error, with the penalties before it annotated and the rest untouched |

## Left out

- SQLite mechanics are not modelled. That covers SQL text, connections, commits and `lastrowid`.
  The tables are maps, plus a sequence for TeamStats.
- A query's row order is taken to be table order. This is an assumption of the model, not a
  promise of SQLite: a SELECT without ORDER BY may return rows in index order (for the TeamStats
  query of `get_team_id`, the primary key's season order). `Store.NearestAsWrittenIsRow` and
  `Store.NearestAsWrittenExact` hold for any order; which row the comparison loop settles on
  otherwise depends on it.
- Constraint checking is not modelled, and on the schema `create_tables` builds it changes what
  the code does:
  - `Games.start_time` is `TEXT NOT NULL` (database.py:70), but `add_game` never inserts that
    column (database.py:176-188). Every `add_game` therefore raises on that schema.
  - `PRAGMA foreign_keys = 1` is set (database.py:15), and TeamStats and Games reference
    `Seasons(id)` (database.py:60, 80). Nothing in the code calls `add_season`. So
    `set_team_stats` raises "Failed to add TeamStats" (database.py:145-157) for a season without
    a Seasons row; `sync_season_teams` then fails and `sync` counts that season as failed.
  - The success paths of `Sync.Syncer.SyncSeasonTeams`, `Sync.Syncer.SyncSeasonGames` and
    `Sync.Syncer.Sync` are therefore the behaviour of the code on a store without those
    constraints.
- `Text.IsSpace` covers Python's whitespace only in the ASCII and Latin-1 range. `str.strip` and
  `str.split` also treat U+1680, U+2000 to U+200A, U+2028, U+2029, U+202F, U+205F and U+3000
  as whitespace; the model does not.
- `Text.ParseInt` reads only ASCII digits without separators. Python's `int()` also accepts
  underscores between digits ("1_000") and non-ASCII decimal digits; the model rejects them.
- Games rows are keyed by the cleaned game id as text. In the schema `Games.id` is an `INTEGER`
  primary key (database.py:67, 79), an alias of SQLite's rowid. The model therefore does not
  capture three things: that "0123" and "123" name the same row, that a non-numeric id fails
  with a datatype mismatch, and that `get_team_games` returns the id as an integer.
- JSON serialisation is not modelled. A JSON object is a map from member name to value text.
  The `start_dt.timestamp() * 1000` float (database.py:196) is not computed; the model stores the
  start datetime.
- Network and browser access is not modelled: `util.get_html`, the Selenium driver of
  `get_season_games` and `sync_season_games`, and the fetch inside `get_game_dt`. Pages are
  inputs instead:
  - standings rows, as `Standings.Row`;
  - schedule header and rows, as strings;
  - the date page of a game id, as the function parameter `gameDate`;
  - for `Sync.Syncer.Sync`, one scrape result and one schedule per season.
- `pandas.read_html` and the regex id extraction of `_parse_division_teams` are not modelled. A
  team row is an abstract record, and for the Syncer a record that already carries its id, name
  and stats row.
- `Sync.Syncer.Sync` does not model the `lookback` keyword. `sync` passes it to
  `sync_season_games`, which does not accept it (sharks_ice_lib.py:354 against 299), so every
  `sync` that reaches a game sync raises TypeError. The model calls the games sync as if that
  argument were not passed.
- The float and None branches of the goal cleanup (sharks_ice_lib.py:309-316) are not modelled.
  The schedule cells are always strings, so those branches never apply. A game without a goal
  column raises KeyError, as in the code.
- Fractional seconds are not modelled. `Livebarn.TimeInSeconds` reads whole numbers where the
  code calls `float()`. `float()` spellings such as "1.5", "1e2" and "inf" are not read.
- `Livebarn.LivebarnUrl` returns a structured link (begin minute and surface id), not the text
  `strftime` and `str.format` produce. Instants are whole seconds.
- `Livebarn.AddLivebarnLinks` takes the game's rink as a parameter rather than reading
  `data['rink']`.
- `parse_game_time` is modelled only for its "12 Noon" rewrite (`Dates.NoonToClock`). Its
  default of the current year reads the wall clock, and `strptime` is left out.
- `util.cache_json` is not modelled: it uses the filesystem and the wall clock.
- Percent-decoding in `parse_qsl` is treated as the identity. Only '+' is decoded (to a space).
- Console output (`print`) is not modelled.
- Some operations are stated over a function parameter as well as over the concrete function:
  - `Standings.SegmentRows` over the header reader;
  - `Schedule.CollectGames` over the row step;
  - `Sync.Syncer.StoreDivisions` over the place writer;
  - `Sync.Syncer.StoreGames` over the game preparer;
  - `Livebarn.AnnotateAll` over the annotator;
  - `Livebarn.ClockOfNumbers` over the number reader.

  Their callers pass the concrete function (`HeaderLabel`,
  `RowStepOf`, `Ordinal`, `PrepareIn`, `Annotate`, `ParseInt`), so the top-level contracts are
  about the code's own behaviour.
- `Sorting.SortBy` states sortedness and permutation but not stability. `list.sort` is stable,
  and the model's insertion sort is too, but no contract says so.
- Python dict insertion order is not modelled. Maps are unordered, so the order of keys in a
  stored JSON object is not stated.
- The Seasons table is never written by the Syncer, as in the code. `Sync.Syncer.Sync` leaves it
  unchanged.
- `Sync.Syncer.Sync` states its outcome, the seasons it syncs and that Seasons is unchanged. It
  does not state the contents of the other tables after the whole walk. What each pass writes is
  stated by `Sync.Syncer.SyncSeason`.
- `Sync.Syncer.SyncOffset` states the tables only after a failed team sync. When the teams
  sync, what the pass writes is stated by `Sync.Syncer.SyncSeason`, which it calls.
