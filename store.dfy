/** The SQLite store of database.py. Every table written with INSERT OR REPLACE becomes a map
    from its primary key to the rest of its row, except TeamStats, which keeps its rows in table
    order because get_team_id depends on the order in which its query returns them. */
module Store {
  import opened Wrappers
  import opened Dates
  import opened Sorting
  import opened Listing

  /** A JSON object kept in a TEXT column: its member names and their serialised values. */
  type Payload = map<string, string>

  datatype StatsKey = StatsKey(seasonId: int, divisionId: int, conferenceId: int, teamId: int)

  datatype StatsRow = StatsRow(key: StatsKey, stats: Payload)

  /** A Games row; stats is NULL until add_game_stats writes it. */
  datatype Game = Game(seasonId: int, level: string, startDt: DateTime, rink: string,
                       home: string, homeId: int, away: string, awayId: int,
                       info: Payload, stats: Option<Payload>)

  datatype SeasonListing = SeasonListing(seasonId: int, seasonName: string, divisions: seq<DivisionGroup>)

  datatype GameSummary = GameSummary(gameId: string, startDt: DateTime, rink: string, level: string,
                                     home: string, homeId: int, away: string, awayId: int)

  datatype TeamSeasonStats = TeamSeasonStats(teamId: int, name: string, season: string, seasonId: int,
                                             level: string, stats: Payload)

  datatype LookupError =
    | NoTeamNamed(name: string)  // "No team named ..."
    | NoStatsRows                // rows[0] of an empty result: IndexError

  datatype ListingError = NoRows  // `row` is never bound when the join is empty

  // ---------------------------------------------------------------------------
  // TeamStats as an ordered table

  predicate DistinctStatsKeys(rows: seq<StatsRow>) {
    forall i, j :: 0 <= i < j < |rows| ==> rows[i].key != rows[j].key
  }

  /** The rows whose key differs from `key`, in order. */
  function WithoutKey(rows: seq<StatsRow>, key: StatsKey): (r: seq<StatsRow>)
    ensures forall i :: 0 <= i < |r| ==> r[i].key != key && r[i] in rows
    ensures forall i :: 0 <= i < |rows| && rows[i].key != key ==> rows[i] in r
    decreases |rows|
  {
    if rows == [] then []
    else
      var front := WithoutKey(rows[..|rows| - 1], key);
      if rows[|rows| - 1].key == key then front else front + [rows[|rows| - 1]]
  }

  /** INSERT OR REPLACE on TeamStats: the row with that key is deleted and the new one appended. */
  function Upsert(rows: seq<StatsRow>, row: StatsRow): seq<StatsRow> {
    WithoutKey(rows, row.key) + [row]
  }

  /** The table as a map from primary key to stats. */
  function StatsTable(rows: seq<StatsRow>): map<StatsKey, Payload>
    decreases |rows|
  {
    if rows == [] then map[]
    else StatsTable(rows[..|rows| - 1])[rows[|rows| - 1].key := rows[|rows| - 1].stats]
  }

  lemma {:induction false} WithoutKeyDistinct(rows: seq<StatsRow>, key: StatsKey)
    requires DistinctStatsKeys(rows)
    ensures DistinctStatsKeys(WithoutKey(rows, key))
    decreases |rows|
  {
    if rows != [] {
      var n := |rows| - 1;
      var front := rows[..n];
      assert DistinctStatsKeys(front);
      WithoutKeyDistinct(front, key);
      var w := WithoutKey(front, key);
      forall i | 0 <= i < |w|
        ensures w[i].key != rows[n].key
      {
        var m :| 0 <= m < n && front[m] == w[i];
      }
    }
  }

  lemma {:induction false} WithoutKeyTable(rows: seq<StatsRow>, key: StatsKey)
    requires DistinctStatsKeys(rows)
    ensures StatsTable(WithoutKey(rows, key)) == map k | k in StatsTable(rows) && k != key :: StatsTable(rows)[k]
    decreases |rows|
  {
    if rows != [] {
      var n := |rows| - 1;
      var front := rows[..n];
      assert DistinctStatsKeys(front);
      WithoutKeyTable(front, key);
    }
  }

  /** INSERT OR REPLACE keeps one row per key, sets the stats of its key and leaves every other
      key's row as it was. */
  lemma UpsertTable(rows: seq<StatsRow>, row: StatsRow)
    requires DistinctStatsKeys(rows)
    ensures DistinctStatsKeys(Upsert(rows, row))
    ensures StatsTable(Upsert(rows, row)) == StatsTable(rows)[row.key := row.stats]
  {
    WithoutKeyDistinct(rows, row.key);
    WithoutKeyTable(rows, row.key);
    var w := WithoutKey(rows, row.key);
    assert Upsert(rows, row)[..|w|] == w;
  }

  /** The (team_id, season_id) of a stats row. */
  function TeamSeason(row: StatsRow): (int, int) {
    (row.key.teamId, row.key.seasonId)
  }

  /** The (team_id, season_id) of the rows for those teams, in table order. */
  function StatsSeasonsOf(rows: seq<StatsRow>, ids: set<int>): (r: seq<(int, int)>)
    ensures forall i :: 0 <= i < |r| ==> r[i].0 in ids
    decreases |rows|
  {
    if rows == [] then []
    else
      var k := rows[|rows| - 1].key;
      StatsSeasonsOf(rows[..|rows| - 1], ids) + (if k.teamId in ids then [TeamSeason(rows[|rows| - 1])] else [])
  }

  /** Each fetched pair is the pair of a row of one of those teams, and every such row's pair is
      fetched. */
  lemma {:induction false} StatsSeasonsOfRows(rows: seq<StatsRow>, ids: set<int>)
    ensures forall i :: 0 <= i < |StatsSeasonsOf(rows, ids)| ==>
              exists j :: 0 <= j < |rows| && StatsSeasonsOf(rows, ids)[i] == TeamSeason(rows[j])
    ensures forall j :: 0 <= j < |rows| && rows[j].key.teamId in ids ==> TeamSeason(rows[j]) in StatsSeasonsOf(rows, ids)
    decreases |rows|
  {
    if rows != [] {
      var n := |rows| - 1;
      StatsSeasonsOfRows(rows[..n], ids);
      var front := StatsSeasonsOf(rows[..n], ids);
      var r := StatsSeasonsOf(rows, ids);
      assert r == front + (if rows[n].key.teamId in ids then [TeamSeason(rows[n])] else []);
      forall i | 0 <= i < |r|
        ensures exists j :: 0 <= j < |rows| && r[i] == TeamSeason(rows[j])
      {
        if i < |front| {
          assert exists j :: 0 <= j < |rows[..n]| && front[i] == TeamSeason(rows[..n][j]);
          var j :| 0 <= j < |rows[..n]| && front[i] == TeamSeason(rows[..n][j]);
          assert r[i] == TeamSeason(rows[j]);
        } else {
          assert r[i] == TeamSeason(rows[n]);
        }
        assert exists j :: 0 <= j < |rows| && StatsSeasonsOf(rows, ids)[i] == TeamSeason(rows[j]);
      }
      forall j | 0 <= j < |rows| && rows[j].key.teamId in ids
        ensures TeamSeason(rows[j]) in r
      {
        if j < n {
          assert rows[..n][j] == rows[j];
          assert TeamSeason(rows[j]) in front;
        } else {
          assert r[|front|] == TeamSeason(rows[n]);
        }
      }
    } else {
      assert StatsSeasonsOf(rows, ids) == [];
    }
  }

  /** The query keeps table order: the pairs of two stretches of the table, one after the other,
      are the pairs of the first stretch followed by those of the second. */
  lemma {:induction false} StatsSeasonsOfAppend(a: seq<StatsRow>, b: seq<StatsRow>, ids: set<int>)
    ensures StatsSeasonsOf(a + b, ids) == StatsSeasonsOf(a, ids) + StatsSeasonsOf(b, ids)
    decreases |b|
  {
    if b == [] {
      assert a + b == a;
    } else {
      var n := |b| - 1;
      assert (a + b)[..|a + b| - 1] == a + b[..n];
      assert (a + b)[|a + b| - 1] == b[n];
      StatsSeasonsOfAppend(a, b[..n], ids);
    }
  }

  /** One row on its own gives its pair iff its team is one of those asked for. */
  lemma StatsSeasonsOfRow(row: StatsRow, ids: set<int>)
    ensures StatsSeasonsOf([row], ids) == if row.key.teamId in ids then [TeamSeason(row)] else []
  {
    assert [row][..0] == [];
  }

  /** A non-empty set has a member. */
  lemma SomeMember(s: set<int>)
    requires s != {}
    ensures exists x :: x in s
  {
    if forall x :: x !in s {
      assert false;
    }
  }

  /** The one member of a singleton set. */
  ghost function TheMember(s: set<int>): (x: int)
    requires |s| == 1
    ensures s == {x}
  {
    SomeMember(s);
    var x :| x in s;
    var others := s - {x};
    assert s == others + {x};
    assert |others| == 0;
    assert others == {};
    x
  }

  function Abs(x: int): nat {
    if x < 0 then -x else x
  }

  /** The row get_team_id settles on: the first row, replaced by each later row that is closer
      to the target season than to the season of the row kept so far. */
  function NearestAsWritten(rows: seq<(int, int)>, target: int): (int, int)
    requires rows != []
    decreases |rows|
  {
    if |rows| == 1 then rows[0]
    else
      var nearest := NearestAsWritten(rows[..|rows| - 1], target);
      var row := rows[|rows| - 1];
      if Abs(row.1 - target) < Abs(row.1 - nearest.1) then row else nearest
  }

  lemma {:induction false} NearestAsWrittenIsRow(rows: seq<(int, int)>, target: int)
    requires rows != []
    ensures NearestAsWritten(rows, target) in rows
    decreases |rows|
  {
    if |rows| > 1 {
      NearestAsWrittenIsRow(rows[..|rows| - 1], target);
    }
  }

  /** A row of exactly the target season is always chosen over rows of other seasons. */
  lemma {:induction false} NearestAsWrittenExact(rows: seq<(int, int)>, target: int, i: nat)
    requires i < |rows| && rows[i].1 == target
    ensures NearestAsWritten(rows, target).1 == target
    decreases |rows|
  {
    if |rows| > 1 {
      var n := |rows| - 1;
      if i < n {
        NearestAsWrittenExact(rows[..n], target, i);
      }
    }
  }

  /** The first row of least distance to the target season: what choosing "the nearest season"
      would mean. */
  function NearestSeason(rows: seq<(int, int)>, target: int): (r: (int, int))
    requires rows != []
    ensures r in rows
    ensures forall i :: 0 <= i < |rows| ==> Abs(r.1 - target) <= Abs(rows[i].1 - target)
    decreases |rows|
  {
    if |rows| == 1 then rows[0]
    else
      var best := NearestSeason(rows[..|rows| - 1], target);
      var row := rows[|rows| - 1];
      if Abs(row.1 - target) < Abs(best.1 - target) then row else best
  }

  /** The comparison as written is not a nearest-season test: with seasons 60 and 100 and target
      62, the row of season 100 replaces the nearer row of season 60. */
  lemma NearestAsWrittenIsNotNearest()
    ensures NearestAsWritten([(1, 60), (2, 100)], 62) == (2, 100)
    ensures NearestSeason([(1, 60), (2, 100)], 62) == (1, 60)
  {
    assert [(1, 60), (2, 100)][..1] == [(1, 60)];
  }

  /** Nor does it keep the earlier of two equally near rows: with seasons 60 and 64 and target
      62, the later row wins. */
  lemma NearestAsWrittenTieTakesLater()
    ensures NearestAsWritten([(1, 60), (2, 64)], 62) == (2, 64)
    ensures NearestSeason([(1, 60), (2, 64)], 62) == (1, 60)
  {
    assert [(1, 60), (2, 64)][..1] == [(1, 60)];
  }

  /** The ids of the teams with exactly that name. */
  function TeamsNamed(teams: map<int, string>, name: string): set<int>
  {
    set id | id in teams && teams[id] == name
  }

  /** get_team_id: -1 for an empty name, an error when no team has the name, the id when one
      team has it, and otherwise the team of the stats row the comparison loop settles on. */
  ghost function ResolveTeamId(teams: map<int, string>, teamStats: seq<StatsRow>, name: string, seasonId: int): (r: Result<int, LookupError>)
    ensures name == "" ==> r == Ok(-1)
    ensures name != "" && TeamsNamed(teams, name) == {} ==> r == Err(NoTeamNamed(name))
    ensures name != "" && |TeamsNamed(teams, name)| == 1 ==> r.Ok? && TeamsNamed(teams, name) == {r.value}
    ensures name != "" && |TeamsNamed(teams, name)| >= 2 ==>
              var rows := StatsSeasonsOf(teamStats, TeamsNamed(teams, name));
              if rows == [] then r == Err(NoStatsRows) else r == Ok(NearestAsWritten(rows, seasonId).0)
  {
    var ids := TeamsNamed(teams, name);
    if name == "" then Ok(-1)
    else if |ids| == 0 then Err(NoTeamNamed(name))
    else if |ids| == 1 then Ok(TheMember(ids))
    else
      var rows := StatsSeasonsOf(teamStats, ids);
      if rows == [] then Err(NoStatsRows) else Ok(NearestAsWritten(rows, seasonId).0)
  }

  /** For a non-empty name, the id get_team_id returns is that of a team with that name. */
  lemma ResolveTeamIdNamed(teams: map<int, string>, teamStats: seq<StatsRow>, name: string, seasonId: int)
    requires name != "" && ResolveTeamId(teams, teamStats, name, seasonId).Ok?
    ensures ResolveTeamId(teams, teamStats, name, seasonId).value in TeamsNamed(teams, name)
    ensures var id := ResolveTeamId(teams, teamStats, name, seasonId).value;
            id in teams && teams[id] == name
  {
    var ids := TeamsNamed(teams, name);
    if |ids| >= 2 {
      var rows := StatsSeasonsOf(teamStats, ids);
      NearestAsWrittenIsRow(rows, seasonId);
    }
  }

  /** The join row of one TeamStats row: present when the row is of the requested season and its
      season, division and team exist. */
  function TeamOfJoin(seasons: map<int, string>, divisions: map<(int, int), string>,
                      teams: map<int, string>, row: StatsRow, seasonId: int): (r: Option<JoinRow>)
    ensures r.Some? ==> (&& r.value.seasonId == seasonId && seasonId in seasons
                         && r.value.seasonName == seasons[seasonId] && r.value.teamId == row.key.teamId)
  {
    var k := row.key;
    if k.seasonId == seasonId && k.seasonId in seasons && (k.divisionId, k.conferenceId) in divisions
       && k.teamId in teams
    then Some(JoinRow(k.seasonId, seasons[k.seasonId], k.divisionId, k.conferenceId,
                      divisions[(k.divisionId, k.conferenceId)], k.teamId, teams[k.teamId]))
    else None
  }

  /** The rows of the join in list_season_divisions: one per TeamStats row of the season whose
      division, season and team exist. */
  function JoinRows(seasons: map<int, string>, divisions: map<(int, int), string>,
                    teams: map<int, string>, rows: seq<StatsRow>, seasonId: int): (r: seq<JoinRow>)
    ensures r != [] ==> seasonId in seasons
    ensures forall i :: 0 <= i < |r| ==> r[i].seasonId == seasonId && r[i].seasonName == seasons[seasonId]
    decreases |rows|
  {
    if rows == [] then []
    else
      var j := TeamOfJoin(seasons, divisions, teams, rows[|rows| - 1], seasonId);
      var front := JoinRows(seasons, divisions, teams, rows[..|rows| - 1], seasonId);
      if j.None? then front
      else
        var r := front + [j.value];
        assert forall i :: 0 <= i < |front| ==> r[i] == front[i];
        assert r[|front|] == j.value;
        r
  }

  /** The summary get_team_games gives of a Games row. */
  function Summary(id: string, g: Game): GameSummary {
    GameSummary(id, g.startDt, g.rink, g.level, g.home, g.homeId, g.away, g.awayId)
  }

  /** The TeamStats key a join row was made from. */
  function JoinKey(j: JoinRow): StatsKey {
    StatsKey(j.seasonId, j.divisionId, j.conferenceId, j.teamId)
  }

  /** Each join row carries the key of one of the rows. */
  predicate KeysFrom(r: seq<JoinRow>, rows: seq<StatsRow>) {
    forall i :: 0 <= i < |r| ==> exists j :: 0 <= j < |rows| && JoinKey(r[i]) == rows[j].key
  }

  predicate DistinctJoinRows(r: seq<JoinRow>) {
    forall i, k :: 0 <= i < k < |r| ==> r[i] != r[k]
  }

  /** Every join row is made from one of the TeamStats rows, and keeps its key. */
  lemma {:induction false} JoinRowsKeys(seasons: map<int, string>, divisions: map<(int, int), string>,
                                        teams: map<int, string>, rows: seq<StatsRow>, seasonId: int)
    ensures KeysFrom(JoinRows(seasons, divisions, teams, rows, seasonId), rows)
    decreases |rows|
  {
    if rows != [] {
      var n := |rows| - 1;
      JoinRowsKeys(seasons, divisions, teams, rows[..n], seasonId);
      var front := JoinRows(seasons, divisions, teams, rows[..n], seasonId);
      var r := JoinRows(seasons, divisions, teams, rows, seasonId);
      var t := TeamOfJoin(seasons, divisions, teams, rows[n], seasonId);
      assert r == if t.None? then front else front + [t.value];
      forall i | 0 <= i < |r|
        ensures exists j :: 0 <= j < |rows| && JoinKey(r[i]) == rows[j].key
      {
        if i < |front| {
          var j :| 0 <= j < |rows[..n]| && JoinKey(front[i]) == rows[..n][j].key;
          assert r[i] == front[i] && rows[..n][j] == rows[j];
        } else {
          assert JoinKey(r[i]) == rows[n].key;
        }
      }
    }
  }

  /** With one TeamStats row per key, the join rows are pairwise distinct, so the SELECT DISTINCT
      of list_season_divisions removes none of them. */
  lemma {:induction false} JoinRowsDistinct(seasons: map<int, string>, divisions: map<(int, int), string>,
                                            teams: map<int, string>, rows: seq<StatsRow>, seasonId: int)
    requires DistinctStatsKeys(rows)
    ensures DistinctJoinRows(JoinRows(seasons, divisions, teams, rows, seasonId))
    decreases |rows|
  {
    if rows != [] {
      var n := |rows| - 1;
      assert DistinctStatsKeys(rows[..n]);
      JoinRowsDistinct(seasons, divisions, teams, rows[..n], seasonId);
      JoinRowsKeys(seasons, divisions, teams, rows[..n], seasonId);
      var front := JoinRows(seasons, divisions, teams, rows[..n], seasonId);
      var r := JoinRows(seasons, divisions, teams, rows, seasonId);
      var t := TeamOfJoin(seasons, divisions, teams, rows[n], seasonId);
      if t.Some? {
        assert r == front + [t.value];
        assert JoinKey(t.value) == rows[n].key;
        forall i | 0 <= i < |front|
          ensures front[i] != t.value
        {
          var j :| 0 <= j < |rows[..n]| && JoinKey(front[i]) == rows[..n][j].key;
          assert rows[..n][j] == rows[j];
        }
        forall i, k | 0 <= i < k < |r|
          ensures r[i] != r[k]
        {
          if k < |front| {
            assert r[i] == front[i] && r[k] == front[k];
          } else {
            assert r[i] == front[i] && r[k] == t.value;
          }
        }
      }
    }
  }

  class Database {
    var seasons: map<int, string>
    var divisions: map<(int, int), string>
    var teams: map<int, string>
    var teamStats: seq<StatsRow>
    var games: map<string, Game>

    /** TeamStats holds at most one row per primary key. */
    ghost predicate Valid()
      reads this
    {
      DistinctStatsKeys(teamStats)
    }

    /** A freshly created database: create_tables on an empty file. */
    constructor ()
      ensures Valid()
      ensures seasons == map[] && divisions == map[] && teams == map[] && teamStats == [] && games == map[]
    {
      seasons := map[];
      divisions := map[];
      teams := map[];
      teamStats := [];
      games := map[];
    }

    method AddSeason(seasonId: int, name: string)
      modifies this
      ensures seasons == old(seasons)[seasonId := name]
      ensures divisions == old(divisions) && teams == old(teams) && teamStats == old(teamStats) && games == old(games)
    {
      seasons := seasons[seasonId := name];
    }

    method AddDivision(divisionId: int, conferenceId: int, name: string)
      modifies this
      ensures divisions == old(divisions)[(divisionId, conferenceId) := name]
      ensures seasons == old(seasons) && teams == old(teams) && teamStats == old(teamStats) && games == old(games)
    {
      divisions := divisions[(divisionId, conferenceId) := name];
    }

    method AddTeam(teamId: int, name: string)
      modifies this
      ensures teams == old(teams)[teamId := name]
      ensures seasons == old(seasons) && divisions == old(divisions) && teamStats == old(teamStats) && games == old(games)
    {
      teams := teams[teamId := name];
    }

    /** Replaces the stats row of (season, division, conference, team): the table keeps one row
        per key, exactly this key's stats change, and the new row is the last in table order. */
    method SetTeamStats(seasonId: int, divisionId: int, conferenceId: int, teamId: int, stats: Payload)
      requires Valid()
      modifies this
      ensures Valid()
      ensures teamStats == Upsert(old(teamStats), StatsRow(StatsKey(seasonId, divisionId, conferenceId, teamId), stats))
      ensures StatsTable(teamStats) == old(StatsTable(teamStats))[StatsKey(seasonId, divisionId, conferenceId, teamId) := stats]
      ensures seasons == old(seasons) && divisions == old(divisions) && teams == old(teams) && games == old(games)
    {
      var row := StatsRow(StatsKey(seasonId, divisionId, conferenceId, teamId), stats);
      UpsertTable(teamStats, row);
      teamStats := Upsert(teamStats, row);
    }

    /** Replaces the whole Games row: stats is not among the inserted columns, so any stats stored
        for that id are gone. */
    method AddGame(gameId: string, seasonId: int, level: string, startDt: DateTime, rink: string,
                   home: string, homeId: int, away: string, awayId: int, info: Payload)
      modifies this
      ensures games == old(games)[gameId := Game(seasonId, level, startDt, rink, home, homeId, away, awayId, info, None)]
      ensures seasons == old(seasons) && divisions == old(divisions) && teams == old(teams) && teamStats == old(teamStats)
    {
      games := games[gameId := Game(seasonId, level, startDt, rink, home, homeId, away, awayId, info, None)];
    }

    /** UPDATE of one column: only the row with that id changes, and no row is added. */
    method AddGameStats(gameId: string, stats: Payload)
      modifies this
      ensures gameId in old(games) ==> games == old(games)[gameId := old(games)[gameId].(stats := Some(stats))]
      ensures gameId !in old(games) ==> games == old(games)
      ensures seasons == old(seasons) && divisions == old(divisions) && teams == old(teams) && teamStats == old(teamStats)
    {
      if gameId in games {
        games := games[gameId := games[gameId].(stats := Some(stats))];
      }
    }

    /** SELECT MAX(id) FROM Seasons: NULL (None) for an empty table. */
    method GetCurrentSeason() returns (r: Option<int>)
      ensures r.None? <==> seasons == map[]
      ensures r.Some? ==> r.value in seasons && forall id :: id in seasons ==> id <= r.value
    {
      if seasons == map[] {
        return None;
      }
      var rest := seasons.Keys;
      SomeMember(rest);
      var best: int :| best in rest;
      while rest != {}
        invariant rest <= seasons.Keys && best in seasons
        invariant forall id :: id in seasons && id !in rest ==> id <= best
        decreases |rest|
      {
        SomeMember(rest);
        var id: int :| id in rest;
        if id > best {
          best := id;
        }
        rest := rest - {id};
      }
      return Some(best);
    }

    method GetTeamId(name: string, seasonId: int) returns (r: Result<int, LookupError>)
      ensures r == ResolveTeamId(teams, teamStats, name, seasonId)
    {
      if name == "" {
        return Ok(-1);
      }
      var ids := TeamsNamed(teams, name);
      if |ids| == 0 {
        return Err(NoTeamNamed(name));
      }
      if |ids| == 1 {
        SomeMember(ids);
        var id: int :| id in ids;
        assert ids == {TheMember(ids)};
        return Ok(id);
      }
      var rows := StatsSeasonsOf(teamStats, ids);
      if rows == [] {
        return Err(NoStatsRows);
      }
      var nearest := rows[0];
      var i := 1;
      while i < |rows|
        invariant 1 <= i <= |rows|
        invariant nearest == NearestAsWritten(rows[..i], seasonId)
      {
        var row := rows[i];
        assert rows[..i + 1][..i] == rows[..i];
        if Abs(row.1 - seasonId) < Abs(row.1 - nearest.1) {
          nearest := row;
        }
        i := i + 1;
      }
      assert rows[..|rows|] == rows;
      return Ok(nearest.0);
    }

    /** list_season_divisions: the season's join rows grouped into one division per
        (division_id, conference_id), teams and divisions sorted by name; an error when the season
        has no rows. */
    method ListSeasonDivisions(seasonId: int) returns (r: Result<SeasonListing, ListingError>)
      requires Valid()
      ensures r.Err? <==> JoinRows(seasons, divisions, teams, teamStats, seasonId) == []
      ensures r.Ok? ==> && seasonId in seasons
                        && r.value.seasonId == seasonId && r.value.seasonName == seasons[seasonId]
                        && Listed(r.value.divisions, JoinRows(seasons, divisions, teams, teamStats, seasonId))
    {
      var rows := JoinRows(seasons, divisions, teams, teamStats, seasonId);
      JoinRowsDistinct(seasons, divisions, teams, teamStats, seasonId);
      var groups := GroupRows(rows);
      groups := SortTeamLists(groups);
      var sorted := SortBy(groups, (g: DivisionGroup) => g.name);
      ListedAfterSorting(rows, groups, sorted);
      if rows == [] {
        return Err(NoRows);
      }
      var last := rows[|rows| - 1];
      return Ok(SeasonListing(last.seasonId, last.seasonName, sorted));
    }

    /** get_team_games: the games of the season range in which one of the teams plays; nothing
        at all for an empty team list. */
    function TeamGames(teamIds: seq<int>, minSeason: int): (r: set<GameSummary>)
      reads this
      ensures teamIds == [] ==> r == {}
      ensures forall g :: g in r ==>
                (g.gameId in games && (g.homeId in teamIds || g.awayId in teamIds)
                 && games[g.gameId].seasonId >= minSeason
                 && g == Summary(g.gameId, games[g.gameId]))
      ensures teamIds != [] ==>
                forall id :: id in games && (games[id].homeId in teamIds || games[id].awayId in teamIds)
                             && games[id].seasonId >= minSeason ==>
                  Summary(id, games[id]) in r
    {
      if teamIds == [] then {}
      else
        set id | id in games && (games[id].homeId in teamIds || games[id].awayId in teamIds)
                             && games[id].seasonId >= minSeason
          :: Summary(id, games[id])
    }

    /** get_team_stats: the stats of the teams in that season with their names; nothing at all for
        an empty team list. */
    function TeamStatsOf(teamIds: seq<int>, seasonId: int): (r: set<TeamSeasonStats>)
      reads this
      ensures teamIds == [] ==> r == {}
      ensures forall t :: t in r ==>
                (t.teamId in teamIds && t.seasonId == seasonId && t.teamId in teams
                 && t.name == teams[t.teamId] && seasonId in seasons && t.season == seasons[seasonId])
      ensures forall t :: t in r ==>
                exists i :: && 0 <= i < |teamStats| && teamStats[i].key.teamId == t.teamId
                            && teamStats[i].key.seasonId == seasonId
                            && (teamStats[i].key.divisionId, teamStats[i].key.conferenceId) in divisions
                            && t.level == divisions[(teamStats[i].key.divisionId, teamStats[i].key.conferenceId)]
                            && t.stats == teamStats[i].stats
      ensures teamIds != [] ==>
                forall i :: 0 <= i < |teamStats| && teamStats[i].key.teamId in teamIds
                            && teamStats[i].key.seasonId == seasonId && seasonId in seasons
                            && teamStats[i].key.teamId in teams
                            && (teamStats[i].key.divisionId, teamStats[i].key.conferenceId) in divisions ==>
                  TeamSeasonStats(teamStats[i].key.teamId, teams[teamStats[i].key.teamId], seasons[seasonId], seasonId,
                                  divisions[(teamStats[i].key.divisionId, teamStats[i].key.conferenceId)],
                                  teamStats[i].stats) in r
    {
      if teamIds == [] then {}
      else
        set i | 0 <= i < |teamStats| && teamStats[i].key.teamId in teamIds && teamStats[i].key.seasonId == seasonId
                && seasonId in seasons && teamStats[i].key.teamId in teams
                && (teamStats[i].key.divisionId, teamStats[i].key.conferenceId) in divisions
          :: TeamSeasonStats(teamStats[i].key.teamId, teams[teamStats[i].key.teamId], seasons[seasonId], seasonId,
                             divisions[(teamStats[i].key.divisionId, teamStats[i].key.conferenceId)],
                             teamStats[i].stats)
    }
  }
}
