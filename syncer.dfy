/** The Syncer of sharks_ice_lib.py: it copies the divisions, teams and standings of each season
    and then the season's games into the Database, walking forward from min_season until four
    seasons in a row fail. The scraped pages are inputs: each season's standings come in as the
    result of scrape_season_divisions and each schedule as the games get_season_games yields. */
module Sync {
  import opened Wrappers
  import opened Text
  import opened Standings
  import opened Schedule
  import opened Store

  /** One team of a scraped division: its id and name (popped off the row) and the rest of the
      row, which becomes its stats. */
  datatype TeamRecord = TeamRecord(id: int, name: string, stats: Payload)

  /** The exception that ends a season's sync. */
  datatype SyncError =
    | NoDivisions                  // "No divs found for season ..."
    | ScrapeFailed(e: ScrapeError) // raised inside scrape_season_divisions
    | RowFailed(r: RowError)       // raised by get_season_games part way through the schedule
    | GameFailed(g: GameError)     // KeyError or TypeError while storing one game

  // ---------------------------------------------------------------------------
  // sync_season_teams

  /** How a place number is written: Ordinal, for sync_season_teams. */
  type PlaceLabel = int -> string

  /** The stats stored for the i-th team of a division: its row with 'place' set to the ordinal
      of its position in the standings. */
  function Placed(d: Division<TeamRecord>, i: nat, ordinal: PlaceLabel): Payload
    requires i < |d.teams|
  {
    d.teams[i].stats["place" := ordinal(i + 1)]
  }

  function KeyOf(seasonId: int, d: Division<TeamRecord>, i: nat): StatsKey
    requires i < |d.teams|
  {
    StatsKey(seasonId, d.id, d.conferenceId, d.teams[i].id)
  }

  /** The Divisions table after add_division for each division in turn. */
  function DivisionsAdded(m: map<(int, int), string>, ds: seq<Division<TeamRecord>>): map<(int, int), string>
    decreases |ds|
  {
    if ds == [] then m
    else
      var d := ds[|ds| - 1];
      DivisionsAdded(m, ds[..|ds| - 1])[(d.id, d.conferenceId) := d.name]
  }

  /** The Teams table after add_team for each team of one division in turn. */
  function TeamsOfDivision(m: map<int, string>, ts: seq<TeamRecord>): map<int, string>
    decreases |ts|
  {
    if ts == [] then m
    else
      var t := ts[|ts| - 1];
      TeamsOfDivision(m, ts[..|ts| - 1])[t.id := t.name]
  }

  function TeamsAdded(m: map<int, string>, ds: seq<Division<TeamRecord>>): map<int, string>
    decreases |ds|
  {
    if ds == [] then m
    else TeamsOfDivision(TeamsAdded(m, ds[..|ds| - 1]), ds[|ds| - 1].teams)
  }

  /** The TeamStats rows set_team_stats writes for one division, in order. */
  function DivisionRows(seasonId: int, d: Division<TeamRecord>, ordinal: PlaceLabel): (r: seq<StatsRow>)
    ensures |r| == |d.teams| && forall i :: 0 <= i < |r| ==> r[i] == StatsRow(KeyOf(seasonId, d, i), Placed(d, i, ordinal))
  {
    seq(|d.teams|, i requires 0 <= i < |d.teams| => StatsRow(KeyOf(seasonId, d, i), Placed(d, i, ordinal)))
  }

  /** The TeamStats table after set_team_stats for each row in turn. */
  function UpsertAll(rows: seq<StatsRow>, es: seq<StatsRow>): seq<StatsRow>
    decreases |es|
  {
    if es == [] then rows else Upsert(UpsertAll(rows, es[..|es| - 1]), es[|es| - 1])
  }

  function StatsAdded(rows: seq<StatsRow>, seasonId: int, ds: seq<Division<TeamRecord>>, ordinal: PlaceLabel): seq<StatsRow>
    decreases |ds|
  {
    if ds == [] then rows
    else UpsertAll(StatsAdded(rows, seasonId, ds[..|ds| - 1], ordinal), DivisionRows(seasonId, ds[|ds| - 1], ordinal))
  }

  /** The stats of each key after writing each row in turn over a table. */
  function WrittenOver(m: map<StatsKey, Payload>, es: seq<StatsRow>): map<StatsKey, Payload>
    decreases |es|
  {
    if es == [] then m else WrittenOver(m, es[..|es| - 1])[es[|es| - 1].key := es[|es| - 1].stats]
  }

  /** A run of set_team_stats calls keeps one row per key and writes each row's stats over the
      table. */
  lemma {:induction false} UpsertAllTable(rows: seq<StatsRow>, es: seq<StatsRow>)
    requires DistinctStatsKeys(rows)
    ensures DistinctStatsKeys(UpsertAll(rows, es))
    ensures StatsTable(UpsertAll(rows, es)) == WrittenOver(StatsTable(rows), es)
    decreases |es|
  {
    if es != [] {
      UpsertAllTable(rows, es[..|es| - 1]);
      UpsertTable(UpsertAll(rows, es[..|es| - 1]), es[|es| - 1]);
    }
  }

  /** A key written holds the stats of its last write. */
  lemma {:induction false} WrittenOverLast(m: map<StatsKey, Payload>, es: seq<StatsRow>, i: nat)
    requires i < |es| && forall j :: i < j < |es| ==> es[j].key != es[i].key
    ensures es[i].key in WrittenOver(m, es) && WrittenOver(m, es)[es[i].key] == es[i].stats
    decreases |es|
  {
    var n := |es| - 1;
    if i < n {
      var front := es[..n];
      assert forall j :: i < j < n ==> front[j] == es[j];
      WrittenOverLast(m, front, i);
    }
  }

  /** A key never written keeps what it had, or stays absent. */
  lemma {:induction false} WrittenOverOther(m: map<StatsKey, Payload>, es: seq<StatsRow>, k: StatsKey)
    requires forall i :: 0 <= i < |es| ==> es[i].key != k
    ensures (k in WrittenOver(m, es) <==> k in m) && (k in m ==> WrittenOver(m, es)[k] == m[k])
    decreases |es|
  {
    if es != [] {
      var n := |es| - 1;
      var front := es[..n];
      assert forall i :: 0 <= i < n ==> front[i] == es[i];
      WrittenOverOther(m, front, k);
    }
  }

  lemma PlaceOfTeamBy(rows: seq<StatsRow>, seasonId: int, d: Division<TeamRecord>, i: nat, ordinal: PlaceLabel)
    requires DistinctStatsKeys(rows) && i < |d.teams|
    requires forall j, k :: 0 <= j < k < |d.teams| ==> d.teams[j].id != d.teams[k].id
    ensures KeyOf(seasonId, d, i) in StatsTable(UpsertAll(rows, DivisionRows(seasonId, d, ordinal)))
    ensures StatsTable(UpsertAll(rows, DivisionRows(seasonId, d, ordinal)))[KeyOf(seasonId, d, i)] == d.teams[i].stats["place" := ordinal(i + 1)]
  {
    var es := DivisionRows(seasonId, d, ordinal);
    UpsertAllTable(rows, es);
    assert es[i].key == KeyOf(seasonId, d, i);
    assert forall j :: i < j < |es| ==> es[j].key != es[i].key;
    WrittenOverLast(StatsTable(rows), es, i);
  }

  /** Within a division whose team ids are distinct, every team's stats row is its scraped row
      with its place added: the ordinal of its position, which reads back as that position. */
  lemma PlaceOfTeam(rows: seq<StatsRow>, seasonId: int, d: Division<TeamRecord>, i: nat)
    requires DistinctStatsKeys(rows) && i < |d.teams|
    requires forall j, k :: 0 <= j < k < |d.teams| ==> d.teams[j].id != d.teams[k].id
    ensures KeyOf(seasonId, d, i) in StatsTable(UpsertAll(rows, DivisionRows(seasonId, d, Ordinal)))
    ensures StatsTable(UpsertAll(rows, DivisionRows(seasonId, d, Ordinal)))[KeyOf(seasonId, d, i)] == d.teams[i].stats["place" := Ordinal(i + 1)]
    ensures ParseInt(Ordinal(i + 1)[..|Ordinal(i + 1)| - 2]) == Some(i + 1)
  {
    PlaceOfTeamBy(rows, seasonId, d, i, Ordinal);
    OrdinalReadsBack(i + 1);
  }

  // ---------------------------------------------------------------------------
  // sync_season_games

  /** The team id a game gets for one side: get_team_id's answer, None where it raises or the
      game has no such column. */
  ghost function Lookup(teams: map<int, string>, teamStats: seq<StatsRow>, g: ScheduledGame, side: string, seasonId: int): Option<int> {
    if side !in g.fields then None
    else
      var r := ResolveTeamId(teams, teamStats, g.fields[side], seasonId);
      if r.Ok? then Some(r.value) else None
  }

  ghost function Prepared(teams: map<int, string>, teamStats: seq<StatsRow>, seasonId: int, g: ScheduledGame): Result<GameRecord, GameError> {
    PrepareGame(g, Lookup(teams, teamStats, g, "home", seasonId), Lookup(teams, teamStats, g, "away", seasonId))
  }

  /** What storing one game gives: its record, or the error it raises. */
  type Preparer = ScheduledGame -> Result<GameRecord, GameError>

  ghost function PrepareIn(teams: map<int, string>, teamStats: seq<StatsRow>, seasonId: int): Preparer {
    g => Prepared(teams, teamStats, seasonId, g)
  }

  /** The records stored for a schedule, up to the first game that raises, and that error. */
  function PreparedUntil(prepare: Preparer, gs: seq<ScheduledGame>): (seq<GameRecord>, Option<GameError>)
    decreases |gs|
  {
    if gs == [] then ([], None)
    else
      var (xs, err) := PreparedUntil(prepare, gs[..|gs| - 1]);
      if err.Some? then (xs, err)
      else
        var p := prepare(gs[|gs| - 1]);
        if p.Err? then (xs, Some(p.error)) else (xs + [p.value], None)
  }

  /** The Games table after add_game for each record in turn. */
  function RecordAll(games: map<string, Game>, seasonId: int, xs: seq<GameRecord>): map<string, Game>
    decreases |xs|
  {
    if xs == [] then games
    else
      var x := xs[|xs| - 1];
      RecordAll(games, seasonId, xs[..|xs| - 1])[x.gameId := Game(seasonId, x.level, x.startDt, x.rink, x.home, x.homeId, x.away, x.awayId, x.info, None)]
  }

  /** A game the store accepts, whatever its team lookups give. */
  predicate Storable(g: ScheduledGame) {
    PrepareGame(g, None, None).Ok?
  }

  /** A game is stored iff it has both goal columns and a game id, and add_game can bind the rest
      of its keys. */
  lemma StorableKeys(g: ScheduledGame)
    ensures Storable(g) <==> && "home_goals" in g.fields && "away_goals" in g.fields
                             && "game_id" in g.fields && AcceptsArguments(g.fields)
  {
  }

  /** A schedule whose every game can be stored and which ends without a row error. */
  predicate SeasonGamesStore(schedule: (seq<ScheduledGame>, Option<RowError>)) {
    schedule.1.None? && forall i :: 0 <= i < |schedule.0| ==> Storable(schedule.0[i])
  }

  /** Whether a game is stored does not depend on the database it is looked up in. */
  lemma PrepareInStorable(teams: map<int, string>, teamStats: seq<StatsRow>, seasonId: int, g: ScheduledGame)
    ensures PrepareIn(teams, teamStats, seasonId)(g).Ok? == Storable(g)
  {
    LookupFailureDoesNotAbort(g, Lookup(teams, teamStats, g, "home", seasonId), Lookup(teams, teamStats, g, "away", seasonId));
  }

  /** Storing stops at the first game that raises and only there; without one, every game is
      stored, in order, as its record. */
  lemma {:induction false} PreparedUntilSpec(prepare: Preparer, gs: seq<ScheduledGame>)
    ensures PreparedUntil(prepare, gs).1.None? <==> forall i :: 0 <= i < |gs| ==> prepare(gs[i]).Ok?
    ensures PreparedUntil(prepare, gs).1.None? ==>
              |PreparedUntil(prepare, gs).0| == |gs| &&
              forall i :: 0 <= i < |gs| ==> prepare(gs[i]) == Ok(PreparedUntil(prepare, gs).0[i])
    ensures PreparedUntil(prepare, gs).1.Some? ==>
              exists i :: 0 <= i < |gs| && prepare(gs[i]) == Err(PreparedUntil(prepare, gs).1.value)
    decreases |gs|
  {
    if gs != [] {
      var n := |gs| - 1;
      PreparedUntilSpec(prepare, gs[..n]);
      assert forall i :: 0 <= i < n ==> gs[..n][i] == gs[i];
    }
  }

  /** One more game: stored when it prepares, the error when it raises. */
  lemma PreparedUntilStep(prepare: Preparer, gs: seq<ScheduledGame>, i: nat, xs: seq<GameRecord>)
    requires i < |gs| && PreparedUntil(prepare, gs[..i]) == (xs, None)
    ensures prepare(gs[i]).Err? ==> PreparedUntil(prepare, gs[..i + 1]) == (xs, Some(prepare(gs[i]).error))
    ensures prepare(gs[i]).Ok? ==> PreparedUntil(prepare, gs[..i + 1]) == (xs + [prepare(gs[i]).value], None)
  {
    assert gs[..i + 1][..i] == gs[..i] && gs[..i + 1][i] == gs[i];
  }

  /** Recording one more game on top of the records so far. */
  lemma RecordAllAppend(games: map<string, Game>, seasonId: int, xs: seq<GameRecord>, x: GameRecord)
    ensures RecordAll(RecordAll(games, seasonId, xs), seasonId, [x]) == RecordAll(games, seasonId, xs + [x])
  {
    assert (xs + [x])[..|xs|] == xs;
  }

  /** Once a game has raised, later games change nothing. */
  lemma {:induction false} PreparedUntilStops(prepare: Preparer, gs: seq<ScheduledGame>, i: nat)
    requires i <= |gs| && PreparedUntil(prepare, gs[..i]).1.Some?
    ensures PreparedUntil(prepare, gs) == PreparedUntil(prepare, gs[..i])
    decreases |gs| - i
  {
    if i < |gs| {
      assert gs[..i + 1][..i] == gs[..i];
      PreparedUntilStops(prepare, gs, i + 1);
    } else {
      assert gs[..i] == gs;
    }
  }

  // ---------------------------------------------------------------------------
  // sync

  /** Which seasons' teams sync: season min_season + k succeeds when the k-th scrape gives at
      least one division. Seasons past the end have no divisions. */
  predicate Succeeds(ok: seq<bool>, k: int) {
    0 <= k < |ok| && ok[k]
  }

  /** The season offset at which the loop of sync stops, from offset idx with `errors` failures in
      a row behind it. */
  function StopAt(ok: seq<bool>, idx: nat, errors: nat): nat
    requires idx <= |ok| + errors && errors <= 4
    decreases |ok| + 4 - idx
  {
    if errors >= 4 then idx
    else if Succeeds(ok, idx) then StopAt(ok, idx + 1, 0)
    else StopAt(ok, idx + 1, errors + 1)
  }

  /** The offsets of the seasons whose teams and games sync before the loop stops. */
  function SyncedFrom(ok: seq<bool>, idx: nat, errors: nat): seq<nat>
    requires idx <= |ok| + errors && errors <= 4
    decreases |ok| + 4 - idx
  {
    if errors >= 4 then []
    else if Succeeds(ok, idx) then [idx] + SyncedFrom(ok, idx + 1, 0)
    else SyncedFrom(ok, idx + 1, errors + 1)
  }

  lemma {:induction false} StopAtWindow(ok: seq<bool>, idx: nat, errors: nat)
    requires idx <= |ok| + errors && errors <= 4 && errors <= idx
    requires forall j :: idx - errors <= j < idx ==> !Succeeds(ok, j)
    ensures idx <= StopAt(ok, idx, errors) && 4 <= StopAt(ok, idx, errors)
    ensures forall j :: StopAt(ok, idx, errors) - 4 <= j < StopAt(ok, idx, errors) ==> !Succeeds(ok, j)
    decreases |ok| + 4 - idx
  {
    if errors < 4 {
      if Succeeds(ok, idx) {
        StopAtWindow(ok, idx + 1, 0);
      } else {
        StopAtWindow(ok, idx + 1, errors + 1);
      }
    }
  }

  /** Some season among the four before offset q succeeded. */
  predicate SuccessBefore(ok: seq<bool>, q: int) {
    exists j :: q - 4 <= j < q && Succeeds(ok, j)
  }

  lemma {:induction false} StopAtFirst(ok: seq<bool>, idx: nat, errors: nat, q: nat)
    requires idx <= |ok| + errors && errors <= 4 && errors <= idx
    requires idx == errors || Succeeds(ok, idx - errors - 1)
    requires 4 <= q && idx <= q < StopAt(ok, idx, errors)
    ensures SuccessBefore(ok, q)
    decreases q - idx
  {
    if q == idx {
      assert Succeeds(ok, idx - errors - 1);
    } else if Succeeds(ok, idx) {
      StopAtFirst(ok, idx + 1, 0, q);
    } else {
      StopAtFirst(ok, idx + 1, errors + 1, q);
    }
  }

  lemma {:induction false} StopAtFrom(ok: seq<bool>, idx: nat, errors: nat)
    requires idx <= |ok| + errors && errors <= 4
    ensures idx <= StopAt(ok, idx, errors) <= |ok| + 4
    decreases |ok| + 4 - idx
  {
    if errors < 4 {
      if Succeeds(ok, idx) {
        StopAtFrom(ok, idx + 1, 0);
      } else {
        StopAtFrom(ok, idx + 1, errors + 1);
      }
    }
  }

  lemma {:induction false} SyncedFromSpec(ok: seq<bool>, idx: nat, errors: nat)
    requires idx <= |ok| + errors && errors <= 4
    ensures forall k :: k in SyncedFrom(ok, idx, errors) <==> idx <= k < StopAt(ok, idx, errors) && Succeeds(ok, k)
    ensures forall m, n :: 0 <= m < n < |SyncedFrom(ok, idx, errors)| ==> SyncedFrom(ok, idx, errors)[m] < SyncedFrom(ok, idx, errors)[n]
    decreases |ok| + 4 - idx
  {
    if errors < 4 {
      if Succeeds(ok, idx) {
        var rest := SyncedFrom(ok, idx + 1, 0);
        SyncedFromSpec(ok, idx + 1, 0);
        StopAtFrom(ok, idx + 1, 0);
        assert forall n :: 0 <= n < |rest| ==> rest[n] in rest;
        assert SyncedFrom(ok, idx, errors) == [idx] + rest;
      } else {
        SyncedFromSpec(ok, idx + 1, errors + 1);
        StopAtFrom(ok, idx + 1, errors + 1);
      }
    }
  }

  /** sync stops at the first offset p >= 4 whose four preceding seasons all failed, and the
      seasons it syncs are exactly the successful ones before p, in increasing order. */
  lemma SyncStops(ok: seq<bool>)
    ensures 4 <= StopAt(ok, 0, 0) <= |ok| + 4
    ensures forall j :: StopAt(ok, 0, 0) - 4 <= j < StopAt(ok, 0, 0) ==> !Succeeds(ok, j)
    ensures forall q :: 4 <= q < StopAt(ok, 0, 0) ==> SuccessBefore(ok, q)
    ensures forall k :: k in SyncedFrom(ok, 0, 0) <==> k < StopAt(ok, 0, 0) && Succeeds(ok, k)
    ensures forall m, n :: 0 <= m < n < |SyncedFrom(ok, 0, 0)| ==> SyncedFrom(ok, 0, 0)[m] < SyncedFrom(ok, 0, 0)[n]
  {
    StopAtWindow(ok, 0, 0);
    StopAtFrom(ok, 0, 0);
    forall q | 4 <= q < StopAt(ok, 0, 0)
      ensures SuccessBefore(ok, q)
    {
      StopAtFirst(ok, 0, 0, q);
    }
    SyncedFromSpec(ok, 0, 0);
  }

  /** One pass of the loop of sync on the offsets still to come. */
  lemma SyncedFromStep(ok: seq<bool>, idx: nat, errors: nat, done: seq<nat>)
    requires idx <= |ok| + errors && errors < 4
    requires done + SyncedFrom(ok, idx, errors) == SyncedFrom(ok, 0, 0)
    ensures !Succeeds(ok, idx) ==> done + SyncedFrom(ok, idx + 1, errors + 1) == SyncedFrom(ok, 0, 0)
    ensures Succeeds(ok, idx) ==> && (done + [idx]) + SyncedFrom(ok, idx + 1, 0) == SyncedFrom(ok, 0, 0)
                                  && idx in SyncedFrom(ok, 0, 0)
  {
    if Succeeds(ok, idx) {
      assert (done + [idx]) + SyncedFrom(ok, idx + 1, 0) == done + ([idx] + SyncedFrom(ok, idx + 1, 0));
      assert SyncedFrom(ok, 0, 0)[|done|] == idx;
    }
  }

  function SeasonsOk(divs: seq<Result<seq<Division<TeamRecord>>, ScrapeError>>): (ok: seq<bool>)
    ensures |ok| == |divs| && forall k :: 0 <= k < |divs| ==> (ok[k] <==> divs[k].Ok? && divs[k].value != [])
  {
    seq(|divs|, k requires 0 <= k < |divs| => divs[k].Ok? && divs[k].value != [])
  }

  /** The scraped schedule of a season offset; a season with no schedule page yields no games. */
  function ScheduleOf(schedules: seq<(seq<ScheduledGame>, Option<RowError>)>, k: nat): (seq<ScheduledGame>, Option<RowError>) {
    if k < |schedules| then schedules[k] else ([], None)
  }

  function SeasonIds(minSeason: int, offsets: seq<nat>): (r: seq<int>)
    ensures |r| == |offsets| && forall n :: 0 <= n < |r| ==> r[n] == minSeason + offsets[n]
  {
    seq(|offsets|, n requires 0 <= n < |offsets| => minSeason + offsets[n])
  }

  // ---------------------------------------------------------------------------
  class Syncer {
    var db: Database
    var minSeason: int

    constructor (db: Database)
      ensures this.db == db && minSeason == 0
    {
      this.db := db;
      minSeason := 0;
    }

    method SetMinSeason(minSeason: int)
      modifies this
      ensures this.minSeason == minSeason && db == old(db)
    {
      this.minSeason := minSeason;
    }

    /** sync_season_teams: no divisions (or a failed scrape) raises and writes nothing; otherwise
        every division, every team and every team's stats with its place are stored. */
    method SyncSeasonTeams(seasonId: int, divs: Result<seq<Division<TeamRecord>>, ScrapeError>) returns (r: Result<(), SyncError>)
      requires db.Valid()
      modifies db
      ensures db.Valid()
      ensures r.Ok? <==> divs.Ok? && divs.value != []
      ensures divs.Err? ==> r == Err(ScrapeFailed(divs.error))
      ensures divs == Ok([]) ==> r == Err(NoDivisions)
      ensures r.Err? ==> db.divisions == old(db.divisions) && db.teams == old(db.teams) && db.teamStats == old(db.teamStats)
      ensures r.Ok? ==> && db.divisions == DivisionsAdded(old(db.divisions), divs.value)
                        && db.teams == TeamsAdded(old(db.teams), divs.value)
                        && db.teamStats == StatsAdded(old(db.teamStats), seasonId, divs.value, Ordinal)
      ensures db.seasons == old(db.seasons) && db.games == old(db.games)
    {
      if divs.Err? {
        return Err(ScrapeFailed(divs.error));
      }
      if |divs.value| == 0 {
        return Err(NoDivisions);
      }
      StoreDivisions(seasonId, divs.value, Ordinal);
      return Ok(());
    }

    /** The loop of sync_season_teams over the divisions. */
    method StoreDivisions(seasonId: int, ds: seq<Division<TeamRecord>>, ordinal: PlaceLabel)
      requires db.Valid()
      modifies db
      ensures db.Valid()
      ensures db.divisions == DivisionsAdded(old(db.divisions), ds)
      ensures db.teams == TeamsAdded(old(db.teams), ds)
      ensures db.teamStats == StatsAdded(old(db.teamStats), seasonId, ds, ordinal)
      ensures db.seasons == old(db.seasons) && db.games == old(db.games)
    {
      var k := 0;
      while k < |ds|
        invariant 0 <= k <= |ds|
        invariant db.Valid()
        invariant db.divisions == DivisionsAdded(old(db.divisions), ds[..k])
        invariant db.teams == TeamsAdded(old(db.teams), ds[..k])
        invariant db.teamStats == StatsAdded(old(db.teamStats), seasonId, ds[..k], ordinal)
        invariant db.seasons == old(db.seasons) && db.games == old(db.games)
      {
        assert ds[..k + 1][..k] == ds[..k];
        StoreDivision(seasonId, ds[k], ordinal);
        k := k + 1;
      }
      assert ds[..|ds|] == ds;
    }

    /** One division: add_division, then add_team and set_team_stats for each team with its
        place. */
    method StoreDivision(seasonId: int, d: Division<TeamRecord>, ordinal: PlaceLabel)
      requires db.Valid()
      modifies db
      ensures db.Valid()
      ensures db.divisions == old(db.divisions)[(d.id, d.conferenceId) := d.name]
      ensures db.teams == TeamsOfDivision(old(db.teams), d.teams)
      ensures db.teamStats == UpsertAll(old(db.teamStats), DivisionRows(seasonId, d, ordinal))
      ensures db.seasons == old(db.seasons) && db.games == old(db.games)
    {
      db.AddDivision(d.id, d.conferenceId, d.name);
      ghost var es := DivisionRows(seasonId, d, ordinal);
      var i := 0;
      while i < |d.teams|
        invariant 0 <= i <= |d.teams|
        invariant db.Valid()
        invariant db.divisions == old(db.divisions)[(d.id, d.conferenceId) := d.name]
        invariant db.teams == TeamsOfDivision(old(db.teams), d.teams[..i])
        invariant db.teamStats == UpsertAll(old(db.teamStats), es[..i])
        invariant db.seasons == old(db.seasons) && db.games == old(db.games)
      {
        var team := d.teams[i];
        assert d.teams[..i + 1][..i] == d.teams[..i];
        assert es[..i + 1][..i] == es[..i] && es[..i + 1][i] == es[i];
        db.AddTeam(team.id, team.name);
        db.SetTeamStats(seasonId, d.id, d.conferenceId, team.id, team.stats["place" := ordinal(i + 1)]);
        i := i + 1;
      }
      assert d.teams[..|d.teams|] == d.teams && es[..|es|] == es;
    }

    /** The body of the loop of sync_season_games for one game: both team lookups, then
        add_game, unless the game raises first. */
    method StoreGame(seasonId: int, g: ScheduledGame) returns (r: Result<GameRecord, GameError>)
      modifies db
      ensures r == Prepared(old(db.teams), old(db.teamStats), seasonId, g)
      ensures r.Ok? ==> db.games == RecordAll(old(db.games), seasonId, [r.value])
      ensures r.Err? ==> db.games == old(db.games)
      ensures db.seasons == old(db.seasons) && db.divisions == old(db.divisions)
      ensures db.teams == old(db.teams) && db.teamStats == old(db.teamStats)
    {
      var home: Option<int> := None;
      if "home" in g.fields {
        var h := db.GetTeamId(g.fields["home"], seasonId);
        if h.Ok? {
          home := Some(h.value);
        }
      }
      var away: Option<int> := None;
      if "away" in g.fields {
        var a := db.GetTeamId(g.fields["away"], seasonId);
        if a.Ok? {
          away := Some(a.value);
        }
      }
      r := PrepareGame(g, home, away);
      if r.Ok? {
        var x := r.value;
        db.AddGame(x.gameId, seasonId, x.level, x.startDt, x.rink, x.home, x.homeId, x.away, x.awayId, x.info);
      }
    }

    /** sync_season_games: the games are stored in order until one raises; a row error of the
        schedule is raised after the games before it are stored; otherwise the number of games. */
    method SyncSeasonGames(seasonId: int, schedule: (seq<ScheduledGame>, Option<RowError>)) returns (r: Result<nat, SyncError>)
      modifies db
      ensures r.Ok? <==> SeasonGamesStore(schedule)
      ensures r.Ok? ==> r.value == |schedule.0|
      ensures var (xs, err) := PreparedUntil(PrepareIn(old(db.teams), old(db.teamStats), seasonId), schedule.0);
              && db.games == RecordAll(old(db.games), seasonId, xs)
              && (err.Some? ==> r == Err(GameFailed(err.value)))
              && (err.None? && schedule.1.Some? ==> r == Err(RowFailed(schedule.1.value)))
      ensures db.seasons == old(db.seasons) && db.divisions == old(db.divisions)
      ensures db.teams == old(db.teams) && db.teamStats == old(db.teamStats)
    {
      var gs := schedule.0;
      ghost var prepare := PrepareIn(db.teams, db.teamStats, seasonId);
      PreparedUntilSpec(prepare, gs);
      forall i | 0 <= i < |gs|
        ensures prepare(gs[i]).Ok? == Storable(gs[i])
      {
        PrepareInStorable(db.teams, db.teamStats, seasonId, gs[i]);
      }
      r := StoreGames(seasonId, gs, prepare);
      if r.Ok? && schedule.1.Some? {
        r := Err(RowFailed(schedule.1.value));
      }
    }

    /** The loop of sync_season_games over the games get_season_games yields. */
    method StoreGames(seasonId: int, gs: seq<ScheduledGame>, ghost prepare: Preparer) returns (r: Result<nat, SyncError>)
      requires prepare == PrepareIn(db.teams, db.teamStats, seasonId)
      modifies db
      ensures var (xs, err) := PreparedUntil(prepare, gs);
              && db.games == RecordAll(old(db.games), seasonId, xs)
              && (err.Some? ==> r == Err(GameFailed(err.value)))
              && (err.None? ==> r == Ok(|gs|))
      ensures db.seasons == old(db.seasons) && db.divisions == old(db.divisions)
      ensures db.teams == old(db.teams) && db.teamStats == old(db.teamStats)
    {
      ghost var xs: seq<GameRecord> := [];
      var i := 0;
      while i < |gs|
        invariant 0 <= i <= |gs|
        invariant PreparedUntil(prepare, gs[..i]) == (xs, None)
        invariant db.games == RecordAll(old(db.games), seasonId, xs)
        invariant db.seasons == old(db.seasons) && db.divisions == old(db.divisions)
        invariant db.teams == old(db.teams) && db.teamStats == old(db.teamStats)
      {
        var g := StoreGame(seasonId, gs[i]);
        assert g == prepare(gs[i]);
        PreparedUntilStep(prepare, gs, i, xs);
        if g.Err? {
          PreparedUntilStops(prepare, gs, i + 1);
          return Err(GameFailed(g.error));
        }
        RecordAllAppend(old(db.games), seasonId, xs, g.value);
        xs := xs + [g.value];
        i := i + 1;
      }
      assert gs[..|gs|] == gs;
      return Ok(|gs|);
    }

    /** One pass of the loop of sync: the season's teams, then, when they sync, its games. */
    method SyncSeason(seasonId: int, divs: Result<seq<Division<TeamRecord>>, ScrapeError>,
                      schedule: (seq<ScheduledGame>, Option<RowError>)) returns (teamsSynced: bool, r: Result<(), SyncError>)
      requires db.Valid()
      modifies db
      ensures db.Valid()
      ensures teamsSynced <==> divs.Ok? && divs.value != []
      ensures r.Ok? <==> !teamsSynced || SeasonGamesStore(schedule)
      ensures !teamsSynced ==> && db.divisions == old(db.divisions) && db.teams == old(db.teams)
                               && db.teamStats == old(db.teamStats) && db.games == old(db.games)
      ensures teamsSynced ==>
                var teams := TeamsAdded(old(db.teams), divs.value);
                var stats := StatsAdded(old(db.teamStats), seasonId, divs.value, Ordinal);
                && db.divisions == DivisionsAdded(old(db.divisions), divs.value)
                && db.teams == teams && db.teamStats == stats
                && db.games == RecordAll(old(db.games), seasonId, PreparedUntil(PrepareIn(teams, stats, seasonId), schedule.0).0)
      ensures db.seasons == old(db.seasons)
    {
      var t := SyncSeasonTeams(seasonId, divs);
      if t.Err? {
        return false, Ok(());
      }
      var g := SyncSeasonGames(seasonId, schedule);
      assert db.Valid();
      if g.Err? {
        return true, Err(g.error);
      }
      return true, Ok(());
    }

    /** One pass of the loop of sync, on the scrapes of season min_season + idx. */
    method SyncOffset(idx: nat, divs: seq<Result<seq<Division<TeamRecord>>, ScrapeError>>,
                      schedules: seq<(seq<ScheduledGame>, Option<RowError>)>) returns (teamsSynced: bool, r: Result<(), SyncError>)
      requires db.Valid()
      modifies db
      ensures db.Valid() && db.seasons == old(db.seasons)
      ensures teamsSynced == Succeeds(SeasonsOk(divs), idx)
      ensures r.Ok? <==> !teamsSynced || SeasonGamesStore(ScheduleOf(schedules, idx))
      ensures !teamsSynced ==> && db.divisions == old(db.divisions) && db.teams == old(db.teams)
                               && db.teamStats == old(db.teamStats) && db.games == old(db.games)
    {
      var d := if idx < |divs| then divs[idx] else Ok([]);
      teamsSynced, r := SyncSeason(minSeason + idx, d, ScheduleOf(schedules, idx));
    }

    /** sync: from min_season onwards, each season whose teams
        sync has its games synced and clears the failure count; four failures in a row stop the
        walk; an error while syncing games ends it. divs[k] and schedules[k] are the scrapes of
        season min_season + k. */
    method Sync(divs: seq<Result<seq<Division<TeamRecord>>, ScrapeError>>,
                schedules: seq<(seq<ScheduledGame>, Option<RowError>)>) returns (r: Result<seq<int>, SyncError>)
      requires db.Valid()
      modifies db
      ensures db.Valid()
      ensures r.Ok? <==> forall k :: k in SyncedFrom(SeasonsOk(divs), 0, 0) ==> SeasonGamesStore(ScheduleOf(schedules, k))
      ensures r.Ok? ==> r.value == SeasonIds(minSeason, SyncedFrom(SeasonsOk(divs), 0, 0))
      ensures db.seasons == old(db.seasons)
    {
      ghost var ok := SeasonsOk(divs);
      ghost var done: seq<nat> := [];
      var synced: seq<int> := [];
      var idx: nat := 0;
      var errors: nat := 0;
      while errors < 4
        invariant idx <= |ok| + errors && errors <= 4
        invariant db.Valid() && db.seasons == old(db.seasons)
        invariant done + SyncedFrom(ok, idx, errors) == SyncedFrom(ok, 0, 0)
        invariant synced == SeasonIds(minSeason, done)
        invariant forall k :: k in done ==> SeasonGamesStore(ScheduleOf(schedules, k))
        decreases |ok| + 4 - idx
      {
        var teamsSynced, g := SyncOffset(idx, divs, schedules);
        SyncedFromStep(ok, idx, errors, done);
        if !teamsSynced {
          errors := errors + 1;
          idx := idx + 1;
        } else {
          if g.Err? {
            return Err(g.error);
          }
          done := done + [idx];
          synced := synced + [minSeason + idx];
          errors := 0;
          idx := idx + 1;
        }
      }
      assert done + [] == done;
      return Ok(synced);
    }
  }
}
