/** The schedule page of get_season_games: the header row names the columns (the two "Goals"
    headers become away_goals and home_goals), every later row becomes a game dict or is skipped,
    and the game's date and time cells become its start datetime, with the year taken from the
    first kept game. Also the per-game cleanup of sync_season_games. */
module Schedule {
  import opened Wrappers
  import opened Text
  import opened Dates

  // ---------------------------------------------------------------------------
  // Header row

  /** column_rename, as its list of (header, column) entries. */
  const ColumnRenames: seq<(string, string)> :=
    [("Game", "game_id"), ("Date", "date"), ("Time", "time"), ("Rink", "rink"), ("League", "league"),
     ("Level", "level"), ("Away", "away"), ("Home", "home"), ("Type", "type")]

  /** dict.get(key, default) over a list of entries with distinct keys. */
  function LookupOr(entries: seq<(string, string)>, key: string, default: string): (r: string)
    ensures r == default || exists i :: 0 <= i < |entries| && entries[i].0 == key && r == entries[i].1
    decreases |entries|
  {
    if entries == [] then default
    else if entries[0].0 == key then entries[0].1
    else LookupOr(entries[1..], key, default)
  }

  /** column_rename.get(text, text). */
  function RenameColumn(text: string): (r: string)
    ensures r != "away_goals" || text == "away_goals"
  {
    NoRenameToGoals();
    LookupOr(ColumnRenames, text, text)
  }

  /** column_rename names no column away_goals. */
  lemma NoRenameToGoals()
    ensures forall i :: 0 <= i < |ColumnRenames| ==> ColumnRenames[i].1 != "away_goals"
  {
    forall i | 0 <= i < |ColumnRenames|
      ensures ColumnRenames[i].1 != "away_goals"
    {
      assert ColumnRenames[i].1[0] != 'a' || ColumnRenames[i].1 == "away";
    }
  }

  /** The column named by one header cell, given the columns named so far. */
  function HeaderColumn(columns: seq<string>, header: string): string {
    var text := Trim(header);
    var text := if text == "Goals" then (if "away_goals" !in columns then "away_goals" else "home_goals") else text;
    RenameColumn(text)
  }

  /** How one header cell is named, given the columns named before it. */
  type Namer = (seq<string>, string) -> string

  /** The columns a header row gets when each header is named in turn. */
  function ColumnsBy(headers: seq<string>, name: Namer): (columns: seq<string>)
    ensures |columns| == |headers|
    decreases |headers|
  {
    if headers == [] then []
    else
      var front := ColumnsBy(headers[..|headers| - 1], name);
      front + [name(front, headers[|headers| - 1])]
  }

  /** The columns of a header row. */
  function Columns(headers: seq<string>): (columns: seq<string>) {
    ColumnsBy(headers, HeaderColumn)
  }

  /** The header loop of get_season_games. */
  method ParseHeaders(headers: seq<string>) returns (columns: seq<string>)
    ensures columns == Columns(headers)
  {
    columns := [];
    var i := 0;
    while i < |headers|
      invariant 0 <= i <= |headers|
      invariant columns == ColumnsBy(headers[..i], HeaderColumn)
    {
      assert headers[..i + 1][..i] == headers[..i];
      columns := columns + [HeaderColumn(columns, headers[i])];
      i := i + 1;
    }
    assert headers[..|headers|] == headers;
  }

  /** The column of a header depends only on the headers up to it. */
  lemma {:induction false} ColumnsPrefix(headers: seq<string>, name: Namer, i: nat)
    requires i <= |headers|
    ensures ColumnsBy(headers, name)[..i] == ColumnsBy(headers[..i], name)
    decreases |headers|
  {
    if i < |headers| {
      var n := |headers| - 1;
      assert headers[..n][..i] == headers[..i];
      ColumnsPrefix(headers[..n], name, i);
    } else {
      assert headers[..i] == headers;
    }
  }

  lemma ColumnAt(headers: seq<string>, name: Namer, i: nat)
    requires i < |headers|
    ensures ColumnsBy(headers, name)[i] == name(ColumnsBy(headers[..i], name), headers[i])
  {
    var upTo := headers[..i + 1];
    assert upTo[..i] == headers[..i] && upTo[i] == headers[i];
    var before := ColumnsBy(headers[..i], name);
    assert ColumnsBy(upTo, name) == before + [name(before, headers[i])];
    ColumnsPrefix(headers, name, i + 1);
    assert ColumnsBy(headers, name)[i] == ColumnsBy(headers, name)[..i + 1][i];
  }

  predicate IsGoals(header: string) {
    Trim(header) == "Goals"
  }

  /** A header is named away_goals exactly when it is "Goals" and no column is away_goals yet. */
  ghost predicate NamesAwayGoals(name: Namer, header: string) {
    forall cols :: name(cols, header) == "away_goals" <==> IsGoals(header) && "away_goals" !in cols
  }

  /** When each header is named as NamesAwayGoals says, the columns hold away_goals exactly when
      some header is "Goals". */
  lemma {:induction false} AwayGoalsPresent(headers: seq<string>, name: Namer)
    requires forall j :: 0 <= j < |headers| ==> NamesAwayGoals(name, headers[j])
    ensures "away_goals" in ColumnsBy(headers, name) <==> exists j :: 0 <= j < |headers| && IsGoals(headers[j])
    decreases |headers|
  {
    if headers != [] {
      var n := |headers| - 1;
      var front := headers[..n];
      assert forall j :: 0 <= j < n ==> front[j] == headers[j];
      AwayGoalsPresent(front, name);
      var cols := ColumnsBy(front, name);
      var last := name(cols, headers[n]);
      assert ColumnsBy(headers, name) == cols + [last];
      assert last == "away_goals" <==> IsGoals(headers[n]) && "away_goals" !in cols by {
        assert NamesAwayGoals(name, headers[n]);
      }
      SomeSplit(headers, n, IsGoals);
    }
  }

  /** Some element satisfies p exactly when one before the last does, or the last does. */
  lemma SomeSplit(xs: seq<string>, n: nat, p: string -> bool)
    requires n + 1 == |xs|
    ensures (exists j :: 0 <= j < |xs| && p(xs[j])) <==> (exists j :: 0 <= j < n && p(xs[..n][j])) || p(xs[n])
  {
    if exists j :: 0 <= j < |xs| && p(xs[j]) {
      var j :| 0 <= j < |xs| && p(xs[j]);
      if j < n { assert xs[..n][j] == xs[j]; }
    }
  }

  /** The naming of one header: "Goals" becomes away_goals while there is none and home_goals
      after; any other header goes through column_rename. */
  lemma HeaderColumnCases(cols: seq<string>, header: string)
    ensures IsGoals(header) && "away_goals" !in cols ==> HeaderColumn(cols, header) == "away_goals"
    ensures IsGoals(header) && "away_goals" in cols ==> HeaderColumn(cols, header) == "home_goals"
    ensures !IsGoals(header) ==> HeaderColumn(cols, header) == RenameColumn(Trim(header))
  {
    assert RenameColumn("away_goals") == "away_goals";
    assert RenameColumn("home_goals") == "home_goals";
  }

  lemma NamesAwayGoalsOfHeaderColumn(header: string)
    requires Trim(header) != "away_goals"
    ensures NamesAwayGoals(HeaderColumn, header)
  {
    forall cols
      ensures HeaderColumn(cols, header) == "away_goals" <==> IsGoals(header) && "away_goals" !in cols
    {
      HeaderColumnCases(cols, header);
    }
  }

  /** The first "Goals" header becomes away_goals and every later one home_goals (unless a header
      literally reads away_goals); every other header goes through column_rename. */
  lemma GoalsColumns(headers: seq<string>, i: nat)
    requires forall j :: 0 <= j < |headers| ==> Trim(headers[j]) != "away_goals"
    requires i < |headers|
    ensures IsGoals(headers[i]) && (forall j :: 0 <= j < i ==> !IsGoals(headers[j]))
            ==> Columns(headers)[i] == "away_goals"
    ensures IsGoals(headers[i]) && (exists j :: 0 <= j < i && IsGoals(headers[j]))
            ==> Columns(headers)[i] == "home_goals"
    ensures !IsGoals(headers[i]) ==> Columns(headers)[i] == RenameColumn(Trim(headers[i]))
  {
    ColumnAt(headers, HeaderColumn, i);
    var front := headers[..i];
    assert forall j :: 0 <= j < i ==> front[j] == headers[j];
    forall j | 0 <= j < i
      ensures NamesAwayGoals(HeaderColumn, front[j])
    {
      NamesAwayGoalsOfHeaderColumn(front[j]);
    }
    AwayGoalsPresent(front, HeaderColumn);
    HeaderColumnCases(ColumnsBy(front, HeaderColumn), headers[i]);
  }

  // ---------------------------------------------------------------------------
  // Data rows

  /** dict(zip(columns, values)): a repeated column keeps its last value. */
  function ZipMap(columns: seq<string>, values: seq<string>): (m: map<string, string>)
    requires |columns| == |values|
    ensures m.Keys == set c | c in columns
    decreases |columns|
  {
    if columns == [] then map[]
    else ZipMap(columns[..|columns| - 1], values[..|values| - 1])[columns[|columns| - 1] := values[|values| - 1]]
  }

  lemma {:induction false} ZipMapLast(columns: seq<string>, values: seq<string>, i: nat)
    requires |columns| == |values| && i < |columns|
    requires forall j :: i < j < |columns| ==> columns[j] != columns[i]
    ensures ZipMap(columns, values)[columns[i]] == values[i]
    decreases |columns|
  {
    var n := |columns| - 1;
    if i < n {
      ZipMapLast(columns[..n], values[..n], i);
    }
  }

  /** A cell's text: stripped, with each double space made single. */
  function CleanCell(cell: string): string {
    ReplaceAll(Trim(cell), "  ", " ")
  }

  function CleanCells(cells: seq<string>): (r: seq<string>)
    ensures |r| == |cells|
    ensures forall i :: 0 <= i < |cells| ==> r[i] == CleanCell(cells[i])
    decreases |cells|
  {
    if cells == [] then [] else [CleanCell(cells[0])] + CleanCells(cells[1..])
  }

  /** The game dict of a row whose cell count matches the columns. */
  function RowMap(columns: seq<string>, cells: seq<string>): map<string, string>
    requires |cells| == |columns|
  {
    ZipMap(columns, CleanCells(cells))
  }

  /** A game as get_season_games yields it: its columns without date and time, and start_dt. */
  datatype ScheduledGame = ScheduledGame(fields: map<string, string>, startDt: DateTime)

  datatype RowError = MissingColumn(column: string) | BadStartTime(cause: DateError)

  /** What one row gives: nothing, a game together with the year anchor, or an exception that ends
      the generator. */
  datatype RowOutcome = Skipped | Kept(game: ScheduledGame, anchor: DateTime) | Failed(error: RowError)

  /** The row is dropped before any game is built: wrong cell count, a practice, or neither team. */
  predicate SkipsRow(columns: seq<string>, cells: seq<string>) {
    || |cells| != |columns|
    || (var g := RowMap(columns, cells);
        && "type" in g
        && (g["type"] == "Practice" || ("away" in g && g["away"] == "" && "home" in g && g["home"] == "")))
  }

  datatype Verdict = Drop | Raise(error: RowError) | Pass

  /** The type and team checks, in the order the row loop makes them; a missing column raises
      KeyError. */
  function Screen(game: map<string, string>): (r: Verdict)
    ensures r.Drop? <==> (&& "type" in game
                          && (game["type"] == "Practice" || ("away" in game && game["away"] == "" && "home" in game && game["home"] == "")))
    ensures r.Pass? ==> (&& "type" in game && "away" in game && game["type"] != "Practice"
                         && (game["away"] != "" || ("home" in game && game["home"] != "")))
  {
    if "type" !in game then Raise(MissingColumn("type"))
    else if game["type"] == "Practice" then Drop
    else if "away" !in game then Raise(MissingColumn("away"))
    else if game["away"] == "" && "home" !in game then Raise(MissingColumn("home"))
    else if game["away"] == "" && game["home"] == "" then Drop
    else Pass
  }

  /** The rink loses "San Jose " and the level has "Adult Division" shortened to "Div". */
  function Rewrite(game: map<string, string>): (r: Result<map<string, string>, RowError>)
    ensures r.Ok? ==> (&& r.value.Keys == game.Keys && "rink" in game && "level" in game
                       && r.value["rink"] == ReplaceAll(game["rink"], "San Jose ", "")
                       && r.value["level"] == ReplaceAll(game["level"], "Adult Division", "Div")
                       && forall k :: k in game && k != "rink" && k != "level" ==> r.value[k] == game[k])
    ensures r.Err? ==> "rink" !in game || "level" !in game
  {
    if "rink" !in game then Err(MissingColumn("rink"))
    else
      var game := game["rink" := ReplaceAll(game["rink"], "San Jose ", "")];
      if "level" !in game then Err(MissingColumn("level"))
      else Ok(game["level" := ReplaceAll(game["level"], "Adult Division", "Div")])
  }

  /** DumbDateTime.from_date_time of the date and time cells, placed in a year by guess_year. */
  type StartOf = (string, string, DateTime) -> Result<DateTime, DateError>

  function StartTime(date: string, timeOfDay: string, anchor: DateTime): Result<DateTime, DateError> {
    match FromDateTime(date, timeOfDay)
    case Err(e) => Err(e)
    case Ok(start) => GuessYear(start, anchor)
  }

  /** The anchor (get_game_dt of the first kept game's id, fetched once) and the popped date and
      time cells turned into start_dt. */
  function Stamp(game: map<string, string>, anchor: Option<DateTime>, gameDate: string -> DateTime,
                 startOf: StartOf): (r: RowOutcome)
    ensures r.Kept? ==> (&& "date" in game && "time" in game
                         && r.game.fields == game - {"date", "time"}
                         && startOf(game["date"], game["time"], r.anchor) == Ok(r.game.startDt))
    ensures r.Kept? && anchor.Some? ==> r.anchor == anchor.value
    ensures r.Kept? && anchor.None? ==> "game_id" in game && r.anchor == gameDate(game["game_id"])
    ensures !r.Skipped?
  {
    if anchor.None? && "game_id" !in game then Failed(MissingColumn("game_id"))
    else
      var first := if anchor.Some? then anchor.value else gameDate(game["game_id"]);
      if "date" !in game then Failed(MissingColumn("date"))
      else if "time" !in game then Failed(MissingColumn("time"))
      else
        match startOf(game["date"], game["time"], first)
        case Err(e) => Failed(BadStartTime(e))
        case Ok(dt) => Kept(ScheduledGame(game - {"date", "time"}, dt), first)
  }

  /** One pass of the row loop. `anchor` is first_game_dt once set; `gameDate` stands for
      get_game_dt, the date page of a game id. */
  function ProcessRow(columns: seq<string>, cells: seq<string>, anchor: Option<DateTime>,
                      gameDate: string -> DateTime, startOf: StartOf): RowOutcome
  {
    if |cells| != |columns| then Skipped
    else
      var game := RowMap(columns, cells);
      match Screen(game)
      case Drop => Skipped
      case Raise(e) => Failed(e)
      case Pass =>
        match Rewrite(game)
        case Err(e) => Failed(e)
        case Ok(g) => Stamp(g, anchor, gameDate, startOf)
  }

  /** A row is skipped exactly for a wrong cell count, a practice, or a game without teams. */
  lemma ProcessRowSkips(columns: seq<string>, cells: seq<string>, anchor: Option<DateTime>,
                        gameDate: string -> DateTime, startOf: StartOf)
    ensures ProcessRow(columns, cells, anchor, gameDate, startOf).Skipped? <==> SkipsRow(columns, cells)
  {
    if |cells| == |columns| {
      var game := RowMap(columns, cells);
      if Screen(game).Pass? && Rewrite(game).Ok? {
        assert !Stamp(Rewrite(game).value, anchor, gameDate, startOf).Skipped?;
      }
    }
  }

  /** A kept game is the row's dict without date and time, with the rink and level rewritten, its
      start_dt computed from the date and time cells against the anchor; it is not a practice and
      has a team. The anchor is the one already set, or the date page of this game's id. */
  lemma ProcessRowKept(columns: seq<string>, cells: seq<string>, anchor: Option<DateTime>,
                       gameDate: string -> DateTime, startOf: StartOf)
    requires ProcessRow(columns, cells, anchor, gameDate, startOf).Kept?
    ensures var r := ProcessRow(columns, cells, anchor, gameDate, startOf);
            var row := RowMap(columns, cells);
            && |cells| == |columns|
            && (forall k :: k in r.game.fields <==> k in row && k != "date" && k != "time")
            && (forall k :: k in r.game.fields && k != "rink" && k != "level" ==> r.game.fields[k] == row[k])
            && "rink" in row && r.game.fields["rink"] == ReplaceAll(row["rink"], "San Jose ", "")
            && "level" in row && r.game.fields["level"] == ReplaceAll(row["level"], "Adult Division", "Div")
            && "type" in row && row["type"] != "Practice"
            && "away" in row && (row["away"] != "" || ("home" in row && row["home"] != ""))
            && "date" in row && "time" in row && startOf(row["date"], row["time"], r.anchor) == Ok(r.game.startDt)
            && (anchor.Some? ==> r.anchor == anchor.value)
            && (anchor.None? ==> "game_id" in row && r.anchor == gameDate(row["game_id"]))
  {
    var row := RowMap(columns, cells);
    assert Screen(row).Pass?;
    assert ProcessRow(columns, cells, anchor, gameDate, startOf) == Stamp(Rewrite(row).value, anchor, gameDate, startOf);
    StampOfRewrite(row, anchor, gameDate, startOf);
  }

  /** The game a passing row's dict gives once rink and level are rewritten and it is stamped. */
  lemma StampOfRewrite(row: map<string, string>, anchor: Option<DateTime>, gameDate: string -> DateTime,
                       startOf: StartOf)
    requires Rewrite(row).Ok? && Stamp(Rewrite(row).value, anchor, gameDate, startOf).Kept?
    ensures var r := Stamp(Rewrite(row).value, anchor, gameDate, startOf);
            && (forall k :: k in r.game.fields <==> k in row && k != "date" && k != "time")
            && (forall k :: k in r.game.fields && k != "rink" && k != "level" ==> r.game.fields[k] == row[k])
            && "rink" in row && r.game.fields["rink"] == ReplaceAll(row["rink"], "San Jose ", "")
            && "level" in row && r.game.fields["level"] == ReplaceAll(row["level"], "Adult Division", "Div")
            && "date" in row && "time" in row && startOf(row["date"], row["time"], r.anchor) == Ok(r.game.startDt)
            && (anchor.Some? ==> r.anchor == anchor.value)
            && (anchor.None? ==> "game_id" in row && r.anchor == gameDate(row["game_id"]))
  {
    var g := Rewrite(row).value;
    assert "date" != "rink" && "date" != "level" && "time" != "rink" && "time" != "level";
    assert "game_id" != "rink" && "game_id" != "level";
    assert g["date"] == row["date"] && g["time"] == row["time"];
  }

  /** One pass of the row loop as a value: what a row gives under the current anchor. */
  type RowStep = (seq<string>, Option<DateTime>) -> RowOutcome

  function RowStepOf(columns: seq<string>, gameDate: string -> DateTime): RowStep {
    (cells: seq<string>, anchor: Option<DateTime>) => ProcessRow(columns, cells, anchor, gameDate, StartTime)
  }

  /** The games the generator yields from row i on, and the exception that stopped it, if any. */
  function GamesFrom(rows: seq<seq<string>>, i: nat, anchor: Option<DateTime>, step: RowStep)
    : (seq<ScheduledGame>, Option<RowError>)
    decreases |rows| - i
  {
    if i >= |rows| then ([], None)
    else
      match step(rows[i], anchor)
      case Skipped => GamesFrom(rows, i + 1, anchor, step)
      case Failed(e) => ([], Some(e))
      case Kept(g, first) =>
        var rest := GamesFrom(rows, i + 1, Some(first), step);
        ([g] + rest.0, rest.1)
  }

  /** get_season_games on a loaded schedule table, given its header cells and data rows. */
  method SeasonGames(headers: seq<string>, rows: seq<seq<string>>, gameDate: string -> DateTime)
    returns (games: seq<ScheduledGame>, failure: Option<RowError>)
    ensures (games, failure) == GamesFrom(rows, 0, None, RowStepOf(Columns(headers), gameDate))
  {
    var columns := ParseHeaders(headers);
    games, failure := CollectGames(rows, RowStepOf(columns, gameDate));
  }

  /** The row loop of get_season_games. */
  method CollectGames(rows: seq<seq<string>>, step: RowStep)
    returns (games: seq<ScheduledGame>, failure: Option<RowError>)
    ensures (games, failure) == GamesFrom(rows, 0, None, step)
  {
    var firstGameDt: Option<DateTime> := None;
    games := [];
    failure := None;
    var i := 0;
    assert games + GamesFrom(rows, 0, None, step).0 == GamesFrom(rows, 0, None, step).0;
    while i < |rows|
      invariant 0 <= i <= |rows|
      invariant var rest := GamesFrom(rows, i, firstGameDt, step);
                GamesFrom(rows, 0, None, step) == (games + rest.0, rest.1)
    {
      var outcome := step(rows[i], firstGameDt);
      match outcome {
        case Skipped =>
        case Failed(e) =>
          failure := Some(e);
          assert games + [] == games;
          return;
        case Kept(g, first) =>
          var rest := GamesFrom(rows, i + 1, Some(first), step).0;
          assert (games + [g]) + rest == games + ([g] + rest);
          firstGameDt := Some(first);
          games := games + [g];
      }
      i := i + 1;
    }
    assert games + [] == games;
  }

  /** Once the anchor is set, each game yielded is what its row gives under that anchor. */
  lemma {:induction false} GamesUseAnchor(rows: seq<seq<string>>, i: nat, a: DateTime, step: RowStep)
    requires forall j :: i <= j < |rows| && step(rows[j], Some(a)).Kept? ==> step(rows[j], Some(a)).anchor == a
    ensures forall g :: g in GamesFrom(rows, i, Some(a), step).0 ==>
              exists j :: i <= j < |rows| && step(rows[j], Some(a)) == Kept(g, a)
    decreases |rows| - i
  {
    if i < |rows| {
      GamesUseAnchor(rows, i + 1, a, step);
    }
  }

  /** get_season_games keeps the anchor it has: first_game_dt is fetched once, for the first
      kept game, and every later game is placed in a year against it. */
  lemma RowStepKeepsAnchor(columns: seq<string>, gameDate: string -> DateTime, rows: seq<seq<string>>, i: nat, a: DateTime)
    ensures forall g :: g in GamesFrom(rows, i, Some(a), RowStepOf(columns, gameDate)).0 ==>
              exists j :: i <= j < |rows| && RowStepOf(columns, gameDate)(rows[j], Some(a)) == Kept(g, a)
  {
    var step := RowStepOf(columns, gameDate);
    forall j | i <= j < |rows| && step(rows[j], Some(a)).Kept?
      ensures step(rows[j], Some(a)).anchor == a
    {
      ProcessRowKept(columns, rows[j], Some(a), gameDate, StartTime);
    }
    GamesUseAnchor(rows, i, a, step);
  }

  // ---------------------------------------------------------------------------
  // Per-game cleanup of sync_season_games

  /** game_id.replace('*', '').replace('^', ''). */
  function CleanGameId(id: string): string {
    ReplaceAll(ReplaceAll(id, "*", ""), "^", "")
  }

  /** The characters of an id other than '*' and '^', in their order. */
  function IdChars(id: string): (r: string)
    decreases |id|
  {
    if id == [] then []
    else (if id[0] == '*' || id[0] == '^' then [] else [id[0]]) + IdChars(id[1..])
  }

  lemma {:induction false} WithoutBothIsIdChars(id: string)
    ensures Without(Without(id, '*'), '^') == IdChars(id)
    decreases |id|
  {
    if id != [] {
      WithoutBothIsIdChars(id[1..]);
    }
  }

  lemma {:induction false} IdCharsPlain(id: string)
    ensures '*' !in IdChars(id) && '^' !in IdChars(id)
    ensures forall c :: c != '*' && c != '^' ==> multiset(IdChars(id))[c] == multiset(id)[c]
    decreases |id|
  {
    if id != [] {
      IdCharsPlain(id[1..]);
      assert id == [id[0]] + id[1..];
    }
  }

  lemma {:induction false} IdCharsOfPlain(id: string)
    requires '*' !in id && '^' !in id
    ensures IdChars(id) == id
    decreases |id|
  {
    if id != [] {
      IdCharsOfPlain(id[1..]);
      assert id == [id[0]] + id[1..];
    }
  }

  /** The cleaned id is the id's characters other than '*' and '^', in their order; it holds
      neither, keeps every other character as often as the id does, and cleaning it again changes
      nothing. */
  lemma CleanGameIdSpec(id: string)
    ensures CleanGameId(id) == IdChars(id)
    ensures '*' !in CleanGameId(id) && '^' !in CleanGameId(id)
    ensures forall c :: c != '*' && c != '^' ==> multiset(CleanGameId(id))[c] == multiset(id)[c]
    ensures CleanGameId(CleanGameId(id)) == CleanGameId(id)
  {
    RemoveCharIsWithout(id, '*');
    RemoveCharIsWithout(Without(id, '*'), '^');
    WithoutBothIsIdChars(id);
    IdCharsPlain(id);
    var once := IdChars(id);
    RemoveCharIsWithout(once, '*');
    RemoveCharIsWithout(Without(once, '*'), '^');
    WithoutBothIsIdChars(once);
    IdCharsOfPlain(once);
  }

  /** The Games row sync_season_games stores for one game. */
  datatype GameRecord = GameRecord(gameId: string, level: string, startDt: DateTime, rink: string,
                                   home: string, homeId: int, away: string, awayId: int,
                                   info: map<string, string>)

  /** KeyError on the game dict, or TypeError from add_game(season_id=..., **game). */
  datatype GameError = MissingKey(key: string) | BadArguments

  /** The keyword arguments add_game names; every other key of the game goes into info. */
  const NamedArguments: set<string> := {"game_id", "level", "start_dt", "rink", "home", "home_id", "away", "away_id"}

  /** add_game(season_id=..., **game) binds its parameters: level, rink, home and away must be
      keys of the game (game_id, start_dt, home_id and away_id are always set by then), and a
      season_id key would be a second value for season_id. */
  predicate AcceptsArguments(f: map<string, string>) {
    "level" in f && "rink" in f && "home" in f && "away" in f && "season_id" !in f
  }

  /** get_team_id's answer, or -1 where it (or the lookup of the name) raised. */
  function TeamIdOrUnknown(lookup: Option<int>): int {
    if lookup.Some? then lookup.value else -1
  }

  /** The loop body of sync_season_games for one game, given the outcomes of the two team lookups
      (None where they raised). */
  function PrepareGame(g: ScheduledGame, homeLookup: Option<int>, awayLookup: Option<int>): (r: Result<GameRecord, GameError>)
    ensures "home_goals" !in g.fields ==> r == Err(MissingKey("home_goals"))
    ensures "home_goals" in g.fields && "away_goals" !in g.fields ==> r == Err(MissingKey("away_goals"))
    ensures ("home_goals" in g.fields && "away_goals" in g.fields && "game_id" !in g.fields)
            ==> r == Err(MissingKey("game_id"))
    ensures ("home_goals" in g.fields && "away_goals" in g.fields && "game_id" in g.fields
             && !AcceptsArguments(g.fields)) ==> r == Err(BadArguments)
    ensures r.Ok? <==> ("home_goals" in g.fields && "away_goals" in g.fields && "game_id" in g.fields
                        && AcceptsArguments(g.fields))
    ensures r.Ok? ==> (&& "game_id" in g.fields && AcceptsArguments(g.fields)
                       && r.value.gameId == CleanGameId(g.fields["game_id"])
                       && r.value.level == g.fields["level"] && r.value.rink == g.fields["rink"]
                       && r.value.home == g.fields["home"] && r.value.away == g.fields["away"]
                       && r.value.homeId == TeamIdOrUnknown(homeLookup)
                       && r.value.awayId == TeamIdOrUnknown(awayLookup)
                       && r.value.startDt == g.startDt
                       && (forall k :: k in r.value.info <==> k in g.fields && k !in NamedArguments)
                       && (forall k :: k in r.value.info ==> r.value.info[k] == g.fields[k]))
  {
    var f := g.fields;
    if "home_goals" !in f then Err(MissingKey("home_goals"))
    else if "away_goals" !in f then Err(MissingKey("away_goals"))
    else if "game_id" !in f then Err(MissingKey("game_id"))
    else if !AcceptsArguments(f) then Err(BadArguments)
    else
      Ok(GameRecord(CleanGameId(f["game_id"]), f["level"], g.startDt, f["rink"], f["home"],
                    TeamIdOrUnknown(homeLookup), f["away"], TeamIdOrUnknown(awayLookup),
                    f - NamedArguments))
  }

  /** A failed team lookup never stops the game from being stored: whether a game is stored does
      not depend on the lookups. */
  lemma LookupFailureDoesNotAbort(g: ScheduledGame, homeLookup: Option<int>, awayLookup: Option<int>)
    ensures PrepareGame(g, homeLookup, awayLookup).Ok? == PrepareGame(g, None, None).Ok?
    ensures PrepareGame(g, None, None).Ok? ==>
              PrepareGame(g, None, None).value.homeId == -1 && PrepareGame(g, None, None).value.awayId == -1
  {
  }
}
