/** The column-rename step applied to every scraped standings row (rename and team_columns_rename)
    and the two cell converters NO_LINK_INT and NO_LINK. */
module Rename {
  import opened Wrappers
  import opened Text

  /** What a mapping says about one column: drop it (None), rename it (a string), or rename it and
      convert its value (a (key, func) tuple). */
  datatype Target<!V> = Drop | To(key: string) | ToWith(key: string, f: V -> V)

  /** mapping.get(key, key): a column the mapping does not mention keeps its name. */
  function TargetOf<V>(mapping: map<string, Target<V>>, key: string): Target<V> {
    if key in mapping then mapping[key] else To(key)
  }

  /** The column one entry writes into the renamed row, and the value it writes. */
  function Emit<V>(mapping: map<string, Target<V>>, entry: (string, V)): Option<(string, V)> {
    match TargetOf(mapping, entry.0)
    case Drop => None
    case To(k) => Some((k, entry.1))
    case ToWith(k, f) => Some((k, f(entry.1)))
  }

  predicate EmitsTo<V>(mapping: map<string, Target<V>>, entry: (string, V), key: string) {
    Emit(mapping, entry).Some? && Emit(mapping, entry).value.0 == key
  }

  /** The dict rename builds from the entries of `initial`, in their order: each entry is written
      over whatever an earlier entry put under the same new name. */
  function Renamed<V>(entries: seq<(string, V)>, mapping: map<string, Target<V>>): map<string, V>
    decreases |entries|
  {
    if entries == [] then map[]
    else
      var prev := Renamed(entries[..|entries| - 1], mapping);
      var e := Emit(mapping, entries[|entries| - 1]);
      if e.None? then prev else prev[e.value.0 := e.value.1]
  }

  /** rename(initial, mapping), with `initial` given as its list of items. */
  method RenameRow<V>(initial: seq<(string, V)>, mapping: map<string, Target<V>>) returns (newMap: map<string, V>)
    ensures newMap == Renamed(initial, mapping)
  {
    newMap := map[];
    var i := 0;
    while i < |initial|
      invariant 0 <= i <= |initial|
      invariant newMap == Renamed(initial[..i], mapping)
    {
      var (key, val) := initial[i];
      var mapped := TargetOf(mapping, key);
      assert initial[..i + 1][..i] == initial[..i];
      match mapped {
        case Drop =>
        case To(k) =>
          newMap := newMap[k := val];
        case ToWith(k, func) =>
          newMap := newMap[k := func(val)];
      }
      i := i + 1;
    }
    assert initial[..|initial|] == initial;
  }

  /** A new name is present exactly when some entry maps onto it, and it holds what the last such
      entry wrote. */
  lemma {:induction false} RenamedSpec<V>(entries: seq<(string, V)>, mapping: map<string, Target<V>>, key: string)
    ensures key in Renamed(entries, mapping) <==> exists i :: 0 <= i < |entries| && EmitsTo(mapping, entries[i], key)
    ensures forall i :: 0 <= i < |entries| && EmitsTo(mapping, entries[i], key)
                        && (forall j :: i < j < |entries| ==> !EmitsTo(mapping, entries[j], key))
                        ==> key in Renamed(entries, mapping)
                            && Renamed(entries, mapping)[key] == Emit(mapping, entries[i]).value.1
    decreases |entries|
  {
    if entries != [] {
      var n := |entries| - 1;
      var front := entries[..n];
      RenamedSpec(front, mapping, key);
      assert forall i :: 0 <= i < n ==> front[i] == entries[i];
      if key in Renamed(front, mapping) {
        var i :| 0 <= i < n && EmitsTo(mapping, front[i], key);
        assert EmitsTo(mapping, entries[i], key);
      }
      if EmitsTo(mapping, entries[n], key) {
        assert key in Renamed(entries, mapping);
      }
    }
  }

  /** A column the mapping does not mention keeps its name and value, unless another column is
      renamed onto that name. */
  lemma RenameKeepsUnmapped<V>(entries: seq<(string, V)>, mapping: map<string, Target<V>>, i: nat)
    requires i < |entries| && entries[i].0 !in mapping
    requires forall j :: 0 <= j < |entries| && j != i ==> !EmitsTo(mapping, entries[j], entries[i].0)
    ensures entries[i].0 in Renamed(entries, mapping)
    ensures Renamed(entries, mapping)[entries[i].0] == entries[i].1
  {
    RenamedSpec(entries, mapping, entries[i].0);
  }

  /** A column mapped to None is dropped, unless another column is renamed onto its name. */
  lemma RenameDropsNone<V>(entries: seq<(string, V)>, mapping: map<string, Target<V>>, i: nat)
    requires i < |entries| && entries[i].0 in mapping && mapping[entries[i].0].Drop?
    requires forall j :: 0 <= j < |entries| && j != i ==> !EmitsTo(mapping, entries[j], entries[i].0)
    ensures entries[i].0 !in Renamed(entries, mapping)
  {
    RenamedSpec(entries, mapping, entries[i].0);
  }

  /** A column mapped to (new_key, func) appears under new_key holding func(value), unless a later
      column is also written to new_key. */
  lemma RenameAppliesFunction<V>(entries: seq<(string, V)>, mapping: map<string, Target<V>>, i: nat)
    requires i < |entries| && entries[i].0 in mapping && mapping[entries[i].0].ToWith?
    requires forall j :: i < j < |entries| ==> !EmitsTo(mapping, entries[j], mapping[entries[i].0].key)
    ensures mapping[entries[i].0].key in Renamed(entries, mapping)
    ensures Renamed(entries, mapping)[mapping[entries[i].0].key] == mapping[entries[i].0].f(entries[i].1)
  {
    RenamedSpec(entries, mapping, mapping[entries[i].0].key);
  }

  /** team_columns_rename. */
  function TeamColumnsRename<V>(): map<string, Target<V>> {
    map["GP" := To("gamesPlayed"), "W" := To("wins"), "T" := To("ties"), "L" := To("losses"),
        "OTL" := To("overtimeLosses"), "PTS" := To("points"), "Streak" := To("streak"),
        "Tie Breaker" := To("tieBreaker")]
  }

  /** The source columns team_columns_rename renames and their new names. */
  const StatColumns: seq<string> := ["GP", "W", "T", "L", "OTL", "PTS", "Streak", "Tie Breaker"]
  const StatNames: seq<string> := ["gamesPlayed", "wins", "ties", "losses", "overtimeLosses", "points",
                                   "streak", "tieBreaker"]

  predicate DistinctKeys<V>(entries: seq<(string, V)>) {
    forall i, j :: 0 <= i < j < |entries| ==> entries[i].0 != entries[j].0
  }

  /** A mapping that renames the c-th of `cols` to the c-th of `names`, mentions no other column,
      and gives distinct columns distinct new names. */
  ghost predicate RenamesTable<V>(mapping: map<string, Target<V>>, cols: seq<string>, names: seq<string>) {
    && |names| == |cols|
    && (forall c :: 0 <= c < |cols| ==> cols[c] in mapping && mapping[cols[c]] == To(names[c]))
    && (forall k :: k in mapping ==> k in cols)
    && (forall c, d :: 0 <= c < d < |names| ==> names[c] != names[d])
  }

  /** team_columns_rename renames the c-th stat column to the c-th new name, mentions no other
      column, and gives distinct columns distinct new names. */
  lemma TeamColumnsTable<V>()
    ensures RenamesTable(TeamColumnsRename<V>(), StatColumns, StatNames)
  {
    TeamColumnsMapped<V>();
    TeamColumnsOnly<V>();
    StatNamesDistinct();
  }

  lemma TeamColumnsMapped<V>()
    ensures forall c :: 0 <= c < |StatColumns| ==>
              StatColumns[c] in TeamColumnsRename<V>() && TeamColumnsRename<V>()[StatColumns[c]] == To(StatNames[c])
  {
    var m := TeamColumnsRename<V>();
    forall c | 0 <= c < |StatColumns|
      ensures StatColumns[c] in m && m[StatColumns[c]] == To(StatNames[c])
    {
      if c < 4 {
        assert c == 0 || c == 1 || c == 2 || c == 3;
      } else {
        assert c == 4 || c == 5 || c == 6 || c == 7;
      }
    }
  }

  lemma TeamColumnsOnly<V>()
    ensures forall k :: k in TeamColumnsRename<V>() ==> k in StatColumns
  {
    var m := TeamColumnsRename<V>();
    assert m.Keys == {"GP", "W", "T", "L", "OTL", "PTS", "Streak", "Tie Breaker"};
    forall k | k in m
      ensures k in StatColumns
    {
      assert k == "GP" || k == "W" || k == "T" || k == "L" || k == "OTL" || k == "PTS" || k == "Streak" || k == "Tie Breaker";
    }
  }

  lemma StatNamesDistinct()
    ensures forall c, d :: 0 <= c < d < |StatNames| ==> StatNames[c] != StatNames[d]
  {
  }

  /** Distinct columns, none of which already carries one of the new names. */
  ghost predicate CleanRow<V>(entries: seq<(string, V)>, names: seq<string>) {
    DistinctKeys(entries) && forall j :: 0 <= j < |entries| ==> entries[j].0 !in names
  }

  /** No entry other than the i-th writes to `name` when the columns are distinct, none of them
      already carries a new name, and `name` is the i-th column's new name. */
  lemma TableNoClash<V>(mapping: map<string, Target<V>>, cols: seq<string>, names: seq<string>,
                        entries: seq<(string, V)>, i: nat, name: string)
    requires RenamesTable(mapping, cols, names) && CleanRow(entries, names)
    requires i < |entries| && EmitsTo(mapping, entries[i], name)
    ensures forall j :: 0 <= j < |entries| && j != i ==> !EmitsTo(mapping, entries[j], name)
  {
    forall j | 0 <= j < |entries| && j != i
      ensures !EmitsTo(mapping, entries[j], name)
    {
      var ki, kj := entries[i].0, entries[j].0;
      assert ki != kj;
      if ki in mapping {
        var c :| 0 <= c < |cols| && cols[c] == ki;
        assert name == names[c];
        if kj in mapping {
          var d :| 0 <= d < |cols| && cols[d] == kj;
          assert c != d;
          assert Emit(mapping, entries[j]).value.0 == names[d] != name;
        } else {
          assert Emit(mapping, entries[j]).value.0 == kj != name;
        }
      } else {
        assert name == ki;
        if kj in mapping {
          var d :| 0 <= d < |cols| && cols[d] == kj;
          assert Emit(mapping, entries[j]).value.0 == names[d] != name;
        } else {
          assert Emit(mapping, entries[j]).value.0 == kj != name;
        }
      }
    }
  }

  /** Under such a mapping, the entry of the c-th column lands under the c-th new name. */
  lemma TableRenames<V>(mapping: map<string, Target<V>>, cols: seq<string>, names: seq<string>,
                        entries: seq<(string, V)>, i: nat, c: nat)
    requires RenamesTable(mapping, cols, names) && CleanRow(entries, names)
    requires i < |entries| && c < |cols| && entries[i].0 == cols[c]
    ensures names[c] in Renamed(entries, mapping)
    ensures Renamed(entries, mapping)[names[c]] == entries[i].1
  {
    assert EmitsTo(mapping, entries[i], names[c]);
    TableNoClash(mapping, cols, names, entries, i, names[c]);
    RenamedSpec(entries, mapping, names[c]);
  }

  /** Under such a mapping, the entry of any other column keeps its name and value. */
  lemma TableKeepsOthers<V>(mapping: map<string, Target<V>>, cols: seq<string>, names: seq<string>,
                            entries: seq<(string, V)>, i: nat)
    requires RenamesTable(mapping, cols, names) && CleanRow(entries, names)
    requires i < |entries| && entries[i].0 !in cols
    ensures entries[i].0 in Renamed(entries, mapping)
    ensures Renamed(entries, mapping)[entries[i].0] == entries[i].1
  {
    assert entries[i].0 !in mapping;
    assert EmitsTo(mapping, entries[i], entries[i].0);
    TableNoClash(mapping, cols, names, entries, i, entries[i].0);
    RenameKeepsUnmapped(entries, mapping, i);
  }

  /** On a standings row whose columns are distinct and where no column already carries one of the
      new names, team_columns_rename moves the c-th stat column (GP, W, T, L, OTL, PTS, Streak,
      Tie Breaker) to the c-th new name (gamesPlayed, wins, ties, losses, overtimeLosses, points,
      streak, tieBreaker) with its value. */
  lemma TeamColumnsRenamed<V>(entries: seq<(string, V)>, i: nat, c: nat)
    requires CleanRow(entries, StatNames)
    requires i < |entries| && c < |StatColumns| && entries[i].0 == StatColumns[c]
    ensures StatNames[c] in Renamed(entries, TeamColumnsRename<V>())
    ensures Renamed(entries, TeamColumnsRename<V>())[StatNames[c]] == entries[i].1
  {
    TeamColumnsTable<V>();
    TableRenames(TeamColumnsRename<V>(), StatColumns, StatNames, entries, i, c);
  }

  /** On such a row every other column (Team's id and name, G, ...) keeps its name and value. */
  lemma TeamColumnsKeepOthers<V>(entries: seq<(string, V)>, i: nat)
    requires CleanRow(entries, StatNames)
    requires i < |entries| && entries[i].0 !in StatColumns
    ensures entries[i].0 in Renamed(entries, TeamColumnsRename<V>())
    ensures Renamed(entries, TeamColumnsRename<V>())[entries[i].0] == entries[i].1
  {
    TeamColumnsTable<V>();
    TableKeepsOthers(TeamColumnsRename<V>(), StatColumns, StatNames, entries, i);
  }

  // ---------------------------------------------------------------------------
  // Cell converters

  /** A table body cell read with extract_links='body': its text and its link, if any. */
  datatype Cell = Cell(text: string, link: Option<string>)

  /** NO_LINK_INT: int of the text, 0 for an empty cell; None where int() raises ValueError. */
  function NoLinkInt(a: Cell): (r: Option<int>)
    ensures a.text == [] ==> r == Some(0)
    ensures a.text != [] ==> r == ParseInt(a.text)
  {
    if a.text != [] then ParseInt(a.text) else Some(0)
  }

  /** NO_LINK: the text of the cell, '' for an empty one; the link is dropped. */
  function NoLink(a: Cell): (r: string)
    ensures r == a.text
  {
    if a.text != [] then a.text else ""
  }

  /** A number written into a cell reads back whatever link the cell carries. */
  lemma NoLinkIntOfNumber(n: int, link: Option<string>)
    ensures NoLinkInt(Cell(IntToString(n), link)) == Some(n)
  {
    ParseIntOfIntToString(n);
  }
}
