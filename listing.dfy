/** The post-processing of Database.list_season_divisions: the joined (season, division, team)
    rows are grouped into one division per (division_id, conference_id) pair, the teams of each
    division are sorted by name, and the divisions are sorted by name. */
module Listing {
  import opened Wrappers
  import opened Sorting

  /** One row of the join of TeamStats, Divisions, Seasons and Teams. */
  datatype JoinRow = JoinRow(seasonId: int, seasonName: string, divisionId: int, conferenceId: int,
                             divisionName: string, teamId: int, teamName: string)

  datatype TeamEntry = TeamEntry(teamId: int, name: string)

  datatype DivisionGroup = DivisionGroup(divisionId: int, conferenceId: int, name: string, teams: seq<TeamEntry>)

  function RowKey(r: JoinRow): (int, int) {
    (r.divisionId, r.conferenceId)
  }

  function GroupKey(g: DivisionGroup): (int, int) {
    (g.divisionId, g.conferenceId)
  }

  function Entry(r: JoinRow): TeamEntry {
    TeamEntry(r.teamId, r.teamName)
  }

  /** The position of the division with that key, if there is one. */
  function FindGroup(groups: seq<DivisionGroup>, key: (int, int)): (r: Option<nat>)
    ensures r.Some? ==> r.value < |groups| && GroupKey(groups[r.value]) == key
    ensures r.None? ==> forall i :: 0 <= i < |groups| ==> GroupKey(groups[i]) != key
    decreases |groups|
  {
    if groups == [] then None
    else if GroupKey(groups[|groups| - 1]) == key then Some(|groups| - 1)
    else FindGroup(groups[..|groups| - 1], key)
  }

  /** The divisions dict after one more row: a new division, named by this row, for a new key;
      otherwise the team is appended to the existing one. */
  function AddRow(groups: seq<DivisionGroup>, r: JoinRow): seq<DivisionGroup> {
    match FindGroup(groups, RowKey(r))
    case None => groups + [DivisionGroup(r.divisionId, r.conferenceId, r.divisionName, [Entry(r)])]
    case Some(i) => groups[i := groups[i].(teams := groups[i].teams + [Entry(r)])]
  }

  /** list(divisions.values()) after the grouping loop. */
  function Grouped(rows: seq<JoinRow>): seq<DivisionGroup>
    decreases |rows|
  {
    if rows == [] then [] else AddRow(Grouped(rows[..|rows| - 1]), rows[|rows| - 1])
  }

  /** The teams of the rows with that key, in row order. */
  function EntriesWithKey(rows: seq<JoinRow>, key: (int, int)): seq<TeamEntry>
    decreases |rows|
  {
    if rows == [] then []
    else EntriesWithKey(rows[..|rows| - 1], key)
         + (if RowKey(rows[|rows| - 1]) == key then [Entry(rows[|rows| - 1])] else [])
  }

  predicate DistinctGroupKeys(groups: seq<DivisionGroup>) {
    forall i, j :: 0 <= i < j < |groups| ==> GroupKey(groups[i]) != GroupKey(groups[j])
  }

  /** The grouping keeps one division per key, holding exactly the teams of the rows with that
      key in row order, and every key of the rows has its division. */
  predicate GroupsRows(groups: seq<DivisionGroup>, rows: seq<JoinRow>) {
    && DistinctGroupKeys(groups)
    && (forall i :: 0 <= i < |groups| ==> groups[i].teams == EntriesWithKey(rows, GroupKey(groups[i])))
    && (forall j :: 0 <= j < |rows| ==> exists i :: 0 <= i < |groups| && GroupKey(groups[i]) == RowKey(rows[j]))
  }

  /** A key no row carries has no teams. */
  lemma {:induction false} NoEntriesWithoutKey(rows: seq<JoinRow>, key: (int, int))
    requires forall j :: 0 <= j < |rows| ==> RowKey(rows[j]) != key
    ensures EntriesWithKey(rows, key) == []
    decreases |rows|
  {
    if rows != [] {
      NoEntriesWithoutKey(rows[..|rows| - 1], key);
    }
  }

  /** Appending a row to the rows appends its team to the key's entries. */
  lemma EntriesWithKeySnoc(front: seq<JoinRow>, r: JoinRow, key: (int, int))
    ensures EntriesWithKey(front + [r], key)
            == EntriesWithKey(front, key) + (if RowKey(r) == key then [Entry(r)] else [])
  {
    assert (front + [r])[..|front|] == front;
  }

  /** A row with a new key opens a new division at the end. */
  lemma AddRowNew(g: seq<DivisionGroup>, front: seq<JoinRow>, r: JoinRow)
    requires GroupsRows(g, front)
    requires FindGroup(g, RowKey(r)).None?
    ensures GroupsRows(AddRow(g, r), front + [r])
  {
    var rows := front + [r];
    var key := RowKey(r);
    NoEntriesWithoutKeyOfGroups(g, front, key);
    var h := g + [DivisionGroup(r.divisionId, r.conferenceId, r.divisionName, [Entry(r)])];
    assert AddRow(g, r) == h;
    forall i | 0 <= i < |h|
      ensures h[i].teams == EntriesWithKey(rows, GroupKey(h[i]))
    {
      EntriesWithKeySnoc(front, r, GroupKey(h[i]));
    }
    forall j | 0 <= j < |rows|
      ensures exists i :: 0 <= i < |h| && GroupKey(h[i]) == RowKey(rows[j])
    {
      if j < |front| {
        var i :| 0 <= i < |g| && GroupKey(g[i]) == RowKey(front[j]);
        assert GroupKey(h[i]) == RowKey(rows[j]);
      } else {
        assert GroupKey(h[|g|]) == RowKey(rows[j]);
      }
    }
  }

  /** A row with a known key adds its team to that division. */
  lemma AddRowExisting(g: seq<DivisionGroup>, front: seq<JoinRow>, r: JoinRow)
    requires GroupsRows(g, front)
    requires FindGroup(g, RowKey(r)).Some?
    ensures GroupsRows(AddRow(g, r), front + [r])
  {
    var rows := front + [r];
    var i := FindGroup(g, RowKey(r)).value;
    var h := g[i := g[i].(teams := g[i].teams + [Entry(r)])];
    assert AddRow(g, r) == h;
    assert forall m :: 0 <= m < |h| ==> GroupKey(h[m]) == GroupKey(g[m]);
    forall m | 0 <= m < |h|
      ensures h[m].teams == EntriesWithKey(rows, GroupKey(h[m]))
    {
      EntriesWithKeySnoc(front, r, GroupKey(h[m]));
    }
    forall j | 0 <= j < |rows|
      ensures exists m :: 0 <= m < |h| && GroupKey(h[m]) == RowKey(rows[j])
    {
      if j < |front| {
        var m :| 0 <= m < |g| && GroupKey(g[m]) == RowKey(front[j]);
        assert GroupKey(h[m]) == RowKey(rows[j]);
      } else {
        assert GroupKey(h[i]) == RowKey(rows[j]);
      }
    }
  }

  /** The grouping keeps one division per key, with exactly that key's teams in row order. */
  lemma {:induction false} GroupedGroupsRows(rows: seq<JoinRow>)
    ensures GroupsRows(Grouped(rows), rows)
    decreases |rows|
  {
    if rows != [] {
      var n := |rows| - 1;
      var front := rows[..n];
      GroupedGroupsRows(front);
      assert rows == front + [rows[n]];
      if FindGroup(Grouped(front), RowKey(rows[n])).None? {
        AddRowNew(Grouped(front), front, rows[n]);
      } else {
        AddRowExisting(Grouped(front), front, rows[n]);
      }
    }
  }

  /** A key with no division so far has no row so far. */
  lemma NoEntriesWithoutKeyOfGroups(groups: seq<DivisionGroup>, rows: seq<JoinRow>, key: (int, int))
    requires GroupsRows(groups, rows)
    requires forall i :: 0 <= i < |groups| ==> GroupKey(groups[i]) != key
    ensures EntriesWithKey(rows, key) == []
  {
    forall j | 0 <= j < |rows|
      ensures RowKey(rows[j]) != key
    {
      var i :| 0 <= i < |groups| && GroupKey(groups[i]) == RowKey(rows[j]);
    }
    NoEntriesWithoutKey(rows, key);
  }

  /** The first row with key k carries the division name `name`. */
  predicate FirstRowNames(rows: seq<JoinRow>, k: (int, int), name: string) {
    exists j :: 0 <= j < |rows| && RowKey(rows[j]) == k && rows[j].divisionName == name
                && forall m :: 0 <= m < j ==> RowKey(rows[m]) != k
  }

  lemma FirstRowExtends(front: seq<JoinRow>, r: JoinRow, k: (int, int), name: string)
    requires FirstRowNames(front, k, name)
    ensures FirstRowNames(front + [r], k, name)
  {
    var rows := front + [r];
    var j :| 0 <= j < |front| && RowKey(front[j]) == k && front[j].divisionName == name
             && forall m :: 0 <= m < j ==> RowKey(front[m]) != k;
    assert rows[j] == front[j];
    assert forall m :: 0 <= m < j ==> rows[m] == front[m];
  }

  lemma FirstRowNew(front: seq<JoinRow>, r: JoinRow)
    requires forall m :: 0 <= m < |front| ==> RowKey(front[m]) != RowKey(r)
    ensures FirstRowNames(front + [r], RowKey(r), r.divisionName)
  {
    var rows := front + [r];
    assert rows[|front|] == r;
    assert forall m :: 0 <= m < |front| ==> rows[m] == front[m];
  }

  /** Each division is named by the first row with its key. */
  lemma {:induction false} GroupNamedByFirstRow(rows: seq<JoinRow>, i: nat)
    requires i < |Grouped(rows)|
    ensures FirstRowNames(rows, GroupKey(Grouped(rows)[i]), Grouped(rows)[i].name)
    decreases |rows|
  {
    var n := |rows| - 1;
    var front := rows[..n];
    var r := rows[n];
    var g := Grouped(front);
    assert rows == front + [r];
    match FindGroup(g, RowKey(r))
    case None =>
      if i < |g| {
        GroupNamedByFirstRow(front, i);
        FirstRowExtends(front, r, GroupKey(g[i]), g[i].name);
      } else {
        GroupedGroupsRows(front);
        forall m | 0 <= m < n
          ensures RowKey(front[m]) != RowKey(r)
        {
          var q :| 0 <= q < |g| && GroupKey(g[q]) == RowKey(front[m]);
        }
        FirstRowNew(front, r);
      }
    case Some(m) =>
      assert GroupKey(Grouped(rows)[i]) == GroupKey(g[i]) && Grouped(rows)[i].name == g[i].name;
      GroupNamedByFirstRow(front, i);
      FirstRowExtends(front, r, GroupKey(g[i]), g[i].name);
  }

  // ---------------------------------------------------------------------------
  // After sorting

  /** What list_season_divisions returns about the rows: one division per key some row carries,
      named by the first row with that key and carrying exactly the teams of that key's rows,
      sorted by name, and the divisions sorted by name. */
  predicate Listed(divisions: seq<DivisionGroup>, rows: seq<JoinRow>) {
    && DistinctGroupKeys(divisions)
    && (forall i :: 0 <= i < |divisions| ==> FirstRowNames(rows, GroupKey(divisions[i]), divisions[i].name))
    && SortedBy(divisions, (g: DivisionGroup) => g.name)
    && (forall i :: 0 <= i < |divisions| ==>
          && SortedBy(divisions[i].teams, (t: TeamEntry) => t.name)
          && multiset(divisions[i].teams) == multiset(EntriesWithKey(rows, GroupKey(divisions[i]))))
    && (forall j :: 0 <= j < |rows| ==>
          exists i :: 0 <= i < |divisions| && GroupKey(divisions[i]) == RowKey(rows[j]))
  }

  /** The divisions after their team lists are sorted: the same divisions, in the same order,
      with each team list sorted and holding the same teams. */
  predicate TeamsSorted(sorted: seq<DivisionGroup>, groups: seq<DivisionGroup>) {
    && |sorted| == |groups|
    && forall i :: 0 <= i < |groups| ==>
         && sorted[i] == groups[i].(teams := sorted[i].teams)
         && SortedBy(sorted[i].teams, (t: TeamEntry) => t.name)
         && multiset(sorted[i].teams) == multiset(groups[i].teams)
  }

  lemma CountOfRepeated<T>(a: seq<T>, i: nat, j: nat)
    requires i < j < |a|
    ensures a[i] == a[j] ==> multiset(a)[a[i]] >= 2
  {
    if a[i] == a[j] {
      assert a == a[..j] + [a[j]] + a[j + 1..];
      assert a[..j][i] == a[i];
      assert multiset(a[..j])[a[i]] >= 1;
    }
  }

  lemma CountOfDistinct(b: seq<DivisionGroup>, p: nat)
    requires DistinctGroupKeys(b) && p < |b|
    ensures multiset(b)[b[p]] == 1
  {
    assert b == b[..p] + [b[p]] + b[p + 1..];
    var head, tail := b[..p], b[p + 1..];
    assert forall k :: 0 <= k < |head| ==> head[k] != b[p];
    assert forall k :: 0 <= k < |tail| ==> tail[k] != b[p];
    assert b[p] !in multiset(head);
    assert b[p] !in multiset(tail);
  }

  /** Reordering the divisions keeps the keys distinct. */
  lemma DistinctKeysOfPermutation(a: seq<DivisionGroup>, b: seq<DivisionGroup>)
    requires multiset(a) == multiset(b) && DistinctGroupKeys(b)
    ensures DistinctGroupKeys(a)
  {
    forall i, j | 0 <= i < j < |a|
      ensures GroupKey(a[i]) != GroupKey(a[j])
    {
      assert a[i] in multiset(b) && a[j] in multiset(b);
      var p :| 0 <= p < |b| && b[p] == a[i];
      var q :| 0 <= q < |b| && b[q] == a[j];
      CountOfDistinct(b, p);
      CountOfRepeated(a, i, j);
      assert p < q ==> GroupKey(b[p]) != GroupKey(b[q]);
      assert q < p ==> GroupKey(b[q]) != GroupKey(b[p]);
    }
  }

  /** Sorting every team list and then the divisions, as list_season_divisions does, gives a
      listing of the rows. */
  lemma ListedAfterSorting(rows: seq<JoinRow>, sorted: seq<DivisionGroup>, divisions: seq<DivisionGroup>)
    requires TeamsSorted(sorted, Grouped(rows))
    requires multiset(divisions) == multiset(sorted)
    requires SortedBy(divisions, (g: DivisionGroup) => g.name)
    ensures Listed(divisions, rows)
  {
    var groups := Grouped(rows);
    GroupedGroupsRows(rows);
    assert forall i :: 0 <= i < |sorted| ==> GroupKey(sorted[i]) == GroupKey(groups[i]);
    assert DistinctGroupKeys(sorted);
    DistinctKeysOfPermutation(divisions, sorted);
    forall i | 0 <= i < |divisions|
      ensures FirstRowNames(rows, GroupKey(divisions[i]), divisions[i].name)
      ensures SortedBy(divisions[i].teams, (t: TeamEntry) => t.name)
      ensures multiset(divisions[i].teams) == multiset(EntriesWithKey(rows, GroupKey(divisions[i])))
    {
      assert divisions[i] in multiset(sorted);
      var p :| 0 <= p < |sorted| && sorted[p] == divisions[i];
      GroupNamedByFirstRow(rows, p);
      assert GroupKey(sorted[p]) == GroupKey(groups[p]) && sorted[p].name == groups[p].name;
    }
    forall j | 0 <= j < |rows|
      ensures exists i :: 0 <= i < |divisions| && GroupKey(divisions[i]) == RowKey(rows[j])
    {
      var p :| 0 <= p < |groups| && GroupKey(groups[p]) == RowKey(rows[j]);
      assert sorted[p] in multiset(divisions);
      var i :| 0 <= i < |divisions| && divisions[i] == sorted[p];
    }
  }

  // ---------------------------------------------------------------------------
  // The loops of list_season_divisions

  /** The grouping loop over the fetched rows. */
  method GroupRows(rows: seq<JoinRow>) returns (groups: seq<DivisionGroup>)
    ensures groups == Grouped(rows)
    ensures GroupsRows(groups, rows)
  {
    groups := [];
    var i := 0;
    while i < |rows|
      invariant 0 <= i <= |rows|
      invariant groups == Grouped(rows[..i])
    {
      var row := rows[i];
      assert rows[..i + 1][..i] == rows[..i];
      var found := FindGroup(groups, RowKey(row));
      if found.None? {
        groups := groups + [DivisionGroup(row.divisionId, row.conferenceId, row.divisionName, [Entry(row)])];
      } else {
        var g := found.value;
        groups := groups[g := groups[g].(teams := groups[g].teams + [Entry(row)])];
      }
      i := i + 1;
    }
    assert rows[..|rows|] == rows;
    GroupedGroupsRows(rows);
  }

  /** The loop sorting each division's teams by name. */
  method SortTeamLists(groups: seq<DivisionGroup>) returns (sorted: seq<DivisionGroup>)
    ensures TeamsSorted(sorted, groups)
  {
    sorted := groups;
    var k := 0;
    while k < |sorted|
      invariant 0 <= k <= |sorted| == |groups|
      invariant forall m :: k <= m < |sorted| ==> sorted[m] == groups[m]
      invariant forall m :: 0 <= m < k ==>
                  && sorted[m] == groups[m].(teams := sorted[m].teams)
                  && SortedBy(sorted[m].teams, (t: TeamEntry) => t.name)
                  && multiset(sorted[m].teams) == multiset(groups[m].teams)
    {
      var teams := SortBy(sorted[k].teams, (t: TeamEntry) => t.name);
      sorted := sorted[k := sorted[k].(teams := teams)];
      k := k + 1;
    }
  }
}
