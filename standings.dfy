/** The standings page of one season: scrape_season_divisions, which cuts the page's flat list of
    table rows into one block per division header, and ordinal, which writes a team's place. */
module Standings {
  import opened Wrappers
  import opened Text
  import opened Query

  // ---------------------------------------------------------------------------
  // Place labels

  /** The English suffix ordinal picks, from Python's n % 100 and n % 10 (both never negative,
      like Dafny's % with a positive divisor). */
  function OrdinalSuffix(n: int): string {
    if 11 <= n % 100 <= 13 then "th"
    else if n % 10 == 1 then "st"
    else if n % 10 == 2 then "nd"
    else if n % 10 == 3 then "rd"
    else "th"
  }

  /** ordinal(n): f"{n}" followed by the suffix. */
  function Ordinal(n: int): (s: string)
    ensures |s| == |IntToString(n)| + 2
    ensures s[..|IntToString(n)|] == IntToString(n)
  {
    IntToString(n) + OrdinalSuffix(n)
  }

  /** The suffix read off the written number, as a reader would: "st", "nd", "rd" after a last
      digit 1, 2, 3 that is not preceded by the tens digit 1, "th" otherwise. */
  function SuffixOfDigits(d: string): string
    requires d != []
  {
    var last := d[|d| - 1];
    var teen := |d| >= 2 && d[|d| - 2] == '1';
    if !teen && last == '1' then "st"
    else if !teen && last == '2' then "nd"
    else if !teen && last == '3' then "rd"
    else "th"
  }

  /** For every place number (n >= 0), ordinal's arithmetic on n % 100 and n % 10 picks the suffix
      the written digits call for: 1st, 2nd, 3rd, 4th, 11th, 12th, 13th, 21st, 111th, 112th, ... */
  lemma OrdinalMatchesDigits(n: nat)
    ensures Ordinal(n) == NatToString(n) + SuffixOfDigits(NatToString(n))
  {
    var d := NatToString(n);
    LastDigit(n);
    TeenRange(n);
    var teen := |d| >= 2 && d[|d| - 2] == '1';
    if n >= 10 {
      TensDigit(n);
      assert teen == (n / 10 % 10 == 1);
    } else {
      assert !teen && n / 10 % 10 == 0;
    }
    assert SuffixOfDigits(d) == OrdinalSuffix(n);
  }

  /** The last digit written is n % 10. */
  lemma LastDigit(n: nat)
    ensures var d := NatToString(n); d[|d| - 1] == DigitChar(n % 10)
  {
  }

  /** For n >= 10 the digit before the last is n / 10 % 10. */
  lemma TensDigit(n: nat)
    requires n >= 10
    ensures var d := NatToString(n); |d| >= 2 && d[|d| - 2] == DigitChar(n / 10 % 10)
  {
    var e := NatToString(n / 10);
    assert NatToString(n) == e + [DigitChar(n % 10)];
    LastDigit(n / 10);
  }

  /** n % 100 lies in 11..13 exactly when the tens digit is 1 and the last digit is 1, 2 or 3. */
  lemma TeenRange(n: nat)
    ensures (11 <= n % 100 <= 13) <==> (n / 10 % 10 == 1 && 1 <= n % 10 <= 3)
  {
    assert n % 100 == (n / 10 % 10) * 10 + n % 10;
  }

  /** Cutting the two-letter suffix off an ordinal and reading the rest with int() gives n back. */
  lemma OrdinalReadsBack(n: int)
    ensures ParseInt(Ordinal(n)[..|Ordinal(n)| - 2]) == Some(n)
  {
    ParseIntOfIntToString(n);
  }

  /** Under Python's floor %, a negative n takes the suffix a reader would give the place
      n % 100 (which lies in 0..99): -1 is read as 99 and gets "th", -9 as 91 and gets "st". */
  lemma OrdinalOfNegative(n: int)
    requires n < 0
    ensures OrdinalSuffix(n) == SuffixOfDigits(NatToString(n % 100))
    ensures Ordinal(n) == IntToString(n) + SuffixOfDigits(NatToString(n % 100))
  {
    var m: nat := n % 100;
    SameResidues(n);
    assert OrdinalSuffix(n) == OrdinalSuffix(m);
    OrdinalMatchesDigits(m);
    var d := NatToString(m);
    assert Ordinal(m) == d + OrdinalSuffix(m);
    assert Ordinal(m)[|d|..] == OrdinalSuffix(m);
    assert (d + SuffixOfDigits(d))[|d|..] == SuffixOfDigits(d);
  }

  /** n % 100 has the same residues modulo 100 and 10 as n. */
  lemma SameResidues(n: int)
    ensures n % 100 % 100 == n % 100 && n % 100 % 10 == n % 10
  {
    var m := n % 100;
    var q := n / 100;
    var a, b := m % 10, m / 10;
    assert m == 10 * b + a;
    assert n == 10 * (10 * q + b) + a;
    ModOfTen(n, 10 * q + b, a);
  }

  lemma ModOfTen(x: int, k: int, a: int)
    requires x == 10 * k + a && 0 <= a < 10
    ensures x % 10 == a
  {
  }

  /** Instances: ordinal(-1) is "-1th", ordinal(-9) "-9st", ordinal(-8) "-8nd", ordinal(-7)
      "-7rd", ordinal(-11) "-11th". */
  lemma OrdinalOfNegativeExamples()
    ensures OrdinalSuffix(-1) == "th" && OrdinalSuffix(-9) == "st" && OrdinalSuffix(-8) == "nd"
    ensures OrdinalSuffix(-7) == "rd" && OrdinalSuffix(-11) == "th"
  {
    assert -1 % 100 == 99 && -1 % 10 == 9;
    assert -9 % 100 == 91 && -9 % 10 == 1;
    assert -8 % 100 == 92 && -8 % 10 == 2;
    assert -7 % 100 == 93 && -7 % 10 == 3;
    assert -11 % 100 == 89 && -11 % 10 == 9;
  }

  // ---------------------------------------------------------------------------
  // Division blocks

  /** One <tr> of the standings table. A header row (one holding a <th>) carries the text of its
      header cell and the href of the link in the row after it, None where that row has no link;
      any other row is a team row, kept as the record pandas reads from it. */
  datatype Row<T> = Header(text: string, statsLink: Option<string>) | TeamRow(team: T)

  /** The level name and the ids read from the most recent division header. */
  datatype Label = Label(level: string, divisionId: int, conferenceId: int)

  datatype Division<T> = Division(name: string, id: int, conferenceId: int, seasonId: int, teams: seq<T>)

  /** MissingLink: the row after a division header has no link (an AttributeError or TypeError);
      BadLinkValue: the link has no 'level' or 'conf' value, or one int() rejects. */
  datatype ScrapeError = MissingLink | BadLinkValue

  const NoLabel := Label("", 0, 0)

  /** The headers that start a division: "Adult Division ..." and "Senior ...". */
  predicate IsDivisionHeader(header: string) {
    StartsWith(header, "Adult Division") || StartsWith(header, "Senior")
  }

  /** int(util.get_value_from_link(link, key)). */
  function LinkNumber(link: string, key: string): Result<int, ScrapeError> {
    var v := GetValueFromLink(Trim(link), key);
    if v.None? then Err(BadLinkValue)
    else
      var n := ParseInt(v.value);
      if n.None? then Err(BadLinkValue) else Ok(n.value)
  }

  /** The label after a header: a division header sets the level to its text and reads both ids
      from its link; any other header keeps the previous current. */
  function HeaderLabel(text: string, statsLink: Option<string>, prev: Label): Result<Label, ScrapeError> {
    var header := Trim(text);
    if !IsDivisionHeader(header) then Ok(prev)
    else if statsLink.None? then Err(MissingLink)
    else
      var level := LinkNumber(statsLink.value, "level");
      var conf := LinkNumber(statsLink.value, "conf");
      if level.Err? then Err(level.error)
      else if conf.Err? then Err(conf.error)
      else Ok(Label(header, level.value, conf.value))
  }

  /** How a header row moves the label; scrape_season_divisions uses HeaderLabel. The segmentation
      below is stated for any such reader. */
  type Reader = (string, Option<string>, Label) -> Result<Label, ScrapeError>

  /** The label in force after a prefix of the rows, or the first error its headers raise. */
  function LabelOf<T>(rows: seq<Row<T>>, read: Reader): Result<Label, ScrapeError>
    decreases |rows|
  {
    if rows == [] then Ok(NoLabel)
    else
      var prev := LabelOf(rows[..|rows| - 1], read);
      var r := rows[|rows| - 1];
      if prev.Err? || r.TeamRow? then prev
      else read(r.text, r.statsLink, prev.value)
  }

  /** The rows of the block still open after a prefix: from its last header on (all of it when
      there is no header). */
  function OpenBlock<T>(rows: seq<Row<T>>): seq<Row<T>>
    decreases |rows|
  {
    if rows == [] then []
    else if rows[|rows| - 1].TeamRow? then OpenBlock(rows[..|rows| - 1]) + [rows[|rows| - 1]]
    else [rows[|rows| - 1]]
  }

  /** The teams of a block: its team rows, in order. */
  function Teams<T>(block: seq<Row<T>>): seq<T>
    decreases |block|
  {
    if block == [] then []
    else Teams(block[..|block| - 1]) + (if block[|block| - 1].TeamRow? then [block[|block| - 1].team] else [])
  }

  /** A block becomes a division only when it holds more than one row. */
  function Flush<T>(seasonId: int, current: Label, block: seq<Row<T>>): seq<Division<T>> {
    if |block| > 1 then [Division(current.level, current.divisionId, current.conferenceId, seasonId, Teams(block))]
    else []
  }

  /** The divisions the headers of a prefix have closed. */
  function Closed<T>(seasonId: int, rows: seq<Row<T>>, read: Reader): seq<Division<T>>
    requires LabelOf(rows, read).Ok?
    decreases |rows|
  {
    if rows == [] then []
    else
      var front := rows[..|rows| - 1];
      if rows[|rows| - 1].TeamRow? then Closed(seasonId, front, read)
      else Closed(seasonId, front, read) + Flush(seasonId, LabelOf(front, read).value, OpenBlock(front))
  }

  /** What scrape_season_divisions returns for a page: the closed divisions and the last block. */
  function Scrape<T>(seasonId: int, rows: seq<Row<T>>, read: Reader): Result<seq<Division<T>>, ScrapeError> {
    var current := LabelOf(rows, read);
    if current.Err? then Err(current.error)
    else Ok(Closed(seasonId, rows, read) + Flush(seasonId, current.value, OpenBlock(rows)))
  }

  /** The label after one more row. */
  function NextLabel<T>(prev: Result<Label, ScrapeError>, r: Row<T>, read: Reader): Result<Label, ScrapeError> {
    if prev.Err? || r.TeamRow? then prev else read(r.text, r.statsLink, prev.value)
  }

  /** One more row, unfolded: how the label, the open block, the closed divisions and the teams of
      a prefix change. */
  lemma Snoc<T>(read: Reader, seasonId: int, front: seq<Row<T>>, r: Row<T>)
    ensures LabelOf(front + [r], read) == NextLabel(LabelOf(front, read), r, read)
    ensures OpenBlock(front + [r]) == if r.TeamRow? then OpenBlock(front) + [r] else [r]
    ensures Teams(front + [r]) == Teams(front) + (if r.TeamRow? then [r.team] else [])
    ensures LabelOf(front + [r], read).Ok? ==>
              Closed(seasonId, front + [r], read)
              == if r.TeamRow? then Closed(seasonId, front, read)
                 else Closed(seasonId, front, read) + Flush(seasonId, LabelOf(front, read).value, OpenBlock(front))
  {
    assert (front + [r])[..|front|] == front;
  }

  /** scrape_season_divisions(season_id) on the rows of the fetched page, headers read by HeaderLabel. */
  method ScrapeSeasonDivisions<T>(seasonId: int, rows: seq<Row<T>>) returns (r: Result<seq<Division<T>>, ScrapeError>)
    ensures r == Scrape(seasonId, rows, HeaderLabel)
  {
    r := SegmentRows(seasonId, rows, HeaderLabel);
  }

  /** The loop of scrape_season_divisions, with `read` standing for the header handling. */
  method SegmentRows<T>(seasonId: int, rows: seq<Row<T>>, read: Reader) returns (r: Result<seq<Division<T>>, ScrapeError>)
    ensures r == Scrape(seasonId, rows, read)
  {
    var divisions: seq<Division<T>> := [];
    var current := NoLabel;
    var tableRows: seq<Row<T>> := [];
    var i := 0;
    while i < |rows|
      invariant 0 <= i <= |rows|
      invariant LabelOf(rows[..i], read) == Ok(current)
      invariant divisions == Closed(seasonId, rows[..i], read)
      invariant tableRows == OpenBlock(rows[..i])
    {
      var row := rows[i];
      assert rows[..i + 1] == rows[..i] + [row];
      Snoc(read, seasonId, rows[..i], row);
      if row.TeamRow? {
        tableRows := tableRows + [row];
      } else {
        if |tableRows| > 1 {
          divisions := divisions + [Division(current.level, current.divisionId, current.conferenceId, seasonId, Teams(tableRows))];
        }
        var next := read(row.text, row.statsLink, current);
        if next.Err? {
          LabelStaysFailed(read, rows, i + 1);
          assert rows[..|rows|] == rows;
          return Err(next.error);
        }
        current := next.value;
        tableRows := [row];
      }
      i := i + 1;
    }
    assert rows[..|rows|] == rows;
    r := Ok(divisions + Flush(seasonId, current, tableRows));
  }

  /** Once a header has failed, every longer prefix fails with the same error. */
  lemma {:induction false} LabelStaysFailed<T>(read: Reader, rows: seq<Row<T>>, k: nat)
    requires k <= |rows| && LabelOf(rows[..k], read).Err?
    ensures LabelOf(rows, read) == LabelOf(rows[..k], read)
    decreases |rows| - k
  {
    if k < |rows| {
      assert rows[..k + 1][..k] == rows[..k];
      LabelStaysFailed(read, rows, k + 1);
    } else {
      assert rows[..k] == rows;
    }
  }

  // ---------------------------------------------------------------------------
  // What the segmentation promises

  /** The label after a division header is read from that header alone. */
  lemma LabelAfterDivisionHeader<T>(rows: seq<Row<T>>, text: string, link: string)
    requires LabelOf(rows, HeaderLabel).Ok? && IsDivisionHeader(Trim(text))
    ensures LabelOf(rows + [Header(text, Some(link))], HeaderLabel) == HeaderLabel(text, Some(link), NoLabel)
  {
    assert (rows + [Header(text, Some(link))])[..|rows|] == rows;
  }

  /** A division header whose stats link carries level and conf numbers (the last of each, as
      dict(parse_qsl(...)) keeps it) is labelled with its stripped text and those two numbers. */
  lemma HeaderLabelFromLink(text: string, path: string, pairs: seq<(string, string)>, fragment: string,
                            level: int, conf: int, prev: Label)
    requires IsDivisionHeader(Trim(text))
    requires path != [] && !IsSpace(path[0]) && '?' !in path && '#' !in path
    requires fragment != [] && !IsSpace(fragment[|fragment| - 1])
    requires PlainPairs(pairs)
    requires LastValue(pairs, "level") == Some(IntToString(level))
    requires LastValue(pairs, "conf") == Some(IntToString(conf))
    ensures HeaderLabel(text, Some(path + "?" + BuildQuery(pairs) + "#" + fragment), prev)
            == Ok(Label(Trim(text), level, conf))
  {
    var link := path + "?" + BuildQuery(pairs) + "#" + fragment;
    assert link[0] == path[0] && link[|link| - 1] == fragment[|fragment| - 1];
    TrimNoSpaceEnds(link);
    ValueFromBuiltLink(path, pairs, fragment, "level");
    ValueFromBuiltLink(path, pairs, fragment, "conf");
    LinkNumberOf(link, "level", level);
    LinkNumberOf(link, "conf", conf);
  }

  lemma LinkNumberOf(link: string, key: string, n: int)
    requires GetValueFromLink(Trim(link), key) == Some(IntToString(n))
    ensures LinkNumber(link, key) == Ok(n)
  {
    ParseIntOfIntToString(n);
  }

  /** Team rows and other headers leave the label as it was. */
  lemma LabelAfterOtherRow<T>(rows: seq<Row<T>>, r: Row<T>)
    requires r.TeamRow? || !IsDivisionHeader(Trim(r.text))
    ensures LabelOf(rows + [r], HeaderLabel) == LabelOf(rows, HeaderLabel)
  {
    assert (rows + [r])[..|rows|] == rows;
  }

  /** The teams of a concatenation are the teams of its parts. */
  lemma {:induction false} TeamsAppend<T>(a: seq<Row<T>>, b: seq<Row<T>>)
    ensures Teams(a + b) == Teams(a) + Teams(b)
    decreases |b|
  {
    if b != [] {
      var n := |b| - 1;
      assert (a + b)[..|a + b| - 1] == a + b[..n];
      TeamsAppend(a, b[..n]);
    } else {
      assert a + b == a;
    }
  }

  /** Page order is kept block by block: scraping a prefix and then one more header with the team
      rows under it adds that block's division, labelled by the label in force after its header,
      exactly when the block has at least one team row. */
  lemma ScrapeAppendBlock<T>(read: Reader, seasonId: int, rows: seq<Row<T>>, header: Row<T>, teams: seq<Row<T>>)
    requires header.Header?
    requires forall j :: 0 <= j < |teams| ==> teams[j].TeamRow?
    requires Scrape(seasonId, rows + [header] + teams, read).Ok?
    ensures Scrape(seasonId, rows, read).Ok? && LabelOf(rows + [header], read).Ok?
    ensures var current := LabelOf(rows + [header], read).value;
            Scrape(seasonId, rows + [header] + teams, read).value
            == Scrape(seasonId, rows, read).value
               + (if teams == [] then [] else [Division(current.level, current.divisionId, current.conferenceId, seasonId, Teams(teams))])
  {
    var front := rows + [header];
    Snoc(read, seasonId, rows, header);
    LabelSkipsTeams(read, front, teams);
    OpenBlockTakesTeams(front, teams);
    ClosedSkipsTeams(read, seasonId, front, teams);
    TeamsAppend([header], teams);
    assert Teams([header]) == [] by { assert [header][..0] == []; }
    var current := LabelOf(front, read).value;
    assert Closed(seasonId, front, read) == Scrape(seasonId, rows, read).value;
    assert OpenBlock(front + teams) == [header] + teams;
    assert Teams([header] + teams) == Teams(teams);
    assert |[header] + teams| > 1 <==> teams != [];
    assert Flush(seasonId, current, [header] + teams)
           == (if teams == [] then [] else [Division(current.level, current.divisionId, current.conferenceId, seasonId, Teams(teams))]);
    assert Scrape(seasonId, front + teams, read).value
           == Closed(seasonId, front, read) + Flush(seasonId, current, [header] + teams);
  }

  /** Team rows appended after a prefix leave its label as it was. */
  lemma {:induction false} LabelSkipsTeams<T>(read: Reader, rows: seq<Row<T>>, teams: seq<Row<T>>)
    requires forall j :: 0 <= j < |teams| ==> teams[j].TeamRow?
    ensures LabelOf(rows + teams, read) == LabelOf(rows, read)
    decreases |teams|
  {
    if teams != [] {
      var n := |teams| - 1;
      assert rows + teams == (rows + teams[..n]) + [teams[n]];
      Snoc(read, 0, rows + teams[..n], teams[n]);
      LabelSkipsTeams(read, rows, teams[..n]);
    } else {
      assert rows + teams == rows;
    }
  }

  /** Team rows appended after a prefix extend its open block. */
  lemma {:induction false} OpenBlockTakesTeams<T>(rows: seq<Row<T>>, teams: seq<Row<T>>)
    requires forall j :: 0 <= j < |teams| ==> teams[j].TeamRow?
    ensures OpenBlock(rows + teams) == OpenBlock(rows) + teams
    decreases |teams|
  {
    if teams != [] {
      var n := |teams| - 1;
      assert rows + teams == (rows + teams[..n]) + [teams[n]];
      assert (rows + teams)[..|rows + teams| - 1] == rows + teams[..n];
      OpenBlockTakesTeams(rows, teams[..n]);
      assert OpenBlock(rows) + teams == (OpenBlock(rows) + teams[..n]) + [teams[n]];
    } else {
      assert rows + teams == rows;
    }
  }

  /** Team rows appended after a prefix close no division. */
  lemma {:induction false} ClosedSkipsTeams<T>(read: Reader, seasonId: int, rows: seq<Row<T>>, teams: seq<Row<T>>)
    requires forall j :: 0 <= j < |teams| ==> teams[j].TeamRow?
    requires LabelOf(rows, read).Ok?
    ensures LabelOf(rows + teams, read).Ok?
    ensures Closed(seasonId, rows + teams, read) == Closed(seasonId, rows, read)
    decreases |teams|
  {
    LabelSkipsTeams(read, rows, teams);
    if teams != [] {
      var n := |teams| - 1;
      assert rows + teams == (rows + teams[..n]) + [teams[n]];
      LabelSkipsTeams(read, rows, teams[..n]);
      Snoc(read, seasonId, rows + teams[..n], teams[n]);
      ClosedSkipsTeams(read, seasonId, rows, teams[..n]);
    } else {
      assert rows + teams == rows;
    }
  }

  /** All the teams of the divisions, in order. */
  function AllTeams<T>(divisions: seq<Division<T>>): seq<T>
    decreases |divisions|
  {
    if divisions == [] then [] else AllTeams(divisions[..|divisions| - 1]) + divisions[|divisions| - 1].teams
  }

  lemma {:induction false} AllTeamsAppend<T>(a: seq<Division<T>>, b: seq<Division<T>>)
    ensures AllTeams(a + b) == AllTeams(a) + AllTeams(b)
    decreases |b|
  {
    if b != [] {
      var n := |b| - 1;
      assert (a + b)[..|a + b| - 1] == a + b[..n];
      AllTeamsAppend(a, b[..n]);
    } else {
      assert a + b == a;
    }
  }

  /** While the page is scanned, every team row seen so far is in a closed division or in the open
      block, in order. */
  lemma {:induction false} TeamsAccounted<T>(read: Reader, seasonId: int, rows: seq<Row<T>>)
    requires rows != [] && rows[0].Header?
    requires LabelOf(rows, read).Ok?
    ensures OpenBlock(rows) != [] && OpenBlock(rows)[0].Header?
    ensures AllTeams(Closed(seasonId, rows, read)) + Teams(OpenBlock(rows)) == Teams(rows)
    decreases |rows|
  {
    var n := |rows| - 1;
    var front := rows[..n];
    var last := rows[n];
    assert rows == front + [last];
    if n == 0 {
      assert rows == [last];
      assert Teams(rows) == [] by { assert rows[..0] == []; }
      assert OpenBlock(rows) == [last];
    } else {
      assert front[0] == rows[0];
      TeamsAccounted(read, seasonId, front);
      var block := OpenBlock(front);
      if last.TeamRow? {
        assert OpenBlock(rows) == block + [last];
        assert Teams(rows) == Teams(front) + [last.team];
        assert Teams(block + [last]) == Teams(block) + [last.team] by {
          assert (block + [last])[..|block|] == block;
        }
      } else {
        assert OpenBlock(rows) == [last];
        assert Teams([last]) == [] by { assert [last][..0] == []; }
        assert Teams(rows) == Teams(front);
        var flushed := Flush(seasonId, LabelOf(front, read).value, block);
        AllTeamsAppend(Closed(seasonId, front, read), flushed);
        if |block| <= 1 {
          assert block == [block[0]];
          assert Teams(block) == [] by { assert block[..0] == []; }
        } else {
          assert AllTeams(flushed) == Teams(block) by {
            assert flushed[..0] == [];
          }
        }
      }
    }
  }

  /** A page that starts with a header loses no team: the divisions hold every team row, each
      once, in page order. */
  lemma ScrapeKeepsEveryTeam<T>(read: Reader, seasonId: int, rows: seq<Row<T>>)
    requires rows == [] || rows[0].Header?
    requires Scrape(seasonId, rows, read).Ok?
    ensures AllTeams(Scrape(seasonId, rows, read).value) == Teams(rows)
  {
    if rows != [] {
      TeamsAccounted(read, seasonId, rows);
      var block := OpenBlock(rows);
      var flushed := Flush(seasonId, LabelOf(rows, read).value, block);
      AllTeamsAppend(Closed(seasonId, rows, read), flushed);
      if |block| <= 1 {
        assert block == [block[0]];
        assert Teams(block) == [] by { assert block[..0] == []; }
      } else {
        assert AllTeams(flushed) == Teams(block) by { assert flushed[..0] == []; }
      }
    }
  }

  /** A header with no team row under it yields no division. */
  lemma LoneHeaderNoDivision<T>(read: Reader, seasonId: int, rows: seq<Row<T>>, header: Row<T>)
    requires header.Header?
    requires Scrape(seasonId, rows + [header], read).Ok?
    ensures Scrape(seasonId, rows, read).Ok?
    ensures Scrape(seasonId, rows + [header], read).value == Scrape(seasonId, rows, read).value
  {
    assert rows + [header] + [] == rows + [header];
    ScrapeAppendBlock(read, seasonId, rows, header, []);
  }

  /** A division header without a link after it fails the whole scrape. */
  lemma MissingLinkFails<T>(seasonId: int, rows: seq<Row<T>>, text: string, after: seq<Row<T>>)
    requires LabelOf(rows, HeaderLabel).Ok? && IsDivisionHeader(Trim(text))
    ensures Scrape(seasonId, rows + [Header(text, None)] + after, HeaderLabel) == Err(MissingLink)
  {
    var page := rows + [Header(text, None)] + after;
    var k := |rows| + 1;
    assert page[..k] == rows + [Header(text, None)];
    assert page[..k][..|rows|] == rows;
    LabelStaysFailed(HeaderLabel, page, k);
  }
}
