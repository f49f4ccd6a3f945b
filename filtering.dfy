/** The sidebar choices and the row filter built from them
    (Player_involvement_App.py lines 66-80 and 96-111). The widgets
    themselves are not modelled: the chosen bounds and selections are
    parameters. */
module Filtering {
  import opened Cells
  import opened Seqs
  import opened Tables
  import opened Derivation

  const AGE := "Age"
  const POSITION := "Primary Position"
  const COMPETITION := "Competition"

  /** The option every multi-select list starts with. */
  const ALL: Cell := Text("All")

  /** What the user chose in the sidebar: the two slider ranges and the three
      multi-select lists. */
  datatype Selection = Selection(
    ageMin: int, ageMax: int,
    usageMin: int, usageMax: int,
    positions: seq<Cell>, competitions: seq<Cell>, teams: seq<Cell>)

  /** The sliders' initial positions and empty multi-selects. */
  const DEFAULT_SELECTION := Selection(15, 35, 0, 140, [], [], [])

  /** `cell >= bound` on a float column: false for NaN. */
  predicate AtLeast(c: Cell, bound: int)
  {
    (c.Num? && c.v >= bound as real) || (c.Inf? && !c.negative)
  }

  /** `cell <= bound` on a float column: false for NaN. */
  predicate AtMost(c: Cell, bound: int)
  {
    (c.Num? && c.v <= bound as real) || (c.Inf? && c.negative)
  }

  predicate InRange(c: Cell, lo: int, hi: int)
  {
    AtLeast(c, lo) && AtMost(c, hi)
  }

  /** A multi-select restricts the rows only when something is chosen and
      "All" is not among the choices. */
  predicate Restricts(chosen: seq<Cell>)
  {
    |chosen| > 0 && ALL !in chosen
  }

  /** `isin`, applied only when the selection restricts. */
  predicate Admits(chosen: seq<Cell>, c: Cell)
  {
    !Restricts(chosen) || c in chosen
  }

  /** The two range tests of lines 96-99. */
  predicate InRanges(f: Selection, r: Row)
  {
    InRange(Get(r, AGE), f.ageMin, f.ageMax) && InRange(Get(r, USAGE), f.usageMin, f.usageMax)
  }

  /** A row survives lines 96-111 exactly when it passes both ranges and each
      of the three multi-selects admits its value. */
  predicate Keep(f: Selection, r: Row)
    ensures Keep(f, r) ==> Get(r, AGE).Num? && Get(r, USAGE).Num?
    ensures Keep(f, r) ==> f.ageMin <= f.ageMax && f.usageMin <= f.usageMax
  {
    && InRanges(f, r)
    && Admits(f.positions, Get(r, POSITION))
    && Admits(f.competitions, Get(r, COMPETITION))
    && Admits(f.teams, Get(r, TEAM))
  }

  /** The rows kept by the filter, in their original order. */
  function Filtered(rows: seq<Row>, f: Selection): (kept: seq<Row>)
    ensures Subseq(kept, rows)
    ensures forall r :: r in kept <==> r in rows && Keep(f, r)
    ensures forall r :: multiset(kept)[r] == if Keep(f, r) then multiset(rows)[r] else 0
  {
    Where(rows, r => Keep(f, r))
  }

  /** What lines 96-111 require of the table: Age and Usage are read
      unconditionally and compared with integers, and a column is read by
      `isin` only when its selection restricts. */
  predicate Filterable(t: Table, f: Selection)
  {
    && AGE in t.columns && USAGE in t.columns
    && (forall r :: r in t.rows ==> !Get(r, AGE).Text? && !Get(r, USAGE).Text?)
    && (Restricts(f.positions) ==> POSITION in t.columns)
    && (Restricts(f.competitions) ==> COMPETITION in t.columns)
    && (Restricts(f.teams) ==> TEAM in t.columns)
  }

  /** Lines 96-111: the range mask, then each restricting multi-select in
      turn narrows the rows kept so far. */
  method FilterRows(t: Table, f: Selection) returns (kept: Table)
    requires Filterable(t, f)
    ensures kept == Table(t.columns, Filtered(t.rows, f))
  {
    ghost var p0 := (r: Row) => InRanges(f, r);
    ghost var p1 := (r: Row) => p0(r) && Admits(f.positions, Get(r, POSITION));
    ghost var p2 := (r: Row) => p1(r) && Admits(f.competitions, Get(r, COMPETITION));
    ghost var p3 := (r: Row) => p2(r) && Admits(f.teams, Get(r, TEAM));
    var rows := Where(t.rows, r => InRanges(f, r));
    WhereExt(t.rows, r => InRanges(f, r), p0);
    if Restricts(f.positions) {
      WhereWhere(t.rows, p0, r => Get(r, POSITION) in f.positions, p1);
      rows := Where(rows, r => Get(r, POSITION) in f.positions);
    } else {
      WhereExt(t.rows, p0, p1);
    }
    assert rows == Where(t.rows, p1);
    if Restricts(f.competitions) {
      WhereWhere(t.rows, p1, r => Get(r, COMPETITION) in f.competitions, p2);
      rows := Where(rows, r => Get(r, COMPETITION) in f.competitions);
    } else {
      WhereExt(t.rows, p1, p2);
    }
    assert rows == Where(t.rows, p2);
    if Restricts(f.teams) {
      WhereWhere(t.rows, p2, r => Get(r, TEAM) in f.teams, p3);
      rows := Where(rows, r => Get(r, TEAM) in f.teams);
    } else {
      WhereExt(t.rows, p2, p3);
    }
    WhereExt(t.rows, p3, r => Keep(f, r));
    kept := Table(t.columns, rows);
  }

  /** Filtering what was already filtered keeps every row. */
  lemma FilterIdempotent(rows: seq<Row>, f: Selection)
    ensures Filtered(Filtered(rows, f), f) == Filtered(rows, f)
  {
    WhereIdempotent(rows, r => Keep(f, r));
  }

  /** An empty age range or an empty usage range keeps no row. */
  lemma EmptyRangeKeepsNothing(rows: seq<Row>, f: Selection)
    requires f.ageMin > f.ageMax || f.usageMin > f.usageMax
    ensures Filtered(rows, f) == []
  {
  }

  /** With the sliders at their initial positions and nothing chosen in the
      multi-selects, a row is kept exactly when its Age lies in 15..35 and its
      Usage in 0..140. */
  lemma DefaultSelectionKeeps(r: Row)
    ensures Keep(DEFAULT_SELECTION, r) <==>
      && Get(r, AGE).Num? && 15.0 <= Get(r, AGE).v <= 35.0
      && Get(r, USAGE).Num? && 0.0 <= Get(r, USAGE).v <= 140.0
  {
  }

  /** A one-year age range keeps only players of exactly that age. */
  lemma SingleAgeRange(rows: seq<Row>, f: Selection, r: Row)
    requires f.ageMin == f.ageMax
    requires r in Filtered(rows, f)
    ensures Get(r, AGE) == Num(f.ageMin as real)
  {
  }

  /** Choosing "All", or nothing, in a multi-select is the same as not
      filtering on it at all. */
  lemma AllIsNoRestriction(rows: seq<Row>, f: Selection)
    requires !Restricts(f.positions) && !Restricts(f.competitions) && !Restricts(f.teams)
    ensures Filtered(rows, f) == Where(rows, r => InRanges(f, r))
  {
    WhereExt(rows, r => Keep(f, r), r => InRanges(f, r));
  }

  /** Choosing "All" among other teams gives the rows of no choice at all. */
  lemma AllAmongTeams(rows: seq<Row>, f: Selection)
    requires ALL in f.teams
    ensures Filtered(rows, f) == Filtered(rows, f.(teams := []))
  {
    var g := f.(teams := []);
    assert !Restricts(f.teams) && !Restricts(g.teams);
    forall r | r in rows ensures Keep(f, r) == Keep(g, r) {
      assert Admits(f.teams, Get(r, TEAM)) && Admits(g.teams, Get(r, TEAM));
    }
    WhereExt(rows, r => Keep(f, r), r => Keep(g, r));
  }

  /** Lines 66 and 70: "All" followed by the distinct values of a column, in
      the order they first appear. */
  function Options(t: Table, column: string): (opts: seq<Cell>)
    requires column in t.columns
    ensures |opts| >= 1 && opts[0] == ALL
    ensures NoDup(opts[1..])
    ensures forall c :: c in opts[1..] <==> exists r :: r in t.rows && Get(r, column) == c
  {
    var values := ColumnValues(t.rows, column);
    assert forall c :: (exists r :: r in t.rows && Get(r, column) == c) ==> c in values by {
      forall c | exists r :: r in t.rows && Get(r, column) == c ensures c in values {
        var r :| r in t.rows && Get(r, column) == c;
        var i :| 0 <= i < |t.rows| && t.rows[i] == r;
      }
    }
    [ALL] + Unique(values)
  }

  /** Options list the values of the first rows before any value that only
      appears later. */
  lemma {:induction false} OptionsFirstAppearance(t: Table, column: string, n: nat)
    requires column in t.columns && n <= |t.rows|
    ensures Options(Table(t.columns, t.rows[..n]), column) <= Options(t, column)
  {
    var values := ColumnValues(t.rows, column);
    assert ColumnValues(t.rows[..n], column) == values[..n];
    UniquePrefix(values, n);
  }

  /** The rows whose Competition is among `chosen`. */
  function InCompetitions(rows: seq<Row>, chosen: seq<Cell>): (r: seq<Row>)
    ensures forall x :: x in r <==> x in rows && Get(x, COMPETITION) in chosen
  {
    Where(rows, x => Get(x, COMPETITION) in chosen)
  }

  /** Option lists depend only on the columns they read. */
  lemma OptionsCongruent(a: Table, b: Table, column: string)
    requires column in a.columns && column in b.columns && |a.rows| == |b.rows|
    requires forall j :: 0 <= j < |a.rows| ==> Get(a.rows[j], column) == Get(b.rows[j], column)
    ensures Options(a, column) == Options(b, column)
  {
    assert ColumnValues(a.rows, column) == ColumnValues(b.rows, column);
  }

  /** Lines 74-80: with no competition chosen the only team option is "All";
      with "All" chosen, every team; otherwise the teams of the rows in the
      chosen competitions, each once, in order of first appearance. */
  function TeamOptions(t: Table, chosen: seq<Cell>): (opts: seq<Cell>)
    requires |chosen| > 0 ==> TEAM in t.columns
    requires Restricts(chosen) ==> COMPETITION in t.columns
    ensures |opts| >= 1 && opts[0] == ALL
    ensures NoDup(opts[1..])
    ensures |chosen| == 0 ==> opts == [ALL]
    ensures |chosen| > 0 && ALL in chosen ==> opts == Options(t, TEAM)
    ensures Restricts(chosen) ==> opts == Options(Table(t.columns, InCompetitions(t.rows, chosen)), TEAM)
    ensures forall c :: c in opts[1..] <==>
      |chosen| > 0 && exists r :: r in t.rows && Get(r, TEAM) == c && Admits(chosen, Get(r, COMPETITION))
  {
    if |chosen| == 0 then [ALL]
    else if ALL in chosen then Options(t, TEAM)
    else
      var rows := InCompetitions(t.rows, chosen);
      var opts := Options(Table(t.columns, rows), TEAM);
      assert forall c :: c in opts[1..] <==>
        exists r :: r in t.rows && Get(r, TEAM) == c && Admits(chosen, Get(r, COMPETITION)) by {
        forall c ensures c in opts[1..] <==>
          exists r :: r in t.rows && Get(r, TEAM) == c && Admits(chosen, Get(r, COMPETITION)) {
          if exists r :: r in t.rows && Get(r, TEAM) == c && Admits(chosen, Get(r, COMPETITION)) {
            var r :| r in t.rows && Get(r, TEAM) == c && Admits(chosen, Get(r, COMPETITION));
            assert r in rows;
          }
        }
      }
      opts
  }

  /** The teams of the chosen competitions depend only on the Team and
      Competition columns. */
  lemma {:induction false} CompetitionTeamsCongruent(a: seq<Row>, b: seq<Row>, chosen: seq<Cell>)
    requires |a| == |b|
    requires forall j :: 0 <= j < |a| ==>
      Get(a[j], TEAM) == Get(b[j], TEAM) && Get(a[j], COMPETITION) == Get(b[j], COMPETITION)
    ensures ColumnValues(InCompetitions(a, chosen), TEAM) == ColumnValues(InCompetitions(b, chosen), TEAM)
  {
    if a != [] {
      CompetitionTeamsCongruent(a[1..], b[1..], chosen);
      InCompetitionsCons(a, chosen);
      InCompetitionsCons(b, chosen);
    }
  }

  /** The team values of the rows of chosen competitions, first row first. */
  lemma InCompetitionsCons(a: seq<Row>, chosen: seq<Cell>)
    requires a != []
    ensures ColumnValues(InCompetitions(a, chosen), TEAM) ==
      (if Get(a[0], COMPETITION) in chosen then [Get(a[0], TEAM)] else []) +
      ColumnValues(InCompetitions(a[1..], chosen), TEAM)
  {
    var rest := InCompetitions(a[1..], chosen);
    if Get(a[0], COMPETITION) in chosen {
      assert InCompetitions(a, chosen) == [a[0]] + rest;
      ColumnValuesCons(a[0], rest, TEAM);
    } else {
      assert InCompetitions(a, chosen) == rest;
    }
  }

  /** The column of a row followed by more rows. */
  lemma ColumnValuesCons(r: Row, rest: seq<Row>, column: string)
    ensures ColumnValues([r] + rest, column) == [Get(r, column)] + ColumnValues(rest, column)
  {
    var u := ColumnValues([r] + rest, column);
    var v := [Get(r, column)] + ColumnValues(rest, column);
    assert |u| == |v|;
    forall k | 0 <= k < |u| ensures u[k] == v[k] {
      if k > 0 {
        assert ([r] + rest)[k] == rest[k - 1];
      }
    }
  }

  /** Team options depend only on the Team and Competition columns. */
  lemma TeamOptionsCongruent(a: Table, b: Table, chosen: seq<Cell>)
    requires |chosen| > 0 ==> TEAM in a.columns && TEAM in b.columns
    requires Restricts(chosen) ==> COMPETITION in a.columns && COMPETITION in b.columns
    requires |a.rows| == |b.rows|
    requires forall j :: 0 <= j < |a.rows| ==>
      Get(a.rows[j], TEAM) == Get(b.rows[j], TEAM) && Get(a.rows[j], COMPETITION) == Get(b.rows[j], COMPETITION)
    ensures TeamOptions(a, chosen) == TeamOptions(b, chosen)
  {
    if |chosen| > 0 {
      if ALL in chosen {
        OptionsCongruent(a, b, TEAM);
      } else {
        CompetitionTeamsCongruent(a.rows, b.rows, chosen);
      }
    }
  }

  /** Selecting no competition does not offer every team: the team list is
      just "All", unlike selecting "All". */
  lemma NoCompetitionDiffersFromAll(t: Table)
    requires TEAM in t.columns && |t.rows| > 0
    ensures TeamOptions(t, []) == [ALL]
    ensures |TeamOptions(t, [ALL])| > 1
  {
    var c := Get(t.rows[0], TEAM);
    assert t.rows[0] in t.rows;
    assert c in TeamOptions(t, [ALL])[1..];
  }
}
