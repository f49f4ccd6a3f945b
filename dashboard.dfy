/** The script of Player_involvement_App.py from the loaded table to the
    table on screen: a data frame whose columns are assigned in place, the
    sidebar option lists, the filter, the projection and the formatting. */
module Dashboard {
  import opened Cells
  import opened Seqs
  import opened Tables
  import opened Derivation
  import opened Filtering
  import opened Presentation

  /** A pandas data frame: column labels and rows, updated in place. */
  class Frame {
    var columns: seq<string>
    var rows: seq<Row>

    function Value(): Table
      reads this
    {
      Table(columns, rows)
    }

    constructor (t: Table)
      ensures Value() == t
    {
      columns := t.columns;
      rows := t.rows;
    }

    /** `df[name] = values`. */
    method SetColumn(name: string, values: seq<Cell>)
      requires |values| == |rows|
      modifies this
      ensures Value() == WithColumn(old(Value()), name, values)
    {
      if name !in columns {
        columns := columns + [name];
      }
      var before := rows;
      rows := seq(|before|, i requires 0 <= i < |before| => before[i][name := values[i]]);
    }

    /** Lines 38-42. */
    method DeriveTeamContributions(metrics: seq<string>)
      modifies this
      ensures Value() == TeamMetrics(old(Value()), metrics)
    {
      for k := 0 to |metrics|
        invariant Value() == TeamMetrics(old(Value()), metrics[..k])
      {
        var m := metrics[k];
        if m in columns {
          SetColumn(TeamName(m), TeamTotals(rows, m));
          SetColumn(ContributionName(m), Ratios(rows, m));
          SetColumn(ContributionName(m), Rounded(rows, ContributionName(m)));
        }
        assert metrics[..k + 1][..k] == metrics[..k];
      }
      assert metrics[..|metrics|] == metrics;
    }

    /** Lines 85-93. */
    method DeriveUsage()
      modifies this
      ensures Value() == WithUsage(old(Value()))
    {
      if MINUTES in columns {
        SetColumn(MINUTES, WholeMinutes(rows));
      }
      if MATCHES in columns {
        SetColumn(AVAILABLE, AvailableMinutes(rows));
        if MINUTES in columns && AVAILABLE in columns {
          SetColumn(USAGE, UsageCells(rows));
        }
      }
    }

    /** Lines 136-139. */
    method FormatContributions(metrics: seq<string>)
      requires NoDup(metrics)
      requires forall m, r :: m in metrics && r in rows ==> !Get(r, ContributionName(m)).Text?
      modifies this
      ensures Value() == Formatted(old(Value()), metrics)
    {
      ghost var start := Value();
      for k := 0 to |metrics|
        invariant NoDup(metrics[..k])
        invariant Value() == Formatted(start, metrics[..k])
      {
        var m := metrics[k];
        var done := metrics[..k];
        assert metrics[..k + 1] == done + [m];
        forall x | x in done ensures ContributionName(m) != ContributionName(x) {
          DerivedInjective(m, x);
        }
        forall r | r in rows ensures !Get(r, ContributionName(m)).Text? {
          var i :| 0 <= i < |rows| && rows[i] == r;
          assert start.rows[i] in start.rows;
        }
        if ContributionName(m) in columns {
          SetColumn(ContributionName(m), Percents(rows, ContributionName(m)));
        }
      }
      assert metrics[..|metrics|] == metrics;
    }
  }

  /** What the script needs of the loaded table and the sidebar choices not
      to raise: Primary Position and Competition are read for the option
      lists (lines 66, 70); Team is grouped by for any metric present and read
      when competitions are chosen or teams restrict (lines 40, 76-78, 111);
      a present metric is summed and divided (lines 40-41); Minutes Played is
      rounded (line 86) and, with Matches, divides Matches times 90 (line 93);
      Age and Usage are compared with integers (lines 97-98); and `%.2f`
      meets only numbers in the contribution columns of the kept rows
      (line 139). */
  predicate Runnable(raw: Table, f: Selection)
  {
    && POSITION in raw.columns && COMPETITION in raw.columns
    && (TEAM in raw.columns ||
        (|f.competitions| == 0 && !Restricts(f.teams) && forall m :: m in METRICS ==> m !in raw.columns))
    && AGE in raw.columns
    && (USAGE in raw.columns || (MATCHES in raw.columns && MINUTES in raw.columns))
    && (forall m, r :: m in METRICS && m in raw.columns && r in raw.rows ==> !Get(r, m).Text?)
    && (MINUTES in raw.columns ==> forall r :: r in raw.rows ==> !Get(r, MINUTES).Text?)
    && (MATCHES in raw.columns && MINUTES in raw.columns ==> forall r :: r in raw.rows ==> !Get(r, MATCHES).Text?)
    && (forall r :: r in raw.rows ==> !Get(r, AGE).Text?)
    && (!(MATCHES in raw.columns && MINUTES in raw.columns) ==> forall r :: r in raw.rows ==> !Get(r, USAGE).Text?)
    && (forall m, j :: m in METRICS && m !in raw.columns && 0 <= j < |raw.rows| && Keep(f, Derived(raw).rows[j]) ==>
          !Get(raw.rows[j], ContributionName(m)).Text?)
  }

  /** The table after lines 38-42 and 85-93. */
  function Derived(raw: Table): (t: Table)
    ensures |t.rows| == |raw.rows| && raw.columns <= t.columns
  {
    WithUsage(TeamMetrics(raw, METRICS))
  }

  /** A column that is neither derived nor one of the usage columns passes
      through the derivations unchanged. */
  lemma DerivedKeepsPlain(raw: Table, c: string, i: nat)
    requires PlainLabel(c) && c != MINUTES && c != AVAILABLE && c != USAGE
    requires i < |raw.rows|
    ensures c in Derived(raw).columns <==> c in raw.columns
    ensures Get(Derived(raw).rows[i], c) == Get(raw.rows[i], c)
  {
    TeamMetricsKeepPlain(raw, METRICS, c);
  }

  lemma DerivedLabels()
    ensures PlainLabel(AGE) && PlainLabel(POSITION) && PlainLabel(COMPETITION)
    ensures PlainLabel(TEAM) && PlainLabel(USAGE) && PlainLabel(MINUTES) && PlainLabel(AVAILABLE)
    ensures forall m :: m in METRICS ==> PlainMetric(m)
    ensures NoDup(METRICS)
  {
    LabelsArePlain();
    MetricsDistinct();
    PlainByEnds(AGE);
    assert POSITION[..5][0] == 'P';
    assert POSITION[|POSITION| - 13..][0] == 'm';
    PlainByEnds(COMPETITION);
  }

  /** A derived column of a metric is none of the usage columns. */
  lemma DerivedNotUsage(m: string)
    ensures TeamName(m) != MINUTES && TeamName(m) != AVAILABLE && TeamName(m) != USAGE
    ensures ContributionName(m) != MINUTES && ContributionName(m) != AVAILABLE && ContributionName(m) != USAGE
  {
    LabelsArePlain();
    NotDerived(m, MINUTES);
    NotDerived(m, AVAILABLE);
    NotDerived(m, USAGE);
  }

  /** Every contribution cell of a derived row that passes the filter is a
      number, NaN or an infinity. */
  lemma DerivedContributionNotText(raw: Table, f: Selection, m: string, i: nat)
    requires Runnable(raw, f) && m in METRICS && i < |raw.rows| && Keep(f, Derived(raw).rows[i])
    ensures !Get(Derived(raw).rows[i], ContributionName(m)).Text?
  {
    DerivedLabels();
    DerivedNotUsage(m);
    var c := ContributionName(m);
    if m in raw.columns {
      TeamMetricsTotals(raw, METRICS, m, i);
    } else {
      forall x | x in METRICS && x in raw.columns ensures c != TeamName(x) && c != ContributionName(x) {
        TeamNotContribution(x, m);
        DerivedInjective(x, m);
      }
      TeamMetricsUntouched(raw, METRICS, c);
      assert raw.rows[i] in raw.rows;
    }
  }

  /** Age and Usage of the derived table hold no text. */
  lemma DerivedRangeCells(raw: Table, f: Selection, i: nat)
    requires Runnable(raw, f) && i < |raw.rows|
    ensures !Get(Derived(raw).rows[i], AGE).Text? && !Get(Derived(raw).rows[i], USAGE).Text?
  {
    PlainByEnds(AGE);
    PlainByEnds(USAGE);
    PlainByEnds(MATCHES);
    PlainByEnds(MINUTES);
    var tm := TeamMetrics(raw, METRICS);
    var d := Derived(raw);
    assert d == WithUsage(tm);
    TeamMetricsKeepPlain(raw, METRICS, AGE);
    TeamMetricsKeepPlain(raw, METRICS, MATCHES);
    TeamMetricsKeepPlain(raw, METRICS, MINUTES);
    assert raw.rows[i] in raw.rows;
    assert Get(d.rows[i], AGE) == Get(tm.rows[i], AGE) == Get(raw.rows[i], AGE);
    if !(MATCHES in raw.columns && MINUTES in raw.columns) {
      TeamMetricsKeepPlain(raw, METRICS, USAGE);
      assert Get(d.rows[i], USAGE) == Get(tm.rows[i], USAGE) == Get(raw.rows[i], USAGE);
    }
  }

  /** The derived table meets what the filter of lines 96-111 needs. */
  lemma DerivedFilterable(raw: Table, f: Selection)
    requires Runnable(raw, f)
    ensures Filterable(Derived(raw), f)
  {
    DerivedLabels();
    var t := Derived(raw);
    forall r | r in t.rows ensures !Get(r, AGE).Text? && !Get(r, USAGE).Text? {
      var i :| 0 <= i < |t.rows| && t.rows[i] == r;
      DerivedRangeCells(raw, f, i);
    }
    TeamMetricsKeepPlain(raw, METRICS, POSITION);
    TeamMetricsKeepPlain(raw, METRICS, COMPETITION);
    TeamMetricsKeepPlain(raw, METRICS, TEAM);
    TeamMetricsKeepPlain(raw, METRICS, AGE);
    TeamMetricsKeepPlain(raw, METRICS, USAGE);
  }

  /** Lines 96-133: the derived rows that pass the filter, holding only the
      display columns the table has. */
  function Projected(raw: Table, f: Selection, display: seq<string>): (p: Table)
    ensures p.columns == AvailableColumns(display, Derived(raw).columns)
    ensures |p.rows| == |Filtered(Derived(raw).rows, f)|
  {
    var d := Derived(raw);
    Project(Table(d.columns, Filtered(d.rows, f)), AvailableColumns(display, d.columns))
  }

  /** Each projected row is the projection of a derived row that passes the
      filter. */
  lemma ProjectedSource(raw: Table, f: Selection, display: seq<string>, i: nat) returns (j: nat)
    requires i < |Projected(raw, f, display).rows|
    ensures j < |raw.rows| && Keep(f, Derived(raw).rows[j])
    ensures forall c :: c in Projected(raw, f, display).columns ==> Get(Projected(raw, f, display).rows[i], c) == Get(Derived(raw).rows[j], c)
    ensures forall c :: c !in Projected(raw, f, display).columns ==> Get(Projected(raw, f, display).rows[i], c) == NaN
  {
    var d := Derived(raw);
    var kept := Filtered(d.rows, f);
    assert kept[i] in kept;
    j :| 0 <= j < |d.rows| && d.rows[j] == kept[i];
  }

  lemma ProjectedCellNotText(raw: Table, f: Selection, display: seq<string>, m: string, r: Row)
    requires Runnable(raw, f) && m in METRICS && r in Projected(raw, f, display).rows
    ensures !Get(r, ContributionName(m)).Text?
  {
    var p := Projected(raw, f, display);
    var i :| 0 <= i < |p.rows| && p.rows[i] == r;
    var j := ProjectedSource(raw, f, display, i);
    DerivedContributionNotText(raw, f, m, j);
  }

  lemma ProjectedFormattable(raw: Table, f: Selection, display: seq<string>)
    requires Runnable(raw, f)
    ensures forall m, r :: m in METRICS && r in Projected(raw, f, display).rows ==> !Get(r, ContributionName(m)).Text?
  {
    forall m, r | m in METRICS && r in Projected(raw, f, display).rows ensures !Get(r, ContributionName(m)).Text? {
      ProjectedCellNotText(raw, f, display, m, r);
    }
  }

  /** The table on screen (lines 96-139). */
  function Shown(raw: Table, f: Selection, display: seq<string>): (v: Table)
    requires Runnable(raw, f)
    ensures v.columns == AvailableColumns(display, Derived(raw).columns)
    ensures |v.rows| == |Filtered(Derived(raw).rows, f)| <= |raw.rows|
  {
    DerivedLabels();
    ProjectedFormattable(raw, f, display);
    Formatted(Projected(raw, f, display), METRICS)
  }

  /** The whole script for a loaded table and the user's choices: the three
      option lists offered in the sidebar and the table shown. */
  method Run(raw: Table, f: Selection) returns (positions: seq<Cell>, competitions: seq<Cell>, teams: seq<Cell>, shown: Table)
    requires Runnable(raw, f)
    ensures positions == Options(raw, POSITION)
    ensures competitions == Options(raw, COMPETITION)
    ensures teams == TeamOptions(raw, f.competitions)
    ensures shown == Shown(raw, f, DISPLAY)
  {
    var frame := new Frame(raw);
    frame.DeriveTeamContributions(METRICS);
    var loaded := frame.Value();
    OptionsUnaffected(raw, f);
    positions := Options(loaded, POSITION);
    competitions := Options(loaded, COMPETITION);
    teams := TeamOptions(loaded, f.competitions);
    frame.DeriveUsage();
    var derived := frame.Value();
    assert derived == Derived(raw);
    DerivedFilterable(raw, f);
    var kept := FilterRows(derived, f);
    var labels := AvailableColumns(DISPLAY, kept.columns);
    assert labels == AvailableColumns(DISPLAY, derived.columns);
    var projected := Project(kept, labels);
    assert projected == Projected(raw, f, DISPLAY);
    var view := new Frame(projected);
    ProjectedFormattable(raw, f, DISPLAY);
    DerivedLabels();
    view.FormatContributions(METRICS);
    shown := view.Value();
  }

  /** The option lists are built after lines 38-42 but read only columns
      those lines leave alone, so they are those of the loaded table. */
  lemma OptionsUnaffected(raw: Table, f: Selection)
    requires Runnable(raw, f)
    ensures Options(TeamMetrics(raw, METRICS), POSITION) == Options(raw, POSITION)
    ensures Options(TeamMetrics(raw, METRICS), COMPETITION) == Options(raw, COMPETITION)
    ensures TeamOptions(TeamMetrics(raw, METRICS), f.competitions) == TeamOptions(raw, f.competitions)
  {
    DerivedLabels();
    var tm := TeamMetrics(raw, METRICS);
    TeamMetricsKeepPlain(raw, METRICS, POSITION);
    TeamMetricsKeepPlain(raw, METRICS, COMPETITION);
    TeamMetricsKeepPlain(raw, METRICS, TEAM);
    OptionsCongruent(tm, raw, POSITION);
    OptionsCongruent(tm, raw, COMPETITION);
    TeamOptionsCongruent(tm, raw, f.competitions);
  }

  /** Row `i` of the projected table shows the display columns of derived
      row `j`. */
  ghost predicate ProjectedFrom(raw: Table, f: Selection, display: seq<string>, i: nat, j: nat)
  {
    && i < |Projected(raw, f, display).rows| && j < |raw.rows|
    && forall c :: c in Projected(raw, f, display).columns ==> Get(Projected(raw, f, display).rows[i], c) == Get(Derived(raw).rows[j], c)
  }

  /** The Team shown is the Team of the loaded row. */
  lemma ShownTeam(raw: Table, f: Selection, display: seq<string>, i: nat, j: nat)
    requires Runnable(raw, f) && ProjectedFrom(raw, f, display, i, j) && TEAM in raw.columns && TEAM in display
    ensures Get(Shown(raw, f, display).rows[i], TEAM) == Get(raw.rows[j], TEAM)
  {
    DerivedLabels();
    forall x | x in METRICS ensures TEAM != ContributionName(x) {
      NotDerived(x, TEAM);
    }

    DerivedKeepsPlain(raw, TEAM, j);
  }

  /** A shown `Team m` is the sum of `m` over the loaded rows of the team,
      filtered out or not. */
  lemma ShownTotal(raw: Table, f: Selection, display: seq<string>, i: nat, j: nat, m: string)
    requires Runnable(raw, f) && ProjectedFrom(raw, f, display, i, j) && m in METRICS && m in raw.columns
    requires TeamName(m) in Shown(raw, f, display).columns
    ensures var key := Get(raw.rows[j], TEAM);
      Get(Shown(raw, f, display).rows[i], TeamName(m)) == if key.NaN? then NaN else Num(GroupSum(raw.rows, m, key))
  {
    DerivedLabels();
    DerivedNotUsage(m);
    forall x | x in METRICS ensures TeamName(m) != ContributionName(x) {
      TeamNotContribution(m, x);
    }
    TeamMetricsTotals(raw, METRICS, m, j);
  }

  /** A shown `m Contribution` is the percentage text of 100 * m / total for
      the loaded row and its team total. */
  lemma ShownContributionOf(raw: Table, f: Selection, display: seq<string>, i: nat, j: nat, m: string)
    requires Runnable(raw, f) && ProjectedFrom(raw, f, display, i, j) && m in METRICS && m in raw.columns
    requires ContributionName(m) in Shown(raw, f, display).columns
    ensures var key := Get(raw.rows[j], TEAM);
      var total := if key.NaN? then NaN else Num(GroupSum(raw.rows, m, key));
      Get(Shown(raw, f, display).rows[i], ContributionName(m)) == Text(PercentText(ContributionCell(Get(raw.rows[j], m), total)))
  {
    var p := Projected(raw, f, display);
    var d := Derived(raw);
    var tm := TeamMetrics(raw, METRICS);
    var c := ContributionName(m);
    DerivedLabels();
    ProjectedFormattable(raw, f, display);
    assert Shown(raw, f, display) == Formatted(p, METRICS);
    FormattedCell(p, METRICS, m, i);
    assert Get(p.rows[i], c) == Get(d.rows[j], c);
    DerivedNotUsage(m);
    assert d == WithUsage(tm);
    assert Get(d.rows[j], c) == Get(tm.rows[j], c);
    TeamMetricsTotals(raw, METRICS, m, j);
    var key := Get(raw.rows[j], TEAM);
    var total := if key.NaN? then NaN else Num(GroupSum(raw.rows, m, key));
    assert Get(tm.rows[j], c) == ContributionCell(Get(raw.rows[j], m), total);
  }

  /** Every shown row comes from a loaded row that passes the filter; it
      shows that row's team, the team total of each present metric summed
      over the whole loaded table (lines 38-42 run before the filter), and
      the percentage text of that row's contribution. */
  lemma ShownRowOrigin(raw: Table, f: Selection, display: seq<string>, i: nat, m: string)
    requires Runnable(raw, f) && m in METRICS && m in raw.columns && i < |Shown(raw, f, display).rows|
    requires TEAM in display
    ensures exists j :: 0 <= j < |raw.rows| && Keep(f, Derived(raw).rows[j]) && ShownFrom(raw, f, display, i, m, j)
  {
    var j := ProjectedSource(raw, f, display, i);
    ShownTeam(raw, f, display, i, j);
    if TeamName(m) in Shown(raw, f, display).columns {
      ShownTotal(raw, f, display, i, j, m);
    }
    if ContributionName(m) in Shown(raw, f, display).columns {
      ShownContributionOf(raw, f, display, i, j, m);
    }
    assert ShownFrom(raw, f, display, i, m, j);
  }

  /** Shown row `i` displays, for metric `m`, the team, team total and
      contribution text of loaded row `j`. */
  ghost predicate ShownFrom(raw: Table, f: Selection, display: seq<string>, i: nat, m: string, j: nat)
    requires Runnable(raw, f) && i < |Shown(raw, f, display).rows| && j < |raw.rows|
  {
    var s := Shown(raw, f, display);
    var key := Get(raw.rows[j], TEAM);
    var total := if key.NaN? then NaN else Num(GroupSum(raw.rows, m, key));
    && Get(s.rows[i], TEAM) == key
    && (TeamName(m) in s.columns ==> Get(s.rows[i], TeamName(m)) == total)
    && (ContributionName(m) in s.columns ==>
          Get(s.rows[i], ContributionName(m)) == Text(PercentText(ContributionCell(Get(raw.rows[j], m), total))))
  }

  /** Every shown contribution is "N/A" or a text ending in '%'. */
  lemma ShownContributionText(raw: Table, f: Selection, display: seq<string>, i: nat, m: string)
    requires Runnable(raw, f) && m in METRICS && i < |Shown(raw, f, display).rows|
    requires ContributionName(m) in Shown(raw, f, display).columns
    ensures var c := Get(Shown(raw, f, display).rows[i], ContributionName(m));
      c.Text? && PercentShaped(c.s)
  {
    var p := Projected(raw, f, display);
    MetricsDistinct();
    ProjectedFormattable(raw, f, display);
    assert Shown(raw, f, display) == Formatted(p, METRICS);
    FormattedContribution(p, METRICS, m, i);
  }
}
