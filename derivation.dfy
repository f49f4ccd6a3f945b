/** The columns the dashboard adds to the loaded table before any filtering:
    team totals and contribution percentages per metric
    (Player_involvement_App.py lines 38-42), and whole minutes, available
    minutes and usage (lines 85-93). */
module Derivation {
  import opened Numbers
  import opened Cells
  import opened Seqs
  import opened Tables

  const TEAM := "Team"
  const MATCHES := "Matches"
  const MINUTES := "Minutes Played"
  const AVAILABLE := "Available Minutes"
  const USAGE := "Usage"

  /** The metrics that get a team total and a contribution column. */
  const METRICS: seq<string> := [
    "OBV", "Key Passes", "Shots", "xG", "Ball Recoveries",
    "Opposition Half Ball Recoveries", "Deep Completions",
    "Open Play Final Third Passes", "xGBuildup",
    "Defensive Action OBV", "Dribble & Carry OBV",
    "Pass OBV", "Shot OBV"
  ]

  function TeamName(m: string): string { "Team " + m }

  function ContributionName(m: string): string { m + " Contribution" }

  predicate HasTeamPrefix(s: string) { |s| >= 5 && s[..5] == "Team " }

  predicate HasContributionSuffix(s: string) { |s| >= 13 && s[|s| - 13..] == " Contribution" }

  /** A label that no derived label can be equal to. */
  predicate PlainLabel(s: string) { !HasTeamPrefix(s) && !HasContributionSuffix(s) }

  /** A metric whose derived labels collide with no metric, no plain label
      and no derived label of another metric. */
  predicate PlainMetric(m: string) { PlainLabel(m) && m != TEAM }

  lemma NotDerived(a: string, c: string)
    requires PlainLabel(c)
    ensures TeamName(a) != c && ContributionName(a) != c
  {
    assert TeamName(a)[..5] == "Team ";
    var s := ContributionName(a);
    assert s[|s| - 13..] == " Contribution";
  }

  lemma DerivedInjective(a: string, b: string)
    ensures TeamName(a) == TeamName(b) ==> a == b
    ensures ContributionName(a) == ContributionName(b) ==> a == b
  {
    if TeamName(a) == TeamName(b) {
      assert a == TeamName(a)[5..] && b == TeamName(b)[5..];
    }
    if ContributionName(a) == ContributionName(b) {
      assert a == ContributionName(a)[..|a|] && b == ContributionName(b)[..|b|];
    }
  }

  lemma TeamNotContribution(a: string, b: string)
    requires PlainMetric(b)
    ensures TeamName(a) != ContributionName(b)
  {
    var s := TeamName(a);
    var c := ContributionName(b);
    assert s[..5] == "Team ";
    if |b| >= 5 {
      assert c[..5] == b[..5] != "Team ";
    } else if |b| == 4 {
      assert c[..4] == b != "Team" == s[..4];
    } else {
      assert c[|b|] == ' ' != s[|b|];
    }
  }

  lemma PlainByEnds(s: string)
    requires |s| < 5 || s[0] != 'T'
    requires |s| < 13 || s[|s| - 1] != 'n'
    ensures PlainLabel(s)
  {
    if |s| >= 5 { assert s[..5][0] == s[0]; }
    if |s| >= 13 { assert s[|s| - 13..][12] == s[|s| - 1]; }
  }

  lemma MetricsDistinct()
    ensures NoDup(METRICS)
  {
    forall i, j | 0 <= i < j < |METRICS| ensures METRICS[i] != METRICS[j] {
      if |METRICS[i]| == |METRICS[j]| {
        assert METRICS[i][0] != METRICS[j][0];
      }
    }
  }

  /** Every fixed label of the dashboard is plain, and so is every metric. */
  lemma LabelsArePlain()
    ensures PlainLabel(TEAM) && PlainLabel(MATCHES) && PlainLabel(MINUTES)
    ensures PlainLabel(AVAILABLE) && PlainLabel(USAGE)
    ensures forall m :: m in METRICS ==> PlainMetric(m)
  {
    PlainByEnds(TEAM);
    PlainByEnds(MATCHES);
    PlainByEnds(MINUTES);
    PlainByEnds(AVAILABLE);
    PlainByEnds(USAGE);
    MetricsArePlain();
  }

  lemma MetricsArePlain()
    ensures forall m :: m in METRICS ==> PlainMetric(m)
  {
    PlainByEnds("OBV");
    PlainByEnds("Key Passes");
    PlainByEnds("Shots");
    PlainByEnds("xG");
    PlainByEnds("Ball Recoveries");
    PlainByEnds("Opposition Half Ball Recoveries");
    PlainByEnds("Deep Completions");
    PlainByEnds("Open Play Final Third Passes");
    PlainByEnds("xGBuildup");
    PlainByEnds("Defensive Action OBV");
    PlainByEnds("Dribble & Carry OBV");
    PlainByEnds("Pass OBV");
    PlainByEnds("Shot OBV");
  }

  /** The sum of metric `m` over the rows whose Team cell is `team`, NaN
      skipped: what `groupby("Team")[m].transform("sum")` puts in each row of
      that team. */
  function GroupSum(rows: seq<Row>, m: string, team: Cell): (s: real)
    ensures TeamSize(rows, team) == 0 ==> s == 0.0
  {
    if rows == [] then 0.0
    else (if Get(rows[0], TEAM) == team then Addend(Get(rows[0], m)) else 0.0) + GroupSum(rows[1..], m, team)
  }

  /** A team whose metric is never negative has a total that is not negative. */
  lemma {:induction false} GroupSumNonNegative(rows: seq<Row>, m: string, team: Cell)
    requires forall r :: r in rows && Get(r, TEAM) == team ==> Addend(Get(r, m)) >= 0.0
    ensures GroupSum(rows, m, team) >= 0.0
  {
    if rows != [] {
      assert rows[0] in rows;
      GroupSumNonNegative(rows[1..], m, team);
    }
  }

  /** The number of rows whose Team cell is `team`. */
  function TeamSize(rows: seq<Row>, team: Cell): nat
  {
    if rows == [] then 0
    else (if Get(rows[0], TEAM) == team then 1 else 0) + TeamSize(rows[1..], team)
  }

  /** `Team m` of row `i`: the sum over its team; NaN for a row without a
      team, since `groupby` drops NaN keys. */
  function TeamTotalCell(rows: seq<Row>, m: string, i: nat): (c: Cell)
    requires i < |rows|
    ensures c.NaN? <==> Get(rows[i], TEAM).NaN?
    ensures !c.Inf? && !c.Text?
  {
    var key := Get(rows[i], TEAM);
    if key.NaN? then NaN else Num(GroupSum(rows, m, key))
  }

  /** `m Contribution` of a row with metric cell `x` and team total `total`,
      after the rounding of line 42. */
  function ContributionCell(x: Cell, total: Cell): (c: Cell)
    ensures !c.Text?
    ensures x.NaN? || total.NaN? ==> c.NaN?
  {
    RoundCell2(Scale(Divide(x, total), 100.0))
  }

  /** Line 40 over a whole column: rows of one team get one total. */
  function TeamTotals(rows: seq<Row>, m: string): (cells: seq<Cell>)
    ensures |cells| == |rows|
    ensures forall i :: 0 <= i < |rows| ==> (cells[i].NaN? <==> Get(rows[i], TEAM).NaN?)
    ensures forall i, j :: 0 <= i < |rows| && 0 <= j < |rows| && Get(rows[i], TEAM) == Get(rows[j], TEAM) ==>
      cells[i] == cells[j]
  {
    seq(|rows|, i requires 0 <= i < |rows| => TeamTotalCell(rows, m, i))
  }

  /** Line 41 over a whole column: 100 * m / `Team m`, a number exactly when
      both are numbers and the total is not zero, NaN when either is missing. */
  function Ratios(rows: seq<Row>, m: string): (cells: seq<Cell>)
    ensures |cells| == |rows|
    ensures forall i :: 0 <= i < |rows| ==> !cells[i].Text?
    ensures forall i :: 0 <= i < |rows| && Get(rows[i], m).Num? && Get(rows[i], TeamName(m)).Num? ==>
      (cells[i].Num? <==> Get(rows[i], TeamName(m)).v != 0.0)
    ensures forall i :: 0 <= i < |rows| && (Get(rows[i], m).NaN? || Get(rows[i], TeamName(m)).NaN?) ==>
      cells[i].NaN?
  {
    seq(|rows|, i requires 0 <= i < |rows| => Scale(Divide(Get(rows[i], m), Get(rows[i], TeamName(m))), 100.0))
  }

  /** Line 42 over a whole column: numbers move by at most half a hundredth,
      everything else stays. */
  function Rounded(rows: seq<Row>, column: string): (cells: seq<Cell>)
    ensures |cells| == |rows|
    ensures forall i :: 0 <= i < |rows| ==> (cells[i].Num? <==> Get(rows[i], column).Num?)
    ensures forall i :: 0 <= i < |rows| && cells[i].Num? ==> -0.005 <= cells[i].v - Get(rows[i], column).v <= 0.005
    ensures forall i :: 0 <= i < |rows| && !cells[i].Num? ==> cells[i] == Get(rows[i], column)
  {
    seq(|rows|, i requires 0 <= i < |rows| => RoundCell2(Get(rows[i], column)))
  }

  /** Lines 40-41 for one metric, before the rounding of line 42. */
  function RatioStep(t: Table, m: string): (u: Table)
    ensures |u.rows| == |t.rows| && t.columns <= u.columns
    ensures WellFormed(t) ==> WellFormed(u)
    ensures forall c :: c in u.columns <==> c in t.columns || c == TeamName(m) || c == ContributionName(m)
    ensures forall i :: 0 <= i < |t.rows| ==>
      && Get(u.rows[i], TeamName(m)) == TeamTotalCell(t.rows, m, i)
      && Get(u.rows[i], ContributionName(m)) == Scale(Divide(Get(t.rows[i], m), TeamTotalCell(t.rows, m, i)), 100.0)
    ensures forall i, c :: 0 <= i < |t.rows| && c != TeamName(m) && c != ContributionName(m) ==>
      Get(u.rows[i], c) == Get(t.rows[i], c)
  {
    var t1 := WithColumn(t, TeamName(m), TeamTotals(t.rows, m));
    WithColumn(t1, ContributionName(m), Ratios(t1.rows, m))
  }

  /** Lines 39-42 for one metric: nothing happens when `m` is not a column. */
  function DeriveMetric(t: Table, m: string): (u: Table)
    ensures |u.rows| == |t.rows| && t.columns <= u.columns
    ensures WellFormed(t) ==> WellFormed(u)
    ensures m !in t.columns ==> u == t
    ensures m in t.columns ==> forall c :: c in u.columns <==> c in t.columns || c == TeamName(m) || c == ContributionName(m)
    ensures m in t.columns ==> forall i :: 0 <= i < |t.rows| ==>
      && Get(u.rows[i], TeamName(m)) == TeamTotalCell(t.rows, m, i)
      && Get(u.rows[i], ContributionName(m)) == ContributionCell(Get(t.rows[i], m), TeamTotalCell(t.rows, m, i))
    ensures forall i, c :: 0 <= i < |t.rows| && c != TeamName(m) && c != ContributionName(m) ==>
      Get(u.rows[i], c) == Get(t.rows[i], c)
  {
    if m !in t.columns then t
    else
      var t2 := RatioStep(t, m);
      WithColumn(t2, ContributionName(m), Rounded(t2.rows, ContributionName(m)))
  }

  /** The loop of lines 38-42 over the metrics `ms`, in order. */
  function TeamMetrics(t: Table, ms: seq<string>): (u: Table)
    ensures |u.rows| == |t.rows| && t.columns <= u.columns
    ensures WellFormed(t) ==> WellFormed(u)
    decreases |ms|
  {
    if ms == [] then t else DeriveMetric(TeamMetrics(t, ms[..|ms| - 1]), ms[|ms| - 1])
  }

  /** A plain column (Team, every metric, Age, ...) keeps its presence and all
      its cells through the derivation of team metrics. */
  lemma {:induction false} TeamMetricsKeepPlain(t: Table, ms: seq<string>, c: string)
    requires PlainLabel(c)
    ensures c in TeamMetrics(t, ms).columns <==> c in t.columns
    ensures forall i :: 0 <= i < |t.rows| ==> Get(TeamMetrics(t, ms).rows[i], c) == Get(t.rows[i], c)
    decreases |ms|
  {
    if ms != [] {
      var last := ms[|ms| - 1];
      TeamMetricsKeepPlain(t, ms[..|ms| - 1], c);
      NotDerived(last, c);
    }
  }

  /** A column that is not `Team m` or `m Contribution` for a listed metric
      present in the table is left untouched. */
  lemma {:induction false} TeamMetricsUntouched(t: Table, ms: seq<string>, c: string)
    requires forall m :: m in ms ==> PlainMetric(m)
    requires forall m :: m in ms && m in t.columns ==> c != TeamName(m) && c != ContributionName(m)
    ensures c in TeamMetrics(t, ms).columns <==> c in t.columns
    ensures forall i :: 0 <= i < |t.rows| ==> Get(TeamMetrics(t, ms).rows[i], c) == Get(t.rows[i], c)
    decreases |ms|
  {
    if ms != [] {
      var init := ms[..|ms| - 1];
      var last := ms[|ms| - 1];
      SplitLast(ms);
      assert last in ms;
      TeamMetricsUntouched(t, init, c);
      TeamMetricsKeepPlain(t, init, last);
    }
  }

  /** A derived column exists afterwards only if it existed before or its
      metric is a column. */
  lemma {:induction false} TeamMetricsNewColumns(t: Table, ms: seq<string>, m: string)
    requires forall x :: x in ms ==> PlainMetric(x)
    requires PlainMetric(m)
    ensures TeamName(m) in TeamMetrics(t, ms).columns <==>
            TeamName(m) in t.columns || (m in ms && m in t.columns)
    ensures ContributionName(m) in TeamMetrics(t, ms).columns <==>
            ContributionName(m) in t.columns || (m in ms && m in t.columns)
    decreases |ms|
  {
    if ms != [] {
      var init := ms[..|ms| - 1];
      var last := ms[|ms| - 1];
      SplitLast(ms);
      assert last in ms;
      TeamMetricsNewColumns(t, init, m);
      TeamMetricsKeepPlain(t, init, last);
      DerivedInjective(last, m);
      TeamNotContribution(last, m);
      TeamNotContribution(m, last);
    }
  }

  lemma {:induction false} GroupSumCongruent(a: seq<Row>, b: seq<Row>, m: string, team: Cell)
    requires |a| == |b|
    requires forall j :: 0 <= j < |a| ==> Get(a[j], m) == Get(b[j], m) && Get(a[j], TEAM) == Get(b[j], TEAM)
    ensures GroupSum(a, m, team) == GroupSum(b, m, team)
  {
    if a != [] {
      GroupSumCongruent(a[1..], b[1..], m, team);
    }
  }

  /** Every row's `Team m` is the sum of `m` over all rows of its team in the
      table as loaded, and its `m Contribution` is computed from that total. */
  lemma {:induction false} TeamMetricsTotals(t: Table, ms: seq<string>, m: string, i: nat)
    requires forall x :: x in ms ==> PlainMetric(x)
    requires m in ms && m in t.columns && i < |t.rows|
    ensures var key := Get(t.rows[i], TEAM);
      Get(TeamMetrics(t, ms).rows[i], TeamName(m)) == (if key.NaN? then NaN else Num(GroupSum(t.rows, m, key)))
    ensures Get(TeamMetrics(t, ms).rows[i], ContributionName(m)) ==
      ContributionCell(Get(t.rows[i], m), Get(TeamMetrics(t, ms).rows[i], TeamName(m)))
    decreases |ms|
  {
    var init := ms[..|ms| - 1];
    var last := ms[|ms| - 1];
    var v := TeamMetrics(t, init);
    assert TeamMetrics(t, ms) == DeriveMetric(v, last);
    if last == m {
      TotalsOfLast(t, init, m, i);
    } else {
      SplitLast(ms);
      TeamMetricsTotals(t, init, m, i);
      TotalsOfEarlier(v, last, m, i);
    }
  }

  /** The cells of row `i` right after `m` itself is derived. */
  lemma TotalsOfLast(t: Table, init: seq<string>, m: string, i: nat)
    requires PlainLabel(m) && m in t.columns && i < |t.rows|
    ensures var u := DeriveMetric(TeamMetrics(t, init), m);
      && Get(u.rows[i], TeamName(m)) == TeamTotalCell(t.rows, m, i)
      && Get(u.rows[i], ContributionName(m)) == ContributionCell(Get(t.rows[i], m), TeamTotalCell(t.rows, m, i))
  {
    var v := TeamMetrics(t, init);
    PlainByEnds(TEAM);
    TeamMetricsKeepPlain(t, init, m);
    TeamMetricsKeepPlain(t, init, TEAM);
    GroupSumCongruent(v.rows, t.rows, m, Get(t.rows[i], TEAM));
    assert TeamTotalCell(v.rows, m, i) == TeamTotalCell(t.rows, m, i);
  }

  /** Deriving another metric `last` leaves the derived cells of `m`. */
  lemma TotalsOfEarlier(v: Table, last: string, m: string, i: nat)
    requires PlainMetric(m) && PlainMetric(last) && last != m && i < |v.rows|
    ensures var u := DeriveMetric(v, last);
      Get(u.rows[i], TeamName(m)) == Get(v.rows[i], TeamName(m)) &&
      Get(u.rows[i], ContributionName(m)) == Get(v.rows[i], ContributionName(m))
  {
    DerivedInjective(last, m);
    TeamNotContribution(last, m);
    TeamNotContribution(m, last);
  }

  /** Rows of one team carry one and the same team total. */
  lemma TeamTotalShared(t: Table, ms: seq<string>, m: string, i: nat, j: nat)
    requires forall x :: x in ms ==> PlainMetric(x)
    requires m in ms && m in t.columns && i < |t.rows| && j < |t.rows|
    requires Get(t.rows[i], TEAM) == Get(t.rows[j], TEAM)
    ensures Get(TeamMetrics(t, ms).rows[i], TeamName(m)) == Get(TeamMetrics(t, ms).rows[j], TeamName(m))
  {
    TeamMetricsTotals(t, ms, m, i);
    TeamMetricsTotals(t, ms, m, j);
  }

  /** `m Contribution` is 100 * m / total, rounded; it is undefined (NaN or
      an infinity) when the total is zero, and NaN when `m` is missing. */
  lemma ContributionMeaning(x: Cell, total: real)
    ensures x.Num? && total != 0.0 ==> ContributionCell(x, Num(total)) == Num(Round2(100.0 * x.v / total))
    ensures x.Num? && total == 0.0 ==> !ContributionCell(x, Num(total)).Num?
    ensures x.Num? && total == 0.0 ==> (ContributionCell(x, Num(total)).NaN? <==> x.v == 0.0)
    ensures x.NaN? ==> ContributionCell(x, Num(total)).NaN?
  {
    if x.Num? && total != 0.0 {
      assert x.v / total * 100.0 == 100.0 * x.v / total;
    }
  }

  /** A nonzero metric over a zero team total is an infinity with the
      metric's sign, which `pd.isna` does not treat as missing: the cell
      shows "inf%" or "-inf%", never "N/A". */
  lemma ZeroTotalShowsInfinity(x: real)
    requires x != 0.0
    ensures ContributionCell(Num(x), Num(0.0)) == Inf(x < 0.0)
    ensures PercentText(ContributionCell(Num(x), Num(0.0))) == if x < 0.0 then "-inf%" else "inf%"
  {
  }

  lemma PercentOf(x: real, y: real)
    requires y != 0.0
    ensures x / y * 100.0 == 100.0 * x / y
  {
  }

  /** `part` as a percentage of a nonzero `whole`. */
  function Percentage(part: real, whole: real): real
    requires whole != 0.0
  {
    100.0 * part / whole
  }

  lemma PercentageAdds(a: real, b: real, whole: real)
    requires whole != 0.0
    ensures Percentage(a, whole) + Percentage(b, whole) == Percentage(a + b, whole)
  {
  }

  lemma PercentageOfWhole(whole: real)
    requires whole != 0.0
    ensures Percentage(whole, whole) == 100.0
  {
  }

  lemma ShareAddend(x: Cell, total: real)
    requires total != 0.0
    ensures Addend(Scale(Divide(x, Num(total)), 100.0)) == Percentage(Addend(x), total)
  {
    if x.Num? {
      PercentOf(x.v, total);
    }
  }

  /** Exact shares of one team add up to 100 times the ratio of the two sums. */
  lemma {:induction false} ShareSum(a: seq<Row>, b: seq<Row>, m: string, key: Cell, total: real)
    requires total != 0.0 && |a| == |b|
    requires forall j :: 0 <= j < |a| ==> Get(b[j], TEAM) == Get(a[j], TEAM)
    requires forall j :: 0 <= j < |a| && Get(a[j], TEAM) == key ==>
      Get(b[j], ContributionName(m)) == Scale(Divide(Get(a[j], m), Num(total)), 100.0)
    ensures GroupSum(b, ContributionName(m), key) == Percentage(GroupSum(a, m, key), total)
  {
    if a != [] {
      ShareSum(a[1..], b[1..], m, key, total);
      var h := if Get(a[0], TEAM) == key then Addend(Get(a[0], m)) else 0.0;
      ShareAddend(Get(a[0], m), total);
      PercentageAdds(h, GroupSum(a[1..], m, key), total);
    }
  }

  /** Rounded shares of one team stay within half a hundredth per row of the
      exact shares. */
  lemma {:induction false} RoundedShareSum(a: seq<Row>, b: seq<Row>, m: string, key: Cell, total: real)
    requires total != 0.0 && |a| == |b|
    requires forall j :: 0 <= j < |a| ==> Get(b[j], TEAM) == Get(a[j], TEAM)
    requires forall j :: 0 <= j < |a| && Get(a[j], TEAM) == key ==>
      Get(b[j], ContributionName(m)) == ContributionCell(Get(a[j], m), Num(total))
    ensures var gap := GroupSum(b, ContributionName(m), key) - Percentage(GroupSum(a, m, key), total);
      -0.005 * TeamSize(a, key) as real <= gap <= 0.005 * TeamSize(a, key) as real
  {
    if a != [] {
      RoundedShareSum(a[1..], b[1..], m, key, total);
      var x := Get(a[0], m);
      var inTeam := Get(a[0], TEAM) == key;
      var h := if inTeam then Addend(x) else 0.0;
      var g := if inTeam then Addend(Get(b[0], ContributionName(m))) else 0.0;
      assert GroupSum(b, ContributionName(m), key) == g + GroupSum(b[1..], ContributionName(m), key);
      assert TeamSize(a, key) == (if inTeam then 1 else 0) + TeamSize(a[1..], key);
      RoundedShare(x, total);
      assert -0.005 <= g - Percentage(h, total) <= 0.005 || !inTeam;
      PercentageAdds(h, GroupSum(a[1..], m, key), total);
    }
  }

  /** One rounded share is within half a hundredth of the exact one. */
  lemma RoundedShare(x: Cell, total: real)
    requires total != 0.0
    ensures -0.005 <= Addend(ContributionCell(x, Num(total))) - Percentage(Addend(x), total) <= 0.005
  {
    ShareAddend(x, total);
  }

  /** One row of a team with total `total` before the rounding of line 42. */
  lemma RatioRow(t: Table, m: string, key: Cell, j: nat)
    requires !key.NaN? && j < |t.rows| && Get(t.rows[j], TEAM) == key
    ensures Get(RatioStep(t, m).rows[j], ContributionName(m)) ==
      Scale(Divide(Get(t.rows[j], m), Num(GroupSum(t.rows, m, key))), 100.0)
  {
    assert TeamTotalCell(t.rows, m, j) == Num(GroupSum(t.rows, m, key));
  }

  /** Under exact arithmetic (lines 40-41, before the rounding of line 42)
      the contributions of a team with a nonzero total add up to 100. */
  lemma ExactContributionsSumTo100(t: Table, m: string, key: Cell)
    requires !key.NaN? && GroupSum(t.rows, m, key) != 0.0
    ensures GroupSum(RatioStep(t, m).rows, ContributionName(m), key) == 100.0
  {
    var u := RatioStep(t, m);
    var total := GroupSum(t.rows, m, key);
    PlainByEnds(TEAM);
    NotDerived(m, TEAM);
    forall j | 0 <= j < |t.rows| && Get(t.rows[j], TEAM) == key
      ensures Get(u.rows[j], ContributionName(m)) == Scale(Divide(Get(t.rows[j], m), Num(total)), 100.0)
    {
      RatioRow(t, m, key, j);
    }
    ShareSum(t.rows, u.rows, m, key, total);
    PercentageOfWhole(total);
  }

  /** One row of a team with total `total` after the loop of lines 38-42. */
  lemma ContributionRow(t: Table, ms: seq<string>, m: string, key: Cell, j: nat)
    requires forall x :: x in ms ==> PlainMetric(x)
    requires m in ms && m in t.columns
    requires !key.NaN? && j < |t.rows| && Get(t.rows[j], TEAM) == key
    ensures Get(TeamMetrics(t, ms).rows[j], ContributionName(m)) ==
      ContributionCell(Get(t.rows[j], m), Num(GroupSum(t.rows, m, key)))
  {
    TeamMetricsTotals(t, ms, m, j);
  }

  /** After the rounding of line 42 the contributions of a team with a
      nonzero total add up to 100 within half a hundredth per team row. */
  lemma ContributionsNearHundred(t: Table, ms: seq<string>, m: string, key: Cell)
    requires forall x :: x in ms ==> PlainMetric(x)
    requires m in ms && m in t.columns
    requires !key.NaN? && GroupSum(t.rows, m, key) != 0.0
    ensures var sum := GroupSum(TeamMetrics(t, ms).rows, ContributionName(m), key);
      -0.005 * TeamSize(t.rows, key) as real <= sum - 100.0 <= 0.005 * TeamSize(t.rows, key) as real
  {
    var u := TeamMetrics(t, ms);
    var total := GroupSum(t.rows, m, key);
    PlainByEnds(TEAM);
    TeamMetricsKeepPlain(t, ms, TEAM);
    forall j | 0 <= j < |t.rows| && Get(t.rows[j], TEAM) == key
      ensures Get(u.rows[j], ContributionName(m)) == ContributionCell(Get(t.rows[j], m), Num(total))
    {
      ContributionRow(t, ms, m, key, j);
    }
    RoundedShareSum(t.rows, u.rows, m, key, total);
    PercentageOfWhole(total);
  }

  /** Two players of team A with OBV 10 and 30 and one of team B with OBV 5:
      both A rows carry the team total 40 and contribute 25 and 75 percent,
      the B row carries 5 and contributes 100 percent. */
  lemma ContributionExample()
    ensures var t := Table([TEAM, "OBV"], [
        map[TEAM := Text("A"), "OBV" := Num(10.0)],
        map[TEAM := Text("A"), "OBV" := Num(30.0)],
        map[TEAM := Text("B"), "OBV" := Num(5.0)]]);
      var u := TeamMetrics(t, METRICS);
      && Get(u.rows[0], TeamName("OBV")) == Num(40.0) && Get(u.rows[1], TeamName("OBV")) == Num(40.0)
      && Get(u.rows[2], TeamName("OBV")) == Num(5.0)
      && Get(u.rows[0], ContributionName("OBV")) == Num(25.0)
      && Get(u.rows[1], ContributionName("OBV")) == Num(75.0)
      && Get(u.rows[2], ContributionName("OBV")) == Num(100.0)
  {
    var a := map[TEAM := Text("A"), "OBV" := Num(10.0)];
    var b := map[TEAM := Text("A"), "OBV" := Num(30.0)];
    var c := map[TEAM := Text("B"), "OBV" := Num(5.0)];
    var t := Table([TEAM, "OBV"], [a, b, c]);
    assert Get(a, TEAM) == Text("A") && Get(b, TEAM) == Text("A") && Get(c, TEAM) == Text("B");
    assert Get(a, "OBV") == Num(10.0) && Get(b, "OBV") == Num(30.0) && Get(c, "OBV") == Num(5.0);
    ExampleSums(a, b, c);
    ExampleRow(t, 0, 40.0, 10.0);
    ExampleRow(t, 1, 40.0, 30.0);
    ExampleRow(t, 2, 5.0, 5.0);
    RoundHalfEvenWhole(2500);
    RoundHalfEvenWhole(7500);
    RoundHalfEvenWhole(10000);
  }

  /** The OBV sums of the two teams of the example. */
  lemma ExampleSums(a: Row, b: Row, c: Row)
    requires Get(a, TEAM) == Text("A") && Get(b, TEAM) == Text("A") && Get(c, TEAM) == Text("B")
    requires Get(a, "OBV") == Num(10.0) && Get(b, "OBV") == Num(30.0) && Get(c, "OBV") == Num(5.0)
    ensures GroupSum([a, b, c], "OBV", Text("A")) == 40.0 && GroupSum([a, b, c], "OBV", Text("B")) == 5.0
  {
    assert [a, b, c][1..] == [b, c] && [b, c][1..] == [c] && [c][1..] == [];
    assert GroupSum([c], "OBV", Text("A")) == 0.0 && GroupSum([c], "OBV", Text("B")) == 5.0;
    assert GroupSum([b, c], "OBV", Text("A")) == 30.0 && GroupSum([b, c], "OBV", Text("B")) == 5.0;
  }

  /** The OBV cells of one example row after the loop of lines 38-42. */
  lemma ExampleRow(t: Table, i: nat, total: real, x: real)
    requires "OBV" in t.columns && i < |t.rows| && !Get(t.rows[i], TEAM).NaN?
    requires GroupSum(t.rows, "OBV", Get(t.rows[i], TEAM)) == total != 0.0
    requires Get(t.rows[i], "OBV") == Num(x)
    ensures Get(TeamMetrics(t, METRICS).rows[i], TeamName("OBV")) == Num(total)
    ensures Get(TeamMetrics(t, METRICS).rows[i], ContributionName("OBV")) == Num(Round2(Percentage(x, total)))
  {
    MetricsArePlain();
    assert "OBV" in METRICS;
    TeamMetricsTotals(t, METRICS, "OBV", i);
    var u := TeamMetrics(t, METRICS);
    assert Get(u.rows[i], TeamName("OBV")) == Num(total);
    assert Get(u.rows[i], ContributionName("OBV")) == ContributionCell(Num(x), Num(total));
    NumContribution(x, total);
  }

  /** The contribution of a number to a nonzero total. */
  lemma NumContribution(x: real, total: real)
    requires total != 0.0
    ensures ContributionCell(Num(x), Num(total)) == Num(Round2(Percentage(x, total)))
  {
    ContributionMeaning(Num(x), total);
  }

  /** Line 86 over a whole column: whole numbers within half a minute. */
  function WholeMinutes(rows: seq<Row>): (cells: seq<Cell>)
    ensures |cells| == |rows|
    ensures forall i :: 0 <= i < |rows| ==> (cells[i].Num? <==> Get(rows[i], MINUTES).Num?)
    ensures forall i :: 0 <= i < |rows| && cells[i].Num? ==>
      cells[i].v.Floor as real == cells[i].v && -0.5 <= cells[i].v - Get(rows[i], MINUTES).v <= 0.5
  {
    seq(|rows|, i requires 0 <= i < |rows| => RoundCell0(Get(rows[i], MINUTES)))
  }

  /** Line 90 over a whole column: 90 minutes per match. */
  function AvailableMinutes(rows: seq<Row>): (cells: seq<Cell>)
    ensures |cells| == |rows|
    ensures forall i :: 0 <= i < |rows| && Get(rows[i], MATCHES).Num? ==>
      cells[i] == Num(90.0 * Get(rows[i], MATCHES).v)
    ensures forall i :: 0 <= i < |rows| && !Get(rows[i], MATCHES).Num? ==> !cells[i].Num? && !cells[i].Text?
  {
    seq(|rows|, i requires 0 <= i < |rows| => Scale(Get(rows[i], MATCHES), 90.0))
  }

  /** Line 93 over a whole column: a number exactly when both operands are
      numbers and the available minutes are not zero, NaN when either is
      missing. */
  function UsageCells(rows: seq<Row>): (cells: seq<Cell>)
    ensures |cells| == |rows|
    ensures forall i :: 0 <= i < |rows| ==> !cells[i].Text?
    ensures forall i :: 0 <= i < |rows| && Get(rows[i], MINUTES).Num? && Get(rows[i], AVAILABLE).Num? ==>
      (cells[i].Num? <==> Get(rows[i], AVAILABLE).v != 0.0)
    ensures forall i :: 0 <= i < |rows| && (Get(rows[i], MINUTES).NaN? || Get(rows[i], AVAILABLE).NaN?) ==>
      cells[i].NaN?
  {
    seq(|rows|, i requires 0 <= i < |rows| =>
      RoundCell2(Scale(Divide(Get(rows[i], MINUTES), Get(rows[i], AVAILABLE)), 100.0)))
  }

  /** Lines 85-93: round Minutes Played to whole minutes; with Matches, add
      Available Minutes; with both, add Usage. */
  function WithUsage(t: Table): (u: Table)
    ensures |u.rows| == |t.rows| && t.columns <= u.columns
    ensures WellFormed(t) ==> WellFormed(u)
    ensures AVAILABLE in u.columns <==> AVAILABLE in t.columns || MATCHES in t.columns
    ensures USAGE in u.columns <==> USAGE in t.columns || (MATCHES in t.columns && MINUTES in t.columns)
    ensures forall c :: c in u.columns <==> c in t.columns || (c == AVAILABLE && MATCHES in t.columns) ||
                                            (c == USAGE && MATCHES in t.columns && MINUTES in t.columns)
    ensures forall i, c :: 0 <= i < |t.rows| && c != MINUTES && c != AVAILABLE && c != USAGE ==>
      Get(u.rows[i], c) == Get(t.rows[i], c)
    ensures !(MATCHES in t.columns && MINUTES in t.columns) ==>
      forall i :: 0 <= i < |t.rows| ==> Get(u.rows[i], USAGE) == Get(t.rows[i], USAGE)
    ensures MATCHES in t.columns && MINUTES in t.columns ==>
      forall i :: 0 <= i < |t.rows| ==> !Get(u.rows[i], USAGE).Text?
  {
    var t1 := if MINUTES in t.columns then WithColumn(t, MINUTES, WholeMinutes(t.rows)) else t;
    if MATCHES !in t1.columns then t1
    else
      var t2 := WithColumn(t1, AVAILABLE, AvailableMinutes(t1.rows));
      if MINUTES in t2.columns && AVAILABLE in t2.columns then WithColumn(t2, USAGE, UsageCells(t2.rows))
      else t2
  }

  /** Available Minutes is 90 per match; Usage is 100 * whole minutes played
      / available minutes, rounded, and undefined when there are no
      available minutes. */
  lemma UsageOfRow(t: Table, i: nat, matches: real, minutes: real)
    requires MATCHES in t.columns && MINUTES in t.columns && i < |t.rows|
    requires Get(t.rows[i], MATCHES) == Num(matches) && Get(t.rows[i], MINUTES) == Num(minutes)
    ensures Get(WithUsage(t).rows[i], AVAILABLE) == Num(90.0 * matches)
    ensures Get(WithUsage(t).rows[i], MINUTES) == Num(Round0(minutes))
    ensures matches != 0.0 ==>
      Get(WithUsage(t).rows[i], USAGE) == Num(Round2(100.0 * Round0(minutes) / (90.0 * matches)))
    ensures matches == 0.0 ==> !Get(WithUsage(t).rows[i], USAGE).Num?
    ensures matches == 0.0 ==> (Get(WithUsage(t).rows[i], USAGE).NaN? <==> Round0(minutes) == 0.0)
  {
    var t1 := WithColumn(t, MINUTES, WholeMinutes(t.rows));
    assert Get(t1.rows[i], MINUTES) == Num(Round0(minutes));
    assert Get(t1.rows[i], MATCHES) == Num(matches);
    var t2 := WithColumn(t1, AVAILABLE, AvailableMinutes(t1.rows));
    assert Get(t2.rows[i], AVAILABLE) == Num(90.0 * matches);
    assert Get(t2.rows[i], MINUTES) == Num(Round0(minutes));
    var t3 := WithColumn(t2, USAGE, UsageCells(t2.rows));
    assert WithUsage(t) == t3;
    assert Get(t3.rows[i], USAGE) == RoundCell2(Scale(Divide(Num(Round0(minutes)), Num(90.0 * matches)), 100.0));
    assert Get(t3.rows[i], AVAILABLE) == Num(90.0 * matches);
    assert Get(t3.rows[i], MINUTES) == Num(Round0(minutes));
    UsageCell(minutes, matches);
  }

  /** The usage cell of one row from its minutes played and its matches. */
  lemma UsageCell(minutes: real, matches: real)
    ensures var c := RoundCell2(Scale(Divide(Num(Round0(minutes)), Num(90.0 * matches)), 100.0));
      && (matches != 0.0 ==> c == Num(Round2(100.0 * Round0(minutes) / (90.0 * matches))))
      && (matches == 0.0 ==> !c.Num? && (c.NaN? <==> Round0(minutes) == 0.0))
  {
    if matches != 0.0 {
      PercentOf(Round0(minutes), 90.0 * matches);
    }
  }

  /** Line 86 rounds Minutes Played whenever the column exists, with or
      without Matches; otherwise the cell is left alone. */
  lemma MinutesRounded(t: Table, i: nat)
    requires i < |t.rows|
    ensures Get(WithUsage(t).rows[i], MINUTES) ==
      if MINUTES in t.columns then RoundCell0(Get(t.rows[i], MINUTES)) else Get(t.rows[i], MINUTES)
  {
    var t1 := if MINUTES in t.columns then WithColumn(t, MINUTES, WholeMinutes(t.rows)) else t;
    assert Get(t1.rows[i], MINUTES) ==
      if MINUTES in t.columns then RoundCell0(Get(t.rows[i], MINUTES)) else Get(t.rows[i], MINUTES);
  }

  /** Available Minutes is 90 times Matches whenever Matches is a column,
      whether or not Minutes Played exists or holds a number; without Matches
      the row keeps whatever Available Minutes it had. */
  lemma AvailableOfRow(t: Table, i: nat)
    requires i < |t.rows|
    ensures Get(WithUsage(t).rows[i], AVAILABLE) ==
      if MATCHES in t.columns then Scale(Get(t.rows[i], MATCHES), 90.0) else Get(t.rows[i], AVAILABLE)
  {
    var t1 := if MINUTES in t.columns then WithColumn(t, MINUTES, WholeMinutes(t.rows)) else t;
    assert Get(t1.rows[i], MATCHES) == Get(t.rows[i], MATCHES);
    assert Get(t1.rows[i], AVAILABLE) == Get(t.rows[i], AVAILABLE);
  }

  /** A missing Matches or Minutes Played cell gives a missing Usage, and a
      missing Matches cell a missing Available Minutes. */
  lemma UsageMissingOperand(t: Table, i: nat)
    requires MATCHES in t.columns && MINUTES in t.columns && i < |t.rows|
    requires Get(t.rows[i], MATCHES).NaN? || Get(t.rows[i], MINUTES).NaN?
    ensures Get(WithUsage(t).rows[i], USAGE).NaN?
    ensures Get(t.rows[i], MATCHES).NaN? ==> Get(WithUsage(t).rows[i], AVAILABLE).NaN?
  {
    var t1 := WithColumn(t, MINUTES, WholeMinutes(t.rows));
    assert Get(t1.rows[i], MINUTES) == RoundCell0(Get(t.rows[i], MINUTES));
    assert Get(t1.rows[i], MATCHES) == Get(t.rows[i], MATCHES);
    var t2 := WithColumn(t1, AVAILABLE, AvailableMinutes(t1.rows));
    assert Get(t2.rows[i], AVAILABLE) == Scale(Get(t.rows[i], MATCHES), 90.0);
    assert Get(t2.rows[i], MINUTES) == RoundCell0(Get(t.rows[i], MINUTES));
    var t3 := WithColumn(t2, USAGE, UsageCells(t2.rows));
    assert WithUsage(t) == t3;
    assert Get(t3.rows[i], AVAILABLE) == Get(t2.rows[i], AVAILABLE);
  }

  /** Ten matches and 450 minutes played: 900 available minutes, usage 50. */
  lemma UsageExample()
    ensures var t := Table([MATCHES, MINUTES], [map[MATCHES := Num(10.0), MINUTES := Num(450.0)]]);
      && Get(WithUsage(t).rows[0], AVAILABLE) == Num(900.0)
      && Get(WithUsage(t).rows[0], USAGE) == Num(50.0)
  {
    var t := Table([MATCHES, MINUTES], [map[MATCHES := Num(10.0), MINUTES := Num(450.0)]]);
    RoundHalfEvenWhole(450);
    RoundHalfEvenWhole(5000);
    UsageOfRow(t, 0, 10.0, 450.0);
  }
}
