/** What the dashboard shows of the filtered table: the display columns that
    exist (Player_involvement_App.py lines 114-133) with every contribution
    rendered as a percentage text (lines 136-139). */
module Presentation {
  import opened Numbers
  import opened Cells
  import opened Seqs
  import opened Tables
  import opened Derivation

  /** The columns the dashboard wants to show, in display order. */
  const DISPLAY: seq<string> := [
    "Name", "Team", "Age", "Primary Position", "Usage",
    "OBV", "Team OBV", "OBV Contribution",
    "Key Passes", "Team Key Passes", "Key Passes Contribution",
    "Shots", "Team Shots", "Shots Contribution",
    "xG", "Team xG", "xG Contribution",
    "Ball Recoveries", "Team Ball Recoveries", "Ball Recoveries Contribution",
    "Opposition Half Ball Recoveries", "Team Opposition Half Ball Recoveries",
    "Opposition Half Ball Recoveries Contribution",
    "Deep Completions", "Team Deep Completions", "Deep Completions Contribution",
    "Open Play Final Third Passes", "Team Open Play Final Third Passes",
    "Open Play Final Third Passes Contribution",
    "xGBuildup", "Team xGBuildup", "xGBuildup Contribution",
    "Defensive Action OBV", "Team Defensive Action OBV", "Defensive Action OBV Contribution",
    "Dribble & Carry OBV", "Team Dribble & Carry OBV", "Dribble & Carry OBV Contribution",
    "Pass OBV", "Team Pass OBV", "Pass OBV Contribution",
    "Shot OBV", "Team Shot OBV", "Shot OBV Contribution"
  ]

  /** Line 132: the display columns the table has, in display order. */
  function AvailableColumns(display: seq<string>, columns: seq<string>): (cols: seq<string>)
    ensures forall c :: c in cols <==> c in display && c in columns
    ensures Subseq(cols, display)
  {
    Where(display, c => c in columns)
  }

  /** Nothing is repeated in the projection that the display list does not
      repeat. */
  lemma AvailableColumnsNoRepeats(display: seq<string>, columns: seq<string>)
    ensures forall c ::
      multiset(AvailableColumns(display, columns))[c] == if c in columns then multiset(display)[c] else 0
    ensures NoDup(display) ==> NoDup(AvailableColumns(display, columns))
  {
    if NoDup(display) {
      WhereNoDup(display, c => c in columns);
    }
  }

  /** Line 139 over a whole column: every cell becomes its percentage text. */
  function Percents(rows: seq<Row>, column: string): (cells: seq<Cell>)
    requires forall r :: r in rows ==> !Get(r, column).Text?
    ensures |cells| == |rows|
  {
    seq(|rows|, i requires 0 <= i < |rows| => (assert rows[i] in rows; Text(PercentText(Get(rows[i], column)))))
  }

  /** Lines 137-139 for one metric: only an existing contribution column is
      rewritten. */
  function FormatContribution(t: Table, m: string): (u: Table)
    requires forall r :: r in t.rows ==> !Get(r, ContributionName(m)).Text?
    ensures u.columns == t.columns && |u.rows| == |t.rows|
    ensures WellFormed(t) ==> WellFormed(u)
  {
    if ContributionName(m) in t.columns then WithColumn(t, ContributionName(m), Percents(t.rows, ContributionName(m)))
    else t
  }

  /** The loop of lines 136-139 over the metrics `ms`, in order. A metric
      listed twice would format its column twice, and `%.2f` of a text
      raises, so the metrics are distinct. */
  function Formatted(t: Table, ms: seq<string>): (u: Table)
    requires NoDup(ms)
    requires forall m, r :: m in ms && r in t.rows ==> !Get(r, ContributionName(m)).Text?
    ensures u.columns == t.columns && |u.rows| == |t.rows|
    ensures WellFormed(t) ==> WellFormed(u)
    ensures forall i, c :: 0 <= i < |t.rows| && (forall m :: m in ms ==> c != ContributionName(m)) ==>
      Get(u.rows[i], c) == Get(t.rows[i], c)
    decreases |ms|
  {
    if ms == [] then t
    else
      var init := ms[..|ms| - 1];
      var last := ms[|ms| - 1];
      assert ms == init + [last];
      assert NoDup(init);
      var v := Formatted(t, init);
      forall r | r in v.rows ensures !Get(r, ContributionName(last)).Text? {
        var i :| 0 <= i < |v.rows| && v.rows[i] == r;
        forall m | m in init ensures ContributionName(last) != ContributionName(m) {
          DerivedInjective(last, m);
        }
        assert t.rows[i] in t.rows;
      }
      var u := FormatContribution(v, last);
      assert forall i, c :: 0 <= i < |t.rows| && c != ContributionName(last) ==>
        Get(u.rows[i], c) == Get(v.rows[i], c);
      u
  }

  /** After the loop every contribution cell of a listed metric holds the
      percentage text of its old value. */
  lemma {:induction false} FormattedCell(t: Table, ms: seq<string>, m: string, i: nat)
    requires NoDup(ms)
    requires forall x, r :: x in ms && r in t.rows ==> !Get(r, ContributionName(x)).Text?
    requires m in ms && ContributionName(m) in t.columns && i < |t.rows|
    ensures !Get(t.rows[i], ContributionName(m)).Text?
    ensures Get(Formatted(t, ms).rows[i], ContributionName(m)) == Text(PercentText(Get(t.rows[i], ContributionName(m))))
    decreases |ms|
  {
    assert t.rows[i] in t.rows;
    var init := ms[..|ms| - 1];
    var last := ms[|ms| - 1];
    assert ms == init + [last];
    assert NoDup(init);
    var v := Formatted(t, init);
    if last == m {
      assert m !in init;
      forall x | x in init ensures ContributionName(m) != ContributionName(x) {
        DerivedInjective(m, x);
      }
    } else {
      assert m in init;
      FormattedCell(t, init, m, i);
    }
  }

  /** What a shown contribution looks like: "N/A" or a text ending in '%'. */
  predicate PercentShaped(s: string)
  {
    s == "N/A" || (|s| >= 1 && s[|s| - 1] == '%')
  }

  /** A shown contribution is "N/A" exactly when it is missing; otherwise it
      ends in '%' and, for a finite value, reads back as that value rounded to
      two decimals. */
  lemma FormattedContribution(t: Table, ms: seq<string>, m: string, i: nat)
    requires NoDup(ms)
    requires forall x, r :: x in ms && r in t.rows ==> !Get(r, ContributionName(x)).Text?
    requires m in ms && ContributionName(m) in t.columns && i < |t.rows|
    ensures var old_ := Get(t.rows[i], ContributionName(m));
      var new_ := Get(Formatted(t, ms).rows[i], ContributionName(m));
      && new_.Text?
      && (new_.s == "N/A" <==> old_.NaN?)
      && (!old_.NaN? ==> |new_.s| >= 1 && new_.s[|new_.s| - 1] == '%')
      && (old_.Num? ==> ParseFixed2(new_.s[..|new_.s| - 1]) == Some(Round2(old_.v)))
    ensures var new_ := Get(Formatted(t, ms).rows[i], ContributionName(m));
      new_.Text? && PercentShaped(new_.s)
  {
    FormattedCell(t, ms, m, i);
  }
}
