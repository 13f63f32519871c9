/** The marks analyzer: `process_csv_data`, which appends a Total and an Average
    column to an uploaded roster of student marks, and the views that the app
    derives from the processed table: one student's rows, the students with a
    low average, the students lagging in some subject, and the subject-by-subject
    records behind the box plot. */
module MarksAnalyzer {
  import opened Frame

  const TotalColumn := "Total"
  const AverageColumn := "Average"
  /** A student whose average is below this is listed as low-performing. */
  const LowAverageBound := 40
  /** A mark below this in any subject makes a student lagging. */
  const FailMark := 35
  /** The name the box-plot reshape gives its value column; the reshape is
      refused when the table already has a column of that name. */
  const MarksColumn := "Marks"

  predicate Derived(name: string)
  {
    name == TotalColumn || name == AverageColumn
  }

  /** Marks are integers: every cell of a numeric column of the uploaded roster
      is an integer (no missing cells, no fractional marks). */
  predicate IntegerMarks(t: Table)
  {
    forall i, k ::
      0 <= i < |t.rows| && 0 <= k < |t.header| && k < |t.rows[i]| && t.header[k].numeric ==>
        t.rows[i][k].Int?
  }

  /** A roster as it arrives from the file reader. */
  predicate Roster(t: Table)
  {
    WellFormed(t) && IntegerMarks(t)
  }

  function NumericMask(t: Table): seq<bool>
  {
    seq(|t.header|, k requires 0 <= k < |t.header| => t.header[k].numeric)
  }

  /** The columns a numeric dtype selection picks, as positions: the numeric
      columns, in table order. */
  function NumericColumns(t: Table): (cols: seq<nat>)
    ensures Increasing(cols)
    ensures forall j :: 0 <= j < |cols| ==> cols[j] < |t.header| && t.header[cols[j]].numeric
    ensures forall k :: 0 <= k < |t.header| && t.header[k].numeric ==> k in cols
  {
    TrueIndices(NumericMask(t))
  }

  /** The numeric columns other than `Total` and `Average`, from position
      `from` on. */
  function SubjectMask(t: Table, from: nat): seq<bool>
  {
    seq(|t.header|, k requires 0 <= k < |t.header| =>
      from <= k && t.header[k].numeric && !Derived(t.header[k].name))
  }

  /** The numeric columns with `Total` and `Average` dropped, in table order: the
      subject columns of the lagging test and of the box plot. */
  function SubjectColumns(t: Table): (cols: seq<nat>)
    ensures Increasing(cols)
    ensures forall j :: 0 <= j < |cols| ==>
              cols[j] < |t.header| && t.header[cols[j]].numeric && !Derived(t.header[cols[j]].name)
    ensures forall k :: 0 <= k < |t.header| && t.header[k].numeric && !Derived(t.header[k].name) ==> k in cols
  {
    TrueIndices(SubjectMask(t, 0))
  }

  /** The value columns of the box-plot reshape: the subject columns other
      than the identifier column, which the reshape takes out of its values. */
  function BoxPlotColumns(t: Table): (cols: seq<nat>)
    ensures Increasing(cols)
    ensures forall j :: 0 <= j < |cols| ==>
              0 < cols[j] < |t.header| && t.header[cols[j]].numeric && !Derived(t.header[cols[j]].name)
    ensures forall k :: 0 < k < |t.header| && t.header[k].numeric && !Derived(t.header[k].name) ==> k in cols
  {
    TrueIndices(SubjectMask(t, 1))
  }

  function IntOf(c: Cell): int
  {
    if c.Int? then c.i else 0
  }

  /** The sum of a row's integer cells in the given columns; the sum over no
      columns is 0. */
  function MarkSum(row: Row, cols: seq<nat>): (s: int)
    requires forall j :: 0 <= j < |cols| ==> cols[j] < |row|
    ensures cols == [] ==> s == 0
  {
    if cols == [] then 0
    else
      var m := |cols| - 1;
      MarkSum(row, cols[..m]) + IntOf(row[cols[m]])
  }

  /** The row mean over the given columns; the mean of no columns is missing. */
  function Mean(row: Row, cols: seq<nat>): (m: Cell)
    requires forall j :: 0 <= j < |cols| ==> cols[j] < |row|
    ensures m.NaN? <==> |cols| == 0
    ensures |cols| > 0 ==> m.Float? && m.r * |cols| as real == MarkSum(row, cols) as real
  {
    if |cols| == 0 then NaN else Float(MarkSum(row, cols) as real / |cols| as real)
  }

  /** The column of sums that `process_csv_data` assigns to `Total`. */
  function Totals(t: Table, marks: seq<nat>): (vs: seq<Cell>)
    requires Rectangular(t) && forall j :: 0 <= j < |marks| ==> marks[j] < |t.header|
    ensures |vs| == |t.rows| && forall i :: 0 <= i < |vs| ==> vs[i].Int?
  {
    seq(|t.rows|, i requires 0 <= i < |t.rows| => Int(MarkSum(t.rows[i], marks)))
  }

  /** The column of means that `process_csv_data` assigns to `Average`. */
  function Averages(t: Table, marks: seq<nat>): (vs: seq<Cell>)
    requires Rectangular(t) && forall j :: 0 <= j < |marks| ==> marks[j] < |t.header|
    ensures |vs| == |t.rows| && forall i :: 0 <= i < |vs| ==> NumericCell(vs[i])
  {
    seq(|t.rows|, i requires 0 <= i < |t.rows| => Mean(t.rows[i], marks))
  }

  /** The roster once `Total` has been assigned. */
  function WithTotal(t: Table): (r: Table)
    requires Roster(t)
    ensures WellFormed(r) && |r.rows| == |t.rows| && |r.header| >= |t.header|
  {
    var totals := Totals(t, NumericColumns(t));
    AssignWellFormed(t, TotalColumn, totals);
    AssignNames(t, TotalColumn, totals, true);
    Assign(t, TotalColumn, totals, true)
  }

  /** `process_csv_data`: the mark columns are fixed before anything is added;
      `Total` is assigned the row sums over them, then `Average` is assigned the
      row means over the same columns of the table that already holds `Total`. */
  function Enrich(t: Table): (e: Table)
    requires Roster(t)
    ensures WellFormed(e) && |e.rows| == |t.rows|
  {
    var withTotal := WithTotal(t);
    var averages := Averages(withTotal, NumericColumns(t));
    AssignWellFormed(withTotal, AverageColumn, averages);
    Assign(withTotal, AverageColumn, averages, true)
  }

  /** Two rows that agree on the given columns have the same sum over them. */
  lemma {:induction false} MarkSumFrame(a: Row, b: Row, cols: seq<nat>)
    requires forall j :: 0 <= j < |cols| ==> cols[j] < |a| && cols[j] < |b| && a[cols[j]] == b[cols[j]]
    ensures MarkSum(a, cols) == MarkSum(b, cols)
  {
    if cols != [] {
      MarkSumFrame(a, b, cols[..|cols| - 1]);
    }
  }

  /** When every summed mark lies between lo and hi, the sum lies between
      lo and hi times the number of columns, so a mean lies between them too. */
  lemma {:induction false} MarkSumBounds(row: Row, cols: seq<nat>, lo: int, hi: int)
    requires forall j :: 0 <= j < |cols| ==> cols[j] < |row|
    requires forall j :: 0 <= j < |cols| ==> lo <= IntOf(row[cols[j]]) <= hi
    ensures lo * |cols| <= MarkSum(row, cols) <= hi * |cols|
  {
    if cols != [] {
      var m := |cols| - 1;
      MarkSumBounds(row, cols[..m], lo, hi);
      assert lo * |cols| == lo * m + lo && hi * |cols| == hi * m + hi;
    }
  }

  /** A roster with neither a `Total` nor an `Average` column has no column
      with a derived name. */
  lemma {:induction false} NoDerivedColumn(t: Table)
    requires !HasColumn(t, TotalColumn) && !HasColumn(t, AverageColumn)
    ensures forall k :: 0 <= k < |t.header| ==> !Derived(t.header[k].name)
  {
    forall k | 0 <= k < |t.header| ensures !Derived(t.header[k].name) {
      assert Names(t.header)[k] == t.header[k].name;
    }
  }

  /** The roster with `Total` assigned: the `Total` column holds every row's
      sum over the mark columns, and every other column is as uploaded. */
  lemma {:induction false} WithTotalFacts(t: Table)
    requires Roster(t)
    ensures var w := WithTotal(t);
            Names(w.header) == Names(t.header) + (if HasColumn(t, TotalColumn) then [] else [TotalColumn])
    ensures var w, p := WithTotal(t), ColumnIndex(WithTotal(t), TotalColumn);
            p < |w.header| && w.header[p] == Column(TotalColumn, true) &&
            forall i :: 0 <= i < |t.rows| ==> w.rows[i][p] == Int(MarkSum(t.rows[i], NumericColumns(t)))
    ensures var w := WithTotal(t);
            (forall k :: 0 <= k < |t.header| && t.header[k].name != TotalColumn ==> w.header[k] == t.header[k]) &&
            (forall i, k :: 0 <= i < |t.rows| && 0 <= k < |t.header| && t.header[k].name != TotalColumn ==>
               w.rows[i][k] == t.rows[i][k])
  {
    var totals := Totals(t, NumericColumns(t));
    AssignNames(t, TotalColumn, totals, true);
    AssignColumn(t, TotalColumn, totals, true);
    AssignKeeps(t, TotalColumn, totals, true);
  }

  /** Enrichment appends `Total` and then `Average` after the original
      columns, except that a column already carrying one of those names is
      replaced where it stands. */
  lemma {:induction false} EnrichNames(t: Table)
    requires Roster(t)
    ensures Names(Enrich(t).header) ==
              Names(t.header)
              + (if HasColumn(t, TotalColumn) then [] else [TotalColumn])
              + (if HasColumn(t, AverageColumn) then [] else [AverageColumn])
  {
    var w := WithTotal(t);
    WithTotalFacts(t);
    assert HasColumn(w, AverageColumn) <==> HasColumn(t, AverageColumn);
    AssignNames(w, AverageColumn, Averages(w, NumericColumns(t)), true);
  }

  /** Enrichment keeps every row and, for every original column other than
      `Total` and `Average`, its header, its position and its cells. */
  lemma {:induction false} EnrichKeepsColumns(t: Table)
    requires Roster(t)
    ensures var e := Enrich(t);
            forall k :: 0 <= k < |t.header| && !Derived(t.header[k].name) ==> e.header[k] == t.header[k]
    ensures var e := Enrich(t);
            forall i, k :: 0 <= i < |t.rows| && 0 <= k < |t.header| && !Derived(t.header[k].name) ==>
              e.rows[i][k] == t.rows[i][k]
  {
    var w := WithTotal(t);
    WithTotalFacts(t);
    AssignKeeps(w, AverageColumn, Averages(w, NumericColumns(t)), true);
  }

  /** After enrichment both derived columns exist, and both are numeric; the
      `Total` column stays where the assignment of `Total` put it. */
  lemma {:induction false} EnrichHasDerived(t: Table)
    requires Roster(t)
    ensures var e := Enrich(t);
            HasColumn(e, TotalColumn) && e.header[ColumnIndex(e, TotalColumn)] == Column(TotalColumn, true)
    ensures var e := Enrich(t);
            HasColumn(e, AverageColumn) && e.header[ColumnIndex(e, AverageColumn)] == Column(AverageColumn, true)
    ensures ColumnIndex(Enrich(t), TotalColumn) == ColumnIndex(WithTotal(t), TotalColumn)
  {
    var w := WithTotal(t);
    var e := Enrich(t);
    var averages := Averages(w, NumericColumns(t));
    WithTotalFacts(t);
    AssignNames(w, AverageColumn, averages, true);
    AssignColumn(w, AverageColumn, averages, true);
    AssignKeeps(w, AverageColumn, averages, true);
    var p := ColumnIndex(w, TotalColumn);
    if !HasColumn(w, AverageColumn) {
      PositionAfterAppend(Names(w.header), AverageColumn, TotalColumn);
    }
    assert ColumnIndex(e, TotalColumn) == p;
  }

  /** For every row, `Total` is the sum of that row's marks over the numeric
      columns of the uploaded roster; the derived columns, which do not exist yet
      when the mark columns are fixed, never contribute to it. */
  lemma {:induction false} TotalIsMarkSum(t: Table, i: nat)
    requires Roster(t) && i < |t.rows|
    ensures var e := Enrich(t);
            ColumnIndex(e, TotalColumn) < |e.header| &&
            e.rows[i][ColumnIndex(e, TotalColumn)] == Int(MarkSum(t.rows[i], NumericColumns(t)))
  {
    var w := WithTotal(t);
    WithTotalFacts(t);
    EnrichHasDerived(t);
    AssignKeeps(w, AverageColumn, Averages(w, NumericColumns(t)), true);
  }

  /** For every row, `Average` is `Total` divided by the number of mark columns,
      and it is missing when there is no mark column. This holds unless the
      uploaded roster has a numeric column named `Total`: that column is then a
      mark column and the mean at `Average` reads its new value, the sum. */
  lemma {:induction false} AverageIsTotalOverCount(t: Table, i: nat)
    requires Roster(t) && i < |t.rows|
    requires forall k :: 0 <= k < |t.header| && t.header[k].numeric ==> t.header[k].name != TotalColumn
    ensures var e, marks := Enrich(t), NumericColumns(t);
            var total, average := ColumnIndex(e, TotalColumn), ColumnIndex(e, AverageColumn);
            total < |e.header| && average < |e.header| &&
            e.rows[i][total].Int? &&
            e.rows[i][average] ==
              if |marks| == 0 then NaN else Float(e.rows[i][total].i as real / |marks| as real)
  {
    var marks := NumericColumns(t);
    var w := WithTotal(t);
    EnrichHasDerived(t);
    TotalIsMarkSum(t, i);
    WithTotalFacts(t);
    AssignColumn(w, AverageColumn, Averages(w, marks), true);
    MarkSumFrame(w.rows[i], t.rows[i], marks);
  }

  /** When the uploaded roster has neither a `Total` nor an `Average` column,
      enrichment appends exactly those two columns, in that order, to every
      row: the sum of the row's marks and their mean. */
  lemma {:induction false} EnrichAppendsTotalThenAverage(t: Table, i: nat)
    requires Roster(t) && i < |t.rows|
    requires !HasColumn(t, TotalColumn) && !HasColumn(t, AverageColumn)
    ensures Enrich(t).header == t.header + [Column(TotalColumn, true), Column(AverageColumn, true)]
    ensures var marks := NumericColumns(t);
            Enrich(t).rows[i] == t.rows[i] + [Int(MarkSum(t.rows[i], marks)), Mean(t.rows[i], marks)]
  {
    var marks := NumericColumns(t);
    var w := WithTotal(t);
    AssignAppends(t, TotalColumn, Totals(t, marks), true);
    WithTotalFacts(t);
    assert AverageColumn !in Names(w.header);
    AssignAppends(w, AverageColumn, Averages(w, marks), true);
    MarkSumFrame(w.rows[i], t.rows[i], marks);
  }

  // ---------- The views of the processed table ----------

  /** A comparison `cell < bound` as pandas evaluates it on a numeric column:
      numbers compare by value and a missing value compares false. */
  function Below(c: Cell, bound: int): (b: bool)
    ensures c.NaN? ==> !b
    ensures c.Int? ==> (b <==> c.i < bound)
    ensures c.Text? ==> !b
    ensures c.Float? ==> (b <==> c.r < bound as real)
  {
    match c
    case Int(x) => x < bound
    case Float(x) => x < bound as real
    case NaN => false
    case Text(_) => false
  }

  /** Row by row, whether the `Average` cell is below 40. */
  function LowAverageMask(t: Table): (m: seq<bool>)
    requires Rectangular(t) && HasColumn(t, AverageColumn)
    ensures |m| == |t.rows|
  {
    seq(|t.rows|, i requires 0 <= i < |t.rows| =>
      Below(t.rows[i][ColumnIndex(t, AverageColumn)], LowAverageBound))
  }

  /** The rows of the low-performing students: the table selected by the
      low-average mask (characterized by `LowAverageViewExactly`). */
  function LowAverageView(t: Table): (v: Table)
    requires Rectangular(t) && HasColumn(t, AverageColumn)
    ensures v.header == t.header && |v.rows| <= |t.rows|
  {
    SelectRows(t, LowAverageMask(t))
  }

  /** The low-average view is exactly the subsequence of rows whose `Average`
      is below 40, in their original order; an average of exactly 40, and a
      missing average, are not below 40. */
  lemma {:induction false} LowAverageViewExactly(t: Table)
    requires Rectangular(t) && HasColumn(t, AverageColumn)
    ensures var v, idx, a := LowAverageView(t), TrueIndices(LowAverageMask(t)), ColumnIndex(t, AverageColumn);
            v.header == t.header && |v.rows| == |idx| && Increasing(idx) &&
            (forall j :: 0 <= j < |idx| ==> idx[j] < |t.rows| && v.rows[j] == t.rows[idx[j]]) &&
            (forall i :: 0 <= i < |t.rows| ==> (i in idx <==> Below(t.rows[i][a], LowAverageBound)))
  {
    MaskedExactly(t.rows, LowAverageMask(t));
  }

  /** Whether some cell of a row in the given columns is below the bound. */
  function AnyBelow(row: Row, cols: seq<nat>, bound: int): (b: bool)
    requires forall j :: 0 <= j < |cols| ==> cols[j] < |row|
    ensures b <==> exists j :: 0 <= j < |cols| && Below(row[cols[j]], bound)
  {
    if cols == [] then false
    else
      var m := |cols| - 1;
      AnyBelow(row, cols[..m], bound) || Below(row[cols[m]], bound)
  }

  /** Row by row, whether some subject mark is below 35. */
  function LaggingMask(t: Table): (m: seq<bool>)
    requires Rectangular(t)
    ensures |m| == |t.rows|
  {
    var subjects := SubjectColumns(t);
    seq(|t.rows|, i requires 0 <= i < |t.rows| => AnyBelow(t.rows[i], subjects, FailMark))
  }

  /** The rows of the lagging students: the table selected by the lagging
      mask (characterized by `LaggingViewExactly`). Dropping `Total` and
      `Average` from the numeric columns needs both to exist. */
  function LaggingView(t: Table): (v: Table)
    requires Rectangular(t) && HasColumn(t, TotalColumn) && HasColumn(t, AverageColumn)
    ensures v.header == t.header && |v.rows| <= |t.rows|
  {
    SelectRows(t, LaggingMask(t))
  }

  /** The lagging view is exactly the subsequence of rows with some subject mark
      below 35, in their original order, where the subject columns are the
      numeric columns other than `Total` and `Average`; a row whose lowest mark
      is exactly 35 is not lagging. */
  lemma {:induction false} LaggingViewExactly(t: Table)
    requires Rectangular(t) && HasColumn(t, TotalColumn) && HasColumn(t, AverageColumn)
    ensures var v, idx, subjects := LaggingView(t), TrueIndices(LaggingMask(t)), SubjectColumns(t);
            v.header == t.header && |v.rows| == |idx| && Increasing(idx) &&
            (forall j :: 0 <= j < |idx| ==> idx[j] < |t.rows| && v.rows[j] == t.rows[idx[j]]) &&
            (forall i :: 0 <= i < |t.rows| ==>
               (i in idx <==> exists j :: 0 <= j < |subjects| && Below(t.rows[i][subjects[j]], FailMark)))
  {
    MaskedExactly(t.rows, LaggingMask(t));
  }

  /** One header entry of the processed table: an original column keeps its
      name, and its whole header unless it is a derived column; every column
      past the original ones is a derived column. */
  lemma {:induction false} EnrichHeaderAt(t: Table, k: nat)
    requires Roster(t) && k < |Enrich(t).header|
    ensures var e := Enrich(t);
            if k < |t.header| then
              e.header[k].name == t.header[k].name && (!Derived(t.header[k].name) ==> e.header[k] == t.header[k])
            else
              Derived(e.header[k].name)
  {
    var e := Enrich(t);
    EnrichNames(t);
    assert Names(e.header)[k] == e.header[k].name;
    if k < |t.header| {
      assert Names(t.header)[k] == t.header[k].name;
      EnrichKeepsColumns(t);
    }
  }

  /** The subject columns of the processed table are the numeric columns of the
      uploaded roster other than any named `Total` or `Average`; when the roster
      has neither name they are exactly its mark columns. */
  lemma {:induction false} SubjectColumnsOfEnriched(t: Table)
    requires Roster(t)
    ensures SubjectColumns(Enrich(t)) == SubjectColumns(t)
    ensures !HasColumn(t, TotalColumn) && !HasColumn(t, AverageColumn) ==>
              SubjectColumns(t) == NumericColumns(t)
  {
    SubjectMaskOfEnriched(t, 0);
    if !HasColumn(t, TotalColumn) && !HasColumn(t, AverageColumn) {
      NoDerivedColumn(t);
      assert SubjectMask(t, 0) == NumericMask(t);
    }
  }

  /** A row of the processed table is low-performing exactly when there is at
      least one mark column and the row's marks sum to less than 40 per mark
      column; an uploaded roster without mark columns has no low-average row.
      (As with `AverageIsTotalOverCount`, an uploaded numeric `Total` column is
      excluded.) */
  lemma {:induction false} LowAverageOfEnriched(t: Table, i: nat)
    requires Roster(t) && i < |t.rows|
    requires forall k :: 0 <= k < |t.header| && t.header[k].numeric ==> t.header[k].name != TotalColumn
    ensures var e, marks := Enrich(t), NumericColumns(t);
            HasColumn(e, AverageColumn) &&
            (LowAverageMask(e)[i] <==>
               |marks| > 0 && MarkSum(t.rows[i], marks) < LowAverageBound * |marks|)
  {
    var e, marks := Enrich(t), NumericColumns(t);
    AverageIsTotalOverCount(t, i);
    TotalIsMarkSum(t, i);
    EnrichHasDerived(t);
    var a := ColumnIndex(e, AverageColumn);
    assert LowAverageMask(e)[i] == Below(e.rows[i][a], LowAverageBound);
    if |marks| > 0 {
      MeanBelow(MarkSum(t.rows[i], marks), |marks|, LowAverageBound);
    }
  }

  lemma {:induction false} MeanBelow(sum: int, n: nat, bound: int)
    requires n > 0
    ensures sum as real / n as real < bound as real <==> sum < bound * n
  {
    var q := sum as real / n as real;
    assert q * n as real == sum as real;
  }

  /** If the marks of a row sum to less than bound per column, one of its
      marks is below bound. */
  lemma {:induction false} SomeMarkBelow(row: Row, cols: seq<nat>, bound: int)
    requires forall j :: 0 <= j < |cols| ==> cols[j] < |row|
    requires MarkSum(row, cols) < bound * |cols|
    ensures exists j :: 0 <= j < |cols| && IntOf(row[cols[j]]) < bound
  {
    var m := |cols| - 1;
    if IntOf(row[cols[m]]) >= bound {
      assert MarkSum(row, cols[..m]) < bound * m by {
        assert bound * |cols| == bound * m + bound;
      }
      SomeMarkBelow(row, cols[..m], bound);
      var j :| 0 <= j < m && IntOf(row[cols[..m][j]]) < bound;
      assert cols[..m][j] == cols[j];
    }
  }

  /** A student whose average is below a bound has a mark below it. */
  lemma {:induction false} AverageBelowHasMarkBelow(t: Table, i: nat, bound: int)
    requires Roster(t) && i < |t.rows|
    requires forall k :: 0 <= k < |t.header| && t.header[k].numeric ==> t.header[k].name != TotalColumn
    ensures var e, marks := Enrich(t), NumericColumns(t);
            HasColumn(e, AverageColumn) &&
            (Below(e.rows[i][ColumnIndex(e, AverageColumn)], bound) ==>
               exists j :: 0 <= j < |marks| && IntOf(t.rows[i][marks[j]]) < bound)
  {
    var e, marks := Enrich(t), NumericColumns(t);
    EnrichHasDerived(t);
    AverageIsTotalOverCount(t, i);
    TotalIsMarkSum(t, i);
    var a := ColumnIndex(e, AverageColumn);
    if Below(e.rows[i][a], bound) {
      var sum, n := MarkSum(t.rows[i], marks), |marks|;
      assert n > 0;
      MeanBelow(sum, n, bound);
      SomeMarkBelow(t.rows[i], marks, bound);
    }
  }

  /** One cell of an original, non-derived column, after enrichment. */
  lemma {:induction false} EnrichKeepsCell(t: Table, i: nat, k: nat)
    requires Roster(t) && i < |t.rows| && k < |t.header|
    requires !Derived(t.header[k].name)
    ensures var e := Enrich(t);
            k < |e.header| && e.header[k] == t.header[k] && e.rows[i][k] == t.rows[i][k]
  {
    EnrichKeepsColumns(t);
  }

  /** Without a collision, the j-th subject column of the processed table is the
      j-th mark column of the roster, and it holds the roster's cells. */
  lemma {:induction false} MarkColumnIsSubject(t: Table, i: nat, j: nat)
    requires Roster(t) && i < |t.rows|
    requires !HasColumn(t, TotalColumn) && !HasColumn(t, AverageColumn)
    requires j < |NumericColumns(t)|
    ensures var e, c := Enrich(t), NumericColumns(t)[j];
            |SubjectColumns(e)| == |NumericColumns(t)| && SubjectColumns(e)[j] == c &&
            c < |t.header| && c < |e.header| && e.header[c] == t.header[c] && e.rows[i][c] == t.rows[i][c]
  {
    var c := NumericColumns(t)[j];
    NoDerivedColumn(t);
    EnrichKeepsCell(t, i, c);
    SubjectColumnsOfEnriched(t);
  }

  /** Every student whose average is below 35 is also lagging: some subject
      mark of theirs is below 35. */
  lemma {:induction false} AverageBelowFailMarkIsLagging(t: Table, i: nat)
    requires Roster(t) && i < |t.rows|
    requires !HasColumn(t, TotalColumn) && !HasColumn(t, AverageColumn)
    ensures var e := Enrich(t);
            HasColumn(e, TotalColumn) && HasColumn(e, AverageColumn) &&
            (Below(e.rows[i][ColumnIndex(e, AverageColumn)], FailMark) ==> LaggingMask(e)[i])
  {
    var e, marks := Enrich(t), NumericColumns(t);
    EnrichHasDerived(t);
    var a := ColumnIndex(e, AverageColumn);
    NoDerivedColumn(t);
    AverageBelowHasMarkBelow(t, i, FailMark);
    if Below(e.rows[i][a], FailMark) {
      var j :| 0 <= j < |marks| && IntOf(t.rows[i][marks[j]]) < FailMark;
      MarkColumnIsSubject(t, i, j);
      assert t.rows[i][marks[j]].Int?;
      LaggingAt(e, i, j);
    }
  }

  /** A row with a subject mark below 35 is lagging. */
  lemma {:induction false} LaggingAt(t: Table, i: nat, j: nat)
    requires Rectangular(t) && i < |t.rows| && j < |SubjectColumns(t)|
    requires Below(t.rows[i][SubjectColumns(t)[j]], FailMark)
    ensures LaggingMask(t)[i]
  {
    assert LaggingMask(t)[i] == AnyBelow(t.rows[i], SubjectColumns(t), FailMark);
  }

  /** `==` between two cells as pandas evaluates it: numbers compare by value
      whatever their dtype, text by its characters, and a missing value equals
      nothing, not even itself. */
  function SameValue(a: Cell, b: Cell): (r: bool)
    ensures a.NaN? || b.NaN? ==> !r
    ensures a == b && !a.NaN? ==> r
  {
    match (a, b)
    case (Int(x), Int(y)) => x == y
    case (Int(x), Float(y)) => x as real == y
    case (Float(x), Int(y)) => x == y as real
    case (Float(x), Float(y)) => x == y
    case (Text(x), Text(y)) => x == y
    case _ => false
  }

  /** The values of the first column, the identifier column, row by row. */
  function StudentList(t: Table): (ids: seq<Cell>)
    requires Rectangular(t) && |t.header| > 0
    ensures |ids| == |t.rows|
  {
    seq(|t.rows|, i requires 0 <= i < |t.rows| => t.rows[i][0])
  }

  /** Row by row, whether the identifier equals the selected value. */
  function StudentMask(t: Table, selected: Cell): (m: seq<bool>)
    requires Rectangular(t) && |t.header| > 0
    ensures |m| == |t.rows|
  {
    seq(|t.rows|, i requires 0 <= i < |t.rows| => SameValue(t.rows[i][0], selected))
  }

  /** The rows of the selected student: the table selected by the student
      mask (characterized by `StudentViewExactly`). */
  function StudentView(t: Table, selected: Cell): (v: Table)
    requires Rectangular(t) && |t.header| > 0
    ensures v.header == t.header && |v.rows| <= |t.rows|
  {
    SelectRows(t, StudentMask(t, selected))
  }

  /** The selected-student view is exactly the subsequence of rows whose first
      column equals the selected value, in their original order. */
  lemma {:induction false} StudentViewExactly(t: Table, selected: Cell)
    requires Rectangular(t) && |t.header| > 0
    ensures var v, idx := StudentView(t, selected), TrueIndices(StudentMask(t, selected));
            v.header == t.header && |v.rows| == |idx| && Increasing(idx) &&
            (forall j :: 0 <= j < |idx| ==> idx[j] < |t.rows| && v.rows[j] == t.rows[idx[j]]) &&
            (forall i :: 0 <= i < |t.rows| ==> (i in idx <==> SameValue(t.rows[i][0], selected)))
  {
    MaskedExactly(t.rows, StudentMask(t, selected));
  }

  /** A student picked from the list of first-column values has at least one
      row in the view, unless the value picked is a missing value. */
  lemma {:induction false} StudentViewNonEmpty(t: Table, selected: Cell)
    requires Rectangular(t) && |t.header| > 0
    requires selected in StudentList(t) && !selected.NaN?
    ensures |StudentView(t, selected).rows| > 0
  {
    var i :| 0 <= i < |t.rows| && StudentList(t)[i] == selected;
    assert StudentMask(t, selected)[i];
    StudentViewExactly(t, selected);
  }

  /** The records of the box plot: the processed table melted with the first
      column as identifier and the subject columns other than it as values,
      or no records when the table already has a `Marks` column. */
  function BoxPlotRecords(t: Table): (r: Option<seq<Record>>)
    requires Rectangular(t) && |t.header| > 0
    requires HasColumn(t, TotalColumn) && HasColumn(t, AverageColumn)
    ensures r.None? <==> HasColumn(t, MarksColumn)
  {
    if HasColumn(t, MarksColumn) then None else Some(Melt(t, 0, BoxPlotColumns(t)))
  }

  /** Unless the table has a `Marks` column, the box plot has one record per
      value column and row, subject by subject and, within a subject, row by
      row; none of them comes from the identifier column, `Total` or
      `Average`. */
  lemma {:induction false} BoxPlotRecordsAt(t: Table, k: nat, i: nat)
    requires Rectangular(t) && |t.header| > 0
    requires HasColumn(t, TotalColumn) && HasColumn(t, AverageColumn)
    requires k < |BoxPlotColumns(t)| && i < |t.rows|
    ensures var r, cols := BoxPlotRecords(t), BoxPlotColumns(t);
            (r.None? <==> HasColumn(t, MarksColumn)) &&
            (r.Some? ==>
               |r.value| == |cols| * |t.rows| &&
               k * |t.rows| + i < |r.value| &&
               r.value[k * |t.rows| + i] == Record(t.rows[i][0], t.header[cols[k]].name, t.rows[i][cols[k]]) &&
               cols[k] != 0 && !Derived(r.value[k * |t.rows| + i].subject))
  {
    MeltAt(t, 0, BoxPlotColumns(t), k, i);
  }

  /** Processing does not change the box plot's value columns. */
  lemma {:induction false} SubjectMaskOfEnriched(t: Table, from: nat)
    requires Roster(t)
    ensures TrueIndices(SubjectMask(Enrich(t), from)) == TrueIndices(SubjectMask(t, from))
  {
    var e := Enrich(t);
    var n := |t.header|;
    assert n <= |e.header| by { EnrichNames(t); }
    var tail := SubjectMask(e, from)[n..];
    forall j | 0 <= j < |tail| ensures !tail[j] {
      EnrichHeaderAt(t, n + j);
    }
    forall k | 0 <= k < n ensures SubjectMask(e, from)[k] == SubjectMask(t, from)[k] {
      EnrichHeaderAt(t, k);
    }
    assert SubjectMask(e, from) == SubjectMask(t, from) + tail;
    TrueIndicesIgnoresFalseTail(SubjectMask(t, from), tail);
  }

  /** When the uploaded identifier column is not itself named `Total` or
      `Average`, the box plot of the processed table is the uploaded roster
      melted over the same value columns, and it is refused exactly when the
      upload has a `Marks` column: for the k-th value column and the i-th
      student it holds, at k * |rows| + i, the student's identifier, the
      column's name and the mark (see `Frame.MeltAt`). */
  lemma {:induction false} BoxPlotOfEnriched(t: Table)
    requires Roster(t) && |t.header| > 0 && !Derived(t.header[0].name)
    ensures var e := Enrich(t);
            HasColumn(e, TotalColumn) && HasColumn(e, AverageColumn) && |e.header| > 0 &&
            BoxPlotColumns(e) == BoxPlotColumns(t) &&
            BoxPlotRecords(e) ==
              if HasColumn(t, MarksColumn) then None else Some(Melt(t, 0, BoxPlotColumns(t)))
  {
    var e := Enrich(t);
    EnrichHasDerived(t);
    EnrichNames(t);
    SubjectMaskOfEnriched(t, 1);
    assert HasColumn(e, MarksColumn) <==> HasColumn(t, MarksColumn);
    MeltOfEnriched(t);
  }

  /** Melting the processed table over the uploaded value columns reads only
      uploaded cells that processing keeps. */
  lemma {:induction false} MeltOfEnriched(t: Table)
    requires Roster(t) && |t.header| > 0 && !Derived(t.header[0].name)
    ensures var e := Enrich(t);
            |e.header| >= |t.header| &&
            Melt(e, 0, BoxPlotColumns(t)) == Melt(t, 0, BoxPlotColumns(t))
  {
    var e, cols := Enrich(t), BoxPlotColumns(t);
    assert |e.header| >= |t.header| by { EnrichNames(t); }
    EnrichKeepsColumns(t);
    MeltFrame(e, t, 0, cols);
  }
}
