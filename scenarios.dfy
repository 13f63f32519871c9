/** Rosters made of an identifier column and two mark columns, run through the
    analyzer: the processed row, the two thresholds at their boundaries, and
    what happens to an uploaded roster whose second mark column is a numeric
    `Total`. */
module MarksScenarios {
  import opened Frame
  import opened MarksAnalyzer

  /** A roster whose columns are one text column followed by two numeric ones
      has the mark columns 1 and 2. */
  lemma {:induction false} NumericColumnsOfTextMarkMark(t: Table)
    requires NumericMask(t) == [false, true, true]
    ensures NumericColumns(t) == [1, 2]
  {
    var m := NumericMask(t);
    assert m[..2] == [false, true];
    assert m[..2][..1] == [false];
    assert m[..2][..1][..0] == [];
    assert TrueIndices(m[..2][..1]) == [];
    assert TrueIndices(m[..2]) == [1];
  }

  /** The sum of the marks in columns 1 and 2. */
  lemma {:induction false} MarkSumOfTwo(row: Row)
    requires |row| >= 3 && row[1].Int? && row[2].Int?
    ensures MarkSum(row, [1, 2]) == row[1].i + row[2].i
  {
    var cols: seq<nat> := [1, 2];
    assert cols[..1] == [1];
    assert cols[..1][..0] == [];
    assert MarkSum(row, [1]) == MarkSum(row, []) + row[1].i;
  }

  /** Whether one of the cells in columns 1 and 2 is below a bound. */
  lemma {:induction false} AnyBelowOfTwo(row: Row, bound: int)
    requires |row| >= 3
    ensures AnyBelow(row, [1, 2], bound) == (Below(row[1], bound) || Below(row[2], bound))
  {
    var cols: seq<nat> := [1, 2];
    assert cols[..1] == [1];
    assert cols[..1][..0] == [];
  }

  /** A roster of an identifier and two marks, with neither a `Total` nor an
      `Average` column. */
  predicate TwoMarkRoster(t: Table)
  {
    Roster(t) && NumericMask(t) == [false, true, true] &&
    !HasColumn(t, TotalColumn) && !HasColumn(t, AverageColumn)
  }

  /** The numeric columns of such a roster are not named `Total`. */
  lemma {:induction false} TwoMarkRosterHasNoTotal(t: Table)
    requires TwoMarkRoster(t)
    ensures forall k :: 0 <= k < |t.header| && t.header[k].numeric ==> t.header[k].name != TotalColumn
  {
    NoDerivedColumn(t);
  }

  /** Every row of such a roster is an identifier followed by two integer
      marks. */
  lemma {:induction false} TwoMarkCells(t: Table, i: nat)
    requires TwoMarkRoster(t) && i < |t.rows|
    ensures |t.rows[i]| == 3 && t.rows[i][1].Int? && t.rows[i][2].Int?
  {
    assert NumericMask(t)[1] && NumericMask(t)[2];
  }

  /** The processed row of a student with marks a and b: the row followed by
      the total a + b and the average (a + b) / 2. */
  lemma {:induction false} TwoMarkRow(t: Table, i: nat)
    requires TwoMarkRoster(t) && i < |t.rows|
    ensures |t.rows[i]| == 3 && t.rows[i][1].Int? && t.rows[i][2].Int?
    ensures var a, b := t.rows[i][1].i, t.rows[i][2].i;
            Enrich(t).rows[i] == t.rows[i] + [Int(a + b), Float((a + b) as real / 2.0)]
  {
    TwoMarkCells(t, i);
    NumericColumnsOfTextMarkMark(t);
    MarkSumOfTwo(t.rows[i]);
    EnrichAppendsTotalThenAverage(t, i);
  }

  /** A student with marks a and b is low-performing exactly when a + b < 80. */
  lemma {:induction false} TwoMarkLowAverage(t: Table, i: nat)
    requires TwoMarkRoster(t) && i < |t.rows|
    ensures var e, row := Enrich(t), t.rows[i];
            HasColumn(e, AverageColumn) && row[1].Int? && row[2].Int? &&
            (LowAverageMask(e)[i] <==> row[1].i + row[2].i < 80)
  {
    TwoMarkRow(t, i);
    NumericColumnsOfTextMarkMark(t);
    MarkSumOfTwo(t.rows[i]);
    TwoMarkRosterHasNoTotal(t);
    LowAverageOfEnriched(t, i);
  }

  /** A student with marks a and b is lagging exactly when a < 35 or b < 35. */
  lemma {:induction false} TwoMarkLagging(t: Table, i: nat)
    requires TwoMarkRoster(t) && i < |t.rows|
    ensures var e, row := Enrich(t), t.rows[i];
            HasColumn(e, TotalColumn) && HasColumn(e, AverageColumn) && row[1].Int? && row[2].Int? &&
            (LaggingMask(e)[i] <==> row[1].i < FailMark || row[2].i < FailMark)
  {
    var e, row := Enrich(t), t.rows[i];
    TwoMarkRow(t, i);
    NumericColumnsOfTextMarkMark(t);
    EnrichHasDerived(t);
    MarkColumnIsSubject(t, i, 0);
    MarkColumnIsSubject(t, i, 1);
    var subjects := SubjectColumns(e);
    assert subjects == [1, 2];
    AnyBelowOfTwo(e.rows[i], FailMark);
    assert LaggingMask(e)[i] == AnyBelow(e.rows[i], subjects, FailMark);
  }

  /** Marks 30 and 50 average exactly 40, which is not below 40: the student is
      lagging (30 < 35) without being low-performing. */
  lemma {:induction false} AverageOfFortyIsNotLow(t: Table, i: nat)
    requires TwoMarkRoster(t) && i < |t.rows|
    requires t.rows[i][1] == Int(30) && t.rows[i][2] == Int(50)
    ensures var e := Enrich(t);
            HasColumn(e, TotalColumn) && HasColumn(e, AverageColumn) &&
            e.rows[i] == t.rows[i] + [Int(80), Float(40.0)] &&
            !LowAverageMask(e)[i] && LaggingMask(e)[i]
  {
    TwoMarkRow(t, i);
    TwoMarkLowAverage(t, i);
    TwoMarkLagging(t, i);
  }

  /** Marks 35 and 35 are not below 35: the student is low-performing (average
      35) without being lagging. */
  lemma {:induction false} MarkOfThirtyFiveIsNotLagging(t: Table, i: nat)
    requires TwoMarkRoster(t) && i < |t.rows|
    requires t.rows[i][1] == Int(35) && t.rows[i][2] == Int(35)
    ensures var e := Enrich(t);
            HasColumn(e, TotalColumn) && HasColumn(e, AverageColumn) &&
            e.rows[i] == t.rows[i] + [Int(70), Float(35.0)] &&
            LowAverageMask(e)[i] && !LaggingMask(e)[i]
  {
    TwoMarkRow(t, i);
    TwoMarkLowAverage(t, i);
    TwoMarkLagging(t, i);
  }

  /** A roster of an identifier, one mark column and an uploaded numeric
      `Total` column, with no `Average` column. */
  predicate UploadedTotalRoster(t: Table)
  {
    Roster(t) && NumericMask(t) == [false, true, true] &&
    t.header[2].name == TotalColumn && !HasColumn(t, AverageColumn)
  }

  /** The uploaded `Total` is a mark column: it is replaced where it stands by
      the sum a + b of the row's mark and its old value, and `Average` is then
      taken over the mark and the new `Total`, (a + (a + b)) / 2, rather than
      over the mark and the old `Total`, (a + b) / 2. */
  lemma {:induction false} UploadedTotalFeedsAverage(t: Table, i: nat)
    requires UploadedTotalRoster(t) && i < |t.rows|
    ensures var row := t.rows[i];
            |row| == 3 && row[1].Int? && row[2].Int? &&
            Enrich(t).header == t.header[2 := Column(TotalColumn, true)] + [Column(AverageColumn, true)] &&
            Enrich(t).rows[i] ==
              [row[0], row[1], Int(row[1].i + row[2].i),
               Float((row[1].i + (row[1].i + row[2].i)) as real / 2.0)]
  {
    var w := WithTotal(t);
    UploadedTotalIsReplaced(t, i);
    NumericColumnsOfTextMarkMark(t);
    MarkSumOfTwo(w.rows[i]);
    AssignAppends(w, AverageColumn, Averages(w, [1, 2]), true);
  }

  /** Assigning `Total` to such a roster overwrites the uploaded `Total` where
      it stands with the sum of the mark and the old `Total`. */
  lemma {:induction false} UploadedTotalIsReplaced(t: Table, i: nat)
    requires UploadedTotalRoster(t) && i < |t.rows|
    ensures var row, w := t.rows[i], WithTotal(t);
            |row| == 3 && row[1].Int? && row[2].Int? &&
            w.header == t.header[2 := Column(TotalColumn, true)] &&
            w.rows[i] == [row[0], row[1], Int(row[1].i + row[2].i)] &&
            AverageColumn !in Names(w.header)
  {
    var row := t.rows[i];
    assert t.header[1].numeric && t.header[2].numeric by {
      assert NumericMask(t)[1] && NumericMask(t)[2];
    }
    NumericColumnsOfTextMarkMark(t);
    var names := Names(t.header);
    assert names[0] == t.header[0].name && names[1] == t.header[1].name && names[2] == TotalColumn;
    PositionOfDistinct(names, 2);
    var w := WithTotal(t);
    WithTotalFacts(t);
    assert HasColumn(t, TotalColumn);
    assert Names(w.header) == names;
    assert ColumnIndex(w, TotalColumn) == 2;
    MarkSumOfTwo(row);
  }

  /** A mark of 10 and an uploaded `Total` of 20 come out as a `Total` of 30
      and an `Average` of 20, not 15. */
  lemma {:induction false} UploadedTotalExample(t: Table, i: nat)
    requires UploadedTotalRoster(t) && i < |t.rows|
    requires t.rows[i][1] == Int(10) && t.rows[i][2] == Int(20)
    ensures Enrich(t).rows[i] == [t.rows[i][0], Int(10), Int(30), Float(20.0)]
  {
    UploadedTotalFeedsAverage(t, i);
  }
}
