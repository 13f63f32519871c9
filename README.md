# Student Marks Analyzer — a Dafny model of its marks transformation

The Student Marks Analyzer is a small Streamlit app. A teacher uploads a roster
of student marks, one row per student, with the student's name or identifier in
the first column and one column per subject. The app then:

- runs `process_csv_data`, which adds a `Total` column (the row sum over the
  numeric columns) and an `Average` column (the row mean over the same
  columns);
- shows the rows of one selected student;
- lists the students whose `Average` is below 40;
- lists the "lagging" students, who have some subject mark below 35;
- draws a box plot from the processed table melted into
  (student, subject, mark) records.

The model covers the data steps only, not the Streamlit UI or the plotting.

This project models that transformation in three modules:

- `Frame` (`frame.dfy`) models the part of a pandas DataFrame the app relies on.
  A table is an ordered header of named columns over a sequence of rows. Each
  column carries its dtype class: numeric or not. Three primitives are
  modelled:
  - column assignment `df[name] = values` (`Assign`): a column that already
    has the name is replaced where it stands, otherwise the new column is
    appended;
  - boolean-mask row selection `df[mask]` (`Masked`, `SelectRows`, with
    `TrueIndices` giving the selected positions);
  - the wide-to-long reshape `pd.melt` (`Melt`).
- `MarksAnalyzer` (`marks_analyzer.dfy`) holds:
  - `process_csv_data` (`Enrich`);
  - the four views the app derives from the processed table;
  - the lemmas relating the views to the uploaded roster.
- `MarksScenarios` (`scenarios.dfy`) instantiates the general lemmas on
  rosters of one identifier column and two mark columns. It covers the
  thresholds at their boundaries and a roster that already has a numeric
  `Total` column.

Behaviour the model follows from the code:

- **When the mark columns are fixed.** They are the numeric columns of the
  uploaded roster, found before anything is added. Both `Total` and `Average`
  are computed over those positions. `Average` is computed on the table that
  already holds `Total`. So if the upload already has a numeric `Total`
  column, that column is a mark column. It is overwritten in place by the sum
  before the mean reads it (`UploadedTotalFeedsAverage`).
- **A roster with no numeric column.** Such a roster gets `Total` = 0 and a
  missing `Average`, because the pandas mean of no columns is NaN. There is no
  error. With a missing `Average`, the row is never in the low-average view,
  since NaN compares false. The model covers that row rather than requiring at
  least one mark column.
- **The subject columns of the lagging test.** They are the
  numeric columns of the processed table with `Total` and `Average` dropped.
  When the upload has neither name, they are exactly the original mark columns
  (`SubjectColumnsOfEnriched`).
- **The value columns of the box plot.** They are the subject columns other
  than the first column. The reshape takes its identifier column out of the
  values, so a numeric identifier is not melted as a subject
  (`BoxPlotColumns`). The reshape is refused when the table already has a
  column named `Marks`, the name it gives its value column; the model returns
  no records then (`BoxPlotRecords`).
- **How rows are matched to the selected student.** The first-column value is
  compared with pandas `==`: numbers by value across int and float, text by
  its characters. A missing value equals nothing (`SameValue`).

## Model

| member | source | states |
|---|---|---|
| Frame.Assign | app-checkpoint.py:15-16 | `df[name] = values` keeps the table rectangular and keeps its row count |
| Frame.AssignNames | app-checkpoint.py:15-16 | an existing name keeps its place in the column names; a new name is added at the end |
| Frame.AssignColumn | app-checkpoint.py:15-16 | the column found under the name afterwards has that name and dtype class and holds, row by row, the assigned values |
| Frame.AssignKeeps | app-checkpoint.py:15-16 | every column with another name keeps its header, position and cells |
| Frame.AssignAppends | app-checkpoint.py:15-16 | a new name appends exactly one column to the header and one value to the end of each row |
| Frame.AssignWellFormed | app-checkpoint.py:15-16 | assigning numeric values as a numeric column keeps column names distinct and numeric columns numeric |
| Frame.TrueIndices | app-checkpoint.py:12 | the selected positions are strictly ascending, each has a true mask entry, and every true entry is selected |
| Frame.Masked | app-checkpoint.py:50 | a masked selection is no longer than its input and takes only input elements |
| Frame.MaskedExactly | app-checkpoint.py:50 | `s[mask]` is the subsequence at the mask's true positions, in ascending order; a position is taken exactly when its mask entry is true |
| Frame.SelectRows | app-checkpoint.py:56 | row selection keeps the header and keeps a table well formed |
| Frame.Melt | app-checkpoint.py:96-97 | the melted table has one record per value column and row |
| Frame.MeltAt | app-checkpoint.py:96-97 | the record for value column k and row i sits at k * rows + i and holds the row's id, the column's name and the cell (subject-major order) |
| Frame.MeltFrame | app-checkpoint.py:96-97 | melting depends only on the id column, the value columns' names and their cells |
| MarksAnalyzer.NumericColumns | app-checkpoint.py:12 | the mark columns are exactly the numeric columns, in table order |
| MarksAnalyzer.SubjectColumns | app-checkpoint.py:61 | the subject columns are exactly the numeric columns other than `Total` and `Average`, in table order |
| MarksAnalyzer.BoxPlotColumns | app-checkpoint.py:95-96 | the box plot's value columns are exactly the numeric columns other than `Total`, `Average` and the identifier column 0, in table order |
| MarksAnalyzer.MarkSum | app-checkpoint.py:15 | a row sum over the given columns, 0 over no columns; `MarkSumFrame` and `MarkSumBounds` state what it depends on and its range |
| MarksAnalyzer.MarkSumBounds | app-checkpoint.py:15-16 | when every summed mark lies in [lo, hi], the sum lies in [lo × count, hi × count] |
| MarksAnalyzer.Mean | app-checkpoint.py:16 | the row mean is missing exactly when there is no column, and otherwise a number that times the column count gives the row sum |
| MarksAnalyzer.Totals | app-checkpoint.py:15 | one integer sum per row |
| MarksAnalyzer.Averages | app-checkpoint.py:16 | one number or missing value per row |
| MarksAnalyzer.WithTotal | app-checkpoint.py:15 | assigning `Total` keeps the roster well formed, keeps every row and drops no column |
| MarksAnalyzer.Enrich | app-checkpoint.py:8-18 | the processed table is well formed and has as many rows as the roster |
| MarksAnalyzer.MarkSumFrame | app-checkpoint.py:15 | a row sum depends only on the cells in the summed columns |
| MarksAnalyzer.WithTotalFacts | app-checkpoint.py:12-15 | after `Total` is assigned, the `Total` column holds each row's sum over the mark columns and every other column is as uploaded |
| MarksAnalyzer.EnrichNames | app-checkpoint.py:15-16 | the processed columns are the uploaded ones followed by `Total` and then `Average`, each added only when the upload lacked it |
| MarksAnalyzer.EnrichKeepsColumns | app-checkpoint.py:8-18 | every uploaded column other than `Total` and `Average` keeps its header, position and every cell |
| MarksAnalyzer.EnrichHasDerived | app-checkpoint.py:15-16 | after processing, `Total` and `Average` both exist as numeric columns, and `Total` stays where it was assigned |
| MarksAnalyzer.TotalIsMarkSum | app-checkpoint.py:12-15 | for every row, `Total` is the sum over the mark columns fixed before either derived column existed |
| MarksAnalyzer.AverageIsTotalOverCount | app-checkpoint.py:16 | for every row, `Average` is `Total` divided by the number of mark columns, and missing when there are none (assuming no uploaded numeric `Total`) |
| MarksAnalyzer.EnrichAppendsTotalThenAverage | app-checkpoint.py:12-18 | without a name collision, processing appends exactly `Total` then `Average` to the header, and to every row its mark sum and mark mean |
| MarksAnalyzer.Below | app-checkpoint.py:56 | pandas `<` on a cell: an integer or float is below exactly when its value is below the bound (so 35 is not below 35); a missing value or text is never below |
| MarksAnalyzer.LowAverageMask | app-checkpoint.py:56 | one entry per row; its meaning is stated by `LowAverageViewExactly` |
| MarksAnalyzer.LowAverageView | app-checkpoint.py:56 | the low-average view keeps the header and no more rows than the table; `LowAverageViewExactly` states which rows |
| MarksAnalyzer.LowAverageViewExactly | app-checkpoint.py:56 | the low-average view is exactly the rows whose `Average` is below 40, in order; 40 itself and a missing average are excluded |
| MarksAnalyzer.AnyBelow | app-checkpoint.py:62 | a row is flagged exactly when some cell in the given columns is below the bound |
| MarksAnalyzer.LaggingMask | app-checkpoint.py:61-62 | one entry per row; its meaning is stated by `LaggingViewExactly` |
| MarksAnalyzer.LaggingView | app-checkpoint.py:63 | the lagging view keeps the header and no more rows than the table; `LaggingViewExactly` states which rows |
| MarksAnalyzer.LaggingViewExactly | app-checkpoint.py:61-63 | the lagging view is exactly the rows with some subject mark below 35, in order; a lowest mark of 35 is not lagging |
| MarksAnalyzer.EnrichHeaderAt | app-checkpoint.py:15-16 | an uploaded column keeps its name, and its whole header when it is not derived; every column past the uploaded ones is `Total` or `Average` |
| MarksAnalyzer.SubjectColumnsOfEnriched | app-checkpoint.py:61 | the processed table's subject columns are the uploaded ones' and, without a collision, exactly the original mark columns |
| MarksAnalyzer.LowAverageOfEnriched | app-checkpoint.py:56 | a processed row is low-average exactly when there is a mark column and its sum is below 40 per mark column |
| MarksAnalyzer.SomeMarkBelow | app-checkpoint.py:16 | a sum below bound × count has a summand below the bound |
| MarksAnalyzer.AverageBelowHasMarkBelow | app-checkpoint.py:16 | on an upload without a numeric `Total` column, a student whose `Average` is below a bound has a mark below it |
| MarksAnalyzer.EnrichKeepsCell | app-checkpoint.py:8-18 | one non-derived uploaded cell is unchanged by processing |
| MarksAnalyzer.MarkColumnIsSubject | app-checkpoint.py:61 | without a collision, the j-th subject column of the processed table is the j-th mark column, with the uploaded header and cells |
| MarksAnalyzer.AverageBelowFailMarkIsLagging | app-checkpoint.py:56-63 | on an upload with neither a `Total` nor an `Average` column, every student whose `Average` is below 35 is in the lagging view's mask |
| MarksAnalyzer.SameValue | app-checkpoint.py:50 | pandas `==` on two cells: a missing value equals nothing, and every other value equals itself |
| MarksAnalyzer.StudentList | app-checkpoint.py:46-47 | the student list has one entry per row |
| MarksAnalyzer.StudentMask | app-checkpoint.py:50 | one entry per row; its meaning is stated by `StudentViewExactly` |
| MarksAnalyzer.StudentView | app-checkpoint.py:50 | the student view keeps the header and no more rows than the table; `StudentViewExactly` states which rows |
| MarksAnalyzer.StudentViewExactly | app-checkpoint.py:50 | the selected-student view is exactly the rows whose first column equals the selected value, in order |
| MarksAnalyzer.StudentViewNonEmpty | app-checkpoint.py:46-50 | a non-missing value picked from the student list has at least one row in the view |
| MarksAnalyzer.BoxPlotRecords | app-checkpoint.py:95-97 | the reshape is refused exactly when the table already has a `Marks` column; `BoxPlotRecordsAt` states the records otherwise |
| MarksAnalyzer.BoxPlotRecordsAt | app-checkpoint.py:95-97 | unless refused, the box-plot records number value columns × rows, are subject-major, and none comes from the identifier column, `Total` or `Average` |
| MarksAnalyzer.SubjectMaskOfEnriched | app-checkpoint.py:61-95 | processing adds no subject column, so the subject and box-plot value columns of the processed table are the upload's |
| MarksAnalyzer.MeltOfEnriched | app-checkpoint.py:95-97 | melting the processed table over the uploaded value columns gives the same records as melting the upload |
| MarksAnalyzer.BoxPlotOfEnriched | app-checkpoint.py:95-97 | unless the identifier column is itself named `Total` or `Average`, the box plot of the processed table is the upload melted over its value columns, refused exactly when the upload has a `Marks` column |
| MarksScenarios.TwoMarkRow | app-checkpoint.py:8-18 | a student with marks a and b gets the row followed by `Total` a + b and `Average` (a + b) / 2 |
| MarksScenarios.TwoMarkLowAverage | app-checkpoint.py:56 | such a student is low-average exactly when a + b < 80 |
| MarksScenarios.TwoMarkLagging | app-checkpoint.py:61-63 | such a student is lagging exactly when a < 35 or b < 35 |
| MarksScenarios.AverageOfFortyIsNotLow | app-checkpoint.py:56-63 | marks 30 and 50 average exactly 40: lagging but not low-average |
| MarksScenarios.MarkOfThirtyFiveIsNotLagging | app-checkpoint.py:56-63 | marks 35 and 35: low-average but not lagging |
| MarksScenarios.UploadedTotalFeedsAverage | app-checkpoint.py:12-16 | an uploaded numeric `Total` is overwritten in place by the sum, and `Average` is taken over the mark and the new `Total` |
| MarksScenarios.UploadedTotalIsReplaced | app-checkpoint.py:12-15 | the uploaded `Total` is overwritten where it stands by the sum of the mark and the old `Total` |
| MarksScenarios.UploadedTotalExample | app-checkpoint.py:12-16 | a mark of 10 with an uploaded `Total` of 20 gives `Total` 30 and `Average` 20, not 15 |

## Left out

- The Streamlit UI is not modelled: page setup, uploader, select box and the display calls (app-checkpoint.py:22-35, :41-52 and the other `st.` calls). It is presentation and interactive state. The selected student is a parameter.
- File reading is not modelled: `pd.read_csv`, `pd.read_excel`, `to_csv` and `StringIO` (app-checkpoint.py:9, :29-32, :38). The model starts from a parsed roster with distinct column names, its rows as long as its header (`WellFormed`).
- pandas dtype inference is not modelled. Each column's numeric class is an input flag. A numeric first column therefore counts as a mark in `Total`, `Average` and the lagging test, as it does in the app; the box plot leaves it out, as the reshape does.
- Missing input cells and `skipna` are not modelled. Marks in numeric columns are integers (`IntegerMarks`), and `Average` is an exact `real` quotient with no floating-point rounding.
- The plots are not modelled (app-checkpoint.py:67-101), apart from the melt that feeds the box plot.
- The `KeyError` that dropping `Total` and `Average` raises when one of them is missing is not modelled. `LaggingView` and `BoxPlotRecords` require both columns, which is the code's own condition and always holds on a processed table (`EnrichHasDerived`).
- MarksAnalyzer.AverageIsTotalOverCount excludes an uploaded numeric `Total` column. That case is only illustrated, for a roster of one text column, one mark column and a numeric `Total`, by MarksScenarios.UploadedTotalFeedsAverage.
- MarksAnalyzer.LowAverageOfEnriched excludes an uploaded numeric `Total` column, for the same reason.
- MarksAnalyzer.AverageBelowHasMarkBelow excludes an uploaded numeric `Total` column: that column is a mark column whose new value, the sum, enters the mean.
- MarksAnalyzer.AverageBelowFailMarkIsLagging excludes uploads with a `Total` or `Average` column. An uploaded numeric `Average` is a mark column but not a subject column, so, for example, marks 60 and an old `Average` of 0 give a new `Average` of 30 with no subject mark below 35.
- MarksAnalyzer.BoxPlotOfEnriched assumes the identifier column is not itself named `Total` or `Average`; such a column is overwritten, so the records' identifiers would change.
- The melt's output column names (`Subject`, `Marks`) are fields of `Record`, not strings.
- MarksAnalyzer.BoxPlotRecords models the `ValueError` that pandas 2 raises for an existing `Marks` column as no records. pandas 1.x only warns and melts; that behaviour is not modelled.
- MarksAnalyzer.Totals uses unbounded integers. pandas sums int64 columns with 64-bit wrap-around; the model does not wrap, which matters only for sums beyond 2^63 - 1.
