/** A model of the part of a pandas DataFrame that the marks analyzer relies on:
    a header of named columns, each with the dtype class that type inference gave
    it, over an ordered sequence of rows; and the three DataFrame primitives the
    analyzer applies: column assignment (`df[name] = values`), boolean-mask row
    selection (`df[mask]`) and the wide-to-long reshape (`pd.melt`). */
module Frame {

  /** One cell after type inference: an integer, a float, pandas' missing
      value, or text. */
  datatype Cell = Int(i: int) | Float(r: real) | NaN | Text(s: string)

  /** A column header: its name and whether its dtype is numeric
      (what `select_dtypes(include='number')` selects). */
  datatype Column = Column(name: string, numeric: bool)

  type Row = seq<Cell>

  /** The outcome of an operation that pandas may refuse with an error. */
  datatype Option<T> = None | Some(value: T)

  datatype Table = Table(header: seq<Column>, rows: seq<Row>)

  /** One record of a melted table: the identifier, the name of the column the
      value came from, and the value. */
  datatype Record = Record(id: Cell, subject: string, mark: Cell)

  function Names(header: seq<Column>): seq<string>
  {
    seq(|header|, k requires 0 <= k < |header| => header[k].name)
  }

  /** Positions a and b of a list of column names hold the same name. */
  predicate SameName(names: seq<string>, a: nat, b: nat)
    requires a < |names| && b < |names|
  {
    names[a] == names[b]
  }

  /** No two columns share a name (the file reader renames duplicates). */
  predicate DistinctNames(names: seq<string>)
  {
    forall a, b :: 0 <= a < b < |names| ==> !SameName(names, a, b)
  }

  predicate Rectangular(t: Table)
  {
    forall i :: 0 <= i < |t.rows| ==> |t.rows[i]| == |t.header|
  }

  predicate NumericCell(c: Cell)
  {
    !c.Text?
  }

  /** Every cell of a numeric column holds a number or a missing value. */
  predicate TypedColumns(t: Table)
  {
    forall i, k ::
      0 <= i < |t.rows| && 0 <= k < |t.header| && k < |t.rows[i]| && t.header[k].numeric ==>
        NumericCell(t.rows[i][k])
  }

  predicate WellFormed(t: Table)
  {
    DistinctNames(Names(t.header)) && Rectangular(t) && TypedColumns(t)
  }

  predicate HasColumn(t: Table, name: string)
  {
    name in Names(t.header)
  }

  /** The position of the first occurrence of name, or |names| when it is absent. */
  function Position(names: seq<string>, name: string): (k: nat)
    ensures k <= |names|
    ensures k < |names| <==> name in names
    ensures k < |names| ==> names[k] == name
    ensures forall j :: 0 <= j < k ==> names[j] != name
  {
    if names == [] || names[0] == name then 0 else 1 + Position(names[1..], name)
  }

  /** The position of a column, looked up by name. */
  function ColumnIndex(t: Table, name: string): nat
  {
    Position(Names(t.header), name)
  }

  lemma {:induction false} PositionOfDistinct(names: seq<string>, k: nat)
    requires DistinctNames(names) && k < |names|
    ensures Position(names, names[k]) == k
  {
    var p := Position(names, names[k]);
    if p < k {
      assert SameName(names, p, k);
    }
  }

  lemma {:induction false} PositionAfterAppend(names: seq<string>, extra: string, name: string)
    requires name in names
    ensures Position(names + [extra], name) == Position(names, name)
  {
    var p := Position(names, name);
    assert (names + [extra])[p] == name;
  }

  /** `df[name] = values`: a column that already has that name is replaced where
      it stands; otherwise the column is appended after all the others. */
  function Assign(t: Table, name: string, values: seq<Cell>, numeric: bool): (r: Table)
    requires Rectangular(t) && |values| == |t.rows|
    ensures Rectangular(r) && |r.rows| == |t.rows|
  {
    var k := ColumnIndex(t, name);
    if k < |t.header| then
      Table(t.header[k := Column(name, numeric)],
            seq(|t.rows|, i requires 0 <= i < |t.rows| => t.rows[i][k := values[i]]))
    else
      Table(t.header + [Column(name, numeric)],
            seq(|t.rows|, i requires 0 <= i < |t.rows| => t.rows[i] + [values[i]]))
  }

  /** Assignment keeps the list of column names when the name is already
      there, and adds the name at the end otherwise. */
  lemma {:induction false} AssignNames(t: Table, name: string, values: seq<Cell>, numeric: bool)
    requires Rectangular(t) && |values| == |t.rows|
    ensures Names(Assign(t, name, values, numeric).header) ==
            if name in Names(t.header) then Names(t.header) else Names(t.header) + [name]
  {
    var r := Assign(t, name, values, numeric);
    if name !in Names(t.header) {
      assert Names(r.header) == Names(t.header) + [name];
    }
  }

  /** After assignment the column found under the name is the assigned one:
      its header is the name with the given dtype class, and row by row it
      holds the assigned values. */
  lemma {:induction false} AssignColumn(t: Table, name: string, values: seq<Cell>, numeric: bool)
    requires Rectangular(t) && |values| == |t.rows|
    ensures var r := Assign(t, name, values, numeric);
            var k := ColumnIndex(r, name);
            k < |r.header| && r.header[k] == Column(name, numeric) &&
            forall i :: 0 <= i < |r.rows| ==> r.rows[i][k] == values[i]
  {
    var r := Assign(t, name, values, numeric);
    AssignNames(t, name, values, numeric);
    if name !in Names(t.header) {
      PositionAfterAppend(Names(t.header) + [name], name, name);
      assert Position(Names(r.header), name) == |t.header|;
    }
  }

  /** Assignment leaves every column of another name as it was: its header,
      its position and its cells. */
  lemma {:induction false} AssignKeeps(t: Table, name: string, values: seq<Cell>, numeric: bool)
    requires Rectangular(t) && |values| == |t.rows|
    ensures var r := Assign(t, name, values, numeric);
            forall k :: 0 <= k < |t.header| && t.header[k].name != name ==> r.header[k] == t.header[k]
    ensures var r := Assign(t, name, values, numeric);
            forall i, k :: 0 <= i < |t.rows| && 0 <= k < |t.header| && t.header[k].name != name ==>
              r.rows[i][k] == t.rows[i][k]
  {
  }

  /** Assigning a new name appends one column: the header gains the new
      column and every row gains its value, at the end. */
  lemma {:induction false} AssignAppends(t: Table, name: string, values: seq<Cell>, numeric: bool)
    requires Rectangular(t) && |values| == |t.rows| && name !in Names(t.header)
    ensures var r := Assign(t, name, values, numeric);
            r.header == t.header + [Column(name, numeric)] &&
            forall i :: 0 <= i < |t.rows| ==> r.rows[i] == t.rows[i] + [values[i]]
  {
  }

  /** Assigning numeric cells to a numeric column keeps a table well formed. */
  lemma {:induction false} AssignWellFormed(t: Table, name: string, values: seq<Cell>)
    requires WellFormed(t) && |values| == |t.rows|
    requires forall i :: 0 <= i < |values| ==> NumericCell(values[i])
    ensures WellFormed(Assign(t, name, values, true))
  {
    var r := Assign(t, name, values, true);
    var names := Names(t.header);
    AssignNames(t, name, values, true);
    AssignColumn(t, name, values, true);
    AssignKeeps(t, name, values, true);
    if name !in names {
      forall a, b | 0 <= a < b < |Names(r.header)|
        ensures !SameName(Names(r.header), a, b)
      {
        if b == |names| {
          assert Names(r.header)[b] == name;
          assert Names(r.header)[a] == names[a];
        } else {
          assert !SameName(names, a, b);
        }
      }
    }
    var k := ColumnIndex(r, name);
    forall i, j | 0 <= i < |r.rows| && 0 <= j < |r.header| && j < |r.rows[i]| && r.header[j].numeric
      ensures NumericCell(r.rows[i][j])
    {
      if j != k {
        assert t.header[j].name != name by { assert Names(r.header)[j] == names[j]; PositionOfDistinct(Names(r.header), j); }
      }
    }
  }

  /** `s[mask]`: the elements whose mask entry is true, in their original order. */
  function Masked<T>(s: seq<T>, mask: seq<bool>): (r: seq<T>)
    requires |mask| == |s|
    ensures |r| <= |s|
    ensures forall x :: x in r ==> x in s
  {
    if s == [] then []
    else
      var n := |s| - 1;
      Masked(s[..n], mask[..n]) + (if mask[n] then [s[n]] else [])
  }

  /** Position a of an index list holds a smaller index than position b. */
  predicate Precedes(idx: seq<nat>, a: nat, b: nat)
    requires a < |idx| && b < |idx|
  {
    idx[a] < idx[b]
  }

  /** The indices are in strictly ascending order. */
  predicate Increasing(idx: seq<nat>)
  {
    forall a, b :: 0 <= a < b < |idx| ==> Precedes(idx, a, b)
  }

  lemma {:induction false} IncreasingAppend(idx: seq<nat>, n: nat)
    requires Increasing(idx) && forall j :: 0 <= j < |idx| ==> idx[j] < n
    ensures Increasing(idx + [n])
  {
    var r := idx + [n];
    forall a, b | 0 <= a < b < |r| ensures Precedes(r, a, b) {
      if b < |idx| {
        assert Precedes(idx, a, b);
      }
    }
  }

  /** The positions at which a mask is true, in ascending order. */
  function TrueIndices(mask: seq<bool>): (idx: seq<nat>)
    ensures Increasing(idx)
    ensures forall j :: 0 <= j < |idx| ==> idx[j] < |mask| && mask[idx[j]]
    ensures forall i :: 0 <= i < |mask| && mask[i] ==> i in idx
  {
    if mask == [] then []
    else
      var n := |mask| - 1;
      var prev := TrueIndices(mask[..n]);
      if mask[n] then IncreasingAppend(prev, n); prev + [n] else prev
  }

  lemma {:induction false} TrueIndicesIgnoresFalseTail(mask: seq<bool>, tail: seq<bool>)
    requires forall j :: 0 <= j < |tail| ==> !tail[j]
    ensures TrueIndices(mask + tail) == TrueIndices(mask)
    decreases |tail|
  {
    if tail != [] {
      var n := |tail| - 1;
      assert (mask + tail)[..|mask| + n] == mask + tail[..n];
      TrueIndicesIgnoresFalseTail(mask, tail[..n]);
    } else {
      assert mask + tail == mask;
    }
  }

  /** The masked selection picks exactly the elements at the mask's true positions. */
  lemma {:induction false} MaskedPicks<T>(s: seq<T>, mask: seq<bool>)
    requires |mask| == |s|
    ensures |Masked(s, mask)| == |TrueIndices(mask)|
    ensures forall j :: 0 <= j < |Masked(s, mask)| ==> Masked(s, mask)[j] == s[TrueIndices(mask)[j]]
  {
    if s != [] {
      var n := |s| - 1;
      MaskedPicks(s[..n], mask[..n]);
    }
  }

  /** `s[mask]` is exactly the subsequence of the elements whose mask entry is
      true: each element of the result comes from a strictly later position than
      the one before it, and a position contributes if and only if its mask
      entry is true. */
  lemma {:induction false} MaskedExactly<T>(s: seq<T>, mask: seq<bool>)
    requires |mask| == |s|
    ensures var r, idx := Masked(s, mask), TrueIndices(mask);
            |r| == |idx| && Increasing(idx) &&
            (forall j :: 0 <= j < |r| ==> idx[j] < |s| && r[j] == s[idx[j]]) &&
            (forall i :: 0 <= i < |s| ==> (i in idx <==> mask[i]))
  {
    MaskedPicks(s, mask);
  }

  /** Selecting the rows of a table with a mask keeps its header. */
  function SelectRows(t: Table, mask: seq<bool>): (r: Table)
    requires |mask| == |t.rows|
    ensures r.header == t.header
    ensures WellFormed(t) ==> WellFormed(r)
  {
    MaskedPicks(t.rows, mask);
    Table(t.header, Masked(t.rows, mask))
  }

  /** The records that one value column contributes to a melt, row by row. */
  function MeltColumn(t: Table, idCol: nat, col: nat): seq<Record>
    requires Rectangular(t) && idCol < |t.header| && col < |t.header|
  {
    seq(|t.rows|, i requires 0 <= i < |t.rows| =>
      Record(t.rows[i][idCol], t.header[col].name, t.rows[i][col]))
  }

  /** `pd.melt(t, id_vars=[id column], value_vars=the value columns)`: one record
      per value column and row, value column by value column. */
  function Melt(t: Table, idCol: nat, valueCols: seq<nat>): (r: seq<Record>)
    requires Rectangular(t) && idCol < |t.header|
    requires forall j :: 0 <= j < |valueCols| ==> valueCols[j] < |t.header|
    ensures |r| == |valueCols| * |t.rows|
  {
    if valueCols == [] then []
    else
      var m := |valueCols| - 1;
      Melt(t, idCol, valueCols[..m]) + MeltColumn(t, idCol, valueCols[m])
  }

  /** The record for value column k and row i sits at k * |rows| + i. */
  lemma {:induction false} MeltAt(t: Table, idCol: nat, valueCols: seq<nat>, k: nat, i: nat)
    requires Rectangular(t) && idCol < |t.header|
    requires forall j :: 0 <= j < |valueCols| ==> valueCols[j] < |t.header|
    requires k < |valueCols| && i < |t.rows|
    ensures k * |t.rows| + i < |Melt(t, idCol, valueCols)|
    ensures Melt(t, idCol, valueCols)[k * |t.rows| + i] ==
            Record(t.rows[i][idCol], t.header[valueCols[k]].name, t.rows[i][valueCols[k]])
  {
    var m, n := |valueCols| - 1, |t.rows|;
    var front := Melt(t, idCol, valueCols[..m]);
    assert |front| == m * n;
    if k < m {
      MeltAt(t, idCol, valueCols[..m], k, i);
      assert k * n + i < m * n by {
        assert (k + 1) * n <= m * n by { MulMonotone(k + 1, m, n); }
      }
    } else {
      assert k * n == m * n;
    }
  }

  /** Melting depends only on the identifier column and the value columns. */
  lemma {:induction false} MeltFrame(t: Table, u: Table, idCol: nat, valueCols: seq<nat>)
    requires Rectangular(t) && Rectangular(u) && |t.rows| == |u.rows|
    requires idCol < |t.header| && idCol < |u.header|
    requires forall j :: 0 <= j < |valueCols| ==> valueCols[j] < |t.header| && valueCols[j] < |u.header|
    requires forall i :: 0 <= i < |t.rows| ==> t.rows[i][idCol] == u.rows[i][idCol]
    requires forall j :: 0 <= j < |valueCols| ==> t.header[valueCols[j]].name == u.header[valueCols[j]].name
    requires forall i, j :: 0 <= i < |t.rows| && 0 <= j < |valueCols| ==>
               t.rows[i][valueCols[j]] == u.rows[i][valueCols[j]]
    ensures Melt(t, idCol, valueCols) == Melt(u, idCol, valueCols)
  {
    if valueCols != [] {
      var m := |valueCols| - 1;
      MeltFrame(t, u, idCol, valueCols[..m]);
      assert MeltColumn(t, idCol, valueCols[m]) == MeltColumn(u, idCol, valueCols[m]);
    }
  }

  lemma {:induction false} MulMonotone(a: nat, b: nat, n: nat)
    requires a <= b
    ensures a * n <= b * n
  {
  }
}
