/**
 * The FastOD data frame: typed columns (column-major) converted once into a
 * row-major matrix of schema values, read afterwards by (tuple, attribute).
 * The typed column type, its row count and SchemaValue::FromTypedColumnData are
 * not part of this model; they are the type parameter `Column` and the two
 * functions handed to the constructor.
 */
module FastodData {

  class DataFrame<Column, Value> {
    const columnsData: seq<Column>
    /** TypedColumnData::GetNumRows. */
    const numRowsOf: Column -> nat
    /** SchemaValue::FromTypedColumnData: the value of a column at a row. */
    const fromTyped: (Column, nat) -> Value
    /** data_[tuple][attribute]. */
    var data: seq<seq<Value>>

    /** The matrix is the transpose of the typed columns: one row per row of column 0, one cell per column. */
    ghost predicate Valid()
      reads this
    {
      && |columnsData| > 0
      && |data| == numRowsOf(columnsData[0])
      && (forall i :: 0 <= i < |data| ==> |data[i]| == |columnsData|)
      && (forall i, col :: 0 <= i < |data| && 0 <= col < |data[i]| ==> data[i][col] == fromTyped(columnsData[col], i))
    }

    /** Builds data_ row by row, cell by cell; at least one column is demanded (asserted by the source). */
    constructor (columnsData: seq<Column>, numRowsOf: Column -> nat, fromTyped: (Column, nat) -> Value)
      requires |columnsData| > 0
      ensures Valid()
      ensures this.columnsData == columnsData && this.numRowsOf == numRowsOf && this.fromTyped == fromTyped
    {
      this.columnsData := columnsData;
      this.numRowsOf := numRowsOf;
      this.fromTyped := fromTyped;
      new;
      var numRows := numRowsOf(columnsData[0]);
      data := [];
      var i := 0;
      while i < numRows
        invariant 0 <= i <= numRows
        invariant |data| == i
        invariant forall t :: 0 <= t < i ==> |data[t]| == |columnsData|
        invariant forall t, col :: 0 <= t < i && 0 <= col < |data[t]| ==> data[t][col] == fromTyped(columnsData[col], t)
      {
        var row: seq<Value> := [];
        var col := 0;
        while col < |columnsData|
          invariant 0 <= col <= |columnsData|
          invariant |row| == col
          invariant forall c :: 0 <= c < col ==> row[c] == fromTyped(columnsData[c], i)
        {
          row := row + [fromTyped(columnsData[col], i)];
          col := col + 1;
        }
        data := data + [row];
        i := i + 1;
      }
    }

    /** GetColumnCount: the number of typed columns, which is also the width of every row of the matrix. */
    function GetColumnCount(): (count: nat)
      reads this
      ensures Valid() ==> count > 0 && forall t :: 0 <= t < |data| ==> |data[t]| == count
    {
      |columnsData|
    }

    /**
     * GetTupleCount: the row count of column 0, i.e. the height of the matrix.
     * Like the source's conditional, it answers 0 for a frame without columns,
     * although the constructor never builds one.
     */
    function GetTupleCount(): (count: nat)
      reads this
      ensures |columnsData| == 0 ==> count == 0
      ensures Valid() ==> count == |data|
    {
      if |columnsData| > 0 then numRowsOf(columnsData[0]) else 0
    }

    /**
     * GetValue: the cell at (tuple, attribute).  The source performs no bounds
     * check, so in-range indices are the caller's obligation.
     */
    function GetValue(tupleIndex: int, attributeIndex: int): (v: Value)
      reads this
      requires Valid()
      requires 0 <= tupleIndex < GetTupleCount() && 0 <= attributeIndex < GetColumnCount()
      ensures v == fromTyped(columnsData[attributeIndex], tupleIndex)
    {
      data[tupleIndex][attributeIndex]
    }
  }
}
