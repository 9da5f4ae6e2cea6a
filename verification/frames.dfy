/**
 * The pandas DataFrame `df` the script builds from the CSV file and then
 * changes in place by assigning whole columns (app.py:91, 96-102).
 */
module Frames {
  import opened Cells

  /** One row of the table: column name to cell. */
  type Row = map<string, Cell>

  /** `rows` with column `name` set to `values`, row by row. */
  function SetCells(rows: seq<Row>, name: string, values: seq<Cell>): (r: seq<Row>)
    requires |values| == |rows|
    ensures |r| == |rows|
    ensures forall i | 0 <= i < |rows| :: r[i] == rows[i][name := values[i]]
  {
    seq(|rows|, i requires 0 <= i < |rows| => rows[i][name := values[i]])
  }

  class DataFrame {
    var columns: set<string>
    var rows: seq<Row>

    /** Every row has exactly the table's columns. */
    ghost predicate Valid()
      reads this
    {
      forall i | 0 <= i < |rows| :: rows[i].Keys == columns
    }

    /** The table as the CSV reader hands it over. */
    constructor (columns: set<string>, rows: seq<Row>)
      requires forall i | 0 <= i < |rows| :: rows[i].Keys == columns
      ensures Valid() && this.columns == columns && this.rows == rows
    {
      this.columns := columns;
      this.rows := rows;
    }

    /** `df[name]`: one column's cells, in row order. */
    function Column(name: string): (c: seq<Cell>)
      reads this
      requires Valid() && name in columns
      ensures |c| == |rows|
      ensures forall i | 0 <= i < |rows| :: c[i] == rows[i][name]
    {
      var loaded := rows;
      seq(|loaded|, i requires 0 <= i < |loaded| && name in loaded[i] => loaded[i][name])
    }

    /** `df[name] = values`: adds the column, or overwrites it when it exists. */
    method SetColumn(name: string, values: seq<Cell>)
      requires Valid() && |values| == |rows|
      modifies this
      ensures Valid()
      ensures columns == old(columns) + {name}
      ensures rows == SetCells(old(rows), name, values)
    {
      columns := columns + {name};
      rows := SetCells(rows, name, values);
    }
  }
}
