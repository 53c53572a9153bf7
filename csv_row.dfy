/**
 * A row as the CSV parser delivers it with `header: true`: each column
 * header maps to the cell's text, and a column the row lacks is absent.
 */
module CsvRow {

  type Row = map<string, string>

  /** `row[column] === value`: false when the column is absent. */
  predicate FieldIs(row: Row, column: string, value: string)
  {
    column in row && row[column] == value
  }
}
