/** A pandas DataFrame reduced to what the modelled code uses: a number of
    rows and named columns of cells, with a default integer row index (so a
    row label is its position). */
module Frames {

  /** A cell: missing (`None`/`NaN`), a string, or a boolean. */
  datatype Cell = Null | Str(s: string) | Flag(b: bool)

  class Frame {
    var height: nat
    var columns: map<string, seq<Cell>>

    /** Every column has one cell per row. */
    ghost predicate Valid()
      reads this
    {
      forall c | c in columns :: |columns[c]| == height
    }

    constructor (height: nat, columns: map<string, seq<Cell>>)
      requires forall c | c in columns :: |columns[c]| == height
      ensures Valid() && this.height == height && this.columns == columns
    {
      this.height := height;
      this.columns := columns;
    }

    /** `df.copy()`: a new frame with the same rows and columns. */
    method Copy() returns (r: Frame)
      requires Valid()
      ensures fresh(r) && r.Valid()
      ensures r.height == height && r.columns == columns
    {
      r := new Frame(height, columns);
    }

    /** `df[name] = values`: adds the column, or replaces it if it exists. */
    method SetColumn(name: string, values: seq<Cell>)
      requires Valid() && |values| == height
      modifies this
      ensures Valid() && height == old(height)
      ensures columns == old(columns)[name := values]
    {
      columns := columns[name := values];
    }

    /** `df.at[row, name] = v` on an existing column. */
    method SetCell(row: nat, name: string, v: Cell)
      requires Valid() && name in columns && row < height
      modifies this
      ensures Valid() && height == old(height)
      ensures columns == old(columns)[name := old(columns)[name][row := v]]
    {
      columns := columns[name := columns[name][row := v]];
    }
  }
}
