/**
 The cells of a results sheet as pandas reads them from the spreadsheet:
 a number, or NaN where the cell is empty.
 */
module Cells {
  import opened Wrappers

  /** A numeric cell of a results sheet; `None` stands for NaN. */
  type Value = Option<real>
}
