/** The worksheet of one day: the three operations the services use on it
    (`get_all_values`, `cell(r, c).value`, `update_cell(r, c, v)`) over an
    in-memory grid of texts. Rows and columns are 1-based, as in the sheet. */
module Worksheet {

  /** The values of the sheet, row by row; rows may be of different lengths. */
  type Grid = seq<seq<string>>

  /** Cell `k` (0-based) of a row, or "" past its end. */
  function At(row: seq<string>, k: int): string {
    if 0 <= k < |row| then row[k] else ""
  }

  /** The text in row `r`, column `c`; an empty cell and a cell outside the
      stored values both read as "". */
  function CellAt(g: Grid, r: int, c: int): string {
    if 1 <= r <= |g| then At(g[r - 1], c - 1) else ""
  }

  /** A row extended with empty cells to at least `n` cells. */
  function Padded(row: seq<string>, n: nat): (p: seq<string>)
    ensures |p| == if |row| >= n then |row| else n
    ensures forall k :: At(p, k) == At(row, k)
  {
    if |row| >= n then row else row + seq(n - |row|, _ => "")
  }

  /** The grid after writing `v` at (`r`, `c`), growing it if needed. */
  function SetCell(g: Grid, r: int, c: int, v: string): (g': Grid)
    requires r >= 1 && c >= 1
    ensures |g'| == if |g| >= r then |g| else r
    ensures forall r', c' :: CellAt(g', r', c') == if r' == r && c' == c then v else CellAt(g, r', c')
  {
    var g1 := if |g| >= r then g else g + seq(r - |g|, _ => []);
    assert forall r', c' :: CellAt(g1, r', c') == CellAt(g, r', c');
    var row := Padded(g1[r - 1], c);
    var g2 := g1[r - 1 := row[c - 1 := v]];
    assert forall r', c' :: CellAt(g2, r', c') == if r' == r && c' == c then v else CellAt(g1, r', c');
    g2
  }

  class Sheet {
    /** What `get_all_values()` returns. */
    var rows: Grid

    constructor (values: Grid)
      ensures rows == values
    {
      rows := values;
    }

    /** `cell(r, c).value`; a missing value reads as "". */
    function Cell(r: int, c: int): string
      reads this
    {
      CellAt(rows, r, c)
    }

    /** `update_cell(r, c, v)`: exactly one cell changes (see `SetCell`);
        gspread refuses a row or column below 1 before writing anything. */
    method UpdateCell(r: int, c: int, v: string)
      requires r >= 1 && c >= 1
      modifies this
      ensures rows == SetCell(old(rows), r, c, v)
    {
      rows := SetCell(rows, r, c, v);
    }
  }
}
