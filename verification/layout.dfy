/**
 * The grid arithmetic of Display.showProjects: how many cells fit across the
 * terminal, how many rows the board needs, and where the i-th cell goes when
 * cells are filled column by column.
 */
module Layout {
  import opened Wrappers

  /** Display.LABEL_PADDING: blank columns added to the widest label. */
  const LabelPadding: nat := 3

  function Max(a: int, b: int): int {
    if a < b then b else a
  }

  /**
   * Display.ceilDiv: q = n / d, then q or q + 1. Java's `/` truncates, which
   * for n >= 0 and d > 0 is Dafny's `/`; None stands for the
   * ArithmeticException thrown when d is 0. The result is the least q with
   * q * d >= n.
   */
  function CeilDiv(n: nat, d: nat): (r: Option<nat>)
    ensures r.None? <==> d == 0
    ensures r.Some? ==> n <= r.value * d
    ensures r.Some? && r.value > 0 ==> (r.value - 1) * d < n
  {
    if d == 0 then None
    else
      var q := n / d;
      assert q * d <= n < q * d + d;
      if q * d == n then Some(q)
      else
        assert (q + 1) * d == q * d + d;
        Some(q + 1)
  }

  /** `cols / labelWidth` in showProjects: how many cells of labelWidth columns fit across. */
  function Columns(width: nat, labelWidth: nat): nat
    requires labelWidth > 0
  {
    width / labelWidth
  }

  /** The column count is the largest c with c * labelWidth <= width. */
  lemma ColumnsIsLargest(width: nat, labelWidth: nat)
    requires labelWidth > 0
    ensures Columns(width, labelWidth) * labelWidth <= width
    ensures width < (Columns(width, labelWidth) + 1) * labelWidth
  {
    var c := Columns(width, labelWidth);
    assert (c + 1) * labelWidth == c * labelWidth + labelWidth;
  }

  /** The row of the i-th cell when cells fill column by column. */
  function CellRow(i: nat, rows: nat): nat
    requires rows > 0
  {
    i % rows
  }

  /** The first terminal column (0-based) of the i-th cell. */
  function CellX(i: nat, rows: nat, labelWidth: nat): nat
    requires rows > 0
  {
    (i / rows) * labelWidth
  }

  /** Multiplying by a natural number preserves order. */
  lemma {:induction false} MulMonotone(a: nat, b: nat, c: nat)
    requires a <= b
    ensures a * c <= b * c
    decreases b - a
  {
    if a < b {
      MulMonotone(a, b - 1, c);
      assert b * c == (b - 1) * c + c;
    }
  }

  /** The row/col counters of showProjects are the quotient and remainder of the cell index. */
  lemma CountersAreDivMod(i: nat, rows: nat, col: nat, row: nat)
    requires row < rows && i == col * rows + row
    ensures i / rows == col && i % rows == row
  {
    var q, r := i / rows, i % rows;
    assert q * rows + r == col * rows + row;
    if q < col {
      MulMonotone(q + 1, col, rows);
    } else if q > col {
      MulMonotone(col + 1, q, rows);
    }
  }

  /**
   * Every cell of a board of n labels lies inside the terminal: its row is
   * below the row count, and it ends at or before the terminal's width.
   */
  lemma {:induction false} PlacementFits(n: nat, width: nat, labelWidth: nat, i: nat)
    requires labelWidth > 0 && Columns(width, labelWidth) > 0 && i < n
    ensures CeilDiv(n, Columns(width, labelWidth)).value > 0
    ensures CellRow(i, CeilDiv(n, Columns(width, labelWidth)).value) < CeilDiv(n, Columns(width, labelWidth)).value
    ensures CellX(i, CeilDiv(n, Columns(width, labelWidth)).value, labelWidth) + labelWidth <= width
  {
    var cols := Columns(width, labelWidth);
    var rows := CeilDiv(n, cols).value;
    var c := i / rows;
    assert c * rows <= i;
    if c >= cols {
      MulMonotone(cols, c, rows);
      assert false;
    }
    MulMonotone(c + 1, cols, labelWidth);
    assert (c + 1) * labelWidth == c * labelWidth + labelWidth;
    ColumnsIsLargest(width, labelWidth);
  }

  /**
   * Two different cells never overlap: they lie in different rows, or one
   * ends (exclusive) at or before the column where the other starts.
   */
  lemma CellsDisjoint(i: nat, j: nat, rows: nat, labelWidth: nat)
    requires rows > 0 && i != j
    ensures || CellRow(i, rows) != CellRow(j, rows)
            || CellX(i, rows, labelWidth) + labelWidth <= CellX(j, rows, labelWidth)
            || CellX(j, rows, labelWidth) + labelWidth <= CellX(i, rows, labelWidth)
  {
    if CellRow(i, rows) == CellRow(j, rows) {
      var ci, cj := i / rows, j / rows;
      assert i == ci * rows + CellRow(i, rows) && j == cj * rows + CellRow(j, rows);
      assert ci != cj;
      if ci < cj {
        MulMonotone(ci + 1, cj, labelWidth);
      } else {
        MulMonotone(cj + 1, ci, labelWidth);
      }
      assert (ci + 1) * labelWidth == ci * labelWidth + labelWidth;
      assert (cj + 1) * labelWidth == cj * labelWidth + labelWidth;
    }
  }
}
