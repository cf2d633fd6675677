/** The column-major grid that ls prints its entries in, and esh its completions. */
module LsGrid {
  import opened Common

  datatype Grid = Grid(cols: nat, rows: nat, lines: seq<seq<nat>>) {

    /** The entry in row `i` of column `j`: `rows` of them to a column. */
    function Index(i: int, j: int): int { i + j * rows }

    ghost predicate Line(n: nat, i: nat, line: seq<nat>) {
      && 1 <= |line| <= cols
      && (forall j :: 0 <= j < |line| ==> line[j] == Index(i, j) < n)
      && (|line| < cols ==> Index(i, |line|) >= n)
    }

    /** Every line goes on to the last column or to the last entry. */
    ghost predicate Lined(n: nat) {
      |lines| == rows && forall i :: 0 <= i < rows ==> Line(n, i, lines[i])
    }

    lemma IndexGrows(i: int, a: int, b: int)
      requires a <= b
      ensures Index(i, a) <= Index(i, b)
    {
    }

    lemma IndexOf(x: nat)
      requires rows > 0
      ensures 0 <= x % rows < rows && Index(x % rows, x / rows) == x && x / rows >= 0
    {
    }

    lemma IndexUnique(i: int, j: int, k: int, l: int)
      requires 0 <= i < rows && 0 <= k < rows && Index(i, j) == Index(k, l)
      ensures i == k && j == l
    {
      if j < l { IndexGrows(i, j + 1, l); }
      if l < j { IndexGrows(k, l + 1, j); }
    }

    /** Every entry is printed exactly once, at its place down the columns. */
    lemma EachOnce(n: nat, x: nat)
      requires Lined(n) && rows > 0 && n <= Index(0, cols) && x < n
      ensures x / rows < |lines[x % rows]| && lines[x % rows][x / rows] == x
      ensures forall i, j :: 0 <= i < |lines| && 0 <= j < |lines[i]| && lines[i][j] == x ==>
                i == x % rows && j == x / rows
    {
      hide Index;
      IndexOf(x);
      var i, j := x % rows, x / rows;
      var line := lines[i];
      if j >= |line| {
        IndexGrows(i, |line|, j);
        RowFrom(i, |line|);
      }
      forall k, l | 0 <= k < |lines| && 0 <= l < |lines[k]| && lines[k][l] == x ensures k == i && l == j {
        assert Line(n, k, lines[k]);
        IndexUnique(k, l, i, j);
      }
    }

    lemma RowFrom(i: nat, j: int)
      ensures Index(0, j) <= Index(i, j)
    {
    }
  }

  // ----- the measures -----

  /** How many columns fit the terminal, one if none does. */
  function Columns(termWidth: nat, width: nat, spacing: nat): (c: nat)
    requires width + spacing > 0
    ensures c > 0
  {
    var c := (termWidth + spacing) / (width + spacing);
    if c == 0 then 1 else c
  }

  /** The columns a printed line takes: every entry is padded to the full width. */
  function LineWidth(count: nat, width: nat, spacing: nat): int {
    count * width + (count - 1) * spacing
  }

  lemma LineWidthIs(count: nat, width: nat, spacing: nat)
    ensures LineWidth(count, width, spacing) == count * (width + spacing) - spacing
  {
  }

  lemma Quotient(a: nat, d: nat)
    requires d > 0
    ensures (a / d) * d <= a < (a / d + 1) * d
  {
  }

  /** Every line fits the terminal exactly when an entry does: the one column is forced otherwise. */
  lemma LineFitsIff(termWidth: nat, width: nat, spacing: nat, count: nat)
    requires width + spacing > 0 && 1 <= count <= Columns(termWidth, width, spacing)
    ensures LineWidth(count, width, spacing) <= termWidth <==> width <= termWidth
  {
    hide LineWidth;
    var ext := width + spacing;
    LineWidthIs(count, width, spacing);
    Quotient(termWidth + spacing, ext);
    Grows(1, count, ext);
    var q := (termWidth + spacing) / ext;
    if count <= q { Grows(count, q, ext); }
  }

  /** One column more would not fit. */
  lemma NoWider(termWidth: nat, width: nat, spacing: nat, count: nat)
    requires width + spacing > 0 && count > Columns(termWidth, width, spacing)
    ensures LineWidth(count, width, spacing) > termWidth
  {
    hide LineWidth;
    var ext := width + spacing;
    LineWidthIs(count, width, spacing);
    Quotient(termWidth + spacing, ext);
    Grows((termWidth + spacing) / ext + 1, count, ext);
  }

  /** As many rows as are needed and no more. */
  function Rows(n: nat, cols: nat): nat
    requires cols > 0
  {
    var rows := n / cols;
    if rows * cols < n then rows + 1 else rows
  }

  lemma RowsEnough(n: nat, cols: nat)
    requires cols > 0
    ensures n <= Rows(n, cols) * cols && Rows(n, cols) <= n
    ensures Rows(n, cols) > 0 ==> (Rows(n, cols) - 1) * cols < n
  {
    Quotient(n, cols);
    var r := Rows(n, cols);
    if r > 0 {
      Grows(1, cols, r);
      assert (r - 1) * cols < n;
      if r > 1 { Grows(1, cols, r - 1); }
    }
  }

  // ----- printing -----

  /** One line of the grid. */
  method PrintLine(n: nat, g: Grid, i: nat) returns (line: seq<nat>)
    requires i < g.rows && i < n && g.cols > 0
    ensures g.Line(n, i, line)
  {
    line := [i];
    var j := 1;
    while j < g.cols
      invariant 1 <= j <= g.cols && |line| == j
      invariant forall k :: 0 <= k < j ==> line[k] == g.Index(i, k) < n
    {
      if g.Index(i, j) >= n { break; }
      line := line + [g.Index(i, j)];
      j := j + 1;
    }
  }

  /** The grid part of `display_tfiles`. */
  method PrintGrid(n: nat, termWidth: nat, width: nat, spacing: nat) returns (g: Grid)
    requires width + spacing > 0
    ensures g.cols == Columns(termWidth, width, spacing) && g.rows == Rows(n, g.cols)
    ensures g.Lined(n) && n <= g.Index(0, g.cols) && (n > 0 ==> g.rows > 0)
  {
    var cols := Columns(termWidth, width, spacing);
    var rows := Rows(n, cols);
    RowsEnough(n, cols);
    g := Grid(cols, rows, []);
    var lines := [];
    var i := 0;
    while i < rows
      invariant 0 <= i <= rows && |lines| == i
      invariant forall k :: 0 <= k < i ==> g.Line(n, k, lines[k])
    {
      var line := PrintLine(n, g, i);
      lines := lines + [line];
      i := i + 1;
    }
    var full := Grid(cols, rows, lines);
    forall k | 0 <= k < rows ensures full.Line(n, k, lines[k]) { assert g.Line(n, k, lines[k]); }
    g := full;
  }
}
