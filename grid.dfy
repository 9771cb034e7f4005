/** The decoded pixel grid and its row-major visiting order (y outer, x inner). */
module Grids {
  import opened Colors

  /** A width x height grid; `rows[y][x]` is the pixel the source reads as `img[x, y]`. */
  datatype Grid = Grid(width: nat, height: nat, rows: seq<seq<Color>>)
  {
    predicate Valid() {
      |rows| == height && forall y :: 0 <= y < height ==> |rows[y]| == width
    }
  }

  /** The pixel at column x, row y. */
  function At(g: Grid, x: nat, y: nat): Color
    requires g.Valid() && x < g.width && y < g.height
  {
    g.rows[y][x]
  }

  /** A visited pixel: its coordinates and its colour. */
  datatype Cell = Cell(x: nat, y: nat, color: Color)

  /** The cells (0, y) .. (n-1, y) of row y, left to right. */
  function RowCells(g: Grid, y: nat, n: nat): (cs: seq<Cell>)
    requires g.Valid() && y < g.height && n <= g.width
    ensures |cs| == n
  {
    if n == 0 then [] else RowCells(g, y, n - 1) + [Cell(n - 1, y, At(g, n - 1, y))]
  }

  /** The cells of rows 0 .. y-1, in row-major order. */
  function Rows(g: Grid, y: nat): seq<Cell>
    requires g.Valid() && y <= g.height
  {
    if y == 0 then [] else Rows(g, y - 1) + RowCells(g, y - 1, g.width)
  }

  /** The cells a row-major scan has visited before reaching (x, y). */
  function Scanned(g: Grid, y: nat, x: nat): seq<Cell>
    requires g.Valid() && y < g.height && x <= g.width
  {
    Rows(g, y) + RowCells(g, y, x)
  }

  /** Every cell of the grid, in the order of the source's `for y { for x { .. } }` loops. */
  function Cells(g: Grid): seq<Cell>
    requires g.Valid()
  {
    Rows(g, g.height)
  }

  /** Visiting (x, y) appends exactly that cell to the visited prefix. */
  lemma ScannedStep(g: Grid, y: nat, x: nat)
    requires g.Valid() && y < g.height && x < g.width
    ensures Scanned(g, y, x + 1) == Scanned(g, y, x) + [Cell(x, y, At(g, x, y))]
  {
    assert RowCells(g, y, x + 1) == RowCells(g, y, x) + [Cell(x, y, At(g, x, y))];
  }

  /** Starting row y, the scan has visited exactly the rows above it. */
  lemma ScannedRowStart(g: Grid, y: nat)
    requires g.Valid() && y < g.height
    ensures Scanned(g, y, 0) == Rows(g, y)
  {
    assert RowCells(g, y, 0) == [];
  }

  /** Finishing row y is the same as starting row y + 1 (or finishing the grid). */
  lemma ScannedRowEnd(g: Grid, y: nat)
    requires g.Valid() && y < g.height
    ensures Scanned(g, y, g.width) == Rows(g, y + 1)
    ensures y + 1 < g.height ==> Scanned(g, y, g.width) == Scanned(g, y + 1, 0)
  {
  }

  lemma {:induction false} RowCellsPrefix(g: Grid, y: nat, x: nat, n: nat)
    requires g.Valid() && y < g.height && x <= n <= g.width
    ensures RowCells(g, y, x) <= RowCells(g, y, n)
  {
    if x < n {
      RowCellsPrefix(g, y, x, n - 1);
    }
  }

  lemma {:induction false} RowsPrefix(g: Grid, y: nat, n: nat)
    requires g.Valid() && y <= n <= g.height
    ensures Rows(g, y) <= Rows(g, n)
  {
    if y < n {
      RowsPrefix(g, y, n - 1);
    }
  }

  /** What the scan has visited before (x, y) is a prefix of the whole visiting order. */
  lemma ScannedPrefix(g: Grid, y: nat, x: nat)
    requires g.Valid() && y < g.height && x <= g.width
    ensures Scanned(g, y, x) <= Cells(g)
  {
    RowCellsPrefix(g, y, x, g.width);
    RowsPrefix(g, y + 1, g.height);
  }

  /** The strict row-major order on coordinates. */
  predicate Before(x1: nat, y1: nat, x2: nat, y2: nat) {
    y1 < y2 || (y1 == y2 && x1 < x2)
  }

  /** A sequence of cells whose coordinates strictly increase in row-major order. */
  predicate RowMajor(cs: seq<Cell>) {
    forall i, j :: 0 <= i < j < |cs| ==> Before(cs[i].x, cs[i].y, cs[j].x, cs[j].y)
  }

  /** A cell that records the grid's own pixel at an in-range coordinate. */
  predicate IsPixel(g: Grid, c: Cell)
    requires g.Valid()
  {
    c.x < g.width && c.y < g.height && c.color == At(g, c.x, c.y)
  }

  lemma {:induction false} RowCellsShape(g: Grid, y: nat, n: nat)
    requires g.Valid() && y < g.height && n <= g.width
    ensures RowMajor(RowCells(g, y, n))
    ensures forall c :: c in RowCells(g, y, n) <==> IsPixel(g, c) && c.y == y && c.x < n
  {
    if n > 0 {
      RowCellsShape(g, y, n - 1);
      var last := Cell(n - 1, y, At(g, n - 1, y));
      forall c | IsPixel(g, c) && c.y == y && c.x < n
        ensures c in RowCells(g, y, n)
      {
        if c.x < n - 1 {
          assert c in RowCells(g, y, n - 1);
        } else {
          assert c == last;
        }
      }
    }
  }

  lemma {:induction false} RowsShape(g: Grid, y: nat)
    requires g.Valid() && y <= g.height
    ensures |Rows(g, y)| == y * g.width
    ensures RowMajor(Rows(g, y))
    ensures forall c :: c in Rows(g, y) <==> IsPixel(g, c) && c.y < y
  {
    if y > 0 {
      RowsShape(g, y - 1);
      RowCellsShape(g, y - 1, g.width);
      var a, b := Rows(g, y - 1), RowCells(g, y - 1, g.width);
      var ab: seq<Cell> := a + b;
      assert |ab| == (y - 1) * g.width + g.width;
      forall i, j | 0 <= i < j < |ab|
        ensures Before(ab[i].x, ab[i].y, ab[j].x, ab[j].y)
      {
        if j < |a| {
          assert ab[i] == a[i] && ab[j] == a[j];
        } else if i >= |a| {
          assert ab[i] == b[i - |a|] && ab[j] == b[j - |a|];
        } else {
          assert ab[i] == a[i] && a[i] in a;
          assert ab[j] == b[j - |a|] && b[j - |a|] in b;
        }
      }
      forall c | IsPixel(g, c) && c.y < y
        ensures c in ab
      {
        if c.y < y - 1 { assert c in a; } else { assert c in b; }
      }
    }
  }

  /** The scan visits exactly the grid's pixels, each coordinate once, in strict
      row-major order; there are width * height of them. */
  lemma CellsShape(g: Grid)
    requires g.Valid()
    ensures |Cells(g)| == g.width * g.height
    ensures RowMajor(Cells(g))
    ensures forall c :: c in Cells(g) <==> IsPixel(g, c)
  {
    RowsShape(g, g.height);
  }

  /** Every cell visited so far records the grid's pixel at its coordinates. */
  lemma ScannedInGrid(g: Grid, y: nat, x: nat)
    requires g.Valid() && y < g.height && x <= g.width
    ensures forall c :: c in Scanned(g, y, x) ==> IsPixel(g, c)
  {
    RowsShape(g, y);
    RowCellsShape(g, y, x);
  }
}
