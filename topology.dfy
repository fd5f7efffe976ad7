/** Reading the map (set_up_grid): walls, dots and ghost spawns from the
    characters '0', '1' and '2', then the junction cells from the walls. */
module Topology {
  import opened Geometry

  const WallChar: char := '0'
  const DotChar: char := '1'
  const GhostChar: char := '2'

  /** The cells (x, y) with x < n whose character in `line` (row y) is ch, left to right. */
  function RowCells(line: string, y: int, ch: char, n: nat): seq<Cell>
    requires n <= |line|
  {
    if n == 0 then []
    else RowCells(line, y, ch, n - 1) + (if line[n - 1] == ch then [Cell(n - 1, y)] else [])
  }

  /** The cells of the first m rows holding ch, in row-major order. */
  function GridCells(grid: seq<string>, ch: char, m: nat): seq<Cell>
    requires m <= |grid|
  {
    if m == 0 then []
    else GridCells(grid, ch, m - 1) + RowCells(grid[m - 1], m - 1, ch, |grid[m - 1]|)
  }

  /** Every cell of the map that holds ch, in row-major order. */
  function Cells(grid: seq<string>, ch: char): seq<Cell> {
    GridCells(grid, ch, |grid|)
  }

  /** The map holds ch at cell c (rows may have different lengths). */
  predicate HoldsAt(grid: seq<string>, ch: char, c: Cell) {
    0 <= c.y < |grid| && 0 <= c.x < |grid[c.y]| && grid[c.y][c.x] == ch
  }

  /** Row-major order: earlier row, or same row and earlier column. */
  predicate Before(a: Cell, b: Cell) {
    a.y < b.y || (a.y == b.y && a.x < b.x)
  }

  predicate RowMajor(cs: seq<Cell>) {
    forall i, j :: 0 <= i < j < |cs| ==> Before(cs[i], cs[j])
  }

  lemma {:induction false} RowCellsExactly(line: string, y: int, ch: char, n: nat)
    requires n <= |line|
    ensures forall c :: c in RowCells(line, y, ch, n) <==> c.y == y && 0 <= c.x < n && line[c.x] == ch
    ensures RowMajor(RowCells(line, y, ch, n))
  {
    if n > 0 {
      RowCellsExactly(line, y, ch, n - 1);
    }
  }

  lemma {:induction false} GridCellsExactly(grid: seq<string>, ch: char, m: nat)
    requires m <= |grid|
    ensures forall c :: c in GridCells(grid, ch, m) <==> c.y < m && HoldsAt(grid, ch, c)
    ensures RowMajor(GridCells(grid, ch, m))
  {
    if m > 0 {
      GridCellsExactly(grid, ch, m - 1);
      var front := GridCells(grid, ch, m - 1);
      var row := RowCells(grid[m - 1], m - 1, ch, |grid[m - 1]|);
      RowCellsExactly(grid[m - 1], m - 1, ch, |grid[m - 1]|);
      assert forall i, j :: 0 <= i < |front| && 0 <= j < |row| ==> Before(front[i], row[j]) by {
        forall i, j | 0 <= i < |front| && 0 <= j < |row| ensures Before(front[i], row[j]) {
          assert front[i] in front;
          assert row[j] in row;
        }
      }
    }
  }

  /** Parsing is exact: a cell is listed for ch iff the map holds ch there,
      and the list is in row-major order (the order of enumerate over lines, then characters).
      Any other character, the trailing newline included, adds nothing. */
  lemma CellsExactly(grid: seq<string>, ch: char)
    ensures forall c :: c in Cells(grid, ch) <==> HoldsAt(grid, ch, c)
    ensures RowMajor(Cells(grid, ch))
  {
    GridCellsExactly(grid, ch, |grid|);
  }

  /** A cell holds one character, so walls, dots and ghost spawns never share a cell. */
  lemma CellsDisjoint(grid: seq<string>, a: char, b: char, c: Cell)
    requires a != b
    ensures !(c in Cells(grid, a) && c in Cells(grid, b))
  {
    CellsExactly(grid, a);
    CellsExactly(grid, b);
  }

  /** The first pass of set_up_grid: one nested scan appends each '0' to the
      walls, each '1' to the dots and each '2' to the ghost spawns. */
  method ScanGrid(grid: seq<string>) returns (walls: seq<Cell>, dots: seq<Cell>, spawns: seq<Cell>)
    ensures walls == Cells(grid, WallChar)
    ensures dots == Cells(grid, DotChar)
    ensures spawns == Cells(grid, GhostChar)
  {
    walls, dots, spawns := [], [], [];
    var y := 0;
    while y < |grid|
      invariant 0 <= y <= |grid|
      invariant walls == GridCells(grid, WallChar, y)
      invariant dots == GridCells(grid, DotChar, y)
      invariant spawns == GridCells(grid, GhostChar, y)
    {
      var line := grid[y];
      var x := 0;
      while x < |line|
        invariant 0 <= x <= |line|
        invariant walls == GridCells(grid, WallChar, y) + RowCells(line, y, WallChar, x)
        invariant dots == GridCells(grid, DotChar, y) + RowCells(line, y, DotChar, x)
        invariant spawns == GridCells(grid, GhostChar, y) + RowCells(line, y, GhostChar, x)
      {
        var ch := line[x];
        if ch == WallChar {
          walls := walls + [Cell(x, y)];
        } else if ch == DotChar {
          dots := dots + [Cell(x, y)];
        } else if ch == GhostChar {
          spawns := spawns + [Cell(x, y)];
        }
        x := x + 1;
      }
      y := y + 1;
    }
  }

  /** count_valid_dirs: how many of the four directions do not collide from c. */
  function OpenExits(walls: seq<Cell>, c: Cell): nat {
    (if WillCollide(walls, c, Right) then 0 else 1)
    + (if WillCollide(walls, c, Left) then 0 else 1)
    + (if WillCollide(walls, c, Down) then 0 else 1)
    + (if WillCollide(walls, c, Up) then 0 else 1)
  }

  /** A junction has more than two open exits. */
  predicate IsJunction(walls: seq<Cell>, c: Cell) {
    OpenExits(walls, c) > 2
  }

  /** A cell is a junction iff at most one of its four wrapped neighbours is a wall. */
  lemma JunctionIffAtMostOneWall(walls: seq<Cell>, c: Cell)
    ensures IsJunction(walls, c) <==>
      forall d1: Dir, d2: Dir :: d1 != d2 && Step(c, d1) in walls ==> Step(c, d2) !in walls
  {
    WillCollideIffWall(walls, c, Right);
    WillCollideIffWall(walls, c, Left);
    WillCollideIffWall(walls, c, Down);
    WillCollideIffWall(walls, c, Up);
  }

  /** The cells (x, y) of row y with x < n that satisfy keep, left to right. */
  function RowWhere(keep: Cell -> bool, y: int, n: nat): seq<Cell> {
    if n == 0 then []
    else RowWhere(keep, y, n - 1) + (if keep(Cell(n - 1, y)) then [Cell(n - 1, y)] else [])
  }

  /** The cells of the first m rows, `width` columns wide, that satisfy keep, row-major. */
  function RowsWhere(keep: Cell -> bool, width: nat, m: nat): seq<Cell> {
    if m == 0 then []
    else RowsWhere(keep, width, m - 1) + RowWhere(keep, m - 1, width)
  }

  /** The junction test of one map, as a function of the cell. */
  function JunctionTest(walls: seq<Cell>): Cell -> bool {
    c => IsJunction(walls, c)
  }

  /** The junction cells of a scan `rows` rows by `width` columns, row-major. */
  function Junctions(walls: seq<Cell>, rows: nat, width: nat): seq<Cell> {
    RowsWhere(JunctionTest(walls), width, rows)
  }

  /** The width the scan uses: the length of the first line, newline included. */
  function ScanWidth(grid: seq<string>): nat {
    if |grid| == 0 then 0 else |grid[0]|
  }

  lemma {:induction false} RowWhereExactly(keep: Cell -> bool, y: int, n: nat)
    ensures forall c :: c in RowWhere(keep, y, n) <==> c.y == y && 0 <= c.x < n && keep(c)
    ensures RowMajor(RowWhere(keep, y, n))
  {
    if n > 0 {
      RowWhereExactly(keep, y, n - 1);
    }
  }

  lemma {:induction false} RowsWhereExactly(keep: Cell -> bool, width: nat, m: nat)
    ensures forall c :: c in RowsWhere(keep, width, m) <==> 0 <= c.y < m && 0 <= c.x < width && keep(c)
    ensures RowMajor(RowsWhere(keep, width, m))
  {
    if m > 0 {
      RowsWhereExactly(keep, width, m - 1);
      var front := RowsWhere(keep, width, m - 1);
      var row := RowWhere(keep, m - 1, width);
      RowWhereExactly(keep, m - 1, width);
      assert forall i, j :: 0 <= i < |front| && 0 <= j < |row| ==> Before(front[i], row[j]) by {
        forall i, j | 0 <= i < |front| && 0 <= j < |row| ensures Before(front[i], row[j]) {
          assert front[i] in front;
          assert row[j] in row;
        }
      }
    }
  }

  /** Junction detection is exact: the scan lists a cell iff it lies in the
      scanned rectangle and has more than two open exits, in row-major order. */
  lemma JunctionsExactly(walls: seq<Cell>, rows: nat, width: nat)
    ensures forall c :: c in Junctions(walls, rows, width) <==>
      0 <= c.y < rows && 0 <= c.x < width && IsJunction(walls, c)
    ensures RowMajor(Junctions(walls, rows, width))
  {
    RowsWhereExactly(JunctionTest(walls), width, rows);
  }

  /** The nested loops of set_up_grid's second pass: visit rows 0..rows-1 and,
      in each, columns 0..width-1, appending every cell that passes keep. */
  method ScanWhere(keep: Cell -> bool, rows: nat, width: nat) returns (cells: seq<Cell>)
    ensures cells == RowsWhere(keep, width, rows)
  {
    cells := [];
    var y := 0;
    while y < rows
      invariant 0 <= y <= rows
      invariant cells == RowsWhere(keep, width, y)
    {
      var x := 0;
      while x < width
        invariant 0 <= x <= width
        invariant cells == RowsWhere(keep, width, y) + RowWhere(keep, y, x)
      {
        if keep(Cell(x, y)) {
          cells := cells + [Cell(x, y)];
        }
        x := x + 1;
      }
      y := y + 1;
    }
  }

  /** The second pass of set_up_grid: the cells of the scanned rectangle with
      more than two open exits, in row-major order. */
  method ScanJunctions(walls: seq<Cell>, rows: nat, width: nat) returns (junctions: seq<Cell>)
    ensures junctions == Junctions(walls, rows, width)
    ensures forall c :: c in junctions <==> 0 <= c.y < rows && 0 <= c.x < width && IsJunction(walls, c)
  {
    junctions := ScanWhere(JunctionTest(walls), rows, width);
    JunctionsExactly(walls, rows, width);
  }
}
