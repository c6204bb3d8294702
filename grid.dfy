/** The spatial grid: a 2-D array of cells over the whole globe, each cell with a
    precomputed region (the cells within the regional radius, clipped to the grid). */
module Grid {
  import opened Config
  import opened Multimap

  /** Indices of a cell: column (longitude) then row (latitude). */
  type Coord = (nat, nat)

  /** `struct Cell`: its coordinates, the number of tweets located in it, the
      inverted index word -> tweets of this cell holding that word, and its region. */
  datatype Cell = Cell(
    x: nat,
    y: nat,
    tweetCount: nat,
    tweetsByWord: map<string, set<Id>>,
    region: seq<Coord>)

  /** A fresh cell: no tweets, empty index, region not yet computed. */
  function EmptyCell(x: nat, y: nat): Cell {
    Cell(x, y, 0, map[], [])
  }

  ghost predicate Shaped(cells: seq<seq<Cell>>, cols: nat, rows: nat) {
    |cells| == cols && forall i :: 0 <= i < cols ==> |cells[i]| == rows
  }

  predicate InGrid(c: Coord, cols: nat, rows: nat) {
    c.0 < cols && c.1 < rows
  }

  /** The square scanned by the region loops around cell (x, y):
      `floor(x - RADIUS) <= i <= ceil(x + RADIUS)` and the same for j. */
  predicate InWindow(c: Coord, x: nat, y: nat, radius: real) {
    Floor(x as real - radius) <= c.0 <= Ceil(x as real + radius) &&
    Floor(y as real - radius) <= c.1 <= Ceil(y as real + radius)
  }

  /** Column-major scan order, hence no cell twice. */
  ghost predicate ScanOrdered(r: seq<Coord>) {
    forall a, b :: 0 <= a < b < |r| ==> r[a].0 < r[b].0 || (r[a].0 == r[b].0 && r[a].1 < r[b].1)
  }

  /** `r` is exactly the region of cell (x, y): every grid cell of the window, once each. */
  ghost predicate IsRegion(r: seq<Coord>, x: nat, y: nat, radius: real, cols: nat, rows: nat) {
    && ScanOrdered(r)
    && forall c: Coord :: c in r <==> InGrid(c, cols, rows) && InWindow(c, x, y, radius)
  }

  /** `Cell::cells.resize(...)`, `column.resize(...)` and the loop that numbers the cells. */
  method NewGrid(cols: nat, rows: nat) returns (cells: seq<seq<Cell>>)
    ensures Shaped(cells, cols, rows)
    ensures forall i, j :: 0 <= i < cols && 0 <= j < rows ==> cells[i][j] == EmptyCell(i, j)
  {
    cells := [];
    var x := 0;
    while x < cols
      invariant x <= cols && |cells| == x
      invariant forall i :: 0 <= i < x ==> |cells[i]| == rows
      invariant forall i, j :: 0 <= i < x && 0 <= j < rows ==> cells[i][j] == EmptyCell(i, j)
    {
      var column := [];
      var y := 0;
      while y < rows
        invariant y <= rows && |column| == y
        invariant forall j :: 0 <= j < y ==> column[j] == EmptyCell(x, j)
      {
        column := column + [EmptyCell(x, y)];
        y := y + 1;
      }
      cells := cells + [column];
      x := x + 1;
    }
  }

  /** The two region loops of one cell. A negative `floor(x - RADIUS)` converted to
      `unsigned int` is undefined in the source; the scan starts at 0 instead. */
  method Region(x: nat, y: nat, radius: real, cols: nat, rows: nat) returns (region: seq<Coord>)
    ensures IsRegion(region, x, y, radius, cols, rows)
  {
    region := [];
    var iLo := Floor(x as real - radius);
    var iHi := Ceil(x as real + radius);
    var jLo := Floor(y as real - radius);
    var jHi := Ceil(y as real + radius);
    var i: int := if iLo < 0 then 0 else iLo;
    while i <= iHi
      invariant 0 <= i && (iLo <= iHi + 1 ==> iLo <= i)
      invariant ScanOrdered(region)
      invariant forall c: Coord :: c in region ==> c.0 < i
      invariant forall c: Coord :: c in region <==> InGrid(c, cols, rows) && InWindow(c, x, y, radius) && c.0 < i
    {
      var j: int := if jLo < 0 then 0 else jLo;
      while j <= jHi
        invariant 0 <= j && (jLo <= jHi + 1 ==> jLo <= j)
        invariant ScanOrdered(region)
        invariant forall c: Coord :: c in region ==> c.0 < i || (c.0 == i && c.1 < j)
        invariant forall c: Coord :: c in region <==>
          InGrid(c, cols, rows) && InWindow(c, x, y, radius) && (c.0 < i || (c.0 == i && c.1 < j))
      {
        // regions end at the poles and at the international date line
        if !(i >= cols || j >= rows) {
          region := region + [(i, j)];
        }
        j := j + 1;
      }
      i := i + 1;
    }
  }

  /** Every cell of a region lies within `ceil(RADIUS)` cells of its owner in each axis. */
  lemma RegionIsNear(r: seq<Coord>, x: nat, y: nat, radius: real, cols: nat, rows: nat)
    requires IsRegion(r, x, y, radius, cols, rows)
    ensures forall c: Coord :: c in r ==>
      InGrid(c, cols, rows) &&
      x - Ceil(radius) <= c.0 <= x + Ceil(radius) &&
      y - Ceil(radius) <= c.1 <= y + Ceil(radius)
  {
    forall c: Coord | c in r
      ensures x - Ceil(radius) <= c.0 <= x + Ceil(radius) && y - Ceil(radius) <= c.1 <= y + Ceil(radius)
    {
      FloorShift(x, radius);
      FloorShift(y, radius);
    }
  }

  lemma FloorShift(x: nat, radius: real)
    ensures x - Ceil(radius) <= Floor(x as real - radius)
    ensures Ceil(x as real + radius) <= x + Ceil(radius)
  {
  }

  /** With a non-negative radius a cell of the grid belongs to its own region. */
  lemma OwnCellInRegion(r: seq<Coord>, x: nat, y: nat, radius: real, cols: nat, rows: nat)
    requires IsRegion(r, x, y, radius, cols, rows)
    requires radius >= 0.0 && x < cols && y < rows
    ensures (x, y) in r
  {
    assert InWindow((x, y), x, y, radius);
  }

  /** The outer loops of the region computation: every cell gets its region. */
  method AssignRegions(cells: seq<seq<Cell>>, radius: real, cols: nat, rows: nat)
    returns (result: seq<seq<Cell>>)
    requires Shaped(cells, cols, rows)
    requires forall i, j :: 0 <= i < cols && 0 <= j < rows ==> cells[i][j].x == i && cells[i][j].y == j
    ensures Shaped(result, cols, rows)
    ensures forall i, j :: 0 <= i < cols && 0 <= j < rows ==>
      result[i][j] == cells[i][j].(region := result[i][j].region) &&
      IsRegion(result[i][j].region, i, j, radius, cols, rows)
  {
    result := cells;
    var i := 0;
    while i < cols
      invariant i <= cols && Shaped(result, cols, rows)
      invariant forall a, b :: 0 <= a < cols && 0 <= b < rows ==>
        result[a][b] == cells[a][b].(region := result[a][b].region)
      invariant forall a, b :: 0 <= a < i && 0 <= b < rows ==>
        IsRegion(result[a][b].region, a, b, radius, cols, rows)
    {
      var j := 0;
      while j < rows
        invariant j <= rows && Shaped(result, cols, rows)
        invariant forall a, b :: 0 <= a < cols && 0 <= b < rows ==>
          result[a][b] == cells[a][b].(region := result[a][b].region)
        invariant forall a, b :: (0 <= a < i || (a == i && 0 <= b < j)) && 0 <= b < rows ==>
          IsRegion(result[a][b].region, a, b, radius, cols, rows)
      {
        var cell := result[i][j];
        var region := Region(cell.x, cell.y, radius, cols, rows);
        result := result[i := result[i][j := cell.(region := region)]];
        j := j + 1;
      }
      i := i + 1;
    }
  }
}
