/** Tunables of the clustering daemon and the fixed constants of the grid.
    The daemon reads the tunables once at start-up from its configuration file;
    here they are one immutable value handed to every operation. */
module Config {

  const MAX_DEGREES_LATITUDE: real := 90.0
  const MAX_DEGREES_LONGITUDE: real := 180.0

  /** A cluster must hold MORE than this many tweets. */
  const MIN_TWEETS: nat := 3

  /** The tweet window is trimmed back to this many tweets before each batch. */
  const WINDOW: nat := 200000

  datatype Settings = Settings(
    cellSize: real,               // grid/cell_size, in degrees
    regionalRadius: real,         // grid/regional_radius, in degrees
    epsilon: real,                // optics/epsilon: the acceptance radius
    minPts: nat,                  // optics/minimum_points
    reachabilityThreshold: real)  // optics/reachability_threshold
  {
    /** What the daemon needs of its configuration to run at all. */
    predicate Valid() {
      cellSize > 0.0 && epsilon >= 0.0 && minPts >= 1
    }

    /** `Cell::cells.resize((MAX_DEGREES_LONGITUDE*2)/CELL_SIZE)`: the double is truncated. */
    function Columns(): nat
      requires Valid()
    {
      Floor(2.0 * MAX_DEGREES_LONGITUDE / cellSize)
    }

    /** `column.resize((MAX_DEGREES_LATITUDE*2)/CELL_SIZE)`. */
    function Rows(): nat
      requires Valid()
    {
      Floor(2.0 * MAX_DEGREES_LATITUDE / cellSize)
    }

    /** The regional radius measured in cells. */
    function Radius(): real
      requires Valid()
    {
      regionalRadius / cellSize
    }

    /** The value that marks "not a neighbour", "not a core object" and "noise". */
    function Noise(): real {
      epsilon + 1.0
    }
  }

  /** `floor` of a double converted to an integer. */
  function Floor(r: real): int {
    r.Floor
  }

  /** `ceil` of a double converted to an integer. */
  function Ceil(r: real): (c: int)
    ensures c as real - 1.0 < r <= c as real
  {
    -((-r).Floor)
  }

  /** Grid column of a longitude: `floor((lon + MAX_DEGREES_LONGITUDE) / CELL_SIZE)`. */
  function Column(s: Settings, lon: real): (x: int)
    requires s.Valid()
    ensures x as real * s.cellSize <= lon + MAX_DEGREES_LONGITUDE < (x + 1) as real * s.cellSize
  {
    CellOf(lon + MAX_DEGREES_LONGITUDE, s.cellSize)
  }

  /** Grid row of a latitude: `floor((lat + MAX_DEGREES_LATITUDE) / CELL_SIZE)`. */
  function Row(s: Settings, lat: real): (y: int)
    requires s.Valid()
    ensures y as real * s.cellSize <= lat + MAX_DEGREES_LATITUDE < (y + 1) as real * s.cellSize
  {
    CellOf(lat + MAX_DEGREES_LATITUDE, s.cellSize)
  }

  /** The index of the cell of width `size` whose span holds the offset `r`. */
  function CellOf(r: real, size: real): (i: int)
    requires size > 0.0
    ensures i as real * size <= r < (i + 1) as real * size
  {
    var q := r / size;
    var f := Floor(q);
    assert f as real <= q < (f + 1) as real;
    MultiplyBelow(f as real, q, size);
    MultiplyBelow(q, (f + 1) as real, size);
    assert q * size == r;
    assert r < (f + 1) as real * size;
    f
  }

  lemma MultiplyBelow(a: real, b: real, c: real)
    requires a <= b && c > 0.0
    ensures a * c <= b * c && (a < b ==> a * c < b * c)
  {
  }
}
