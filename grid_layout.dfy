/**
 * The hexagonal lattice of generateHexGrid: the km-to-degree conversion,
 * the bounding box, the flat-top hex steps and the column-major walk that
 * keeps every candidate centre not above the box's upper bounds.
 */
module GridLayout {
  import opened Geodesy

  /** A coordinate pair, stored as the source stores it: `[lon, lat]`. */
  datatype Point = Point(lon: real, lat: real)

  /** A lattice position: column `col`, row `row`. */
  datatype Cell = Cell(col: int, row: int)

  /** Everything the lattice walk needs, derived from the query. */
  datatype Geometry = Geometry(
    minLon: real, maxLon: real, minLat: real, maxLat: real,
    sideLon: real, sideLat: real,
    dx: real, dy: real,
    cols: int, rows: int)

  /** Kilometres in one degree of latitude (and of longitude at the equator). */
  const KmPerDegree: real := 111.0

  /** Hex size used when the query asks for a size of 0. */
  const DefaultHexSizeKm: real := 0.05

  function Max0(x: int): nat { if x < 0 then 0 else x }

  /** The hex size after `hexSizeKm || 0.05`: 0 falls back to the default. */
  function EffectiveHexSize(hexSizeKm: real): (r: real)
    ensures r != 0.0
    ensures hexSizeKm != 0.0 ==> r == hexSizeKm
    ensures hexSizeKm == 0.0 ==> r == DefaultHexSizeKm
  {
    if hexSizeKm == 0.0 then DefaultHexSizeKm else hexSizeKm
  }

  /** The divisions of the layout are defined: cos of the centre latitude and sqrt 3 are not 0. */
  predicate LayoutDefined(n: Numerics, centerLat: real)
  {
    Cos(n, ToRadians(n, centerLat)) != 0.0 && Sqrt(n, 3.0) != 0.0
  }

  function DegPerKmLat(): real { 1.0 / KmPerDegree }

  function DegPerKmLon(n: Numerics, centerLat: real): (r: real)
    requires Cos(n, ToRadians(n, centerLat)) != 0.0
    ensures r != 0.0
    ensures Cos(n, ToRadians(n, centerLat)) > 0.0 ==> r > 0.0
  {
    1.0 / (KmPerDegree * Cos(n, ToRadians(n, centerLat)))
  }

  /**
   * Lines 49-68 of generateHexGrid: the box is centred on the query centre,
   * spans the requested kilometres in degrees, and the steps are never 0.
   */
  function Layout(n: Numerics, centerLat: real, centerLon: real,
                  areaWidthKm: real, areaHeightKm: real, hexSizeKm: real): (g: Geometry)
    requires LayoutDefined(n, centerLat)
    ensures g.minLat + g.maxLat == 2.0 * centerLat && g.minLon + g.maxLon == 2.0 * centerLon
    ensures g.maxLat - g.minLat == areaHeightKm * DegPerKmLat()
    ensures g.maxLon - g.minLon == areaWidthKm * DegPerKmLon(n, centerLat)
    ensures g.sideLat == EffectiveHexSize(hexSizeKm) * DegPerKmLat()
    ensures g.sideLon == EffectiveHexSize(hexSizeKm) * DegPerKmLon(n, centerLat)
    ensures g.dx == 1.5 * g.sideLon && g.dy == Sqrt(n, 3.0) * g.sideLat
    ensures g.dx != 0.0 && g.dy != 0.0
    ensures g.cols == ((g.maxLon - g.minLon) / g.dx).Floor + 2
    ensures g.rows == ((g.maxLat - g.minLat) / g.dy).Floor + 2
  {
    var degPerKmLat := DegPerKmLat();
    var degPerKmLon := DegPerKmLon(n, centerLat);
    var hexSize := EffectiveHexSize(hexSizeKm);
    var halfWidthDeg := (areaWidthKm / 2.0) * degPerKmLon;
    var halfHeightDeg := (areaHeightKm / 2.0) * degPerKmLat;
    var minLat := centerLat - halfHeightDeg;
    var maxLat := centerLat + halfHeightDeg;
    var minLon := centerLon - halfWidthDeg;
    var maxLon := centerLon + halfWidthDeg;
    var sideLengthLat := hexSize * degPerKmLat;
    var sideLengthLon := hexSize * degPerKmLon;
    var dx := 1.5 * sideLengthLon;
    var dy := Sqrt(n, 3.0) * sideLengthLat;
    assert sideLengthLon != 0.0 && sideLengthLat != 0.0;
    assert dx != 0.0 && dy != 0.0;
    Geometry(minLon, maxLon, minLat, maxLat, sideLengthLon, sideLengthLat, dx, dy,
             ((maxLon - minLon) / dx).Floor + 2, ((maxLat - minLat) / dy).Floor + 2)
  }

  /** A 0 km by 0 km area collapses the box onto the centre. */
  lemma ZeroAreaBox(n: Numerics, centerLat: real, centerLon: real, hexSizeKm: real)
    requires LayoutDefined(n, centerLat)
    ensures var g := Layout(n, centerLat, centerLon, 0.0, 0.0, hexSizeKm);
      g.minLon == g.maxLon == centerLon && g.minLat == g.maxLat == centerLat
  {
  }

  /**
   * The remainder of JavaScript's `%`, which truncates toward zero: it takes
   * the sign of the dividend, unlike Dafny's Euclidean `%`.
   */
  function JsRem(a: int, b: int): (r: int)
    requires b > 0
    ensures a >= 0 ==> r == a % b
    ensures a < 0 ==> -b < r <= 0 && a == -((-a) / b) * b + r
  {
    if a >= 0 then a % b else
      assert -a == ((-a) / b) * b + (-a) % b;
      -((-a) % b)
  }

  /** `col % 2 === 1`: only non-negative odd columns are raised. */
  lemma OddColumnTest(col: int)
    ensures JsRem(col, 2) == 1 <==> col >= 0 && col % 2 == 1
  {
  }

  /** The candidate centre of a cell; odd columns are raised by half a row. */
  function Candidate(g: Geometry, c: Cell): Point
  {
    var lon := g.minLon + c.col as real * g.dx;
    var lat := g.minLat + c.row as real * g.dy;
    Point(lon, if JsRem(c.col, 2) == 1 then lat + g.dy / 2.0 else lat)
  }

  /** The one-sided clip: not beyond the box's maximum longitude and latitude. */
  predicate WithinUpperBounds(g: Geometry, p: Point)
  {
    p.lon <= g.maxLon && p.lat <= g.maxLat
  }

  predicate Kept(g: Geometry, c: Cell)
  {
    WithinUpperBounds(g, Candidate(g, c))
  }

  /** The clip as a predicate on cells. */
  function KeepOf(g: Geometry): Cell -> bool
  {
    c => Kept(g, c)
  }

  /** Column-major order of the walk: by column, then by row. */
  predicate ColumnMajorBefore(a: Cell, b: Cell)
  {
    a.col < b.col || (a.col == b.col && a.row < b.row)
  }

  predicate ColumnMajorSorted(cells: seq<Cell>)
  {
    forall i, j :: 0 <= i < j < |cells| ==> ColumnMajorBefore(cells[i], cells[j])
  }

  /** The kept cells of column `col` among rows 0 .. rows-1, in row order. */
  function KeptInColumn(keep: Cell -> bool, col: int, rows: int): seq<Cell>
    decreases rows
  {
    if rows <= 0 then []
    else KeptInColumn(keep, col, rows - 1)
         + (if keep(Cell(col, rows - 1)) then [Cell(col, rows - 1)] else [])
  }

  /** The kept cells of columns 0 .. cols-1, in column-major order. */
  function KeptCells(keep: Cell -> bool, cols: int, rows: int): seq<Cell>
    decreases cols
  {
    if cols <= 0 then []
    else KeptCells(keep, cols - 1, rows) + KeptInColumn(keep, cols - 1, rows)
  }

  function CentersOf(g: Geometry, cells: seq<Cell>): (ps: seq<Point>)
  {
    seq(|cells|, i requires 0 <= i < |cells| => Candidate(g, cells[i]))
  }

  /** The `hexCenters` list of the source, as a function of the layout. */
  function GridCenters(g: Geometry): seq<Point>
  {
    CentersOf(g, KeptCells(KeepOf(g), g.cols, g.rows))
  }

  /** The nested loops of lines 70-78, pushing every kept candidate. */
  method EnumerateCenters(g: Geometry) returns (hexCenters: seq<Point>)
    ensures hexCenters == GridCenters(g)
  {
    hexCenters := [];
    ghost var cells: seq<Cell> := [];
    var col := 0;
    while col < g.cols
      invariant 0 <= col <= Max0(g.cols)
      invariant cells == KeptCells(KeepOf(g), col, g.rows)
      invariant hexCenters == CentersOf(g, cells)
    {
      var row := 0;
      while row < g.rows
        invariant 0 <= row <= Max0(g.rows)
        invariant cells == KeptCells(KeepOf(g), col, g.rows) + KeptInColumn(KeepOf(g), col, row)
        invariant hexCenters == CentersOf(g, cells)
      {
        // lon = minLon + col * dx; lat = minLat + row * dy, plus dy / 2 in odd columns
        var center := Candidate(g, Cell(col, row));
        KeptInColumnStep(KeepOf(g), col, row);
        if center.lon <= g.maxLon && center.lat <= g.maxLat {
          CentersOfPush(g, cells, Cell(col, row));
          hexCenters := hexCenters + [center];
          cells := cells + [Cell(col, row)];
        }
        row := row + 1;
      }
      KeptCellsStep(KeepOf(g), col, g.rows);
      col := col + 1;
    }
  }

  lemma KeptInColumnStep(keep: Cell -> bool, col: int, row: nat)
    ensures KeptInColumn(keep, col, row + 1)
            == KeptInColumn(keep, col, row) + if keep(Cell(col, row)) then [Cell(col, row)] else []
  {
  }

  lemma KeptCellsStep(keep: Cell -> bool, col: nat, rows: int)
    ensures KeptCells(keep, col + 1, rows) == KeptCells(keep, col, rows) + KeptInColumn(keep, col, rows)
  {
  }

  lemma CentersOfPush(g: Geometry, cells: seq<Cell>, c: Cell)
    ensures CentersOf(g, cells + [c]) == CentersOf(g, cells) + [Candidate(g, c)]
  {
    assert forall i :: 0 <= i < |cells| ==> (cells + [c])[i] == cells[i];
  }

  lemma {:induction false} KeptInColumnMembers(keep: Cell -> bool, col: int, rows: int, c: Cell)
    ensures c in KeptInColumn(keep, col, rows) <==> c.col == col && 0 <= c.row < rows && keep(c)
    decreases rows
  {
    if rows > 0 {
      KeptInColumnMembers(keep, col, rows - 1, c);
    }
  }

  /** A cell is kept exactly when it is on the lattice and its centre passes the clip. */
  lemma {:induction false} KeptCellsMembers(keep: Cell -> bool, cols: int, rows: int, c: Cell)
    ensures c in KeptCells(keep, cols, rows)
            <==> 0 <= c.col < cols && 0 <= c.row < rows && keep(c)
    decreases cols
  {
    if cols > 0 {
      var front := KeptCells(keep, cols - 1, rows);
      var back := KeptInColumn(keep, cols - 1, rows);
      assert KeptCells(keep, cols, rows) == front + back;
      KeptCellsMembers(keep, cols - 1, rows, c);
      KeptInColumnMembers(keep, cols - 1, rows, c);
      assert c in front + back <==> c in front || c in back;
    }
  }

  lemma {:induction false} KeptInColumnSorted(keep: Cell -> bool, col: int, rows: int)
    ensures ColumnMajorSorted(KeptInColumn(keep, col, rows))
    decreases rows
  {
    if rows > 0 {
      KeptInColumnSorted(keep, col, rows - 1);
      var prefix := KeptInColumn(keep, col, rows - 1);
      forall i | 0 <= i < |prefix|
        ensures prefix[i].col == col && prefix[i].row < rows - 1
      {
        KeptInColumnMembers(keep, col, rows - 1, prefix[i]);
      }
    }
  }

  /** The kept cells come strictly in column-major order. */
  lemma {:induction false} KeptCellsSorted(keep: Cell -> bool, cols: int, rows: int)
    ensures ColumnMajorSorted(KeptCells(keep, cols, rows))
    decreases cols
  {
    if cols > 0 {
      KeptCellsSorted(keep, cols - 1, rows);
      KeptInColumnSorted(keep, cols - 1, rows);
      var front := KeptCells(keep, cols - 1, rows);
      var back := KeptInColumn(keep, cols - 1, rows);
      forall i | 0 <= i < |front|
        ensures front[i].col < cols - 1
      {
        KeptCellsMembers(keep, cols - 1, rows, front[i]);
      }
      forall j | 0 <= j < |back|
        ensures back[j].col == cols - 1
      {
        KeptInColumnMembers(keep, cols - 1, rows, back[j]);
      }
    }
  }

  lemma {:induction false} KeptInColumnCount(keep: Cell -> bool, col: int, rows: int)
    ensures |KeptInColumn(keep, col, rows)| <= Max0(rows)
    decreases rows
  {
    if rows > 0 {
      KeptInColumnCount(keep, col, rows - 1);
    }
  }

  lemma MulSucc(a: nat, b: nat)
    ensures (a + 1) * b == a * b + b
  {
  }

  /** At most `cols * rows` cells survive. */
  lemma {:induction false} KeptCellsCount(keep: Cell -> bool, cols: int, rows: int)
    ensures |KeptCells(keep, cols, rows)| <= Max0(cols) * Max0(rows)
    decreases cols
  {
    if cols > 0 {
      KeptCellsCount(keep, cols - 1, rows);
      KeptInColumnCount(keep, cols - 1, rows);
      assert Max0(cols) == Max0(cols - 1) + 1;
      MulSucc(Max0(cols - 1), Max0(rows));
    }
  }

  /** The coordinates of a candidate centre, odd columns raised by dy / 2. */
  lemma CandidateCoordinates(g: Geometry, c: Cell)
    ensures Candidate(g, c).lon == g.minLon + c.col as real * g.dx
    ensures Candidate(g, c).lat == g.minLat + c.row as real * g.dy
                                   + (if c.col >= 0 && c.col % 2 == 1 then g.dy / 2.0 else 0.0)
  {
  }

  /**
   * The retained centres: as many as the kept cells, at most cols * rows,
   * each the candidate of its cell and within the upper bounds, and the
   * cells on the lattice and in strict column-major order.
   */
  lemma GridCentersShape(g: Geometry)
    ensures var cells := KeptCells(KeepOf(g), g.cols, g.rows);
      && |GridCenters(g)| == |cells| <= Max0(g.cols) * Max0(g.rows)
      && ColumnMajorSorted(cells)
      && (forall i :: 0 <= i < |cells| ==>
            && 0 <= cells[i].col < g.cols && 0 <= cells[i].row < g.rows
            && GridCenters(g)[i] == Candidate(g, cells[i])
            && WithinUpperBounds(g, GridCenters(g)[i]))
  {
    var cells := KeptCells(KeepOf(g), g.cols, g.rows);
    KeptCellsCount(KeepOf(g), g.cols, g.rows);
    KeptCellsSorted(KeepOf(g), g.cols, g.rows);
    forall i | 0 <= i < |cells|
      ensures 0 <= cells[i].col < g.cols && 0 <= cells[i].row < g.rows && Kept(g, cells[i])
    {
      KeptCellsMembers(KeepOf(g), g.cols, g.rows, cells[i]);
    }
  }

  lemma CandidateAboveMinimum(g: Geometry, c: Cell)
    requires g.dx > 0.0 && g.dy > 0.0 && c.col >= 0 && c.row >= 0
    ensures Candidate(g, c).lon >= g.minLon && Candidate(g, c).lat >= g.minLat
  {
    assert c.col as real * g.dx >= 0.0;
    assert c.row as real * g.dy >= 0.0;
  }

  /**
   * The clip tests only the upper bounds, yet with positive steps no
   * retained centre lies below minLon or minLat either: the lattice starts
   * at the box's lower corner and only grows from there.
   */
  lemma CentersAboveLowerBounds(g: Geometry)
    requires g.dx > 0.0 && g.dy > 0.0
    ensures forall p :: p in GridCenters(g) ==> g.minLon <= p.lon && g.minLat <= p.lat
  {
    var cells := KeptCells(KeepOf(g), g.cols, g.rows);
    forall i | 0 <= i < |cells|
      ensures g.minLon <= GridCenters(g)[i].lon && g.minLat <= GridCenters(g)[i].lat
    {
      KeptCellsMembers(KeepOf(g), g.cols, g.rows, cells[i]);
      CandidateAboveMinimum(g, cells[i]);
    }
  }

  /** Every lattice candidate that passes the clip is retained. */
  lemma GridCentersComplete(g: Geometry, c: Cell)
    requires 0 <= c.col < g.cols && 0 <= c.row < g.rows && Kept(g, c)
    ensures Candidate(g, c) in GridCenters(g)
  {
    KeptCellsMembers(KeepOf(g), g.cols, g.rows, c);
    var cells := KeptCells(KeepOf(g), g.cols, g.rows);
    var i :| 0 <= i < |cells| && cells[i] == c;
    assert GridCenters(g)[i] == Candidate(g, c);
  }

  /**
   * When the area is not negative and both degree-per-km factors are
   * positive, column 0 / row 0 survives and is the first centre: the grid
   * is never empty, even for a 0 km by 0 km area.
   */
  lemma CornerCellFirst(n: Numerics, centerLat: real, centerLon: real,
                        areaWidthKm: real, areaHeightKm: real, hexSizeKm: real)
    requires LayoutDefined(n, centerLat) && Cos(n, ToRadians(n, centerLat)) > 0.0 && Sqrt(n, 3.0) > 0.0
    requires areaWidthKm >= 0.0 && areaHeightKm >= 0.0 && hexSizeKm >= 0.0
    ensures var g := Layout(n, centerLat, centerLon, areaWidthKm, areaHeightKm, hexSizeKm);
      |GridCenters(g)| >= 1 && GridCenters(g)[0] == Point(g.minLon, g.minLat)
  {
    var g := Layout(n, centerLat, centerLon, areaWidthKm, areaHeightKm, hexSizeKm);
    var lonFactor := DegPerKmLon(n, centerLat);
    var hexSize := EffectiveHexSize(hexSizeKm);
    assert hexSize > 0.0;
    assert g.sideLon > 0.0 && g.sideLat > 0.0 by {
      assert g.sideLon == hexSize * lonFactor;
    }
    assert g.dx > 0.0 && g.dy > 0.0;
    assert g.maxLon - g.minLon >= 0.0 by {
      assert g.maxLon - g.minLon == areaWidthKm * lonFactor;
    }
    assert g.maxLat - g.minLat >= 0.0;
    assert (g.maxLon - g.minLon) / g.dx >= 0.0;
    assert (g.maxLat - g.minLat) / g.dy >= 0.0;
    assert g.cols >= 2 && g.rows >= 2;
    var corner := Cell(0, 0);
    assert Candidate(g, corner) == Point(g.minLon, g.minLat);
    assert Kept(g, corner);
    var cells := KeptCells(KeepOf(g), g.cols, g.rows);
    KeptCellsMembers(KeepOf(g), g.cols, g.rows, corner);
    KeptCellsMembers(KeepOf(g), g.cols, g.rows, cells[0]);
    KeptCellsSorted(KeepOf(g), g.cols, g.rows);
    assert cells[0] == corner;
  }
}
