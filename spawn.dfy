// Spawn clamping in Board.FitSpawnInsideBoard and the GetMin/Max cell scans it uses
// (Assets/Scripts/Board.cs:58-110).

module Spawn {
  import opened Tetronimos
  import opened Grid

  const IntMin := -0x8000_0000
  const IntMax := 0x7fff_ffff

  datatype Axis = X | Y

  function Coord(v: Vec, axis: Axis): int
  {
    if axis == X then v.x else v.y
  }

  /** The smallest coordinate of the cells, scanning from `int.MaxValue` (what an empty piece gives). */
  function MinCoord(cells: seq<Vec>, axis: Axis): (r: int)
    ensures r <= IntMax
    ensures forall i :: 0 <= i < |cells| ==> r <= Coord(cells[i], axis)
  {
    if |cells| == 0 then IntMax
    else
      var rest := MinCoord(cells[..|cells| - 1], axis);
      var last := Coord(cells[|cells| - 1], axis);
      if last < rest then last else rest
  }

  /** The largest coordinate of the cells, scanning from `int.MinValue`. */
  function MaxCoord(cells: seq<Vec>, axis: Axis): (r: int)
    ensures r >= IntMin
    ensures forall i :: 0 <= i < |cells| ==> Coord(cells[i], axis) <= r
  {
    if |cells| == 0 then IntMin
    else
      var rest := MaxCoord(cells[..|cells| - 1], axis);
      var last := Coord(cells[|cells| - 1], axis);
      if last > rest then last else rest
  }

  /** The scan's minimum is one of the coordinates, unless it is still the starting sentinel. */
  lemma {:induction false} MinCoordAttained(cells: seq<Vec>, axis: Axis)
    ensures MinCoord(cells, axis) == IntMax || exists i :: 0 <= i < |cells| && MinCoord(cells, axis) == Coord(cells[i], axis)
  {
    if |cells| > 0 {
      var init := cells[..|cells| - 1];
      MinCoordAttained(init, axis);
      if MinCoord(cells, axis) != Coord(cells[|cells| - 1], axis) && MinCoord(cells, axis) != IntMax {
        var i :| 0 <= i < |init| && MinCoord(init, axis) == Coord(init[i], axis);
        assert init[i] == cells[i];
      }
    }
  }

  /** The scan's maximum is one of the coordinates, unless it is still the starting sentinel. */
  lemma {:induction false} MaxCoordAttained(cells: seq<Vec>, axis: Axis)
    ensures MaxCoord(cells, axis) == IntMin || exists i :: 0 <= i < |cells| && MaxCoord(cells, axis) == Coord(cells[i], axis)
  {
    if |cells| > 0 {
      var init := cells[..|cells| - 1];
      MaxCoordAttained(init, axis);
      if MaxCoord(cells, axis) != Coord(cells[|cells| - 1], axis) && MaxCoord(cells, axis) != IntMin {
        var i :| 0 <= i < |init| && MaxCoord(init, axis) == Coord(init[i], axis);
        assert init[i] == cells[i];
      }
    }
  }

  /** Unity's integer `Mathf.Clamp`: below `min` gives `min`, otherwise above `max` gives `max`. */
  function Clamp(value: int, min: int, max: int): (r: int)
    ensures min <= max ==> min <= r <= max
    ensures min <= value <= max ==> r == value
    ensures min > max ==> r == min || r == max
    ensures value < min ==> r == min
    ensures min <= value && max < value ==> r == max
  {
    if value < min then min else if value > max then max else value
  }

  /** Where `FitSpawnInsideBoard` moves a piece at `pos`: each coordinate clamped to the range
      that keeps the piece's extreme cells on the board. */
  function FitPosition(b: Bounds, cells: seq<Vec>, pos: Vec): Vec
  {
    Vec(Clamp(pos.x, b.left - MinCoord(cells, X), (b.right - 1) - MaxCoord(cells, X)),
        Clamp(pos.y, b.bottom - MinCoord(cells, Y), (b.top - 1) - MaxCoord(cells, Y)))
  }

  /** The piece's extent in each axis fits the board's. */
  predicate SpanFits(b: Bounds, cells: seq<Vec>)
  {
    MaxCoord(cells, X) - MinCoord(cells, X) <= (b.right - 1) - b.left &&
    MaxCoord(cells, Y) - MinCoord(cells, Y) <= (b.top - 1) - b.bottom
  }

  /** Offsets that a Vector2Int can hold. */
  predicate Int32Cells(cells: seq<Vec>)
  {
    forall i :: 0 <= i < |cells| ==> IntMin <= cells[i].x <= IntMax && IntMin <= cells[i].y <= IntMax
  }

  /** For a non-empty piece of 32-bit offsets, both scans end on an actual coordinate. */
  lemma ExtremesAttained(cells: seq<Vec>)
    requires |cells| > 0 && Int32Cells(cells)
    ensures forall axis: Axis :: exists i :: 0 <= i < |cells| && MinCoord(cells, axis) == Coord(cells[i], axis)
    ensures forall axis: Axis :: exists i :: 0 <= i < |cells| && MaxCoord(cells, axis) == Coord(cells[i], axis)
  {
    forall axis: Axis ensures exists i :: 0 <= i < |cells| && MinCoord(cells, axis) == Coord(cells[i], axis) {
      MinCoordAttained(cells, axis);
      if MinCoord(cells, axis) == IntMax {
        assert Coord(cells[0], axis) <= IntMax;
      }
    }
    forall axis: Axis ensures exists i :: 0 <= i < |cells| && MaxCoord(cells, axis) == Coord(cells[i], axis) {
      MaxCoordAttained(cells, axis);
      if MaxCoord(cells, axis) == IntMin {
        assert Coord(cells[0], axis) >= IntMin;
      }
    }
  }

  /** When the piece's span fits, the clamped position puts every cell on the board. */
  lemma FitInBounds(b: Bounds, cells: seq<Vec>, pos: Vec)
    requires SpanFits(b, cells)
    ensures forall i :: 0 <= i < |cells| ==> InBounds(b, Add(cells[i], FitPosition(b, cells, pos)))
  {
    var p := FitPosition(b, cells, pos);
    forall i | 0 <= i < |cells| ensures InBounds(b, Add(cells[i], p)) {
      assert MinCoord(cells, X) <= Coord(cells[i], X) <= MaxCoord(cells, X);
      assert MinCoord(cells, Y) <= Coord(cells[i], Y) <= MaxCoord(cells, Y);
    }
  }

  /** When the span fits, clamping a clamped position changes nothing. */
  lemma FitIdempotent(b: Bounds, cells: seq<Vec>, pos: Vec)
    requires SpanFits(b, cells)
    ensures FitPosition(b, cells, FitPosition(b, cells, pos)) == FitPosition(b, cells, pos)
  {
  }

  /** A piece that can be placed on the board somewhere has a span that fits. */
  lemma PlaceableFits(b: Bounds, cells: seq<Vec>, q: Vec)
    requires |cells| > 0 && Int32Cells(cells)
    requires forall i :: 0 <= i < |cells| ==> InBounds(b, Add(cells[i], q))
    ensures SpanFits(b, cells)
  {
    ExtremesAttained(cells);
    var ix :| 0 <= ix < |cells| && MinCoord(cells, X) == cells[ix].x;
    var jx :| 0 <= jx < |cells| && MaxCoord(cells, X) == cells[jx].x;
    var iy :| 0 <= iy < |cells| && MinCoord(cells, Y) == cells[iy].y;
    var jy :| 0 <= jy < |cells| && MaxCoord(cells, Y) == cells[jy].y;
    assert InBounds(b, Add(cells[ix], q)) && InBounds(b, Add(cells[jx], q));
    assert InBounds(b, Add(cells[iy], q)) && InBounds(b, Add(cells[jy], q));
  }

  /** A position at which every cell is already on the board is left where it is. */
  lemma FitKeepsPlacedPiece(b: Bounds, cells: seq<Vec>, pos: Vec)
    requires |cells| > 0 && Int32Cells(cells)
    requires forall i :: 0 <= i < |cells| ==> InBounds(b, Add(cells[i], pos))
    ensures FitPosition(b, cells, pos) == pos
  {
    PlaceableFits(b, cells, pos);
    ExtremesAttained(cells);
    var ix :| 0 <= ix < |cells| && MinCoord(cells, X) == cells[ix].x;
    var jx :| 0 <= jx < |cells| && MaxCoord(cells, X) == cells[jx].x;
    var iy :| 0 <= iy < |cells| && MinCoord(cells, Y) == cells[iy].y;
    var jy :| 0 <= jy < |cells| && MaxCoord(cells, Y) == cells[jy].y;
    assert InBounds(b, Add(cells[ix], pos)) && InBounds(b, Add(cells[jx], pos));
    assert InBounds(b, Add(cells[iy], pos)) && InBounds(b, Add(cells[jy], pos));
  }

  /** On an empty board a piece whose span fits always spawns at a valid position. */
  lemma FitValidOnEmptyBoard(b: Bounds, cells: seq<Vec>, start: Vec)
    requires SpanFits(b, cells)
    ensures PositionValid(b, map[], cells, FitPosition(b, cells, start))
  {
    FitInBounds(b, cells, start);
  }
}
