// The quarter-turn that Piece.Rotate applies to every cell offset (Assets/Scripts/Piece.cs:80-93).

module Rotation {
  import opened Tetronimos

  /** `c` turned by 90 * direction degrees counter-clockwise about the origin: the exact
      integer point that rounding `Quaternion.Euler(0, 0, 90 * direction) * c` gives. */
  function RotateCell(c: Vec, direction: int): (r: Vec)
    ensures r.x * r.x + r.y * r.y == c.x * c.x + c.y * c.y
    ensures direction % 4 == 0 ==> r == c
    ensures direction % 4 == 1 ==>
      r.x * c.x + r.y * c.y == 0 && c.x * r.y - c.y * r.x == c.x * c.x + c.y * c.y
    ensures direction % 4 == 2 ==> r == Vec(-c.x, -c.y)
    ensures direction % 4 == 3 ==>
      r.x * c.x + r.y * c.y == 0 && c.x * r.y - c.y * r.x == -(c.x * c.x + c.y * c.y)
  {
    var turns := direction % 4;
    if turns == 0 then c
    else if turns == 1 then Vec(-c.y, c.x)
    else if turns == 2 then Vec(-c.x, -c.y)
    else Vec(c.y, -c.x)
  }

  /** Every offset of `cells` turned, keeping the length and the index order. */
  function RotateAll(cells: seq<Vec>, direction: int): (r: seq<Vec>)
    ensures |r| == |cells|
    ensures forall i :: 0 <= i < |cells| ==> r[i] == RotateCell(cells[i], direction)
  {
    seq(|cells|, i requires 0 <= i < |cells| => RotateCell(cells[i], direction))
  }

  /** Two turns compose into one turn by the sum of their directions. */
  lemma RotateCellCompose(c: Vec, a: int, b: int)
    ensures RotateCell(RotateCell(c, a), b) == RotateCell(c, a + b)
  {
    assert (a + b) % 4 == (a % 4 + b % 4) % 4;
  }

  lemma RotateAllCompose(cells: seq<Vec>, a: int, b: int)
    ensures RotateAll(RotateAll(cells, a), b) == RotateAll(cells, a + b)
  {
    forall i | 0 <= i < |cells| ensures RotateAll(RotateAll(cells, a), b)[i] == RotateAll(cells, a + b)[i] {
      RotateCellCompose(cells[i], a, b);
    }
  }

  /** A turn by a multiple of four quarter-turns changes nothing. */
  lemma RotateAllFull(cells: seq<Vec>, direction: int)
    requires direction % 4 == 0
    ensures RotateAll(cells, direction) == cells
  {
    assert forall i :: 0 <= i < |cells| ==> RotateAll(cells, direction)[i] == cells[i];
  }

  /** `Rotate(1)` followed by `Rotate(-1)` restores the cells. */
  lemma RotateUndo(cells: seq<Vec>)
    ensures RotateAll(RotateAll(cells, 1), -1) == cells
  {
    RotateAllCompose(cells, 1, -1);
    RotateAllFull(cells, 0);
  }

  /** Four calls of `Rotate(1)` restore the cells. */
  lemma RotateFourTimes(cells: seq<Vec>)
    ensures RotateAll(RotateAll(RotateAll(RotateAll(cells, 1), 1), 1), 1) == cells
  {
    RotateAllCompose(cells, 1, 1);
    RotateAllCompose(cells, 2, 1);
    RotateAllCompose(cells, 3, 1);
    RotateAllFull(cells, 4);
  }
}
