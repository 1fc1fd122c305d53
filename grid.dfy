// The tilemap that Board.cs reads and writes, and the read-only scans over it
// (Assets/Scripts/Board.cs): bounds, placement validity, full rows, the cells a
// piece covers, and the effect of shifting rows down.

module Grid {
  import opened Tetronimos

  datatype Option<T> = None | Some(value: T)

  /** The tilemap: a cell holds a tile iff it is a key. Unity's map is unbounded. */
  type Tilemap = map<Vec, Tile>

  /** What `GetTile` returns: the tile at `p`, or nothing. */
  function Get(m: Tilemap, p: Vec): Option<Tile>
  {
    if p in m then Some(m[p]) else None
  }

  /** `SetTile(p, t)`: a `None` tile erases the cell. */
  function SetTile(m: Tilemap, p: Vec, t: Option<Tile>): (r: Tilemap)
    ensures forall q :: Get(r, q) == if q == p then t else Get(m, q)
  {
    match t
    case Some(tile) => m[p := tile]
    case None => m - {p}
  }

  /** C#'s `a / 2` on ints, which truncates toward zero. */
  function HalfToZero(a: int): int
  {
    if a >= 0 then a / 2 else -((-a) / 2)
  }

  /** The board rectangle [left, right) x [bottom, top). */
  datatype Bounds = Bounds(left: int, right: int, bottom: int, top: int)

  /** The bounds `boardSize` gives: `left = -size.x / 2`, `right = size.x / 2`, and likewise in y.
      With an odd size the board is one column (row) narrower than the size. */
  function BoundsOf(size: Vec): (b: Bounds)
    ensures b.left == -b.right && b.bottom == -b.top
    ensures size.x >= 0 ==> b.right - b.left == size.x - size.x % 2
    ensures size.y >= 0 ==> b.top - b.bottom == size.y - size.y % 2
    ensures size.x < 0 ==> b.right <= b.left
    ensures size.y < 0 ==> b.top <= b.bottom
  {
    Bounds(HalfToZero(-size.x), HalfToZero(size.x), HalfToZero(-size.y), HalfToZero(size.y))
  }

  predicate InBounds(b: Bounds, p: Vec)
  {
    b.left <= p.x < b.right && b.bottom <= p.y < b.top
  }

  /** The board cells covered by `cells` placed at `pos`. */
  function Footprint(cells: seq<Vec>, pos: Vec): set<Vec>
  {
    set i | 0 <= i < |cells| :: Add(cells[i], pos)
  }

  /** `m` with every cell of `fp` holding tile `t`. */
  function Painted(m: Tilemap, fp: set<Vec>, t: Tile): (r: Tilemap)
    ensures forall q :: Get(r, q) == if q in fp then Some(t) else Get(m, q)
  {
    m + map q | q in fp :: t
  }

  /** A placement is valid iff every cell is on the board and holds no tile. */
  predicate PositionValid(b: Bounds, m: Tilemap, cells: seq<Vec>, pos: Vec)
  {
    forall i :: 0 <= i < |cells| ==> InBounds(b, Add(cells[i], pos)) && Add(cells[i], pos) !in m
  }

  /** Row `y` is full iff every column in [left, right) holds a tile. */
  predicate LineFull(b: Bounds, m: Tilemap, y: int)
  {
    forall x :: b.left <= x < b.right ==> Vec(x, y) in m
  }

  /** The tile at `p` after `ShiftRowsDown(r)` on `m`: each row y with r < y < top moves to
      y - 1 within the columns [left, right), the row top - 1 is emptied when r < top - 1, and nothing
      else changes. */
  function ShiftedAt(b: Bounds, m: Tilemap, r: int, p: Vec): Option<Tile>
  {
    if b.left <= p.x < b.right && r <= p.y < b.top - 1 then Get(m, Vec(p.x, p.y + 1))
    else if b.left <= p.x < b.right && p.y == b.top - 1 && r < b.top - 1 then None
    else Get(m, p)
  }

  /** The tile at `p` part-way through `ShiftRowsDown(r)` on `m`: the rows r + 1 .. y - 1 have
      moved down, and in row y the columns [left, x) have. */
  function ShiftingAt(b: Bounds, m: Tilemap, r: int, y: int, x: int, p: Vec): Option<Tile>
  {
    if !(b.left <= p.x < b.right) || p.y < r || p.y > y then Get(m, p)
    else if p.y < y - 1 then Get(m, Vec(p.x, p.y + 1))
    else if p.y == y - 1 then
      (if p.x < x then Get(m, Vec(p.x, p.y + 1)) else if y - 1 > r then None else Get(m, p))
    else if p.x < x then None
    else Get(m, p)
  }

  /** One step of the column loop: the tile at (x, y) moves to (x, y - 1). */
  lemma ShiftingCell(b: Bounds, m: Tilemap, r: int, y: int, x: int, cur: Tilemap, next: Tilemap)
    requires r + 1 <= y && b.left <= x < b.right
    requires forall q :: Get(cur, q) == ShiftingAt(b, m, r, y, x, q)
    requires forall q :: Get(next, q) ==
                         if q == Vec(x, y - 1) then Get(cur, Vec(x, y)) else if q == Vec(x, y) then None else Get(cur, q)
    ensures forall q :: Get(next, q) == ShiftingAt(b, m, r, y, x + 1, q)
  {
    assert Get(cur, Vec(x, y)) == Get(m, Vec(x, y));
    forall q ensures Get(next, q) == ShiftingAt(b, m, r, y, x + 1, q) {
      assert Get(cur, q) == ShiftingAt(b, m, r, y, x, q);
    }
  }

  /** When the column loop ends, row y is done and the next row starts. */
  lemma ShiftingRow(b: Bounds, m: Tilemap, r: int, y: int, x: int)
    requires r + 1 <= y && x == if b.left <= b.right then b.right else b.left
    ensures forall p :: ShiftingAt(b, m, r, y, x, p) == ShiftingAt(b, m, r, y + 1, b.left, p)
  {
  }

  /** Once the row loop of `ShiftRowsDown(r)` has ended, the partial shift is the whole shift. */
  lemma ShiftingDone(b: Bounds, m: Tilemap, r: int, y: int)
    requires y == if r + 1 <= b.top then b.top else r + 1
    ensures forall p :: ShiftingAt(b, m, r, y, b.left, p) == ShiftedAt(b, m, r, p)
  {
  }

  /** Covering one more cell adds that cell's square to the footprint. */
  lemma FootprintAppend(cells: seq<Vec>, i: nat, pos: Vec)
    requires i < |cells|
    ensures Footprint(cells[..i + 1], pos) == Footprint(cells[..i], pos) + {Add(cells[i], pos)}
  {
    var a, c := cells[..i + 1], cells[..i];
    forall q ensures q in Footprint(a, pos) <==> q in Footprint(c, pos) + {Add(cells[i], pos)} {
      if q in Footprint(a, pos) {
        var j :| 0 <= j < |a| && q == Add(a[j], pos);
        if j < i { assert q == Add(c[j], pos); }
      }
      if q in Footprint(c, pos) {
        var j :| 0 <= j < |c| && q == Add(c[j], pos);
        assert q == Add(a[j], pos);
      }
      if q == Add(cells[i], pos) { assert q == Add(a[i], pos); }
    }
  }

  /** A piece's whole array covers its footprint. */
  lemma FootprintAll(cells: seq<Vec>, pos: Vec)
    ensures Footprint(cells[..|cells|], pos) == Footprint(cells, pos)
  {
    assert cells[..|cells|] == cells;
  }

  lemma MapsEqual(m1: Tilemap, m2: Tilemap)
    requires forall q :: Get(m1, q) == Get(m2, q)
    ensures m1 == m2
  {
    assert m1.Keys == m2.Keys by {
      forall q ensures q in m1 <==> q in m2 {
        assert Get(m1, q) == Get(m2, q);
      }
    }
    forall q | q in m1 ensures m1[q] == m2[q] {
      assert Get(m1, q) == Get(m2, q);
    }
  }
}
