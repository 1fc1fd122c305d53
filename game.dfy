// The board and the active piece (Assets/Scripts/Board.cs, Assets/Scripts/Piece.cs). The two
// classes refer to each other, so they share this module.

module Game {
  import opened Tetronimos
  import opened Grid
  import opened Compaction
  import opened Rotation
  import opened Spawn
  import opened Manager

  /** The index of the first catalogue entry of the given kind, or the catalogue's length when
      there is none (the search in `Piece.Initialize`). */
  function FirstIndexOf(catalogue: seq<TetronimoData>, kind: Kind): (r: nat)
    ensures r <= |catalogue|
    ensures r < |catalogue| ==> catalogue[r].kind == kind
    ensures forall j :: 0 <= j < r ==> catalogue[j].kind != kind
  {
    if |catalogue| == 0 then 0
    else if catalogue[0].kind == kind then 0
    else 1 + FirstIndexOf(catalogue[1..], kind)
  }

  /** The points `CheckBoard` adds for a lock that cleared `count` rows: the table's points, plus a
      200-point bonus when the custom F piece clears two rows or more. */
  function LockScore(placed: Kind, count: int): (r: int)
    ensures r >= TetrisManager.CalculateScore(count) >= 0
    ensures r > TetrisManager.CalculateScore(count) <==> placed == F && count >= 2
    ensures r != TetrisManager.CalculateScore(count) ==> r == TetrisManager.CalculateScore(count) + 200
  {
    var score := TetrisManager.CalculateScore(count);
    if placed == F && count >= 2 then score + 200 else score
  }

  /** The keys one frame of `Piece.Update` reacts to. */
  datatype Commands = Commands(
    moveLeft: bool,    // A
    moveRight: bool,   // D
    softDrop: bool,    // S
    hardDrop: bool,    // Space
    rotateLeft: bool,  // LeftArrow
    rotateRight: bool) // RightArrow

  /** The sideways step of one update: A wins over D, so at most one of the two is taken. */
  function Horizontal(cmd: Commands): (r: Vec)
    ensures r == LeftStep <==> cmd.moveLeft
    ensures r == RightStep <==> !cmd.moveLeft && cmd.moveRight
    ensures r == Zero <==> !cmd.moveLeft && !cmd.moveRight
  {
    if cmd.moveLeft then LeftStep else if cmd.moveRight then RightStep else Zero
  }

  function Vertical(cmd: Commands): (r: Vec)
    ensures r == Down <==> cmd.softDrop
    ensures r == Zero <==> !cmd.softDrop
  {
    if cmd.softDrop then Down else Zero
  }

  /** The rotation of one update: LeftArrow (+1) wins over RightArrow (-1). */
  function Turn(cmd: Commands): (r: int)
    ensures r == 1 <==> cmd.rotateLeft
    ensures r == -1 <==> !cmd.rotateLeft && cmd.rotateRight
    ensures r == 0 <==> !cmd.rotateLeft && !cmd.rotateRight
  {
    if cmd.rotateLeft then 1 else if cmd.rotateRight then -1 else 0
  }

  /** Where `Move(t)` leaves a piece at `pos`: moved when the new placement is valid. */
  function MoveResult(b: Bounds, m: Tilemap, cells: seq<Vec>, pos: Vec, t: Vec): Vec
  {
    if PositionValid(b, m, cells, Add(pos, t)) then Add(pos, t) else pos
  }

  /** Where the sideways step and then the soft-drop step of one update leave a piece at `pos`. */
  function Steered(b: Bounds, m: Tilemap, cells: seq<Vec>, pos: Vec, cmd: Commands): Vec
  {
    MoveResult(b, m, cells, MoveResult(b, m, cells, pos, Horizontal(cmd)), Vertical(cmd))
  }

  /** `final` is where moving down from `start` one row at a time stops: same column, every row
      passed through is a valid placement, and one more row down is not. */
  ghost predicate DroppedTo(b: Bounds, m: Tilemap, cells: seq<Vec>, start: Vec, final: Vec)
  {
    final.x == start.x && final.y <= start.y &&
    (forall y :: final.y <= y < start.y ==> PositionValid(b, m, cells, Vec(start.x, y))) &&
    !PositionValid(b, m, cells, Add(final, Down))
  }

  /** There is only one place a hard drop can stop. */
  lemma DroppedToUnique(b: Bounds, m: Tilemap, cells: seq<Vec>, start: Vec, f1: Vec, f2: Vec)
    requires DroppedTo(b, m, cells, start, f1) && DroppedTo(b, m, cells, start, f2)
    ensures f1 == f2
  {
    BelowIs(f1);
    BelowIs(f2);
    if f1.y < f2.y {
      assert false;
    } else if f2.y < f1.y {
      assert false;
    }
  }

  /** The cell one row below `p`. */
  lemma BelowIs(p: Vec)
    ensures Add(p, Down) == Vec(p.x, p.y - 1)
  {
  }

  class Board {
    const manager: TetrisManager
    const tetronimos: seq<TetronimoData>
    const boardSize: Vec
    const startPosition: Vec
    var tiles: Tilemap
    var activePiece: Piece?

    constructor (manager: TetrisManager, tetronimos: seq<TetronimoData>, boardSize: Vec, startPosition: Vec)
      ensures this.manager == manager && this.tetronimos == tetronimos
      ensures this.boardSize == boardSize && this.startPosition == startPosition
      ensures tiles == map[] && activePiece == null
      ensures Valid()
    {
      this.manager := manager;
      this.tetronimos := tetronimos;
      this.boardSize := boardSize;
      this.startPosition := startPosition;
      tiles := map[];
      activePiece := null;
    }

    /** `left`, `right`, `bottom` and `top`. */
    function BoardBounds(): Bounds
    {
      BoundsOf(boardSize)
    }

    /** The active piece, if any, belongs to this board. */
    ghost predicate Valid()
      reads this`activePiece, activePiece
    {
      activePiece != null ==> activePiece.board == this
    }

    /** `p` is the piece `SpawnPiece(choice)` creates when the board held `tiles0` and the
        game-over flag was `gameOver0`: the first entry of the chosen kind, a copy of its cells,
        at the clamped start position, with the game over iff that position is not valid. */
    ghost predicate Spawned(p: Piece, tiles0: Tilemap, gameOver0: bool, choice: nat)
      reads p, p.cells, manager
    {
      choice < |tetronimos| &&
      p.board == this && !p.freeze &&
      p.data == tetronimos[FirstIndexOf(tetronimos, tetronimos[choice].kind)] &&
      p.cells[..] == p.data.cells &&
      p.position == FitPosition(BoardBounds(), p.data.cells, startPosition) &&
      manager.gameOver == (gameOver0 || !PositionValid(BoardBounds(), tiles0, p.data.cells, p.position))
    }

    /** `Start`: spawn the first piece. */
    method Start(choice: nat)
      requires choice < |tetronimos|
      modifies this`tiles, this`activePiece, manager
      ensures activePiece != null && fresh(activePiece) && fresh(activePiece.cells) && Valid()
      ensures Spawned(activePiece, old(tiles), old(manager.gameOver), choice)
      ensures tiles == Painted(old(tiles), Footprint(activePiece.cells[..], activePiece.position), activePiece.data.tile)
      ensures manager.score == old(manager.score) && manager.notifications == old(manager.notifications)
    {
      SpawnPiece(choice);
    }

    /** The gravity step of `Update` once the drop interval has elapsed: erase the active piece,
        try to move it one row down, paint it again, and if the move failed lock it, clear the
        full rows and spawn the next piece. Nothing happens once the game is over or with no
        active piece. */
    method DropTick(choice: nat)
      requires Valid() && choice < |tetronimos|
      modifies this, manager, activePiece
      ensures Valid()
      ensures var p := old(activePiece);
        p != null ==> p.data == old(p.data) && p.board == old(p.board) && p.cells == old(p.cells)
      ensures old(manager.gameOver) || old(activePiece) == null ==>
        tiles == old(tiles) && activePiece == old(activePiece) &&
        manager.score == old(manager.score) && manager.gameOver == old(manager.gameOver) &&
        manager.notifications == old(manager.notifications) &&
        (var p := old(activePiece); p != null ==> p.position == old(p.position) && p.freeze == old(p.freeze))
      ensures !old(manager.gameOver) && old(activePiece) != null ==>
        var p := old(activePiece);
        var b := BoardBounds();
        var erased := old(tiles) - Footprint(old(p.cells[..]), old(p.position));
        p.cells[..] == old(p.cells[..]) &&
        if PositionValid(b, erased, p.cells[..], Add(old(p.position), Down)) then
          p.position == Add(old(p.position), Down) && p.freeze == old(p.freeze) && activePiece == p &&
          tiles == Painted(erased, Footprint(p.cells[..], p.position), p.data.tile) &&
          manager.score == old(manager.score) && manager.gameOver == old(manager.gameOver) &&
          manager.notifications == old(manager.notifications)
        else
          var locked := Painted(erased, Footprint(p.cells[..], p.position), p.data.tile);
          var cleared := Compacted(b, locked);
          p.position == old(p.position) && p.freeze &&
          activePiece != null && fresh(activePiece) &&
          Spawned(activePiece, cleared, false, choice) &&
          tiles == Painted(cleared, Footprint(activePiece.cells[..], activePiece.position), activePiece.data.tile) &&
          manager.score == old(manager.score) + LockScore(p.data.kind, |FullRowsIn(b, locked, b.bottom, b.top)|) &&
          manager.notifications == old(manager.notifications) + 1
      ensures manager.score >= old(manager.score)
    {
      if manager.gameOver {
        return;
      }
      if activePiece == null {
        return;
      }
      var piece := activePiece;
      Clear(piece);
      ghost var erased := tiles;
      var moveResult := piece.Move(Down);
      Set(piece);
      ghost var locked := tiles;
      assert locked == Painted(erased, Footprint(piece.cells[..], piece.position), piece.data.tile);
      if !moveResult {
        piece.freeze := true;
        CheckBoard(piece.data.kind);
        assert tiles == Compacted(BoardBounds(), locked);
        SpawnPiece(choice);
      }
    }

    /** The largest y offset of the piece's cells (`int.MinValue` for no cells). */
    method GetMaxCellY(p: Piece) returns (maxY: int)
      ensures maxY == MaxCoord(p.cells[..], Y)
    {
      maxY := IntMin;
      for i := 0 to p.cells.Length
        invariant maxY == MaxCoord(p.cells[..i], Y)
      {
        assert p.cells[..i + 1][..i] == p.cells[..i];
        maxY := if maxY > p.cells[i].y then maxY else p.cells[i].y;
      }
      assert p.cells[..p.cells.Length] == p.cells[..];
    }

    /** The smallest y offset of the piece's cells (`int.MaxValue` for no cells). */
    method GetMinCellY(p: Piece) returns (minY: int)
      ensures minY == MinCoord(p.cells[..], Y)
    {
      minY := IntMax;
      for i := 0 to p.cells.Length
        invariant minY == MinCoord(p.cells[..i], Y)
      {
        assert p.cells[..i + 1][..i] == p.cells[..i];
        minY := if minY < p.cells[i].y then minY else p.cells[i].y;
      }
      assert p.cells[..p.cells.Length] == p.cells[..];
    }

    /** The smallest x offset of the piece's cells (`int.MaxValue` for no cells). */
    method GetMinCellX(p: Piece) returns (minX: int)
      ensures minX == MinCoord(p.cells[..], X)
    {
      minX := IntMax;
      for i := 0 to p.cells.Length
        invariant minX == MinCoord(p.cells[..i], X)
      {
        assert p.cells[..i + 1][..i] == p.cells[..i];
        minX := if minX < p.cells[i].x then minX else p.cells[i].x;
      }
      assert p.cells[..p.cells.Length] == p.cells[..];
    }

    /** The largest x offset of the piece's cells (`int.MinValue` for no cells). */
    method GetMaxCellX(p: Piece) returns (maxX: int)
      ensures maxX == MaxCoord(p.cells[..], X)
    {
      maxX := IntMin;
      for i := 0 to p.cells.Length
        invariant maxX == MaxCoord(p.cells[..i], X)
      {
        assert p.cells[..i + 1][..i] == p.cells[..i];
        maxX := if maxX > p.cells[i].x then maxX else p.cells[i].x;
      }
      assert p.cells[..p.cells.Length] == p.cells[..];
    }

    /** Clamp the piece's position so that its extreme cells lie on the board. */
    method FitSpawnInsideBoard(p: Piece)
      modifies p`position
      ensures p.position == FitPosition(BoardBounds(), p.cells[..], old(p.position))
    {
      var b := BoardBounds();
      var minX := GetMinCellX(p);
      var maxX := GetMaxCellX(p);
      var minY := GetMinCellY(p);
      var maxY := GetMaxCellY(p);

      var minAllowedX := b.left - minX;
      var maxAllowedX := (b.right - 1) - maxX;
      var minAllowedY := b.bottom - minY;
      var maxAllowedY := (b.top - 1) - maxY;

      var clampedX := Clamp(p.position.x, minAllowedX, maxAllowedX);
      var clampedY := Clamp(p.position.y, minAllowedY, maxAllowedY);

      p.position := Vec(clampedX, clampedY);
    }

    /** Create the next piece from catalogue entry `choice`, clamp it onto the board, flag the
        game over if it does not fit there, and paint it. */
    method SpawnPiece(choice: nat)
      requires choice < |tetronimos|
      modifies this`tiles, this`activePiece, manager
      ensures activePiece != null && fresh(activePiece) && fresh(activePiece.cells) && Valid()
      ensures Spawned(activePiece, old(tiles), old(manager.gameOver), choice)
      ensures tiles == Painted(old(tiles), Footprint(activePiece.cells[..], activePiece.position), activePiece.data.tile)
      ensures manager.score == old(manager.score) && manager.notifications == old(manager.notifications)
    {
      var randomData := tetronimos[choice];
      var piece := new Piece.Initialize(this, randomData.kind);
      activePiece := piece;

      piece.position := startPosition;
      FitSpawnInsideBoard(piece);

      CheckEndGame();

      Set(piece);
    }

    /** Set the game-over flag when the active piece's placement is not valid. */
    method CheckEndGame()
      modifies manager
      ensures manager.gameOver == (old(manager.gameOver) ||
        (activePiece != null && !PositionValid(BoardBounds(), tiles, activePiece.cells[..], activePiece.position)))
      ensures manager.score == old(manager.score) && manager.notifications == old(manager.notifications)
    {
      if activePiece == null {
        return;
      }
      var valid := IsPositionValid(activePiece, activePiece.position);
      if !valid {
        manager.SetGameOver(true);
      }
    }

    /** Reset the board, but only while the game is not over. */
    method UpdateGameOver(choice: nat)
      requires choice < |tetronimos|
      modifies this`tiles, this`activePiece, manager
      ensures old(manager.gameOver) ==>
        tiles == old(tiles) && activePiece == old(activePiece) && manager.gameOver && manager.score == old(manager.score) &&
        manager.notifications == old(manager.notifications)
      ensures old(manager.gameOver) ==> Valid() == old(Valid())
      ensures !old(manager.gameOver) ==>
        activePiece != null && fresh(activePiece) && Valid() && Spawned(activePiece, map[], false, choice) &&
        tiles == Painted(map[], Footprint(activePiece.cells[..], activePiece.position), activePiece.data.tile) &&
        manager.score == old(manager.score) && manager.notifications == old(manager.notifications)
    {
      if !manager.gameOver {
        ResetBoard(choice);
      }
    }

    /** Drop the active piece, empty the tilemap and spawn afresh; a piece whose span fits the
        board then never ends the game. */
    method ResetBoard(choice: nat)
      requires choice < |tetronimos|
      modifies this`tiles, this`activePiece, manager
      ensures activePiece != null && fresh(activePiece) && fresh(activePiece.cells) && Valid()
      ensures Spawned(activePiece, map[], old(manager.gameOver), choice)
      ensures tiles == Painted(map[], Footprint(activePiece.cells[..], activePiece.position), activePiece.data.tile)
      ensures manager.score == old(manager.score) && manager.notifications == old(manager.notifications)
      ensures SpanFits(BoardBounds(), activePiece.cells[..]) ==> manager.gameOver == old(manager.gameOver)
    {
      activePiece := null;
      tiles := map[];
      SpawnPiece(choice);
      if SpanFits(BoardBounds(), activePiece.cells[..]) {
        FitValidOnEmptyBoard(BoardBounds(), activePiece.cells[..], startPosition);
      }
    }

    /** Paint the piece's tile on every cell it covers. */
    method Set(piece: Piece)
      modifies this`tiles
      ensures tiles == Painted(old(tiles), Footprint(piece.cells[..], piece.position), piece.data.tile)
    {
      for i := 0 to piece.cells.Length
        invariant forall q :: Get(tiles, q) ==
                               if q in Footprint(piece.cells[..i], piece.position) then Some(piece.data.tile) else Get(old(tiles), q)
      {
        var cellPosition := Add(piece.cells[i], piece.position);
        FootprintAppend(piece.cells[..], i, piece.position);
        tiles := SetTile(tiles, cellPosition, Some(piece.data.tile));
      }
      FootprintAll(piece.cells[..], piece.position);
      MapsEqual(tiles, Painted(old(tiles), Footprint(piece.cells[..], piece.position), piece.data.tile));
    }

    /** Erase every cell the piece covers. */
    method Clear(piece: Piece)
      modifies this`tiles
      ensures tiles == old(tiles) - Footprint(piece.cells[..], piece.position)
    {
      for i := 0 to piece.cells.Length
        invariant forall q :: Get(tiles, q) ==
                               if q in Footprint(piece.cells[..i], piece.position) then None else Get(old(tiles), q)
      {
        var cellPosition := Add(piece.cells[i], piece.position);
        FootprintAppend(piece.cells[..], i, piece.position);
        tiles := SetTile(tiles, cellPosition, None);
      }
      FootprintAll(piece.cells[..], piece.position);
      MapsEqual(tiles, old(tiles) - Footprint(piece.cells[..], piece.position));
    }

    /** Whether `piece` placed at `position` lies on the board and covers no tile. */
    method IsPositionValid(piece: Piece, position: Vec) returns (valid: bool)
      ensures valid == PositionValid(BoardBounds(), tiles, piece.cells[..], position)
    {
      var b := BoardBounds();
      for i := 0 to piece.cells.Length
        invariant forall j :: 0 <= j < i ==>
          InBounds(b, Add(piece.cells[j], position)) && Add(piece.cells[j], position) !in tiles
      {
        var cellPosition := Add(piece.cells[i], position);
        if cellPosition.x < b.left || cellPosition.x >= b.right ||
           cellPosition.y < b.bottom || cellPosition.y >= b.top {
          return false;
        }
        if cellPosition in tiles {
          return false;
        }
      }
      return true;
    }

    /** Whether every column of row `y` holds a tile. */
    method IsLineFull(y: int) returns (full: bool)
      ensures full == LineFull(BoardBounds(), tiles, y)
    {
      var b := BoardBounds();
      var x := b.left;
      while x < b.right
        invariant b.left <= x && (x <= b.right || x == b.left)
        invariant forall x' :: b.left <= x' < x ==> Vec(x', y) in tiles
      {
        if Vec(x, y) !in tiles {
          return false;
        }
        x := x + 1;
      }
      return true;
    }

    /** Erase row `y` within the board's columns. */
    method DestroyLine(y: int)
      modifies this`tiles
      ensures forall q :: Get(tiles, q) ==
                          if q.y == y && BoardBounds().left <= q.x < BoardBounds().right then None else Get(old(tiles), q)
    {
      var b := BoardBounds();
      var x := b.left;
      while x < b.right
        invariant b.left <= x && (x <= b.right || x == b.left)
        invariant forall q :: Get(tiles, q) ==
                               if q.y == y && b.left <= q.x < x then None else Get(old(tiles), q)
      {
        tiles := SetTile(tiles, Vec(x, y), None);
        x := x + 1;
      }
    }

    /** Move every row above `clearedRow` one row down, within the board's columns. */
    method ShiftRowsDown(clearedRow: int)
      modifies this`tiles
      ensures forall q :: Get(tiles, q) == ShiftedAt(BoardBounds(), old(tiles), clearedRow, q)
    {
      var b := BoardBounds();
      var y := clearedRow + 1;
      while y < b.top
        invariant clearedRow + 1 <= y && (y <= b.top || y == clearedRow + 1)
        invariant forall q :: Get(tiles, q) == ShiftingAt(b, old(tiles), clearedRow, y, b.left, q)
      {
        var x := b.left;
        while x < b.right
          invariant b.left <= x && (x <= b.right || x == b.left)
          invariant forall q :: Get(tiles, q) == ShiftingAt(b, old(tiles), clearedRow, y, x, q)
        {
          ghost var cur := tiles;
          var cellPosition := Vec(x, y);
          var currentTile := Get(tiles, cellPosition);
          tiles := SetTile(tiles, cellPosition, None);
          cellPosition := Vec(x, y - 1);
          tiles := SetTile(tiles, cellPosition, currentTile);
          ShiftingCell(b, old(tiles), clearedRow, y, x, cur, tiles);
          x := x + 1;
        }
        ShiftingRow(b, old(tiles), clearedRow, y, x);
        y := y + 1;
      }
      ShiftingDone(b, old(tiles), clearedRow, y);
    }

    /** Destroy every full row, let the rows above each one fall, and score the lock of a piece
        of kind `placedType`. The board ends up as the reference clear `Compacted`. */
    method CheckBoard(placedType: Kind)
      modifies this`tiles, manager
      ensures tiles == Compacted(BoardBounds(), old(tiles))
      ensures manager.score == old(manager.score) +
        LockScore(placedType, |FullRowsIn(BoardBounds(), old(tiles), BoardBounds().bottom, BoardBounds().top)|)
      ensures manager.gameOver == old(manager.gameOver)
      ensures manager.notifications == old(manager.notifications) + 1
    {
      ghost var m := tiles;
      var destroyedLines := DestroyFullLines();
      CollapseLines(m, destroyedLines);

      var score := TetrisManager.CalculateScore(|destroyedLines|);
      if placedType == F && |destroyedLines| >= 2 {
        score := score + 200;
      }
      manager.ChangeScore(score);
    }

    /** The first loop of `CheckBoard`: erase every full row, bottom to top, and list them. */
    method DestroyFullLines() returns (destroyedLines: seq<int>)
      modifies this`tiles
      ensures destroyedLines == FullRowsIn(BoardBounds(), old(tiles), BoardBounds().bottom, BoardBounds().top)
      ensures forall q :: Get(tiles, q) == DestroyedAt(BoardBounds(), old(tiles), BoardBounds().top, q)
    {
      var b := BoardBounds();
      ghost var m := tiles;
      destroyedLines := [];

      var y := b.bottom;
      while y < b.top
        invariant b.bottom <= y && (y <= b.top || y == b.bottom)
        invariant destroyedLines == FullRowsIn(b, m, b.bottom, y)
        invariant forall q :: Get(tiles, q) == DestroyedAt(b, m, y, q)
      {
        DestroyRow(b, m, y, tiles);
        var full := IsLineFull(y);
        if full {
          ghost var cur := tiles;
          DestroyLine(y);
          DestroyFullRow(b, m, y, cur, tiles);
          destroyedLines := destroyedLines + [y];
        }
        y := y + 1;
      }
      DestroyDone(b, m, y);
    }

    /** The second loop of `CheckBoard`: for the k-th destroyed row (counting from 0), which
        the earlier shifts have moved down k rows, shift the rows above it down. `m` is the
        board before the destroy loop. */
    method CollapseLines(ghost m: Tilemap, destroyedLines: seq<int>)
      requires destroyedLines == FullRowsIn(BoardBounds(), m, BoardBounds().bottom, BoardBounds().top)
      requires forall q :: Get(tiles, q) == DestroyedAt(BoardBounds(), m, BoardBounds().top, q)
      modifies this`tiles
      ensures tiles == Compacted(BoardBounds(), m)
    {
      var b := BoardBounds();
      ShiftStart(b, m);
      var rowsShiftedDown := 0;
      while rowsShiftedDown < |destroyedLines|
        invariant 0 <= rowsShiftedDown <= |destroyedLines|
        invariant forall q :: Get(tiles, q) == ShiftProgressAt(b, m, destroyedLines, rowsShiftedDown, q)
      {
        var y := destroyedLines[rowsShiftedDown];
        ghost var before := tiles;
        ShiftRowsDown(y - rowsShiftedDown);
        ShiftStep(b, m, rowsShiftedDown, before, tiles);
        rowsShiftedDown := rowsShiftedDown + 1;
      }
      ShiftDone(b, m);
      MapsEqual(tiles, Compacted(b, m));
    }
  }

  class Piece {
    var data: TetronimoData
    var board: Board
    var cells: array<Vec>
    var position: Vec
    var freeze: bool

    /** Take the first catalogue entry of kind `tetronimo`, copy its cells into a new array and
        start at the board's start position. */
    constructor Initialize(board: Board, tetronimo: Kind)
      requires exists i :: 0 <= i < |board.tetronimos| && board.tetronimos[i].kind == tetronimo
      ensures this.board == board && !freeze
      ensures data == board.tetronimos[FirstIndexOf(board.tetronimos, tetronimo)] && data.kind == tetronimo
      ensures fresh(cells) && cells[..] == data.cells
      ensures position == board.startPosition
    {
      var catalogue := board.tetronimos;
      var chosen := TetronimoData(I, [], Tile(0));
      ghost var index := |catalogue|;
      for i := 0 to |catalogue|
        invariant index == |catalogue|
        invariant forall j :: 0 <= j < i ==> catalogue[j].kind != tetronimo
      {
        if catalogue[i].kind == tetronimo {
          chosen := catalogue[i];
          index := i;
          break;
        }
      }
      assert index < |catalogue| && chosen == catalogue[index];
      assert index == FirstIndexOf(catalogue, tetronimo);

      var copy := new Vec[|chosen.cells|];
      for i := 0 to |chosen.cells|
        invariant copy[..i] == chosen.cells[..i]
      {
        copy[i] := chosen.cells[i];
      }

      this.board := board;
      data := chosen;
      cells := copy;
      position := board.startPosition;
      freeze := false;
    }

    /** One frame of input: nothing while frozen; otherwise erase the piece, step sideways (A
        before D), step down (S), hard-drop (Space), rotate (LeftArrow before RightArrow), and
        paint the piece again. */
    method Update(cmd: Commands, choice: nat)
      requires (cmd.hardDrop ==> cells.Length > 0) && choice < |board.tetronimos|
      modifies this, cells, board, board.manager
      ensures board == old(board) && data == old(data) && cells == old(cells)
      ensures board.manager.score == old(board.manager.score)
      ensures board.manager.notifications == old(board.manager.notifications)
      ensures old(freeze) ==> position == old(position) && cells[..] == old(cells[..]) && freeze
      ensures old(freeze) ==>
        board.tiles == old(board.tiles) && board.activePiece == old(board.activePiece) &&
        board.manager.gameOver == old(board.manager.gameOver)
      ensures !old(freeze) ==> cells[..] == RotateAll(old(cells[..]), Turn(cmd))
      ensures !old(freeze) && !cmd.hardDrop ==>
        var erased := old(board.tiles) - Footprint(old(cells[..]), old(position));
        position == Steered(board.BoardBounds(), erased, old(cells[..]), old(position), cmd) && !freeze &&
        board.tiles == Painted(erased, Footprint(cells[..], position), data.tile) &&
        board.activePiece == old(board.activePiece) && board.manager.gameOver == old(board.manager.gameOver)
      ensures !old(freeze) && cmd.hardDrop ==>
        var erased := old(board.tiles) - Footprint(old(cells[..]), old(position));
        var lowered := Steered(board.BoardBounds(), erased, old(cells[..]), old(position), cmd);
        DroppedTo(board.BoardBounds(), erased, old(cells[..]), lowered, position) && freeze &&
        board.activePiece != null && fresh(board.activePiece) &&
        board.Spawned(board.activePiece, erased, old(board.manager.gameOver), choice) &&
        board.tiles == Painted(
          Painted(erased, Footprint(board.activePiece.cells[..], board.activePiece.position), board.activePiece.data.tile),
          Footprint(cells[..], position), data.tile)
    {
      if freeze {
        return;
      }
      board.Clear(this);
      ghost var erased := board.tiles;
      ghost var shape := cells[..];
      Steer(cmd);
      ghost var lowered := position;

      if cmd.hardDrop {
        HardDrop(choice);
        assert DroppedTo(board.BoardBounds(), erased, shape, lowered, position);
        assert board.Spawned(board.activePiece, erased, old(board.manager.gameOver), choice);
      }
      ghost var next := board.activePiece;

      if cmd.rotateLeft {
        Rotate(1);
      } else if cmd.rotateRight {
        Rotate(-1);
      } else {
        RotateAllFull(cells[..], 0);
      }
      assert cmd.hardDrop ==> next != null && board.Spawned(next, erased, old(board.manager.gameOver), choice);

      board.Set(this);
    }

    /** The sideways step (A before D) and the soft-drop step (S) of `Update`. */
    method Steer(cmd: Commands)
      modifies this`position
      ensures position == Steered(board.BoardBounds(), board.tiles, cells[..], old(position), cmd)
    {
      if cmd.moveLeft {
        var _ := Move(LeftStep);
      } else if cmd.moveRight {
        var _ := Move(RightStep);
      }

      if cmd.softDrop {
        var _ := Move(Down);
      }
    }

    /** Turn every cell offset in place; the position is kept and validity is not checked. */
    method Rotate(direction: int)
      modifies cells
      ensures cells[..] == RotateAll(old(cells[..]), direction)
    {
      for i := 0 to cells.Length
        invariant cells[..i] == RotateAll(old(cells[..]), direction)[..i]
        invariant cells[i..] == old(cells[..])[i..]
      {
        cells[i] := RotateCell(cells[i], direction);
      }
    }

    /** Move down until blocked, freeze, and spawn the next piece; the full rows are not
        cleared here. */
    method HardDrop(choice: nat)
      requires cells.Length > 0 && choice < |board.tetronimos|
      modifies this`position, this`freeze, board`tiles, board`activePiece, board.manager
      ensures DroppedTo(board.BoardBounds(), old(board.tiles), cells[..], old(position), position)
      ensures freeze
      ensures board.activePiece != null && fresh(board.activePiece) && fresh(board.activePiece.cells)
      ensures board.Spawned(board.activePiece, old(board.tiles), old(board.manager.gameOver), choice)
      ensures board.tiles == Painted(old(board.tiles),
        Footprint(board.activePiece.cells[..], board.activePiece.position), board.activePiece.data.tile)
      ensures board.manager.score == old(board.manager.score)
      ensures board.manager.notifications == old(board.manager.notifications)
    {
      var b := board.BoardBounds();
      ghost var start := position;
      var moved := Move(Down);
      while moved
        modifies this`position
        invariant position.x == start.x && position.y <= start.y
        invariant board.tiles == old(board.tiles)
        invariant forall y :: position.y <= y < start.y ==> PositionValid(b, board.tiles, cells[..], Vec(start.x, y))
        invariant moved ==> position.y < start.y && PositionValid(b, board.tiles, cells[..], position)
        invariant !moved ==> !PositionValid(b, board.tiles, cells[..], Add(position, Down))
        decreases if moved then position.y + cells[0].y - b.bottom + 1 else 0
      {
        moved := Move(Down);
      }

      freeze := true;
      board.SpawnPiece(choice);
    }

    /** Shift the piece by `translation` when the new placement is valid; report whether it was. */
    method Move(translation: Vec) returns (isValid: bool)
      modifies this`position
      ensures isValid == PositionValid(board.BoardBounds(), board.tiles, cells[..], Add(old(position), translation))
      ensures position == if isValid then Add(old(position), translation) else old(position)
    {
      var newPosition := position;
      newPosition := Add(newPosition, translation);

      isValid := board.IsPositionValid(this, newPosition);
      if isValid {
        position := newPosition;
      }
    }
  }
}
