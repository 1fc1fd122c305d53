// The piece catalogue's value types (Assets/Scripts/TetronimoData.cs).

module Tetronimos {

  /** The piece kinds; F is the game's custom piece. */
  datatype Kind = I | O | T | J | L | S | Z | F

  /** An integer cell coordinate or offset (Unity's Vector2Int). */
  datatype Vec = Vec(x: int, y: int)

  function Add(a: Vec, b: Vec): Vec
  {
    Vec(a.x + b.x, a.y + b.y)
  }

  const Zero := Vec(0, 0)
  const Down := Vec(0, -1)
  const LeftStep := Vec(-1, 0)
  const RightStep := Vec(1, 0)

  /** A display tile; the model only compares tiles for identity. */
  datatype Tile = Tile(asset: nat)

  /** One catalogue entry: a kind, its cell offsets and its tile. */
  datatype TetronimoData = TetronimoData(kind: Kind, cells: seq<Vec>, tile: Tile)
}
