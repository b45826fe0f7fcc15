/** The shared vocabulary of the engine (src/type.ts). */
module Types {

  /** A board position. The source labels the pair `[x, y]` but every
      producer and consumer treats it as `[row, column]`, row 0 on top. */
  datatype Cell = Cell(row: int, col: int)

  /** A piece's local shape; a non-zero entry is a filled cell. */
  type Matrix = seq<seq<int>>

  /** A board of cell codes: 0 is empty, a code above `LockedAbove` is a
      locked cell. */
  type Grid = seq<seq<int>>

  /** The threshold of the collision and full-row tests (`> 20`). */
  const LockedAbove: int := 20

  /** The seven playable tetromino kinds. */
  datatype Kind = I | J | L | O | S | T | Z

  /** The control recorded in a piece's control log. The source's type omits
      'Down' although moveDown records it. */
  datatype Control = Left | Right | Rotate | Down

  datatype ControlRecord = ControlRecord(control: Control, kind: Kind)

  /** One saved (shape, anchor) state of a piece. */
  datatype Snapshot = Snapshot(matrix: Matrix, x: int, y: int)

  /** Which border an out-of-range test looks at. */
  datatype CollideType = LeftBorder | RightBorder | BottomBorder

  /** The anchor coordinate moveAxisByNumber adjusts. */
  datatype Axis = XAxis | YAxis
}
