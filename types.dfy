/** The game's value types. The block enumeration and the shape catalogue are
    defined outside the hooks; this model does not know their contents, so
    `Block` is an abstract type and the catalogue is a parameter. */
module Types {

  datatype Option<T> = None | Some(value: T)

  /** One of the block identifiers of the catalogue (its members are not modelled). */
  type Block(==, !new)

  /** A board cell: empty, or locked by a block of some kind. */
  datatype Cell = Empty | Filled(block: Block)

  /** The timer cadences; `None` in an `Option<TickSpeed>` stands for the stopped timer. */
  datatype TickSpeed = Normal | Sliding | Fast

  /** An occupancy matrix, row by row. */
  type Shape = seq<seq<bool>>

  /** A board, row 0 at the top. */
  type Grid = seq<seq<Cell>>

  /** The shape catalogue: the canonical shape of each block. */
  type Catalog = Block -> Shape

  const BoardWidth: nat := 10
  const BoardHeight: nat := 20
  const InitialColumn: int := 3
  const InitialRow: nat := 0

  /** Every row has exactly `BoardWidth` cells. */
  predicate IsGrid(g: Grid) {
    forall i :: 0 <= i < |g| ==> |g[i]| == BoardWidth
  }

  /** An n-by-n matrix. */
  predicate IsSquare(shape: Shape) {
    forall i :: 0 <= i < |shape| ==> |shape[i]| == |shape|
  }
}
