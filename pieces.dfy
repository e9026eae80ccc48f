/** The piece catalogue: the seven tetromino matrices, indexed by piece
    type 1..7, and the column at which a new piece appears. */
module Pieces {
  import opened Grids
  import opened Playfield

  /** Side length of the square matrix of piece type `t`: the I piece is
      4 × 4, every other piece 3 × 3. */
  function Width(t: int): nat
  {
    if t == 1 then 4 else 3
  }

  /** The matrix of piece type `t`, as the catalogue is initialised:
      1 I, 2 J, 3 L, 4 O, 5 S, 6 T, 7 Z. A filled cell holds the type. */
  function Template(t: int): (r: Grid)
    requires 1 <= t <= 7
    ensures IsSquare(r, Width(t))
    ensures forall i, j :: 0 <= i < |r| && 0 <= j < |r[i]| ==> r[i][j] == 0 || r[i][j] == t
  {
    match t
    case 1 => [[0, 0, 0, 0], [1, 1, 1, 1], [0, 0, 0, 0], [0, 0, 0, 0]]
    case 2 => [[2, 0, 0], [2, 2, 2], [0, 0, 0]]
    case 3 => [[0, 0, 3], [3, 3, 3], [0, 0, 0]]
    case 4 => [[0, 4, 4], [0, 4, 4], [0, 0, 0]]
    case 5 => [[0, 5, 5], [5, 5, 0], [0, 0, 0]]
    case 6 => [[0, 6, 0], [6, 6, 6], [0, 0, 0]]
    case 7 => [[7, 7, 0], [0, 7, 7], [0, 0, 0]]
  }

  /** The catalogue as it is initialised: entry `k` is the template of
      piece type `k + 1`. */
  function Templates(): (r: seq<Grid>)
    ensures |r| == 7
    ensures forall k :: 0 <= k < 7 ==> IsSquare(r[k], Width(k + 1)) && r[k] == Template(k + 1)
  {
    seq(7, k requires 0 <= k < 7 => Template(k + 1))
  }

  /** Spawn column of a piece `width` cells wide on a board `columns` wide:
      the piece's matrix is centred, both halves rounded down. */
  function SpawnX(columns: nat, width: nat): int
  {
    columns / 2 - width / 2
  }

  /** On an empty board at least as tall and as wide as the piece, a piece
      placed at the spawn point (top row, centred) never collides, whatever
      its cells. */
  lemma {:induction false} SpawnFits(p: Grid, n: nat, rows: nat, columns: nat)
    requires IsSquare(p, n) && n <= rows && n <= columns
    ensures !CollidesAt(Zeros(rows, columns), p, SpawnX(columns, n), 0)
  {
    var x := SpawnX(columns, n);
    CollidesOnEmpty(p, x, 0, rows, columns);
    forall i, j | Covers(p, i, j)
      ensures 0 <= i < rows && 0 <= j + x < columns
    {
      assert 0 <= x && x + n <= columns;
    }
  }
}
