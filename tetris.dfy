/** The game session: the settled-block board, the active piece and the
    player's actions on them (move, drop, rotate, spawn). */
module Tetris {
  import opened Grids
  import opened Playfield
  import opened Pieces

  class Game {
    /** Board size in cells, fixed for the session. */
    const rows: nat
    const columns: nat

    /** The catalogue: `shapes[t - 1]` is the matrix of piece type `t`.
        The active piece is one of these arrays itself, not a copy, so
        rotating the active piece rotates its catalogue entry. */
    const shapes: seq<array2<int>>

    /** Settled blocks, `rows × columns`; 0 is empty. */
    var board: array2<int>

    /** The active piece: its matrix and the board position of the
        matrix's top-left corner. */
    var matrix: array2<int>
    var posX: int
    var posY: int

    /** Type of the active piece, 1..7. */
    ghost var kind: int

    /** Seven distinct square arrays, entry `k` as wide as type `k + 1`. */
    ghost predicate Catalogue()
    {
      && |shapes| == 7
      && (forall k :: 0 <= k < 7 ==> shapes[k].Length0 == Width(k + 1) && shapes[k].Length1 == Width(k + 1))
      && (forall k, l :: 0 <= k < l < 7 ==> shapes[k] != shapes[l])
    }

    ghost predicate Valid()
      reads this
    {
      && Catalogue()
      && board.Length0 == rows && board.Length1 == columns && board !in shapes
      && 1 <= kind <= 7 && matrix == shapes[kind - 1]
    }

    /** The active piece overlaps a settled block or leaves the board. */
    ghost predicate Collides()
      reads this, board, matrix
    {
      CollidesAt(Cells(board), Cells(matrix), posX, posY)
    }

    /** Every catalogue matrix fits the board at its spawn point. */
    ghost predicate Roomy()
    {
      rows >= 4 && columns >= 4
    }

    /** A new session: the catalogue, an empty board and a first piece of
        type `first`. */
    constructor (columns: nat, rows: nat, first: int)
      requires 0 < columns && 0 < rows && 1 <= first <= 6
      ensures Valid()
      ensures this.columns == columns && this.rows == rows
      ensures forall k :: 0 <= k < 7 ==> fresh(shapes[k]) && Cells(shapes[k]) == Template(k + 1)
      ensures fresh(board) && Cells(board) == Zeros(rows, columns)
      ensures matrix == shapes[first - 1] && kind == first
      ensures posY == 0 && posX == SpawnX(columns, Width(first))
      ensures Roomy() ==> !Collides()
    {
      this.columns := columns;
      this.rows := rows;
      var empty := CreateMatrix(columns, rows);
      board := empty;
      var arrays := FromSquares(Templates());
      shapes := arrays;
      // The source starts with no piece; the spawn below replaces this one.
      matrix, kind := arrays[0], 1;
      posX, posY := 0, 0;
      new;
      PlayerReset(first);
    }

    /** The catalogue entry of type `t`: the shared array itself, not a
        copy, in whatever orientation earlier rotations left it. */
    function CreatePiece(t: int): (r: array2<int>)
      requires Valid() && 1 <= t <= 7
      reads this
      ensures r == shapes[t - 1] && r.Length0 == r.Length1 == Width(t)
      ensures r != board
    {
      shapes[t - 1]
    }

    /** Whether the active piece, where it stands, overlaps a settled block
        or leaves the board; scans the piece row by row and stops at the
        first offending cell. */
    method Collide() returns (hit: bool)
      requires board.Length0 == rows && board.Length1 == columns
      ensures hit == CollidesAt(Cells(board), Cells(matrix), posX, posY)
    {
      var m := matrix;
      for y := 0 to m.Length0
        invariant forall i, j :: 0 <= i < y && 0 <= j < m.Length1 && m[i, j] != 0 ==>
          0 <= i + posY < rows && 0 <= j + posX < columns && board[i + posY, j + posX] == 0
      {
        for x := 0 to m.Length1
          invariant forall i, j :: (0 <= i < y || i == y) && 0 <= j < m.Length1 && (i < y || j < x) && m[i, j] != 0 ==>
            0 <= i + posY < rows && 0 <= j + posX < columns && board[i + posY, j + posX] == 0
        {
          var r, c := y + posY, x + posX;
          if m[y, x] != 0 && (!(0 <= r < rows && 0 <= c < columns) || board[r, c] != 0) {
            assert Blocks(Cells(board), Cells(m), posX, posY, y, x);
            return true;
          }
        }
      }
      hit := false;
      ghost var p, b := Cells(m), Cells(board);
      forall i, j | Covers(p, i, j)
        ensures !Blocks(b, p, posX, posY, i, j)
      {
        assert m[i, j] != 0;
      }
    }

    /** Writes every filled cell of the active piece into the board at the
        piece's position. */
    method Merge()
      requires board.Length0 == rows && board.Length1 == columns && board != matrix
      modifies board
      ensures Cells(board) == Merged(old(Cells(board)), Cells(matrix), posX, posY)
    {
      var m := matrix;
      for y := 0 to m.Length0
        invariant forall r, c :: 0 <= r < rows && 0 <= c < columns ==>
          board[r, c] == if 0 <= r - posY < y && 0 <= c - posX < m.Length1 && m[r - posY, c - posX] != 0
                         then m[r - posY, c - posX] else old(board[r, c])
      {
        for x := 0 to m.Length1
          invariant forall r, c :: 0 <= r < rows && 0 <= c < columns ==>
            board[r, c] == if (0 <= r - posY < y || (r - posY == y && c - posX < x)) &&
                              0 <= c - posX < m.Length1 && m[r - posY, c - posX] != 0
                           then m[r - posY, c - posX] else old(board[r, c])
        {
          var r, c := y + posY, x + posX;
          if m[y, x] != 0 && 0 <= r < rows && 0 <= c < columns {
            board[r, c] := m[y, x];
          }
        }
      }
      ghost var before := old(Cells(board));
      ghost var p := Cells(m);
      forall r, c | 0 <= r < rows && 0 <= c < columns
        ensures Cells(board)[r][c] == Merged(before, p, posX, posY)[r][c]
      {
        if Covers(p, r - posY, c - posX) {
          assert p[r - posY][c - posX] == m[r - posY, c - posX];
        }
      }
      SameCells(Cells(board), Merged(before, p, posX, posY), rows, columns);
    }

    /** Shifts the active piece `dir` columns, and shifts it back when it
        then collides. */
    method PlayerMove(dir: int)
      requires Valid()
      modifies this`posX
      ensures Valid()
      ensures posY == old(posY) && matrix == old(matrix) && board == old(board)
      ensures posX == if CollidesAt(Cells(board), Cells(matrix), old(posX) + dir, posY)
                      then old(posX) else old(posX) + dir
      ensures !old(Collides()) ==> !Collides()
    {
      posX := posX + dir;
      var hit := Collide();
      if hit {
        posX := posX - dir;
      }
    }

    /** Lowers the active piece one row. When it then collides it goes back
        up, is merged into the board there, and the next piece, of type
        `next`, spawns. */
    method PlayerDrop(next: int)
      requires Valid() && 1 <= next <= 6
      modifies this`matrix, this`kind, this`posX, this`posY, this`board, board
      ensures Valid()
      ensures !CollidesAt(old(Cells(board)), old(Cells(matrix)), old(posX), old(posY) + 1) ==>
        && posY == old(posY) + 1 && posX == old(posX)
        && matrix == old(matrix) && kind == old(kind)
        && board == old(board) && Cells(board) == old(Cells(board))
        && !Collides()
      ensures CollidesAt(old(Cells(board)), old(Cells(matrix)), old(posX), old(posY) + 1) ==>
        && matrix == shapes[next - 1] && kind == next
        && posY == 0 && posX == SpawnX(columns, Width(next))
        && var merged := Merged(old(Cells(board)), old(Cells(matrix)), old(posX), old(posY));
           if CollidesAt(merged, Cells(matrix), posX, posY)
           then fresh(board) && Cells(board) == Zeros(rows, columns)
           else board == old(board) && Cells(board) == merged
      ensures Roomy() ==> !Collides()
    {
      posY := posY + 1;
      var hit := Collide();
      if hit {
        posY := posY - 1;
        Merge();
        PlayerReset(next);
      }
    }

    /** Turns the active piece a quarter clockwise in place (transpose, then
        reverse every row); when the turned piece collides, undoes the turn
        by the inverse steps (reverse every row, then transpose). */
    method PlayerRotate()
      requires Valid()
      modifies matrix
      ensures Valid()
      ensures posX == old(posX) && posY == old(posY) && kind == old(kind)
      ensures matrix == old(matrix) && board == old(board) && unchanged(board)
      ensures var turned := Rotated(old(Cells(matrix)));
        Cells(matrix) == if CollidesAt(Cells(board), turned, posX, posY) then old(Cells(matrix)) else turned
      ensures forall k :: 0 <= k < 7 && k != kind - 1 ==> Cells(shapes[k]) == old(Cells(shapes[k]))
      ensures !old(Collides()) ==> !Collides()
    {
      ghost var before := Cells(matrix);
      ghost var settled := Cells(board);
      TurnClockwise(matrix);
      var hit := Collide();
      assert Cells(board) == settled;
      if hit {
        TurnBack(matrix);
        RotatedInjective(Cells(matrix), before);
      }
    }

    /** Spawns a piece of type `t` at the top row, centred; when it collides
        there the board is full and is replaced by an empty one. */
    method PlayerReset(t: int)
      requires Valid() && 1 <= t <= 6
      modifies this`matrix, this`kind, this`posX, this`posY, this`board
      ensures Valid()
      ensures matrix == shapes[t - 1] && kind == t
      ensures posY == 0 && posX == SpawnX(columns, Width(t))
      ensures CollidesAt(old(Cells(board)), Cells(matrix), posX, posY) ==>
        fresh(board) && Cells(board) == Zeros(rows, columns)
      ensures !CollidesAt(old(Cells(board)), Cells(matrix), posX, posY) ==>
        board == old(board) && Cells(board) == old(Cells(board))
      ensures Roomy() ==> !Collides()
    {
      Spawn(t);
      var hit := Collide();
      if hit {
        Clear();
        if Roomy() {
          SpawnFits(Cells(matrix), Width(t), rows, columns);
        }
      }
    }

    /** Makes the catalogue entry of type `t` the active piece, at the
        spawn point. */
    method Spawn(t: int)
      requires Valid() && 1 <= t <= 7
      modifies this`matrix, this`kind, this`posX, this`posY
      ensures Valid()
      ensures matrix == shapes[t - 1] && kind == t
      ensures posY == 0 && posX == SpawnX(columns, Width(t))
    {
      matrix := CreatePiece(t);
      kind := t;
      posY := 0;
      posX := columns / 2 - matrix.Length1 / 2;
    }

    /** Replaces the board by an empty one. */
    method Clear()
      requires Valid()
      modifies this`board
      ensures Valid()
      ensures fresh(board) && Cells(board) == Zeros(rows, columns)
    {
      board := CreateMatrix(columns, rows);
    }
  }
}
