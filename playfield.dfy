/** The rules that relate a piece to the board it sits on: when a placed
    piece collides, and what committing it into the board produces. Both are
    stated on matrix values; the game's `Collide` and `Merge` methods are
    proved against them. */
module Playfield {
  import opened Grids

  /** Cell `(r, c)` exists on board `b` and holds no settled block. */
  predicate Free(b: Grid, r: int, c: int)
  {
    0 <= r < |b| && 0 <= c < |b[r]| && b[r][c] == 0
  }

  /** Cell `(i, j)` of piece matrix `p` exists and is filled. */
  predicate Covers(p: Grid, i: int, j: int)
  {
    0 <= i < |p| && 0 <= j < |p[i]| && p[i][j] != 0
  }

  /** Filled cell `(i, j)` of `p`, with the matrix's top-left corner placed
      at column `px`, row `py`, falls off the board or onto a settled block. */
  predicate Blocks(b: Grid, p: Grid, px: int, py: int, i: int, j: int)
  {
    Covers(p, i, j) && !Free(b, i + py, j + px)
  }

  /** Some filled cell of `p`, placed at `(px, py)`, blocks. */
  ghost predicate CollidesAt(b: Grid, p: Grid, px: int, py: int)
  {
    exists i, j :: Blocks(b, p, px, py, i, j)
  }

  /** The board after committing `p` at `(px, py)`: a board cell under a
      filled piece cell takes that cell's value, every other cell keeps its
      own. Piece cells that fall outside the board write nothing. */
  function Merged(b: Grid, p: Grid, px: int, py: int): Grid
  {
    seq(|b|, r requires 0 <= r < |b| =>
      seq(|b[r]|, c requires 0 <= c < |b[r]| =>
        if Covers(p, r - py, c - px) then p[r - py][c - px] else b[r][c]))
  }

  /** Committing a piece that does not collide writes every filled piece
      cell inside the board, onto a cell that was empty, and leaves every
      settled block and every uncovered cell as it was. */
  lemma {:induction false} MergeOfRestingPiece(b: Grid, p: Grid, px: int, py: int, h: nat, w: nat)
    requires IsRect(b, h, w)
    requires !CollidesAt(b, p, px, py)
    ensures IsRect(Merged(b, p, px, py), h, w)
    ensures forall i, j :: Covers(p, i, j) ==>
      0 <= i + py < h && 0 <= j + px < w && b[i + py][j + px] == 0 &&
      Merged(b, p, px, py)[i + py][j + px] == p[i][j]
    ensures forall r, c :: 0 <= r < h && 0 <= c < w && b[r][c] != 0 ==>
      Merged(b, p, px, py)[r][c] == b[r][c]
    ensures forall r, c :: 0 <= r < h && 0 <= c < w && !Covers(p, r - py, c - px) ==>
      Merged(b, p, px, py)[r][c] == b[r][c]
  {
    var m := Merged(b, p, px, py);
    forall i, j | Covers(p, i, j)
      ensures 0 <= i + py < h && 0 <= j + px < w && b[i + py][j + px] == 0 && m[i + py][j + px] == p[i][j]
    {
      assert !Blocks(b, p, px, py, i, j);
    }
    forall r, c | 0 <= r < h && 0 <= c < w && Covers(p, r - py, c - px)
      ensures b[r][c] == 0
    {
      assert !Blocks(b, p, px, py, r - py, c - px);
    }
  }

  /** A filled piece cell that already sits in the left-most column blocks
      any further move to the left. */
  lemma {:induction false} LeftWallBlocks(b: Grid, p: Grid, px: int, py: int, i: nat, j: nat)
    requires Covers(p, i, j) && j + px == 0
    ensures CollidesAt(b, p, px - 1, py)
  {
    assert Blocks(b, p, px - 1, py, i, j);
  }

  /** A filled piece cell that already sits in the bottom row blocks any
      further drop. */
  lemma {:induction false} FloorBlocks(b: Grid, p: Grid, px: int, py: int, i: nat, j: nat)
    requires Covers(p, i, j) && i + py == |b| - 1
    ensures CollidesAt(b, p, px, py + 1)
  {
    assert Blocks(b, p, px, py + 1, i, j);
  }

  /** On an empty board a piece collides exactly when one of its filled
      cells falls off the board. */
  lemma {:induction false} CollidesOnEmpty(p: Grid, px: int, py: int, h: nat, w: nat)
    ensures CollidesAt(Zeros(h, w), p, px, py) <==>
      exists i, j :: Covers(p, i, j) && !(0 <= i + py < h && 0 <= j + px < w)
  {
    var z := Zeros(h, w);
    if CollidesAt(z, p, px, py) {
      var i, j :| Blocks(z, p, px, py, i, j);
      assert Covers(p, i, j) && !(0 <= i + py < h && 0 <= j + px < w);
    }
    if exists i, j :: Covers(p, i, j) && !(0 <= i + py < h && 0 <= j + px < w) {
      var i, j :| Covers(p, i, j) && !(0 <= i + py < h && 0 <= j + px < w);
      assert Blocks(z, p, px, py, i, j);
    }
  }
}
