/** Integer matrices: the value view of the game's two-dimensional arrays,
    the quarter turn used to rotate a piece, and the in-place array
    algorithms the game runs on them (grid creation, transposition and
    row reversal). */
module Grids {

  /** A matrix as a sequence of rows. */
  type Grid = seq<seq<int>>

  /** `g` has `h` rows of `w` cells each. */
  predicate IsRect(g: Grid, h: nat, w: nat)
  {
    |g| == h && forall i :: 0 <= i < h ==> |g[i]| == w
  }

  /** `g` is an `n × n` matrix. */
  predicate IsSquare(g: Grid, n: nat)
  {
    IsRect(g, n, n)
  }

  /** The contents of a two-dimensional array, row by row. */
  ghost function Cells(a: array2<int>): (g: Grid)
    reads a
    ensures IsRect(g, a.Length0, a.Length1)
    ensures forall i, j :: 0 <= i < a.Length0 && 0 <= j < a.Length1 ==> g[i][j] == a[i, j]
  {
    RowsOf(a, a.Length0)
  }

  ghost function RowsOf(a: array2<int>, n: nat): (g: Grid)
    requires n <= a.Length0
    reads a
    ensures IsRect(g, n, a.Length1)
    ensures forall i, j :: 0 <= i < n && 0 <= j < a.Length1 ==> g[i][j] == a[i, j]
    decreases n
  {
    if n == 0 then [] else RowsOf(a, n - 1) + [RowOf(a, n - 1, a.Length1)]
  }

  ghost function RowOf(a: array2<int>, i: nat, n: nat): (r: seq<int>)
    requires i < a.Length0 && n <= a.Length1
    reads a
    ensures |r| == n
    ensures forall j :: 0 <= j < n ==> r[j] == a[i, j]
    decreases n
  {
    if n == 0 then [] else RowOf(a, i, n - 1) + [a[i, n - 1]]
  }

  /** Two matrices of the same shape with the same cells are equal. */
  lemma SameCells(g: Grid, h: Grid, rows: nat, cols: nat)
    requires IsRect(g, rows, cols) && IsRect(h, rows, cols)
    requires forall i, j :: 0 <= i < rows && 0 <= j < cols ==> g[i][j] == h[i][j]
    ensures g == h
  {
    forall i | 0 <= i < rows
      ensures g[i] == h[i]
    {
      assert forall j :: 0 <= j < cols ==> g[i][j] == h[i][j];
    }
  }

  /** The `h × w` matrix of empty cells. */
  function Zeros(h: nat, w: nat): Grid
  {
    seq(h, _ => seq(w, _ => 0))
  }

  /** Swap across the main diagonal. */
  function Transposed(g: Grid): Grid
    requires IsSquare(g, |g|)
  {
    seq(|g|, i requires 0 <= i < |g| => seq(|g|, j requires 0 <= j < |g| => g[j][i]))
  }

  /** Every row read back to front. */
  function RowsReversed(g: Grid): Grid
  {
    seq(|g|, i requires 0 <= i < |g| =>
      seq(|g[i]|, j requires 0 <= j < |g[i]| => g[i][|g[i]| - 1 - j]))
  }

  /** The clockwise quarter turn: the cell at row `i`, column `j` comes
      from row `n-1-j`, column `i`. */
  function Rotated(g: Grid): (r: Grid)
    requires IsSquare(g, |g|)
    ensures IsSquare(r, |g|)
  {
    var n := |g|;
    seq(n, i requires 0 <= i < n => seq(n, j requires 0 <= j < n => g[n - 1 - j][i]))
  }

  /** `k` successive clockwise quarter turns. */
  function Turned(g: Grid, k: nat): (r: Grid)
    requires IsSquare(g, |g|)
    ensures IsSquare(r, |g|)
    decreases k
  {
    if k == 0 then g else Rotated(Turned(g, k - 1))
  }

  lemma {:induction false} TransposedShape(g: Grid)
    requires IsSquare(g, |g|)
    ensures IsSquare(Transposed(g), |g|)
  {
  }

  lemma {:induction false} RowsReversedShape(g: Grid, h: nat, w: nat)
    requires IsRect(g, h, w)
    ensures IsRect(RowsReversed(g), h, w)
  {
  }

  /** The source builds the quarter turn as a transposition followed by
      reversing every row. */
  lemma {:induction false} TransposeThenReverseRotates(g: Grid)
    requires IsSquare(g, |g|)
    ensures RowsReversed(Transposed(g)) == Rotated(g)
  {
    var n := |g|;
    TransposedShape(g);
    RowsReversedShape(Transposed(g), n, n);
    SameCells(RowsReversed(Transposed(g)), Rotated(g), n, n);
  }

  /** The rollback the source performs, reversing every row and then
      transposing, turns the matrix back: a quarter turn of its result gives
      the matrix it started from. */
  lemma {:induction false} ReverseThenTransposeUndoes(g: Grid)
    requires IsSquare(g, |g|)
    ensures IsSquare(Transposed(RowsReversed(g)), |g|)
    ensures Rotated(Transposed(RowsReversed(g))) == g
  {
    var n := |g|;
    RowsReversedShape(g, n, n);
    var r := RowsReversed(g);
    TransposedShape(r);
    SameCells(Rotated(Transposed(r)), g, n, n);
  }

  /** Different matrices of one size stay different after a quarter turn. */
  lemma {:induction false} RotatedInjective(g: Grid, h: Grid)
    requires IsSquare(g, |g|) && IsSquare(h, |g|)
    requires Rotated(g) == Rotated(h)
    ensures g == h
  {
    var n := |g|;
    forall i, j | 0 <= i < n && 0 <= j < n
      ensures g[i][j] == h[i][j]
    {
      assert Rotated(g)[j][n - 1 - i] == Rotated(h)[j][n - 1 - i];
    }
    SameCells(g, h, n, n);
  }

  /** Two quarter turns read the matrix back to front in both directions. */
  lemma {:induction false} HalfTurnAt(g: Grid, i: nat, j: nat)
    requires IsSquare(g, |g|) && i < |g| && j < |g|
    ensures Rotated(Rotated(g))[i][j] == g[|g| - 1 - i][|g| - 1 - j]
  {
  }

  /** Four quarter turns give back the original matrix. */
  lemma {:induction false} FullTurn(g: Grid)
    requires IsSquare(g, |g|)
    ensures Turned(g, 4) == g
  {
    var n := |g|;
    var h := Rotated(Rotated(g));
    assert Turned(g, 2) == h by {
      assert Turned(g, 1) == Rotated(g);
    }
    assert Turned(g, 4) == Rotated(Rotated(h)) by {
      assert Turned(g, 3) == Rotated(h);
    }
    forall i, j | 0 <= i < n && 0 <= j < n
      ensures Rotated(Rotated(h))[i][j] == g[i][j]
    {
      HalfTurnAt(h, i, j);
      HalfTurnAt(g, n - 1 - i, n - 1 - j);
    }
    SameCells(Rotated(Rotated(h)), g, n, n);
  }

  /** A fresh `h × w` array with every cell zero: the source's
      `createMatrix(w, h)`. */
  method CreateMatrix(w: nat, h: nat) returns (m: array2<int>)
    ensures fresh(m) && m.Length0 == h && m.Length1 == w
    ensures forall i, j :: 0 <= i < h && 0 <= j < w ==> m[i, j] == 0
    ensures Cells(m) == Zeros(h, w)
  {
    m := new int[h, w];
    var r := 0;
    while r < h
      invariant 0 <= r <= h
      invariant forall i, j :: 0 <= i < r && 0 <= j < w ==> m[i, j] == 0
    {
      for c := 0 to w
        invariant forall i, j :: 0 <= i < r && 0 <= j < w ==> m[i, j] == 0
        invariant forall j :: 0 <= j < c ==> m[r, j] == 0
      {
        m[r, c] := 0;
      }
      r := r + 1;
    }
    SameCells(Cells(m), Zeros(h, w), h, w);
  }

  /** A fresh array holding the rows of `g`. */
  method FromRows(g: Grid, h: nat, w: nat) returns (m: array2<int>)
    requires IsRect(g, h, w)
    ensures fresh(m) && m.Length0 == h && m.Length1 == w
    ensures Cells(m) == g
  {
    m := new int[h, w]((i: nat, j: nat) => if i < |g| && j < |g[i]| then g[i][j] else 0);
    SameCells(Cells(m), g, h, w);
  }

  /** One fresh array per square matrix of `gs`, in order, each holding
      that matrix; no two of them are the same array. */
  method FromSquares(gs: seq<Grid>) returns (s: seq<array2<int>>)
    requires forall k :: 0 <= k < |gs| ==> IsSquare(gs[k], |gs[k]|)
    ensures |s| == |gs|
    ensures forall k :: 0 <= k < |s| ==>
      fresh(s[k]) && s[k].Length0 == s[k].Length1 == |gs[k]| && Cells(s[k]) == gs[k]
    ensures forall k, l :: 0 <= k < l < |s| ==> s[k] != s[l]
  {
    s := [];
    for n := 0 to |gs|
      invariant |s| == n
      invariant forall k :: 0 <= k < n ==>
        fresh(s[k]) && s[k].Length0 == s[k].Length1 == |gs[k]| && Cells(s[k]) == gs[k]
      invariant forall k, l :: 0 <= k < l < n ==> s[k] != s[l]
    {
      var a := FromRows(gs[n], |gs[n]|, |gs[n]|);
      s := s + [a];
    }
  }

  /** Transposes a square array in place by swapping each cell below the
      diagonal with its mirror image, row by row. */
  method Transpose(m: array2<int>)
    requires m.Length0 == m.Length1
    modifies m
    ensures Cells(m) == Transposed(old(Cells(m)))
  {
    var n := m.Length0;
    for y := 0 to n
      invariant forall i, j :: 0 <= i < n && 0 <= j < n ==>
        m[i, j] == if i < y && j < y then old(m[j, i]) else old(m[i, j])
    {
      for x := 0 to y
        invariant forall i, j :: 0 <= i < n && 0 <= j < n ==>
          m[i, j] == if (i < y && j < y) || (i == y && j < x) || (j == y && i < x)
                     then old(m[j, i]) else old(m[i, j])
      {
        m[x, y], m[y, x] := m[y, x], m[x, y];
      }
    }
    ghost var before := old(Cells(m));
    TransposedShape(before);
    SameCells(Cells(m), Transposed(before), n, n);
  }

  /** Reverses every row of an array in place, swapping from both ends. */
  method ReverseRows(m: array2<int>)
    modifies m
    ensures Cells(m) == RowsReversed(old(Cells(m)))
  {
    var h, w := m.Length0, m.Length1;
    for r := 0 to h
      invariant forall i, j :: 0 <= i < h && 0 <= j < w ==>
        m[i, j] == if i < r then old(m[i, w - 1 - j]) else old(m[i, j])
    {
      for k := 0 to w / 2
        invariant forall i, j :: 0 <= i < h && 0 <= j < w ==>
          m[i, j] == if i < r || (i == r && (j < k || w - 1 - k < j))
                     then old(m[i, w - 1 - j]) else old(m[i, j])
      {
        m[r, k], m[r, w - 1 - k] := m[r, w - 1 - k], m[r, k];
      }
    }
    ghost var before := old(Cells(m));
    RowsReversedShape(before, h, w);
    SameCells(Cells(m), RowsReversed(before), h, w);
  }

  /** The clockwise quarter turn of a square array in place: transpose,
      then reverse every row. */
  method TurnClockwise(m: array2<int>)
    requires m.Length0 == m.Length1
    modifies m
    ensures Cells(m) == Rotated(old(Cells(m)))
  {
    Transpose(m);
    ReverseRows(m);
    TransposeThenReverseRotates(old(Cells(m)));
  }

  /** Undoes a clockwise quarter turn in place: reverse every row, then
      transpose. */
  method TurnBack(m: array2<int>)
    requires m.Length0 == m.Length1
    modifies m
    ensures Rotated(Cells(m)) == old(Cells(m))
  {
    ReverseRows(m);
    Transpose(m);
    ReverseThenTransposeUndoes(old(Cells(m)));
  }
}
