/** Block matrices and their quarter-turn rotation (src/games/tetris/utils.ts).

    A block matrix is a sequence of rows; cell (r, c) is row r, column c,
    with row 0 at the top. Coordinates are written as pairs (row, column). */
module Shapes {

  type Matrix<T> = seq<seq<T>>

  /** A matrix the rotation can be applied to: at least one row, and every
      row as long as the first one. */
  predicate Rectangular<T>(m: Matrix<T>) {
    |m| > 0 && forall r :: 0 <= r < |m| ==> |m[r]| == |m[0]|
  }

  /** Column i, top row first. */
  function Column<T>(m: Matrix<T>, i: nat): (col: seq<T>)
    requires forall r :: 0 <= r < |m| ==> i < |m[r]|
    ensures |col| == |m|
  {
    seq(|m|, r requires 0 <= r < |m| => m[r][i])
  }

  /** The sequence back to front. */
  function Reverse<T>(s: seq<T>): (t: seq<T>)
    ensures |t| == |s|
    ensures forall k :: 0 <= k < |s| ==> t[k] == s[|s| - 1 - k]
  {
    seq(|s|, k requires 0 <= k < |s| => s[|s| - 1 - k])
  }

  /** 90 degree clockwise rotation: column i, reversed, becomes row i.
      An n-by-w matrix becomes a w-by-n matrix whose cell (i, j) is the
      cell (n - 1 - j, i) of the input. */
  function Rotate<T>(m: Matrix<T>): (r: Matrix<T>)
    requires Rectangular(m)
    ensures |r| == |m[0]|
    ensures forall i :: 0 <= i < |r| ==> |r[i]| == |m|
    ensures |m[0]| > 0 ==> Rectangular(r)
    ensures forall i, j :: 0 <= i < |r| && 0 <= j < |m| ==> r[i][j] == m[|m| - 1 - j][i]
  {
    seq(|m[0]|, i requires 0 <= i < |m[0]| => Reverse(Column(m, i)))
  }

  /** Two quarter turns are the half turn: an n-by-w matrix keeps its
      dimensions and cell (i, j) comes from cell (n - 1 - i, w - 1 - j). */
  lemma RotateTwice<T>(m: Matrix<T>)
    requires Rectangular(m) && |m[0]| > 0
    ensures Rectangular(Rotate(Rotate(m)))
    ensures |Rotate(Rotate(m))| == |m| && |Rotate(Rotate(m))[0]| == |m[0]|
    ensures forall i, j :: 0 <= i < |m| && 0 <= j < |m[0]| ==>
      Rotate(Rotate(m))[i][j] == m[|m| - 1 - i][|m[0]| - 1 - j]
  {
  }

  /** Four quarter turns give back the original matrix. */
  lemma RotateFourTimes<T>(m: Matrix<T>)
    requires Rectangular(m) && |m[0]| > 0
    ensures Rotate(Rotate(Rotate(Rotate(m)))) == m
  {
    var h := Rotate(Rotate(m));
    RotateTwice(m);
    RotateTwice(h);
    var hh := Rotate(Rotate(h));
    assert |hh| == |m|;
    forall i | 0 <= i < |m| ensures hh[i] == m[i] {
      assert |hh[i]| == |m[i]|;
      forall j | 0 <= j < |m[i]| ensures hh[i][j] == m[i][j] {
        assert hh[i][j] == h[|h| - 1 - i][|h[0]| - 1 - j];
      }
    }
  }

  /** The occupied cells of a boolean matrix, as (row, column) pairs. */
  function TrueCells(m: Matrix<bool>): (cells: set<(int, int)>)
    ensures forall p :: p in cells ==> 0 <= p.0 < |m| && 0 <= p.1 < |m[p.0]| && m[p.0][p.1]
  {
    set r, c | 0 <= r < |m| && 0 <= c < |m[r]| && m[r][c] :: (r, c)
  }

  /** Where a cell at (row, column) of an n-row matrix goes under Rotate. */
  function RotateCoord(n: int, p: (int, int)): (q: (int, int)) {
    (p.1, n - 1 - p.0)
  }

  /** The set of images of the elements of s under f. */
  function Image<A, B>(s: set<A>, f: A -> B): (image: set<B>) {
    set p | p in s :: f(p)
  }

  /** The image of a set under a map that is one-to-one on it has as many
      elements as the set. */
  lemma {:induction false} InjectiveImageSize<A, B>(s: set<A>, f: A -> B)
    requires forall p, q :: p in s && q in s && f(p) == f(q) ==> p == q
    ensures |Image(s, f)| == |s|
    decreases |s|
  {
    if s != {} {
      var p :| p in s;
      var rest := s - {p};
      InjectiveImageSize(rest, f);
      assert Image(s, f) == Image(rest, f) + {f(p)};
      assert f(p) !in Image(rest, f);
    }
  }

  /** Rotate moves each occupied cell (r, c) to (c, n - 1 - r) and creates
      no others. */
  lemma RotateCells(m: Matrix<bool>)
    requires Rectangular(m)
    ensures TrueCells(Rotate(m)) == set p | p in TrueCells(m) :: RotateCoord(|m|, p)
  {
    var n := |m|;
    var r := Rotate(m);
    var image := set p | p in TrueCells(m) :: RotateCoord(n, p);
    forall q | q in TrueCells(r) ensures q in image {
      var p := (n - 1 - q.1, q.0);
      assert m[p.0][p.1] == r[q.0][q.1];
      assert p in TrueCells(m);
      assert RotateCoord(n, p) == q;
    }
    forall q | q in image ensures q in TrueCells(r) {
      var p :| p in TrueCells(m) && RotateCoord(n, p) == q;
      assert r[q.0][q.1] == m[p.0][p.1];
    }
  }

  /** Rotation keeps the number of occupied cells. */
  lemma RotateKeepsCount(m: Matrix<bool>)
    requires Rectangular(m)
    ensures |TrueCells(Rotate(m))| == |TrueCells(m)|
  {
    RotateCells(m);
    RotatedImageSize(TrueCells(m), |m|);
  }

  /** RotateCoord is one-to-one, so it keeps the size of any set of cells. */
  lemma RotatedImageSize(cells: set<(int, int)>, n: int)
    ensures |(set p | p in cells :: RotateCoord(n, p))| == |cells|
  {
    var f := p => RotateCoord(n, p);
    InjectiveImageSize(cells, f);
    assert Image(cells, f) == set p | p in cells :: RotateCoord(n, p);
  }
}
