/**
 * Square integer matrices as used for piece shapes: the transpose and row
 * reversal that make up a rotation, and the count of nonzero cells.
 */
module Matrix {

  type Matrix = seq<seq<int>>

  /** Every row is as long as the matrix is tall. */
  predicate IsSquare(m: Matrix) {
    forall i :: 0 <= i < |m| ==> |m[i]| == |m|
  }

  /** Every row is as long as the first one, which is what a scan bounded by the first row's length assumes. */
  predicate IsRectangular(m: Matrix) {
    forall i :: 0 <= i < |m| ==> |m[i]| == |m[0]|
  }

  lemma SquareIsRectangular(m: Matrix)
    requires IsSquare(m)
    ensures IsRectangular(m)
  {
  }

  /** Mirror image along the main diagonal. */
  function Transpose(m: Matrix): (r: Matrix)
    requires IsSquare(m)
    ensures IsSquare(r) && |r| == |m|
    ensures forall i, j :: 0 <= i < |m| && 0 <= j < |m| ==> r[i][j] == m[j][i]
  {
    seq(|m|, i requires 0 <= i < |m| => seq(|m|, j requires 0 <= j < |m| => m[j][i]))
  }

  /** The rows in the opposite order. */
  function Reverse(m: Matrix): (r: Matrix)
    ensures |r| == |m|
    ensures forall i :: 0 <= i < |m| ==> r[i] == m[|m| - 1 - i]
  {
    seq(|m|, i requires 0 <= i < |m| => m[|m| - 1 - i])
  }

  lemma ReverseSquare(m: Matrix)
    requires IsSquare(m)
    ensures IsSquare(Reverse(m))
  {
  }

  lemma ReverseInvolution(m: Matrix)
    ensures Reverse(Reverse(m)) == m
  {
  }

  lemma TransposeInvolution(m: Matrix)
    requires IsSquare(m)
    ensures Transpose(Transpose(m)) == m
  {
    var t := Transpose(Transpose(m));
    forall i | 0 <= i < |m|
      ensures t[i] == m[i]
    {
    }
  }

  /** The positions of the nonzero cells. */
  function Cells(m: Matrix): set<(int, int)> {
    set i, j | 0 <= i < |m| && 0 <= j < |m[i]| && m[i][j] != 0 :: (i, j)
  }

  /** Number of nonzero entries of one row. */
  function RowCount(row: seq<int>): nat {
    if |row| == 0 then 0 else (if row[0] != 0 then 1 else 0) + RowCount(row[1..])
  }

  /** Number of nonzero cells. */
  function Count(m: Matrix): nat {
    if |m| == 0 then 0 else RowCount(m[0]) + Count(m[1..])
  }

  /** The nonzero cells of one row, placed on row `i`. */
  function RowCells(row: seq<int>, i: int): set<(int, int)> {
    set j | 0 <= j < |row| && row[j] != 0 :: (i, j)
  }

  lemma {:induction false} RowCountIsRowCells(row: seq<int>, i: int)
    ensures RowCount(row) == |RowCells(row, i)|
    decreases |row|
  {
    if |row| > 0 {
      var rest := row[1..];
      RowCountIsRowCells(rest, i);
      var right := (e: (int, int)) => (e.0, e.1 + 1);
      var moved := set e | e in RowCells(rest, i) :: right(e);
      InjectiveImageSize(RowCells(rest, i), right);
      var head: set<(int, int)> := if row[0] != 0 then {(i, 0)} else {};
      forall e | e in RowCells(row, i)
        ensures e in head + moved
      {
        var j := e.1;
        if j > 0 {
          assert rest[j - 1] == row[j];
          assert (i, j - 1) in RowCells(rest, i);
          assert right((i, j - 1)) == e;
        }
      }
      forall e | e in moved
        ensures e in RowCells(row, i)
      {
        var d :| d in RowCells(rest, i) && e == right(d);
        assert row[d.1 + 1] == rest[d.1];
      }
      assert RowCells(row, i) == head + moved;
      assert (i, 0) !in moved;
    } else {
      assert RowCells(row, i) == {};
    }
  }

  /** The recursive count and the size of the cell set agree. */
  lemma {:induction false} CountIsCells(m: Matrix)
    ensures Count(m) == |Cells(m)|
    decreases |m|
  {
    if |m| > 0 {
      var rest := m[1..];
      CountIsCells(rest);
      RowCountIsRowCells(m[0], 0);
      var down := (e: (int, int)) => (e.0 + 1, e.1);
      var moved := set e | e in Cells(rest) :: down(e);
      InjectiveImageSize(Cells(rest), down);
      forall e | e in Cells(m)
        ensures e in RowCells(m[0], 0) + moved
      {
        if e.0 > 0 {
          assert rest[e.0 - 1] == m[e.0];
          assert (e.0 - 1, e.1) in Cells(rest);
          assert down((e.0 - 1, e.1)) == e;
        }
      }
      forall e | e in moved
        ensures e in Cells(m)
      {
        var d :| d in Cells(rest) && e == down(d);
        assert m[d.0 + 1] == rest[d.0];
      }
      assert Cells(m) == RowCells(m[0], 0) + moved;
      assert RowCells(m[0], 0) !! moved;
    } else {
      assert Cells(m) == {};
    }
  }

  /** A map that is one-to-one on `s` keeps its size. */
  lemma {:induction false} InjectiveImageSize(s: set<(int, int)>, f: ((int, int)) -> (int, int))
    requires forall a, b :: a in s && b in s && f(a) == f(b) ==> a == b
    ensures |set e | e in s :: f(e)| == |s|
    decreases |s|
  {
    if s != {} {
      var e :| e in s;
      var rest := s - {e};
      InjectiveImageSize(rest, f);
      assert (set x | x in s :: f(x)) == (set x | x in rest :: f(x)) + {f(e)};
      assert f(e) !in (set x | x in rest :: f(x));
    } else {
      assert (set x | x in s :: f(x)) == {};
    }
  }

  lemma TransposeCount(m: Matrix)
    requires IsSquare(m)
    ensures Count(Transpose(m)) == Count(m)
  {
    var t := Transpose(m);
    var swap := (e: (int, int)) => (e.1, e.0);
    assert Cells(t) == set e | e in Cells(m) :: swap(e) by {
      forall e | e in Cells(t) ensures e in set e | e in Cells(m) :: swap(e) {
        assert swap((e.1, e.0)) == e;
      }
    }
    InjectiveImageSize(Cells(m), swap);
    CountIsCells(m);
    CountIsCells(t);
  }

  lemma ReverseCount(m: Matrix)
    requires IsSquare(m)
    ensures Count(Reverse(m)) == Count(m)
  {
    var r := Reverse(m);
    var n := |m|;
    var flip := (e: (int, int)) => (n - 1 - e.0, e.1);
    assert Cells(r) == set e | e in Cells(m) :: flip(e) by {
      forall e | e in Cells(r) ensures e in set e | e in Cells(m) :: flip(e) {
        assert flip((n - 1 - e.0, e.1)) == e;
      }
    }
    InjectiveImageSize(Cells(m), flip);
    CountIsCells(m);
    CountIsCells(r);
  }
}
