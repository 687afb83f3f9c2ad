/**
 * The loops of the `Vec<Vec<T>>` flips and transpose of aoc/src/lib.rs. Each
 * builds a new vector of rows, reading the old rows and writing the new ones
 * cell by cell over the extents, and is proved to compute the cell-by-cell
 * definition of the same operation.
 */
module DenseLoops {
  import opened GridStore
  import opened Transforms

  /** The inner loop of `flip_horizontal`: cell x of the first `w` takes old cell `w - 1 - x`. */
  method MirrorRow<T>(row: seq<T>, w: nat) returns (r: seq<T>)
    requires w <= |row|
    ensures |r| == |row|
    ensures forall x :: 0 <= x < w ==> r[x] == row[w - 1 - x]
    ensures forall x :: w <= x < |r| ==> r[x] == row[x]
  {
    r := row;
    var x := 0;
    while x < w
      invariant 0 <= x <= w && |r| == |row|
      invariant forall i :: 0 <= i < |r| && (i < w - x || i >= w) ==> r[i] == row[i]
      invariant forall i :: w - x <= i < w ==> r[i] == row[w - 1 - i]
    {
      r := r[w - 1 - x := row[x]];
      x := x + 1;
    }
  }

  /** `flip_horizontal` on rows. */
  method FlipRowsHorizontal<T>(rows: seq<seq<T>>) returns (r: seq<seq<T>>)
    requires DenseShaped(rows)
    ensures r == DenseFlipH(rows)
  {
    var w := |rows[0]|;
    r := rows;
    var y := 0;
    while y < |rows|
      invariant 0 <= y <= |rows| && |r| == |rows|
      invariant forall k :: 0 <= k < y ==> r[k] == DenseFlipH(rows)[k]
      invariant forall k :: y <= k < |rows| ==> r[k] == rows[k]
    {
      var row := MirrorRow(rows[y], w);
      assert row == DenseFlipH(rows)[y] by {
        var f := DenseFlipH(rows)[y];
        assert |row| == |f|;
        forall x | 0 <= x < |row| ensures row[x] == f[x] {
          assert row[x] == if x < w then rows[y][w - 1 - x] else rows[y][x];
        }
      }
      r := r[y := row];
      y := y + 1;
    }
  }

  /** The inner loop of `flip_vertical`: the first `w` cells of the target row are taken from `src`. */
  method CopyPrefix<T>(dst: seq<T>, src: seq<T>, w: nat) returns (r: seq<T>)
    requires w <= |dst| && w <= |src|
    ensures |r| == |dst|
    ensures forall x :: 0 <= x < |r| ==> r[x] == if x < w then src[x] else dst[x]
  {
    r := dst;
    var x := 0;
    while x < w
      invariant 0 <= x <= w && |r| == |dst|
      invariant forall i :: 0 <= i < |r| ==> r[i] == if i < x then src[i] else dst[i]
    {
      r := r[x := src[x]];
      x := x + 1;
    }
  }

  /** `flip_vertical` on rows: row y is written into row `height - 1 - y`. */
  method FlipRowsVertical<T>(rows: seq<seq<T>>) returns (r: seq<seq<T>>)
    requires DenseShaped(rows)
    ensures r == DenseFlipV(rows)
  {
    var w, h := |rows[0]|, |rows|;
    r := rows;
    var y := 0;
    while y < h
      invariant 0 <= y <= h && |r| == h
      invariant forall k :: 0 <= k < h ==> r[k] == if h - 1 - k < y then DenseFlipV(rows)[k] else rows[k]
    {
      var t := h - 1 - y;
      var row := CopyPrefix(r[t], rows[y], w);
      assert row == DenseFlipV(rows)[t];
      r := r[t := row];
      y := y + 1;
    }
  }

  /** The inner loop of `transpose`: column y of the new rows takes the first `w` cells of `src`. */
  method WriteColumn<T>(rows: seq<seq<T>>, y: nat, src: seq<T>, w: nat) returns (r: seq<seq<T>>)
    requires w <= |rows| && w <= |src|
    requires forall x :: 0 <= x < w ==> y < |rows[x]|
    ensures |r| == |rows|
    ensures forall x :: 0 <= x < |r| ==> r[x] == if x < w then rows[x][y := src[x]] else rows[x]
  {
    r := rows;
    var x := 0;
    while x < w
      invariant 0 <= x <= w && |r| == |rows|
      invariant forall i :: 0 <= i < |r| ==> r[i] == if i < x then rows[i][y := src[i]] else rows[i]
    {
      r := r[x := r[x][y := src[x]]];
      x := x + 1;
    }
  }

  /**
   * `transpose` on rows: a vector of `width` rows of `height` default values,
   * then cell (y, x) written from old cell (x, y). `filler` stands for
   * `Default::default()`.
   */
  method TransposeRows<T>(rows: seq<seq<T>>, filler: T) returns (r: seq<seq<T>>)
    requires DenseShaped(rows)
    ensures r == DenseTranspose(rows)
  {
    var w, h := |rows[0]|, |rows|;
    r := [];
    while |r| < w
      invariant |r| <= w
      invariant forall x :: 0 <= x < |r| ==> r[x] == seq(h, _ => filler)
    {
      r := r + [seq(h, _ => filler)];
    }
    var y := 0;
    while y < h
      invariant 0 <= y <= h && |r| == w
      invariant forall x :: 0 <= x < w ==> |r[x]| == h
      invariant forall x, k :: 0 <= x < w && 0 <= k < h ==> r[x][k] == if k < y then rows[k][x] else filler
    {
      r := WriteColumn(r, y, rows[y], w);
      y := y + 1;
    }
    var t := DenseTranspose(rows);
    forall x | 0 <= x < w ensures r[x] == t[x] {
      assert forall k :: 0 <= k < h ==> r[x][k] == t[x][k];
    }
  }
}
