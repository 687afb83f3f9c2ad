/**
 * `transpositions()` of aoc/src/lib.rs: an iterator over a copy of a grid
 * that yields the eight orientations, rotation 0 to 3 clockwise quarter turns,
 * each first as it is and then flipped horizontally. Every orientation is
 * built on a fresh clone, so neither the source grid nor the iterator's copy
 * changes.
 */
module Orientations {
  import opened Wrappers
  import opened Geometry
  import opened GridStore
  import opened Transforms
  import opened Grids

  /** `rot` clockwise quarter turns, then a horizontal flip when `flip`. */
  function Orientation<T>(s: Store<T>, rot: nat, flip: bool): (r: Store<T>)
    requires Transformable(s) && rot <= 3
    ensures Transformable(r)
  {
    var turned := if rot == 0 then s else if rot == 1 then Rotated90(s) else if rot == 2 then Rotated180(s) else Rotated270(s);
    if flip then FlippedHorizontal(turned) else turned
  }

  /** The (rotation, flip) pairs still to come, in the order `next` yields them. */
  function Pending(rot: nat, flip: bool): (r: seq<(nat, bool)>)
    ensures forall i :: 0 <= i < |r| ==> r[i].0 <= 3
    decreases 8 - 2 * rot - (if flip then 1 else 0)
  {
    if rot > 3 then [] else [(rot, flip)] + if flip then Pending(rot + 1, false) else Pending(rot, true)
  }

  /** One `next` yields the current pair and moves to the following one. */
  lemma PendingStep(rot: nat, flip: bool)
    requires rot <= 3
    ensures Pending(rot, flip) != [] && Pending(rot, flip)[0] == (rot, flip)
    ensures Pending(rot, flip)[1..] == if flip then Pending(rot + 1, false) else Pending(rot, true)
  {
    var rest := if flip then Pending(rot + 1, false) else Pending(rot, true);
    assert Pending(rot, flip) == [(rot, flip)] + rest;
  }

  /** A fresh iterator yields eight orientations: unflipped before flipped, rotations in increasing order. */
  lemma AllPending()
    ensures Pending(0, false) ==
      [(0, false), (0, true), (1, false), (1, true), (2, false), (2, true), (3, false), (3, true)]
  {
  }

  /** Rotating a quarter turn and flipping is the transpose. */
  lemma QuarterFlippedIsTranspose<T>(s: Store<T>)
    requires Transformable(s)
    ensures Orientation(s, 1, true) == Transposed(s)
  {
    var t := Transposed(s);
    TransposeExtents(s);
    assert Orientation(s, 1, true) == FlippedHorizontal(FlippedHorizontal(t));
    FlipHorizontalInvolution(t);
  }

  /** Rotating a half turn and flipping horizontally is the vertical flip. */
  lemma HalfFlippedIsFlipVertical<T>(s: Store<T>)
    requires Transformable(s)
    ensures Orientation(s, 2, true) == FlippedVertical(s)
  {
    var v := FlippedVertical(s);
    FlipVerticalExtents(s);
    assert Orientation(s, 2, true) == FlippedHorizontal(FlippedHorizontal(v));
    FlipHorizontalInvolution(v);
  }

  /** `GridFlipIteratorHelper`: the copied grid and the next orientation to yield. */
  class FlipIterator<T(==)> {
    var rot: nat
    var flip: bool
    const grid: Store<T>
    const default: T

    ghost predicate Valid()
      reads this
    {
      Transformable(grid) && rot <= 4 && (rot == 4 ==> !flip)
    }

    /** The (rotation, flip) pairs whose orientations are still to be yielded. */
    ghost function Remaining(): seq<(nat, bool)>
      reads this
    {
      Pending(rot, flip)
    }

    /** `transpositions()`: starts at rotation 0, unflipped, on a copy of the grid. */
    constructor (s: Store<T>, d: T)
      requires Transformable(s)
      ensures Valid() && grid == s && default == d && rot == 0 && !flip
      ensures |Remaining()| == 8
    {
      rot, flip := 0, false;
      grid, default := s, d;
      new;
      AllPending();
    }

    /**
     * `next`: a fresh grid holding the current orientation of the copy, or
     * None after the eighth; the copy it is built from is left as it was.
     */
    method Next() returns (r: Option<Grid<T>>)
      requires Valid()
      modifies this
      ensures Valid()
      ensures r.None? <==> old(Remaining()) == []
      ensures r.Some? ==> var (rot0, flip0) := old(Remaining())[0];
                          rot0 <= 3 && fresh(r.value) && r.value.store == Orientation(grid, rot0, flip0)
      ensures r.Some? ==> Remaining() == old(Remaining())[1..]
      ensures r.None? ==> rot == old(rot) && flip == old(flip)
    {
      if rot > 3 {
        return None;
      }
      PendingStep(rot, flip);
      var g := Oriented(grid, default, rot, flip);
      if !flip {
        flip := true;
      } else {
        flip := false;
        rot := rot + 1;
      }
      r := Some(g);
    }
  }

  /** The body of `next` that builds one orientation: a clone of `s`, turned `rot` times, then flipped when `flip`. */
  method Oriented<T(==)>(s: Store<T>, d: T, rot: nat, flip: bool) returns (g: Grid<T>)
    requires Transformable(s) && rot <= 3
    ensures fresh(g) && g.store == Orientation(s, rot, flip) && g.default == d
  {
    g := new Grid(s, d);
    if rot == 1 {
      g.Rotate90Cw();
    } else if rot == 2 {
      g.Rotate180Cw();
    } else if rot == 3 {
      g.Rotate270Cw();
    }
    if flip {
      g.FlipHorizontal();
    }
  }

  /** The eight pairs in order: pair i is rotation i / 2, flipped when i is odd. */
  lemma FreshPending()
    ensures |Pending(0, false)| == 8
    ensures forall i :: 0 <= i < 8 ==> Pending(0, false)[i] == (i / 2, i % 2 == 1)
  {
    AllPending();
    var ps := Pending(0, false);
    forall i | 0 <= i < 8 ensures ps[i] == (i / 2, i % 2 == 1) {
      assert i == 0 || i == 1 || i == 2 || i == 3 || i == 4 || i == 5 || i == 6 || i == 7;
    }
  }

  /** `transpositions()` on a grid: the grid itself is not touched. */
  method Transpositions<T(==)>(g: Grid<T>) returns (it: FlipIterator<T>)
    requires Transformable(g.store)
    ensures fresh(it) && it.Valid() && it.grid == g.store && it.rot == 0 && !it.flip
    ensures |it.Remaining()| == 8
    ensures forall i :: 0 <= i < 8 ==> it.Remaining()[i] == (i / 2, i % 2 == 1)
  {
    it := new FlipIterator(g.store, g.default);
    FreshPending();
  }
}
