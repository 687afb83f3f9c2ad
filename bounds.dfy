/**
 * The least and greatest element of a finite non-empty set of integers: what
 * `iter().map(..).min()` / `.max()` compute over a map's keys in the sparse
 * `extents` implementations.
 */
module Bounds {

  /** A set that is not empty has a member. */
  lemma HasMember(xs: set<int>)
    requires xs != {}
    ensures exists w :: w in xs
  {
    if forall w :: w !in xs {
      assert false;
    }
  }

  predicate IsLeast(m: int, xs: set<int>) { m in xs && forall y :: y in xs ==> m <= y }
  predicate IsGreatest(m: int, xs: set<int>) { m in xs && forall y :: y in xs ==> y <= m }

  /** Every finite set containing `x` has a least element. */
  lemma {:induction false} LeastExists(xs: set<int>, x: int)
    requires x in xs
    ensures exists m :: IsLeast(m, xs)
    decreases |xs|
  {
    var rest := xs - {x};
    if rest == {} {
      assert xs == {x};
      assert IsLeast(x, xs);
    } else {
      HasMember(rest);
      var w :| w in rest;
      LeastExists(rest, w);
      var m :| IsLeast(m, rest);
      assert forall y :: y in xs ==> y == x || y in rest;
      if x < m { assert IsLeast(x, xs); } else { assert IsLeast(m, xs); }
    }
  }

  /** Every finite set containing `x` has a greatest element. */
  lemma {:induction false} GreatestExists(xs: set<int>, x: int)
    requires x in xs
    ensures exists m :: IsGreatest(m, xs)
    decreases |xs|
  {
    var rest := xs - {x};
    if rest == {} {
      assert xs == {x};
      assert IsGreatest(x, xs);
    } else {
      HasMember(rest);
      var w :| w in rest;
      GreatestExists(rest, w);
      var m :| IsGreatest(m, rest);
      assert forall y :: y in xs ==> y == x || y in rest;
      if x > m { assert IsGreatest(x, xs); } else { assert IsGreatest(m, xs); }
    }
  }

  function MinOf(xs: set<int>): (m: int)
    requires xs != {}
    ensures IsLeast(m, xs)
  {
    HasMember(xs);
    var x :| x in xs;
    LeastExists(xs, x);
    var m :| IsLeast(m, xs); m
  }

  function MaxOf(xs: set<int>): (m: int)
    requires xs != {}
    ensures IsGreatest(m, xs)
  {
    HasMember(xs);
    var x :| x in xs;
    GreatestExists(xs, x);
    var m :| IsGreatest(m, xs); m
  }

  /** The least element is unique, so any witness of IsLeast is MinOf. */
  lemma MinOfIs(xs: set<int>, m: int)
    requires IsLeast(m, xs)
    ensures MinOf(xs) == m
  {
  }

  lemma MaxOfIs(xs: set<int>, m: int)
    requires IsGreatest(m, xs)
    ensures MaxOf(xs) == m
  {
  }
}
