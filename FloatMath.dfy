/** The tolerance comparator of src/FloatMath.java. The Java class keeps the
    tolerance in one static mutable field; here the comparisons take the
    tolerance as an explicit parameter, and `Tolerance` is the object that
    holds the current value and lets a caller replace it. */
module FloatMath {

  /** The tolerance the Java class starts with. */
  const DefaultTolerance: real := 0.0001

  function Abs(x: real): (r: real)
    ensures r >= 0.0 && (r == x || r == -x)
  {
    if x < 0.0 then -x else x
  }

  /** `isZero`: the magnitude of `x` is strictly below the tolerance. */
  predicate IsZero(tol: real, x: real) {
    Abs(x) < tol
  }

  /** Specification of `areEqual`: every value is within tolerance of the first. */
  predicate AllNear(tol: real, numbers: seq<real>) {
    forall i :: 1 <= i < |numbers| ==> IsZero(tol, numbers[i] - numbers[0])
  }

  /** `areEqual`: compares every value after the first with the first one and
      stops at the first value that is not within tolerance. */
  method AreEqual(tol: real, numbers: seq<real>) returns (equal: bool)
    ensures equal <==> AllNear(tol, numbers)
    ensures |numbers| <= 1 ==> equal
  {
    equal := true;
    var i := 1;
    while i < |numbers|
      invariant 1 <= i
      invariant forall j :: 1 <= j < i && j < |numbers| ==> IsZero(tol, numbers[j] - numbers[0])
    {
      if !IsZero(tol, numbers[i] - numbers[0]) {
        equal := false;
        break;
      }
      i := i + 1;
    }
  }

  /** A value is zero exactly when its negation is. */
  lemma IsZeroOfNegation(tol: real, x: real)
    ensures IsZero(tol, -x) <==> IsZero(tol, x)
  {
  }

  /** With a tolerance that is not positive, nothing counts as zero. */
  lemma NothingIsZeroBelowZeroTolerance(tol: real, x: real)
    requires tol <= 0.0
    ensures !IsZero(tol, x)
  {
  }

  /** Zero or one value are always equal to each other. */
  lemma ShortListsAreEqual(tol: real, numbers: seq<real>)
    requires |numbers| <= 1
    ensures AllNear(tol, numbers)
  {
  }

  /** Two values are equal in the sense of `areEqual` exactly when their
      difference is zero: the comparison is symmetric. */
  lemma AreEqualPairSymmetric(tol: real, x: real, y: real)
    ensures AllNear(tol, [x, y]) <==> AllNear(tol, [y, x])
  {
    assert [x, y][1] - [x, y][0] == -([y, x][1] - [y, x][0]);
    IsZeroOfNegation(tol, y - x);
  }

  /** The process-wide tolerance of the Java class, as an object. */
  class Tolerance {
    var tolerance: real

    constructor ()
      ensures tolerance == DefaultTolerance
    {
      tolerance := DefaultTolerance;
    }

    /** `setTolerance`: no bounds check; every later comparison uses `t`. */
    method SetTolerance(t: real)
      modifies this
      ensures tolerance == t
      ensures forall x :: IsZero(tolerance, x) <==> Abs(x) < t
    {
      tolerance := t;
    }
  }
}
