/** src/DoubleVector.java: a vector is an n x 1 matrix. The object side (the
    component array, `get`, `set` and the two accumulating loops) is the
    class `DoubleVector`; the operations that build a new vector (`basis`,
    `add`, `scale`, `subtract`, `crossProduct`, `project`) are functions on
    vector values. */
module Vectors {
  import opened Wrappers
  import opened FloatMath
  import opened Matrices

  /** The i-th component of a vector value. */
  function Comp(v: Vec, i: int): real {
    At(v, i, 0)
  }

  /** Adding one more pair to a dot product accumulated from the front. */
  lemma DotStep(a: seq<real>, b: seq<real>, i: nat, x: real, y: real)
    requires |a| == |b| && i < |a| && x == a[i] && y == b[i]
    ensures Dot(a[..i + 1], b[..i + 1]) == Dot(a[..i], b[..i]) + x * y
  {
    assert a[..i + 1][..i] == a[..i];
    assert b[..i + 1][..i] == b[..i];
  }

  /** The dot product of two three-component sequences, written out. */
  lemma Dot3(a: seq<real>, b: seq<real>)
    requires |a| == |b| == 3
    ensures Dot(a, b) == a[0] * b[0] + a[1] * b[1] + a[2] * b[2]
  {
    DotStep(a, b, 0, a[0], b[0]);
    DotStep(a, b, 1, a[1], b[1]);
    DotStep(a, b, 2, a[2], b[2]);
    assert a[..0] == [] && b[..0] == [];
    assert a[..3] == a && b[..3] == b;
  }

  // --------------------------------------------------------- the object

  class DoubleVector {
    const rows: nat
    /** The component array, one entry per row of the n x 1 matrix. */
    const data: array<real>

    ghost predicate Valid() {
      data.Length == rows
    }

    /** The vector the array currently holds. */
    function Value(): (v: Vec)
      reads data
      requires Valid()
      ensures v.rows == rows && Components(v) == data[..]
    {
      VectorOf(data[..])
    }

    /** `DoubleVector(length)`: the zero vector, an n x 1 zero matrix. */
    constructor Zeros(length: nat)
      ensures Valid() && fresh(data)
      ensures Value() == Matrices.Zeros(length, 1)
    {
      rows := length;
      data := new real[length](_ => 0.0);
      new;
      Extensionality(Value(), Matrices.Zeros(length, 1));
    }

    /** `DoubleVector(length, entry)`: every component is `entry`. */
    constructor Filled(length: nat, entry: real)
      ensures Valid() && fresh(data)
      ensures Value() == Matrices.Filled(length, 1, entry)
    {
      rows := length;
      data := new real[length](_ => entry);
      new;
      Extensionality(Value(), Matrices.Filled(length, 1, entry));
    }

    /** `DoubleVector(double... vector)`: the n x 1 matrix built from the n
        values by the flat-list matrix constructor. */
    constructor FromComponents(values: seq<real>)
      ensures Valid() && fresh(data)
      ensures Value() == FromEntries(|values|, 1, values)
    {
      rows := |values|;
      data := new real[|values|](i requires 0 <= i < |values| => values[i]);
      new;
      forall r, c | 0 <= r < |values| && 0 <= c < 1
        ensures At(Value(), r, c) == At(FromEntries(|values|, 1, values), r, c)
      {
        FromEntriesCell(|values|, 1, values, r, c);
      }
      Extensionality(Value(), FromEntries(|values|, 1, values));
    }

    /** `get(index)` AS WRITTEN: the guard rejects only `index > rows` and
        negative indices, so `index == rows` passes it and then fails on the
        array. */
    function Get(index: int): (r: Result<real>)
      reads data
      requires Valid()
      ensures r.Ok? <==> 0 <= index < rows
      ensures r.Err? ==> r.error == (if index == rows then IndexOutOfBounds else IllegalArgument)
      ensures r.Ok? ==> r.value == Comp(Value(), index)
    {
      if index > rows || index < 0 then Err(IllegalArgument)
      else if index == rows then Err(IndexOutOfBounds)
      else Ok(data[index])
    }

    /** `set(index, entry)` AS WRITTEN, with the same guard as `get`. */
    method Set(index: int, entry: real) returns (r: Outcome)
      requires Valid()
      modifies data
      ensures r.Pass? <==> 0 <= index < rows
      ensures r.Fail? ==> r.error == (if index == rows then IndexOutOfBounds else IllegalArgument)
      ensures r.Fail? ==> data[..] == old(data[..])
      ensures r.Pass? ==> Components(Value()) == Components(old(Value()))[index := entry]
    {
      if index > rows || index < 0 {
        return Fail(IllegalArgument);
      }
      if index == rows {
        return Fail(IndexOutOfBounds);
      }
      data[index] := entry;
      r := Pass;
    }

    /** The evidently intended `get(index)`: every index outside the vector
        is rejected by the guard itself. */
    function GetChecked(index: int): (r: Result<real>)
      reads data
      requires Valid()
      ensures r.Ok? <==> 0 <= index < rows
      ensures r.Err? ==> r.error == IllegalArgument
      ensures r.Ok? ==> r.value == Comp(Value(), index)
    {
      if index >= rows || index < 0 then Err(IllegalArgument) else Ok(data[index])
    }

    /** The evidently intended `set(index, entry)`. */
    method SetChecked(index: int, entry: real) returns (r: Outcome)
      requires Valid()
      modifies data
      ensures r.Pass? <==> 0 <= index < rows
      ensures r.Fail? ==> r.error == IllegalArgument && data[..] == old(data[..])
      ensures r.Pass? ==> Components(Value()) == Components(old(Value()))[index := entry]
    {
      if index >= rows || index < 0 {
        return Fail(IllegalArgument);
      }
      data[index] := entry;
      r := Pass;
    }

    /** `dotProduct(other)`: rejects vectors of different lengths; otherwise
        accumulates get(i) * other.get(i) from the first component on, which
        is the dot product of the two component sequences. */
    method DotProduct(other: DoubleVector) returns (r: Result<real>)
      requires Valid() && other.Valid()
      ensures r.Ok? <==> rows == other.rows
      ensures r.Err? ==> r.error == IllegalArgument
      ensures r.Ok? ==> r.value == Dot(Components(Value()), Components(other.Value()))
    {
      if rows != other.rows {
        return Err(IllegalArgument);
      }
      ghost var a, b := data[..], other.data[..];
      var product := 0.0;
      var i := 0;
      while i < rows
        invariant 0 <= i <= rows
        invariant product == Dot(a[..i], b[..i])
      {
        var x, y := Get(i).value, other.Get(i).value;
        DotStep(a, b, i, x, y);
        product := product + x * y;
        i := i + 1;
      }
      assert a[..i] == a && b[..i] == b;
      r := Ok(product);
    }

    /** `squareLength`: accumulates the square of each component, which is
        the dot product of the vector with itself, and so never negative. */
    method SquareLength() returns (squareSum: real)
      requires Valid()
      ensures squareSum == Dot(Components(Value()), Components(Value()))
      ensures squareSum >= 0.0
    {
      ghost var a := data[..];
      squareSum := 0.0;
      var i := 0;
      while i < rows
        invariant 0 <= i <= rows
        invariant squareSum == Dot(a[..i], a[..i])
      {
        var component := Get(i).value;
        DotStep(a, a, i, component, component);
        squareSum := squareSum + component * component;
        i := i + 1;
      }
      assert a[..i] == a;
      DotSelfNonNegative(a);
    }
  }

  /** For every index inside the vector the guard as written and the intended
      guard agree; they differ at exactly one index, the length itself. */
  lemma GetGuardsAgreeInside(v: DoubleVector, index: int)
    requires v.Valid()
    ensures index != v.rows ==> v.Get(index) == v.GetChecked(index)
    ensures v.Get(v.rows) == Err(IndexOutOfBounds) && v.GetChecked(v.rows) == Err(IllegalArgument)
  {
  }

  // ------------------------------------------------------- vector values

  /** `basis(length, coordinate)`: rejects a coordinate outside [0, length);
      otherwise a zero vector of that length with 1 written at `coordinate`. */
  function Basis(length: int, coordinate: int): (r: Result<Vec>)
    ensures r.Ok? <==> 0 <= coordinate < length
    ensures r.Err? ==> r.error == IllegalArgument
    ensures r.Ok? ==> r.value.rows == length
  {
    if coordinate < 0 || coordinate >= length then Err(IllegalArgument)
    else Ok(VectorOf(seq(length, _ => 0.0)[coordinate := 1.0]))
  }

  /** The basis vector for `coordinate` is that column of the identity. */
  lemma BasisIsIdentityColumn(length: int, coordinate: int)
    requires 0 <= coordinate < length
    ensures Components(Basis(length, coordinate).value) == Column(Identity(length).value, coordinate)
  {
  }

  /** Against a basis vector the dot product picks out one component. */
  lemma BasisPicksComponent(v: Vec, coordinate: int)
    requires 0 <= coordinate < v.rows
    ensures Dot(Components(Basis(v.rows, coordinate).value), Components(v)) == Comp(v, coordinate)
  {
    DotUnit(Components(Basis(v.rows, coordinate).value), Components(v), coordinate);
  }

  /** `add(other)`: rejects vectors of different lengths; otherwise adds
      component by component. */
  function Add(a: Vec, b: Vec): (r: Result<Vec>)
    ensures r.Ok? <==> a.rows == b.rows
    ensures r.Err? ==> r.error == IllegalArgument
    ensures r.Ok? ==> r.value.rows == a.rows
  {
    if a.rows != b.rows then Err(IllegalArgument)
    else Ok(VectorOf(seq(a.rows, i => Comp(a, i) + Comp(b, i))))
  }

  /** `scale(scalar)`: every component times the scalar. */
  function Scale(a: Vec, scalar: real): (r: Vec)
    ensures r.rows == a.rows
  {
    VectorOf(seq(a.rows, i => Comp(a, i) * scalar))
  }

  /** `subtract(subtrahend)`: `add(subtrahend.scale(-1))`. */
  function Subtract(a: Vec, b: Vec): (r: Result<Vec>)
    ensures r.Ok? <==> a.rows == b.rows
    ensures r.Err? ==> r.error == IllegalArgument
    ensures r.Ok? ==> r.value.rows == a.rows
    ensures r.Ok? ==> forall i :: 0 <= i < a.rows ==> Comp(r.value, i) == Comp(a, i) - Comp(b, i)
  {
    Add(a, Scale(b, -1.0))
  }

  /** The vector sum is the matrix sum of the two n x 1 matrices. */
  lemma AddIsMatrixAdd(a: Vec, b: Vec)
    ensures Add(a, b).Ok? <==> Matrices.Add(a, b).Ok?
    ensures Add(a, b).Ok? ==> Add(a, b).value == Matrices.Add(a, b).value
  {
    if a.rows == b.rows {
      Extensionality(Add(a, b).value, Matrices.Add(a, b).value);
    }
  }

  /** The scaled vector is the scaled n x 1 matrix. */
  lemma ScaleIsMatrixScale(a: Vec, scalar: real)
    ensures Scale(a, scalar) == Matrices.Scale(a, scalar)
  {
    Extensionality(Scale(a, scalar), Matrices.Scale(a, scalar));
  }

  /** Adding back what was subtracted gives the original vector. */
  lemma SubtractThenAdd(a: Vec, b: Vec)
    requires a.rows == b.rows
    ensures Add(Subtract(a, b).value, b).value == a
  {
    Extensionality(Add(Subtract(a, b).value, b).value, a);
  }

  /** Adding is commutative. */
  lemma AddCommutes(a: Vec, b: Vec)
    requires a.rows == b.rows
    ensures Add(a, b) == Add(b, a)
  {
    Extensionality(Add(a, b).value, Add(b, a).value);
  }

  /** `crossProduct(other)`: rejects unless both vectors have three
      components; component i is a[next] * b[prev] - a[prev] * b[next] with
      next = (i + 1) % 3 and prev = (i + 2) % 3. */
  function Cross(a: Vec, b: Vec): (r: Result<Vec>)
    ensures r.Ok? <==> a.rows == 3 && b.rows == 3
    ensures r.Err? ==> r.error == IllegalArgument
    ensures r.Ok? ==> r.value.rows == 3
  {
    if a.rows != 3 || b.rows != 3 then Err(IllegalArgument)
    else Ok(VectorOf(seq(3, i => CrossComponent(a, b, i))))
  }

  /** Component i of the cross product, with next = (i + 1) % 3 and
      prev = (i + 2) % 3. */
  function CrossComponent(a: Vec, b: Vec, i: int): real {
    var next, prev := (i + 1) % 3, (i + 2) % 3;
    Comp(a, next) * Comp(b, prev) - Comp(a, prev) * Comp(b, next)
  }

  /** The index arithmetic of `crossProduct` gives the textbook formula. */
  lemma CrossComponents(a: Vec, b: Vec)
    requires a.rows == 3 && b.rows == 3
    ensures Comp(Cross(a, b).value, 0) == Comp(a, 1) * Comp(b, 2) - Comp(a, 2) * Comp(b, 1)
    ensures Comp(Cross(a, b).value, 1) == Comp(a, 2) * Comp(b, 0) - Comp(a, 0) * Comp(b, 2)
    ensures Comp(Cross(a, b).value, 2) == Comp(a, 0) * Comp(b, 1) - Comp(a, 1) * Comp(b, 0)
  {
    var c := Cross(a, b).value;
    assert Components(c) == seq(3, i => CrossComponent(a, b, i));
    assert Comp(c, 0) == Components(c)[0] == CrossComponent(a, b, 0);
    assert Comp(c, 1) == Components(c)[1] == CrossComponent(a, b, 1);
    assert Comp(c, 2) == Components(c)[2] == CrossComponent(a, b, 2);
  }

  /** Swapping the operands negates the cross product. */
  lemma CrossAnticommutes(a: Vec, b: Vec)
    requires a.rows == 3 && b.rows == 3
    ensures Cross(a, b).value == Scale(Cross(b, a).value, -1.0)
  {
    CrossComponents(a, b);
    CrossComponents(b, a);
    var l, r := Cross(a, b).value, Scale(Cross(b, a).value, -1.0);
    forall i, j | 0 <= i < 3 && 0 <= j < 1
      ensures At(l, i, j) == At(r, i, j)
    {
      assert Comp(r, i) == Comp(Cross(b, a).value, i) * -1.0;
    }
    Extensionality(l, r);
  }

  /** The cross product is orthogonal to both of its operands. */
  lemma CrossOrthogonal(a: Vec, b: Vec)
    requires a.rows == 3 && b.rows == 3
    ensures Dot(Components(a), Components(Cross(a, b).value)) == 0.0
    ensures Dot(Components(b), Components(Cross(a, b).value)) == 0.0
  {
    var c := Cross(a, b).value;
    CrossComponents(a, b);
    Dot3(Components(a), Components(c));
    Dot3(Components(b), Components(c));
    var a0, a1, a2 := Comp(a, 0), Comp(a, 1), Comp(a, 2);
    var b0, b1, b2 := Comp(b, 0), Comp(b, 1), Comp(b, 2);
    assert a0 * (a1 * b2 - a2 * b1) + a1 * (a2 * b0 - a0 * b2) + a2 * (a0 * b1 - a1 * b0) == 0.0;
    assert b0 * (a1 * b2 - a2 * b1) + b1 * (a2 * b0 - a0 * b2) + b2 * (a0 * b1 - a1 * b0) == 0.0;
  }

  /** `project(onto)`: rejects a vector to project onto whose square length
      is zero within tolerance, and (through `dotProduct`) vectors of
      different lengths; otherwise `onto` scaled by dot(a, onto) divided by
      dot(onto, onto). */
  function Project(tol: real, a: Vec, onto: Vec): (r: Result<Vec>)
    requires tol > 0.0
    ensures r.Ok? <==> !IsZero(tol, Dot(Components(onto), Components(onto))) && a.rows == onto.rows
    ensures r.Err? ==> r.error == IllegalArgument
    ensures r.Ok? ==> r.value.rows == onto.rows
  {
    var ontoSquareLength := Dot(Components(onto), Components(onto));
    if IsZero(tol, ontoSquareLength) then Err(IllegalArgument)
    else if a.rows != onto.rows then Err(IllegalArgument)
    else Ok(Scale(onto, Dot(Components(a), Components(onto)) / ontoSquareLength))
  }

  /** The components of a scaled vector. */
  lemma ScaledComponents(a: Vec, c: real)
    ensures forall i :: 0 <= i < a.rows ==> Components(Scale(a, c))[i] == Components(a)[i] * c
  {
  }

  /** The components of a minus c times b. */
  lemma ResidualComponents(a: Vec, b: Vec, c: real)
    requires a.rows == b.rows
    ensures Subtract(a, Scale(b, c)).Ok?
    ensures Components(Subtract(a, Scale(b, c)).value) == Residual(Components(a), Components(b), c)
  {
    ScaledComponents(b, c);
    var r := Components(Subtract(a, Scale(b, c)).value);
    assert forall i :: 0 <= i < a.rows ==> r[i] == Residual(Components(a), Components(b), c)[i];
  }

  /** Taking (d / sq) times sq away from d leaves nothing. */
  lemma NothingLeft(d: real, sq: real, c: real, rest: real)
    requires sq != 0.0 && c == d / sq && rest == d - c * sq
    ensures rest == 0.0
  {
  }

  /** Taking c times b away from a takes c times dot(b, b) away from
      dot(a, b). */
  lemma ResidualDot(a: Vec, b: Vec, c: real)
    requires a.rows == b.rows
    ensures Subtract(a, Scale(b, c)).Ok?
    ensures Dot(Components(Subtract(a, Scale(b, c)).value), Components(b))
            == Dot(Components(a), Components(b)) - c * Dot(Components(b), Components(b))
  {
    ResidualComponents(a, b, c);
    DotOfResidual(Components(a), Components(b), c);
  }

  /** What is left after taking away the projection is orthogonal to the
      vector projected onto. */
  lemma ProjectionResidualOrthogonal(tol: real, a: Vec, onto: Vec)
    requires tol > 0.0 && Project(tol, a, onto).Ok?
    ensures Dot(Components(Subtract(a, Project(tol, a, onto).value).value), Components(onto)) == 0.0
  {
    var av, bv := Components(a), Components(onto);
    var sq := Dot(bv, bv);
    var c := Dot(av, bv) / sq;
    assert Project(tol, a, onto) == Ok(Scale(onto, c));
    ResidualDot(a, onto, c);
    NothingLeft(Dot(av, bv), sq, c, Dot(Components(Subtract(a, Scale(onto, c)).value), bv));
  }

  /** A projection lies on the line of `onto`: it is `onto` scaled. */
  lemma ProjectionOnLine(tol: real, a: Vec, onto: Vec)
    requires tol > 0.0 && Project(tol, a, onto).Ok?
    ensures exists c :: Project(tol, a, onto).value == Scale(onto, c)
  {
    var bv := Components(onto);
    var c := Dot(Components(a), bv) / Dot(bv, bv);
    assert Project(tol, a, onto).value == Scale(onto, c);
  }

  /** The projection is the only multiple of `onto` that leaves a residual
      orthogonal to `onto`. */
  lemma ProjectionUnique(tol: real, a: Vec, onto: Vec, c: real)
    requires tol > 0.0 && Project(tol, a, onto).Ok?
    requires Dot(Components(Subtract(a, Scale(onto, c)).value), Components(onto)) == 0.0
    ensures Scale(onto, c) == Project(tol, a, onto).value
  {
    var av, bv := Components(a), Components(onto);
    assert Project(tol, a, onto) == Ok(Scale(onto, Dot(av, bv) / Dot(bv, bv)));
    ResidualDot(a, onto, c);
    QuotientOf(Dot(av, bv), Dot(bv, bv), c, Dot(Components(Subtract(a, Scale(onto, c)).value), bv));
  }

  /** The only c that leaves nothing of d after taking c times sq is d / sq. */
  lemma QuotientOf(d: real, sq: real, c: real, rest: real)
    requires sq != 0.0 && rest == d - c * sq && rest == 0.0
    ensures c == d / sq
  {
  }

  /** Projecting a projection again changes nothing. */
  lemma ProjectIdempotent(tol: real, a: Vec, onto: Vec)
    requires tol > 0.0 && Project(tol, a, onto).Ok?
    ensures Project(tol, Project(tol, a, onto).value, onto) == Project(tol, a, onto)
  {
    var av, bv := Components(a), Components(onto);
    var sq := Dot(bv, bv);
    var c := Dot(av, bv) / sq;
    var pv := Components(Scale(onto, c));
    ScaledComponents(onto, c);
    DotScaled(bv, bv, c, pv);
    DotSymmetric(pv, bv);
    assert Dot(pv, bv) / sq == c;
  }
}
