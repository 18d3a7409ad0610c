/** source/linear_algebra/Vector.ts, without the operations that need a square root. */
module Vectors {

  /** The value of a two-dimensional vector, over exact reals. */
  datatype Vec = Vec(x: real, y: real) {

    /** `Vector.add(u, v)`: component-wise sum. */
    function Plus(v: Vec): (w: Vec)
      ensures w.x - v.x == x && w.y - v.y == y
    {
      Vec(x + v.x, y + v.y)
    }

    /** `Vector.subtract(u, v)`: component-wise difference. */
    function Minus(v: Vec): (w: Vec)
      ensures w.x + v.x == x && w.y + v.y == y
    {
      Vec(x - v.x, y - v.y)
    }

    /** `Vector.scale(u, scalar)`. */
    function Scale(scalar: real): (w: Vec)
      ensures scalar == 1.0 ==> w == this
      ensures scalar == 0.0 ==> w == Zero
    {
      Vec(x * scalar, y * scalar)
    }

    /** `Vector.negative(u)`. */
    function Negative(): (w: Vec)
      ensures w.Plus(this) == Zero
    {
      Vec(-x, -y)
    }

    /** `dot`: the scalar product. */
    function Dot(v: Vec): real
    {
      x * v.x + y * v.y
    }

    /** `cross`: the z-component of the cross product. */
    function Cross(v: Vec): real
    {
      x * v.y - y * v.x
    }

    /** `length_squared`: never negative. */
    function LengthSquared(): (r: real)
      ensures r >= 0.0
    {
      x * x + y * y
    }

    /** `distance_squared_to`: the squared length of `v - this`. */
    function DistanceSquaredTo(v: Vec): (r: real)
      ensures r == v.Minus(this).LengthSquared()
    {
      var dx := v.x - x;
      var dy := v.y - y;
      dx * dx + dy * dy
    }
  }

  const Zero: Vec := Vec(0.0, 0.0)

  /** `Vector.uniform(value)`. */
  function Uniform(value: real): (v: Vec)
    ensures v.x == v.y == value
  {
    Vec(value, value)
  }

  /** Negating twice gives back the vector. */
  lemma NegativeInvolutive(u: Vec)
    ensures u.Negative().Negative() == u
  {
  }

  /** Adding then subtracting the same vector gives back the original, over exact reals. */
  lemma PlusMinusRoundTrip(u: Vec, w: Vec)
    ensures u.Plus(w).Minus(w) == u
  {
  }

  /** The dot product is symmetric and the squared length is the dot product with itself. */
  lemma DotProperties(u: Vec, v: Vec)
    ensures u.Dot(v) == v.Dot(u)
    ensures u.LengthSquared() == u.Dot(u)
  {
  }

  /** The cross product is antisymmetric, so a vector crossed with itself is zero. */
  lemma CrossProperties(u: Vec, v: Vec)
    ensures u.Cross(v) == -v.Cross(u)
    ensures u.Cross(u) == 0.0
  {
  }

  /** The squared distance is symmetric. */
  lemma DistanceSquaredSymmetric(u: Vec, v: Vec)
    ensures u.DistanceSquaredTo(v) == v.DistanceSquaredTo(u)
  {
    NegatedSquare(v.x - u.x);
    NegatedSquare(v.y - u.y);
  }

  /** The squared distance is never negative, and zero from a vector to itself. */
  lemma DistanceSquaredNonNegative(u: Vec, v: Vec)
    ensures u.DistanceSquaredTo(v) >= 0.0
    ensures u.DistanceSquaredTo(u) == 0.0
  {
  }

  lemma NegatedSquare(a: real)
    ensures (-a) * (-a) == a * a
  {
  }

  /** A vector object whose components the in-place operations overwrite. */
  class Vector {
    var x: real
    var y: real

    constructor (x: real, y: real)
      ensures this.x == x && this.y == y
    {
      this.x := x;
      this.y := y;
    }

    function Value(): Vec
      reads this
    {
      Vec(x, y)
    }

    /** `Vector.duplicate(other)`: a fresh copy. */
    static method Duplicate(other: Vector) returns (v: Vector)
      ensures fresh(v) && v.Value() == other.Value()
    {
      v := new Vector(other.x, other.y);
    }

    /** `Vector.negative(u)`: a fresh vector; `u` is not changed. */
    static method Negative(u: Vector) returns (v: Vector)
      ensures fresh(v) && v.Value() == u.Value().Negative()
    {
      v := new Vector(-u.x, -u.y);
    }

    /** `Vector.add(u, v)`: a fresh vector; the inputs are not changed. */
    static method Sum(u: Vector, v: Vector) returns (w: Vector)
      ensures fresh(w) && w.Value() == u.Value().Plus(v.Value())
    {
      w := new Vector(u.x + v.x, u.y + v.y);
    }

    /** `Vector.subtract(u, v)`: a fresh vector; the inputs are not changed. */
    static method Difference(u: Vector, v: Vector) returns (w: Vector)
      ensures fresh(w) && w.Value() == u.Value().Minus(v.Value())
    {
      w := new Vector(u.x - v.x, u.y - v.y);
    }

    /** `Vector.scale(u, scalar)`: a fresh vector; the input is not changed. */
    static method Scaled(u: Vector, scalar: real) returns (w: Vector)
      ensures fresh(w) && w.Value() == u.Value().Scale(scalar)
    {
      w := new Vector(u.x * scalar, u.y * scalar);
    }

    /** `negate()`, in place; returns this. */
    method Negate() returns (self: Vector)
      modifies this
      ensures self == this
      ensures Value() == old(Value()).Negative()
    {
      x := -x;
      y := -y;
      self := this;
    }

    /** `assign(other)`, in place; returns this and leaves `other` as it was. */
    method Assign(other: Vector) returns (self: Vector)
      modifies this
      ensures self == this
      ensures Value() == old(other.Value())
      ensures other.Value() == old(other.Value())
    {
      x := other.x;
      y := other.y;
      self := this;
    }

    /** `add(other)`, in place; returns this. */
    method Add(other: Vector) returns (self: Vector)
      modifies this
      ensures self == this
      ensures Value() == old(Value()).Plus(old(other.Value()))
    {
      x := x + other.x;
      y := y + other.y;
      self := this;
    }

    /** `subtract(other)`, in place; returns this. */
    method Subtract(other: Vector) returns (self: Vector)
      modifies this
      ensures self == this
      ensures Value() == old(Value()).Minus(old(other.Value()))
    {
      x := x - other.x;
      y := y - other.y;
      self := this;
    }

    /** `scale(scalar)`, in place; returns this. */
    method Scale(scalar: real) returns (self: Vector)
      modifies this
      ensures self == this
      ensures Value() == old(Value()).Scale(scalar)
    {
      x := x * scalar;
      y := y * scalar;
      self := this;
    }
  }

  /** In place, `add(w)` followed by `subtract(w)` restores the vector; negating twice does too. */
  method AddSubtractRestores(u: Vector, w: Vector)
    requires u != w
    modifies u
    ensures u.Value() == old(u.Value())
  {
    var _ := u.Add(w);
    var _ := u.Subtract(w);
    PlusMinusRoundTrip(old(u.Value()), w.Value());
  }

  method NegateTwiceRestores(u: Vector)
    modifies u
    ensures u.Value() == old(u.Value())
  {
    var _ := u.Negate();
    var _ := u.Negate();
  }
}
