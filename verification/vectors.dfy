/** The `Vec3` value type of RTI1W/Vec3.cs: three reals used as point, direction and colour. */
module Vectors {
  import opened RealArith

  /** Three components; reals stand for the source's doubles. */
  datatype Vec3 = Vec3(x: real, y: real, z: real)

  /** The coordinate axes, in the order the source always visits them. */
  datatype Axis = X | Y | Z

  /** The component of `v` along axis `a`. */
  function Get(v: Vec3, a: Axis): real {
    match a
    case X => v.x
    case Y => v.y
    case Z => v.z
  }

  /** The position of an axis in the order X, Y, Z. */
  function Index(a: Axis): nat {
    match a
    case X => 0
    case Y => 1
    case Z => 2
  }

  const Zero: Vec3 := Vec3(0.0, 0.0, 0.0)
  const One: Vec3 := Vec3(1.0, 1.0, 1.0)

  /** The threshold of `IsNearZero`, 1e-8. */
  const NearZeroThreshold: real := 0.00000001

  function Abs(r: real): (a: real)
    ensures a >= 0.0 && (a == r || a == -r)
  {
    if r < 0.0 then -r else r
  }

  predicate AllNonZero(v: Vec3) {
    v.x != 0.0 && v.y != 0.0 && v.z != 0.0
  }

  /** Unary `+`: the identity. */
  function Plus(a: Vec3): (r: Vec3)
    ensures r == a
  {
    Vec3(a.x, a.y, a.z)
  }

  function Add(a: Vec3, b: Vec3): (r: Vec3)
    ensures forall i :: Get(r, i) == Get(a, i) + Get(b, i)
  {
    Vec3(a.x + b.x, a.y + b.y, a.z + b.z)
  }

  function Neg(a: Vec3): (r: Vec3)
    ensures forall i :: Get(r, i) == -Get(a, i)
  {
    Vec3(-a.x, -a.y, -a.z)
  }

  function Sub(a: Vec3, b: Vec3): (r: Vec3)
    ensures forall i :: Get(r, i) == Get(a, i) - Get(b, i)
  {
    Vec3(a.x - b.x, a.y - b.y, a.z - b.z)
  }

  /** Componentwise product `a * b`. */
  function Mul(a: Vec3, b: Vec3): (r: Vec3)
    ensures forall i :: Get(r, i) == Get(a, i) * Get(b, i)
  {
    Vec3(a.x * b.x, a.y * b.y, a.z * b.z)
  }

  /** `a * s`, vector times scalar. */
  function Scale(a: Vec3, s: real): (r: Vec3)
    ensures forall i :: Get(r, i) == Get(a, i) * s
  {
    Vec3(a.x * s, a.y * s, a.z * s)
  }

  /** `s * a`, scalar times vector. */
  function ScaleLeft(s: real, a: Vec3): (r: Vec3)
    ensures forall i :: Get(r, i) == s * Get(a, i)
  {
    Vec3(s * a.x, s * a.y, s * a.z)
  }

  /** Componentwise quotient `a / b`. */
  function Div(a: Vec3, b: Vec3): (r: Vec3)
    requires AllNonZero(b)
    ensures forall i :: Get(r, i) * Get(b, i) == Get(a, i)
  {
    Vec3(a.x / b.x, a.y / b.y, a.z / b.z)
  }

  /** `a / s`, vector over scalar. */
  function DivScalar(a: Vec3, s: real): (r: Vec3)
    requires s != 0.0
    ensures forall i :: Get(r, i) * s == Get(a, i)
  {
    Vec3(a.x / s, a.y / s, a.z / s)
  }

  /** `s / b`, scalar over each component. */
  function ScalarDiv(s: real, b: Vec3): (r: Vec3)
    requires AllNonZero(b)
    ensures forall i :: Get(r, i) * Get(b, i) == s
  {
    Vec3(s / b.x, s / b.y, s / b.z)
  }

  /** `LengthSquared`: the sum of the squared components; zero exactly for the zero vector. */
  function LengthSquared(v: Vec3): (r: real)
    ensures r >= 0.0
    ensures r > 0.0 <==> v != Zero
  {
    SquarePosIff(v.x);
    SquarePosIff(v.y);
    SquarePosIff(v.z);
    SumOfNonnegZero(Sq(v.x), Sq(v.y), Sq(v.z));
    Sq(v.x) + Sq(v.y) + Sq(v.z)
  }

  predicate IsNearZero(v: Vec3) {
    Abs(v.x) < NearZeroThreshold && Abs(v.y) < NearZeroThreshold && Abs(v.z) < NearZeroThreshold
  }

  /** `Equals` and `==`: all three components equal. */
  predicate Equals(a: Vec3, b: Vec3) {
    a.x == b.x && a.y == b.y && a.z == b.z
  }

  /** `!=`: the negation of `==`. */
  predicate NotEquals(a: Vec3, b: Vec3) {
    !Equals(a, b)
  }

  lemma EqualsIsIdentity(a: Vec3, b: Vec3)
    ensures Equals(a, b) <==> a == b
    ensures NotEquals(a, b) <==> a != b
  {
  }

  lemma AddCommutes(a: Vec3, b: Vec3)
    ensures Add(a, b) == Add(b, a)
  {
  }

  lemma AddAssociates(a: Vec3, b: Vec3, c: Vec3)
    ensures Add(Add(a, b), c) == Add(a, Add(b, c))
  {
  }

  lemma ScaleCommutes(a: Vec3, s: real)
    ensures Scale(a, s) == ScaleLeft(s, a)
  {
  }

  lemma NegInvolution(a: Vec3)
    ensures Neg(Neg(a)) == a
  {
  }

  lemma SubIsAddNeg(a: Vec3, b: Vec3)
    ensures Sub(a, b) == Add(a, Neg(b))
  {
  }

  /** Subtraction undoes addition. */
  lemma SubUndoesAdd(a: Vec3, b: Vec3)
    ensures Sub(Add(a, b), b) == a
    ensures Add(Sub(a, b), b) == a
  {
  }

  /** Division undoes multiplication, componentwise and by a scalar. */
  lemma DivUndoesMul(a: Vec3, b: Vec3, s: real)
    requires AllNonZero(b) && s != 0.0
    ensures Div(Mul(a, b), b) == a
    ensures DivScalar(Scale(a, s), s) == a
  {
    assert a.x * b.x / b.x == a.x && a.y * b.y / b.y == a.y && a.z * b.z / b.z == a.z;
    assert a.x * s / s == a.x && a.y * s / s == a.y && a.z * s / s == a.z;
  }

  /** A near-zero vector is short: its squared length is below 3e-16. */
  lemma NearZeroIsShort(v: Vec3)
    requires IsNearZero(v)
    ensures LengthSquared(v) < 3.0 * Sq(NearZeroThreshold)
  {
    SquareBelow(v.x, NearZeroThreshold);
    SquareBelow(v.y, NearZeroThreshold);
    SquareBelow(v.z, NearZeroThreshold);
  }
}
