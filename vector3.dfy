/** Three-component vectors over the reals: the value type every other part
    of the renderer is built on. Doubles are modelled as reals, so rounding
    is not part of this model. */
module Vector3Math {

  datatype Vector3 = Vector3(x: real, y: real, z: real)

  /** The default-constructed vector. */
  const Zero := Vector3(0.0, 0.0, 0.0)

  function Add(a: Vector3, b: Vector3): Vector3 {
    Vector3(a.x + b.x, a.y + b.y, a.z + b.z)
  }

  function Sub(a: Vector3, b: Vector3): Vector3 {
    Vector3(a.x - b.x, a.y - b.y, a.z - b.z)
  }

  function Scale(a: Vector3, f: real): Vector3 {
    Vector3(a.x * f, a.y * f, a.z * f)
  }

  /** Division by a scalar: one reciprocal, then a scaling. Undoing it with
      `Scale` by the same factor gives the vector back. */
  function Div(a: Vector3, f: real): (r: Vector3)
    requires f != 0.0
    ensures Scale(r, f) == a
  {
    var inv := 1.0 / f;
    Scale(a, inv)
  }

  function Dot(a: Vector3, b: Vector3): real {
    a.x * b.x + a.y * b.y + a.z * b.z
  }

  /** Squared length: never negative. */
  function LengthSquared(a: Vector3): (r: real)
    ensures r >= 0.0
  {
    SquareNonNegative(a.x);
    SquareNonNegative(a.y);
    SquareNonNegative(a.z);
    a.x * a.x + a.y * a.y + a.z * a.z
  }

  lemma ProductOfPositives(a: real, b: real)
    requires a > 0.0 && b > 0.0
    ensures a * b > 0.0
  {
  }

  lemma SquarePositive(v: real)
    requires v < 0.0 || v > 0.0
    ensures v * v > 0.0
  {
    if v > 0.0 {
      ProductOfPositives(v, v);
    } else {
      ProductOfPositives(-v, -v);
      assert (-v) * (-v) == v * v;
    }
  }

  lemma SquareNonNegative(v: real)
    ensures v * v >= 0.0
  {
    if v < 0.0 || v > 0.0 {
      SquarePositive(v);
    }
  }

  /** `sqrt` is a square root on the non-negative reals. */
  ghost predicate IsSquareRoot(sqrt: real -> real) {
    forall v: real {:trigger sqrt(v)} :: 0.0 <= v ==> 0.0 <= sqrt(v) && sqrt(v) * sqrt(v) == v
  }

  /** The unit vector in the direction of `a`, computed with one square root
      (supplied by the caller); the zero vector is returned unchanged instead
      of dividing by zero. */
  function Normalize(a: Vector3, sqrt: real -> real): (r: Vector3)
    requires IsSquareRoot(sqrt)
    ensures a == Zero ==> r == Zero
    ensures LengthSquared(a) != 0.0 ==> LengthSquared(r) == 1.0
    ensures LengthSquared(a) != 0.0 ==> exists k :: k > 0.0 && r == Scale(a, k)
  {
    var lengthSq := LengthSquared(a);
    if lengthSq == 0.0 then Zero
    else
      var s := sqrt(lengthSq);
      assert s * s == lengthSq;
      var invLength := 1.0 / s;
      UnitAfterScaling(a, s, invLength);
      assert s > 0.0 && invLength > 0.0;
      Scale(a, invLength)
  }

  lemma UnitAfterScaling(a: Vector3, s: real, inv: real)
    requires s * s == LengthSquared(a) && s != 0.0 && inv * s == 1.0
    ensures LengthSquared(Scale(a, inv)) == 1.0
  {
    calc {
      LengthSquared(Scale(a, inv));
      (a.x * inv) * (a.x * inv) + (a.y * inv) * (a.y * inv) + (a.z * inv) * (a.z * inv);
      LengthSquared(a) * (inv * inv);
      (s * s) * (inv * inv);
      (s * inv) * (s * inv);
    }
  }

  /** Projection onto `v` without dividing by |v|^2: it is the orthogonal
      projection only when `v` is a unit vector. */
  function ProjectOn(a: Vector3, v: Vector3): Vector3 {
    Scale(v, Dot(a, v))
  }

  /** Mirror image of `d` about the plane whose normal is `n`. */
  function Reflect(d: Vector3, n: Vector3): Vector3 {
    var proj := Scale(ProjectOn(d, n), -2.0);
    Add(proj, d)
  }

  function Cross(a: Vector3, b: Vector3): Vector3 {
    Vector3(a.y * b.z - a.z * b.y, a.z * b.x - a.x * b.z, a.x * b.y - a.y * b.x)
  }

  /** Componentwise reciprocal. A zero component would be an infinity in the
      floating-point original, so it is excluded here. */
  function Inverse(a: Vector3): (r: Vector3)
    requires a.x != 0.0 && a.y != 0.0 && a.z != 0.0
    ensures r.x * a.x == 1.0 && r.y * a.y == 1.0 && r.z * a.z == 1.0
  {
    Vector3(1.0 / a.x, 1.0 / a.y, 1.0 / a.z)
  }

  // ---------------------------------------------------------------------------
  // Algebraic identities

  lemma AddSubInverse(a: Vector3, b: Vector3)
    ensures Sub(Add(a, b), b) == a
    ensures Add(Sub(a, b), b) == a
  {
  }

  lemma DotSymmetric(a: Vector3, b: Vector3)
    ensures Dot(a, b) == Dot(b, a)
  {
  }

  lemma DotSelfIsLengthSquared(a: Vector3)
    ensures Dot(a, a) == LengthSquared(a)
  {
  }

  /** Against a unit vector, the projection keeps the component along it and
      what is left over is orthogonal to it. */
  lemma ProjectOnUnit(a: Vector3, v: Vector3)
    requires LengthSquared(v) == 1.0
    ensures Dot(ProjectOn(a, v), v) == Dot(a, v)
    ensures Dot(Sub(a, ProjectOn(a, v)), v) == 0.0
  {
    var k := Dot(a, v);
    calc {
      Dot(ProjectOn(a, v), v);
      (v.x * k) * v.x + (v.y * k) * v.y + (v.z * k) * v.z;
      k * LengthSquared(v);
    }
    calc {
      Dot(Sub(a, ProjectOn(a, v)), v);
      (a.x - v.x * k) * v.x + (a.y - v.y * k) * v.y + (a.z - v.z * k) * v.z;
      Dot(a, v) - k * LengthSquared(v);
    }
  }

  /** Reflection written out componentwise: `d - 2 (d . n) n`. */
  lemma ReflectComponents(d: Vector3, n: Vector3)
    ensures Reflect(d, n) == Sub(d, Scale(n, 2.0 * Dot(d, n)))
  {
  }

  /** Reflection about a unit normal flips the normal component. */
  lemma ReflectFlipsNormalComponent(d: Vector3, n: Vector3)
    requires LengthSquared(n) == 1.0
    ensures Dot(Reflect(d, n), n) == -Dot(d, n)
  {
    var k := Dot(d, n);
    ReflectComponents(d, n);
    var r := Sub(d, Scale(n, 2.0 * k));
    calc {
      Dot(r, n);
      (d.x - n.x * (2.0 * k)) * n.x + (d.y - n.y * (2.0 * k)) * n.y + (d.z - n.z * (2.0 * k)) * n.z;
      k - (2.0 * k) * (n.x * n.x + n.y * n.y + n.z * n.z);
      k - (2.0 * k) * LengthSquared(n);
      -k;
    }
  }

  /** Reflecting twice about the same unit normal gives the direction back. */
  lemma ReflectInvolutive(d: Vector3, n: Vector3)
    requires LengthSquared(n) == 1.0
    ensures Reflect(Reflect(d, n), n) == d
  {
    var k := Dot(d, n);
    var r := Reflect(d, n);
    ReflectComponents(d, n);
    ReflectComponents(r, n);
    ReflectFlipsNormalComponent(d, n);
    assert Dot(r, n) == -k;
    assert Scale(n, 2.0 * Dot(r, n)) == Scale(Scale(n, 2.0 * k), -1.0);
  }

  /** Reflection about a unit normal keeps the length. */
  lemma ReflectKeepsLength(d: Vector3, n: Vector3)
    requires LengthSquared(n) == 1.0
    ensures LengthSquared(Reflect(d, n)) == LengthSquared(d)
  {
    var k := Dot(d, n);
    var c := 2.0 * k;
    ReflectComponents(d, n);
    var r := Sub(d, Scale(n, c));
    assert LengthSquared(r) == Dot(d, d) - 2.0 * c * Dot(d, n) + c * c * Dot(n, n) by {
      assert LengthSquared(r)
        == (d.x - n.x * c) * (d.x - n.x * c) + (d.y - n.y * c) * (d.y - n.y * c)
           + (d.z - n.z * c) * (d.z - n.z * c);
    }
    assert Dot(n, n) == 1.0;
    assert c * c == 2.0 * c * k;
  }

  /** The cross product is orthogonal to both operands and anti-commutative. */
  lemma CrossOrthogonal(a: Vector3, b: Vector3)
    ensures Dot(a, Cross(a, b)) == 0.0
    ensures Dot(b, Cross(a, b)) == 0.0
    ensures Cross(b, a) == Scale(Cross(a, b), -1.0)
  {
  }

  lemma InverseInvolutive(a: Vector3)
    requires a.x != 0.0 && a.y != 0.0 && a.z != 0.0
    ensures Inverse(Inverse(a)) == a
  {
  }
}
