/** Two-dimensional vectors over exact real arithmetic, standing in for
    `nalgebra::Vector2<f32>` as the simulator uses it: sums, differences,
    scaling by a scalar, division by a scalar, the dot product and the
    Euclidean norm. */
module Vector {

  datatype Vec2 = Vec2(x: real, y: real)

  const Zero: Vec2 := Vec2(0.0, 0.0)

  function Add(u: Vec2, v: Vec2): Vec2 { Vec2(u.x + v.x, u.y + v.y) }

  function Sub(u: Vec2, v: Vec2): Vec2 { Vec2(u.x - v.x, u.y - v.y) }

  /** `v * k` */
  function Scale(v: Vec2, k: real): Vec2 { Vec2(v.x * k, v.y * k) }

  /** `v / k`, component by component */
  function Div(v: Vec2, k: real): Vec2
    requires k != 0.0
  {
    Vec2(v.x / k, v.y / k)
  }

  function Dot(u: Vec2, v: Vec2): real { u.x * v.x + u.y * v.y }

  /** The library's `norm` is a square root and is not part of this model: it is
      passed in as a function, of which only this is known. */
  ghost predicate IsNorm(norm: Vec2 -> real)
  {
    forall v :: IsRoot(norm, v)
  }

  /** `norm(v)` is the non-negative square root of `v . v`. Kept as a predicate
      of its own so that the solver learns it only where a proof asks. */
  ghost predicate IsRoot(norm: Vec2 -> real, v: Vec2)
  {
    0.0 <= norm(v) && norm(v) * norm(v) == Dot(v, v)
  }

  /** A non-negative square root is unique. */
  lemma RootUnique(a: real, b: real)
    requires 0.0 <= a && 0.0 <= b && a * a == b * b
    ensures a == b
  {
    if a < b {
      Increasing(a, b);
    } else if b < a {
      Increasing(b, a);
    }
  }

  lemma MulLeft(c: real, a: real, b: real)
    requires 0.0 <= c && a <= b
    ensures c * a <= c * b
  {
  }

  /** Squaring is strictly increasing on the non-negative reals. */
  lemma Increasing(a: real, b: real)
    requires 0.0 <= a < b
    ensures a * a < b * b
  {
    calc {
      a * a;
    <= { MulLeft(a, a, b); }
      a * b;
    < { MulRightStrict(a, b, b); }
      b * b;
    }
  }

  lemma MulRightStrict(a: real, b: real, c: real)
    requires a < b && 0.0 < c
    ensures a * c < b * c
  {
  }

  /** The two facts `IsNorm` gives about one vector. */
  lemma NormOf(norm: Vec2 -> real, v: Vec2)
    requires IsNorm(norm)
    ensures 0.0 <= norm(v) && norm(v) * norm(v) == Dot(v, v)
  {
    assert IsRoot(norm, v);
  }

  /** The norm is zero exactly for the zero vector. */
  lemma NormZero(norm: Vec2 -> real, v: Vec2)
    requires IsNorm(norm)
    ensures norm(v) == 0.0 <==> v == Zero
  {
    var d := norm(v);
    NormOf(norm, v);
    if v == Zero {
      assert Dot(v, v) == 0.0;
      RootUnique(d, 0.0);
    } else {
      DotSelfPositive(v);
      if d == 0.0 {
        ZeroSquare(d);
      }
    }
  }

  lemma ZeroSquare(x: real)
    requires x == 0.0
    ensures x * x == 0.0
  {
  }

  lemma SumSquaresPositive(a: real, b: real)
    requires a != 0.0 || b != 0.0
    ensures 0.0 < a * a + b * b
  {
  }

  lemma DotSelfPositive(v: Vec2)
    requires v != Zero
    ensures 0.0 < Dot(v, v)
  {
    assert v == Vec2(v.x, v.y);
    calc {
      0.0;
    < { SumSquaresPositive(v.x, v.y); }
      v.x * v.x + v.y * v.y;
    ==
      Dot(v, v);
    }
  }

  /** `|u - v| == |v - u|` */
  lemma NormSymmetric(norm: Vec2 -> real, u: Vec2, v: Vec2)
    requires IsNorm(norm)
    ensures norm(Sub(u, v)) == norm(Sub(v, u))
  {
    var a, b := norm(Sub(u, v)), norm(Sub(v, u));
    NormOf(norm, Sub(u, v));
    NormOf(norm, Sub(v, u));
    assert Dot(Sub(u, v), Sub(u, v)) == Dot(Sub(v, u), Sub(v, u));
    RootUnique(a, b);
  }

  /** Dotting with `v / d` is dotting with `v`, then dividing by `d`. */
  lemma DotDiv(u: Vec2, v: Vec2, d: real)
    requires d != 0.0
    ensures Dot(u, Div(v, d)) == Dot(u, v) / d
  {
    calc {
      Dot(u, Div(v, d));
      u.x * (v.x / d) + u.y * (v.y / d);
      (u.x * v.x) / d + (u.y * v.y) / d;
      Dot(u, v) / d;
    }
  }
}
