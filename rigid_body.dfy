/** One circular point mass of the simulator (`RigidBody`): a position, a
    velocity, a force buffer, a mass, a static flag and a radius.

    `Body` is the value of a body at one instant. The value-level functions
    `Accumulate`, `Integrate`, `Overlapping` and `Collide` say what the
    operations of the class `RigidBody` compute, and the lemmas below state
    what those operations promise. */
module RigidBodies {
  import opened Vector

  /** Coefficient of restitution of the collision impulse. */
  const Restitution: real := 0.3
  /** Fraction of the overlap removed by positional correction. */
  const CorrectionPercent: real := 0.8

  datatype Option<T> = None | Some(value: T)
  {
    function UnwrapOr(default: T): T
    {
      match this
      case Some(v) => v
      case None => default
    }
  }

  datatype Body = Body(position: Vec2, velocity: Vec2, force: Vec2, mass: real, isStatic: bool, radius: real)

  /** `1.0 / mass` is evaluated only for a body that is not static; this is
      what keeps that division defined. */
  predicate HasInverseMass(b: Body)
  {
    b.isStatic || b.mass != 0.0
  }

  /** The inverse mass the collision response uses: zero for a static body. */
  function InverseMass(b: Body): (r: real)
    requires HasInverseMass(b)
    ensures b.isStatic ==> r == 0.0
    ensures !b.isStatic ==> r * b.mass == 1.0
  {
    if b.isStatic then 0.0 else 1.0 / b.mass
  }

  /** What a collision never changes: the force buffer, the mass, the flag and
      the radius of either body, and nothing at all of a static body. */
  predicate KeepsConstants(before: Body, after: Body)
  {
    after.force == before.force && after.mass == before.mass &&
    after.isStatic == before.isStatic && after.radius == before.radius &&
    (before.isStatic ==> after == before)
  }

  function Momentum(b: Body): Vec2 { Scale(b.velocity, b.mass) }

  /** Mass times position; summed over two bodies it locates their centre of mass. */
  function MassMoment(b: Body): Vec2 { Scale(b.position, b.mass) }

  // ---------------------------------------------------------------------------
  // Force accumulation and integration

  /** `apply_force`: the force is added to the buffer. */
  function Accumulate(b: Body, f: Vec2): (r: Body)
    ensures Sub(r.force, b.force) == f
    ensures r.position == b.position && r.velocity == b.velocity
    ensures r.mass == b.mass && r.isStatic == b.isStatic && r.radius == b.radius
  {
    b.(force := Add(b.force, f))
  }

  /** Forces add up: applying `f` and then `g` is applying `f + g` once. */
  lemma AccumulateTwice(b: Body, f: Vec2, g: Vec2)
    ensures Accumulate(Accumulate(b, f), g) == Accumulate(b, Add(f, g))
  {
  }

  /** `update`: semi-implicit Euler for a body that is neither static nor of
      mass zero; a zero-mass body only loses its force; a static body is left
      alone. */
  function Integrate(b: Body, dt: real): (r: Body)
    ensures r.mass == b.mass && r.isStatic == b.isStatic && r.radius == b.radius
    ensures b.isStatic ==> r == b
    ensures !b.isStatic ==> r.force == Zero
    ensures b.isStatic || b.mass == 0.0 ==> r.position == b.position && r.velocity == b.velocity
    // impulse-momentum: the change in momentum is the force times the step
    ensures !b.isStatic && b.mass != 0.0 ==> Scale(Sub(r.velocity, b.velocity), b.mass) == Scale(b.force, dt)
    // the position advances with the NEW velocity
    ensures !b.isStatic && b.mass != 0.0 ==> r.position == Add(b.position, Scale(r.velocity, dt))
  {
    if b.isStatic then b
    else if b.mass == 0.0 then b.(force := Zero)
    else
      var acceleration := Div(b.force, b.mass);
      var velocity := Add(b.velocity, Scale(acceleration, dt));
      ImpulseMomentum(b.force.x, b.mass, dt);
      ImpulseMomentum(b.force.y, b.mass, dt);
      b.(velocity := velocity, position := Add(b.position, Scale(velocity, dt)), force := Zero)
  }

  lemma ImpulseMomentum(f: real, m: real, dt: real)
    requires m != 0.0
    ensures (f / m * dt) * m == f * dt
  {
  }

  /** Gravity is turned into the force `gravity * mass` before integrating, so
      that a body starting with an empty force buffer accelerates by exactly
      `gravity`, whatever its (non-zero) mass. */
  lemma GravityIndependentOfMass(b: Body, gravity: Vec2, dt: real)
    requires !b.isStatic && b.mass != 0.0 && b.force == Zero
    ensures Integrate(Accumulate(b, Scale(gravity, b.mass)), dt).velocity == Add(b.velocity, Scale(gravity, dt))
  {
    var a := Accumulate(b, Scale(gravity, b.mass));
    assert a.force == Scale(gravity, b.mass);
    Cancel(gravity.x, b.mass);
    Cancel(gravity.y, b.mass);
    assert Div(a.force, b.mass) == gravity;
  }

  lemma Cancel(g: real, m: real)
    requires m != 0.0
    ensures g * m / m == g
  {
  }

  // ---------------------------------------------------------------------------
  // Collision test

  /** `check_collision`: the distance between the centres is less than the sum
      of the radii. */
  predicate Overlapping(a: Body, b: Body, norm: Vec2 -> real): (r: bool)
    // a distance is never negative, so radii summing to zero or less never touch
    ensures IsNorm(norm) && r ==> 0.0 < a.radius + b.radius
    // bodies with the same centre overlap as soon as they have some size
    ensures IsNorm(norm) && a.position == b.position ==> (r <==> 0.0 < a.radius + b.radius)
  {
    DistanceFacts(norm, a.position, b.position);
    norm(Sub(a.position, b.position)) < a.radius + b.radius
  }

  /** What `IsNorm` says about the distance between two centres. */
  lemma DistanceFacts(norm: Vec2 -> real, p: Vec2, q: Vec2)
    ensures IsNorm(norm) ==> 0.0 <= norm(Sub(p, q))
    ensures IsNorm(norm) && p == q ==> norm(Sub(p, q)) == 0.0
    ensures IsNorm(norm) ==> norm(Sub(p, q)) == norm(Sub(q, p))
  {
    if IsNorm(norm) {
      NormOf(norm, Sub(p, q));
      NormZero(norm, Sub(p, q));
      NormSymmetric(norm, p, q);
    }
  }

  /** The test does not depend on which body asks. */
  lemma OverlappingSymmetric(a: Body, b: Body, norm: Vec2 -> real)
    requires IsNorm(norm)
    ensures Overlapping(a, b, norm) == Overlapping(b, a, norm)
  {
    NormSymmetric(norm, a.position, b.position);
  }

  /** The same test without a square root: the radii sum to something
      positive and the squared distance is below its square. */
  lemma OverlappingBySquares(a: Body, b: Body, norm: Vec2 -> real)
    requires IsNorm(norm)
    ensures var delta := Sub(a.position, b.position); var reach := a.radius + b.radius;
      Overlapping(a, b, norm) <==> 0.0 < reach && Dot(delta, delta) < reach * reach
  {
    var delta := Sub(a.position, b.position);
    var reach := a.radius + b.radius;
    var d := norm(delta);
    NormOf(norm, delta);
    if d < reach {
      calc {
        Dot(delta, delta);
        d * d;
      < { Increasing(d, reach); }
        reach * reach;
      }
    } else if 0.0 < reach {
      if reach < d {
        Increasing(reach, d);
      }
    }
  }

  // ---------------------------------------------------------------------------
  // Collision response

  /** The condition under which `resolve_collision` goes past its two early
      exits, stated without the norm: the centres differ and the relative
      velocity points against the line from the first centre to the second. */
  predicate Approaching(a: Body, b: Body)
  {
    var delta := Sub(b.position, a.position);
    delta != Zero && Dot(Sub(b.velocity, a.velocity), delta) < 0.0
  }

  /** `Approaching` is exactly "distance is not zero and the speed along the
      normal is negative". */
  lemma ApproachingExactly(a: Body, b: Body, norm: Vec2 -> real)
    requires IsNorm(norm)
    ensures var delta := Sub(b.position, a.position); var distance := norm(delta);
      Approaching(a, b) <==>
        distance != 0.0 && Dot(Sub(b.velocity, a.velocity), Div(delta, distance)) < 0.0
  {
    var delta := Sub(b.position, a.position);
    var distance := norm(delta);
    NormZero(norm, delta);
    NormOf(norm, delta);
    if distance != 0.0 {
      DotDiv(Sub(b.velocity, a.velocity), delta, distance);
      DivSign(Dot(Sub(b.velocity, a.velocity), delta), distance);
    }
  }

  lemma DivSign(x: real, d: real)
    requires 0.0 < d
    ensures x / d < 0.0 <==> x < 0.0
  {
  }

  /** Positional correction: each body that is not static is pushed along the
      normal in proportion to its inverse mass, removing `CorrectionPercent` of
      the overlap. */
  function Correct(a: Body, b: Body, normal: Vec2, overlap: real): (r: (Body, Body))
    requires HasInverseMass(a) && HasInverseMass(b)
    ensures KeepsConstants(a, r.0) && KeepsConstants(b, r.1)
    ensures r.0.velocity == a.velocity && r.1.velocity == b.velocity
  {
    if overlap > 0.0 then
      var invMassSelf := InverseMass(a);
      var invMassOther := InverseMass(b);
      var invTotal := invMassSelf + invMassOther;
      if invTotal > 0.0 then
        var correction := Scale(Scale(normal, overlap / invTotal), CorrectionPercent);
        (if !a.isStatic then a.(position := Sub(a.position, Scale(correction, invMassSelf))) else a,
         if !b.isStatic then b.(position := Add(b.position, Scale(correction, invMassOther))) else b)
      else (a, b)
    else (a, b)
  }

  /** Impulse: the inverse masses are computed again; if they sum to zero
      nothing happens, else an impulse of restitution `Restitution` changes the
      velocity of each body that is not static. */
  function Bounce(a: Body, b: Body, normal: Vec2, speed: real): (r: (Body, Body))
    requires HasInverseMass(a) && HasInverseMass(b)
    ensures KeepsConstants(a, r.0) && KeepsConstants(b, r.1)
    ensures r.0.position == a.position && r.1.position == b.position
  {
    var invMassSelf := InverseMass(a);
    var invMassOther := InverseMass(b);
    var invTotal := invMassSelf + invMassOther;
    if invTotal == 0.0 then (a, b)
    else
      var j := -(1.0 + Restitution) * speed / invTotal;
      (if !a.isStatic then a.(velocity := Sub(a.velocity, Scale(normal, j * invMassSelf))) else a,
       if !b.isStatic then b.(velocity := Add(b.velocity, Scale(normal, j * invMassOther))) else b)
  }

  /** `resolve_collision` of `a` against `b`. */
  function Collide(a: Body, b: Body, norm: Vec2 -> real): (r: (Body, Body))
    requires IsNorm(norm)
    requires Approaching(a, b) ==> HasInverseMass(a) && HasInverseMass(b)
    ensures KeepsConstants(a, r.0) && KeepsConstants(b, r.1)
  {
    var delta := Sub(b.position, a.position);
    var distance := norm(delta);
    if distance == 0.0 then (a, b)
    else
      var normal := Div(delta, distance);
      var speed := Dot(Sub(b.velocity, a.velocity), normal);
      if speed >= 0.0 then (a, b)
      else
        ApproachingExactly(a, b, norm);
        var corrected := Correct(a, b, normal, (a.radius + b.radius) - distance);
        Bounce(corrected.0, corrected.1, normal, speed)
  }

  /** Both early exits: coincident centres, or bodies not closing in along the
      normal, leave both bodies exactly as they were; and so does a pair whose
      inverse masses sum to zero. */
  lemma CollideNoOp(a: Body, b: Body, norm: Vec2 -> real)
    requires IsNorm(norm)
    requires Approaching(a, b) ==> HasInverseMass(a) && HasInverseMass(b)
    requires !Approaching(a, b) || InverseMass(a) + InverseMass(b) == 0.0
    ensures Collide(a, b, norm) == (a, b)
  {
    ApproachingExactly(a, b, norm);
  }

  /** A pair that is approaching is always changed unless nothing can move. */
  lemma CollideMovesSomething(a: Body, b: Body, norm: Vec2 -> real)
    requires IsNorm(norm)
    requires Approaching(a, b) && HasInverseMass(a) && HasInverseMass(b)
    requires InverseMass(a) + InverseMass(b) != 0.0
    ensures Collide(a, b, norm) != (a, b)
  {
    CollideRestitution(a, b, norm);
  }

  /** Between two bodies that are not static and have non-zero masses, the
      response conserves total momentum (the impulse) and the centre of mass
      (the positional correction). */
  lemma CollideConserves(a: Body, b: Body, norm: Vec2 -> real)
    requires IsNorm(norm)
    requires !a.isStatic && !b.isStatic && a.mass != 0.0 && b.mass != 0.0
    ensures var r := Collide(a, b, norm);
      Add(Momentum(r.0), Momentum(r.1)) == Add(Momentum(a), Momentum(b)) &&
      Add(MassMoment(r.0), MassMoment(r.1)) == Add(MassMoment(a), MassMoment(b))
  {
    var delta := Sub(b.position, a.position);
    var distance := norm(delta);
    if distance != 0.0 {
      var normal := Div(delta, distance);
      var speed := Dot(Sub(b.velocity, a.velocity), normal);
      if speed < 0.0 {
        var c := Correct(a, b, normal, (a.radius + b.radius) - distance);
        CorrectConserves(a, b, normal, (a.radius + b.radius) - distance);
        BounceConserves(c.0, c.1, normal, speed);
      }
    }
  }

  /** Positional correction between two dynamic bodies keeps their centre of
      mass where it was. */
  lemma CorrectConserves(a: Body, b: Body, normal: Vec2, overlap: real)
    requires !a.isStatic && !b.isStatic && a.mass != 0.0 && b.mass != 0.0
    ensures var r := Correct(a, b, normal, overlap);
      Add(MassMoment(r.0), MassMoment(r.1)) == Add(MassMoment(a), MassMoment(b))
  {
    var invTotal := InverseMass(a) + InverseMass(b);
    if overlap > 0.0 && invTotal > 0.0 {
      var correction := Scale(Scale(normal, overlap / invTotal), CorrectionPercent);
      Exchange(a.position, b.position, correction, a.mass, b.mass);
    }
  }

  /** Positional correction removes `CorrectionPercent` of the overlap along
      the line of centres: afterwards the bodies overlap by the rest. This
      holds whenever some body can move, one of them static or not. */
  lemma CorrectLeavesRemainder(a: Body, b: Body, norm: Vec2 -> real)
    requires IsNorm(norm) && HasInverseMass(a) && HasInverseMass(b)
    requires InverseMass(a) + InverseMass(b) > 0.0
    requires var distance := norm(Sub(b.position, a.position));
      distance != 0.0 && (a.radius + b.radius) - distance > 0.0
    ensures var delta := Sub(b.position, a.position); var distance := norm(delta);
      var overlap := (a.radius + b.radius) - distance;
      var r := Correct(a, b, Div(delta, distance), overlap);
      (a.radius + b.radius) - norm(Sub(r.1.position, r.0.position)) == (1.0 - CorrectionPercent) * overlap
  {
    var delta := Sub(b.position, a.position);
    var distance := norm(delta);
    var overlap := (a.radius + b.radius) - distance;
    var normal := Div(delta, distance);
    var invA, invB := InverseMass(a), InverseMass(b);
    var r := Correct(a, b, normal, overlap);
    var correction := Scale(Scale(normal, overlap / (invA + invB)), CorrectionPercent);
    NormOf(norm, delta);
    UnitNormal(delta, distance);
    assert r.0.position == Sub(a.position, Scale(correction, invA));
    assert r.1.position == Add(b.position, Scale(correction, invB));
    var k := distance + CorrectionPercent * overlap;
    calc {
      Sub(r.1.position, r.0.position);
    == { SplitImpulse(a.position, b.position, correction, invA, invB); }
      Add(delta, Scale(correction, invA + invB));
    == { CorrectionTotal(normal, overlap, invA + invB); }
      Add(Scale(normal, distance), Scale(normal, CorrectionPercent * overlap));
    == { ScaleAdd(normal, distance, CorrectionPercent * overlap); }
      Scale(normal, k);
    }
    NormOfScaled(norm, normal, k);
  }

  /** `delta / |delta|` has unit length and, scaled back, is `delta`. */
  lemma UnitNormal(delta: Vec2, distance: real)
    requires 0.0 < distance && distance * distance == Dot(delta, delta)
    ensures Dot(Div(delta, distance), Div(delta, distance)) == 1.0
    ensures Scale(Div(delta, distance), distance) == delta
  {
    calc {
      Dot(Div(delta, distance), Div(delta, distance));
    == { DotDiv(Div(delta, distance), delta, distance); }
      Dot(Div(delta, distance), delta) / distance;
    == { NormalAlong(delta, distance); }
      distance / distance;
      1.0;
    }
  }

  /** The correction vector, weighted by the total inverse mass, is the normal
      times `CorrectionPercent` of the overlap. */
  lemma CorrectionTotal(normal: Vec2, overlap: real, invTotal: real)
    requires invTotal != 0.0
    ensures Scale(Scale(Scale(normal, overlap / invTotal), CorrectionPercent), invTotal)
         == Scale(normal, CorrectionPercent * overlap)
  {
    Rescale(normal.x, overlap, invTotal);
    Rescale(normal.y, overlap, invTotal);
  }

  lemma Rescale(n: real, o: real, t: real)
    requires t != 0.0
    ensures n * (o / t) * CorrectionPercent * t == n * (CorrectionPercent * o)
  {
    calc {
      n * (o / t) * CorrectionPercent * t;
      n * CorrectionPercent * ((o / t) * t);
      n * CorrectionPercent * o;
    }
  }

  /** A unit vector scaled by `k >= 0` has norm `k`. */
  lemma NormOfScaled(norm: Vec2 -> real, n: Vec2, k: real)
    requires IsNorm(norm) && Dot(n, n) == 1.0 && 0.0 <= k
    ensures norm(Scale(n, k)) == k
  {
    var v := Scale(n, k);
    NormOf(norm, v);
    calc {
      Dot(v, v);
      (n.x * k) * (n.x * k) + (n.y * k) * (n.y * k);
      { SquareFactor(n.x, n.y, k); }
      (n.x * n.x + n.y * n.y) * (k * k);
      Dot(n, n) * (k * k);
      k * k;
    }
    RootUnique(norm(v), k);
  }

  lemma ScaleAdd(v: Vec2, s: real, t: real)
    ensures Add(Scale(v, s), Scale(v, t)) == Scale(v, s + t)
  {
    calc {
      Add(Scale(v, s), Scale(v, t));
      Vec2(v.x * s + v.x * t, v.y * s + v.y * t);
      Vec2(v.x * (s + t), v.y * (s + t));
    }
  }

  lemma SquareFactor(x: real, y: real, k: real)
    ensures (x * k) * (x * k) + (y * k) * (y * k) == (x * x + y * y) * (k * k)
  {
  }

  /** The impulse between two dynamic bodies conserves their total momentum. */
  lemma BounceConserves(a: Body, b: Body, normal: Vec2, speed: real)
    requires !a.isStatic && !b.isStatic && a.mass != 0.0 && b.mass != 0.0
    ensures var r := Bounce(a, b, normal, speed);
      Add(Momentum(r.0), Momentum(r.1)) == Add(Momentum(a), Momentum(b))
  {
    var invTotal := InverseMass(a) + InverseMass(b);
    if invTotal != 0.0 {
      var j := -(1.0 + Restitution) * speed / invTotal;
      ScaleAssoc(normal, j, InverseMass(a));
      ScaleAssoc(normal, j, InverseMass(b));
      Exchange(a.velocity, b.velocity, Scale(normal, j), a.mass, b.mass);
    }
  }

  lemma ScaleAssoc(v: Vec2, s: real, t: real)
    ensures Scale(v, s * t) == Scale(Scale(v, s), t)
  {
  }

  /** Moving two bodies by `-c/ma` and `+c/mb` leaves `ma*u + mb*w` unchanged. */
  lemma Exchange(u: Vec2, w: Vec2, c: Vec2, ma: real, mb: real)
    requires ma != 0.0 && mb != 0.0
    ensures Add(Scale(Sub(u, Scale(c, 1.0 / ma)), ma), Scale(Add(w, Scale(c, 1.0 / mb)), mb))
         == Add(Scale(u, ma), Scale(w, mb))
  {
    Unweight(u.x, c.x, ma);
    Unweight(u.y, c.y, ma);
    Unweight(w.x, -c.x, mb);
    Unweight(w.y, -c.y, mb);
  }

  lemma Unweight(p: real, c: real, m: real)
    requires m != 0.0
    ensures (p - c * (1.0 / m)) * m == p * m - c
  {
    calc {
      (p - c * (1.0 / m)) * m;
      p * m - c * ((1.0 / m) * m);
      p * m - c;
    }
  }

  /** After an impulse, the relative velocity along the line of centres is
      `-Restitution` times what it was. */
  lemma CollideRestitution(a: Body, b: Body, norm: Vec2 -> real)
    requires IsNorm(norm)
    requires Approaching(a, b) && HasInverseMass(a) && HasInverseMass(b)
    requires InverseMass(a) + InverseMass(b) != 0.0
    ensures var r := Collide(a, b, norm); var delta := Sub(b.position, a.position);
      Dot(Sub(r.1.velocity, r.0.velocity), delta) == -Restitution * Dot(Sub(b.velocity, a.velocity), delta)
  {
    var r := Collide(a, b, norm);
    var delta := Sub(b.position, a.position);
    var distance := norm(delta);
    ApproachingExactly(a, b, norm);
    NormOf(norm, delta);
    var normal := Div(delta, distance);
    var relative := Sub(b.velocity, a.velocity);
    var speed := Dot(relative, normal);
    var corrected := Correct(a, b, normal, (a.radius + b.radius) - distance);
    assert r == Bounce(corrected.0, corrected.1, normal, speed);
    var k := -(1.0 + Restitution) * speed;
    BounceRelative(corrected.0, corrected.1, normal, speed);
    var after := Sub(r.1.velocity, r.0.velocity);
    assert after == Add(relative, Scale(normal, k));
    calc {
      Dot(after, delta);
    == { DotAddScale(relative, normal, k, delta); }
      Dot(relative, delta) + k * Dot(normal, delta);
    == { NormalAlong(delta, distance); }
      Dot(relative, delta) + k * distance;
    == { DotDiv(relative, delta, distance); QuotientTimes(Dot(relative, delta), distance); }
      Dot(relative, delta) - (1.0 + Restitution) * Dot(relative, delta);
      -Restitution * Dot(relative, delta);
    }
  }

  /** The impulse adds `-(1 + Restitution) * speed` times the normal to the
      relative velocity, however the two inverse masses share it. */
  lemma BounceRelative(a: Body, b: Body, normal: Vec2, speed: real)
    requires HasInverseMass(a) && HasInverseMass(b)
    requires InverseMass(a) + InverseMass(b) != 0.0
    ensures var r := Bounce(a, b, normal, speed);
      Sub(r.1.velocity, r.0.velocity) == Add(Sub(b.velocity, a.velocity), Scale(normal, -(1.0 + Restitution) * speed))
  {
    var r := Bounce(a, b, normal, speed);
    var invMassSelf, invMassOther := InverseMass(a), InverseMass(b);
    var invTotal := invMassSelf + invMassOther;
    var j := -(1.0 + Restitution) * speed / invTotal;
    assert r.0.velocity == Sub(a.velocity, Scale(normal, j * invMassSelf));
    assert r.1.velocity == Add(b.velocity, Scale(normal, j * invMassOther));
    Shares(j, invMassSelf, invMassOther, -(1.0 + Restitution) * speed);
    SplitImpulse(a.velocity, b.velocity, normal, j * invMassSelf, j * invMassOther);
  }

  lemma Shares(j: real, p: real, q: real, k: real)
    requires p + q != 0.0 && j == k / (p + q)
    ensures j * p + j * q == k
  {
    calc {
      j * p + j * q;
      j * (p + q);
      k / (p + q) * (p + q);
      k;
    }
  }

  lemma SplitImpulse(u: Vec2, w: Vec2, n: Vec2, s: real, t: real)
    ensures Sub(Add(w, Scale(n, t)), Sub(u, Scale(n, s))) == Add(Sub(w, u), Scale(n, s + t))
  {
    calc {
      w.x + n.x * t - (u.x - n.x * s);
      w.x - u.x + n.x * (s + t);
    }
    calc {
      w.y + n.y * t - (u.y - n.y * s);
      w.y - u.y + n.y * (s + t);
    }
  }

  /** The unit normal dotted with the offset it was made from is the distance. */
  lemma NormalAlong(delta: Vec2, distance: real)
    requires distance != 0.0 && distance * distance == Dot(delta, delta)
    ensures Dot(Div(delta, distance), delta) == distance
  {
    calc {
      Dot(Div(delta, distance), delta);
      { assert Dot(Div(delta, distance), delta) == Dot(delta, Div(delta, distance)); }
      Dot(delta, Div(delta, distance));
      { DotDiv(delta, delta, distance); }
      Dot(delta, delta) / distance;
      distance * distance / distance;
      { SelfQuotient(distance); }
      distance;
    }
  }

  lemma DotAddScale(u: Vec2, n: Vec2, k: real, w: Vec2)
    ensures Dot(Add(u, Scale(n, k)), w) == Dot(u, w) + k * Dot(n, w)
  {
    calc {
      Dot(Add(u, Scale(n, k)), w);
      (u.x + n.x * k) * w.x + (u.y + n.y * k) * w.y;
      (u.x * w.x + u.y * w.y) + k * (n.x * w.x + n.y * w.y);
    }
  }

  lemma SelfQuotient(d: real)
    requires d != 0.0
    ensures d * d / d == d
  {
  }

  lemma QuotientTimes(x: real, d: real)
    requires d != 0.0
    ensures -(1.0 + Restitution) * (x / d) * d == -(1.0 + Restitution) * x
  {
  }

  // ---------------------------------------------------------------------------
  // The body as the simulator holds it

  class RigidBody {
    var position: Vec2
    var velocity: Vec2
    var force: Vec2
    var mass: real
    var isStatic: bool
    var radius: real

    function State(): Body
      reads this
    {
      Body(position, velocity, force, mass, isStatic, radius)
    }

    /** `RigidBody::new`: an absent velocity defaults to zero, and the force
        buffer starts empty. */
    constructor (mass: real, position: Vec2, isStatic: bool, velocity: Option<Vec2>, radius: real)
      ensures State() == Body(position, velocity.UnwrapOr(Zero), Zero, mass, isStatic, radius)
    {
      this.position := position;
      this.velocity := velocity.UnwrapOr(Zero);
      this.force := Zero;
      this.mass := mass;
      this.isStatic := isStatic;
      this.radius := radius;
    }

    method ApplyForce(f: Vec2)
      modifies this
      ensures State() == Accumulate(old(State()), f)
    {
      force := Add(force, f);
    }

    method Update(dt: real)
      modifies this
      ensures State() == Integrate(old(State()), dt)
    {
      if !isStatic {
        if mass == 0.0 {
          force := Zero;
          return;
        }
        var acceleration := Div(force, mass);
        velocity := Add(velocity, Scale(acceleration, dt));
        position := Add(position, Scale(velocity, dt));
        force := Zero;
      }
    }

    /** `check_collision`: the test on the two bodies' current states. It gives
        the same answer whichever body asks. */
    predicate CheckCollision(other: RigidBody, norm: Vec2 -> real): (r: bool)
      reads this, other
      ensures IsNorm(norm) ==> (r <==> Overlapping(other.State(), State(), norm))
      ensures IsNorm(norm) && r ==> 0.0 < radius + other.radius
    {
      DistanceFacts(norm, position, other.position);
      Overlapping(State(), other.State(), norm)
    }

    method ResolveCollision(other: RigidBody, norm: Vec2 -> real)
      requires other != this
      requires IsNorm(norm)
      requires Approaching(State(), other.State()) ==> HasInverseMass(State()) && HasInverseMass(other.State())
      modifies this, other
      ensures (State(), other.State()) == Collide(old(State()), old(other.State()), norm)
    {
      ghost var a, b := State(), other.State();
      var delta := Sub(other.position, position);
      var distance := norm(delta);
      if distance == 0.0 {
        return;
      }
      var normal := Div(delta, distance);
      var relativeVelocity := Sub(other.velocity, velocity);
      var speed := Dot(relativeVelocity, normal);
      if speed >= 0.0 {
        return;
      }
      ApproachingExactly(a, b, norm);
      var overlap := (radius + other.radius) - distance;
      CorrectPositions(other, normal, overlap);
      ApplyImpulse(other, normal, speed);
    }

    /** Positional correction, the first half of the response. */
    method CorrectPositions(other: RigidBody, normal: Vec2, overlap: real)
      requires other != this
      requires HasInverseMass(State()) && HasInverseMass(other.State())
      modifies this, other
      ensures (State(), other.State()) == Correct(old(State()), old(other.State()), normal, overlap)
    {
      if overlap > 0.0 {
        var invMassSelf := if isStatic then 0.0 else 1.0 / mass;
        var invMassOther := if other.isStatic then 0.0 else 1.0 / other.mass;
        var invTotal := invMassSelf + invMassOther;
        if invTotal > 0.0 {
          var correction := Scale(Scale(normal, overlap / invTotal), CorrectionPercent);
          if !isStatic {
            position := Sub(position, Scale(correction, invMassSelf));
          }
          if !other.isStatic {
            other.position := Add(other.position, Scale(correction, invMassOther));
          }
        }
      }
    }

    /** The impulse, the second half of the response, with its own computation
        of the inverse masses. */
    method ApplyImpulse(other: RigidBody, normal: Vec2, speed: real)
      requires other != this
      requires HasInverseMass(State()) && HasInverseMass(other.State())
      modifies this, other
      ensures (State(), other.State()) == Bounce(old(State()), old(other.State()), normal, speed)
    {
      var invMassSelf := if isStatic then 0.0 else 1.0 / mass;
      var invMassOther := if other.isStatic then 0.0 else 1.0 / other.mass;
      var invTotal := invMassSelf + invMassOther;
      if invTotal == 0.0 {
        return;
      }
      var j := -(1.0 + Restitution) * speed / invTotal;
      ghost var bounced := Bounce(State(), other.State(), normal, speed);
      assert bounced.0 == if isStatic then State()
        else State().(velocity := Sub(velocity, Scale(normal, j * invMassSelf)));
      assert bounced.1 == if other.isStatic then other.State()
        else other.State().(velocity := Add(other.velocity, Scale(normal, j * invMassOther)));
      if !isStatic {
        velocity := Sub(velocity, Scale(normal, j * invMassSelf));
      }
      if !other.isStatic {
        other.velocity := Add(other.velocity, Scale(normal, j * invMassOther));
      }
    }
  }
}
