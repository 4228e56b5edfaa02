/** The simulator's engine (`PhysicsEngine`): an ordered list of bodies and a
    gravity vector, advanced one frame at a time by resolving every colliding
    pair once, then applying gravity, integrating and keeping each body that is
    not static inside the window.

    `Step` says on values what one frame does; the class `PhysicsEngine` holds
    the bodies as objects and its method `Update` is proved to do `Step`. */
module Engine {
  import opened Vector
  import opened RigidBodies

  /** Fraction of the speed a body keeps, reversed, after touching an edge. */
  const DampeningFactor: real := 0.8
  /** Fraction of the horizontal speed a body keeps after touching the floor. */
  const FrictionFactor: real := 0.98

  /** Every division `resolve_collision` can perform on these bodies is defined. */
  predicate AllHaveInverseMass(s: seq<Body>)
  {
    forall k :: 0 <= k < |s| ==> HasInverseMass(s[k])
  }

  // ---------------------------------------------------------------------------
  // The order in which `handle_collisions` visits pairs

  predicate LexLess(p: (nat, nat), q: (nat, nat))
  {
    p.0 < q.0 || (p.0 == q.0 && p.1 < q.1)
  }

  /** The pairs the two nested loops visit from `(i, j)` onwards: the rest of
      row `i`, then every later row. */
  function PairsFrom(i: nat, j: nat, n: nat): (r: seq<(nat, nat)>)
    requires i < j
    ensures forall k :: 0 <= k < |r| ==> r[k].0 < r[k].1 < n
    ensures forall k :: 0 <= k < |r| ==> i < r[k].0 || (i == r[k].0 && j <= r[k].1)
    decreases n - i, n - j
  {
    if i >= n then []
    else if j >= n then PairsFrom(i + 1, i + 2, n)
    else [(i, j)] + PairsFrom(i, j + 1, n)
  }

  /** All the pairs one collision pass visits, in order: `n * (n - 1) / 2` of
      them, one per unordered pair. */
  function Pairs(n: nat): (r: seq<(nat, nat)>)
    ensures 2 * |r| == n * (n - 1)
  {
    PairsFromLength(0, 1, n);
    PairsFrom(0, 1, n)
  }

  /** The rest of row `i` from `j`, plus `m * (m - 1) / 2` pairs for the
      `m = n - 1 - i` rows after it. */
  lemma {:induction false} PairsFromLength(i: nat, j: nat, n: nat)
    requires i < j
    ensures i < n ==> 2 * |PairsFrom(i, j, n)| == 2 * (if j < n then n - j else 0) + (n - 1 - i) * (n - 2 - i)
    ensures n <= i ==> |PairsFrom(i, j, n)| == 0
    decreases n - i, n - j
  {
    if i < n {
      if j >= n {
        PairsFromLength(i + 1, i + 2, n);
        var m: int := n - 2 - i;
        if 0 < m {
          calc {
            2 * |PairsFrom(i, j, n)|;
            2 * |PairsFrom(i + 1, i + 2, n)|;
            2 * m + m * (m - 1);
            { assert m * (m - 1) == m * m - m; assert (m + 1) * m == m * m + m; }
            (m + 1) * m;
          }
        } else {
          assert m == -1 || m == 0;
        }
      } else {
        PairsFromLength(i, j + 1, n);
      }
    }
  }

  /** Strictly increasing in lexicographic order. */
  predicate Ascending(r: seq<(nat, nat)>)
  {
    forall k, l :: 0 <= k < l < |r| ==> LexLess(r[k], r[l])
  }

  lemma {:induction false} PairsFromSorted(i: nat, j: nat, n: nat)
    requires i < j
    ensures Ascending(PairsFrom(i, j, n))
    decreases n - i, n - j
  {
    var r := PairsFrom(i, j, n);
    if i >= n {
      assert r == [];
    } else if j >= n {
      assert r == PairsFrom(i + 1, i + 2, n);
      PairsFromSorted(i + 1, i + 2, n);
    } else {
      PairsFromSorted(i, j + 1, n);
      var rest := PairsFrom(i, j + 1, n);
      assert r == [(i, j)] + rest;
      forall k, l | 0 <= k < l < |r|
        ensures LexLess(r[k], r[l])
      {
        assert r[l] == rest[l - 1];
        if 0 < k {
          assert r[k] == rest[k - 1];
          assert LexLess(rest[k - 1], rest[l - 1]);
        } else {
          assert r[k] == (i, j);
          assert i < rest[l - 1].0 || (i == rest[l - 1].0 && j < rest[l - 1].1);
        }
      }
    }
  }

  lemma {:induction false} PairsFromComplete(i: nat, j: nat, n: nat, p: (nat, nat))
    requires i < j && p.0 < p.1 < n
    requires i < p.0 || (i == p.0 && j <= p.1)
    ensures p in PairsFrom(i, j, n)
    decreases n - i, n - j
  {
    if j >= n {
      PairsFromComplete(i + 1, i + 2, n, p);
    } else if p != (i, j) {
      PairsFromComplete(i, j + 1, n, p);
    }
  }

  /** `handle_collisions` visits exactly the pairs `(i, j)` with
      `i < j < n`, in strictly increasing lexicographic order, so each
      unordered pair once. */
  lemma PairsSchedule(n: nat)
    ensures forall p: (nat, nat) :: p in Pairs(n) <==> p.0 < p.1 < n
    ensures Ascending(Pairs(n))
  {
    forall p: (nat, nat) | p.0 < p.1 < n
      ensures p in Pairs(n)
    {
      PairsFromComplete(0, 1, n, p);
    }
    PairsFromSorted(0, 1, n);
    assert Pairs(n) == PairsFrom(0, 1, n);
  }

  // ---------------------------------------------------------------------------
  // The two loops of `handle_collisions`, whatever a visit does

  /** What one visit of the pair `(i, j)` does to the bodies. */
  type PairStep = (seq<Body>, nat, nat) -> seq<Body>

  /** The pairs `ps` visited one after the other, each visit seeing the effect
      of those before it. */
  /** A visit that never adds, removes or reorders bodies and keeps what a
      collision keeps. */
  ghost predicate KeepsBodies(f: PairStep)
  {
    forall t, a, b :: SameBodies(t, f(t, a, b))
  }

  /** The pairs `ps` visited one after the other, each visit seeing the effect
      of those before it. Visits that keep the bodies keep them throughout. */
  ghost function ApplyPairs(f: PairStep, s: seq<Body>, ps: seq<(nat, nat)>): (r: seq<Body>)
    ensures KeepsBodies(f) ==> SameBodies(s, r)
    decreases |ps|
  {
    if ps == [] then s
    else
      var t := f(s, ps[0].0, ps[0].1);
      var r := ApplyPairs(f, t, ps[1..]);
      SameBodiesTrans(s, t, r);
      r
  }

  /** The inner loop from `j` on: `i` against `j`, `j + 1`, ..., `n - 1`. */
  ghost function Row(f: PairStep, s: seq<Body>, i: nat, j: nat, n: nat): (r: seq<Body>)
    ensures KeepsBodies(f) ==> SameBodies(s, r)
    decreases n - j
  {
    if j >= n then s
    else
      var t := f(s, i, j);
      var r := Row(f, t, i, j + 1, n);
      SameBodiesTrans(s, t, r);
      r
  }

  /** The outer loop from `i` on. */
  ghost function Rows(f: PairStep, s: seq<Body>, i: nat, n: nat): (r: seq<Body>)
    ensures KeepsBodies(f) ==> SameBodies(s, r)
    decreases n - i
  {
    if i >= n then s
    else
      var t := Row(f, s, i, i + 1, n);
      var r := Rows(f, t, i + 1, n);
      SameBodiesTrans(s, t, r);
      r
  }

  /** What is left of the two loops at `(i, j)` is visiting what is left of the
      schedule from `(i, j)`, in order. */
  lemma {:induction false} RowsFollowSchedule(f: PairStep, s: seq<Body>, i: nat, j: nat, n: nat)
    requires i < j
    ensures ApplyPairs(f, s, PairsFrom(i, j, n)) == Rows(f, Row(f, s, i, j, n), i + 1, n)
    decreases n - i, n - j
  {
    if i >= n {
      assert PairsFrom(i, j, n) == [];
    } else if j >= n {
      assert PairsFrom(i, j, n) == PairsFrom(i + 1, i + 2, n);
      assert Row(f, s, i, j, n) == s;
      RowsFollowSchedule(f, s, i + 1, i + 2, n);
      if i + 1 < n {
        assert Rows(f, s, i + 1, n) == Rows(f, Row(f, s, i + 1, i + 2, n), i + 2, n);
      }
    } else {
      var ps := PairsFrom(i, j, n);
      assert ps == [(i, j)] + PairsFrom(i, j + 1, n);
      assert ps[0] == (i, j) && ps[1..] == PairsFrom(i, j + 1, n);
      RowsFollowSchedule(f, f(s, i, j), i, j + 1, n);
    }
  }

  /** The two nested loops visit the pairs of `Pairs(n)`, in that order. */
  lemma LoopsFollowPairs(f: PairStep, s: seq<Body>, n: nat)
    ensures Rows(f, s, 0, n) == ApplyPairs(f, s, Pairs(n))
  {
    RowsFollowSchedule(f, s, 0, 1, n);
    if 0 < n {
      assert Rows(f, s, 0, n) == Rows(f, Row(f, s, 0, 1, n), 1, n);
    }
  }

  /** Every body keeps its mass, flag, radius and force from `s` to `r`, and a
      static body is unchanged. */
  predicate SameBodies(s: seq<Body>, r: seq<Body>)
  {
    |r| == |s| && forall k :: 0 <= k < |s| ==> KeepsConstants(s[k], r[k])
  }

  lemma SameBodiesTrans(s: seq<Body>, t: seq<Body>, r: seq<Body>)
    ensures SameBodies(s, t) && SameBodies(t, r) ==> SameBodies(s, r)
  {
    if SameBodies(s, t) && SameBodies(t, r) {
      forall k | 0 <= k < |s|
        ensures KeepsConstants(s[k], r[k])
      {
        assert KeepsConstants(s[k], t[k]) && KeepsConstants(t[k], r[k]);
      }
    }
  }

  // ---------------------------------------------------------------------------
  // The collision pass on values

  /** One iteration of the inner loop: test the pair, and resolve it if the
      bodies overlap. */
  function ResolvePair(s: seq<Body>, i: nat, j: nat, norm: Vec2 -> real): (r: seq<Body>)
    requires IsNorm(norm) && AllHaveInverseMass(s) && i < j < |s|
    ensures SameBodies(s, r)
    ensures forall k :: 0 <= k < |s| && k != i && k != j ==> r[k] == s[k]
  {
    if Overlapping(s[i], s[j], norm) then
      var resolved := Collide(s[i], s[j], norm);
      s[i := resolved.0][j := resolved.1]
    else s
  }

  /** A visit resolves the pair exactly when the test says the bodies overlap:
      otherwise nothing changes, and if so the two bodies become the response's
      result. Kept apart from `ResolvePair` so that the loops' proofs do not
      see the response. */
  lemma ResolvePairTests(s: seq<Body>, i: nat, j: nat, norm: Vec2 -> real)
    requires IsNorm(norm) && AllHaveInverseMass(s) && i < j < |s|
    ensures !Overlapping(s[i], s[j], norm) ==> ResolvePair(s, i, j, norm) == s
    ensures Overlapping(s[i], s[j], norm) ==>
      ResolvePair(s, i, j, norm)[i] == Collide(s[i], s[j], norm).0 &&
      ResolvePair(s, i, j, norm)[j] == Collide(s[i], s[j], norm).1
  {
  }

  /** Bodies that keep their masses and flags keep their inverse masses. */
  lemma SameBodiesInverseMass(s: seq<Body>, r: seq<Body>)
    requires SameBodies(s, r) && AllHaveInverseMass(s)
    ensures AllHaveInverseMass(r)
  {
    forall k | 0 <= k < |r|
      ensures HasInverseMass(r[k])
    {
      assert KeepsConstants(s[k], r[k]);
    }
  }

  /** `ResolvePair` as a step of the two loops. Outside the situations the loops
      create (a pair of indices in range, every division defined) it does
      nothing. */
  ghost function Resolver(norm: Vec2 -> real): PairStep
  {
    (t: seq<Body>, a: nat, b: nat) =>
      if IsNorm(norm) && AllHaveInverseMass(t) && a < b < |t| then ResolvePair(t, a, b, norm) else t
  }

  /** In the situations the loops create, the step is `ResolvePair`. */
  lemma ResolverResolves(s: seq<Body>, i: nat, j: nat, norm: Vec2 -> real)
    requires IsNorm(norm) && AllHaveInverseMass(s) && i < j < |s|
    ensures Resolver(norm)(s, i, j) == ResolvePair(s, i, j, norm)
  {
  }

  lemma ResolverKeepsBodies(norm: Vec2 -> real)
    ensures KeepsBodies(Resolver(norm))
  {
    forall t: seq<Body>, a: nat, b: nat
      ensures SameBodies(t, Resolver(norm)(t, a, b))
    {
      if IsNorm(norm) && AllHaveInverseMass(t) && a < b < |t| {
        ResolverResolves(t, a, b, norm);
      } else {
        assert Resolver(norm)(t, a, b) == t;
      }
    }
  }

  /** `handle_collisions`. It never adds, removes or reorders bodies, never
      changes a mass, a flag, a radius or a force buffer, and never moves a
      static body, so every division stays defined for the next pass. */
  ghost function CollisionPass(s: seq<Body>, norm: Vec2 -> real): (r: seq<Body>)
    requires IsNorm(norm) && AllHaveInverseMass(s)
    ensures SameBodies(s, r) && AllHaveInverseMass(r)
  {
    ResolverKeepsBodies(norm);
    var r := Rows(Resolver(norm), s, 0, |s|);
    SameBodiesInverseMass(s, r);
    r
  }

  /** The collision pass resolves the pairs of `Pairs`, in that order, each
      seeing the effect of those before it. */
  lemma CollisionPassFollowsPairs(s: seq<Body>, norm: Vec2 -> real)
    requires IsNorm(norm) && AllHaveInverseMass(s)
    ensures CollisionPass(s, norm) == ApplyPairs(Resolver(norm), s, Pairs(|s|))
  {
    LoopsFollowPairs(Resolver(norm), s, |s|);
  }

  // ---------------------------------------------------------------------------
  // Gravity, integration and the window's edges

  /** The boundary response: on each axis, a body past an edge is put back
      against it and its velocity on that axis is reversed and damped; the
      floor also slows the horizontal velocity. The horizontal axis is handled
      first. */
  function Clamp(b: Body, width: real, height: real): (r: Body)
    ensures r.force == b.force && r.mass == b.mass && r.isStatic == b.isStatic && r.radius == b.radius
  {
    ClampVertical(ClampHorizontal(b, width), height)
  }

  /** The left and right edges. Only the horizontal position and velocity
      can change; a body already inside is left alone, and a body past an edge
      is put against it with its horizontal velocity reversed and damped,
      whichever way it was moving. */
  function ClampHorizontal(b: Body, width: real): (r: Body)
    ensures r.(position := b.position, velocity := b.velocity) == b
    ensures r.position.y == b.position.y && r.velocity.y == b.velocity.y
    ensures b.radius <= b.position.x <= width - b.radius ==> r == b
    ensures r != b ==> r.velocity.x == -b.velocity.x * DampeningFactor
    ensures 2.0 * b.radius <= width ==> b.radius <= r.position.x <= width - b.radius
  {
    if b.position.x - b.radius < 0.0 then
      b.(position := b.position.(x := b.radius),
         velocity := b.velocity.(x := -b.velocity.x * DampeningFactor))
    else if b.position.x + b.radius > width then
      b.(position := b.position.(x := width - b.radius),
         velocity := b.velocity.(x := -b.velocity.x * DampeningFactor))
    else b
  }

  /** The top and bottom edges. The horizontal position never changes and the
      horizontal velocity changes only by floor friction; a body already inside
      is left alone, and a body past an edge is put against it with its
      vertical velocity reversed and damped. */
  function ClampVertical(b: Body, height: real): (r: Body)
    ensures r.(position := b.position, velocity := b.velocity) == b
    ensures r.position.x == b.position.x
    ensures r.velocity.x != b.velocity.x ==>
      r.velocity.x == b.velocity.x * FrictionFactor && b.position.y + b.radius > height
    ensures b.radius <= b.position.y <= height - b.radius ==> r == b
    ensures r != b ==> r.velocity.y == -b.velocity.y * DampeningFactor
    ensures 2.0 * b.radius <= height ==> b.radius <= r.position.y <= height - b.radius
  {
    if b.position.y - b.radius < 0.0 then
      b.(position := b.position.(y := b.radius),
         velocity := b.velocity.(y := -b.velocity.y * DampeningFactor))
    else if b.position.y + b.radius > height then
      b.(position := b.position.(y := height - b.radius),
         velocity := Vec2(b.velocity.x * FrictionFactor, -b.velocity.y * DampeningFactor))
    else b
  }

  /** Where the window fits the body, the body ends up inside it. */
  lemma ClampInside(b: Body, width: real, height: real)
    ensures var r := Clamp(b, width, height);
      2.0 * b.radius <= width ==> b.radius <= r.position.x <= width - b.radius
    ensures var r := Clamp(b, width, height);
      2.0 * b.radius <= height ==> b.radius <= r.position.y <= height - b.radius
  {
  }

  /** Velocity after the boundary response: a component whose edge was hit is
      reversed and scaled by `DampeningFactor`, and the horizontal one is
      scaled again by `FrictionFactor` only when the floor was hit. */
  lemma ClampVelocity(b: Body, width: real, height: real)
    ensures var r := Clamp(b, width, height);
      var hitSide := b.position.x - b.radius < 0.0 || b.position.x + b.radius > width;
      var hitCeiling := b.position.y - b.radius < 0.0;
      var hitFloor := !hitCeiling && b.position.y + b.radius > height;
      r.velocity.y == (if hitCeiling || hitFloor then -b.velocity.y * DampeningFactor else b.velocity.y) &&
      r.velocity.x == (if hitSide then -b.velocity.x * DampeningFactor else b.velocity.x)
                      * (if hitFloor then FrictionFactor else 1.0)
  {
  }

  /** A body already inside the window is left alone, so where the window fits
      the body the response is idempotent. */
  lemma ClampIdempotent(b: Body, width: real, height: real)
    requires 2.0 * b.radius <= width && 2.0 * b.radius <= height
    ensures Clamp(Clamp(b, width, height), width, height) == Clamp(b, width, height)
  {
    ClampInside(b, width, height);
  }

  /** The second half of `update` for one body: gravity as the force
      `gravity * mass`, integration, then the boundary response; a static body
      is skipped. */
  function Advance(b: Body, gravity: Vec2, dt: real, width: real, height: real): (r: Body)
    ensures r.mass == b.mass && r.isStatic == b.isStatic && r.radius == b.radius
    ensures b.isStatic ==> r == b
    ensures !b.isStatic ==> r.force == Zero
    ensures !b.isStatic && 2.0 * b.radius <= width ==> b.radius <= r.position.x <= width - b.radius
    ensures !b.isStatic && 2.0 * b.radius <= height ==> b.radius <= r.position.y <= height - b.radius
  {
    if b.isStatic then b
    else
      var integrated := Integrate(Accumulate(b, Scale(gravity, b.mass)), dt);
      ClampInside(integrated, width, height);
      Clamp(integrated, width, height)
  }

  /** One frame of `PhysicsEngine::update`. */
  ghost function Step(s: seq<Body>, gravity: Vec2, dt: real, width: real, height: real, norm: Vec2 -> real): (r: seq<Body>)
    requires IsNorm(norm) && AllHaveInverseMass(s)
    ensures |r| == |s|
  {
    var collided := CollisionPass(s, norm);
    seq(|collided|, k requires 0 <= k < |collided| => Advance(collided[k], gravity, dt, width, height))
  }

  /** A frame keeps every body at its index with its mass, flag and radius:
      no body is added, removed or reordered. */
  lemma StepKeepsBodies(s: seq<Body>, gravity: Vec2, dt: real, width: real, height: real, norm: Vec2 -> real)
    requires IsNorm(norm) && AllHaveInverseMass(s)
    ensures var r := Step(s, gravity, dt, width, height, norm);
      |r| == |s| && AllHaveInverseMass(r) &&
      forall k :: 0 <= k < |s| ==>
        r[k].mass == s[k].mass && r[k].isStatic == s[k].isStatic && r[k].radius == s[k].radius
  {
  }

  /** A static body comes out of a frame exactly as it went in: neither the
      collision pass nor the integration touches it. */
  lemma StepKeepsStatic(s: seq<Body>, gravity: Vec2, dt: real, width: real, height: real, norm: Vec2 -> real, k: nat)
    requires IsNorm(norm) && AllHaveInverseMass(s)
    requires k < |s| && s[k].isStatic
    ensures Step(s, gravity, dt, width, height, norm)[k] == s[k]
  {
  }

  /** After a frame every body that is not static has an empty force buffer. */
  lemma StepClearsForce(s: seq<Body>, gravity: Vec2, dt: real, width: real, height: real, norm: Vec2 -> real, k: nat)
    requires IsNorm(norm) && AllHaveInverseMass(s)
    requires k < |s| && !s[k].isStatic
    ensures Step(s, gravity, dt, width, height, norm)[k].force == Zero
  {
  }

  /** After a frame every body that is not static and fits the window lies
      inside it. */
  lemma StepInsideWindow(s: seq<Body>, gravity: Vec2, dt: real, width: real, height: real, norm: Vec2 -> real, k: nat)
    requires IsNorm(norm) && AllHaveInverseMass(s)
    requires k < |s| && !s[k].isStatic
    requires 2.0 * s[k].radius <= width && 2.0 * s[k].radius <= height
    ensures var p := Step(s, gravity, dt, width, height, norm)[k].position;
      s[k].radius <= p.x <= width - s[k].radius && s[k].radius <= p.y <= height - s[k].radius
  {
  }

  // ---------------------------------------------------------------------------
  // The engine as the simulator holds it

  /** No body object appears twice in the list. */
  predicate Distinct(bs: seq<RigidBody>)
  {
    forall i, j :: 0 <= i < j < |bs| ==> bs[i] != bs[j]
  }

  /** The current value of every body of `bs`, in list order. */
  ghost function StatesOf(bs: seq<RigidBody>): (r: seq<Body>)
    reads bs
    ensures |r| == |bs|
    ensures forall k :: 0 <= k < |bs| ==> r[k] == bs[k].State()
  {
    seq(|bs|, k reads bs requires 0 <= k < |bs| => bs[k].State())
  }

  /** The inner loop's body in `handle_collisions`: bodies `i` and `j` are
      resolved against each other if they overlap. */
  method ResolveAt(bs: seq<RigidBody>, i: nat, j: nat, norm: Vec2 -> real)
    requires Distinct(bs) && i < j < |bs| && IsNorm(norm) && AllHaveInverseMass(StatesOf(bs))
    modifies bs[i], bs[j]
    ensures StatesOf(bs) == ResolvePair(old(StatesOf(bs)), i, j, norm)
    ensures AllHaveInverseMass(StatesOf(bs))
  {
    ghost var before := StatesOf(bs);
    var bodyA, bodyB := bs[i], bs[j];
    if bodyA.CheckCollision(bodyB, norm) {
      bodyA.ResolveCollision(bodyB, norm);
    }
    ghost var after := ResolvePair(before, i, j, norm);
    forall m | 0 <= m < |bs|
      ensures StatesOf(bs)[m] == after[m]
    {
      if m != i && m != j {
        assert bs[m] != bodyA && bs[m] != bodyB;
      }
    }
  }

  /** One turn of the outer loop of `handle_collisions`: body `i` against
      every later body, in order. */
  method ResolveRow(bs: seq<RigidBody>, i: nat, norm: Vec2 -> real)
    requires Distinct(bs) && i < |bs| && IsNorm(norm) && AllHaveInverseMass(StatesOf(bs))
    modifies bs
    ensures AllHaveInverseMass(StatesOf(bs))
    ensures StatesOf(bs) == Row(Resolver(norm), old(StatesOf(bs)), i, i + 1, |bs|)
  {
    ghost var f := Resolver(norm);
    ghost var row := Row(f, StatesOf(bs), i, i + 1, |bs|);
    var j := i + 1;
    while j < |bs|
      invariant i + 1 <= j <= |bs|
      invariant AllHaveInverseMass(StatesOf(bs))
      invariant Row(f, StatesOf(bs), i, j, |bs|) == row
    {
      ResolverResolves(StatesOf(bs), i, j, norm);
      ResolveAt(bs, i, j, norm);
      j := j + 1;
    }
  }

  /** The loop body of `update` for one body: gravity as a force, integration,
      then the boundary response; a static body is skipped. */
  /** The second loop of `update`: every body of the list advanced in turn. */
  method AdvanceAll(bs: seq<RigidBody>, gravity: Vec2, dt: real, width: real, height: real)
    requires Distinct(bs)
    modifies bs
    ensures StatesOf(bs) == seq(|bs|, m requires 0 <= m < |bs| => Advance(old(StatesOf(bs))[m], gravity, dt, width, height))
  {
    ghost var before := StatesOf(bs);
    var k := 0;
    while k < |bs|
      invariant 0 <= k <= |bs|
      invariant forall m :: 0 <= m < k ==> bs[m].State() == Advance(before[m], gravity, dt, width, height)
      invariant forall m :: k <= m < |bs| ==> bs[m].State() == before[m]
    {
      AdvanceBody(bs[k], gravity, dt, width, height);
      k := k + 1;
    }
  }

  method AdvanceBody(body: RigidBody, gravity: Vec2, dt: real, width: real, height: real)
    modifies body
    ensures body.State() == Advance(old(body.State()), gravity, dt, width, height)
  {
    if !body.isStatic {
      body.ApplyForce(Scale(gravity, body.mass));
      body.Update(dt);
      KeepInside(body, width, height);
    }
  }

  /** The boundary response of `update` for one body. */
  method KeepInside(body: RigidBody, width: real, height: real)
    modifies body
    ensures body.State() == Clamp(old(body.State()), width, height)
  {
    if body.position.x - body.radius < 0.0 {
      body.position := body.position.(x := body.radius);
      body.velocity := body.velocity.(x := -body.velocity.x * DampeningFactor);
    } else if body.position.x + body.radius > width {
      body.position := body.position.(x := width - body.radius);
      body.velocity := body.velocity.(x := -body.velocity.x * DampeningFactor);
    }
    if body.position.y - body.radius < 0.0 {
      body.position := body.position.(y := body.radius);
      body.velocity := body.velocity.(y := -body.velocity.y * DampeningFactor);
    } else if body.position.y + body.radius > height {
      body.position := body.position.(y := height - body.radius);
      body.velocity := body.velocity.(y := -body.velocity.y * DampeningFactor);
      body.velocity := body.velocity.(x := body.velocity.x * FrictionFactor);
    }
  }

  class PhysicsEngine {
    var bodies: seq<RigidBody>
    var gravity: Vec2

    /** The list owns its bodies: no body appears twice. */
    ghost predicate Valid()
      reads this
    {
      Distinct(bodies)
    }

    /** The current value of every body, in list order. */
    ghost function States(): (r: seq<Body>)
      reads this, bodies
    {
      StatesOf(bodies)
    }

    constructor (gravity: Vec2)
      ensures Valid() && bodies == [] && this.gravity == gravity
    {
      bodies := [];
      this.gravity := gravity;
    }

    method CreateStartingPos(body: RigidBody)
      requires Valid() && body !in bodies
      modifies this
      ensures Valid() && bodies == old(bodies) + [body] && gravity == old(gravity)
    {
      bodies := bodies + [body];
    }

    method DeleteStartingPos()
      requires Valid()
      modifies this
      ensures Valid() && gravity == old(gravity)
      ensures bodies == if old(bodies) == [] then [] else old(bodies)[..|old(bodies)| - 1]
    {
      if bodies != [] {
        bodies := bodies[..|bodies| - 1];
      }
    }

    method AddBody(body: RigidBody)
      requires Valid() && body !in bodies
      modifies this
      ensures Valid() && bodies == old(bodies) + [body] && gravity == old(gravity)
    {
      bodies := bodies + [body];
    }

    /** The live list itself, not a copy. */
    function Bodies(): (r: seq<RigidBody>)
      reads this
      ensures r == bodies
    {
      bodies
    }

    method Update(dt: real, width: real, height: real, norm: Vec2 -> real)
      requires Valid() && IsNorm(norm) && AllHaveInverseMass(States())
      modifies bodies
      ensures bodies == old(bodies)
      ensures States() == Step(old(States()), gravity, dt, width, height, norm)
    {
      HandleCollisions(norm);
      AdvanceAll(bodies, gravity, dt, width, height);
    }

    method HandleCollisions(norm: Vec2 -> real)
      requires Valid() && IsNorm(norm) && AllHaveInverseMass(States())
      modifies bodies
      ensures bodies == old(bodies)
      ensures States() == CollisionPass(old(States()), norm)
    {
      var bs := bodies;
      var n := |bs|;
      ghost var pass := CollisionPass(StatesOf(bs), norm);
      var i := 0;
      while i < n
        invariant 0 <= i <= n && bodies == bs
        invariant AllHaveInverseMass(StatesOf(bs))
        invariant Rows(Resolver(norm), StatesOf(bs), i, n) == pass
      {
        ResolveRow(bs, i, norm);
        i := i + 1;
      }
    }
  }

  /** The driver's drag gesture: a preview body is staged, then removed and
      replaced by the body to simulate. The preview leaves no trace in the
      list. Frames that run while the preview is staged are not part of this
      method, and in them the preview is an obstacle like any other body. */
  method DragAndRelease(engine: PhysicsEngine, preview: RigidBody, body: RigidBody)
    requires engine.Valid() && preview !in engine.bodies && body !in engine.bodies
    modifies engine
    ensures engine.Valid() && engine.bodies == old(engine.bodies) + [body]
  {
    engine.CreateStartingPos(preview);
    engine.DeleteStartingPos();
    engine.AddBody(body);
  }
}
