# A verified model of a 2D circle-physics core

The simulator moves circular rigid bodies under gravity inside a window.
Each body has a position, a velocity, a force buffer, a mass, a static flag
and a radius (`RigidBody`, `src/rigid_body.rs`). The engine (`PhysicsEngine`,
`src/physics_engine.rs`) owns an ordered list of bodies and a gravity vector.
Each frame it does two things:

- It resolves every overlapping pair `i < j` once, in place, with an
  impulse-based response.
- For each body that is not static, it turns gravity into the force
  `gravity * mass`, integrates with semi-implicit Euler, and pushes a body
  that is past an edge back against it, reversing and damping the velocity
  component on that axis (whichever way the body was moving on it).

The project has three modules:

- `Vector` (`vector.dfy`) stands in for `nalgebra::Vector2<f32>`: a vector of
  two reals with sum, difference, scaling, division, dot product and the
  Euclidean norm.
- `RigidBodies` (`rigid_body.dfy`) holds `Body`, the value of one body, and
  the value functions that say what each operation computes: `Accumulate`,
  `Integrate`, `Overlapping`, and `Collide` (which is `Correct` followed by
  `Bounce`). The class `RigidBody` has the source's mutable fields, and each
  of its methods is proved to move its `State()` as the matching function
  says.
- `Engine` (`physics_engine.dfy`) holds the collision pass on values
  (`Row`, `Rows`, `CollisionPass`), the boundary response (`Clamp`) and one
  whole frame (`Step`). The class `PhysicsEngine` keeps a `seq<RigidBody>`
  of distinct objects, and its `Update` is proved to move the bodies' states
  as `Step` says.

The norm is a square root, which this model does not define. It is passed to
every operation that needs it as a function `norm`. The model knows only
`IsNorm(norm)`: `norm(v)` is the non-negative number whose square is
`v . v`. Uniqueness of that root is proved, and with it everything the model
uses about distances.

Division is defined only for non-zero divisors. `resolve_collision` divides
by the mass of every body that is not static, and the model requires that
this mass is non-zero. It requires this exactly on the path where the source
divides: past both early exits, where the bodies are `Approaching`.

## Model

| member | source | states |
|---|---|---|
| RigidBodies.RigidBody.constructor | src/rigid_body.rs:13-28 | the new body has the given position, mass, flag and radius, the given velocity or zero when none is given, and an empty force buffer |
| RigidBodies.Accumulate | src/rigid_body.rs:30-32 | the force buffer grows by exactly the argument, and position, velocity, mass, flag and radius are unchanged |
| RigidBodies.RigidBody.ApplyForce | src/rigid_body.rs:30-32 | the force buffer grows by the argument and no other field changes |
| RigidBodies.AccumulateTwice | src/rigid_body.rs:30-32 | applying `f` and then `g` is the same as applying `f + g` once |
| RigidBodies.Integrate | src/rigid_body.rs:34-46 | a static body is left exactly as it was, force included. A body of mass zero only loses its force. Any other body has its force cleared, its change of momentum equal to `force * dt`, and its position advanced by `dt` times the NEW velocity. Mass, flag and radius never change |
| RigidBodies.RigidBody.Update | src/rigid_body.rs:34-46 | the body's new state is `Integrate` of its old state, including the early return for mass zero |
| RigidBodies.GravityIndependentOfMass | src/physics_engine.rs:37-42 | with an empty force buffer, turning gravity into `gravity * mass` and integrating gives the new velocity `v + gravity * dt`, whatever the non-zero mass |
| RigidBodies.Overlapping | src/rigid_body.rs:48-52 | bodies whose radii do not sum to something positive never overlap, and bodies with the same centre overlap exactly when their radii sum to something positive |
| RigidBodies.RigidBody.CheckCollision | src/rigid_body.rs:48-52 | the test on the two bodies' current states gives the same answer as the test asked the other way round, and holds only when the radii sum to something positive |
| RigidBodies.OverlappingSymmetric | src/rigid_body.rs:48-52 | the overlap test gives the same answer whichever body asks |
| RigidBodies.OverlappingBySquares | src/rigid_body.rs:48-52 | the overlap test holds exactly when the radii sum to something positive and the squared distance is below the square of that sum |
| RigidBodies.InverseMass | src/rigid_body.rs:97-102 | zero for a static body, otherwise the reciprocal of the mass |
| RigidBodies.ApproachingExactly | src/rigid_body.rs:56-69 | the response goes past both early exits (non-zero distance, negative speed along the normal) exactly when the centres differ and the relative velocity has a negative dot product with the line of centres |
| RigidBodies.Correct | src/rigid_body.rs:71-93 | positional correction never changes a velocity, a force, a mass, a flag or a radius, and never moves a static body |
| RigidBodies.Bounce | src/rigid_body.rs:95-115 | the impulse never changes a position, a force, a mass, a flag or a radius, and never touches a static body |
| RigidBodies.Collide | src/rigid_body.rs:54-116 | the response never changes a force, a mass, a flag or a radius, and leaves a static body exactly as it was |
| RigidBodies.CollideNoOp | src/rigid_body.rs:56-106 | coincident centres, a non-negative speed along the normal, or inverse masses that sum to zero leave both bodies exactly as they were |
| RigidBodies.CollideMovesSomething | src/rigid_body.rs:108-115 | approaching bodies whose inverse masses do not sum to zero always come out changed |
| RigidBodies.CollideConserves | src/rigid_body.rs:71-115 | between two dynamic bodies of non-zero mass the response keeps total momentum and the centre of mass |
| RigidBodies.CorrectLeavesRemainder | src/rigid_body.rs:71-93 | when the bodies overlap and some body can move, the correction removes `0.8` of the overlap, so `0.2` of it remains |
| RigidBodies.CollideRestitution | src/rigid_body.rs:95-115 | after the impulse the relative velocity along the line of centres is `-0.3` times what it was |
| RigidBodies.RigidBody.ResolveCollision | src/rigid_body.rs:54-116 | both bodies' new states are `Collide` of their old states |
| RigidBodies.RigidBody.CorrectPositions | src/rigid_body.rs:71-93 | both bodies' new states are `Correct` of their old states |
| RigidBodies.RigidBody.ApplyImpulse | src/rigid_body.rs:95-115 | both bodies' new states are `Bounce` of their old states |
| Engine.PhysicsEngine.constructor | src/physics_engine.rs:14-19 | the engine has the given gravity and no bodies |
| Engine.PhysicsEngine.CreateStartingPos | src/physics_engine.rs:21-23 | the body is appended; earlier bodies and gravity are unchanged |
| Engine.PhysicsEngine.DeleteStartingPos | src/physics_engine.rs:25-27 | the last body is removed, and an empty list stays empty |
| Engine.PhysicsEngine.AddBody | src/physics_engine.rs:29-31 | the body is appended; earlier bodies and gravity are unchanged |
| Engine.DragAndRelease | src/physics_engine.rs:21-31 | staging a preview, deleting it and adding the real body leaves the old list plus that body: the preview leaves no trace in the list |
| Engine.PhysicsEngine.Bodies | src/physics_engine.rs:81-83 | gives the engine's own list, not a copy |
| Engine.PairsFrom | src/physics_engine.rs:67-68 | every pair the loops visit from `(i, j)` on has `i <= a < b < n` and comes at or after `(i, j)` |
| Engine.Pairs | src/physics_engine.rs:67-68 | the loops make `n * (n - 1) / 2` visits, one per unordered pair |
| Engine.PairsSchedule | src/physics_engine.rs:67-68 | the loops visit exactly the pairs `a < b < n`, in strictly increasing lexicographic order, so each unordered pair once |
| Engine.ApplyPairs | src/physics_engine.rs:67-78 | visiting a list of pairs one after the other keeps the bodies (no body added, removed or reordered, constant fields kept, static bodies untouched) whenever each single visit does |
| Engine.Row | src/physics_engine.rs:68-77 | a whole inner loop keeps the bodies whenever each single visit does |
| Engine.Rows | src/physics_engine.rs:67-78 | the whole outer loop keeps the bodies whenever each single visit does |
| Engine.RowsFollowSchedule | src/physics_engine.rs:67-78 | whatever one visit does, the rest of the two loops from `(i, j)` is the rest of the schedule visited pair by pair |
| Engine.LoopsFollowPairs | src/physics_engine.rs:67-78 | the two nested loops are the schedule `Pairs(n)` visited in order |
| Engine.ResolvePair | src/physics_engine.rs:74-76 | one visit changes at most bodies `i` and `j` and keeps every body's force, mass, flag and radius |
| Engine.ResolvePairTests | src/physics_engine.rs:74-76 | a visit changes nothing when the test fails, and when it holds the two bodies become the result of `resolve_collision` on them |
| Engine.ResolverResolves | src/physics_engine.rs:74-76 | in every situation the loops create, the visit is `ResolvePair` |
| Engine.ResolverKeepsBodies | src/physics_engine.rs:74-76 | a visit never changes the length, a force, a mass, a flag or a radius, and never moves a static body |
| Engine.CollisionPass | src/physics_engine.rs:65-79 | the collision pass adds, removes and reorders nothing, keeps every force, mass, flag and radius, leaves static bodies untouched, and so keeps every division defined for the next pass |
| Engine.CollisionPassFollowsPairs | src/physics_engine.rs:65-79 | the collision pass resolves the pairs of `Pairs(n)` in order, each visit seeing the effect of the ones before it |
| Engine.ResolveAt | src/physics_engine.rs:69-76 | after the inner loop's body the states are `ResolvePair` of the states before it |
| Engine.ResolveRow | src/physics_engine.rs:68-77 | after one run of the inner loop the states are `Row` of the states before it |
| Engine.PhysicsEngine.HandleCollisions | src/physics_engine.rs:65-79 | the list is unchanged and the bodies' new states are `CollisionPass` of the old states |
| Engine.Clamp | src/physics_engine.rs:45-60 | the boundary response never changes a force, a mass, a flag or a radius |
| Engine.ClampHorizontal | src/physics_engine.rs:45-51 | only the horizontal position and velocity change; a body inside is left alone; a body past an edge has its horizontal velocity reversed and damped whichever way it moved; where the window is a diameter wide the body ends up a radius from both side edges |
| Engine.ClampVertical | src/physics_engine.rs:53-60 | the horizontal position never changes and the horizontal velocity changes only by floor friction; a body inside is left alone; a body past an edge has its vertical velocity reversed and damped; where the window is a diameter tall the body ends up a radius from top and bottom |
| Engine.ClampInside | src/physics_engine.rs:45-60 | on each axis where the window is at least a diameter wide, the body ends up at least a radius from both edges |
| Engine.ClampVelocity | src/physics_engine.rs:45-60 | a velocity component whose edge was crossed is reversed and scaled by `0.8`; the horizontal one is scaled by `0.98` as well only when the floor was hit |
| Engine.ClampIdempotent | src/physics_engine.rs:45-60 | where the window fits the body, a second boundary response changes nothing |
| Engine.KeepInside | src/physics_engine.rs:45-60 | the body's new state is `Clamp` of its old state |
| Engine.Advance | src/physics_engine.rs:36-61 | a static body is unchanged; any other body keeps its mass, flag and radius, ends with an empty force buffer, and lies inside the window on each axis the window fits it |
| Engine.AdvanceAll | src/physics_engine.rs:35-62 | after the second loop every body's state is `Advance` of its state before the loop |
| Engine.AdvanceBody | src/physics_engine.rs:36-61 | a static body is untouched; any other body gets gravity as a force, is integrated and is clamped, as `Advance` says |
| Engine.Step | src/physics_engine.rs:33-63 | a frame keeps the number of bodies |
| Engine.StepKeepsBodies | src/physics_engine.rs:33-63 | a frame keeps every body at its index with its mass, flag and radius, so every division stays defined in the next frame |
| Engine.StepKeepsStatic | src/physics_engine.rs:33-36 | a static body comes out of a frame exactly as it went in, through both the collision pass and the integration loop |
| Engine.StepClearsForce | src/physics_engine.rs:39-42 | after a frame every body that is not static has an empty force buffer |
| Engine.StepInsideWindow | src/physics_engine.rs:45-60 | after a frame every body that is not static and fits the window lies inside it |
| Engine.PhysicsEngine.Update | src/physics_engine.rs:33-63 | the list is unchanged and the bodies' new states are `Step` of the old states: the collision pass, then gravity, integration and the boundary response per body |

## Left out

- `f32` arithmetic is not modelled. All arithmetic is on exact reals, so
  rounding, NaN, infinities and tunnelling through thin bodies are outside the
  model.
- `Vector2::norm` is not defined. Operations take the norm as a function
  argument, constrained by `IsNorm` to be the non-negative square root of
  `v . v`.
- `screen_width()` and `screen_height()` are window queries. They become the
  parameters `width` and `height` of `Update`.
- `src/main.rs` is not part of this model: the event loop, drawing, mouse
  handling and the drag-to-velocity gesture. `DragAndRelease` keeps only the
  order of engine calls that the gesture makes.
- RigidBodies.RigidBody.ResolveCollision: when a body that is not static has
  mass zero, the source computes `1.0 / 0.0` in `f32`. The model requires a
  non-zero mass for every such body on the path that divides. It uses
  `mass != 0` rather than `mass > 0`, because the source divides by negative
  masses without complaint.
- Engine.PhysicsEngine.Update: requires every body to be static or to have a
  non-zero mass. The simulator only creates static anchors and bodies of
  mass one. So the zero-mass branch of `RigidBody::update` is proved for a
  single body but cannot arise inside the engine.
- Engine.CollisionPass: the per-pair step `Resolver` does nothing outside the
  situations the loops create. Those are indices out of order or out of
  range, or bodies without an inverse mass. `ResolverResolves` proves that
  inside those situations the step is the source's.
- Engine.DragAndRelease: runs the three engine calls back to back. In the
  simulator, frames keep running while the button is held, and in them the
  preview is a static obstacle that can move other bodies and change their
  velocities. Those effects survive its removal and are not stated here.
- Multi-frame behaviour (closed forms over many steps) is not stated. Only
  single-frame relations are proved.
- Rust's ownership makes two bodies of the list distinct objects. Here that
  is the invariant `Valid()`, and `CreateStartingPos` and `AddBody` require
  the new body not to be in the list already.
