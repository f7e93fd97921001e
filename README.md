# Verified model of the 2D entity simulator's tick

`simulator1.py` is an HTML page whose embedded JavaScript runs a small 2D
simulation. Entities are disks of radius 1 in a 100 × 100 square. Each has
two control inputs, `f1` and `f2`. On every tick, `simulate` visits the
entities in array order and does four things to each one:

1. It adds `(f1 + f2) * dt` to the speed `v` and `(f2 - f1) * dt` to the
   angular rate `omega`.
2. It tries up to nine headings. Each is the pre-tick heading plus a
   multiple of `adjustmentStep`.
3. It moves the entity along the first heading whose new position passes
   `overlapsAny`. That test rejects a disk that leaves the boundary and
   rejects a centre closer than two radii to any other entity.
4. If no heading passes, it freezes the entity: `v` and `omega` become 0
   and the position is kept.

`addEntity` appends a new record at rest.

The model has two modules.

- `WorldState` (`world_state.dfy`) holds:
  - the configuration constants, the `Entity` record and the boundary;
  - the overlap test, as pure recursive functions over the entity
    sequence;
  - the predicate `WellSpaced`: uniform radius, every disk inside the
    boundary, and no two entities too close;
  - the class `World`, which owns the `entities` sequence and whose
    `AddEntity` appends to it in place.
- `Stepper` (`stepper.dfy`) holds:
  - the candidate order;
  - the first-fit search `FirstFit`;
  - one entity's step `Advance`, and a whole tick `Tick` (the first `n`
    steps are `Ticked`);
  - their lemmas;
  - the imperative `Simulate`. Its outer loop calls `StepEntity`. That
    method's inner loop carries a `foundValid` flag and exits with a
    `break`, as in the source. Both methods are proved equal to the pure
    functions.

JavaScript objects become `Entity` values in a sequence, addressed by
index. The identity test `other === e` becomes index inequality.
`Math.cos`, `Math.sin` and `adjustmentStep` (π/4 in the source) are
parameters of type `Trig`. Every result holds for any values of them,
with one exception: `FirstTickFromStartup` assumes cos 0 = 1 and
sin 0 = 0.

Two details of the code that the model keeps:

- **Order of the heading offsets.** The sign rule `i % 2 === 0 ? 1 : -1`
  (simulator1.py:88) makes odd indices negative. The order is therefore
  0, −s, +s, −2s, +2s, −3s, +3s, −4s, +4s, and `OffsetSchedule` proves
  it.
- **`addEntity`'s result.** `addEntity` (simulator1.py:35-46) returns
  nothing; it only pushes the new record.

## Model

| member | source | states |
|---|---|---|
| WorldState.NewEntity | simulator1.py:36-45 | the record addEntity pushes: given x, y, f1, f2; heading, v, omega 0; radius 1 |
| WorldState.World.constructor | simulator1.py:33 | the entity array starts empty |
| WorldState.World.AddEntity | simulator1.py:35-46 | the array grows by exactly one; earlier entries are unchanged; the new last entry has the given x, y, f1, f2, heading = v = omega = 0 and radius 1; uniform radius is preserved |
| WorldState.CloseToOthersMeaning | simulator1.py:59-70 | the scan from index `from` answers true exactly when some entity at or after `from`, other than the entity itself, has squared distance below (2r)² |
| WorldState.OverlapsAny | simulator1.py:48-71 | a disk that is not fully inside the boundary is always rejected |
| WorldState.OverlapsAnyMeaning | simulator1.py:48-71 | a candidate is rejected exactly when the disk leaves the closed boundary rectangle or some other entity is at squared distance < (2·radius)²; touching an edge is allowed |
| WorldState.OverlapsIgnoresHeading | simulator1.py:48 | the answer does not depend on the heading argument |
| WorldState.OverlapsReadsOnlyOthers | simulator1.py:48-71 | the answer reads only the radius of the entity itself and the other entities |
| WorldState.TooCloseSymmetric | simulator1.py:62-65 | the squared-distance test gives the same answer from either centre |
| WorldState.AddKeepsWellSpacedIff | simulator1.py:35-46 | appending to a well-spaced world keeps it well spaced if and only if the new position passes the overlap test |
| WorldState.SamePlaceKeepsWellSpaced | simulator1.py:78-79 | a change that keeps position and radius keeps a world well spaced |
| WorldState.AcceptedMoveKeepsWellSpaced | simulator1.py:93-96 | moving one entity to a centre the overlap test accepts keeps a world well spaced |
| Stepper.HeadingOffsetIsOffset | simulator1.py:88 | the source's offset formula equals the nine-entry offset table at every index 0..8 |
| Stepper.HeadingOffsetIsMultiple | simulator1.py:88 | the offset at index i is floor((i+1)/2) times the step, positive for even i and negative for odd i |
| Stepper.OffsetIndexOfMultiple | simulator1.py:87-88 | the index where a multiple is tried is recovered from the multiple |
| Stepper.MultipleOfOffsetIndex | simulator1.py:87-88 | `OffsetIndex` and `OffsetMultiple` are inverse, so each integer multiple has exactly one index; only the multiples −4..4 fall in the tried indices 0..8 (`OffsetSchedule`) |
| Stepper.OffsetSchedule | simulator1.py:87-88 | the nine tries are 0, −1, +1, −2, +2, −3, +3, −4, +4; they are pairwise distinct, cover −4..4, and never decrease in size |
| Stepper.FirstFit | simulator1.py:87-100 | a found index lies in range and its candidate passes the overlap test |
| Stepper.FirstFitFinds | simulator1.py:87-99 | the search returns k when candidate k fits and no earlier candidate does |
| Stepper.FirstFitSkipsEarlier | simulator1.py:87-99 | a search that returns k rejected every earlier candidate |
| Stepper.FirstFitNone | simulator1.py:87-102 | the search finds nothing if and only if all nine candidates are rejected |
| Stepper.Advance | simulator1.py:74-106 | one entity's step writes only that entity and never writes f1, f2 or radius |
| Stepper.FitsAfterIntegrate | simulator1.py:78-93 | updating the entity's own speed before the search does not change which candidates fit |
| Stepper.AdvanceIsCommit | simulator1.py:87-99 | when candidate k is the first that fits, the entity is committed to candidate k |
| Stepper.CommitFields | simulator1.py:75-96 | a committed entity has heading = pre-tick heading + offset(k), x and y extrapolated with the integrated speed, v += (f1+f2)·dt, omega += (f2−f1)·dt, and f1, f2, radius unchanged |
| Stepper.AdvanceCommitsFirstFit | simulator1.py:75-99 | when candidate k is the first that fits, heading, x and y are those of candidate k, and v and omega are integrated |
| Stepper.AdvanceFreezes | simulator1.py:81-105 | when no candidate fits, v = omega = 0 and x, y, heading keep their pre-tick values |
| Stepper.AdvancePreservesWellSpaced | simulator1.py:75-105 | one step keeps a well-spaced world well spaced |
| Stepper.CandidateAtRest | simulator1.py:90-91 | with zero speed, every candidate position is the current position |
| Stepper.AdvanceAtRest | simulator1.py:75-105 | an entity at rest with zero controls is left unchanged by its step |
| Stepper.Ticked | simulator1.py:74 | the first n steps keep the number of entities |
| Stepper.Ticks | simulator1.py:126-129 | repeated ticks keep the number of entities |
| Stepper.TickedFrame | simulator1.py:74-96 | after n steps, entities not yet visited are untouched and visited entities keep the state their own step gave them |
| Stepper.TickOrder | simulator1.py:60-96 | each entity steps exactly once per tick; earlier entities already have their final state and later entities still have their pre-tick state |
| Stepper.TickedKeepsFixedFields | simulator1.py:73-107 | a tick never writes f1, f2 or radius |
| Stepper.TickedPreservesWellSpaced | simulator1.py:44-107 | containment and non-overlap hold after every prefix of a tick |
| Stepper.TickPreservesWellSpaced | simulator1.py:73-107 | a whole tick keeps containment and non-overlap |
| Stepper.TicksPreserveWellSpaced | simulator1.py:73-129 | any number of ticks keep containment and non-overlap |
| Stepper.TickAtRest | simulator1.py:73-107 | a tick leaves an entity at rest with zero controls unchanged |
| Stepper.TicksAtRest | simulator1.py:73-107 | any number of ticks leave such an entity unchanged |
| Stepper.FirstTickFromStartup | simulator1.py:133-134 | with cos 0 = 1 and sin 0 = 0, the first tick moves the start-up entity from (10, 10) to (15, 10), with v = 5, omega = 1 and heading 0 |
| Stepper.CandidateIs | simulator1.py:88-91 | the trial heading and position the loop computes at index i are candidate i |
| Stepper.StepEntity | simulator1.py:75-105 | the loop body, run in place on the world's entities (inner loop, `foundValid` flag and `break`), leaves exactly Advance of the old entities |
| Stepper.Simulate | simulator1.py:73-107 | the world's entities become Tick of the old entities; a well-spaced world stays well spaced |

## Left out

- `draw` and all canvas use (simulator1.py:17-18, 21, 109-124). This is
  rendering only.
- `step`, `requestAnimationFrame` and the start-up calls
  (simulator1.py:126-134). This is the animation driver. `Ticks` stands
  for repeated frames, and `FirstTickFromStartup` covers the start-up
  world.
- Floating-point arithmetic. Positions, speeds and headings are real
  numbers, so rounding is not modelled.
- The values of `Math.cos`, `Math.sin` and `Math.PI`. They are
  parameters, so no numeric position is stated for a non-zero heading.
- Rotation driven by `omega`. The source integrates and resets `omega`
  but never applies it to `heading`, and the model does the same.
- Object identity and aliasing. Entities are values addressed by index.
  Identity matters only in the `other === e` test, which becomes index
  inequality.
