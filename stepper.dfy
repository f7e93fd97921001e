/**
 * The per-tick stepper of the 2D entity simulator: integrate each entity's
 * speed and angular rate, search a fixed list of heading alternatives for
 * the first collision-free move, and freeze the entity when none exists.
 * Entities are processed in storage order, each seeing the already-updated
 * state of those before it.
 */
module Stepper {
  import opened WorldState

  datatype Option<T> = None | Some(value: T)

  /**
   * The trigonometric functions and `adjustmentStep` (a quarter of pi in the
   * source) are parameters: nothing below depends on their values.
   */
  datatype Trig = Trig(cos: real -> real, sin: real -> real, adjustmentStep: real)

  /** A candidate heading and the position it leads to. */
  datatype Pose = Pose(heading: real, x: real, y: real)

  /** Number of candidates tried per entity and tick. */
  const Candidates: nat := MaxAdjustTries + 1

  // ---------------------------------------------------------------------
  // Candidate order
  // ---------------------------------------------------------------------

  /** The signed multiple of the heading step tried at index `i`. */
  function OffsetMultiple(i: nat): int
  {
    ((i + 1) / 2) * (if i % 2 == 0 then 1 else -1)
  }

  /** The heading offset tried at index `i`, computed as the source does. */
  function HeadingOffset(i: nat, step: real): real
  {
    ((i + 1) / 2) as real * step * (if i % 2 == 0 then 1.0 else -1.0)
  }

  /**
   * The same nine offsets as a table, one literal multiple of the step per
   * index. This is the form the rest of the model uses.
   */
  function Offset(i: nat, step: real): real
    requires i <= MaxAdjustTries
  {
    match i
    case 0 => 0.0
    case 1 => -step
    case 2 => step
    case 3 => -2.0 * step
    case 4 => 2.0 * step
    case 5 => -3.0 * step
    case 6 => 3.0 * step
    case 7 => -4.0 * step
    case _ => 4.0 * step
  }

  /** The source's formula for the offset agrees with the table at every index tried. */
  lemma HeadingOffsetIsOffset(i: nat, step: real)
    requires i <= MaxAdjustTries
    ensures HeadingOffset(i, step) == Offset(i, step)
  {
    assert (i + 1) / 2 == if i == 0 then 0 else if i <= 2 then 1 else if i <= 4 then 2 else if i <= 6 then 3 else 4;
  }

  /** The index at which a given multiple of the step is tried. */
  function OffsetIndex(m: int): nat
  {
    if m < 0 then -2 * m - 1 else 2 * m
  }

  /** The offset at index `i` is the signed multiple `OffsetMultiple(i)` of the step. */
  lemma HeadingOffsetIsMultiple(i: nat, step: real)
    ensures HeadingOffset(i, step) == OffsetMultiple(i) as real * step
  {
    if i % 2 == 0 {
      assert OffsetMultiple(i) == (i + 1) / 2;
    } else {
      assert OffsetMultiple(i) == -((i + 1) / 2);
    }
  }

  /** Every index is the index of the multiple it tries. */
  lemma OffsetIndexOfMultiple(i: nat)
    ensures OffsetIndex(OffsetMultiple(i)) == i
  {
    if i % 2 == 0 {
      assert OffsetMultiple(i) == i / 2;
    } else {
      assert OffsetMultiple(i) == -((i + 1) / 2);
    }
  }

  /** Every multiple is tried at exactly one index: the two functions are inverse. */
  lemma MultipleOfOffsetIndex(m: int)
    ensures OffsetMultiple(OffsetIndex(m)) == m
  {
    if m < 0 {
      assert OffsetIndex(m) % 2 == 1 && (OffsetIndex(m) + 1) / 2 == -m;
    } else {
      assert OffsetIndex(m) % 2 == 0 && (OffsetIndex(m) + 1) / 2 == m;
    }
  }

  /**
   * The nine tries cover the multiples -4 .. 4 once each, in order of
   * growing size, the negative side first: 0, -1, +1, -2, +2, -3, +3, -4, +4.
   */
  lemma OffsetSchedule()
    ensures OffsetMultiple(0) == 0
    ensures OffsetMultiple(1) == -1 && OffsetMultiple(2) == 1
    ensures OffsetMultiple(3) == -2 && OffsetMultiple(4) == 2
    ensures OffsetMultiple(5) == -3 && OffsetMultiple(6) == 3
    ensures OffsetMultiple(7) == -4 && OffsetMultiple(8) == 4
    ensures forall m :: -4 <= m <= 4 ==> OffsetIndex(m) <= MaxAdjustTries
    ensures forall i, j :: 0 <= i < j ==> OffsetMultiple(i) != OffsetMultiple(j)
    ensures forall i, j :: 0 <= i < j ==>
      (if OffsetMultiple(i) < 0 then -OffsetMultiple(i) else OffsetMultiple(i)) <=
      (if OffsetMultiple(j) < 0 then -OffsetMultiple(j) else OffsetMultiple(j))
  {
    forall i, j | 0 <= i < j ensures OffsetMultiple(i) != OffsetMultiple(j) {
      OffsetIndexOfMultiple(i);
      OffsetIndexOfMultiple(j);
    }
  }

  // ---------------------------------------------------------------------
  // One entity
  // ---------------------------------------------------------------------

  /** Speed and angular rate after integrating the two control inputs over one tick. */
  function Integrate(e: Entity): Entity
  {
    var a1 := e.f1 + e.f2;
    var a2 := e.f2 - e.f1;
    e.(v := e.v + a1 * Dt, omega := e.omega + a2 * Dt)
  }

  /** Candidate `i`: the pre-tick heading plus the i-th offset, extrapolated with the current speed. */
  function Candidate(e: Entity, i: nat, t: Trig): Pose
    requires i <= MaxAdjustTries
  {
    var h := e.heading + Offset(i, t.adjustmentStep);
    Pose(h, e.x + e.v * t.cos(h) * Dt, e.y + e.v * t.sin(h) * Dt)
  }

  /** The entity at `self` could take pose `p` without overlapping anything. */
  predicate Fits(es: seq<Entity>, self: nat, p: Pose)
    requires self < |es|
  {
    !OverlapsAny(es, self, p.x, p.y, p.heading)
  }

  /** The first candidate index at or after `from` whose pose fits, if any. */
  function FirstFit(es: seq<Entity>, self: nat, t: Trig, from: nat): (r: Option<nat>)
    requires self < |es| && from <= Candidates
    decreases Candidates - from
    ensures r.Some? ==> from <= r.value <= MaxAdjustTries && Fits(es, self, Candidate(es[self], r.value, t))
  {
    if from == Candidates then None
    else if Fits(es, self, Candidate(es[self], from, t)) then Some(from)
    else FirstFit(es, self, t, from + 1)
  }

  /** The search returns `k` when candidate `k` fits and none tried before it does. */
  lemma {:induction false} FirstFitFinds(es: seq<Entity>, self: nat, t: Trig, from: nat, k: nat)
    requires self < |es| && from <= k <= MaxAdjustTries
    requires Fits(es, self, Candidate(es[self], k, t))
    requires forall j :: from <= j < k ==> !Fits(es, self, Candidate(es[self], j, t))
    decreases k - from
    ensures FirstFit(es, self, t, from) == Some(k)
  {
    if from < k {
      FirstFitFinds(es, self, t, from + 1, k);
    }
  }

  /** A search that returns `k` rejected every candidate tried before `k`. */
  lemma {:induction false} FirstFitSkipsEarlier(es: seq<Entity>, self: nat, t: Trig, from: nat, k: nat)
    requires self < |es| && from <= Candidates
    requires FirstFit(es, self, t, from) == Some(k)
    decreases Candidates - from
    ensures forall j :: from <= j < k ==> !Fits(es, self, Candidate(es[self], j, t))
  {
    if from < k {
      FirstFitSkipsEarlier(es, self, t, from + 1, k);
    }
  }

  /** The search fails exactly when every candidate from `from` on is rejected. */
  lemma {:induction false} FirstFitNone(es: seq<Entity>, self: nat, t: Trig, from: nat)
    requires self < |es| && from <= Candidates
    decreases Candidates - from
    ensures FirstFit(es, self, t, from).None? <==>
      forall k :: from <= k <= MaxAdjustTries ==> !Fits(es, self, Candidate(es[self], k, t))
  {
    if from < Candidates {
      FirstFitNone(es, self, t, from + 1);
    }
  }

  /** Move the entity to pose `p`. */
  function Commit(e: Entity, p: Pose): Entity
  {
    e.(heading := p.heading, x := p.x, y := p.y)
  }

  /** The fallback: speed and angular rate reset, position and heading kept. */
  function Freeze(e: Entity): Entity
  {
    e.(v := 0.0, omega := 0.0)
  }

  /** One iteration of the outer loop of `simulate`: the entity at index `i` takes its step. */
  function Advance(es: seq<Entity>, i: nat, t: Trig): (r: seq<Entity>)
    requires i < |es|
    ensures |r| == |es|
    ensures forall j :: 0 <= j < |es| && j != i ==> r[j] == es[j]
    ensures r[i].f1 == es[i].f1 && r[i].f2 == es[i].f2 && r[i].radius == es[i].radius
  {
    var e := Integrate(es[i]);
    var ws := es[i := e];
    match FirstFit(ws, i, t, 0)
    case Some(k) => ws[i := Commit(e, Candidate(e, k, t))]
    case None => ws[i := Freeze(e)]
  }

  /** Fitting is judged against the pre-step world: the entity's own change does not matter. */
  lemma FitsAfterIntegrate(es: seq<Entity>, i: nat, p: Pose)
    requires i < |es|
    ensures Fits(es[i := Integrate(es[i])], i, p) == Fits(es, i, p)
  {
    OverlapsReadsOnlyOthers(es, es[i := Integrate(es[i])], i, p.x, p.y, p.heading);
  }

  /** The search commits candidate `k` when it fits and no earlier one does. */
  lemma AdvanceIsCommit(es: seq<Entity>, i: nat, t: Trig, k: nat)
    requires i < |es| && k <= MaxAdjustTries
    requires Fits(es, i, Candidate(Integrate(es[i]), k, t))
    requires forall j :: 0 <= j < k ==> !Fits(es, i, Candidate(Integrate(es[i]), j, t))
    ensures Advance(es, i, t)[i] == Commit(Integrate(es[i]), Candidate(Integrate(es[i]), k, t))
  {
    var e := Integrate(es[i]);
    var ws := es[i := e];
    assert ws[i] == e;
    forall j | 0 <= j <= k ensures Fits(ws, i, Candidate(e, j, t)) == Fits(es, i, Candidate(e, j, t)) {
      FitsAfterIntegrate(es, i, Candidate(e, j, t));
    }
    FirstFitFinds(ws, i, t, 0, k);
  }

  /** The fields of an entity moved to candidate `k` after integrating its controls. */
  lemma CommitFields(e0: Entity, k: nat, t: Trig)
    requires k <= MaxAdjustTries
    ensures var r := Commit(Integrate(e0), Candidate(Integrate(e0), k, t));
      var h := e0.heading + HeadingOffset(k, t.adjustmentStep);
      var v := e0.v + (e0.f1 + e0.f2) * Dt;
      r.heading == h &&
      r.x == e0.x + v * t.cos(h) * Dt &&
      r.y == e0.y + v * t.sin(h) * Dt &&
      r.v == v &&
      r.omega == e0.omega + (e0.f2 - e0.f1) * Dt &&
      r.f1 == e0.f1 && r.f2 == e0.f2 && r.radius == e0.radius
  {
    HeadingOffsetIsOffset(k, t.adjustmentStep);
  }

  /**
   * When candidate `k` fits and no earlier one does, the step commits
   * candidate `k` (heading and position, see `CommitFields`), with the
   * integrated speed and angular rate.
   */
  lemma AdvanceCommitsFirstFit(es: seq<Entity>, i: nat, t: Trig, k: nat)
    requires i < |es| && k <= MaxAdjustTries
    requires Fits(es, i, Candidate(Integrate(es[i]), k, t))
    requires forall j :: 0 <= j < k ==> !Fits(es, i, Candidate(Integrate(es[i]), j, t))
    ensures var r := Advance(es, i, t)[i];
      var c := Candidate(Integrate(es[i]), k, t);
      r.heading == c.heading && r.x == c.x && r.y == c.y &&
      r.v == es[i].v + (es[i].f1 + es[i].f2) * Dt &&
      r.omega == es[i].omega + (es[i].f2 - es[i].f1) * Dt &&
      r.f1 == es[i].f1 && r.f2 == es[i].f2 && r.radius == es[i].radius
  {
    AdvanceIsCommit(es, i, t, k);
  }

  /**
   * When no candidate fits, the entity is frozen: speed and angular rate are
   * zero, position and heading are the pre-tick ones.
   */
  lemma AdvanceFreezes(es: seq<Entity>, i: nat, t: Trig)
    requires i < |es|
    requires forall k :: 0 <= k <= MaxAdjustTries ==> !Fits(es, i, Candidate(Integrate(es[i]), k, t))
    ensures var r := Advance(es, i, t)[i];
      r.v == 0.0 && r.omega == 0.0 &&
      r.x == es[i].x && r.y == es[i].y && r.heading == es[i].heading &&
      r.f1 == es[i].f1 && r.f2 == es[i].f2 && r.radius == es[i].radius
  {
    var e := Integrate(es[i]);
    var ws := es[i := e];
    assert ws[i] == e;
    forall k | 0 <= k <= MaxAdjustTries ensures !Fits(ws, i, Candidate(e, k, t)) {
      FitsAfterIntegrate(es, i, Candidate(e, k, t));
    }
    FirstFitNone(ws, i, t, 0);
  }

  /** A step keeps a well-spaced world well spaced. */
  lemma AdvancePreservesWellSpaced(es: seq<Entity>, i: nat, t: Trig)
    requires i < |es| && WellSpaced(es)
    ensures WellSpaced(Advance(es, i, t))
  {
    var e := Integrate(es[i]);
    var ws := es[i := e];
    SamePlaceKeepsWellSpaced(es, i, e);
    match FirstFit(ws, i, t, 0)
    case None =>
      SamePlaceKeepsWellSpaced(ws, i, Freeze(e));
      assert ws[i := Freeze(e)] == Advance(es, i, t);
    case Some(k) =>
      var c := Commit(e, Candidate(e, k, t));
      AcceptedMoveKeepsWellSpaced(ws, i, c);
      assert ws[i := c] == Advance(es, i, t);
  }

  /** Not moving, not turning, and both control inputs zero. */
  predicate AtRest(e: Entity)
  {
    e.v == 0.0 && e.omega == 0.0 && e.f1 == 0.0 && e.f2 == 0.0
  }

  /** With zero speed every candidate lies at the entity's current position. */
  lemma CandidateAtRest(e: Entity, k: nat, t: Trig)
    requires e.v == 0.0 && k <= MaxAdjustTries
    ensures Candidate(e, k, t).x == e.x && Candidate(e, k, t).y == e.y
  {
    var h := e.heading + Offset(k, t.adjustmentStep);
    assert e.v * t.cos(h) == 0.0 && e.v * t.sin(h) == 0.0;
  }

  /** A resting entity is a fixed point of its step, whatever the other entities do. */
  lemma AdvanceAtRest(es: seq<Entity>, i: nat, t: Trig)
    requires i < |es| && AtRest(es[i])
    ensures Advance(es, i, t)[i] == es[i]
  {
    var e := Integrate(es[i]);
    assert e == es[i];
    var ws := es[i := e];
    assert ws == es;
    CandidateAtRest(e, 0, t);
    match FirstFit(ws, i, t, 0)
    case None =>
    case Some(k) =>
      assert k == 0 by {
        if k != 0 {
          CandidateAtRest(e, k, t);
          OverlapsIgnoresHeading(ws, i, e.x, e.y, e.heading, Candidate(e, k, t).heading);
        }
      }
  }

  // ---------------------------------------------------------------------
  // A whole tick
  // ---------------------------------------------------------------------

  /** The world after the first `n` entities, in storage order, have taken their step. */
  function Ticked(es: seq<Entity>, n: nat, t: Trig): (r: seq<Entity>)
    requires n <= |es|
    ensures |r| == |es|
  {
    if n == 0 then es else Advance(Ticked(es, n - 1, t), n - 1, t)
  }

  /** `simulate`: one tick over all entities. */
  function Tick(es: seq<Entity>, t: Trig): seq<Entity>
  {
    Ticked(es, |es|, t)
  }

  /** `n` consecutive ticks. */
  function Ticks(es: seq<Entity>, n: nat, t: Trig): (r: seq<Entity>)
    ensures |r| == |es|
  {
    if n == 0 then es else Tick(Ticks(es, n - 1, t), t)
  }

  /**
   * After `n` steps, the entities not yet reached are untouched, and each
   * entity already reached keeps the state its own step gave it.
   */
  lemma {:induction false} TickedFrame(es: seq<Entity>, n: nat, t: Trig)
    requires n <= |es|
    ensures forall j :: n <= j < |es| ==> Ticked(es, n, t)[j] == es[j]
    ensures forall j :: 0 <= j < n ==> Ticked(es, n, t)[j] == Ticked(es, j + 1, t)[j]
  {
    if n > 0 {
      TickedFrame(es, n - 1, t);
    }
  }

  /**
   * The ordering of a tick: entity `j` steps exactly once, against a world
   * in which every earlier entity already has its final state of this tick
   * and every later entity still has its pre-tick state.
   */
  lemma TickOrder(es: seq<Entity>, t: Trig, j: nat)
    requires j < |es|
    ensures Tick(es, t)[j] == Advance(Ticked(es, j, t), j, t)[j]
    ensures forall k :: 0 <= k < j ==> Ticked(es, j, t)[k] == Tick(es, t)[k]
    ensures forall k :: j <= k < |es| ==> Ticked(es, j, t)[k] == es[k]
  {
    TickedFrame(es, |es|, t);
    TickedFrame(es, j, t);
    assert Ticked(es, j + 1, t) == Advance(Ticked(es, j, t), j, t);
  }

  /** A tick never writes `f1`, `f2` or `radius`. */
  lemma {:induction false} TickedKeepsFixedFields(es: seq<Entity>, n: nat, t: Trig)
    requires n <= |es|
    ensures forall j :: 0 <= j < |es| ==>
      Ticked(es, n, t)[j].f1 == es[j].f1 &&
      Ticked(es, n, t)[j].f2 == es[j].f2 &&
      Ticked(es, n, t)[j].radius == es[j].radius
  {
    if n > 0 {
      TickedKeepsFixedFields(es, n - 1, t);
    }
  }

  /** Containment and non-overlap hold after every prefix of a tick. */
  lemma {:induction false} TickedPreservesWellSpaced(es: seq<Entity>, n: nat, t: Trig)
    requires n <= |es| && WellSpaced(es)
    ensures WellSpaced(Ticked(es, n, t))
  {
    if n > 0 {
      var prev := Ticked(es, n - 1, t);
      assert Ticked(es, n, t) == Advance(prev, n - 1, t);
      TickedPreservesWellSpaced(es, n - 1, t);
      AdvancePreservesWellSpaced(prev, n - 1, t);
    }
  }

  /** A whole tick keeps a well-spaced world well spaced. */
  lemma TickPreservesWellSpaced(es: seq<Entity>, t: Trig)
    requires WellSpaced(es)
    ensures WellSpaced(Tick(es, t))
  {
    TickedPreservesWellSpaced(es, |es|, t);
  }

  /** Containment and non-overlap are preserved by any number of ticks. */
  lemma {:induction false} TicksPreserveWellSpaced(es: seq<Entity>, n: nat, t: Trig)
    requires WellSpaced(es)
    ensures WellSpaced(Ticks(es, n, t))
  {
    if n > 0 {
      TicksPreserveWellSpaced(es, n - 1, t);
      TickPreservesWellSpaced(Ticks(es, n - 1, t), t);
    }
  }

  /** A resting entity with zero controls is left exactly as it was by a tick. */
  lemma TickAtRest(es: seq<Entity>, t: Trig, j: nat)
    requires j < |es| && AtRest(es[j])
    ensures Tick(es, t)[j] == es[j]
  {
    TickOrder(es, t, j);
    var before := Ticked(es, j, t);
    assert before[j] == es[j];
    AdvanceAtRest(before, j, t);
  }

  /** A resting entity with zero controls stays exactly where it is, across any number of ticks. */
  lemma {:induction false} TicksAtRest(es: seq<Entity>, n: nat, t: Trig, j: nat)
    requires j < |es| && AtRest(es[j])
    ensures Ticks(es, n, t)[j] == es[j]
  {
    if n > 0 {
      TicksAtRest(es, n - 1, t, j);
      TickAtRest(Ticks(es, n - 1, t), t, j);
    }
  }

  /**
   * The start-up world, a single entity created at (10, 10) with controls
   * 2 and 3: its first tick accepts the unchanged heading and moves it to
   * (15, 10) with speed 5 and angular rate 1.
   */
  lemma FirstTickFromStartup(t: Trig)
    requires t.cos(0.0) == 1.0 && t.sin(0.0) == 0.0
    ensures Tick([NewEntity(10.0, 10.0, 2.0, 3.0)], t) ==
      [Entity(15.0, 10.0, 0.0, 5.0, 1.0, 2.0, 3.0, 1.0)]
  {
    var es := [NewEntity(10.0, 10.0, 2.0, 3.0)];
    var e := Integrate(es[0]);
    assert e == Entity(10.0, 10.0, 0.0, 5.0, 1.0, 2.0, 3.0, 1.0);
    var ws := es[0 := e];
    var p := Candidate(e, 0, t);
    assert p == Pose(0.0, 15.0, 10.0);
    assert |ws| == 1 && ws[0].radius == 1.0;
    assert !CloseToOthers(ws, 0, 1.0, 15.0, 10.0, 1);
    assert !CloseToOthers(ws, 0, 1.0, 15.0, 10.0, 0);
    assert Fits(ws, 0, p);
    FirstFitFinds(ws, 0, t, 0, 0);
    assert Advance(es, 0, t) == [Commit(e, p)];
    assert Ticked(es, 0, t) == es;
  }

  // ---------------------------------------------------------------------
  // The imperative tick
  // ---------------------------------------------------------------------

  /** The trial pose the loop of `simulate` computes for index `i` is `Candidate(e, i, t)`. */
  lemma CandidateIs(e: Entity, i: nat, t: Trig, h: real, x: real, y: real)
    requires i <= MaxAdjustTries
    requires h == e.heading + HeadingOffset(i, t.adjustmentStep)
    requires x == e.x + e.v * t.cos(h) * Dt && y == e.y + e.v * t.sin(h) * Dt
    ensures Candidate(e, i, t) == Pose(h, x, y)
  {
    HeadingOffsetIsOffset(i, t.adjustmentStep);
  }

  /**
   * The body of the outer loop of `simulate` for the entity at index `n`:
   * integrate, try the nine candidates in order, commit the first that fits
   * (the `break`), or freeze.
   */
  method StepEntity(w: World, n: nat, t: Trig)
    requires n < |w.entities|
    modifies w
    ensures w.entities == Advance(old(w.entities), n, t)
  {
    ghost var es := w.entities;
    var e := w.entities[n];
    var a1 := e.f1 + e.f2;
    var a2 := e.f2 - e.f1;
    e := e.(v := e.v + a1 * Dt, omega := e.omega + a2 * Dt);
    w.entities := w.entities[n := e];
    ghost var ws := w.entities;
    assert e == Integrate(es[n]) && ws[n] == e;

    var originalHeading := e.heading;
    var originalX := e.x;
    var originalY := e.y;
    var foundValid := false;

    var i: nat := 0;
    while i <= MaxAdjustTries
      invariant i <= Candidates
      invariant w.entities == ws && !foundValid
      invariant FirstFit(ws, n, t, 0) == FirstFit(ws, n, t, i)
    {
      var delta := HeadingOffset(i, t.adjustmentStep);
      var testHeading := originalHeading + delta;
      var testX := originalX + e.v * t.cos(testHeading) * Dt;
      var testY := originalY + e.v * t.sin(testHeading) * Dt;
      CandidateIs(e, i, t, testHeading, testX, testY);
      if !OverlapsAny(w.entities, n, testX, testY, testHeading) {
        w.entities := w.entities[n := e.(heading := testHeading, x := testX, y := testY)];
        foundValid := true;
        assert w.entities == ws[n := Commit(e, Candidate(e, i, t))];
        assert FirstFit(ws, n, t, i) == Some(i);
        assert w.entities == Advance(es, n, t);
        break;
      }
      i := i + 1;
    }

    if !foundValid {
      assert FirstFit(ws, n, t, i) == None;
      w.entities := w.entities[n := w.entities[n].(v := 0.0, omega := 0.0)];
      assert w.entities == ws[n := Freeze(e)];
    }
  }

  /**
   * `simulate`: every entity, in storage order, takes its step against the
   * world as updated so far. Updates the world's entities in place.
   */
  method Simulate(w: World, t: Trig)
    modifies w
    ensures w.entities == Tick(old(w.entities), t)
    ensures WellSpaced(old(w.entities)) ==> WellSpaced(w.entities)
  {
    ghost var start := w.entities;
    var n := 0;
    while n < |w.entities|
      invariant n <= |w.entities| == |start|
      invariant w.entities == Ticked(start, n, t)
    {
      StepEntity(w, n, t);
      n := n + 1;
    }
    if WellSpaced(start) {
      TickedPreservesWellSpaced(start, |start|, t);
    }
  }
}
