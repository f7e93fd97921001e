/**
 * World state of the 2D entity simulator: the configuration constants, the
 * entity record, the boundary rectangle, the overlap predicate used to accept
 * or reject a candidate move, and the world object that owns the entities.
 */
module WorldState {

  /** Side length of the square simulation area, in world units. */
  const SimSize: real := 100.0
  /** Fixed duration of one tick. */
  const Dt: real := 1.0
  /** Number of heading alternatives tried after the unchanged heading. */
  const MaxAdjustTries: nat := 8
  /** Collision radius every new entity receives. */
  const EntityRadius: real := 1.0

  datatype Boundary = Boundary(minX: real, maxX: real, minY: real, maxY: real)

  /** The boundary rectangle, fixed for the whole run. */
  const Bounds: Boundary := Boundary(0.0, SimSize, 0.0, SimSize)

  /**
   * One entity. `heading` is never normalised; `omega` is integrated and
   * reset but never applied to `heading`.
   */
  datatype Entity = Entity(
    x: real, y: real,
    heading: real,
    v: real, omega: real,
    f1: real, f2: real,
    radius: real)

  /** The record `addEntity` creates. */
  function NewEntity(x: real, y: real, f1: real, f2: real): Entity
  {
    Entity(x, y, 0.0, 0.0, 0.0, f1, f2, EntityRadius)
  }

  /** The boundary test of the overlap predicate: strict comparisons, as written in the source. */
  predicate OutsideBoundary(b: Boundary, r: real, x: real, y: real)
  {
    x - r < b.minX || x + r > b.maxX || y - r < b.minY || y + r > b.maxY
  }

  /** The disk of radius `r` at (x, y) lies in the closed rectangle `b`; touching an edge is inside. */
  predicate DiskInside(b: Boundary, r: real, x: real, y: real)
  {
    b.minX <= x - r && x + r <= b.maxX && b.minY <= y - r && y + r <= b.maxY
  }

  /** A centre at (x, y) is closer than `2 * r` to `other`'s centre (compared as squares). */
  predicate TooClose(r: real, x: real, y: real, other: Entity)
  {
    var dx := x - other.x;
    var dy := y - other.y;
    dx * dx + dy * dy < (2.0 * r) * (2.0 * r)
  }

  /**
   * The scan over the entities that starts at index `from`, skipping the
   * entity itself, and stops at the first one that is too close.
   */
  function CloseToOthers(es: seq<Entity>, self: nat, r: real, x: real, y: real, from: nat): (b: bool)
    requires from <= |es|
    decreases |es| - from
  {
    if from == |es| then false
    else if from == self then CloseToOthers(es, self, r, x, y, from + 1)
    else if TooClose(r, x, y, es[from]) then true
    else CloseToOthers(es, self, r, x, y, from + 1)
  }

  /** The scan finds an entity exactly when some other entity at or after `from` is too close. */
  lemma {:induction false} CloseToOthersMeaning(es: seq<Entity>, self: nat, r: real, x: real, y: real, from: nat)
    requires from <= |es|
    decreases |es| - from
    ensures CloseToOthers(es, self, r, x, y, from) <==>
      exists j :: from <= j < |es| && j != self && TooClose(r, x, y, es[j])
  {
    if from < |es| {
      CloseToOthersMeaning(es, self, r, x, y, from + 1);
    }
  }

  /**
   * `overlapsAny(e, testX, testY, testHeading)` for the entity at index
   * `self`: the boundary test first, then the scan over the other entities.
   */
  function OverlapsAny(es: seq<Entity>, self: nat, testX: real, testY: real, testHeading: real): (b: bool)
    requires self < |es|
    ensures !DiskInside(Bounds, es[self].radius, testX, testY) ==> b
  {
    if OutsideBoundary(Bounds, es[self].radius, testX, testY) then true
    else CloseToOthers(es, self, es[self].radius, testX, testY, 0)
  }

  /**
   * A candidate is rejected exactly when the disk is not inside the boundary
   * or some entity other than the one itself is too close; the heading plays
   * no role.
   */
  lemma OverlapsAnyMeaning(es: seq<Entity>, self: nat, testX: real, testY: real, testHeading: real)
    requires self < |es|
    ensures OverlapsAny(es, self, testX, testY, testHeading) <==>
      !DiskInside(Bounds, es[self].radius, testX, testY) ||
      exists j :: 0 <= j < |es| && j != self && TooClose(es[self].radius, testX, testY, es[j])
  {
    CloseToOthersMeaning(es, self, es[self].radius, testX, testY, 0);
  }

  /** The overlap test gives the same answer whatever heading it is passed. */
  lemma OverlapsIgnoresHeading(es: seq<Entity>, self: nat, x: real, y: real, h1: real, h2: real)
    requires self < |es|
    ensures OverlapsAny(es, self, x, y, h1) == OverlapsAny(es, self, x, y, h2)
  {
  }

  /**
   * The overlap test reads only the radius of the entity itself and the
   * other entities: changing any other field of the entity itself does not
   * change the answer.
   */
  lemma OverlapsReadsOnlyOthers(es: seq<Entity>, es': seq<Entity>, self: nat, x: real, y: real, h: real)
    requires self < |es| == |es'|
    requires es'[self].radius == es[self].radius
    requires forall j :: 0 <= j < |es| && j != self ==> es'[j] == es[j]
    ensures OverlapsAny(es', self, x, y, h) == OverlapsAny(es, self, x, y, h)
  {
    var r := es[self].radius;
    OverlapsAnyMeaning(es, self, x, y, h);
    OverlapsAnyMeaning(es', self, x, y, h);
    if exists j :: 0 <= j < |es| && j != self && TooClose(r, x, y, es[j]) {
      var j :| 0 <= j < |es| && j != self && TooClose(r, x, y, es[j]);
      assert es'[j] == es[j];
    }
  }

  /** Every entity has the radius `addEntity` gives. */
  predicate UniformRadius(es: seq<Entity>)
  {
    forall i :: 0 <= i < |es| ==> es[i].radius == EntityRadius
  }

  /** The disk of entity `i` lies inside the boundary. */
  predicate InsideAt(es: seq<Entity>, i: int)
    requires 0 <= i < |es|
  {
    DiskInside(Bounds, es[i].radius, es[i].x, es[i].y)
  }

  /** Every entity's disk lies inside the boundary. */
  predicate AllInside(es: seq<Entity>)
  {
    forall i {:trigger InsideAt(es, i)} :: 0 <= i < |es| ==> InsideAt(es, i)
  }

  /** Entity `j` is not too close to entity `i`, measured with `i`'s radius. */
  predicate Apart(es: seq<Entity>, i: int, j: int)
    requires 0 <= i < |es| && 0 <= j < |es|
  {
    !TooClose(es[i].radius, es[i].x, es[i].y, es[j])
  }

  /** No two distinct entities are too close to each other. */
  predicate Separated(es: seq<Entity>)
  {
    forall i, j {:trigger Apart(es, i, j)} :: 0 <= i < |es| && 0 <= j < |es| && i != j ==> Apart(es, i, j)
  }

  /** The world state a tick preserves: uniform radius, containment and non-overlap. */
  predicate WellSpaced(es: seq<Entity>)
  {
    UniformRadius(es) && AllInside(es) && Separated(es)
  }

  /** Squared distance does not depend on which centre it is measured from. */
  lemma TooCloseSymmetric(r: real, a: Entity, b: Entity)
    ensures TooClose(r, a.x, a.y, b) == TooClose(r, b.x, b.y, a)
  {
    assert (a.x - b.x) * (a.x - b.x) == (b.x - a.x) * (b.x - a.x);
    assert (a.y - b.y) * (a.y - b.y) == (b.y - a.y) * (b.y - a.y);
  }

  /**
   * `addEntity` does not validate its input: appending an entity to a
   * well-spaced world keeps it well spaced exactly when the new entity's own
   * position would pass the overlap test.
   */
  lemma AddKeepsWellSpacedIff(es: seq<Entity>, x: real, y: real, f1: real, f2: real)
    requires WellSpaced(es)
    ensures var es' := es + [NewEntity(x, y, f1, f2)];
      WellSpaced(es') <==> !OverlapsAny(es', |es|, x, y, 0.0)
  {
    var n := NewEntity(x, y, f1, f2);
    var es' := es + [n];
    assert es'[|es|] == n;
    OverlapsAnyMeaning(es', |es|, x, y, 0.0);
    if !OverlapsAny(es', |es|, x, y, 0.0) {
      forall i | 0 <= i < |es'|
        ensures InsideAt(es', i)
      {
        if i < |es| {
          assert es'[i] == es[i] && InsideAt(es, i);
        }
      }
      forall i, j | 0 <= i < |es'| && 0 <= j < |es'| && i != j
        ensures Apart(es', i, j)
      {
        if i == |es| {
          assert !TooClose(n.radius, x, y, es'[j]);
        } else if j == |es| {
          assert !TooClose(n.radius, x, y, es'[i]);
          TooCloseSymmetric(EntityRadius, es'[i], n);
        } else {
          assert es'[i] == es[i] && es'[j] == es[j] && Apart(es, i, j);
        }
      }
    }
    if WellSpaced(es') {
      assert InsideAt(es', |es|);
      forall j | 0 <= j < |es'| && j != |es|
        ensures !TooClose(n.radius, x, y, es'[j])
      {
        assert Apart(es', |es|, j);
      }
    }
  }

  /**
   * Replacing an entity by one with the same position and radius keeps a
   * well-spaced world well spaced.
   */
  lemma SamePlaceKeepsWellSpaced(es: seq<Entity>, i: nat, e: Entity)
    requires i < |es| && WellSpaced(es)
    requires e.x == es[i].x && e.y == es[i].y && e.radius == es[i].radius
    ensures WellSpaced(es[i := e])
  {
    var r := es[i := e];
    forall a | 0 <= a < |r|
      ensures InsideAt(r, a)
    {
      assert InsideAt(es, a);
    }
    forall a, b | 0 <= a < |r| && 0 <= b < |r| && a != b
      ensures Apart(r, a, b)
    {
      assert Apart(es, a, b);
    }
  }

  /**
   * Moving entity `i` to a centre the overlap test accepts keeps a
   * well-spaced world well spaced.
   */
  lemma AcceptedMoveKeepsWellSpaced(es: seq<Entity>, i: nat, e: Entity)
    requires i < |es| && WellSpaced(es)
    requires e.radius == es[i].radius && !OverlapsAny(es, i, e.x, e.y, e.heading)
    ensures WellSpaced(es[i := e])
  {
    var r := es[i := e];
    OverlapsAnyMeaning(es, i, e.x, e.y, e.heading);
    forall a | 0 <= a < |r|
      ensures InsideAt(r, a)
    {
      if a != i {
        assert InsideAt(es, a);
      }
    }
    forall a, b | 0 <= a < |r| && 0 <= b < |r| && a != b
      ensures Apart(r, a, b)
    {
      if a == i {
        assert !TooClose(es[i].radius, e.x, e.y, es[b]);
      } else if b == i {
        assert !TooClose(es[i].radius, e.x, e.y, es[a]);
        TooCloseSymmetric(EntityRadius, es[a], e);
      } else {
        assert Apart(es, a, b);
      }
    }
  }

  /** The world: the global `entities` array, in insertion order. */
  class World {
    var entities: seq<Entity>

    constructor ()
      ensures entities == []
    {
      entities := [];
    }

    /** `addEntity`: appends a fresh record; nothing is validated. */
    method AddEntity(x: real, y: real, f1: real, f2: real)
      modifies this
      ensures |entities| == |old(entities)| + 1
      ensures entities[..|old(entities)|] == old(entities)
      ensures entities[|old(entities)|] == Entity(x, y, 0.0, 0.0, 0.0, f1, f2, 1.0)
      ensures UniformRadius(old(entities)) ==> UniformRadius(entities)
    {
      entities := entities + [NewEntity(x, y, f1, f2)];
    }
  }
}
