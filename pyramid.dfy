/** The rotation controller of the pyramid navigation widget: a ring of
    section labels that the user drags or scrolls, that coasts on momentum
    and then eases into the nearest section. */
module Pyramid {
  import opened Numeric
  import opened Snap

  /** Radians of rotation per pixel dragged. */
  const DragSpeed: real := 0.01
  /** Radians of rotation per unit of wheel delta. */
  const WheelSpeed: real := 0.001
  /** Factor applied to the velocity on every coasting frame. */
  const Damping: real := 0.95
  /** Below this speed the ring stops coasting and eases to its target. */
  const Epsilon: real := 0.0001
  /** The easing factor per second of frame time. */
  const SnapRate: real := 5.0

  class Controller {
    /** `sectionTitles.length`. */
    const sections: nat
    /** `Math.PI`. */
    const pi: real
    /** Whether `groupRef.current` refers to the mounted ring. */
    var hasGroup: bool
    /** `groupRef.current.rotation.y`. */
    var rotation: real
    var velocity: real
    var targetRotation: real
    var isDragging: bool
    /** Pointer position of the last drag sample; written, never read. */
    var lastX: real
    /** Every index passed to `setCurrentIndex`, oldest first. */
    var reports: seq<nat>
    /** The section whose rest angle the target is congruent to. */
    ghost var targetIndex: nat

    ghost predicate Valid()
      reads this
    {
      && sections >= 1 && pi > 0.0
      && targetIndex < sections
      && Congruent(targetRotation, SectionRest(targetIndex, sections, pi), Turn(pi))
      && (forall j | 0 <= j < |reports| :: reports[j] < sections)
      && (!hasGroup ==> rotation == 0.0)
    }

    /** The refs as first rendered: nothing mounted, everything at rest. */
    constructor (sections: nat, pi: real)
      requires sections >= 1 && pi > 0.0
      ensures Valid()
      ensures this.sections == sections && this.pi == pi
      ensures !hasGroup && !isDragging && reports == []
      ensures rotation == 0.0 && velocity == 0.0 && targetRotation == 0.0 && lastX == 0.0
    {
      this.sections := sections;
      this.pi := pi;
      hasGroup := false;
      rotation := 0.0;
      velocity := 0.0;
      targetRotation := 0.0;
      isDragging := false;
      lastX := 0.0;
      reports := [];
      targetIndex := 0;
      new;
      MultipleSmall(SectionAngle(sections, pi));
      CongruentReflexive(0.0, Turn(pi));
    }

    /** React attaches the ring's Group to `groupRef`; a new Group is
        unrotated. */
    method AttachGroup()
      requires Valid()
      modifies this`hasGroup
      ensures Valid() && hasGroup
    {
      hasGroup := true;
    }

    /** The effect run when the host's current index changes: aim at the
        section's rest angle along the shorter arc, or at the rest angle
        itself while nothing is mounted. */
    method OnIndexChange(index: int)
      requires Valid()
      modifies this`targetRotation, this`targetIndex
      ensures Valid()
      ensures targetRotation == if hasGroup then Retarget(index, rotation, sections, pi)
                                else SectionRest(index, sections, pi)
      ensures Congruent(targetRotation, SectionRest(index, sections, pi), Turn(pi))
      ensures hasGroup ==> Abs(targetRotation - rotation) <= pi
    {
      if hasGroup {
        targetRotation := Retarget(index, rotation, sections, pi);
      } else {
        targetRotation := SectionRest(index, sections, pi);
        CongruentReflexive(targetRotation, Turn(pi));
      }
      targetIndex := index % sections;
      SectionRestWraps(index, sections, pi);
      CongruentTransitive(targetRotation, SectionRest(index, sections, pi),
                          SectionRest(targetIndex, sections, pi), Turn(pi));
    }

    method DragStart(x: real)
      requires Valid()
      modifies this`isDragging, this`lastX, this`velocity
      ensures Valid()
      ensures isDragging && velocity == 0.0 && lastX == x
    {
      isDragging := true;
      lastX := x;
      velocity := 0.0;
    }

    /** While dragging a mounted ring, turn it by the horizontal delta and
        remember that increment as the velocity; otherwise do nothing. */
    method Drag(x: real, dx: real)
      requires Valid()
      modifies this`rotation, this`velocity, this`lastX
      ensures Valid()
      ensures hasGroup && isDragging ==>
        rotation == old(rotation) + dx * DragSpeed && velocity == dx * DragSpeed && lastX == x
      ensures !(hasGroup && isDragging) ==>
        rotation == old(rotation) && velocity == old(velocity) && lastX == old(lastX)
    {
      if hasGroup && isDragging {
        var rotationSpeed := dx * DragSpeed;
        rotation := rotation + rotationSpeed;
        velocity := rotationSpeed;
        lastX := x;
      }
    }

    /** Release: stop dragging and, on a mounted ring, report the nearest
        section and aim at it. The last drag increment stays as momentum. */
    method DragEnd()
      requires Valid()
      modifies this`isDragging, this`reports, this`targetRotation, this`targetIndex
      ensures Valid() && !isDragging
      ensures hasGroup ==>
        && reports == old(reports) + [NearestIndex(rotation, sections, pi)]
        && targetRotation == Retarget(NearestIndex(rotation, sections, pi), rotation, sections, pi)
      ensures !hasGroup ==> reports == old(reports) && targetRotation == old(targetRotation)
    {
      isDragging := false;
      if hasGroup {
        SnapToNearest();
      }
    }

    /** A wheel step, ignored while dragging or unmounted: turn by the
        vertical delta, keep it as the velocity, then report the nearest
        section and aim at it. */
    method Wheel(dy: real)
      requires Valid()
      modifies this`rotation, this`velocity, this`reports, this`targetRotation, this`targetIndex
      ensures Valid()
      ensures hasGroup && !isDragging ==>
        && rotation == old(rotation) + dy * WheelSpeed
        && velocity == dy * WheelSpeed
        && reports == old(reports) + [NearestIndex(rotation, sections, pi)]
        && targetRotation == Retarget(NearestIndex(rotation, sections, pi), rotation, sections, pi)
      ensures !(hasGroup && !isDragging) ==>
        && rotation == old(rotation) && velocity == old(velocity)
        && reports == old(reports) && targetRotation == old(targetRotation)
    {
      if hasGroup && !isDragging {
        var rotationSpeed := dy * WheelSpeed;
        rotation := rotation + rotationSpeed;
        velocity := rotationSpeed;
        SnapToNearest();
      }
    }

    /** Shared tail of release and wheel: report the section nearest to the
        current rotation and aim at its rest angle along the shorter arc. */
    method SnapToNearest()
      requires Valid() && hasGroup
      modifies this`reports, this`targetRotation, this`targetIndex
      ensures Valid()
      ensures reports == old(reports) + [NearestIndex(rotation, sections, pi)]
      ensures targetRotation == Retarget(NearestIndex(rotation, sections, pi), rotation, sections, pi)
      ensures Abs(targetRotation - rotation) <= pi
      ensures Congruent(targetRotation, SectionRest(reports[|reports| - 1], sections, pi), Turn(pi))
    {
      var closestIndex := NearestIndex(rotation, sections, pi);
      reports := reports + [closestIndex];
      targetRotation := Retarget(closestIndex, rotation, sections, pi);
      targetIndex := closestIndex;
    }

    /** One animation frame of `delta` seconds. Nothing moves while dragging
        or unmounted; a fast ring coasts with damped velocity; a slow one
        eases toward the target by the factor `delta * 5`. */
    method Advance(delta: real)
      requires Valid()
      modifies this`rotation, this`velocity
      ensures Valid()
      ensures !(hasGroup && !isDragging) ==>
        rotation == old(rotation) && velocity == old(velocity)
      ensures hasGroup && !isDragging && Abs(old(velocity)) > Epsilon ==>
        && velocity == old(velocity) * Damping
        && rotation == old(rotation) + velocity
        && Abs(velocity) < Abs(old(velocity))
      ensures hasGroup && !isDragging && Abs(old(velocity)) <= Epsilon ==>
        && velocity == old(velocity)
        && rotation == Lerp(old(rotation), targetRotation, delta * SnapRate)
      ensures hasGroup && !isDragging && Abs(old(velocity)) <= Epsilon && 0.0 <= delta * SnapRate <= 1.0 ==>
        && (old(rotation) <= targetRotation ==> old(rotation) <= rotation <= targetRotation)
        && (targetRotation <= old(rotation) ==> targetRotation <= rotation <= old(rotation))
      ensures hasGroup && !isDragging && Abs(old(velocity)) <= Epsilon && 0.0 <= delta * SnapRate <= 2.0 ==>
        Abs(rotation - targetRotation) <= Abs(old(rotation) - targetRotation)
    {
      if hasGroup && !isDragging {
        if Abs(velocity) > Epsilon {
          velocity := velocity * Damping;
          rotation := rotation + velocity;
        } else {
          var t := delta * SnapRate;
          LerpDistance(rotation, targetRotation, t);
          if 0.0 <= t <= 1.0 {
            LerpBetween(rotation, targetRotation, t);
          }
          rotation := Lerp(rotation, targetRotation, t);
        }
      }
    }
  }

  // Momentum

  /** The velocity after k coasting frames that start at velocity v. */
  function Coast(v: real, k: nat): (r: real)
    ensures 0.0 <= v ==> 0.0 <= r
    ensures v <= 0.0 ==> r <= 0.0
  {
    if k == 0 then v else Coast(v, k - 1) * Damping
  }

  /** Coasting decays at least harmonically: after k frames the speed is at
      most |v| / (1 + k / 20). */
  lemma {:induction false} CoastBound(v: real, k: nat)
    ensures Abs(Coast(v, k)) * (1.0 + k as real / 20.0) <= Abs(v)
    ensures Abs(Coast(v, k)) <= Abs(v)
  {
    if k == 0 {
      assert Abs(Coast(v, k)) * 1.0 == Abs(v);
    } else {
      CoastBound(v, k - 1);
      var a, s := Abs(Coast(v, k - 1)), 1.0 + (k - 1) as real / 20.0;
      assert Abs(Coast(v, k)) == Damping * a;
      assert 1.0 + k as real / 20.0 == s + 0.05;
      DampedStep(a, s, Abs(v));
    }
  }

  lemma DampedStep(a: real, s: real, b: real)
    requires a >= 0.0 && s >= 1.0 && a * s <= b
    ensures (Damping * a) * (s + 0.05) <= b
    ensures Damping * a <= b
  {
    ScaleLe(1.0, s, a);
    assert 1.0 * a == a;
    assert (Damping * a) * (s + 0.05) == Damping * (a * s) + 0.0475 * a;
  }

  /** Coasting always ends: from any velocity, finitely many damped frames
      bring the speed down to Epsilon, after which the frame step eases
      toward the target. */
  lemma CoastingEnds(v: real)
    ensures exists k: nat :: Abs(Coast(v, k)) <= Epsilon
  {
    var m := (Abs(v) * 10000.0).Floor + 1;
    var k: nat := 20 * m;
    CoastBound(v, k);
    var a, s := Abs(Coast(v, k)), 1.0 + k as real / 20.0;
    assert s == 1.0 + m as real;
    assert s > Abs(v) * 10000.0;
    SmallAfterScaling(a, s, Abs(v));
    assert Abs(Coast(v, k)) <= Epsilon;
  }

  lemma SmallAfterScaling(a: real, s: real, b: real)
    requires a >= 0.0 && s > 0.0 && a * s <= b && b * 10000.0 < s
    ensures a <= Epsilon
  {
  }

  // Worked cases

  /** Six sections, a drag 50 pixels to the left from rest: the ring turns
      to -0.5, is reported at section 0 and aims back at 0. */
  lemma DragLeftScenario(pi: real)
    requires 3.14 < pi < 3.15
    ensures -50.0 * DragSpeed == -0.5
    ensures NearestIndex(-0.5, 6, pi) == 0
    ensures Retarget(0, -0.5, 6, pi) == 0.0
  {
    var T, sa := Turn(pi), SectionAngle(6, pi);
    MultipleSmall(T);
    CongruentBy(-0.5, T - 0.5, T, -1);
    NormalizeAngleUnique(-0.5, T - 0.5, pi);
    var x := (T - 0.5) / sa;
    DivTimes(T - 0.5, sa);
    assert sa == pi / 3.0;
    NearSix(x, pi);
    assert Round(x) == 6;
    assert JsRem(0.5, T) == 0.5 by {
      assert 0.0 <= 0.5 / T < 1.0;
    }
    MultipleSmall(sa);
  }

  lemma NearSix(x: real, pi: real)
    requires 3.14 < pi < 3.15 && x * (pi / 3.0) == 2.0 * pi - 0.5
    ensures 5.5 < x < 6.5
  {
  }

  /** Four sections, one wheel step of 500 from rest: the ring turns to 0.5,
      is reported at section 0 at once and aims back at 0. */
  lemma WheelScenario(pi: real)
    requires 3.14 < pi < 3.15
    ensures 500.0 * WheelSpeed == 0.5
    ensures NearestIndex(0.5, 4, pi) == 0
    ensures Retarget(0, 0.5, 4, pi) == 0.0
  {
    var T, sa := Turn(pi), SectionAngle(4, pi);
    MultipleSmall(T);
    MultipleSmall(sa);
    CongruentReflexive(0.5, T);
    NormalizeAngleUnique(0.5, 0.5, pi);
    var x := 0.5 / sa;
    DivTimes(0.5, sa);
    assert sa == pi / 2.0;
    NearZero(x, pi);
    assert Round(x) == 0;
    assert JsRem(-0.5, T) == -0.5 by {
      assert -1.0 < -0.5 / T <= 0.0;
    }
  }

  lemma NearZero(x: real, pi: real)
    requires 3.14 < pi < 3.15 && x * (pi / 2.0) == 0.5
    ensures 0.0 <= x < 0.5
  {
  }

  /** The drag case driven through the controller, as a host would: mount,
      drag start, a 50-pixel drag to the left and release on six sections. */
  method DragLeftThroughController(pi: real)
    returns (reports: seq<nat>, target: real, rotation: real, velocity: real)
    requires 3.14 < pi < 3.15
    ensures reports == [0] && target == 0.0
    ensures rotation == -0.5 && velocity == -0.5
  {
    var c := new Controller(6, pi);
    c.AttachGroup();
    c.DragStart(0.0);
    c.Drag(0.0, -50.0);
    assert c.rotation == -0.5 && c.velocity == -0.5;
    c.DragEnd();
    DragLeftScenario(pi);
    reports, target, rotation, velocity := c.reports, c.targetRotation, c.rotation, c.velocity;
  }
}
