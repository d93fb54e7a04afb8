/** The two pure rules of the pyramid's rotation controller: which section the
    ring is nearest to, and the shortest-path target for a section. Angles are
    exact reals; `pi` stands for `Math.PI` and is only assumed positive. */
module Snap {
  import opened Numeric

  /** `Math.PI * 2`: one full turn. */
  function Turn(pi: real): (t: real)
  {
    2.0 * pi
  }

  /** `sectionAngle`: the angular spacing of n sections around the ring. */
  function SectionAngle(n: nat, pi: real): (sa: real)
    requires n >= 1 && pi > 0.0
    ensures sa > 0.0 && Multiple(n, sa) == Turn(pi)
  {
    var sa := Turn(pi) / n as real;
    assert (n as real) * sa == Turn(pi);
    sa
  }

  /** `-index * sectionAngle`: the ring rotation at which section `index`
      faces the viewer. */
  function SectionRest(index: int, n: nat, pi: real): (r: real)
    requires n >= 1 && pi > 0.0
  {
    Multiple(-index, SectionAngle(n, pi))
  }

  /** The rotation reduced with JavaScript's `%` and lifted by a turn when
      negative. */
  function NormalizeAngle(rot: real, pi: real): (a: real)
    requires pi > 0.0
    ensures 0.0 <= a < Turn(pi)
    ensures Congruent(rot, a, Turn(pi))
  {
    var c := JsRem(rot, Turn(pi));
    if c < 0.0 then
      MultipleSmall(Turn(pi));
      CongruentSymmetric(rot, c, Turn(pi));
      CongruentShift(c, rot, Turn(pi), 1);
      CongruentSymmetric(c + Turn(pi), rot, Turn(pi));
      c + Turn(pi)
    else
      c
  }

  /** The section nearest to the rotation: round to a whole number of
      sections, reduce modulo n, then reverse the order, since the ring turns
      the opposite way to the index. */
  function NearestIndex(rot: real, n: nat, pi: real): (i: nat)
    requires n >= 1 && pi > 0.0
    ensures i < n
  {
    var closest := JsIntRem(Round(NormalizeAngle(rot, pi) / SectionAngle(n, pi)), n);
    JsIntRem(n - closest, n)
  }

  /** The difference `desired - current` reduced with JavaScript's `%` and
      folded once toward zero. */
  function ShortestDiff(desired: real, current: real, pi: real): (d: real)
    requires pi > 0.0
    ensures -pi <= d <= pi
    ensures Congruent(current + d, desired, Turn(pi))
  {
    var t := Turn(pi);
    var d0 := JsRem(desired - current, t);
    var d1 := if d0 > pi then d0 - t else d0;
    var d := if d1 < -pi then d1 + t else d1;
    FoldCongruent(desired - current, d0, d, current, desired, pi);
    d
  }

  lemma FoldCongruent(a: real, d0: real, d: real, current: real, desired: real, pi: real)
    requires pi > 0.0 && a == desired - current
    requires Congruent(a, d0, Turn(pi))
    requires d == d0 || d == d0 - Turn(pi) || d == d0 + Turn(pi)
    ensures Congruent(current + d, desired, Turn(pi))
  {
    var t := Turn(pi);
    CongruentSymmetric(a, d0, t);
    MultipleSmall(t);
    MultipleAdd(0, 1, t);
    var j := if d == d0 then 0 else if d == d0 - t then -1 else 1;
    assert d == d0 + Multiple(j, t);
    CongruentShift(d0, a, t, j);
    CongruentSameDifference(d, a, current + d, desired, t);
  }

  /** The new target rotation for section `index`: the current rotation plus
      the shortest difference. */
  function Retarget(index: int, current: real, n: nat, pi: real): (t: real)
    requires n >= 1 && pi > 0.0
    ensures Abs(t - current) <= pi
    ensures Congruent(t, SectionRest(index, n, pi), Turn(pi))
  {
    current + ShortestDiff(SectionRest(index, n, pi), current, pi)
  }

  // Properties of the shortest-path rule

  /** No other representative of the section's rest angle is closer to the
      current rotation than the chosen target. */
  lemma RetargetIsShortest(index: int, current: real, n: nat, pi: real, k: int)
    requires n >= 1 && pi > 0.0
    ensures Abs(Retarget(index, current, n, pi) - current)
         <= Abs(SectionRest(index, n, pi) + Multiple(k, Turn(pi)) - current)
  {
    var t, T, rest := Retarget(index, current, n, pi), Turn(pi), SectionRest(index, n, pi);
    var j :| t - rest == Multiple(j, T);
    MultipleAdd(k, j, T);
    var z := k - j;
    assert rest + Multiple(k, T) - current == (t - current) + Multiple(z, T);
    if z != 0 {
      MultipleAtLeastPeriod(z, T);
    }
  }

  /** A rotation already at a rest angle of the section is its own target. */
  lemma RetargetAtRest(index: int, current: real, n: nat, pi: real)
    requires n >= 1 && pi > 0.0
    requires Congruent(current, SectionRest(index, n, pi), Turn(pi))
    ensures Retarget(index, current, n, pi) == current
  {
    var t, T, rest := Retarget(index, current, n, pi), Turn(pi), SectionRest(index, n, pi);
    CongruentSymmetric(current, rest, T);
    CongruentTransitive(t, rest, current, T);
    CongruentSameDifference(t, current, t - current, 0.0, T);
    OnlyZeroNearZero(t - current, T);
  }

  /** Recomputing the target from the target itself changes nothing: once the
      ring sits on its target, aiming at the same section again keeps it
      there. */
  lemma RetargetIdempotent(index: int, current: real, n: nat, pi: real)
    requires n >= 1 && pi > 0.0
    ensures Retarget(index, Retarget(index, current, n, pi), n, pi)
         == Retarget(index, current, n, pi)
  {
    RetargetAtRest(index, Retarget(index, current, n, pi), n, pi);
  }

  /** Both ends of the fold interval occur: a desired angle half a turn
      behind the current one is reached backwards, by exactly -pi. */
  lemma ShortestDiffKeepsMinusPi(current: real, pi: real)
    requires pi > 0.0
    ensures ShortestDiff(current - pi, current, pi) == -pi
  {
    var t := Turn(pi);
    MultipleSmall(t);
    assert JsRem(-pi, t) == -pi by {
      assert -pi / t == -0.5;
      assert Trunc(-0.5) == 0;
    }
  }

  /** Every integer index rests where its residue modulo n rests. */
  lemma SectionRestWraps(index: int, n: nat, pi: real)
    requires n >= 1 && pi > 0.0
    ensures Congruent(SectionRest(index, n, pi), SectionRest(index % n, n, pi), Turn(pi))
  {
    var sa, q, r := SectionAngle(n, pi), index / n, index % n;
    assert -index == -r + (-q) * n;
    MultipleAdd(-r, (-q) * n, sa);
    MultipleNested(-q, n, sa);
    CongruentBy(SectionRest(index, n, pi), SectionRest(r, n, pi), Turn(pi), -q);
  }

  // Properties of the nearest-section rule

  /** The normalised angle is the one representative of the rotation in
      [0, 2 pi). */
  lemma NormalizeAngleUnique(rot: real, a: real, pi: real)
    requires pi > 0.0 && 0.0 <= a < Turn(pi) && Congruent(rot, a, Turn(pi))
    ensures NormalizeAngle(rot, pi) == a
  {
    var b := NormalizeAngle(rot, pi);
    CongruentSymmetric(rot, b, Turn(pi));
    CongruentTransitive(b, rot, a, Turn(pi));
    UniqueInPeriod(b, a, Turn(pi));
  }

  /** The reported section depends only on the ring's orientation, not on how
      many whole turns it has made. */
  lemma NearestIndexPeriodic(rot: real, k: int, n: nat, pi: real)
    requires n >= 1 && pi > 0.0
    ensures NearestIndex(rot + Multiple(k, Turn(pi)), n, pi) == NearestIndex(rot, n, pi)
  {
    var T := Turn(pi);
    var a := NormalizeAngle(rot, pi);
    CongruentSymmetric(rot, a, T);
    CongruentShift(rot, a, T, k);
    NormalizeAngleUnique(rot + Multiple(k, T), a, pi);
  }

  /** Left inverse of the target assignment: the rest angle of section i is
      reported as section i. */
  lemma NearestIndexOfRest(i: int, n: nat, pi: real)
    requires n >= 1 && pi > 0.0 && 0 <= i < n
    ensures NearestIndex(SectionRest(i, n, pi), n, pi) == i
  {
    var sa, rot := SectionAngle(n, pi), SectionRest(i, n, pi);
    var m := if i == 0 then 0 else n - i;
    RestRepresentative(i, m, n, pi);
    NormalizeAngleUnique(rot, Multiple(m, sa), pi);
    NearestIndexAtSection(rot, m, n, pi);
    ReverseTwice(i, m, n);
  }

  lemma ReverseTwice(i: int, m: int, n: int)
    requires 0 <= i < n && m == if i == 0 then 0 else n - i
    ensures (n - m) % n == i
  {
  }

  /** A rotation whose normalised angle is exactly m sections reports the
      reversed index (n - m) % n. */
  lemma NearestIndexAtSection(rot: real, m: int, n: nat, pi: real)
    requires n >= 1 && pi > 0.0 && 0 <= m < n
    requires NormalizeAngle(rot, pi) == Multiple(m, SectionAngle(n, pi))
    ensures NearestIndex(rot, n, pi) == (n - m) % n
  {
    var sa := SectionAngle(n, pi);
    MultipleDiv(m, sa);
    var x := NormalizeAngle(rot, pi) / sa;
    assert x == m as real;
    RoundWhole(m);
    assert JsIntRem(Round(x), n) == m;
  }

  lemma RoundWhole(k: int)
    ensures Round(k as real) == k
  {
  }

  /** The rest angle of section i lies a whole number of turns from m
      sections forward, which lies in [0, 2 pi). */
  lemma RestRepresentative(i: int, m: int, n: nat, pi: real)
    requires n >= 1 && pi > 0.0 && 0 <= i < n
    requires m == if i == 0 then 0 else n - i
    ensures 0.0 <= Multiple(m, SectionAngle(n, pi)) < Turn(pi)
    ensures Congruent(SectionRest(i, n, pi), Multiple(m, SectionAngle(n, pi)), Turn(pi))
  {
    var sa, T := SectionAngle(n, pi), Turn(pi);
    MultipleSmall(sa);
    MultipleSmall(T);
    if m > 0 {
      ScaleLt(0.0, m as real, sa);
      ScaleLt(m as real, n as real, sa);
    }
    if i == 0 {
      CongruentReflexive(0.0, T);
    } else {
      MultipleAdd(m, n, sa);
      CongruentBy(SectionRest(i, n, pi), Multiple(m, sa), T, -1);
    }
  }

  /** The section's rest angle lies, up to whole turns, within half a section
      of the rotation it was computed from. */
  lemma NearestIndexIsNear(rot: real, n: nat, pi: real)
    requires n >= 1 && pi > 0.0
    ensures exists k: int ::
      Abs(rot - SectionRest(NearestIndex(rot, n, pi), n, pi) - Multiple(k, Turn(pi)))
        <= SectionAngle(n, pi) / 2.0
  {
    var sa, T := SectionAngle(n, pi), Turn(pi);
    var a := NormalizeAngle(rot, pi);
    var x := a / sa;
    var r := Round(x);
    var i := NearestIndex(rot, n, pi);
    DivTimes(a, sa);
    RoundedSection(a, sa, x, r);
    var d := a - Multiple(r, sa);
    ReversedIndexRest(r, n, pi);
    assert i == JsIntRem(n - JsIntRem(r, n), n);
    // rot - d is congruent to a - d, which is r sections, which is i's rest angle
    CongruentSameDifference(rot, a, rot - d, Multiple(r, sa), T);
    CongruentTransitive(rot - d, Multiple(r, sa), SectionRest(i, n, pi), T);
    var k :| (rot - d) - SectionRest(i, n, pi) == Multiple(k, T);
    assert rot - SectionRest(i, n, pi) - Multiple(k, T) == d;
  }

  /** Rounding a / sa to r leaves a within half a section of r sections. */
  lemma RoundedSection(a: real, sa: real, x: real, r: int)
    requires sa > 0.0 && a >= 0.0 && x * sa == a
    requires x - 0.5 < r as real <= x + 0.5
    ensures r >= 0
    ensures Abs(a - Multiple(r, sa)) <= sa / 2.0
  {
    if x < 0.0 {
      ScaleLt(x, 0.0, sa);
      assert false;
    }
    Distrib(x, 0.5, sa);
    ScaleLe(x - 0.5, r as real, sa);
    ScaleLe(r as real, x + 0.5, sa);
    assert Multiple(r, sa) == r as real * sa;
    assert 0.5 * sa == sa / 2.0;
  }

  /** r sections forward is, up to whole turns, the rest angle of the
      reversed index (n - r % n) % n. */
  lemma ReversedIndexRest(r: int, n: nat, pi: real)
    requires n >= 1 && pi > 0.0 && r >= 0
    ensures Congruent(Multiple(r, SectionAngle(n, pi)),
                      SectionRest(JsIntRem(n - JsIntRem(r, n), n), n, pi), Turn(pi))
  {
    var c := JsIntRem(r, n);
    assert r == (r / n) * n + c;
    var i := JsIntRem(n - c, n);
    assert i == if c == 0 then 0 else n - c;
    ResidueRest(r, r / n, c, i, n, pi);
  }

  lemma ResidueRest(r: int, q: int, c: int, i: int, n: nat, pi: real)
    requires n >= 1 && pi > 0.0 && r == q * n + c && 0 <= c < n
    requires i == if c == 0 then 0 else n - c
    ensures Congruent(Multiple(r, SectionAngle(n, pi)), SectionRest(i, n, pi), Turn(pi))
  {
    var sa, T := SectionAngle(n, pi), Turn(pi);
    MultipleAdd(q * n, c, sa);
    MultipleNested(q, n, sa);
    MultipleSmall(sa);
    if c == 0 {
      CongruentBy(Multiple(r, sa), SectionRest(i, n, pi), T, q);
    } else {
      MultipleAdd(c, n, sa);
      assert SectionRest(i, n, pi) == Multiple(c - n, sa);
      MultipleAdd(q, 1, T);
      MultipleSmall(T);
      CongruentBy(Multiple(r, sa), SectionRest(i, n, pi), T, q + 1);
    }
  }

  /** No section, at any winding, is strictly closer to the rotation than
      the reported one. */
  lemma NearestIndexIsClosest(rot: real, n: nat, pi: real, j: int, k: int)
    requires n >= 1 && pi > 0.0
    ensures exists w: int ::
      Abs(rot - SectionRest(NearestIndex(rot, n, pi), n, pi) - Multiple(w, Turn(pi)))
        <= Abs(rot - SectionRest(j, n, pi) - Multiple(k, Turn(pi)))
  {
    var sa, T, i := SectionAngle(n, pi), Turn(pi), NearestIndex(rot, n, pi);
    NearestIndexIsNear(rot, n, pi);
    var w :| Abs(rot - SectionRest(i, n, pi) - Multiple(w, T)) <= sa / 2.0;
    var d := rot - SectionRest(i, n, pi) - Multiple(w, T);
    var e := rot - SectionRest(j, n, pi) - Multiple(k, T);
    var z := (j - i) + (w - k) * n;
    RestGap(i, j, k, w, n, pi);
    assert e - d == Multiple(z, sa);
    if z != 0 {
      MultipleAtLeastPeriod(z, sa);
    }
  }

  lemma RestGap(i: int, j: int, k: int, w: int, n: nat, pi: real)
    requires n >= 1 && pi > 0.0
    ensures (SectionRest(i, n, pi) + Multiple(w, Turn(pi)))
          - (SectionRest(j, n, pi) + Multiple(k, Turn(pi)))
         == Multiple((j - i) + (w - k) * n, SectionAngle(n, pi))
  {
    var sa, T := SectionAngle(n, pi), Turn(pi);
    MultipleNested(w, n, sa);
    MultipleNested(k, n, sa);
    MultipleAdd(-i, w * n, sa);
    MultipleAdd(-j, k * n, sa);
    MultipleAdd(-i + w * n, -j + k * n, sa);
    assert (-i + w * n) - (-j + k * n) == (j - i) + (w - k) * n;
  }
}
