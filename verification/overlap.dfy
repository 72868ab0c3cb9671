/** `tools/overlap.py`: whether a contour shares points with another
    contour of its glyph. Contour `c` overlaps the target when at least two
    of `c`'s points sit at positions of the target's points. */
module Overlap {
  import opened Outline

  /** `[point.position for point in target_points]`. */
  function Positions(ps: seq<Point>): (r: seq<(real, real)>)
    ensures |r| == |ps| && forall i :: 0 <= i < |ps| ==> r[i] == Position(ps[i])
  {
    seq(|ps|, i requires 0 <= i < |ps| => Position(ps[i]))
  }

  /** Lines 17-21 from point `i` on, `n` matches counted so far: true as
      soon as the count passes 1. */
  function CountFrom(ps: seq<Point>, targets: seq<(real, real)>, i: nat, n: nat): bool
    requires i <= |ps|
    decreases |ps| - i
  {
    if i == |ps| then false
    else
      var m := if Position(ps[i]) in targets then n + 1 else n;
      if m > 1 then true else CountFrom(ps, targets, i + 1, m)
  }

  /** Point `i` of `ps` sits at a target position. */
  predicate Hit(ps: seq<Point>, targets: seq<(real, real)>, i: nat)
    requires i < |ps|
  {
    Position(ps[i]) in targets
  }

  /** With one match already counted, the scan succeeds exactly when one
      more point from `i` on matches. */
  lemma {:induction false} CountFromOne(ps: seq<Point>, targets: seq<(real, real)>, i: nat)
    requires i <= |ps|
    ensures CountFrom(ps, targets, i, 1) <==> exists a :: i <= a < |ps| && Hit(ps, targets, a)
    decreases |ps| - i
  {
    if i < |ps| && !Hit(ps, targets, i) {
      CountFromOne(ps, targets, i + 1);
      if exists a :: i <= a < |ps| && Hit(ps, targets, a) {
        var a :| i <= a < |ps| && Hit(ps, targets, a);
        assert i + 1 <= a;
      }
    }
  }

  /** From a zero count, the scan succeeds exactly when two points from `i`
      on match. */
  lemma {:induction false} CountFromZero(ps: seq<Point>, targets: seq<(real, real)>, i: nat)
    requires i <= |ps|
    ensures CountFrom(ps, targets, i, 0) <==>
              exists a, b :: i <= a < b < |ps| && Hit(ps, targets, a) && Hit(ps, targets, b)
    decreases |ps| - i
  {
    if i < |ps| {
      if Hit(ps, targets, i) {
        CountFromOne(ps, targets, i + 1);
        if CountFrom(ps, targets, i + 1, 1) {
          var b :| i + 1 <= b < |ps| && Hit(ps, targets, b);
          assert i <= i < b < |ps| && Hit(ps, targets, i) && Hit(ps, targets, b);
        }
        if exists a, b :: i <= a < b < |ps| && Hit(ps, targets, a) && Hit(ps, targets, b) {
          var a, b :| i <= a < b < |ps| && Hit(ps, targets, a) && Hit(ps, targets, b);
          assert i + 1 <= b < |ps| && Hit(ps, targets, b);
        }
      } else {
        CountFromZero(ps, targets, i + 1);
        if exists a, b :: i <= a < b < |ps| && Hit(ps, targets, a) && Hit(ps, targets, b) {
          var a, b :| i <= a < b < |ps| && Hit(ps, targets, a) && Hit(ps, targets, b);
          assert i + 1 <= a;
        }
      }
    }
  }

  /** Two points of contour `c` sit at positions of the target's points. */
  predicate SharesTwo(g: Glyph, target: nat, c: nat)
    requires target < |g.contours| && c < |g.contours|
  {
    var ps, targets := g.contours[c], Positions(g.contours[target]);
    exists a, b :: 0 <= a < b < |ps| && Hit(ps, targets, a) && Hit(ps, targets, b)
  }

  /** Lines 10-22 from contour `c` on, skipping the target itself. */
  function OverlapFrom(g: Glyph, target: nat, c: nat): bool
    requires target < |g.contours| && c <= |g.contours|
    decreases |g.contours| - c
  {
    if c == |g.contours| then false
    else if c == target then OverlapFrom(g, target, c + 1)
    else if CountFrom(g.contours[c], Positions(g.contours[target]), 0, 0) then true
    else OverlapFrom(g, target, c + 1)
  }

  /** The scan from `c` finds exactly the other contours sharing two
      points. */
  lemma {:induction false} OverlapFromIff(g: Glyph, target: nat, c: nat)
    requires target < |g.contours| && c <= |g.contours|
    ensures OverlapFrom(g, target, c) <==> exists x :: c <= x < |g.contours| && x != target && SharesTwo(g, target, x)
    decreases |g.contours| - c
  {
    if c < |g.contours| {
      OverlapFromIff(g, target, c + 1);
      CountFromZero(g.contours[c], Positions(g.contours[target]), 0);
      assert CountFrom(g.contours[c], Positions(g.contours[target]), 0, 0) <==> SharesTwo(g, target, c);
      if c != target && SharesTwo(g, target, c) {
        assert c <= c < |g.contours| && c != target && SharesTwo(g, target, c);
      }
      if exists x :: c <= x < |g.contours| && x != target && SharesTwo(g, target, x) {
        var x :| c <= x < |g.contours| && x != target && SharesTwo(g, target, x);
        if x != c {
          assert c + 1 <= x;
        }
      }
    }
  }

  /** `_is_overlap_other_contour(glyph.contours, target_contour)`: some
      other contour has two points at positions of the target's points. A
      glyph with the target alone never overlaps. */
  function IsOverlapOtherContour(g: Glyph, target: nat): (b: bool)
    requires target < |g.contours|
    ensures b <==> exists x :: 0 <= x < |g.contours| && x != target && SharesTwo(g, target, x)
    ensures |g.contours| == 1 ==> !b
  {
    OverlapFromIff(g, target, 0);
    OverlapFrom(g, target, 0)
  }
}
