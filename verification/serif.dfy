/** `examples/yullyeo_serif.py`: marks the serif of a vertical stroke. In a
    glyph whose name contains `V`, the contours taller than they are wide
    (and, where the outline overlaps itself, whose overlaps inside them
    line up vertically) are serif contours; the top-left point of the first
    two gets `serif=1` and `serif=2`. The classifier reads no attribute,
    only the outline. */
module Serif {
  import opened Wrappers
  import opened Text
  import opened Codec
  import opened Outline
  import opened Attributes
  import opened Tagging
  import opened Snapshot

  /** `is_serif_contour(glyph)`: `glyph.name.find('V') != -1`. */
  predicate IsSerifContour(g: Glyph) {
    Contains(g.name, "V")
  }

  /** The name test is a search for the letter `V`. */
  lemma IsSerifContourName(g: Glyph)
    ensures IsSerifContour(g) <==> 'V' in g.name
  {
    ContainsChar(g.name, 'V');
  }

  // ---------------------------------------------------------------------------
  // Bounding box

  /** `min(...)` of a non-empty list of numbers. */
  function Least(xs: seq<real>): (m: real)
    requires |xs| > 0
    ensures forall i :: 0 <= i < |xs| ==> m <= xs[i]
    ensures exists i :: 0 <= i < |xs| && m == xs[i]
  {
    if |xs| == 1 then xs[0]
    else
      var rest := Least(xs[1..]);
      assert forall i :: 1 <= i < |xs| ==> xs[i] == xs[1..][i - 1];
      if xs[0] <= rest then xs[0] else rest
  }

  /** `max(...)` of a non-empty list of numbers. */
  function Greatest(xs: seq<real>): (m: real)
    requires |xs| > 0
    ensures forall i :: 0 <= i < |xs| ==> xs[i] <= m
    ensures exists i :: 0 <= i < |xs| && m == xs[i]
  {
    if |xs| == 1 then xs[0]
    else
      var rest := Greatest(xs[1..]);
      assert forall i :: 1 <= i < |xs| ==> xs[i] == xs[1..][i - 1];
      if xs[0] >= rest then xs[0] else rest
  }

  function Xs(ps: seq<Point>): (r: seq<real>)
    ensures |r| == |ps| && forall i :: 0 <= i < |ps| ==> r[i] == ps[i].x
  {
    seq(|ps|, i requires 0 <= i < |ps| => ps[i].x)
  }

  function Ys(ps: seq<Point>): (r: seq<real>)
    ensures |r| == |ps| && forall i :: 0 <= i < |ps| ==> r[i] == ps[i].y
  {
    seq(|ps|, i requires 0 <= i < |ps| => ps[i].y)
  }

  function Abs(x: real): real {
    if x < 0.0 then -x else x
  }

  /** `is_vertical(contour)`: the bounding box of all the contour's points,
      off-curve ones included, is narrower than it is tall. `min` of an
      empty contour raises ValueError. */
  function IsVertical(s: Glyph, c: nat): (r: Result<bool>)
    requires c < |s.contours|
    ensures r.Failure? <==> |s.contours[c]| == 0
    ensures r.Failure? ==> r.error == ValueError
  {
    var ps := s.contours[c];
    if |ps| == 0 then Failure(ValueError) else Success(VerticalBox(ps))
  }

  /** Line 13 for a non-empty contour. */
  predicate VerticalBox(ps: seq<Point>)
    requires |ps| > 0
  {
    Abs(Greatest(Xs(ps)) - Least(Xs(ps))) < Abs(Greatest(Ys(ps)) - Least(Ys(ps)))
  }

  /** Two points of the contour lie further apart vertically than any two
      lie horizontally. */
  predicate TallerThanWide(ps: seq<Point>) {
    exists i, j :: 0 <= i < |ps| && 0 <= j < |ps| && Spread(ps, i, j)
  }

  /** Points `i` and `j` lie further apart vertically than any two lie
      horizontally. */
  predicate Spread(ps: seq<Point>, i: nat, j: nat)
    requires i < |ps| && j < |ps|
  {
    forall k, l :: 0 <= k < |ps| && 0 <= l < |ps| ==> ps[k].x - ps[l].x < ps[i].y - ps[j].y
  }

  /** The bounding-box test, stated without the bounding box. */
  lemma VerticalSpread(ps: seq<Point>)
    requires |ps| > 0
    ensures VerticalBox(ps) <==> TallerThanWide(ps)
  {
    if VerticalBox(ps) {
      BoxSpread(ps);
    }
    if TallerThanWide(ps) {
      SpreadBox(ps);
    }
  }

  lemma BoxSpread(ps: seq<Point>)
    requires |ps| > 0 && VerticalBox(ps)
    ensures TallerThanWide(ps)
  {
    var x0, x1, y0, y1 := Least(Xs(ps)), Greatest(Xs(ps)), Least(Ys(ps)), Greatest(Ys(ps));
    var i :| 0 <= i < |ps| && y1 == Ys(ps)[i];
    var j :| 0 <= j < |ps| && y0 == Ys(ps)[j];
    assert x0 <= x1 && y0 <= y1 by {
      assert x0 <= Xs(ps)[0] <= x1;
      assert y0 <= Ys(ps)[0] <= y1;
    }
    assert x1 - x0 < y1 - y0;
    forall k, l | 0 <= k < |ps| && 0 <= l < |ps| ensures ps[k].x - ps[l].x < ps[i].y - ps[j].y {
      assert Xs(ps)[k] <= x1 && x0 <= Xs(ps)[l];
    }
    assert Spread(ps, i, j);
  }

  lemma SpreadBox(ps: seq<Point>)
    requires |ps| > 0 && TallerThanWide(ps)
    ensures VerticalBox(ps)
  {
    var a :| 0 <= a < |ps| && Least(Xs(ps)) == Xs(ps)[a];
    var b :| 0 <= b < |ps| && Greatest(Xs(ps)) == Xs(ps)[b];
    var i, j :| 0 <= i < |ps| && 0 <= j < |ps| && Spread(ps, i, j);
    assert ps[b].x - ps[a].x < ps[i].y - ps[j].y;
    GapBox(ps, a, b, i, j);
  }

  /** A vertical gap wider than the horizontal extent makes the box tall. */
  lemma GapBox(ps: seq<Point>, a: nat, b: nat, i: nat, j: nat)
    requires a < |ps| && b < |ps| && i < |ps| && j < |ps|
    requires Least(Xs(ps)) == Xs(ps)[a] && Greatest(Xs(ps)) == Xs(ps)[b]
    requires ps[b].x - ps[a].x < ps[i].y - ps[j].y
    ensures VerticalBox(ps)
  {
    var x0, x1, y0, y1 := Least(Xs(ps)), Greatest(Xs(ps)), Least(Ys(ps)), Greatest(Ys(ps));
    assert Ys(ps)[i] <= y1 && y0 <= Ys(ps)[j];
    assert x0 <= Xs(ps)[b];
    assert Abs(x1 - x0) == x1 - x0 && Abs(y1 - y0) == y1 - y0;
  }

  /** `is_vertical` on a contour with points. */
  lemma IsVerticalSpread(s: Glyph, c: nat)
    requires c < |s.contours| && |s.contours[c]| > 0
    ensures IsVertical(s, c) == Success(TallerThanWide(s.contours[c]))
  {
    VerticalSpread(s.contours[c]);
  }

  // ---------------------------------------------------------------------------
  // The serif point

  /** The first index from `i` on whose point is at (`x`, `y`). */
  function FirstAt(ps: seq<Point>, x: real, y: real, i: nat): (r: Option<nat>)
    requires i <= |ps|
    ensures r.Some? ==> i <= r.value < |ps| && ps[r.value].x == x && ps[r.value].y == y
    ensures r.Some? ==> forall j :: i <= j < r.value ==> !(ps[j].x == x && ps[j].y == y)
    ensures r.None? ==> forall j :: i <= j < |ps| ==> !(ps[j].x == x && ps[j].y == y)
    decreases |ps| - i
  {
    if i == |ps| then None
    else if ps[i].x == x && ps[i].y == y then Some(i)
    else FirstAt(ps, x, y, i + 1)
  }

  /** A point no other point of `ps` lies left of or above. */
  predicate TopLeft(ps: seq<Point>, i: nat)
    requires i < |ps|
  {
    forall j :: 0 <= j < |ps| ==> ps[i].x <= ps[j].x && ps[j].y <= ps[i].y
  }

  /** A point is leftmost and topmost exactly when it sits at the minimum x
      and the maximum y. */
  lemma TopLeftCorner(ps: seq<Point>)
    requires |ps| > 0
    ensures forall j :: 0 <= j < |ps| ==> (TopLeft(ps, j) <==> ps[j].x == Least(Xs(ps)) && ps[j].y == Greatest(Ys(ps)))
  {
    var x, y := Least(Xs(ps)), Greatest(Ys(ps));
    var a :| 0 <= a < |ps| && x == Xs(ps)[a];
    var b :| 0 <= b < |ps| && y == Ys(ps)[b];
    forall j | 0 <= j < |ps| ensures TopLeft(ps, j) <==> ps[j].x == x && ps[j].y == y {
      if TopLeft(ps, j) {
        assert ps[j].x <= ps[a].x && ps[b].y <= ps[j].y;
      }
      if ps[j].x == x && ps[j].y == y {
        forall k | 0 <= k < |ps| ensures ps[j].x <= ps[k].x && ps[k].y <= ps[j].y {
          assert Xs(ps)[k] == ps[k].x && Ys(ps)[k] == ps[k].y;
        }
      }
    }
  }

  /** The first top-left point of `ps` at or after `i`. */
  function FirstTopLeft(ps: seq<Point>, i: nat): (r: Option<nat>)
    requires i <= |ps|
    ensures r.Some? ==> i <= r.value < |ps| && TopLeft(ps, r.value)
    ensures r.Some? ==> forall j :: i <= j < r.value ==> !TopLeft(ps, j)
    ensures r.None? ==> forall j :: i <= j < |ps| ==> !TopLeft(ps, j)
    decreases |ps| - i
  {
    if i == |ps| then None
    else if TopLeft(ps, i) then Some(i)
    else FirstTopLeft(ps, i + 1)
  }

  /** Lines 16-19 as written: the least x and the greatest y, then the
      first point at both. */
  function BoundsCorner(ps: seq<Point>): Option<nat>
    requires |ps| > 0
  {
    FirstAt(ps, Least(Xs(ps)), Greatest(Ys(ps)), 0)
  }

  /** Searching at the bounds finds the first top-left point. */
  lemma BoundsCornerIsTopLeft(ps: seq<Point>)
    requires |ps| > 0
    ensures BoundsCorner(ps) == FirstTopLeft(ps, 0)
  {
    TopLeftCorner(ps);
    FirstAtTopLeft(ps, 0);
  }

  lemma {:induction false} FirstAtTopLeft(ps: seq<Point>, i: nat)
    requires 0 < |ps| && i <= |ps|
    ensures FirstAt(ps, Least(Xs(ps)), Greatest(Ys(ps)), i) == FirstTopLeft(ps, i)
    decreases |ps| - i
  {
    if i < |ps| {
      TopLeftCorner(ps);
      FirstAtTopLeft(ps, i + 1);
    }
  }

  /** `get_serif_point(contour)`: the first point that is both leftmost and
      topmost (`BoundsCornerIsTopLeft` shows this is the point lines 16-19
      pick); ValueError for an empty contour, whose `min` fails, and
      IndexError when no point is both. */
  function SerifPoint(s: Glyph, c: nat): (r: Result<PointRef>)
    requires c < |s.contours|
    ensures r.Success? ==> r.value.contour == c && ValidRef(s, r.value) && TopLeft(s.contours[c], r.value.index)
    ensures r.Success? ==> forall j :: 0 <= j < r.value.index ==> !TopLeft(s.contours[c], j)
    ensures r.Failure? <==> forall j :: 0 <= j < |s.contours[c]| ==> !TopLeft(s.contours[c], j)
    ensures r.Failure? ==> r.error == (if |s.contours[c]| == 0 then ValueError else IndexError)
  {
    var ps := s.contours[c];
    if |ps| == 0 then Failure(ValueError)
    else
      match FirstTopLeft(ps, 0)
      case Some(i) => Success(PointRef(c, i))
      case None => Failure(IndexError)
  }

  // ---------------------------------------------------------------------------
  // Serif contours

  /** The positions of `ps` that contour `c` contains, in order: the
      `filter(contour.pointInside, overlaps)` of line 24. */
  function InsideOf(inside: Containment, c: nat, ps: seq<(real, real)>): (r: seq<(real, real)>)
    ensures |r| <= |ps|
    ensures forall q :: q in r <==> q in ps && inside(c, q)
  {
    if |ps| == 0 then []
    else (if inside(c, ps[0]) then [ps[0]] else []) + InsideOf(inside, c, ps[1..])
  }

  /** `is_overlap_vertical_or_not_overlap(overlaps, contour)`: true without
      overlaps or without one inside the contour; otherwise the first two
      inside must share their x, and a single one raises IndexError. */
  function OverlapTest(overlaps: Option<seq<(real, real)>>, inside: Containment, c: nat): (r: Result<bool>)
    ensures overlaps.None? ==> r == Success(true)
    ensures overlaps.Some? && (forall q :: q in overlaps.value ==> !inside(c, q)) ==> r == Success(true)
    ensures r.Failure? <==> overlaps.Some? && |InsideOf(inside, c, overlaps.value)| == 1
    ensures r.Failure? ==> r.error == IndexError
  {
    if overlaps.None? then Success(true)
    else
      var found := InsideOf(inside, c, overlaps.value);
      if |found| == 0 then Success(true)
      else if |found| == 1 then
        assert found[0] in found;
        Failure(IndexError)
      else Success(found[0].0 == found[1].0)
  }

  /** Line 34 for contour `c`: the overlap test runs only for a vertical
      contour. */
  function Decide(s: Glyph, overlaps: Option<seq<(real, real)>>, inside: Containment, c: nat): (r: Result<bool>)
    requires c < |s.contours|
  {
    var vertical :- IsVertical(s, c);
    if vertical then OverlapTest(overlaps, inside, c) else Success(false)
  }

  /** A contour the loop of lines 33-35 keeps. */
  predicate Kept(s: Glyph, overlaps: Option<seq<(real, real)>>, inside: Containment, c: nat)
    requires c < |s.contours|
  {
    IsVertical(s, c) == Success(true) && OverlapTest(overlaps, inside, c) == Success(true)
  }

  /** Contour `c` is empty, or vertical with a single overlap inside it. */
  predicate Broken(s: Glyph, overlaps: Option<seq<(real, real)>>, inside: Containment, c: nat)
    requires c < |s.contours|
  {
    IsVertical(s, c).Failure? || (IsVertical(s, c) == Success(true) && OverlapTest(overlaps, inside, c).Failure?)
  }

  /** The decision keeps the contours that pass and fails on the broken
      ones. */
  lemma DecideCases(s: Glyph, overlaps: Option<seq<(real, real)>>, inside: Containment, c: nat)
    requires c < |s.contours|
    ensures Decide(s, overlaps, inside, c) == Success(true) <==> Kept(s, overlaps, inside, c)
    ensures Decide(s, overlaps, inside, c).Failure? <==> Broken(s, overlaps, inside, c)
  {
  }

  /** The decision for every contour, in order. */
  function Decisions(s: Glyph, overlaps: Option<seq<(real, real)>>, inside: Containment): (ds: seq<Result<bool>>)
    ensures |ds| == |s.contours|
    ensures forall c :: 0 <= c < |ds| ==> ds[c] == Decide(s, overlaps, inside, c)
  {
    seq(|s.contours|, c requires 0 <= c < |s.contours| => Decide(s, overlaps, inside, c))
  }

  /** Lines 33-35 from index `c` on, over decisions already made: the kept
      indices in order, or the first error. */
  function Collect(ds: seq<Result<bool>>, c: nat): (r: Result<seq<nat>>)
    requires c <= |ds|
    ensures r.Success? ==> forall i :: 0 <= i < |r.value| ==> c <= r.value[i] < |ds|
    ensures r.Success? ==> forall i, j :: 0 <= i < j < |r.value| ==> r.value[i] < r.value[j]
    decreases |ds| - c
  {
    if c == |ds| then Success([])
    else
      var keep :- ds[c];
      var rest :- Collect(ds, c + 1);
      Success(if keep then [c] + rest else rest)
  }

  /** Collecting keeps exactly the indices decided true. */
  lemma {:induction false} CollectMembers(ds: seq<Result<bool>>, c: nat)
    requires c <= |ds| && Collect(ds, c).Success?
    ensures forall x :: x in Collect(ds, c).value <==> c <= x < |ds| && ds[x] == Success(true)
    decreases |ds| - c
  {
    if c < |ds| {
      CollectMembers(ds, c + 1);
    }
  }

  /** Collecting fails exactly when some decision does. */
  lemma {:induction false} CollectErrors(ds: seq<Result<bool>>, c: nat)
    requires c <= |ds|
    ensures Collect(ds, c).Failure? <==> exists x :: c <= x < |ds| && ds[x].Failure?
    decreases |ds| - c
  {
    if c < |ds| {
      CollectErrors(ds, c + 1);
    }
  }

  /** `get_serif_contour(glyph)`: the contours kept, in contour order; the
      first error stops the scan. */
  function SerifContours(s: Glyph, overlaps: Option<seq<(real, real)>>, inside: Containment): (r: Result<seq<nat>>)
    ensures r.Success? ==> ContoursOf(s, r.value)
    ensures r.Success? ==> forall i, j :: 0 <= i < j < |r.value| ==> r.value[i] < r.value[j]
  {
    Collect(Decisions(s, overlaps, inside), 0)
  }

  /** The scan keeps exactly the vertical contours that pass the overlap
      test. */
  lemma SerifContoursMembers(s: Glyph, overlaps: Option<seq<(real, real)>>, inside: Containment)
    requires SerifContours(s, overlaps, inside).Success?
    ensures forall x :: x in SerifContours(s, overlaps, inside).value <==> 0 <= x < |s.contours| && Kept(s, overlaps, inside, x)
  {
    CollectMembers(Decisions(s, overlaps, inside), 0);
    forall x | 0 <= x < |s.contours| ensures Decide(s, overlaps, inside, x) == Success(true) <==> Kept(s, overlaps, inside, x) {
      DecideCases(s, overlaps, inside, x);
    }
  }

  /** The scan fails exactly when some contour is empty, or is vertical
      with a single overlap inside it. */
  lemma SerifContoursErrors(s: Glyph, overlaps: Option<seq<(real, real)>>, inside: Containment)
    ensures SerifContours(s, overlaps, inside).Failure? <==> exists x :: 0 <= x < |s.contours| && Broken(s, overlaps, inside, x)
  {
    CollectErrors(Decisions(s, overlaps, inside), 0);
    forall x | 0 <= x < |s.contours| ensures Decide(s, overlaps, inside, x).Failure? <==> Broken(s, overlaps, inside, x) {
      DecideCases(s, overlaps, inside, x);
    }
  }

  // ---------------------------------------------------------------------------
  // Tagging

  /** Lines 42-49 from counter `cnt`: the serif point of each contour gets
      the counter, and the loop stops once the counter passes 2. */
  function SerifPlan(s: Glyph, cs: seq<nat>, cnt: nat): (r: Result<Plan>)
    requires 1 <= cnt <= 2 && ContoursOf(s, cs)
    ensures r.Success? ==> |r.value| == if |cs| < 3 - cnt then |cs| else 3 - cnt
    ensures r.Success? ==> forall i :: 0 <= i < |r.value| ==>
              SerifPoint(s, cs[i]).Success? && r.value[i] == ([SerifPoint(s, cs[i]).value], NatToString(cnt + i))
    ensures r.Failure? <==> exists i :: 0 <= i < |cs| && i < 3 - cnt && SerifPoint(s, cs[i]).Failure?
    decreases |cs|
  {
    if |cs| == 0 then Success([])
    else
      var p :- SerifPoint(s, cs[0]);
      var here := [([p], NatToString(cnt))];
      if cnt + 1 > 2 then Success(here)
      else
        assert forall i :: 0 < i < |cs| ==> cs[1..][i - 1] == cs[i];
        var rest :- SerifPlan(s, cs[1..], cnt + 1);
        Success(here + rest)
  }

  lemma SerifWords()
    ensures Plain("serif") && NatToString(1) == "1" && NatToString(2) == "2"
    ensures Plain("1") && Plain("2")
  {
    var w := "serif";
    forall i | 0 <= i < |w| ensures PlainChar(w[i]) { }
  }

  /** The plan for the serif contours of `g`, read from its outline: at
      most two points, the first valued `1` and the second `2`. */
  function GlyphSerifPlan(g: Glyph, overlaps: Option<seq<(real, real)>>, inside: Containment): (r: Result<Plan>)
    ensures r.Success? ==> PlanValid(g, r.value) && |r.value| <= 2
    ensures r.Success? ==> forall i :: 0 <= i < |r.value| ==> |r.value[i].0| == 1 && r.value[i].1 == NatToString(i + 1)
  {
    var cs :- SerifContours(Strip(g), overlaps, inside);
    var plan :- SerifPlan(Strip(g), cs, 1);
    SerifPlanValid(g, cs, plan);
    Success(plan)
  }

  lemma SerifPlanValid(g: Glyph, cs: seq<nat>, plan: Plan)
    requires ContoursOf(Strip(g), cs) && SerifPlan(Strip(g), cs, 1) == Success(plan)
    ensures PlanValid(g, plan) && |plan| <= 2
    ensures forall i :: 0 <= i < |plan| ==> |plan[i].0| == 1 && plan[i].1 == NatToString(i + 1)
  {
    forall i | 0 <= i < |plan| ensures AllValid(g, plan[i].0) && Plain(plan[i].1) && |plan[i].0| == 1 && plan[i].1 == NatToString(i + 1) {
      SerifPlanEntry(Strip(g), cs, plan, i);
      StripValid(g, plan[i].0);
    }
  }

  /** Entry `i` of a plan from counter 1: one point of `s`, valued `i + 1`. */
  lemma SerifPlanEntry(s: Glyph, cs: seq<nat>, plan: Plan, i: nat)
    requires ContoursOf(s, cs) && SerifPlan(s, cs, 1) == Success(plan) && i < |plan|
    ensures AllValid(s, plan[i].0) && Plain(plan[i].1) && |plan[i].0| == 1 && plan[i].1 == NatToString(i + 1)
  {
    SerifWords();
    if i == 0 {
      assert plan[0].1 == "1";
    } else {
      assert plan[1].1 == "2";
    }
  }

  /** `add_serif_attr(glyph)`; `overlaps` is what `glyph.hasOverlap()`
      returns. */
  function AddSerifAttr(g: Glyph, overlaps: Option<seq<(real, real)>>, inside: Containment): (r: Result<Edit>)
    ensures r.Success? ==> Tagged(g, r.value.glyph, {"serif"})
  {
    var plan :- GlyphSerifPlan(g, overlaps, inside);
    SerifWords();
    TagPlan(g, "serif", plan)
  }

  /** Every planned serif point holds `serif` after the run. */
  lemma AddSerifAttrTags(g: Glyph, overlaps: Option<seq<(real, real)>>, inside: Containment)
    requires AddSerifAttr(g, overlaps, inside).Success?
    ensures GlyphSerifPlan(g, overlaps, inside).Success?
    ensures var plan := GlyphSerifPlan(g, overlaps, inside).value;
      var h := AddSerifAttr(g, overlaps, inside).value.glyph;
      forall i :: 0 <= i < |plan| ==> ValidRef(h, plan[i].0[0]) && HoldsKey(At(h, plan[i].0[0]), "serif")
  {
    var plan := GlyphSerifPlan(g, overlaps, inside).value;
    SerifWords();
    TagPlanHolds(g, "serif", plan);
    var h := AddSerifAttr(g, overlaps, inside).value.glyph;
    forall i | 0 <= i < |plan| ensures ValidRef(h, plan[i].0[0]) {
      TaggedValid(g, h, {"serif"}, plan[i].0);
    }
  }

  /** After a run, the first serif point, if it lacked `serif`, holds `1`,
      the second, if it lacked it, holds `2`, and every other point reads
      under `serif` as before. */
  lemma AddSerifAttrValues(g: Glyph, overlaps: Option<seq<(real, real)>>, inside: Containment, r: PointRef)
    requires AddSerifAttr(g, overlaps, inside).Success? && ValidRef(g, r)
    ensures GlyphSerifPlan(g, overlaps, inside).Success?
    ensures var plan := GlyphSerifPlan(g, overlaps, inside).value;
      var h := AddSerifAttr(g, overlaps, inside).value.glyph;
      var before := GetAttr(At(g, r), "serif");
      && ValidRef(h, r)
      && GetAttr(At(h, r), "serif") ==
           if |plan| > 0 && r == plan[0].0[0] then AddedValue(before, true, "1")
           else if |plan| > 1 && r == plan[1].0[0] then AddedValue(before, true, "2")
           else before
  {
    var plan := GlyphSerifPlan(g, overlaps, inside).value;
    SerifWords();
    SerifFirst(plan, r);
    TagPlanValue(g, "serif", plan, r);
  }

  lemma SerifFirst(plan: Plan, r: PointRef)
    requires |plan| <= 2
    requires forall i :: 0 <= i < |plan| ==> |plan[i].0| == 1 && plan[i].1 == NatToString(i + 1)
    ensures FirstValue(plan, r) ==
      if |plan| > 0 && r == plan[0].0[0] then Some("1")
      else if |plan| > 1 && r == plan[1].0[0] then Some("2")
      else None
  {
    SerifWords();
    if |plan| > 0 {
      assert plan[0].0 == [plan[0].0[0]];
    }
    if |plan| > 1 {
      assert plan[1..][0] == plan[1];
      assert plan[1].0 == [plan[1].0[0]];
    }
  }

  /** A second run finds the same points, already tagged, and changes
      nothing. */
  lemma AddSerifAttrIdempotent(g: Glyph, overlaps: Option<seq<(real, real)>>, inside: Containment)
    requires AddSerifAttr(g, overlaps, inside).Success?
    ensures var h := AddSerifAttr(g, overlaps, inside).value.glyph;
      AddSerifAttr(h, overlaps, inside) == Success(Edit(h, 0))
  {
    var h := AddSerifAttr(g, overlaps, inside).value.glyph;
    SerifWords();
    TaggedStrip(g, h, {"serif"});
    TagPlanIdempotent(g, "serif", GlyphSerifPlan(g, overlaps, inside).value);
  }
}
