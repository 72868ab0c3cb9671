/** `examples/yullyeo_round.py`: picks the points of a glyph to draw round.
    Each pen pair (two on-curve points sharing a `penPair` key) that is
    consecutive on its contour gives those of its points that lie inside no
    other contour; any other pen pair gives at most one point, found by
    probing the four diagonal neighbours of each point. */
module Round {
  import opened Wrappers
  import opened ODict
  import opened Codec
  import opened Outline
  import opened Attributes
  import opened Tagging
  import opened Snapshot

  /** The keys the classifier reads. */
  const RoundKeys: set<string> := {"penPair"}

  // ---------------------------------------------------------------------------
  // Containment

  /** Lines 7-12 from contour `c` on: the scan stops at the first contour
      containing `pos`, skipping contour `own` unless `selfCheck`. */
  function InsideFrom(s: Glyph, inside: Containment, own: nat, selfCheck: bool, pos: (real, real), c: nat): bool
    decreases |s.contours| - c
  {
    if c >= |s.contours| then false
    else if !selfCheck && c == own then InsideFrom(s, inside, own, selfCheck, pos, c + 1)
    else if inside(c, pos) then true
    else InsideFrom(s, inside, own, selfCheck, pos, c + 1)
  }

  /** The scan finds a contour exactly when one is there. */
  lemma {:induction false} InsideFromIff(s: Glyph, inside: Containment, own: nat, selfCheck: bool, pos: (real, real), c: nat)
    ensures InsideFrom(s, inside, own, selfCheck, pos, c) <==>
              exists j :: c <= j < |s.contours| && (selfCheck || j != own) && inside(j, pos)
    decreases |s.contours| - c
  {
    if c < |s.contours| {
      InsideFromIff(s, inside, own, selfCheck, pos, c + 1);
      if InsideFrom(s, inside, own, selfCheck, pos, c + 1) {
        var j :| c + 1 <= j < |s.contours| && (selfCheck || j != own) && inside(j, pos);
      }
    }
  }

  /** `_is_inside_point(point, glyph, self_check, position)`. */
  function InsidePoint(s: Glyph, inside: Containment, r: PointRef, selfCheck: bool, pos: (real, real)): (b: bool)
    ensures b <==> exists c :: 0 <= c < |s.contours| && (selfCheck || c != r.contour) && inside(c, pos)
  {
    InsideFromIff(s, inside, r.contour, selfCheck, pos, 0);
    InsideFrom(s, inside, r.contour, selfCheck, pos, 0)
  }

  /** Without `self_check`, at the point's own position, the test is the
      "inside another contour" test of the stroke classifiers. */
  lemma InsidePointOther(s: Glyph, inside: Containment, r: PointRef)
    requires ValidRef(s, r)
    ensures InsidePoint(s, inside, r, false, Position(At(s, r))) <==> InsideOther(s, AllContours(s), inside, r)
  {
    var cs := AllContours(s);
    if InsideOther(s, cs, inside, r) {
      var j :| 0 <= j < |cs| && cs[j] != r.contour && inside(cs[j], Position(At(s, r)));
      assert cs[j] == j;
    }
    if InsidePoint(s, inside, r, false, Position(At(s, r))) {
      var c :| 0 <= c < |s.contours| && c != r.contour && inside(c, Position(At(s, r)));
      assert cs[c] == c;
    }
  }

  // ---------------------------------------------------------------------------
  // The flipped-N probe

  /** `(-1) ** n`. */
  function Sign(n: nat): real {
    if n % 2 == 0 then 1.0 else -1.0
  }

  /** Line 17: the four diagonal neighbours, 2.5 units away, as the
      comprehension computes them. */
  function Probes(p: (real, real)): (ps: seq<(real, real)>)
    ensures ps == [(p.0 - 2.5, p.1 + 2.5), (p.0 - 2.5, p.1 - 2.5), (p.0 + 2.5, p.1 + 2.5), (p.0 + 2.5, p.1 - 2.5)]
  {
    seq(4, i requires 0 <= i < 4 => (p.0 + 2.5 * Sign(if i < 2 then 1 else 0), p.1 + 2.5 * Sign(i)))
  }

  /** How many of `ps` some contour of `s` contains, the point's own
      contour included. */
  function CountInside(s: Glyph, inside: Containment, r: PointRef, ps: seq<(real, real)>): (n: nat)
    ensures n <= |ps|
    ensures n == 0 <==> forall i :: 0 <= i < |ps| ==> !InsidePoint(s, inside, r, true, ps[i])
    ensures n == |ps| <==> forall i :: 0 <= i < |ps| ==> InsidePoint(s, inside, r, true, ps[i])
    decreases |ps|
  {
    if |ps| == 0 then 0
    else
      var rest := CountInside(s, inside, r, ps[1..]);
      assert forall i :: 0 < i < |ps| ==> ps[i] == ps[1..][i - 1];
      (if InsidePoint(s, inside, r, true, ps[0]) then 1 else 0) + rest
  }

  /** `rect_check(point, glyph)`: how many of the four probes fall inside
      the glyph. */
  function RectCheck(s: Glyph, inside: Containment, r: PointRef): (n: nat)
    requires ValidRef(s, r)
    ensures n <= 4
    ensures n == 0 <==> forall i :: 0 <= i < 4 ==> !InsidePoint(s, inside, r, true, Probes(Position(At(s, r)))[i])
    ensures n == 4 <==> forall i :: 0 <= i < 4 ==> InsidePoint(s, inside, r, true, Probes(Position(At(s, r)))[i])
  {
    CountInside(s, inside, r, Probes(Position(At(s, r))))
  }

  // ---------------------------------------------------------------------------
  // One pen pair

  /** Lines 27-30: consecutive points, or the last and first points of a
      contour, where both points' contours have the same length (the
      comparison is chained). */
  predicate Adjacent(s: Glyph, p1: PointRef, p2: PointRef)
    requires ValidRef(s, p1) && ValidRef(s, p2)
  {
    var d := IndexDiff(p1.index, p2.index);
    d == 1 || (d == |s.contours[p1.contour]| - 1 && |s.contours[p1.contour]| - 1 == |s.contours[p2.contour]| - 1)
  }

  /** Lines 27-38 for one pen pair. */
  function RoundPair(s: Glyph, inside: Containment, p1: PointRef, p2: PointRef): (r: set<PointRef>)
    requires ValidRef(s, p1) && ValidRef(s, p2)
    ensures r <= {p1, p2}
    ensures Adjacent(s, p1, p2) ==> forall q :: q in r <==> (q == p1 || q == p2) && !InsidePoint(s, inside, q, false, Position(At(s, q)))
    ensures !Adjacent(s, p1, p2) ==> forall q :: q in r <==>
              (q == p1 && RectCheck(s, inside, p1) == 1 && RectCheck(s, inside, p2) == 3) ||
              (q == p2 && RectCheck(s, inside, p2) == 1 && RectCheck(s, inside, p1) == 3)
  {
    if Adjacent(s, p1, p2) then
      (if !InsidePoint(s, inside, p1, false, Position(At(s, p1))) then {p1} else {}) +
      (if !InsidePoint(s, inside, p2, false, Position(At(s, p2))) then {p2} else {})
    else
      var checks := (RectCheck(s, inside, p1), RectCheck(s, inside, p2));
      if checks == (3, 1) || checks == (1, 3) then {if checks.0 == 1 then p1 else p2} else {}
  }

  /** The two points of a pen pair come in set order, which the result does
      not depend on. */
  lemma RoundPairSymmetric(s: Glyph, inside: Containment, p1: PointRef, p2: PointRef)
    requires ValidRef(s, p1) && ValidRef(s, p2)
    ensures RoundPair(s, inside, p1, p2) == RoundPair(s, inside, p2, p1)
  {
    assert Adjacent(s, p1, p2) <==> Adjacent(s, p2, p1);
    var a, b := RoundPair(s, inside, p1, p2), RoundPair(s, inside, p2, p1);
    assert forall q :: q in a <==> q in b;
  }

  // ---------------------------------------------------------------------------
  // The whole glyph

  /** Every group of `d` is a pair of points of `s`. */
  predicate PairsOf(s: Glyph, d: Dict<seq<PointRef>>) {
    forall e :: e in d ==> |e.1| == 2 && AllValid(s, e.1)
  }

  /** The points each pen pair of `d` gives, together. */
  function RoundUnion(s: Glyph, inside: Containment, d: Dict<seq<PointRef>>): (r: set<PointRef>)
    requires PairsOf(s, d)
    ensures forall q :: q in r <==> exists e :: e in d && q in RoundPair(s, inside, e.1[0], e.1[1])
    decreases |d|
  {
    if |d| == 0 then {}
    else
      assert forall e :: e in d <==> e == d[0] || e in d[1..];
      RoundPair(s, inside, d[0].1[0], d[0].1[1]) + RoundUnion(s, inside, d[1..])
  }

  /** `get_round_points(glyph)`: the glyph's on-curve points grouped by pen
      pair in the set order `order`; ValueError when a group is not a pair
      (the two-name unpacking of line 26). */
  function RoundPoints(s: Glyph, t: Table, inside: Containment, order: seq<PointRef>): (r: Result<set<PointRef>>)
    requires Enumerates(order, AllPoints(s, false))
    ensures r.Success? ==> r.value <= AllPoints(s, false)
    ensures r.Success? ==>
              && GroupByPen(t, order, []).Success?
              && PairsOf(s, GroupByPen(t, order, []).value)
              && r.value == RoundUnion(s, inside, GroupByPen(t, order, []).value)
  {
    var d :- GroupByPen(t, order, []);
    GroupByPenDrawn(t, order, [], order);
    if exists e :: e in d && |e.1| != 2 then Failure(ValueError)
    else
      assert PairsOf(s, d) by {
        forall e | e in d ensures AllValid(s, e.1) {
          forall j | 0 <= j < |e.1| ensures ValidRef(s, e.1[j]) {
            assert e.1[j] in order;
          }
        }
      }
      var r := RoundUnion(s, inside, d);
      assert r <= AllPoints(s, false) by {
        forall q | q in r ensures q in AllPoints(s, false) {
          var e :| e in d && q in RoundPair(s, inside, e.1[0], e.1[1]);
          assert e.1[0] in order && e.1[1] in order;
        }
      }
      Success(r)
  }

  /** When every on-curve point has a pen pair, the run fails exactly when
      some pen pair does not have two points; otherwise it fails with the
      error of a point without a pen pair. */
  lemma RoundPointsErrors(s: Glyph, t: Table, inside: Containment, order: seq<PointRef>)
    requires Enumerates(order, AllPoints(s, false))
    ensures var ok := forall q :: q in AllPoints(s, false) ==> PenKeyOf(t, q).Success?;
      && (ok ==> GroupByPen(t, order, []).Success? &&
                 (RoundPoints(s, t, inside, order) == Failure(ValueError) <==> exists e :: e in GroupByPen(t, order, []).value && |e.1| != 2))
      && (!ok ==> RoundPoints(s, t, inside, order).Failure? &&
                  exists q :: q in AllPoints(s, false) && PenKeyOf(t, q) == Failure(RoundPoints(s, t, inside, order).error))
  {
    GroupByPenSuccess(t, order, []);
    if GroupByPen(t, order, []).Failure? {
      GroupByPenFirstError(t, order, []);
    }
  }

  // ---------------------------------------------------------------------------
  // Tagging

  /** The points of `pts` in the order `order` lists them. */
  function InOrder(order: seq<PointRef>, pts: set<PointRef>): (r: seq<PointRef>)
    ensures forall q :: q in r <==> q in order && q in pts
    ensures forall i :: 0 <= i < |r| ==> r[i] in order
  {
    if |order| == 0 then []
    else (if order[0] in pts then [order[0]] else []) + InOrder(order[1..], pts)
  }

  lemma RoundWords()
    ensures Plain("round") && Plain("1")
  {
    var w := "round";
    forall i | 0 <= i < |w| ensures PlainChar(w[i]) { }
  }

  /** Lines 41-42 applied to every point found: `add_attr(point, 'round', 1)`
      writes the value `1`. The points are visited in `order`. */
  function RoundPlan(order: seq<PointRef>, pts: set<PointRef>): Plan {
    [(InOrder(order, pts), "1")]
  }

  lemma RoundPlanValid(g: Glyph, order: seq<PointRef>, pts: set<PointRef>)
    requires Enumerates(order, AllPoints(g, false))
    ensures PlanValid(g, RoundPlan(order, pts))
  {
    RoundWords();
    var ps := InOrder(order, pts);
    forall i | 0 <= i < |ps| ensures ValidRef(g, ps[i]) {
      assert ps[i] in AllPoints(g, false);
    }
  }

  /** `get_round_points(glyph)` read from the glyph. */
  function GlyphRoundPoints(g: Glyph, inside: Containment, order: seq<PointRef>): (r: Result<set<PointRef>>)
    requires Enumerates(order, AllPoints(g, false))
    ensures r.Success? ==> r.value <= AllPoints(g, false)
  {
    StripPoints(g, false);
    RoundPoints(Strip(g), TableOf(g, RoundKeys), inside, order)
  }

  /** `get_round_points(glyph, add_round_attr)`. */
  function AddRoundAttr(g: Glyph, inside: Containment, order: seq<PointRef>): (r: Result<Edit>)
    requires Enumerates(order, AllPoints(g, false))
    ensures r.Success? ==> Tagged(g, r.value.glyph, {"round"})
  {
    var pts :- GlyphRoundPoints(g, inside, order);
    RoundWords();
    RoundPlanValid(g, order, pts);
    TagPlan(g, "round", RoundPlan(order, pts))
  }

  /** Every point found holds `round` after the run. */
  lemma AddRoundAttrTags(g: Glyph, inside: Containment, order: seq<PointRef>)
    requires Enumerates(order, AllPoints(g, false))
    requires AddRoundAttr(g, inside, order).Success?
    ensures GlyphRoundPoints(g, inside, order).Success?
    ensures var h := AddRoundAttr(g, inside, order).value.glyph;
      forall q :: q in GlyphRoundPoints(g, inside, order).value ==> ValidRef(h, q) && HoldsKey(At(h, q), "round")
  {
    var pts := GlyphRoundPoints(g, inside, order).value;
    var plan := RoundPlan(order, pts);
    RoundWords();
    RoundPlanValid(g, order, pts);
    TagPlanHolds(g, "round", plan);
    var h := AddRoundAttr(g, inside, order).value.glyph;
    forall q | q in pts ensures ValidRef(h, q) && HoldsKey(At(h, q), "round") {
      var ps := plan[0].0;
      assert q in ps;
      var j :| 0 <= j < |ps| && ps[j] == q;
      TaggedValid(g, h, {"round"}, ps);
    }
  }

  /** After a run, every point found that lacked `round` holds `1`, and every
      other point reads under `round` as before. */
  lemma AddRoundAttrValues(g: Glyph, inside: Containment, order: seq<PointRef>, r: PointRef)
    requires Enumerates(order, AllPoints(g, false))
    requires AddRoundAttr(g, inside, order).Success? && ValidRef(g, r)
    ensures GlyphRoundPoints(g, inside, order).Success?
    ensures var h := AddRoundAttr(g, inside, order).value.glyph;
      var before := GetAttr(At(g, r), "round");
      && ValidRef(h, r)
      && GetAttr(At(h, r), "round") ==
           if r in GlyphRoundPoints(g, inside, order).value then AddedValue(before, true, "1") else before
  {
    var pts := GlyphRoundPoints(g, inside, order).value;
    RoundWords();
    RoundPlanValid(g, order, pts);
    TagPlanValue(g, "round", RoundPlan(order, pts), r);
    RoundFirst(g, order, pts, r);
  }

  lemma RoundFirst(g: Glyph, order: seq<PointRef>, pts: set<PointRef>, r: PointRef)
    requires Enumerates(order, AllPoints(g, false)) && pts <= AllPoints(g, false)
    ensures FirstValue(RoundPlan(order, pts), r) == if r in pts then Some("1") else None
  {
  }

  lemma RoundKeysUnwritten()
    ensures RoundKeys !! {"round"}
  {
    assert "round"[0] != "penPair"[0];
  }

  /** A second run finds the same points, already tagged, and changes
      nothing. */
  lemma AddRoundAttrIdempotent(g: Glyph, inside: Containment, order: seq<PointRef>)
    requires Enumerates(order, AllPoints(g, false))
    requires AddRoundAttr(g, inside, order).Success?
    ensures var h := AddRoundAttr(g, inside, order).value.glyph;
      Enumerates(order, AllPoints(h, false)) && AddRoundAttr(h, inside, order) == Success(Edit(h, 0))
  {
    var h := AddRoundAttr(g, inside, order).value.glyph;
    StripPoints(g, false);
    StripPoints(h, false);
    RoundWords();
    RoundKeysUnwritten();
    TaggedSnapshot(g, h, {"round"}, RoundKeys);
    var pts := GlyphRoundPoints(g, inside, order).value;
    RoundPlanValid(g, order, pts);
    TagPlanIdempotent(g, "round", RoundPlan(order, pts));
  }
}
