/** `examples/yullyeo_elem.py`: marks each contour of a vertical-stroke
    glyph as a stem or a branch. A contour none of whose on-curve points
    lies inside another contour is a stem; the tag goes on its first
    point. The classifier reads no attribute, only the outline. */
module Elem {
  import opened Wrappers
  import opened Text
  import opened Codec
  import opened Outline
  import opened Attributes
  import opened Tagging
  import opened Snapshot

  /** `_is_inside_point(glyph, point)`: some contour other than the
      point's own contains it. */
  predicate InsidePoint(s: Glyph, inside: Containment, r: PointRef)
    requires ValidRef(s, r)
  {
    InsideOther(s, AllContours(s), inside, r)
  }

  /** The test names a contour. */
  lemma InsidePointContour(s: Glyph, inside: Containment, r: PointRef)
    requires ValidRef(s, r)
    ensures InsidePoint(s, inside, r) <==> exists c :: 0 <= c < |s.contours| && c != r.contour && inside(c, Position(At(s, r)))
  {
    var cs := AllContours(s);
    if InsidePoint(s, inside, r) {
      var j :| 0 <= j < |cs| && cs[j] != r.contour && inside(cs[j], Position(At(s, r)));
      assert cs[j] == j;
    }
    if exists c :: 0 <= c < |s.contours| && c != r.contour && inside(c, Position(At(s, r))) {
      var c :| 0 <= c < |s.contours| && c != r.contour && inside(c, Position(At(s, r)));
      assert cs[c] == c;
    }
  }

  /** Lines 21-27 from point `i` on: the scan skips off-curve points and
      stops at the first point inside another contour. */
  function StemFrom(s: Glyph, inside: Containment, c: nat, i: nat): bool
    requires c < |s.contours| && i <= |s.contours[c]|
    decreases |s.contours[c]| - i
  {
    if i == |s.contours[c]| then true
    else if !OnCurve(s.contours[c][i]) then StemFrom(s, inside, c, i + 1)
    else if InsidePoint(s, inside, PointRef(c, i)) then false
    else StemFrom(s, inside, c, i + 1)
  }

  /** Lines 21-27: contour `c` is a stem. */
  function IsStem(s: Glyph, inside: Containment, c: nat): (b: bool)
    requires c < |s.contours|
    ensures b <==> forall i :: 0 <= i < |s.contours[c]| && OnCurve(s.contours[c][i]) ==> !InsidePoint(s, inside, PointRef(c, i))
  {
    StemFromIff(s, inside, c, 0);
    StemFrom(s, inside, c, 0)
  }

  /** The scan answers stem exactly when no on-curve point from `i` on is
      inside another contour. */
  lemma {:induction false} StemFromIff(s: Glyph, inside: Containment, c: nat, i: nat)
    requires c < |s.contours| && i <= |s.contours[c]|
    ensures StemFrom(s, inside, c, i) <==>
              forall j :: i <= j < |s.contours[c]| && OnCurve(s.contours[c][j]) ==> !InsidePoint(s, inside, PointRef(c, j))
    decreases |s.contours[c]| - i
  {
    if i < |s.contours[c]| {
      StemFromIff(s, inside, c, i + 1);
    }
  }

  /** Lines 28-31: the value the contour's first point receives. */
  function ElemKind(s: Glyph, inside: Containment, c: nat): (v: string)
    requires c < |s.contours|
    ensures v == "stem" <==> IsStem(s, inside, c)
    ensures v == "stem" || v == "branch"
  {
    if IsStem(s, inside, c) then "stem" else "branch"
  }

  /** Lines 20-31 from contour `c` on: one entry per contour, for its first
      point; `contour.points[0]` of an empty contour raises IndexError. */
  function ElemPlan(s: Glyph, inside: Containment, c: nat): (r: Result<Plan>)
    requires c <= |s.contours|
    ensures r.Success? ==> |r.value| == |s.contours| - c
    ensures r.Success? ==> forall i :: 0 <= i < |r.value| ==>
              c + i < |s.contours| && r.value[i] == ([PointRef(c + i, 0)], ElemKind(s, inside, c + i))
    ensures r.Failure? <==> exists x :: c <= x < |s.contours| && |s.contours[x]| == 0
    ensures r.Failure? ==> r.error == IndexError
    decreases |s.contours| - c
  {
    if c == |s.contours| then Success([])
    else if |s.contours[c]| == 0 then Failure(IndexError)
    else
      var rest :- ElemPlan(s, inside, c + 1);
      Success([([PointRef(c, 0)], ElemKind(s, inside, c))] + rest)
  }

  lemma ElemWords()
    ensures Plain("elem") && Plain("stem") && Plain("branch")
  {
    var a, b, e := "elem", "stem", "branch";
    forall i | 0 <= i < |a| ensures PlainChar(a[i]) { }
    forall i | 0 <= i < |b| ensures PlainChar(b[i]) { }
    forall i | 0 <= i < |e| ensures PlainChar(e[i]) { }
  }

  lemma ElemPlanValid(g: Glyph, inside: Containment, plan: Plan)
    requires ElemPlan(Strip(g), inside, 0) == Success(plan)
    ensures PlanValid(g, plan)
  {
    ElemWords();
    forall i | 0 <= i < |plan| ensures AllValid(g, plan[i].0) && Plain(plan[i].1) {
      assert |Strip(g).contours[i]| > 0;
      assert ValidRef(Strip(g), PointRef(i, 0));
    }
  }

  /** `add_elem_attr(glyph)`. */
  function AddElemAttr(g: Glyph, inside: Containment): (r: Result<Edit>)
    ensures r.Success? ==> Tagged(g, r.value.glyph, {"elem"})
  {
    var plan :- ElemPlan(Strip(g), inside, 0);
    ElemPlanValid(g, inside, plan);
    ElemWords();
    TagPlan(g, "elem", plan)
  }

  /** After a run, the first point of every contour holds `elem`. */
  lemma AddElemAttrTags(g: Glyph, inside: Containment)
    requires AddElemAttr(g, inside).Success?
    ensures var h := AddElemAttr(g, inside).value.glyph;
      forall c :: 0 <= c < |g.contours| ==> ValidRef(h, PointRef(c, 0)) && HoldsKey(At(h, PointRef(c, 0)), "elem")
  {
    var plan := ElemPlan(Strip(g), inside, 0).value;
    ElemPlanValid(g, inside, plan);
    ElemWords();
    TagPlanHolds(g, "elem", plan);
    var h := TagPlan(g, "elem", plan).value.glyph;
    assert h == AddElemAttr(g, inside).value.glyph;
    forall c | 0 <= c < |g.contours| ensures ValidRef(h, PointRef(c, 0)) && HoldsKey(At(h, PointRef(c, 0)), "elem") {
      var r := plan[c].0[0];
      assert r == PointRef(c, 0);
      TaggedValid(g, h, {"elem"}, plan[c].0);
      assert HoldsKey(At(h, plan[c].0[0]), "elem");
    }
  }

  /** After a run, the first point of every contour, if it lacked `elem`,
      holds `stem` or `branch` as its contour is a stem or not; every other
      point reads under `elem` as before. */
  lemma AddElemAttrValues(g: Glyph, inside: Containment, r: PointRef)
    requires AddElemAttr(g, inside).Success? && ValidRef(g, r)
    ensures var h := AddElemAttr(g, inside).value.glyph;
      var before := GetAttr(At(g, r), "elem");
      && ValidRef(h, r)
      && GetAttr(At(h, r), "elem") ==
           if r.index == 0 then AddedValue(before, true, ElemKind(Strip(g), inside, r.contour)) else before
  {
    var plan := ElemPlan(Strip(g), inside, 0).value;
    ElemPlanValid(g, inside, plan);
    ElemWords();
    assert AddElemAttr(g, inside) == TagPlan(g, "elem", plan);
    ElemFirst(Strip(g), inside, plan, r);
    TagPlanValue(g, "elem", plan, r);
  }

  /** Each contour's first point is listed once, with its contour's kind. */
  lemma ElemFirst(s: Glyph, inside: Containment, plan: Plan, r: PointRef)
    requires ElemPlan(s, inside, 0) == Success(plan) && r.contour < |s.contours|
    ensures FirstValue(plan, r) == if r.index == 0 then Some(ElemKind(s, inside, r.contour)) else None
  {
    if r.index == 0 {
      assert plan[r.contour].0 == [r];
      forall j | 0 <= j < r.contour ensures r !in plan[j].0 {
        assert plan[j].0 == [PointRef(j, 0)];
      }
      FirstValueAt(plan, r, r.contour);
    } else {
      forall j | 0 <= j < |plan| ensures r !in plan[j].0 {
        assert plan[j].0 == [PointRef(j, 0)];
      }
    }
  }

  /** A second run finds the same kinds, already tagged, and changes
      nothing. */
  lemma AddElemAttrIdempotent(g: Glyph, inside: Containment)
    requires AddElemAttr(g, inside).Success?
    ensures var h := AddElemAttr(g, inside).value.glyph;
      AddElemAttr(h, inside) == Success(Edit(h, 0))
  {
    var h := AddElemAttr(g, inside).value.glyph;
    var plan := ElemPlan(Strip(g), inside, 0).value;
    ElemPlanValid(g, inside, plan);
    ElemWords();
    TaggedStrip(g, h, {"elem"});
    TagPlanIdempotent(g, "elem", plan);
  }

  /** `need_elem(glyph)`. */
  predicate NeedElem(g: Glyph) {
    !StartsWith(g.name, "uni") && EndsWith(g.name, "V")
  }

  /** The test looks at the first three letters and the last letter of the
      name. */
  lemma NeedElemName(g: Glyph)
    ensures NeedElem(g) <==>
              && !(|g.name| >= 3 && g.name[0] == 'u' && g.name[1] == 'n' && g.name[2] == 'i')
              && |g.name| > 0 && g.name[|g.name| - 1] == 'V'
  {
  }
}
