/** The tagging step every classifier ends with: lists of points, each
    list given one value of the same key through `add_attr`.

    The classifiers first decide which points get which value, reading the
    glyph, and only then call `add_attr`. A `Plan` records that decision;
    `TagPlan` carries it out. Because `add_attr` never overwrites, carrying
    out a plan a second time changes nothing (`TagPlanIdempotent`). */
module Tagging {
  import opened Wrappers
  import opened Codec
  import opened Outline
  import opened Attributes

  /** Lists of points and the value each list receives, in call order. */
  type Plan = seq<(seq<PointRef>, string)>

  /** Every listed point exists and every value encodes as written. */
  predicate PlanValid(g: Glyph, plan: Plan) {
    forall i :: 0 <= i < |plan| ==> AllValid(g, plan[i].0) && Plain(plan[i].1)
  }

  lemma TaggedPlanValid(g: Glyph, h: Glyph, tags: set<string>, plan: Plan)
    requires Tagged(g, h, tags) && PlanValid(g, plan)
    ensures PlanValid(h, plan)
  {
    forall i | 0 <= i < |plan| ensures AllValid(h, plan[i].0) {
      TaggedValid(g, h, tags, plan[i].0);
    }
  }

  /** `for points, value in plan: for point in points: add_attr(point, k,
      value)`; the first point whose name does not parse stops the run. */
  function TagPlan(g: Glyph, k: string, plan: Plan): (r: Result<Edit>)
    requires Plain(k) && PlanValid(g, plan)
    ensures r.Success? ==> Tagged(g, r.value.glyph, {k})
    decreases |plan|
  {
    if |plan| == 0 then
      TaggedRefl(g, {k});
      Success(Edit(g, 0))
    else
      var e1 :- AddAttrAll(g, plan[0].0, k, plan[0].1);
      TaggedPlanValid(g, e1.glyph, {k}, plan[1..]);
      var e2 :- TagPlan(e1.glyph, k, plan[1..]);
      TaggedTrans(g, e1.glyph, e2.glyph, {k});
      Success(Edit(e2.glyph, e1.notifications + e2.notifications))
  }

  /** One successful step of `TagPlan`. */
  lemma TagPlanStep(g: Glyph, k: string, plan: Plan)
    requires Plain(k) && PlanValid(g, plan) && |plan| > 0
    requires TagPlan(g, k, plan).Success?
    ensures AddAttrAll(g, plan[0].0, k, plan[0].1).Success?
    ensures var g1 := AddAttrAll(g, plan[0].0, k, plan[0].1).value.glyph;
      && PlanValid(g1, plan[1..])
      && TagPlan(g1, k, plan[1..]).Success?
      && TagPlan(g1, k, plan[1..]).value.glyph == TagPlan(g, k, plan).value.glyph
  {
    TaggedPlanValid(g, AddAttrAll(g, plan[0].0, k, plan[0].1).value.glyph, {k}, plan[1..]);
  }

  /** After a successful run every planned point holds the key. */
  lemma {:induction false} TagPlanHolds(g: Glyph, k: string, plan: Plan)
    requires Plain(k) && PlanValid(g, plan)
    requires TagPlan(g, k, plan).Success?
    ensures forall i, j :: 0 <= i < |plan| && 0 <= j < |plan[i].0| ==>
              HoldsKey(At(TagPlan(g, k, plan).value.glyph, plan[i].0[j]), k)
    decreases |plan|
  {
    if |plan| > 0 {
      TagPlanStep(g, k, plan);
      var g1 := AddAttrAll(g, plan[0].0, k, plan[0].1).value.glyph;
      AddAttrAllHolds(g, plan[0].0, k, plan[0].1);
      TagPlanHolds(g1, k, plan[1..]);
      HoldsRest(g1, TagPlan(g1, k, plan[1..]).value.glyph, k, plan);
    }
  }

  lemma HoldsRest(g1: Glyph, h: Glyph, k: string, plan: Plan)
    requires |plan| > 0 && Tagged(g1, h, {k}) && AllValid(g1, plan[0].0)
    requires forall j :: 0 <= j < |plan[0].0| ==> HoldsKey(At(g1, plan[0].0[j]), k)
    requires forall i, j :: 0 <= i < |plan| - 1 && 0 <= j < |plan[1..][i].0| ==>
               ValidRef(h, plan[1..][i].0[j]) && HoldsKey(At(h, plan[1..][i].0[j]), k)
    ensures forall i, j :: 0 <= i < |plan| && 0 <= j < |plan[i].0| ==>
              ValidRef(h, plan[i].0[j]) && HoldsKey(At(h, plan[i].0[j]), k)
  {
    forall j | 0 <= j < |plan[0].0| ensures ValidRef(h, plan[0].0[j]) && HoldsKey(At(h, plan[0].0[j]), k) {
      TaggedHolds(g1, h, {k}, plan[0].0[j], k);
    }
    forall i, j | 1 <= i < |plan| && 0 <= j < |plan[i].0| ensures ValidRef(h, plan[i].0[j]) && HoldsKey(At(h, plan[i].0[j]), k) {
      assert plan[i] == plan[1..][i - 1];
    }
  }

  /** The value of the first entry of `plan` that lists `r`, if any. */
  function FirstValue(plan: Plan, r: PointRef): (w: Option<string>)
    ensures w.None? <==> forall i :: 0 <= i < |plan| ==> r !in plan[i].0
    decreases |plan|
  {
    if |plan| == 0 then None
    else if r in plan[0].0 then Some(plan[0].1)
    else
      var w := FirstValue(plan[1..], r);
      assert forall i :: 1 <= i < |plan| ==> plan[i] == plan[1..][i - 1];
      w
  }

  /** The first entry listing `r` decides its value. */
  lemma {:induction false} FirstValueAt(plan: Plan, r: PointRef, i: nat)
    requires i < |plan| && r in plan[i].0
    requires forall j :: 0 <= j < i ==> r !in plan[j].0
    ensures FirstValue(plan, r) == Some(plan[i].1)
    decreases i
  {
    if i > 0 {
      assert r !in plan[0].0;
      forall j | 0 <= j < i - 1 ensures r !in plan[1..][j].0 {
        assert plan[1..][j] == plan[j + 1];
      }
      FirstValueAt(plan[1..], r, i - 1);
    }
  }

  /** After a successful run, a point some entry lists and that lacked the
      key holds the value of the first entry listing it; every other point
      reads under the key as before. */
  lemma {:induction false} TagPlanValue(g: Glyph, k: string, plan: Plan, r: PointRef)
    requires Plain(k) && PlanValid(g, plan) && ValidRef(g, r)
    requires TagPlan(g, k, plan).Success?
    ensures ValidRef(TagPlan(g, k, plan).value.glyph, r)
    ensures FirstValue(plan, r).None? ==>
              GetAttr(At(TagPlan(g, k, plan).value.glyph, r), k) == GetAttr(At(g, r), k)
    ensures FirstValue(plan, r).Some? ==>
              GetAttr(At(TagPlan(g, k, plan).value.glyph, r), k) == AddedValue(GetAttr(At(g, r), k), true, FirstValue(plan, r).value)
    decreases |plan|
  {
    if |plan| > 0 {
      TagPlanStep(g, k, plan);
      var g1 := AddAttrAll(g, plan[0].0, k, plan[0].1).value.glyph;
      AddAttrAllValue(g, plan[0].0, k, plan[0].1, r);
      TagPlanValue(g1, k, plan[1..], r);
      var b := GetAttr(At(g, r), k);
      if r in plan[0].0 {
        var w := FirstValue(plan[1..], r);
        if w.Some? {
          AddedSettled(b, plan[0].1, w.value);
        }
      }
    }
  }

  /** A point that was given a value keeps it. */
  lemma AddedSettled(before: Result<Option<string>>, v: string, w: string)
    ensures AddedValue(AddedValue(before, true, v), true, w) == AddedValue(before, true, v)
  {
  }

  /** `TagPlanValue` for a point of entry `i` that no earlier entry lists. */
  lemma TagPlanEntry(g: Glyph, k: string, plan: Plan, i: nat, r: PointRef)
    requires Plain(k) && PlanValid(g, plan) && TagPlan(g, k, plan).Success?
    requires i < |plan| && r in plan[i].0
    requires forall j :: 0 <= j < i ==> r !in plan[j].0
    ensures ValidRef(g, r) && ValidRef(TagPlan(g, k, plan).value.glyph, r)
    ensures GetAttr(At(TagPlan(g, k, plan).value.glyph, r), k) == AddedValue(GetAttr(At(g, r), k), true, plan[i].1)
  {
    assert AllValid(g, plan[i].0);
    FirstValueAt(plan, r, i);
    TagPlanValue(g, k, plan, r);
  }

  /** A plan whose every point already holds the key changes nothing and
      notifies nobody. */
  lemma {:induction false} TagPlanHeld(g: Glyph, k: string, plan: Plan)
    requires Plain(k) && PlanValid(g, plan)
    requires forall i, j :: 0 <= i < |plan| && 0 <= j < |plan[i].0| ==> HoldsKey(At(g, plan[i].0[j]), k)
    ensures TagPlan(g, k, plan) == Success(Edit(g, 0))
    decreases |plan|
  {
    if |plan| > 0 {
      AddAttrAllHeld(g, plan[0].0, k, plan[0].1);
      forall i, j | 0 <= i < |plan| - 1 && 0 <= j < |plan[1..][i].0| ensures HoldsKey(At(g, plan[1..][i].0[j]), k) {
        assert plan[1..][i] == plan[i + 1];
      }
      TagPlanHeld(g, k, plan[1..]);
    }
  }

  /** Running the same plan on its own result changes nothing. */
  lemma TagPlanIdempotent(g: Glyph, k: string, plan: Plan)
    requires Plain(k) && PlanValid(g, plan)
    requires TagPlan(g, k, plan).Success?
    ensures var h := TagPlan(g, k, plan).value.glyph;
      PlanValid(h, plan) && TagPlan(h, k, plan) == Success(Edit(h, 0))
  {
    var h := TagPlan(g, k, plan).value.glyph;
    TaggedPlanValid(g, h, {k}, plan);
    TagPlanHolds(g, k, plan);
    TagPlanHeld(h, k, plan);
  }
}
