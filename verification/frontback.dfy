/** `attributing/front_back.py`: the whole-glyph variant of the stroke
    classifier. Across all contours it looks for pen pairs of two
    consecutive free points; when there are exactly two, the higher one is
    tagged `stroke=begin` (the front) and the other `stroke=end` (the
    back). */
module FrontBack {
  import opened Wrappers
  import opened Text
  import opened ODict
  import opened Codec
  import opened Outline
  import opened Attributes
  import opened Tagging
  import opened Snapshot

  /** The keys the classifier reads. */
  const FrontBackKeys: set<string> := {"penPair", "dependX", "dependY"}

  /** `_get_penpair_dict(contour)` of this file: the on-curve points of
      contour `c` grouped by pen-pair key, with no check of the group
      sizes. A point without a pen pair raises TypeError. */
  function LoosePenpairs(s: Glyph, t: Table, c: nat): (r: Result<Dict<seq<PointRef>>>)
    requires c < |s.contours|
    ensures r.Success? ==> DrawnFrom(r.value, OnCurveFrom(s, c, 0))
    ensures r.Success? <==> forall i :: 0 <= i < |s.contours[c]| && OnCurve(s.contours[c][i]) ==> PenKeyOf(t, PointRef(c, i)).Success?
  {
    var refs := OnCurveFrom(s, c, 0);
    GroupByPenSuccess(t, refs, []);
    assert forall i :: 0 <= i < |s.contours[c]| && OnCurve(s.contours[c][i]) ==> PointRef(c, i) in refs by {
      forall i | 0 <= i < |s.contours[c]| && OnCurve(s.contours[c][i]) ensures PointRef(c, i) in refs {
        assert ValidRef(s, PointRef(c, i));
      }
    }
    var d :- GroupByPen(t, refs, []);
    GroupByPenDrawn(t, refs, [], refs);
    Success(d)
  }

  /** The grouping holds exactly the on-curve points of the contour, each
      under its own pen-pair key. */
  lemma LoosePenpairsMembers(s: Glyph, t: Table, c: nat)
    requires c < |s.contours| && LoosePenpairs(s, t, c).Success?
    ensures forall k, q :: InGroup(LoosePenpairs(s, t, c).value, k, q) <==>
              ValidRef(s, q) && q.contour == c && OnCurve(At(s, q)) && PenKeyOf(t, q) == Success(k)
  {
    GroupByPenMembers(t, OnCurveFrom(s, c, 0), []);
  }

  /** Lines 27-28: two points, consecutive on the contour with no wrap-around,
      neither depending on another point nor inside another contour. */
  predicate Loose(s: Glyph, t: Table, inside: Containment, pair: seq<PointRef>)
    requires AllValid(s, pair)
  {
    |pair| == 2 && IndexDiff(pair[0].index, pair[1].index) == 1 && Free(s, t, AllContours(s), inside, pair)
  }

  /** The groups of `d` that pass the test of lines 27-28, in key order. */
  function LooseParts(s: Glyph, t: Table, inside: Containment, d: Dict<seq<PointRef>>): (ps: seq<seq<PointRef>>)
    requires forall e :: e in d ==> AllValid(s, e.1)
    ensures forall i :: 0 <= i < |ps| ==> |ps[i]| == 2 && AllValid(s, ps[i])
    ensures forall x :: x in ps <==> exists e :: e in d && e.1 == x && Loose(s, t, inside, e.1)
    decreases |d|
  {
    if |d| == 0 then []
    else
      var rest := LooseParts(s, t, inside, d[1..]);
      assert forall e :: e in d <==> e == d[0] || e in d[1..];
      if Loose(s, t, inside, d[0].1) then [d[0].1] + rest else rest
  }

  /** Lines 25-29 for one contour: its passing groups, in key order. */
  function ContourLoose(s: Glyph, t: Table, inside: Containment, c: nat): (r: Result<seq<seq<PointRef>>>)
    requires c < |s.contours|
    ensures r.Success? <==> LoosePenpairs(s, t, c).Success?
    ensures r.Success? ==> forall i :: 0 <= i < |r.value| ==> |r.value[i]| == 2 && AllValid(s, r.value[i])
    ensures r.Success? ==> forall x :: x in r.value <==>
              exists e :: e in LoosePenpairs(s, t, c).value && e.1 == x && AllValid(s, x) && Loose(s, t, inside, x)
  {
    var d :- LoosePenpairs(s, t, c);
    assert forall e :: e in d ==> AllValid(s, e.1) by {
      forall e | e in d ensures AllValid(s, e.1) {
        forall j | 0 <= j < |e.1| ensures ValidRef(s, e.1[j]) {
          assert e.1[j] in OnCurveFrom(s, c, 0);
        }
      }
    }
    Success(LooseParts(s, t, inside, d))
  }

  /** The passing groups of each of contours `cs`, in contour order. */
  function LooseOfEach(s: Glyph, t: Table, inside: Containment, cs: seq<nat>): (rs: seq<Result<seq<seq<PointRef>>>>)
    requires ContoursOf(s, cs)
    ensures |rs| == |cs| && forall i :: 0 <= i < |cs| ==> rs[i] == ContourLoose(s, t, inside, cs[i])
  {
    seq(|cs|, i requires 0 <= i < |cs| => ContourLoose(s, t, inside, cs[i]))
  }

  /** Lines 25-29 over contours `cs`: every passing group of every contour,
      in contour order, then key order. */
  function FrontCandidates(s: Glyph, t: Table, inside: Containment, cs: seq<nat>): (r: Result<seq<seq<PointRef>>>)
    requires ContoursOf(s, cs)
    ensures r.Success? ==> forall i :: 0 <= i < |r.value| ==> |r.value[i]| == 2 && AllValid(s, r.value[i])
  {
    var rs := LooseOfEach(s, t, inside, cs);
    var r := Flatten(rs);
    if r.Success? then
      FlattenMembers(rs);
      assert forall x :: x in r.value ==> |x| == 2 && AllValid(s, x) by {
        forall x | x in r.value ensures |x| == 2 && AllValid(s, x) {
          var i :| 0 <= i < |rs| && rs[i].Success? && x in rs[i].value;
        }
      }
      r
    else r
  }

  /** The scan succeeds exactly when every scanned contour has its pen
      pairs. */
  lemma FrontCandidatesSuccess(s: Glyph, t: Table, inside: Containment, cs: seq<nat>)
    requires ContoursOf(s, cs)
    ensures FrontCandidates(s, t, inside, cs).Success? <==> forall i :: 0 <= i < |cs| ==> ContourLoose(s, t, inside, cs[i]).Success?
  {
    FlattenSuccess(LooseOfEach(s, t, inside, cs));
  }

  /** A candidate is a passing group of one of the scanned contours, and
      every passing group is a candidate. */
  lemma FrontCandidatesMembers(s: Glyph, t: Table, inside: Containment, cs: seq<nat>)
    requires ContoursOf(s, cs) && FrontCandidates(s, t, inside, cs).Success?
    ensures forall i :: 0 <= i < |cs| ==> ContourLoose(s, t, inside, cs[i]).Success?
    ensures forall x :: x in FrontCandidates(s, t, inside, cs).value <==>
              exists i :: 0 <= i < |cs| && x in ContourLoose(s, t, inside, cs[i]).value
  {
    var rs := LooseOfEach(s, t, inside, cs);
    FlattenSuccess(rs);
    FlattenMembers(rs);
  }

  /** `_get_front_back(glyph.contours)`: a candidate pair of pen pairs when
      the whole glyph has exactly two, nothing otherwise. */
  function GetFrontBack(s: Glyph, t: Table, inside: Containment): (r: Result<Option<Candidate>>)
    ensures r.Success? <==> FrontCandidates(s, t, inside, AllContours(s)).Success?
    ensures r.Success? ==> (r.value.Some? <==> |FrontCandidates(s, t, inside, AllContours(s)).value| == 2)
    ensures r.Success? && r.value.Some? ==>
              var cands := FrontCandidates(s, t, inside, AllContours(s)).value;
              CandValid(s, r.value.value) && r.value.value == Candidate(cands[0], cands[1])
  {
    var cands :- FrontCandidates(s, t, inside, AllContours(s));
    if |cands| == 2 then Success(Some(Candidate(cands[0], cands[1]))) else Success(None)
  }

  /** Lines 49-55: the front points get `stroke=begin`, then the back points
      `stroke=end` (what they end up holding is `AddFrontBackValues`). */
  function FrontBackPlan(s: Glyph, x: Candidate): Plan
    requires CandValid(s, x)
  {
    [(Begin(s, x), "begin"), (End(s, x), "end")]
  }

  /** `add_front_back(glyph)`. An empty result tags nothing. */
  function AddFrontBack(g: Glyph, inside: Containment): (r: Result<Edit>)
    ensures r.Success? ==> Tagged(g, r.value.glyph, {"stroke"})
    ensures GetFrontBack(Strip(g), TableOf(g, FrontBackKeys), inside) == Success(None) ==> r == Success(Edit(g, 0))
  {
    var x :- GetFrontBack(Strip(g), TableOf(g, FrontBackKeys), inside);
    PlainWords();
    TaggedRefl(g, {"stroke"});
    if x.None? then Success(Edit(g, 0))
    else
      FrontBackPlanValid(g, x.value);
      TagPlan(g, "stroke", FrontBackPlan(Strip(g), x.value))
  }

  lemma FrontBackPlanValid(g: Glyph, x: Candidate)
    requires CandValid(Strip(g), x)
    ensures PlanValid(g, FrontBackPlan(Strip(g), x))
  {
    PlainWords();
  }

  /** After a run that found a pair, the front points hold `stroke` and so
      do the back points. */
  lemma AddFrontBackTags(g: Glyph, inside: Containment)
    requires AddFrontBack(g, inside).Success?
    requires GetFrontBack(Strip(g), TableOf(g, FrontBackKeys), inside).value.Some?
    ensures var x := GetFrontBack(Strip(g), TableOf(g, FrontBackKeys), inside).value.value;
      var h := AddFrontBack(g, inside).value.glyph;
      && AllValid(h, x.first) && AllValid(h, x.second)
      && (forall j :: 0 <= j < 2 ==> HoldsKey(At(h, x.first[j]), "stroke") && HoldsKey(At(h, x.second[j]), "stroke"))
  {
    var x := GetFrontBack(Strip(g), TableOf(g, FrontBackKeys), inside).value.value;
    var plan := FrontBackPlan(Strip(g), x);
    FrontBackPlanValid(g, x);
    PlainWords();
    TagPlanHolds(g, "stroke", plan);
    var h := AddFrontBack(g, inside).value.glyph;
    BeginEnd(Strip(g), x);
    assert plan[0].0 == Begin(Strip(g), x) && plan[1].0 == End(Strip(g), x);
    TaggedValid(g, h, {"stroke"}, x.first);
    TaggedValid(g, h, {"stroke"}, x.second);
  }

  /** After a run, a front point that lacked `stroke` holds `begin`, a back
      point that lacked it and is not also a front point holds `end`, and
      every other point reads under `stroke` as before. */
  lemma AddFrontBackValues(g: Glyph, inside: Containment, r: PointRef)
    requires AddFrontBack(g, inside).Success? && ValidRef(g, r)
    ensures GetFrontBack(Strip(g), TableOf(g, FrontBackKeys), inside).Success?
    ensures var h := AddFrontBack(g, inside).value.glyph;
      var x := GetFrontBack(Strip(g), TableOf(g, FrontBackKeys), inside).value;
      var before := GetAttr(At(g, r), "stroke");
      && ValidRef(h, r)
      && GetAttr(At(h, r), "stroke") ==
           if x.Some? && r in Begin(Strip(g), x.value) then AddedValue(before, true, "begin")
           else if x.Some? && r in End(Strip(g), x.value) then AddedValue(before, true, "end")
           else before
  {
    var x := GetFrontBack(Strip(g), TableOf(g, FrontBackKeys), inside).value;
    if x.Some? {
      var plan := FrontBackPlan(Strip(g), x.value);
      FrontBackPlanValid(g, x.value);
      PlainWords();
      TagPlanValue(g, "stroke", plan, r);
      FrontBackFirst(Strip(g), x.value, r);
    }
  }

  lemma FrontBackFirst(s: Glyph, x: Candidate, r: PointRef)
    requires CandValid(s, x)
    ensures FirstValue(FrontBackPlan(s, x), r) ==
      if r in Begin(s, x) then Some("begin") else if r in End(s, x) then Some("end") else None
  {
    var plan := FrontBackPlan(s, x);
    assert plan[1..][0] == plan[1];
  }

  lemma FrontBackKeysUnwritten()
    ensures FrontBackKeys !! {"stroke"}
  {
    var w := "stroke";
    assert |w| == 6 && w[0] == 's';
  }

  /** A second run finds the same pair, already tagged, and changes
      nothing. */
  lemma AddFrontBackIdempotent(g: Glyph, inside: Containment)
    requires AddFrontBack(g, inside).Success?
    ensures var h := AddFrontBack(g, inside).value.glyph;
      AddFrontBack(h, inside) == Success(Edit(h, 0))
  {
    var h := AddFrontBack(g, inside).value.glyph;
    PlainWords();
    FrontBackKeysUnwritten();
    TaggedSnapshot(g, h, {"stroke"}, FrontBackKeys);
    var x := GetFrontBack(Strip(g), TableOf(g, FrontBackKeys), inside).value;
    if x.Some? {
      FrontBackPlanValid(g, x.value);
      TagPlanIdempotent(g, "stroke", FrontBackPlan(Strip(g), x.value));
    }
  }

  /** `is_front_back(glyph)`: every glyph but those named `uni...`. */
  predicate IsFrontBack(g: Glyph) {
    !StartsWith(g.name, "uni")
  }

  /** The test looks at the first three letters of the name. */
  lemma IsFrontBackName(g: Glyph)
    ensures IsFrontBack(g) <==> !(|g.name| >= 3 && g.name[0] == 'u' && g.name[1] == 'n' && g.name[2] == 'i')
  {
  }
}
