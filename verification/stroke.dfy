/** `attributing/stroke.py`: marks the two ends of a stroke. A contour drawn
    as one stroke has two pen pairs whose points are neighbours on the
    contour; the pair drawn higher gets `stroke=begin`, the other
    `stroke=end`. Glyphs whose contours carry a `double` key are split into
    groups first, depending on the syllable position and jamo of the last
    contour. */
module Stroke {
  import opened Wrappers
  import opened Text
  import opened ODict
  import opened Codec
  import opened Outline
  import opened Attributes
  import opened Tagging
  import opened Snapshot

  /** The keys the classifier reads. */
  const StrokeKeys: set<string> := {"penPair", "dependX", "dependY", "double", "char", "sound"}

  // ---------------------------------------------------------------------------
  // Pen pairs of one contour

  /** `_get_penpair_dict(contour)`: the on-curve points of contour `c`
      grouped by pen-pair key, and PairError unless every group is a pair.
      A point without a pen pair raises TypeError, which is not caught. */
  function ContourPenpairs(s: Glyph, t: Table, c: nat): (r: Result<Dict<seq<PointRef>>>)
    requires c < |s.contours|
    ensures r.Success? ==> forall e :: e in r.value ==> |e.1| == 2
    ensures r.Success? ==> DrawnFrom(r.value, OnCurveFrom(s, c, 0))
  {
    var refs := OnCurveFrom(s, c, 0);
    var d :- GroupByPen(t, refs, []);
    if forall e :: e in d ==> |e.1| == 2 then
      GroupByPenDrawn(t, refs, [], refs);
      Success(d)
    else Failure(PairError)
  }

  /** The grouping keeps exactly the on-curve points of the contour, each
      under its own pen-pair key. */
  lemma ContourPenpairsMembers(s: Glyph, t: Table, c: nat)
    requires c < |s.contours| && ContourPenpairs(s, t, c).Success?
    ensures forall k, q :: InGroup(ContourPenpairs(s, t, c).value, k, q) <==>
              ValidRef(s, q) && q.contour == c && OnCurve(At(s, q)) && PenKeyOf(t, q) == Success(k)
  {
    GroupByPenMembers(t, OnCurveFrom(s, c, 0), []);
  }

  /** A contour fails with PairError exactly when every on-curve point has
      a pen pair but some pen pair does not have two points; any other
      failure is the error of a point without a pen pair. */
  lemma ContourPenpairsErrors(s: Glyph, t: Table, c: nat)
    requires c < |s.contours|
    ensures var refs := OnCurveFrom(s, c, 0);
      var ok := forall i :: 0 <= i < |s.contours[c]| && OnCurve(s.contours[c][i]) ==> PenKeyOf(t, PointRef(c, i)).Success?;
      && (ok ==> GroupByPen(t, refs, []).Success? &&
                 (ContourPenpairs(s, t, c) == Failure(PairError) <==> exists e :: e in GroupByPen(t, refs, []).value && |e.1| != 2))
      && (!ok ==> ContourPenpairs(s, t, c).Failure? &&
                  exists i :: 0 <= i < |s.contours[c]| && OnCurve(s.contours[c][i]) &&
                    PenKeyOf(t, PointRef(c, i)) == Failure(ContourPenpairs(s, t, c).error))
  {
    var refs := OnCurveFrom(s, c, 0);
    GroupByPenSuccess(t, refs, []);
    forall i | 0 <= i < |s.contours[c]| && OnCurve(s.contours[c][i]) ensures PointRef(c, i) in refs {
      assert ValidRef(s, PointRef(c, i));
    }
    if GroupByPen(t, refs, []).Failure? {
      GroupByPenFirstError(t, refs, []);
    }
  }

  // ---------------------------------------------------------------------------
  // Candidates

  /** A pen pair whose two points are neighbours on a contour of `n` points:
      index difference 1, or `n - 1` for the last and first points. */
  predicate Neighbours(n: nat, pair: seq<PointRef>) {
    |pair| == 2 && (IndexDiff(pair[0].index, pair[1].index) == 1 || IndexDiff(pair[0].index, pair[1].index) == n - 1)
  }

  /** The stroke parts of lines 39-43: the groups whose points are
      neighbours, in key order. */
  function StrokeParts(n: nat, d: Dict<seq<PointRef>>): (parts: seq<seq<PointRef>>)
    ensures forall x :: x in parts <==> Neighbours(n, x) && exists e :: e in d && e.1 == x
    decreases |d|
  {
    if |d| == 0 then []
    else
      var rest := StrokeParts(n, d[1..]);
      assert forall e :: e in d <==> e == d[0] || e in d[1..];
      if Neighbours(n, d[0].1) then [d[0].1] + rest else rest
  }

  /** Lines 35-45 for one contour: PairError skips it, exactly two stroke
      parts make a candidate, any other error propagates. */
  function ContourCandidate(s: Glyph, t: Table, c: nat): (r: Result<Option<Candidate>>)
    requires c < |s.contours|
    ensures r.Success? && r.value.Some? ==> CandValid(s, r.value.value)
    ensures ContourPenpairs(s, t, c) == Failure(PairError) ==> r == Success(None)
    ensures r.Failure? ==> ContourPenpairs(s, t, c) == Failure(r.error) && r.error != PairError
  {
    match ContourPenpairs(s, t, c)
    case Failure(e) => if e == PairError then Success(None) else Failure(e)
    case Success(d) =>
      var parts := StrokeParts(|s.contours[c]|, d);
      if |parts| == 2 then
        assert parts[0] in parts && parts[1] in parts;
        Success(Some(Candidate(parts[0], parts[1])))
      else Success(None)
  }

  /** Exactly two stroke parts are two neighbouring groups, and no other
      group is neighbouring. */
  lemma TwoParts(n: nat, d: Dict<seq<PointRef>>)
    requires |StrokeParts(n, d)| == 2
    ensures var parts := StrokeParts(n, d);
      && Neighbours(n, parts[0]) && Neighbours(n, parts[1])
      && (exists e :: e in d && e.1 == parts[0]) && (exists e :: e in d && e.1 == parts[1])
      && forall e :: e in d && Neighbours(n, e.1) ==> e.1 == parts[0] || e.1 == parts[1]
  {
    var parts := StrokeParts(n, d);
    assert parts[0] in parts && parts[1] in parts;
    forall e | e in d && Neighbours(n, e.1) ensures e.1 == parts[0] || e.1 == parts[1] {
      assert e.1 in parts;
    }
  }

  /** A candidate is made of two neighbouring pen pairs of the contour, and
      no other pen pair of the contour is neighbouring. */
  lemma ContourCandidateParts(s: Glyph, t: Table, c: nat)
    requires c < |s.contours| && ContourCandidate(s, t, c).Success? && ContourCandidate(s, t, c).value.Some?
    ensures ContourPenpairs(s, t, c).Success?
    ensures var x := ContourCandidate(s, t, c).value.value;
      var d := ContourPenpairs(s, t, c).value;
      var n := |s.contours[c]|;
      && Neighbours(n, x.first) && Neighbours(n, x.second)
      && (exists e :: e in d && e.1 == x.first) && (exists e :: e in d && e.1 == x.second)
      && forall e :: e in d && Neighbours(n, e.1) ==> e.1 == x.first || e.1 == x.second
  {
    var d := ContourPenpairs(s, t, c).value;
    var parts := StrokeParts(|s.contours[c]|, d);
    assert ContourCandidate(s, t, c).value.value == Candidate(parts[0], parts[1]);
    TwoParts(|s.contours[c]|, d);
  }

  /** The candidates of contours `cs`, in contour order; the first error
      that is not PairError stops the scan. */
  function Candidates(s: Glyph, t: Table, cs: seq<nat>): (r: Result<seq<Candidate>>)
    requires ContoursOf(s, cs)
    ensures r.Success? ==> forall i :: 0 <= i < |r.value| ==> CandValid(s, r.value[i])
    decreases |cs|
  {
    if |cs| == 0 then Success([])
    else
      var x :- ContourCandidate(s, t, cs[0]);
      var rest :- Candidates(s, t, cs[1..]);
      Success(if x.Some? then [x.value] + rest else rest)
  }

  /** The candidates are exactly those of the contours that have one. */
  lemma {:induction false} CandidatesMembers(s: Glyph, t: Table, cs: seq<nat>)
    requires ContoursOf(s, cs) && Candidates(s, t, cs).Success?
    ensures forall x :: x in Candidates(s, t, cs).value <==>
              exists i :: 0 <= i < |cs| && ContourCandidate(s, t, cs[i]) == Success(Some(x))
    decreases |cs|
  {
    if |cs| > 0 {
      CandidatesMembers(s, t, cs[1..]);
      assert forall i :: 0 < i < |cs| ==> cs[i] == cs[1..][i - 1];
    }
  }

  // ---------------------------------------------------------------------------
  // Begin and end

  /** `stroke_dict`: the points to tag `begin` and those to tag `end`. */
  datatype StrokeDict = StrokeDict(begin: seq<PointRef>, end: seq<PointRef>)

  /** Every point of the dictionaries is a point of `s`. */
  predicate SetsValid(s: Glyph, sets: seq<StrokeDict>) {
    forall i :: 0 <= i < |sets| ==> AllValid(s, sets[i].begin) && AllValid(s, sets[i].end)
  }

  /** The beginning part when `begin` is set, the ending part otherwise. */
  function Side(s: Glyph, x: Candidate, begin: bool): (p: seq<PointRef>)
    requires CandValid(s, x)
    ensures |p| == 2 && AllValid(s, p)
  {
    if begin then Begin(s, x) else End(s, x)
  }

  /** Lines 46-57 for one side: each candidate gives that side's part,
      where the part is free, in candidate order. */
  function Chosen(s: Glyph, t: Table, cs: seq<nat>, inside: Containment, cands: seq<Candidate>, begin: bool): (ps: seq<PointRef>)
    requires forall i :: 0 <= i < |cands| ==> CandValid(s, cands[i])
    ensures AllValid(s, ps)
    decreases |cands|
  {
    if |cands| == 0 then []
    else
      var part := Side(s, cands[0], begin);
      (if Free(s, t, cs, inside, part) then part else []) + Chosen(s, t, cs, inside, cands[1..], begin)
  }

  /** Candidate `x` puts `r` on the given side: `r` is in that side's part
      and the part is free. */
  predicate Picks(s: Glyph, t: Table, cs: seq<nat>, inside: Containment, x: Candidate, begin: bool, r: PointRef)
    requires CandValid(s, x)
  {
    r in Side(s, x, begin) && Free(s, t, cs, inside, Side(s, x, begin))
  }

  /** A point is chosen exactly when it is in that side's part of a
      candidate and the part is free. */
  lemma {:induction false} ChosenMembers(s: Glyph, t: Table, cs: seq<nat>, inside: Containment, cands: seq<Candidate>, begin: bool)
    requires forall i :: 0 <= i < |cands| ==> CandValid(s, cands[i])
    ensures forall r :: r in Chosen(s, t, cs, inside, cands, begin) <==>
              exists i :: 0 <= i < |cands| && Picks(s, t, cs, inside, cands[i], begin, r)
    decreases |cands|
  {
    if |cands| > 0 {
      var rest := cands[1..];
      ChosenMembers(s, t, cs, inside, rest, begin);
      var part := Side(s, cands[0], begin);
      var head := if Free(s, t, cs, inside, part) then part else [];
      var all := Chosen(s, t, cs, inside, cands, begin);
      var tail := Chosen(s, t, cs, inside, rest, begin);
      assert all == head + tail;
      forall r ensures r in all <==> exists i :: 0 <= i < |cands| && Picks(s, t, cs, inside, cands[i], begin, r)
      {
        if r in tail {
          var i :| 0 <= i < |rest| && Picks(s, t, cs, inside, rest[i], begin, r);
          assert rest[i] == cands[i + 1];
        }
        if r in head {
          assert Picks(s, t, cs, inside, cands[0], begin, r);
        }
        if exists i :: 0 <= i < |cands| && Picks(s, t, cs, inside, cands[i], begin, r) {
          var i :| 0 <= i < |cands| && Picks(s, t, cs, inside, cands[i], begin, r);
          if i > 0 {
            assert cands[i] == rest[i - 1];
          }
        }
      }
    }
  }

  /** Lines 46-57: the points to begin strokes and those to end them. */
  function StrokeDictOf(s: Glyph, t: Table, cs: seq<nat>, inside: Containment, cands: seq<Candidate>): (sd: StrokeDict)
    requires forall i :: 0 <= i < |cands| ==> CandValid(s, cands[i])
    ensures AllValid(s, sd.begin) && AllValid(s, sd.end)
  {
    StrokeDict(Chosen(s, t, cs, inside, cands, true), Chosen(s, t, cs, inside, cands, false))
  }

  /** `_get_stroke_dict(contours)`. */
  function GetStrokeDict(s: Glyph, t: Table, cs: seq<nat>, inside: Containment): (r: Result<StrokeDict>)
    requires ContoursOf(s, cs)
    ensures r.Success? ==> SetsValid(s, [r.value])
  {
    var cands :- Candidates(s, t, cs);
    Success(StrokeDictOf(s, t, cs, inside, cands))
  }

  // ---------------------------------------------------------------------------
  // Grouping by `double`

  /** The `double` value of contour `c`'s first point. */
  function DoubleOf(t: Table, c: nat): Result<Option<string>> {
    Read(t, PointRef(c, 0), "double")
  }

  /** Lines 62-68 from contour `c` on: each contour whose first point has a
      `double` value joins the group of that value. An empty contour raises
      IndexError. */
  function ClassifyFrom(s: Glyph, t: Table, c: nat, acc: Dict<seq<nat>>): Result<Dict<seq<nat>>>
    requires c <= |s.contours|
    decreases |s.contours| - c
  {
    if c == |s.contours| then Success(acc)
    else if |s.contours[c]| == 0 then Failure(IndexError)
    else
      var double :- DoubleOf(t, c);
      ClassifyFrom(s, t, c + 1, if double.Some? then Group(acc, double.value, c) else acc)
  }

  /** Every contour listed in `d` is a contour of `s`. */
  predicate GroupsOf(s: Glyph, d: Dict<seq<nat>>) {
    forall e :: e in d ==> ContoursOf(s, e.1)
  }

  lemma GroupKeepsBound(s: Glyph, acc: Dict<seq<nat>>, k: string, c: nat)
    requires GroupsOf(s, acc) && c < |s.contours|
    ensures GroupsOf(s, Group(acc, k, c))
  {
    var prior := match Get(acc, k) case Some(xs) => xs case None => [];
    PutEntries(acc, k, prior + [c]);
    if Get(acc, k).Some? {
      assert (k, prior) in acc;
    }
    assert ContoursOf(s, prior + [c]);
  }

  lemma {:induction false} ClassifyFromBound(s: Glyph, t: Table, c: nat, acc: Dict<seq<nat>>)
    requires c <= |s.contours| && ClassifyFrom(s, t, c, acc).Success? && GroupsOf(s, acc)
    ensures GroupsOf(s, ClassifyFrom(s, t, c, acc).value)
    decreases |s.contours| - c
  {
    if c < |s.contours| {
      assert |s.contours[c]| > 0 && DoubleOf(t, c).Success?;
      var double := DoubleOf(t, c).value;
      if double.Some? {
        var acc' := Group(acc, double.value, c);
        assert ClassifyFrom(s, t, c, acc) == ClassifyFrom(s, t, c + 1, acc');
        GroupKeepsBound(s, acc, double.value, c);
        ClassifyFromBound(s, t, c + 1, acc');
      } else {
        assert ClassifyFrom(s, t, c, acc) == ClassifyFrom(s, t, c + 1, acc);
        ClassifyFromBound(s, t, c + 1, acc);
      }
    }
  }

  lemma {:induction false} ClassifyFromMembers(s: Glyph, t: Table, c: nat, acc: Dict<seq<nat>>)
    requires c <= |s.contours| && ClassifyFrom(s, t, c, acc).Success?
    ensures forall k, x: nat :: InGroup(ClassifyFrom(s, t, c, acc).value, k, x) <==>
              InGroup(acc, k, x) || (c <= x < |s.contours| && DoubleOf(t, x) == Success(Some(k)))
    decreases |s.contours| - c
  {
    if c < |s.contours| {
      var double := DoubleOf(t, c).value;
      var acc' := if double.Some? then Group(acc, double.value, c) else acc;
      if double.Some? {
        GroupMembers(acc, double.value, c);
      }
      ClassifyFromMembers(s, t, c + 1, acc');
      var d := ClassifyFrom(s, t, c + 1, acc').value;
      assert ClassifyFrom(s, t, c, acc) == Success(d);
      forall k, x: nat ensures InGroup(d, k, x) <==> InGroup(acc, k, x) || (c <= x < |s.contours| && DoubleOf(t, x) == Success(Some(k)))
      {
        assert InGroup(d, k, x) <==> InGroup(acc', k, x) || (c + 1 <= x < |s.contours| && DoubleOf(t, x) == Success(Some(k)));
        assert InGroup(acc', k, x) <==> InGroup(acc, k, x) || (x == c && DoubleOf(t, x) == Success(Some(k)));
      }
    }
  }

  lemma {:induction false} ClassifyFromUnique(s: Glyph, t: Table, c: nat, acc: Dict<seq<nat>>)
    requires c <= |s.contours| && ClassifyFrom(s, t, c, acc).Success? && UniqueKeys(acc)
    ensures UniqueKeys(ClassifyFrom(s, t, c, acc).value)
    decreases |s.contours| - c
  {
    if c < |s.contours| {
      var double := DoubleOf(t, c).value;
      if double.Some? {
        var prior := match Get(acc, double.value) case Some(xs) => xs case None => [];
        PutUnique(acc, double.value, prior + [c]);
      }
      ClassifyFromUnique(s, t, c + 1, if double.Some? then Group(acc, double.value, c) else acc);
    }
  }

  /** `_classify_contours(glyph)`: the groups, in order of first appearance. */
  function ClassifyContours(s: Glyph, t: Table): (r: Result<seq<seq<nat>>>)
    ensures r.Success? ==> forall i :: 0 <= i < |r.value| ==> ContoursOf(s, r.value[i])
  {
    var d :- ClassifyFrom(s, t, 0, []);
    ClassifyFromBound(s, t, 0, []);
    assert forall i :: 0 <= i < |d| ==> d[i] in d;
    Success(Values(d))
  }

  /** A contour in group `i` has the `double` value that keys the group. */
  lemma ClassifiedHasDouble(s: Glyph, t: Table, i: nat, x: nat)
    requires ClassifyFrom(s, t, 0, []).Success?
    requires i < |ClassifyFrom(s, t, 0, []).value| && x in ClassifyFrom(s, t, 0, []).value[i].1
    ensures x < |s.contours| && DoubleOf(t, x) == Success(Some(ClassifyFrom(s, t, 0, []).value[i].0))
  {
    var d := ClassifyFrom(s, t, 0, []).value;
    ClassifyFromMembers(s, t, 0, []);
    ClassifyFromUnique(s, t, 0, []);
    assert Get(d, d[i].0) == Some(d[i].1);
    assert InGroup(d, d[i].0, x);
    assert !InGroup([], d[i].0, x);
  }

  /** A contour with a `double` value is in the group keyed by it. */
  lemma DoubleIsClassified(s: Glyph, t: Table, x: nat)
    requires ClassifyFrom(s, t, 0, []).Success?
    requires x < |s.contours| && DoubleOf(t, x).Success? && DoubleOf(t, x).value.Some?
    ensures exists i :: 0 <= i < |ClassifyFrom(s, t, 0, []).value| && x in ClassifyFrom(s, t, 0, []).value[i].1
  {
    var d := ClassifyFrom(s, t, 0, []).value;
    var k := DoubleOf(t, x).value.value;
    ClassifyFromMembers(s, t, 0, []);
    assert InGroup(d, k, x);
    var i :| 0 <= i < |d| && d[i] == (k, Get(d, k).value);
  }

  /** A contour is in some group exactly when its first point has a
      `double` value, and the contours of one group share that value. */
  lemma ClassifyContoursGroups(s: Glyph, t: Table)
    requires ClassifyContours(s, t).Success?
    ensures var groups := ClassifyContours(s, t).value;
      && (forall x: nat :: (exists i :: 0 <= i < |groups| && x in groups[i]) <==>
            x < |s.contours| && DoubleOf(t, x).Success? && DoubleOf(t, x).value.Some?)
      && (forall i, x, y :: 0 <= i < |groups| && x in groups[i] && y in groups[i] ==> DoubleOf(t, x) == DoubleOf(t, y))
  {
    var d := ClassifyFrom(s, t, 0, []).value;
    var groups := ClassifyContours(s, t).value;
    assert groups == Values(d);
    forall i, x | 0 <= i < |groups| && x in groups[i]
      ensures x < |s.contours| && DoubleOf(t, x) == Success(Some(d[i].0))
    {
      ClassifiedHasDouble(s, t, i, x);
    }
    forall x: nat | x < |s.contours| && DoubleOf(t, x).Success? && DoubleOf(t, x).value.Some?
      ensures exists i :: 0 <= i < |groups| && x in groups[i]
    {
      DoubleIsClassified(s, t, x);
    }
  }

  // ---------------------------------------------------------------------------
  // Choosing the groups

  /** Lines 90-91: a first consonant ㄱ or ㄷ (jamo 1 or 4), or a final
      consonant among jamo 2, 3, 5, 6, 9 to 15 and 18, is drawn as separate
      strokes grouped by `double`. */
  predicate SplitsByDouble(sound: Option<string>, ch: int) {
    || (sound == Some("first") && (ch == 1 || ch == 4))
    || (sound == Some("final") && (ch == 2 || ch == 3 || ch == 5 || ch == 6 || 9 <= ch <= 15 || ch == 18))
  }

  /** Lines 87-91 for contour `c`: IndexError for an empty contour,
      TypeError when its first point has no `char`, ValueError when the
      `char` is not an integer. */
  function ContourBranch(s: Glyph, t: Table, c: nat): (r: Result<bool>)
    requires c < |s.contours|
  {
    if |s.contours[c]| == 0 then Failure(IndexError)
    else
      var ch :- Read(t, PointRef(c, 0), "char");
      var sound :- Read(t, PointRef(c, 0), "sound");
      if ch.None? then Failure(TypeError)
      else match ParseInt(ch.value)
        case None => Failure(ValueError)
        case Some(n) => Success(SplitsByDouble(sound, n))
  }

  /** Line 93: a stroke dictionary per group, in group order. */
  function GroupDicts(s: Glyph, t: Table, groups: seq<seq<nat>>, inside: Containment): (r: Result<seq<StrokeDict>>)
    requires forall i :: 0 <= i < |groups| ==> ContoursOf(s, groups[i])
    ensures r.Success? ==> |r.value| == |groups| && SetsValid(s, r.value)
    decreases |groups|
  {
    if |groups| == 0 then Success([])
    else
      var sd :- GetStrokeDict(s, t, groups[0], inside);
      var rest :- GroupDicts(s, t, groups[1..], inside);
      Success([sd] + rest)
  }

  /** `contour_set` for one choice: per group, or the whole glyph at once. */
  function StrokeSets(s: Glyph, t: Table, byDouble: bool, inside: Containment): (r: Result<seq<StrokeDict>>)
    ensures r.Success? ==> SetsValid(s, r.value)
  {
    if byDouble then
      var groups :- ClassifyContours(s, t);
      GroupDicts(s, t, groups, inside)
    else
      var sd :- GetStrokeDict(s, t, AllContours(s), inside);
      Success([sd])
  }

  /** Lines 86-95 from contour `c` on: every contour chooses and computes
      `contour_set` again, so any error stops the loop and otherwise the
      last contour's choice stands. */
  function DoubleSets(s: Glyph, t: Table, c: nat, inside: Containment, sets: seq<StrokeDict>): (r: Result<seq<StrokeDict>>)
    requires c <= |s.contours| && SetsValid(s, sets)
    ensures r.Success? ==> SetsValid(s, r.value)
    decreases |s.contours| - c
  {
    if c == |s.contours| then Success(sets)
    else
      var byDouble :- ContourBranch(s, t, c);
      var next :- StrokeSets(s, t, byDouble, inside);
      DoubleSets(s, t, c + 1, inside, next)
  }

  /** Only the last contour's choice counts, and every contour's choice
      had to succeed. */
  lemma {:induction false} DoubleSetsLast(s: Glyph, t: Table, c: nat, inside: Containment, sets: seq<StrokeDict>)
    requires c < |s.contours| && SetsValid(s, sets) && DoubleSets(s, t, c, inside, sets).Success?
    ensures forall j :: c <= j < |s.contours| ==>
              ContourBranch(s, t, j).Success? && StrokeSets(s, t, ContourBranch(s, t, j).value, inside).Success?
    ensures var last := |s.contours| - 1;
      DoubleSets(s, t, c, inside, sets) == StrokeSets(s, t, ContourBranch(s, t, last).value, inside)
    decreases |s.contours| - c
  {
    var next := StrokeSets(s, t, ContourBranch(s, t, c).value, inside).value;
    if c + 1 < |s.contours| {
      DoubleSetsLast(s, t, c + 1, inside, next);
    }
  }

  /** Lines 84-97: `contour_set`. IndexError when the glyph has no contour
      or its first contour no point. */
  function StrokeSetsOf(s: Glyph, t: Table, inside: Containment): (r: Result<seq<StrokeDict>>)
    ensures r.Success? ==> SetsValid(s, r.value)
  {
    if |s.contours| == 0 || |s.contours[0]| == 0 then Failure(IndexError)
    else
      var double :- DoubleOf(t, 0);
      if double.Some? then DoubleSets(s, t, 0, inside, []) else StrokeSets(s, t, false, inside)
  }

  /** The glyph is split by `double` exactly when its first point has a
      `double` value and the last contour's syllable asks for it. */
  lemma StrokeSetsOfChoice(s: Glyph, t: Table, inside: Containment)
    requires StrokeSetsOf(s, t, inside).Success?
    ensures |s.contours| > 0 && DoubleOf(t, 0).Success?
    ensures var last := |s.contours| - 1;
      if DoubleOf(t, 0).value.Some? then
        ContourBranch(s, t, last).Success? &&
        StrokeSetsOf(s, t, inside) == StrokeSets(s, t, ContourBranch(s, t, last).value, inside)
      else StrokeSetsOf(s, t, inside) == StrokeSets(s, t, false, inside)
  {
    if DoubleOf(t, 0).value.Some? {
      DoubleSetsLast(s, t, 0, inside, []);
    }
  }

  // ---------------------------------------------------------------------------
  // Tagging

  /** Lines 98-102: for each dictionary, its `begin` points then its `end`
      points. A dictionary always has both keys, so `if stroke_dict` always
      holds. */
  function StrokePlan(sets: seq<StrokeDict>): (plan: Plan)
    ensures |plan| == 2 * |sets|
    ensures forall i :: 0 <= i < |sets| ==> plan[2 * i] == (sets[i].begin, "begin") && plan[2 * i + 1] == (sets[i].end, "end")
    decreases |sets|
  {
    if |sets| == 0 then []
    else
      var rest := StrokePlan(sets[1..]);
      assert forall i :: 1 <= i < |sets| ==> sets[i] == sets[1..][i - 1];
      [(sets[0].begin, "begin"), (sets[0].end, "end")] + rest
  }

  /** The classifier does not read the key it writes. */
  lemma StrokeKeysUnwritten()
    ensures StrokeKeys !! {"stroke"}
  {
    var w := "stroke";
    assert |w| == 6 && w[0] == 's';
    assert "double"[0] == 'd';
  }

  lemma StrokePlanValid(g: Glyph, sets: seq<StrokeDict>)
    requires SetsValid(Strip(g), sets)
    ensures PlanValid(g, StrokePlan(sets))
  {
    var plan := StrokePlan(sets);
    PlainWords();
    forall j | 0 <= j < |plan| ensures AllValid(g, plan[j].0) && Plain(plan[j].1) {
      var i := j / 2;
      assert AllValid(Strip(g), sets[i].begin) && AllValid(Strip(g), sets[i].end);
      StripValid(g, sets[i].begin);
      StripValid(g, sets[i].end);
      if j == 2 * i {
        assert plan[j] == (sets[i].begin, "begin");
      } else {
        assert j == 2 * i + 1;
        assert plan[j] == (sets[i].end, "end");
      }
    }
  }

  /** `add_stroke_attr(glyph)`: decide, then add `stroke` to the chosen
      points with `add_attr`. */
  function AddStrokeAttr(g: Glyph, inside: Containment): (r: Result<Edit>)
    ensures r.Success? ==> Tagged(g, r.value.glyph, {"stroke"})
  {
    var sets :- StrokeSetsOf(Strip(g), TableOf(g, StrokeKeys), inside);
    StrokePlanValid(g, sets);
    PlainWords();
    TagPlan(g, "stroke", StrokePlan(sets))
  }

  /** The stroke value the dictionaries give `r`: `begin` or `end` after the
      first dictionary part that lists it. */
  function StrokeValue(sets: seq<StrokeDict>, r: PointRef): Option<string>
    decreases |sets|
  {
    if |sets| == 0 then None
    else if r in sets[0].begin then Some("begin")
    else if r in sets[0].end then Some("end")
    else StrokeValue(sets[1..], r)
  }

  /** The plan gives each point the value of the first part listing it. */
  lemma {:induction false} StrokeFirst(sets: seq<StrokeDict>, r: PointRef)
    ensures FirstValue(StrokePlan(sets), r) == StrokeValue(sets, r)
    decreases |sets|
  {
    if |sets| > 0 {
      var plan := StrokePlan(sets);
      assert plan[1..][1..] == StrokePlan(sets[1..]);
      assert plan[1..][0] == plan[1];
      StrokeFirst(sets[1..], r);
    }
  }

  /** After a run, a point that lacked `stroke` holds `begin` or `end` as the
      first dictionary part listing it is a begin or an end part; every
      other point reads under `stroke` as before. */
  lemma AddStrokeAttrValues(g: Glyph, inside: Containment, r: PointRef)
    requires AddStrokeAttr(g, inside).Success? && ValidRef(g, r)
    ensures StrokeSetsOf(Strip(g), TableOf(g, StrokeKeys), inside).Success?
    ensures var sets := StrokeSetsOf(Strip(g), TableOf(g, StrokeKeys), inside).value;
      var h := AddStrokeAttr(g, inside).value.glyph;
      var before := GetAttr(At(g, r), "stroke");
      && ValidRef(h, r)
      && GetAttr(At(h, r), "stroke") ==
           match StrokeValue(sets, r)
           case None => before
           case Some(w) => AddedValue(before, true, w)
  {
    var sets := StrokeSetsOf(Strip(g), TableOf(g, StrokeKeys), inside).value;
    StrokePlanValid(g, sets);
    PlainWords();
    StrokeFirst(sets, r);
    TagPlanValue(g, "stroke", StrokePlan(sets), r);
  }

  /** A second run finds the same points, all already tagged, and changes
      nothing. */
  lemma AddStrokeAttrIdempotent(g: Glyph, inside: Containment)
    requires AddStrokeAttr(g, inside).Success?
    ensures var h := AddStrokeAttr(g, inside).value.glyph;
      AddStrokeAttr(h, inside) == Success(Edit(h, 0))
  {
    var h := AddStrokeAttr(g, inside).value.glyph;
    var sets := StrokeSetsOf(Strip(g), TableOf(g, StrokeKeys), inside).value;
    StrokePlanValid(g, sets);
    PlainWords();
    StrokeKeysUnwritten();
    TaggedSnapshot(g, h, {"stroke"}, StrokeKeys);
    TagPlanIdempotent(g, "stroke", StrokePlan(sets));
  }
}
