/** Inserting a point into a line or cubic segment of a contour: the segment
    is split by the font library (a parameter here: only the pieces it
    returns matter), the segment ending at the given end point is found by
    position, the first piece is spliced in before it, and the editor rounds
    every coordinate of the contour (its rounding rule is a parameter).

    A contour is seen here as the editor presents it to these functions: a
    sequence of segments, each ending at its on-curve point and carrying the
    off-curve points before it. The current version raises on failure; the
    older one returns 1 for success and -1 for failure. */
module Append {
  import opened Wrappers
  import opened Outline

  type Pos = (real, real)

  datatype Segment = Segment(kind: PointType, offCurve: seq<Pos>, onCurve: Pos)

  type SegContour = seq<Segment>

  /** A cubic piece: start, two controls, end. */
  datatype Cubic = Cubic(p0: Pos, p1: Pos, p2: Pos, p3: Pos)

  /** A line piece: start and end. */
  datatype LinePiece = LinePiece(a: Pos, b: Pos)

  // ---------------------------------------------------------------------------
  // Finding the segment

  /** `_segment_index_of(contour, rpoint)`: the first segment whose on-curve
      point has the position of `p`, or None. */
  function SegmentIndexOf(c: SegContour, p: Pos): (r: Option<nat>)
    ensures r.Some? ==> r.value < |c| && c[r.value].onCurve == p
    ensures r.Some? ==> forall j :: 0 <= j < r.value ==> c[j].onCurve != p
    ensures r.None? <==> forall j :: 0 <= j < |c| ==> c[j].onCurve != p
  {
    if |c| == 0 then None
    else if c[0].onCurve.0 == p.0 && c[0].onCurve.1 == p.1 then Some(0)
    else match SegmentIndexOf(c[1..], p)
      case None => None
      case Some(i) => Some(i + 1)
  }

  /** The older `_segment_index_of`, with -1 for no match. */
  function LegacySegmentIndexOf(c: SegContour, p: Pos): (r: int)
    ensures r == -1 <==> SegmentIndexOf(c, p).None?
    ensures r != -1 ==> r == SegmentIndexOf(c, p).value as int
  {
    match SegmentIndexOf(c, p)
    case None => -1
    case Some(i) => i
  }

  /** `contour.insertSegment(index, type, points)`: the new segment takes
      position `i`; the off-curve points are all but the last of `points`. */
  function InsertSegment(c: SegContour, i: nat, kind: PointType, points: seq<Pos>): (r: SegContour)
    requires i <= |c| && |points| > 0
    ensures |r| == |c| + 1
    ensures r[i] == Segment(kind, points[..|points| - 1], points[|points| - 1])
    ensures r[..i] == c[..i] && r[i + 1..] == c[i..]
  {
    c[..i] + [Segment(kind, points[..|points| - 1], points[|points| - 1])] + c[i..]
  }

  /** `contour.round()`: the editor rounds every coordinate of every point;
      its rounding rule is the parameter `rnd`. */
  function RoundPos(p: Pos, rnd: real -> real): Pos {
    (rnd(p.0), rnd(p.1))
  }

  function RoundSegment(s: Segment, rnd: real -> real): Segment {
    Segment(s.kind, seq(|s.offCurve|, k requires 0 <= k < |s.offCurve| => RoundPos(s.offCurve[k], rnd)),
            RoundPos(s.onCurve, rnd))
  }

  function RoundContour(c: SegContour, rnd: real -> real): (r: SegContour)
    ensures |r| == |c|
    ensures forall i :: 0 <= i < |c| ==> r[i].kind == c[i].kind && |r[i].offCurve| == |c[i].offCurve|
  {
    seq(|c|, i requires 0 <= i < |c| => RoundSegment(c[i], rnd))
  }

  /** Every coordinate the rounding leaves where it is. */
  predicate OnGrid(c: SegContour, rnd: real -> real) {
    forall i :: 0 <= i < |c| ==> RoundSegment(c[i], rnd) == c[i]
  }

  /** Rounding moves nothing on a contour already on the grid, and a second
      rounding by an idempotent rule moves nothing either. */
  lemma RoundContourOnGrid(c: SegContour, rnd: real -> real)
    ensures OnGrid(c, rnd) ==> RoundContour(c, rnd) == c
    ensures (forall x :: rnd(rnd(x)) == rnd(x)) ==> OnGrid(RoundContour(c, rnd), rnd)
  {
    var r := RoundContour(c, rnd);
    if forall x :: rnd(rnd(x)) == rnd(x) {
      forall i | 0 <= i < |r| ensures RoundSegment(r[i], rnd) == r[i] {
        var t := RoundSegment(r[i], rnd);
        assert |t.offCurve| == |r[i].offCurve|;
        forall k | 0 <= k < |t.offCurve| ensures t.offCurve[k] == r[i].offCurve[k] {
          assert rnd(rnd(c[i].offCurve[k].0)) == rnd(c[i].offCurve[k].0);
          assert rnd(rnd(c[i].offCurve[k].1)) == rnd(c[i].offCurve[k].1);
        }
        assert rnd(rnd(c[i].onCurve.0)) == rnd(c[i].onCurve.0);
        assert rnd(rnd(c[i].onCurve.1)) == rnd(c[i].onCurve.1);
      }
    }
  }

  /** Rounding is done point by point: it commutes with the splice. */
  lemma RoundContourSplice(a: SegContour, s: Segment, b: SegContour, rnd: real -> real)
    ensures RoundContour(a + [s] + b, rnd) == RoundContour(a, rnd) + [RoundSegment(s, rnd)] + RoundContour(b, rnd)
  {
  }

  // ---------------------------------------------------------------------------
  // Curves

  /** The splice of `_append_point_curve(contour, rpoints, curve)` before the
      contour is rounded: the segment ending at `rpoints[3]` takes the second
      piece's controls, and the first piece is inserted before it. */
  function SpliceCurve(c: SegContour, rpoints: seq<Pos>, curve: seq<Cubic>): (r: Result<SegContour>)
    requires |rpoints| >= 4 && |curve| > 1
    ensures SegmentIndexOf(c, rpoints[3]).None? ==> r == Failure(ValueError)
    ensures r.Success? ==> SegmentIndexOf(c, rpoints[3]).Some? && |r.value| == |c| + 1
    ensures r.Success? ==> var i := SegmentIndexOf(c, rpoints[3]).value;
      && r.value[..i] == c[..i]
      && r.value[i] == Segment(Curve, [curve[0].p1, curve[0].p2], curve[0].p3)
      && r.value[i + 1].onCurve == rpoints[3]
      && |r.value[i + 1].offCurve| >= 2
      && r.value[i + 1].offCurve[..2] == [curve[1].p1, curve[1].p2]
      && r.value[i + 2..] == c[i + 1..]
  {
    match SegmentIndexOf(c, rpoints[3])
    case None => Failure(ValueError)
    case Some(i) =>
      var seg := c[i];
      if |seg.offCurve| < 2 then Failure(IndexError)
      else
        var moved := seg.(offCurve := [curve[1].p1, curve[1].p2] + seg.offCurve[2..]);
        var c' := c[i := moved];
        var r := InsertSegment(c', i, Curve, [curve[0].p1, curve[0].p2, curve[0].p3]);
        assert r[i + 1] == c'[i] == moved;
        assert moved.offCurve[..2] == [curve[1].p1, curve[1].p2];
        assert r[i + 2..] == c'[i + 1..] == c[i + 1..];
        assert r[..i] == c'[..i] == c[..i];
        Success(r)
  }

  /** `_append_point_curve(contour, rpoints, curve)` of the current version:
      the splice, then the editor's `contour.round()` on every coordinate. */
  function AppendPointCurve(c: SegContour, rpoints: seq<Pos>, curve: seq<Cubic>, rnd: real -> real): (r: Result<SegContour>)
    requires |rpoints| >= 4 && |curve| > 1
    ensures r.Success? <==> SpliceCurve(c, rpoints, curve).Success?
    ensures r.Failure? ==> r.error == SpliceCurve(c, rpoints, curve).error
    ensures r.Success? ==> r.value == RoundContour(SpliceCurve(c, rpoints, curve).value, rnd)
  {
    var spliced :- SpliceCurve(c, rpoints, curve);
    Success(RoundContour(spliced, rnd))
  }

  /** `append_point_coordinate(contour, rpoints, where, is_horizontal)`:
      `splitCubic` is the library's split at a coordinate. */
  function AppendPointCoordinate(c: SegContour, rpoints: seq<Pos>, where: real, isHorizontal: bool,
                                 splitCubic: (Cubic, real, bool) -> seq<Cubic>, rnd: real -> real): (r: Result<SegContour>)
    ensures |rpoints| < 4 ==> r == Failure(IndexError)
    ensures |rpoints| >= 4 && |splitCubic(Cubic(rpoints[0], rpoints[1], rpoints[2], rpoints[3]), where, isHorizontal)| <= 1 ==>
              r == Failure(AssertionError)
    ensures |rpoints| >= 4 && r.Success? ==>
              var pieces := splitCubic(Cubic(rpoints[0], rpoints[1], rpoints[2], rpoints[3]), where, isHorizontal);
              |pieces| > 1 && r == AppendPointCurve(c, rpoints, pieces, rnd)
  {
    if |rpoints| < 4 then Failure(IndexError)
    else
      var pieces := splitCubic(Cubic(rpoints[0], rpoints[1], rpoints[2], rpoints[3]), where, isHorizontal);
      if |pieces| <= 1 then Failure(AssertionError)
      else AppendPointCurve(c, rpoints, pieces, rnd)
  }

  /** `append_point_rate(contour, rpoints, rate)`: `splitCubicAtT` is the
      library's split at a curve parameter. */
  function AppendPointRate(c: SegContour, rpoints: seq<Pos>, rate: real,
                           splitCubicAtT: (Cubic, real) -> seq<Cubic>, rnd: real -> real): (r: Result<SegContour>)
    ensures |rpoints| < 4 ==> r == Failure(IndexError)
    ensures |rpoints| >= 4 && |splitCubicAtT(Cubic(rpoints[0], rpoints[1], rpoints[2], rpoints[3]), rate)| <= 1 ==>
              r == Failure(AssertionError)
    ensures |rpoints| >= 4 && r.Success? ==>
              var pieces := splitCubicAtT(Cubic(rpoints[0], rpoints[1], rpoints[2], rpoints[3]), rate);
              |pieces| > 1 && r == AppendPointCurve(c, rpoints, pieces, rnd)
  {
    if |rpoints| < 4 then Failure(IndexError)
    else
      var pieces := splitCubicAtT(Cubic(rpoints[0], rpoints[1], rpoints[2], rpoints[3]), rate);
      if |pieces| <= 1 then Failure(AssertionError)
      else AppendPointCurve(c, rpoints, pieces, rnd)
  }

  // ---------------------------------------------------------------------------
  // Lines

  /** `append_point_coordinate_line(contour, rpoints, where, is_horizontal)`:
      one line segment ending at the first piece's end is inserted before
      the segment ending at `rpoints[1]`, and the contour is rounded. */
  function AppendPointCoordinateLine(c: SegContour, rpoints: seq<Pos>, where: real, isHorizontal: bool,
                                     splitLine: (Pos, Pos, real, bool) -> seq<LinePiece>, rnd: real -> real): (r: Result<SegContour>)
    ensures |rpoints| < 2 ==> r == Failure(IndexError)
    ensures |rpoints| >= 2 && |splitLine(rpoints[0], rpoints[1], where, isHorizontal)| <= 1 ==> r == Failure(AssertionError)
    ensures (|rpoints| >= 2 && |splitLine(rpoints[0], rpoints[1], where, isHorizontal)| > 1
             && SegmentIndexOf(c, rpoints[1]).None?) ==> r == Failure(ValueError)
    ensures r.Success? ==>
              && |rpoints| >= 2
              && |splitLine(rpoints[0], rpoints[1], where, isHorizontal)| > 1
              && SegmentIndexOf(c, rpoints[1]).Some?
              && var i := SegmentIndexOf(c, rpoints[1]).value;
                 r.value == RoundContour(c[..i] + [Segment(Line, [], splitLine(rpoints[0], rpoints[1], where, isHorizontal)[0].b)] + c[i..], rnd)
  {
    if |rpoints| < 2 then Failure(IndexError)
    else
      var pieces := splitLine(rpoints[0], rpoints[1], where, isHorizontal);
      if |pieces| <= 1 then Failure(AssertionError)
      else match SegmentIndexOf(c, rpoints[1])
        case None => Failure(ValueError)
        case Some(i) => Success(RoundContour(InsertSegment(c, i, Line, [pieces[0].b]), rnd))
  }

  /** On a contour already on the grid, with a cut point on the grid, the
      rounding after the line insertion moves nothing: the result is the
      plain splice. */
  lemma AppendLineOnGrid(c: SegContour, rpoints: seq<Pos>, where: real, isHorizontal: bool,
                         splitLine: (Pos, Pos, real, bool) -> seq<LinePiece>, rnd: real -> real)
    requires |rpoints| >= 2 && |splitLine(rpoints[0], rpoints[1], where, isHorizontal)| > 1
    requires SegmentIndexOf(c, rpoints[1]).Some?
    requires OnGrid(c, rnd)
    requires var b := splitLine(rpoints[0], rpoints[1], where, isHorizontal)[0].b; rnd(b.0) == b.0 && rnd(b.1) == b.1
    ensures var i := SegmentIndexOf(c, rpoints[1]).value;
            var b := splitLine(rpoints[0], rpoints[1], where, isHorizontal)[0].b;
            AppendPointCoordinateLine(c, rpoints, where, isHorizontal, splitLine, rnd) == Success(c[..i] + [Segment(Line, [], b)] + c[i..])
  {
    var i := SegmentIndexOf(c, rpoints[1]).value;
    var seg := Segment(Line, [], splitLine(rpoints[0], rpoints[1], where, isHorizontal)[0].b);
    RoundContourSplice(c[..i], seg, c[i..], rnd);
    assert OnGrid(c[..i], rnd) by {
      forall j | 0 <= j < i ensures RoundSegment(c[..i][j], rnd) == c[..i][j] {
        assert c[..i][j] == c[j];
      }
    }
    assert OnGrid(c[i..], rnd) by {
      forall j | 0 <= j < |c| - i ensures RoundSegment(c[i..][j], rnd) == c[i..][j] {
        assert c[i..][j] == c[i + j];
      }
    }
    RoundContourOnGrid(c[..i], rnd);
    RoundContourOnGrid(c[i..], rnd);
    assert RoundSegment(seg, rnd) == seg;
    assert InsertSegment(c, i, Line, [seg.onCurve]) == c[..i] + [seg] + c[i..];
  }

  // ---------------------------------------------------------------------------
  // Interpolation

  /** Python's `round` on a number: to the nearest integer, halves to the
      even neighbour. */
  function PyRound(x: real): (n: int)
    ensures (n as real) - 0.5 <= x <= (n as real) + 0.5
    ensures x == x.Floor as real ==> n == x.Floor
  {
    var f := x.Floor;
    var frac := x - f as real;
    if frac < 0.5 then f
    else if frac > 0.5 then f + 1
    else if f % 2 == 0 then f else f + 1
  }

  /** `_internal_division(a, b, rate)`: the point at `rate` from `a` to `b`,
      each coordinate rounded. */
  function InternalDivision(a: Pos, b: Pos, rate: real): (r: (int, int))
    ensures (r.0 as real) - 0.5 <= b.0 * rate + a.0 * (1.0 - rate) <= (r.0 as real) + 0.5
    ensures (r.1 as real) - 0.5 <= b.1 * rate + a.1 * (1.0 - rate) <= (r.1 as real) + 0.5
  {
    var s := 1.0 - rate;
    (PyRound(b.0 * rate + a.0 * s), PyRound(b.1 * rate + a.1 * s))
  }

  predicate Integral(p: Pos) {
    p.0 == p.0.Floor as real && p.1 == p.1.Floor as real
  }

  /** Rate 0 gives the start and rate 1 the end, for points on the grid. */
  lemma InternalDivisionEnds(a: Pos, b: Pos)
    requires Integral(a) && Integral(b)
    ensures InternalDivision(a, b, 0.0) == (a.0.Floor, a.1.Floor)
    ensures InternalDivision(a, b, 1.0) == (b.0.Floor, b.1.Floor)
  {
    assert b.0 * 0.0 + a.0 * (1.0 - 0.0) == a.0;
    assert b.1 * 0.0 + a.1 * (1.0 - 0.0) == a.1;
    assert b.0 * 1.0 + a.0 * (1.0 - 1.0) == b.0;
    assert b.1 * 1.0 + a.1 * (1.0 - 1.0) == b.1;
  }

  /** The split `append_point_rate_line` asks for: a horizontal cut at the
      interpolated y unless the line is horizontal, where it cuts vertically
      at the interpolated x. */
  function RateLineCut(a: Pos, b: Pos, rate: real): (cut: (real, bool))
    ensures a.0 != b.0 && a.1 == b.1 <==> !cut.1
    ensures cut.1 ==> cut.0 == InternalDivision(a, b, rate).1 as real
    ensures !cut.1 ==> cut.0 == InternalDivision(a, b, rate).0 as real
  {
    var d := InternalDivision(a, b, rate);
    if a.0 == b.0 then (d.1 as real, true)
    else if a.1 == b.1 then (d.0 as real, false)
    else (d.1 as real, true)
  }

  /** Python truthiness of the contour and point-list arguments: None and
      empty are false. */
  predicate Given<T>(v: Option<seq<T>>) {
    v.Some? && |v.value| > 0
  }

  /** `append_point_rate_line(contour, rpoints, rate)`. */
  function AppendPointRateLine(c: Option<SegContour>, rpoints: Option<seq<Pos>>, rate: real,
                               splitLine: (Pos, Pos, real, bool) -> seq<LinePiece>, rnd: real -> real): (r: Result<SegContour>)
    ensures !(Given(c) && Given(rpoints) && 0.0 <= rate <= 1.0) ==> r == Failure(ValueError)
    ensures Given(c) && Given(rpoints) && 0.0 <= rate <= 1.0 && |rpoints.value| < 2 ==> r == Failure(IndexError)
    ensures r.Success? ==> Given(c) && Given(rpoints) && 0.0 <= rate <= 1.0 && |rpoints.value| >= 2
    ensures r.Success? ==>
              var cut := RateLineCut(rpoints.value[0], rpoints.value[1], rate);
              r == AppendPointCoordinateLine(c.value, rpoints.value, cut.0, cut.1, splitLine, rnd)
  {
    if !(Given(c) && Given(rpoints) && 0.0 <= rate <= 1.0) then Failure(ValueError)
    else
      var ps := rpoints.value;
      if |ps| < 2 then Failure(IndexError)
      else
        var cut := RateLineCut(ps[0], ps[1], rate);
        AppendPointCoordinateLine(c.value, ps, cut.0, cut.1, splitLine, rnd)
  }

  // ---------------------------------------------------------------------------
  // The older version: status codes

  /** A status code and the contour afterwards. */
  datatype Status = Status(code: int, contour: SegContour)

  /** The older `_append_point_curve`: -1 and no change when no segment
      matches, 1 after the splice. */
  function LegacyAppendPointCurve(c: SegContour, rpoints: seq<Pos>, curve: seq<Cubic>, rnd: real -> real): (r: Result<Status>)
    requires |rpoints| >= 4 && |curve| > 1
    ensures LegacySegmentIndexOf(c, rpoints[3]) < 0 ==> r == Success(Status(-1, c))
    ensures LegacySegmentIndexOf(c, rpoints[3]) >= 0 ==>
              (r.Success? <==> AppendPointCurve(c, rpoints, curve, rnd).Success?)
    ensures r.Success? && r.value.code == 1 ==> r.value.contour == AppendPointCurve(c, rpoints, curve, rnd).value
    ensures r.Success? ==> r.value.code in {1, -1}
  {
    if LegacySegmentIndexOf(c, rpoints[3]) < 0 then Success(Status(-1, c))
    else
      var c' :- AppendPointCurve(c, rpoints, curve, rnd);
      Success(Status(1, c'))
  }

  /** The older `append_point_coordinate` as written: `if helper(...)` holds
      for both 1 and -1, so every call that reaches the helper reports -1,
      including one that inserted the point. */
  function LegacyAppendPointCoordinate(c: SegContour, rpoints: seq<Pos>, where: real, isHorizontal: bool,
                                       splitCubic: (Cubic, real, bool) -> seq<Cubic>, rnd: real -> real): (r: Result<Status>)
    ensures |rpoints| < 4 ==> r == Failure(IndexError)
    ensures |rpoints| >= 4 && |splitCubic(Cubic(rpoints[0], rpoints[1], rpoints[2], rpoints[3]), where, isHorizontal)| < 2 ==>
              r == Success(Status(-1, c))
    ensures r.Success? ==> r.value.code == -1
  {
    if |rpoints| < 4 then Failure(IndexError)
    else
      var pieces := splitCubic(Cubic(rpoints[0], rpoints[1], rpoints[2], rpoints[3]), where, isHorizontal);
      if |pieces| < 2 then Success(Status(-1, c))
      else
        var s :- LegacyAppendPointCurve(c, rpoints, pieces, rnd);
        if s.code != 0 then Success(Status(-1, s.contour)) else Success(Status(1, s.contour))
  }

  /** The evidently intended status: 1 exactly when the point was inserted. */
  function LegacyAppendPointCoordinateFixed(c: SegContour, rpoints: seq<Pos>, where: real, isHorizontal: bool,
                                            splitCubic: (Cubic, real, bool) -> seq<Cubic>, rnd: real -> real): (r: Result<Status>)
    ensures r.Success? ==> (r.value.code == 1 <==> |r.value.contour| == |c| + 1)
    ensures r.Success? && r.value.code != 1 ==> r.value == Status(-1, c)
    ensures |rpoints| >= 4 ==>
              (r.Success? && r.value.code == 1 <==>
               AppendPointCoordinate(c, rpoints, where, isHorizontal, splitCubic, rnd).Success?)
  {
    if |rpoints| < 4 then Failure(IndexError)
    else
      var pieces := splitCubic(Cubic(rpoints[0], rpoints[1], rpoints[2], rpoints[3]), where, isHorizontal);
      if |pieces| < 2 then Success(Status(-1, c))
      else
        var s :- LegacyAppendPointCurve(c, rpoints, pieces, rnd);
        if s.code < 0 then Success(Status(-1, s.contour)) else Success(Status(1, s.contour))
  }

  /** A successful insertion reported as a failure: the contour grew by one
      segment while the code says -1. */
  lemma LegacyCoordinateStatusFinding(c: SegContour, rpoints: seq<Pos>, where: real, isHorizontal: bool,
                                      splitCubic: (Cubic, real, bool) -> seq<Cubic>, rnd: real -> real)
    requires AppendPointCoordinate(c, rpoints, where, isHorizontal, splitCubic, rnd).Success?
    ensures LegacyAppendPointCoordinate(c, rpoints, where, isHorizontal, splitCubic, rnd).Success?
    ensures LegacyAppendPointCoordinate(c, rpoints, where, isHorizontal, splitCubic, rnd).value.code == -1
    ensures |LegacyAppendPointCoordinate(c, rpoints, where, isHorizontal, splitCubic, rnd).value.contour| == |c| + 1
    ensures LegacyAppendPointCoordinateFixed(c, rpoints, where, isHorizontal, splitCubic, rnd).value.code == 1
  {
  }

  /** The older `append_point_rate`: -1 for fewer than two pieces or no
      matching segment, 1 after the splice. */
  function LegacyAppendPointRate(c: SegContour, rpoints: seq<Pos>, rate: real,
                                 splitCubicAtT: (Cubic, real) -> seq<Cubic>, rnd: real -> real): (r: Result<Status>)
    ensures |rpoints| >= 4 ==>
              (r.Success? && r.value.code == 1 <==> AppendPointRate(c, rpoints, rate, splitCubicAtT, rnd).Success?)
    ensures r.Success? && r.value.code == 1 ==>
              AppendPointRate(c, rpoints, rate, splitCubicAtT, rnd).Success?
              && r.value.contour == AppendPointRate(c, rpoints, rate, splitCubicAtT, rnd).value
    ensures r.Success? && r.value.code != 1 ==> r.value == Status(-1, c)
  {
    if |rpoints| < 4 then Failure(IndexError)
    else
      var pieces := splitCubicAtT(Cubic(rpoints[0], rpoints[1], rpoints[2], rpoints[3]), rate);
      if |pieces| < 2 then Success(Status(-1, c))
      else
        var s :- LegacyAppendPointCurve(c, rpoints, pieces, rnd);
        if s.code < 0 then Success(Status(-1, s.contour)) else Success(Status(1, s.contour))
  }

  /** The older `append_point_coordinate_line`: -1 and no change for fewer
      than two pieces or no matching segment, 1 after the insertion. */
  function LegacyAppendPointCoordinateLine(c: SegContour, rpoints: seq<Pos>, where: real, isHorizontal: bool,
                                           splitLine: (Pos, Pos, real, bool) -> seq<LinePiece>, rnd: real -> real): (r: Result<Status>)
    ensures |rpoints| < 2 ==> r == Failure(IndexError)
    ensures |rpoints| >= 2 ==> r.Success?
    ensures r.Success? ==> (r.value.code == 1 <==>
                            AppendPointCoordinateLine(c, rpoints, where, isHorizontal, splitLine, rnd).Success?)
    ensures r.Success? && r.value.code == 1 ==>
              r.value.contour == AppendPointCoordinateLine(c, rpoints, where, isHorizontal, splitLine, rnd).value
    ensures r.Success? && r.value.code != 1 ==> r.value == Status(-1, c)
  {
    if |rpoints| < 2 then Failure(IndexError)
    else
      var pieces := splitLine(rpoints[0], rpoints[1], where, isHorizontal);
      if |pieces| < 2 then Success(Status(-1, c))
      else
        var i := LegacySegmentIndexOf(c, rpoints[1]);
        if i < 0 then Success(Status(-1, c))
        else Success(Status(1, RoundContour(InsertSegment(c, i, Line, [pieces[0].b]), rnd)))
  }

  /** The older `append_point_rate_line`: -1 for a missing argument or a rate
      outside [0, 1], otherwise 1 whatever the insertion reported. */
  function LegacyAppendPointRateLine(c: Option<SegContour>, rpoints: Option<seq<Pos>>, rate: real,
                                     splitLine: (Pos, Pos, real, bool) -> seq<LinePiece>, rnd: real -> real): (r: Result<Status>)
    ensures !(Given(c) && Given(rpoints) && 0.0 <= rate <= 1.0) ==> r.Success? && r.value.code == -1
    ensures Given(c) && Given(rpoints) && 0.0 <= rate <= 1.0 && |rpoints.value| >= 2 ==>
              r.Success? && r.value.code == 1
    ensures r.Success? && r.value.code == 1 ==>
              Given(c) && Given(rpoints) && |rpoints.value| >= 2 &&
              var cut := RateLineCut(rpoints.value[0], rpoints.value[1], rate);
              var inner := AppendPointCoordinateLine(c.value, rpoints.value, cut.0, cut.1, splitLine, rnd);
              r.value.contour == if inner.Success? then inner.value else c.value
  {
    if !(Given(c) && Given(rpoints) && 0.0 <= rate <= 1.0) then
      Success(Status(-1, if c.Some? then c.value else []))
    else
      var ps := rpoints.value;
      if |ps| < 2 then Failure(IndexError)
      else
        var cut := RateLineCut(ps[0], ps[1], rate);
        var s := LegacyAppendPointCoordinateLine(c.value, ps, cut.0, cut.1, splitLine, rnd);
        Success(Status(1, s.value.contour))
  }
}
