/** `add_depend_attr`: a stroke pair whose two points lie on opposite sides of
    another stroke pair's point, on the line between them and crossing it at
    right angles, depends on that other pair. Both points get `dependX` (the
    pair is nearly vertical) or `dependY` (nearly horizontal) holding the
    other pair's pen-pair value.

    Slopes are exact: a vertical step has the infinite slope, and the only
    product of slopes that is not a number is infinity times zero. Distances
    use a square root given as a parameter. */
module Depend {
  import opened Wrappers
  import opened Text
  import opened ODict
  import opened Codec
  import opened Outline
  import opened Attributes

  type Pos = (real, real)

  // ---------------------------------------------------------------------------
  // Slopes

  /** A float slope: a number, or `float('inf')`. */
  datatype Slope = Finite(value: real) | Inf

  /** `_calculate_inclination(p, q)`: dy/dx, infinite where dx is zero. */
  function Inclination(p: Pos, q: Pos): (s: Slope)
    ensures s == Inf <==> q.0 == p.0
    ensures s.Finite? ==> s.value * (q.0 - p.0) == q.1 - p.1
  {
    if q.0 - p.0 == 0.0 then Inf else Finite((q.1 - p.1) / (q.0 - p.0))
  }

  /** `_is_linear(pair, t)`: the slope from the first point to `t` equals
      the slope from `t` to the second; two infinities compare equal. */
  predicate IsLinear(a: Pos, b: Pos, t: Pos) {
    Inclination(a, t) == Inclination(t, b)
  }

  /** The cross product of `t - a` and `b - t` vanishes. */
  predicate Aligned(a: Pos, b: Pos, t: Pos) {
    (t.0 - a.0) * (b.1 - t.1) == (t.1 - a.1) * (b.0 - t.0)
  }

  /** For a `t` apart from both ends, equal slopes mean the three points lie
      on one line. */
  lemma IsLinearAligned(a: Pos, b: Pos, t: Pos)
    requires t != a && t != b
    ensures IsLinear(a, b, t) <==> Aligned(a, b, t)
  {
    var dx1, dy1 := t.0 - a.0, t.1 - a.1;
    var dx2, dy2 := b.0 - t.0, b.1 - t.1;
    if dx1 != 0.0 && dx2 != 0.0 {
      SlopesEqual(dx1, dy1, dx2, dy2);
    } else if dx1 == 0.0 && dx2 != 0.0 {
      assert dy1 != 0.0;
      NonzeroProduct(dy1, dx2);
    } else if dx1 != 0.0 && dx2 == 0.0 {
      assert dy2 != 0.0;
      NonzeroProduct(dx1, dy2);
    }
  }

  /** Two finite slopes are equal exactly when the cross product of their
      steps vanishes. */
  lemma SlopesEqual(dx1: real, dy1: real, dx2: real, dy2: real)
    requires dx1 != 0.0 && dx2 != 0.0
    ensures dy1 / dx1 == dy2 / dx2 <==> dx1 * dy2 == dy1 * dx2
  {
    var s1, s2 := dy1 / dx1, dy2 / dx2;
    assert dy1 == s1 * dx1 && dy2 == s2 * dx2;
    var q := dx1 * dx2;
    NonzeroProduct(dx1, dx2);
    assert dx1 * dy2 - dy1 * dx2 == (s2 - s1) * q by {
      calc {
        dx1 * dy2 - dy1 * dx2;
        dx1 * (s2 * dx2) - (s1 * dx1) * dx2;
        s2 * (dx1 * dx2) - s1 * (dx1 * dx2);
        (s2 - s1) * q;
      }
    }
    NonzeroProduct(q, s2 - s1);
    assert q * (s2 - s1) == (s2 - s1) * q;
  }

  /** `_is_diff_direction`'s test on two slopes: their product is -1, or
      not a number, which happens exactly for infinity times zero. Infinity
      times any other slope is infinite, so the test fails. */
  predicate DiffDirection(s1: Slope, s2: Slope) {
    match (s1, s2)
    case (Finite(a), Finite(b)) => a * b == -1.0
    case (Inf, Finite(b)) => b == 0.0
    case (Finite(a), Inf) => a == 0.0
    case (Inf, Inf) => false
  }

  /** The dot product of `b - a` and `d - c` vanishes. */
  predicate Perpendicular(a: Pos, b: Pos, c: Pos, d: Pos) {
    (b.0 - a.0) * (d.0 - c.0) + (b.1 - a.1) * (d.1 - c.1) == 0.0
  }

  /** For two proper segments, the direction test holds exactly when they
      cross at right angles. */
  lemma DiffDirectionPerpendicular(a: Pos, b: Pos, c: Pos, d: Pos)
    ensures a != b && c != d ==>
              (DiffDirection(Inclination(a, b), Inclination(c, d)) <==> Perpendicular(a, b, c, d))
  {
    if a == b || c == d { return; }
    var dx1, dy1 := b.0 - a.0, b.1 - a.1;
    var dx2, dy2 := d.0 - c.0, d.1 - c.1;
    if dx1 != 0.0 && dx2 != 0.0 {
      SlopeProduct(dx1, dy1, dx2, dy2);
    } else if dx1 == 0.0 && dx2 != 0.0 {
      assert dy1 != 0.0;
      NonzeroProduct(dy1, dy2);
    } else if dx1 != 0.0 && dx2 == 0.0 {
      assert dy2 != 0.0;
      NonzeroProduct(dy2, dy1);
      assert dy1 * dy2 == dy2 * dy1;
    } else {
      assert dy1 != 0.0 && dy2 != 0.0;
      NonzeroProduct(dy1, dy2);
    }
  }

  lemma NonzeroProduct(u: real, v: real)
    requires u != 0.0
    ensures u * v == 0.0 <==> v == 0.0
  {
  }

  lemma SlopeProduct(dx1: real, dy1: real, dx2: real, dy2: real)
    requires dx1 != 0.0 && dx2 != 0.0
    ensures (dy1 / dx1) * (dy2 / dx2) == -1.0 <==> dx1 * dx2 + dy1 * dy2 == 0.0
  {
    var s1, s2 := dy1 / dx1, dy2 / dx2;
    assert s1 * dx1 == dy1 && s2 * dx2 == dy2;
    var q := dx1 * dx2;
    assert q != 0.0;
    assert dy1 * dy2 == (s1 * s2) * q by {
      calc {
        dy1 * dy2;
        (s1 * dx1) * (s2 * dx2);
        (s1 * s2) * (dx1 * dx2);
      }
    }
    if dx1 * dx2 + dy1 * dy2 == 0.0 {
      assert (s1 * s2 + 1.0) * q == 0.0;
      NonzeroProduct(q, s1 * s2 + 1.0);
      assert q * (s1 * s2 + 1.0) == (s1 * s2 + 1.0) * q;
    }
  }

  // ---------------------------------------------------------------------------
  // Distances and betweenness

  /** A square root: `x ** 0.5` for every `x >= 0`. */
  ghost predicate IsSqrt(sqrt: real -> real) {
    forall x :: x >= 0.0 ==> sqrt(x) >= 0.0 && sqrt(x) * sqrt(x) == x
  }

  /** `_distance(p, q)`, with the square root as a parameter. */
  function Distance(p: Pos, q: Pos, sqrt: real -> real): real {
    sqrt(SqDist(p, q))
  }

  function SqDist(p: Pos, q: Pos): real {
    (p.0 - q.0) * (p.0 - q.0) + (p.1 - q.1) * (p.1 - q.1)
  }

  /** The dot product of the steps `a -> t` and `t -> b`. */
  function StepDot(a: Pos, b: Pos, t: Pos): real {
    (t.0 - a.0) * (b.0 - t.0) + (t.1 - a.1) * (b.1 - t.1)
  }

  /** `_is_between(pair, t)`. `_is_linear` reads the first and then the second
      point, so a pair of fewer than two raises IndexError; off the line the
      result is None; on it, `_distance(*pair)` raises TypeError for a pair
      of more than two. */
  function IsBetween(pair: seq<Pos>, t: Pos, sqrt: real -> real): (r: Result<Option<bool>>)
    ensures r == Failure(IndexError) <==> |pair| < 2
    ensures r == Success(None) <==> |pair| >= 2 && !IsLinear(pair[0], pair[1], t)
    ensures r == Failure(TypeError) <==> |pair| > 2 && IsLinear(pair[0], pair[1], t)
    ensures r.Failure? ==> r.error in {IndexError, TypeError}
  {
    if |pair| < 2 then Failure(IndexError)
    else if !IsLinear(pair[0], pair[1], t) then Success(None)
    else if |pair| != 2 then Failure(TypeError)
    else Success(Some(Distance(pair[0], t, sqrt) + Distance(t, pair[1], sqrt) == Distance(pair[0], pair[1], sqrt)))
  }

  /** `t` lies on the closed segment from `a` to `b`: on its line, and the
      steps `a -> t` and `t -> b` do not point against each other. */
  predicate OnSegment(a: Pos, b: Pos, t: Pos) {
    Aligned(a, b, t) && StepDot(a, b, t) >= 0.0
  }

  /** With a true square root, a two-point pair finds `t` between its ends
      exactly when `t` is on the segment joining them. */
  lemma IsBetweenOnSegment(a: Pos, b: Pos, t: Pos, sqrt: real -> real)
    requires IsSqrt(sqrt) && t != a && t != b
    ensures IsBetween([a, b], t, sqrt) == Success(Some(true)) <==> OnSegment(a, b, t)
  {
    IsLinearAligned(a, b, t);
    if Aligned(a, b, t) {
      var A, B, C := SqDist(a, t), SqDist(t, b), SqDist(a, b);
      Squares(a, b, t);
      assert IsBetween([a, b], t, sqrt) == Success(Some(sqrt(A) + sqrt(B) == sqrt(C)));
      RootsSum(A, B, StepDot(a, b, t), sqrt(A), sqrt(B), sqrt(C));
    }
  }

  /** The squared distances of three aligned points `a`, `t`, `b`. */
  lemma Squares(a: Pos, b: Pos, t: Pos)
    requires Aligned(a, b, t)
    ensures SqDist(a, t) >= 0.0 && SqDist(t, b) >= 0.0 && SqDist(a, b) >= 0.0
    ensures SqDist(a, b) == SqDist(a, t) + 2.0 * StepDot(a, b, t) + SqDist(t, b)
    ensures StepDot(a, b, t) * StepDot(a, b, t) == SqDist(a, t) * SqDist(t, b)
  {
    var ux, uy, vx, vy := t.0 - a.0, t.1 - a.1, b.0 - t.0, b.1 - t.1;
    assert SqDist(a, t) == ux * ux + uy * uy;
    assert SqDist(t, b) == vx * vx + vy * vy;
    assert a.0 - b.0 == -(ux + vx) && a.1 - b.1 == -(uy + vy);
    assert SqDist(a, b) == (ux + vx) * (ux + vx) + (uy + vy) * (uy + vy);
    SumSquare(ux, vx, uy, vy);
    SquareNonneg(ux); SquareNonneg(uy); SquareNonneg(vx); SquareNonneg(vy);
    SquareNonneg(ux + vx); SquareNonneg(uy + vy);
    assert StepDot(a, b, t) == ux * vx + uy * vy;
    var cross := ux * vy - uy * vx;
    assert cross == 0.0;
    assert cross * cross == 0.0;
    Lagrange(ux, uy, vx, vy);
  }

  /** Roots of `A`, `B` and `A + 2 dot + B`, where `dot` squared is `A B`:
      the first two add up to the third exactly when `dot` is not negative. */
  lemma RootsSum(A: real, B: real, dot: real, sa: real, sb: real, sc: real)
    requires sa >= 0.0 && sb >= 0.0 && sc >= 0.0
    requires sa * sa == A && sb * sb == B && sc * sc == A + 2.0 * dot + B
    requires dot * dot == A * B
    ensures sa + sb == sc <==> dot >= 0.0
  {
    ProductSquare(sa, sb);
    assert (sa + sb) * (sa + sb) == A + 2.0 * (sa * sb) + B;
    SquareEq(sa + sb, sc);
    NonnegProduct(sa, sb);
    if dot >= 0.0 {
      SquareEq(sa * sb, dot);
    }
  }

  lemma SquareEq(x: real, y: real)
    requires x >= 0.0 && y >= 0.0
    ensures x == y <==> x * x == y * y
  {
    if x * x == y * y && x != y {
      assert (x - y) * (x + y) == 0.0;
      NonzeroProduct(x - y, x + y);
    }
  }

  lemma SquareNonneg(x: real)
    ensures x * x >= 0.0
  {
    if x < 0.0 {
      assert x * x == (-x) * (-x);
      NonnegProduct(-x, -x);
    } else {
      NonnegProduct(x, x);
    }
  }

  lemma NonnegProduct(x: real, y: real)
    requires x >= 0.0 && y >= 0.0
    ensures x * y >= 0.0
  {
  }

  lemma Lagrange(ux: real, uy: real, vx: real, vy: real)
    ensures (ux * vx + uy * vy) * (ux * vx + uy * vy) + (ux * vy - uy * vx) * (ux * vy - uy * vx)
         == (ux * ux + uy * uy) * (vx * vx + vy * vy)
  {
  }

  lemma SumSquare(ux: real, vx: real, uy: real, vy: real)
    ensures (ux + vx) * (ux + vx) + (uy + vy) * (uy + vy)
         == (ux * ux + uy * uy) + 2.0 * (ux * vx + uy * vy) + (vx * vx + vy * vy)
  {
  }

  lemma ProductSquare(x: real, y: real)
    ensures (x * y) * (x * y) == (x * x) * (y * y)
  {
  }

  // ---------------------------------------------------------------------------
  // Directions

  /** `_is_diff_direction(pair1, pair2)`: each pair is spread into
      `_calculate_inclination`, so a pair of other than two points raises
      TypeError. For two proper segments, the test holds exactly when they
      are perpendicular. */
  function DiffDirectionOf(pair1: seq<Pos>, pair2: seq<Pos>): (r: Result<bool>)
    ensures r.Success? <==> |pair1| == 2 && |pair2| == 2
    ensures r.Failure? ==> r.error == TypeError
    ensures r.Success? && pair1[0] != pair1[1] && pair2[0] != pair2[1] ==>
              (r.value <==> Perpendicular(pair1[0], pair1[1], pair2[0], pair2[1]))
  {
    if |pair1| != 2 || |pair2| != 2 then Failure(TypeError)
    else
      DiffDirectionPerpendicular(pair1[0], pair1[1], pair2[0], pair2[1]);
      Success(DiffDirection(Inclination(pair1[0], pair1[1]), Inclination(pair2[0], pair2[1])))
  }

  // ---------------------------------------------------------------------------
  // The target search

  function Positions(g: Glyph, refs: seq<PointRef>): (ps: seq<Pos>)
    requires AllValid(g, refs)
    ensures |ps| == |refs| && forall i :: 0 <= i < |refs| ==> ps[i] == Position(At(g, refs[i]))
  {
    seq(|refs|, i requires 0 <= i < |refs| => Position(At(g, refs[i])))
  }

  /** `penpair_dict[key]`: KeyError for a key the dictionary lacks. */
  function Lookup(d: Dict<seq<PointRef>>, k: string): (r: Result<seq<PointRef>>)
    ensures r.Success? <==> HasKey(d, k)
    ensures r.Success? ==> Get(d, k) == Some(r.value) && (k, r.value) in d
    ensures r.Failure? ==> r.error == KeyError
  {
    match Get(d, k)
    case Some(v) => Success(v)
    case None => Failure(KeyError)
  }

  /** One round of `_find_depend_target`'s loop on candidate `t` for the
      pair `pair`: the candidate's own pair is looked up first, then the
      betweenness test, then, only when that gives True, the direction
      test. */
  function Probe(g: Glyph, d: Dict<seq<PointRef>>, pair: seq<PointRef>, t: PointRef, sqrt: real -> real): (r: Result<bool>)
    requires Within(g, d) && AllValid(g, pair) && ValidRef(g, t)
    ensures r.Success? ==> PenKey(At(g, t)).Success?
  {
    var key :- PenKey(At(g, t));
    var other :- Lookup(d, key);
    var between :- IsBetween(Positions(g, pair), Position(At(g, t)), sqrt);
    if between == Some(true) then DiffDirectionOf(Positions(g, pair), Positions(g, other))
    else Success(false)
  }

  /** What a search returns, and the candidates it has not consumed. */
  datatype Search = Search(found: Result<Option<PointRef>>, rest: seq<PointRef>)

  /** What the round said about the candidate a search stopped at. */
  function Verdict(found: Result<Option<PointRef>>): Result<bool> {
    match found
    case Success(_) => Success(true)
    case Failure(e) => Failure(e)
  }

  /** A `for` loop over an iterator that returns the first candidate whose
      round gives True, or None once the candidates run out; an error in a
      round ends the loop. The iterator is consumed up to and including the
      candidate the loop stops at. `verdicts[j]` is what the round gives for
      `cands[j]`; the rounds are pure, so working them out beforehand changes
      nothing, and the loop reads only those up to where it stops. */
  function FirstAccepted(verdicts: seq<Result<bool>>, cands: seq<PointRef>): (s: Search)
    requires |verdicts| == |cands|
    ensures |s.rest| <= |cands| && s.rest == cands[|cands| - |s.rest|..]
    ensures s.found == Success(None) ==>
              s.rest == [] && forall j :: 0 <= j < |cands| ==> verdicts[j] == Success(false)
    ensures s.found != Success(None) ==>
              && |s.rest| < |cands|
              && (forall j :: 0 <= j < |cands| - |s.rest| - 1 ==> verdicts[j] == Success(false))
              && verdicts[|cands| - |s.rest| - 1] == Verdict(s.found)
    ensures s.found.Success? && s.found.value.Some? ==> s.found.value.value == cands[|cands| - |s.rest| - 1]
  {
    var k := FirstStop(verdicts);
    if k == |cands| then Search(Success(None), [])
    else
      var found := match verdicts[k]
        case Failure(e) => Failure(e)
        case Success(_) => Success(Some(cands[k]));
      Search(found, cands[k + 1..])
  }

  /** The index of the first verdict that is not `Success(false)`, or the
      length when there is none. */
  function FirstStop(verdicts: seq<Result<bool>>): (k: nat)
    ensures k <= |verdicts|
    ensures forall j :: 0 <= j < k ==> verdicts[j] == Success(false)
    ensures k < |verdicts| ==> verdicts[k] != Success(false)
    decreases |verdicts|
  {
    if |verdicts| == 0 || verdicts[0] != Success(false) then 0
    else
      var k := FirstStop(verdicts[1..]);
      assert forall j :: 1 <= j < k + 1 ==> verdicts[j] == verdicts[1..][j - 1];
      k + 1
  }

  /** The round of each candidate. */
  function Probes(g: Glyph, d: Dict<seq<PointRef>>, pair: seq<PointRef>, cands: seq<PointRef>, sqrt: real -> real): (vs: seq<Result<bool>>)
    requires Within(g, d) && AllValid(g, pair) && AllValid(g, cands)
    ensures |vs| == |cands|
  {
    seq(|cands|, j requires 0 <= j < |cands| => Probe(g, d, pair, cands[j], sqrt))
  }

  lemma ProbesAt(g: Glyph, d: Dict<seq<PointRef>>, pair: seq<PointRef>, cands: seq<PointRef>, sqrt: real -> real, j: nat)
    requires Within(g, d) && AllValid(g, pair) && AllValid(g, cands) && j < |cands|
    ensures Probes(g, d, pair, cands, sqrt)[j] == Probe(g, d, pair, cands[j], sqrt)
  {
  }

  /** `_find_depend_target`: the first candidate both tests accept. */
  function FindTarget(g: Glyph, d: Dict<seq<PointRef>>, pair: seq<PointRef>, cands: seq<PointRef>, sqrt: real -> real): (s: Search)
    requires Within(g, d) && AllValid(g, pair) && AllValid(g, cands)
    ensures Suffix(s.rest, cands)
    ensures s.found.Success? && s.found.value.Some? ==>
              ValidRef(g, s.found.value.value) && PenKey(At(g, s.found.value.value)).Success?
  {
    var vs := Probes(g, d, pair, cands, sqrt);
    var s := FirstAccepted(vs, cands);
    if s.found.Success? && s.found.value.Some? then
      ProbesAt(g, d, pair, cands, sqrt, |cands| - |s.rest| - 1);
      s
    else s
  }

  /** A search that finds nothing has used up the iterator, and every
      candidate's round gave False. */
  lemma FindTargetNone(g: Glyph, d: Dict<seq<PointRef>>, pair: seq<PointRef>, cands: seq<PointRef>, sqrt: real -> real)
    requires Within(g, d) && AllValid(g, pair) && AllValid(g, cands)
    requires FindTarget(g, d, pair, cands, sqrt).found == Success(None)
    ensures FindTarget(g, d, pair, cands, sqrt).rest == []
    ensures forall j :: 0 <= j < |cands| ==> Probe(g, d, pair, cands[j], sqrt) == Success(false)
  {
    var s := FirstAccepted(Probes(g, d, pair, cands, sqrt), cands);
    assert FindTarget(g, d, pair, cands, sqrt) == s;
    ProbesFalse(g, d, pair, cands, sqrt, |cands|);
  }

  /** A search that stops, with a target or an error, stops at the first
      candidate whose round does not give False, and returns what that
      round gave; the iterator has been consumed up to and including it. */
  lemma FindTargetStops(g: Glyph, d: Dict<seq<PointRef>>, pair: seq<PointRef>, cands: seq<PointRef>, sqrt: real -> real)
    requires Within(g, d) && AllValid(g, pair) && AllValid(g, cands)
    requires FindTarget(g, d, pair, cands, sqrt).found != Success(None)
    ensures var s := FindTarget(g, d, pair, cands, sqrt);
      && |s.rest| < |cands|
      && (forall j :: 0 <= j < |cands| - |s.rest| - 1 ==> Probe(g, d, pair, cands[j], sqrt) == Success(false))
      && Probe(g, d, pair, cands[|cands| - |s.rest| - 1], sqrt) == Verdict(s.found)
      && (s.found.Success? ==> s.found.value == Some(cands[|cands| - |s.rest| - 1]))
  {
    var vs := Probes(g, d, pair, cands, sqrt);
    var s := FirstAccepted(vs, cands);
    assert FindTarget(g, d, pair, cands, sqrt) == s;
    var k := |cands| - |s.rest| - 1;
    assert 0 <= k < |cands| && vs[k] == Verdict(s.found);
    assert Probe(g, d, pair, cands[k], sqrt) == Verdict(s.found) by {
      ProbesAt(g, d, pair, cands, sqrt, k);
    }
    ProbesFalse(g, d, pair, cands, sqrt, k);
  }

  /** Rounds the precomputed verdicts reject are rounds that reject. */
  lemma ProbesFalse(g: Glyph, d: Dict<seq<PointRef>>, pair: seq<PointRef>, cands: seq<PointRef>, sqrt: real -> real, n: nat)
    requires Within(g, d) && AllValid(g, pair) && AllValid(g, cands) && n <= |cands|
    requires forall j :: 0 <= j < n ==> Probes(g, d, pair, cands, sqrt)[j] == Success(false)
    ensures forall j :: 0 <= j < n ==> Probe(g, d, pair, cands[j], sqrt) == Success(false)
  {
    forall j | 0 <= j < n ensures Probe(g, d, pair, cands[j], sqrt) == Success(false) {
      ProbesAt(g, d, pair, cands, sqrt, j);
    }
  }

  // ---------------------------------------------------------------------------
  // One point

  /** The keys this step adds. */
  const DependTags: set<string> := {"dependX", "dependY"}

  /** `contour.points[i-1]`: the point before, the last one for the first. */
  function Prev(g: Glyph, r: PointRef): (q: PointRef)
    requires ValidRef(g, r)
    ensures ValidRef(g, q) && q.contour == r.contour
  {
    PointRef(r.contour, if r.index == 0 then |g.contours[r.contour]| - 1 else r.index - 1)
  }

  /** The point after the previous one is the point itself, wrapping round
      the contour. */
  lemma PrevWraps(g: Glyph, r: PointRef)
    requires ValidRef(g, r)
    ensures (Prev(g, r).index + 1) % |g.contours[r.contour]| == r.index
  {
  }

  function AbsReal(x: real): real {
    if x < 0.0 then -x else x
  }

  /** The tag for a pen pair: `dependX` when its two points' x differ by
      less than 5, else `dependY` when their y do, else none. */
  function TagFor(cur: Point, prev: Point): string {
    if AbsReal(cur.x - prev.x) < 5.0 then "dependX"
    else if AbsReal(cur.y - prev.y) < 5.0 then "dependY"
    else ""
  }

  lemma PlainTags()
    ensures Plain("dependX") && Plain("dependY")
  {
    var x, y := "dependX", "dependY";
    forall i | 0 <= i < |x| ensures PlainChar(x[i]) { }
    forall i | 0 <= i < |y| ensures PlainChar(y[i]) { }
  }

  /** The glyph, what is left of the candidate iterator, and the number of
      change notifications so far. */
  datatype State = State(glyph: Glyph, stream: seq<PointRef>, notifications: nat)

  /** The penPair value of a point that has one, as `get_attr` returns it. */
  function PenValue(p: Point): (v: string)
    requires PenKey(p).Success?
    ensures GetAttr(p, "penPair") == Success(Some(v)) && Plain(v)
  {
    GetAttr(p, "penPair").value.value
  }

  /** Both points of the pair ending at `cur` hold, under the tag their
      positions call for, the penPair value of the target `t`, unless they
      held that tag already. */
  ghost predicate Marked(g: Glyph, h: Glyph, cur: PointRef, t: PointRef)
    requires ValidRef(g, cur) && ValidRef(g, t) && PenKey(At(g, t)).Success? && Tagged(g, h, DependTags)
  {
    var prev := Prev(g, cur);
    var tag := TagFor(At(g, cur), At(g, prev));
    var v := PenValue(At(g, t));
    && tag != ""
    && HoldsKey(At(h, cur), tag) && HoldsKey(At(h, prev), tag)
    && GetAttr(At(h, cur), tag) == AddedValue(GetAttr(At(g, cur), tag), true, v)
    && GetAttr(At(h, prev), tag) == AddedValue(GetAttr(At(g, prev), tag), true, v)
  }

  /** Tagging that follows keeps a marked pair marked. */
  lemma MarkedKeeps(g: Glyph, h1: Glyph, h2: Glyph, cur: PointRef, t: PointRef)
    requires ValidRef(g, cur) && ValidRef(g, t) && PenKey(At(g, t)).Success?
    requires Tagged(g, h1, DependTags) && Tagged(h1, h2, DependTags)
    requires Marked(g, h1, cur, t)
    ensures Tagged(g, h2, DependTags) && Marked(g, h2, cur, t)
  {
    TaggedTrans(g, h1, h2, DependTags);
    var prev := Prev(g, cur);
    var tag := TagFor(At(g, cur), At(g, prev));
    assert Keeps(At(h1, cur), At(h2, cur));
    assert Keeps(At(h1, prev), At(h2, prev));
  }

  /** Lines 71-79: add the tag, holding the target's penPair value, to the
      current point and then to the previous one, and notify. The older
      script's accessors do not notify, so it counts the one explicit call. */
  function TagPair(s: State, cur: PointRef, t: PointRef, legacy: bool): (r: Result<State>)
    requires ValidRef(s.glyph, cur) && ValidRef(s.glyph, t) && PenKey(At(s.glyph, t)).Success?
    ensures r.Success? ==> Tagged(s.glyph, r.value.glyph, DependTags) && r.value.stream == s.stream
    ensures r.Success? ==> r.value.notifications >= s.notifications
    ensures TagFor(At(s.glyph, cur), At(s.glyph, Prev(s.glyph, cur))) == "" ==> r == Success(s)
    ensures TagFor(At(s.glyph, cur), At(s.glyph, Prev(s.glyph, cur))) != "" && r.Success? ==>
              r.value.notifications > s.notifications
  {
    var g := s.glyph;
    var prev := Prev(g, cur);
    var tag := TagFor(At(g, cur), At(g, prev));
    if tag == "" then
      TaggedRefl(g, DependTags);
      Success(s)
    else
      var e :- TagBoth(g, cur, prev, tag, PenValue(At(g, t)));
      Success(State(e.glyph, s.stream, s.notifications + (if legacy then 1 else e.notifications + 1)))
  }

  /** `add_attr(point, tag, value)` on the current point, then on the
      previous one. */
  function TagBoth(g: Glyph, cur: PointRef, prev: PointRef, tag: string, v: string): (r: Result<Edit>)
    requires ValidRef(g, cur) && ValidRef(g, prev) && (tag == "dependX" || tag == "dependY") && Plain(v)
    ensures AllValid(g, [cur, prev]) && Plain(tag) && r == AddAttrAll(g, [cur, prev], tag, v)
    ensures r.Success? ==> Tagged(g, r.value.glyph, DependTags)
  {
    PlainTags();
    AllValidPair(g, cur, prev);
    var e :- AddAttrAll(g, [cur, prev], tag, v);
    TaggedWiden(g, e.glyph, {tag}, DependTags);
    Success(e)
  }

  /** A pair that is tagged holds the target's value. */
  lemma TagPairMarks(s: State, cur: PointRef, t: PointRef, legacy: bool)
    requires ValidRef(s.glyph, cur) && ValidRef(s.glyph, t) && PenKey(At(s.glyph, t)).Success?
    requires TagPair(s, cur, t, legacy).Success? && TagFor(At(s.glyph, cur), At(s.glyph, Prev(s.glyph, cur))) != ""
    ensures Marked(s.glyph, TagPair(s, cur, t, legacy).value.glyph, cur, t)
  {
    var g := s.glyph;
    var prev := Prev(g, cur);
    var tag := TagFor(At(g, cur), At(g, prev));
    var v := PenValue(At(g, t));
    PlainTags();
    AllValidPair(g, cur, prev);
    assert TagPair(s, cur, t, legacy).value.glyph == AddAttrAll(g, [cur, prev], tag, v).value.glyph;
    AddAttrAllValue(g, [cur, prev], tag, v, cur);
    AddAttrAllValue(g, [cur, prev], tag, v, prev);
  }

  /** The search the turn for `cur` runs over the pair `group`: the whole
      `pool` in the older script, what is left of the iterator in the newer
      one. */
  function StepSearch(s: State, d: Dict<seq<PointRef>>, group: seq<PointRef>, pool: seq<PointRef>, sqrt: real -> real, legacy: bool): Search
    requires Within(s.glyph, d) && AllValid(s.glyph, group) && AllValid(s.glyph, s.stream) && AllValid(s.glyph, pool)
  {
    if legacy then FindTarget(s.glyph, d, group, pool, sqrt) else FindTarget(s.glyph, d, group, s.stream, sqrt)
  }

  /** One turn of the loop at lines 64-81 for the point `cur`. `legacy`
      selects the older script: no TypeError is caught, and every search
      runs over all of `pool`, where the newer one takes up the shared
      iterator where the last search left it. */
  function DependPoint(s: State, cur: PointRef, d: Dict<seq<PointRef>>, pool: seq<PointRef>, sqrt: real -> real, legacy: bool): (r: Result<State>)
    requires ValidRef(s.glyph, cur) && Within(s.glyph, d) && AllValid(s.glyph, s.stream) && AllValid(s.glyph, pool)
    ensures r.Success? ==> Tagged(s.glyph, r.value.glyph, DependTags) && r.value.notifications >= s.notifications
    ensures r.Success? ==> Suffix(r.value.stream, s.stream) && (legacy ==> r.value.stream == s.stream)
  {
    var g := s.glyph;
    match PenKey(At(g, cur))
    case Failure(e) =>
      TaggedRefl(g, DependTags);
      if e == TypeError && !legacy then Success(s) else Failure(e)
    case Success(key) =>
      match Lookup(d, key)
      case Failure(e) => Failure(e)
      case Success(group) =>
        TaggedRefl(g, DependTags);
        if Prev(g, cur) !in group then Success(s)
        else
          var search := StepSearch(s, d, group, pool, sqrt, legacy);
          Searched(s, cur, search.found, if legacy then s.stream else search.rest, legacy)
  }

  /** `rest` is what is left of `stream` after taking some from its front. */
  predicate Suffix(rest: seq<PointRef>, stream: seq<PointRef>) {
    |rest| <= |stream| && rest == stream[|stream| - |rest|..]
  }

  /** What follows a search, with `rest` the iterator it leaves: a TypeError
      in the newer script skips the point, no target leaves the point as it
      is, a target tags the pair. */
  function Searched(s: State, cur: PointRef, found: Result<Option<PointRef>>, rest: seq<PointRef>, legacy: bool): (r: Result<State>)
    requires ValidRef(s.glyph, cur)
    requires found.Success? && found.value.Some? ==> ValidRef(s.glyph, found.value.value) && PenKey(At(s.glyph, found.value.value)).Success?
    ensures r.Success? ==> Tagged(s.glyph, r.value.glyph, DependTags) && r.value.notifications >= s.notifications
    ensures r.Success? ==> r.value.stream == rest
    ensures r.Success? && r.value.notifications > s.notifications ==>
              found.Success? && found.value.Some? && TagFor(At(s.glyph, cur), At(s.glyph, Prev(s.glyph, cur))) != ""
    ensures r.Success? && found.Success? && found.value.Some? && TagFor(At(s.glyph, cur), At(s.glyph, Prev(s.glyph, cur))) != "" ==>
              r.value.notifications > s.notifications
    ensures r.Success? && r.value.glyph != s.glyph ==> r.value.notifications > s.notifications
  {
    var s1 := s.(stream := rest);
    TaggedRefl(s.glyph, DependTags);
    match found
    case Failure(e) => if e == TypeError && !legacy then Success(s1) else Failure(e)
    case Success(None) => Success(s1)
    case Success(Some(t)) => TagPair(s1, cur, t, legacy)
  }

  /** The early exits of lines 66-68: a point without a penPair is skipped
      by the newer script (its TypeError is caught) and fails the older one;
      a key missing from the dictionary raises KeyError; a point whose
      predecessor is not in its pen pair is left alone. */
  lemma DependPointSkips(s: State, cur: PointRef, d: Dict<seq<PointRef>>, pool: seq<PointRef>, sqrt: real -> real, legacy: bool)
    requires ValidRef(s.glyph, cur) && Within(s.glyph, d) && AllValid(s.glyph, s.stream) && AllValid(s.glyph, pool)
    ensures PenKey(At(s.glyph, cur)) == Failure(TypeError) ==>
              DependPoint(s, cur, d, pool, sqrt, legacy) == (if legacy then Failure(TypeError) else Success(s))
    ensures PenKey(At(s.glyph, cur)).Success? && !HasKey(d, PenKey(At(s.glyph, cur)).value) ==>
              DependPoint(s, cur, d, pool, sqrt, legacy) == Failure(KeyError)
    ensures PenKey(At(s.glyph, cur)).Success? && HasKey(d, PenKey(At(s.glyph, cur)).value)
            && !InGroup(d, PenKey(At(s.glyph, cur)).value, Prev(s.glyph, cur)) ==>
              DependPoint(s, cur, d, pool, sqrt, legacy) == Success(s)
  {
  }

  /** The turn for `cur` gets past lines 66-68, its search finds a target,
      and the pair's positions call for a tag. */
  predicate Fires(s: State, cur: PointRef, d: Dict<seq<PointRef>>, pool: seq<PointRef>, sqrt: real -> real, legacy: bool)
    requires ValidRef(s.glyph, cur) && Within(s.glyph, d) && AllValid(s.glyph, s.stream) && AllValid(s.glyph, pool)
  {
    var g := s.glyph;
    && PenKey(At(g, cur)).Success?
    && Lookup(d, PenKey(At(g, cur)).value).Success?
    && Prev(g, cur) in Lookup(d, PenKey(At(g, cur)).value).value
    && var search := StepSearch(s, d, Lookup(d, PenKey(At(g, cur)).value).value, pool, sqrt, legacy);
    && search.found.Success? && search.found.value.Some?
    && TagFor(At(g, cur), At(g, Prev(g, cur))) != ""
  }

  /** The target a firing turn found. */
  function FiredTarget(s: State, cur: PointRef, d: Dict<seq<PointRef>>, pool: seq<PointRef>, sqrt: real -> real, legacy: bool): (t: PointRef)
    requires ValidRef(s.glyph, cur) && Within(s.glyph, d) && AllValid(s.glyph, s.stream) && AllValid(s.glyph, pool)
    requires Fires(s, cur, d, pool, sqrt, legacy)
    ensures ValidRef(s.glyph, t) && PenKey(At(s.glyph, t)).Success?
  {
    var g := s.glyph;
    StepSearch(s, d, Lookup(d, PenKey(At(g, cur)).value).value, pool, sqrt, legacy).found.value.value
  }

  /** A turn that succeeds notifies exactly when it fires, and then both
      points of the pair hold the target's penPair value under the tag
      their positions call for. The glyph changes only with a
      notification. */
  lemma DependPointMarks(s: State, cur: PointRef, d: Dict<seq<PointRef>>, pool: seq<PointRef>, sqrt: real -> real, legacy: bool)
    requires ValidRef(s.glyph, cur) && Within(s.glyph, d) && AllValid(s.glyph, s.stream) && AllValid(s.glyph, pool)
    requires DependPoint(s, cur, d, pool, sqrt, legacy).Success?
    ensures var r := DependPoint(s, cur, d, pool, sqrt, legacy).value;
      && (r.notifications > s.notifications <==> Fires(s, cur, d, pool, sqrt, legacy))
      && (r.glyph != s.glyph ==> r.notifications > s.notifications)
      && (Fires(s, cur, d, pool, sqrt, legacy) ==> Marked(s.glyph, r.glyph, cur, FiredTarget(s, cur, d, pool, sqrt, legacy)))
  {
    var g := s.glyph;
    if PenKey(At(g, cur)).Success? {
      var key := PenKey(At(g, cur)).value;
      if HasKey(d, key) {
        var group := Lookup(d, key).value;
        if Prev(g, cur) in group {
          var search := StepSearch(s, d, group, pool, sqrt, legacy);
          var rest := if legacy then s.stream else search.rest;
          assert DependPoint(s, cur, d, pool, sqrt, legacy) == Searched(s, cur, search.found, rest, legacy);
          if Fires(s, cur, d, pool, sqrt, legacy) {
            var t := search.found.value.value;
            TagPairMarks(s.(stream := rest), cur, t, legacy);
          }
        }
      }
    }
  }

  // ---------------------------------------------------------------------------
  // The whole glyph

  /** A glyph that only gained tags has every point the older one had. */
  lemma TaggedKeepsValid(g: Glyph, h: Glyph, refs: seq<PointRef>, d: Dict<seq<PointRef>>)
    requires Tagged(g, h, DependTags)
    ensures AllValid(g, refs) ==> AllValid(h, refs)
    ensures Within(g, d) ==> Within(h, d)
  {
    if Within(g, d) {
      forall e | e in d ensures AllValid(h, e.1) {
        assert AllValid(g, e.1);
      }
    }
  }

  /** Lines 63-81: every point of every contour in turn; an error that is
      not caught ends the loop. */
  function DependAll(s: State, refs: seq<PointRef>, d: Dict<seq<PointRef>>, pool: seq<PointRef>, sqrt: real -> real, legacy: bool): (r: Result<State>)
    requires AllValid(s.glyph, refs) && Within(s.glyph, d) && AllValid(s.glyph, s.stream) && AllValid(s.glyph, pool)
    ensures r.Success? ==> Tagged(s.glyph, r.value.glyph, DependTags) && r.value.notifications >= s.notifications
    ensures r.Success? ==> Suffix(r.value.stream, s.stream)
    decreases |refs|
  {
    if |refs| == 0 then
      TaggedRefl(s.glyph, DependTags);
      Success(s)
    else
      match DependPoint(s, refs[0], d, pool, sqrt, legacy)
      case Failure(e) => Failure(e)
      case Success(s1) =>
        TaggedKeepsValid(s.glyph, s1.glyph, refs[1..], d);
        TaggedKeepsValid(s.glyph, s1.glyph, pool, d);
        TaggedKeepsValid(s.glyph, s1.glyph, s.stream, d);
        SuffixValid(s1.glyph, s1.stream, s.stream);
        match DependAll(s1, refs[1..], d, pool, sqrt, legacy)
        case Failure(e) => Failure(e)
        case Success(s2) =>
          TaggedTrans(s.glyph, s1.glyph, s2.glyph, DependTags);
          SuffixTrans(s2.stream, s1.stream, s.stream);
          Success(s2)
  }

  lemma SuffixValid(g: Glyph, rest: seq<PointRef>, stream: seq<PointRef>)
    requires Suffix(rest, stream) && AllValid(g, stream)
    ensures AllValid(g, rest)
  {
    forall i | 0 <= i < |rest| ensures ValidRef(g, rest[i]) {
      assert rest[i] == stream[|stream| - |rest| + i];
    }
  }

  lemma SuffixTrans(a: seq<PointRef>, b: seq<PointRef>, c: seq<PointRef>)
    requires Suffix(a, b) && Suffix(b, c)
    ensures Suffix(a, c)
  {
    assert c[|c| - |a|..] == c[|c| - |b|..][|b| - |a|..];
  }

  /** `chain(*d.values())` lists only points the dictionary lists. */
  lemma ChainValid(g: Glyph, d: Dict<seq<PointRef>>)
    requires Within(g, d)
    ensures AllValid(g, Chain(d))
  {
    var c := Chain(d);
    forall i | 0 <= i < |c| ensures ValidRef(g, c[i]) {
      assert c[i] in c;
      var e :| e in d && c[i] in e.1;
      assert AllValid(g, e.1);
    }
  }

  /** A state the loop reaches is ready for the points still to come. */
  lemma ReadyAfter(s: State, s1: State, refs: seq<PointRef>, d: Dict<seq<PointRef>>, pool: seq<PointRef>)
    requires AllValid(s.glyph, refs) && Within(s.glyph, d) && AllValid(s.glyph, s.stream) && AllValid(s.glyph, pool)
    requires Tagged(s.glyph, s1.glyph, DependTags) && Suffix(s1.stream, s.stream)
    ensures AllValid(s1.glyph, refs) && Within(s1.glyph, d) && AllValid(s1.glyph, s1.stream) && AllValid(s1.glyph, pool)
  {
    TaggedKeepsValid(s.glyph, s1.glyph, refs, d);
    TaggedKeepsValid(s.glyph, s1.glyph, pool, d);
    TaggedKeepsValid(s.glyph, s1.glyph, s.stream, d);
    SuffixValid(s1.glyph, s1.stream, s.stream);
  }

  /** A successful loop over `refs` is a successful loop over its first `n`
      points followed by the loop over the rest. */
  lemma {:induction false} DependAllSplit(s: State, refs: seq<PointRef>, d: Dict<seq<PointRef>>, pool: seq<PointRef>, sqrt: real -> real, legacy: bool, n: nat)
    requires AllValid(s.glyph, refs) && Within(s.glyph, d) && AllValid(s.glyph, s.stream) && AllValid(s.glyph, pool)
    requires n <= |refs| && DependAll(s, refs, d, pool, sqrt, legacy).Success?
    ensures AllValid(s.glyph, refs[..n]) && DependAll(s, refs[..n], d, pool, sqrt, legacy).Success?
    ensures var m := DependAll(s, refs[..n], d, pool, sqrt, legacy).value;
      && AllValid(m.glyph, refs[n..]) && Within(m.glyph, d) && AllValid(m.glyph, m.stream) && AllValid(m.glyph, pool)
      && DependAll(m, refs[n..], d, pool, sqrt, legacy) == DependAll(s, refs, d, pool, sqrt, legacy)
    decreases n
  {
    if n == 0 {
      assert refs[..0] == [] && refs[0..] == refs;
      TaggedRefl(s.glyph, DependTags);
    } else {
      var s1 := DependPoint(s, refs[0], d, pool, sqrt, legacy).value;
      DependAllCons(s, refs, d, pool, sqrt, legacy);
      DependAllSplit(s1, refs[1..], d, pool, sqrt, legacy, n - 1);
      assert refs[..n][0] == refs[0] && refs[..n][1..] == refs[1..][..n - 1];
      assert refs[1..][n - 1..] == refs[n..];
      DependAllCons(s, refs[..n], d, pool, sqrt, legacy);
    }
  }

  /** One turn of the loop, then the loop over the remaining points. */
  lemma DependAllCons(s: State, refs: seq<PointRef>, d: Dict<seq<PointRef>>, pool: seq<PointRef>, sqrt: real -> real, legacy: bool)
    requires AllValid(s.glyph, refs) && Within(s.glyph, d) && AllValid(s.glyph, s.stream) && AllValid(s.glyph, pool)
    requires |refs| > 0 && DependPoint(s, refs[0], d, pool, sqrt, legacy).Success?
    ensures var s1 := DependPoint(s, refs[0], d, pool, sqrt, legacy).value;
      && AllValid(s1.glyph, refs[1..]) && Within(s1.glyph, d) && AllValid(s1.glyph, s1.stream) && AllValid(s1.glyph, pool)
      && DependAll(s, refs, d, pool, sqrt, legacy) == DependAll(s1, refs[1..], d, pool, sqrt, legacy)
  {
    var s1 := DependPoint(s, refs[0], d, pool, sqrt, legacy).value;
    ReadyAfter(s, s1, refs[1..], d, pool);
  }

  /** Every turn that fired left its pair marked in the final glyph: both
      points hold the target's penPair value under the tag their positions
      call for, unless they held that tag when their turn came. */
  lemma DependAllFired(s: State, refs: seq<PointRef>, d: Dict<seq<PointRef>>, pool: seq<PointRef>, sqrt: real -> real, legacy: bool, i: nat)
    requires AllValid(s.glyph, refs) && Within(s.glyph, d) && AllValid(s.glyph, s.stream) && AllValid(s.glyph, pool)
    requires i < |refs| && DependAll(s, refs, d, pool, sqrt, legacy).Success?
    ensures AllValid(s.glyph, refs[..i]) && DependAll(s, refs[..i], d, pool, sqrt, legacy).Success?
    ensures var m := DependAll(s, refs[..i], d, pool, sqrt, legacy).value;
      var h := DependAll(s, refs, d, pool, sqrt, legacy).value.glyph;
      && ValidRef(m.glyph, refs[i]) && Within(m.glyph, d) && AllValid(m.glyph, m.stream) && AllValid(m.glyph, pool)
      && Tagged(m.glyph, h, DependTags)
      && (Fires(m, refs[i], d, pool, sqrt, legacy) ==>
            Marked(m.glyph, h, refs[i], FiredTarget(m, refs[i], d, pool, sqrt, legacy)))
  {
    DependAllSplit(s, refs, d, pool, sqrt, legacy, i);
    var m := DependAll(s, refs[..i], d, pool, sqrt, legacy).value;
    var rest := refs[i..];
    assert rest[0] == refs[i];
    var m1 := DependPoint(m, rest[0], d, pool, sqrt, legacy).value;
    DependAllCons(m, rest, d, pool, sqrt, legacy);
    var h := DependAll(m1, rest[1..], d, pool, sqrt, legacy).value.glyph;
    TaggedTrans(m.glyph, m1.glyph, h, DependTags);
    if Fires(m, refs[i], d, pool, sqrt, legacy) {
      DependPointMarks(m, refs[i], d, pool, sqrt, legacy);
      MarkedKeeps(m.glyph, m1.glyph, h, refs[i], FiredTarget(m, refs[i], d, pool, sqrt, legacy));
    }
  }

  /** `add_depend_attr(glyph)`: the pen-pair dictionary of the on-curve
      points (`order` is the order in which Python iterates their set), its
      lists chained into one iterator, then the loop. A point without a
      penPair fails the dictionary, which is built outside the `try`. */
  function AddDependAttr(g: Glyph, order: seq<PointRef>, sqrt: real -> real): (r: Result<Edit>)
    requires Enumerates(order, AllPoints(g, false))
    ensures (exists q :: q in AllPoints(g, false) && PenKey(At(g, q)).Failure?) ==> r.Failure?
    ensures r.Success? ==> Tagged(g, r.value.glyph, DependTags)
  {
    var d :- GetPenpairDict(g, order);
    GroupByPenKeyWithin(g, order, []);
    ChainValid(g, d);
    var s :- DependAll(State(g, Chain(d), 0), GlyphRefs(g, 0), d, [], sqrt, false);
    Success(Edit(s.glyph, s.notifications))
  }

  /** At glyph level: whenever the turn of the `i`-th point fires, its pair
      ends up holding the found target's penPair value in the result. */
  lemma AddDependAttrMarks(g: Glyph, order: seq<PointRef>, sqrt: real -> real, i: nat)
    requires Enumerates(order, AllPoints(g, false))
    requires AddDependAttr(g, order, sqrt).Success? && i < |GlyphRefs(g, 0)|
    ensures var d := GetPenpairDict(g, order).value;
      var refs := GlyphRefs(g, 0);
      && Within(g, d) && AllValid(g, Chain(d)) && AllValid(g, refs[..i])
      && DependAll(State(g, Chain(d), 0), refs[..i], d, [], sqrt, false).Success?
      && var m := DependAll(State(g, Chain(d), 0), refs[..i], d, [], sqrt, false).value;
      && ValidRef(m.glyph, refs[i]) && Within(m.glyph, d) && AllValid(m.glyph, m.stream) && AllValid(m.glyph, [])
      && Tagged(m.glyph, AddDependAttr(g, order, sqrt).value.glyph, DependTags)
      && (Fires(m, refs[i], d, [], sqrt, false) ==>
            Marked(m.glyph, AddDependAttr(g, order, sqrt).value.glyph, refs[i], FiredTarget(m, refs[i], d, [], sqrt, false)))
  {
    var d := GetPenpairDict(g, order).value;
    GroupByPenKeyWithin(g, order, []);
    ChainValid(g, d);
    DependAllFired(State(g, Chain(d), 0), GlyphRefs(g, 0), d, [], sqrt, false, i);
  }

  /** The same for the older script, whose searches go over `order`. */
  lemma LegacyAddDependAttributeMarks(g: Glyph, hasOverlap: bool, order: seq<PointRef>, sqrt: real -> real, i: nat)
    requires Enumerates(order, AllPoints(g, true))
    requires LegacyAddDependAttribute(g, hasOverlap, order, sqrt).Success? && i < |GlyphRefs(g, 0)|
    requires !Contains(g.name, "V") && hasOverlap
    ensures GroupByPenKey(g, order, []).Success?
    ensures var d := GroupByPenKey(g, order, []).value;
      var refs := GlyphRefs(g, 0);
      && Within(g, d) && AllValid(g, refs[..i])
      && DependAll(State(g, [], 0), refs[..i], d, order, sqrt, true).Success?
      && var m := DependAll(State(g, [], 0), refs[..i], d, order, sqrt, true).value;
      && ValidRef(m.glyph, refs[i]) && Within(m.glyph, d) && AllValid(m.glyph, m.stream) && AllValid(m.glyph, order)
      && Tagged(m.glyph, LegacyAddDependAttribute(g, hasOverlap, order, sqrt).value, DependTags)
      && (Fires(m, refs[i], d, order, sqrt, true) ==>
            Marked(m.glyph, LegacyAddDependAttribute(g, hasOverlap, order, sqrt).value, refs[i], FiredTarget(m, refs[i], d, order, sqrt, true)))
  {
    GroupByPenKeySuccess(g, order, []);
    var d := GroupByPenKey(g, order, []).value;
    GroupByPenKeyWithin(g, order, []);
    DependAllFired(State(g, [], 0), GlyphRefs(g, 0), d, order, sqrt, true, i);
  }

  /** `add_depend_attribute(glyph)` of the older script: nothing for a glyph
      whose name holds `V` or that has no overlap; otherwise the dictionary
      of every point, off-curve ones included, and the loop, in which every
      search goes over the whole set of points again (`order` is the order
      of that set) and no error is caught. */
  function LegacyAddDependAttribute(g: Glyph, hasOverlap: bool, order: seq<PointRef>, sqrt: real -> real): (r: Result<Glyph>)
    requires Enumerates(order, AllPoints(g, true))
    ensures Contains(g.name, "V") || !hasOverlap ==> r == Success(g)
    ensures !Contains(g.name, "V") && hasOverlap && (exists q :: q in AllPoints(g, true) && PenKey(At(g, q)).Failure?) ==>
              r.Failure?
    ensures r.Success? ==> Tagged(g, r.value, DependTags)
  {
    if Contains(g.name, "V") || !hasOverlap then
      TaggedRefl(g, DependTags);
      Success(g)
    else
      GroupByPenKeySuccess(g, order, []);
      var d :- GroupByPenKey(g, order, []);
      GroupByPenKeyWithin(g, order, []);
      var s :- DependAll(State(g, [], 0), GlyphRefs(g, 0), d, order, sqrt, true);
      Success(s.glyph)
  }
}
