/** The editor's outline objects as the scripts see them: a point has a
    position, a segment type and an optional name; a contour is a cyclic
    sequence of points; a glyph has a name and a sequence of contours.

    Python compares points by identity (`point in pair`, sets of points), so
    a point is identified here by its place in the glyph, a `PointRef`. */
module Outline {
  import opened Wrappers

  datatype PointType = Move | Line | Curve | QCurve | OffCurve

  datatype Point = Point(x: real, y: real, kind: PointType, name: Option<string>)

  type Contour = seq<Point>

  datatype Glyph = Glyph(name: string, contours: seq<Contour>)

  /** Contour `contour`, point `index`. */
  datatype PointRef = PointRef(contour: nat, index: nat)

  predicate OnCurve(p: Point) {
    p.kind != OffCurve
  }

  predicate ValidRef(g: Glyph, r: PointRef) {
    r.contour < |g.contours| && r.index < |g.contours[r.contour]|
  }

  function At(g: Glyph, r: PointRef): Point
    requires ValidRef(g, r)
  {
    g.contours[r.contour][r.index]
  }

  /** The glyph with the point at `r` replaced by `p`. */
  function SetPoint(g: Glyph, r: PointRef, p: Point): (h: Glyph)
    requires ValidRef(g, r)
    ensures h.name == g.name && |h.contours| == |g.contours|
    ensures forall c :: 0 <= c < |g.contours| ==> |h.contours[c]| == |g.contours[c]|
    ensures At(h, r) == p
    ensures forall q :: ValidRef(g, q) && q != r ==> At(h, q) == At(g, q)
  {
    var c := g.contours[r.contour];
    g.(contours := g.contours[r.contour := c[r.index := p]])
  }

  /** Every reference in `refs` names a point of `g`. */
  predicate AllValid(g: Glyph, refs: seq<PointRef>) {
    forall i :: 0 <= i < |refs| ==> ValidRef(g, refs[i])
  }

  /** A point's coordinates. */
  function Position(p: Point): (real, real) {
    (p.x, p.y)
  }

  /** The editor's `contour.pointInside(position)` for contour number `c`
      of the glyph at hand. It reads only the outline, which the scripts
      never move, so it stays the same function while names are edited. */
  type Containment = (nat, (real, real)) -> bool

  /** Writing a point back where it is changes nothing. */
  lemma SetPointSame(g: Glyph, r: PointRef)
    requires ValidRef(g, r)
    ensures SetPoint(g, r, At(g, r)) == g
  {
    var c := g.contours[r.contour];
    assert c[r.index := At(g, r)] == c;
    assert g.contours[r.contour := c] == g.contours;
  }

  /** Two points of `g`, listed. */
  lemma AllValidPair(g: Glyph, a: PointRef, b: PointRef)
    requires ValidRef(g, a) && ValidRef(g, b)
    ensures AllValid(g, [a, b])
  {
    forall i | 0 <= i < 2 ensures ValidRef(g, [a, b][i]) {
      if i == 1 {
        assert [a, b][i] == b;
      }
    }
  }

  /** Replacing a point keeps every reference valid. */
  lemma SetPointValid(g: Glyph, r: PointRef, p: Point, refs: seq<PointRef>)
    requires ValidRef(g, r) && AllValid(g, refs)
    ensures AllValid(SetPoint(g, r, p), refs)
  {
  }

  /** Position equality, the scripts' `a.x == b.x and a.y == b.y`. */
  predicate SamePos(a: Point, b: Point) {
    a.x == b.x && a.y == b.y
  }

  /** `get_all_points(glyph, offcurve)`: every point of every contour, without
      the off-curve ones unless `offcurve` is set. */
  function AllPoints(g: Glyph, offcurve: bool): (s: set<PointRef>)
    ensures forall r :: r in s <==> ValidRef(g, r) && (offcurve || OnCurve(At(g, r)))
  {
    set c: nat, i: nat | c < |g.contours| && i < |g.contours[c]|
                         && (offcurve || OnCurve(g.contours[c][i]))
      :: PointRef(c, i)
  }

  /** `order` lists the members of `s` once each: one of the orders in which
      Python may iterate the set. */
  predicate Enumerates(order: seq<PointRef>, s: set<PointRef>) {
    (forall i, j :: 0 <= i < j < |order| ==> order[i] != order[j])
    && (forall i :: 0 <= i < |order| ==> order[i] in s)
    && (forall r :: r in s ==> r in order)
  }

  /** The references of contour `c`, in point order. */
  function ContourRefs(g: Glyph, c: nat): (rs: seq<PointRef>)
    requires c < |g.contours|
    ensures |rs| == |g.contours[c]|
    ensures forall i :: 0 <= i < |rs| ==> rs[i] == PointRef(c, i) && ValidRef(g, rs[i])
  {
    seq(|g.contours[c]|, i requires 0 <= i < |g.contours[c]| => PointRef(c, i))
  }

  /** The references of every point, contour by contour, in point order:
      the order of `for contour in glyph: for point in contour.points`. */
  function GlyphRefs(g: Glyph, c: nat): (rs: seq<PointRef>)
    requires c <= |g.contours|
    ensures forall i :: 0 <= i < |rs| ==> ValidRef(g, rs[i]) && c <= rs[i].contour
    ensures forall r :: ValidRef(g, r) && c <= r.contour ==> r in rs
    decreases |g.contours| - c
  {
    if c == |g.contours| then []
    else
      var rest := GlyphRefs(g, c + 1);
      assert forall r :: ValidRef(g, r) && r.contour == c ==> r == ContourRefs(g, c)[r.index];
      ContourRefs(g, c) + rest
  }

  /** The on-curve points of contour `c` from index `i` on, in point order. */
  function OnCurveFrom(s: Glyph, c: nat, i: nat): (rs: seq<PointRef>)
    requires c < |s.contours| && i <= |s.contours[c]|
    ensures AllValid(s, rs)
    ensures forall r :: r in rs <==> ValidRef(s, r) && r.contour == c && i <= r.index && OnCurve(At(s, r))
    decreases |s.contours[c]| - i
  {
    if i == |s.contours[c]| then []
    else
      var rest := OnCurveFrom(s, c, i + 1);
      if OnCurve(s.contours[c][i]) then [PointRef(c, i)] + rest else rest
  }

  /** Every contour index of `cs` names a contour of `s`. */
  predicate ContoursOf(s: Glyph, cs: seq<nat>) {
    forall i :: 0 <= i < |cs| ==> cs[i] < |s.contours|
  }

  /** Every contour, in order. */
  function AllContours(s: Glyph): (cs: seq<nat>)
    ensures |cs| == |s.contours| && ContoursOf(s, cs)
    ensures forall i :: 0 <= i < |cs| ==> cs[i] == i
  {
    seq(|s.contours|, i requires 0 <= i < |s.contours| => i)
  }

  /** The number of on-curve points of a contour: its `bPoints`. */
  function CountOnCurve(ps: seq<Point>): nat {
    if |ps| == 0 then 0 else (if OnCurve(ps[0]) then 1 else 0) + CountOnCurve(ps[1..])
  }

  /** The number of on-curve points of a glyph. */
  function GlyphOnCurve(cs: seq<Contour>): nat {
    if |cs| == 0 then 0 else CountOnCurve(cs[0]) + GlyphOnCurve(cs[1..])
  }
}
