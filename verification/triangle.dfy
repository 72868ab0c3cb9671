/** `Triangle.make_triangle`: a contour whose point count is odd (or twelve)
    has, at every apex, one point that belongs to no stroke pair. The apex is
    doubled by inserting a copy in front of it, and the two copies slide along
    their neighbouring edges to the x of the two nearest points above, giving
    a small triangle; the four points are then named as two pen pairs.

    The contour is one contour of a glyph, named by its index; the glyph is
    the contour's parent, from which the pair numbers are read. The contour's
    direction, an editor primitive, is a parameter. */
module Triangle {
  import opened Wrappers
  import opened Text
  import opened Codec
  import opened Outline
  import opened Extend
  import opened Attributes

  // ---------------------------------------------------------------------------
  // Which contours and which points

  /** `is_triagnle`: an odd number of points, or twelve. */
  predicate IsTriangle(pts: seq<Point>) {
    |pts| % 2 != 0 || |pts| == 12
  }

  /** Position `i` is a strict local maximum in y of the cyclic contour. */
  predicate LocalMax(pts: seq<Point>, i: nat)
    requires i < |pts|
  {
    var n := |pts|;
    pts[(i + n - 1) % n].y < pts[i].y && pts[i].y > pts[(i + 1) % n].y
  }

  /** The loop of `find_triangle_points` from index `i` on. The point before
      index 0 is `points[-1]`, the last one. */
  function ApexScan(pts: seq<Point>, i: nat): (r: seq<nat>)
    requires i <= |pts|
    ensures forall k :: 0 <= k < |r| ==> i <= r[k] < |pts|
    ensures forall k, l :: 0 <= k < l < |r| ==> r[k] < r[l]
    decreases |pts| - i
  {
    if i == |pts| then []
    else
      var before := if i == 0 then pts[|pts| - 1] else pts[i - 1];
      var rest := ApexScan(pts, i + 1);
      if before.y < pts[i].y && pts[i].y > pts[(i + 1) % |pts|].y then [i] + rest else rest
  }

  /** The scan from `i` lists exactly the local maxima from `i` on. */
  lemma {:induction false} ApexScanMax(pts: seq<Point>, i: nat)
    requires i <= |pts|
    ensures forall j :: i <= j < |pts| ==> (j in ApexScan(pts, i) <==> LocalMax(pts, j))
    decreases |pts| - i
  {
    if i < |pts| {
      ApexScanMax(pts, i + 1);
      var n := |pts|;
      var before := if i == 0 then pts[n - 1] else pts[i - 1];
      assert before == pts[(i + n - 1) % n] by { PrevIndex(i, n); }
      var hit := before.y < pts[i].y && pts[i].y > pts[(i + 1) % n].y;
      assert hit <==> LocalMax(pts, i);
      var rest := ApexScan(pts, i + 1);
      assert i !in rest;
      var r := if hit then [i] + rest else rest;
      assert ApexScan(pts, i) == r;
      forall j | i <= j < n ensures j in r <==> LocalMax(pts, j) {
        if j > i {
          assert j in r <==> j in rest;
        }
      }
    }
  }

  /** The index before `i` in a cycle of `n`. */
  lemma PrevIndex(i: nat, n: nat)
    requires i < n
    ensures (i + n - 1) % n == if i == 0 then n - 1 else i - 1
  {
    if i > 0 {
      assert i + n - 1 == (i - 1) + n;
    }
  }

  /** `find_triangle_points`: the apexes in ascending order. */
  function FindTrianglePoints(pts: seq<Point>): (r: seq<nat>)
    ensures forall k :: 0 <= k < |r| ==> r[k] < |pts|
    ensures forall k, l :: 0 <= k < l < |r| ==> r[k] < r[l]
    ensures forall j :: 0 <= j < |pts| ==> (j in r <==> LocalMax(pts, j))
  {
    ApexScanMax(pts, 0);
    ApexScan(pts, 0)
  }

  /** The second apex moves up by one, since the first insertion shifts it. */
  function ShiftSecond(idxs: seq<nat>): (r: seq<nat>)
    ensures |r| == |idxs|
  {
    if |idxs| > 1 && idxs[0] < idxs[1] then idxs[1 := idxs[1] + 1] else idxs
  }

  /** Lines 152-153 at work: after the step for the first apex, the index
      `ShiftSecond` gives for the second apex holds the point that was the
      second apex, at its place and of its kind, whichever of the two comes
      first in the contour. */
  lemma ShiftSecondTracks(pts: seq<Point>, idxs: seq<nat>, start: int, addPenpair: bool, clockwise: bool)
    requires |idxs| > 1 && idxs[0] != idxs[1] && idxs[1] < |pts|
    requires MakeOne(pts, idxs[0], start, addPenpair, clockwise).Success?
    ensures var r := MakeOne(pts, idxs[0], start, addPenpair, clockwise).value;
            ShiftSecond(idxs)[1] < |r| && SameShape(pts[idxs[1]], r[ShiftSecond(idxs)[1]])
  {
    MakeOneGeometry(pts, idxs[0], start, addPenpair, clockwise);
    InsertedAt(pts, idxs[0], ShiftSecond(idxs)[1]);
  }

  // ---------------------------------------------------------------------------
  // The opposite points

  /** The indices of the points strictly above `pts[t]`, from `i` on, in
      contour order. */
  function Above(pts: seq<Point>, t: nat, i: nat): (r: seq<nat>)
    requires t < |pts| && i <= |pts|
    ensures forall k :: 0 <= k < |r| ==> i <= r[k] < |pts| && pts[r[k]].y > pts[t].y
    ensures forall k, l :: 0 <= k < l < |r| ==> r[k] < r[l]
    ensures forall j :: i <= j < |pts| && pts[j].y > pts[t].y ==> j in r
    decreases |pts| - i
  {
    if i == |pts| then []
    else if pts[i].y > pts[t].y then [i] + Above(pts, t, i + 1)
    else Above(pts, t, i + 1)
  }

  function Abs(a: real): real {
    if a < 0.0 then -a else a
  }

  /** The first position of a smallest key, skipping position `skip`, given
      `best`, the answer for the positions before `i`. */
  function FirstMin(keys: seq<real>, skip: int, i: nat, best: Option<nat>): (r: Option<nat>)
    requires i <= |keys|
    requires best.Some? ==> best.value < i && best.value != skip
                            && (forall j :: 0 <= j < i && j != skip ==> keys[best.value] <= keys[j])
                            && (forall j :: 0 <= j < best.value && j != skip ==> keys[best.value] < keys[j])
    requires best.None? ==> i == 0 || (i == 1 && skip == 0)
    ensures r.Some? ==> r.value < |keys| && r.value != skip
                        && (forall j :: 0 <= j < |keys| && j != skip ==> keys[r.value] <= keys[j])
                        && (forall j :: 0 <= j < r.value && j != skip ==> keys[r.value] < keys[j])
    ensures r.None? <==> |keys| == 0 || (|keys| == 1 && skip == 0)
    decreases |keys| - i
  {
    if i == |keys| then best
    else if i == skip then FirstMin(keys, skip, i + 1, best)
    else if best.None? || keys[i] < keys[best.value] then FirstMin(keys, skip, i + 1, Some(i))
    else FirstMin(keys, skip, i + 1, best)
  }

  /** The positions of the first two entries of a stable sort by key: the
      first smallest key, then the first smallest among the rest. */
  function NearestTwo(keys: seq<real>): (r: seq<nat>)
    ensures |r| == if |keys| < 2 then |keys| else 2
    ensures forall k :: 0 <= k < |r| ==> r[k] < |keys|
    ensures |r| == 2 ==> r[0] != r[1]
    ensures |r| >= 1 ==> forall j :: 0 <= j < |keys| ==> keys[r[0]] <= keys[j]
    ensures |r| >= 1 ==> forall j :: 0 <= j < r[0] ==> keys[r[0]] < keys[j]
    ensures |r| == 2 ==> forall j :: 0 <= j < |keys| && j != r[0] ==> keys[r[1]] <= keys[j]
    ensures |r| == 2 ==> forall j :: 0 <= j < r[1] && j != r[0] ==> keys[r[1]] < keys[j]
  {
    var first := FirstMin(keys, -1, 0, None);
    if first.None? then []
    else
      var second := FirstMin(keys, first.value, 0, None);
      if second.None? then [first.value] else [first.value, second.value]
  }

  /** `_classify_right_and_left` of two points: the one strictly further
      right is right; on equal x the second one is. */
  function Classify(pts: seq<Point>, a: nat, b: nat): (r: (nat, nat))
    requires a < |pts| && b < |pts|
    ensures (r == (a, b) || r == (b, a)) && pts[r.0].x >= pts[r.1].x
    ensures pts[a].x == pts[b].x ==> r == (b, a)
  {
    if pts[a].x > pts[b].x then (a, b) else (b, a)
  }

  /** `_classify_right_and_left` of a tuple: fewer than two entries fail at
      the subscript. */
  function RightLeft(pts: seq<Point>, pair: seq<nat>): (r: Result<(nat, nat)>)
    requires forall k :: 0 <= k < |pair| ==> pair[k] < |pts|
    ensures r.Failure? <==> |pair| < 2
    ensures r.Failure? ==> r.error == IndexError
    ensures r.Success? ==> r.value == Classify(pts, pair[0], pair[1])
  {
    if |pair| < 2 then Failure(IndexError) else Success(Classify(pts, pair[0], pair[1]))
  }

  /** `find_opposite_points(t)`: of the points above `pts[t]`, the two
      nearest in x, sorted stably, classified into right and left. */
  function Opposite(pts: seq<Point>, t: nat): (r: Result<(nat, nat)>)
    requires t < |pts|
    ensures r.Failure? <==> |Above(pts, t, 0)| < 2
    ensures r.Failure? ==> r.error == IndexError
    ensures r.Success? ==> r.value.0 < |pts| && r.value.1 < |pts|
    ensures r.Success? ==> Nearest(pts, t, r.value.0, r.value.1) && pts[r.value.0].x >= pts[r.value.1].x
  {
    var cands := Above(pts, t, 0);
    var near := NearestTwo(DistKeys(pts, t, cands));
    assert AboveAll(pts, t, cands);
    NearestCandidates(pts, t, cands);
    RightLeft(pts, Pick(cands, near))
  }

  /** The points above `pts[t]`, each listed once in `cands`. */
  predicate AboveAll(pts: seq<Point>, t: nat, cands: seq<nat>)
    requires t < |pts|
  {
    && (forall k :: 0 <= k < |cands| ==> cands[k] < |pts| && pts[cands[k]].y > pts[t].y)
    && (forall k, l :: 0 <= k < l < |cands| ==> cands[k] < cands[l])
    && (forall j :: 0 <= j < |pts| && pts[j].y > pts[t].y ==> j in cands)
  }

  /** The two positions the sort puts first name two nearest points above
      `pts[t]`, when there are two candidates. */
  lemma NearestCandidates(pts: seq<Point>, t: nat, cands: seq<nat>)
    requires t < |pts| && AboveAll(pts, t, cands)
    ensures var near := NearestTwo(DistKeys(pts, t, cands));
      |near| == 2 ==> Nearest(pts, t, cands[near[0]], cands[near[1]]) && Nearest(pts, t, cands[near[1]], cands[near[0]])
  {
    var keys := DistKeys(pts, t, cands);
    var near := NearestTwo(keys);
    if |near| == 2 {
      NearestPair(pts, t, cands, keys, near);
    }
  }

  /** The sort key `abs(points[t].x - p.x)` of every candidate. */
  function DistKeys(pts: seq<Point>, t: nat, cands: seq<nat>): (keys: seq<real>)
    requires t < |pts| && forall k :: 0 <= k < |cands| ==> cands[k] < |pts|
    ensures |keys| == |cands|
    ensures forall k :: 0 <= k < |keys| ==> keys[k] == Abs(pts[t].x - pts[cands[k]].x)
  {
    seq(|cands|, k requires 0 <= k < |cands| => Abs(pts[t].x - pts[cands[k]].x))
  }

  /** The candidates at the chosen positions. */
  function Pick(cands: seq<nat>, near: seq<nat>): (r: seq<nat>)
    requires forall k :: 0 <= k < |near| ==> near[k] < |cands|
    ensures |r| == |near| && forall k :: 0 <= k < |r| ==> r[k] == cands[near[k]]
  {
    seq(|near|, k requires 0 <= k < |near| => cands[near[k]])
  }

  /** `a` and `b` are two different points above `pts[t]`, and no other
      point above it is nearer in x than either. */
  predicate Nearest(pts: seq<Point>, t: nat, a: nat, b: nat)
    requires t < |pts|
  {
    && a < |pts| && b < |pts| && a != b
    && pts[a].y > pts[t].y && pts[b].y > pts[t].y
    && forall j :: 0 <= j < |pts| && pts[j].y > pts[t].y && j != a && j != b ==>
         Abs(pts[t].x - pts[a].x) <= Abs(pts[t].x - pts[j].x)
         && Abs(pts[t].x - pts[b].x) <= Abs(pts[t].x - pts[j].x)
  }

  lemma NearestPair(pts: seq<Point>, t: nat, cands: seq<nat>, keys: seq<real>, near: seq<nat>)
    requires t < |pts| && AboveAll(pts, t, cands)
    requires |keys| == |cands|
    requires forall k :: 0 <= k < |keys| ==> keys[k] == Abs(pts[t].x - pts[cands[k]].x)
    requires |near| == 2 && near[0] < |keys| && near[1] < |keys| && near[0] != near[1]
    requires forall j :: 0 <= j < |keys| ==> keys[near[0]] <= keys[j]
    requires forall j :: 0 <= j < |keys| && j != near[0] ==> keys[near[1]] <= keys[j]
    ensures Nearest(pts, t, cands[near[0]], cands[near[1]])
    ensures Nearest(pts, t, cands[near[1]], cands[near[0]])
  {
    var a, b := cands[near[0]], cands[near[1]];
    assert a != b by {
      if near[0] < near[1] {
        assert cands[near[0]] < cands[near[1]];
      } else {
        assert cands[near[1]] < cands[near[0]];
      }
    }
    forall j | 0 <= j < |pts| && pts[j].y > pts[t].y && j != a && j != b
      ensures Abs(pts[t].x - pts[a].x) <= Abs(pts[t].x - pts[j].x)
      ensures Abs(pts[t].x - pts[b].x) <= Abs(pts[t].x - pts[j].x)
    {
      var k := IndexIn(cands, j);
      assert keys[k] == Abs(pts[t].x - pts[j].x);
    }
  }

  lemma IndexIn(s: seq<nat>, x: nat) returns (k: nat)
    requires x in s
    ensures k < |s| && s[k] == x
  {
    k :| 0 <= k < |s| && s[k] == x;
  }


  // ---------------------------------------------------------------------------
  // Pen-pair names

  /** The name `_add_penpair_attribute` writes: the pair number after a `z`,
      then the side letter. It replaces whatever the name held. */
  function PenPairName(n: int, side: char): string {
    "'penPair':'z" + IntToString(n) + [side, '\'']
  }

  /** The name written is the one-entry dictionary `penPair: z<n><side>`. */
  lemma PenPairNameDecodes(n: int, side: char)
    requires PlainChar(side)
    ensures Decode(Some(PenPairName(n, side))) == Success([("penPair", "z" + IntToString(n) + [side])])
  {
    var v := "z" + IntToString(n) + [side];
    PenPairValuePlain(n, side);
    var d := [("penPair", v)];
    assert Plain("penPair");
    assert Encode(d) == Token("penPair", v);
    PenPairNameToken(n, side);
    RoundTrip(d);
  }

  lemma PenPairValuePlain(n: int, side: char)
    requires PlainChar(side)
    ensures Plain("z" + IntToString(n) + [side])
  {
    var v := "z" + IntToString(n) + [side];
    IntToStringPlain(n);
    forall i | 0 <= i < |v| ensures PlainChar(v[i]) {
      if 0 < i < |v| - 1 {
        assert v[i] == IntToString(n)[i - 1];
      }
    }
  }

  lemma PenPairNameToken(n: int, side: char)
    ensures Token("penPair", "z" + IntToString(n) + [side]) == PenPairName(n, side)
  {
  }

  /** `point.name and 'penPair' in point.name`. */
  predicate HoldsPenPair(name: Option<string>) {
    name.Some? && |name.value| > 0 && Contains(name.value, "penPair")
  }

  /** `int(name[name[:-1].rindex("'") + 2:-2])`: the text after the last
      quote but one character, up to the last two characters. */
  function PenNumber(name: string): (r: Result<int>)
    ensures r.Failure? ==> r.error == ValueError
  {
    var q := RIndex(PySlice(name, 0, -1), '\'');
    if q.None? then Failure(ValueError)
    else match ParseInt(PySlice(name, q.value + 2, -2))
      case Some(n) => Success(n)
      case None => Failure(ValueError)
  }

  /** The number written into a name is the number read back from it. */
  lemma PenNumberReadsBack(n: int, side: char)
    requires PlainChar(side)
    ensures HoldsPenPair(Some(PenPairName(n, side)))
    ensures PenNumber(PenPairName(n, side)) == Success(n)
  {
    var name := PenPairName(n, side);
    var digits := IntToString(n);
    IntToStringPlain(n);
    assert name[1..8] == "penPair";
    ContainsAt(name, "penPair", 1);
    var head := PySlice(name, 0, -1);
    assert head == "'penPair':'z" + digits + [side];
    assert head[10] == '\'';
    forall j | 10 < j < |head| ensures head[j] != '\'' {
      if 11 < j < |head| - 1 {
        assert head[j] == digits[j - 12];
        assert PlainChar(digits[j - 12]);
      }
    }
    assert RIndex(head, '\'') == Some(10);
    assert PySlice(name, 12, -2) == digits;
    ParseIntOfIntToString(n);
  }

  /** One point of the loop in `_get_max_penpair`. */
  function MaxStep(p: Point, acc: int): (r: Result<int>)
    ensures r.Success? ==> r.value >= acc
    ensures r.Failure? <==> HoldsPenPair(p.name) && PenNumber(p.name.value).Failure?
    ensures r.Failure? ==> r.error == ValueError
    ensures HoldsPenPair(p.name) && r.Success? ==> PenNumber(p.name.value).value <= r.value
    ensures r.Success? && r.value != acc ==> HoldsPenPair(p.name) && r.value == PenNumber(p.name.value).value
  {
    if HoldsPenPair(p.name) then
      match PenNumber(p.name.value)
      case Success(n) => Success(if n > acc then n else acc)
      case Failure(e) => Failure(e)
    else Success(acc)
  }

  /** The loop over one contour's points, from the running maximum `acc`. */
  function MaxPoints(ps: seq<Point>, acc: int): (r: Result<int>)
    ensures r.Success? ==> r.value >= acc
    ensures r.Success? ==> forall i :: 0 <= i < |ps| && HoldsPenPair(ps[i].name) ==>
                             PenNumber(ps[i].name.value).Success? && PenNumber(ps[i].name.value).value <= r.value
    ensures r.Success? ==> r.value == acc || exists i :: 0 <= i < |ps| && HoldsPenPair(ps[i].name) && r.value == PenNumber(ps[i].name.value).value
    ensures r.Failure? <==> exists i :: 0 <= i < |ps| && HoldsPenPair(ps[i].name) && PenNumber(ps[i].name.value).Failure?
    ensures r.Failure? ==> r.error == ValueError
    decreases |ps|
  {
    if |ps| == 0 then Success(acc)
    else
      var a :- MaxStep(ps[0], acc);
      var r := MaxPoints(ps[1..], a);
      assert forall i :: 1 <= i < |ps| ==> ps[i] == ps[1..][i - 1];
      r
  }

  /** `_get_max_penpair` over the glyph's contours: zero when no name holds
      a pen pair, ValueError when one cannot be read. */
  function GlyphMaxPenpair(cs: seq<Contour>, acc: int): (r: Result<int>)
    ensures r.Success? ==> r.value >= acc
    ensures r.Success? ==> forall c, i :: 0 <= c < |cs| && 0 <= i < |cs[c]| && HoldsPenPair(cs[c][i].name) ==>
                             PenNumber(cs[c][i].name.value).Success? && PenNumber(cs[c][i].name.value).value <= r.value
    ensures r.Success? ==> r.value == acc || exists c, i :: 0 <= c < |cs| && 0 <= i < |cs[c]| && HoldsPenPair(cs[c][i].name)
                                                           && r.value == PenNumber(cs[c][i].name.value).value
    ensures r.Failure? <==> exists c, i :: 0 <= c < |cs| && 0 <= i < |cs[c]| && HoldsPenPair(cs[c][i].name)
                                           && PenNumber(cs[c][i].name.value).Failure?
    ensures r.Failure? ==> r.error == ValueError
    decreases |cs|
  {
    if |cs| == 0 then Success(acc)
    else
      var a :- MaxPoints(cs[0], acc);
      var r := GlyphMaxPenpair(cs[1..], a);
      assert forall c :: 1 <= c < |cs| ==> cs[c] == cs[1..][c - 1];
      r
  }

  /** The first pair number: one past the largest one in the glyph, or, in a
      glyph without pairs, derived from its on-curve point count. */
  function StartNumber(maxPenpair: int, total: nat, apexes: nat): int {
    if maxPenpair != 0 then maxPenpair + 1 else (total + apexes) / 2 + 1 - 2 * apexes
  }

  /** A glyph that already holds a written pair `n` makes the next run
      number its pairs above `n`. */
  lemma NextRunAbove(cs: seq<Contour>, c: nat, i: nat, n: int, side: char, apexes: nat)
    requires c < |cs| && i < |cs[c]| && PlainChar(side) && n > 0
    requires cs[c][i].name == Some(PenPairName(n, side))
    requires GlyphMaxPenpair(cs, 0).Success?
    ensures StartNumber(GlyphMaxPenpair(cs, 0).value, GlyphOnCurve(cs), apexes) > n
  {
    PenNumberReadsBack(n, side);
  }

  // ---------------------------------------------------------------------------
  // Writing pairs

  /** The side letters of the `k`-th pair: with `twist`, every other pair
      has them swapped. */
  function Sides(k: nat, twist: bool): (char, char) {
    if !twist || k % 2 == 0 then ('r', 'l') else ('l', 'r')
  }

  /** `name` is a pen-pair name numbered from `lo` up to `hi`, exclusive. */
  predicate NumberedIn(name: Option<string>, lo: int, hi: int) {
    exists n :: lo <= n < hi && (name == Some(PenPairName(n, 'r')) || name == Some(PenPairName(n, 'l')))
  }

  /** Index `i` belongs to one of the pairs. */
  predicate InPairs(pairs: seq<(nat, nat)>, i: nat) {
    exists j :: 0 <= j < |pairs| && (pairs[j].0 == i || pairs[j].1 == i)
  }

  /** Both points of every pair are positions below `n`. */
  predicate PairsIn(pairs: seq<(nat, nat)>, n: nat) {
    forall j :: 0 <= j < |pairs| ==> pairs[j].0 < n && pairs[j].1 < n
  }

  lemma PairsInOne(a: nat, b: nat, n: nat)
    requires a < n && b < n
    ensures PairsIn([(a, b)], n)
  {
  }

  lemma PairsInTwo(a: nat, b: nat, c: nat, d: nat, n: nat)
    requires a < n && b < n && c < n && d < n
    ensures PairsIn([(a, b), (c, d)], n)
  {
    forall j | 0 <= j < 2 ensures [(a, b), (c, d)][j].0 < n && [(a, b), (c, d)][j].1 < n {
      if j == 1 {
        assert [(a, b), (c, d)][j] == (c, d);
      }
    }
  }

  /** `_add_penpair_attribute(*pairs, start_pair_number=start, twist=twist)`
      from the `k`-th pair on: both points of a pair are named with the pair
      number, the right one with the first side letter. Positions never
      change, and points outside the pairs are untouched. */
  function AddPairs(pts: seq<Point>, pairs: seq<(nat, nat)>, start: int, twist: bool, k: nat): (r: seq<Point>)
    requires PairsIn(pairs, |pts|)
    ensures |r| == |pts|
    ensures forall i :: 0 <= i < |pts| ==> SameShape(pts[i], r[i])
    ensures forall i: nat :: i < |pts| && !InPairs(pairs, i) ==> r[i] == pts[i]
    decreases |pairs|
  {
    if |pairs| == 0 then pts
    else
      var (right, left) := Classify(pts, pairs[0].0, pairs[0].1);
      var named := NamePair(pts, right, left, start + k, Sides(k, twist));
      var r := AddPairs(named, pairs[1..], start, twist, k + 1);
      assert forall i: nat :: i < |pts| && !InPairs(pairs, i) ==> !InPairs(pairs[1..], i) && i != right && i != left;
      r
  }

  /** One pair named: the right point with the first side letter, the left
      one with the second. */
  function NamePair(pts: seq<Point>, right: nat, left: nat, n: int, sides: (char, char)): (r: seq<Point>)
    requires right < |pts| && left < |pts|
    ensures |r| == |pts|
    ensures r[left].name == Some(PenPairName(n, sides.1))
    ensures right != left ==> r[right].name == Some(PenPairName(n, sides.0))
    ensures forall i :: 0 <= i < |pts| ==> SameShape(pts[i], r[i])
    ensures forall i :: 0 <= i < |pts| && i != right && i != left ==> r[i] == pts[i]
  {
    pts[right := pts[right].(name := Some(PenPairName(n, sides.0)))]
       [left := pts[left].(name := Some(PenPairName(n, sides.1)))]
  }

  /** The first pair written, then the rest. */
  lemma AddPairsCons(pts: seq<Point>, pairs: seq<(nat, nat)>, start: int, twist: bool, k: nat)
    requires PairsIn(pairs, |pts|)
    requires |pairs| > 0
    ensures var (right, left) := Classify(pts, pairs[0].0, pairs[0].1);
            AddPairs(pts, pairs, start, twist, k)
              == AddPairs(NamePair(pts, right, left, start + k, Sides(k, twist)), pairs[1..], start, twist, k + 1)
  {
  }

  /** One pair written by itself. */
  lemma OnePairNamed(pts: seq<Point>, a: nat, b: nat, start: int, twist: bool, k: nat)
    requires a < |pts| && b < |pts|
    ensures PairsIn([(a, b)], |pts|)
    ensures var (right, left) := Classify(pts, a, b);
            AddPairs(pts, [(a, b)], start, twist, k) == NamePair(pts, right, left, start + k, Sides(k, twist))
  {
    PairsInOne(a, b, |pts|);
    assert [(a, b)][1..] == [];
  }

  /** The two pairs of one apex, written with a twist: the first pair's
      right point is `r`, its left `l`; the second pair, numbered one higher,
      has the letters swapped. */
  lemma TwoPairsNamed(pts: seq<Point>, a: nat, b: nat, c: nat, d: nat, start: int)
    requires a < |pts| && b < |pts| && c < |pts| && d < |pts|
    requires a != b && c != d && a != c && a != d && b != c && b != d
    ensures PairsIn([(a, b), (c, d)], |pts|)
    ensures var r := AddPairs(pts, [(a, b), (c, d)], start, true, 0);
            var (r0, l0) := Classify(pts, a, b);
            var (r1, l1) := Classify(pts, c, d);
            && r[r0].name == Some(PenPairName(start, 'r')) && r[l0].name == Some(PenPairName(start, 'l'))
            && r[r1].name == Some(PenPairName(start + 1, 'l')) && r[l1].name == Some(PenPairName(start + 1, 'r'))
  {
    var (r0, l0) := Classify(pts, a, b);
    var (r1, l1) := Classify(pts, c, d);
    TwoPairsUnfold(pts, a, b, c, d, start);
    TwoNames(pts, r0, l0, r1, l1, start);
  }

  /** Names written to four different points by two pairs. */
  lemma TwoNames(pts: seq<Point>, r0: nat, l0: nat, r1: nat, l1: nat, start: int)
    requires r0 < |pts| && l0 < |pts| && r1 < |pts| && l1 < |pts|
    requires r0 != l0 && r1 != l1 && r0 != r1 && r0 != l1 && l0 != r1 && l0 != l1
    ensures var q := NamePair(NamePair(pts, r0, l0, start, ('r', 'l')), r1, l1, start + 1, ('l', 'r'));
            && q[r0].name == Some(PenPairName(start, 'r')) && q[l0].name == Some(PenPairName(start, 'l'))
            && q[r1].name == Some(PenPairName(start + 1, 'l')) && q[l1].name == Some(PenPairName(start + 1, 'r'))
  {
    var named := NamePair(pts, r0, l0, start, ('r', 'l'));
    var q := NamePair(named, r1, l1, start + 1, ('l', 'r'));
    assert q[r0] == named[r0] && q[l0] == named[l0];
  }

  /** Two pairs written one after the other. */
  lemma TwoPairsUnfold(pts: seq<Point>, a: nat, b: nat, c: nat, d: nat, start: int)
    requires a < |pts| && b < |pts| && c < |pts| && d < |pts|
    requires a != b && c != d && a != c && a != d && b != c && b != d
    ensures PairsIn([(a, b), (c, d)], |pts|)
    ensures var (r0, l0) := Classify(pts, a, b);
            var (r1, l1) := Classify(pts, c, d);
            AddPairs(pts, [(a, b), (c, d)], start, true, 0)
              == NamePair(NamePair(pts, r0, l0, start, ('r', 'l')), r1, l1, start + 1, ('l', 'r'))
  {
    var pairs := [(a, b), (c, d)];
    PairsInTwo(a, b, c, d, |pts|);
    var (r0, l0) := Classify(pts, a, b);
    var named := NamePair(pts, r0, l0, start, ('r', 'l'));
    assert pairs[1..] == [(c, d)];
    assert Sides(0, true) == ('r', 'l') && Sides(1, true) == ('l', 'r');
    AddPairsCons(pts, pairs, start, true, 0);
    ClassifyKept(pts, named, c, d);
    OnePairNamed(named, c, d, start, true, 1);
  }

  /** Renaming points does not change which of two points is right. */
  lemma ClassifyKept(p: seq<Point>, q: seq<Point>, c: nat, d: nat)
    requires c < |p| && d < |p| && |q| == |p| && SameShape(p[c], q[c]) && SameShape(p[d], q[d])
    ensures Classify(q, c, d) == Classify(p, c, d)
  {
  }

  // ---------------------------------------------------------------------------
  // One apex

  /** `insertPoint(index=t, type='line', point=points[t])`: a line point
      without a name at the apex's position, in front of the apex. */
  function Inserted(pts: seq<Point>, t: nat): (r: seq<Point>)
    requires t < |pts|
    ensures |r| == |pts| + 1
  {
    pts[..t] + [Point(pts[t].x, pts[t].y, Line, None)] + pts[t..]
  }

  lemma InsertedAt(pts: seq<Point>, t: nat, i: nat)
    requires t < |pts| && i < |pts| + 1
    ensures Inserted(pts, t)[i] == if i < t then pts[i] else if i == t then Point(pts[t].x, pts[t].y, Line, None) else pts[i - 1]
  {
  }

  lemma LowerX()
    ensures Lower("x") == "x"
  {
    assert Lower("x")[0] == LowerChar('x') == 'x';
  }

  /** The two opposite points in the order the contour's direction gives
      them: `_CLOCKWISE_LOCATION[clockwise]`. */
  function Located(opposite: (nat, nat), clockwise: bool): (nat, nat) {
    var (right, left) := opposite;
    if clockwise then (left, right) else (right, left)
  }

  /** The point before index `t`, `points[t - 1]`, wrapping to the last. */
  function Before(pts: seq<Point>, t: nat): Point
    requires t < |pts|
  {
    pts[if t == 0 then |pts| - 1 else t - 1]
  }

  /** The body of the loop of `make_triangle` for apex index `t`. The
      inserted copy slides along the edge from the point before to the x of
      the previous opposite point; the apex slides along the edge to the
      point after to the x of the next one. Pair numbers `start` and
      `start + 1` are written when `addPenpair` is set. */
  function MakeOne(pts: seq<Point>, t: nat, start: int, addPenpair: bool, clockwise: bool): (r: Result<seq<Point>>)
    ensures t >= |pts| ==> r == Failure(IndexError)
    ensures t < |pts| && |Above(Inserted(pts, t), t, 0)| < 2 ==> r == Failure(IndexError)
    ensures r.Failure? ==> r.error == IndexError || r.error == InputError
    ensures r.Success? ==> t < |pts| && |r.value| == |pts| + 1
  {
    if t >= |pts| then Failure(IndexError)
    else
      var pts1 := Inserted(pts, t);
      var opposite :- Opposite(pts1, t);
      LowerX();
      var prevF :- GetLinearFunction(Position(Before(pts1, t)), Position(pts1[t]), "x");
      var nextF :- GetLinearFunction(Position(pts1[t + 1]), Position(pts1[(t + 2) % |pts1|]), "x");
      var (prev, next) := Located(opposite, clockwise);
      var prevX, nextX := pts1[prev].x, pts1[next].x;
      var pts2 := Paired(pts1, t, (prev, next), start, addPenpair);
      Success(Slide(pts2, t, (prevX, Apply(prevF, prevX)), (nextX, Apply(nextF, nextX))))
  }

  /** The two pairs of the apex at `t` written, when `addPenpair` is set. */
  function Paired(pts1: seq<Point>, t: nat, located: (nat, nat), start: int, addPenpair: bool): (r: seq<Point>)
    requires t + 1 < |pts1| && located.0 < |pts1| && located.1 < |pts1|
    ensures |r| == |pts1|
  {
    if addPenpair then
      PairsInTwo(located.0, t + 1, located.1, t, |pts1|);
      AddPairs(pts1, [(located.0, t + 1), (located.1, t)], start, true, 0)
    else pts1
  }

  /** The inserted copy moved to `a` and the apex to `b`. */
  function Slide(pts: seq<Point>, t: nat, a: (real, real), b: (real, real)): (r: seq<Point>)
    requires t + 1 < |pts|
    ensures |r| == |pts|
    ensures forall i :: 0 <= i < |pts| ==> r[i].name == pts[i].name && r[i].kind == pts[i].kind
    ensures Position(r[t]) == a && Position(r[t + 1]) == b
    ensures forall i :: 0 <= i < |pts| && i != t && i != t + 1 ==> r[i] == pts[i]
  {
    pts[t := pts[t].(x := a.0, y := a.1)][t + 1 := pts[t + 1].(x := b.0, y := b.1)]
  }

  /** A successful step is the paired contour with the two points slid. */
  lemma MakeOneUnfold(pts: seq<Point>, t: nat, start: int, addPenpair: bool, clockwise: bool)
    requires MakeOne(pts, t, start, addPenpair, clockwise).Success?
    ensures t < |pts| && Opposite(Inserted(pts, t), t).Success?
    ensures var pts1 := Inserted(pts, t);
            var located := Located(Opposite(pts1, t).value, clockwise);
            var q := Paired(pts1, t, located, start, addPenpair);
            var r := MakeOne(pts, t, start, addPenpair, clockwise).value;
            && |r| == |q| && (forall i :: 0 <= i < |r| && i != t && i != t + 1 ==> r[i] == q[i])
            && r[t].name == q[t].name && r[t].kind == q[t].kind
            && r[t + 1].name == q[t + 1].name && r[t + 1].kind == q[t + 1].kind
  {
    var pts1 := Inserted(pts, t);
    var opposite := Opposite(pts1, t).value;
    LowerX();
    var prevF := GetLinearFunction(Position(Before(pts1, t)), Position(pts1[t]), "x").value;
    var nextF := GetLinearFunction(Position(pts1[t + 1]), Position(pts1[(t + 2) % |pts1|]), "x").value;
    var (prev, next) := Located(opposite, clockwise);
    var prevX, nextX := pts1[prev].x, pts1[next].x;
    var q := Paired(pts1, t, (prev, next), start, addPenpair);
    assert MakeOne(pts, t, start, addPenpair, clockwise).value
        == Slide(q, t, (prevX, Apply(prevF, prevX)), (nextX, Apply(nextF, nextX)));
  }

  /** Every name after one apex is the name `Paired` gives. */
  lemma MakeOneNameSource(pts: seq<Point>, t: nat, start: int, addPenpair: bool, clockwise: bool)
    requires MakeOne(pts, t, start, addPenpair, clockwise).Success?
    ensures t < |pts| && Opposite(Inserted(pts, t), t).Success?
    ensures var pts1 := Inserted(pts, t);
            var located := Located(Opposite(pts1, t).value, clockwise);
            var r := MakeOne(pts, t, start, addPenpair, clockwise).value;
            forall i :: 0 <= i < |r| ==> r[i].name == Paired(pts1, t, located, start, addPenpair)[i].name
  {
    MakeOneUnfold(pts, t, start, addPenpair, clockwise);
  }

  /** `get_linear_function(m, n, 'x')` is the line through both points. */
  lemma LinearOfX(m: (real, real), n: (real, real))
    requires GetLinearFunction(m, n, "x").Success?
    ensures m.0 != n.0 && GetLinearFunction(m, n, "x").value == LineOfX(m, n)
  {
    LowerX();
  }

  /** Where the two points of the apex end up: each on its own edge, at the
      x of its opposite point. Every other point keeps its place; the names
      are the only other change. */
  lemma MakeOneGeometry(pts: seq<Point>, t: nat, start: int, addPenpair: bool, clockwise: bool)
    requires MakeOne(pts, t, start, addPenpair, clockwise).Success?
    ensures t < |pts| && Opposite(Inserted(pts, t), t).Success?
    ensures var pts1 := Inserted(pts, t);
            var (prev, next) := Located(Opposite(pts1, t).value, clockwise);
            var r := MakeOne(pts, t, start, addPenpair, clockwise).value;
            && r[t].x == pts1[prev].x && r[t].kind == Line
            && Collinear(Position(Before(pts1, t)), Position(pts[t]), Position(r[t]))
            && r[t + 1].x == pts1[next].x && r[t + 1].kind == pts[t].kind
            && Collinear(Position(pts[t]), Position(pts1[(t + 2) % |pts1|]), Position(r[t + 1]))
            && forall i :: 0 <= i < |r| && i != t && i != t + 1 ==> SameShape(pts1[i], r[i])
  {
    MakeOneUnfold(pts, t, start, addPenpair, clockwise);
    var pts1 := Inserted(pts, t);
    assert pts1[t + 1] == pts[t];
    assert Position(pts1[t]) == Position(pts[t]);
    var m, n := Position(Before(pts1, t)), Position(pts1[t]);
    var m2, n2 := Position(pts1[t + 1]), Position(pts1[(t + 2) % |pts1|]);
    LinearOfX(m, n);
    LinearOfX(m2, n2);
    var (prev, next) := Located(Opposite(pts1, t).value, clockwise);
    var q := Paired(pts1, t, (prev, next), start, addPenpair);
    var r := Slide(q, t, (pts1[prev].x, Apply(LineOfX(m, n), pts1[prev].x)), (pts1[next].x, Apply(LineOfX(m2, n2), pts1[next].x)));
    assert MakeOne(pts, t, start, addPenpair, clockwise).value == r;
    LineOfXCollinear(m, n, pts1[prev].x);
    LineOfXCollinear(m2, n2, pts1[next].x);
  }

  /** With `addPenpair`, the previous opposite point pairs with the apex
      under number `start`, and the next opposite point with the inserted
      copy under `start + 1`, the side letters swapped. */
  lemma MakeOnePairs(pts: seq<Point>, t: nat, start: int, clockwise: bool)
    requires MakeOne(pts, t, start, true, clockwise).Success?
    ensures t < |pts| && Opposite(Inserted(pts, t), t).Success?
    ensures PairsWritten(MakeOne(pts, t, start, true, clockwise).value, Inserted(pts, t), t,
                         Located(Opposite(Inserted(pts, t), t).value, clockwise), start)
  {
    MakeOneNameSource(pts, t, start, true, clockwise);
    var pts1 := Inserted(pts, t);
    InsertedAt(pts, t, t);
    InsertedAt(pts, t, t + 1);
    OppositeApart(pts1, t, clockwise);
    var located := Located(Opposite(pts1, t).value, clockwise);
    PairedWritten(pts1, t, located, start);
    NamesCarry(MakeOne(pts, t, start, true, clockwise).value, Paired(pts1, t, located, start, true), pts1, t, located, start);
  }

  /** Neither opposite point is the apex or its copy, and they differ. */
  lemma OppositeApart(pts1: seq<Point>, t: nat, clockwise: bool)
    requires t + 1 < |pts1| && pts1[t + 1].y == pts1[t].y && Opposite(pts1, t).Success?
    ensures var located := Located(Opposite(pts1, t).value, clockwise);
      && located.0 < |pts1| && located.1 < |pts1| && located.0 != located.1
      && located.0 != t && located.1 != t && located.0 != t + 1 && located.1 != t + 1
  {
    NearestApart(pts1, t, Opposite(pts1, t).value, clockwise);
  }

  lemma NearestApart(pts1: seq<Point>, t: nat, o: (nat, nat), clockwise: bool)
    requires t + 1 < |pts1| && pts1[t + 1].y == pts1[t].y && Nearest(pts1, t, o.0, o.1)
    ensures var located := Located(o, clockwise);
      && located.0 < |pts1| && located.1 < |pts1| && located.0 != located.1
      && located.0 != t && located.1 != t && located.0 != t + 1 && located.1 != t + 1
  {
  }

  /** The two pairs of an apex are written with their side letters. */
  lemma PairedWritten(pts1: seq<Point>, t: nat, located: (nat, nat), start: int)
    requires t + 1 < |pts1| && located.0 < |pts1| && located.1 < |pts1| && located.0 != located.1
    requires located.0 != t && located.1 != t && located.0 != t + 1 && located.1 != t + 1
    ensures PairsWritten(Paired(pts1, t, located, start, true), pts1, t, located, start)
  {
    TwoPairsNamed(pts1, located.0, t + 1, located.1, t, start);
  }

  lemma NamesCarry(r: seq<Point>, q: seq<Point>, pts1: seq<Point>, t: nat, located: (nat, nat), start: int)
    requires |r| == |q| == |pts1| && t + 1 < |pts1| && located.0 < |pts1| && located.1 < |pts1|
    requires forall i :: 0 <= i < |r| ==> r[i].name == q[i].name
    requires PairsWritten(q, pts1, t, located, start)
    ensures PairsWritten(r, pts1, t, located, start)
  {
  }

  /** The names one apex writes, the right point of each pair decided on
      the contour before the points slide. */
  predicate PairsWritten(r: seq<Point>, pts1: seq<Point>, t: nat, located: (nat, nat), start: int)
    requires |r| == |pts1| && t + 1 < |pts1| && located.0 < |pts1| && located.1 < |pts1|
  {
    var first := Classify(pts1, located.0, t + 1);
    var second := Classify(pts1, located.1, t);
    && r[first.0].name == Some(PenPairName(start, 'r')) && r[first.1].name == Some(PenPairName(start, 'l'))
    && r[second.0].name == Some(PenPairName(start + 1, 'l')) && r[second.1].name == Some(PenPairName(start + 1, 'r'))
  }

  /** A name numbered in a range is numbered in any wider one. */
  lemma NumberedWiden(name: Option<string>, lo: int, hi: int, lo2: int, hi2: int)
    requires NumberedIn(name, lo, hi) && lo2 <= lo && hi <= hi2
    ensures NumberedIn(name, lo2, hi2)
  {
    var n :| lo <= n < hi && (name == Some(PenPairName(n, 'r')) || name == Some(PenPairName(n, 'l')));
    assert lo2 <= n < hi2;
  }

  lemma NumberedAt(n: int, side: char, lo: int, hi: int)
    requires lo <= n < hi && (side == 'r' || side == 'l')
    ensures NumberedIn(Some(PenPairName(n, side)), lo, hi)
  {
  }

  /** Writing pairs from the `k`-th on keeps a point's name or gives it one
      of their numbers. */
  lemma {:induction false} AddPairsNames(pts: seq<Point>, pairs: seq<(nat, nat)>, start: int, twist: bool, k: nat)
    requires PairsIn(pairs, |pts|)
    ensures var r := AddPairs(pts, pairs, start, twist, k);
            forall i :: 0 <= i < |pts| ==> r[i].name == pts[i].name || NumberedIn(r[i].name, start + k, start + k + |pairs|)
    decreases |pairs|
  {
    if |pairs| > 0 {
      var (right, left) := Classify(pts, pairs[0].0, pairs[0].1);
      var (rs, ls) := Sides(k, twist);
      var named := NamePair(pts, right, left, start + k, (rs, ls));
      var r := AddPairs(pts, pairs, start, twist, k);
      assert r == AddPairs(named, pairs[1..], start, twist, k + 1);
      AddPairsNames(named, pairs[1..], start, twist, k + 1);
      forall i | 0 <= i < |pts|
        ensures r[i].name == pts[i].name || NumberedIn(r[i].name, start + k, start + k + |pairs|)
      {
        if r[i].name != named[i].name {
          NumberedWiden(r[i].name, start + k + 1, start + k + 1 + |pairs[1..]|, start + k, start + k + |pairs|);
        } else if named[i].name != pts[i].name {
          if i == left {
            NumberedAt(start + k, ls, start + k, start + k + |pairs|);
          } else {
            NumberedAt(start + k, rs, start + k, start + k + |pairs|);
          }
        }
      }
    }
  }

  /** The names in the contour after one apex: the old ones, none for the
      inserted point, and the two new pair numbers. */
  lemma MakeOneNames(pts: seq<Point>, t: nat, start: int, addPenpair: bool, clockwise: bool)
    requires MakeOne(pts, t, start, addPenpair, clockwise).Success?
    ensures var r := MakeOne(pts, t, start, addPenpair, clockwise).value;
            NamedFrom(r, pts, start, start + 2)
  {
    MakeOneNameSource(pts, t, start, addPenpair, clockwise);
    var pts1 := Inserted(pts, t);
    PairedNames(pts, t, Located(Opposite(pts1, t).value, clockwise), start, addPenpair);
  }

  lemma PairedNames(pts: seq<Point>, t: nat, located: (nat, nat), start: int, addPenpair: bool)
    requires t < |pts| && located.0 < |pts| + 1 && located.1 < |pts| + 1
    ensures var q := Paired(Inserted(pts, t), t, located, start, addPenpair);
            NamedFrom(q, pts, start, start + 2)
  {
    var pts1 := Inserted(pts, t);
    var q := Paired(pts1, t, located, start, addPenpair);
    if addPenpair {
      PairsInTwo(located.0, t + 1, located.1, t, |pts1|);
      AddPairsNames(pts1, [(located.0, t + 1), (located.1, t)], start, true, 0);
    }
    forall i | 0 <= i < |q| ensures Allowed(q[i].name, pts, start, start + 2) {
      if q[i].name == pts1[i].name && i != t {
        var j := if i < t then i else i - 1;
        InsertedAt(pts, t, i);
        assert Names(pts)[j] == pts1[i].name;
      } else if q[i].name == pts1[i].name {
        InsertedAt(pts, t, i);
      }
    }
  }

  /** The names of a contour. */
  function Names(pts: seq<Point>): (r: seq<Option<string>>)
    ensures |r| == |pts| && forall i :: 0 <= i < |pts| ==> r[i] == pts[i].name
  {
    seq(|pts|, i requires 0 <= i < |pts| => pts[i].name)
  }

  /** Every name of `r` is allowed. */
  predicate NamedFrom(r: seq<Point>, pts: seq<Point>, lo: int, hi: int) {
    forall i :: 0 <= i < |r| ==> Allowed(r[i].name, pts, lo, hi)
  }

  /** A name the run may leave: none, one the contour had, or a pen-pair
      name numbered from `lo` up to `hi`. */
  predicate Allowed(name: Option<string>, pts: seq<Point>, lo: int, hi: int) {
    name.None? || name in Names(pts) || NumberedIn(name, lo, hi)
  }

  lemma AllowedChain(name: Option<string>, pts: seq<Point>, p1: seq<Point>, lo: int, mid: int, hi: int)
    requires lo <= mid <= hi && Allowed(name, p1, mid, hi)
    requires NamedFrom(p1, pts, lo, mid)
    ensures Allowed(name, pts, lo, hi)
  {
    if name in Names(p1) {
      var j :| 0 <= j < |p1| && Names(p1)[j] == name;
      if NumberedIn(name, lo, mid) {
        NumberedWiden(name, lo, mid, lo, hi);
      }
    } else if NumberedIn(name, mid, hi) {
      NumberedWiden(name, mid, hi, lo, hi);
    }
  }

  // ---------------------------------------------------------------------------
  // The whole contour

  /** The loop of `make_triangle` over the apex indices, the pair number
      growing by two per apex. */
  function MakeAll(pts: seq<Point>, idxs: seq<nat>, start: int, addPenpair: bool, clockwise: bool): (r: Result<seq<Point>>)
    ensures r.Success? ==> |r.value| == |pts| + |idxs|
    ensures r.Failure? ==> r.error == IndexError || r.error == InputError
    decreases |idxs|
  {
    if |idxs| == 0 then Success(pts)
    else
      var p1 :- MakeOne(pts, idxs[0], start, addPenpair, clockwise);
      MakeAll(p1, idxs[1..], start + 2, addPenpair, clockwise)
  }

  /** After the whole loop every name is an old one, none, or a pen-pair
      name numbered from `start` up to two per apex. */
  lemma {:induction false} MakeAllNames(pts: seq<Point>, idxs: seq<nat>, start: int, addPenpair: bool, clockwise: bool)
    requires MakeAll(pts, idxs, start, addPenpair, clockwise).Success?
    ensures var r := MakeAll(pts, idxs, start, addPenpair, clockwise).value;
            NamedFrom(r, pts, start, start + 2 * |idxs|)
    decreases |idxs|
  {
    if |idxs| == 0 {
      OwnNames(pts, start);
    } else {
      var p1 := MakeAllStep(pts, idxs, start, addPenpair, clockwise);
      var r := MakeAll(p1, idxs[1..], start + 2, addPenpair, clockwise).value;
      MakeAllNames(p1, idxs[1..], start + 2, addPenpair, clockwise);
      assert start + 2 + 2 * |idxs[1..]| == start + 2 * |idxs|;
      ChainAll(r, pts, p1, start, start + 2 * |idxs|);
    }
  }

  /** One turn of the apex loop: a successful run named the points around
      the first apex and then ran on from the new points. */
  lemma MakeAllStep(pts: seq<Point>, idxs: seq<nat>, start: int, addPenpair: bool, clockwise: bool) returns (p1: seq<Point>)
    requires |idxs| > 0
    requires MakeAll(pts, idxs, start, addPenpair, clockwise).Success?
    ensures NamedFrom(p1, pts, start, start + 2)
    ensures MakeAll(pts, idxs, start, addPenpair, clockwise) == MakeAll(p1, idxs[1..], start + 2, addPenpair, clockwise)
  {
    p1 := MakeOne(pts, idxs[0], start, addPenpair, clockwise).value;
    MakeOneNames(pts, idxs[0], start, addPenpair, clockwise);
    assert MakeAll(pts, idxs, start, addPenpair, clockwise) == MakeAll(p1, idxs[1..], start + 2, addPenpair, clockwise);
  }

  lemma OwnNames(pts: seq<Point>, lo: int)
    ensures NamedFrom(pts, pts, lo, lo)
  {
    forall i | 0 <= i < |pts| ensures Allowed(pts[i].name, pts, lo, lo) {
      assert Names(pts)[i] == pts[i].name;
    }
  }

  lemma ChainAll(r: seq<Point>, pts: seq<Point>, p1: seq<Point>, lo: int, hi: int)
    requires lo + 2 <= hi
    requires NamedFrom(r, p1, lo + 2, hi)
    requires NamedFrom(p1, pts, lo, lo + 2)
    ensures NamedFrom(r, pts, lo, hi)
  {
    forall i | 0 <= i < |r| ensures Allowed(r[i].name, pts, lo, hi) {
      AllowedChain(r[i].name, pts, p1, lo, lo + 2, hi);
    }
  }

  /** `Triangle(glyph.contours[c]).make_triangle(add_penpair)`, the
      contour's direction given. Contours that are not triangles are left
      alone; otherwise each apex gains one point. */
  function MakeTriangle(g: Glyph, c: nat, addPenpair: bool, clockwise: bool): (r: Result<Glyph>)
    requires c < |g.contours|
    ensures !IsTriangle(g.contours[c]) ==> r == Success(g)
    ensures IsTriangle(g.contours[c]) && GlyphMaxPenpair(g.contours, 0).Failure? ==> r == Failure(ValueError)
    ensures r.Success? ==> r.value.name == g.name && |r.value.contours| == |g.contours|
    ensures r.Success? ==> forall d :: 0 <= d < |g.contours| && d != c ==> r.value.contours[d] == g.contours[d]
    ensures r.Success? ==> |r.value.contours[c]| == |g.contours[c]| + (if IsTriangle(g.contours[c]) then |FindTrianglePoints(g.contours[c])| else 0)
    ensures r.Failure? ==> r.error in {ValueError, IndexError, InputError}
  {
    var pts := g.contours[c];
    if !IsTriangle(pts) then Success(g)
    else
      var idxs := ShiftSecond(FindTrianglePoints(pts));
      var maxPenpair :- GlyphMaxPenpair(g.contours, 0);
      var start := StartNumber(maxPenpair, GlyphOnCurve(g.contours), |idxs|);
      var out :- MakeAll(pts, idxs, start, addPenpair, clockwise);
      Success(g.(contours := g.contours[c := out]))
  }

  /** A triangle contour without an apex comes back as it was. */
  lemma MakeTriangleNoApex(g: Glyph, c: nat, addPenpair: bool, clockwise: bool)
    requires c < |g.contours| && IsTriangle(g.contours[c]) && |FindTrianglePoints(g.contours[c])| == 0
    requires GlyphMaxPenpair(g.contours, 0).Success?
    ensures MakeTriangle(g, c, addPenpair, clockwise) == Success(g)
  {
    assert g.contours[c := g.contours[c]] == g.contours;
  }

  /** The names the contour ends with: its old ones, none, or pen-pair
      names numbered from the start number, two per apex. */
  lemma MakeTriangleNames(g: Glyph, c: nat, addPenpair: bool, clockwise: bool)
    requires c < |g.contours| && IsTriangle(g.contours[c])
    requires MakeTriangle(g, c, addPenpair, clockwise).Success?
    ensures |MakeTriangle(g, c, addPenpair, clockwise).value.contours| == |g.contours|
    ensures GlyphMaxPenpair(g.contours, 0).Success?
    ensures var pts := g.contours[c];
            var apexes := |FindTrianglePoints(pts)|;
            var start := StartNumber(GlyphMaxPenpair(g.contours, 0).value, GlyphOnCurve(g.contours), apexes);
            var out := MakeTriangle(g, c, addPenpair, clockwise).value.contours[c];
            NamedFrom(out, pts, start, start + 2 * apexes)
  {
    MakeTriangleLoop(g, c, addPenpair, clockwise);
    var pts := g.contours[c];
    var idxs := ShiftSecond(FindTrianglePoints(pts));
    var start := StartNumber(GlyphMaxPenpair(g.contours, 0).value, GlyphOnCurve(g.contours), |idxs|);
    MakeAllNames(pts, idxs, start, addPenpair, clockwise);
  }

  /** A successful run on a triangle contour is the loop from the start
      number. */
  lemma MakeTriangleLoop(g: Glyph, c: nat, addPenpair: bool, clockwise: bool)
    requires c < |g.contours| && IsTriangle(g.contours[c])
    requires MakeTriangle(g, c, addPenpair, clockwise).Success?
    ensures GlyphMaxPenpair(g.contours, 0).Success?
    ensures var idxs := ShiftSecond(FindTrianglePoints(g.contours[c]));
            var start := StartNumber(GlyphMaxPenpair(g.contours, 0).value, GlyphOnCurve(g.contours), |idxs|);
            && MakeAll(g.contours[c], idxs, start, addPenpair, clockwise).Success?
            && MakeTriangle(g, c, addPenpair, clockwise).value.contours[c]
               == MakeAll(g.contours[c], idxs, start, addPenpair, clockwise).value
  {
  }
}
