/** Pen-pair numbering: the penPair numbers of a glyph, their maximum and
    minimum, and `Ordering.attributes_ordering`, which shifts the number
    inside each listed attribute value by a padding (`z3l` becomes `z6l`
    with padding 3).

    The padding is fixed at construction by the subclass hook
    `calculate_padding`, a parameter here. Both versions rewrite names
    through an `Attribute` object; the current one notifies the glyph once
    per rewrite, the older one once at the end. */
module Ordering {
  import opened Wrappers
  import opened Text
  import opened ODict
  import opened Codec
  import opened Outline
  import opened Attributes

  // ---------------------------------------------------------------------------
  // Pen-pair numbers

  /** `int(get_attr(point, 'penPair')[1:-1])`. */
  function PenValue(p: Point): (r: Result<int>)
    ensures r.Success? <==> PenKey(p).Success? && ParseInt(PenKey(p).value).Some?
    ensures r.Success? ==> r.value == ParseInt(PenKey(p).value).value
  {
    var key :- PenKey(p);
    match ParseInt(key)
    case None => Failure(ValueError)
    case Some(n) => Success(n)
  }

  function OnCurvePoints(c: Contour): (ps: seq<Point>)
    ensures |ps| <= |c|
    ensures forall i :: 0 <= i < |ps| ==> OnCurve(ps[i]) && ps[i] in c
    ensures forall p :: p in c && OnCurve(p) ==> p in ps
  {
    if |c| == 0 then []
    else if OnCurve(c[0]) then [c[0]] + OnCurvePoints(c[1..])
    else OnCurvePoints(c[1..])
  }

  /** `_get_penpair_values(contour)`: the number of every on-curve point, in
      contour order; the first point without one stops it with its error. */
  function GetPenpairValues(c: Contour): (r: Result<seq<int>>)
    ensures r.Success? <==> forall p :: p in c && OnCurve(p) ==> PenValue(p).Success?
    ensures r.Success? ==> |r.value| == |OnCurvePoints(c)|
    ensures r.Success? ==> forall i :: 0 <= i < |r.value| ==> r.value[i] == PenValue(OnCurvePoints(c)[i]).value
  {
    ValuesOf(OnCurvePoints(c))
  }

  function ValuesOf(ps: seq<Point>): (r: Result<seq<int>>)
    ensures r.Success? <==> forall p :: p in ps ==> PenValue(p).Success?
    ensures r.Success? ==> |r.value| == |ps|
    ensures r.Success? ==> forall i :: 0 <= i < |ps| ==> r.value[i] == PenValue(ps[i]).value
  {
    if |ps| == 0 then Success([])
    else
      var v :- PenValue(ps[0]);
      var vs :- ValuesOf(ps[1..]);
      Success([v] + vs)
  }

  /** All the numbers of a glyph, contour by contour. */
  function GlyphPenValues(cs: seq<Contour>): (r: Result<seq<int>>)
    ensures r.Success? <==> forall c, p :: c in cs && p in c && OnCurve(p) ==> PenValue(p).Success?
  {
    if |cs| == 0 then Success([])
    else
      assert forall c :: c in cs <==> c == cs[0] || c in cs[1..];
      var v :- GetPenpairValues(cs[0]);
      var vs :- GlyphPenValues(cs[1..]);
      Success(v + vs)
  }

  /** Some on-curve point of `c` carries the number `v`. */
  predicate Carries(c: Contour, v: int) {
    exists p :: p in c && OnCurve(p) && PenValue(p) == Success(v)
  }

  /** The numbers of one contour are exactly those of its on-curve points. */
  lemma ContourValuesMembers(c: Contour, v: int)
    requires GetPenpairValues(c).Success?
    ensures v in GetPenpairValues(c).value <==> Carries(c, v)
  {
    var vs := GetPenpairValues(c).value;
    var ons := OnCurvePoints(c);
    if v in vs {
      var i :| 0 <= i < |vs| && vs[i] == v;
      assert ons[i] in c && OnCurve(ons[i]) && PenValue(ons[i]) == Success(v);
    }
    if Carries(c, v) {
      var p :| p in c && OnCurve(p) && PenValue(p) == Success(v);
      var i :| 0 <= i < |ons| && ons[i] == p;
      assert vs[i] == v;
    }
  }

  /** The numbers collected are exactly those of the on-curve points. */
  lemma {:induction false} GlyphPenValuesMembers(cs: seq<Contour>, v: int)
    requires GlyphPenValues(cs).Success?
    ensures v in GlyphPenValues(cs).value <==> exists c :: c in cs && Carries(c, v)
    decreases |cs|
  {
    if |cs| > 0 {
      assert forall c :: c in cs <==> c == cs[0] || c in cs[1..];
      ContourValuesMembers(cs[0], v);
      GlyphPenValuesMembers(cs[1..], v);
      assert GlyphPenValues(cs).value == GetPenpairValues(cs[0]).value + GlyphPenValues(cs[1..]).value;
    }
  }

  function Max(s: seq<int>): (m: int)
    requires |s| > 0
    ensures m in s && forall x :: x in s ==> x <= m
  {
    if |s| == 1 then s[0]
    else
      var m := Max(s[1..]);
      assert forall x :: x in s ==> x == s[0] || x in s[1..];
      if s[0] >= m then s[0] else m
  }

  function Min(s: seq<int>): (m: int)
    requires |s| > 0
    ensures m in s && forall x :: x in s ==> m <= x
  {
    if |s| == 1 then s[0]
    else
      var m := Min(s[1..]);
      assert forall x :: x in s ==> x == s[0] || x in s[1..];
      if s[0] <= m then s[0] else m
  }

  /** `get_max_penpair(glyph)`: ValueError (from `max`) for a glyph without
      on-curve points. */
  function GetMaxPenpair(g: Glyph): (r: Result<int>)
    ensures GlyphPenValues(g.contours).Failure? ==> r.Failure?
    ensures GlyphPenValues(g.contours) == Success([]) ==> r == Failure(ValueError)
    ensures r.Success? ==> GlyphPenValues(g.contours).Success?
    ensures r.Success? ==> var vs := GlyphPenValues(g.contours).value;
              r.value in vs && forall x :: x in vs ==> x <= r.value
  {
    var vs :- GlyphPenValues(g.contours);
    if |vs| == 0 then Failure(ValueError) else Success(Max(vs))
  }

  /** `get_min_penpair(glyph)`. */
  function GetMinPenpair(g: Glyph): (r: Result<int>)
    ensures GlyphPenValues(g.contours).Failure? ==> r.Failure?
    ensures GlyphPenValues(g.contours) == Success([]) ==> r == Failure(ValueError)
    ensures r.Success? ==> GlyphPenValues(g.contours).Success?
    ensures r.Success? ==> var vs := GlyphPenValues(g.contours).value;
              r.value in vs && forall x :: x in vs ==> r.value <= x
  {
    var vs :- GlyphPenValues(g.contours);
    if |vs| == 0 then Failure(ValueError) else Success(Min(vs))
  }

  // ---------------------------------------------------------------------------
  // Shifting one value

  /** `v[0] + str(int(v[1:-1]) + padding) + v[-1]`: TypeError for None,
      IndexError for "", ValueError when the middle is not a number. */
  function Bump(v: Option<string>, padding: int): (r: Result<string>)
    ensures v.None? ==> r == Failure(TypeError)
    ensures v == Some("") ==> r == Failure(IndexError)
    ensures r.Success? ==> |v.value| > 0 && |r.value| >= 3
    ensures r.Success? ==> r.value[0] == v.value[0] && r.value[|r.value| - 1] == v.value[|v.value| - 1]
    ensures r.Success? ==> ParseInt(Inner(v.value)).Some?
    ensures r.Success? ==> ParseInt(Inner(r.value)) == Some(ParseInt(Inner(v.value)).value + padding)
  {
    match v
    case None => Failure(TypeError)
    case Some(s) =>
      if |s| == 0 then Failure(IndexError)
      else match ParseInt(Inner(s))
        case None => Failure(ValueError)
        case Some(n) =>
          var out := [s[0]] + IntToString(n + padding) + [s[|s| - 1]];
          assert Inner(out) == IntToString(n + padding);
          ParseIntOfIntToString(n + padding);
          Success(out)
  }

  /** The documented example. */
  lemma BumpExample()
    ensures Bump(Some("z3l"), 3) == Success("z6l")
  {
    assert Inner("z3l") == "3";
    assert DigitsValue("3") == 3 by { assert "3"[..0] == ""; }
    ParseIntOfDigits("3");
    assert IntToString(6) == "6" by { assert DigitChar(6) == '6'; }
    assert ['z'] + IntToString(3 + 3) + ['l'] == "z6l";
  }

  /** `s[0] + middle + s[-1]`. */
  function Rewrap(s: string, middle: string): string
    requires |s| > 0
  {
    [s[0]] + middle + [s[|s| - 1]]
  }

  lemma BumpValue(s: string, n: int, p: int, total: int)
    requires |s| > 0 && ParseInt(Inner(s)) == Some(n) && total == n + p
    ensures Bump(Some(s), p) == Success(Rewrap(s, IntToString(total)))
  {
  }

  /** Shifting a shifted value keeps the outer characters of the original. */
  lemma BumpAgain(v: Option<string>, p: int, q: int)
    requires Bump(v, p).Success?
    ensures v.Some? && |v.value| > 0 && ParseInt(Inner(v.value)).Some?
    ensures Bump(Some(Bump(v, p).value), q) == Success(Rewrap(v.value, IntToString(ParseInt(Inner(v.value)).value + p + q)))
  {
    var s := v.value;
    var n := ParseInt(Inner(s)).value;
    var out := Bump(v, p).value;
    var m := IntToString(n + p + q);
    assert |out| > 0 && ParseInt(Inner(out)) == Some(n + p);
    BumpValue(out, n + p, q, n + p + q);
    assert out[0] == s[0] && out[|out| - 1] == s[|s| - 1];
    assert Rewrap(out, m) == Rewrap(s, m);
  }

  /** Shifting by `p` and then by `q` is shifting by `p + q`. */
  lemma BumpCompose(v: Option<string>, p: int, q: int)
    requires Bump(v, p).Success?
    ensures Bump(Some(Bump(v, p).value), q) == Bump(v, p + q)
  {
    BumpAgain(v, p, q);
    var n := ParseInt(Inner(v.value)).value;
    BumpValue(v.value, n, p + q, n + p + q);
  }

  // ---------------------------------------------------------------------------
  // One point

  /** The listed attributes of one point, shifted in turn through its
      `Attribute` object; also the number of `set_attr` calls that rewrote the
      name. */
  function OrderPoint(o: AttributeObj, keys: seq<string>, padding: int): (r: Result<(AttributeObj, nat)>)
    ensures |keys| == 0 ==> r == Success((o, 0))
    ensures r.Success? ==> r.value.1 == |keys|
    ensures r.Success? ==> Keys(r.value.0.attrs) == Keys(o.attrs)
    ensures r.Success? ==> SameShape(o.point, r.value.0.point)
    ensures r.Success? ==> forall k :: k in keys ==> HasKey(o.attrs, k)
    decreases |keys|
  {
    if |keys| == 0 then Success((o, 0))
    else
      var nv :- Bump(AttrGet(o, keys[0]), padding);
      assert HasKey(o.attrs, keys[0]);
      var u := AttrSet(o, keys[0], nv);
      PutKeys(o.attrs, keys[0], nv);
      assert Keys(u.obj.attrs) == Keys(o.attrs);
      var (o2, n) :- OrderPoint(u.obj, keys[1..], padding);
      assert forall k :: k in keys[1..] ==> HasKey(o.attrs, k);
      assert forall k :: k in keys ==> k == keys[0] || k in keys[1..];
      Success((o2, n + 1))
  }

  predicate Distinct(keys: seq<string>) {
    forall i, j :: 0 <= i < j < |keys| ==> keys[i] != keys[j]
  }

  /** One step of `OrderPoint`: the first key is shifted, then the rest. */
  lemma OrderPointStep(o: AttributeObj, keys: seq<string>, padding: int)
    requires |keys| > 0 && OrderPoint(o, keys, padding).Success?
    ensures Bump(Get(o.attrs, keys[0]), padding).Success?
    ensures var u := AttrSet(o, keys[0], Bump(Get(o.attrs, keys[0]), padding).value);
      u.obj.attrs == Put(o.attrs, keys[0], Bump(Get(o.attrs, keys[0]), padding).value)
      && OrderPoint(u.obj, keys[1..], padding).Success?
      && OrderPoint(o, keys, padding).value.0 == OrderPoint(u.obj, keys[1..], padding).value.0
  {
  }

  lemma DistinctTail(keys: seq<string>)
    requires |keys| > 0 && Distinct(keys)
    ensures Distinct(keys[1..]) && keys[0] !in keys[1..]
  {
    forall i | 0 <= i < |keys[1..]| ensures keys[1..][i] != keys[0] {
      assert keys[1..][i] == keys[i + 1];
    }
  }

  /** With distinct listed attributes, each listed value ends up shifted once
      and every other attribute keeps its value. */
  lemma {:induction false} OrderPointValues(o: AttributeObj, keys: seq<string>, padding: int, k: string)
    requires OrderPoint(o, keys, padding).Success? && Distinct(keys)
    ensures k in keys ==>
              Bump(Get(o.attrs, k), padding).Success?
              && Get(OrderPoint(o, keys, padding).value.0.attrs, k) == Some(Bump(Get(o.attrs, k), padding).value)
    ensures k !in keys ==> Get(OrderPoint(o, keys, padding).value.0.attrs, k) == Get(o.attrs, k)
    decreases |keys|
  {
    if |keys| > 0 {
      OrderPointStep(o, keys, padding);
      var nv := Bump(Get(o.attrs, keys[0]), padding).value;
      var u := AttrSet(o, keys[0], nv);
      PutGet(o.attrs, keys[0], nv, k);
      DistinctTail(keys);
      OrderPointValues(u.obj, keys[1..], padding, k);
      var out := OrderPoint(o, keys, padding).value.0.attrs;
      assert out == OrderPoint(u.obj, keys[1..], padding).value.0.attrs;
      if k == keys[0] {
        assert Get(out, k) == Get(u.obj.attrs, k) == Some(nv);
      } else {
        var before := Get(o.attrs, k);
        assert Get(u.obj.attrs, k) == before;
        assert k in keys <==> k in keys[1..];
        if k in keys {
          assert Get(out, k) == Some(Bump(before, padding).value);
        } else {
          assert Get(out, k) == before;
        }
      }
    }
  }

  /** A shifted value of a clean dictionary is itself plain text, so the
      rewritten name still denotes the object's dictionary. */
  lemma {:induction false} OrderPointSynced(o: AttributeObj, keys: seq<string>, padding: int)
    requires OrderPoint(o, keys, padding).Success? && Clean(o.attrs) && |keys| > 0
    ensures Clean(OrderPoint(o, keys, padding).value.0.attrs)
    ensures Synced(OrderPoint(o, keys, padding).value.0)
    decreases |keys|
  {
    var nv := Bump(AttrGet(o, keys[0]), padding).value;
    var u := AttrSet(o, keys[0], nv);
    var v := AttrGet(o, keys[0]).value;
    assert (keys[0], v) in o.attrs;
    assert Plain(v);
    BumpPlain(v, padding);
    AttrMethodsSync(o, keys[0], nv);
    PutClean(o.attrs, keys[0], nv) by { KeyPlain(o.attrs, keys[0]); }
    if |keys| > 1 {
      OrderPointSynced(u.obj, keys[1..], padding);
    }
  }

  lemma BumpPlain(v: string, padding: int)
    requires Plain(v) && Bump(Some(v), padding).Success?
    ensures Plain(Bump(Some(v), padding).value)
  {
    var n := ParseInt(Inner(v)).value;
    var digits := IntToString(n + padding);
    IntToStringPlain(n + padding);
    var out := [v[0]] + digits + [v[|v| - 1]];
    assert Bump(Some(v), padding) == Success(out);
    forall i | 0 <= i < |out| ensures PlainChar(out[i]) {
      if 0 < i < |out| - 1 {
        assert out[i] == digits[i - 1];
      }
    }
  }


  // ---------------------------------------------------------------------------
  // The whole glyph

  /** One point of `attributes_ordering`: off-curve points are skipped;
      `glif` stands for the glyph file the current `Attribute` reads when a
      point has no name. */
  function OrderOne(p: Point, ref: PointRef, keys: seq<string>, padding: int,
                    glif: PointRef -> Result<Attrs>): (r: Result<(Point, nat)>)
    ensures !OnCurve(p) ==> r == Success((p, 0))
    ensures r.Success? ==> SameShape(p, r.value.0)
    ensures r.Success? && OnCurve(p) ==> r.value.1 == |keys|
  {
    if !OnCurve(p) then Success((p, 0))
    else
      var o :- NewAttribute(p, glif(ref));
      var (o2, m) :- OrderPoint(o, keys, padding);
      Success((o2.point, m))
  }

  /** The points of contour `ci` from index `j` on. */
  function OrderPoints(ps: seq<Point>, ci: nat, j: nat, keys: seq<string>, padding: int,
                       glif: PointRef -> Result<Attrs>): (r: Result<(seq<Point>, nat)>)
    ensures r.Success? ==> |r.value.0| == |ps|
    decreases |ps|
  {
    if |ps| == 0 then Success(([], 0))
    else
      var (p, m) :- OrderOne(ps[0], PointRef(ci, j), keys, padding, glif);
      var (rest, n) :- OrderPoints(ps[1..], ci, j + 1, keys, padding, glif);
      Success(([p] + rest, m + n))
  }

  /** `qs` is `ps` with positions and types kept and off-curve points
      untouched. */
  predicate PointsKept(ps: seq<Point>, qs: seq<Point>) {
    |qs| == |ps| && forall i :: 0 <= i < |ps| ==> SameShape(ps[i], qs[i]) && (!OnCurve(ps[i]) ==> qs[i] == ps[i])
  }

  lemma PointsKeptCons(ps: seq<Point>, qs: seq<Point>)
    requires |ps| > 0 && |qs| == |ps| && SameShape(ps[0], qs[0]) && (!OnCurve(ps[0]) ==> qs[0] == ps[0])
    requires PointsKept(ps[1..], qs[1..])
    ensures PointsKept(ps, qs)
  {
    forall i | 1 <= i < |ps| ensures SameShape(ps[i], qs[i]) && (!OnCurve(ps[i]) ==> qs[i] == ps[i]) {
      assert ps[i] == ps[1..][i - 1] && qs[i] == qs[1..][i - 1];
    }
  }

  /** Positions and types are kept and off-curve points are untouched. */
  lemma {:induction false} OrderPointsShape(ps: seq<Point>, ci: nat, j: nat, keys: seq<string>, padding: int,
                                            glif: PointRef -> Result<Attrs>)
    requires OrderPoints(ps, ci, j, keys, padding, glif).Success?
    ensures PointsKept(ps, OrderPoints(ps, ci, j, keys, padding, glif).value.0)
    decreases |ps|
  {
    if |ps| > 0 {
      var r := OrderPoints(ps, ci, j, keys, padding, glif).value.0;
      var rest := OrderPoints(ps[1..], ci, j + 1, keys, padding, glif);
      OrderPointsShape(ps[1..], ci, j + 1, keys, padding, glif);
      assert r[1..] == rest.value.0;
      PointsKeptCons(ps, r);
    }
  }

  lemma MulAdd(a: int, b: int, c: int)
    ensures a * (b + c) == a * b + a * c
  {
  }

  /** `k` writes for each on-curve point. */
  function Writes(ps: seq<Point>, k: nat): nat {
    if |ps| == 0 then 0 else (if OnCurve(ps[0]) then k else 0) + Writes(ps[1..], k)
  }

  lemma {:induction false} WritesProduct(ps: seq<Point>, k: nat)
    ensures Writes(ps, k) == k * CountOnCurve(ps)
    decreases |ps|
  {
    if |ps| > 0 {
      WritesProduct(ps[1..], k);
      MulAdd(k, if OnCurve(ps[0]) then 1 else 0, CountOnCurve(ps[1..]));
    }
  }

  lemma {:induction false} OrderPointsWrites(ps: seq<Point>, ci: nat, j: nat, keys: seq<string>, padding: int,
                                             glif: PointRef -> Result<Attrs>)
    requires OrderPoints(ps, ci, j, keys, padding, glif).Success?
    ensures OrderPoints(ps, ci, j, keys, padding, glif).value.1 == Writes(ps, |keys|)
    decreases |ps|
  {
    if |ps| > 0 {
      OrderPointsWrites(ps[1..], ci, j + 1, keys, padding, glif);
    }
  }

  /** Every listed attribute of every on-curve point is rewritten once. */
  lemma OrderPointsCount(ps: seq<Point>, ci: nat, j: nat, keys: seq<string>, padding: int,
                         glif: PointRef -> Result<Attrs>)
    requires OrderPoints(ps, ci, j, keys, padding, glif).Success?
    ensures OrderPoints(ps, ci, j, keys, padding, glif).value.1 == |keys| * CountOnCurve(ps)
  {
    OrderPointsWrites(ps, ci, j, keys, padding, glif);
    WritesProduct(ps, |keys|);
  }

  function OrderContours(cs: seq<Contour>, ci: nat, keys: seq<string>, padding: int,
                         glif: PointRef -> Result<Attrs>): (r: Result<(seq<Contour>, nat)>)
    ensures r.Success? ==> |r.value.0| == |cs|
    decreases |cs|
  {
    if |cs| == 0 then Success(([], 0))
    else
      var (c0, n) :- OrderPoints(cs[0], ci, 0, keys, padding, glif);
      var (rest, m) :- OrderContours(cs[1..], ci + 1, keys, padding, glif);
      Success(([c0] + rest, n + m))
  }

  /** Every contour of `out` is the same contour of `cs` with positions and
      types kept and off-curve points untouched. */
  predicate ContoursKept(cs: seq<Contour>, out: seq<Contour>) {
    |out| == |cs| && forall c :: 0 <= c < |cs| ==> PointsKept(cs[c], out[c])
  }

  lemma ContoursKeptCons(cs: seq<Contour>, out: seq<Contour>)
    requires |cs| > 0 && |out| == |cs| && PointsKept(cs[0], out[0]) && ContoursKept(cs[1..], out[1..])
    ensures ContoursKept(cs, out)
  {
    forall c | 1 <= c < |cs| ensures PointsKept(cs[c], out[c]) {
      assert cs[c] == cs[1..][c - 1] && out[c] == out[1..][c - 1];
    }
  }

  lemma {:induction false} OrderContoursShape(cs: seq<Contour>, ci: nat, keys: seq<string>, padding: int,
                                              glif: PointRef -> Result<Attrs>)
    requires OrderContours(cs, ci, keys, padding, glif).Success?
    ensures ContoursKept(cs, OrderContours(cs, ci, keys, padding, glif).value.0)
    decreases |cs|
  {
    if |cs| > 0 {
      var out := OrderContours(cs, ci, keys, padding, glif).value.0;
      OrderPointsShape(cs[0], ci, 0, keys, padding, glif);
      OrderContoursShape(cs[1..], ci + 1, keys, padding, glif);
      assert out[0] == OrderPoints(cs[0], ci, 0, keys, padding, glif).value.0;
      assert out[1..] == OrderContours(cs[1..], ci + 1, keys, padding, glif).value.0;
      ContoursKeptCons(cs, out);
    }
  }

  lemma {:induction false} OrderContoursCount(cs: seq<Contour>, ci: nat, keys: seq<string>, padding: int,
                                              glif: PointRef -> Result<Attrs>)
    requires OrderContours(cs, ci, keys, padding, glif).Success?
    ensures OrderContours(cs, ci, keys, padding, glif).value.1 == |keys| * GlyphOnCurve(cs)
    decreases |cs|
  {
    if |cs| > 0 {
      var n := OrderPoints(cs[0], ci, 0, keys, padding, glif).value.1;
      var m := OrderContours(cs[1..], ci + 1, keys, padding, glif).value.1;
      assert OrderContours(cs, ci, keys, padding, glif).value.1 == n + m;
      OrderPointsCount(cs[0], ci, 0, keys, padding, glif);
      OrderContoursCount(cs[1..], ci + 1, keys, padding, glif);
      MulAdd(|keys|, CountOnCurve(cs[0]), GlyphOnCurve(cs[1..]));
      assert GlyphOnCurve(cs) == CountOnCurve(cs[0]) + GlyphOnCurve(cs[1..]);
    }
  }

  /** `Ordering(glyph, *attributes, padding).attributes_ordering()` in the
      current version: the hook fixes the padding; padding 0 returns before
      anything is read; otherwise every rewrite notifies the glyph. */
  function AttributesOrdering(g: Glyph, keys: seq<string>, padding: int,
                              calculatePadding: (Glyph, int) -> int,
                              glif: PointRef -> Result<Attrs>): (r: Result<Edit>)
    ensures calculatePadding(g, padding) == 0 ==> r == Success(Edit(g, 0))
    ensures r.Success? ==> r.value.glyph.name == g.name && |r.value.glyph.contours| == |g.contours|
    ensures r.Success? && calculatePadding(g, padding) != 0 ==>
              r.value.notifications == |keys| * GlyphOnCurve(g.contours)
  {
    var pad := calculatePadding(g, padding);
    if pad == 0 then Success(Edit(g, 0))
    else
      var (cs, n) :- OrderContours(g.contours, 0, keys, pad, glif);
      OrderContoursCount(g.contours, 0, keys, pad, glif);
      Success(Edit(g.(contours := cs), n))
  }

  /** Positions and point types are kept, and off-curve points are not
      touched. */
  lemma AttributesOrderingShape(g: Glyph, keys: seq<string>, padding: int,
                                calculatePadding: (Glyph, int) -> int, glif: PointRef -> Result<Attrs>)
    requires AttributesOrdering(g, keys, padding, calculatePadding, glif).Success?
    ensures var h := AttributesOrdering(g, keys, padding, calculatePadding, glif).value.glyph;
      forall r :: ValidRef(g, r) ==>
        ValidRef(h, r) && SameShape(At(g, r), At(h, r)) && (!OnCurve(At(g, r)) ==> At(h, r) == At(g, r))
  {
    var pad := calculatePadding(g, padding);
    if pad != 0 {
      OrderContoursShape(g.contours, 0, keys, pad, glif);
    }
  }

  /** The older `attributes_ordering`: the same rewrites (its `Attribute`
      starts from `{}` for a point without a name), then exactly one
      notification; none when the padding is 0. */
  function LegacyAttributesOrdering(g: Glyph, keys: seq<string>, padding: int,
                                    calculatePadding: (Glyph, int) -> int): (r: Result<Edit>)
    ensures calculatePadding(g, padding) == 0 ==> r == Success(Edit(g, 0))
    ensures calculatePadding(g, padding) != 0 && r.Success? ==> r.value.notifications == 1
    ensures r.Success? <==> AttributesOrdering(g, keys, padding, calculatePadding, _ => Success([])).Success?
    ensures r.Success? ==> r.value.glyph == AttributesOrdering(g, keys, padding, calculatePadding, _ => Success([])).value.glyph
  {
    var pad := calculatePadding(g, padding);
    if pad == 0 then Success(Edit(g, 0))
    else
      var (cs, _) :- OrderContours(g.contours, 0, keys, pad, _ => Success([]));
      Success(Edit(g.(contours := cs), 1))
  }

  /** The older `Attribute` constructor is the current one with an empty
      fallback. */
  lemma LegacyAttributeIsEmptyFallback(p: Point)
    ensures LegacyNewAttribute(p) == NewAttribute(p, Success([]))
  {
  }
}
