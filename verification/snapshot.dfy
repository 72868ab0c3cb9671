/** What a classifier reads of a glyph, taken once before it tags anything:
    the outline with the names dropped, and the values of the few keys it
    asks for. The scripts read both through the live glyph, but they finish
    reading before their first `add_attr`, so reading a snapshot is the
    same. A snapshot also makes plain that tagging a key the classifier
    does not read leaves everything it reads as it was
    (`TaggedSnapshot`). */
module Snapshot {
  import opened Wrappers
  import opened Text
  import opened ODict
  import opened Codec
  import opened Outline
  import opened Attributes

  /** `get_attr(point, key)` for some points and keys. */
  type Table = map<(PointRef, string), Result<Option<string>>>

  /** The glyph with every point name dropped. */
  function Strip(g: Glyph): (s: Glyph)
    ensures s.name == g.name && |s.contours| == |g.contours|
    ensures forall c :: 0 <= c < |g.contours| ==> |s.contours[c]| == |g.contours[c]|
    ensures forall r :: ValidRef(g, r) <==> ValidRef(s, r)
    ensures forall r :: ValidRef(g, r) ==> At(s, r) == At(g, r).(name := None)
  {
    Glyph(g.name, seq(|g.contours|, c requires 0 <= c < |g.contours| =>
      seq(|g.contours[c]|, i requires 0 <= i < |g.contours[c]| => g.contours[c][i].(name := None))))
  }

  /** Points of the stripped glyph are points of the glyph. */
  lemma StripValid(g: Glyph, refs: seq<PointRef>)
    requires AllValid(Strip(g), refs)
    ensures AllValid(g, refs)
  {
    forall i | 0 <= i < |refs| ensures ValidRef(g, refs[i]) {
      assert ValidRef(Strip(g), refs[i]);
    }
  }

  /** Dropping the names keeps every point and its kind. */
  lemma StripPoints(g: Glyph, offcurve: bool)
    ensures AllPoints(Strip(g), offcurve) == AllPoints(g, offcurve)
  {
  }

  /** The value of every key of `keys` at every point of `g`. */
  function TableOf(g: Glyph, keys: set<string>): (t: Table)
    ensures forall r, k :: (r, k) in t <==> ValidRef(g, r) && k in keys
    ensures forall r, k :: ValidRef(g, r) && k in keys ==> t[(r, k)] == GetAttr(At(g, r), k)
  {
    map r, k | r in AllPoints(g, true) && k in keys :: (r, k) := GetAttr(At(g, r), k)
  }

  /** Two glyphs with the same outline. */
  lemma TaggedStrip(g: Glyph, h: Glyph, tags: set<string>)
    requires Tagged(g, h, tags)
    ensures Strip(h) == Strip(g)
  {
    var a, b := Strip(g), Strip(h);
    forall c | 0 <= c < |a.contours| ensures a.contours[c] == b.contours[c] {
      forall i | 0 <= i < |a.contours[c]| ensures a.contours[c][i] == b.contours[c][i] {
        assert ValidRef(g, PointRef(c, i));
        assert SameShape(At(g, PointRef(c, i)), At(h, PointRef(c, i)));
      }
    }
  }

  /** Tagging keys a classifier does not read changes nothing it reads. */
  lemma TaggedSnapshot(g: Glyph, h: Glyph, tags: set<string>, keys: set<string>)
    requires Tagged(g, h, tags) && keys !! tags
    ensures Strip(h) == Strip(g) && TableOf(h, keys) == TableOf(g, keys)
  {
    TaggedStrip(g, h, tags);
    assert forall r :: ValidRef(g, r) <==> ValidRef(h, r) by {
      forall r ensures ValidRef(g, r) <==> ValidRef(h, r) {
        assert ValidRef(g, r) <==> ValidRef(Strip(g), r);
        assert ValidRef(h, r) <==> ValidRef(Strip(h), r);
      }
    }
    forall r, k | ValidRef(g, r) && k in keys ensures GetAttr(At(h, r), k) == GetAttr(At(g, r), k) {
      TaggedGet(g, h, tags, r, k);
    }
    SameTable(g, h, keys);
  }

  /** Two glyphs with the same points and the same values of `keys` have
      the same table. */
  lemma SameTable(g: Glyph, h: Glyph, keys: set<string>)
    requires forall r :: ValidRef(g, r) <==> ValidRef(h, r)
    requires forall r, k :: ValidRef(g, r) && k in keys ==> GetAttr(At(h, r), k) == GetAttr(At(g, r), k)
    ensures TableOf(h, keys) == TableOf(g, keys)
  {
    SameTableKeys(g, h, keys);
    SameTableValues(g, h, keys);
    MapExt(TableOf(g, keys), TableOf(h, keys));
  }

  lemma SameTableKeys(g: Glyph, h: Glyph, keys: set<string>)
    requires forall r :: ValidRef(g, r) <==> ValidRef(h, r)
    ensures TableOf(g, keys).Keys == TableOf(h, keys).Keys
  {
  }

  lemma SameTableValues(g: Glyph, h: Glyph, keys: set<string>)
    requires forall r :: ValidRef(g, r) <==> ValidRef(h, r)
    requires forall r, k :: ValidRef(g, r) && k in keys ==> GetAttr(At(h, r), k) == GetAttr(At(g, r), k)
    ensures forall x :: x in TableOf(g, keys) ==> x in TableOf(h, keys) && TableOf(g, keys)[x] == TableOf(h, keys)[x]
  {
    var a, b := TableOf(g, keys), TableOf(h, keys);
    forall x | x in a ensures x in b && a[x] == b[x] {
      assert ValidRef(g, x.0) && x.1 in keys;
    }
  }

  lemma MapExt<K, V>(a: map<K, V>, b: map<K, V>)
    requires a.Keys == b.Keys && forall x :: x in a ==> a[x] == b[x]
    ensures a == b
  {
  }

  /** A key looked up in the table. A key the table does not hold reads as
      KeyError; the classifiers only read keys their table holds. */
  function Read(t: Table, r: PointRef, k: string): Result<Option<string>> {
    if (r, k) in t then t[(r, k)] else Failure(KeyError)
  }

  /** Reading the table is reading the point's name. */
  lemma ReadTable(g: Glyph, keys: set<string>, r: PointRef, k: string)
    requires ValidRef(g, r) && k in keys
    ensures Read(TableOf(g, keys), r, k) == GetAttr(At(g, r), k)
  {
  }

  // ---------------------------------------------------------------------------
  // Pen pairs

  /** `get_attr(point, 'penPair')[1:-1]`: TypeError where the key is
      missing, since None cannot be sliced. */
  function PenKeyOf(t: Table, r: PointRef): Result<string> {
    var v :- Read(t, r, "penPair");
    if v.None? then Failure(TypeError) else Success(Inner(v.value))
  }

  /** The same key as `PenKey` reads from the point. */
  lemma PenKeyOfTable(g: Glyph, keys: set<string>, r: PointRef)
    requires ValidRef(g, r) && "penPair" in keys
    ensures PenKeyOf(TableOf(g, keys), r) == PenKey(At(g, r))
  {
    ReadTable(g, keys, r, "penPair");
  }

  /** The pen-pair key of each point, in order. */
  function PenKeysOf(t: Table, refs: seq<PointRef>): (ks: seq<Result<string>>)
    ensures |ks| == |refs| && forall i :: 0 <= i < |refs| ==> ks[i] == PenKeyOf(t, refs[i])
  {
    seq(|refs|, i requires 0 <= i < |refs| => PenKeyOf(t, refs[i]))
  }

  /** `for point in refs: d.setdefault(penpair, []).append(point)`: the
      first point without a pen pair stops the fold with its error. */
  function GroupByPen(t: Table, refs: seq<PointRef>, acc: Dict<seq<PointRef>>): Result<Dict<seq<PointRef>>> {
    GroupByKeys(PenKeysOf(t, refs), refs, acc)
  }

  /** The fold succeeds exactly when every point has a pen pair. */
  lemma GroupByPenSuccess(t: Table, refs: seq<PointRef>, acc: Dict<seq<PointRef>>)
    ensures GroupByPen(t, refs, acc).Success? <==> forall i :: 0 <= i < |refs| ==> PenKeyOf(t, refs[i]).Success?
  {
    GroupByKeysSuccess(PenKeysOf(t, refs), refs, acc);
  }

  /** The fold adds each point to the group of its own key and nothing else. */
  lemma GroupByPenMembers(t: Table, refs: seq<PointRef>, acc: Dict<seq<PointRef>>)
    requires GroupByPen(t, refs, acc).Success?
    ensures forall k, q :: InGroup(GroupByPen(t, refs, acc).value, k, q) <==>
              InGroup(acc, k, q) || (q in refs && PenKeyOf(t, q) == Success(k))
  {
    var keys := PenKeysOf(t, refs);
    GroupByKeysMembers(keys, refs, acc);
    forall k, q ensures KeyedAs(keys, refs, k, q) <==> q in refs && PenKeyOf(t, q) == Success(k) {
      if q in refs {
        var i :| 0 <= i < |refs| && refs[i] == q;
        assert keys[i] == PenKeyOf(t, q);
      }
    }
  }

  /** The fold lists only points it was given. */
  lemma GroupByPenDrawn(t: Table, refs: seq<PointRef>, acc: Dict<seq<PointRef>>, all: seq<PointRef>)
    requires DrawnFrom(acc, all) && forall i :: 0 <= i < |refs| ==> refs[i] in all
    requires GroupByPen(t, refs, acc).Success?
    ensures DrawnFrom(GroupByPen(t, refs, acc).value, all)
  {
    GroupByKeysDrawn(PenKeysOf(t, refs), refs, acc, all);
  }

  /** A failed fold fails with the error of a point it was given. */
  lemma GroupByPenFirstError(t: Table, refs: seq<PointRef>, acc: Dict<seq<PointRef>>)
    requires GroupByPen(t, refs, acc).Failure?
    ensures exists i :: 0 <= i < |refs| && PenKeyOf(t, refs[i]) == Failure(GroupByPen(t, refs, acc).error)
  {
    GroupByKeysFirstError(PenKeysOf(t, refs), refs, acc);
  }

  // ---------------------------------------------------------------------------
  // Tests the classifiers share

  /** The distance between two point indices, `abs(i - j)`. */
  function IndexDiff(i: nat, j: nat): (d: nat)
    ensures d == i - j || d == j - i
  {
    if i < j then j - i else i - j
  }

  /** `get_attr(p, 'dependX') is None and get_attr(p, 'dependY') is None`.
      The classifiers ask this only of points whose pen pair they have just
      read, so the name is known to parse. */
  predicate NoDepend(t: Table, r: PointRef) {
    Read(t, r, "dependX") == Success(None) && Read(t, r, "dependY") == Success(None)
  }

  /** Some contour of `cs` other than the point's own contains the point. */
  predicate InsideOther(s: Glyph, cs: seq<nat>, inside: Containment, r: PointRef)
    requires ValidRef(s, r)
  {
    exists j :: 0 <= j < |cs| && cs[j] != r.contour && inside(cs[j], Position(At(s, r)))
  }

  /** The points of `pair` may be tagged: none depends on another point and
      none lies inside another contour of `cs`. */
  predicate Free(s: Glyph, t: Table, cs: seq<nat>, inside: Containment, pair: seq<PointRef>)
    requires AllValid(s, pair)
  {
    forall i :: 0 <= i < |pair| ==> NoDepend(t, pair[i]) && !InsideOther(s, cs, inside, pair[i])
  }

  /** `(pair[0].y + pair[1].y) / 2`. */
  function MeanY(s: Glyph, pair: seq<PointRef>): real
    requires |pair| == 2 && AllValid(s, pair)
  {
    (At(s, pair[0]).y + At(s, pair[1]).y) / 2.0
  }

  // ---------------------------------------------------------------------------
  // Stroke ends, shared by `attributing/stroke.py` and `attributing/front_back.py`

  /** Two pen pairs competing to begin a stroke, in the order they were found. */
  datatype Candidate = Candidate(first: seq<PointRef>, second: seq<PointRef>)

  /** Both parts are pairs of points of `s`. */
  predicate CandValid(s: Glyph, x: Candidate) {
    |x.first| == 2 && |x.second| == 2 && AllValid(s, x.first) && AllValid(s, x.second)
  }

  /** The part drawn higher; on a tie, the second part. */
  function Begin(s: Glyph, x: Candidate): seq<PointRef>
    requires CandValid(s, x)
  {
    if MeanY(s, x.first) > MeanY(s, x.second) then x.first else x.second
  }

  /** The other part. */
  function End(s: Glyph, x: Candidate): seq<PointRef>
    requires CandValid(s, x)
  {
    if MeanY(s, x.first) > MeanY(s, x.second) then x.second else x.first
  }

  /** Begin and end are the two parts, the beginning one is never lower,
      and a tie goes to the second part. */
  lemma BeginEnd(s: Glyph, x: Candidate)
    requires CandValid(s, x)
    ensures {Begin(s, x), End(s, x)} == {x.first, x.second}
    ensures MeanY(s, Begin(s, x)) >= MeanY(s, End(s, x))
    ensures MeanY(s, x.first) == MeanY(s, x.second) ==> Begin(s, x) == x.second && End(s, x) == x.first
    ensures MeanY(s, x.first) != MeanY(s, x.second) ==> MeanY(s, Begin(s, x)) > MeanY(s, End(s, x))
  {
  }

  /** The words of the stroke tags need no quoting in a point name. */
  lemma PlainWords()
    ensures Plain("stroke") && Plain("begin") && Plain("end")
  {
    var a, b, e := "stroke", "begin", "end";
    forall i | 0 <= i < |a| ensures PlainChar(a[i]) { }
    forall i | 0 <= i < |b| ensures PlainChar(b[i]) { }
    forall i | 0 <= i < |e| ensures PlainChar(e[i]) { }
  }
}
