/** The attribute accessors over a point's name (`get_attr`, `set_attr`,
    `add_attr`, `del_attr`), the pen-pair grouping, and the `Attribute` class
    that caches a point's decoded dictionary.

    The current accessors also call `glyph.setChanged()` whenever they rewrite
    a name; `Update.changed` records that call. The older accessors are the
    same rules without the notification. Every accessor decodes the name
    first, so a malformed name makes it fail with that error. */
module Attributes {
  import opened Wrappers
  import opened Text
  import opened ODict
  import opened Codec
  import opened Outline

  /** A point after an accessor, and whether the glyph was told it changed. */
  datatype Update = Update(point: Point, changed: bool)

  /** A glyph after an edit, and the number of `setChanged` calls. */
  datatype Edit = Edit(glyph: Glyph, notifications: nat)

  /** The point with its name rewritten to the encoding of `d`. */
  function Named(p: Point, d: Attrs): (q: Point)
    ensures q.x == p.x && q.y == p.y && q.kind == p.kind
  {
    p.(name := Some(Encode(d)))
  }

  /** Everything but the name is kept. */
  predicate SameShape(p: Point, q: Point) {
    p.x == q.x && p.y == q.y && p.kind == q.kind
  }

  // ---------------------------------------------------------------------------
  // Accessors on a point's name

  /** `get_attr(point, attribute)`. */
  function GetAttr(p: Point, k: string): (r: Result<Option<string>>)
    ensures r.Success? <==> Decode(p.name).Success?
    ensures r.Success? && r.value.Some? ==> Plain(r.value.value)
  {
    var d :- Decode(p.name);
    DecodeClean(p.name);
    if HasKey(d, k) then
      HasKeyIndex(d, k);
      Success(Get(d, k))
    else Success(Get(d, k))
  }

  /** `set_attr(point, attribute, value)`: only an existing key is written. */
  function SetAttr(p: Point, k: string, v: string): (r: Result<Update>)
    ensures r.Success? <==> Decode(p.name).Success?
    ensures r.Success? ==> SameShape(p, r.value.point)
    ensures r.Success? ==> (r.value.changed <==> GetAttr(p, k).value.Some?)
    ensures r.Success? && !r.value.changed ==> r.value.point == p
  {
    var d :- Decode(p.name);
    if HasKey(d, k) then Success(Update(Named(p, Put(d, k, v)), true))
    else Success(Update(p, false))
  }

  /** `add_attr(point, attribute, value)`: only an absent key is written. */
  function AddAttr(p: Point, k: string, v: string): (r: Result<Update>)
    ensures r.Success? <==> Decode(p.name).Success?
    ensures r.Success? ==> SameShape(p, r.value.point)
    ensures r.Success? ==> (r.value.changed <==> GetAttr(p, k).value.None?)
    ensures r.Success? && !r.value.changed ==> r.value.point == p
  {
    var d :- Decode(p.name);
    if !HasKey(d, k) then Success(Update(Named(p, Put(d, k, v)), true))
    else Success(Update(p, false))
  }

  /** `del_attr(point, attribute)`: the KeyError of a missing key is caught,
      so deleting an absent key changes nothing. */
  function DelAttr(p: Point, k: string): (r: Result<Update>)
    ensures r.Success? <==> Decode(p.name).Success?
    ensures r.Success? ==> SameShape(p, r.value.point)
    ensures r.Success? ==> (r.value.changed <==> GetAttr(p, k).value.Some?)
    ensures r.Success? && !r.value.changed ==> r.value.point == p
  {
    var d :- Decode(p.name);
    if HasKey(d, k) then Success(Update(Named(p, Remove(d, k)), true))
    else Success(Update(p, false))
  }

  /** Reading a name written from a clean dictionary gives back its values. */
  lemma GetAttrNamed(p: Point, d: Attrs, k: string)
    requires Clean(d)
    ensures GetAttr(Named(p, d), k) == Success(Get(d, k))
  {
    RoundTrip(d);
  }

  /** After `set_attr`, the key holds the new value if it was present, and
      every other key (and an absent key) reads as before. */
  lemma SetAttrGet(p: Point, k: string, v: string, k': string)
    requires SetAttr(p, k, v).Success? && Plain(v)
    ensures GetAttr(SetAttr(p, k, v).value.point, k')
            == Success(if k' == k && GetAttr(p, k).value.Some? then Some(v) else GetAttr(p, k').value)
  {
    var d := Decode(p.name).value;
    DecodeClean(p.name);
    if HasKey(d, k) {
      KeyPlain(d, k);
      PutClean(d, k, v);
      GetAttrNamed(p, Put(d, k, v), k');
      PutGet(d, k, v, k');
    }
  }

  /** After `add_attr`, an absent key holds the new value; a present key and
      every other key read as before. */
  lemma AddAttrGet(p: Point, k: string, v: string, k': string)
    requires AddAttr(p, k, v).Success? && Plain(k) && Plain(v)
    ensures GetAttr(AddAttr(p, k, v).value.point, k')
            == Success(if k' == k && GetAttr(p, k).value.None? then Some(v) else GetAttr(p, k').value)
  {
    var d := Decode(p.name).value;
    DecodeClean(p.name);
    if !HasKey(d, k) {
      PutClean(d, k, v);
      GetAttrNamed(p, Put(d, k, v), k');
      PutGet(d, k, v, k');
    }
  }

  /** After `del_attr`, the key is absent and every other key reads as
      before. */
  lemma DelAttrGet(p: Point, k: string, k': string)
    requires DelAttr(p, k).Success?
    ensures GetAttr(DelAttr(p, k).value.point, k')
            == Success(if k' == k then None else GetAttr(p, k').value)
  {
    var d := Decode(p.name).value;
    DecodeClean(p.name);
    if HasKey(d, k) {
      RemoveClean(d, k);
      GetAttrNamed(p, Remove(d, k), k');
      RemoveGet(d, k, k');
    }
  }

  /** Applying `add_attr` twice with the same key writes nothing the second
      time. */
  lemma AddAttrIdempotent(p: Point, k: string, v: string, w: string)
    requires AddAttr(p, k, v).Success? && Plain(k) && Plain(v)
    ensures AddAttr(AddAttr(p, k, v).value.point, k, w) == Success(Update(AddAttr(p, k, v).value.point, false))
  {
    AddAttrGet(p, k, v, k);
  }

  /** `q` holds every key `p` holds, with the same value. */
  ghost predicate Keeps(p: Point, q: Point) {
    Decode(p.name).Success? ==>
      Decode(q.name).Success? && forall k :: GetAttr(p, k).value.Some? ==> GetAttr(q, k) == GetAttr(p, k)
  }

  /** `add_attr` never changes a key that is already there. */
  lemma AddAttrKeeps(p: Point, k: string, v: string)
    requires AddAttr(p, k, v).Success? && Plain(k) && Plain(v)
    ensures Keeps(p, AddAttr(p, k, v).value.point)
  {
    var q := AddAttr(p, k, v).value.point;
    AddAttrGet(p, k, v, k);
    forall k' | GetAttr(p, k').value.Some? ensures GetAttr(q, k') == GetAttr(p, k') {
      AddAttrGet(p, k, v, k');
    }
  }

  lemma KeepsTrans(p: Point, q: Point, s: Point)
    requires Keeps(p, q) && Keeps(q, s)
    ensures Keeps(p, s)
  {
  }

  /** `q` is `p` with the same shape and keys, apart from keys in `tags`
      that `p` did not hold. */
  ghost predicate Tags(p: Point, q: Point, tags: set<string>) {
    SameShape(p, q) && Keeps(p, q) && forall k :: k !in tags ==> GetAttr(q, k) == GetAttr(p, k)
  }

  /** `h` is `g` with only names changed, and only by adding keys in `tags`. */
  ghost predicate Tagged(g: Glyph, h: Glyph, tags: set<string>) {
    && h.name == g.name && |h.contours| == |g.contours|
    && (forall c :: 0 <= c < |g.contours| ==> |h.contours[c]| == |g.contours[c]|)
    && forall r :: ValidRef(g, r) ==> ValidRef(h, r) && Tags(At(g, r), At(h, r), tags)
  }

  lemma TaggedRefl(g: Glyph, tags: set<string>)
    ensures Tagged(g, g, tags)
  {
  }

  lemma TaggedTrans(g: Glyph, h: Glyph, k: Glyph, tags: set<string>)
    requires Tagged(g, h, tags) && Tagged(h, k, tags)
    ensures Tagged(g, k, tags)
  {
    forall r | ValidRef(g, r) ensures ValidRef(k, r) && Tags(At(g, r), At(k, r), tags) {
      KeepsTrans(At(g, r), At(h, r), At(k, r));
    }
  }

  /** Allowing more tags allows every tagging allowed before. */
  lemma TaggedWiden(g: Glyph, h: Glyph, tags: set<string>, more: set<string>)
    requires Tagged(g, h, tags) && tags <= more
    ensures Tagged(g, h, more)
  {
  }

  /** Replacing one point by one that only gains keys in `tags`. */
  lemma SetPointTagged(g: Glyph, r: PointRef, p: Point, tags: set<string>)
    requires ValidRef(g, r) && Tags(At(g, r), p, tags)
    ensures Tagged(g, SetPoint(g, r, p), tags)
  {
    var h := SetPoint(g, r, p);
    forall q | ValidRef(g, q) ensures ValidRef(h, q) && Tags(At(g, q), At(h, q), tags) {
      assert ValidRef(h, q);
      if q == r {
        assert At(h, q) == p;
      } else {
        assert At(h, q) == At(g, q);
      }
    }
  }

  /** `add_attr` of a key in `tags` on one point of a glyph. */
  lemma AddAttrTagged(g: Glyph, r: PointRef, k: string, v: string, tags: set<string>)
    requires ValidRef(g, r) && AddAttr(At(g, r), k, v).Success? && Plain(k) && Plain(v) && k in tags
    ensures Tagged(g, SetPoint(g, r, AddAttr(At(g, r), k, v).value.point), tags)
  {
    var p := At(g, r);
    var q := AddAttr(p, k, v).value.point;
    AddAttrKeeps(p, k, v);
    forall k' | k' !in tags ensures GetAttr(q, k') == GetAttr(p, k') {
      AddAttrGet(p, k, v, k');
    }
    SetPointTagged(g, r, q, tags);
  }

  /** `p` has key `k`. */
  predicate HoldsKey(p: Point, k: string) {
    GetAttr(p, k).Success? && GetAttr(p, k).value.Some?
  }

  /** Reading a key outside `tags` gives the same in both glyphs. */
  lemma TaggedGet(g: Glyph, h: Glyph, tags: set<string>, r: PointRef, k: string)
    requires Tagged(g, h, tags) && ValidRef(g, r) && k !in tags
    ensures ValidRef(h, r) && GetAttr(At(h, r), k) == GetAttr(At(g, r), k)
    ensures SameShape(At(g, r), At(h, r))
  {
  }

  /** `for point in refs: add_attr(point, k, v)`: stops at the first point
      whose name does not parse. */
  function AddAttrAll(g: Glyph, refs: seq<PointRef>, k: string, v: string): (r: Result<Edit>)
    requires AllValid(g, refs) && Plain(k) && Plain(v)
    ensures r.Success? ==> Tagged(g, r.value.glyph, {k})
    decreases |refs|
  {
    if |refs| == 0 then
      TaggedRefl(g, {k});
      Success(Edit(g, 0))
    else
      match AddAttr(At(g, refs[0]), k, v)
      case Failure(e) => Failure(e)
      case Success(u) =>
        var g1 := SetPoint(g, refs[0], u.point);
        AddAttrTagged(g, refs[0], k, v, {k});
        SetPointValid(g, refs[0], u.point, refs[1..]);
        match AddAttrAll(g1, refs[1..], k, v)
        case Failure(e) => Failure(e)
        case Success(e2) =>
          TaggedTrans(g, g1, e2.glyph, {k});
          Success(Edit(e2.glyph, (if u.changed then 1 else 0) + e2.notifications))
  }

  /** One successful step of `AddAttrAll`: the rest runs on the glyph with
      the first point replaced, and ends in the same glyph. */
  lemma AddAttrAllStep(g: Glyph, refs: seq<PointRef>, k: string, v: string)
    requires AllValid(g, refs) && Plain(k) && Plain(v) && |refs| > 0
    requires AddAttrAll(g, refs, k, v).Success?
    ensures AddAttr(At(g, refs[0]), k, v).Success?
    ensures var g1 := SetPoint(g, refs[0], AddAttr(At(g, refs[0]), k, v).value.point);
      && AllValid(g1, refs[1..])
      && AddAttrAll(g1, refs[1..], k, v).Success?
      && AddAttrAll(g1, refs[1..], k, v).value.glyph == AddAttrAll(g, refs, k, v).value.glyph
  {
    SetPointValid(g, refs[0], AddAttr(At(g, refs[0]), k, v).value.point, refs[1..]);
  }

  /** A first point that needs no change is skipped. */
  lemma AddAttrAllSkip(g: Glyph, refs: seq<PointRef>, k: string, v: string)
    requires AllValid(g, refs) && Plain(k) && Plain(v) && |refs| > 0
    requires AddAttr(At(g, refs[0]), k, v) == Success(Update(At(g, refs[0]), false))
    ensures AllValid(g, refs[1..])
    ensures AddAttrAll(g, refs, k, v) == AddAttrAll(g, refs[1..], k, v)
  {
    var u := Update(At(g, refs[0]), false);
    SetPointSame(g, refs[0]);
    assert SetPoint(g, refs[0], u.point) == g;
    assert AllValid(g, refs[1..]);
    var rest := AddAttrAll(g, refs[1..], k, v);
    if rest.Success? {
      assert AddAttrAll(g, refs, k, v) == Success(Edit(rest.value.glyph, 0 + rest.value.notifications));
    }
  }

  /** After `AddAttrAll`, every listed point holds the key. */
  lemma {:induction false} AddAttrAllHolds(g: Glyph, refs: seq<PointRef>, k: string, v: string)
    requires AllValid(g, refs) && Plain(k) && Plain(v)
    requires AddAttrAll(g, refs, k, v).Success?
    ensures forall i :: 0 <= i < |refs| ==> HoldsKey(At(AddAttrAll(g, refs, k, v).value.glyph, refs[i]), k)
    decreases |refs|
  {
    if |refs| > 0 {
      AddAttrAllStep(g, refs, k, v);
      var g1 := SetPoint(g, refs[0], AddAttr(At(g, refs[0]), k, v).value.point);
      var h := AddAttrAll(g1, refs[1..], k, v).value.glyph;
      FirstHolds(g, refs[0], k, v);
      SetPointValid(g, refs[0], AddAttr(At(g, refs[0]), k, v).value.point, refs);
      TaggedValid(g1, h, {k}, refs);
      AddAttrAllHolds(g1, refs[1..], k, v);
      HoldsAfter(g1, h, refs, k);
    }
  }

  lemma HoldsAfter(g1: Glyph, h: Glyph, refs: seq<PointRef>, k: string)
    requires |refs| > 0 && AllValid(g1, refs) && Tagged(g1, h, {k}) && AllValid(h, refs)
    requires HoldsKey(At(g1, refs[0]), k)
    requires forall i :: 0 <= i < |refs| - 1 ==> HoldsKey(At(h, refs[1..][i]), k)
    ensures forall i :: 0 <= i < |refs| ==> HoldsKey(At(h, refs[i]), k)
  {
    forall i | 0 <= i < |refs| ensures HoldsKey(At(h, refs[i]), k) {
      if i == 0 {
        TaggedHolds(g1, h, {k}, refs[0], k);
      } else {
        assert refs[i] == refs[1..][i - 1];
      }
    }
  }

  /** A tagged glyph keeps every point of the original. */
  lemma TaggedValid(g: Glyph, h: Glyph, tags: set<string>, refs: seq<PointRef>)
    requires Tagged(g, h, tags) && AllValid(g, refs)
    ensures AllValid(h, refs)
  {
    forall i | 0 <= i < |refs| ensures ValidRef(h, refs[i]) {
      assert ValidRef(g, refs[i]);
    }
  }

  /** The first point holds the key once `add_attr` has run on it. */
  lemma FirstHolds(g: Glyph, r: PointRef, k: string, v: string)
    requires ValidRef(g, r) && Plain(k) && Plain(v) && AddAttr(At(g, r), k, v).Success?
    ensures HoldsKey(At(SetPoint(g, r, AddAttr(At(g, r), k, v).value.point), r), k)
  {
    AddAttrGet(At(g, r), k, v, k);
  }

  /** A key a point holds survives any tagging. */
  lemma TaggedHolds(g: Glyph, h: Glyph, tags: set<string>, r: PointRef, k: string)
    requires Tagged(g, h, tags) && ValidRef(g, r) && HoldsKey(At(g, r), k)
    ensures ValidRef(h, r) && HoldsKey(At(h, r), k)
  {
    assert Keeps(At(g, r), At(h, r));
  }

  /** What a point reads under a key after `add_attr` may have reached it:
      a point that was reached and lacked the key now holds `v`; any other
      point reads as before. */
  function AddedValue(before: Result<Option<string>>, reached: bool, v: string): Result<Option<string>> {
    if reached && before == Success(None) then Success(Some(v)) else before
  }

  /** `add_attr` on one point of a glyph, as seen from any point. */
  lemma AddAttrAt(g: Glyph, r0: PointRef, k: string, v: string, r: PointRef)
    requires ValidRef(g, r0) && ValidRef(g, r) && Plain(k) && Plain(v)
    requires AddAttr(At(g, r0), k, v).Success?
    ensures var g1 := SetPoint(g, r0, AddAttr(At(g, r0), k, v).value.point);
      ValidRef(g1, r) && GetAttr(At(g1, r), k) == AddedValue(GetAttr(At(g, r), k), r == r0, v)
  {
    if r == r0 {
      AddAttrGet(At(g, r0), k, v, k);
    }
  }

  /** After `AddAttrAll`, a listed point that lacked the key holds `v`, and
      every other point reads under the key as before: `add_attr` never
      overwrites, so the value a point ends with is decided by its first
      visit. */
  lemma {:induction false} AddAttrAllValue(g: Glyph, refs: seq<PointRef>, k: string, v: string, r: PointRef)
    requires AllValid(g, refs) && Plain(k) && Plain(v) && ValidRef(g, r)
    requires AddAttrAll(g, refs, k, v).Success?
    ensures ValidRef(AddAttrAll(g, refs, k, v).value.glyph, r)
    ensures GetAttr(At(AddAttrAll(g, refs, k, v).value.glyph, r), k) == AddedValue(GetAttr(At(g, r), k), r in refs, v)
    ensures r in refs ==> GetAttr(At(g, r), k).Success?
    decreases |refs|
  {
    if |refs| > 0 {
      AddAttrAllStep(g, refs, k, v);
      var g1 := SetPoint(g, refs[0], AddAttr(At(g, refs[0]), k, v).value.point);
      AddAttrAt(g, refs[0], k, v, r);
      AddAttrAllValue(g1, refs[1..], k, v, r);
      AddedTwice(GetAttr(At(g, r), k), r == refs[0], r in refs[1..], v);
      InCons(refs, r);
    }
  }

  /** Reaching a point twice is reaching it once. */
  lemma AddedTwice(before: Result<Option<string>>, x: bool, y: bool, v: string)
    ensures AddedValue(AddedValue(before, x, v), y, v) == AddedValue(before, x || y, v)
  {
  }

  lemma InCons(refs: seq<PointRef>, r: PointRef)
    requires |refs| > 0
    ensures r in refs <==> r == refs[0] || r in refs[1..]
  {
    assert refs == [refs[0]] + refs[1..];
  }

  /** Adding a key every listed point already holds changes nothing and
      notifies nobody. */
  lemma {:induction false} AddAttrAllHeld(g: Glyph, refs: seq<PointRef>, k: string, v: string)
    requires AllValid(g, refs) && Plain(k) && Plain(v)
    requires forall i :: 0 <= i < |refs| ==> HoldsKey(At(g, refs[i]), k)
    ensures AddAttrAll(g, refs, k, v) == Success(Edit(g, 0))
    decreases |refs|
  {
    if |refs| > 0 {
      var p := At(g, refs[0]);
      assert AddAttr(p, k, v) == Success(Update(p, false));
      AddAttrAllSkip(g, refs, k, v);
      AddAttrAllHeld(g, refs[1..], k, v);
    }
  }

  // ---------------------------------------------------------------------------
  // The older accessors: same rules, no notification

  function LegacySetAttr(p: Point, k: string, v: string): (r: Result<Point>)
    ensures r.Success? <==> SetAttr(p, k, v).Success?
    ensures r.Success? ==> r.value == SetAttr(p, k, v).value.point
  {
    var d :- Decode(p.name);
    Success(if HasKey(d, k) then Named(p, Put(d, k, v)) else p)
  }

  function LegacyAddAttr(p: Point, k: string, v: string): (r: Result<Point>)
    ensures r.Success? <==> AddAttr(p, k, v).Success?
    ensures r.Success? ==> r.value == AddAttr(p, k, v).value.point
  {
    var d :- Decode(p.name);
    Success(if HasKey(d, k) then p else Named(p, Put(d, k, v)))
  }

  function LegacyDelAttr(p: Point, k: string): (r: Result<Point>)
    ensures r.Success? <==> DelAttr(p, k).Success?
    ensures r.Success? ==> r.value == DelAttr(p, k).value.point
  {
    var d :- Decode(p.name);
    Success(if HasKey(d, k) then Named(p, Remove(d, k)) else p)
  }

  // ---------------------------------------------------------------------------
  // Pen-pair grouping

  /** The grouping key of a point: its penPair value without the first and
      last characters (`z3l` gives `3`); TypeError where the value is None,
      since None cannot be sliced. */
  function PenKey(p: Point): (r: Result<string>)
    ensures r.Success? <==> GetAttr(p, "penPair").Success? && GetAttr(p, "penPair").value.Some?
    ensures r.Success? ==> r.value == Inner(GetAttr(p, "penPair").value.value)
  {
    var v :- GetAttr(p, "penPair");
    if v.None? then Failure(TypeError) else Success(Inner(v.value))
  }

  /** The pen-pair key of each point, in order. */
  function PenKeys(g: Glyph, refs: seq<PointRef>): (ks: seq<Result<string>>)
    requires AllValid(g, refs)
    ensures |ks| == |refs| && forall i :: 0 <= i < |refs| ==> ks[i] == PenKey(At(g, refs[i]))
  {
    seq(|refs|, i requires 0 <= i < |refs| => PenKey(At(g, refs[i])))
  }

  /** Folds `refs` into `acc` by pen-pair key, in order; the first point
      without a key stops the fold with its error. */
  function GroupByPenKey(g: Glyph, refs: seq<PointRef>, acc: Dict<seq<PointRef>>): Result<Dict<seq<PointRef>>>
    requires AllValid(g, refs)
  {
    GroupByKeys(PenKeys(g, refs), refs, acc)
  }

  lemma GroupByPenKeySuccess(g: Glyph, refs: seq<PointRef>, acc: Dict<seq<PointRef>>)
    requires AllValid(g, refs)
    ensures GroupByPenKey(g, refs, acc).Success? <==> forall i :: 0 <= i < |refs| ==> PenKey(At(g, refs[i])).Success?
  {
    GroupByKeysSuccess(PenKeys(g, refs), refs, acc);
  }

  lemma GroupByPenKeyMembers(g: Glyph, refs: seq<PointRef>, acc: Dict<seq<PointRef>>)
    requires AllValid(g, refs)
    requires GroupByPenKey(g, refs, acc).Success?
    ensures forall k, q :: InGroup(GroupByPenKey(g, refs, acc).value, k, q) <==>
              InGroup(acc, k, q) || (q in refs && PenKey(At(g, q)) == Success(k))
  {
    var keys := PenKeys(g, refs);
    GroupByKeysMembers(keys, refs, acc);
    forall k, q ensures KeyedAs(keys, refs, k, q) <==> q in refs && PenKey(At(g, q)) == Success(k) {
      if q in refs {
        var i :| 0 <= i < |refs| && refs[i] == q;
        assert keys[i] == PenKey(At(g, q));
      }
    }
  }

  /** `get_penpair_dict(glyph)`: the on-curve points grouped by pen-pair key.
      The points come from a set, so `order` is the iteration order Python
      happens to use. */
  function GetPenpairDict(g: Glyph, order: seq<PointRef>): (r: Result<Dict<seq<PointRef>>>)
    requires Enumerates(order, AllPoints(g, false))
    ensures r.Success? <==> forall q :: q in AllPoints(g, false) ==> PenKey(At(g, q)).Success?
    ensures r.Success? ==> forall k, q :: InGroup(r.value, k, q) <==>
              q in AllPoints(g, false) && PenKey(At(g, q)) == Success(k)
    ensures r.Success? ==> UniqueKeys(r.value)
  {
    GroupByPenKeySuccess(g, order, []);
    if GroupByPenKey(g, order, []).Success? then
      GroupByPenKeyMembers(g, order, []);
      GroupByKeysUnique(PenKeys(g, order), order, []);
      GroupByPenKey(g, order, [])
    else GroupByPenKey(g, order, [])
  }

  /** Every point the dictionary lists is a point of `g`. */
  predicate Within(g: Glyph, d: Dict<seq<PointRef>>) {
    forall e :: e in d ==> AllValid(g, e.1)
  }

  /** A point listed in `refs` is a point of `g`. */
  lemma ValidIn(g: Glyph, refs: seq<PointRef>, y: PointRef)
    requires AllValid(g, refs) && y in refs
    ensures ValidRef(g, y)
  {
    var i :| 0 <= i < |refs| && refs[i] == y;
  }

  /** Grouping points of `g` lists only points of `g`. */
  lemma GroupByPenKeyWithin(g: Glyph, refs: seq<PointRef>, acc: Dict<seq<PointRef>>)
    requires AllValid(g, refs) && Within(g, acc)
    requires GroupByPenKey(g, refs, acc).Success?
    ensures Within(g, GroupByPenKey(g, refs, acc).value)
  {
    GroupByKeysDrawn(PenKeys(g, refs), refs, acc, Chain(acc) + refs);
    WithinDrawn(g, GroupByPenKey(g, refs, acc).value, acc, refs);
  }

  /** A dictionary drawn from the points of another one and from `refs`
      lists only points of `g` when those do. */
  lemma WithinDrawn(g: Glyph, d: Dict<seq<PointRef>>, acc: Dict<seq<PointRef>>, refs: seq<PointRef>)
    requires AllValid(g, refs) && Within(g, acc) && DrawnFrom(d, Chain(acc) + refs)
    ensures Within(g, d)
  {
    forall e | e in d ensures AllValid(g, e.1) {
      forall i | 0 <= i < |e.1| ensures ValidRef(g, e.1[i]) {
        var y := e.1[i];
        assert y in Chain(acc) + refs;
        if y in Chain(acc) {
          var e' :| e' in acc && y in e'.1;
          ValidIn(g, e'.1, y);
        } else {
          ValidIn(g, refs, y);
        }
      }
    }
  }

  // ---------------------------------------------------------------------------
  // The Attribute class

  /** An `Attribute` object: the point and its cached dictionary. */
  datatype AttributeObj = AttributeObj(point: Point, attrs: Attrs)

  /** The point's name denotes exactly the cached dictionary. */
  predicate Synced(o: AttributeObj) {
    Decode(o.point.name) == Success(o.attrs)
  }

  predicate Truthy(name: Option<string>) {
    name.Some? && |name.value| > 0
  }

  /** `Attribute(point)`: a non-empty name is decoded; otherwise the current
      class reads the point's attributes from the glyph file. Reading the
      file is I/O; `glif` is its outcome, the attributes of the point's
      element or the error the read raised. */
  function NewAttribute(p: Point, glif: Result<Attrs>): (r: Result<AttributeObj>)
    ensures r.Success? ==> r.value.point == p
    ensures Truthy(p.name) ==> (r.Success? <==> Decode(p.name).Success?)
    ensures Truthy(p.name) && r.Success? ==> Synced(r.value)
    ensures !Truthy(p.name) ==> r == (if glif.Success? then Success(AttributeObj(p, glif.value)) else Failure(glif.error))
  {
    if Truthy(p.name) then
      var d :- Decode(p.name);
      Success(AttributeObj(p, d))
    else
      var a :- glif;
      Success(AttributeObj(p, a))
  }

  /** The older `Attribute(point)`: an empty or missing name gives `{}`. */
  function LegacyNewAttribute(p: Point): (r: Result<AttributeObj>)
    ensures r.Success? ==> r.value.point == p
    ensures r.Success? ==> Synced(r.value)
    ensures !Truthy(p.name) ==> r == Success(AttributeObj(p, []))
  {
    if Truthy(p.name) then
      var d :- Decode(p.name);
      Success(AttributeObj(p, d))
    else
      assert Decode(p.name) == Success([]) by {
        if p.name.Some? {
          DecodeEmpty();
        }
      }
      Success(AttributeObj(p, []))
  }

  /** The result of an `Attribute` method: the object and whether the glyph
      was notified (the older class never notifies). */
  datatype ObjUpdate = ObjUpdate(obj: AttributeObj, changed: bool)

  function AttrGet(o: AttributeObj, k: string): Option<string> {
    Get(o.attrs, k)
  }

  /** `Attribute.set_attr`: the name is rewritten only when the key was
      present. */
  function AttrSet(o: AttributeObj, k: string, v: string): (r: ObjUpdate)
    ensures r.changed <==> HasKey(o.attrs, k)
    ensures r.changed ==> r.obj.attrs == Put(o.attrs, k, v) && r.obj.point == Named(o.point, r.obj.attrs)
    ensures !r.changed ==> r.obj == o
  {
    if HasKey(o.attrs, k) then
      var d := Put(o.attrs, k, v);
      ObjUpdate(AttributeObj(Named(o.point, d), d), true)
    else ObjUpdate(o, false)
  }

  /** `Attribute.add_attr`: the name is rewritten only when the key was
      absent. */
  function AttrAdd(o: AttributeObj, k: string, v: string): (r: ObjUpdate)
    ensures r.changed <==> !HasKey(o.attrs, k)
    ensures r.changed ==> r.obj.attrs == o.attrs + [(k, v)] && r.obj.point == Named(o.point, r.obj.attrs)
    ensures !r.changed ==> r.obj == o
  {
    if !HasKey(o.attrs, k) then
      var d := Put(o.attrs, k, v);
      ObjUpdate(AttributeObj(Named(o.point, d), d), true)
    else ObjUpdate(o, false)
  }

  /** `Attribute.del_attr`: a missing key is a no-op. */
  function AttrDel(o: AttributeObj, k: string): (r: ObjUpdate)
    ensures r.changed <==> HasKey(o.attrs, k)
    ensures r.changed ==> r.obj.attrs == Remove(o.attrs, k) && r.obj.point == Named(o.point, r.obj.attrs)
    ensures !r.changed ==> r.obj == o
  {
    if HasKey(o.attrs, k) then
      var d := Remove(o.attrs, k);
      ObjUpdate(AttributeObj(Named(o.point, d), d), true)
    else ObjUpdate(o, false)
  }

  /** Whenever a method rewrites the name, the name denotes the cached
      dictionary afterwards, and a synced object stays synced. */
  lemma AttrMethodsSync(o: AttributeObj, k: string, v: string)
    requires Clean(o.attrs) && Plain(v)
    ensures AttrSet(o, k, v).changed ==> Synced(AttrSet(o, k, v).obj)
    ensures Plain(k) && AttrAdd(o, k, v).changed ==> Synced(AttrAdd(o, k, v).obj)
    ensures AttrDel(o, k).changed ==> Synced(AttrDel(o, k).obj)
    ensures Synced(o) ==> Synced(AttrSet(o, k, v).obj) && Synced(AttrDel(o, k).obj)
    ensures Synced(o) && Plain(k) ==> Synced(AttrAdd(o, k, v).obj)
  {
    if HasKey(o.attrs, k) {
      KeyPlain(o.attrs, k);
      PutClean(o.attrs, k, v);
      RoundTrip(Put(o.attrs, k, v));
      RemoveClean(o.attrs, k);
      RoundTrip(Remove(o.attrs, k));
    } else if Plain(k) {
      PutClean(o.attrs, k, v);
      RoundTrip(Put(o.attrs, k, v));
    }
  }

  /** On a synced object the methods agree with the accessors on the point. */
  lemma AttrMethodsMatchAccessors(o: AttributeObj, k: string, v: string)
    requires Synced(o)
    ensures SetAttr(o.point, k, v) == Success(Update(AttrSet(o, k, v).obj.point, AttrSet(o, k, v).changed))
    ensures AddAttr(o.point, k, v) == Success(Update(AttrAdd(o, k, v).obj.point, AttrAdd(o, k, v).changed))
    ensures DelAttr(o.point, k) == Success(Update(AttrDel(o, k).obj.point, AttrDel(o, k).changed))
    ensures GetAttr(o.point, k) == Success(AttrGet(o, k))
  {
  }
}
