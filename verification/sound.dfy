/** `Sound.add_sound_attr`: marks the first point of every contour with the
    glyph's sound (first, middle or final consonant/vowel part), as decided by
    the subclass hook `calculate_sound`, whose result is a parameter here.

    The marking edits the name text directly: an empty name becomes the
    token, a name without `'sound':` gets the token appended after a comma,
    and a name with `'sound':` has the value rewritten through an `Attribute`
    object. The test on that path compares the stored bare value with the
    quoted one, so it never finds them equal and always rewrites. */
module Sound {
  import opened Wrappers
  import opened Text
  import opened ODict
  import opened Codec
  import opened Outline
  import opened Attributes

  /** The bare sound names, indexed by the hook's result. */
  const Names: seq<string> := ["first", "middle", "final"]

  /** An entry of `Sound._SOUNDS`: the name in single quotes. */
  function Quoted(s: string): string {
    "'" + s + "'"
  }

  /** `'sound':` followed by the quoted name: the text the call returns and
      writes. */
  function SoundToken(i: nat): (t: string)
    requires i < |Names|
    ensures t == Token("sound", Names[i])
    ensures t == Encode([("sound", Names[i])])
  {
    KeyPrefix("sound") + Quoted(Names[i])
  }

  lemma NamesPlain(i: nat)
    requires i < |Names|
    ensures Plain(Names[i]) && Plain("sound")
  {
  }

  /** A stored value never equals a quoted name: values carry no quote. */
  lemma QuotedNotPlain(v: string, s: string)
    requires Plain(v)
    ensures v != Quoted(s)
  {
    assert !PlainChar(Quoted(s)[0]);
  }

  // ---------------------------------------------------------------------------
  // One point

  /** The loop body for one contour's first point, `glif` standing for the
      outcome of reading the glyph file, which the `Attribute` constructor
      does when the name is empty, before the name is looked at. */
  function MarkPoint(p: Point, s: nat, glif: Result<Attrs>): (r: Result<Update>)
    requires s < |Names|
    ensures r.Success? ==> SameShape(p, r.value.point)
    ensures !Truthy(p.name) && glif.Success? ==> r == Success(Update(p.(name := Some(SoundToken(s))), false))
    ensures !Truthy(p.name) && glif.Failure? ==> r.Failure?
    ensures Truthy(p.name) && !Contains(p.name.value, KeyPrefix("sound")) && r.Success? ==>
              r.value == Update(p.(name := Some(p.name.value + "," + SoundToken(s))), false)
  {
    if Truthy(p.name) then
      var o :- NewAttribute(p, glif);
      if Contains(p.name.value, KeyPrefix("sound")) && AttrGet(o, "sound") != Some(Quoted(Names[s])) then
        var u := AttrSet(o, "sound", Names[s]);
        Success(Update(u.obj.point, u.changed))
      else
        Success(Update(p.(name := Some(p.name.value + "," + SoundToken(s))), false))
    else
      var _ :- NewAttribute(p, glif);
      Success(Update(p.(name := Some(SoundToken(s))), false))
  }

  /** A non-empty name: the call succeeds exactly when the name decodes. */
  lemma MarkPointDecodes(p: Point, s: nat, glif: Result<Attrs>)
    requires s < |Names| && Truthy(p.name)
    ensures MarkPoint(p, s, glif).Success? <==> Decode(p.name).Success?
  {
  }

  /** When an empty name sends the constructor to the glyph file and the
      read fails, the call fails with that error. */
  lemma MarkPointNoFile(p: Point, s: nat, glif: Result<Attrs>)
    requires s < |Names|
    ensures !Truthy(p.name) && glif.Failure? ==> MarkPoint(p, s, glif) == Failure(glif.error)
  {
  }

  /** A name holding a sound key has it reset to the bare sound name, every
      other entry kept, and the glyph is notified. */
  lemma MarkPointReset(p: Point, s: nat, glif: Result<Attrs>, d: Attrs)
    requires s < |Names|
    requires Truthy(p.name) && Contains(p.name.value, KeyPrefix("sound"))
    requires Decode(p.name) == Success(d) && HasKey(d, "sound")
    ensures MarkPoint(p, s, glif).Success?
    ensures MarkPoint(p, s, glif).value.changed
    ensures Decode(MarkPoint(p, s, glif).value.point.name) == Success(Put(d, "sound", Names[s]))
  {
    DecodeClean(p.name);
    MarkPointResets(p, s, glif, d);
    NamesPlain(s);
    ResetDecodes(p, d, Names[s]);
  }

  /** The reset branch is taken: the stored sound differs from the quoted
      new one, since a stored value never holds a quote. */
  lemma MarkPointResets(p: Point, s: nat, glif: Result<Attrs>, d: Attrs)
    requires s < |Names|
    requires Truthy(p.name) && Contains(p.name.value, KeyPrefix("sound"))
    requires Decode(p.name) == Success(d) && HasKey(d, "sound") && Clean(d)
    ensures var u := AttrSet(AttributeObj(p, d), "sound", Names[s]);
      MarkPoint(p, s, glif) == Success(Update(u.obj.point, u.changed))
  {
    HasKeyIndex(d, "sound");
    var v := Get(d, "sound").value;
    assert (("sound", v)) in d;
    QuotedNotPlain(v, Names[s]);
    assert AttrGet(AttributeObj(p, d), "sound") != Some(Quoted(Names[s]));
  }

  /** Setting a present key of a clean dictionary rewrites the name to
      denote the updated dictionary. */
  lemma ResetDecodes(p: Point, d: Attrs, v: string)
    requires Clean(d) && HasKey(d, "sound") && Plain(v)
    ensures AttrSet(AttributeObj(p, d), "sound", v).changed
    ensures Decode(AttrSet(AttributeObj(p, d), "sound", v).obj.point.name) == Success(Put(d, "sound", v))
  {
    AttrMethodsSync(AttributeObj(p, d), "sound", v);
  }

  /** An empty or missing name ends up denoting exactly the sound entry,
      once the glyph file has been read. */
  lemma MarkPointEmpty(p: Point, s: nat, glif: Result<Attrs>)
    requires s < |Names| && !Truthy(p.name)
    ensures MarkPoint(p, s, glif).Success? <==> glif.Success?
    ensures glif.Success? ==> Decode(MarkPoint(p, s, glif).value.point.name) == Success([("sound", Names[s])])
  {
    NamesPlain(s);
    RoundTrip([("sound", Names[s])]);
  }

  /** A written dictionary without `'sound':` gains the sound entry at the
      end. */
  lemma MarkPointAppends(p: Point, s: nat, glif: Result<Attrs>, d: Attrs)
    requires s < |Names|
    requires Clean(d) && |d| > 0 && p.name == Some(Encode(d))
    requires !Contains(Encode(d), KeyPrefix("sound"))
    ensures MarkPoint(p, s, glif).Success?
    ensures Decode(MarkPoint(p, s, glif).value.point.name) == Success(d + [("sound", Names[s])])
  {
    RoundTrip(d);
    assert Truthy(p.name) by {
      assert |Tokens(d)| > 0;
      var before, after := JoinSplit(",", Tokens(d), 0);
    }
    if HasKey(d, "sound") {
      EncodeShowsKey(d, "sound");
    }
    NamesPlain(s);
    PutClean(d, "sound", Names[s]);
    EncodeSnoc(d, "sound", Names[s]);
    RoundTrip(d + [("sound", Names[s])]);
  }

  // ---------------------------------------------------------------------------
  // The whole glyph

  /** `contour.points[0]` of every contour from index `ci` on; an empty
      contour stops the loop with IndexError. */
  function MarkContours(cs: seq<Contour>, ci: nat, s: nat, glif: PointRef -> Result<Attrs>): (r: Result<(seq<Contour>, nat)>)
    requires s < |Names|
    ensures r.Success? ==> |r.value.0| == |cs| && r.value.1 <= |cs|
    decreases |cs|
  {
    if |cs| == 0 then Success(([], 0))
    else if |cs[0]| == 0 then Failure(IndexError)
    else
      var u :- MarkFirst(cs[0], s, glif(PointRef(ci, 0)));
      var (rest, n) :- MarkContours(cs[1..], ci + 1, s, glif);
      Success(([u.0] + rest, n + u.1))
  }

  /** One contour with its first point marked, and the notifications. */
  function MarkFirst(c: Contour, s: nat, glif: Result<Attrs>): (r: Result<(Contour, nat)>)
    requires s < |Names| && |c| > 0
    ensures r.Success? ==> |r.value.0| == |c| && r.value.1 <= 1
  {
    var u :- MarkPoint(c[0], s, glif);
    Success(([u.point] + c[1..], if u.changed then 1 else 0))
  }

  /** A contour without points makes the whole call fail. */
  lemma {:induction false} MarkContoursEmptyContour(cs: seq<Contour>, ci: nat, s: nat, glif: PointRef -> Result<Attrs>, c: nat)
    requires s < |Names| && c < |cs| && |cs[c]| == 0
    ensures MarkContours(cs, ci, s, glif).Failure?
    decreases c
  {
    if |cs[0]| == 0 {
      assert MarkContours(cs, ci, s, glif) == Failure(IndexError);
    } else {
      assert cs[1..][c - 1] == cs[c];
      MarkContoursEmptyContour(cs[1..], ci + 1, s, glif, c - 1);
      MarkContoursTailFails(cs, ci, s, glif);
    }
  }

  lemma MarkContoursTailFails(cs: seq<Contour>, ci: nat, s: nat, glif: PointRef -> Result<Attrs>)
    requires s < |Names| && |cs| > 0 && |cs[0]| > 0
    requires MarkContours(cs[1..], ci + 1, s, glif).Failure?
    ensures MarkContours(cs, ci, s, glif).Failure?
  {
    var f := MarkFirst(cs[0], s, glif(PointRef(ci, 0)));
    if f.Success? {
      assert MarkContours(cs, ci, s, glif) == Failure(MarkContours(cs[1..], ci + 1, s, glif).error);
    }
  }

  /** Only the first point of each contour changes, and only in its name. */
  lemma {:induction false} MarkContoursShape(cs: seq<Contour>, ci: nat, s: nat, glif: PointRef -> Result<Attrs>)
    requires s < |Names| && MarkContours(cs, ci, s, glif).Success?
    ensures var out := MarkContours(cs, ci, s, glif).value.0;
      forall c :: 0 <= c < |cs| ==>
        && |out[c]| == |cs[c]| && 0 < |cs[c]|
        && SameShape(cs[c][0], out[c][0])
        && forall i :: 0 < i < |cs[c]| ==> out[c][i] == cs[c][i]
    decreases |cs|
  {
    if |cs| > 0 {
      var out := MarkContours(cs, ci, s, glif).value.0;
      MarkContoursShape(cs[1..], ci + 1, s, glif);
      assert out[1..] == MarkContours(cs[1..], ci + 1, s, glif).value.0;
      forall c | 1 <= c < |cs| ensures cs[c] == cs[1..][c - 1] && out[c] == out[1..][c - 1] {
      }
    }
  }

  /** `Sound(glyph).add_sound_attr(add_sound)` with `sound` the hook's
      result: the token returned (None for -1) and the edited glyph. */
  function AddSoundAttr(g: Glyph, sound: int, addSound: bool, glif: PointRef -> Result<Attrs>): (r: Result<(Option<string>, Edit)>)
    ensures sound !in {-1, 0, 1, 2} ==> r == Failure(ValueError)
    ensures sound == -1 ==> r == Success((None, Edit(g, 0)))
    ensures 0 <= sound < 3 && r.Success? ==> r.value.0 == Some(Token("sound", Names[sound]))
    ensures 0 <= sound < 3 && !addSound ==> r.Success? && r.value.1 == Edit(g, 0)
    ensures r.Success? ==> r.value.1.glyph.name == g.name && |r.value.1.glyph.contours| == |g.contours|
    ensures 0 <= sound < 3 && addSound && r.Success? ==> forall c :: 0 <= c < |g.contours| ==> |g.contours[c]| > 0
  {
    if sound !in {-1, 0, 1, 2} then Failure(ValueError)
    else if sound == -1 then Success((None, Edit(g, 0)))
    else
      var token := SoundToken(sound);
      if !addSound then Success((Some(token), Edit(g, 0)))
      else
        var (cs, n) :- MarkContours(g.contours, 0, sound, glif);
        MarkContoursShape(g.contours, 0, sound, glif);
        Success((Some(token), Edit(g.(contours := cs), n)))
  }

  /** Every contour's first point keeps its position and type, and every
      other point is untouched. */
  lemma AddSoundAttrTouchesFirstPoints(g: Glyph, sound: int, addSound: bool, glif: PointRef -> Result<Attrs>)
    requires AddSoundAttr(g, sound, addSound, glif).Success?
    ensures var h := AddSoundAttr(g, sound, addSound, glif).value.1.glyph;
      forall r :: ValidRef(g, r) ==>
        ValidRef(h, r) && SameShape(At(g, r), At(h, r)) && (r.index != 0 ==> At(h, r) == At(g, r))
  {
    if 0 <= sound < 3 && addSound {
      MarkContoursShape(g.contours, 0, sound, glif);
    }
  }
}
