# fwig point-attribute scripts in Dafny

fwig is a set of scripts for Hangul fonts drawn in a font editor. They tag the
points of glyph outlines with attributes. An attribute dictionary is written
into the point's name as the body of a JSON object, with single quotes in
place of double quotes, for example `'penPair':'z3l','dependX':'z5r'`. Later
stages read the tags back. This project models that core as pure functions
over immutable outlines and proves what each step promises.

- `Codec`: `dict2name` and `name2dict`. The round trip `name2dict(dict2name(d)) == d` is proved for dictionaries of plain keys and values (`ODict` is Python's ordered `dict`).
- `Attributes`: `get_attr`, `set_attr`, `add_attr` and `del_attr`, the pen-pair grouping, and the `Attribute` class. Each comes in a current version and a notification-free older version.
- `Outline`, `Snapshot`, `Tagging`: the editor's point, contour and glyph. They also hold what a classifier reads of a glyph and the "decide, then tag" step every classifier ends with.
- The classifiers:
  - `FrontBack` (`attributing/front_back.py`);
  - `Stroke` (`attributing/stroke.py`);
  - `Depend` (`attributing/depend.py`; the root `depend.py` is its `legacy` flag);
  - `Round`, `Serif` and `Elem` (the `examples/yullyeo_*` classifiers);
  - `Overlap` (`tools/overlap.py`).
- `Sound`: the first-point sound tag.
- `Ordering`: the pen-pair numbering and its renumbering by a padding.
- `Hangul`: `Uni2Kor`, the Hangul syllable decomposition, with its jamo tables and layout classifier.
- `Extend`: `extend_line`.
- `Append`: point insertion into a line or cubic segment.
- `Triangle`: `make_triangle`, which doubles an unpaired apex into two pen pairs.
- `Text`: the Python string primitives these rely on.

The older root-level scripts are modelled next to their `tools/`,
`attributing/` and `preprocessing/` successors. They appear as `Legacy*`
members or as a `legacy` flag. The root `triangle.py` is covered by the
`Triangle` module (see "Left out").

Exceptions become `Failure(e)` of a `Result`, with `e` naming the Python
exception class. Editor primitives, the fontTools splitters, the glyph-file
read, set iteration order and the subclass hooks become parameters.

## Model

| member | source | states |
|---|---|---|
| Codec.Requote | tools/attributetools.py:88 | every single quote becomes a double quote and nothing else changes, length included |
| Codec.RequoteEncode | tools/attributetools.py:88-100 | requoting a written name gives the same tokens with double quotes, so the JSON parser sees a well-formed object body |
| Codec.RoundTrip | tools/attributetools.py:79-100 | `name2dict(dict2name(d)) == d` for every dictionary of plain keys and values with unique keys, entry order included |
| Codec.ObjectRoundTrip | tools/attributetools.py:88-89 | parsing `{` + the double-quoted tokens + `}` gives back exactly the dictionary |
| Codec.MembersRoundTrip | tools/attributetools.py:89 | the member parser reads the double-quoted tokens of `d` into `acc + d` |
| Codec.ParseStringPlain | tools/attributetools.py:89 | a quoted plain string is read back as itself, and parsing resumes right after its closing quote |
| Codec.ParseMemberPlain | tools/attributetools.py:89 | one written `"k":"v"` member parses to `(k, v)` with the rest of the text untouched |
| Codec.DecodeClean | tools/attributetools.py:79-91 | whatever `name2dict` returns has unique keys and plain keys and values |
| Codec.DecodeEncodeDecode | tools/attributetools.py:79-100 | decoding, re-encoding and decoding again gives the first result |
| Codec.DecodeEmpty | tools/attributetools.py:86-89 | an empty name decodes to the empty dictionary, as a missing one does |
| Codec.EncodeSnoc | tools/attributetools.py:100 | writing one more entry appends a comma and its token to the written name |
| Codec.EncodeShowsKey | tools/attributetools.py:100 | a written name contains `'k':` for each key it holds |
| Codec.IntToStringPlain | attributing/ordering.py:91-93 | a number written with `str` is plain text that survives the name encoding |
| ODict.Get | tools/attributetools.py:113 | `dict.get`: a value exactly when the key is present, and it is the value of that key's entry |
| ODict.Put | tools/attributetools.py:124-125 | assignment keeps the length for an existing key and appends the new entry at the end otherwise |
| ODict.PutGet | tools/attributetools.py:124-125 | after `d[k] = v`, `k` reads `v` and every other key reads as before |
| ODict.PutKeys | tools/attributetools.py:138-139 | assignment keeps the key order, and a new key goes last |
| ODict.PutUnique | tools/attributetools.py:138-139 | assignment keeps the keys unique |
| ODict.Remove | tools/attributetools.py:150-152 | `del d[k]` drops one entry when the key is present and nothing otherwise |
| ODict.RemoveGet | tools/attributetools.py:150-152 | after the deletion `k` is absent and every other key reads as before |
| ODict.ExtensionalEquality | tools/attributetools.py:79-100 | two dictionaries with unique keys, the same key order and the same readings are equal |
| ODict.GroupByKeysSuccess | tools/attributetools.py:186-194 | the grouping loop completes exactly when every key computation does |
| ODict.GroupByKeysFirstError | tools/attributetools.py:186-194 | a failed grouping fails with the error of one of its keys |
| ODict.GroupByKeysMembers | tools/attributetools.py:186-194 | each value ends up in the list of its own key, and no list holds anything else |
| ODict.GroupByKeysUnique | tools/attributetools.py:186-194 | the grouped dictionary has unique keys |
| ODict.Chain | attributing/depend.py:62 | `chain(*d.values())` holds exactly the members of the lists |
| Attributes.GetAttr | tools/attributetools.py:102-113 | `get_attr` fails exactly when the name does not decode, and any value it reads is plain text |
| Attributes.GetAttrNamed | tools/attributetools.py:100-113 | reading a point whose name was written from a clean dictionary gives that dictionary's value for the key |
| Attributes.SetAttr | tools/attributetools.py:115-127 | `set_attr` decodes or fails, keeps the point's position and type, and rewrites the name (one `setChanged`) exactly when the key was present |
| Attributes.SetAttrGet | tools/attributetools.py:115-127 | after `set_attr` a present key reads the new value, an absent key stays absent, and other keys read as before |
| Attributes.AddAttr | tools/attributetools.py:129-141 | `add_attr` decodes or fails, keeps the point's shape, and writes exactly when the key was absent |
| Attributes.AddAttrGet | tools/attributetools.py:129-141 | after `add_attr` an absent key reads the new value, a present key keeps its value, and other keys read as before |
| Attributes.AddAttrIdempotent | tools/attributetools.py:129-141 | a second `add_attr` of the same key writes nothing and reports no change |
| Attributes.AddAttrKeeps | tools/attributetools.py:137-140 | `add_attr` never changes or drops a key the point already had |
| Attributes.DelAttr | tools/attributetools.py:143-157 | `del_attr` decodes or fails, and rewrites the name exactly when the key was present; the `KeyError` of a missing key is swallowed |
| Attributes.DelAttrGet | tools/attributetools.py:143-157 | after `del_attr` the key is absent and every other key reads as before |
| Attributes.LegacySetAttr | attributetools.py:83-87 | the older `set_attr` writes the same name as the current one, without the change notification |
| Attributes.LegacyAddAttr | attributetools.py:89-93 | the older `add_attr` writes the same name as the current one |
| Attributes.LegacyDelAttr | attributetools.py:95-102 | the older `del_attr` writes the same name as the current one |
| Attributes.AddAttrAll | tools/attributetools.py:129-141 | `add_attr` on each listed point in turn, stopping at the first failure, changes only names and only by adding the one key |
| Attributes.AddAttrAllHolds | tools/attributetools.py:129-141 | after the loop every listed point holds the key |
| Attributes.AddAttrAllValue | tools/attributetools.py:129-141 | after the loop a listed point that lacked the key reads the new value, and every other point reads what it read before |
| Attributes.AddAttrAllHeld | tools/attributetools.py:137-141 | when every listed point already holds the key the loop writes nothing and calls `setChanged` zero times |
| Attributes.TaggedGet | tools/attributetools.py:137-141 | keys outside the ones being added read the same before and after any run of `add_attr` calls |
| Attributes.PenKey | tools/attributetools.py:189 | the grouping key is the penPair value without its first and last character, and a point without penPair fails |
| Attributes.GetPenpairDict | tools/attributetools.py:177-194 | `get_penpair_dict` succeeds exactly when every on-curve point has a penPair, and then lists exactly those points under their keys, each key once |
| Attributes.GroupByPenKeyWithin | tools/attributetools.py:186-194 | the pen-pair dictionary lists only points of the glyph |
| Attributes.NewAttribute | tools/attributetools.py:203-216 | `Attribute(point)` decodes a non-empty name and caches it, and falls back to the point's attributes read from the glyph file otherwise, failing when that read fails |
| Attributes.LegacyNewAttribute | attributetools.py:126-131 | the older constructor caches `{}` for an empty or missing name and the decoded name otherwise |
| Attributes.AttrSet | tools/attributetools.py:232-242 | `Attribute.set_attr` writes the cache and the name exactly when the key was cached |
| Attributes.AttrAdd | tools/attributetools.py:244-254 | `Attribute.add_attr` appends to the cache and rewrites the name exactly when the key was absent |
| Attributes.AttrDel | tools/attributetools.py:256-268 | `Attribute.del_attr` removes from the cache and rewrites the name exactly when the key was cached |
| Attributes.AttrMethodsSync | tools/attributetools.py:218-268 | each method that rewrites the name leaves the name denoting the cached dictionary |
| Attributes.AttrMethodsMatchAccessors | tools/attributetools.py:102-157 | on an object whose name denotes its cache, the object's methods give the same point and change flag as the module-level accessors |
| Outline.SetPoint | tools/attributetools.py:126 | writing one point's name changes that point only; the glyph keeps its name and every contour its length |
| Outline.AllPoints | tools/attributetools.py:159-175 | `get_all_points` holds exactly the points of the glyph, without the off-curve ones unless asked for |
| Snapshot.TaggedSnapshot | tools/attributetools.py:137-141 | adding keys a classifier does not read leaves the outline and every value it reads unchanged |
| Snapshot.ReadTable | tools/attributetools.py:102-113 | a classifier's table of readings gives the same answer as `get_attr` on the point |
| Snapshot.PenKeyOfTable | tools/attributetools.py:189 | the pen-pair key read from the table is the key read from the point |
| Snapshot.BeginEnd | attributing/front_back.py:30-37 | of two candidate pen pairs the one drawn strictly higher begins the stroke, the second begins on a tie, and the two roles are the two pairs |
| Tagging.TagPlan | attributing/front_back.py:51-55 | running `add_attr(point, k, v)` over a list of point lists in order changes only names, and only by adding `k` |
| Tagging.TagPlanHolds | attributing/front_back.py:51-55 | after a successful run every planned point holds the key |
| Tagging.TagPlanValue | attributing/front_back.py:51-55 | after a run a planned point that lacked the key holds the value of the first entry listing it, an earlier value wins, and unplanned points read as before |
| Tagging.TagPlanHeld | tools/attributetools.py:137-141 | a plan whose points all hold the key writes nothing and calls `setChanged` zero times |
| Tagging.TagPlanIdempotent | tools/attributetools.py:137-141 | running the same plan on its own result changes nothing |
| Wrappers.FlattenSuccess | examples/yullyeo_serif.py:30-49 | collecting the results of a loop whose steps may raise succeeds exactly when every step does |
| Wrappers.FlattenError | examples/yullyeo_serif.py:30-49 | a failed collection fails with the error of one of its steps |
| Wrappers.FlattenMembers | examples/yullyeo_serif.py:30-49 | the collected list holds exactly the elements of the steps' lists |
| FrontBack.LoosePenpairs | attributing/front_back.py:5-15 | the grouping succeeds exactly when every on-curve point of the contour has a penPair, and lists only those points |
| FrontBack.LoosePenpairsMembers | attributing/front_back.py:5-15 | each on-curve point of the contour is listed under its own key and nothing else is listed |
| FrontBack.ContourLoose | attributing/front_back.py:25-29 | the groups kept for one contour are exactly the two-point groups of index distance 1 with no depend key and no point inside another contour |
| FrontBack.FrontCandidatesSuccess | attributing/front_back.py:24-29 | the candidate scan succeeds exactly when every contour's grouping does |
| FrontBack.FrontCandidatesMembers | attributing/front_back.py:24-29 | a candidate is a kept group of one of the contours, and every kept group is a candidate |
| FrontBack.GetFrontBack | attributing/front_back.py:17-38 | `_get_front_back` finds a pair exactly when there are exactly two candidates, and then they are the candidates in scan order |
| FrontBack.AddFrontBack | attributing/front_back.py:40-55 | `add_front_back` changes only names, only by adding `stroke`, and changes nothing when no pair is found |
| FrontBack.AddFrontBackTags | attributing/front_back.py:49-55 | after a run that found a pair the front and back points hold `stroke` |
| FrontBack.AddFrontBackValues | attributing/front_back.py:30-55 | a front point that lacked `stroke` holds `begin`, a back point `end`, and every other point reads as before |
| FrontBack.FrontBackFirst | attributing/front_back.py:52-55 | a point in both parts receives `begin`, the value written first |
| FrontBack.AddFrontBackIdempotent | attributing/front_back.py:40-55 | a second run finds the same pair, already tagged, and changes nothing |
| FrontBack.IsFrontBackName | attributing/front_back.py:57-61 | `is_front_back` is false exactly for names starting with `uni` |
| Stroke.ContourPenpairs | attributing/stroke.py:13-25 | a successful grouping has groups of exactly two points, drawn from the contour's on-curve points |
| Stroke.ContourPenpairsMembers | attributing/stroke.py:13-22 | each on-curve point is listed under its own key and nothing else is listed |
| Stroke.ContourPenpairsErrors | attributing/stroke.py:18-24 | a missing penPair raises TypeError, and a complete grouping with a group not of two raises PairError |
| Stroke.StrokeParts | attributing/stroke.py:40-43 | a stroke part is a group whose two points are neighbours on the contour, the wrap-around included |
| Stroke.ContourCandidate | attributing/stroke.py:35-45 | a PairError skips the contour, any other error propagates, and a candidate is two valid parts |
| Stroke.ContourCandidateParts | attributing/stroke.py:39-45 | a candidate is made of two neighbouring pen pairs of the contour and no other group neighbours |
| Stroke.CandidatesMembers | attributing/stroke.py:34-45 | the candidates are exactly those of the contours that yield one |
| Stroke.ChosenMembers | attributing/stroke.py:46-57 | a point goes to `begin` (`end`) exactly when it is in the higher (lower) part of a candidate and that part has no depend key and no point inside another contour; on a tie the second part begins |
| Stroke.GetStrokeDict | attributing/stroke.py:27-58 | `_get_stroke_dict` lists only points of the glyph |
| Stroke.ClassifyFromMembers | attributing/stroke.py:60-69 | a contour is grouped under key `k` exactly when its first point's `double` is `k` |
| Stroke.ClassifyFromUnique | attributing/stroke.py:60-69 | each `double` value keys one group |
| Stroke.ClassifyContoursGroups | attributing/stroke.py:60-69 | a contour is in some group exactly when its first point has a `double` value, and every group holds contours of one value |
| Stroke.GroupDicts | attributing/stroke.py:92-93 | one stroke dictionary per group, in group order |
| Stroke.DoubleSetsLast | attributing/stroke.py:86-95 | every contour recomputes `contour_set` and only the last contour's choice is kept |
| Stroke.StrokeSetsOfChoice | attributing/stroke.py:84-97 | the glyph is split by `double` exactly when its first point has a `double` value and the last contour's sound and jamo select the split |
| Stroke.StrokePlan | attributing/stroke.py:98-102 | each dictionary's `begin` points come before its `end` points, dictionaries in order |
| Stroke.StrokeFirst | attributing/stroke.py:98-102 | a point receives the value of the first part that lists it |
| Stroke.AddStrokeAttr | attributing/stroke.py:71-102 | `add_stroke_attr` changes only names, and only by adding `stroke` |
| Stroke.AddStrokeAttrValues | attributing/stroke.py:84-102 | a point that lacked `stroke` and is chosen holds `begin` or `end` as its first part says, and every other point reads as before |
| Stroke.AddStrokeAttrIdempotent | attributing/stroke.py:71-102 | a second run chooses the same points, all already tagged, and changes nothing |
| Stroke.StrokeKeysUnwritten | attributing/stroke.py:29-30 | the classifier does not read the key it writes |
| Depend.Inclination | attributing/depend.py:39-43 | the slope is infinite exactly when the two x coordinates agree, and otherwise times the x step gives the y step |
| Depend.IsLinearAligned | attributing/depend.py:29-31 | for a point apart from both ends, equal slopes hold exactly when the three points are on one line |
| Depend.DiffDirectionPerpendicular | attributing/depend.py:33-37 | for two proper segments the direction test (product -1, or NaN from infinity times zero) holds exactly when they are perpendicular |
| Depend.IsBetween | attributing/depend.py:22-27 | `_is_between` is None off the line, raises IndexError for fewer than two points and TypeError for more than two on the line |
| Depend.IsBetweenOnSegment | attributing/depend.py:19-27 | with a true square root, a point apart from the ends is between exactly when it lies on the closed segment |
| Depend.DiffDirectionOf | attributing/depend.py:33-37 | spreading a pair into two arguments raises TypeError unless both pairs have two points, and the test is perpendicularity |
| Depend.Lookup | attributing/depend.py:11 | `penpair_dict[key]` raises KeyError for a missing key and gives that key's list otherwise |
| Depend.FindTarget | attributing/depend.py:10-17 | `_find_depend_target` returns the first candidate both tests accept, consuming the shared iterator up to it |
| Depend.FindTargetNone | attributing/depend.py:12-17 | a search that finds nothing used up the iterator and every candidate was rejected |
| Depend.FindTargetStops | attributing/depend.py:12-16 | a search that stops, with a target or an error, stops at the first candidate not rejected |
| Depend.Prev | attributing/depend.py:65 | `contour.points[i-1]` is the point before, the last one for the first point |
| Depend.PrevWraps | attributing/depend.py:65 | the point after the previous one is the point itself, wrapping round the contour |
| Depend.TagPair | attributing/depend.py:71-79 | no tag means no change; otherwise both points get `add_attr` of the tag with the target's penPair value, and the glyph is notified |
| Depend.TagPairMarks | attributing/depend.py:76-78 | a tagged pair holds the target's penPair value under the tag chosen from the point distances |
| Depend.DependPointSkips | attributing/depend.py:66-68 | a point without penPair is skipped (TypeError caught), a missing key raises KeyError, and a previous point outside the pair is skipped |
| Depend.DependPointMarks | attributing/depend.py:64-81 | a turn notifies exactly when it fires, and then both points of the pair hold the target's penPair value under the tag |
| Depend.DependAllFired | attributing/depend.py:63-81 | every turn that fired left its pair marked in the final glyph |
| Depend.AddDependAttr | attributing/depend.py:45-81 | `add_depend_attr` fails when an on-curve point lacks penPair, and otherwise changes only names, only by adding `dependX`/`dependY` |
| Depend.AddDependAttrMarks | attributing/depend.py:61-81 | at glyph level, whenever the turn of a point fires, its pair holds the target's penPair value under the tag |
| Depend.LegacyAddDependAttribute | depend.py:52-72 | the older script changes nothing for a glyph named with `V` or without overlap, fails when a point lacks penPair, and otherwise only adds depend tags |
| Depend.LegacyAddDependAttributeMarks | depend.py:57-72 | in the older script, too, every fired turn leaves its pair holding the target's penPair value |
| Round.InsideFromIff | examples/yullyeo_round.py:7-12 | the contour scan answers true exactly when some scanned contour, the point's own one only under `self_check`, contains the position |
| Round.InsidePoint | examples/yullyeo_round.py:4-12 | `_is_inside_point` holds exactly when some contour, other than the point's own unless `self_check`, contains the position |
| Round.InsidePointOther | examples/yullyeo_round.py:4-12 | at the point's own position without `self_check` the test is the "inside another contour" test the classifiers share |
| Round.Probes | examples/yullyeo_round.py:16-17 | the four probes sit 2.5 units off diagonally, in the order `(-,+)`, `(-,-)`, `(+,+)`, `(+,-)` |
| Round.RectCheck | examples/yullyeo_round.py:14-18 | `rect_check` is at most 4, is 0 exactly when no probe is inside and 4 exactly when every probe is |
| Round.RoundPair | examples/yullyeo_round.py:27-38 | adjacent pen-pair points are kept when they are inside no other contour; otherwise the one point with a 1 against a 3 in the rectangle check is kept |
| Round.RoundPairSymmetric | examples/yullyeo_round.py:26-38 | the result does not depend on which of the two pair points comes first |
| Round.RoundPoints | examples/yullyeo_round.py:20-39 | `get_round_points` returns on-curve points of the glyph only, and on success exactly the union of what each pen-pair group gives |
| Round.RoundPointsErrors | examples/yullyeo_round.py:22-26 | when every on-curve point has a pen pair the run fails with ValueError exactly when some group does not hold two points; otherwise it fails with the error of a point lacking its pen pair |
| Round.RoundUnion | examples/yullyeo_round.py:25-39 | a point is found exactly when some pen-pair group gives it |
| Round.RoundPlanValid | examples/yullyeo_round.py:41-42 | the tagging plan names only points of the glyph, with plain words |
| Round.RoundFirst | examples/yullyeo_round.py:41-42 | a point reads `1` in the plan exactly when it was found, and is absent otherwise |
| Round.AddRoundAttr | examples/yullyeo_round.py:41-42 | the run changes only names, and only by adding `round` |
| Round.AddRoundAttrTags | examples/yullyeo_round.py:20-42 | every point found holds `round` after the run |
| Round.AddRoundAttrValues | examples/yullyeo_round.py:41-42 | a found point that lacked `round` holds `1`, and every other point reads as before |
| Round.AddRoundAttrIdempotent | examples/yullyeo_round.py:20-42 | a second run finds the same points, already tagged, and changes nothing |
| Serif.IsSerifContourName | examples/yullyeo_serif.py:4-5 | `is_serif_contour` holds exactly when the name contains `V` |
| Serif.Least | examples/yullyeo_serif.py:9 | `min` of a non-empty list is an element no larger than any other |
| Serif.Greatest | examples/yullyeo_serif.py:10 | `max` of a non-empty list is an element no smaller than any other |
| Serif.IsVertical | examples/yullyeo_serif.py:7-13 | `is_vertical` raises ValueError exactly for an empty contour |
| Serif.VerticalSpread | examples/yullyeo_serif.py:9-13 | the box is taller than wide exactly when two points lie further apart vertically than any two lie horizontally |
| Serif.IsVerticalSpread | examples/yullyeo_serif.py:7-13 | on a contour with points `is_vertical` is that spread test |
| Serif.TopLeftCorner | examples/yullyeo_serif.py:15-19 | a point is at the least x and the greatest y exactly when no point lies left of it or above it |
| Serif.BoundsCornerIsTopLeft | examples/yullyeo_serif.py:15-19 | searching for the first point at the bounds' corner finds the first point no other lies left of or above |
| Serif.FirstTopLeft | examples/yullyeo_serif.py:15-19 | the search returns the first index that is top-left, or none when none is |
| Serif.SerifPoint | examples/yullyeo_serif.py:15-19 | `get_serif_point` is the first top-left point; no such point raises IndexError, and an empty contour ValueError |
| Serif.InsideOf | examples/yullyeo_serif.py:24 | the filter keeps exactly the overlap positions the contour contains |
| Serif.OverlapTest | examples/yullyeo_serif.py:21-28 | no overlaps or none inside pass; exactly one inside raises IndexError |
| Serif.DecideCases | examples/yullyeo_serif.py:34 | a contour is kept exactly when vertical and passing the overlap test, and the decision fails exactly when it is empty or vertical with a single overlap inside |
| Serif.CollectMembers | examples/yullyeo_serif.py:33-35 | the loop keeps exactly the contours decided true |
| Serif.CollectErrors | examples/yullyeo_serif.py:33-35 | the loop fails exactly when some decision fails |
| Serif.SerifContours | examples/yullyeo_serif.py:30-36 | `get_serif_contour` lists contours of the glyph in contour order |
| Serif.SerifContoursMembers | examples/yullyeo_serif.py:30-36 | the kept contours are exactly the vertical ones that pass the overlap test |
| Serif.SerifContoursErrors | examples/yullyeo_serif.py:30-36 | the scan fails exactly when some contour is empty, or is vertical with a single overlap inside it |
| Serif.SerifPlan | examples/yullyeo_serif.py:41-49 | at most two serif points, valued by the counter in order, and a failure exactly when one of the first two serif contours has no serif point |
| Serif.SerifPlanValid | examples/yullyeo_serif.py:42-49 | each planned entry is one point of the glyph valued `1` then `2` |
| Serif.GlyphSerifPlan | examples/yullyeo_serif.py:38-49 | the plan for a glyph names at most two single points of it, valued `1` and `2` in order |
| Serif.AddSerifAttr | examples/yullyeo_serif.py:38-49 | `add_serif_attr` changes only names, and only by adding `serif` |
| Serif.AddSerifAttrTags | examples/yullyeo_serif.py:41-49 | every planned serif point holds `serif` after the run |
| Serif.AddSerifAttrValues | examples/yullyeo_serif.py:42-49 | the first serif point, if it lacked `serif`, holds `1`, the second one `2` unless it is the first, and every other point reads as before |
| Serif.SerifFirst | examples/yullyeo_serif.py:42-49 | a point listed twice receives `1`, the value written first |
| Serif.AddSerifAttrIdempotent | examples/yullyeo_serif.py:38-49 | a second run plans the same points, already tagged, and changes nothing |
| Elem.InsidePointContour | examples/yullyeo_elem.py:10-16 | `_is_inside_point` holds exactly when a contour other than the point's own contains its position |
| Elem.IsStem | examples/yullyeo_elem.py:21-27 | a contour is a stem exactly when none of its on-curve points is inside another contour |
| Elem.StemFromIff | examples/yullyeo_elem.py:22-27 | the scan with its early break answers as the all-points test does |
| Elem.ElemKind | examples/yullyeo_elem.py:28-31 | the kind is `stem` exactly for a stem and `branch` otherwise |
| Elem.ElemPlan | examples/yullyeo_elem.py:20-31 | one entry per contour for its first point with its kind, and IndexError exactly when some contour is empty |
| Elem.AddElemAttr | examples/yullyeo_elem.py:18-31 | `add_elem_attr` changes only names, and only by adding `elem` |
| Elem.AddElemAttrTags | examples/yullyeo_elem.py:28-31 | after a run the first point of every contour holds `elem` |
| Elem.AddElemAttrValues | examples/yullyeo_elem.py:28-31 | each contour's first point, if it lacked `elem`, holds its contour's kind, and every other point reads as before |
| Elem.ElemFirst | examples/yullyeo_elem.py:20-31 | each contour's first point is listed once, with its contour's kind |
| Elem.AddElemAttrIdempotent | examples/yullyeo_elem.py:18-31 | a second run finds the same kinds, already tagged, and changes nothing |
| Elem.NeedElemName | examples/yullyeo_elem.py:33-35 | `need_elem` holds exactly for names that do not start with `uni` and end with `V` |
| Overlap.Positions | tools/overlap.py:16 | the position list has one entry per target point, in order |
| Overlap.CountFromOne | tools/overlap.py:17-21 | with one match counted, the scan succeeds exactly when one more point sits at a target position |
| Overlap.CountFromZero | tools/overlap.py:13-21 | from zero, the scan succeeds exactly when two points of the contour sit at target positions |
| Overlap.OverlapFromIff | tools/overlap.py:10-22 | the scan from a contour on finds exactly the other contours sharing two positions with the target |
| Overlap.IsOverlapOtherContour | tools/overlap.py:9-22 | `_is_overlap_other_contour` holds exactly when another contour has two points at the target's positions, and never for a lone contour |
| Sound.SoundToken | attributing/sound.py:60-67 | the returned text is `'sound':` with the quoted sound name, and is exactly what the name codec writes for that one entry |
| Sound.QuotedNotPlain | attributing/sound.py:74-75 | a stored value, which carries no quote, never equals an entry of `_SOUNDS`, so the comparison always differs |
| Sound.MarkPoint | attributing/sound.py:71-80 | the marking keeps the point's position and type; an empty name becomes the token; a name without `'sound':` gets `,` and the token appended |
| Sound.MarkPointDecodes | attributing/sound.py:72-78 | for a non-empty name, marking succeeds exactly when the name decodes as an attribute dictionary |
| Sound.MarkPointNoFile | attributing/sound.py:72-80 | an empty name whose glyph file cannot be read fails with that error |
| Sound.MarkPointReset | attributing/sound.py:74-76 | a name holding a `sound` key decodes, after marking, to the dictionary with `sound` set to the bare sound name, and the glyph is notified |
| Sound.MarkPointResets | attributing/sound.py:74-76 | for a clean dictionary holding `sound`, the rewrite branch is taken and its result is what `set_attr` writes |
| Sound.MarkPointEmpty | attributing/sound.py:79-80 | an empty name is marked exactly when the glyph file reads, and then decodes to the single `sound` entry |
| Sound.MarkPointAppends | attributing/sound.py:77-78 | a written dictionary without `'sound':` decodes, after marking, to itself with the `sound` entry added at the end |
| Sound.MarkContours | attributing/sound.py:70-80 | the loop keeps the number of contours and notifies at most once per contour |
| Sound.MarkContoursEmptyContour | attributing/sound.py:71 | a contour without points makes the call fail |
| Sound.MarkContoursTailFails | attributing/sound.py:70-80 | a failure on a later contour fails the whole call |
| Sound.MarkContoursShape | attributing/sound.py:70-80 | only the first point of each contour changes, and only in its name |
| Sound.AddSoundAttr | attributing/sound.py:45-82 | a hook result outside -1..2 raises ValueError; -1 returns None and changes nothing; otherwise the call returns the token, and with `add_sound` false changes nothing |
| Sound.AddSoundAttrTouchesFirstPoints | attributing/sound.py:69-80 | every point keeps its position and type, and every point other than a contour's first is unchanged |
| Ordering.PenValue | attributing/ordering.py:12 | a point's number is defined exactly when it has a penPair whose inner text parses as an integer, and is that integer |
| Ordering.OnCurvePoints | attributing/ordering.py:12-13 | the filter keeps exactly the on-curve points |
| Ordering.GetPenpairValues | attributing/ordering.py:11-13 | `_get_penpair_values` succeeds exactly when every on-curve point has a number, and lists them in point order |
| Ordering.ContourValuesMembers | attributing/ordering.py:11-13 | a number is listed exactly when some on-curve point of the contour carries it |
| Ordering.GlyphPenValuesMembers | attributing/ordering.py:25 | the chained list holds exactly the numbers some contour carries |
| Ordering.Max | attributing/ordering.py:25 | `max` is an element no smaller than any other |
| Ordering.Min | attributing/ordering.py:37 | `min` is an element no larger than any other |
| Ordering.GetMaxPenpair | attributing/ordering.py:15-25 | the result is a number of the glyph no smaller than any other; no numbers raise ValueError, and a failing point fails the call |
| Ordering.GetMinPenpair | attributing/ordering.py:27-37 | the result is a number of the glyph no larger than any other; no numbers raise ValueError, and a failing point fails the call |
| Ordering.Bump | attributing/ordering.py:90-93 | a missing value raises TypeError and an empty one IndexError; on success the first and last characters are kept and the inner number is increased by the padding |
| Ordering.BumpExample | attributing/ordering.py:49-51 | padding 3 turns `z3l` into `z6l` |
| Ordering.BumpCompose | attributing/ordering.py:91-93 | shifting by p and then by q is shifting by p + q |
| Ordering.OrderPoint | attributing/ordering.py:88-94 | the rewrite of one point sets every listed key, keeps the keys and the point's shape, and fails if a listed key is missing |
| Ordering.OrderPointValues | attributing/ordering.py:89-94 | with distinct keys, every listed key holds its shifted value and every other key reads as before |
| Ordering.OrderPointSynced | attributing/ordering.py:88-94 | the rewritten name stays in step with the dictionary |
| Ordering.BumpPlain | attributing/ordering.py:91-93 | shifting a value that needs no quoting gives a value that needs none |
| Ordering.OrderOne | attributing/ordering.py:85-94 | off-curve points are skipped; an on-curve point is rewritten once per key, keeping its shape |
| Ordering.OrderPointsShape | attributing/ordering.py:85-94 | positions and types are kept and off-curve points are untouched |
| Ordering.OrderPointsCount | attributing/ordering.py:85-94 | a contour notifies once per key per on-curve point |
| Ordering.OrderContoursCount | attributing/ordering.py:84-94 | the glyph notifies once per key per on-curve point |
| Ordering.AttributesOrdering | attributing/ordering.py:80-94 | padding 0 returns before anything changes; otherwise the glyph keeps its contours and notifies once per key per on-curve point |
| Ordering.AttributesOrderingShape | attributing/ordering.py:84-94 | every point keeps its position and type, and off-curve points are unchanged |
| Ordering.LegacyAttributesOrdering | ordering.py:55-70 | the older version makes the same rewrites, with an empty fallback for unnamed points, and notifies once; padding 0 changes nothing |
| Ordering.LegacyAttributeIsEmptyFallback | attributetools.py:126-131 | the older `Attribute` constructor behaves as the current one whose glyph-file fallback is empty |
| Ordering.GlyphPenValues | attributing/ordering.py:25 | the chained numbers of all contours exist exactly when every on-curve point of every contour has a number |
| Hangul.ParseUnicode | tools/unicodetools.py:60-79 | `parse_unicode` fails with ValueError exactly outside U+AC00..U+D7A3, and otherwise gives in-table indices that compose back to the code |
| Hangul.ParseCompose | tools/unicodetools.py:72-79 | decomposing the composition of any valid index triple gives that triple back |
| Hangul.VowelGroupsPartition | tools/unicodetools.py:44-46 | the three vowel groups partition the 21 vowel indices |
| Hangul.GetFormType | tools/unicodetools.py:108-134 | `get_form_type` fails exactly outside the syllable range |
| Hangul.FormTypeClasses | tools/unicodetools.py:119-134 | every syllable gets a type 1..6; odd exactly when it has no final, and 1-2, 3-4 or 5-6 exactly for a vertical, horizontal or double vowel |
| Hangul.GetSound | tools/unicodetools.py:81-106 | an unknown sound name raises ValueError; each table answers exactly for its own index range; only final 0 gives None |
| Hangul.GetCharsOf | tools/unicodetools.py:149-151 | decomposition fails exactly outside the range; the first and middle jamo are always present and the final is absent exactly when the offset is a multiple of 28 |
| Hangul.GetChars | tools/unicodetools.py:136-151 | the class method with no code fails with AttributeError (it reads `code` on the class), and with a code is the decomposition |
| Hangul.NewUni2Kor | tools/unicodetools.py:48-50 | the constructor succeeds exactly for a code in range, and stores the code and its jamo |
| Hangul.GetCharsOnObjectFails | tools/unicodetools.py:22-25 | the documented `Uni2Kor()` and `get_chars()` calls with no code fail with AttributeError |
| Hangul.InstanceGetChars | tools/unicodetools.py:22-25 | the evidently intended instance method: no code returns the stored jamo, a code its decomposition |
| Hangul.InstanceGetCharsStored | tools/unicodetools.py:24-25 | for a syllable, the object's stored jamo are its decomposition |
| Hangul.GetHexCode | tools/unicodetools.py:153-161 | no code gives the empty string; a non-negative code its upper-case hexadecimal digits |
| Hangul.GetCharDict | tools/unicodetools.py:163-177 | no code gives an empty dictionary; otherwise one entry of the stored jamo keyed by the code, or by its hex text when `to_hex` |
| Hangul.LegacyLookup | unicode.py:108-111 | the table lookup raises KeyError exactly when an index is outside its table |
| Hangul.LegacyGetChars | unicode.py:96-111 | the older `get_chars` with no code returns the stored jamo |
| Hangul.LegacyGetCharsRange | unicode.py:106-111 | with a code, it succeeds exactly in range, with the decomposition, and raises KeyError outside |
| Hangul.FirstIndexOutside | unicode.py:108 | outside the range the first index falls outside 0..18 |
| Hangul.LegacyNewUni2Kor | unicode.py:43-48 | the older constructor with no code stores no jamo, and with a code succeeds exactly in range |
| Extend.MakeLowerString | tools/extendtools.py:16-19 | `_make_lower_string` is the lower-cased text, the empty string included |
| Extend.LineOfXThrough | tools/extendtools.py:63 | the function of x passes through both given points |
| Extend.LineOfYThrough | tools/extendtools.py:65 | the function of y passes through both given points |
| Extend.LineOfXCollinear | tools/extendtools.py:63 | every point the function of x gives lies on the line through the two points |
| Extend.LineOfYCollinear | tools/extendtools.py:65 | every point the function of y gives lies on the line through the two points |
| Extend.GetLinearFunction | tools/extendtools.py:21-67 | a line parallel to the chosen axis's function raises the input error; another axis leaves the function unbound (UnboundLocalError); otherwise the function passes through both points |
| Extend.CheckedLinearFunction | tools/extendtools.py:59-67 | the intended version fails, with the input error, exactly for an unknown axis or a degenerate line, and otherwise passes through both points |
| Extend.CheckedAgrees | tools/extendtools.py:59-67 | the two agree on x and y; on any other axis the code as written fails with UnboundLocalError where the input error was meant |
| Extend.InvalidAxisExample | tools/extendtools.py:62-67 | axis `z` on the points (0,0) and (1,1) exhibits the unbound name |
| Extend.ExtendLine | tools/extendtools.py:69-104 | on success the reached point has the given coordinate on the chosen axis and lies on the line through start and end; the end point moves there exactly when `apply_extend` |
| Extend.ExtendLineAsWritten | tools/extendtools.py:91-99 | as written, an unknown axis fails with UnboundLocalError before the "Put 'x' or 'y'" error; on x or y it is the intended extension |
| Extend.LegacyAxis | extendtools.py:60-61 | an all-lower-case axis is upper-cased, any other is kept |
| Extend.LegacyLinearFunction | extendtools.py:24-36 | the older function takes `X` and `Y` only, is the current one on them, and leaves the function unbound otherwise |
| Extend.LegacyExtendLine | extendtools.py:38-74 | the older `extend_line` with `x`/`X` or `y`/`Y` is the current extension; any other axis fails with UnboundLocalError |
| Extend.ExtendCurveGuard | tools/extendtools.py:134-136 | `extend_curve` raises the input error exactly when it is not given four points |
| Append.SegmentIndexOf | tools/appendtools.py:154-158 | `_segment_index_of` gives the first segment whose on-curve point is at the given position, and None exactly when there is none |
| Append.LegacySegmentIndexOf | appendtools.py:163-168 | the older search gives -1 exactly when there is no match, and otherwise the same index |
| Append.InsertSegment | tools/appendtools.py:71 | `insertSegment` adds one segment at the index, its last point on-curve and the others off-curve, with the segments before and after unchanged |
| Append.RoundContour | tools/appendtools.py:72 | `contour.round()` keeps the segments, their kinds and their numbers of points |
| Append.RoundContourOnGrid | tools/appendtools.py:72 | rounding moves nothing on a contour already on the grid, and a second rounding after the first moves nothing |
| Append.RoundContourSplice | tools/appendtools.py:71-72 | rounding a spliced contour is splicing the rounded parts |
| Append.SpliceCurve | tools/appendtools.py:65-71 | no matching segment raises ValueError; otherwise the segment ending at the fourth point takes the second piece's controls, the first piece is inserted before it, and the rest is unchanged |
| Append.AppendPointCurve | tools/appendtools.py:65-72 | `_append_point_curve` succeeds exactly when the splice does, with the same error, and leaves the rounded splice |
| Append.AppendPointCoordinate | tools/appendtools.py:10-37 | fewer than four points raise IndexError; a split into at most one piece fails the assertion; otherwise it is the curve insertion of the pieces |
| Append.AppendPointRate | tools/appendtools.py:39-63 | fewer than four points raise IndexError; a split into at most one piece fails the assertion; otherwise it is the curve insertion of the pieces |
| Append.AppendPointCoordinateLine | tools/appendtools.py:74-104 | fewer than two points raise IndexError, one piece fails the assertion, no matching segment raises ValueError; otherwise one line segment ending at the cut is inserted before the segment ending at the second point and the contour is rounded |
| Append.AppendLineOnGrid | tools/appendtools.py:103-104 | on a contour on the grid with a cut on the grid, the result is exactly the splice with nothing moved |
| Append.PyRound | tools/appendtools.py:152 | `int(round(x))` is within one half of x, and an integer is its own rounding |
| Append.InternalDivision | tools/appendtools.py:150-152 | each coordinate is within one half of the point at `rate` from the first point to the second |
| Append.InternalDivisionEnds | tools/appendtools.py:150-152 | rate 0 gives the first point and rate 1 the second, for points on the grid |
| Append.RateLineCut | tools/appendtools.py:128-148 | the cut is vertical, at the interpolated x, exactly for a horizontal line with distinct ends; otherwise horizontal at the interpolated y |
| Append.AppendPointRateLine | tools/appendtools.py:106-148 | a missing contour or points, or a rate outside [0, 1], raise ValueError; fewer than two points IndexError; otherwise it is the line insertion at the cut |
| Append.LegacyAppendPointCurve | appendtools.py:67-79 | the older helper gives -1 and no change when no segment matches, and otherwise 1 with the current rounded splice |
| Append.LegacyAppendPointCoordinate | appendtools.py:29-38 | as written every call that reaches the helper reports -1, because both of its codes are true |
| Append.LegacyAppendPointCoordinateFixed | appendtools.py:29-38 | the intended status: 1 exactly when the contour grew by one segment, which is exactly when the current insertion succeeds; -1 leaves the contour unchanged |
| Append.LegacyCoordinateStatusFinding | appendtools.py:35-36 | whenever the insertion succeeds, the code as written reports -1 for a contour that grew by one segment, where the intended status is 1 |
| Append.LegacyAppendPointRate | appendtools.py:56-65 | the older version reports 1 exactly when the current one succeeds, with the same contour, and -1 with no change otherwise |
| Append.LegacyAppendPointCoordinateLine | appendtools.py:99-113 | the older version reports 1 exactly when the current one succeeds, with the same contour, and -1 with no change otherwise |
| Append.LegacyAppendPointRateLine | appendtools.py:132-157 | a missing argument or a rate outside [0, 1] reports -1; otherwise 1, whatever the insertion did, with the inserted contour or the old one |
| Text.SliceBound | tools/attributetools.py:189 | a slice bound lands inside the sequence; a non-negative one in range is kept and a negative one counts from the end |
| Text.Inner | tools/attributetools.py:189 | `[1:-1]` drops exactly the first and last element, and gives nothing for fewer than two |
| Text.ContainsChar | attributing/sound.py:74 | a one-letter substring test is membership of that letter |
| Text.RIndex | preprocessing/triangle.py:52 | `rindex` gives the last position of the letter, and fails exactly when the letter is absent |
| Text.JoinSnoc | tools/attributetools.py:100 | joining one more part appends the separator and the part |
| Text.JoinSplit | tools/attributetools.py:100 | every part stands whole inside the joined text |
| Text.NatToString | attributing/ordering.py:92 | `str` of a natural number is a non-empty run of decimal digits |
| Text.NatToStringValue | attributing/ordering.py:92 | the digits `str` writes denote the number |
| Text.ParseIntOfDigits | attributing/stroke.py:88 | `int` of a run of decimal digits is the number they denote |
| Text.ParseIntOfNegative | attributing/ordering.py:92 | `int` of a minus sign and digits is the negated number |
| Text.ParseIntOfIntToString | attributing/ordering.py:92 | `int(str(i)) == i` for every integer |
| Text.ParseIntOfNat | attributing/ordering.py:92 | `int(str(n)) == n` for every natural number |
| Text.ParseIntOfMinus | attributing/ordering.py:92 | `int("-" + str(n)) == -n` for every positive number |
| Text.Lower | tools/extendtools.py:18 | `lower` on ASCII letters: keeps the length and lower-cases each ASCII upper-case letter, leaving every other character |
| Text.Upper | extendtools.py:61 | `upper` on ASCII letters: keeps the length and upper-cases each ASCII lower-case letter, leaving every other character |
| Text.HexUpperValue | tools/unicodetools.py:161 | the upper-case hexadecimal digits read back to the number |
| Triangle.ApexScan | preprocessing/triangle.py:111-117 | the scan from an index lists indices from there on, strictly increasing |
| Triangle.ApexScanMax | preprocessing/triangle.py:112-115 | the scan lists exactly the strict local maxima in y from its start on, the point before index 0 being the last |
| Triangle.PrevIndex | preprocessing/triangle.py:113 | `points[i-1]` is the previous point in the cycle, the last one for index 0 |
| Triangle.FindTrianglePoints | preprocessing/triangle.py:103-117 | `find_triangle_points` lists, in ascending order, exactly the strict local maxima in y of the cyclic contour |
| Triangle.ShiftSecondTracks | preprocessing/triangle.py:152-153 | after the first apex's insertion, the adjusted index of the second apex holds the point that was the second apex, at its place and of its kind, whether it came before or after the first |
| Triangle.Above | preprocessing/triangle.py:131-135 | the filter lists, in order, exactly the points strictly above the apex |
| Triangle.FirstMin | preprocessing/triangle.py:136-137 | the search finds the first position of a smallest key other than the skipped one, and finds none exactly when there is no other position |
| Triangle.NearestTwo | preprocessing/triangle.py:136-137 | the first two entries of the stable sort by key: the first smallest key, then the first smallest among the rest, two distinct positions when there are two |
| Triangle.Classify | preprocessing/triangle.py:55-67 | of two points, the one strictly further right is `right`; on a tie the second one is |
| Triangle.RightLeft | preprocessing/triangle.py:55-67 | fewer than two opposite points raise IndexError; otherwise the pair is classified |
| Triangle.Opposite | preprocessing/triangle.py:119-139 | `find_opposite_points` fails with IndexError exactly when fewer than two points lie above the apex; otherwise it gives two nearest points above, right before left |
| Triangle.NearestCandidates | preprocessing/triangle.py:133-137 | the two positions the sort puts first name two different points above the apex that no other point above is nearer than |
| Triangle.NearestPair | preprocessing/triangle.py:136-137 | the two sorted-first candidates are nearest in either order |
| Triangle.PenPairNameDecodes | preprocessing/triangle.py:70-87 | the name `_add_penpair_attribute` writes decodes to the single entry `penPair: z<n><side>` |
| Triangle.PenPairNameToken | preprocessing/triangle.py:70-87 | that name is the one-entry text the name codec writes |
| Triangle.PenNumber | preprocessing/triangle.py:52 | reading the number out of a name fails only with ValueError |
| Triangle.PenNumberReadsBack | preprocessing/triangle.py:50-52 | the number read from a written pen-pair name is the number written |
| Triangle.MaxStep | preprocessing/triangle.py:50-52 | one point keeps the running maximum or raises it to its own number, and fails exactly when its pen-pair name does not read as a number |
| Triangle.MaxPoints | preprocessing/triangle.py:49-52 | over a contour the result bounds every number read and is either the starting value or one of those numbers; the loop fails with ValueError exactly when some pen-pair name does not read |
| Triangle.GlyphMaxPenpair | preprocessing/triangle.py:46-53 | `_get_max_penpair` is the largest pen-pair number of the glyph or the starting value 0 when that is larger or there is none: it bounds every number and is the start or one of them; it fails with ValueError exactly when some pen-pair name does not read |
| Triangle.NextRunAbove | preprocessing/triangle.py:155-157 | a glyph already holding a written pair `n` numbers the next run above `n` |
| Triangle.AddPairs | preprocessing/triangle.py:69-87 | naming pairs keeps every position and type and leaves points outside the pairs unchanged |
| Triangle.NamePair | preprocessing/triangle.py:74-87 | one pair names its left point with the second side letter and its right point with the first |
| Triangle.OnePairNamed | preprocessing/triangle.py:73-87 | a pair written alone names its right and left points with the side letters of its place in the call |
| Triangle.TwoPairsNamed | preprocessing/triangle.py:71-84 | with a twist, the first pair is named `r`/`l` under `start` and the second `l`/`r` under `start + 1` |
| Triangle.Inserted | preprocessing/triangle.py:162-164 | `insertPoint` adds one line point without a name at the apex's position in front of the apex |
| Triangle.InsertedAt | preprocessing/triangle.py:162-164 | after the insertion, points before the apex keep their index and those from the apex on move up by one |
| Triangle.MakeOne | preprocessing/triangle.py:161-182 | one apex fails with IndexError for an index out of range or fewer than two points above, and otherwise adds exactly one point |
| Triangle.MakeOneGeometry | preprocessing/triangle.py:167-181 | the copy and the apex end on their neighbouring edges at the x of the previous and the next opposite point; every other point keeps its place |
| Triangle.MakeOnePairs | preprocessing/triangle.py:175-179 | with `add_penpair`, the previous opposite point pairs with the original apex under `start`, and the next opposite point with the copy under `start + 1`, the side letters swapped |
| Triangle.OppositeApart | preprocessing/triangle.py:131-139 | neither opposite point is the apex or its copy, and the two differ |
| Triangle.MakeOneNames | preprocessing/triangle.py:161-182 | after one apex every name is an old one, none, or a pen-pair name numbered `start` or `start + 1` |
| Triangle.MakeAll | preprocessing/triangle.py:161-182 | the loop adds one point per apex, and fails only with IndexError or the input error |
| Triangle.MakeAllNames | preprocessing/triangle.py:161-182 | after the loop every name is an old one, none, or a pen-pair name numbered from the start, two per apex |
| Triangle.MakeTriangle | preprocessing/triangle.py:141-182 | a contour that is not a triangle is untouched; an unreadable pair number raises ValueError; otherwise only this contour changes, gaining one point per apex |
| Triangle.MakeTriangleNoApex | preprocessing/triangle.py:149-182 | a triangle contour without an apex comes back as it was |
| Triangle.MakeTriangleNames | preprocessing/triangle.py:155-182 | the contour ends with its old names, none, or pen-pair names numbered from the start number, two per apex |
| Triangle.MakeTriangleLoop | preprocessing/triangle.py:151-182 | a successful run is the apex loop from the start number over the adjusted apexes |

## Left out

- Editor primitives are parameters, constrained only as far as the scripts rely on them:
  - `pointInside` (a `Containment` function);
  - `hasOverlap`: a boolean for the legacy depend script, and for the serif classifier either None or the list of overlap positions (`overlaps` in `Serif`), as examples/yullyeo_serif.py:21-24 uses it;
  - `clockwise` (a boolean);
  - `contour.round()` (a rounding function `rnd` applied to every coordinate; `Append.RoundContourOnGrid` and `Append.AppendLineOnGrid` state its effect);
  - the square root (`sqrt`);
  - fontTools `splitLine`/`splitCubic`/`splitCubicAtT` (only the pieces they return are used);
  - `bPoints`, counted as the contour's on-curve points (`Outline.GlyphOnCurve`).
- `setChanged()` is recorded as a flag or counter, not as an editor notification. The glyph's parent and font come in as values.
- Python `set` iteration order in `get_all_points` is an explicit duplicate-free `order` parameter, because CPython's order for points is not a property of the scripts.
- The `.glif` XML fallback of `Attribute` (tools/attributetools.py:207-216) is file I/O. Its outcome is the `glif` parameter, a `Result` that may fail. `name2attr`/`attr2name` file rewriting is left out for the same reason.
- Triangle.MakeTriangle: a failure returns no glyph. By then the script has inserted the apex copy (preprocessing/triangle.py:162-164) before `find_opposite_points` raises IndexError or `get_linear_function` raises the input error, and every earlier apex is already inserted, renamed and moved. That partial contour is not modelled; the same holds for Triangle.MakeAll and Triangle.MakeOne.
- Text.Lower: only ASCII case mapping is modelled, one character to one; the same holds for Text.Upper. Python's `str.lower`/`str.upper` map all of Unicode and can change the length (`'ß'.upper() == 'SS'`). The scripts only compare the result with `x`/`y`.
- Serif.SerifPlan: a failure returns no glyph. The script has already written `serif=1` on an earlier contour before a later contour raises IndexError; that partial edit is not modelled.
- Elem.ElemPlan: a failure returns no glyph. The tags written on earlier contours before the exception are not modelled.
- Sound.MarkContours: a failure returns no glyph. The first points of earlier contours, already marked before an empty contour raises IndexError, are not modelled.
- Append.SpliceCurve: a failure returns no contour. tools/appendtools.py:69-70 moves `offCurve[0]` before the IndexError on `offCurve[1]`; that move is not modelled.
- Ordering.AttributesOrdering: a failure returns no glyph. Names rewritten before the failing point are not modelled. The same holds for Ordering.LegacyAttributesOrdering.
- Codec.Decode: accepts the JSON subset the format writes, which is string keys and values with whitespace. It fails on numbers, literals, nested values and backslash escapes, which `json.loads` accepts. Names written by `dict2name` never contain them.
- Text.ParseInt: accepts an optional sign and ASCII digits only. It returns None for `" 3"`, `"1_0"` and non-ASCII digits, which Python's `int()` accepts. The scripts only parse numbers they wrote with `str()`.
- Extend.ExtendLine: coordinates and slopes are exact reals; the scripts compute in IEEE floating point, whose rounding is not modelled. The same holds for Extend.LegacyExtendLine, the linear functions, every member of `Append` that interpolates (`Append.AppendPointCoordinate`, `Append.AppendPointRate`, `Append.InternalDivision`), and the slopes, squared distances and equality tests of `Depend` (`Depend.Inclination`, `Depend.IsLinearAligned`, `Depend.DiffDirectionPerpendicular`, `Depend.IsBetween`).
- Extend.ExtendCurveGuard: only the input checks of `extend_curve` are modelled. Its Bézier and numpy computation is floating-point numerics; `makeExtendLine.py` is left out for the same reason.
- Triangle.Inserted: the point that fontParts' `insertPoint(index, type='line', point=...)` adds is taken to be an unnamed on-curve line point at the apex position. fontParts' own choice of type and name for `point=` is not part of this model.
- The root `triangle.py` is covered by the `Triangle` module. It differs from `preprocessing/triangle.py` only in hook names (`_is_triangle`, `_find_triangle_point`, `_find_opposite_points`) and imports (`mojo` `RContour`, `CurrentFont`). Its `stemfont.extendtools` import (triangle.py:8) is not part of this model.
- Sound.MarkPointAppends: requires that `'sound':` does not occur in the encoded name. This follows from the dictionary having no `sound` key whenever keys and values contain no quote, but that is not proved here.
- Hangul `__repr__` (tools/unicodetools.py:52-58, unicode.py:50-56) is display only. It also raises TypeError when the final is None, through string concatenation.
- Bézier helpers (`tools/beziertools.py`, both `derivativetools.py`), `preprocessing/fitter.py` and `tools/plot.py` are numerics and plotting.
- The font iteration glue (`tools/iterfont.py`, `iterfont.py`, `fontiterator.py`), the `__main__` drivers, `preprocessing/component.py`, and the example drivers `examples/yullyeo_stroke.py`, `examples/yullyeo_depend.py`, `examples/yullyeo_sound.py` and `examples/yullyeo_ordering.py` are dispatch around the modelled classes. Their hooks (`calculate_sound`, `calculate_padding`) are parameters here.
- The METAFONT export (`mf/ufo2mf.py`, `mf/constants.py`, `mf/test.py`) writes templates to file handles.
- `examples/yullyeo_tagger.py` does not parse (two statements on line 72).
- The root `sound.py` cannot run: `Sount` at :53, and `get_attr` is called with one argument.

## Findings

| source | as written | input that shows it | evidently intended | confidence | as-written member | corrected member |
|---|---|---|---|---|---|---|
| tools/unicodetools.py:136-151 | `get_chars()` with no code reads `code` on the class, which has no such attribute; `Uni2Kor()` calls it the same way | `Uni2Kor()`, the usage shown at tools/unicodetools.py:22-25 | the instance's own code is used when none is given | not executed | Hangul.GetChars, Hangul.GetCharsOnObjectFails | Hangul.InstanceGetChars, Hangul.InstanceGetCharsStored |
| appendtools.py:35-36 | `if _append_point_curve(...)` is true for both 1 and -1, so a successful insertion falls through and the function returns -1 | any segment split that succeeds, for which `_append_point_curve` returns 1 | return 1 when the insertion succeeded and -1 when it failed | not executed | Append.LegacyAppendPointCoordinate, Append.LegacyCoordinateStatusFinding | Append.LegacyAppendPointCoordinateFixed |
| tools/extendtools.py:62-67 | an axis other than `'x'` or `'y'` leaves `linear_function` unbound, so `extend_line` raises UnboundLocalError instead of its own "Put 'x' or 'y'" error at tools/extendtools.py:93-99 | axis `"z"` with points (0, 0) and (1, 1) | the input error is raised for a bad axis | not executed | Extend.GetLinearFunction, Extend.InvalidAxisExample | Extend.CheckedLinearFunction, Extend.ExtendLine |
