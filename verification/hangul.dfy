/** `Uni2Kor`: the Hangul Syllable Decomposition of section 3.12 of the
    Unicode Standard (Conjoining Jamo Behavior) for precomposed syllables
    U+AC00..U+D7A3, with the jamo tables, the sound lookup, the layout
    ("form type") classifier and the hexadecimal code.

    A syllable code is SBase + 588·first + 28·middle + final, where 588 is
    VCount·TCount and 28 is TCount. Python's `//` and `%` by a positive
    divisor are Dafny's `/` and `%`. */
module Hangul {
  import opened Wrappers
  import opened Text

  const SBase: int := 0xAC00
  const SLast: int := 0xD7A3
  const LCount: nat := 19
  const VCount: nat := 21
  const TCount: nat := 28
  const NCount: nat := 588   // VCount * TCount

  /** The initial consonants, indexed by `first`. */
  const FirstJamo: seq<string> :=
    ["ㄱ", "ㄲ", "ㄴ", "ㄷ", "ㄸ", "ㄹ", "ㅁ", "ㅂ", "ㅃ", "ㅅ", "ㅆ",
     "ㅇ", "ㅈ", "ㅉ", "ㅊ", "ㅋ", "ㅌ", "ㅍ", "ㅎ"]

  /** The vowels, indexed by `middle`. */
  const MiddleJamo: seq<string> :=
    ["ㅏ", "ㅐ", "ㅑ", "ㅒ", "ㅓ", "ㅔ", "ㅕ", "ㅖ", "ㅗ", "ㅘ", "ㅙ",
     "ㅚ", "ㅛ", "ㅜ", "ㅝ", "ㅞ", "ㅟ", "ㅠ", "ㅡ", "ㅢ", "ㅣ"]

  /** The final consonants, indexed by `final`; index 0 is "no final". */
  const FinalJamo: seq<Option<string>> :=
    [None, Some("ㄱ"), Some("ㄲ"), Some("ㄱㅅ"), Some("ㄴ"), Some("ㄴㅈ"), Some("ㄴㅎ"),
     Some("ㄷ"), Some("ㄹ"), Some("ㄹㄱ"), Some("ㄹㅁ"), Some("ㄹㅂ"), Some("ㄹㅅ"),
     Some("ㄹㅌ"), Some("ㄹㅍ"), Some("ㄹㅎ"), Some("ㅁ"), Some("ㅂ"), Some("ㅂㅅ"),
     Some("ㅅ"), Some("ㅆ"), Some("ㅇ"), Some("ㅈ"), Some("ㅊ"), Some("ㅋ"), Some("ㅌ"),
     Some("ㅍ"), Some("ㅎ")]

  /** Vowel groups by the direction the vowel extends. */
  const VowelHorizontal: seq<nat> := [8, 12, 13, 17, 18]
  const VowelVertical: seq<nat> := [0, 1, 2, 3, 4, 5, 6, 7, 20]
  const VowelDouble: seq<nat> := [9, 10, 11, 14, 15, 16, 19]

  predicate InRange(code: int) {
    SBase <= code <= SLast
  }

  datatype Indices = Indices(first: nat, middle: nat, final: nat)

  function Compose(ix: Indices): int {
    SBase + NCount * ix.first + TCount * ix.middle + ix.final
  }

  predicate ValidIndices(ix: Indices) {
    ix.first < LCount && ix.middle < VCount && ix.final < TCount
  }

  /** `parse_unicode(code)`: ValueError outside the syllable block. */
  function ParseUnicode(code: int): (r: Result<Indices>)
    ensures r.Success? <==> InRange(code)
    ensures r.Success? ==> ValidIndices(r.value) && Compose(r.value) == code
  {
    if !InRange(code) then Failure(ValueError)
    else
      var (first, middle, final) := Split(code - SBase);
      Success(Indices(first, middle, final))
  }

  /** `first = c // 588; middle = (c - 588 * first) // 28; final = c % 28`:
      the index arithmetic both versions of `get_chars` share. */
  function Split(c: int): (int, int, int) {
    var first := c / 588;
    (first, (c - 588 * first) / 28, c % 28)
  }

  /** Decomposition inverts composition. */
  lemma ParseCompose(ix: Indices)
    requires ValidIndices(ix)
    ensures ParseUnicode(Compose(ix)) == Success(ix)
  {
    var c := Compose(ix) - SBase;
    assert c == 588 * ix.first + (28 * ix.middle + ix.final);
    assert 28 * ix.middle + ix.final < 588;
    DivModUnique(c, 588, ix.first, 28 * ix.middle + ix.final);
    DivModUnique(28 * ix.middle + ix.final, 28, ix.middle, ix.final);
    assert c == 28 * (21 * ix.first + ix.middle) + ix.final;
    DivModUnique(c, 28, 21 * ix.first + ix.middle, ix.final);
  }

  lemma DivModUnique(a: int, d: int, q: int, r: int)
    requires d > 0 && a == d * q + r && 0 <= r < d
    ensures a / d == q && a % d == r
  {
    var q0, r0 := a / d, a % d;
    assert a == d * q0 + r0 && 0 <= r0 < d;
    if q0 < q {
      assert d * q - d * q0 == d * (q - q0);
      MulAtLeast(d, q - q0);
    } else if q0 > q {
      assert d * q0 - d * q == d * (q0 - q);
      MulAtLeast(d, q0 - q);
    }
  }

  lemma {:induction false} MulAtLeast(d: int, k: int)
    requires d > 0 && k >= 1
    ensures d * k >= d
    decreases k
  {
    if k > 1 {
      MulAtLeast(d, k - 1);
      assert d * k == d * (k - 1) + d;
    }
  }

  // ---------------------------------------------------------------------------
  // Vowel groups and form types

  /** Every vowel index belongs to exactly one of the three groups. */
  lemma VowelGroupsPartition(m: nat)
    requires m < VCount
    ensures (m in VowelVertical) || (m in VowelHorizontal) || (m in VowelDouble)
    ensures !(m in VowelVertical && m in VowelHorizontal)
    ensures !(m in VowelVertical && m in VowelDouble)
    ensures !(m in VowelHorizontal && m in VowelDouble)
  {
  }

  /** `get_form_type(code)`: the syllable's layout class. The Python code
      falls off the end (returns None) for a vowel in no group; None here. */
  function GetFormType(code: int): (r: Result<Option<nat>>)
    ensures r.Success? <==> InRange(code)
  {
    var ix :- ParseUnicode(code);
    var m := ix.middle;
    if ix.final == 0 then
      if m in VowelVertical then Success(Some(1))
      else if m in VowelHorizontal then Success(Some(3))
      else if m in VowelDouble then Success(Some(5))
      else Success(None)
    else
      if m in VowelVertical then Success(Some(2))
      else if m in VowelHorizontal then Success(Some(4))
      else if m in VowelDouble then Success(Some(6))
      else Success(None)
  }

  /** For every syllable the form type is one of 1..6; it is odd exactly when
      the syllable has no final consonant, and the vowel group decides which
      pair it falls in. */
  lemma FormTypeClasses(code: int)
    requires InRange(code)
    ensures GetFormType(code).value.Some?
    ensures 1 <= GetFormType(code).value.value <= 6
    ensures GetFormType(code).value.value % 2 == 1 <==> ParseUnicode(code).value.final == 0
    ensures GetFormType(code).value.value in {1, 2} <==> ParseUnicode(code).value.middle in VowelVertical
    ensures GetFormType(code).value.value in {3, 4} <==> ParseUnicode(code).value.middle in VowelHorizontal
    ensures GetFormType(code).value.value in {5, 6} <==> ParseUnicode(code).value.middle in VowelDouble
  {
    VowelGroupsPartition(ParseUnicode(code).value.middle);
  }

  // ---------------------------------------------------------------------------
  // Sounds and characters

  /** `get_sound(sound_name, value)`: a table lookup; KeyError for an index
      outside the table, ValueError for an unknown sound name. The final
      table maps index 0 to None. */
  function GetSound(soundName: string, value: int): (r: Result<Option<string>>)
    ensures soundName !in {"first", "middle", "final"} ==> r == Failure(ValueError)
    ensures soundName == "first" ==> (r.Success? <==> 0 <= value < LCount)
    ensures soundName == "middle" ==> (r.Success? <==> 0 <= value < VCount)
    ensures soundName == "final" ==> (r.Success? <==> 0 <= value < TCount)
    ensures r.Success? ==> (r.value.None? <==> soundName == "final" && value == 0)
  {
    if soundName == "first" then
      if 0 <= value < |FirstJamo| then Success(Some(FirstJamo[value])) else Failure(KeyError)
    else if soundName == "middle" then
      if 0 <= value < |MiddleJamo| then Success(Some(MiddleJamo[value])) else Failure(KeyError)
    else if soundName == "final" then
      if 0 <= value < |FinalJamo| then Success(FinalJamo[value]) else Failure(KeyError)
    else Failure(ValueError)
  }

  /** The three components `[first_char, middle_char, final_char]`. */
  datatype Chars = Chars(first: Option<string>, middle: Option<string>, final: Option<string>)

  function CharsOf(ix: Indices): Chars
    requires ValidIndices(ix)
  {
    Chars(Some(FirstJamo[ix.first]), Some(MiddleJamo[ix.middle]), FinalJamo[ix.final])
  }

  /** `Uni2Kor.get_chars(code)` with a code: ValueError outside the block;
      otherwise the three table entries, the last None exactly for a
      syllable without a final consonant. */
  function GetCharsOf(code: int): (r: Result<Chars>)
    ensures r.Success? <==> InRange(code)
    ensures r.Success? ==> r.value.first.Some? && r.value.middle.Some?
    ensures r.Success? ==> (r.value.final.None? <==> (code - SBase) % TCount == 0)
    ensures r.Success? ==> r.value == CharsOf(ParseUnicode(code).value)
  {
    var ix :- ParseUnicode(code);
    Success(CharsOf(ix))
  }

  /** A `Uni2Kor` object: its code and stored components. */
  datatype Uni2Kor = Uni2Kor(code: Option<int>, chars: Chars)

  /** The current `get_chars(code=None)`. It is a classmethod, so with no
      argument it reads `cls.code`, an attribute the class does not have. */
  function GetChars(code: Option<int>): (r: Result<Chars>)
    ensures code.None? ==> r == Failure(AttributeError)
    ensures code.Some? ==> r == GetCharsOf(code.value)
  {
    match code
    case None => Failure(AttributeError)
    case Some(c) => GetCharsOf(c)
  }

  /** The current constructor `Uni2Kor(code=None)`, which stores
      `get_chars(code)`. */
  function NewUni2Kor(code: Option<int>): (r: Result<Uni2Kor>)
    ensures r.Success? <==> code.Some? && InRange(code.value)
    ensures r.Success? ==> r.value.code == code && r.value.chars == GetChars(code).value
  {
    var chars :- GetChars(code);
    Success(Uni2Kor(code, chars))
  }

  /** `uc.get_chars()` on a constructed object fails even though the object
      holds its components: the call `Uni2Kor(0xAC00).get_chars()` shown in
      the class documentation raises AttributeError. */
  lemma GetCharsOnObjectFails(code: int)
    requires InRange(code)
    ensures NewUni2Kor(Some(code)).Success?
    ensures GetChars(None) == Failure(AttributeError)
    ensures NewUni2Kor(None) == Failure(AttributeError)
  {
  }

  /** `get_chars` read as an instance method, as documented: no argument
      gives the stored components. */
  function InstanceGetChars(u: Uni2Kor, code: Option<int>): (r: Result<Chars>)
    ensures code.None? ==> r == Success(u.chars)
    ensures code.Some? ==> r == GetCharsOf(code.value)
  {
    match code
    case None => Success(u.chars)
    case Some(c) => GetCharsOf(c)
  }

  /** With the instance reading, `Uni2Kor(code).get_chars()` gives the same
      components as `get_chars(code)`. */
  lemma InstanceGetCharsStored(code: int)
    requires InRange(code)
    ensures InstanceGetChars(NewUni2Kor(Some(code)).value, None) == GetCharsOf(code)
  {
  }

  /** `get_hex_code()`: "" without a code, else `hex(code).upper()[2:]`. */
  function GetHexCode(u: Uni2Kor): (s: string)
    ensures u.code.None? <==> s == ""
    ensures u.code.Some? && u.code.value >= 0 ==> s == HexUpper(u.code.value)
  {
    match u.code
    case None => ""
    case Some(c) => HexCodeOf(c)
  }

  /** The key of the one-entry dictionary `get_char_dict` builds. */
  datatype CharKey = CodeKey(code: int) | HexKey(hex: string)

  /** `get_char_dict(to_hex)`: empty without a code, else one entry keyed by
      the code or by its hexadecimal string. */
  function GetCharDict(u: Uni2Kor, toHex: bool): (d: seq<(CharKey, Chars)>)
    ensures u.code.None? <==> d == []
    ensures u.code.Some? ==> |d| == 1 && d[0].1 == u.chars
    ensures u.code.Some? && toHex ==> d[0].0 == HexKey(GetHexCode(u))
    ensures u.code.Some? && !toHex ==> d[0].0 == CodeKey(u.code.value)
  {
    match u.code
    case None => []
    case Some(c) => if toHex then [(HexKey(GetHexCode(u)), u.chars)] else [(CodeKey(c), u.chars)]
  }

  // ---------------------------------------------------------------------------
  // The older class

  /** The older `get_chars(code=None)`: no argument gives the stored
      components; a code is decomposed with no range check, and the table
      lookups raise KeyError for an index they do not hold. */
  function LegacyGetChars(u: Uni2Kor, code: Option<int>): (r: Result<Chars>)
    ensures code.None? ==> r == Success(u.chars)
  {
    match code
    case None => Success(u.chars)
    case Some(c) =>
      var (first, middle, final) := Split(c - SBase);
      LegacyLookup(first, middle, final)
  }

  /** The three table lookups of the older `get_chars`, KeyError for the
      first index a table does not hold. */
  function LegacyLookup(first: int, middle: int, final: int): (r: Result<Chars>)
    ensures r.Success? <==> 0 <= first < LCount && 0 <= middle < VCount && 0 <= final < TCount
    ensures r.Failure? ==> r.error == KeyError
    ensures r.Success? ==> r.value == CharsOf(Indices(first, middle, final))
  {
    if !(0 <= first < |FirstJamo|) then Failure(KeyError)
    else if !(0 <= middle < |MiddleJamo|) then Failure(KeyError)
    else if !(0 <= final < |FinalJamo|) then Failure(KeyError)
    else Success(Chars(Some(FirstJamo[first]), Some(MiddleJamo[middle]), FinalJamo[final]))
  }

  /** Without a range check the older `get_chars(code)` still fails exactly
      outside the syllable block, through the first-consonant lookup, and
      agrees with the current decomposition inside it. */
  lemma LegacyGetCharsRange(u: Uni2Kor, code: int)
    ensures LegacyGetChars(u, Some(code)).Success? <==> InRange(code)
    ensures !InRange(code) ==> LegacyGetChars(u, Some(code)) == Failure(KeyError)
    ensures InRange(code) ==> LegacyGetChars(u, Some(code)) == GetCharsOf(code)
  {
    if !InRange(code) {
      FirstIndexOutside(code);
    } else {
      LegacyGetCharsInside(u, code);
    }
  }

  lemma LegacyGetCharsInside(u: Uni2Kor, code: int)
    requires InRange(code)
    ensures LegacyGetChars(u, Some(code)) == GetCharsOf(code)
  {
    var (first, middle, final) := Split(code - SBase);
    assert LegacyGetChars(u, Some(code)) == LegacyLookup(first, middle, final);
    assert ParseUnicode(code) == Success(Indices(first, middle, final));
  }

  /** Outside the block the first-consonant index is negative or past 18. */
  lemma FirstIndexOutside(code: int)
    requires !InRange(code)
    ensures (code - SBase) / 588 < 0 || (code - SBase) / 588 >= 19
  {
    var c := code - SBase;
    var q := c / 588;
    assert c == 588 * q + c % 588;
  }

  /** The older constructor: no code stores three None components; a code
      stores `get_chars(code)`. */
  function LegacyNewUni2Kor(code: Option<int>): (r: Result<Uni2Kor>)
    ensures code.None? ==> r == Success(Uni2Kor(None, Chars(None, None, None)))
    ensures code.Some? ==> (r.Success? <==> InRange(code.value))
    ensures r.Success? && code.Some? ==> r.value.chars == GetCharsOf(code.value).value
  {
    var blank := Uni2Kor(code, Chars(None, None, None));
    match code
    case None => Success(blank)
    case Some(c) =>
      LegacyGetCharsRange(blank, c);
      var chars :- LegacyGetChars(blank, code);
      Success(Uni2Kor(code, chars))
  }
}
