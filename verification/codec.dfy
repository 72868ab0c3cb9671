/** The point-name micro-format: an attribute dictionary written as the body of
    a JSON object (section 4 of RFC 8259) with single quotes in place of double
    quotes, e.g. `'penPair':'z3l','dependX':'z5r'`.

    `Encode` is `dict2name`; `Decode` is `name2dict`, which swaps every `'` for
    `"`, wraps the text in braces and hands it to a JSON object parser. The
    parser here accepts the part of JSON the format uses: whitespace, string
    keys and string values without backslash escapes. */
module Codec {
  import opened Wrappers
  import opened Text
  import opened ODict

  type Attrs = Dict<string>

  // ---------------------------------------------------------------------------
  // Characters

  /** A character that can stand inside a quoted key or value and survive
      both the quote swap and the JSON string grammar. */
  predicate PlainChar(c: char) {
    c != '\'' && c != '"' && c != '\\' && c >= ' '
  }

  predicate Plain(s: string) {
    forall i :: 0 <= i < |s| ==> PlainChar(s[i])
  }

  /** Dictionaries the codec represents faithfully: unique keys, plain text. */
  predicate Clean(d: Attrs) {
    UniqueKeys(d) && forall i :: 0 <= i < |d| ==> Plain(d[i].0) && Plain(d[i].1)
  }

  predicate IsWs(c: char) {
    c == ' ' || c == '\t' || c == '\n' || c == '\r'
  }

  // ---------------------------------------------------------------------------
  // Encoding

  /** One `'k':'v'` token, written with quote character `q`. */
  function TokenWith(q: char, k: string, v: string): string {
    [q] + k + [q, ':', q] + v + [q]
  }

  function Token(k: string, v: string): string {
    TokenWith('\'', k, v)
  }

  function Tokens(d: Attrs): (ts: seq<string>)
    ensures |ts| == |d|
    ensures forall i :: 0 <= i < |d| ==> ts[i] == Token(d[i].0, d[i].1)
  {
    seq(|d|, i requires 0 <= i < |d| => Token(d[i].0, d[i].1))
  }

  /** `dict2name`: the tokens of the entries, in dictionary order, joined by
      commas. */
  function Encode(d: Attrs): string {
    Join(",", Tokens(d))
  }

  // ---------------------------------------------------------------------------
  // Decoding

  /** `name.replace("'", '"')`. */
  function Requote(s: string): (r: string)
    ensures |r| == |s|
    ensures forall i :: 0 <= i < |s| ==> r[i] == if s[i] == '\'' then '"' else s[i]
  {
    seq(|s|, i requires 0 <= i < |s| => if s[i] == '\'' then '"' else s[i])
  }

  function SkipWs(s: string): (r: string)
    ensures |r| <= |s| && r == s[|s| - |r|..]
    ensures |r| > 0 ==> !IsWs(r[0])
  {
    if |s| > 0 && IsWs(s[0]) then SkipWs(s[1..]) else s
  }

  /** Length of the longest prefix of `s` made of characters a JSON string may
      hold unescaped. */
  function BodyLength(s: string): (n: nat)
    ensures n <= |s|
    ensures forall i :: 0 <= i < n ==> s[i] != '"' && s[i] != '\\' && s[i] >= ' '
    ensures n < |s| ==> s[n] == '"' || s[n] == '\\' || s[n] < ' '
  {
    if |s| > 0 && s[0] != '"' && s[0] != '\\' && s[0] >= ' ' then 1 + BodyLength(s[1..]) else 0
  }

  /** A JSON string at the head of `s`: its text and what follows it. */
  function ParseString(s: string): (r: Result<(string, string)>)
    ensures r.Success? ==> |r.value.1| < |s|
  {
    if |s| == 0 || s[0] != '"' then Failure(ParseError)
    else
      var n := BodyLength(s[1..]);
      if n < |s| - 1 && s[n + 1] == '"' then Success((s[1..n + 1], s[n + 2..]))
      else Failure(ParseError)   // unterminated, an escape, or a control character
  }

  /** One member `key ws : ws value ws` at the head of `s`: the key, the
      value, and the text after the trailing whitespace. */
  function ParseMember(s: string): (r: Result<(string, string, string)>)
    ensures r.Success? ==> |r.value.2| < |s|
  {
    var (k, r1) :- ParseString(s);
    var r2 := SkipWs(r1);
    if |r2| == 0 || r2[0] != ':' then Failure(ParseError)
    else
      var (v, r3) :- ParseString(SkipWs(r2[1..]));
      Success((k, v, SkipWs(r3)))
  }

  /** The members of a JSON object from the first key on, folded into `acc`
      as Python's `dict(pairs)` does: a repeated key keeps its first position
      and takes its last value. */
  function ParseMembers(s: string, acc: Attrs): Result<Attrs>
    decreases |s|
  {
    var (k, v, r) :- ParseMember(s);
    if |r| == 0 then Failure(ParseError)
    else if r[0] == ',' then ParseMembers(SkipWs(r[1..]), Put(acc, k, v))
    else if r[0] == '}' && SkipWs(r[1..]) == [] then Success(Put(acc, k, v))
    else Failure(ParseError)
  }

  /** `json.loads` of a document that must be one object. */
  function ParseObject(doc: string): Result<Attrs> {
    var s := SkipWs(doc);
    if |s| == 0 || s[0] != '{' then Failure(ParseError)
    else
      var s1 := SkipWs(s[1..]);
      if |s1| > 0 && s1[0] == '}' then
        (if SkipWs(s1[1..]) == [] then Success([]) else Failure(ParseError))
      else ParseMembers(s1, [])
  }

  /** `name2dict`: None decodes to the empty dictionary; any other name is
      requoted, braced and parsed. */
  function Decode(name: Option<string>): Result<Attrs> {
    match name
    case None => Success([])
    case Some(n) => ParseObject("{" + Requote(n) + "}")
  }

  // ---------------------------------------------------------------------------
  // Round trip

  lemma {:induction false} RequoteAppend(a: string, b: string)
    ensures Requote(a + b) == Requote(a) + Requote(b)
  {
  }

  lemma {:induction false} RequotePlain(s: string)
    requires Plain(s)
    ensures Requote(s) == s
  {
  }

  lemma {:induction false} RequoteToken(k: string, v: string)
    requires Plain(k) && Plain(v)
    ensures Requote(Token(k, v)) == TokenWith('"', k, v)
  {
    var t := Token(k, v);
    var u := TokenWith('"', k, v);
    assert |t| == |u|;
    forall i | 0 <= i < |t| ensures Requote(t)[i] == u[i] {
      if i == 0 || i == |k| + 1 || i == |k| + 3 || i == |t| - 1 {
      } else if i < |k| + 1 {
        assert t[i] == k[i - 1] && u[i] == k[i - 1];
      } else if i == |k| + 2 {
      } else {
        assert t[i] == v[i - |k| - 4] && u[i] == v[i - |k| - 4];
      }
    }
  }

  /** The token sequence written with double quotes. */
  function EncodeQ(d: Attrs): string
    decreases |d|
  {
    if |d| == 0 then ""
    else if |d| == 1 then TokenWith('"', d[0].0, d[0].1)
    else TokenWith('"', d[0].0, d[0].1) + "," + EncodeQ(d[1..])
  }

  lemma EncodeOne(d: Attrs)
    requires |d| == 1
    ensures Encode(d) == Token(d[0].0, d[0].1)
  {
  }

  lemma EncodeCons(d: Attrs)
    requires |d| > 1
    ensures Encode(d) == Token(d[0].0, d[0].1) + ("," + Encode(d[1..]))
  {
    assert Tokens(d)[1..] == Tokens(d[1..]);
  }

  lemma {:induction false} RequoteEncode(d: Attrs)
    requires Clean(d)
    ensures Requote(Encode(d)) == EncodeQ(d)
    decreases |d|
  {
    if |d| == 0 {
    } else {
      RequoteToken(d[0].0, d[0].1);
      if |d| == 1 {
        EncodeOne(d);
      } else {
        assert Clean(d[1..]);
        RequoteEncode(d[1..]);
        var t := Token(d[0].0, d[0].1);
        var rest := Encode(d[1..]);
        EncodeCons(d);
        RequoteAppend(t, "," + rest);
        RequoteAppend(",", rest);
        assert Requote(",") == ",";
        assert EncodeQ(d) == TokenWith('"', d[0].0, d[0].1) + ("," + EncodeQ(d[1..]));
      }
    }
  }

  lemma {:induction false} BodyLengthPlain(k: string, tail: string)
    requires Plain(k)
    ensures BodyLength(k + "\"" + tail) == |k|
    decreases |k|
  {
    if |k| > 0 {
      assert (k + "\"" + tail)[1..] == k[1..] + "\"" + tail;
      BodyLengthPlain(k[1..], tail);
    }
  }

  lemma {:induction false} ParseStringPlain(k: string, tail: string)
    requires Plain(k)
    ensures ParseString("\"" + k + "\"" + tail) == Success((k, tail))
  {
    var s := "\"" + k + "\"" + tail;
    assert s[1..] == k + "\"" + tail;
    BodyLengthPlain(k, tail);
    assert s[1..|k| + 1] == k;
    assert s[|k| + 2..] == tail;
  }

  lemma {:induction false} SkipWsNone(s: string)
    requires |s| > 0 && !IsWs(s[0])
    ensures SkipWs(s) == s
  {
  }

  lemma {:induction false} ParseMemberPlain(k: string, v: string, rest: string)
    requires Plain(k) && Plain(v)
    requires |rest| > 0 && !IsWs(rest[0])
    ensures ParseMember(TokenWith('"', k, v) + rest) == Success((k, v, rest))
  {
    var vpart := "\"" + v + "\"" + rest;
    var tail := ":" + vpart;
    var s := "\"" + k + "\"" + tail;
    assert TokenWith('"', k, v) + rest == s;
    ParseStringPlain(k, tail);
    SkipWsNone(tail);
    assert tail[1..] == vpart;
    SkipWsNone(vpart);
    ParseStringPlain(v, rest);
    SkipWsNone(rest);
  }

  lemma {:induction false} CleanSplit(acc: Attrs, d: Attrs)
    requires |d| > 0 && Clean(acc + d)
    ensures Plain(d[0].0) && Plain(d[0].1)
    ensures !HasKey(acc, d[0].0)
    ensures Clean((acc + [d[0]]) + d[1..])
  {
    assert (acc + d)[|acc|] == d[0];
    assert acc + d == (acc + [d[0]]) + d[1..];
    forall i | 0 <= i < |acc| ensures Keys(acc)[i] != d[0].0 {
      assert (acc + d)[i].0 != (acc + d)[|acc|].0;
    }
  }

  /** One step of `ParseMembers` after a member that parsed. */
  lemma {:induction false} MembersStep(s: string, acc: Attrs, k: string, v: string, rest: string)
    requires ParseMember(s) == Success((k, v, rest))
    ensures |rest| > 0 && rest[0] == ',' ==>
              ParseMembers(s, acc) == ParseMembers(SkipWs(rest[1..]), Put(acc, k, v))
    ensures rest == "}" ==> ParseMembers(s, acc) == Success(Put(acc, k, v))
  {
    if rest == "}" {
      assert rest[1..] == [];
    }
  }

  lemma {:induction false} ConsAppend<T>(a: seq<T>, d: seq<T>)
    requires |d| > 0
    ensures (a + [d[0]]) + d[1..] == a + d
  {
    assert d == [d[0]] + d[1..];
  }

  lemma {:induction false} EncodeQHead(d: Attrs)
    requires |d| > 0
    ensures |EncodeQ(d)| > 0 && EncodeQ(d)[0] == '"'
  {
  }

  /** The last member of an object, followed by its closing brace. */
  lemma {:induction false} LastMember(k: string, v: string, acc: Attrs)
    requires Plain(k) && Plain(v)
    ensures ParseMembers(TokenWith('"', k, v) + "}", acc) == Success(Put(acc, k, v))
  {
    ParseMemberPlain(k, v, "}");
    MembersStep(TokenWith('"', k, v) + "}", acc, k, v, "}");
  }

  /** A member followed by a comma and the next member. */
  lemma {:induction false} NextMember(k: string, v: string, tail: string, acc: Attrs)
    requires Plain(k) && Plain(v) && |tail| > 0 && tail[0] == '"'
    ensures ParseMembers(TokenWith('"', k, v) + ("," + tail), acc)
            == ParseMembers(tail, Put(acc, k, v))
  {
    ParseMemberPlain(k, v, "," + tail);
    MembersStep(TokenWith('"', k, v) + ("," + tail), acc, k, v, "," + tail);
    assert ("," + tail)[1..] == tail;
    SkipWsNone(tail);
  }

  lemma {:induction false} EncodeQCons(d: Attrs)
    requires |d| > 1
    ensures EncodeQ(d) + "}" == TokenWith('"', d[0].0, d[0].1) + ("," + (EncodeQ(d[1..]) + "}"))
  {
  }

  lemma {:induction false} MembersRoundTrip(d: Attrs, acc: Attrs)
    requires |d| > 0 && Clean(acc + d)
    ensures ParseMembers(EncodeQ(d) + "}", acc) == Success(acc + d)
    decreases |d|
  {
    var k, v := d[0].0, d[0].1;
    CleanSplit(acc, d);
    var acc' := acc + [d[0]];
    assert Put(acc, k, v) == acc';
    ConsAppend(acc, d);
    var s := EncodeQ(d) + "}";
    if |d| == 1 {
      assert s == TokenWith('"', k, v) + "}";
      LastMember(k, v, acc);
      assert ParseMembers(s, acc) == Success(acc');
      assert acc' == acc + d;
    } else {
      var tail := EncodeQ(d[1..]) + "}";
      EncodeQHead(d[1..]);
      EncodeQCons(d);
      assert s == TokenWith('"', k, v) + ("," + tail);
      NextMember(k, v, tail, acc);
      assert ParseMembers(s, acc) == ParseMembers(tail, acc');
      MembersRoundTrip(d[1..], acc');
      assert ParseMembers(tail, acc') == Success(acc' + d[1..]);
    }
  }

  lemma {:induction false} ObjectOfMembers(body: string)
    requires |body| > 0 && body[0] == '"'
    ensures ParseObject("{" + body) == ParseMembers(body, [])
  {
    var doc := "{" + body;
    SkipWsNone(doc);
    assert doc[1..] == body;
    SkipWsNone(body);
  }

  lemma {:induction false} EmptyObject()
    ensures ParseObject("{}") == Success([])
  {
    var doc := "{}";
    SkipWsNone(doc);
    assert doc[1..] == "}";
    SkipWsNone("}");
    assert "}"[1..] == [];
  }

  lemma {:induction false} ObjectRoundTrip(d: Attrs)
    requires Clean(d)
    ensures ParseObject("{" + EncodeQ(d) + "}") == Success(d)
  {
    if |d| == 0 {
      assert "{" + EncodeQ(d) + "}" == "{}";
      EmptyObject();
    } else {
      var body := EncodeQ(d) + "}";
      EncodeQHead(d);
      assert "{" + EncodeQ(d) + "}" == "{" + body;
      ObjectOfMembers(body);
      assert [] + d == d;
      MembersRoundTrip(d, []);
    }
  }

  /** `name2dict(dict2name(d)) == d` for every clean dictionary, order
      included. */
  lemma {:induction false} RoundTrip(d: Attrs)
    requires Clean(d)
    ensures Decode(Some(Encode(d))) == Success(d)
  {
    RequoteEncode(d);
    ObjectRoundTrip(d);
  }

  // ---------------------------------------------------------------------------
  // What decoding produces

  lemma {:induction false} PutClean(d: Attrs, k: string, v: string)
    requires Clean(d) && Plain(k) && Plain(v)
    ensures Clean(Put(d, k, v))
  {
    PutUnique(d, k, v);
    var r := Put(d, k, v);
    forall i | 0 <= i < |r| ensures Plain(r[i].0) && Plain(r[i].1) {
      PutEntry(d, k, v, i);
    }
  }

  lemma {:induction false} PutEntry(d: Attrs, k: string, v: string, i: nat)
    requires i < |Put(d, k, v)|
    ensures Put(d, k, v)[i] == (k, v) || Put(d, k, v)[i] in d
  {
    if |d| > 0 && d[0].0 != k && i > 0 {
      assert Put(d, k, v)[i] == Put(d[1..], k, v)[i - 1];
      PutEntry(d[1..], k, v, i - 1);
    }
  }

  /** No single quote anywhere: what every requoted name satisfies. */
  predicate NoQuote(s: string) {
    forall i :: 0 <= i < |s| ==> s[i] != '\''
  }

  lemma {:induction false} NoQuoteSuffix(s: string, j: nat)
    requires NoQuote(s) && j <= |s|
    ensures NoQuote(s[j..])
  {
    forall i | 0 <= i < |s| - j ensures s[j..][i] != '\'' {
      assert s[j..][i] == s[j + i];
    }
  }

  lemma {:induction false} NoQuoteSkipWs(s: string)
    requires NoQuote(s)
    ensures NoQuote(SkipWs(s))
  {
    NoQuoteSuffix(s, |s| - |SkipWs(s)|);
  }

  lemma {:induction false} ParseStringPlainResult(s: string)
    requires ParseString(s).Success? && NoQuote(s)
    ensures Plain(ParseString(s).value.0) && NoQuote(ParseString(s).value.1)
  {
    var n := BodyLength(s[1..]);
    var k := s[1..n + 1];
    assert ParseString(s).value == (k, s[n + 2..]);
    forall i | 0 <= i < |k| ensures PlainChar(k[i]) {
      assert k[i] == s[1..][i] == s[i + 1];
    }
    NoQuoteSuffix(s, n + 2);
  }

  lemma {:induction false} ParseMemberPlainResult(s: string)
    requires ParseMember(s).Success? && NoQuote(s)
    ensures Plain(ParseMember(s).value.0) && Plain(ParseMember(s).value.1)
    ensures NoQuote(ParseMember(s).value.2)
  {
    var (k, r1) := ParseString(s).value;
    ParseStringPlainResult(s);
    var r2 := SkipWs(r1);
    NoQuoteSkipWs(r1);
    NoQuoteSuffix(r2, 1);
    var s3 := SkipWs(r2[1..]);
    NoQuoteSkipWs(r2[1..]);
    var (v, r3) := ParseString(s3).value;
    ParseStringPlainResult(s3);
    NoQuoteSkipWs(r3);
    assert ParseMember(s).value == (k, v, SkipWs(r3));
  }

  lemma {:induction false} MembersClean(s: string, acc: Attrs)
    requires Clean(acc) && NoQuote(s)
    requires ParseMembers(s, acc).Success?
    ensures Clean(ParseMembers(s, acc).value)
    decreases |s|
  {
    var (k, v, r) := ParseMember(s).value;
    ParseMemberPlainResult(s);
    PutClean(acc, k, v);
    if r[0] == ',' {
      NoQuoteSuffix(r, 1);
      NoQuoteSkipWs(r[1..]);
      MembersClean(SkipWs(r[1..]), Put(acc, k, v));
    } else {
      assert ParseMembers(s, acc).value == Put(acc, k, v);
    }
  }

  lemma {:induction false} RequoteNoQuote(n: string)
    ensures NoQuote("{" + Requote(n) + "}")
  {
    var doc := "{" + Requote(n) + "}";
    forall i | 0 <= i < |doc| ensures doc[i] != '\'' {
      if 0 < i < |doc| - 1 {
        assert doc[i] == Requote(n)[i - 1];
      }
    }
  }

  /** Whatever `name2dict` returns is a clean dictionary: every quote was
      swapped to `"` and so cannot occur inside a key or value. */
  lemma {:induction false} DecodeClean(name: Option<string>)
    requires Decode(name).Success?
    ensures Clean(Decode(name).value)
  {
    if name.Some? {
      var doc := "{" + Requote(name.value) + "}";
      RequoteNoQuote(name.value);
      var s := SkipWs(doc);
      NoQuoteSkipWs(doc);
      NoQuoteSuffix(s, 1);
      var s1 := SkipWs(s[1..]);
      NoQuoteSkipWs(s[1..]);
      if !(|s1| > 0 && s1[0] == '}') {
        assert Decode(name) == ParseMembers(s1, []);
        MembersClean(s1, []);
      }
    }
  }

  /** Decoding, re-encoding and decoding again gives the same dictionary:
      a name written back by any accessor means what it meant before. */
  lemma {:induction false} DecodeEncodeDecode(name: Option<string>)
    requires Decode(name).Success?
    ensures Decode(Some(Encode(Decode(name).value))) == Decode(name)
  {
    DecodeClean(name);
    RoundTrip(Decode(name).value);
  }

  // ---------------------------------------------------------------------------
  // Clean dictionaries under the map operations

  lemma KeyPlain(d: Attrs, k: string)
    requires Clean(d) && HasKey(d, k)
    ensures Plain(k)
  {
    HasKeyIndex(d, k);
  }

  lemma RemoveClean(d: Attrs, k: string)
    requires Clean(d)
    ensures Clean(Remove(d, k))
  {
    RemoveUnique(d, k);
    var r := Remove(d, k);
    forall i | 0 <= i < |r| ensures Plain(r[i].0) && Plain(r[i].1) {
      assert r[i] in d;
    }
  }

  // ---------------------------------------------------------------------------
  // Appending to a written name

  /** Writing one more entry after a non-empty dictionary appends a comma and
      its token. */
  lemma EncodeSnoc(d: Attrs, k: string, v: string)
    requires |d| > 0
    ensures Encode(d + [(k, v)]) == Encode(d) + "," + Token(k, v)
  {
    assert Tokens(d + [(k, v)]) == Tokens(d) + [Token(k, v)];
    JoinSnoc(",", Tokens(d), Token(k, v));
  }

  /** The quoted key opening a token. */
  function KeyPrefix(k: string): string {
    "'" + k + "':"
  }

  /** A written name shows `'k':` for each of its keys. */
  lemma EncodeShowsKey(d: Attrs, k: string)
    requires HasKey(d, k)
    ensures Contains(Encode(d), KeyPrefix(k))
  {
    HasKeyIndex(d, k);
    var i :| 0 <= i < |d| && d[i].0 == k;
    var before, after := JoinSplit(",", Tokens(d), i);
    assert Tokens(d)[i] == Token(k, d[i].1);
    TokenStartsWithKey(k, d[i].1);
    ContainsMiddle(before, Token(k, d[i].1), after, KeyPrefix(k));
  }

  lemma TokenStartsWithKey(k: string, v: string)
    ensures |KeyPrefix(k)| <= |Token(k, v)| && Token(k, v)[..|KeyPrefix(k)|] == KeyPrefix(k)
  {
    assert Token(k, v) == KeyPrefix(k) + ("'" + v + "'");
  }

  /** An empty name decodes, like a missing one, to the empty dictionary. */
  lemma DecodeEmpty()
    ensures Decode(Some("")) == Success([])
  {
    assert "{" + Requote("") + "}" == "{}";
    EmptyObject();
  }

  /** `str(i)` is plain text: digits and a minus sign. */
  lemma IntToStringPlain(i: int)
    ensures Plain(IntToString(i))
  {
    var s := IntToString(i);
    if i < 0 {
      var body := NatToString(-i);
      assert s == "-" + body;
      forall j | 0 <= j < |s| ensures PlainChar(s[j]) {
        if j > 0 { assert s[j] == body[j - 1]; assert IsDigit(body[j - 1]); }
      }
    } else {
      assert forall j :: 0 <= j < |s| ==> IsDigit(s[j]);
    }
  }
}
