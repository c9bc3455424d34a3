/** How the parser and the serializer fit together: the field loop undoes
    the comma join, and parsing a rendered sentence gives back its contents. */
module RoundTrip {
  import opened CStrings
  import opened Checksums
  import opened Messages
  import opened Serializer
  import opened Parser
  import opened Stages

  /** A text with none of the characters the parser splits or stops on. */
  predicate Plain(t: seq<Char>) {
    ',' !in t && '*' !in t && CR !in t && NUL !in t
  }

  /** No delimiter or NUL right after `end`: the loop stops. */
  lemma SplitNone(s: seq<Char>, prev: nat, end: nat)
    requires prev <= end < |s|
    requires ',' !in s[prev + 1..end + 1] && '*' !in s[prev + 1..end + 1] && NUL !in s[prev + 1..end + 1]
    ensures SplitFields(s, prev, end) == []
  {
    FindNotBefore(s, prev + 1, ',', end + 1);
    FindNotBefore(s, prev + 1, '*', end + 1);
  }

  /** Once the loop has reached `end` it stops. */
  lemma SplitAtEnd(s: seq<Char>, end: nat)
    requires end < |s|
    ensures SplitFields(s, end, end) == []
  {
  }

  /** The last field: kept when `*` closes the span, lost when CR or LF does. */
  lemma SplitLast(s: seq<Char>, prev: nat, end: nat, f: seq<Char>)
    requires prev < end < |s| && s[prev + 1..end] == f && Plain(f)
    requires s[end] == '*' || s[end] == CR || s[end] == LF
    ensures SplitFields(s, prev, end) == if s[end] == '*' then [f] else []
  {
    FindNotBefore(s, prev + 1, ',', end);
    if s[end] == '*' {
      FindAt(s, prev + 1, '*', end);
      assert NextDelimiter(s, prev + 1, end) == Some(end);
      SplitAtEnd(s, end);
    } else {
      FindNotBefore(s, prev + 1, '*', end);
      assert NextDelimiter(s, prev + 1, end) == None;
    }
  }

  /** Where the first field of a join and the comma after it sit. */
  lemma JoinSlices(s: seq<Char>, prev: nat, end: nat, f: seq<Char>, rest: seq<seq<Char>>)
    requires prev < end <= |s| && rest != [] && s[prev + 1..end] == Join([f] + rest)
    ensures prev + 1 + |f| < end
    ensures s[prev + 1..prev + 1 + |f|] == f && s[prev + 1 + |f|] == ','
    ensures s[prev + 2 + |f|..end] == Join(rest)
  {
    JoinCons(f, rest);
    var span := s[prev + 1..end];
    var head := f + [','];
    assert span == head + Join(rest);
    assert span[|f|] == head[|f|];
    assert span[..|f|] == head[..|f|] == f;
    assert span[|f| + 1..] == Join(rest);
    assert s[prev + 1..prev + 1 + |f|] == span[..|f|];
    assert s[prev + 2 + |f|..end] == span[|f| + 1..];
  }

  /** The loop takes the first field of a join and goes on after its comma. */
  lemma SplitFirst(s: seq<Char>, prev: nat, end: nat, fs: seq<seq<Char>>)
    requires prev < end < |s| && |fs| > 1 && s[prev + 1..end] == Join(fs) && Plain(fs[0])
    ensures prev + 1 + |fs[0]| < end && s[prev + 2 + |fs[0]|..end] == Join(fs[1..])
    ensures SplitFields(s, prev, end) == [fs[0]] + SplitFields(s, prev + 1 + |fs[0]|, end)
    ensures [fs[0]] + fs[1..] == fs && [fs[0]] + fs[1..][..|fs| - 2] == fs[..|fs| - 1]
  {
    assert fs == [fs[0]] + fs[1..];
    JoinSlices(s, prev, end, fs[0], fs[1..]);
    var c := prev + 1 + |fs[0]|;
    FindAt(s, prev + 1, ',', c);
    assert NextDelimiter(s, prev + 1, end) == Some(c);
    SplitStep(s, prev, end, c);
  }

  /** The field loop splits a comma join of plain fields back into the
      fields when a `*` closes the span; when the span is closed by a CR or
      an LF (no checksum) the last field is lost. */
  lemma {:induction false} SplitOfJoin(s: seq<Char>, prev: nat, end: nat, fs: seq<seq<Char>>)
    requires fs != [] && prev < end < |s|
    requires s[prev + 1..end] == Join(fs)
    requires forall k :: 0 <= k < |fs| ==> Plain(fs[k])
    requires s[end] == '*' || s[end] == CR || s[end] == LF
    ensures SplitFields(s, prev, end) == if s[end] == '*' then fs else fs[..|fs| - 1]
    decreases |fs|
  {
    if |fs| == 1 {
      SplitLast(s, prev, end, fs[0]);
    } else {
      SplitFirst(s, prev, end, fs);
      SplitOfJoin(s, prev + 1 + |fs[0]|, end, fs[1..]);
    }
  }

  /** A sentence the serializer and the parser agree on: a full id, no
      delimiter, CR or NUL in any part, and not a vendor (`P`) talker. */
  predicate Renderable(m: Sentence) {
    && |m.talker| == 2 && |m.typeCode| == 3
    && Plain(m.talker) && Plain(m.typeCode) && m.talker[0] != 'P'
    && forall k :: 0 <= k < |m.fields| ==> Plain(m.fields[k])
  }

  /** What the parser makes of a well-formed sentence: Success with the
      sentence, except that strict mode refuses every XXRM type code. */
  function Accepted(m: Sentence, strict: bool, index: nat): (r: Outcome)
    requires |m.typeCode| == 3
  {
    if strict && m.typeCode[..2] == ['R', 'M'] then Outcome(ChecksumExpected, index, None)
    else Outcome(Success, index, Some(m))
  }

  /** The sentence text is `$`, the checksummed body, `*` when there are
      fields, the two hex digits and CR LF. */
  lemma SerializedShape(m: Sentence)
    ensures Serialized(m) == ['$'] + Body(m) + (if m.fields == [] then [] else ['*'])
                             + Hex2(SentenceChecksum(m)) + [CR, LF]
  {
  }

  /** The body of a renderable sentence holds no `*`, CR or NUL. */
  lemma BodyPlain(m: Sentence)
    requires Renderable(m)
    ensures '*' !in Body(m) && CR !in Body(m) && NUL !in Body(m)
  {
    JoinLacks(m.fields, '*');
    JoinLacks(m.fields, CR);
    JoinLacks(m.fields, NUL);
  }

  /** The checksum stage when `*` and two correct hex digits precede the CR. */
  lemma CheckedStar(t: seq<Char>, begin: nat, e: nat, strict: bool, h: Option<Handler>)
    requires begin + 3 <= e < |t| && t[e] == CR
    requires t[e - 3] == '*' && '*' !in t[begin..e - 3] && NUL !in t[begin..e - 3]
    requires t[e - 2..e] == Hex2(Xor(t[begin..e - 3]))
    ensures Checked(t, begin, e, strict, h) == Identified(t, begin, e + 1, e - 3, strict, h)
  {
    var star := e - 3;
    FindAt(t, begin, '*', star);
    XorByte(t[begin..star]);
    CTextOfClean(t[begin..star]);
    assert t[star + 1..] == t[e - 2..e] + t[e..];
    ParseHexOfHex2(Xor(t[begin..star]), t[e..]);
  }

  /** The id stage on a plain, non-vendor id of two and three characters. */
  lemma IdentifiedAt(t: seq<Char>, begin: nat, index: nat, fieldEnd: nat, strict: bool, h: Option<Handler>,
                     talker: seq<Char>, typeCode: seq<Char>)
    requires begin + 5 <= fieldEnd < |t| && 1 <= index <= |t| && t[index - 1] in {CR, LF}
    requires |talker| == 2 && |typeCode| == 3 && Plain(talker) && Plain(typeCode)
    requires t[begin..begin + 6] == talker + typeCode + [','] && talker[0] != 'P'
    ensures Identified(t, begin, index, fieldEnd, strict, h)
         == Accepted(Sentence(talker, typeCode, SplitFields(t, begin + 5, fieldEnd)), strict, index)
  {
    var id := t[begin..begin + 6];
    assert t[begin..begin + 5] == id[..5] == talker + typeCode;
    assert t[begin + 5] == id[5] == ',';
    FindAt(t, begin, ',', begin + 5);
    assert t[begin..begin + 2] == id[..2] == talker;
    assert t[begin + 2..begin + 5] == id[2..5] == typeCode;
    assert typeCode[..2] == [t[begin + 2], t[begin + 3]];
  }

  /** Where the parts of a sentence text sit once it is embedded in a string. */
  lemma Layout(p: seq<Char>, body: seq<Char>, star: seq<Char>, hex: seq<Char>, rest: seq<Char>)
    requires |hex| == 2
    ensures var t := p + (['$'] + body + star + hex + [CR, LF]) + rest;
            var begin := |p| + 1;
            var e := begin + |body| + |star| + 2;
            && e + 1 < |t| && t[..|p|] == p && t[|p|] == '$'
            && t[begin..begin + |body|] == body && t[begin..e] == body + star + hex
            && t[begin..e + 1] == body + star + hex + [CR]
            && t[begin + |body|..e] == star + hex && t[e - 2..e] == hex && t[e] == CR
  {
  }

  /** The stages after the terminator for a sentence with no fields: no `*`,
      so the checksum digits are skipped and no field is collected. */
  lemma CheckedNoFields(t: seq<Char>, begin: nat, e: nat, strict: bool, h: Option<Handler>, m: Sentence)
    requires Renderable(m) && m.fields == []
    requires begin + 8 == e < |t| && t[e] == CR && t[begin..begin + 6] == Body(m)
    requires t[begin + 6..e + 1] == Hex2(SentenceChecksum(m)) + [CR]
    ensures Checked(t, begin, e, strict, h) == Accepted(m, strict, e + 1)
  {
    NoFieldsPlain(t, begin, e, m);
    IdentifiedNoFields(t, begin, e, strict, h, m);
    CheckedNoStar(t, begin, e, strict, h);
  }

  /** The text between `$` and CR of a rendered sentence without fields
      holds no `*` and no NUL. */
  lemma NoFieldsPlain(t: seq<Char>, begin: nat, e: nat, m: Sentence)
    requires Renderable(m) && m.fields == []
    requires begin + 8 == e < |t| && t[begin..begin + 6] == Body(m)
    requires t[begin + 6..e + 1] == Hex2(SentenceChecksum(m)) + [CR]
    ensures '*' !in t[begin..e] && NUL !in t[begin..e]
    ensures ',' !in t[begin + 6..e + 1] && '*' !in t[begin + 6..e + 1] && NUL !in t[begin + 6..e + 1]
  {
    XorByte(Body(m));
    BodyPlain(m);
    var hex := Hex2(SentenceChecksum(m));
    assert IsUpperHexDigit(hex[0]) && IsUpperHexDigit(hex[1]);
    assert t[begin + 6..e + 1] == [hex[0], hex[1], CR];
    assert t[begin + 6..e] == t[begin + 6..e + 1][..2] == [hex[0], hex[1]];
    assert t[begin..e] == t[begin..begin + 6] + t[begin + 6..e];
  }

  /** The id stage of a sentence without fields: the id is accepted and the
      field loop finds nothing before the CR. */
  lemma IdentifiedNoFields(t: seq<Char>, begin: nat, e: nat, strict: bool, h: Option<Handler>, m: Sentence)
    requires Renderable(m) && m.fields == []
    requires begin + 8 == e < |t| && t[e] == CR && t[begin..begin + 6] == Body(m)
    requires ',' !in t[begin + 6..e + 1] && '*' !in t[begin + 6..e + 1] && NUL !in t[begin + 6..e + 1]
    ensures Identified(t, begin, e + 1, e, strict, h) == Accepted(m, strict, e + 1)
  {
    IdentifiedAt(t, begin, e + 1, e, strict, h, m.talker, m.typeCode);
    SplitNone(t, begin + 5, e);
  }

  /** The id stage and the field loop for a sentence with fields whose
      last field is closed by the `*` at `fieldEnd`. */
  lemma IdentifiedFields(t: seq<Char>, begin: nat, index: nat, fieldEnd: nat, strict: bool, h: Option<Handler>, m: Sentence)
    requires Renderable(m) && m.fields != []
    requires begin + 6 <= fieldEnd < |t| && t[fieldEnd] == '*' && 1 <= index <= |t| && t[index - 1] in {CR, LF}
    requires t[begin..begin + 6] == m.talker + m.typeCode + [','] && t[begin + 6..fieldEnd] == Join(m.fields)
    ensures Identified(t, begin, index, fieldEnd, strict, h) == Accepted(m, strict, index)
  {
    IdentifiedAt(t, begin, index, fieldEnd, strict, h, m.talker, m.typeCode);
    SplitOfJoin(t, begin + 5, fieldEnd, m.fields);
  }

  /** The stages after the terminator for a sentence with fields: the `*`
      two places before the CR closes the checked body and the fields. */
  lemma CheckedFields(t: seq<Char>, begin: nat, e: nat, strict: bool, h: Option<Handler>, m: Sentence)
    requires Renderable(m) && m.fields != []
    requires begin + 9 <= e < |t| && t[e] == CR && t[e - 3] == '*'
    requires t[begin..begin + 6] == m.talker + m.typeCode + [','] && t[begin + 6..e - 3] == Join(m.fields)
    requires '*' !in t[begin..e - 3] && NUL !in t[begin..e - 3]
    requires t[e - 2..e] == Hex2(Xor(t[begin..e - 3]))
    ensures Checked(t, begin, e, strict, h) == Accepted(m, strict, e + 1)
  {
    IdentifiedFields(t, begin, e + 1, e - 3, strict, h, m);
    CheckedStar(t, begin, e, strict, h);
  }

  /** Where the parts of a rendered sentence sit between `$` and CR. */
  lemma BodySlices(t: seq<Char>, begin: nat, e: nat, m: Sentence)
    requires |m.talker| == 2 && |m.typeCode| == 3
    requires e == begin + |Body(m)| + (if m.fields == [] then 0 else 1) + 2 && e < |t|
    requires t[begin..e + 1] == Body(m) + (if m.fields == [] then [] else ['*']) + Hex2(SentenceChecksum(m)) + [CR]
    ensures t[e] == CR && t[begin..e] == Body(m) + (if m.fields == [] then [] else ['*']) + Hex2(SentenceChecksum(m))
    ensures m.fields == [] ==> t[begin..begin + 6] == Body(m) && t[begin + 6..e + 1] == Hex2(SentenceChecksum(m)) + [CR]
    ensures m.fields != [] ==>
      && t[e - 3] == '*' && t[begin..e - 3] == Body(m) && t[e - 2..e] == Hex2(SentenceChecksum(m))
      && t[begin..begin + 6] == m.talker + m.typeCode + [','] && t[begin + 6..e - 3] == Join(m.fields)
  {
    var body := Body(m);
    var u := t[begin..e + 1];
    assert t[begin..e] == u[..e - begin];
    if m.fields == [] {
      assert t[begin + 6..e + 1] == u[6..];
      assert t[begin..begin + 6] == u[..6];
    } else {
      assert t[begin..e - 3] == u[..|body|] == body;
      assert body[..6] == m.talker + m.typeCode + [','] && body[6..] == Join(m.fields);
      assert t[begin..begin + 6] == body[..6] && t[begin + 6..e - 3] == body[6..];
      assert t[e - 2..e] == u[e - begin - 2..e - begin];
    }
  }

  /** The stages from the terminator on, for the text after `$` of a
      rendered sentence. */
  lemma FramedSerialized(t: seq<Char>, begin: nat, e: nat, strict: bool, h: Option<Handler>, m: Sentence)
    requires Renderable(m) && (strict ==> e - begin <= MaxLength)
    requires e == begin + |Body(m)| + (if m.fields == [] then 0 else 1) + 2 && e < |t|
    requires t[begin..e + 1] == Body(m) + (if m.fields == [] then [] else ['*']) + Hex2(SentenceChecksum(m)) + [CR]
    ensures Framed(t, begin, strict, h) == Accepted(m, strict, e + 1)
  {
    BodyPlain(m);
    XorByte(Body(m));
    BodySlices(t, begin, e, m);
    FramedAt(t, begin, e, strict, h);
    if m.fields == [] {
      CheckedNoFields(t, begin, e, strict, h, m);
    } else {
      CheckedFields(t, begin, e, strict, h, m);
    }
  }

  /** The parse of a string whose first `$` opens a rendered sentence. */
  lemma ParseSentenceAt(t: seq<Char>, d: nat, e: nat, strict: bool, h: Option<Handler>, m: Sentence)
    requires Renderable(m) && (strict ==> e - (d + 1) <= MaxLength)
    requires e == d + 1 + |Body(m)| + (if m.fields == [] then 0 else 1) + 2 && e < |t|
    requires t[d] == '$' && '$' !in t[..d] && NUL !in t[..d]
    requires t[d + 1..e + 1] == Body(m) + (if m.fields == [] then [] else ['*']) + Hex2(SentenceChecksum(m)) + [CR]
    ensures Parse(t, strict, h) == Accepted(m, strict, e + 1)
  {
    ParseAtDollar(t, d, strict, h);
    FramedSerialized(t, d + 1, e, strict, h, m);
  }

  /** The parse of a rendered sentence written out part by part. */
  lemma ParseOfParts(p: seq<Char>, m: Sentence, rest: seq<Char>, strict: bool, h: Option<Handler>)
    requires '$' !in p && NUL !in p
    requires Renderable(m)
    requires strict ==> |Body(m)| + (if m.fields == [] then 0 else 1) + 2 <= MaxLength
    ensures var star: seq<Char> := if m.fields == [] then [] else ['*'];
            Parse(p + (['$'] + Body(m) + star + Hex2(SentenceChecksum(m)) + [CR, LF]) + rest, strict, h)
            == Accepted(m, strict, |p| + |Body(m)| + |star| + 4)
  {
    var body := Body(m);
    var star: seq<Char> := if m.fields == [] then [] else ['*'];
    var hex := Hex2(SentenceChecksum(m));
    var t := p + (['$'] + body + star + hex + [CR, LF]) + rest;
    Layout(p, body, star, hex, rest);
    ParseSentenceAt(t, |p|, |p| + 1 + |body| + |star| + 2, strict, h, m);
  }

  /** Parsing the text of a renderable sentence, wherever it starts and
      whatever follows it, gives back the sentence with Success; the end
      index is one past its CR. Strict mode also needs the sentence within
      the length limit, and refuses a type code starting with RM even
      though its checksum is present and right. */
  lemma ParseOfSerialized(p: seq<Char>, m: Sentence, rest: seq<Char>, strict: bool, h: Option<Handler>)
    requires '$' !in p && NUL !in p
    requires Renderable(m)
    requires strict ==> |Serialized(m)| - 3 <= MaxLength
    ensures !(strict && m.typeCode[..2] == ['R', 'M']) ==>
      Parse(p + Serialized(m) + rest, strict, h) == Outcome(Success, |p| + |Serialized(m)| - 1, Some(m))
    ensures strict && m.typeCode[..2] == ['R', 'M'] ==>
      Parse(p + Serialized(m) + rest, strict, h) == Outcome(ChecksumExpected, |p| + |Serialized(m)| - 1, None)
  {
    SerializedShape(m);
    ParseOfParts(p, m, rest, strict, h);
  }

  /** Where the parts of a sentence without a checksum sit in a string. */
  lemma BareLayout(p: seq<Char>, m: Sentence, rest: seq<Char>)
    requires |m.talker| == 2 && |m.typeCode| == 3
    ensures var t := p + (['$'] + Body(m) + [CR, LF]) + rest;
            var begin, e := |p| + 1, |p| + 1 + |Body(m)|;
            && e + 1 < |t| && t[..|p|] == p && t[|p|] == '$' && t[e] == CR
            && t[begin..e] == Body(m) && t[begin..begin + 6] == m.talker + m.typeCode + [',']
            && t[begin + 6..e] == Join(m.fields)
  {
    var t := p + (['$'] + Body(m) + [CR, LF]) + rest;
    var begin, e := |p| + 1, |p| + 1 + |Body(m)|;
    assert t[begin..e] == Body(m);
    assert t[begin..begin + 6] == Body(m)[..6];
    assert t[begin + 6..e] == Body(m)[6..];
  }

  /** The id stage and the field loop for fields closed by the terminator
      at `e`: the field loop loses the last field. */
  lemma IdentifiedBare(t: seq<Char>, begin: nat, e: nat, strict: bool, h: Option<Handler>, m: Sentence)
    requires Renderable(m) && m.fields != []
    requires begin + 6 <= e < |t| && t[e] in {CR, LF}
    requires t[begin..begin + 6] == m.talker + m.typeCode + [','] && t[begin + 6..e] == Join(m.fields)
    ensures Identified(t, begin, e + 1, e, strict, h)
         == Accepted(Sentence(m.talker, m.typeCode, m.fields[..|m.fields| - 1]), strict, e + 1)
  {
    IdentifiedAt(t, begin, e + 1, e, strict, h, m.talker, m.typeCode);
    SplitOfJoin(t, begin + 5, e, m.fields);
  }

  /** The stages after the terminator for a sentence without a checksum. */
  lemma CheckedBare(t: seq<Char>, begin: nat, e: nat, strict: bool, h: Option<Handler>, m: Sentence)
    requires Renderable(m) && m.fields != []
    requires begin + 6 <= e < |t| && t[e] in {CR, LF} && '*' !in t[begin..e] && NUL !in t[begin..e]
    requires t[begin..begin + 6] == m.talker + m.typeCode + [','] && t[begin + 6..e] == Join(m.fields)
    ensures Checked(t, begin, e, strict, h)
         == Accepted(Sentence(m.talker, m.typeCode, m.fields[..|m.fields| - 1]), strict, e + 1)
  {
    IdentifiedBare(t, begin, e, strict, h, m);
    CheckedNoStar(t, begin, e, strict, h);
  }

  /** A sentence whose fields are closed by CR LF with no checksum parses,
      but the field loop never reaches the last field: only a delimiter at or
      before the terminator closes one, so the last field is dropped. */
  lemma ParseWithoutChecksum(p: seq<Char>, m: Sentence, rest: seq<Char>, strict: bool, h: Option<Handler>)
    requires '$' !in p && NUL !in p
    requires Renderable(m) && m.fields != []
    requires strict ==> |Body(m)| <= MaxLength
    ensures !(strict && m.typeCode[..2] == ['R', 'M']) ==>
      Parse(p + (['$'] + Body(m) + [CR, LF]) + rest, strict, h)
      == Outcome(Success, |p| + |Body(m)| + 2, Some(Sentence(m.talker, m.typeCode, m.fields[..|m.fields| - 1])))
  {
    var t := p + (['$'] + Body(m) + [CR, LF]) + rest;
    var begin, e := |p| + 1, |p| + 1 + |Body(m)|;
    BareLayout(p, m, rest);
    BodyPlain(m);
    ParseAtDollar(t, |p|, strict, h);
    FramedAt(t, begin, e, strict, h);
    CheckedBare(t, begin, e, strict, h, m);
  }

  /** `t` holds, from its first `$` at `d`, the body of `m` closed at `e`
      by an LF, with no CR in the text after the `$`. */
  predicate BareLfAt(t: seq<Char>, d: nat, e: nat, m: Sentence)
  {
    && d + 7 <= e < |t| && t[d] == '$' && '$' !in t[..d] && NUL !in t[..d]
    && t[e] == LF && CR !in CText(t[d + 1..])
    && t[d + 1..e] == Body(m) && t[d + 1..d + 7] == m.talker + m.typeCode + [',']
    && t[d + 7..e] == Join(m.fields)
  }

  /** Where the parts of a sentence closed by a bare LF sit in a string, and
      that no CR follows its `$`. */
  lemma BareLayoutLf(p: seq<Char>, m: Sentence, rest: seq<Char>) returns (t: seq<Char>)
    requires '$' !in p && NUL !in p
    requires Renderable(m) && LF !in Body(m) && CR !in CText(rest)
    ensures t == p + (['$'] + Body(m) + [LF]) + rest
    ensures BareLfAt(t, |p|, |p| + 1 + |Body(m)|, m)
  {
    t := p + (['$'] + Body(m) + [LF]) + rest;
    BodyPlain(m);
    NoCrAfter(p, Body(m), rest);
    LfSlices(p, m, rest);
  }

  /** The slices of a sentence closed by a bare LF. */
  lemma LfSlices(p: seq<Char>, m: Sentence, rest: seq<Char>)
    requires |m.talker| == 2 && |m.typeCode| == 3
    ensures var t := p + (['$'] + Body(m) + [LF]) + rest;
            var d, e := |p|, |p| + 1 + |Body(m)|;
            && d + 7 <= e < |t| && t[..d] == p && t[d] == '$' && t[e] == LF
            && t[d + 1..e] == Body(m) && t[d + 1..d + 7] == m.talker + m.typeCode + [',']
            && t[d + 7..e] == Join(m.fields)
  {
    var t := p + (['$'] + Body(m) + [LF]) + rest;
    var d, e := |p|, |p| + 1 + |Body(m)|;
    assert t[d + 1..e] == Body(m);
    assert t[d + 1..d + 7] == Body(m)[..6];
    assert t[d + 7..e] == Body(m)[6..];
  }

  /** The same for a sentence closed by a bare LF: the LF ends it only when
      no CR follows anywhere before the string's end, and the last field is
      dropped as well. */
  lemma ParseWithoutChecksumLf(p: seq<Char>, m: Sentence, rest: seq<Char>, strict: bool, h: Option<Handler>)
    requires '$' !in p && NUL !in p
    requires Renderable(m) && m.fields != [] && LF !in Body(m) && CR !in CText(rest)
    requires strict ==> |Body(m)| <= MaxLength
    ensures !(strict && m.typeCode[..2] == ['R', 'M']) ==>
      Parse(p + (['$'] + Body(m) + [LF]) + rest, strict, h)
      == Outcome(Success, |p| + |Body(m)| + 2, Some(Sentence(m.talker, m.typeCode, m.fields[..|m.fields| - 1])))
  {
    var t := BareLayoutLf(p, m, rest);
    BodyPlain(m);
    ParseBareAt(t, |p|, |p| + 1 + |Body(m)|, strict, h, m);
  }

  /** No CR follows the `$` when neither the body nor the text of what comes
      after the LF holds one. */
  lemma NoCrAfter(p: seq<Char>, body: seq<Char>, rest: seq<Char>)
    requires CR !in body && NUL !in body && CR !in CText(rest)
    ensures CR !in CText((p + (['$'] + body + [LF]) + rest)[|p| + 1..])
  {
    assert (p + (['$'] + body + [LF]) + rest)[|p| + 1..] == (body + [LF]) + rest;
    CTextAppend(body + [LF], rest);
  }

  /** The parse of a string whose first `$` opens a sentence without a
      checksum, closed by an LF with no CR after it. */
  lemma ParseBareAt(t: seq<Char>, d: nat, e: nat, strict: bool, h: Option<Handler>, m: Sentence)
    requires Renderable(m) && m.fields != [] && (strict ==> e - (d + 1) <= MaxLength)
    requires BareLfAt(t, d, e, m) && '*' !in Body(m) && LF !in Body(m) && NUL !in Body(m)
    ensures Parse(t, strict, h) == Accepted(Sentence(m.talker, m.typeCode, m.fields[..|m.fields| - 1]), strict, e + 1)
  {
    ParseAtDollar(t, d, strict, h);
    FramedAtLf(t, d + 1, e, strict, h);
    CheckedBare(t, d + 1, e, strict, h, m);
  }

  /** The round trip on the message object: what `nmea_message_to_string`
      renders for a complete message parses back, followed by anything, to
      the message's own contents. */
  lemma RenderedRoundTrip(m: Message, rest: seq<Char>, strict: bool, h: Option<Handler>)
    requires m.Complete() && Renderable(m.Contents())
    requires strict ==> |Rendering(m)| - 3 <= MaxLength && m.typeCode[..2] != ['R', 'M']
    ensures Parse(Rendering(m) + rest, strict, h) == Outcome(Success, |Rendering(m)| - 1, Some(m.Contents()))
  {
    RenderingOfComplete(m);
    assert Rendering(m) + rest == [] + Serialized(m.Contents()) + rest;
    ParseOfSerialized([], m.Contents(), rest, strict, h);
  }
}
