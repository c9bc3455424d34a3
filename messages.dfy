/** The in-memory message: a talker id, a type code and an append-only list
    of field values, each kept with the length its caller declared. */
module Messages {
  import opened CStrings
  import opened Checksums

  /** One node of the field list (`nmea_value`): the text that was copied and
      the length the caller passed in (`value_length`). The two differ only when
      the caller's text held a NUL within that length. */
  datatype Value = Value(text: seq<Char>, length: nat)

  /** A decoded sentence as a value: talker id, type code, fields in order. */
  datatype Sentence = Sentence(talker: seq<Char>, typeCode: seq<Char>, fields: seq<seq<Char>>)

  /** The fields separated by commas, with no comma after the last one. */
  function Join(fs: seq<seq<Char>>): (r: seq<Char>) {
    if |fs| == 0 then []
    else if |fs| == 1 then fs[0]
    else Join(fs[..|fs| - 1]) + [','] + fs[|fs| - 1]
  }

  /** Joining splits at the first comma as well as at the last. */
  lemma {:induction false} JoinCons(f: seq<Char>, rest: seq<seq<Char>>)
    requires rest != []
    ensures Join([f] + rest) == f + [','] + Join(rest)
  {
    var fs := [f] + rest;
    if |rest| > 1 {
      assert fs[..|fs| - 1] == [f] + rest[..|rest| - 1];
      JoinCons(f, rest[..|rest| - 1]);
    } else {
      assert fs[..|fs| - 1] == [f];
    }
  }

  /** Joining one more field appends a comma and that field. */
  lemma JoinStep(fs: seq<seq<Char>>, i: nat)
    requires i < |fs|
    ensures Join(fs[..i + 1]) == if i == 0 then fs[0] else Join(fs[..i]) + [','] + fs[i]
  {
    assert fs[..i + 1][..i] == fs[..i];
  }

  /** A character in none of the fields that is not a comma is not in their join. */
  lemma {:induction false} JoinLacks(fs: seq<seq<Char>>, c: Char)
    requires c != ','
    requires forall k :: 0 <= k < |fs| ==> c !in fs[k]
    ensures c !in Join(fs)
  {
    if |fs| > 1 {
      JoinLacks(fs[..|fs| - 1], c);
    }
  }

  /** The text a sentence's checksum covers: everything between `$` and `*`. */
  function Body(m: Sentence): seq<Char> {
    m.talker + m.typeCode + [','] + Join(m.fields)
  }

  function SentenceChecksum(m: Sentence): nat {
    Xor(Body(m))
  }

  /** The checksum `nmea_message_checksum` has after talker, type and the first comma. */
  lemma HeadChecksum(talker: seq<Char>, typeCode: seq<Char>)
    ensures AddC(BitXor(BitXor(0, Xor(talker)), Xor(typeCode)), ',') == Xor(talker + typeCode + [','])
  {
    BitXorZero(Xor(talker));
    XorAppend(talker, typeCode);
    var head := talker + typeCode + [','];
    assert head[..|head| - 1] == talker + typeCode;
  }

  /** One turn of the field loop in `nmea_message_checksum`: folding the next
      field into the checksum of the fields so far (and the comma after them)
      gives the checksum of one more field. */
  lemma ChecksumStep(head: seq<Char>, ts: seq<seq<Char>>, i: nat)
    requires i < |ts|
    ensures BitXor(if i > 0 then AddC(Xor(head + Join(ts[..i])), ',') else Xor(head + Join(ts[..i])), Xor(ts[i]))
         == Xor(head + Join(ts[..i + 1]))
  {
    JoinStep(ts, i);
    if i == 0 {
      assert head + Join(ts[..0]) == head;
      XorAppend(head, ts[0]);
    } else {
      var hj := head + Join(ts[..i]);
      assert head + Join(ts[..i + 1]) == (hj + [',']) + ts[i];
      assert (hj + [','])[..|hj + [',']| - 1] == hj;
      XorAppend(hj + [','], ts[i]);
    }
  }

  function Texts(vs: seq<Value>): seq<seq<Char>> {
    seq(|vs|, k requires 0 <= k < |vs| => vs[k].text)
  }

  /** The sum of the declared field lengths. */
  function DeclaredTotal(vs: seq<Value>): nat {
    if vs == [] then 0 else DeclaredTotal(vs[..|vs| - 1]) + vs[|vs| - 1].length
  }

  /** A prefix declares no more than the whole list. */
  lemma {:induction false} DeclaredPrefix(vs: seq<Value>, i: nat)
    requires i <= |vs|
    ensures DeclaredTotal(vs[..i]) <= DeclaredTotal(vs)
    ensures i > 0 ==> DeclaredTotal(vs[..i]) == DeclaredTotal(vs[..i - 1]) + vs[i - 1].length
  {
    if i > 0 {
      assert vs[..i][..i - 1] == vs[..i - 1];
    }
    if i < |vs| {
      DeclaredPrefix(vs[..|vs| - 1], i);
      assert vs[..|vs| - 1][..i] == vs[..i];
    }
  }

  /** The length `nmea_message_length` computes: `$`, talker, type and `,`
      (7), the fields with a comma between each two, then `*`, two hex digits
      and CR LF (5). */
  function ReportedLength(vs: seq<Value>): nat {
    7 + DeclaredTotal(vs) + (if vs == [] then 0 else |vs| - 1) + 5
  }

  /** `nmea_message`. */
  class Message {
    var talkerId: seq<Char>
    var typeCode: seq<Char>
    var values: seq<Value>
    var valueCount: nat

    /** The representation invariant: the count matches the list, the id parts
        fit their 3- and 4-byte buffers, and every stored text is a C string no
        longer than its declared length. */
    ghost predicate Valid()
      reads this
    {
      && valueCount == |values|
      && |talkerId| <= 2 && NUL !in talkerId
      && |typeCode| <= 3 && NUL !in typeCode
      && forall k :: 0 <= k < |values| ==> NUL !in values[k].text && |values[k].text| <= values[k].length
    }

    /** A message the serializer can render: a full 5-character id and every
        field stored at its declared length. */
    ghost predicate Complete()
      reads this
    {
      && Valid()
      && |talkerId| == 2 && |typeCode| == 3
      && forall k :: 0 <= k < |values| ==> |values[k].text| == values[k].length
    }

    function Contents(): Sentence
      reads this
    {
      Sentence(talkerId, typeCode, Texts(values))
    }

    /** `nmea_init_message`: empty id (all NUL) and no fields. */
    constructor ()
      ensures Valid()
      ensures talkerId == [] && typeCode == [] && values == [] && valueCount == 0
    {
      talkerId := [];
      typeCode := [];
      values := [];
      valueCount := 0;
    }

    /** `nmea_add_value`: appends the first `length` characters of `str`
        (fewer if a NUL comes first) as the last field, recording `length` as
        its declared length. */
    method AddValue(str: seq<Char>, length: nat)
      requires Valid()
      modifies this
      ensures Valid()
      ensures values == old(values) + [Value(CopyN(str, length), length)]
      ensures valueCount == old(valueCount) + 1
      ensures talkerId == old(talkerId) && typeCode == old(typeCode)
      ensures Contents().fields == old(Contents().fields) + [CopyN(str, length)]
      ensures old(Complete()) && length <= |str| && NUL !in str[..length] ==> Complete()
    {
      values := values + [Value(CopyN(str, length), length)];
      valueCount := valueCount + 1;
    }

    /** `nmea_message_length`. */
    method Length() returns (len: nat)
      ensures len == ReportedLength(values)
    {
      len := 7;
      var i := 0;
      while i < |values|
        invariant i <= |values|
        invariant len == 7 + DeclaredTotal(values[..i]) + (if i == |values| && i > 0 then i - 1 else i)
      {
        assert values[..i + 1][..i] == values[..i];
        len := len + values[i].length;
        if i + 1 < |values| {
          len := len + 1;
        }
        i := i + 1;
      }
      assert values[..i] == values;
      len := len + 5;
    }

    /** `nmea_message_checksum`: the checksum of talker, type, a comma and the
        comma-separated fields. */
    method Checksum() returns (r: nat)
      requires Valid()
      ensures r == SentenceChecksum(Contents())
    {
      r := AddStr(0, talkerId);
      r := AddStr(r, typeCode);
      r := AddC(r, ',');
      ghost var head: seq<Char> := talkerId + typeCode + [','];
      CTextOfClean(talkerId);
      CTextOfClean(typeCode);
      HeadChecksum(talkerId, typeCode);
      ghost var ts := Texts(values);
      assert head + Join(ts[..0]) == head;
      var i := 0;
      while i < |values|
        invariant i <= |values|
        invariant r == if 0 < i < |values| then AddC(Xor(head + Join(ts[..i])), ',') else Xor(head + Join(ts[..i]))
      {
        CTextOfClean(values[i].text);
        ChecksumStep(head, ts, i);
        r := AddStr(r, values[i].text);
        if i + 1 < |values| {
          r := AddC(r, ',');
        }
        i := i + 1;
      }
      assert ts[..i] == ts;
    }
  }
}
