/** `nmea_message_to_string`: renders a message into a freshly allocated
    character buffer, one `nmea_strncpy_s` at a time. */
module Serializer {
  import opened CStrings
  import opened Checksums
  import opened Messages

  /** A text written into a slot of the given width: the text, then the NUL
      `nmea_strncpy_s` puts after it, then whatever the buffer held before
      (NUL here) up to the width. */
  function Pad(text: seq<Char>, width: nat): (r: seq<Char>)
    requires |text| <= width
    ensures |r| == width && r[..|text|] == text
    ensures forall k :: |text| <= k < width ==> r[k] == NUL
  {
    text + Nuls(width - |text|)
  }

  /** Every stored text fits in its declared length. */
  predicate Fits(vs: seq<Value>) {
    forall k :: 0 <= k < |vs| ==> |vs[k].text| <= vs[k].length
  }

  /** One field as the serializer lays it out: its slot, then a delimiter. */
  function Slot(v: Value, delimiter: Char): seq<Char>
    requires |v.text| <= v.length
  {
    Pad(v.text, v.length) + [delimiter]
  }

  /** The fields, each followed by a comma. */
  function Commas(vs: seq<Value>): (r: seq<Char>)
    requires Fits(vs)
    ensures |r| == DeclaredTotal(vs) + |vs|
  {
    if vs == [] then [] else Commas(vs[..|vs| - 1]) + Slot(vs[|vs| - 1], ',')
  }

  /** The fields, a comma after each but the last and `*` after the last; no
      `*` at all when there are no fields. */
  function Slots(vs: seq<Value>): (r: seq<Char>)
    requires Fits(vs)
    ensures |r| == DeclaredTotal(vs) + |vs|
  {
    if vs == [] then [] else Commas(vs[..|vs| - 1]) + Slot(vs[|vs| - 1], '*')
  }

  /** `$`, talker id, type code and the comma after them. */
  function Header(talker: seq<Char>, typeCode: seq<Char>): (r: seq<Char>)
    requires |talker| <= 2 && |typeCode| <= 3
    ensures |r| == 7
  {
    ['$'] + Pad(talker, 2) + Pad(typeCode, 3) + [',']
  }

  /** The characters `nmea_message_to_string` writes for a message, in order
      (without the final NUL). */
  function Rendering(m: Message): (r: seq<Char>)
    reads m
    requires m.Valid()
  {
    Header(m.talkerId, m.typeCode) + Slots(m.values) + Hex2(SentenceChecksum(m.Contents())) + [CR, LF]
  }

  /** The fields of a sentence as they appear in its text: joined by commas
      and closed by `*`, or nothing when there are none. */
  function Emitted(fs: seq<seq<Char>>): (r: seq<Char>) {
    if fs == [] then [] else Join(fs) + ['*']
  }

  /** The sentence text of a decoded sentence, as the serializer renders a
      complete message with these contents. */
  function Serialized(m: Sentence): seq<Char> {
    ['$'] + m.talker + m.typeCode + [','] + Emitted(m.fields) + Hex2(SentenceChecksum(m)) + [CR, LF]
  }

  lemma CommasStep(vs: seq<Value>, i: nat)
    requires Fits(vs) && i < |vs|
    ensures Commas(vs[..i + 1]) == Commas(vs[..i]) + Slot(vs[i], ',')
    ensures i + 1 == |vs| ==> Slots(vs) == Commas(vs[..i]) + Slot(vs[i], '*')
  {
    assert vs[..i + 1][..i] == vs[..i];
    if i + 1 == |vs| {
      assert vs[..i + 1] == vs;
    }
  }

  /** With every text at its declared length, the comma-closed fields are the
      joined texts followed by a comma. */
  lemma {:induction false} CommasOfFull(vs: seq<Value>)
    requires vs != [] && forall k :: 0 <= k < |vs| ==> |vs[k].text| == vs[k].length
    ensures Commas(vs) == Join(Texts(vs)) + [',']
  {
    var n := |vs|;
    var ts := Texts(vs);
    assert Texts(vs[..n - 1]) == ts[..n - 1];
    if n > 1 {
      CommasOfFull(vs[..n - 1]);
    } else {
      assert Commas(vs[..0]) == [];
    }
  }

  /** With every text at its declared length, the laid-out fields are what the
      sentence text holds. */
  lemma SlotsOfFull(vs: seq<Value>)
    requires forall k :: 0 <= k < |vs| ==> |vs[k].text| == vs[k].length
    ensures Slots(vs) == Emitted(Texts(vs))
  {
    if vs != [] {
      var n := |vs|;
      var ts := Texts(vs);
      assert Texts(vs[..n - 1]) == ts[..n - 1];
      if n > 1 {
        CommasOfFull(vs[..n - 1]);
      }
    }
  }

  /** A complete message is rendered as exactly its sentence text. */
  lemma RenderingOfComplete(m: Message)
    requires m.Complete()
    ensures Rendering(m) == Serialized(m.Contents())
  {
    SlotsOfFull(m.values);
  }

  /** `nmea_message_length` reports the rendering's length plus one when there
      are no fields: the `*` it counts is written only after a last field. */
  lemma RenderingLength(m: Message)
    requires m.Valid()
    ensures |Rendering(m)| == ReportedLength(m.values) - (if m.values == [] then 1 else 0)
  {
  }

  /** `nmea_checksum_to_string(number, buf + at)`: the two hex digits, no NUL. */
  method ChecksumToString(number: int, buf: array<Char>, at: nat)
    requires at + 2 <= buf.Length
    modifies buf
    ensures buf[..] == old(buf[..at]) + Hex2(number) + old(buf[at + 2..])
  {
    buf[at] := DigitChar(number / 16);
    buf[at + 1] := DigitChar(number % 16);
  }

  /** `nmea_strncpy_s` of a NUL-free text into a slot of width n at the end of
      what has been written so far, on a buffer that is NUL from there on. */
  method Put(buf: array<Char>, at: nat, ghost w: seq<Char>, src: seq<Char>, n: nat)
    requires at == |w| <= buf.Length && buf[..] == w + Nuls(buf.Length - |w|)
    requires NUL !in src && |src| <= n && |w| + n <= buf.Length && |w| + |src| < buf.Length
    modifies buf
    ensures buf[..] == (w + Pad(src, n)) + Nuls(buf.Length - |w| - n)
  {
    CopyNWhole(src, n);
    CopyInto(buf, at, src, n);
    assert buf[..] == w + src + [NUL] + Nuls(buf.Length - |w| - |src| - 1);
  }

  /** One turn of the field loop: the value's text in its slot, then the
      comma, or `*` after the last field. */
  method PutField(buf: array<Char>, at: nat, ghost w: seq<Char>, v: Value, last: bool)
    requires at == |w| && |w| + v.length + 1 < buf.Length && buf[..] == w + Nuls(buf.Length - |w|)
    requires NUL !in v.text && |v.text| <= v.length
    modifies buf
    ensures buf[..] == (w + Slot(v, if last then '*' else ',')) + Nuls(buf.Length - |w| - v.length - 1)
  {
    Put(buf, at, w, v.text, v.length);
    ghost var w' := w + Pad(v.text, v.length);
    var delimiter: Char := if last then '*' else ',';
    Put(buf, at + v.length, w', [delimiter], 1);
    PadFull([delimiter]);
    assert w' + Pad([delimiter], 1) == w + Slot(v, delimiter);
  }

  /** A text that fills its slot is written as itself. */
  lemma PadFull(t: seq<Char>)
    ensures Pad(t, |t|) == t
  {
    assert Nuls(0) == [];
  }

  /** The start of `nmea_message_to_string`: `$`, talker id, type code and a
      comma, each copied with `nmea_strncpy_s`, into a buffer of NULs. */
  method PutHeader(buf: array<Char>, talker: seq<Char>, typeCode: seq<Char>)
    requires |talker| <= 2 && NUL !in talker && |typeCode| <= 3 && NUL !in typeCode
    requires 8 <= buf.Length && buf[..] == Nuls(buf.Length)
    modifies buf
    ensures buf[..] == Header(talker, typeCode) + Nuls(buf.Length - 7)
  {
    ghost var w: seq<Char> := [];
    assert buf[..] == w + Nuls(buf.Length);
    Put(buf, 0, w, ['$'], 1);
    w := w + Pad(['$'], 1);
    Put(buf, 1, w, talker, 2);
    w := w + Pad(talker, 2);
    Put(buf, 3, w, typeCode, 3);
    w := w + Pad(typeCode, 3);
    Put(buf, 6, w, [','], 1);
    PadFull(['$']);
    PadFull([',']);
  }

  /** The end of `nmea_message_to_string`: two hex digits of the checksum,
      then CR LF and a NUL. */
  method PutTrailer(buf: array<Char>, at: nat, ghost w: seq<Char>, checksum: int)
    requires at == |w| && at + 4 < buf.Length && buf[..] == w + Nuls(buf.Length - |w|)
    modifies buf
    ensures buf[..] == w + Hex2(checksum) + [CR, LF] + Nuls(buf.Length - |w| - 4)
  {
    ghost var before := buf[..];
    ChecksumToString(checksum, buf, at);
    assert before[..at] == w && before[at + 2..] == Nuls(buf.Length - |w| - 2);
    Put(buf, at + 2, w + Hex2(checksum), [CR, LF], 2);
    PadFull([CR, LF]);
  }

  /** One turn of the field loop appends the next slot to what is written. */
  lemma SlotStep(header: seq<Char>, vs: seq<Value>, i: nat)
    requires Fits(vs) && i < |vs|
    ensures header + (if i + 1 == |vs| then Slots(vs) else Commas(vs[..i + 1]))
         == (header + Commas(vs[..i])) + Slot(vs[i], if i + 1 == |vs| then '*' else ',')
  {
    CommasStep(vs, i);
    var c, slot := Commas(vs[..i]), Slot(vs[i], if i + 1 == |vs| then '*' else ',');
    assert (header + c) + slot == header + (c + slot);
  }

  /** The next slot fits in the room the length leaves. */
  lemma SlotRoom(vs: seq<Value>, i: nat)
    requires Fits(vs) && i < |vs|
    ensures |Commas(vs[..i])| + vs[i].length + 1 <= DeclaredTotal(vs) + |vs|
  {
    DeclaredPrefix(vs, i + 1);
    assert vs[..i + 1][..i] == vs[..i];
  }

  /** The field loop of `nmea_message_to_string`, starting right after the
      header; returns the position after the last delimiter. */
  method PutFields(buf: array<Char>, ghost header: seq<Char>, vs: seq<Value>) returns (at: nat)
    requires 7 + DeclaredTotal(vs) + |vs| + 4 < buf.Length
    requires |header| == 7 && buf[..] == header + Nuls(buf.Length - 7)
    requires forall k :: 0 <= k < |vs| ==> NUL !in vs[k].text && |vs[k].text| <= vs[k].length
    modifies buf
    ensures at == 7 + DeclaredTotal(vs) + |vs| && at + 4 < buf.Length
    ensures buf[..] == header + Slots(vs) + Nuls(buf.Length - at)
  {
    ghost var w := header;
    at := 7;
    var i := 0;
    assert vs[..0] == [];
    while i < |vs|
      invariant i <= |vs| && at == |w|
      invariant w == header + if i == |vs| then Slots(vs) else Commas(vs[..i])
      invariant |w| <= buf.Length && buf[..] == w + Nuls(buf.Length - |w|)
    {
      var v := vs[i];
      SlotRoom(vs, i);
      SlotStep(header, vs, i);
      PutField(buf, at, w, v, i + 1 == |vs|);
      w := w + Slot(v, if i + 1 == |vs| then '*' else ',');
      at := at + v.length + 1;
      i := i + 1;
    }
  }

  /** `nmea_message_to_string`: the buffer holds the message's rendering
      followed by NULs, and is one longer than `nmea_message_length`. */
  method MessageToString(m: Message) returns (buf: array<Char>)
    requires m.Valid()
    ensures fresh(buf) && buf.Length == ReportedLength(m.values) + 1
    ensures buf[..] == Rendering(m) + (if m.values == [] then [NUL, NUL] else [NUL])
  {
    var len := m.Length();
    buf := new Char[len + 1](_ => NUL);
    buf[len] := NUL;
    assert buf[..] == Nuls(buf.Length);
    PutHeader(buf, m.talkerId, m.typeCode);
    ghost var header := Header(m.talkerId, m.typeCode);
    var at := PutFields(buf, header, m.values);
    var checksum := m.Checksum();
    PutTrailer(buf, at, header + Slots(m.values), checksum);
    RenderingLength(m);
    assert Nuls(1) == [NUL] && Nuls(2) == [NUL, NUL];
  }
}
