/** `nmea_parse_message`: finds the first sentence in a C string, checks its
    delimiters, length and checksum, and splits it into a message. */
module Parser {
  import opened CStrings
  import opened Checksums
  import opened Messages

  /** `NMEA_MESSAGE_MAX_LENGTH`: the longest sentence NMEA 0183 allows. */
  const MaxLength := 82

  /** The status codes of `nmea_parser.h` that the parser returns. */
  const Success := 0
  const ChecksumError := -2
  const UnsupportedMessage := -3
  const BeginDelimiterNotFound := -4
  const EndDelimiterNotFound := -5
  const LongerThanMaxLength := -7
  const IncorrectChecksumLength := -8
  const ChecksumExpected := -9
  const ImplementationError := -10
  const IdLengthIncorrect := -11
  const UnhandledVendorExtMessage := -12

  /** A vendor extension handler: given the text after `$`, the end index
      found so far and the strict flag, it returns a status and the end index
      it leaves behind. */
  type Handler = (seq<Char>, nat, bool) -> (int, nat)

  /** What a parse returns: the status, `*message_end_index`, and the message
      it leaves in `*message` (None for a NULL message). */
  datatype Outcome = Outcome(status: int, endIndex: nat, message: Option<Sentence>)

  /** The loop condition of the field loop: the first comma after `from` if it
      lies at or before `end`, else the first `*` after `from` if that does. */
  function NextDelimiter(s: seq<Char>, from: nat, end: nat): (r: Option<nat>)
    requires from <= |s|
    ensures r.Some? ==> from <= r.value <= end && r.value < |s| && NUL !in s[from..r.value]
    ensures r.Some? ==> s[r.value] == ',' || s[r.value] == '*'
  {
    var comma := Find(s, from, ',');
    if comma.Some? && comma.value <= end then comma
    else
      var star := Find(s, from, '*');
      if star.Some? && star.value <= end then star else None
  }

  /** The loop condition picks the first comma in range, and only when there
      is none the first `*` in range; it fails only when neither lies in range
      before a NUL. */
  lemma NextDelimiterFirst(s: seq<Char>, from: nat, end: nat)
    requires from <= |s|
    ensures var r := NextDelimiter(s, from, end);
            r.Some? && s[r.value] == ',' ==> ',' !in s[from..r.value]
    ensures var r := NextDelimiter(s, from, end);
            r.Some? && s[r.value] == '*' ==>
              && '*' !in s[from..r.value]
              && forall k :: from <= k <= end && k < |s| && NUL !in s[from..k] ==> s[k] != ','
    ensures NextDelimiter(s, from, end).None? ==>
              forall k :: from <= k <= end && k < |s| && NUL !in s[from..k] ==> s[k] != ',' && s[k] != '*'
  {
    var comma := Find(s, from, ',');
    if !(comma.Some? && comma.value <= end) {
      FindAbsent(s, from, ',', end);
      var star := Find(s, from, '*');
      if !(star.Some? && star.value <= end) {
        FindAbsent(s, from, '*', end);
      }
    }
  }

  /** The fields the loop collects: the text after `prev` up to each
      delimiter that lies at or before `end`. */
  function SplitFields(s: seq<Char>, prev: nat, end: nat): (r: seq<seq<Char>>)
    requires prev < |s|
    decreases end - prev
  {
    match NextDelimiter(s, prev + 1, end)
    case None => []
    case Some(d) => [s[prev + 1..d]] + SplitFields(s, d, end)
  }

  /** What every parse outcome satisfies: a kept message has a two-character
      talker and a three-character type code; one that is not a vendor
      message came with Success and an end index just past a CR or LF; strict
      mode keeps no XXRM message; without a message the status is one of the
      parser's errors, and the end index is 0 exactly for the errors found
      before the terminator, else just past it. */
  ghost predicate Described(s: seq<Char>, strict: bool, r: Outcome) {
    && (r.message.Some? ==> |r.message.value.talker| == 2 && |r.message.value.typeCode| == 3)
    && (r.message.Some? && r.message.value.talker[0] != 'P' ==>
         r.status == Success && 1 <= r.endIndex <= |s| && s[r.endIndex - 1] in {CR, LF})
    && (strict && r.message.Some? ==> r.message.value.typeCode[..2] != ['R', 'M'])
    && (r.message.None? ==> r.status in {BeginDelimiterNotFound, UnsupportedMessage, EndDelimiterNotFound,
         LongerThanMaxLength, ChecksumError, IncorrectChecksumLength, ImplementationError, IdLengthIncorrect,
         ChecksumExpected})
    && (r.message.None? ==>
         (r.endIndex == 0 <==> r.status in {BeginDelimiterNotFound, UnsupportedMessage, EndDelimiterNotFound, LongerThanMaxLength}))
    && (r.message.None? && r.endIndex != 0 ==> r.endIndex <= |s| && s[r.endIndex - 1] in {CR, LF})
  }

  lemma SplitStep(s: seq<Char>, prev: nat, end: nat, d: nat)
    requires prev < |s| && NextDelimiter(s, prev + 1, end) == Some(d)
    ensures SplitFields(s, prev, end) == [s[prev + 1..d]] + SplitFields(s, d, end)
  {
  }

  /** `nmea_parse_message(str, ...)`, in the order of its checks: the first
      `$` (or `!`), then the rest in the stages below. */
  function Parse(s: seq<Char>, strict: bool, handler: Option<Handler>): (r: Outcome)
  {
    match Find(s, 0, '$')
    case None =>
      Outcome(if Find(s, 0, '!').Some? then UnsupportedMessage else BeginDelimiterNotFound, 0, None)
    case Some(dollar) => Framed(s, dollar + 1, strict, handler)
  }

  /** The terminator: the first CR after `$` anywhere in the string, else the
      first LF; then the strict length limit. Until here the end index stays 0. */
  function Framed(s: seq<Char>, begin: nat, strict: bool, handler: Option<Handler>): (r: Outcome)
    requires begin <= |s|
  {
    var terminator := if Find(s, begin, CR).Some? then Find(s, begin, CR) else Find(s, begin, LF);
    if terminator.None? then Outcome(EndDelimiterNotFound, 0, None)
    else if strict && terminator.value - begin > MaxLength then Outcome(LongerThanMaxLength, 0, None)
    else Checked(s, begin, terminator.value, strict, handler)
  }

  /** The optional checksum: a `*` before the terminator must be followed by
      (in strict mode exactly two) hex digits that match the XOR of the text
      between `$` and `*`; the fields then end at the `*`. */
  function Checked(s: seq<Char>, begin: nat, end: nat, strict: bool, handler: Option<Handler>): (r: Outcome)
    requires begin <= end < |s| && s[end] in {CR, LF}
  {
    var index := end + 1;
    var star := Find(s, begin, '*');
    var checked := star.Some? && star.value < end;
    if checked && strict && end - star.value - 1 != 2 then Outcome(IncorrectChecksumLength, index, None)
    else if checked && ParseHex(s[star.value + 1..]) != Xor(CText(s[begin..star.value])) then
      Outcome(ChecksumError, index, None)
    else Identified(s, begin, index, if checked then star.value else end, strict, handler)
  }

  /** The first comma must close a five-character id; strict XXRM sentences
      are refused; a `P` talker goes to the vendor handler; otherwise the
      fields up to `fieldEnd` are collected. */
  function Identified(s: seq<Char>, begin: nat, index: nat, fieldEnd: nat, strict: bool, handler: Option<Handler>): (r: Outcome)
    requires begin <= fieldEnd < |s|
    requires 1 <= index <= |s| && s[index - 1] in {CR, LF}
  {
    match Find(s, begin, ',')
    case None => Outcome(ImplementationError, index, None)
    case Some(comma) =>
      if comma - begin != 5 then Outcome(IdLengthIncorrect, index, None)
      // the checksum pointer is always NULL by now, so every strict XXRM sentence fails
      else if strict && s[begin + 2] == 'R' && s[begin + 3] == 'M' then Outcome(ChecksumExpected, index, None)
      else
        // the copies stop at neither a NUL nor the limit early: s[begin..comma] is NUL-free
        var talker, typeCode := s[begin..begin + 2], s[begin + 2..begin + 5];
        if talker[0] == 'P' then
          var kept := Some(Sentence(talker, typeCode, []));
          match handler
          case None => Outcome(UnhandledVendorExtMessage, index, kept)
          case Some(h) =>
            var result := h(s[begin..], index, strict);
            Outcome(result.0, result.1, kept)
        else
          Outcome(Success, index, Some(Sentence(talker, typeCode, SplitFields(s, comma, fieldEnd))))
  }

  /** The stage after the checksum keeps its outcomes described. */
  lemma IdentifiedDescribed(s: seq<Char>, begin: nat, index: nat, fieldEnd: nat, strict: bool, handler: Option<Handler>)
    requires begin <= fieldEnd < |s|
    requires 1 <= index <= |s| && s[index - 1] in {CR, LF}
    ensures Described(s, strict, Identified(s, begin, index, fieldEnd, strict, handler))
  {
    var comma := Find(s, begin, ',');
    if comma.Some? && comma.value - begin == 5 {
      assert s[begin + 2..begin + 5][..2] == [s[begin + 2], s[begin + 3]];
    }
  }

  lemma CheckedDescribed(s: seq<Char>, begin: nat, end: nat, strict: bool, handler: Option<Handler>)
    requires begin <= end < |s| && s[end] in {CR, LF}
    ensures Described(s, strict, Checked(s, begin, end, strict, handler))
  {
    var star := Find(s, begin, '*');
    var fieldEnd := if star.Some? && star.value < end then star.value else end;
    IdentifiedDescribed(s, begin, end + 1, fieldEnd, strict, handler);
    CheckedFailsOrPasses(s, begin, end, strict, handler);
  }

  /** The checksum check either fails, its end index just past the
      terminator, or hands the sentence on to the id check with the fields
      ending at the `*` (or at the terminator when there is none). */
  lemma CheckedFailsOrPasses(s: seq<Char>, begin: nat, end: nat, strict: bool, handler: Option<Handler>)
    requires begin <= end < |s| && s[end] in {CR, LF}
    ensures var star := Find(s, begin, '*');
            var r := Checked(s, begin, end, strict, handler);
            || (r.message.None? && r.endIndex == end + 1 && (r.status == ChecksumError || r.status == IncorrectChecksumLength))
            || r == Identified(s, begin, end + 1, if star.Some? && star.value < end then star.value else end, strict, handler)
  {
  }

  lemma FramedDescribed(s: seq<Char>, begin: nat, strict: bool, handler: Option<Handler>)
    requires begin <= |s|
    ensures Described(s, strict, Framed(s, begin, strict, handler))
  {
    var terminator := if Find(s, begin, CR).Some? then Find(s, begin, CR) else Find(s, begin, LF);
    if terminator.Some? {
      CheckedDescribed(s, begin, terminator.value, strict, handler);
    }
  }

  /** Every parse outcome is described: a message is kept only with a full
      id, as Success unless it is a vendor message, and never a strict XXRM
      one; the errors before the terminator leave the end index 0 and the
      others leave it just past the terminator. */
  lemma ParseDescribed(s: seq<Char>, strict: bool, handler: Option<Handler>)
    ensures Described(s, strict, Parse(s, strict, handler))
  {
    var dollar := Find(s, 0, '$');
    if dollar.Some? {
      FramedDescribed(s, dollar.value + 1, strict, handler);
    }
  }

  /** `nmea_parse_message`: the same checks in the same order, building the
      message with `nmea_init_message` and `nmea_add_value`. */
  method ParseMessage(s: seq<Char>, strict: bool, handler: Option<Handler>)
    returns (status: int, message: Message?, endIndex: nat)
    ensures message != null ==> fresh(message) && message.Complete()
    ensures Parse(s, strict, handler) == Outcome(status, endIndex, if message == null then None else Some(message.Contents()))
  {
    message := null;
    endIndex := 0;
    var dollar := Find(s, 0, '$');
    if dollar.None? {
      if Find(s, 0, '!').Some? {
        return UnsupportedMessage, null, 0;
      }
      return BeginDelimiterNotFound, null, 0;
    }
    var begin := dollar.value + 1;
    var terminator := Find(s, begin, CR);
    if terminator.None? {
      terminator := Find(s, begin, LF);
      if terminator.None? {
        return EndDelimiterNotFound, null, 0;
      }
    }
    var end := terminator.value;
    if strict && end - begin > MaxLength {
      return LongerThanMaxLength, null, 0;
    }
    status, message, endIndex := CheckSentence(s, begin, end, strict, handler);
  }

  /** The checksum part of `nmea_parse_message`, from the point where the end
      index is set. */
  method CheckSentence(s: seq<Char>, begin: nat, end: nat, strict: bool, handler: Option<Handler>)
    returns (status: int, message: Message?, endIndex: nat)
    requires begin <= end < |s| && s[end] in {CR, LF}
    ensures message != null ==> fresh(message) && message.Complete()
    ensures Checked(s, begin, end, strict, handler)
         == Outcome(status, endIndex, if message == null then None else Some(message.Contents()))
  {
    endIndex := end + 1;
    var fieldEnd := end;
    var star := Find(s, begin, '*');
    if star.Some? && star.value < end {
      if strict && end - star.value - 1 != 2 {
        return IncorrectChecksumLength, null, endIndex;
      }
      var computed := StringChecksum(s, begin, star.value);
      if ParseHex(s[star.value + 1..]) != computed {
        return ChecksumError, null, endIndex;
      }
      fieldEnd := star.value;
    }
    assert Checked(s, begin, end, strict, handler) == Identified(s, begin, endIndex, fieldEnd, strict, handler);
    status, message, endIndex := BuildMessage(s, begin, endIndex, fieldEnd, strict, handler);
  }

  /** `nmea_init_message` and the two `nmea_strncpy_s` calls that copy the
      talker id and the type code out of a NUL-free id. */
  method NewMessage(s: seq<Char>, begin: nat) returns (message: Message)
    requires begin + 5 <= |s| && NUL !in s[begin..begin + 5]
    ensures fresh(message) && message.Complete() && message.values == []
    ensures message.Contents() == Sentence(s[begin..begin + 2], s[begin + 2..begin + 5], [])
  {
    message := new Message();
    assert s[begin..][..2] == s[begin..begin + 2] && s[begin + 2..][..3] == s[begin + 2..begin + 5];
    CopyNOfClean(s[begin..], 2);
    CopyNOfClean(s[begin + 2..], 3);
    message.talkerId := CopyN(s[begin..], 2);
    message.typeCode := CopyN(s[begin + 2..], 3);
  }

  /** The rest of `nmea_parse_message` once the checksum is settled: the id
      checks, the message's id, the vendor branch and the field loop. */
  method BuildMessage(s: seq<Char>, begin: nat, index: nat, fieldEnd: nat, strict: bool, handler: Option<Handler>)
    returns (status: int, message: Message?, endIndex: nat)
    requires begin <= fieldEnd < |s|
    requires 1 <= index <= |s| && s[index - 1] in {CR, LF}
    ensures message != null ==> fresh(message) && message.Complete()
    ensures Identified(s, begin, index, fieldEnd, strict, handler)
         == Outcome(status, endIndex, if message == null then None else Some(message.Contents()))
  {
    endIndex := index;
    var first := Find(s, begin, ',');
    if first.None? {
      return ImplementationError, null, endIndex;
    }
    var comma := first.value;
    if comma - begin != 5 {
      return IdLengthIncorrect, null, endIndex;
    }
    if strict && s[begin + 2] == 'R' && s[begin + 3] == 'M' {
      return ChecksumExpected, null, endIndex;
    }
    message := NewMessage(s, begin);
    if message.talkerId[0] == 'P' {
      if handler.Some? {
        var result := handler.value(s[begin..], endIndex, strict);
        return result.0, message, result.1;
      }
      return UnhandledVendorExtMessage, message, endIndex;
    }
    CollectFields(message, s, comma, fieldEnd);
    status := Success;
  }

  /** The copy of a field between two delimiters is the field itself. */
  lemma FieldCopy(s: seq<Char>, previous: nat, d: nat)
    requires previous < d <= |s| && NUL !in s[previous + 1..d]
    ensures d - previous - 1 <= |s[previous + 1..]| && CopyN(s[previous + 1..], d - previous - 1) == s[previous + 1..d]
  {
    assert s[previous + 1..][..d - previous - 1] == s[previous + 1..d];
    CopyNOfClean(s[previous + 1..], d - previous - 1);
  }

  /** One turn of the field loop keeps the collected fields a prefix of all of them. */
  lemma FieldsStep(s: seq<Char>, comma: nat, previous: nat, fieldEnd: nat, d: nat, before: seq<seq<Char>>)
    requires comma < |s| && previous < |s| && NextDelimiter(s, previous + 1, fieldEnd) == Some(d)
    requires before + SplitFields(s, previous, fieldEnd) == SplitFields(s, comma, fieldEnd)
    ensures (before + [s[previous + 1..d]]) + SplitFields(s, d, fieldEnd) == SplitFields(s, comma, fieldEnd)
  {
    var field := s[previous + 1..d];
    SplitStep(s, previous, fieldEnd, d);
    assert (before + [field]) + SplitFields(s, d, fieldEnd) == before + ([field] + SplitFields(s, d, fieldEnd));
  }

  /** The field loop of `nmea_parse_message`: one `nmea_add_value` per
      delimiter found at or before `fieldEnd`. */
  method CollectFields(message: Message, s: seq<Char>, comma: nat, fieldEnd: nat)
    requires comma < |s| && message.Complete() && message.values == []
    modifies message
    ensures message.Complete()
    ensures message.talkerId == old(message.talkerId) && message.typeCode == old(message.typeCode)
    ensures message.Contents().fields == SplitFields(s, comma, fieldEnd)
  {
    var previous := comma;
    var next := NextDelimiter(s, previous + 1, fieldEnd);
    ghost var done: seq<seq<Char>> := [];
    assert message.Contents().fields == [];
    while next.Some?
      invariant comma <= previous < |s| && next == NextDelimiter(s, previous + 1, fieldEnd)
      invariant message.Complete() && message.Contents().fields == done
      invariant message.talkerId == old(message.talkerId) && message.typeCode == old(message.typeCode)
      invariant done + SplitFields(s, previous, fieldEnd) == SplitFields(s, comma, fieldEnd)
      decreases fieldEnd - previous
    {
      var d := next.value;
      FieldCopy(s, previous, d);
      message.AddValue(s[previous + 1..], d - previous - 1);
      assert message.Contents().fields == done + [s[previous + 1..d]];
      FieldsStep(s, comma, previous, fieldEnd, d, done);
      done := done + [s[previous + 1..d]];
      previous := d;
      next := NextDelimiter(s, previous + 1, fieldEnd);
    }
  }
}
