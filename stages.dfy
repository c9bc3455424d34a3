/** The checks of `nmea_parse_message` one at a time: each lemma fixes the
    outcome of one stage from what the text holds, without the searches. */
module Stages {
  import opened CStrings
  import opened Checksums
  import opened Messages
  import opened Parser

  /** Without a `$` in the text the parse fails before any terminator is
      looked for: unsupported when a `!` is there, else no begin delimiter. */
  lemma ParseNoDollar(s: seq<Char>, strict: bool, h: Option<Handler>)
    requires '$' !in CText(s)
    ensures Parse(s, strict, h) == Outcome(if '!' in CText(s) then UnsupportedMessage else BeginDelimiterNotFound, 0, None)
  {
    assert s[0..] == s;
    FindInText(s, 0, '$');
    FindInText(s, 0, '!');
  }

  /** Parsing starts right after the first `$`. */
  lemma ParseAtDollar(s: seq<Char>, d: nat, strict: bool, h: Option<Handler>)
    requires d < |s| && s[d] == '$' && '$' !in s[..d] && NUL !in s[..d]
    ensures Parse(s, strict, h) == Framed(s, d + 1, strict, h)
  {
    assert s[0..d] == s[..d];
    FindAt(s, 0, '$', d);
  }

  /** The first CR after `$` is the terminator, even when an LF comes
      earlier; in strict mode a span longer than the limit fails there with
      the end index still 0. */
  lemma FramedAt(t: seq<Char>, begin: nat, e: nat, strict: bool, h: Option<Handler>)
    requires begin <= e < |t| && t[e] == CR && CR !in t[begin..e] && NUL !in t[begin..e]
    ensures !strict || e - begin <= MaxLength ==> Framed(t, begin, strict, h) == Checked(t, begin, e, strict, h)
    ensures strict && e - begin > MaxLength ==> Framed(t, begin, strict, h) == Outcome(LongerThanMaxLength, 0, None)
  {
    FindAt(t, begin, CR, e);
  }

  /** With no CR in the text after `$`, the first LF is the terminator. */
  lemma FramedAtLf(t: seq<Char>, begin: nat, e: nat, strict: bool, h: Option<Handler>)
    requires begin <= e < |t| && CR !in CText(t[begin..])
    requires t[e] == LF && LF !in t[begin..e] && NUL !in t[begin..e]
    ensures !strict || e - begin <= MaxLength ==> Framed(t, begin, strict, h) == Checked(t, begin, e, strict, h)
    ensures strict && e - begin > MaxLength ==> Framed(t, begin, strict, h) == Outcome(LongerThanMaxLength, 0, None)
  {
    FindInText(t, begin, CR);
    FindAt(t, begin, LF, e);
  }

  /** With neither CR nor LF in the text after `$` there is no end delimiter. */
  lemma FramedNoEnd(t: seq<Char>, begin: nat, strict: bool, h: Option<Handler>)
    requires begin <= |t| && CR !in CText(t[begin..]) && LF !in CText(t[begin..])
    ensures Framed(t, begin, strict, h) == Outcome(EndDelimiterNotFound, 0, None)
  {
    FindInText(t, begin, CR);
    FindInText(t, begin, LF);
  }

  /** A `*` before the terminator: in strict mode anything but two characters
      between it and the terminator is the wrong length; otherwise the value
      `strtol` reads after it must be the XOR of the text between `$` and
      `*`, and then the fields end at the `*`. */
  lemma CheckedAtStar(t: seq<Char>, begin: nat, e: nat, k: nat, strict: bool, h: Option<Handler>)
    requires begin <= k < e < |t| && t[e] in {CR, LF}
    requires t[k] == '*' && '*' !in t[begin..k] && NUL !in t[begin..k]
    ensures strict && e - k - 1 != 2 ==> Checked(t, begin, e, strict, h) == Outcome(IncorrectChecksumLength, e + 1, None)
    ensures (!strict || e - k - 1 == 2) && ParseHex(t[k + 1..]) != Xor(t[begin..k]) ==>
              Checked(t, begin, e, strict, h) == Outcome(ChecksumError, e + 1, None)
    ensures (!strict || e - k - 1 == 2) && ParseHex(t[k + 1..]) == Xor(t[begin..k]) ==>
              Checked(t, begin, e, strict, h) == Identified(t, begin, e + 1, k, strict, h)
  {
    CTextOfClean(t[begin..k]);
    FindAt(t, begin, '*', k);
  }

  /** Without a `*` before the terminator (one at or after it does not
      count) no checksum is checked and the fields run up to the terminator. */
  lemma CheckedNoStar(t: seq<Char>, begin: nat, e: nat, strict: bool, h: Option<Handler>)
    requires begin <= e < |t| && t[e] in {CR, LF}
    requires '*' !in t[begin..e] && NUL !in t[begin..e]
    ensures Checked(t, begin, e, strict, h) == Identified(t, begin, e + 1, e, strict, h)
  {
    FindNotBefore(t, begin, '*', e);
  }

  /** The first comma after `$` must sit five characters in; with none the
      parse reports an implementation error. */
  lemma IdentifiedBadId(t: seq<Char>, begin: nat, index: nat, fieldEnd: nat, strict: bool, h: Option<Handler>)
    requires begin <= fieldEnd < |t| && 1 <= index <= |t| && t[index - 1] in {CR, LF}
    ensures ',' !in CText(t[begin..]) ==>
              Identified(t, begin, index, fieldEnd, strict, h) == Outcome(ImplementationError, index, None)
    ensures forall c :: begin <= c < |t| && c != begin + 5 && t[c] == ',' && ',' !in t[begin..c] && NUL !in t[begin..c] ==>
              Identified(t, begin, index, fieldEnd, strict, h) == Outcome(IdLengthIncorrect, index, None)
  {
    FindInText(t, begin, ',');
    forall c | begin <= c < |t| && c != begin + 5 && t[c] == ',' && ',' !in t[begin..c] && NUL !in t[begin..c]
      ensures Identified(t, begin, index, fieldEnd, strict, h) == Outcome(IdLengthIncorrect, index, None)
    {
      FindAt(t, begin, ',', c);
    }
  }

  /** A well-placed id: strict mode refuses an XXRM type code whatever the
      checksum; a vendor (`P`) talker goes to the handler with the text after
      `$`, and without one is reported unhandled; both keep the id with no
      fields. */
  lemma IdentifiedVendor(t: seq<Char>, begin: nat, index: nat, fieldEnd: nat, strict: bool, h: Option<Handler>)
    requires begin + 5 <= fieldEnd < |t| && 1 <= index <= |t| && t[index - 1] in {CR, LF}
    requires t[begin + 5] == ',' && ',' !in t[begin..begin + 5] && NUL !in t[begin..begin + 5]
    ensures strict && t[begin + 2] == 'R' && t[begin + 3] == 'M' ==>
              Identified(t, begin, index, fieldEnd, strict, h) == Outcome(ChecksumExpected, index, None)
    ensures !(strict && t[begin + 2] == 'R' && t[begin + 3] == 'M') && t[begin] == 'P' ==>
              Identified(t, begin, index, fieldEnd, strict, h)
              == (var kept := Some(Sentence(t[begin..begin + 2], t[begin + 2..begin + 5], []));
                  match h
                  case None => Outcome(UnhandledVendorExtMessage, index, kept)
                  case Some(f) => Outcome(f(t[begin..], index, strict).0, f(t[begin..], index, strict).1, kept))
  {
    FindAt(t, begin, ',', begin + 5);
  }
}
