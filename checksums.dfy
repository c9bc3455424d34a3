/** The checksum engine: an XOR fold over the characters of a sentence, and
    its rendering as two hexadecimal digits. */
module Checksums {
  import opened CStrings

  /** Bitwise exclusive or of two non-negative integers, one bit at a time
      from the least significant. */
  function BitXor(a: nat, b: nat): (r: nat)
    decreases a + b
  {
    if a == 0 && b == 0 then 0 else 2 * BitXor(a / 2, b / 2) + (a + b) % 2
  }

  /** 0 is the identity of exclusive or. */
  lemma {:induction false} BitXorZero(a: nat)
    ensures BitXor(a, 0) == a && BitXor(0, a) == a
    decreases a
  {
    if a != 0 {
      BitXorZero(a / 2);
    }
  }

  /** The halves and the parity of an exclusive or. */
  lemma BitXorHalves(a: nat, b: nat)
    ensures BitXor(a, b) / 2 == BitXor(a / 2, b / 2)
    ensures BitXor(a, b) % 2 == (a + b) % 2
  {
  }

  /** A number is fixed by its half and its parity. */
  lemma HalvesDetermine(l: nat, r: nat)
    requires l / 2 == r / 2 && l % 2 == r % 2
    ensures l == r
  {
  }

  lemma ParityOfSums(x: nat, y: nat, l: nat, r: nat, a: nat, b: nat, c: nat)
    requires x % 2 == (a + b) % 2 && y % 2 == (b + c) % 2
    requires l % 2 == (x + c) % 2 && r % 2 == (a + y) % 2
    ensures l % 2 == r % 2
  {
  }

  /** The parity of a three-way exclusive or does not depend on the grouping. */
  lemma ParityAssoc(a: nat, b: nat, c: nat)
    ensures BitXor(BitXor(a, b), c) % 2 == BitXor(a, BitXor(b, c)) % 2
  {
    var x, y := BitXor(a, b), BitXor(b, c);
    BitXorHalves(a, b);
    BitXorHalves(b, c);
    BitXorHalves(x, c);
    BitXorHalves(a, y);
    ParityOfSums(x, y, BitXor(x, c), BitXor(a, y), a, b, c);
  }

  /** The halves of a three-way exclusive or agree once they agree one bit down. */
  lemma HalfAssoc(a: nat, b: nat, c: nat)
    requires BitXor(BitXor(a / 2, b / 2), c / 2) == BitXor(a / 2, BitXor(b / 2, c / 2))
    ensures BitXor(BitXor(a, b), c) / 2 == BitXor(a, BitXor(b, c)) / 2
  {
    BitXorHalves(a, b);
    BitXorHalves(b, c);
    BitXorHalves(BitXor(a, b), c);
    BitXorHalves(a, BitXor(b, c));
  }

  lemma {:induction false} BitXorAssoc(a: nat, b: nat, c: nat)
    ensures BitXor(BitXor(a, b), c) == BitXor(a, BitXor(b, c))
    decreases a + b + c
  {
    if a + b + c != 0 {
      BitXorAssoc(a / 2, b / 2, c / 2);
      HalfAssoc(a, b, c);
      ParityAssoc(a, b, c);
      HalvesDetermine(BitXor(BitXor(a, b), c), BitXor(a, BitXor(b, c)));
    }
  }

  /** 2 to the power n. */
  function Pow2(n: nat): nat {
    if n == 0 then 1 else 2 * Pow2(n - 1)
  }

  /** Exclusive or never sets a bit above the highest bit of its operands. */
  lemma {:induction false} BitXorBelow(a: nat, b: nat, n: nat)
    requires a < Pow2(n) && b < Pow2(n)
    ensures BitXor(a, b) < Pow2(n)
  {
    if n > 0 && a + b != 0 {
      BitXorBelow(a / 2, b / 2, n - 1);
    }
  }

  /** Exclusive or of two bytes is a byte. */
  lemma BitXorByte(a: nat, b: nat)
    requires a < 256 && b < 256
    ensures BitXor(a, b) < 256
  {
    assert Pow2(8) == 256;
    BitXorBelow(a, b, 8);
  }

  /** `nmea_checksum_add_c`: folds one character into a running checksum. */
  function AddC(checksum: nat, c: Char): nat {
    BitXor(checksum, c as int)
  }

  /** The XOR of all characters of s, starting from 0. */
  function Xor(s: seq<Char>): (r: nat) {
    if s == [] then 0 else AddC(Xor(s[..|s| - 1]), s[|s| - 1])
  }

  /** The checksum of a text is a byte. */
  lemma {:induction false} XorByte(s: seq<Char>)
    ensures Xor(s) < 256
  {
    if s != [] {
      XorByte(s[..|s| - 1]);
      BitXorByte(Xor(s[..|s| - 1]), s[|s| - 1] as int);
    }
  }

  /** The checksum of a concatenation combines the checksums of its parts. */
  lemma {:induction false} XorAppend(a: seq<Char>, b: seq<Char>)
    ensures Xor(a + b) == BitXor(Xor(a), Xor(b))
  {
    if b == [] {
      assert a + b == a;
      BitXorZero(Xor(a));
    } else {
      var c := b[|b| - 1];
      assert (a + b)[..|a + b| - 1] == a + b[..|b| - 1];
      XorAppend(a, b[..|b| - 1]);
      BitXorAssoc(Xor(a), Xor(b[..|b| - 1]), c as int);
    }
  }

  /** `nmea_checksum_add_str`: folds the text of a C string into a checksum. */
  method AddStr(checksum: nat, str: seq<Char>) returns (r: nat)
    ensures r == BitXor(checksum, Xor(CText(str)))
  {
    r := checksum;
    BitXorZero(checksum);
    var i := 0;
    while i < |str| && str[i] != NUL
      invariant i <= |str| && NUL !in str[..i]
      invariant r == BitXor(checksum, Xor(str[..i]))
    {
      assert str[..i + 1][..i] == str[..i];
      BitXorAssoc(checksum, Xor(str[..i]), str[i] as int);
      r := AddC(r, str[i]);
      i := i + 1;
    }
    CTextAt(str, i);
  }

  /** `nmea_message_string_checksum(begin, end)`: the checksum of the
      characters in [begin, end), stopping early at a NUL. */
  method StringChecksum(s: seq<Char>, begin: nat, end: nat) returns (r: nat)
    requires begin <= end <= |s|
    ensures r == Xor(CText(s[begin..end]))
  {
    r := 0;
    var p := begin;
    while p != end && s[p] != NUL
      invariant begin <= p <= end && NUL !in s[begin..p]
      invariant r == Xor(s[begin..p])
    {
      assert s[begin..p + 1] == s[begin..p] + [s[p]];
      assert (s[begin..p] + [s[p]])[..p - begin] == s[begin..p];
      r := AddC(r, s[p]);
      p := p + 1;
    }
    assert s[begin..end][..p - begin] == s[begin..p];
    CTextAt(s[begin..end], p - begin);
  }

  predicate IsHexDigit(c: Char) {
    '0' <= c <= '9' || 'a' <= c <= 'f' || 'A' <= c <= 'F'
  }

  predicate IsUpperHexDigit(c: Char) {
    '0' <= c <= '9' || 'A' <= c <= 'F'
  }

  function HexDigitValue(c: Char): (r: nat)
    requires IsHexDigit(c)
    ensures r < 16
  {
    if c <= '9' then c as int - '0' as int
    else if c >= 'a' then c as int - 'a' as int + 10
    else c as int - 'A' as int + 10
  }

  /** The number of hexadecimal digits s starts with. */
  function HexRun(s: seq<Char>): (n: nat)
    ensures n <= |s|
    ensures forall k :: 0 <= k < n ==> IsHexDigit(s[k])
    ensures n < |s| ==> !IsHexDigit(s[n])
  {
    if s == [] || !IsHexDigit(s[0]) then 0 else 1 + HexRun(s[1..])
  }

  /** The number a string of hexadecimal digits denotes, most significant first. */
  function HexValue(t: seq<Char>): nat
    requires forall k :: 0 <= k < |t| ==> IsHexDigit(t[k])
  {
    if t == [] then 0 else HexValue(t[..|t| - 1]) * 16 + HexDigitValue(t[|t| - 1])
  }

  /** `strtol(s, NULL, 16)` on checksum text: the value of the longest prefix
      of hexadecimal digits, 0 when there is none. */
  function ParseHex(s: seq<Char>): nat {
    HexValue(s[..HexRun(s)])
  }

  /** `nmea_checksum_digit_to_string`: a digit above 9 becomes 'A' + (digit - 10),
      any other '0' + digit, cut to a byte as the `(char)` cast does. */
  function DigitChar(digit: int): (r: Char)
    ensures 0 <= digit < 16 ==> IsUpperHexDigit(r) && HexDigitValue(r) == digit
  {
    ((if digit > 9 then 0x41 + digit - 10 else 0x30 + digit) % 256) as char
  }

  /** The two characters `nmea_checksum_to_string` writes: the high nibble
      (`number >> 4`), then the low nibble (`number & 0x0F`). For a byte they are
      upper-case hexadecimal digits that denote the byte again. */
  function Hex2(number: int): (r: seq<Char>)
    ensures |r| == 2
    ensures 0 <= number < 256 ==>
      IsUpperHexDigit(r[0]) && IsUpperHexDigit(r[1]) && HexValue(r) == number
  {
    var hi, lo := DigitChar(number / 16), DigitChar(number % 16);
    assert [hi, lo][..1] == [hi] && [hi][..0] == [];
    assert 0 <= number < 256 ==> HexValue([hi]) == HexDigitValue(hi);
    [hi, lo]
  }

  /** Every pair of upper-case hexadecimal digits is the rendering of the byte it denotes. */
  lemma Hex2OfValue(t: seq<Char>)
    requires |t| == 2 && IsUpperHexDigit(t[0]) && IsUpperHexDigit(t[1])
    ensures HexValue(t) < 256 && Hex2(HexValue(t)) == t
  {
    assert t[..1] == [t[0]] && [t[0]][..0] == [];
    var hi, lo := HexDigitValue(t[0]), HexDigitValue(t[1]);
    assert HexValue([t[0]]) == hi;
    assert HexValue(t) == hi * 16 + lo;
    assert (hi * 16 + lo) / 16 == hi && (hi * 16 + lo) % 16 == lo;
    DigitCharOfValue(t[0]);
    DigitCharOfValue(t[1]);
  }

  lemma DigitCharOfValue(c: Char)
    requires IsUpperHexDigit(c)
    ensures DigitChar(HexDigitValue(c)) == c
  {
  }

  /** Reading back a rendered checksum with `strtol` gives the checksum,
      whatever follows the two digits, as long as it is not a digit too. */
  lemma ParseHexOfHex2(number: int, rest: seq<Char>)
    requires 0 <= number < 256
    requires rest == [] || !IsHexDigit(rest[0])
    ensures ParseHex(Hex2(number) + rest) == number
  {
    var s := Hex2(number) + rest;
    assert s[1..] == [s[1]] + rest;
    assert s[2..] == rest;
    assert HexRun(s) == 2;
    assert s[..2] == Hex2(number);
  }
}
