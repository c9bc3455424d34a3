/** C strings as the parser sees them: a buffer of 8-bit characters in which
    the first NUL ends the text. A `seq<Char>` stands for the memory that a
    `const char*` points at; its end plays the role of a terminating NUL. */
module CStrings {

  /** A C `char` holding a byte 0..255. */
  type Char = c: char | c as int < 256 witness '\0'

  const NUL: Char := '\0'
  const CR: Char := '\r'
  const LF: Char := '\n'

  datatype Option<T> = None | Some(value: T)

  /** `strstr(s + i, "c")` for a one-character needle: the first index j >= i
      holding c, provided no NUL comes first. */
  function Find(s: seq<Char>, i: nat, c: Char): (r: Option<nat>)
    requires i <= |s|
    requires c != NUL
    ensures r.Some? ==> i <= r.value < |s| && s[r.value] == c
    ensures r.Some? ==> c !in s[i..r.value] && NUL !in s[i..r.value]
    decreases |s| - i
  {
    if i == |s| || s[i] == NUL then None
    else if s[i] == c then Some(i)
    else
      var r := Find(s, i + 1, c);
      assert r.Some? ==> s[i..r.value] == [s[i]] + s[i + 1..r.value];
      assert forall j :: i < j <= |s| ==> s[i..j] == [s[i]] + s[i + 1..j];
      r
  }

  /** The search finds the first occurrence of c when no NUL precedes it. */
  lemma {:induction false} FindAt(s: seq<Char>, i: nat, c: Char, j: nat)
    requires i <= j < |s| && c != NUL
    requires s[j] == c && c !in s[i..j] && NUL !in s[i..j]
    ensures Find(s, i, c) == Some(j)
    decreases j - i
  {
    if i < j {
      assert s[i] == s[i..j][0];
      assert s[i + 1..j] == s[i..j][1..];
      FindAt(s, i + 1, c, j);
    }
  }

  /** A failed search, or one that lands beyond `end`, means no c lies in
      [i, end] before the first NUL. */
  lemma {:induction false} FindAbsent(s: seq<Char>, i: nat, c: Char, end: nat)
    requires i <= |s| && c != NUL
    requires Find(s, i, c).None? || Find(s, i, c).value > end
    ensures forall k :: i <= k <= end && k < |s| && NUL !in s[i..k] ==> s[k] != c
    decreases |s| - i
  {
    var r := Find(s, i, c);
    if r.Some? {
      forall k | i <= k <= end && k < |s| && NUL !in s[i..k]
        ensures s[k] != c
      {
        assert s[k] == s[i..r.value][k - i];
      }
    } else if i < |s| && s[i] != NUL {
      FindAbsent(s, i + 1, c, end);
      forall k | i <= k <= end && k < |s| && NUL !in s[i..k]
        ensures s[k] != c
      {
        if k > i {
          assert s[i + 1..k] == s[i..k][1..];
        }
      }
    } else if i < |s| {
      forall k | i < k <= |s|
        ensures NUL in s[i..k]
      {
        assert s[i..k][0] == s[i];
      }
    }
  }

  /** When neither c nor NUL occurs in s[i..k], the search lands at k or later (or fails). */
  lemma FindNotBefore(s: seq<Char>, i: nat, c: Char, k: nat)
    requires i <= k <= |s| && c != NUL
    requires c !in s[i..k] && NUL !in s[i..k]
    ensures Find(s, i, c).Some? ==> Find(s, i, c).value >= k
  {
  }

  /** The text a C string holds: everything before its first NUL. */
  function CText(s: seq<Char>): (r: seq<Char>)
    ensures r <= s && NUL !in r
    ensures |r| < |s| ==> s[|r|] == NUL
  {
    if s == [] || s[0] == NUL then []
    else
      var t := CText(s[1..]);
      assert [s[0]] + s[1..] == s;
      [s[0]] + t
  }

  /** The text of s ends at i when s[..i] is NUL-free and s[i] is a NUL or the end. */
  lemma CTextAt(s: seq<Char>, i: nat)
    requires i <= |s| && NUL !in s[..i]
    requires i == |s| || s[i] == NUL
    ensures CText(s) == s[..i]
  {
  }

  /** The search succeeds exactly when c occurs in the text from i on. */
  lemma {:induction false} FindInText(s: seq<Char>, i: nat, c: Char)
    requires i <= |s| && c != NUL
    ensures Find(s, i, c).Some? <==> c in CText(s[i..])
    decreases |s| - i
  {
    if i < |s| && s[i] != NUL {
      assert s[i..] == [s[i]] + s[i + 1..];
      assert s[i..][1..] == s[i + 1..];
      if s[i] != c {
        FindInText(s, i + 1, c);
      }
    }
  }

  /** The text of a NUL-free prefix followed by more is the prefix followed
      by the text of the rest. */
  lemma {:induction false} CTextAppend(a: seq<Char>, b: seq<Char>)
    requires NUL !in a
    ensures CText(a + b) == a + CText(b)
    decreases |a|
  {
    if a == [] {
      assert a + b == b;
    } else {
      assert (a + b)[1..] == a[1..] + b;
      CTextAppend(a[1..], b);
      assert a == [a[0]] + a[1..];
    }
  }

  /** A string without NUL is its own text. */
  lemma CTextOfClean(s: seq<Char>)
    requires NUL !in s
    ensures CText(s) == s
  {
  }

  /** `nmea_strncpy_s(dst, src, n)`: the first n characters of src, stopping
      early at a NUL. */
  function CopyN(src: seq<Char>, n: nat): (r: seq<Char>)
    ensures r <= src && |r| <= n && NUL !in r
    ensures |r| < n ==> |r| == |src| || src[|r|] == NUL
  {
    if n <= |src| then CText(src[..n]) else CText(src)
  }

  /** Copying a NUL-free span copies all of it. */
  lemma CopyNOfClean(src: seq<Char>, n: nat)
    requires n <= |src| && NUL !in src[..n]
    ensures CopyN(src, n) == src[..n]
  {
    CTextOfClean(src[..n]);
  }

  /** Copying stops at the first NUL, at the end of the source, or after n
      characters, whichever comes first. */
  lemma CopyNAt(src: seq<Char>, n: nat, j: nat)
    requires j <= n && j <= |src| && NUL !in src[..j]
    requires j == n || j == |src| || src[j] == NUL
    ensures CopyN(src, n) == src[..j]
  {
    if n <= |src| {
      assert src[..n][..j] == src[..j];
      CTextAt(src[..n], j);
    } else {
      CTextAt(src, j);
    }
  }

  /** A NUL-free source no longer than the limit is copied whole. */
  lemma CopyNWhole(src: seq<Char>, n: nat)
    requires |src| <= n && NUL !in src
    ensures CopyN(src, n) == src
  {
    CopyNAt(src, n, |src|);
  }

  /** A copy is longer than any NUL-free stretch of the source within the limit. */
  lemma CopyNLonger(src: seq<Char>, n: nat, j: nat)
    requires j < n && j < |src| && NUL !in src[..j + 1]
    ensures j < |CopyN(src, n)|
  {
  }

  /** n NUL characters. */
  function Nuls(n: nat): (r: seq<Char>)
    ensures |r| == n && forall k :: 0 <= k < n ==> r[k] == NUL
  {
    seq(n, _ => NUL)
  }

  /** A buffer that agrees with `before` except for t and a NUL written at `at`. */
  lemma Spliced(before: seq<Char>, after: seq<Char>, at: nat, t: seq<Char>)
    requires |after| == |before| && at + |t| < |before|
    requires forall k :: 0 <= k < |after| ==>
      after[k] == if at <= k < at + |t| then t[k - at] else if k == at + |t| then NUL else before[k]
    ensures after == before[..at] + t + [NUL] + before[at + |t| + 1..]
  {
  }

  /** `nmea_strncpy_s(buf + at, src, n)`: writes the copied text at `at` and a
      NUL right after it, leaving the rest of the buffer alone. */
  method CopyInto(buf: array<Char>, at: nat, src: seq<Char>, n: nat)
    requires at + |CopyN(src, n)| < buf.Length
    modifies buf
    ensures buf[..] == old(buf[..at]) + CopyN(src, n) + [NUL] + old(buf[at + |CopyN(src, n)| + 1..])
  {
    ghost var copy := CopyN(src, n);
    ghost var before := buf[..];
    var j := 0;
    while j < |src| && src[j] != NUL && j < n
      invariant j <= |copy| && NUL !in src[..j]
      invariant forall k :: 0 <= k < buf.Length ==> buf[k] == if at <= k < at + j then src[k - at] else before[k]
    {
      CopyNLonger(src, n, j);
      buf[at + j] := src[j];
      j := j + 1;
    }
    CopyNAt(src, n, j);
    buf[at + j] := NUL;
    Spliced(before, buf[..], at, copy);
  }
}
