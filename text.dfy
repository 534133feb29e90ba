/** The string operations the report builder applies to one line of
    `bcftools view` output, with Python's semantics: `str.split(sep)` for a
    one-character separator, `str.strip()`, the first line `readline()`
    returns in text mode, and `s.split(sep)[0]`. Strings are `seq<char>`. */
module Text {

  /** Python's `str.isspace()` for a single character: the characters that
      `str.strip()` with no argument removes. The body is that set, exactly
      as CPython defines it; the contract records only the facts the proofs
      use: tab, space and both line terminators are in it, and no printable
      ASCII character other than space is. */
  predicate IsWhitespace(c: char): (b: bool)
    ensures c == '\t' || c == ' ' || IsLineBreak(c) ==> b
    ensures '!' <= c <= '~' ==> !b
  {
    ('\t' <= c <= '\r') || ('\U{1C}' <= c <= '\U{1F}') || c == ' ' ||
    c == '\U{85}' || c == '\U{A0}' || c == '\U{1680}' ||
    ('\U{2000}' <= c <= '\U{200A}') || c == '\U{2028}' || c == '\U{2029}' ||
    c == '\U{202F}' || c == '\U{205F}' || c == '\U{3000}'
  }

  /** A line ends at `\n` or `\r`: a file opened for reading in text mode
      uses universal newlines, so `\r\n` and a lone `\r` end a line too. */
  predicate IsLineBreak(c: char) {
    c == '\n' || c == '\r'
  }

  /** Number of occurrences of `c` in `s`. */
  function Count(s: string, c: char): nat {
    if s == [] then 0 else (if s[0] == c then 1 else 0) + Count(s[1..], c)
  }

  // ---------------------------------------------------------------------
  // str.split(sep) and its inverse, sep.join(parts)
  // ---------------------------------------------------------------------

  /** `s.split(sep)`: the pieces of `s` between occurrences of `sep`. With
      `k` separators there are `k + 1` pieces; empty pieces are kept. */
  function Split(s: string, sep: char): (parts: seq<string>)
    ensures |parts| == Count(s, sep) + 1
    ensures forall i :: 0 <= i < |parts| ==> sep !in parts[i]
    decreases |s|
  {
    if s == [] then [""]
    else
      var rest := Split(s[1..], sep);
      if s[0] == sep then [""] + rest
      else [[s[0]] + rest[0]] + rest[1..]
  }

  /** `sep.join(parts)`. */
  function Join(parts: seq<string>, sep: char): string
    requires |parts| >= 1
  {
    if |parts| == 1 then parts[0] else parts[0] + [sep] + Join(parts[1..], sep)
  }

  /** Joining the pieces with the separator gives back the string. */
  lemma {:induction false} JoinSplit(s: string, sep: char)
    ensures Join(Split(s, sep), sep) == s
    decreases |s|
  {
    if s != [] {
      var rest := Split(s[1..], sep);
      JoinSplit(s[1..], sep);
      if s[0] == sep {
        assert Split(s, sep) == [""] + rest;
        assert Split(s, sep)[1..] == rest;
      } else {
        var parts := Split(s, sep);
        assert parts == [[s[0]] + rest[0]] + rest[1..];
        if |rest| == 1 {
          assert parts == [[s[0]] + rest[0]];
        } else {
          assert parts[1..] == rest[1..];
          assert Join(rest, sep) == rest[0] + [sep] + Join(rest[1..], sep);
        }
      }
    }
  }

  /** Splitting a join of separator-free pieces gives back the pieces, so
      `Split` and `Join` are inverse to each other. */
  lemma {:induction false} SplitJoin(parts: seq<string>, sep: char)
    requires |parts| >= 1
    requires forall i :: 0 <= i < |parts| ==> sep !in parts[i]
    ensures Split(Join(parts, sep), sep) == parts
    decreases |Join(parts, sep)|
  {
    if |parts| == 1 {
      SplitNoSeparator(parts[0], sep);
    } else {
      var tail := Join(parts[1..], sep);
      SplitJoin(parts[1..], sep);
      SplitPrefix(parts[0], tail, sep);
    }
  }

  /** A string without the separator is a single piece. */
  lemma {:induction false} SplitNoSeparator(s: string, sep: char)
    requires sep !in s
    ensures Split(s, sep) == [s]
    decreases |s|
  {
    if s != [] {
      SplitNoSeparator(s[1..], sep);
      assert [s[0]] + s[1..] == s;
    }
  }

  /** Splitting `p + [sep] + t` where `p` has no separator. */
  lemma {:induction false} SplitPrefix(p: string, t: string, sep: char)
    requires sep !in p
    ensures Split(p + [sep] + t, sep) == [p] + Split(t, sep)
    decreases |p|
  {
    if p == [] {
      assert p + [sep] + t == [sep] + t;
      assert ([sep] + t)[1..] == t;
    } else {
      var s := p + [sep] + t;
      assert s[1..] == p[1..] + [sep] + t;
      SplitPrefix(p[1..], t, sep);
      assert [p[0]] + p[1..] == p;
    }
  }

  // ---------------------------------------------------------------------
  // s.split(sep)[0]
  // ---------------------------------------------------------------------

  /** The part of `s` before the first `sep`, or all of `s` when there is
      none. */
  function PrefixBefore(s: string, sep: char): (r: string)
    ensures sep !in r
    ensures r <= s
    ensures |r| < |s| ==> s[|r|] == sep
    decreases |s|
  {
    if s == [] || s[0] == sep then "" else [s[0]] + PrefixBefore(s[1..], sep)
  }

  /** `PrefixBefore` is the first piece of `Split`: it models `s.split(sep)[0]`. */
  lemma {:induction false} PrefixBeforeIsFirstPiece(s: string, sep: char)
    ensures PrefixBefore(s, sep) == Split(s, sep)[0]
    decreases |s|
  {
    if s != [] && s[0] != sep {
      PrefixBeforeIsFirstPiece(s[1..], sep);
    }
  }

  // ---------------------------------------------------------------------
  // str.strip()
  // ---------------------------------------------------------------------

  /** Number of whitespace characters at the start of `s`. */
  function LeadingSpace(s: string): (n: nat)
    ensures n <= |s|
    ensures forall k :: 0 <= k < n ==> IsWhitespace(s[k])
    ensures n == |s| || !IsWhitespace(s[n])
    decreases |s|
  {
    if s != [] && IsWhitespace(s[0]) then 1 + LeadingSpace(s[1..]) else 0
  }

  /** Length of `s` without its trailing whitespace. */
  function TrailingStart(s: string): (m: nat)
    ensures m <= |s|
    ensures forall k :: m <= k < |s| ==> IsWhitespace(s[k])
    ensures m == 0 || !IsWhitespace(s[m - 1])
    decreases |s|
  {
    if s != [] && IsWhitespace(s[|s| - 1]) then TrailingStart(s[..|s| - 1]) else |s|
  }

  /** `s.strip()`: `s` without its leading and its trailing whitespace. The
      result is no longer than `s` and neither starts nor ends with
      whitespace. */
  function Strip(s: string): (r: string)
    ensures |r| <= |s|
    ensures r == [] || (!IsWhitespace(r[0]) && !IsWhitespace(r[|r| - 1]))
  {
    var i := LeadingSpace(s);
    var j := TrailingStart(s);
    if i < j then s[i..j] else []
  }

  /** What `Strip` keeps and drops: the result is a slice of `s`, and
      everything cut off on either side is whitespace. */
  lemma StripSlice(s: string)
    ensures exists i, j :: (0 <= i <= j <= |s| && Strip(s) == s[i..j] &&
      (forall k :: 0 <= k < i ==> IsWhitespace(s[k])) &&
      (forall k :: j <= k < |s| ==> IsWhitespace(s[k])))
  {
    var i := LeadingSpace(s);
    var j := TrailingStart(s);
    if j <= i {
      assert i == |s|;
      assert Strip(s) == s[i..i];
    } else {
      assert Strip(s) == s[i..j];
    }
  }

  /** A string already without leading and trailing whitespace is left as it is. */
  lemma StripUnchanged(s: string)
    requires s == [] || (!IsWhitespace(s[0]) && !IsWhitespace(s[|s| - 1]))
    ensures Strip(s) == s
  {
    if s != [] {
      assert LeadingSpace(s) == 0;
      assert TrailingStart(s) == |s|;
    }
  }

  /** Stripping twice is stripping once. */
  lemma StripIdempotent(s: string)
    ensures Strip(Strip(s)) == Strip(s)
  {
    StripUnchanged(Strip(s));
  }

  /** Only an all-whitespace string strips to the empty string. */
  lemma StripEmpty(s: string)
    ensures Strip(s) == [] <==> forall k :: 0 <= k < |s| ==> IsWhitespace(s[k])
  {
    if LeadingSpace(s) < |s| {
      assert !IsWhitespace(s[LeadingSpace(s)]);
    }
  }

  // ---------------------------------------------------------------------
  // readline()
  // ---------------------------------------------------------------------

  /** The first line of `s`, without its terminator: all of `s` up to the
      first line break, or all of `s` when it has none. */
  function FirstLine(s: string): (r: string)
    ensures r <= s
    ensures forall i :: 0 <= i < |r| ==> !IsLineBreak(r[i])
    ensures |r| < |s| ==> IsLineBreak(s[|r|])
    decreases |s|
  {
    if s == [] || IsLineBreak(s[0]) then "" else [s[0]] + FirstLine(s[1..])
  }
}
