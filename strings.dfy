/** The Python `str` operations the catalog code relies on, over `seq<char>`. */
module Strings {

  /** `s.startswith(p)` */
  predicate StartsWith(s: string, p: string) {
    p <= s
  }

  /** `sub in s` */
  predicate Contains(s: string, sub: string) {
    exists i | 0 <= i <= |s| :: sub <= s[i..]
  }

  lemma PrefixIsContained(s: string, p: string)
    requires StartsWith(s, p)
    ensures Contains(s, p)
  {
    assert p <= s[0..];
  }

  lemma ContainsInfix(a: string, b: string, c: string)
    ensures Contains(a + b + c, b)
  {
    assert b <= (a + b + c)[|a|..];
  }

  /** Whatever a string holds, it still holds with something appended. */
  lemma ContainsLeft(a: string, b: string, sub: string)
    requires Contains(a, sub)
    ensures Contains(a + b, sub)
  {
    var i :| 0 <= i <= |a| && sub <= a[i..];
    assert (a + b)[i..] == a[i..] + b;
  }

  /** Whatever a string holds, it still holds with something put in front. */
  lemma ContainsRight(a: string, b: string, sub: string)
    requires Contains(b, sub)
    ensures Contains(a + b, sub)
  {
    var i :| 0 <= i <= |b| && sub <= b[i..];
    assert (a + b)[|a| + i..] == b[i..];
  }

  /** A string that holds `mid` holds everything `mid` holds. */
  lemma ContainsTransitive(s: string, mid: string, sub: string)
    requires Contains(s, mid) && Contains(mid, sub)
    ensures Contains(s, sub)
  {
    var i :| 0 <= i <= |s| && mid <= s[i..];
    var j :| 0 <= j <= |mid| && sub <= mid[j..];
    forall k | 0 <= k < |sub|
      ensures s[i + j + k] == sub[k]
    {
      assert mid[j + k] == sub[k];
      assert s[i..][j + k] == mid[j + k];
    }
    assert sub <= s[i + j..];
  }

  /** `c.lower()` restricted to ASCII letters. */
  function LowerChar(c: char): char {
    if 'A' <= c <= 'Z' then (c as int - 'A' as int + 'a' as int) as char else c
  }

  /** `s.lower()`, ASCII only. */
  function Lower(s: string): (r: string)
    ensures |r| == |s|
  {
    seq(|s|, i requires 0 <= i < |s| => LowerChar(s[i]))
  }

  /** `sep.join(parts)` */
  function Join(sep: string, parts: seq<string>): string {
    if |parts| == 0 then ""
    else if |parts| == 1 then parts[0]
    else parts[0] + sep + Join(sep, parts[1..])
  }

  /** Appending a part to a list appends the separator and the part to its join. */
  lemma {:induction false} JoinSnoc(sep: string, parts: seq<string>, x: string)
    ensures Join(sep, parts + [x]) == if parts == [] then x else Join(sep, parts) + sep + x
  {
    if |parts| >= 2 {
      assert (parts + [x])[1..] == parts[1..] + [x];
      JoinSnoc(sep, parts[1..], x);
    }
  }

  /** The join of a non-empty list whose first part is non-empty is non-empty. */
  lemma JoinNonEmpty(sep: string, parts: seq<string>)
    requires |parts| > 0 && parts[0] != ""
    ensures Join(sep, parts) != ""
  {
    if |parts| > 1 {
      assert Join(sep, parts)[0] == parts[0][0];
    }
  }

  /**
   * `s.replace(pat, by)` for a non-empty pattern: every non-overlapping
   * occurrence, found scanning left to right, is replaced.
   */
  function Replace(s: string, pat: string, rep: string): string
    requires |pat| > 0
    decreases |s|
  {
    if |s| < |pat| then s
    else if pat <= s then rep + Replace(s[|pat|..], pat, rep)
    else [s[0]] + Replace(s[1..], pat, rep)
  }

  /** Replacing a pattern the string does not hold changes nothing. */
  lemma {:induction false} ReplaceAbsent(s: string, pat: string, rep: string)
    requires |pat| > 0 && !Contains(s, pat)
    ensures Replace(s, pat, rep) == s
    decreases |s|
  {
    if |s| >= |pat| {
      assert s[0..] == s;
      forall i | 0 <= i <= |s[1..]|
        ensures !(pat <= s[1..][i..])
      {
        assert s[1..][i..] == s[i + 1..];
      }
      ReplaceAbsent(s[1..], pat, rep);
    }
  }

  /** A stretch that holds no first character of the pattern is copied through unchanged. */
  lemma {:induction false} ReplaceSkips(x: string, y: string, pat: string, rep: string)
    requires |pat| > 0 && pat[0] !in x
    ensures Replace(x + y, pat, rep) == x + Replace(y, pat, rep)
  {
    if x != [] {
      var s := x + y;
      assert s[1..] == x[1..] + y;
      ReplaceSkips(x[1..], y, pat, rep);
      assert x == [x[0]] + x[1..];
    } else {
      assert x + y == y;
    }
  }

  /** A character at which the pattern does not start is copied through. */
  lemma ReplaceMisses(c: char, y: string, pat: string, rep: string)
    requires |pat| > 0 && !(pat <= [c] + y)
    ensures Replace([c] + y, pat, rep) == [c] + Replace(y, pat, rep)
  {
    assert ([c] + y)[1..] == y;
  }

  /** The pattern cannot start where its second character is not the next one. */
  lemma ReplaceMissesAt(c: char, y: string, pat: string, rep: string)
    requires |pat| >= 2 && y != [] && y[0] != pat[1]
    ensures Replace([c] + y, pat, rep) == [c] + Replace(y, pat, rep)
  {
    assert ([c] + y)[1] == y[0];
    ReplaceMisses(c, y, pat, rep);
  }

  /**
   * A separator-led segment the pattern cannot start at (its second character
   * differs from the pattern's, and it holds no other first character of the
   * pattern) is copied through.
   */
  lemma ReplaceSkipsSegment(c: char, x: string, y: string, pat: string, rep: string)
    requires |pat| >= 2 && x != [] && x[0] != pat[1] && pat[0] !in x
    ensures Replace([c] + x + y, pat, rep) == [c] + x + Replace(y, pat, rep)
  {
    assert [c] + x + y == [c] + (x + y);
    ReplaceMissesAt(c, x + y, pat, rep);
    ReplaceSkips(x, y, pat, rep);
  }

  /**
   * A segment that starts where the pattern cannot (its second character
   * differs from the pattern's) and holds no other first character of the
   * pattern is copied through.
   */
  lemma ReplaceSkipsLed(seg: string, y: string, pat: string, rep: string)
    requires |pat| >= 2 && |seg| >= 2 && seg[1] != pat[1] && pat[0] !in seg[1..]
    ensures Replace(seg + y, pat, rep) == seg + Replace(y, pat, rep)
  {
    assert seg + y == [seg[0]] + (seg[1..] + y);
    ReplaceMissesAt(seg[0], seg[1..] + y, pat, rep);
    ReplaceSkips(seg[1..], y, pat, rep);
    assert [seg[0]] + (seg[1..] + Replace(y, pat, rep)) == seg + Replace(y, pat, rep);
  }

  /** An occurrence at the start is replaced and the scan resumes after it. */
  lemma ReplaceHits(y: string, pat: string, rep: string)
    requires |pat| > 0
    ensures Replace(pat + y, pat, rep) == rep + Replace(y, pat, rep)
  {
    assert (pat + y)[|pat|..] == y;
  }

  /** A string lacking one of the pattern's characters does not hold the pattern. */
  lemma MissingCharNotContained(s: string, pat: string, c: char)
    requires c in pat && c !in s
    ensures !Contains(s, pat)
  {
  }

  /** With a non-empty replacement, only the empty string rewrites to the empty string. */
  lemma {:induction false} ReplaceEmptyIff(s: string, pat: string, rep: string)
    requires |pat| > 0 && |rep| > 0
    ensures Replace(s, pat, rep) == "" <==> s == ""
  {
  }

  /** `s.count(c)` for a one-character needle. */
  function CountChar(s: string, c: char): nat {
    if s == [] then 0 else (if s[0] == c then 1 else 0) + CountChar(s[1..], c)
  }

  /** `s.split(c)` for a one-character separator. */
  function Split(s: string, c: char): (parts: seq<string>)
    ensures |parts| >= 1
  {
    if s == [] then [""]
    else
      var rest := Split(s[1..], c);
      if s[0] == c then [""] + rest else [[s[0]] + rest[0]] + rest[1..]
  }

  /** Splitting on `c` and joining with `c` gives back the string; there is one more piece than separators. */
  lemma {:induction false} SplitJoin(s: string, c: char)
    ensures Join([c], Split(s, c)) == s
    ensures |Split(s, c)| == CountChar(s, c) + 1
    ensures forall k | 0 <= k < |Split(s, c)| :: c !in Split(s, c)[k]
  {
    if s != [] {
      SplitJoin(s[1..], c);
      var rest := Split(s[1..], c);
      if s[0] != c {
        var parts := [[s[0]] + rest[0]] + rest[1..];
        if |rest| > 1 {
          assert parts[1..] == rest[1..];
          assert Join([c], rest) == rest[0] + [c] + Join([c], rest[1..]);
        }
        assert s == [s[0]] + s[1..];
      } else {
        assert ([""] + rest)[1..] == rest;
        assert s == [c] + s[1..];
      }
    }
  }

  lemma {:induction false} SplitNoSeparator(a: string, c: char)
    requires c !in a
    ensures Split(a, c) == [a]
  {
    if a != [] {
      SplitNoSeparator(a[1..], c);
      assert a == [a[0]] + a[1..];
    }
  }

  lemma {:induction false} SplitAfterPiece(a: string, b: string, c: char)
    requires c !in a
    ensures Split(a + [c] + b, c) == [a] + Split(b, c)
  {
    if a == [] {
      assert (a + [c] + b)[1..] == b;
    } else {
      assert (a + [c] + b)[1..] == a[1..] + [c] + b;
      SplitAfterPiece(a[1..], b, c);
      assert a == [a[0]] + a[1..];
    }
  }

  /** Splitting a join undoes it when no part holds the separator. */
  lemma {:induction false} SplitJoinInverse(parts: seq<string>, c: char)
    requires |parts| >= 1
    requires forall k | 0 <= k < |parts| :: c !in parts[k]
    ensures Split(Join([c], parts), c) == parts
  {
    if |parts| == 1 {
      SplitNoSeparator(parts[0], c);
    } else {
      SplitJoinInverse(parts[1..], c);
      SplitAfterPiece(parts[0], Join([c], parts[1..]), c);
      assert parts == [parts[0]] + parts[1..];
    }
  }

  /** The characters Python's `str.strip()` removes, restricted to ASCII. */
  predicate IsSpace(c: char) {
    var n := c as int;
    n == 32 || 9 <= n <= 13 || 28 <= n <= 31
  }

  /** Number of whitespace characters at the start of `s`. */
  function LeadingSpaces(s: string): (n: nat)
    ensures n <= |s|
    ensures forall k | 0 <= k < n :: IsSpace(s[k])
    ensures n == |s| || !IsSpace(s[n])
  {
    if s != [] && IsSpace(s[0]) then 1 + LeadingSpaces(s[1..]) else 0
  }

  /** Number of whitespace characters at the end of `s`. */
  function TrailingSpaces(s: string): (n: nat)
    ensures n <= |s|
    ensures forall k | |s| - n <= k < |s| :: IsSpace(s[k])
    ensures n == |s| || !IsSpace(s[|s| - n - 1])
  {
    if s != [] && IsSpace(s[|s| - 1]) then 1 + TrailingSpaces(s[..|s| - 1]) else 0
  }

  /** Where `s.strip()` cuts: after the leading whitespace and before the trailing whitespace. */
  lemma StripBounds(s: string, i: nat, j: nat)
    requires i == LeadingSpaces(s) && j == i + |s[i..]| - TrailingSpaces(s[i..])
    ensures i <= j <= |s|
    ensures forall k | j <= k < |s| :: IsSpace(s[k])
    ensures i < j ==> !IsSpace(s[i]) && !IsSpace(s[j - 1])
  {
    var t := s[i..];
    assert forall k | j <= k < |s| :: s[k] == t[k - i];
    if i < j {
      assert s[j - 1] == t[|t| - TrailingSpaces(t) - 1];
    }
  }

  /**
   * `s.strip()`: the result is the slice of `s` left after dropping the
   * whitespace at both ends, and it neither starts nor ends with whitespace.
   */
  function Strip(s: string): (r: string)
    ensures exists i, j | 0 <= i <= j <= |s| ::
      && r == s[i..j]
      && (forall k | 0 <= k < i :: IsSpace(s[k]))
      && (forall k | j <= k < |s| :: IsSpace(s[k]))
    ensures r == [] || (!IsSpace(r[0]) && !IsSpace(r[|r| - 1]))
  {
    var i := LeadingSpaces(s);
    var j := i + |s[i..]| - TrailingSpaces(s[i..]);
    StripBounds(s, i, j);
    s[i..j]
  }

  /** Python's `<` on strings: lexicographic by code point. */
  predicate Less(a: string, b: string) {
    if a == [] then b != []
    else if b == [] then false
    else if a[0] != b[0] then a[0] < b[0]
    else Less(a[1..], b[1..])
  }

  lemma {:induction false} LessIrreflexive(a: string)
    ensures !Less(a, a)
  {
    if a != [] {
      LessIrreflexive(a[1..]);
    }
  }

  lemma {:induction false} LessTransitive(a: string, b: string, c: string)
    requires Less(a, b) && Less(b, c)
    ensures Less(a, c)
  {
    if a != [] && b != [] && c != [] && a[0] == b[0] && b[0] == c[0] {
      LessTransitive(a[1..], b[1..], c[1..]);
    }
  }

  lemma {:induction false} LessTotal(a: string, b: string)
    ensures a == b || Less(a, b) || Less(b, a)
  {
    if a != [] && b != [] && a[0] == b[0] {
      LessTotal(a[1..], b[1..]);
      if a[1..] == b[1..] {
        assert a == [a[0]] + a[1..] && b == [b[0]] + b[1..];
      }
    }
  }

  lemma {:induction false} LessAsymmetric(a: string, b: string)
    requires Less(a, b)
    ensures !Less(b, a)
  {
    if a != [] && b != [] && a[0] == b[0] {
      LessAsymmetric(a[1..], b[1..]);
    }
  }

  function DigitChar(d: nat): char
    requires d < 10
  {
    ('0' as int + d) as char
  }

  /** `str(n)` for a non-negative integer. */
  function NatToString(n: nat): (r: string)
    ensures |r| >= 1
    ensures forall k | 0 <= k < |r| :: '0' <= r[k] <= '9'
  {
    if n < 10 then [DigitChar(n)] else NatToString(n / 10) + [DigitChar(n % 10)]
  }

  /** `int(s)` for a string of decimal digits. */
  function ParseDigits(s: string): nat
    requires forall k | 0 <= k < |s| :: '0' <= s[k] <= '9'
  {
    if s == [] then 0 else 10 * ParseDigits(s[..|s| - 1]) + (s[|s| - 1] as int - '0' as int)
  }

  /** `int(str(n)) == n` */
  lemma {:induction false} NatToStringRoundTrip(n: nat)
    ensures ParseDigits(NatToString(n)) == n
  {
    if n >= 10 {
      NatToStringRoundTrip(n / 10);
      var r := NatToString(n);
      assert r[..|r| - 1] == NatToString(n / 10);
    }
  }
}
