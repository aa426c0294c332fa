/** String primitives of the JavaScript runtime that the elements rely on:
    substring search, `String.prototype.split` with a string separator, the
    character classes of the two regular expressions and the line terminators
    that `.` does not match. */
module Strings {
  import opened Wrappers

  /** `pat` occurs in `s` starting at index `i`. */
  predicate OccursAt(s: string, pat: string, i: nat) {
    i + |pat| <= |s| && s[i..i + |pat|] == pat
  }

  /** `pat` occurs in `s` at `i` and nowhere else. */
  ghost predicate OccursOnlyAt(s: string, pat: string, i: nat) {
    OccursAt(s, pat, i) && forall j: nat :: OccursAt(s, pat, j) ==> j == i
  }

  lemma OccursAtSuffix(s: string, m: nat, pat: string, p: nat)
    requires m <= |s|
    ensures OccursAt(s[m..], pat, p) <==> OccursAt(s, pat, m + p)
  {
    if p + |pat| <= |s| - m {
      assert s[m..][p..p + |pat|] == s[m + p..m + p + |pat|];
    }
  }

  lemma OccursAtPrefix(s: string, m: nat, pat: string, p: nat)
    requires m <= |s|
    ensures OccursAt(s[..m], pat, p) ==> OccursAt(s, pat, p)
  {
    if p + |pat| <= m {
      assert s[..m][p..p + |pat|] == s[p..p + |pat|];
    }
  }

  lemma OccursAtConcat(s: string, a: string, b: string, i: nat)
    ensures OccursAt(s, a + b, i) <==> OccursAt(s, a, i) && OccursAt(s, b, i + |a|)
  {
    if i + |a| + |b| <= |s| {
      var w := s[i..i + |a| + |b|];
      assert w[..|a|] == s[i..i + |a|];
      assert w[|a|..] == s[i + |a|..i + |a| + |b|];
      if w == a + b {
        assert w[..|a|] == a && w[|a|..] == b;
      }
      if s[i..i + |a|] == a && s[i + |a|..i + |a| + |b|] == b {
        assert w == w[..|a|] + w[|a|..];
      }
    }
  }

  /** The first occurrence of `pat` in `s` at or after `i` (`String.prototype.indexOf`). */
  function FindFrom(s: string, pat: string, i: nat): (r: Option<nat>)
    decreases |s| - i
    ensures r.Some? ==> i <= r.value && OccursAt(s, pat, r.value)
    ensures r.Some? ==> forall j: nat :: i <= j < r.value ==> !OccursAt(s, pat, j)
    ensures r.None? ==> forall j: nat :: i <= j ==> !OccursAt(s, pat, j)
  {
    if i + |pat| > |s| then None
    else if OccursAt(s, pat, i) then Some(i)
    else FindFrom(s, pat, i + 1)
  }

  /** `String.prototype.split(sep)` for a non-empty separator: the pieces between
      the occurrences found by scanning from the left, each search resuming after
      the previous occurrence. */
  function Split(s: string, sep: string): (parts: seq<string>)
    requires sep != []
    decreases |s|
    ensures |parts| >= 1
  {
    match FindFrom(s, sep, 0)
    case None => [s]
    case Some(i) => [s[..i]] + Split(s[i + |sep|..], sep)
  }

  /** `Array.prototype.join(sep)`. */
  function Join(parts: seq<string>, sep: string): string {
    if |parts| == 0 then ""
    else if |parts| == 1 then parts[0]
    else parts[0] + sep + Join(parts[1..], sep)
  }

  /** Splitting and joining again with the same separator gives back the string,
      and no piece contains the separator. */
  lemma {:induction false} SplitJoin(s: string, sep: string)
    requires sep != []
    decreases |s|
    ensures Join(Split(s, sep), sep) == s
    ensures forall k, j: nat :: 0 <= k < |Split(s, sep)| ==> !OccursAt(Split(s, sep)[k], sep, j)
  {
    match FindFrom(s, sep, 0)
    case None =>
    case Some(i) =>
      var rest := s[i + |sep|..];
      SplitJoin(rest, sep);
      var parts := Split(s, sep);
      assert parts == [s[..i]] + Split(rest, sep);
      assert parts[1..] == Split(rest, sep);
      assert s == s[..i] + sep + rest by {
        assert s[i..i + |sep|] == sep;
        assert s == s[..i] + s[i..i + |sep|] + s[i + |sep|..];
      }
      forall k, j: nat | 0 <= k < |parts|
        ensures !OccursAt(parts[k], sep, j)
      {
        if k == 0 {
          OccursAtPrefix(s, i, sep, j);
        } else {
          assert parts[k] == Split(rest, sep)[k - 1];
        }
      }
  }

  /** A separator whose first character occurs nowhere else in it: two of its
      occurrences can never overlap. */
  predicate Unbordered(sep: string) {
    sep != [] && forall j :: 0 < j < |sep| ==> sep[j] != sep[0]
  }

  /** The characters of an occurrence, one by one. */
  lemma OccursAtChars(s: string, pat: string, i: nat)
    requires OccursAt(s, pat, i)
    ensures forall m :: i <= m < i + |pat| ==> s[m] == pat[m - i]
  {
    forall m | i <= m < i + |pat| ensures s[m] == pat[m - i] {
      assert s[i..i + |pat|][m - i] == s[m];
    }
  }

  /** Conversely, matching characters make an occurrence. */
  lemma OccursAtByChars(s: string, pat: string, i: nat)
    requires i + |pat| <= |s| && forall m :: 0 <= m < |pat| ==> s[i + m] == pat[m]
    ensures OccursAt(s, pat, i)
  {
    assert s[i..i + |pat|] == pat;
  }

  lemma OccursAtIff(s: string, pat: string, i: nat)
    ensures OccursAt(s, pat, i) <==> i + |pat| <= |s| && forall m :: 0 <= m < |pat| ==> s[i + m] == pat[m]
  {
    if i + |pat| <= |s| {
      if forall m :: 0 <= m < |pat| ==> s[i + m] == pat[m] {
        OccursAtByChars(s, pat, i);
      }
      if OccursAt(s, pat, i) {
        OccursAtChars(s, pat, i);
      }
    }
  }

  lemma OccurrencesApart(s: string, sep: string, i: nat, j: nat)
    requires Unbordered(sep) && OccursAt(s, sep, i) && OccursAt(s, sep, j) && i < j
    ensures i + |sep| <= j
  {
    OccursAtChars(s, sep, i);
    OccursAtChars(s, sep, j);
    assert s[j] == sep[0];
  }

  lemma SplitWithoutSeparator(s: string, sep: string)
    requires sep != [] && forall j: nat :: !OccursAt(s, sep, j)
    ensures Split(s, sep) == [s]
  {
  }

  lemma NothingAfterSingleOccurrence(s: string, sep: string, i: nat, rest: string)
    requires sep != [] && OccursOnlyAt(s, sep, i) && rest == s[i + |sep|..]
    ensures forall p: nat :: !OccursAt(rest, sep, p)
  {
    forall p: nat ensures !OccursAt(rest, sep, p) {
      OccursAtSuffix(s, i + |sep|, sep, p);
    }
  }

  /** A single occurrence splits the text in two around it. */
  lemma SplitSingleOccurrence(s: string, sep: string, i: nat)
    requires sep != [] && OccursOnlyAt(s, sep, i)
    ensures Split(s, sep) == [s[..i], s[i + |sep|..]]
  {
    var r := FindFrom(s, sep, 0);
    assert r.Some? && r.value == i;
    var rest := s[i + |sep|..];
    NothingAfterSingleOccurrence(s, sep, i, rest);
    SplitWithoutSeparator(rest, sep);
  }

  /** A second occurrence, which cannot overlap the first, makes a third piece. */
  lemma SplitSecondOccurrence(s: string, sep: string, j: nat)
    requires Unbordered(sep) && FindFrom(s, sep, 0).Some?
    requires OccursAt(s, sep, j) && j != FindFrom(s, sep, 0).value
    ensures |Split(s, sep)| >= 3
  {
    var i0 := FindFrom(s, sep, 0).value;
    var rest := s[i0 + |sep|..];
    assert Split(s, sep) == [s[..i0]] + Split(rest, sep);
    OccurrencesApart(s, sep, i0, j);
    OccursAtSuffix(s, i0 + |sep|, sep, j - i0 - |sep|);
    assert FindFrom(rest, sep, 0).Some?;
  }

  /** For a separator whose occurrences cannot overlap, `split` yields exactly two
      pieces exactly when the separator occurs exactly once, and then the pieces
      are the text before and after that occurrence. */
  lemma SplitInTwo(s: string, sep: string)
    requires Unbordered(sep)
    ensures |Split(s, sep)| == 2 <==> exists i: nat :: OccursOnlyAt(s, sep, i)
    ensures forall i: nat :: OccursOnlyAt(s, sep, i) ==> Split(s, sep) == [s[..i], s[i + |sep|..]]
  {
    forall i: nat | OccursOnlyAt(s, sep, i) ensures Split(s, sep) == [s[..i], s[i + |sep|..]] {
      SplitSingleOccurrence(s, sep, i);
    }
    match FindFrom(s, sep, 0)
    case None =>
    case Some(i0) =>
      if j: nat :| OccursAt(s, sep, j) && j != i0 {
        SplitSecondOccurrence(s, sep, j);
      } else {
        assert OccursOnlyAt(s, sep, i0);
      }
  }

  /** A text that starts with the separator splits into an empty first piece
      and the pieces of the rest. */
  lemma SplitAtSeparator(sep: string, b: string)
    requires sep != []
    ensures Split(sep + b, sep) == [""] + Split(b, sep)
  {
    assert OccursAt(sep + b, sep, 0) by { assert (sep + b)[..|sep|] == sep; }
    assert (sep + b)[|sep|..] == b;
  }

  /** Searching past a stretch `s[..m]` where no occurrence starts finds what
      the search of the rest finds, shifted by `m` ... */
  lemma FindFromShift(s: string, m: nat, sep: string)
    requires m <= |s| && forall i: nat :: i < m ==> !OccursAt(s, sep, i)
    requires FindFrom(s[m..], sep, 0).Some?
    ensures FindFrom(s, sep, 0) == Some(m + FindFrom(s[m..], sep, 0).value)
  {
    var j := FindFrom(s[m..], sep, 0).value;
    OccursAtSuffix(s, m, sep, j);
    var v := FindFromFirst(s, sep, m + j);
    OccursAtSuffix(s, m, sep, v - m);
    ShiftedNotBefore(s[m..], sep, j, v - m);
  }

  /** The search finds an occurrence at or before any known one. */
  lemma FindFromFirst(s: string, sep: string, k: nat) returns (v: nat)
    requires OccursAt(s, sep, k)
    ensures FindFrom(s, sep, 0) == Some(v) && v <= k
  {
    v := FindFrom(s, sep, 0).value;
  }

  /** No occurrence comes before the first one found. */
  lemma ShiftedNotBefore(b: string, sep: string, j: nat, p: nat)
    requires FindFrom(b, sep, 0) == Some(j) && OccursAt(b, sep, p)
    ensures j <= p
  {
  }

  /** ... and nothing when that finds nothing. */
  lemma FindFromShiftNone(s: string, m: nat, sep: string)
    requires m <= |s| && forall i: nat :: i < m ==> !OccursAt(s, sep, i)
    requires FindFrom(s[m..], sep, 0).None?
    ensures FindFrom(s, sep, 0).None?
  {
    forall i: nat ensures !OccursAt(s, sep, i) {
      if i >= m {
        OccursAtSuffix(s, m, sep, i - m);
      }
    }
  }

  /** A text `a` in which no occurrence of the separator starts is glued to
      the first piece of what follows it. */
  lemma SplitSkip(a: string, b: string, sep: string)
    requires sep != []
    requires forall i: nat :: i < |a| ==> !OccursAt(a + b, sep, i)
    ensures Split(a + b, sep) == [a + Split(b, sep)[0]] + Split(b, sep)[1..]
  {
    var s := a + b;
    assert s[..|a|] == a && s[|a|..] == b;
    SplitShift(s, |a|, sep);
  }

  /** The same, for the stretch `s[..m]`. */
  lemma SplitShift(s: string, m: nat, sep: string)
    requires sep != [] && m <= |s| && forall i: nat :: i < m ==> !OccursAt(s, sep, i)
    ensures Split(s, sep) == [s[..m] + Split(s[m..], sep)[0]] + Split(s[m..], sep)[1..]
  {
    match FindFrom(s[m..], sep, 0)
    case None =>
      FindFromShiftNone(s, m, sep);
      assert s[..m] + s[m..] == s;
    case Some(j) =>
      FindFromShift(s, m, sep);
      SplitShiftFound(s, m, sep, j);
  }

  lemma SplitShiftFound(s: string, m: nat, sep: string, j: nat)
    requires sep != [] && m <= |s|
    requires FindFrom(s, sep, 0) == Some(m + j) && FindFrom(s[m..], sep, 0) == Some(j)
    ensures Split(s, sep) == [s[..m] + Split(s[m..], sep)[0]] + Split(s[m..], sep)[1..]
  {
    var b := s[m..];
    var k := j + |sep|;
    SplitAtFound(s, sep, m + j);
    SplitAtFound(b, sep, j);
    var rest := Split(b[k..], sep);
    assert Split(s, sep) == [s[..m + j]] + rest by {
      assert s[m + j + |sep|..] == b[k..];
    }
    assert s[..m + j] == s[..m] + Split(b, sep)[0];
    assert Split(b, sep)[1..] == rest;
  }

  /** The pieces when the first occurrence is at `i`. */
  lemma SplitAtFound(s: string, sep: string, i: nat)
    requires sep != [] && FindFrom(s, sep, 0) == Some(i)
    ensures Split(s, sep) == [s[..i]] + Split(s[i + |sep|..], sep)
  {
  }

  /** The first piece of a split on one character is the longest prefix free of
      that character (`split(c).shift()`). */
  lemma SplitHead(s: string, c: char)
    ensures var r := Split(s, [c])[0];
      |r| <= |s| && r == s[..|r|] && c !in r && (|r| == |s| || s[|r|] == c)
  {
    var r := Split(s, [c])[0];
    match FindFrom(s, [c], 0)
    case None =>
      forall k | 0 <= k < |s| ensures s[k] != c {
        assert !OccursAt(s, [c], k);
        assert s[k..k + 1] == [s[k]];
      }
    case Some(i) =>
      assert r == s[..i];
      forall k | 0 <= k < i ensures s[k] != c {
        assert !OccursAt(s, [c], k);
        assert s[k..k + 1] == [s[k]];
      }
      assert s[i..i + 1] == [c];
  }

  /** Hence a `c`-free text followed by `c` (or by nothing) is the first piece. */
  lemma SplitHeadOf(v: string, rest: string, c: char)
    requires c !in v && (rest == [] || rest[0] == c)
    ensures Split(v + rest, [c])[0] == v
  {
    var s := v + rest;
    var r := Split(s, [c])[0];
    SplitHead(s, c);
    assert forall k :: 0 <= k < |v| ==> s[k] == v[k] && v[k] != c;
    assert forall k :: 0 <= k < |r| ==> r[k] == s[k] && r[k] != c;
    assert |v| < |s| ==> s[|v|] == c;
    assert |r| == |v|;
  }

  /** The first `c` in `a + [c] + b`, when `a` is free of `c`. */
  lemma FindChar(a: string, c: char, b: string)
    requires c !in a
    ensures FindFrom(a + [c] + b, [c], 0) == Some(|a|)
  {
    var s := a + [c] + b;
    assert OccursAt(s, [c], |a|) by { assert s[|a|..|a| + 1] == [c]; }
    forall k: nat | k < |a| ensures !OccursAt(s, [c], k) {
      assert s[k..k + 1] == [a[k]];
    }
  }

  /** Splitting `a + [c] + b` on `c`, when `a` is free of `c`. */
  lemma SplitAfter(a: string, c: char, b: string)
    requires c !in a
    ensures Split(a + [c] + b, [c]) == [a] + Split(b, [c])
  {
    var s := a + [c] + b;
    FindChar(a, c, b);
    assert s[..|a|] == a;
    assert s[|a| + 1..] == b;
  }

  /** Splitting a text free of `c` on `c` leaves it whole. */
  lemma SplitWithoutChar(a: string, c: char)
    requires c !in a
    ensures Split(a, [c]) == [a]
  {
    forall j: nat ensures !OccursAt(a, [c], j) {
      if j + 1 <= |a| {
        assert a[j..j + 1] == [a[j]];
        assert a[j] != c;
      }
    }
  }

  /** The characters at which `.` stops in a regular expression without the `s` flag. */
  predicate IsLineTerminator(c: char) {
    c == '\n' || c == '\r' || c == '\U{2028}' || c == '\U{2029}'
  }

  /** The length of the first line of `s`: how far `^.*` can reach. */
  function LineEnd(s: string): (n: nat)
    ensures n <= |s|
    ensures forall j :: 0 <= j < n ==> !IsLineTerminator(s[j])
    ensures n < |s| ==> IsLineTerminator(s[n])
  {
    if s == [] || IsLineTerminator(s[0]) then 0
    else 1 + LineEnd(s[1..])
  }

  /** The character classes of the two regular expressions. */
  datatype CharClass =
    | NotIdDelimiter  // [^#\&\?\/]
    | AsciiRangeAz    // [A-z], which also admits [ \ ] ^ _ and the backtick
    | Digit           // [0-9]

  predicate InClass(c: char, k: CharClass) {
    match k
    case NotIdDelimiter => c != '#' && c != '&' && c != '?' && c != '/'
    case AsciiRangeAz => 'A' <= c <= 'z'
    case Digit => '0' <= c <= '9'
  }

  predicate AllInClass(s: string, k: CharClass) {
    forall j :: 0 <= j < |s| ==> InClass(s[j], k)
  }

  /** Where a greedy `[class]*` starting at `i` stops: the end of the longest run. */
  function RunEnd(s: string, i: nat, k: CharClass): (j: nat)
    requires i <= |s|
    decreases |s| - i
    ensures i <= j <= |s|
    ensures forall m :: i <= m < j ==> InClass(s[m], k)
    ensures j == |s| || !InClass(s[j], k)
  {
    if i == |s| || !InClass(s[i], k) then i else RunEnd(s, i + 1, k)
  }

  /** The run is the only one that ends at a character outside the class. */
  lemma RunEndUnique(s: string, i: nat, k: CharClass, j: nat)
    requires i <= j <= |s|
    requires forall m :: i <= m < j ==> InClass(s[m], k)
    requires j == |s| || !InClass(s[j], k)
    ensures RunEnd(s, i, k) == j
  {
  }

  /** Any stretch of class characters from `i` lies inside the longest run. */
  lemma RunEndCovers(s: string, i: nat, k: CharClass, j: nat)
    requires i <= j <= |s|
    requires forall m :: i <= m < j ==> InClass(s[m], k)
    ensures j <= RunEnd(s, i, k)
  {
  }

  /** `String.prototype.length`: the number of UTF-16 code units, two for a
      character outside the Basic Multilingual Plane (above U+FFFF). */
  function Utf16Length(s: string): (n: nat)
    ensures |s| <= n <= 2 * |s|
  {
    if s == [] then 0
    else (if s[0] as int > 0xFFFF then 2 else 1) + Utf16Length(s[1..])
  }

  /** The code units are the characters exactly when none lies above U+FFFF. */
  lemma {:induction false} Utf16LengthOfBmp(s: string)
    ensures Utf16Length(s) == |s| <==> forall i :: 0 <= i < |s| ==> s[i] as int <= 0xFFFF
  {
    if s != [] {
      Utf16LengthOfBmp(s[1..]);
      assert forall i :: 1 <= i < |s| ==> s[i] == s[1..][i - 1];
    }
  }

  /** The code units of a concatenation are those of its parts. */
  lemma {:induction false} Utf16LengthConcat(a: string, b: string)
    ensures Utf16Length(a + b) == Utf16Length(a) + Utf16Length(b)
  {
    if a != [] {
      assert (a + b)[0] == a[0] && (a + b)[1..] == a[1..] + b;
      Utf16LengthConcat(a[1..], b);
    } else {
      assert a + b == b;
    }
  }

  /** `toLowerCase` on the ASCII letters. JavaScript lower-cases every script,
      but no character other than `A` lower-cases to `a`, so the comparison
      with `"a"` comes out the same. */
  function AsciiLower(s: string): (r: string)
    ensures |r| == |s| && forall i :: 0 <= i < |r| ==> !('A' <= r[i] <= 'Z')
  {
    seq(|s|, i requires 0 <= i < |s| => LowerChar(s[i]))
  }

  /** One character in ASCII lower case. */
  function LowerChar(c: char): (l: char)
    ensures !('A' <= l <= 'Z')
    ensures l == c || 'A' <= c <= 'Z'
    ensures 'a' <= l <= 'z' <==> 'a' <= c <= 'z' || 'A' <= c <= 'Z'
  {
    if 'A' <= c <= 'Z' then c - 'A' + 'a' else c
  }

  /** A click target is a link when its tag name lower-cases to `a`: the tag
      is `a` or `A`. */
  lemma LowersToA(tag: string)
    ensures AsciiLower(tag) == "a" <==> tag == "a" || tag == "A"
  {
    if AsciiLower(tag) == "a" {
      assert |tag| == 1;
      assert tag == [tag[0]];
    }
  }
}
