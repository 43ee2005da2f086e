/** The Python `str` and `list` built-ins that the description composer relies
    on: `strip`, `rfind`, `split`, `join`, `replace`, `endswith` and
    `list.insert`, each as a pure function over `seq<char>` with the
    properties the composer needs proved about it. */
module Text {

  /** Python 3's `str.isspace()` for one code point: the characters that
      `str.strip()` with no argument removes. */
  predicate IsSpace(c: char) {
    || ('\t' <= c <= '\r')
    || ('\U{1C}' <= c <= ' ')
    || c == '\U{85}' || c == '\U{A0}' || c == '\U{1680}'
    || ('\U{2000}' <= c <= '\U{200A}')
    || c == '\U{2028}' || c == '\U{2029}' || c == '\U{202F}' || c == '\U{205F}'
    || c == '\U{3000}'
  }

  ghost predicate AllSpace(s: string) {
    forall i :: 0 <= i < |s| ==> IsSpace(s[i])
  }

  /** `t` occurs in `s` as a contiguous substring (Python's `t in s`). */
  ghost predicate Contains(s: string, t: string) {
    exists i :: 0 <= i <= |s| && t <= s[i..]
  }

  /** `s.endswith(suffix)` */
  predicate EndsWith(s: string, suffix: string) {
    |suffix| <= |s| && s[|s| - |suffix|..] == suffix
  }

  /** The index of the first non-whitespace character of `s` at or after
      `from`, or `|s|` when there is none. */
  function SkipSpace(s: string, from: nat): (i: nat)
    requires from <= |s|
    ensures from <= i <= |s|
    ensures forall k :: from <= k < i ==> IsSpace(s[k])
    ensures i < |s| ==> !IsSpace(s[i])
    decreases |s| - from
  {
    if from < |s| && IsSpace(s[from]) then SkipSpace(s, from + 1) else from
  }

  /** The index just after the last non-whitespace character of `s` before
      `hi` and not before `lo`, or `lo` when there is none. */
  function SkipSpaceBack(s: string, lo: nat, hi: nat): (j: nat)
    requires lo <= hi <= |s|
    ensures lo <= j <= hi
    ensures forall k :: j <= k < hi ==> IsSpace(s[k])
    ensures j > lo ==> !IsSpace(s[j - 1])
    decreases hi
  {
    if lo < hi && IsSpace(s[hi - 1]) then SkipSpaceBack(s, lo, hi - 1) else hi
  }

  /** `s.strip()`: `s` without the whitespace at either end. The result is
      the infix of `s` between the first and the last non-whitespace
      character, and only whitespace surrounds it. */
  function Strip(s: string): (r: string)
    ensures r == [] <==> AllSpace(s)
    ensures r != [] ==> !IsSpace(r[0]) && !IsSpace(r[|r| - 1])
    ensures var i := SkipSpace(s, 0);
      && i + |r| <= |s| && r == s[i..i + |r|]
      && (forall k :: 0 <= k < i ==> IsSpace(s[k]))
      && (forall k :: i + |r| <= k < |s| ==> IsSpace(s[k]))
  {
    var i := SkipSpace(s, 0);
    var j := SkipSpaceBack(s, i, |s|);
    s[i..j]
  }

  /** `s.rfind(c)`: the index of the last occurrence of `c`, or -1. */
  function RFind(s: string, c: char): (i: int)
    ensures -1 <= i < |s|
    ensures i == -1 <==> c !in s
    ensures 0 <= i ==> s[i] == c && c !in s[i + 1..]
  {
    if s == [] then -1
    else if s[|s| - 1] == c then |s| - 1
    else
      var i := RFind(s[..|s| - 1], c);
      assert s == s[..|s| - 1] + [s[|s| - 1]];
      assert 0 <= i ==> s[i + 1..] == s[..|s| - 1][i + 1..] + [s[|s| - 1]];
      i
  }

  /** `s.split(sep)` for a non-empty separator: cut `s` at every occurrence of
      `sep`, scanning left to right without overlap. */
  function Split(s: string, sep: string): (parts: seq<string>)
    requires sep != []
    ensures |parts| >= 1 && parts[0] <= s
    decreases |s|
  {
    if |s| < |sep| then [s]
    else if s[..|sep|] == sep then [""] + Split(s[|sep|..], sep)
    else
      var rest := Split(s[1..], sep);
      assert [s[0]] + rest[0] == s[..|rest[0]| + 1];
      [[s[0]] + rest[0]] + rest[1..]
  }

  /** `sep.join(parts)` */
  function Join(parts: seq<string>, sep: string): string {
    if |parts| == 0 then ""
    else if |parts| == 1 then parts[0]
    else parts[0] + sep + Join(parts[1..], sep)
  }

  /** `s.replace(pat, rep)` for a non-empty pattern: every occurrence found by
      the same left-to-right scan as `split` is replaced. */
  function Replace(s: string, pat: string, rep: string): string
    requires pat != []
  {
    Join(Split(s, pat), rep)
  }

  /** `xs.insert(i, x)` for an index within the list. */
  function InsertAt(xs: seq<string>, i: nat, x: string): (r: seq<string>)
    requires i <= |xs|
    ensures |r| == |xs| + 1 && r[i] == x
    ensures r[..i] == xs[..i] && r[i + 1..] == xs[i..]
    ensures multiset(r) == multiset(xs) + multiset{x}
  {
    assert xs == xs[..i] + xs[i..];
    xs[..i] + [x] + xs[i..]
  }

  /** Splitting and joining back with the same separator gives the input back. */
  lemma {:induction false} JoinSplit(s: string, sep: string)
    requires sep != []
    ensures Join(Split(s, sep), sep) == s
    decreases |s|
  {
    if |s| < |sep| {
    } else if s[..|sep|] == sep {
      var rest := Split(s[|sep|..], sep);
      assert Split(s, sep) == [""] + rest;
      JoinSplit(s[|sep|..], sep);
      JoinFront("", rest, sep);
      assert s == s[..|sep|] + s[|sep|..];
    } else {
      var rest := Split(s[1..], sep);
      assert Split(s, sep) == [[s[0]] + rest[0]] + rest[1..];
      JoinSplit(s[1..], sep);
      JoinGlue(s[0], rest, sep);
      assert s == [s[0]] + s[1..];
    }
  }

  /** Joining a part in front of a non-empty list adds it and one separator. */
  lemma JoinFront(x: string, parts: seq<string>, sep: string)
    requires parts != []
    ensures Join([x] + parts, sep) == x + sep + Join(parts, sep)
  {
    assert ([x] + parts)[1..] == parts;
  }

  /** A character glued to the front of the first part lands in front of the
      joined text. */
  lemma JoinGlue(c: char, parts: seq<string>, sep: string)
    requires parts != []
    ensures Join([[c] + parts[0]] + parts[1..], sep) == [c] + Join(parts, sep)
  {
    if |parts| > 1 {
      JoinFront([c] + parts[0], parts[1..], sep);
      JoinFront(parts[0], parts[1..], sep);
      assert [parts[0]] + parts[1..] == parts;
    }
  }

  /** `s.split(sep)` yields more than one part exactly when `sep` occurs in `s`. */
  lemma {:induction false} SplitManyIffContains(s: string, sep: string)
    requires sep != []
    ensures |Split(s, sep)| > 1 <==> Contains(s, sep)
    decreases |s|
  {
    if |s| < |sep| {
      assert !Contains(s, sep);
    } else if s[..|sep|] == sep {
      assert sep <= s[0..];
      assert |Split(s, sep)| == 1 + |Split(s[|sep|..], sep)|;
    } else {
      SplitManyIffContains(s[1..], sep);
      if Contains(s, sep) {
        var i :| 0 <= i <= |s| && sep <= s[i..];
        assert i != 0;
        assert s[1..][i - 1..] == s[i..];
      }
      if Contains(s[1..], sep) {
        var i :| 0 <= i <= |s[1..]| && sep <= s[1..][i..];
        assert s[i + 1..] == s[1..][i..];
      }
    }
  }

  /** No part of `s.split(sep)` holds `sep`: the text is cut at every
      occurrence, and together with `JoinSplit` this fixes the parts. */
  lemma {:induction false} SplitPartsFree(s: string, sep: string)
    requires sep != []
    ensures forall k :: 0 <= k < |Split(s, sep)| ==> !Contains(Split(s, sep)[k], sep)
    decreases |s|
  {
    var parts := Split(s, sep);
    if |s| < |sep| {
      assert !Contains(s, sep);
    } else if s[..|sep|] == sep {
      var rest := Split(s[|sep|..], sep);
      SplitPartsFree(s[|sep|..], sep);
      assert !Contains("", sep);
      forall k | 0 <= k < |parts| ensures !Contains(parts[k], sep) {
        if k > 0 {
          assert parts[k] == rest[k - 1];
        }
      }
    } else {
      var rest := Split(s[1..], sep);
      SplitPartsFree(s[1..], sep);
      var first := [s[0]] + rest[0];
      assert first == s[..|first|];
      forall i | 0 <= i <= |first| ensures !(sep <= first[i..]) {
        if i == 0 {
          if |sep| <= |first| {
            assert first[..|sep|] == s[..|sep|];
          }
        } else {
          assert first[i..] == rest[0][i - 1..];
        }
      }
      forall k | 0 <= k < |parts| ensures !Contains(parts[k], sep) {
        if k > 0 {
          assert parts[k] == rest[k];
        }
      }
    }
  }

  /** A string that does not hold the first character of the separator is
      not cut at all. */
  lemma {:induction false} SplitNoSep(s: string, sep: string)
    requires sep != [] && sep[0] !in s
    ensures Split(s, sep) == [s]
    decreases |s|
  {
    if |s| >= |sep| {
      assert s[..|sep|][0] == s[0];
      SplitNoSep(s[1..], sep);
      assert [s[0]] + s[1..] == s;
    }
  }

  /** Replacing a pattern that does not occur leaves the string as it was. */
  lemma ReplaceAbsent(s: string, pat: string, rep: string)
    requires pat != [] && !Contains(s, pat)
    ensures Replace(s, pat, rep) == s
  {
    SplitManyIffContains(s, pat);
    JoinSplit(s, pat);
  }

  /** Removing a pattern from a string that starts with it drops that leading
      copy and treats the rest on its own. */
  lemma RemoveLeading(pat: string, s: string)
    requires pat != []
    ensures Replace(pat + s, pat, "") == Replace(s, pat, "")
  {
    assert (pat + s)[..|pat|] == pat;
    assert (pat + s)[|pat|..] == s;
    var rest := Split(s, pat);
    assert Split(pat + s, pat) == [""] + rest;
    assert ([""] + rest)[1..] == rest;
  }

  /** `strip` leaves a string alone when it neither begins nor ends with
      whitespace. */
  lemma StripUnchanged(s: string)
    requires s != [] && !IsSpace(s[0]) && !IsSpace(s[|s| - 1])
    ensures Strip(s) == s
  {
    assert s[0..|s|] == s;
  }

  /** A string that begins with a non-blank character keeps, through `strip`,
      every prefix that also ends with a non-blank character. */
  lemma StripKeepsPrefix(f: string, t: string)
    requires f != [] && !IsSpace(f[0]) && !IsSpace(f[|f| - 1])
    ensures f <= Strip(f + t)
  {
    var s := f + t;
    assert s[0] == f[0] && s[|f| - 1] == f[|f| - 1];
    var j := SkipSpaceBack(s, 0, |s|);
    assert s[0..j][..|f|] == f;
  }

  /** A string that ends with a non-blank character keeps, through `strip`,
      every suffix that also begins with a non-blank character. */
  lemma StripKeepsSuffix(t: string, f: string)
    requires f != [] && !IsSpace(f[0]) && !IsSpace(f[|f| - 1])
    ensures EndsWith(Strip(t + f), f)
  {
    var s := t + f;
    assert s[|t|] == f[0] && s[|s| - 1] == f[|f| - 1];
    var i := SkipSpace(s, 0);
    assert s[i..|s|][|s| - i - |f|..] == f;
  }
}
