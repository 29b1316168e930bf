/**
 * The handful of Python `str` operations the scraper relies on:
 * `sub in s`, `s.replace(old, new)`, `s.strip()`, `s.split(sep)` and `s.lower()`.
 * Strings are sequences of Unicode scalar values.
 */
module Text {

  /** `p` is a prefix of `s`. */
  predicate IsPrefix(p: string, s: string) {
    |p| <= |s| && s[..|p|] == p
  }

  /** Python's `p in s`: `p` occurs as a contiguous substring of `s`. */
  predicate Contains(s: string, p: string)
    ensures Contains(s, p) ==> |p| <= |s|
    decreases |s|
  {
    IsPrefix(p, s) || (|s| > 0 && Contains(s[1..], p))
  }

  /** `p` occurs in `s` starting at position `i`. */
  predicate OccursAt(s: string, p: string, i: nat) {
    i + |p| <= |s| && s[i..i + |p|] == p
  }

  /** `p in s` holds exactly when `p` is the slice of `s` at some position. */
  lemma {:induction false} ContainsAt(s: string, p: string)
    ensures Contains(s, p) <==> exists i: nat :: OccursAt(s, p, i)
    decreases |s|
  {
    if |s| > 0 {
      ContainsAt(s[1..], p);
      if Contains(s, p) {
        if IsPrefix(p, s) {
          assert OccursAt(s, p, 0);
        } else {
          var i: nat :| OccursAt(s[1..], p, i);
          assert s[1..][i..i + |p|] == s[i + 1..i + 1 + |p|];
          assert OccursAt(s, p, i + 1);
        }
      }
      if exists i: nat :: OccursAt(s, p, i) {
        var i: nat :| OccursAt(s, p, i);
        if i > 0 {
          assert s[1..][i - 1..i - 1 + |p|] == s[i..i + |p|];
          assert OccursAt(s[1..], p, i - 1);
        } else {
          assert IsPrefix(p, s);
        }
      }
    } else if p == [] {
      assert OccursAt(s, p, 0);
    }
  }

  /** A one-character pattern occurs exactly when that character does. */
  lemma {:induction false} ContainsChar(s: string, c: char)
    ensures Contains(s, [c]) <==> c in s
    decreases |s|
  {
    if |s| > 0 {
      ContainsChar(s[1..], c);
      assert s == [s[0]] + s[1..];
    }
  }

  /**
   * Python's `s.replace(p, r)`: scanning left to right, every non-overlapping
   * occurrence of `p` is replaced by `r`; with an empty `p`, `r` is inserted
   * before every character and at the end.
   */
  function Replace(s: string, p: string, r: string): (q: string)
    ensures p != [] && r == [] ==> |q| <= |s|
    decreases |s|
  {
    if p == [] then
      (if s == [] then r else r + [s[0]] + Replace(s[1..], p, r))
    else if |s| < |p| then s
    else if s[..|p|] == p then r + Replace(s[|p|..], p, r)
    else [s[0]] + Replace(s[1..], p, r)
  }

  /** A non-empty pattern that does not occur leaves the text unchanged. */
  lemma {:induction false} ReplaceAbsent(s: string, p: string, r: string)
    requires p != [] && !Contains(s, p)
    ensures Replace(s, p, r) == s
    decreases |s|
  {
    if |s| >= |p| {
      assert !IsPrefix(p, s);
      ReplaceAbsent(s[1..], p, r);
      assert s == [s[0]] + s[1..];
    }
  }

  /** A pattern whose first character is missing from the text does not occur in it. */
  lemma {:induction false} MissingHead(s: string, p: string)
    requires p != [] && p[0] !in s
    ensures !Contains(s, p)
    decreases |s|
  {
    if |s| > 0 {
      assert s[0] != p[0];
      MissingHead(s[1..], p);
    }
  }

  /** An occurrence at the very start is replaced, and the scan resumes after it. */
  lemma ReplaceHead(p: string, s: string, r: string)
    requires p != []
    ensures Replace(p + s, p, r) == r + Replace(s, p, r)
  {
    assert (p + s)[..|p|] == p;
    assert (p + s)[|p|..] == s;
  }

  /** A character that cannot start the pattern is copied, and the scan moves on. */
  lemma ReplaceSkip(c: char, s: string, p: string, r: string)
    requires p != [] && c != p[0]
    ensures Replace([c] + s, p, r) == [c] + Replace(s, p, r)
  {
    assert ([c] + s)[1..] == s;
    if |[c] + s| >= |p| {
      assert ([c] + s)[..|p|][0] == c;
    }
  }

  /** Deleting a pattern keeps the count of every character that is not in the pattern. */
  lemma {:induction false} DeletePattern(s: string, p: string, d: char)
    requires p != [] && d !in p
    ensures multiset(Replace(s, p, ""))[d] == multiset(s)[d]
    decreases |s|
  {
    if |s| >= |p| {
      if s[..|p|] == p {
        DeletePattern(s[|p|..], p, d);
        assert s == s[..|p|] + s[|p|..];
        assert multiset(s[..|p|])[d] == 0;
      } else {
        DeletePattern(s[1..], p, d);
        assert s == [s[0]] + s[1..];
      }
    }
  }

  /** Deleting a single character removes every occurrence of it and keeps every other character. */
  lemma {:induction false} DeleteChar(s: string, c: char, d: char)
    ensures c !in Replace(s, [c], "")
    ensures d != c ==> multiset(Replace(s, [c], ""))[d] == multiset(s)[d]
    ensures d != c && d !in s ==> d !in Replace(s, [c], "")
    decreases |s|
  {
    if |s| >= 1 {
      DeleteChar(s[1..], c, d);
      assert s == [s[0]] + s[1..];
      if s[..1] == [c] {
        assert Replace(s, [c], "") == Replace(s[1..], [c], "");
        assert s[0] == c;
      } else {
        assert Replace(s, [c], "") == [s[0]] + Replace(s[1..], [c], "");
      }
    }
  }

  /** Python's `str.isspace()` for a single character, the set `str.strip()` removes. */
  predicate IsSpace(c: char) {
    c == ' ' || ('\t' <= c <= '\r') || ('\U{1C}' <= c <= '\U{1F}')
    || c == '\U{85}' || c == '\U{A0}' || c == '\U{1680}'
    || ('\U{2000}' <= c <= '\U{200A}') || c == '\U{2028}' || c == '\U{2029}'
    || c == '\U{202F}' || c == '\U{205F}' || c == '\U{3000}'
  }

  /**
   * Which characters count as surrounding whitespace. `str.strip()` removes
   * every `isspace` character. `float` passes ASCII characters through as they
   * are, turns every other `isspace` character into a space, and then strips
   * only ASCII whitespace, so it keeps the four separators U+001C to U+001F.
   */
  datatype Spaces = StrSpaces | FloatSpaces

  predicate IsSpaceIn(w: Spaces, c: char) {
    IsSpace(c) && (w == FloatSpaces ==> !('\U{1C}' <= c <= '\U{1F}'))
  }

  /** Index of the first non-space at or after `i`, or `|s|`. */
  function SkipSpaces(w: Spaces, s: string, i: nat): (k: nat)
    requires i <= |s|
    ensures i <= k <= |s|
    ensures forall m :: i <= m < k ==> IsSpaceIn(w, s[m])
    ensures k < |s| ==> !IsSpaceIn(w, s[k])
    decreases |s| - i
  {
    if i < |s| && IsSpaceIn(w, s[i]) then SkipSpaces(w, s, i + 1) else i
  }

  /** One past the last non-space before `j` and after `lo`, or `lo`. */
  function BackSpaces(w: Spaces, s: string, lo: nat, j: nat): (k: nat)
    requires lo <= j <= |s|
    ensures lo <= k <= j
    ensures forall m :: k <= m < j ==> IsSpaceIn(w, s[m])
    ensures k > lo ==> !IsSpaceIn(w, s[k - 1])
    decreases j
  {
    if j > lo && IsSpaceIn(w, s[j - 1]) then BackSpaces(w, s, lo, j - 1) else j
  }

  /** The text has no leading and no trailing whitespace of the given kind. */
  predicate TrimmedIn(w: Spaces, s: string) {
    |s| > 0 ==> !IsSpaceIn(w, s[0]) && !IsSpaceIn(w, s[|s| - 1])
  }

  /** The text has no leading and no trailing `isspace` character. */
  predicate Trimmed(s: string) {
    TrimmedIn(StrSpaces, s)
  }

  /** Whitespace of the given kind removed from both ends. */
  function StripIn(w: Spaces, s: string): (r: string)
    ensures TrimmedIn(w, r)
  {
    var i := SkipSpaces(w, s, 0);
    var j := BackSpaces(w, s, i, |s|);
    assert j > i ==> !IsSpaceIn(w, s[i]);
    s[i..j]
  }

  /** Python's `s.strip()`: `isspace` characters removed from both ends. */
  function Strip(s: string): (r: string)
    ensures Trimmed(r)
  {
    StripIn(StrSpaces, s)
  }

  /** What stripping removes is whitespace at the two ends, and nothing else. */
  lemma StripSlice(w: Spaces, s: string)
    ensures exists i, j ::
              && 0 <= i <= j <= |s| && StripIn(w, s) == s[i..j]
              && (forall m :: 0 <= m < i ==> IsSpaceIn(w, s[m]))
              && (forall m :: j <= m < |s| ==> IsSpaceIn(w, s[m]))
  {
    var i := SkipSpaces(w, s, 0);
    var j := BackSpaces(w, s, i, |s|);
    assert StripIn(w, s) == s[i..j];
  }

  /** Text that already starts and ends with a non-space is left alone by stripping. */
  lemma StripTrimmed(w: Spaces, s: string)
    requires TrimmedIn(w, s)
    ensures StripIn(w, s) == s
  {
    if |s| > 0 {
      assert SkipSpaces(w, s, 0) == 0;
      assert BackSpaces(w, s, 0, |s|) == |s|;
    }
  }

  /** Text trimmed for `str.strip()` is trimmed for `float` too. */
  lemma TrimmedForFloat(s: string)
    requires Trimmed(s)
    ensures TrimmedIn(FloatSpaces, s)
  {
  }

  /**
   * Python's `s.split(sep)` for a one-character separator: the maximal runs of
   * characters between separators, empty runs included.
   */
  function Split(s: string, sep: char): (parts: seq<string>)
    ensures |parts| > 0
    decreases |s|
  {
    if s == [] then [""]
    else if s[0] == sep then [""] + Split(s[1..], sep)
    else
      var rest := Split(s[1..], sep);
      [[s[0]] + rest[0]] + rest[1..]
  }

  /** There is one part more than there are separators. */
  lemma {:induction false} SplitSize(s: string, sep: char)
    ensures |Split(s, sep)| == multiset(s)[sep] + 1
    decreases |s|
  {
    if s != [] {
      SplitSize(s[1..], sep);
      assert s == [s[0]] + s[1..];
    }
  }

  /** `sep.join(parts)`. */
  function Join(parts: seq<string>, sep: char): string
    requires |parts| > 0
  {
    if |parts| == 1 then parts[0] else parts[0] + [sep] + Join(parts[1..], sep)
  }

  /** Splitting then joining on the same separator gives back the text, and no part holds a separator. */
  lemma {:induction false} SplitJoin(s: string, sep: char)
    ensures Join(Split(s, sep), sep) == s
    ensures forall k :: 0 <= k < |Split(s, sep)| ==> sep !in Split(s, sep)[k]
    decreases |s|
  {
    if s != [] {
      SplitJoin(s[1..], sep);
      var rest := Split(s[1..], sep);
      if s[0] == sep {
        assert Split(s, sep)[1..] == rest;
        assert s == [] + [sep] + s[1..];
      } else {
        var parts := Split(s, sep);
        assert parts[0] == [s[0]] + rest[0];
        if |rest| > 1 {
          assert parts[1..] == rest[1..];
          assert Join(rest, sep) == rest[0] + [sep] + Join(rest[1..], sep);
        }
        assert s == [s[0]] + s[1..];
        forall k | 0 <= k < |parts| ensures sep !in parts[k] {
          if k > 0 { assert parts[k] == rest[k]; }
        }
      }
    }
  }

  /** A separator-free prefix followed by a separator becomes the first part. */
  lemma {:induction false} SplitAfter(a: string, sep: char, b: string)
    requires sep !in a
    ensures Split(a + [sep] + b, sep) == [a] + Split(b, sep)
    decreases |a|
  {
    if a == [] {
      assert a + [sep] + b == [sep] + b;
      assert ([sep] + b)[1..] == b;
    } else {
      var s := a + [sep] + b;
      assert s[1..] == a[1..] + [sep] + b;
      SplitAfter(a[1..], sep, b);
      assert [a[0]] + a[1..] == a;
    }
  }

  /** There is more than one part exactly when the separator occurs. */
  lemma {:induction false} SplitCount(s: string, sep: char)
    ensures |Split(s, sep)| > 1 <==> sep in s
    decreases |s|
  {
    if s != [] {
      SplitCount(s[1..], sep);
      assert s == [s[0]] + s[1..];
    }
  }

  function LowerChar(c: char): char {
    if 'A' <= c <= 'Z' then (c as int + 32) as char else c
  }

  /** `s.lower()` over ASCII letters; every other character is kept. */
  function Lower(s: string): (r: string)
    ensures |r| == |s|
    ensures forall k :: 0 <= k < |r| ==> !('A' <= r[k] <= 'Z')
    ensures forall k :: 0 <= k < |s| ==>
              if 'A' <= s[k] <= 'Z' then r[k] as int == s[k] as int + 32 else r[k] == s[k]
  {
    seq(|s|, k requires 0 <= k < |s| => LowerChar(s[k]))
  }

  /** Lower-casing twice is lower-casing once. */
  lemma LowerIdempotent(s: string)
    ensures Lower(Lower(s)) == Lower(s)
  {
    var once := Lower(s);
    assert forall k :: 0 <= k < |once| ==> Lower(once)[k] == once[k];
  }
}
