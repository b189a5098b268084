/** The few `java.lang.String` and `java.io.File` operations the application
    relies on, on strings of Unicode scalar values.  The separators searched
    for ('=', '.', '/') are single UTF-16 units, so positions found here split
    a string exactly where Java's UTF-16 indices would. */
module JavaString {
  import opened Wrappers

  /** `s.indexOf(c, from)`: the first `c` at or after position `from`, or
      -1 when there is none. */
  function IndexOfFrom(s: string, c: char, from: nat): (i: int)
    requires from <= |s|
    ensures i == -1 || from <= i < |s|
    ensures i == -1 <==> forall k :: from <= k < |s| ==> s[k] != c
    ensures 0 <= i ==> s[i] == c && forall k :: from <= k < i ==> s[k] != c
    decreases |s| - from
  {
    if from == |s| then -1
    else if s[from] == c then from
    else IndexOfFrom(s, c, from + 1)
  }

  /** `s.indexOf(c)`: the position of the first `c`, or -1 when there is none. */
  function IndexOf(s: string, c: char): (i: int)
    ensures -1 <= i < |s|
    ensures i == -1 <==> c !in s
    ensures 0 <= i ==> s[i] == c && c !in s[..i]
  {
    IndexOfFrom(s, c, 0)
  }

  /** `s.lastIndexOf(c, before - 1)`: the last `c` before position
      `before`, or -1 when there is none. */
  function LastIndexOfBefore(s: string, c: char, before: nat): (i: int)
    requires before <= |s|
    ensures -1 <= i < before
    ensures i == -1 <==> forall k :: 0 <= k < before ==> s[k] != c
    ensures 0 <= i ==> s[i] == c && forall k :: i < k < before ==> s[k] != c
    decreases before
  {
    if before == 0 then -1
    else if s[before - 1] == c then before - 1
    else LastIndexOfBefore(s, c, before - 1)
  }

  /** `s.lastIndexOf(c)`: the position of the last `c`, or -1 when there is none. */
  function LastIndexOf(s: string, c: char): (i: int)
    ensures -1 <= i < |s|
    ensures i == -1 <==> c !in s
    ensures 0 <= i ==> s[i] == c && c !in s[i + 1..]
  {
    LastIndexOfBefore(s, c, |s|)
  }

  /** `s.substring(s.lastIndexOf(c) + 1)`: the part of `s` after its last `c`,
      or all of `s` when it holds no `c`.  The result is the longest suffix
      of `s` free of `c`. */
  function AfterLast(s: string, c: char): (r: string)
    ensures |r| <= |s| && r == s[|s| - |r|..]
    ensures c !in r
    ensures |r| == |s| <==> c !in s
    ensures |r| < |s| ==> s[|s| - |r| - 1] == c
  {
    s[LastIndexOf(s, c) + 1..]
  }

  /** Any decomposition `prefix + [c] + suffix` whose suffix is free of `c`
      is the one `AfterLast` finds. */
  lemma AfterLastUnique(s: string, c: char, prefix: string, suffix: string)
    requires s == prefix + [c] + suffix
    requires c !in suffix
    ensures AfterLast(s, c) == suffix
  {
    var r := AfterLast(s, c);
    var k := |s| - |suffix| - 1;
    assert s[k] == c;
    assert s[k + 1..] == suffix;
  }

  /** The text after the last `c` depends only on the part of `s` from
      that `c` on: a longer string ending in `t` gives the same result,
      provided `t` holds a `c`. */
  lemma AfterLastOfSuffix(u: string, t: string, c: char)
    requires c in t
    ensures AfterLast(u + t, c) == AfterLast(t, c)
  {
    var r := AfterLast(t, c);
    var k := |t| - |r| - 1;
    var front := t[..k];
    assert t == front + [c] + r by {
      assert t[k] == c;
      assert t[k + 1..] == r;
    }
    assert u + t == (u + front) + [c] + r;
    AfterLastUnique(u + t, c, u + front, r);
  }

  /** `s.indexOf(c)` followed by the two `substring` calls around it: the
      text before the first `c` and the text after it, or None when `s`
      holds no `c`. */
  function SplitAtFirst(s: string, c: char): (r: Option<(string, string)>)
    ensures r.None? <==> c !in s
    ensures r.Some? ==> s == r.value.0 + [c] + r.value.1 && c !in r.value.0
  {
    var i := IndexOf(s, c);
    if i == -1 then None
    else
      assert s == s[..i] + [c] + s[i + 1..];
      Some((s[..i], s[i + 1..]))
  }

  /** The split is at the FIRST `c`: any decomposition whose left part is
      free of `c` is the one `SplitAtFirst` returns, whatever the right part
      holds (later `c`s included, or nothing at all). */
  lemma SplitAtFirstUnique(s: string, c: char, left: string, right: string)
    requires s == left + [c] + right
    requires c !in left
    ensures SplitAtFirst(s, c) == Some((left, right))
  {
    var i := IndexOf(s, c);
    assert s[|left|] == c;
    assert s[..|left|] == left;
    assert s[..i] == left;
    assert s[i + 1..] == right;
  }

  /** `File.getName()`: the last component of a path, the text after its
      last '/'. */
  function FileName(path: string): (name: string)
    ensures '/' !in name
    ensures |name| <= |path| && name == path[|path| - |name|..]
    ensures |name| == |path| <==> '/' !in path
    ensures |name| < |path| ==> path[|path| - |name| - 1] == '/'
  {
    AfterLast(path, '/')
  }

  predicate IsAsciiLower(c: char) {
    'a' <= c <= 'z'
  }

  predicate IsAsciiUpper(c: char) {
    'A' <= c <= 'Z'
  }

  /** An ASCII lower-case letter's capital. */
  function AsciiUpper(c: char): (u: char)
    requires IsAsciiLower(c)
    ensures IsAsciiUpper(u)
  {
    (c as int - 32) as char
  }

  /** `Character.toUpperCase` on the characters whose upper-case form is an
      ASCII letter: the ASCII lower-case letters, dotless i (U+0131) and
      long s (U+017F).  Every other character is left as it is. */
  function ToUpperCase(c: char): char {
    if IsAsciiLower(c) then AsciiUpper(c)
    else if c == '\U{0131}' then 'I'
    else if c == '\U{017F}' then 'S'
    else c
  }

  /** `Character.toLowerCase` on the characters whose lower-case form is an
      ASCII letter: the ASCII capitals, capital I with dot (U+0130) and the
      Kelvin sign (U+212A).  Every other character is left as it is. */
  function ToLowerCase(c: char): char {
    if IsAsciiUpper(c) then (c as int + 32) as char
    else if c == '\U{0130}' then 'i'
    else if c == '\U{212A}' then 'k'
    else c
  }

  /** The character test of `String.regionMatches` with `ignoreCase`:
      equal, or equal upper-case forms, or equal lower-case forms of the
      upper-case forms. */
  predicate CharsEqualIgnoreCase(a: char, b: char) {
    || a == b
    || ToUpperCase(a) == ToUpperCase(b)
    || ToLowerCase(ToUpperCase(a)) == ToLowerCase(ToUpperCase(b))
  }

  /** The characters that match an ASCII lower-case letter `l` ignoring
      case: the letter, its capital, and for 'i' dotless i and capital I
      with dot, for 's' long s, for 'k' the Kelvin sign. */
  predicate CharMatchesIgnoreCase(c: char, l: char)
    requires IsAsciiLower(l)
  {
    || c == l
    || c == AsciiUpper(l)
    || (l == 'i' && (c == '\U{0131}' || c == '\U{0130}'))
    || (l == 's' && c == '\U{017F}')
    || (l == 'k' && c == '\U{212A}')
  }

  /** Against an ASCII lower-case letter, the test of `regionMatches`
      accepts exactly the characters listed by `CharMatchesIgnoreCase`. */
  lemma CharsEqualIgnoreCaseAgainstLower(c: char, l: char)
    requires IsAsciiLower(l)
    ensures CharsEqualIgnoreCase(c, l) <==> CharMatchesIgnoreCase(c, l)
  {
  }

  predicate AllAsciiLower(t: string) {
    forall i :: 0 <= i < |t| ==> IsAsciiLower(t[i])
  }

  /** `s.equalsIgnoreCase(t)`: equal lengths and every pair of characters
      passes the `regionMatches` test.  For a target in ASCII lower case,
      the characters accepted at each position are exactly the letter, its
      capital and the non-ASCII letters Java folds onto it. */
  function EqualsIgnoreCase(s: string, t: string): (b: bool)
    ensures b ==> |s| == |t|
    ensures AllAsciiLower(t) ==>
      (b <==> |s| == |t| && forall i :: 0 <= i < |s| ==> CharMatchesIgnoreCase(s[i], t[i]))
  {
    if |s| != |t| then false
    else
      assert AllAsciiLower(t) ==> forall i :: 0 <= i < |s| ==>
        (CharsEqualIgnoreCase(s[i], t[i]) <==> CharMatchesIgnoreCase(s[i], t[i])) by {
        if AllAsciiLower(t) {
          forall i | 0 <= i < |s| {
            CharsEqualIgnoreCaseAgainstLower(s[i], t[i]);
          }
        }
      }
      forall i :: 0 <= i < |s| ==> CharsEqualIgnoreCase(s[i], t[i])
  }

  /** The comparison ignores ASCII case position by position: the target
      itself, and the target with any letters capitalised, match. */
  lemma EqualsIgnoreCaseAcceptsCapitals(s: string, t: string)
    requires AllAsciiLower(t)
    requires |s| == |t|
    requires forall i :: 0 <= i < |s| ==> s[i] == t[i] || s[i] == AsciiUpper(t[i])
    ensures EqualsIgnoreCase(s, t)
  {
  }
}
