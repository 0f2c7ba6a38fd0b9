/**
 * The few Python `str` operations the story loader relies on, over `string`:
 * `strip()`, `lower()`, `startswith`, `replace(pat, '')`, `split('\n')`,
 * `'\n'.join(...)`, the `<=` ordering of strings and the least element of
 * `sorted(...)`.
 */
module Text {

  /** The characters for which Python's `str.isspace()` holds, and which `strip()` removes. */
  predicate IsSpace(c: char) {
    ('\t' <= c <= '\r') || ('\U{1C}' <= c <= '\U{1F}') || c == ' '
    || c == '\U{85}' || c == '\U{A0}' || c == '\U{1680}'
    || ('\U{2000}' <= c <= '\U{200A}') || c == '\U{2028}' || c == '\U{2029}'
    || c == '\U{202F}' || c == '\U{205F}' || c == '\U{3000}'
  }

  /** Drops the leading white space of `s` (Python `lstrip()`). */
  function StripStart(s: string): string {
    if s != [] && IsSpace(s[0]) then StripStart(s[1..]) else s
  }

  /** Drops the trailing white space of `s` (Python `rstrip()`). */
  function StripEnd(s: string): string {
    if s != [] && IsSpace(s[|s| - 1]) then StripEnd(s[..|s| - 1]) else s
  }

  /** Python `s.strip()`: white space removed at both ends. */
  function Strip(s: string): string {
    StripEnd(StripStart(s))
  }

  /** `lstrip()` keeps a suffix that starts with a non-space and removes only white space. */
  lemma {:induction false} StripStartFacts(s: string)
    ensures var r := StripStart(s);
      && |r| <= |s| && r == s[|s| - |r|..]
      && (r != [] ==> !IsSpace(r[0]))
      && forall k :: 0 <= k < |s| - |r| ==> IsSpace(s[k])
    decreases |s|
  {
    if s != [] && IsSpace(s[0]) {
      StripStartFacts(s[1..]);
    }
  }

  /** `rstrip()` keeps a prefix that ends with a non-space and removes only white space. */
  lemma {:induction false} StripEndFacts(s: string)
    ensures var r := StripEnd(s);
      && |r| <= |s| && r == s[..|r|]
      && (r != [] ==> !IsSpace(r[|r| - 1]))
      && forall k :: |r| <= k < |s| ==> IsSpace(s[k])
    decreases |s|
  {
    if s != [] && IsSpace(s[|s| - 1]) {
      StripEndFacts(s[..|s| - 1]);
    }
  }

  /**
   * `strip()` leaves no white space at either end, and yields the empty string
   * exactly when every character is white space.
   */
  lemma StripFacts(s: string)
    ensures var r := Strip(s);
      && (r != [] ==> !IsSpace(r[0]) && !IsSpace(r[|r| - 1]))
      && (r == [] <==> forall k :: 0 <= k < |s| ==> IsSpace(s[k]))
  {
    var t := StripStart(s);
    StripStartFacts(s);
    StripEndFacts(t);
    var r := StripEnd(t);
    if r != [] {
      assert r[0] == t[0] == s[|s| - |t|];
    }
  }

  /** A string with no white space at either end is its own strip. */
  lemma StripUnchanged(s: string)
    requires s == [] || (!IsSpace(s[0]) && !IsSpace(s[|s| - 1]))
    ensures Strip(s) == s
  {
  }

  /** Leading white space does not change the strip. */
  lemma StripLeadingSpace(c: char, s: string)
    requires IsSpace(c)
    ensures Strip([c] + s) == Strip(s)
  {
    assert ([c] + s)[1..] == s;
  }

  /** Stripping twice is stripping once. */
  lemma StripIdempotent(s: string)
    ensures Strip(Strip(s)) == Strip(s)
  {
    StripFacts(s);
    StripUnchanged(Strip(s));
  }

  /** The one-character case of `lower()`, for ASCII letters only. */
  function LowerChar(c: char): char {
    if 'A' <= c <= 'Z' then (c as int + 32) as char else c
  }

  /** Python `s.lower()`, approximated on ASCII: it maps character by character. */
  function Lower(s: string): (r: string)
    ensures |r| == |s|
  {
    seq(|s|, i requires 0 <= i < |s| => LowerChar(s[i]))
  }

  /** Lower-casing leaves no capital ASCII letter and changes no other character. */
  lemma LowerFacts(s: string)
    ensures forall i :: 0 <= i < |s| ==> !('A' <= Lower(s)[i] <= 'Z')
    ensures forall i :: 0 <= i < |s| && !('A' <= s[i] <= 'Z') ==> Lower(s)[i] == s[i]
  {
  }

  /** Python `s.startswith(prefix)`. */
  predicate StartsWith(s: string, prefix: string) {
    |prefix| <= |s| && s[..|prefix|] == prefix
  }

  /** `pat` occurs in `s` at index `i`. */
  predicate OccursAt(s: string, pat: string, i: int) {
    0 <= i && i + |pat| <= |s| && s[i..i + |pat|] == pat
  }

  /**
   * Python `s.replace(pat, '')`: every occurrence of `pat`, found left to
   * right without overlap, is deleted.
   */
  function RemoveAll(s: string, pat: string): (r: string)
    requires pat != []
    ensures |r| <= |s|
    decreases |s|
  {
    if |s| < |pat| then s
    else if s[..|pat|] == pat then RemoveAll(s[|pat|..], pat)
    else [s[0]] + RemoveAll(s[1..], pat)
  }

  /** A string in which `pat` does not occur is left as it is. */
  lemma {:induction false} RemoveAllUnchanged(s: string, pat: string)
    requires pat != []
    requires forall i :: !OccursAt(s, pat, i)
    ensures RemoveAll(s, pat) == s
    decreases |s|
  {
    if |s| >= |pat| {
      assert !OccursAt(s, pat, 0);
      forall i | OccursAt(s[1..], pat, i) ensures OccursAt(s, pat, i + 1) {
        assert s[i + 1..i + 1 + |pat|] == s[1..][i..i + |pat|];
      }
      RemoveAllUnchanged(s[1..], pat);
    }
  }

  /** An occurrence of `pat` at the front is deleted. */
  lemma RemoveAllDrop(s: string, pat: string)
    requires pat != [] && StartsWith(s, pat)
    ensures RemoveAll(s, pat) == RemoveAll(s[|pat|..], pat)
  {
  }

  /** A first character that does not begin an occurrence of `pat` is kept. */
  lemma RemoveAllKeep(s: string, pat: string)
    requires pat != [] && s != [] && !StartsWith(s, pat)
    ensures RemoveAll(s, pat) == [s[0]] + RemoveAll(s[1..], pat)
  {
  }

  /** Concatenation is associative. */
  lemma ConcatAssoc(a: string, b: string, c: string)
    ensures a + (b + c) == (a + b) + c
  {
  }

  /** The first character of `pat` occurs nowhere else in it, so no two occurrences can overlap. */
  predicate HeadUnique(pat: string) {
    pat != [] && pat[0] !in pat[1..]
  }

  /**
   * Removal before an occurrence of a pattern whose first character is
   * unique: no occurrence straddles the boundary, so the part before it and
   * the part from it on lose their occurrences independently.
   */
  lemma {:induction false} RemoveAllBefore(x: string, pat: string, t: string)
    requires HeadUnique(pat) && StartsWith(t, pat)
    ensures RemoveAll(x + t, pat) == RemoveAll(x, pat) + RemoveAll(t, pat)
    decreases |x|, 1
  {
    if x == [] {
      assert x + t == t;
    } else if |x| >= |pat| && StartsWith(x, pat) {
      RemoveAllBeforeDrop(x, pat, t);
    } else {
      RemoveAllBeforeKeep(x, pat, t);
    }
  }

  /** `RemoveAllBefore` when `x` starts with the pattern. */
  lemma {:induction false} RemoveAllBeforeDrop(x: string, pat: string, t: string)
    requires HeadUnique(pat) && StartsWith(t, pat) && StartsWith(x, pat)
    ensures RemoveAll(x + t, pat) == RemoveAll(x, pat) + RemoveAll(t, pat)
    decreases |x|, 0
  {
    DropBefore(x, pat, t);
    RemoveAllBefore(x[|pat|..], pat, t);
  }

  /** `RemoveAllBefore` when `x` is not empty and does not start with the pattern. */
  lemma {:induction false} RemoveAllBeforeKeep(x: string, pat: string, t: string)
    requires HeadUnique(pat) && StartsWith(t, pat)
    requires x != [] && !(|x| >= |pat| && StartsWith(x, pat))
    ensures RemoveAll(x + t, pat) == RemoveAll(x, pat) + RemoveAll(t, pat)
    decreases |x|, 0
  {
    NoStartBefore(x, pat, t);
    KeepBefore(x, pat, t);
    calc {
      RemoveAll(x + t, pat);
      [x[0]] + RemoveAll(x[1..] + t, pat);
      { RemoveAllBefore(x[1..], pat, t); }
      [x[0]] + (RemoveAll(x[1..], pat) + RemoveAll(t, pat));
      { ConcatAssoc([x[0]], RemoveAll(x[1..], pat), RemoveAll(t, pat)); }
      ([x[0]] + RemoveAll(x[1..], pat)) + RemoveAll(t, pat);
      RemoveAll(x, pat) + RemoveAll(t, pat);
    }
  }

  /** An occurrence at the front of `x` is deleted from both `x` and `x + t`. */
  lemma DropBefore(x: string, pat: string, t: string)
    requires pat != [] && StartsWith(x, pat)
    ensures RemoveAll(x + t, pat) == RemoveAll(x[|pat|..] + t, pat)
    ensures RemoveAll(x, pat) == RemoveAll(x[|pat|..], pat)
  {
    assert (x + t)[..|pat|] == x[..|pat|];
    assert (x + t)[|pat|..] == x[|pat|..] + t;
    RemoveAllDrop(x + t, pat);
    RemoveAllDrop(x, pat);
  }

  /** A first character of `x` that begins an occurrence neither in `x` nor in `x + t` is kept in both. */
  lemma KeepBefore(x: string, pat: string, t: string)
    requires pat != [] && x != []
    requires !StartsWith(x, pat) && !StartsWith(x + t, pat)
    ensures RemoveAll(x + t, pat) == [x[0]] + RemoveAll(x[1..] + t, pat)
    ensures RemoveAll(x, pat) == [x[0]] + RemoveAll(x[1..], pat)
  {
    assert (x + t)[1..] == x[1..] + t;
    RemoveAllKeep(x + t, pat);
    RemoveAllKeep(x, pat);
  }

  /**
   * When `t` starts with a head-unique pattern and `x` does not, no
   * occurrence starts at the front of `x + t` either.
   */
  lemma NoStartBefore(x: string, pat: string, t: string)
    requires HeadUnique(pat) && StartsWith(t, pat)
    requires x != [] && !(|x| >= |pat| && StartsWith(x, pat))
    ensures !StartsWith(x + t, pat)
  {
    if |x| >= |pat| {
      assert (x + t)[..|pat|] == x[..|pat|];
    } else if |pat| <= |x + t| {
      var k := |x|;
      assert (x + t)[k] == t[0];
      assert t[0] == t[..|pat|][0];
      assert pat[k] == pat[1..][k - 1];
      assert (x + t)[..|pat|][k] != pat[k];
    }
  }

  /** No line of a split text contains the separator. */
  predicate NoNewline(s: string) {
    forall k :: 0 <= k < |s| ==> s[k] != '\n'
  }

  /** The index of the first `'\n'` in `s`, or `|s|` when there is none. */
  function FindNewline(s: string): (i: nat)
    ensures i <= |s|
    ensures i < |s| ==> s[i] == '\n'
    ensures NoNewline(s[..i])
  {
    if s == [] then 0
    else if s[0] == '\n' then 0
    else 1 + FindNewline(s[1..])
  }

  /** Python `'\n'.join(lines)`. */
  function Join(lines: seq<string>): string {
    if |lines| == 0 then ""
    else if |lines| == 1 then lines[0]
    else lines[0] + "\n" + Join(lines[1..])
  }

  /** Python `s.split('\n')`: the pieces between separators, at least one. */
  function Split(s: string): (lines: seq<string>)
    ensures |lines| >= 1
    ensures forall k :: 0 <= k < |lines| ==> NoNewline(lines[k])
    ensures Join(lines) == s
    decreases |s|
  {
    var i := FindNewline(s);
    if i == |s| then
      assert s[..i] == s;
      [s]
    else
      var rest := Split(s[i + 1..]);
      assert s == s[..i] + "\n" + s[i + 1..];
      [s[..i]] + rest
  }

  /** Splitting a joined text gives the lines back, when no line contains the separator. */
  lemma {:induction false} SplitJoin(lines: seq<string>)
    requires |lines| >= 1
    requires forall k :: 0 <= k < |lines| ==> NoNewline(lines[k])
    ensures Split(Join(lines)) == lines
    decreases |lines|
  {
    if |lines| == 1 {
      assert FindNewline(lines[0]) == |lines[0]|;
    } else {
      var s := Join(lines);
      var head := lines[0];
      assert s == head + "\n" + Join(lines[1..]);
      var i := FindNewline(s);
      assert i == |head| by {
        assert s[|head|] == '\n';
        assert forall k :: 0 <= k < |head| ==> s[k] == head[k];
      }
      assert s[..i] == head;
      assert s[i + 1..] == Join(lines[1..]);
      SplitJoin(lines[1..]);
    }
  }

  /** A joined text starts with its first line. */
  lemma JoinStartsWith(lines: seq<string>)
    requires |lines| >= 1
    ensures |lines[0]| <= |Join(lines)| && Join(lines)[..|lines[0]|] == lines[0]
  {
  }

  /** Joining splits at any line boundary. */
  lemma {:induction false} JoinAt(lines: seq<string>, k: nat)
    requires 0 < k < |lines|
    ensures Join(lines) == Join(lines[..k]) + "\n" + Join(lines[k..])
    decreases k
  {
    if k > 1 {
      JoinAt(lines[1..], k - 1);
      assert lines[1..][..k - 1] == lines[..k][1..];
      assert lines[1..][k - 1..] == lines[k..];
    }
  }

  /** Python's `a <= b` on strings: lexicographic by code point, a prefix first. */
  predicate LexLe(a: string, b: string)
    decreases |a|
  {
    a == [] || (b != [] && (a[0] < b[0] || (a[0] == b[0] && LexLe(a[1..], b[1..]))))
  }

  lemma {:induction false} LexLeReflexive(a: string)
    ensures LexLe(a, a)
    decreases |a|
  {
    if a != [] {
      LexLeReflexive(a[1..]);
    }
  }

  lemma {:induction false} LexLeTotal(a: string, b: string)
    ensures LexLe(a, b) || LexLe(b, a)
    decreases |a|
  {
    if a != [] && b != [] && a[0] == b[0] {
      LexLeTotal(a[1..], b[1..]);
    }
  }

  lemma {:induction false} LexLeTransitive(a: string, b: string, c: string)
    requires LexLe(a, b) && LexLe(b, c)
    ensures LexLe(a, c)
    decreases |a|
  {
    if a != [] && a[0] == b[0] && b[0] == c[0] {
      LexLeTransitive(a[1..], b[1..], c[1..]);
    }
  }

  lemma {:induction false} LexLeAntisymmetric(a: string, b: string)
    requires LexLe(a, b) && LexLe(b, a)
    ensures a == b
    decreases |a|
  {
    if a != [] {
      LexLeAntisymmetric(a[1..], b[1..]);
      assert a == [a[0]] + a[1..] && b == [b[0]] + b[1..];
    }
  }

  /** `sorted(names)[0]`: the least string of a non-empty sequence. */
  function Smallest(names: seq<string>): (m: string)
    requires |names| > 0
    ensures m in names
    ensures forall x :: x in names ==> LexLe(m, x)
    decreases |names|
  {
    if |names| == 1 then
      LexLeReflexive(names[0]);
      names[0]
    else
      var rest := Smallest(names[1..]);
      LexLeTotal(names[0], rest);
      if LexLe(names[0], rest) then
        assert forall x :: x in names[1..] ==> LexLe(names[0], x) by {
          forall x | x in names[1..] ensures LexLe(names[0], x) {
            LexLeTransitive(names[0], rest, x);
          }
        }
        LexLeReflexive(names[0]);
        assert names == [names[0]] + names[1..];
        names[0]
      else
        assert names == [names[0]] + names[1..];
        rest
  }

  /** The least string is the only one below every other. */
  lemma SmallestUnique(names: seq<string>, m: string)
    requires |names| > 0 && m in names
    requires forall x :: x in names ==> LexLe(m, x)
    ensures m == Smallest(names)
  {
    LexLeAntisymmetric(m, Smallest(names));
  }
}
