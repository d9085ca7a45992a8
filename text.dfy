/**
 * Character classes and string primitives of the JavaScript runtime that the
 * resume analyser relies on: the `\s` class of regular expressions (which is
 * also what `String.prototype.trim` removes), ASCII case folding under the `i`
 * flag, `trim`, `split(/\r?\n/)` and `join`.
 *
 * Text is a sequence of characters; the source's strings are UTF-16, which only
 * matters for characters outside the Basic Multilingual Plane.
 */
module Text {

  datatype Option<T> = None | Some(value: T)

  function Min(a: nat, b: nat): nat {
    if a <= b then a else b
  }

  /** `\s` in a JavaScript regular expression: WhiteSpace and LineTerminator. */
  predicate IsJsSpace(c: char) {
    c == '\t' || c == '\n' || c == '\U{B}' || c == '\U{C}' || c == '\r' || c == ' ' ||
    c == '\U{A0}' || c == '\U{1680}' || ('\U{2000}' <= c <= '\U{200A}') ||
    c == '\U{2028}' || c == '\U{2029}' || c == '\U{202F}' || c == '\U{205F}' ||
    c == '\U{3000}' || c == '\U{FEFF}'
  }

  /** The class `[ \t]`. */
  predicate IsBlank(c: char) {
    c == ' ' || c == '\t'
  }

  /** The class `[ \t\r\n]` of the `github . com` rewrites. */
  predicate IsGap(c: char) {
    c == ' ' || c == '\t' || c == '\r' || c == '\n'
  }

  /** The class `[^\s\n\r]`, which is `[^\s]`. */
  predicate IsNotSpace(c: char) {
    !IsJsSpace(c)
  }

  /** The class `[^\n\r]`. */
  predicate IsInLine(c: char) {
    c != '\n' && c != '\r'
  }

  /** The class `[A-Za-z0-9]`. */
  predicate IsAlnum(c: char) {
    ('A' <= c <= 'Z') || ('a' <= c <= 'z') || ('0' <= c <= '9')
  }

  /** The class `[A-Za-z0-9-]` of GitHub logins. */
  predicate IsLoginChar(c: char) {
    IsAlnum(c) || c == '-'
  }

  /** U+200B, U+200C, U+200D and U+FEFF, which the normaliser strips. */
  predicate IsZeroWidth(c: char) {
    c == '\U{200B}' || c == '\U{200C}' || c == '\U{200D}' || c == '\U{FEFF}'
  }

  /**
   * Case folding under the `i` flag, restricted to what the patterns need: without
   * the `u` flag no non-ASCII character folds onto an ASCII one, so only A-Z move.
   */
  function Lower(c: char): (r: char)
    ensures 'A' <= c <= 'Z' ==> r as int == c as int + 32
    ensures !('A' <= c <= 'Z') ==> r == c
  {
    if 'A' <= c <= 'Z' then (c as int + 32) as char else c
  }

  /** The lower-case literal `lit` occurs at position `p` of `t`, ignoring ASCII case. */
  predicate MatchesAt(t: string, p: nat, lit: string)
    decreases |lit|
  {
    if lit == [] then p <= |t|
    else p < |t| && Lower(t[p]) == lit[0] && MatchesAt(t, p + 1, lit[1..])
  }

  lemma {:induction false} MatchesAtBounds(t: string, p: nat, lit: string)
    requires MatchesAt(t, p, lit)
    ensures p + |lit| <= |t|
    ensures forall i :: 0 <= i < |lit| ==> Lower(t[p + i]) == lit[i]
    decreases |lit|
  {
    if lit != [] {
      MatchesAtBounds(t, p + 1, lit[1..]);
      forall i | 0 <= i < |lit| ensures Lower(t[p + i]) == lit[i] {
        if i > 0 {
          assert lit[1..][i - 1] == lit[i];
        }
      }
    }
  }

  /** A match of `lit` fits in the text. */
  lemma MatchesAtFits(t: string, p: nat, lit: string)
    requires MatchesAt(t, p, lit)
    ensures p + |lit| <= |t|
  {
    MatchesAtBounds(t, p, lit);
  }

  /** Conversely, characters that fold onto `lit` one by one match it. */
  lemma {:induction false} MatchesAtChars(t: string, p: nat, lit: string)
    requires p + |lit| <= |t|
    requires forall i :: 0 <= i < |lit| ==> Lower(t[p + i]) == lit[i]
    ensures MatchesAt(t, p, lit)
    decreases |lit|
  {
    if lit != [] {
      forall i | 0 <= i < |lit[1..]| ensures Lower(t[p + 1 + i]) == lit[1..][i] {
        assert Lower(t[p + (i + 1)]) == lit[i + 1];
      }
      MatchesAtChars(t, p + 1, lit[1..]);
    }
  }

  /** A word that starts with `lit` still does with text around it. */
  lemma MatchesAtJoin(a: string, w: string, b: string, lit: string)
    requires MatchesAt(w, 0, lit)
    ensures MatchesAt(a + w + b, |a|, lit)
  {
    var t := a + w + b;
    MatchesAtBounds(w, 0, lit);
    forall i | 0 <= i < |lit| ensures Lower(t[|a| + i]) == lit[i] {
      assert t[|a| + i] == w[i];
    }
    MatchesAtChars(t, |a|, lit);
  }

  /** `/github/i.test(s)`: the lower-case literal occurs somewhere in `s`, ignoring case. */
  predicate ContainsAt(s: string, lit: string, from: nat)
    decreases |s| - from
  {
    from <= |s| && (MatchesAt(s, from, lit) || ContainsAt(s, lit, from + 1))
  }

  predicate Contains(s: string, lit: string) {
    ContainsAt(s, lit, 0)
  }

  /** The exact (case-sensitive) word `w` occurs somewhere in `s`. */
  predicate Occurs(s: string, w: string)
    decreases |s|
  {
    |w| <= |s| && (s[..|w|] == w || (s != [] && Occurs(s[1..], w)))
  }

  /** The number of consecutive characters satisfying `p` from position `i` on. */
  function Span(s: string, i: nat, p: char -> bool): (n: nat)
    ensures i + n <= |s| || (i > |s| && n == 0)
    ensures forall k :: i <= k < i + n ==> p(s[k])
    ensures i + n < |s| ==> !p(s[i + n])
    decreases |s| - i
  {
    if i < |s| && p(s[i]) then 1 + Span(s, i + 1, p) else 0
  }

  /** A run of exactly `n` characters satisfying `p` from `i`. */
  lemma {:induction false} SpanExact(s: string, i: nat, p: char -> bool, n: nat)
    requires i + n <= |s|
    requires forall k :: i <= k < i + n ==> p(s[k])
    requires i + n < |s| ==> !p(s[i + n])
    ensures Span(s, i, p) == n
    decreases n
  {
    if n > 0 {
      SpanExact(s, i + 1, p, n - 1);
    }
  }

  /** A run of `n` characters satisfying `p` from `i` makes `Span` at least `n`. */
  lemma {:induction false} SpanAtLeast(s: string, i: nat, p: char -> bool, n: nat)
    requires i + n <= |s|
    requires forall k :: i <= k < i + n ==> p(s[k])
    ensures Span(s, i, p) >= n
    decreases n
  {
    if n > 0 {
      SpanAtLeast(s, i + 1, p, n - 1);
    }
  }

  /** A slice of characters that all satisfy `p`. */
  lemma SliceAll(s: string, i: nat, j: nat, p: char -> bool)
    requires i <= j <= |s|
    requires forall k :: i <= k < j ==> p(s[k])
    ensures forall k :: 0 <= k < j - i ==> p(s[i..j][k])
    ensures forall c :: c in s[i..j] ==> p(c)
  {
    forall k | 0 <= k < j - i ensures p(s[i..j][k]) {
      assert s[i..j][k] == s[i + k];
    }
  }

  /** The position of the first non-space at or after `i` (greedy `\s*`). */
  function SkipSpaces(s: string, i: nat): (j: nat)
    requires i <= |s|
    ensures i <= j <= |s|
    ensures forall k :: i <= k < j ==> IsJsSpace(s[k])
    ensures j < |s| ==> !IsJsSpace(s[j])
  {
    i + Span(s, i, IsJsSpace)
  }

  /** Leading half of `String.prototype.trim`. */
  function TrimStart(s: string): (r: string)
    ensures |r| <= |s| && r == s[|s| - |r|..]
    ensures r == [] || !IsJsSpace(r[0])
    ensures forall k :: 0 <= k < |s| - |r| ==> IsJsSpace(s[k])
    ensures forall c :: c in r ==> c in s
  {
    if s != [] && IsJsSpace(s[0]) then TrimStart(s[1..]) else s
  }

  /** Trailing half of `String.prototype.trim`. */
  function TrimEnd(s: string): (r: string)
    ensures |r| <= |s| && r == s[..|r|]
    ensures r == [] || !IsJsSpace(r[|r| - 1])
    ensures forall k :: |r| <= k < |s| ==> IsJsSpace(s[k])
    ensures forall c :: c in r ==> c in s
  {
    if s != [] && IsJsSpace(s[|s| - 1]) then TrimEnd(s[..|s| - 1]) else s
  }

  /** `String.prototype.trim`: the infix left after removing white space at both ends. */
  function Trim(s: string): (r: string)
    ensures r == [] || (!IsJsSpace(r[0]) && !IsJsSpace(r[|r| - 1]))
    ensures exists i, j :: SpaceOutside(s, i, j) && r == s[i..j]
    ensures forall c :: c in r ==> c in s
  {
    var a := TrimStart(s);
    var r := TrimEnd(a);
    TrimEndKeepsFront(a);
    PrefixOfSuffix(s, a, r);
    r
  }

  lemma TrimEndKeepsFront(a: string)
    requires a == [] || !IsJsSpace(a[0])
    ensures TrimEnd(a) == [] || !IsJsSpace(TrimEnd(a)[0])
  {
    var r := TrimEnd(a);
    if r != [] {
      assert r[0] == a[0];
    }
  }

  /** `s[i..j]` is an infix of `s` with only white space before and after it. */
  predicate SpaceOutside(s: string, i: int, j: int) {
    && 0 <= i <= j <= |s|
    && (forall k :: 0 <= k < i ==> IsJsSpace(s[k]))
    && (forall k :: j <= k < |s| ==> IsJsSpace(s[k]))
  }

  /**
   * A prefix of a suffix of `s` is an infix of `s`; when only white space was
   * cut off at either step, only white space lies outside it.
   */
  lemma PrefixOfSuffix(s: string, a: string, r: string)
    requires |a| <= |s| && a == s[|s| - |a|..]
    requires forall k :: 0 <= k < |s| - |a| ==> IsJsSpace(s[k])
    requires |r| <= |a| && r == a[..|r|]
    requires forall k :: |r| <= k < |a| ==> IsJsSpace(a[k])
    ensures exists i, j :: SpaceOutside(s, i, j) && r == s[i..j]
  {
    var i := |s| - |a|;
    var j := i + |r|;
    assert r == s[i..j];
    forall k | j <= k < |s|
      ensures IsJsSpace(s[k])
    {
      assert s[k] == a[k - i];
    }
    assert SpaceOutside(s, i, j);
  }

  /** Index of the first `c` in `s`, or `|s|` when there is none. */
  function IndexOf(s: string, c: char): (i: nat)
    ensures i <= |s|
    ensures i < |s| ==> s[i] == c
    ensures forall k :: 0 <= k < i ==> s[k] != c
  {
    if s == [] then 0 else if s[0] == c then 0 else 1 + IndexOf(s[1..], c)
  }

  /** A line that was followed by `\r\n` loses its `\r`. */
  function DropCr(s: string): (r: string)
    ensures r == s || (s == r + ['\r'])
  {
    if s != [] && s[|s| - 1] == '\r' then s[..|s| - 1] else s
  }

  /** `s.split(/\r?\n/)`. */
  function Lines(s: string): (ls: seq<string>)
    ensures |ls| >= 1
    ensures forall k :: 0 <= k < |ls| ==> '\n' !in ls[k]
    decreases |s|
  {
    var i := IndexOf(s, '\n');
    if i == |s| then [s]
    else
      assert '\n' !in s[..i] by {
        forall k | 0 <= k < i ensures s[..i][k] != '\n' { }
      }
      [DropCr(s[..i])] + Lines(s[i + 1..])
  }

  /** `ls.join(sep)`. */
  function Join(ls: seq<string>, sep: string): string {
    if ls == [] then []
    else if |ls| == 1 then ls[0]
    else ls[0] + sep + Join(ls[1..], sep)
  }
}
