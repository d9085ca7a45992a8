/**
 * The five regular expressions of the GitHub entity extractor, each as a matcher
 * that tries one start position, and the `exec` loop of a global regular
 * expression: the leftmost match at or after `lastIndex`, after which
 * `lastIndex` moves to the end of the match. No pattern can match the empty
 * string, so every match moves `lastIndex` forward.
 *
 * Where a pattern could backtrack, each matcher argues in a comment why the
 * greedy choice it makes is the one the regular expression engine settles on.
 */
module Patterns {
  import opened Text

  /**
   * One match: where it starts and ends, the owner group and, for the two URL
   * patterns, the raw path group (`None` when that optional group did not match).
   */
  datatype Hit = Hit(start: nat, end: nat, owner: string, path: Option<string>)

  datatype Pass = UrlPass | PlainPass | LabelPass | MentionPass | NearPass

  // ---------------------------------------------------------------------------
  // Logins

  /** What `[A-Za-z0-9](?:[A-Za-z0-9\-]{0,37}[A-Za-z0-9])?` can match as a whole. */
  predicate IsLogin(w: string) {
    1 <= |w| <= 39 && IsAlnum(w[0]) && IsAlnum(w[|w| - 1]) &&
    forall i :: 0 <= i < |w| ==> IsLoginChar(w[i])
  }

  /** What `[A-Za-z0-9-]{1,39}` can match as a whole. */
  predicate IsOwner(w: string) {
    1 <= |w| <= 39 && forall i :: 0 <= i < |w| ==> IsLoginChar(w[i])
  }

  /** The largest `r <= n` such that `r == 0` or `s[a + r - 1]` is alphanumeric. */
  function BackOff(s: string, a: nat, n: nat): (r: nat)
    requires a + n <= |s|
    ensures r <= n
    ensures r > 0 ==> IsAlnum(s[a + r - 1])
    ensures forall k :: a + r <= k < a + n ==> !IsAlnum(s[k])
  {
    if n == 0 || IsAlnum(s[a + n - 1]) then n else BackOff(s, a, n - 1)
  }

  /**
   * Length of the login token that the greedy engine matches at `p`, 0 when
   * there is none. `{0,37}` first takes as many login characters as it can;
   * the engine then gives them back one at a time until the next character is
   * alphanumeric, and drops the optional group when none is. So the group
   * covers the longest run of at most 38 login characters after `p` that ends
   * in an alphanumeric. Nothing after a token in any pattern can fail, so the
   * engine never comes back into the token.
   */
  function TokenLen(s: string, p: nat): (n: nat)
    ensures n > 0 ==> p + n <= |s| && IsLogin(s[p..p + n])
    ensures n == 0 <==> !(p < |s| && IsAlnum(s[p]))
  {
    if p < |s| && IsAlnum(s[p]) then
      var m := Min(38, Span(s, p + 1, IsLoginChar));
      var n := 1 + BackOff(s, p + 1, m);
      var w := s[p..p + n];
      assert IsLogin(w) by {
        forall i | 0 <= i < n ensures IsLoginChar(w[i]) {
          assert w[i] == s[p + i];
        }
      }
      n
    else 0
  }

  /** The token is the longest login that starts at `p`. */
  lemma TokenLongest(s: string, p: nat, n: nat)
    requires TokenLen(s, p) < n && p + n <= |s|
    ensures !IsLogin(s[p..p + n])
  {
    if TokenLen(s, p) > 0 && IsLogin(s[p..p + n]) {
      var w := s[p..p + n];
      forall k | p + 1 <= k < p + n ensures IsLoginChar(s[k]) {
        assert w[k - p] == s[k];
      }
      SpanAtLeast(s, p + 1, IsLoginChar, n - 1);
    }
  }

  // ---------------------------------------------------------------------------
  // Passes 1 and 2: URLs

  /** `(?!issues|pulls|pull|blob|tree|releases|actions)` fails at `i` (case ignored). */
  predicate Reserved(t: string, i: nat) {
    MatchesAt(t, i, "issues") || MatchesAt(t, i, "pulls") || MatchesAt(t, i, "pull") ||
    MatchesAt(t, i, "blob") || MatchesAt(t, i, "tree") || MatchesAt(t, i, "releases") ||
    MatchesAt(t, i, "actions")
  }

  /**
   * The common tail `github\.com\/([A-Za-z0-9-]{1,39})(?:\/(?!…)([^\s\n\r]+))?`
   * from `q`, for a match that started at `p`. The owner run is greedy and the
   * optional group after it can always be skipped, so the owner is the first
   * `min(39, run)` login characters. The path group needs a `/`, a position that
   * is not reserved (when `reserved` is on) and at least one non-space, and then
   * takes every non-space character.
   */
  function DomainTail(t: string, p: nat, q: nat, reserved: bool): (r: Option<Hit>)
    requires p <= q
    ensures r.Some? ==> r.value.start == p && q < r.value.end <= |t|
    ensures r.Some? ==> IsOwner(r.value.owner)
    ensures r.Some? && r.value.path.Some? ==>
      r.value.path.value != [] && forall c :: c in r.value.path.value ==> IsNotSpace(c)
  {
    if !MatchesAt(t, q, "github.com/") then None
    else
      MatchesAtFits(t, q, "github.com/");
      TailFrom(t, p, q + 11, reserved)
  }

  /** The owner and optional path from `o`, just after `github.com/`. */
  function TailFrom(t: string, p: nat, o: nat, reserved: bool): (r: Option<Hit>)
    requires p <= o <= |t|
    ensures r.Some? ==> r.value.start == p && o < r.value.end <= |t|
    ensures r.Some? ==> IsOwner(r.value.owner)
    ensures r.Some? && r.value.path.Some? ==>
      r.value.path.value != [] && forall c :: c in r.value.path.value ==> IsNotSpace(c)
  {
    var n := OwnerLen(t, o);
    if n == 0 then None
    else
      var e := o + n;
      var owner := t[o..e];
      OwnerSlice(t, o, n);
      match PathLen(t, e, reserved)
      case None => Some(Hit(p, e, owner, None))
      case Some(m) =>
        var path := t[e + 1..e + 1 + m];
        PathSlice(t, e + 1, m);
        Some(Hit(p, e + 1 + m, owner, Some(path)))
  }

  lemma OwnerSlice(t: string, o: nat, n: nat)
    requires 1 <= n <= 39 && o + n <= |t|
    requires forall k :: o <= k < o + n ==> IsLoginChar(t[k])
    ensures IsOwner(t[o..o + n])
  {
    SliceAll(t, o, o + n, IsLoginChar);
  }

  lemma PathSlice(t: string, a: nat, m: nat)
    requires 0 < m && a + m <= |t|
    requires forall k :: a <= k < a + m ==> IsNotSpace(t[k])
    ensures t[a..a + m] != [] && forall c :: c in t[a..a + m] ==> IsNotSpace(c)
  {
    SliceAll(t, a, a + m, IsNotSpace);
  }

  /** `[A-Za-z0-9-]{1,39}` is greedy: the first `min(39, run)` login characters. */
  function OwnerLen(t: string, o: nat): (n: nat)
    ensures n <= 39 && (n > 0 ==> o + n <= |t|)
    ensures forall k :: o <= k < o + n ==> IsLoginChar(t[k])
  {
    Min(39, Span(t, o, IsLoginChar))
  }

  /**
   * The length of `\/(?!…)([^\s\n\r]+)` at `e` without its `/`, or `None` when
   * the optional group does not match there.
   */
  function PathLen(t: string, e: nat, reserved: bool): (r: Option<nat>)
    ensures r.Some? ==> 0 < r.value && e + 1 + r.value <= |t|
    ensures r.Some? ==> forall k :: e + 1 <= k < e + 1 + r.value ==> IsNotSpace(t[k])
  {
    if e < |t| && t[e] == '/' && !(reserved && Reserved(t, e + 1)) then
      var m := Span(t, e + 1, IsNotSpace);
      if m == 0 then None else Some(m)
    else None
  }

  /**
   * Pass 1, `https?:\/\/(?:www\.)?github\.com\/…` with the reserved-word
   * lookahead. Dropping the `s` or the `www.` once taken only puts that
   * character where `:` or `g` is needed, so both optional parts are decided by
   * looking.
   */
  function UrlAt(t: string, p: nat): (r: Option<Hit>)
    ensures r.Some? ==> r.value.start == p && p < r.value.end <= |t|
    ensures r.Some? ==> IsOwner(r.value.owner)
    ensures r.Some? && r.value.path.Some? ==> r.value.path.value != []
  {
    if !MatchesAt(t, p, "http") then None
    else
      var q := p + 4;
      var q := if q < |t| && Lower(t[q]) == 's' then q + 1 else q;
      if !MatchesAt(t, q, "://") then None
      else
        var q := q + 3;
        var q := if MatchesAt(t, q, "www.") then q + 4 else q;
        DomainTail(t, p, q, true)
  }

  /** Pass 2, `(?:www\.)?github\.com\/…` without the lookahead. */
  function PlainAt(t: string, p: nat): (r: Option<Hit>)
    ensures r.Some? ==> r.value.start == p && p < r.value.end <= |t|
    ensures r.Some? ==> IsOwner(r.value.owner)
    ensures r.Some? && r.value.path.Some? ==> r.value.path.value != []
  {
    var q := if MatchesAt(t, p, "www.") then p + 4 else p;
    DomainTail(t, p, q, false)
  }

  // ---------------------------------------------------------------------------
  // Pass 3: labels

  /**
   * The separator class of pass 3 as the source file spells it. Its bytes are
   * the UTF-8 en dash read as Windows-1252 text, which gives the three
   * characters U+00E2, U+20AC and U+201C; under the `i` flag U+00E2 also
   * matches its upper case U+00C2.
   */
  predicate IsLabelSepAsWritten(c: char) {
    c == ':' || c == '-' || c == '\U{E2}' || c == '\U{C2}' || c == '\U{20AC}' || c == '\U{201C}'
  }

  /** The separator class that was meant: colon, hyphen and en dash. */
  predicate IsLabelSep(c: char) {
    c == ':' || c == '-' || c == '\U{2013}'
  }

  /**
   * Pass 3, `github\s*[seps]?\s*@?(login)` with the separator class `sep`.
   * Giving back white space, the separator or the `@` only leaves a character
   * that cannot start a login where the login must start, so the match is
   * decided greedily.
   */
  function LabelAt(t: string, p: nat, sep: char -> bool): (r: Option<Hit>)
    ensures r.Some? ==> r.value.start == p && p < r.value.end <= |t|
    ensures r.Some? ==> IsLogin(r.value.owner) && r.value.path == None
  {
    if !MatchesAt(t, p, "github") then None
    else
      MatchesAtFits(t, p, "github");
      TokenFrom(t, p, LabelGap(t, p + 6, sep))
  }

  /** A match from `p` that goes on with a login at `q`, or none when no login starts there. */
  function TokenFrom(t: string, p: nat, q: nat): (r: Option<Hit>)
    requires p <= q
    ensures r.Some? ==> r.value.start == p && p < r.value.end <= |t|
    ensures r.Some? ==> IsLogin(r.value.owner) && r.value.path == None
  {
    var n := TokenLen(t, q);
    if n == 0 then None else Some(Hit(p, q + n, t[q..q + n], None))
  }

  /** The position after `\s*[seps]?\s*@?` from `i`. */
  function LabelGap(t: string, i: nat, sep: char -> bool): (q: nat)
    requires i <= |t|
    ensures i <= q <= |t|
  {
    var q := SkipSpaces(t, i);
    var q := if q < |t| && sep(t[q]) then SkipSpaces(t, q + 1) else q;
    if q < |t| && t[q] == '@' then q + 1 else q
  }

  // ---------------------------------------------------------------------------
  // Pass 4: mentions

  /** Pass 4, `@(login)`, without the `i` flag (the classes hold both cases anyway). */
  function MentionAt(t: string, p: nat): (r: Option<Hit>)
    ensures r.Some? ==> r.value.start == p && p < r.value.end <= |t|
    ensures r.Some? ==> IsLogin(r.value.owner) && r.value.path == None
  {
    if p < |t| && t[p] == '@' then TokenFrom(t, p, p + 1) else None
  }

  // ---------------------------------------------------------------------------
  // Pass 5: near matches

  /**
   * The rest of `github[^\n\r]{0,30}\(?\s*(login)\s*\)?` once `[^\n\r]{0,30}`
   * has taken `k` characters: an optional `(`, white space, a login, white
   * space and an optional `)`. When no login can start, the engine gives back
   * one more character of `[^\n\r]{0,30}` and tries again, down to none.
   */
  function NearFrom(t: string, p: nat, k: nat): (r: Option<Hit>)
    requires p + 6 + k <= |t|
    ensures r.Some? ==> r.value.start == p && p < r.value.end <= |t|
    ensures r.Some? ==> IsLogin(r.value.owner) && r.value.path == None
    decreases k
  {
    var r := NearTry(t, p, p + 6 + k);
    if r.Some? then r
    else if k == 0 then None
    else NearFrom(t, p, k - 1)
  }

  /** One attempt of `\(?\s*(login)\s*\)?` from `q`, for a match that starts at `p`. */
  function NearTry(t: string, p: nat, q: nat): (r: Option<Hit>)
    requires p <= q <= |t|
    ensures r.Some? ==> r.value.start == p && p < r.value.end <= |t|
    ensures r.Some? ==> IsLogin(r.value.owner) && r.value.path == None
  {
    var q := if q < |t| && t[q] == '(' then q + 1 else q;
    NearLogin(t, p, SkipSpaces(t, q))
  }

  /** `(login)\s*\)?` at `q`. */
  function NearLogin(t: string, p: nat, q: nat): (r: Option<Hit>)
    requires p <= q <= |t|
    ensures r.Some? ==> r.value.start == p && p < r.value.end <= |t|
    ensures r.Some? ==> IsLogin(r.value.owner) && r.value.path == None
  {
    var n := TokenLen(t, q);
    if n == 0 then None
    else
      var e := SkipSpaces(t, q + n);
      var e := if e < |t| && t[e] == ')' then e + 1 else e;
      Some(Hit(p, e, t[q..q + n], None))
  }

  /** Pass 5: `[^\n\r]{0,30}` starts by taking as much of the line as it may. */
  function NearAt(t: string, p: nat): (r: Option<Hit>)
    ensures r.Some? ==> r.value.start == p && p < r.value.end <= |t|
    ensures r.Some? ==> IsLogin(r.value.owner) && r.value.path == None
  {
    if !MatchesAt(t, p, "github") then None
    else
      MatchesAtFits(t, p, "github");
      NearFrom(t, p, Min(30, Span(t, p + 6, IsInLine)))
  }

  // ---------------------------------------------------------------------------
  // Global matching

  /** A pattern tried at one position of a text. */
  type Matcher = (string, nat) -> Option<Hit>

  /** A match found at `p` starts at `p`, is not empty and stays inside the text. */
  ghost predicate WellFormed(m: Matcher) {
    forall t: string, p: nat :: m(t, p).Some? ==> m(t, p).value.start == p && p < m(t, p).value.end <= |t|
  }

  /** The pattern of each pass. */
  function PassMatcher(pass: Pass): (m: Matcher)
    ensures WellFormed(m)
  {
    match pass
    case UrlPass => UrlAt
    case PlainPass => PlainAt
    case LabelPass => (t: string, p: nat) => LabelAt(t, p, IsLabelSep)
    case MentionPass => MentionAt
    case NearPass => NearAt
  }

  /** `re.exec(t)` with `re.lastIndex == from`: the leftmost match at or after `from`. */
  function FindFrom(m: Matcher, t: string, from: nat): (r: Option<Hit>)
    requires WellFormed(m)
    ensures r.Some? ==> from <= r.value.start < r.value.end <= |t|
    ensures r.Some? ==> m(t, r.value.start) == r
    ensures forall q :: from <= q < StartOr(r, |t|) ==> m(t, q).None?
    decreases |t| - from
  {
    if from >= |t| then None
    else
      var h := m(t, from);
      if h.Some? then h
      else
        var r := FindFrom(m, t, from + 1);
        assert forall q :: from + 1 <= q < StartOr(r, |t|) ==> m(t, q).None?;
        r
  }

  /** Where the match `r` starts, or `end` when there is none. */
  function StartOr(r: Option<Hit>, end: nat): nat {
    if r.Some? then r.value.start else end
  }

  /** The matches of `while ((m = re.exec(t)))` once `lastIndex` is `from`. */
  function Hits(m: Matcher, t: string, from: nat): (hs: seq<Hit>)
    requires WellFormed(m)
    ensures forall i :: 0 <= i < |hs| ==> from <= hs[i].start < hs[i].end <= |t|
    decreases |t| - from
  {
    match FindFrom(m, t, from)
    case None => []
    case Some(h) => [h] + Hits(m, t, h.end)
  }

  /** Pass 4 runs its pattern on every line that mentions `github`, in order. */
  function MentionHits(lines: seq<string>): seq<Hit> {
    if lines == [] then [] else LineMentions(lines[0]) + MentionHits(lines[1..])
  }

  /** Pass 4 on one line: nothing unless the line mentions `github`. */
  function LineMentions(line: string): seq<Hit> {
    if Contains(line, "github") then Hits(PassMatcher(MentionPass), line, 0) else []
  }

  /** The matches of a global `exec` loop come in text order without overlapping. */
  lemma {:induction false} HitsInOrder(m: Matcher, t: string, from: nat)
    requires WellFormed(m)
    ensures forall i, j :: 0 <= i < j < |Hits(m, t, from)| ==>
      Hits(m, t, from)[i].end <= Hits(m, t, from)[j].start
    decreases |t| - from
  {
    var hs := Hits(m, t, from);
    if FindFrom(m, t, from).Some? {
      var h := FindFrom(m, t, from).value;
      var rest := Hits(m, t, h.end);
      HitsInOrder(m, t, h.end);
      assert hs == [h] + rest;
      forall i, j | 0 <= i < j < |hs| ensures hs[i].end <= hs[j].start {
        assert hs[j] == rest[j - 1];
        assert hs[j].start >= h.end;
        if i > 0 {
          assert hs[i] == rest[i - 1];
        } else {
          assert hs[i] == h;
        }
      }
    }
  }

  /** Each of them is what the pattern matches where it starts ... */
  lemma {:induction false} HitsAreMatches(m: Matcher, t: string, from: nat)
    requires WellFormed(m)
    ensures forall i :: 0 <= i < |Hits(m, t, from)| ==>
      m(t, Hits(m, t, from)[i].start) == Some(Hits(m, t, from)[i])
    decreases |t| - from
  {
    var hs := Hits(m, t, from);
    if FindFrom(m, t, from).Some? {
      var h := FindFrom(m, t, from).value;
      var rest := Hits(m, t, h.end);
      HitsAreMatches(m, t, h.end);
      assert hs == [h] + rest;
      forall i | 0 <= i < |hs| ensures m(t, hs[i].start) == Some(hs[i]) {
        if i > 0 {
          assert hs[i] == rest[i - 1];
        } else {
          assert hs[i] == h;
          assert m(t, h.start) == Some(h);
        }
      }
    }
  }

  /** ... and every position where the pattern would match lies inside one of them. */
  lemma {:induction false} HitsCover(m: Matcher, t: string, from: nat, q: nat)
    requires WellFormed(m)
    requires from <= q < |t| && m(t, q).Some?
    ensures exists i ::
      0 <= i < |Hits(m, t, from)| && Hits(m, t, from)[i].start <= q < Hits(m, t, from)[i].end
    decreases |t| - from
  {
    var hs := Hits(m, t, from);
    var r := FindFrom(m, t, from);
    assert r.Some?;
    var h := r.value;
    var rest := Hits(m, t, h.end);
    assert hs == [h] + rest;
    if q < h.end {
      assert hs[0] == h;
      assert h.start <= q by {
        assert StartOr(r, |t|) == h.start;
      }
    } else {
      HitsCover(m, t, h.end, q);
      var i :| 0 <= i < |rest| && rest[i].start <= q < rest[i].end;
      assert hs[i + 1] == rest[i];
    }
  }

  // ---------------------------------------------------------------------------
  // How the patterns treat some typical texts

  /**
   * After `github`, `[^\n\r]{0,30}` first runs to the end of a short line, and
   * giving back characters stops at the first place a login can start: the
   * last character of a parenthesised login, not its first.
   */
  lemma NearTakesLastChar(w: string, mid: string, o: string)
    requires |w| == 6 && MatchesAt(w, 0, "github")
    requires o != [] && IsAlnum(o[|o| - 1])
    requires |mid| + |o| + 1 <= 30
    requires forall i :: 0 <= i < |mid + o| ==> IsInLine((mid + o)[i])
    ensures NearAt(w + mid + o + ")", 0) == Some(Hit(0, |w + mid + o + ")"|, [o[|o| - 1]], None))
  {
    var t := w + mid + o + ")";
    var k := |mid| + |o| + 1;
    MatchesAtJoin([], w, mid + o + ")", "github");
    assert t == [] + w + (mid + o + ")");
    forall i | 6 <= i < |t| ensures IsInLine(t[i]) {
      if i < |t| - 1 {
        assert t[i] == (mid + o)[i - 6];
      }
    }
    assert t[|t| - 2] == o[|o| - 1];
    NearAtLine(t, 0);
    SpanExact(t, 6, IsInLine, k);
    NearLastCharAt(t, k);
  }

  /** Pass 5 at a `github` hands the rest of the line, up to 30 characters, to `NearFrom`. */
  lemma NearAtLine(t: string, p: nat)
    requires MatchesAt(t, p, "github")
    ensures p + 6 <= |t| && NearAt(t, p) == NearFrom(t, p, Min(30, Span(t, p + 6, IsInLine)))
  {
    MatchesAtFits(t, p, "github");
  }

  /** The index form of `NearTakesLastChar`, after `github`. */
  lemma NearLastCharAt(t: string, k: nat)
    requires 2 <= k && |t| == 6 + k
    requires t[|t| - 1] == ')' && IsAlnum(t[|t| - 2])
    ensures NearFrom(t, 0, k) == Some(Hit(0, |t|, [t[|t| - 2]], None))
  {
    NearGivesBack(t, k);
    NearParenLast(t, k - 1);
  }

  /** With the `)` still taken, the engine gives it back and finds the last character. */
  lemma NearParenLast(t: string, k: nat)
    requires 1 <= k && |t| == 6 + k + 1
    requires t[|t| - 1] == ')' && IsAlnum(t[|t| - 2])
    ensures NearFrom(t, 0, k) == Some(Hit(0, |t|, [t[|t| - 2]], None))
  {
    NearGivesBack(t, k);
    NearLastChar(t, k - 1);
  }

  /** A position where no login can start makes the engine give back a character. */
  lemma NearGivesBack(t: string, k: nat)
    requires 0 < k && 6 + k <= |t|
    requires 6 + k == |t| || t[6 + k] == ')'
    ensures NearFrom(t, 0, k) == NearFrom(t, 0, k - 1)
  {
    NearTryNone(t, 0, 6 + k);
  }

  lemma NearTryNone(t: string, p: nat, q: nat)
    requires p <= q <= |t| && (q == |t| || t[q] == ')')
    ensures NearTry(t, p, q) == None
  {
    if q < |t| {
      assert !IsJsSpace(t[q]);
      SpanExact(t, q, IsJsSpace, 0);
    }
    assert SkipSpaces(t, q) == q;
    assert TokenLen(t, q) == 0;
  }

  lemma NearLastChar(t: string, k: nat)
    requires 6 + k + 2 == |t| && IsAlnum(t[|t| - 2]) && t[|t| - 1] == ')'
    ensures NearFrom(t, 0, k) == Some(Hit(0, |t|, [t[|t| - 2]], None))
  {
    NearTryLast(t, 0, 6 + k);
  }

  /** A single login character and `)` ending the text. */
  lemma NearTryLast(t: string, p: nat, q: nat)
    requires p <= q && q + 2 == |t| && IsAlnum(t[q]) && t[q + 1] == ')'
    ensures NearTry(t, p, q) == Some(Hit(p, |t|, [t[q]], None))
  {
    assert SkipSpaces(t, q) == q;
    LastCharToken(t, q);
    assert SkipSpaces(t, q + 1) == q + 1;
  }

  lemma LastCharToken(t: string, q: nat)
    requires q + 2 == |t| && IsAlnum(t[q]) && t[q + 1] == ')'
    ensures TokenLen(t, q) == 1 && t[q..q + 1] == [t[q]]
  {
    assert Span(t, q + 1, IsLoginChar) == 0;
    assert BackOff(t, q + 1, 0) == 0;
  }

  /** The case of a resume line `GitHub (jdoe93)`: the owner found is `3`. */
  lemma NearParenExample(t: string)
    requires t == "GitHub (jdoe93)"
    ensures NearAt(t, 0) == Some(Hit(0, 15, "3", None))
  {
    NearTakesLastChar("GitHub", " (", "jdoe93");
    NearParenPieces(t);
  }

  lemma NearParenPieces(t: string)
    requires t == "GitHub (jdoe93)"
    ensures t == "GitHub" + " (" + "jdoe93" + ")"
  {
  }

  /**
   * An owner of `n` login characters at `o`, then `/` and a run of `m`
   * non-space characters that ends the text or is followed by white space.
   */
  predicate OwnerSlashRun(t: string, o: nat, n: nat, m: nat) {
    1 <= n <= 39 && 0 < m && o + n + 1 + m <= |t| &&
    (forall k :: o <= k < o + n ==> IsLoginChar(t[k])) &&
    t[o + n] == '/' &&
    (forall k :: o + n + 1 <= k < o + n + 1 + m ==> IsNotSpace(t[k])) &&
    (o + n + 1 + m < |t| ==> IsJsSpace(t[o + n + 1 + m]))
  }

  /**
   * What the URL tail matches on such a text: with the lookahead on and a
   * reserved word after the `/`, only the owner; otherwise the owner and the
   * whole run.
   */
  lemma TailFromAt(t: string, p: nat, o: nat, n: nat, m: nat, reserved: bool)
    requires p <= o && OwnerSlashRun(t, o, n, m)
    ensures var e := o + n;
      TailFrom(t, p, o, reserved) ==
        if reserved && Reserved(t, e + 1) then Some(Hit(p, e, t[o..e], None))
        else Some(Hit(p, e + 1 + m, t[o..e], Some(t[e + 1..e + 1 + m])))
  {
    OwnerRun(t, o, n);
    PathRun(t, o + n, m, reserved);
    TailFromLengths(t, p, o, n, m, reserved);
  }

  /** The URL tail once the owner and path lengths are known. */
  lemma TailFromLengths(t: string, p: nat, o: nat, n: nat, m: nat, reserved: bool)
    requires p <= o && 1 <= n && o + n + 1 + m <= |t| && OwnerLen(t, o) == n
    requires PathLen(t, o + n, reserved) == if reserved && Reserved(t, o + n + 1) then None else Some(m)
    ensures var e := o + n;
      TailFrom(t, p, o, reserved) ==
        if reserved && Reserved(t, e + 1) then Some(Hit(p, e, t[o..e], None))
        else Some(Hit(p, e + 1 + m, t[o..e], Some(t[e + 1..e + 1 + m])))
  {
    if reserved && Reserved(t, o + n + 1) {
      TailOwnerOnly(t, p, o, n, reserved);
    } else {
      TailWithPath(t, p, o, n, m, reserved);
    }
  }

  lemma TailOwnerOnly(t: string, p: nat, o: nat, n: nat, reserved: bool)
    requires p <= o && 1 <= n && o + n <= |t| && OwnerLen(t, o) == n
    requires PathLen(t, o + n, reserved) == None
    ensures TailFrom(t, p, o, reserved) == Some(Hit(p, o + n, t[o..o + n], None))
  {
  }

  lemma TailWithPath(t: string, p: nat, o: nat, n: nat, m: nat, reserved: bool)
    requires p <= o && 1 <= n && o + n + 1 + m <= |t| && OwnerLen(t, o) == n
    requires PathLen(t, o + n, reserved) == Some(m)
    ensures TailFrom(t, p, o, reserved) ==
      Some(Hit(p, o + n + 1 + m, t[o..o + n], Some(t[o + n + 1..o + n + 1 + m])))
  {
  }

  /**
   * `https://github.com/owner/issues/5`: the lookahead of pass 1 turns the
   * match into one for the owner alone, while pass 2, which starts at
   * `github.com/`, takes the whole path.
   */
  lemma ReservedWordSplitsPasses(t: string, p: nat, q: nat, o: nat, n: nat, m: nat)
    requires MatchesAt(t, p, "http") && p + 4 < |t| && Lower(t[p + 4]) == 's'
    requires MatchesAt(t, p + 5, "://") && q == p + 8 && MatchesAt(t, q, "github.com/") && o == q + 11
    requires OwnerSlashRun(t, o, n, m) && Reserved(t, o + n + 1)
    ensures UrlAt(t, p) == Some(Hit(p, o + n, t[o..o + n], None))
    ensures PlainAt(t, q) == Some(Hit(q, o + n + 1 + m, t[o..o + n], Some(t[o + n + 1..o + n + 1 + m])))
  {
    UrlOwnerOnly(t, p, q, o, n, m);
    PlainWholePath(t, q, o, n, m);
  }

  /** Pass 1 before a reserved word: the owner alone. */
  lemma UrlOwnerOnly(t: string, p: nat, q: nat, o: nat, n: nat, m: nat)
    requires MatchesAt(t, p, "http") && p + 4 < |t| && Lower(t[p + 4]) == 's'
    requires MatchesAt(t, p + 5, "://") && q == p + 8 && MatchesAt(t, q, "github.com/")
    requires o == q + 11 && OwnerSlashRun(t, o, n, m) && Reserved(t, o + n + 1)
    ensures UrlAt(t, p) == Some(Hit(p, o + n, t[o..o + n], None))
  {
    UrlAtDomain(t, p, q);
    DomainTailFrom(t, p, q, true);
    TailFromAt(t, p, o, n, m, true);
  }

  lemma UrlAtDomain(t: string, p: nat, q: nat)
    requires MatchesAt(t, p, "http") && p + 4 < |t| && Lower(t[p + 4]) == 's'
    requires MatchesAt(t, p + 5, "://") && q == p + 8 && MatchesAt(t, q, "github.com/")
    ensures UrlAt(t, p) == DomainTail(t, p, q, true)
  {
    NotWww(t, q);
    UrlPrefix(t, p);
  }

  /** Pass 2 from `github.com/`: the owner and the whole path. */
  lemma PlainWholePath(t: string, q: nat, o: nat, n: nat, m: nat)
    requires MatchesAt(t, q, "github.com/")
    requires o == q + 11 && OwnerSlashRun(t, o, n, m)
    ensures PlainAt(t, q) == Some(Hit(q, o + n + 1 + m, t[o..o + n], Some(t[o + n + 1..o + n + 1 + m])))
  {
    PlainAtTail(t, q, o);
    TailFromAt(t, q, o, n, m, false);
  }

  lemma DomainTailFrom(t: string, p: nat, q: nat, reserved: bool)
    requires p <= q && MatchesAt(t, q, "github.com/")
    ensures q + 11 <= |t| && DomainTail(t, p, q, reserved) == TailFrom(t, p, q + 11, reserved)
  {
    MatchesAtFits(t, q, "github.com/");
  }

  lemma PlainAtTail(t: string, q: nat, o: nat)
    requires MatchesAt(t, q, "github.com/") && o == q + 11
    ensures o <= |t| && PlainAt(t, q) == TailFrom(t, q, o, false)
  {
    NotWww(t, q);
    PlainPrefix(t, q);
    DomainTailFrom(t, q, q, false);
  }

  lemma NotWww(t: string, q: nat)
    requires MatchesAt(t, q, "github.com/")
    ensures !MatchesAt(t, q, "www.")
  {
    MatchesAtBounds(t, q, "github.com/");
  }

  lemma PlainPrefix(t: string, q: nat)
    requires !MatchesAt(t, q, "www.")
    ensures PlainAt(t, q) == DomainTail(t, q, q, false)
  {
  }

  lemma UrlPrefix(t: string, p: nat)
    requires MatchesAt(t, p, "http") && p + 4 < |t| && Lower(t[p + 4]) == 's'
    requires MatchesAt(t, p + 5, "://") && !MatchesAt(t, p + 8, "www.")
    ensures UrlAt(t, p) == DomainTail(t, p, p + 8, true)
  {
  }

  lemma PathRun(t: string, e: nat, m: nat, reserved: bool)
    requires 0 < m && e + 1 + m <= |t| && t[e] == '/'
    requires forall k :: e + 1 <= k < e + 1 + m ==> IsNotSpace(t[k])
    requires e + 1 + m < |t| ==> IsJsSpace(t[e + 1 + m])
    ensures PathLen(t, e, reserved) == if reserved && Reserved(t, e + 1) then None else Some(m)
  {
    SpanExact(t, e + 1, IsNotSpace, m);
  }

  lemma OwnerRun(t: string, o: nat, n: nat)
    requires 1 <= n <= 39 && o + n < |t|
    requires forall k :: o <= k < o + n ==> IsLoginChar(t[k])
    requires t[o + n] == '/'
    ensures OwnerLen(t, o) == n
  {
    SpanExact(t, o, IsLoginChar, n);
  }

  /**
   * `github – name` with an en dash: the class as written does not hold the en
   * dash, so no login can start where pass 3 then needs one, while the intended
   * class skips the dash and finds the name.
   */
  lemma LabelEnDash(t: string, p: nat)
    requires MatchesAt(t, p, "github") && p + 9 <= |t|
    requires t[p + 6] == ' ' && t[p + 7] == '\U{2013}' && t[p + 8] == ' '
    requires p + 9 < |t| && IsAlnum(t[p + 9])
    ensures LabelAt(t, p, IsLabelSepAsWritten) == None
    ensures var n := TokenLen(t, p + 9);
      LabelAt(t, p, IsLabelSep) == Some(Hit(p, p + 9 + n, t[p + 9..p + 9 + n], None))
  {
    DashGaps(t, p + 6);
    MatchesAtBounds(t, p, "github");
    assert TokenLen(t, p + 7) == 0;
  }

  lemma DashGaps(t: string, i: nat)
    requires i + 3 < |t| && t[i] == ' ' && t[i + 1] == '\U{2013}' && t[i + 2] == ' '
    requires IsAlnum(t[i + 3])
    ensures LabelGap(t, i, IsLabelSepAsWritten) == i + 1
    ensures LabelGap(t, i, IsLabelSep) == i + 3
  {
    SpanExact(t, i, IsJsSpace, 1);
    SpanExact(t, i + 2, IsJsSpace, 1);
  }

  /** A login that runs to the end of the text is taken whole. */
  lemma TokenAtEnd(t: string, p: nat)
    requires p < |t| <= p + 39 && IsAlnum(t[p]) && IsAlnum(t[|t| - 1])
    requires forall k :: p <= k < |t| ==> IsLoginChar(t[k])
    ensures TokenLen(t, p) == |t| - p
  {
    SpanExact(t, p + 1, IsLoginChar, |t| - p - 1);
  }

  /** The case of a resume line `github – jdoe`. */
  lemma LabelEnDashExample(t: string)
    requires t == "github \U{2013} jdoe"
    ensures LabelAt(t, 0, IsLabelSepAsWritten) == None
    ensures LabelAt(t, 0, IsLabelSep) == Some(Hit(0, 13, "jdoe", None))
  {
    DashExampleShape(t);
    DashExampleToken(t);
    LabelEnDash(t, 0);
  }

  lemma DashExampleShape(t: string)
    requires t == "github \U{2013} jdoe"
    ensures MatchesAt(t, 0, "github") && 9 < |t|
    ensures t[6] == ' ' && t[7] == '\U{2013}' && t[8] == ' ' && IsAlnum(t[9])
  {
    DashExampleWord(t);
  }

  lemma DashExampleWord(t: string)
    requires t == "github \U{2013} jdoe"
    ensures MatchesAt(t, 0, "github")
  {
    MatchesAtChars(t, 0, "github");
  }

  lemma DashExampleToken(t: string)
    requires t == "github \U{2013} jdoe"
    ensures TokenLen(t, 9) == 4 && t[9..13] == "jdoe"
  {
    TokenAtEnd(t, 9);
  }
}
