/**
 * The clean-up chain that the resume endpoint applies to the raw text before
 * extraction, one global `replace` after another. Each step is a left-to-right
 * scanner that reproduces the leftmost, greedy, non-overlapping matching of the
 * corresponding regular expression.
 */
module Normalize {
  import opened Text

  /** `/\r\n/g -> '\n'`. */
  function ReplaceCrLf(s: string): (r: string)
    ensures |r| <= |s|
    ensures forall c :: c in r ==> c in s
    decreases |s|
  {
    if s == [] then []
    else if |s| >= 2 && s[0] == '\r' && s[1] == '\n' then ['\n'] + ReplaceCrLf(s[2..])
    else [s[0]] + ReplaceCrLf(s[1..])
  }

  /**
   * Splitting by `\r?\n` and joining by `\n` is the CRLF replacement: the
   * lines the README snippet starts from are the lines of the text with its
   * line breaks unified.
   */
  lemma {:induction false} LinesJoin(s: string)
    ensures Join(Lines(s), "\n") == ReplaceCrLf(s)
    decreases |s|
  {
    var i := IndexOf(s, '\n');
    if i == |s| {
      ReplaceCrLfNoNewline(s);
    } else {
      var a, b := s[..i], s[i + 1..];
      assert s == a + ['\n'] + b;
      assert '\n' !in a by {
        forall k | 0 <= k < i ensures a[k] != '\n' { }
      }
      LinesJoin(b);
      ReplaceCrLfLine(a, b);
      var ls := Lines(s);
      assert ls == [DropCr(a)] + Lines(b);
      assert ls[1..] == Lines(b);
    }
  }

  lemma ReplaceCrLfKeep(s: string)
    requires s != [] && !(|s| >= 2 && s[0] == '\r' && s[1] == '\n')
    ensures ReplaceCrLf(s) == [s[0]] + ReplaceCrLf(s[1..])
  {
  }

  lemma DropCrCons(a: string)
    requires a != [] && a != ['\r']
    ensures DropCr(a) == [a[0]] + DropCr(a[1..])
  {
    if |a| >= 2 {
      assert a[1..][..|a| - 2] == a[1..|a| - 1];
    }
  }

  /** Text without `\n` holds no CRLF to replace. */
  lemma {:induction false} ReplaceCrLfNoNewline(s: string)
    requires '\n' !in s
    ensures ReplaceCrLf(s) == s
    decreases |s|
  {
    if s != [] {
      assert '\n' !in s[1..] by {
        forall c | c in s[1..] ensures c in s { }
      }
      if |s| >= 2 {
        assert s[1] != '\n';
      }
      ReplaceCrLfNoNewline(s[1..]);
    }
  }

  /** The first line break becomes `\n`, with the line before it losing a closing `\r`. */
  lemma {:induction false} ReplaceCrLfLine(a: string, b: string)
    requires '\n' !in a
    ensures ReplaceCrLf(a + ['\n'] + b) == DropCr(a) + ['\n'] + ReplaceCrLf(b)
    decreases |a|
  {
    var s := a + ['\n'] + b;
    if a == [] {
      assert s[0] == '\n' && s[1..] == b;
    } else if a == ['\r'] {
      assert s[0] == '\r' && s[1] == '\n' && s[2..] == b;
    } else {
      var t := a[1..];
      assert s[0] == a[0] && s[1..] == t + ['\n'] + b;
      assert '\n' !in t by {
        forall c | c in t ensures c in a { }
      }
      if |a| >= 2 {
        assert s[1] == a[1] && a[1] != '\n';
      }
      ReplaceCrLfKeep(s);
      DropCrCons(a);
      ReplaceCrLfLine(t, b);
    }
  }

  /** Removal of U+200B, U+200C, U+200D and U+FEFF everywhere. */
  function StripZeroWidth(s: string): (r: string)
    ensures forall c :: c in r ==> c in s
    ensures forall i :: 0 <= i < |r| ==> !IsZeroWidth(r[i])
    decreases |s|
  {
    if s == [] then []
    else if IsZeroWidth(s[0]) then StripZeroWidth(s[1..])
    else [s[0]] + StripZeroWidth(s[1..])
  }

  /**
   * Length of a match of `github[ \t\r\n]*\.?[ \t\r\n]*com` (followed, when
   * `slash` holds, by `[ \t\r\n]*\/[ \t\r\n]*`) at the start of `s`, letters
   * compared without case. Backtracking never helps: a shorter gap run leaves a
   * gap character where `.`, `c` or `/` is needed, and skipping a present `.`
   * leaves that `.` where `c` is needed.
   */
  function DomainMatch(s: string, slash: bool): (n: nat)
    ensures n <= |s|
    ensures n > 0 ==> MatchesAt(s, 0, "github")
  {
    if !MatchesAt(s, 0, "github") then 0
    else
      MatchesAtFits(s, 0, "github");
      ComMatch(s, DotGap(s, 6 + Span(s, 6, IsGap)), slash)
  }

  /** The rest of a domain match from `k`: `com`, and the slash part when `slash` holds. */
  function ComMatch(s: string, k: nat, slash: bool): (n: nat)
    requires k <= |s|
    ensures n <= |s|
  {
    if !MatchesAt(s, k, "com") then 0
    else
      MatchesAtFits(s, k, "com");
      if !slash then k + 3 else SlashGap(s, k + 3)
  }

  /** The position after `\.?[ \t\r\n]*` from `k`. */
  function DotGap(s: string, k: nat): (j: nat)
    requires k <= |s|
    ensures k <= j <= |s|
  {
    if k < |s| && s[k] == '.' then k + 1 + Span(s, k + 1, IsGap) else k
  }

  /** The position after `[ \t\r\n]*\/[ \t\r\n]*` from `k`, or 0 when there is no `/`. */
  function SlashGap(s: string, k: nat): (j: nat)
    requires k <= |s|
    ensures j == 0 || k < j <= |s|
  {
    var k := k + Span(s, k, IsGap);
    if k < |s| && s[k] == '/' then k + 1 + Span(s, k + 1, IsGap) else 0
  }

  // With `slash`: `github[ \t\r\n]*\.?[ \t\r\n]*com[ \t\r\n]*\/[ \t\r\n]*` (flags g, i)
  // becomes `github.com/`; without: `github[ \t\r\n]*\.?[ \t\r\n]*com` becomes `github.com`.
  function CollapseDomain(s: string, slash: bool): (r: string)
    ensures forall c :: c in r ==> c in s || c as int < 128
    decreases |s|
  {
    if s == [] then []
    else
      var n := DomainMatch(s, slash);
      if n > 0 then
        var rest := CollapseDomain(s[n..], slash);
        assert forall c :: c in rest ==> c in s || c as int < 128 by {
          forall c | c in rest && c !in s ensures c as int < 128 {
            assert c !in s[n..];
          }
        }
        DomainText(slash) + rest
      else [s[0]] + CollapseDomain(s[1..], slash)
  }

  /** What a domain match is replaced by. */
  function DomainText(slash: bool): (r: string)
    ensures forall c :: c in r ==> c as int < 128
  {
    if slash then "github.com/" else "github.com"
  }

  /** `/d[ \t]+/g -> d`: blanks right after `d` disappear. */
  function DropBlanksAfter(s: string, d: char): (r: string)
    ensures forall c :: c in r ==> c in s
    ensures s != [] ==> r != [] && r[0] == s[0]
    decreases |s|
  {
    if s == [] then []
    else if s[0] == d then [d] + DropBlanksAfter(s[1 + Span(s, 1, IsBlank)..], d)
    else [s[0]] + DropBlanksAfter(s[1..], d)
  }

  /** `/[ \t]+d/g -> d`: a run of blanks right before `d` disappears. */
  function DropBlanksBefore(s: string, d: char): (r: string)
    ensures forall c :: c in r ==> c in s
    ensures s != [] ==> r != [] && (r[0] == s[0] || (IsBlank(s[0]) && r[0] == d))
    decreases |s|
  {
    if s == [] then []
    else if IsBlank(s[0]) then
      var n := Span(s, 0, IsBlank);
      if n < |s| && s[n] == d then [d] + DropBlanksBefore(s[n + 1..], d)
      else s[..n] + DropBlanksBefore(s[n..], d)
    else [s[0]] + DropBlanksBefore(s[1..], d)
  }

  /** `/[ \t]+/g -> ' '`. */
  function SqueezeBlanks(s: string): (r: string)
    ensures forall c :: c in r ==> c in s || c == ' '
    ensures s != [] ==> r != [] && (r[0] == s[0] || (IsBlank(s[0]) && r[0] == ' '))
    decreases |s|
  {
    if s == [] then []
    else if IsBlank(s[0]) then [' '] + SqueezeBlanks(s[Span(s, 0, IsBlank)..])
    else [s[0]] + SqueezeBlanks(s[1..])
  }

  /** The whole chain, in the source's order. */
  function Normalize(raw: string): string {
    var t := Trim(ReplaceCrLf(raw));
    var t := StripZeroWidth(t);
    var t := CollapseDomain(t, true);
    var t := CollapseDomain(t, false);
    var t := DropBlanksBefore(DropBlanksAfter(t, '/'), '/');
    var t := DropBlanksBefore(DropBlanksAfter(t, '.'), '.');
    Trim(SqueezeBlanks(t))
  }

  // ---------------------------------------------------------------------------
  // Adjacency properties of the normalised text

  /** The kinds of neighbouring pairs the chain is meant to remove. */
  datatype Pair = DoubleBlank | BlankAfter(d: char) | BlankBefore(d: char)

  predicate Bad(g: Pair, a: char, b: char) {
    match g
    case DoubleBlank => IsBlank(a) && IsBlank(b)
    case BlankAfter(d) => a == d && IsBlank(b)
    case BlankBefore(d) => IsBlank(a) && b == d
  }

  /** No two neighbouring characters of `s` form the pair `g`. */
  predicate Free(s: string, g: Pair) {
    forall i :: 0 < i < |s| ==> !Bad(g, s[i - 1], s[i])
  }

  /** The pairs the adjacency steps have to keep out once removed. */
  predicate Kept(g: Pair) {
    (g.BlankAfter? || g.BlankBefore?) && !IsBlank(g.d)
  }

  lemma FreeAppend(a: string, b: string, g: Pair)
    ensures Free(a + b, g) <==>
      Free(a, g) && Free(b, g) && (a != [] && b != [] ==> !Bad(g, a[|a| - 1], b[0]))
  {
    var s := a + b;
    if Free(a, g) && Free(b, g) && (a != [] && b != [] ==> !Bad(g, a[|a| - 1], b[0])) {
      forall i | 0 < i < |s| ensures !Bad(g, s[i - 1], s[i]) {
        if i < |a| {
          assert s[i - 1] == a[i - 1] && s[i] == a[i];
        } else if i == |a| {
          assert s[i - 1] == a[|a| - 1] && s[i] == b[0];
        } else {
          assert s[i - 1] == b[i - 1 - |a|] && s[i] == b[i - |a|];
        }
      }
    }
    if Free(s, g) {
      forall i | 0 < i < |a| ensures !Bad(g, a[i - 1], a[i]) {
        assert s[i - 1] == a[i - 1] && s[i] == a[i];
      }
      forall i | 0 < i < |b| ensures !Bad(g, b[i - 1], b[i]) {
        assert s[|a| + i - 1] == b[i - 1] && s[|a| + i] == b[i];
      }
      if a != [] && b != [] {
        assert s[|a| - 1] == a[|a| - 1] && s[|a|] == b[0];
      }
    }
  }

  lemma FreeSlice(s: string, i: nat, j: nat, g: Pair)
    requires i <= j <= |s| && Free(s, g)
    ensures Free(s[i..j], g)
  {
    var t := s[i..j];
    forall k | 0 < k < |t| ensures !Bad(g, t[k - 1], t[k]) {
      assert t[k - 1] == s[i + k - 1] && t[k] == s[i + k];
    }
  }

  lemma {:induction false} DropAfterEstablishes(s: string, d: char)
    requires !IsBlank(d)
    ensures Free(DropBlanksAfter(s, d), BlankAfter(d))
    decreases |s|
  {
    if s != [] {
      if s[0] == d {
        var t := s[1 + Span(s, 1, IsBlank)..];
        DropAfterEstablishes(t, d);
        FreeAppend([d], DropBlanksAfter(t, d), BlankAfter(d));
      } else {
        DropAfterEstablishes(s[1..], d);
        FreeAppend([s[0]], DropBlanksAfter(s[1..], d), BlankAfter(d));
      }
    }
  }

  lemma {:induction false} DropAfterKeeps(s: string, d: char, g: Pair)
    requires !IsBlank(d) && Kept(g) && Free(s, g)
    ensures Free(DropBlanksAfter(s, d), g)
    decreases |s|
  {
    if s != [] {
      if s[0] == d {
        var t := s[1 + Span(s, 1, IsBlank)..];
        FreeSlice(s, 1 + Span(s, 1, IsBlank), |s|, g);
        DropAfterKeeps(t, d, g);
        FreeAppend([d], DropBlanksAfter(t, d), g);
      } else {
        FreeSlice(s, 1, |s|, g);
        DropAfterKeeps(s[1..], d, g);
        FreeAppend([s[0]], DropBlanksAfter(s[1..], d), g);
      }
    }
  }

  lemma {:induction false} DropBeforeEstablishes(s: string, d: char)
    requires !IsBlank(d)
    ensures Free(DropBlanksBefore(s, d), BlankBefore(d))
    decreases |s|
  {
    if s != [] {
      if IsBlank(s[0]) {
        var n := Span(s, 0, IsBlank);
        if n < |s| && s[n] == d {
          DropBeforeEstablishes(s[n + 1..], d);
          FreeAppend([d], DropBlanksBefore(s[n + 1..], d), BlankBefore(d));
        } else {
          DropBeforeEstablishes(s[n..], d);
          FreeAppend(s[..n], DropBlanksBefore(s[n..], d), BlankBefore(d));
        }
      } else {
        DropBeforeEstablishes(s[1..], d);
        FreeAppend([s[0]], DropBlanksBefore(s[1..], d), BlankBefore(d));
      }
    }
  }

  lemma {:induction false} DropBeforeKeeps(s: string, d: char, g: Pair)
    requires !IsBlank(d) && Kept(g) && Free(s, g)
    ensures Free(DropBlanksBefore(s, d), g)
    decreases |s|
  {
    if s != [] {
      if IsBlank(s[0]) {
        var n := Span(s, 0, IsBlank);
        if n < |s| && s[n] == d {
          FreeSlice(s, n + 1, |s|, g);
          DropBeforeKeeps(s[n + 1..], d, g);
          FreeAppend([d], DropBlanksBefore(s[n + 1..], d), g);
        } else {
          FreeSlice(s, n, |s|, g);
          FreeSlice(s, 0, n, g);
          DropBeforeKeeps(s[n..], d, g);
          if n < |s| {
            assert s[..n][n - 1] == s[n - 1];
          }
          FreeAppend(s[..n], DropBlanksBefore(s[n..], d), g);
        }
      } else {
        FreeSlice(s, 1, |s|, g);
        DropBeforeKeeps(s[1..], d, g);
        FreeAppend([s[0]], DropBlanksBefore(s[1..], d), g);
      }
    }
  }

  lemma {:induction false} SqueezeEstablishes(s: string)
    ensures Free(SqueezeBlanks(s), DoubleBlank)
    decreases |s|
  {
    if s != [] {
      if IsBlank(s[0]) {
        var n := Span(s, 0, IsBlank);
        SqueezeEstablishes(s[n..]);
        FreeAppend([' '], SqueezeBlanks(s[n..]), DoubleBlank);
      } else {
        SqueezeEstablishes(s[1..]);
        FreeAppend([s[0]], SqueezeBlanks(s[1..]), DoubleBlank);
      }
    }
  }

  lemma {:induction false} SqueezeKeeps(s: string, g: Pair)
    requires Kept(g) && Free(s, g)
    ensures Free(SqueezeBlanks(s), g)
    decreases |s|
  {
    if s != [] {
      if IsBlank(s[0]) {
        var n := Span(s, 0, IsBlank);
        FreeSlice(s, n, |s|, g);
        SqueezeKeeps(s[n..], g);
        if n < |s| {
          assert !Bad(g, s[n - 1], s[n]);
        }
        FreeAppend([' '], SqueezeBlanks(s[n..]), g);
      } else {
        FreeSlice(s, 1, |s|, g);
        SqueezeKeeps(s[1..], g);
        FreeAppend([s[0]], SqueezeBlanks(s[1..]), g);
      }
    }
  }

  lemma TrimKeeps(s: string, g: Pair)
    requires Free(s, g)
    ensures Free(Trim(s), g)
  {
    var i, j :| 0 <= i <= j <= |s| && Trim(s) == s[i..j];
    FreeSlice(s, i, j, g);
  }

  /** The four blank-removal steps leave no space or tab next to `/` or `.`. */
  lemma {:induction false} StripAroundClean(t: string)
    ensures var a := DropBlanksBefore(DropBlanksAfter(t, '/'), '/');
      var r := DropBlanksBefore(DropBlanksAfter(a, '.'), '.');
      && Free(r, BlankAfter('/')) && Free(r, BlankBefore('/'))
      && Free(r, BlankAfter('.')) && Free(r, BlankBefore('.'))
  {
    var a1 := DropBlanksAfter(t, '/');
    var a2 := DropBlanksBefore(a1, '/');
    var a3 := DropBlanksAfter(a2, '.');
    DropAfterEstablishes(t, '/');
    DropBeforeEstablishes(a1, '/');
    DropBeforeKeeps(a1, '/', BlankAfter('/'));
    DropAfterEstablishes(a2, '.');
    DropAfterKeeps(a2, '.', BlankAfter('/'));
    DropAfterKeeps(a2, '.', BlankBefore('/'));
    DropBeforeEstablishes(a3, '.');
    DropBeforeKeeps(a3, '.', BlankAfter('/'));
    DropBeforeKeeps(a3, '.', BlankBefore('/'));
    DropBeforeKeeps(a3, '.', BlankAfter('.'));
  }

  /** Squeezing and trimming keep that, and leave no run of two blanks. */
  lemma {:induction false} SqueezeTrimClean(t: string)
    requires Free(t, BlankAfter('/')) && Free(t, BlankBefore('/'))
    requires Free(t, BlankAfter('.')) && Free(t, BlankBefore('.'))
    ensures var r := Trim(SqueezeBlanks(t));
      && Free(r, DoubleBlank)
      && Free(r, BlankAfter('/')) && Free(r, BlankBefore('/'))
      && Free(r, BlankAfter('.')) && Free(r, BlankBefore('.'))
  {
    var sq := SqueezeBlanks(t);
    SqueezeEstablishes(t);
    SqueezeKeeps(t, BlankAfter('/'));
    SqueezeKeeps(t, BlankBefore('/'));
    SqueezeKeeps(t, BlankAfter('.'));
    SqueezeKeeps(t, BlankBefore('.'));
    TrimKeeps(sq, DoubleBlank);
    TrimKeeps(sq, BlankAfter('/'));
    TrimKeeps(sq, BlankBefore('/'));
    TrimKeeps(sq, BlankAfter('.'));
    TrimKeeps(sq, BlankBefore('.'));
  }

  predicate NoZeroWidth(s: string) {
    forall c :: c in s ==> !IsZeroWidth(c)
  }

  /** A step that only keeps characters or adds ASCII ones adds no zero-width one. */
  lemma NoZeroWidthKept(s: string, r: string)
    requires NoZeroWidth(s)
    requires forall c :: c in r ==> c in s || c as int < 128
    ensures NoZeroWidth(r)
  {
  }

  /** No step after the stripping brings a zero-width character back. */
  lemma NoZeroWidthReturns(raw: string)
    ensures NoZeroWidth(Normalize(raw))
  {
    var t0 := StripZeroWidth(Trim(ReplaceCrLf(raw)));
    var t1 := CollapseDomain(t0, true);
    var t2 := CollapseDomain(t1, false);
    var a1 := DropBlanksAfter(t2, '/');
    var a2 := DropBlanksBefore(a1, '/');
    var a3 := DropBlanksAfter(a2, '.');
    var a4 := DropBlanksBefore(a3, '.');
    var sq := SqueezeBlanks(a4);
    NoZeroWidthKept(t0, t1);
    NoZeroWidthKept(t1, t2);
    NoZeroWidthKept(t2, a1);
    NoZeroWidthKept(a1, a2);
    NoZeroWidthKept(a2, a3);
    NoZeroWidthKept(a3, a4);
    NoZeroWidthKept(a4, sq);
    NoZeroWidthKept(sq, Trim(sq));
    assert Normalize(raw) == Trim(sq);
  }

  /**
   * What the chain guarantees about its result: no zero-width characters, no run
   * of two spaces or tabs, no space or tab next to `/` or `.`, and no white space
   * at either end.
   */
  lemma NormalizeClean(raw: string)
    ensures var r := Normalize(raw);
      && (forall c :: c in r ==> !IsZeroWidth(c))
      && Free(r, DoubleBlank)
      && Free(r, BlankAfter('/')) && Free(r, BlankBefore('/'))
      && Free(r, BlankAfter('.')) && Free(r, BlankBefore('.'))
      && (r == [] || (!IsJsSpace(r[0]) && !IsJsSpace(r[|r| - 1])))
  {
    var t0 := StripZeroWidth(Trim(ReplaceCrLf(raw)));
    var t2 := CollapseDomain(CollapseDomain(t0, true), false);
    var a4 := DropBlanksBefore(DropBlanksAfter(DropBlanksBefore(DropBlanksAfter(t2, '/'), '/'), '.'), '.');
    assert Normalize(raw) == Trim(SqueezeBlanks(a4));
    StripAroundClean(t2);
    SqueezeTrimClean(a4);
    NoZeroWidthReturns(raw);
  }

  // ---------------------------------------------------------------------------
  // Line endings

  /**
   * The CRLF rewrite leaves a CRLF behind exactly when the text holds
   * `\r\r\n`: the first `\r` survives and the pair after it becomes `\n`.
   */
  lemma {:induction false} CrLfSurvives(s: string)
    ensures Occurs(ReplaceCrLf(s), "\r\n") <==> Occurs(s, "\r\r\n")
    decreases |s|
  {
    if s == [] {
    } else if |s| >= 2 && s[0] == '\r' && s[1] == '\n' {
      CrLfSurvives(s[2..]);
      CrLfPairStep(s);
    } else {
      CrLfSurvives(s[1..]);
      CrLfCharStep(s);
    }
  }

  /** A `\r\n` at the front becomes `\n`, which starts no CRLF, and no `\r\r\n` starts there. */
  lemma CrLfPairStep(s: string)
    requires |s| >= 2 && s[0] == '\r' && s[1] == '\n'
    requires Occurs(ReplaceCrLf(s[2..]), "\r\n") <==> Occurs(s[2..], "\r\r\n")
    ensures Occurs(ReplaceCrLf(s), "\r\n") <==> Occurs(s, "\r\r\n")
  {
    var w := "\r\r\n";
    var t := s[2..];
    var r := ReplaceCrLf(s);
    assert r == ['\n'] + ReplaceCrLf(t);
    assert r[1..] == ReplaceCrLf(t);
    OccursFront(r, "\r\n");
    if |r| >= 2 { Prefix2(r, '\r', '\n'); }
    OccursFront(s, w);
    if |s| >= 3 { Prefix3(s, '\r', '\r', '\n'); }
    OccursFront(s[1..], w);
    if |s| >= 4 { Prefix3(s[1..], '\r', '\r', '\n'); }
    assert s[1..][1..] == t;
  }

  lemma Prefix2(x: string, a: char, b: char)
    requires |x| >= 2
    ensures x[..2] == [a, b] <==> x[0] == a && x[1] == b
  {
    assert x[..2][0] == x[0] && x[..2][1] == x[1];
  }

  lemma Prefix3(x: string, a: char, b: char, c: char)
    requires |x| >= 3
    ensures x[..3] == [a, b, c] <==> x[0] == a && x[1] == b && x[2] == c
  {
    assert x[..3][0] == x[0] && x[..3][1] == x[1] && x[..3][2] == x[2];
  }

  /** Any other first character is kept, and starts a CRLF exactly when it starts `\r\r\n`. */
  lemma CrLfCharStep(s: string)
    requires s != [] && !(|s| >= 2 && s[0] == '\r' && s[1] == '\n')
    requires Occurs(ReplaceCrLf(s[1..]), "\r\n") <==> Occurs(s[1..], "\r\r\n")
    ensures Occurs(ReplaceCrLf(s), "\r\n") <==> Occurs(s, "\r\r\n")
  {
    var r := ReplaceCrLf(s);
    assert r == [s[0]] + ReplaceCrLf(s[1..]);
    assert r[1..] == ReplaceCrLf(s[1..]);
    OccursFront(r, "\r\n");
    OccursFront(s, "\r\r\n");
    CrLfFront(s);
  }

  /** `w` occurs in a non-empty text when it starts it or occurs after the first character. */
  lemma OccursFront(x: string, w: string)
    requires x != []
    ensures Occurs(x, w) <==> (|w| <= |x| && x[..|w|] == w) || Occurs(x[1..], w)
  {
  }

  /** Under a kept first character, the output starts with CRLF exactly when the input starts with `\r\r\n`. */
  lemma CrLfFront(s: string)
    requires s != [] && !(|s| >= 2 && s[0] == '\r' && s[1] == '\n')
    ensures var r := ReplaceCrLf(s);
      (2 <= |r| && r[..2] == "\r\n") <==> (3 <= |s| && s[..3] == "\r\r\n")
  {
    var t := s[1..];
    var r := ReplaceCrLf(s);
    assert r == [s[0]] + ReplaceCrLf(t);
    if t != [] {
      assert ReplaceCrLf(t)[0] == (if |t| >= 2 && t[0] == '\r' && t[1] == '\n' then '\n' else t[0]);
      Prefix2(r, '\r', '\n');
      if |s| >= 3 { Prefix3(s, '\r', '\r', '\n'); }
    }
  }

  /** Every character other than the four zero-width ones survives the stripping. */
  lemma {:induction false} StripZeroWidthKeeps(s: string)
    ensures forall c :: c in s && !IsZeroWidth(c) ==> c in StripZeroWidth(s)
    decreases |s|
  {
    if s != [] {
      StripZeroWidthKeeps(s[1..]);
      assert forall c :: c in s ==> c == s[0] || c in s[1..];
    }
  }

  // ---------------------------------------------------------------------------
  // Text the later steps leave alone

  /** Without a `g` there is no `github` to collapse. */
  lemma {:induction false} CollapseDomainIdle(s: string, slash: bool)
    requires forall i :: 0 <= i < |s| ==> Lower(s[i]) != 'g'
    ensures CollapseDomain(s, slash) == s
    decreases |s|
  {
    if s != [] {
      assert DomainMatch(s, slash) == 0;
      CollapseDomainIdle(s[1..], slash);
    }
  }

  /** Without spaces and tabs the blank-removal steps change nothing. */
  lemma {:induction false} BlankStepsIdle(s: string, d: char)
    requires forall i :: 0 <= i < |s| ==> !IsBlank(s[i])
    ensures DropBlanksAfter(s, d) == s
    ensures DropBlanksBefore(s, d) == s
    ensures SqueezeBlanks(s) == s
    decreases |s|
  {
    if s != [] {
      BlankStepsIdle(s[1..], d);
      if s[0] == d {
        assert Span(s, 1, IsBlank) == 0;
      }
    }
  }

  /**
   * After the stripping, a text with no `g`, no space or tab and no white space
   * at its ends goes through the rest of the chain unchanged.
   */
  lemma NormalizeAfterStrip(raw: string)
    requires var t := StripZeroWidth(Trim(ReplaceCrLf(raw)));
      && (forall i :: 0 <= i < |t| ==> Lower(t[i]) != 'g' && !IsBlank(t[i]))
      && (t == [] || (!IsJsSpace(t[0]) && !IsJsSpace(t[|t| - 1])))
    ensures Normalize(raw) == StripZeroWidth(Trim(ReplaceCrLf(raw)))
  {
    var t := StripZeroWidth(Trim(ReplaceCrLf(raw)));
    CollapseDomainIdle(t, true);
    CollapseDomainIdle(t, false);
    BlankStepsIdle(t, '/');
    BlankStepsIdle(t, '.');
    assert Normalize(raw) == Trim(t);
  }

  /**
   * A zero-width character between `\r` and `\n` is removed only after the CRLF
   * rewrite has run, so the normalised text can still hold a CRLF.
   */
  lemma NormalizedTextMayHoldCrLf(raw: string)
    requires raw == "a\r\U{200B}\nb"
    ensures Normalize(raw) == "a\r\nb"
    ensures Occurs(Normalize(raw), "\r\n")
  {
    CrLfExampleKept(raw);
    CrLfExampleStripped();
    var t := StripZeroWidth(Trim(ReplaceCrLf(raw)));
    assert t == "a\r\nb";
    CrLfExampleClean(t);
    NormalizeAfterStrip(raw);
  }

  lemma CrLfExampleKept(s: string)
    requires s == "a\r\U{200B}\nb"
    ensures ReplaceCrLf(s) == s
    ensures Trim(s) == s
  {
    CrLfExampleReplace(s);
    CrLfExampleTrim(s);
  }

  lemma CrLfExampleReplace(s: string)
    requires s == "a\r\U{200B}\nb"
    ensures ReplaceCrLf(s) == s
  {
    assert ReplaceCrLf(s[4..]) == s[4..];
    assert ReplaceCrLf(s[3..]) == s[3..];
    assert ReplaceCrLf(s[2..]) == s[2..];
    assert ReplaceCrLf(s[1..]) == s[1..];
  }

  lemma CrLfExampleTrim(s: string)
    requires s == "a\r\U{200B}\nb"
    ensures Trim(s) == s
  {
    assert TrimStart(s) == s;
    assert TrimEnd(s) == s;
  }

  lemma CrLfExampleStripped()
    ensures StripZeroWidth("a\r\U{200B}\nb") == "a\r\nb"
  {
  }

  lemma CrLfExampleClean(t: string)
    requires t == "a\r\nb"
    ensures forall i :: 0 <= i < |t| ==> Lower(t[i]) != 'g' && !IsBlank(t[i])
    ensures !IsJsSpace(t[0]) && !IsJsSpace(t[|t| - 1])
    ensures t[1..][..2] == "\r\n"
  {
  }

  // ---------------------------------------------------------------------------
  // Split domains

  /** Every character of `g` is a space, tab, `\r` or `\n`. */
  predicate AllGaps(g: string) {
    forall i :: 0 <= i < |g| ==> IsGap(g[i])
  }

  /**
   * A domain split by white space, `w g1 . g2 c g3 / g4` with `w` any casing of
   * `github` and `c` of `com`, is one match of the first domain rewrite, and the
   * dot may be missing.
   */
  lemma SplitDomainMatches(w: string, g1: string, dot: string, g2: string, c: string,
                           g3: string, g4: string, rest: string)
    requires |w| == 6 && MatchesAt(w, 0, "github") && |c| == 3 && MatchesAt(c, 0, "com")
    requires dot == "" || dot == "."
    requires AllGaps(g1) && AllGaps(g2) && AllGaps(g3) && AllGaps(g4)
    requires rest == [] || !IsGap(rest[0])
    ensures var s := w + g1 + dot + g2 + c + g3 + "/" + g4 + rest;
      DomainMatch(s, true) == |s| - |rest|
  {
    var s := w + g1 + dot + g2 + c + g3 + "/" + g4 + rest;
    var a := 6 + |g1|;
    var b := a + |dot|;
    var e := b + |g2|;
    var h := e + 3 + |g3|;
    var z := h + 1 + |g4|;
    GapsInside(w, g1, dot + g2 + c + g3 + "/" + g4 + rest);
    GapsInside(w + g1 + dot, g2, c + g3 + "/" + g4 + rest);
    GapsInside(w + g1 + dot + g2 + c, g3, "/" + g4 + rest);
    GapsInside(w + g1 + dot + g2 + c + g3 + "/", g4, rest);
    MatchesAtJoin([], w, g1 + dot + g2 + c + g3 + "/" + g4 + rest, "github");
    MatchesAtJoin(w + g1 + dot + g2, c, g3 + "/" + g4 + rest, "com");
    SplitDomainShape(w, g1, dot, g2, c, g3, g4, rest);
    GithubMatch(s);
    DomainPieces(s, a, b, e, h, z);
    DomainMatchChain(s, e, z);
  }

  /** Where the pieces of a split domain sit. */
  lemma SplitDomainShape(w: string, g1: string, dot: string, g2: string, c: string,
                         g3: string, g4: string, rest: string)
    requires |w| == 6 && |c| == 3 && (dot == "" || dot == ".")
    ensures var s := w + g1 + dot + g2 + c + g3 + "/" + g4 + rest;
      var a := 6 + |g1|;
      var h := a + |dot| + |g2| + 3 + |g3|;
      && s == [] + w + (g1 + dot + g2 + c + g3 + "/" + g4 + rest)
      && s == w + g1 + (dot + g2 + c + g3 + "/" + g4 + rest)
      && s == (w + g1 + dot) + g2 + (c + g3 + "/" + g4 + rest)
      && s == (w + g1 + dot + g2) + c + (g3 + "/" + g4 + rest)
      && s == (w + g1 + dot + g2 + c) + g3 + ("/" + g4 + rest)
      && s == (w + g1 + dot + g2 + c + g3 + "/") + g4 + rest
      && (dot == "." ==> s[a] == '.') && s[h] == '/'
      && s[h + 1 + |g4|..] == rest
  {
    SplitDomainFront(w, g1, dot, g2, c, g3, g4, rest);
    SplitDomainBack(w, g1, dot, g2, c, g3, g4, rest);
    SplitDomainMarks(w, g1, dot, g2, c, g3, g4, rest);
  }

  lemma SplitDomainFront(w: string, g1: string, dot: string, g2: string, c: string,
                         g3: string, g4: string, rest: string)
    requires |w| == 6 && |c| == 3 && (dot == "" || dot == ".")
    ensures var s := w + g1 + dot + g2 + c + g3 + "/" + g4 + rest;
      && s == [] + w + (g1 + dot + g2 + c + g3 + "/" + g4 + rest)
      && s == w + g1 + (dot + g2 + c + g3 + "/" + g4 + rest)
      && s == (w + g1 + dot) + g2 + (c + g3 + "/" + g4 + rest)
  {
  }

  lemma SplitDomainBack(w: string, g1: string, dot: string, g2: string, c: string,
                         g3: string, g4: string, rest: string)
    requires |w| == 6 && |c| == 3 && (dot == "" || dot == ".")
    ensures var s := w + g1 + dot + g2 + c + g3 + "/" + g4 + rest;
      && s == (w + g1 + dot + g2) + c + (g3 + "/" + g4 + rest)
      && s == (w + g1 + dot + g2 + c) + g3 + ("/" + g4 + rest)
      && s == (w + g1 + dot + g2 + c + g3 + "/") + g4 + rest
  {
  }

  lemma SplitDomainMarks(w: string, g1: string, dot: string, g2: string, c: string,
                         g3: string, g4: string, rest: string)
    requires |w| == 6 && |c| == 3 && (dot == "" || dot == ".")
    ensures var s := w + g1 + dot + g2 + c + g3 + "/" + g4 + rest;
      var a := 6 + |g1|;
      var h := a + |dot| + |g2| + 3 + |g3|;
      && (dot == "." ==> s[a] == '.') && s[h] == '/'
      && s[h + 1 + |g4|..] == rest
  {
  }

  /** The characters of `g` are gaps wherever `g` sits. */
  lemma GapsInside(x: string, g: string, y: string)
    requires AllGaps(g)
    ensures forall k :: |x| <= k < |x| + |g| ==> IsGap((x + g + y)[k])
  {
    forall k | |x| <= k < |x| + |g| ensures IsGap((x + g + y)[k]) {
      assert (x + g + y)[k] == g[k - |x|];
    }
  }

  /** The first domain rewrite turns such a split domain into `github.com/` and goes on after it. */
  lemma SplitDomainCollapses(w: string, g1: string, dot: string, g2: string, c: string,
                             g3: string, g4: string, rest: string)
    requires |w| == 6 && MatchesAt(w, 0, "github") && |c| == 3 && MatchesAt(c, 0, "com")
    requires dot == "" || dot == "."
    requires AllGaps(g1) && AllGaps(g2) && AllGaps(g3) && AllGaps(g4)
    requires rest == [] || !IsGap(rest[0])
    ensures CollapseDomain(w + g1 + dot + g2 + c + g3 + "/" + g4 + rest, true)
      == "github.com/" + CollapseDomain(rest, true)
  {
    var s := w + g1 + dot + g2 + c + g3 + "/" + g4 + rest;
    SplitDomainMatches(w, g1, dot, g2, c, g3, g4, rest);
    var n := |s| - |rest|;
    assert s[n..] == rest;
  }

  /** Where the gaps, the dot, `com` and the slash of a split domain leave `DotGap` and `SlashGap`. */
  lemma DomainPieces(s: string, a: nat, b: nat, e: nat, h: nat, z: nat)
    requires 6 <= a <= b <= a + 1 && b <= e && e + 3 <= h < z <= |s|
    requires MatchesAt(s, e, "com")
    requires b == a + 1 ==> s[a] == '.'
    requires forall k :: 6 <= k < a ==> IsGap(s[k])
    requires forall k :: b <= k < e ==> IsGap(s[k])
    requires forall k :: e + 3 <= k < h ==> IsGap(s[k])
    requires s[h] == '/'
    requires forall k :: h + 1 <= k < z ==> IsGap(s[k])
    requires z < |s| ==> !IsGap(s[z])
    ensures DotGap(s, 6 + Span(s, 6, IsGap)) == e
    ensures ComMatch(s, e, true) == SlashGap(s, e + 3) == z
  {
    ComAhead(s, e);
    ComSlash(s, e);
    DotGapSplit(s, a, b, e);
    SlashGapSplit(s, e + 3, h, z);
  }

  /** The pieces of `DomainMatch` put together. */
  lemma DomainMatchChain(s: string, e: nat, z: nat)
    requires 6 <= |s| && DomainMatch(s, true) == ComMatch(s, DotGap(s, 6 + Span(s, 6, IsGap)), true)
    requires DotGap(s, 6 + Span(s, 6, IsGap)) == e
    requires e + 3 <= |s| && ComMatch(s, e, true) == SlashGap(s, e + 3)
    requires SlashGap(s, e + 3) == z
    ensures DomainMatch(s, true) == z
  {
  }

  lemma GithubMatch(s: string)
    requires MatchesAt(s, 0, "github")
    ensures 6 <= |s| && DomainMatch(s, true) == ComMatch(s, DotGap(s, 6 + Span(s, 6, IsGap)), true)
  {
    MatchesAtFits(s, 0, "github");
  }

  lemma ComAhead(s: string, e: nat)
    requires MatchesAt(s, e, "com")
    ensures e + 3 <= |s| && s[e] != '.' && !IsGap(s[e])
  {
    MatchesAtBounds(s, e, "com");
  }

  lemma ComSlash(s: string, e: nat)
    requires MatchesAt(s, e, "com")
    ensures e + 3 <= |s| && ComMatch(s, e, true) == SlashGap(s, e + 3)
  {
    MatchesAtFits(s, e, "com");
  }

  lemma DotGapSplit(s: string, a: nat, b: nat, e: nat)
    requires 6 <= a <= b <= a + 1 && b <= e < |s| && s[e] != '.' && !IsGap(s[e])
    requires b == a + 1 ==> s[a] == '.'
    requires forall k :: 6 <= k < a ==> IsGap(s[k])
    requires forall k :: b <= k < e ==> IsGap(s[k])
    ensures DotGap(s, 6 + Span(s, 6, IsGap)) == e
  {
    if b == a + 1 {
      SpanExact(s, 6, IsGap, a - 6);
      SpanExact(s, b, IsGap, e - b);
    } else {
      SpanExact(s, 6, IsGap, e - 6);
    }
  }

  lemma SlashGapSplit(s: string, f: nat, h: nat, z: nat)
    requires f <= h < z <= |s| && s[h] == '/'
    requires forall k :: f <= k < h ==> IsGap(s[k])
    requires forall k :: h + 1 <= k < z ==> IsGap(s[k])
    requires z < |s| ==> !IsGap(s[z])
    ensures SlashGap(s, f) == z
  {
    SpanExact(s, f, IsGap, h - f);
    SpanExact(s, h + 1, IsGap, z - h - 1);
  }
}
