/**
 * The fields that the enrichment computes from API bodies rather than copies:
 * the README snippet, the tech stack ordered by bytes, the duration of a
 * repository in days and the activity of a user over the last thirty days.
 * Times are integer milliseconds since the epoch.
 */
module Derive {
  import opened Text
  import opened Api

  // ---------------------------------------------------------------------------
  // README snippet

  /** `content.split(/\r?\n/).map(s => s.trim()).filter(Boolean)`. */
  function ReadmeLines(content: string): seq<string> {
    NonEmptyTrimmed(Lines(content))
  }

  function NonEmptyTrimmed(ls: seq<string>): (r: seq<string>)
    requires forall i :: 0 <= i < |ls| ==> '\n' !in ls[i]
    ensures |r| <= |ls|
    ensures forall i :: 0 <= i < |r| ==> TrimmedLine(r[i])
  {
    if ls == [] then []
    else
      LinesTail(ls);
      var t := Trim(ls[0]);
      var rest := NonEmptyTrimmed(ls[1..]);
      if t == [] then rest
      else
        TrimLine(ls[0]);
        ConsTrimmed(t, rest);
        [t] + rest
  }

  lemma LinesTail(ls: seq<string>)
    requires ls != [] && forall i :: 0 <= i < |ls| ==> '\n' !in ls[i]
    ensures forall i :: 0 <= i < |ls[1..]| ==> '\n' !in ls[1..][i]
  {
    forall i | 0 <= i < |ls[1..]| ensures '\n' !in ls[1..][i] {
      assert ls[1..][i] == ls[i + 1];
    }
  }

  lemma TrimLine(l: string)
    requires '\n' !in l && Trim(l) != []
    ensures TrimmedLine(Trim(l))
  {
  }

  lemma ConsTrimmed(t: string, rest: seq<string>)
    requires TrimmedLine(t) && forall i :: 0 <= i < |rest| ==> TrimmedLine(rest[i])
    ensures forall i :: 0 <= i < |[t] + rest| ==> TrimmedLine(([t] + rest)[i])
  {
    forall i | 0 <= i < |[t] + rest| ensures TrimmedLine(([t] + rest)[i]) {
      if i > 0 {
        assert ([t] + rest)[i] == rest[i - 1];
      }
    }
  }

  /** A README line once trimmed and kept: not empty, one line, no white space at either end. */
  predicate TrimmedLine(l: string) {
    l != [] && '\n' !in l && !IsJsSpace(l[0]) && !IsJsSpace(l[|l| - 1])
  }

  function Take(ls: seq<string>, n: nat): (r: seq<string>)
    ensures |r| == Min(n, |ls|) && r == ls[..|r|]
  {
    if |ls| <= n then ls else ls[..n]
  }

  /** `m.slice(0, 5).join('\n')`. */
  function Joined(content: string): string {
    Join(Take(ReadmeLines(content), 5), "\n")
  }

  /** `m.slice(0, 5).join('\n').slice(0, 800)`. */
  function Snippet(content: string): (r: string)
    ensures |r| <= 800 && |r| <= |Joined(content)|
    ensures |Joined(content)| > 800 ==> |r| == 800
    ensures r == Joined(content)[..|r|]
    ensures |Joined(content)| <= 800 ==> r == Joined(content)
  {
    var j := Joined(content);
    j[..Min(800, |j|)]
  }

  /**
   * A snippet that was not cut at 800 characters splits back into the first
   * (at most five) non-empty trimmed lines of the README, so nothing else is in it.
   */
  lemma SnippetLines(content: string)
    requires ReadmeLines(content) != []
    requires |Joined(content)| <= 800
    ensures var ls := Take(ReadmeLines(content), 5);
      1 <= |ls| <= 5 && Lines(Snippet(content)) == ls
  {
    var ls := Take(ReadmeLines(content), 5);
    TakeTrimmed(ReadmeLines(content), ls);
    SplitJoin(ls);
  }

  /** Whatever the cut at 800 characters leaves, the snippet has at most five lines. */
  lemma SnippetAtMostFiveLines(content: string)
    ensures |Lines(Snippet(content))| <= 5
  {
    var ls := Take(ReadmeLines(content), 5);
    var j := Joined(content);
    var r := Snippet(content);
    TakeTrimmed(ReadmeLines(content), ls);
    JoinNewlines(ls);
    PrefixNewlines(j, |r|);
    LinesNewlines(r);
  }

  /** `s.split(/\r?\n/)` has one line more than `s` has `\n`s. */
  lemma {:induction false} LinesNewlines(s: string)
    ensures |Lines(s)| == multiset(s)['\n'] + 1
    decreases |s|
  {
    var i := IndexOf(s, '\n');
    if i == |s| {
      assert '\n' !in s;
    } else {
      var a, b := s[..i], s[i + 1..];
      assert s == a + ['\n'] + b;
      assert '\n' !in a by {
        forall k | 0 <= k < i ensures a[k] != '\n' { }
      }
      LinesNewlines(b);
    }
  }

  /** A prefix has no more `\n`s than the whole. */
  lemma PrefixNewlines(s: string, n: nat)
    requires n <= |s|
    ensures multiset(s[..n])['\n'] <= multiset(s)['\n']
  {
    assert s == s[..n] + s[n..];
  }

  /** Joining lines without `\n` by `\n` puts one `\n` between each two. */
  lemma {:induction false} JoinNewlines(ls: seq<string>)
    requires forall i :: 0 <= i < |ls| ==> '\n' !in ls[i]
    ensures multiset(Join(ls, "\n"))['\n'] == if ls == [] then 0 else |ls| - 1
  {
    if |ls| > 1 {
      var rest := ls[1..];
      assert forall i :: 0 <= i < |rest| ==> rest[i] == ls[i + 1];
      JoinNewlines(rest);
      assert Join(ls, "\n") == ls[0] + "\n" + Join(rest, "\n");
    }
  }

  /** Trimming and dropping empty lines works line by line. */
  lemma {:induction false} NonEmptyTrimmedAppend(a: seq<string>, b: seq<string>)
    requires forall i :: 0 <= i < |a| ==> '\n' !in a[i]
    requires forall i :: 0 <= i < |b| ==> '\n' !in b[i]
    ensures forall i :: 0 <= i < |a + b| ==> '\n' !in (a + b)[i]
    ensures NonEmptyTrimmed(a + b) == NonEmptyTrimmed(a) + NonEmptyTrimmed(b)
  {
    AppendNoNewline(a, b);
    if a != [] {
      LinesTail(a);
      AppendNoNewline(a[1..], b);
      assert (a + b)[1..] == a[1..] + b;
      NonEmptyTrimmedAppend(a[1..], b);
    } else {
      assert a + b == b;
    }
  }

  lemma AppendNoNewline(a: seq<string>, b: seq<string>)
    requires forall i :: 0 <= i < |a| ==> '\n' !in a[i]
    requires forall i :: 0 <= i < |b| ==> '\n' !in b[i]
    ensures forall i :: 0 <= i < |a + b| ==> '\n' !in (a + b)[i]
  {
    forall i | 0 <= i < |a + b| ensures '\n' !in (a + b)[i] {
      if i >= |a| {
        assert (a + b)[i] == b[i - |a|];
      }
    }
  }

  /** One line is kept, trimmed, exactly when it is not all white space. */
  lemma NonEmptyTrimmedOne(l: string)
    requires '\n' !in l
    ensures NonEmptyTrimmed([l]) == if Trim(l) == [] then [] else [Trim(l)]
  {
  }

  lemma TakeTrimmed(all: seq<string>, ls: seq<string>)
    requires forall i :: 0 <= i < |all| ==> TrimmedLine(all[i])
    requires |ls| <= |all| && ls == all[..|ls|]
    ensures forall i :: 0 <= i < |ls| ==> '\n' !in ls[i] && (ls[i] == [] || ls[i][|ls[i]| - 1] != '\r')
  {
    forall i | 0 <= i < |ls| ensures '\n' !in ls[i] && (ls[i] == [] || ls[i][|ls[i]| - 1] != '\r') {
      assert ls[i] == all[i];
    }
  }

  /** Joining lines by `\n` and splitting by `\r?\n` is the identity. */
  lemma {:induction false} SplitJoin(ls: seq<string>)
    requires ls != []
    requires forall i :: 0 <= i < |ls| ==> '\n' !in ls[i] && (ls[i] == [] || ls[i][|ls[i]| - 1] != '\r')
    ensures Lines(Join(ls, "\n")) == ls
  {
    if |ls| == 1 {
      NoNewline(ls[0]);
    } else {
      var rest := ls[1..];
      assert forall i :: 0 <= i < |rest| ==> rest[i] == ls[i + 1];
      SplitJoin(rest);
      LinesCons(ls[0], Join(rest, "\n"));
    }
  }

  /** A first line without `\n` and not ending in `\r` splits off whole. */
  lemma LinesCons(a: string, b: string)
    requires '\n' !in a && (a == [] || a[|a| - 1] != '\r')
    ensures Lines(a + "\n" + b) == [a] + Lines(b)
  {
    var s := a + "\n" + b;
    IndexOfJoin(a, b);
    assert s[..|a|] == a;
    assert s[|a| + 1..] == b;
  }

  lemma NoNewline(a: string)
    requires '\n' !in a
    ensures IndexOf(a, '\n') == |a|
  {
  }

  lemma IndexOfJoin(a: string, b: string)
    requires '\n' !in a
    ensures IndexOf(a + "\n" + b, '\n') == |a|
  {
    var s := a + "\n" + b;
    assert s[|a|] == '\n';
    assert forall k :: 0 <= k < |a| ==> s[k] == a[k];
  }

  // ---------------------------------------------------------------------------
  // Tech stack

  /**
   * A language entry's byte count as the subtraction in the comparator
   * converts it: a number is itself, `true` is 1, and `false` and `null` are 0.
   * Text, arrays and objects would go through `Number(...)`; here they count
   * as 0.
   */
  function Bytes(v: Json): int {
    match v
    case Num(n) => n
    case Bool(b) => if b then 1 else 0
    case _ => 0
  }

  /**
   * The entries in the order of a stable sort by `(a, b) => b[1] - a[1]`: `x`
   * goes in front of the first entry with no more bytes.
   */
  function Insert(x: (string, Json), s: seq<(string, Json)>): (r: seq<(string, Json)>)
    ensures |r| == |s| + 1
    ensures multiset(r) == multiset(s) + multiset{x}
  {
    if s == [] || Bytes(s[0].1) <= Bytes(x.1) then [x] + s
    else
      assert s == [s[0]] + s[1..];
      [s[0]] + Insert(x, s[1..])
  }

  function SortByBytes(s: seq<(string, Json)>): (r: seq<(string, Json)>)
    ensures |r| == |s|
    ensures multiset(r) == multiset(s)
  {
    if s == [] then [] else
      assert s == [s[0]] + s[1..];
      Insert(s[0], SortByBytes(s[1..]))
  }

  predicate Descending(s: seq<(string, Json)>) {
    forall i, j :: 0 <= i < j < |s| ==> Bytes(s[i].1) >= Bytes(s[j].1)
  }

  /** The entries with exactly `n` bytes, in order. */
  function WithBytes(s: seq<(string, Json)>, n: int): seq<(string, Json)> {
    if s == [] then [] else (if Bytes(s[0].1) == n then [s[0]] else []) + WithBytes(s[1..], n)
  }

  lemma {:induction false} InsertDescending(x: (string, Json), s: seq<(string, Json)>)
    requires Descending(s)
    ensures Descending(Insert(x, s))
  {
    if !(s == [] || Bytes(s[0].1) <= Bytes(x.1)) {
      InsertDescending(x, s[1..]);
      var t := Insert(x, s[1..]);
      forall e | e in t ensures Bytes(s[0].1) >= Bytes(e.1) {
        HeadAbove(x, s, e);
      }
      ConsDescending(s[0], t);
    }
  }

  /** Whatever lands behind the head when `x` goes further in has no more bytes than the head. */
  lemma HeadAbove(x: (string, Json), s: seq<(string, Json)>, e: (string, Json))
    requires Descending(s) && s != [] && Bytes(s[0].1) > Bytes(x.1)
    requires e in Insert(x, s[1..])
    ensures Bytes(s[0].1) >= Bytes(e.1)
  {
    assert e in multiset(Insert(x, s[1..]));
    if e != x {
      assert e in s[1..];
      var k :| 0 <= k < |s[1..]| && s[1..][k] == e;
      assert s[k + 1] == e;
    }
  }

  lemma ConsDescending(y: (string, Json), t: seq<(string, Json)>)
    requires Descending(t)
    requires forall e :: e in t ==> Bytes(y.1) >= Bytes(e.1)
    ensures Descending([y] + t)
  {
    var r := [y] + t;
    forall i, j | 0 <= i < j < |r| ensures Bytes(r[i].1) >= Bytes(r[j].1) {
      assert r[j] == t[j - 1];
      if i > 0 {
        assert r[i] == t[i - 1];
      }
    }
  }

  /** Inserting puts `x` before every entry with its byte count. */
  lemma {:induction false} InsertWithBytes(x: (string, Json), s: seq<(string, Json)>, n: int)
    ensures WithBytes(Insert(x, s), n) == (if Bytes(x.1) == n then [x] else []) + WithBytes(s, n)
  {
    if s == [] || Bytes(s[0].1) <= Bytes(x.1) {
      WithBytesCons(x, s, n);
    } else {
      var t := Insert(x, s[1..]);
      assert Insert(x, s) == [s[0]] + t;
      WithBytesCons(s[0], t, n);
      InsertWithBytes(x, s[1..], n);
    }
  }

  lemma WithBytesCons(y: (string, Json), t: seq<(string, Json)>, n: int)
    ensures WithBytes([y] + t, n) == (if Bytes(y.1) == n then [y] else []) + WithBytes(t, n)
  {
    assert ([y] + t)[1..] == t;
  }

  /** The sort is descending by bytes. */
  lemma {:induction false} SortDescending(s: seq<(string, Json)>)
    ensures Descending(SortByBytes(s))
  {
    if s != [] {
      SortDescending(s[1..]);
      InsertDescending(s[0], SortByBytes(s[1..]));
    }
  }

  /** The sort is stable: entries with the same byte count keep their order. */
  lemma {:induction false} SortStable(s: seq<(string, Json)>, n: int)
    ensures WithBytes(SortByBytes(s), n) == WithBytes(s, n)
  {
    if s != [] {
      SortStable(s[1..], n);
      InsertWithBytes(s[0], SortByBytes(s[1..]), n);
    }
  }

  function Keys(s: seq<(string, Json)>): (ks: seq<string>)
    ensures |ks| == |s| && forall i :: 0 <= i < |s| ==> ks[i] == s[i].0
  {
    if s == [] then [] else [s[0].0] + Keys(s[1..])
  }

  /**
   * `Object.entries(body).sort((a, b) => b[1] - a[1]).map(([k]) => k)` for an
   * object body: the language names, most bytes first.
   */
  function TechStack(languages: seq<(string, Json)>): seq<string> {
    Keys(SortByBytes(languages))
  }

  /**
   * The tech stack names every language once per entry, in non-increasing
   * byte order, languages with equal bytes in the order the body lists them.
   */
  lemma TechStackOrder(languages: seq<(string, Json)>)
    ensures |TechStack(languages)| == |languages|
    ensures multiset(TechStack(languages)) == multiset(Keys(languages))
    ensures forall i, j :: 0 <= i < j < |languages| ==>
      Bytes(SortByBytes(languages)[i].1) >= Bytes(SortByBytes(languages)[j].1)
    ensures forall n :: WithBytes(SortByBytes(languages), n) == WithBytes(languages, n)
  {
    SortDescending(languages);
    forall n ensures WithBytes(SortByBytes(languages), n) == WithBytes(languages, n) {
      SortStable(languages, n);
    }
    KeysSort(languages);
  }

  lemma {:induction false} KeysSort(s: seq<(string, Json)>)
    ensures multiset(Keys(SortByBytes(s))) == multiset(Keys(s))
  {
    if s != [] {
      KeysSort(s[1..]);
      KeysInsert(s[0], SortByBytes(s[1..]));
      assert Keys(s) == [s[0].0] + Keys(s[1..]);
    }
  }

  lemma {:induction false} KeysInsert(x: (string, Json), s: seq<(string, Json)>)
    ensures multiset(Keys(Insert(x, s))) == multiset(Keys(s)) + multiset{x.0}
  {
    if s == [] || Bytes(s[0].1) <= Bytes(x.1) {
      assert Keys([x] + s) == [x.0] + Keys(s);
    } else {
      KeysInsert(x, s[1..]);
      assert Keys(Insert(x, s)) == [s[0].0] + Keys(Insert(x, s[1..]));
      assert Keys(s) == [s[0].0] + Keys(s[1..]);
    }
  }

  // ---------------------------------------------------------------------------
  // Duration

  /** Milliseconds in a day, `1000 * 60 * 60 * 24`. */
  const DayMs: nat := 86400000

  /**
   * `Math.round(delta / DayMs)`: the nearest whole number of days, halves
   * rounded up.
   */
  function RoundDays(delta: int): (r: int)
    ensures 2 * DayMs * r - DayMs <= 2 * delta < 2 * DayMs * r + DayMs
  {
    (2 * delta + DayMs) / (2 * DayMs)
  }

  /**
   * `durationDays`: when both dates are truthy, the rounded number of days
   * from the first to the last, or 0 when that is negative; `None` (JSON
   * `null`) when a date is missing or does not parse (`NaN`).
   */
  function DurationDays(created: Json, pushed: Json, parse: Json -> Option<int>): (r: Option<int>)
    ensures r.Some? ==> r.value >= 0
    ensures r.Some? <==> Truthy(created) && Truthy(pushed) && parse(created).Some? && parse(pushed).Some?
    ensures r.Some? && r.value > 0 ==> r.value == RoundDays(parse(pushed).value - parse(created).value)
    ensures r.Some? && r.value == 0 ==> RoundDays(parse(pushed).value - parse(created).value) <= 0
  {
    if !(Truthy(created) && Truthy(pushed)) then None
    else match (parse(created), parse(pushed))
      case (Some(a), Some(b)) => Some(if RoundDays(b - a) < 0 then 0 else RoundDays(b - a))
      case _ => None
  }

  // ---------------------------------------------------------------------------
  // Activity

  /** `THIRTY_DAYS`. */
  const ThirtyDays: nat := 30 * DayMs

  /**
   * The time of an event that has a truthy `created_at` that parses, `None`
   * for an event the loop skips.
   */
  function EventTime(ev: Json, parse: Json -> Option<int>): Option<int> {
    if !Truthy(ev) then None
    else
      var c := Get(ev, "created_at");
      if !Has(c) then None else parse(c.value)
  }

  /** The UTC calendar day of a time, the date part of `toISOString()`. */
  function DayOf(t: int): int {
    t / DayMs
  }

  /** `daysSet` after the loop: the days of the events at most thirty days old. */
  function ActiveDays(events: seq<Json>, now: int, parse: Json -> Option<int>): set<int> {
    if events == [] then {}
    else
      var before := ActiveDays(events[..|events| - 1], now, parse);
      match EventTime(events[|events| - 1], parse)
      case Some(t) => if now - t <= ThirtyDays then before + {DayOf(t)} else before
      case None => before
  }

  /** `Math.round((daysActive / 30) * 100)`. */
  function Percent(days: nat): (r: nat)
    ensures 3 * r - 1 <= 10 * days <= 3 * r + 1
  {
    (20 * days + 3) / 6
  }

  /** The percentage stays within 100 exactly for at most thirty active days. */
  lemma PercentAtMost100(days: nat)
    ensures Percent(days) <= 100 <==> days <= 30
  {
  }

  /**
   * The activity loop: it skips events without a parsable `created_at` and
   * collects the days of the others that are at most thirty days old.
   */
  method Activity(events: seq<Json>, now: int, parse: Json -> Option<int>)
    returns (daysActive: nat, percentActive: nat)
    ensures daysActive == |ActiveDays(events, now, parse)|
    ensures percentActive == Percent(daysActive)
  {
    var daysSet: set<int> := {};
    var k := 0;
    while k < |events|
      invariant 0 <= k <= |events|
      invariant daysSet == ActiveDays(events[..k], now, parse)
    {
      assert events[..k + 1][..k] == events[..k];
      var ev := events[k];
      var t := EventTime(ev, parse);
      if t.Some? && now - t.value <= ThirtyDays {
        daysSet := daysSet + {DayOf(t.value)};
      }
      k := k + 1;
    }
    assert events[..k] == events;
    daysActive := |daysSet|;
    percentActive := Percent(daysActive);
  }

  /**
   * Without events in the future, the active days lie in a window of 31 UTC
   * dates, so `daysActive` is at most 31 and `percentActive` at most 103.
   */
  lemma ActivityBound(events: seq<Json>, now: int, parse: Json -> Option<int>)
    requires forall i :: 0 <= i < |events| && EventTime(events[i], parse).Some? ==>
      EventTime(events[i], parse).value <= now
    ensures |ActiveDays(events, now, parse)| <= 31
    ensures Percent(|ActiveDays(events, now, parse)|) <= 103
  {
    var lo := DayOf(now - ThirtyDays);
    ActiveDaysWithin(events, now, parse);
    assert DayOf(now) == lo + 30;
    RangeCard(ActiveDays(events, now, parse), lo, lo + 30);
  }

  /** An event one millisecond into UTC day `d`. */
  function DayEvent(d: nat): Json {
    Obj([("created_at", Num(d * DayMs + 1))])
  }

  /** A `Date.parse` for the events above: the number itself. */
  function ParseNum(v: Json): Option<int> {
    if v.Num? then Some(v.n) else None
  }

  /** One event on each of the days `0 .. n - 1`. */
  function DailyEvents(n: nat): (es: seq<Json>)
    ensures |es| == n && forall d :: 0 <= d < n ==> es[d] == DayEvent(d)
  {
    seq(n, d requires 0 <= d < n => DayEvent(d))
  }

  /** The current time of the witness below: one millisecond into UTC day 30. */
  const WitnessNow: int := 30 * DayMs + 1

  /**
   * The bound of `ActivityBound` is reached: one past event on each of the 31
   * UTC dates from day 0 to day 30 gives 31 active days and 103%.
   */
  lemma ActivityBoundReached()
    ensures var events := DailyEvents(31);
      (forall i :: 0 <= i < |events| && EventTime(events[i], ParseNum).Some? ==>
        EventTime(events[i], ParseNum).value <= WitnessNow) &&
      |ActiveDays(events, WitnessNow, ParseNum)| == 31 &&
      Percent(|ActiveDays(events, WitnessNow, ParseNum)|) == 103
  {
    var events := DailyEvents(31);
    forall i | 0 <= i < |events|
      ensures EventTime(events[i], ParseNum) == Some(i * DayMs + 1) && i * DayMs + 1 <= WitnessNow
    {
      DayEventTime(i);
      assert i * DayMs <= 30 * DayMs;
    }
    DailyDays(31);
    assert Percent(31) == 103;
  }

  lemma DayEventTime(d: nat)
    ensures EventTime(DayEvent(d), ParseNum) == Some(d * DayMs + 1)
    ensures DayOf(d * DayMs + 1) == d
  {
    assert Get(DayEvent(d), "created_at") == Some(Num(d * DayMs + 1));
  }

  /** The first `n` daily events are active, at the witness's time, on days `0 .. n - 1`. */
  lemma {:induction false} DailyDays(n: nat)
    requires n <= 31
    ensures |ActiveDays(DailyEvents(n), WitnessNow, ParseNum)| == n
    ensures forall x :: x in ActiveDays(DailyEvents(n), WitnessNow, ParseNum) ==> 0 <= x < n
  {
    if n > 0 {
      var es := DailyEvents(n);
      assert es[..n - 1] == DailyEvents(n - 1);
      DailyDays(n - 1);
      DayEventTime(n - 1);
      assert 0 <= (n - 1) * DayMs;
      var before := ActiveDays(DailyEvents(n - 1), WitnessNow, ParseNum);
      assert n - 1 !in before;
      assert ActiveDays(es, WitnessNow, ParseNum) == before + {n - 1};
    }
  }

  lemma {:induction false} ActiveDaysWithin(events: seq<Json>, now: int, parse: Json -> Option<int>)
    requires forall i :: 0 <= i < |events| && EventTime(events[i], parse).Some? ==>
      EventTime(events[i], parse).value <= now
    ensures forall d :: d in ActiveDays(events, now, parse) ==> DayOf(now - ThirtyDays) <= d <= DayOf(now)
  {
    if events != [] {
      var init := events[..|events| - 1];
      assert forall i :: 0 <= i < |init| ==> init[i] == events[i];
      ActiveDaysWithin(init, now, parse);
      var t := EventTime(events[|events| - 1], parse);
      if t.Some? && now - t.value <= ThirtyDays {
        assert DayOf(now - ThirtyDays) <= DayOf(t.value) <= DayOf(now);
      }
    }
  }

  lemma {:induction false} RangeCard(s: set<int>, lo: int, hi: int)
    requires lo <= hi + 1
    requires forall d :: d in s ==> lo <= d <= hi
    ensures |s| <= hi - lo + 1
    decreases hi - lo + 1
  {
    if lo <= hi {
      RangeCard(s - {hi}, lo, hi - 1);
    } else {
      assert s == {} by {
        forall d | d in s ensures false {
        }
      }
    }
  }
}
