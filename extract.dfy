/**
 * `extractGithubEntities`: the five passes run one after the other over the
 * same text, and every match becomes a candidate entity. A candidate whose
 * identity key was already seen is dropped, so the first pass to name an
 * identity decides its entity.
 */
module Extract {
  import opened Text
  import opened Patterns

  datatype Kind = User | Repo

  /**
   * One result. `repo` is `None` where the source leaves the property out, and
   * `Some([])` for a URL whose path was made only of trailing punctuation.
   * Confidences are in hundredths.
   */
  datatype Entity = Entity(kind: Kind, owner: string, repo: Option<string>, url: string, confidence: nat)

  const Base := "https://github.com/"

  /** The class `[\/)\]\.,;]` of characters trimmed from the end of a path. */
  predicate IsTrail(c: char) {
    c == '/' || c == ')' || c == ']' || c == '.' || c == ',' || c == ';'
  }

  /**
   * `s.replace(/[\/)\]\.,;]+$/, '')`: the leftmost place from which only trail
   * characters follow is the start of the longest trailing run of them.
   */
  function StripTrail(s: string): (r: string)
    ensures |r| <= |s| && r == s[..|r|]
    ensures r == [] || !IsTrail(r[|r| - 1])
    ensures forall k :: |r| <= k < |s| ==> IsTrail(s[k])
  {
    if s != [] && IsTrail(s[|s| - 1]) then StripTrail(s[..|s| - 1]) else s
  }

  /** A path made only of trail characters is stripped to nothing. */
  lemma {:induction false} StripTrailAll(s: string)
    requires forall k :: 0 <= k < |s| ==> IsTrail(s[k])
    ensures StripTrail(s) == []
  {
    if s != [] {
      StripTrailAll(s[..|s| - 1]);
    }
  }

  /** The identity key: `owner/repo` for a non-empty repo, the owner otherwise. */
  function Key(e: Entity): string {
    if e.repo.Some? && e.repo.value != [] then e.owner + "/" + e.repo.value else e.owner
  }

  /** The entity a pass-1 or pass-2 match adds. */
  function UrlEntity(h: Hit): (e: Entity)
    ensures e.owner == h.owner
    ensures h.path.None? ==> e.kind == User && e.repo.None?
    ensures h.path.Some? ==> e.repo == Some(StripTrail(h.path.value))
    ensures e.kind == Repo <==> h.path.Some? && StripTrail(h.path.value) != []
    ensures e.kind == Repo ==> e.confidence == 95 && e.url == Base + e.owner + "/" + e.repo.value
    ensures e.kind == User ==> e.confidence == 99 && e.url == Base + e.owner && Key(e) == e.owner
  {
    var repo := if h.path.Some? then Some(StripTrail(h.path.value)) else None;
    if repo.Some? && repo.value != [] then Entity(Repo, h.owner, repo, Base + h.owner + "/" + repo.value, 95)
    else Entity(User, h.owner, repo, Base + h.owner, 99)
  }

  /** The entity a pass-3, pass-4 or pass-5 match adds. */
  function UserEntity(owner: string, confidence: nat): (e: Entity)
    ensures e.kind == User && e.owner == owner && e.repo.None? && Key(e) == owner
    ensures e.url == Base + owner && e.confidence == confidence
  {
    Entity(User, owner, None, Base + owner, confidence)
  }

  /** The candidate a match of `pass` stands for. */
  function ToEntity(pass: Pass, h: Hit): Entity {
    match pass
    case UrlPass => UrlEntity(h)
    case PlainPass => UrlEntity(h)
    case LabelPass => UserEntity(h.owner, 90)
    case MentionPass => UserEntity(h.owner, 85)
    case NearPass => UserEntity(h.owner, 60)
  }

  function Entities(pass: Pass, hs: seq<Hit>): (es: seq<Entity>)
    ensures |es| == |hs|
    ensures forall i :: 0 <= i < |hs| ==> es[i] == ToEntity(pass, hs[i])
  {
    if hs == [] then [] else [ToEntity(pass, hs[0])] + Entities(pass, hs[1..])
  }

  lemma EntitiesAppend(pass: Pass, a: seq<Hit>, b: seq<Hit>)
    ensures Entities(pass, a + b) == Entities(pass, a) + Entities(pass, b)
  {
    assert |Entities(pass, a + b)| == |Entities(pass, a) + Entities(pass, b)|;
    forall i | 0 <= i < |a + b|
      ensures Entities(pass, a + b)[i] == (Entities(pass, a) + Entities(pass, b))[i]
    {
      if i >= |a| {
        assert (a + b)[i] == b[i - |a|];
      }
    }
  }

  /** Every candidate of the five passes, in the order the source meets them. */
  function Candidates(t: string): seq<Entity> {
    Entities(UrlPass, Hits(PassMatcher(UrlPass), t, 0)) +
    Entities(PlainPass, Hits(PassMatcher(PlainPass), t, 0)) +
    Entities(LabelPass, Hits(PassMatcher(LabelPass), t, 0)) +
    Entities(MentionPass, MentionHits(Lines(t))) +
    Entities(NearPass, Hits(PassMatcher(NearPass), t, 0))
  }

  // ---------------------------------------------------------------------------
  // First writer wins

  /** The keys of `es`, which is what the `seen` set holds. */
  function KeySet(es: seq<Entity>): set<string> {
    if es == [] then {} else KeySet(es[..|es| - 1]) + {Key(es[|es| - 1])}
  }

  /** A key is in `KeySet(es)` exactly when some element of `es` has it. */
  lemma {:induction false} KeySetHas(es: seq<Entity>, k: string)
    ensures k in KeySet(es) <==> exists i :: 0 <= i < |es| && Key(es[i]) == k
  {
    if es != [] {
      var init := es[..|es| - 1];
      KeySetHas(init, k);
      if k in KeySet(init) {
        var i :| 0 <= i < |init| && Key(init[i]) == k;
        assert es[i] == init[i];
      }
      if i :| 0 <= i < |es| && Key(es[i]) == k {
        if i < |init| {
          assert es[i] == init[i];
        }
      }
    }
  }

  /** The candidates that survive the `seen` test, taken one at a time. */
  function Dedup(cs: seq<Entity>): (r: seq<Entity>)
    ensures forall i :: 0 <= i < |r| ==> r[i] in cs
  {
    if cs == [] then []
    else
      var d := Dedup(cs[..|cs| - 1]);
      var e := cs[|cs| - 1];
      if Key(e) in KeySet(d) then d else d + [e]
  }

  /**
   * The reference definition: the candidates whose key no earlier candidate
   * has, in candidate order.
   */
  function FirstOfKey(cs: seq<Entity>): seq<Entity> {
    if cs == [] then []
    else
      var init := cs[..|cs| - 1];
      FirstOfKey(init) + (if Key(cs[|cs| - 1]) in KeySet(init) then [] else [cs[|cs| - 1]])
  }

  /** The results cover every key among the candidates, and no other. */
  lemma {:induction false} DedupKeys(cs: seq<Entity>)
    ensures KeySet(Dedup(cs)) == KeySet(cs)
  {
    if cs != [] {
      var init := cs[..|cs| - 1];
      DedupKeys(init);
      KeySetSnoc(Dedup(init), cs[|cs| - 1]);
    }
  }

  lemma KeySetSnoc(es: seq<Entity>, e: Entity)
    ensures KeySet(es + [e]) == KeySet(es) + {Key(e)}
  {
    assert (es + [e])[..|es|] == es;
  }

  /** The same as first-writer-wins in candidate order. */
  lemma {:induction false} DedupIsFirstOfKey(cs: seq<Entity>)
    ensures Dedup(cs) == FirstOfKey(cs)
  {
    if cs != [] {
      var init := cs[..|cs| - 1];
      DedupIsFirstOfKey(init);
      DedupKeys(init);
    }
  }

  /** No two results share a key. */
  lemma {:induction false} DedupUnique(cs: seq<Entity>)
    ensures forall i, j :: 0 <= i < j < |Dedup(cs)| ==> Key(Dedup(cs)[i]) != Key(Dedup(cs)[j])
  {
    if cs != [] {
      var init := cs[..|cs| - 1];
      DedupUnique(init);
      var d := Dedup(init);
      var e := cs[|cs| - 1];
      if Key(e) !in KeySet(d) {
        var r := d + [e];
        assert Dedup(cs) == r;
        forall i, j | 0 <= i < j < |r| ensures Key(r[i]) != Key(r[j]) {
          if j == |d| {
            assert r[i] == d[i];
            KeySetHas(d, Key(d[i]));
          } else {
            assert r[i] == d[i] && r[j] == d[j];
          }
        }
      }
    }
  }

  /** Each result is the first candidate with its key. */
  lemma {:induction false} DedupFirstWins(cs: seq<Entity>)
    ensures forall i :: 0 <= i < |Dedup(cs)| ==>
      exists k :: 0 <= k < |cs| && cs[k] == Dedup(cs)[i] && Key(cs[k]) !in KeySet(cs[..k])
  {
    if cs == [] {
      assert Dedup(cs) == [];
    } else {
      var init := cs[..|cs| - 1];
      DedupFirstWins(init);
      DedupKeys(init);
      var d := Dedup(init);
      var e := cs[|cs| - 1];
      var r := Dedup(cs);
      forall i | 0 <= i < |r|
        ensures exists k :: 0 <= k < |cs| && cs[k] == r[i] && Key(cs[k]) !in KeySet(cs[..k])
      {
        if i < |d| {
          assert r[i] == d[i];
          var k :| 0 <= k < |init| && init[k] == d[i] && Key(init[k]) !in KeySet(init[..k]);
          FirstStaysFirst(cs, k);
          assert cs[k] == r[i] && Key(cs[k]) !in KeySet(cs[..k]);
        } else {
          var k := |cs| - 1;
          assert r[i] == e && Key(e) !in KeySet(init);
          assert cs[k] == r[i] && Key(cs[k]) !in KeySet(cs[..k]);
        }
      }
    }
  }

  /** A candidate that was first with its key stays first when one more comes. */
  lemma FirstStaysFirst(cs: seq<Entity>, k: nat)
    requires k < |cs| - 1
    requires Key(cs[..|cs| - 1][k]) !in KeySet(cs[..|cs| - 1][..k])
    ensures cs[k] == cs[..|cs| - 1][k] && Key(cs[k]) !in KeySet(cs[..k])
  {
    assert cs[..|cs| - 1][..k] == cs[..k];
  }

  /** Each candidate whose key is new when it comes is kept. */
  lemma {:induction false} DedupKeepsNew(cs: seq<Entity>, k: nat)
    requires k < |cs| && Key(cs[k]) !in KeySet(cs[..k])
    ensures cs[k] in Dedup(cs)
  {
    var init := cs[..|cs| - 1];
    if k == |cs| - 1 {
      DedupKeys(init);
      assert cs[..k] == init;
    } else {
      assert init[..k] == cs[..k] && init[k] == cs[k];
      DedupKeepsNew(init, k);
    }
  }

  /** One `seen` test: what appending a candidate does to the results. */
  lemma DedupSnoc(done: seq<Entity>, e: Entity)
    ensures Dedup(done + [e]) ==
      if Key(e) in KeySet(Dedup(done)) then Dedup(done) else Dedup(done) + [e]
  {
    assert (done + [e])[..|done|] == done;
  }

  // ---------------------------------------------------------------------------
  // The extractor

  /** What `extractGithubEntities(text)` returns. */
  function Extract(text: string): seq<Entity> {
    if text == [] then [] else Dedup(Candidates(text))
  }

  /**
   * One `while ((m = re.exec(t)))` loop of `pass` over `t`, adding the new
   * candidates to `results` and their keys to `seen`.
   */
  method Scan(pass: Pass, t: string, results: seq<Entity>, seen: set<string>, ghost done: seq<Entity>)
    returns (results': seq<Entity>, seen': set<string>, ghost done': seq<Entity>)
    requires results == Dedup(done) && seen == KeySet(results)
    ensures done' == done + Entities(pass, Hits(PassMatcher(pass), t, 0))
    ensures results' == Dedup(done') && seen' == KeySet(results')
  {
    var m := PassMatcher(pass);
    results', seen', done' := results, seen, done;
    var from: nat := 0;
    while true
      invariant done + Entities(pass, Hits(m, t, 0)) == done' + Entities(pass, Hits(m, t, from))
      invariant results' == Dedup(done') && seen' == KeySet(results')
      decreases |t| - from
    {
      var r := FindFrom(m, t, from);
      if r.None? {
        assert Hits(m, t, from) == [];
        break;
      }
      var h := r.value;
      ScanStep(pass, t, from, done, done');
      results', seen', done' := Record(ToEntity(pass, h), results', seen', done');
      from := h.end;
    }
  }

  /** The body of every loop: skip a candidate whose key was seen, else keep it. */
  method Record(e: Entity, results: seq<Entity>, seen: set<string>, ghost done: seq<Entity>)
    returns (results': seq<Entity>, seen': set<string>, ghost done': seq<Entity>)
    requires results == Dedup(done) && seen == KeySet(results)
    ensures done' == done + [e]
    ensures results' == Dedup(done') && seen' == KeySet(results')
  {
    DedupSnoc(done, e);
    KeySetSnoc(results, e);
    results', seen' := results, seen;
    if Key(e) !in seen {
      results' := results + [e];
      seen' := seen + {Key(e)};
    }
    done' := done + [e];
  }

  /** One turn of a scan loop: the first remaining match moves to `done`. */
  lemma ScanStep(pass: Pass, t: string, from: nat, done0: seq<Entity>, done: seq<Entity>)
    requires FindFrom(PassMatcher(pass), t, from).Some?
    requires done0 + Entities(pass, Hits(PassMatcher(pass), t, 0)) ==
      done + Entities(pass, Hits(PassMatcher(pass), t, from))
    ensures var h := FindFrom(PassMatcher(pass), t, from).value;
      from < h.end &&
      done0 + Entities(pass, Hits(PassMatcher(pass), t, 0)) ==
        (done + [ToEntity(pass, h)]) + Entities(pass, Hits(PassMatcher(pass), t, h.end))
  {
    HitsStep(pass, t, from);
    var h := FindFrom(PassMatcher(pass), t, from).value;
    Regroup(done, [ToEntity(pass, h)], Entities(pass, Hits(PassMatcher(pass), t, h.end)));
  }

  lemma HitsStep(pass: Pass, t: string, from: nat)
    requires FindFrom(PassMatcher(pass), t, from).Some?
    ensures var h := FindFrom(PassMatcher(pass), t, from).value;
      from < h.end &&
      Entities(pass, Hits(PassMatcher(pass), t, from)) ==
        [ToEntity(pass, h)] + Entities(pass, Hits(PassMatcher(pass), t, h.end))
  {
    var m := PassMatcher(pass);
    var h := FindFrom(m, t, from).value;
    assert Hits(m, t, from) == [h] + Hits(m, t, h.end);
    EntitiesAppend(pass, [h], Hits(m, t, h.end));
  }

  /** One turn of the line loop of pass 4. */
  lemma LineStep(lines: seq<string>, i: nat, before: seq<Entity>, done: seq<Entity>)
    requires i < |lines|
    requires before + Entities(MentionPass, MentionHits(lines)) ==
      done + Entities(MentionPass, MentionHits(lines[i..]))
    ensures before + Entities(MentionPass, MentionHits(lines)) ==
      (done + Entities(MentionPass, LineMentions(lines[i]))) +
      Entities(MentionPass, MentionHits(lines[i + 1..]))
  {
    MentionHitsStep(lines, i);
    Regroup(done, Entities(MentionPass, LineMentions(lines[i])),
      Entities(MentionPass, MentionHits(lines[i + 1..])));
  }

  lemma MentionHitsStep(lines: seq<string>, i: nat)
    requires i < |lines|
    ensures Entities(MentionPass, MentionHits(lines[i..])) ==
      Entities(MentionPass, LineMentions(lines[i])) + Entities(MentionPass, MentionHits(lines[i + 1..]))
  {
    assert lines[i..][1..] == lines[i + 1..];
    EntitiesAppend(MentionPass, LineMentions(lines[i]), MentionHits(lines[i + 1..]));
  }

  lemma Regroup(a: seq<Entity>, b: seq<Entity>, c: seq<Entity>)
    ensures a + (b + c) == (a + b) + c
  {
  }

  lemma LineHits(lines: seq<string>, i: nat)
    requires i < |lines|
    ensures var here := if Contains(lines[i], "github") then Hits(MentionAt, lines[i], 0) else [];
      Entities(MentionPass, MentionHits(lines[i..])) ==
        Entities(MentionPass, here) + Entities(MentionPass, MentionHits(lines[i + 1..]))
  {
    assert lines[i..][1..] == lines[i + 1..];
    var here := if Contains(lines[i], "github") then Hits(MentionAt, lines[i], 0) else [];
    assert MentionHits(lines[i..]) == here + MentionHits(lines[i + 1..]);
    EntitiesAppend(MentionPass, here, MentionHits(lines[i + 1..]));
  }

  /**
   * Pass 4: the pattern runs afresh on every line of `text` that mentions
   * `github`, case-insensitively.
   */
  method ScanLines(text: string, results: seq<Entity>, seen: set<string>, ghost done: seq<Entity>)
    returns (results': seq<Entity>, seen': set<string>, ghost done': seq<Entity>)
    requires results == Dedup(done) && seen == KeySet(results)
    ensures done' == done + Entities(MentionPass, MentionHits(Lines(text)))
    ensures results' == Dedup(done') && seen' == KeySet(results')
  {
    results', seen', done' := results, seen, done;
    var lines := Lines(text);
    var i := 0;
    while i < |lines|
      invariant 0 <= i <= |lines|
      invariant done + Entities(MentionPass, MentionHits(lines)) ==
        done' + Entities(MentionPass, MentionHits(lines[i..]))
      invariant results' == Dedup(done') && seen' == KeySet(results')
    {
      var line := lines[i];
      LineStep(lines, i, done, done');
      if Contains(line, "github") {
        results', seen', done' := Scan(MentionPass, line, results', seen', done');
      } else {
        assert done' + Entities(MentionPass, LineMentions(line)) == done';
      }
      i := i + 1;
    }
    assert lines[i..] == [];
  }

  /** `extractGithubEntities`: the five passes in order, sharing `results` and `seen`. */
  method ExtractGithubEntities(text: string) returns (results: seq<Entity>)
    ensures results == Extract(text)
  {
    if text == [] {
      return [];
    }
    var seen: set<string> := {};
    ghost var done: seq<Entity> := [];
    results := [];
    results, seen, done := Scan(UrlPass, text, results, seen, done);
    assert done == Entities(UrlPass, Hits(PassMatcher(UrlPass), text, 0));
    results, seen, done := Scan(PlainPass, text, results, seen, done);
    results, seen, done := Scan(LabelPass, text, results, seen, done);
    results, seen, done := ScanLines(text, results, seen, done);
    results, seen, done := Scan(NearPass, text, results, seen, done);
    assert done == Candidates(text);
  }

  // ---------------------------------------------------------------------------
  // Properties of the results

  /** The `!text` guard changes nothing: empty text has no candidates. */
  lemma ExtractIsDedup(text: string)
    ensures Extract(text) == Dedup(Candidates(text))
    ensures text == [] ==> Extract(text) == []
  {
    if text == [] {
      assert Lines(text) == [text];
      assert !MatchesAt(text, 0, "github") && !ContainsAt(text, "github", 1);
      assert !Contains(text, "github");
      assert MentionHits(Lines(text)) == [];
      assert Candidates(text) == [];
    }
  }

  /** No two results share an identity key (keys compare case-sensitively). */
  lemma ExtractKeysUnique(text: string)
    ensures forall i, j :: 0 <= i < j < |Extract(text)| ==> Key(Extract(text)[i]) != Key(Extract(text)[j])
  {
    ExtractIsDedup(text);
    DedupUnique(Candidates(text));
  }

  /**
   * The results are the candidates whose key no earlier candidate has, in the
   * order the passes meet them: the first pass to see a key decides the entity.
   */
  lemma ExtractFirstWins(text: string)
    ensures Extract(text) == FirstOfKey(Candidates(text))
    ensures forall k :: 0 <= k < |Candidates(text)| && Key(Candidates(text)[k]) !in KeySet(Candidates(text)[..k]) ==>
      Candidates(text)[k] in Extract(text)
    ensures forall i :: 0 <= i < |Extract(text)| ==>
      exists k :: 0 <= k < |Candidates(text)| && Candidates(text)[k] == Extract(text)[i] &&
        Key(Candidates(text)[k]) !in KeySet(Candidates(text)[..k])
  {
    var cs := Candidates(text);
    ExtractIsDedup(text);
    DedupIsFirstOfKey(cs);
    DedupFirstWins(cs);
    forall k | 0 <= k < |cs| && Key(cs[k]) !in KeySet(cs[..k]) ensures cs[k] in Extract(text) {
      DedupKeepsNew(cs, k);
    }
  }

  /** Every key some candidate has is the key of a result. */
  lemma ExtractKeys(text: string)
    ensures KeySet(Extract(text)) == KeySet(Candidates(text))
  {
    ExtractIsDedup(text);
    DedupKeys(Candidates(text));
  }

  /** The shape every candidate has, whichever pass found it. */
  predicate Shaped(e: Entity) {
    IsOwner(e.owner) &&
    (e.kind == Repo <==> e.confidence == 95) &&
    (e.kind == Repo ==>
      e.repo.Some? && e.repo.value != [] && !IsTrail(e.repo.value[|e.repo.value| - 1]) &&
      e.url == Base + e.owner + "/" + e.repo.value && Key(e) == e.owner + "/" + e.repo.value) &&
    (e.kind == User ==>
      e.url == Base + e.owner && Key(e) == e.owner &&
      ((e.confidence == 99 && (e.repo.Some? ==> e.repo.value == [])) ||
       ((e.confidence == 90 || e.confidence == 85 || e.confidence == 60) && e.repo.None? && IsLogin(e.owner))))
  }

  /** A match of `pass` gives a candidate of that shape. */
  lemma HitShaped(pass: Pass, t: string, h: Hit)
    requires PassMatcher(pass)(t, h.start) == Some(h)
    ensures Shaped(ToEntity(pass, h))
    ensures pass == LabelPass ==> ToEntity(pass, h).kind == User && ToEntity(pass, h).confidence == 90
    ensures pass == MentionPass ==> ToEntity(pass, h).kind == User && ToEntity(pass, h).confidence == 85
    ensures pass == NearPass ==> ToEntity(pass, h).kind == User && ToEntity(pass, h).confidence == 60
    ensures pass == UrlPass || pass == PlainPass ==> ToEntity(pass, h).confidence in {95, 99}
  {
    match pass
    case UrlPass =>
      assert UrlAt(t, h.start) == Some(h);
      UrlShaped(h);
    case PlainPass =>
      assert PlainAt(t, h.start) == Some(h);
      UrlShaped(h);
    case LabelPass =>
      assert LabelAt(t, h.start, IsLabelSep) == Some(h);
      UserShaped(h.owner, 90);
    case MentionPass =>
      assert MentionAt(t, h.start) == Some(h);
      UserShaped(h.owner, 85);
    case NearPass =>
      assert NearAt(t, h.start) == Some(h);
      UserShaped(h.owner, 60);
  }

  lemma UrlShaped(h: Hit)
    requires IsOwner(h.owner)
    ensures Shaped(UrlEntity(h))
  {
  }

  lemma UserShaped(owner: string, confidence: nat)
    requires IsLogin(owner) && (confidence == 90 || confidence == 85 || confidence == 60)
    ensures Shaped(UserEntity(owner, confidence))
  {
  }

  lemma PassShaped(pass: Pass, t: string, from: nat)
    ensures forall e :: e in Entities(pass, Hits(PassMatcher(pass), t, from)) ==> Shaped(e)
  {
    var hs := Hits(PassMatcher(pass), t, from);
    HitsAreMatches(PassMatcher(pass), t, from);
    forall i | 0 <= i < |hs| ensures Shaped(ToEntity(pass, hs[i])) {
      HitShaped(pass, t, hs[i]);
    }
  }

  lemma {:induction false} MentionsShaped(lines: seq<string>)
    ensures forall e :: e in Entities(MentionPass, MentionHits(lines)) ==> Shaped(e)
  {
    if lines != [] {
      MentionsShaped(lines[1..]);
      EntitiesAppend(MentionPass, LineMentions(lines[0]), MentionHits(lines[1..]));
      if Contains(lines[0], "github") {
        PassShaped(MentionPass, lines[0], 0);
      }
    }
  }

  /**
   * Every result has the shape its pass fixes: a repository at 95 exactly when
   * the trimmed path is not empty, with the path in its URL; otherwise a user at
   * 99, 90, 85 or 60 whose URL is the profile URL.
   */
  lemma ExtractShaped(text: string)
    ensures forall e :: e in Extract(text) ==> Shaped(e)
  {
    var cs := Candidates(text);
    ExtractIsDedup(text);
    PassShaped(UrlPass, text, 0);
    PassShaped(PlainPass, text, 0);
    PassShaped(LabelPass, text, 0);
    MentionsShaped(Lines(text));
    PassShaped(NearPass, text, 0);
    assert forall e :: e in cs ==> Shaped(e);
  }

  /** A path made only of trailing punctuation leaves a user keyed by its owner. */
  lemma TrailOnlyPathIsUser(h: Hit)
    requires h.path.Some? && forall k :: 0 <= k < |h.path.value| ==> IsTrail(h.path.value[k])
    ensures UrlEntity(h) == Entity(User, h.owner, Some([]), Base + h.owner, 99)
    ensures Key(UrlEntity(h)) == h.owner
  {
    StripTrailAll(h.path.value);
  }
}
