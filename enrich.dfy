/**
 * `fetchGithubDetailsForEntity`: the chosen entity is copied and extended
 * with what the API says about it. A user gets a profile, an activity summary
 * and a summary of each of their repositories; a repository gets its
 * information, README, languages and dates. Replies come from `fetch`,
 * base64 decoding of a README from `decode` (`None` where `Buffer.from`
 * throws), `Date.parse` from `parse` (`None` for `NaN`), and `Date.now()` is
 * `now`.
 */
module Enrich {
  import opened Text
  import opened Api
  import opened Extract
  import opened Mapper
  import opened Derive

  /** `_fetch`. */
  datatype FetchStatus = FetchStatus(ok: bool, status: int)

  /** `activity`. */
  datatype ActivityInfo = ActivityInfo(daysActive: nat, percentActive: nat)

  /** `repoOut`: the summary of one repository of a user. `None` is a property left unset or `undefined`. */
  datatype RepoSummary = RepoSummary(
    name: Option<Json>,
    fullName: Option<Json>,
    htmlUrl: Option<Json>,
    description: Json,
    stargazersCount: Json,
    forksCount: Json,
    firstCommitDate: Json,
    lastCommitDate: Json,
    durationDays: Option<int>,
    readme: Option<string>,
    readmeSnippet: Option<string>,
    techStack: Option<seq<string>>)

  /**
   * `out`: the entity's own fields, and the properties the enrichment sets
   * (`None` where it sets none). A `durationDays` of `Some(None)` is JSON `null`.
   */
  datatype Details = Details(
    entity: Entity,
    profile: Option<Json>,
    fetched: Option<FetchStatus>,
    activity: Option<ActivityInfo>,
    repos: Option<seq<Slot<RepoSummary>>>,
    repoInfo: Option<Json>,
    readme: Option<string>,
    readmeSnippet: Option<string>,
    techStack: Option<seq<string>>,
    firstCommitDate: Option<Json>,
    lastCommitDate: Option<Json>,
    durationDays: Option<Option<int>>)

  /** What reading `r.name` on a `null` array element throws, as `String(e)` shows it. */
  const NullElementError := "TypeError: Cannot read properties of null (reading 'name')"

  /** `Array.isArray(body) ? body : []`. */
  function ArrayOrEmpty(body: Json): (items: seq<Json>)
    ensures body.Arr? ==> items == body.items
    ensures !body.Arr? ==> items == []
  {
    if body.Arr? then body.items else []
  }

  /** The decimal name of an array index, as `Object.entries` gives it. */
  function IndexKey(i: nat): (s: string)
    ensures s != [] && forall k :: 0 <= k < |s| ==> '0' <= s[k] <= '9'
  {
    var d := ['0' + (i % 10) as char];
    if i < 10 then d else IndexKey(i / 10) + d
  }

  /**
   * `Object.entries(body)`: the fields of an object, and index/element pairs
   * of an array or of the characters of a string; other values have none.
   */
  function Entries(body: Json): (es: seq<(string, Json)>)
    ensures body.Obj? ==> es == body.fields
  {
    match body
    case Obj(fs) => fs
    case Arr(xs) => seq(|xs|, i requires 0 <= i < |xs| => (IndexKey(i), xs[i]))
    case Str(s) => seq(|s|, i requires 0 <= i < |s| => (IndexKey(i), Str([s[i]])))
    case _ => []
  }

  /**
   * The README text when the reply is ok and has a truthy `content` that
   * decodes; otherwise the README and its snippet stay unset.
   */
  function ReadmeContent(reply: Reply, decode: Json -> Option<string>): (r: Option<string>)
    ensures r.Some? ==> reply.ok && Has(Get(reply.body, "content"))
    ensures reply.ok && Has(Get(reply.body, "content")) ==> r == decode(Get(reply.body, "content").value)
  {
    var c := Get(reply.body, "content");
    if reply.ok && Truthy(reply.body) && Has(c) then decode(c.value) else None
  }

  /** The languages of a user's repository are read from an ok reply whose body is an object. */
  predicate UserLanguagesUsable(reply: Reply) {
    reply.ok && Truthy(reply.body) && (reply.body.Obj? || reply.body.Arr?)
  }

  /**
   * The function `mapWithConcurrency` applies to each listed repository.
   * Reading `r.name` of a `null` element throws; every other element gets a
   * summary with the defaults `''`, `0` and `null`, and the README, snippet
   * and tech stack when their replies allow.
   */
  function RepoSummaryOf(owner: string, r: Json, fetch: Fetch, decode: Json -> Option<string>,
                         parse: Json -> Option<int>): (o: Outcome<RepoSummary>)
    ensures r.Null? <==> o == Threw(NullElementError)
    ensures o.Returned? ==> var s := o.value;
      s.name == Get(r, "name") && s.fullName == Get(r, "full_name") && s.htmlUrl == Get(r, "html_url") &&
      s.description == OrElse(Get(r, "description"), Str("")) &&
      s.stargazersCount == OrElse(Get(r, "stargazers_count"), Num(0)) &&
      s.forksCount == OrElse(Get(r, "forks_count"), Num(0)) &&
      s.firstCommitDate == OrElse(Get(r, "created_at"), Null) &&
      s.lastCommitDate == OrElse(Get(r, "pushed_at"), Null) &&
      s.durationDays == DurationDays(s.firstCommitDate, s.lastCommitDate, parse)
    ensures o.Returned? ==>
      o.value.readme == ReadmeContent(fetch(RepoReadme(owner, Get(r, "name"))), decode) &&
      (o.value.readmeSnippet.Some? <==> o.value.readme.Some?) &&
      (o.value.readme.Some? ==> o.value.readmeSnippet == Some(Snippet(o.value.readme.value)))
    ensures o.Returned? ==> var langs := fetch(RepoLanguages(owner, Get(r, "name")));
      (o.value.techStack.Some? <==> UserLanguagesUsable(langs)) &&
      (UserLanguagesUsable(langs) ==> o.value.techStack == Some(TechStack(Entries(langs.body))))
  {
    if r.Null? then Threw(NullElementError)
    else
      var first := OrElse(Get(r, "created_at"), Null);
      var last := OrElse(Get(r, "pushed_at"), Null);
      var s := RepoSummary(
        Get(r, "name"), Get(r, "full_name"), Get(r, "html_url"),
        OrElse(Get(r, "description"), Str("")),
        OrElse(Get(r, "stargazers_count"), Num(0)),
        OrElse(Get(r, "forks_count"), Num(0)),
        first, last, DurationDays(first, last, parse), None, None, None);
      var readme := ReadmeContent(fetch(RepoReadme(owner, Get(r, "name"))), decode);
      var s := if readme.Some? then s.(readme := readme, readmeSnippet := Some(Snippet(readme.value))) else s;
      var langs := fetch(RepoLanguages(owner, Get(r, "name")));
      var s := if UserLanguagesUsable(langs) then s.(techStack := Some(TechStack(Entries(langs.body)))) else s;
      Returned(s)
  }

  /** The entity with nothing added yet: `{ ...entity }`. */
  function Copy(entity: Entity): (out: Details)
    ensures out.entity == entity
    ensures out.profile.None? && out.fetched.None? && out.activity.None? && out.repos.None?
    ensures out.repoInfo.None? && out.readme.None? && out.readmeSnippet.None? && out.techStack.None?
    ensures out.firstCommitDate.None? && out.lastCommitDate.None? && out.durationDays.None?
  {
    Details(entity, None, None, None, None, None, None, None, None, None, None, None)
  }

  /**
   * What `fetchGithubDetailsForEntity` returns for `entity`, given the replies
   * `fetch` gives: the entity's own fields, and the fields its kind adds.
   */
  predicate DetailsOf(entity: Entity, fetch: Fetch, decode: Json -> Option<string>,
                      parse: Json -> Option<int>, now: int, out: Details) {
    && out.entity == entity
    && (entity.kind == User ==>
         var r := fetch(UserProfile(entity.owner));
         var events := ArrayOrEmpty(fetch(UserEvents(entity.owner)).body);
         var listing := ArrayOrEmpty(fetch(UserRepos(entity.owner)).body);
         out.profile == Some(if r.ok then r.body else Null) &&
         out.fetched == Some(FetchStatus(r.ok, r.status)) &&
         out.activity == Some(ActivityInfo(|ActiveDays(events, now, parse)|, Percent(|ActiveDays(events, now, parse)|))) &&
         out.repos.Some? && |out.repos.value| == |listing| &&
         (forall idx :: 0 <= idx < |listing| ==>
           out.repos.value[idx] == SlotOf(RepoSummaryOf(entity.owner, listing[idx], fetch, decode, parse))) &&
         out.repoInfo.None? && out.readme.None? && out.readmeSnippet.None? && out.techStack.None? &&
         out.firstCommitDate.None? && out.lastCommitDate.None? && out.durationDays.None?)
    && (entity.kind == Repo && !(entity.repo.Some? && entity.repo.value != []) ==> out == Copy(entity))
    && (entity.kind == Repo && entity.repo.Some? && entity.repo.value != [] ==>
         var name := entity.repo.value;
         var r := fetch(RepoInfo(entity.owner, name));
         var info := if r.ok then r.body else Null;
         var langs := fetch(RepoLanguages(entity.owner, Some(Str(name))));
         out.repoInfo == Some(info) &&
         out.fetched == Some(FetchStatus(r.ok, r.status)) &&
         out.readme == ReadmeContent(fetch(RepoReadme(entity.owner, Some(Str(name)))), decode) &&
         out.readmeSnippet == (if out.readme.Some? then Some(Snippet(out.readme.value)) else None) &&
         out.techStack == (if langs.ok && Truthy(langs.body) then Some(TechStack(Entries(langs.body))) else None) &&
         (Truthy(info) ==>
           out.firstCommitDate == Some(OrElse(Get(info, "created_at"), Null)) &&
           out.lastCommitDate == Some(OrElse(Get(info, "pushed_at"), Null)) &&
           out.durationDays == Some(DurationDays(out.firstCommitDate.value, out.lastCommitDate.value, parse))) &&
         (!Truthy(info) ==> out.firstCommitDate.None? && out.lastCommitDate.None? && out.durationDays.None?) &&
         out.profile.None? && out.activity.None? && out.repos.None?)
  }

  /**
   * `fetchGithubDetailsForEntity`. The entity's own fields are kept. A user
   * gets `profile` (the body of an ok reply, else `null`), `_fetch`, the
   * activity over the events listed, and one summary per listed repository in
   * listing order (none when the listing is not an array). A repository with a
   * name gets `repoInfo`, `_fetch`, the README and snippet and the tech stack
   * when their replies allow, and its dates and duration when `repoInfo` is
   * truthy.
   */
  method FetchDetails(entity: Entity, fetch: Fetch, decode: Json -> Option<string>,
                      parse: Json -> Option<int>, now: int) returns (out: Details)
    ensures DetailsOf(entity, fetch, decode, parse, now, out)
  {
    out := Copy(entity);
    if entity.kind == User {
      var r := fetch(UserProfile(entity.owner));
      out := out.(profile := Some(if r.ok then r.body else Null));
      out := out.(fetched := Some(FetchStatus(r.ok, r.status)));
      var eventsResp := fetch(UserEvents(entity.owner));
      var events := ArrayOrEmpty(eventsResp.body);
      var daysActive, percentActive := Activity(events, now, parse);
      out := out.(activity := Some(ActivityInfo(daysActive, percentActive)));
      var reposResp := fetch(UserRepos(entity.owner));
      var repos := ArrayOrEmpty(reposResp.body);
      var repoDetails := MapWithConcurrency(repos,
        (r: Json, idx: nat) => RepoSummaryOf(entity.owner, r, fetch, decode, parse));
      out := out.(repos := Some(repoDetails));
    } else if entity.kind == Repo && entity.repo.Some? && entity.repo.value != [] {
      var name := entity.repo.value;
      var r := fetch(RepoInfo(entity.owner, name));
      out := out.(repoInfo := Some(if r.ok then r.body else Null));
      out := out.(fetched := Some(FetchStatus(r.ok, r.status)));
      var readme := ReadmeContent(fetch(RepoReadme(entity.owner, Some(Str(name)))), decode);
      if readme.Some? {
        out := out.(readme := readme);
        out := out.(readmeSnippet := Some(Snippet(readme.value)));
      }
      var langResp := fetch(RepoLanguages(entity.owner, Some(Str(name))));
      if langResp.ok && Truthy(langResp.body) {
        out := out.(techStack := Some(TechStack(Entries(langResp.body))));
      }
      var info := out.repoInfo.value;
      if Truthy(info) {
        out := out.(firstCommitDate := Some(OrElse(Get(info, "created_at"), Null)));
        out := out.(lastCommitDate := Some(OrElse(Get(info, "pushed_at"), Null)));
        out := out.(durationDays := Some(DurationDays(out.firstCommitDate.value, out.lastCommitDate.value, parse)));
      }
    }
  }
}
