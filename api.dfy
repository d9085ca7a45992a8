/**
 * The values that cross the boundary to the GitHub REST API: JSON bodies with
 * JavaScript's truthiness and property access, the `{ ok, status, body }`
 * record of `fetchJson`, and the requests the enrichment makes. The network
 * itself is a function from requests to replies that the caller supplies.
 */
module Api {
  import opened Text

  /** A parsed JSON body. Numbers are integers here. */
  datatype Json =
    | Null
    | Bool(b: bool)
    | Num(n: int)
    | Str(s: string)
    | Arr(items: seq<Json>)
    | Obj(fields: seq<(string, Json)>)

  /**
   * JavaScript truthiness of a JSON value: everything but `null`, `false`,
   * `0` and `''` is truthy, empty arrays and objects included.
   */
  predicate Truthy(j: Json)
    ensures Truthy(j) <==> j != Null && j != Bool(false) && j != Num(0) && j != Str("")
  {
    match j
    case Null => false
    case Bool(b) => b
    case Num(n) => n != 0
    case Str(s) => s != []
    case Arr(_) => true
    case Obj(_) => true
  }

  /**
   * `j.key`: the value of the last field named `key` (the one `JSON.parse`
   * keeps), `None` where JavaScript gives `undefined`.
   */
  function Get(j: Json, key: string): (r: Option<Json>)
    ensures r.Some? ==> j.Obj? && (key, r.value) in j.fields
    ensures r.Some? ==> exists k :: IsLastField(j.fields, k, key) && j.fields[k].1 == r.value
    ensures r.None? && j.Obj? ==> forall v :: (key, v) !in j.fields
    decreases if j.Obj? then |j.fields| else 0
  {
    if !j.Obj? || j.fields == [] then None
    else
      var last := j.fields[|j.fields| - 1];
      var init := Obj(j.fields[..|j.fields| - 1]);
      if last.0 == key then
        assert IsLastField(j.fields, |j.fields| - 1, key);
        Some(last.1)
      else
        var r := Get(init, key);
        InitFields(j.fields, init.fields, key);
        if r.Some? then LastFieldSnoc(j.fields, init.fields, key, r.value); r else r
  }

  /** Field `k` of `fs` is named `key`, and no later field is. */
  predicate IsLastField(fs: seq<(string, Json)>, k: int, key: string) {
    0 <= k < |fs| && fs[k].0 == key && forall m :: k < m < |fs| ==> fs[m].0 != key
  }

  /** A field last with its name stays last after a field of another name. */
  lemma LastFieldSnoc(fs: seq<(string, Json)>, init: seq<(string, Json)>, key: string, v: Json)
    requires |fs| > 0 && init == fs[..|fs| - 1] && fs[|fs| - 1].0 != key
    requires exists k :: IsLastField(init, k, key) && init[k].1 == v
    ensures exists k :: IsLastField(fs, k, key) && fs[k].1 == v
  {
    var k :| IsLastField(init, k, key) && init[k].1 == v;
    assert forall m :: k < m < |fs| - 1 ==> fs[m] == init[m];
    assert IsLastField(fs, k, key);
  }

  /** The fields before the last one are fields, and hold every field named `key` if the last one is not. */
  lemma InitFields(fs: seq<(string, Json)>, init: seq<(string, Json)>, key: string)
    requires |fs| > 0 && init == fs[..|fs| - 1] && fs[|fs| - 1].0 != key
    ensures forall f :: f in init ==> f in fs
    ensures forall v :: (key, v) in fs ==> (key, v) in init
  {
    assert fs == init + [fs[|fs| - 1]];
  }

  /** `v || d`: the value when it is truthy, else the default. */
  function OrElse(v: Option<Json>, d: Json): (r: Json)
    ensures v.Some? && Truthy(v.value) ==> r == v.value
    ensures !(v.Some? && Truthy(v.value)) ==> r == d
  {
    if v.Some? && Truthy(v.value) then v.value else d
  }

  /** `v` is present and truthy. */
  predicate Has(v: Option<Json>) {
    v.Some? && Truthy(v.value)
  }

  /** What `fetchJson` resolves to; a body that is not JSON, or a failed request, is `null`. */
  datatype Reply = Reply(ok: bool, status: int, body: Json)

  /**
   * The API paths the enrichment requests. A repository of a user's listing is
   * named by whatever its `name` property holds (`None` for `undefined`), since
   * `encodeURIComponent` turns any value into text. Values it renders alike,
   * such as `Num(5)` and `Str("5")`, `None` and `Str("undefined")`, or `Null`
   * and `Str("null")`, are different requests here, so a `fetch` may answer
   * them differently where the real API could not. Every property of the model holds
   * for every `fetch`, and so also for those that answer them alike.
   */
  datatype Request =
    | UserProfile(owner: string)
    | UserEvents(owner: string)
    | UserRepos(owner: string)
    | RepoInfo(owner: string, name: string)
    | RepoReadme(owner: string, repo: Option<Json>)
    | RepoLanguages(owner: string, repo: Option<Json>)

  /** The network: the reply that each request gets. */
  type Fetch = Request -> Reply
}
