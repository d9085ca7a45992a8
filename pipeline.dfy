/**
 * The part of the `POST` handler between reading the resume text and writing
 * the response: normalise the text, extract the candidates, keep the
 * confident ones and enrich the best of them.
 */
module Pipeline {
  import opened Text
  import opened Normalize
  import opened Extract
  import opened Select
  import opened Api
  import opened Enrich

  /**
   * The selection in `POST`: the extractor runs on the normalised text, and
   * once more when it found nothing in a non-empty text; the confident
   * candidates of both runs compete. The second run adds nothing, since the
   * extractor is a function of the text. The winner is a URL candidate or a
   * labelled one, since mentions and near matches stay below the threshold.
   */
  method Choose(text: string) returns (top: Option<Entity>)
    ensures top.None? <==> forall e :: e in Extract.Extract(text) ==> e.confidence < Threshold
    ensures top.Some? ==> var all := Extract.Extract(text);
      top.value in all && top.value.confidence >= Threshold &&
      (forall e :: e in all && e.confidence >= Threshold ==> e.confidence <= top.value.confidence) &&
      (top.value.confidence == 99 || top.value.confidence == 95 || top.value.confidence == 90)
    ensures top.Some? ==> var cs := Confident(Extract.Extract(text));
      exists i :: 0 <= i < |cs| && cs[i] == top.value &&
        forall j :: 0 <= j < i ==> cs[j].confidence < top.value.confidence
  {
    var entities := ExtractGithubEntities(text);
    var fallback: seq<Entity> := [];
    if |entities| == 0 && text != [] {
      fallback := ExtractGithubEntities(text);
    }
    var all := entities + fallback;
    assert all == entities;
    top := PickTop(all);
    if top.Some? {
      ExtractShaped(text);
      ConfidentShape(top.value);
    }
  }

  /** A well-formed candidate that reaches the threshold is a URL or a labelled one. */
  lemma ConfidentShape(e: Entity)
    requires Extract.Shaped(e) && e.confidence >= Threshold
    ensures e.confidence == 99 || e.confidence == 95 || e.confidence == 90
  {
  }

  /**
   * The `github` array of the response: empty exactly when no candidate
   * reaches the threshold, otherwise the enrichment of the chosen one, the
   * first confident candidate of the highest confidence.
   */
  method AnalyzeText(raw: string, fetch: Fetch, decode: Json -> Option<string>,
                     parse: Json -> Option<int>, now: int) returns (github: seq<Details>)
    ensures github == [] <==>
      forall e :: e in Extract.Extract(Normalize.Normalize(raw)) ==> e.confidence < Threshold
    ensures |github| <= 1
    ensures github != [] ==> var top := github[0].entity;
      top in Extract.Extract(Normalize.Normalize(raw)) && top.confidence >= Threshold &&
      forall e :: e in Extract.Extract(Normalize.Normalize(raw)) && e.confidence >= Threshold ==>
        e.confidence <= top.confidence
    ensures github != [] ==> var cs := Confident(Extract.Extract(Normalize.Normalize(raw)));
      exists i :: 0 <= i < |cs| && cs[i] == github[0].entity &&
        forall j :: 0 <= j < i ==> cs[j].confidence < github[0].entity.confidence
    ensures github != [] ==> DetailsOf(github[0].entity, fetch, decode, parse, now, github[0])
  {
    var text := Normalize.Normalize(raw);
    var top := Choose(text);
    if top.None? {
      return [];
    }
    var detailed := FetchDetails(top.value, fetch, decode, parse, now);
    github := [detailed];
  }
}
