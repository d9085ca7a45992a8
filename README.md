# GitHub resume analyser: the text-to-identity pipeline

This project models the core of the resume endpoint of `github-resume-analyzer`
(`app/api/parse-resume/route.js`). It covers the text that comes out of a PDF or
DOCX file up to the `github` array of the response:

- **Text** (`text.dfy`): the character classes and string primitives of the
  JavaScript runtime that the rest relies on. These are `\s`, ASCII case
  folding under the `i` flag, `trim`, `split(/\r?\n/)` and `join`.
- **Normalize** (`normalize.dfy`): the chain of global `replace` calls that
  cleans the resume text. Each rewrite is a left-to-right scanner with the
  leftmost, greedy, non-overlapping matching of a global regular expression.
- **Patterns** (`patterns.dfy`): the five regular expressions of the extractor,
  as hand-written matchers at a position. It also models the `exec` loop of a
  global regular expression: search from `lastIndex` for the leftmost match,
  then resume at its end.
- **Extract** (`extract.dfy`): `extractGithubEntities`. Five passes run in
  order and share one first-writer-wins `seen` set. The method keeps the
  source's loops, `results` and `seen`. It is proved equal to a reference
  definition: de-duplication of the concatenated candidates of the five passes.
- **Select** (`select.dfy`): the confidence threshold, and the first-maximum
  loop that picks the one entity to enrich.
- **Mapper** (`mapper.dfy`): `mapWithConcurrency`, a pre-sized slot array
  filled through a shared cursor.
- **Api** (`api.dfy`): JSON values with JavaScript truthiness and property
  access, the `{ ok, status, body }` replies, and the requests the enrichment
  makes.
- **Derive** (`derive.dfy`): the derived fields `readmeSnippet`, `techStack`,
  `durationDays` and the activity summary.
- **Enrich** (`enrich.dfy`): `fetchGithubDetailsForEntity`. It shows how the
  output record extends the entity for a user and for a repository.
- **Pipeline** (`pipeline.dfy`): the part of `POST` between reading the text
  and writing the response. It normalises, extracts (with the fallback re-run),
  filters, picks the top entity and enriches it.

The model takes the network, base64 decoding, `Date.parse` and `Date.now()` as
parameters:

- the API is a function from `Api.Request` to `Api.Reply`;
- decoding is a function from JSON to an optional string;
- date parsing is a function from JSON to an optional millisecond count;
- the clock is an integer `now`.

Confidences are integers in hundredths (99, 95, 90, 85, 60, and the threshold 90).

Properties proved include:

- the extractor's results have unique keys, the first candidate with a key
  wins, and every result has the shape its pass fixes;
- the fallback re-run adds nothing;
- the selected entity is the earliest maximum among the candidates at or
  above 90;
- the mapper keeps order, with slot `idx` holding `fn(items[idx], idx)`;
- the README snippet, language order, duration and activity figures have the
  properties below;
- what the normaliser guarantees about its output.

One property a reader might expect does not hold: the normalised text can
still contain `\r\n`. `Normalize.CrLfSurvives` gives the exact condition and
`Normalize.NormalizedTextMayHoldCrLf` a concrete input. The rewrite of CRLF runs
before zero-width characters are stripped, so `"a\r​\nb"` comes out as
`"a\r\nb"`.

The pass-3 separator class, `[:\-…]` at route.js:45, is mis-encoded (see
Findings). The pipeline uses the evidently intended class: colon, hyphen and
en dash.

## Model

| member | source | states |
|---|---|---|
| Text.Trim | app/api/parse-resume/route.js:351 | the result is an infix of the input with only white space before and after it, and no `\s` character at either end |
| Text.Lines | app/api/parse-resume/route.js:56 | `split(/\r?\n/)` gives at least one piece, and no piece contains a line feed |
| Normalize.LinesJoin | app/api/parse-resume/route.js:56 | joining the pieces of `split(/\r?\n/)` by `\n` gives the text with each CRLF replaced by `\n`, so the split removes the line breaks and nothing else |
| Api.Truthy | app/api/parse-resume/route.js:171 | JavaScript truthiness: a JSON value is falsy exactly when it is `null`, `false`, `0` or `''` |
| Api.Get | app/api/parse-resume/route.js:157-159 | `j.key` is present only on an object, and is then the value of the last field named `key`; it is absent exactly when no field has that name |
| Api.OrElse | app/api/parse-resume/route.js:160-164 | `v \|\| d` is the value when it is present and truthy, and the default otherwise |
| Normalize.NormalizeClean | app/api/parse-resume/route.js:351-361 | the normalised text has no U+200B/U+200C/U+200D/U+FEFF, no two neighbouring spaces or tabs, no space or tab just before or after `/` or `.`, and no white space at either end |
| Normalize.CrLfSurvives | app/api/parse-resume/route.js:351 | the CRLF rewrite leaves a `\r\n` behind exactly when the input contains `\r\r\n` |
| Normalize.NormalizedTextMayHoldCrLf | app/api/parse-resume/route.js:351-353 | `"a\r​\nb"` normalises to `"a\r\nb"`, which still holds a CRLF |
| Normalize.NormalizeAfterStrip | app/api/parse-resume/route.js:354-361 | on a stripped text with no `g`, no space or tab and no white space at its ends, the remaining rewrites change nothing |
| Normalize.SplitDomainMatches | app/api/parse-resume/route.js:355 | `github`, gaps, an optional dot, gaps, `com`, gaps, `/`, gaps (any letter case) is matched in full by the first domain rewrite |
| Normalize.SplitDomainCollapses | app/api/parse-resume/route.js:355 | such a split domain becomes exactly `github.com/`, and the rewrite goes on after it |
| Patterns.TokenLongest | app/api/parse-resume/route.js:45 | the login group takes the longest login-shaped token available: no longer slice is a login |
| Patterns.UrlAt | app/api/parse-resume/route.js:18 | a pass-1 match starts at the position, ends inside the text, has an owner of 1 to 39 login characters, and has a non-empty path when it has one |
| Patterns.PlainAt | app/api/parse-resume/route.js:32 | the same shape for a pass-2 match |
| Patterns.LabelAt | app/api/parse-resume/route.js:45 | a pass-3 match starts at the position and its owner is a GitHub login, with no path |
| Patterns.MentionAt | app/api/parse-resume/route.js:59 | a pass-4 `@` mention starts at the position and its owner is a login |
| Patterns.NearAt | app/api/parse-resume/route.js:70 | a pass-5 match starts at the position and its owner is a login |
| Patterns.FindFrom | app/api/parse-resume/route.js:20 | `exec` from `lastIndex`: the match found is the matcher's match at its start, and no earlier position at or after `lastIndex` matches |
| Patterns.Hits | app/api/parse-resume/route.js:20-21 | every match of the `exec` loop lies inside the text from the starting index on |
| Patterns.HitsInOrder | app/api/parse-resume/route.js:20 | the loop's matches do not overlap and come in text order |
| Patterns.HitsAreMatches | app/api/parse-resume/route.js:20 | each match of the loop is the matcher's match at its start position |
| Patterns.HitsCover | app/api/parse-resume/route.js:20 | every position where the pattern matches lies inside some match of the loop |
| Patterns.ReservedWordSplitsPasses | app/api/parse-resume/route.js:18-41 | when the path after `https://github.com/owner/` starts with a reserved word, pass 1 yields the owner alone and pass 2, from `github.com/`, yields owner plus the whole path |
| Patterns.NearTakesLastChar | app/api/parse-resume/route.js:70 | on `github…login)` within 30 characters, the greedy `{0,30}` backs off only to the last alphanumeric, so the captured owner is one character |
| Patterns.NearParenExample | app/api/parse-resume/route.js:70 | the text `"GitHub (jdoe93)"` gives owner `"3"` in pass 5 |
| Patterns.LabelEnDash | app/api/parse-resume/route.js:45 | with the class as written, `github – login` does not match at `github`; with the intended class it matches and captures the login |
| Patterns.LabelEnDashExample | app/api/parse-resume/route.js:45 | `"github – jdoe"`: no match with the class as written, and owner `jdoe` with the intended class |
| Extract.StripTrail | app/api/parse-resume/route.js:22 | removes exactly the longest suffix of `/ ) ] . , ;` characters: the result is a prefix, does not end in one of them, and only such characters were removed |
| Extract.StripTrailAll | app/api/parse-resume/route.js:22 | a path made only of trailing characters is stripped to nothing |
| Extract.UrlEntity | app/api/parse-resume/route.js:22-28 | pass 1/2 candidate: a repo exactly when the stripped path is non-empty, then at 95 with url `https://github.com/owner/repo`; otherwise a user at 99 with url `https://github.com/owner` and key `owner` |
| Extract.UserEntity | app/api/parse-resume/route.js:51-52 | pass 3/4/5 candidate: a user with the owner as key, url `https://github.com/owner` and the given confidence |
| Extract.TrailOnlyPathIsUser | app/api/parse-resume/route.js:22-28 | a URL whose path is only trailing characters yields a user candidate at 99 keyed by its owner |
| Extract.KeySetHas | app/api/parse-resume/route.js:15 | a key is in the `seen` set of a sequence exactly when some element has that key |
| Extract.Dedup | app/api/parse-resume/route.js:23-25 | every kept candidate comes from the input |
| Extract.DedupKeys | app/api/parse-resume/route.js:23-25 | de-duplication keeps the set of keys |
| Extract.DedupIsFirstOfKey | app/api/parse-resume/route.js:23-25 | the `seen`-set de-duplication equals the reference definition: the candidates whose key no earlier candidate has |
| Extract.DedupUnique | app/api/parse-resume/route.js:15 | no two kept candidates share a key |
| Extract.DedupFirstWins | app/api/parse-resume/route.js:23-25 | each kept candidate is the first in the input with its key |
| Extract.DedupKeepsNew | app/api/parse-resume/route.js:23-28 | a candidate whose key no earlier candidate has is kept |
| Extract.Record | app/api/parse-resume/route.js:23-28 | one `seen` test: `results` stays the de-duplication of all candidates so far, and `seen` stays its key set |
| Extract.Scan | app/api/parse-resume/route.js:20-29 | one pass's `exec` loop appends exactly that pass's candidates, in match order, through the `seen` test |
| Extract.ScanLines | app/api/parse-resume/route.js:56-67 | the per-line loop appends the `@` mentions of the lines that mention GitHub, line by line |
| Extract.ExtractGithubEntities | app/api/parse-resume/route.js:11-80 | the imperative extractor returns exactly the de-duplicated candidates of the five passes in order |
| Extract.ExtractIsDedup | app/api/parse-resume/route.js:12 | the empty text yields `[]`, and the early return changes nothing otherwise |
| Extract.ExtractKeysUnique | app/api/parse-resume/route.js:15 | no two results share an identity key |
| Extract.ExtractFirstWins | app/api/parse-resume/route.js:23-25 | the results are the first candidate of each key in pass order: each new key is kept, and each result is the first with its key |
| Extract.ExtractKeys | app/api/parse-resume/route.js:15 | the results have exactly the keys of all candidates |
| Extract.HitShaped | app/api/parse-resume/route.js:22-76 | each match gives a well-shaped candidate; passes 3, 4 and 5 give users at 90, 85 and 60, and passes 1 and 2 give 99 or 95 |
| Extract.PassShaped | app/api/parse-resume/route.js:20-53 | every candidate of a regex pass is well-shaped |
| Extract.MentionsShaped | app/api/parse-resume/route.js:57-67 | every candidate of the per-line pass is well-shaped |
| Extract.ExtractShaped | app/api/parse-resume/route.js:11-80 | every result has the url its owner and repo determine, and a kind and confidence allowed by the pass that produced it |
| Select.Confident | app/api/parse-resume/route.js:370-371 | the filter keeps exactly the candidates at or above 90 |
| Select.ConfidentAppend | app/api/parse-resume/route.js:370-371 | the filter works element by element, so it keeps the order and the repetitions of its input |
| Select.ConfidentOne | app/api/parse-resume/route.js:370-371 | one candidate is kept exactly when its confidence is at least 90 |
| Select.PickTop | app/api/parse-resume/route.js:374-382 | none exactly when nothing reaches 90; otherwise a candidate at or above 90, at least as confident as every confident candidate, and the earliest such among the confident ones |
| Pipeline.Choose | app/api/parse-resume/route.js:362-382 | with the fallback re-run, the top candidate satisfies the same against the extractor's results, and its confidence is 99, 95 or 90 |
| Pipeline.AnalyzeText | app/api/parse-resume/route.js:351-384 | `github` is empty exactly when no candidate of the normalised text reaches 90; otherwise it holds one enrichment, of the first confident candidate of the highest confidence, with every field `DetailsOf` (the contract of `Enrich.FetchDetails`) prescribes |
| Mapper.SlotOf | app/api/parse-resume/route.js:108-112 | a finished call, whether it returned or threw, never leaves its slot empty |
| Mapper.MapWithConcurrency | app/api/parse-resume/route.js:102-117 | the result has one slot per item, and slot `idx` holds the outcome of `fn(items[idx], idx)` |
| Derive.NonEmptyTrimmed | app/api/parse-resume/route.js:175 | trimmed, non-empty lines with no line feed, at most as many as the input |
| Derive.NonEmptyTrimmedAppend | app/api/parse-resume/route.js:175 | the map and filter work line by line: the result for a concatenation is the concatenation of the results |
| Derive.NonEmptyTrimmedOne | app/api/parse-resume/route.js:175 | one line gives its trimmed form, or nothing when it trims to `''` |
| Derive.Take | app/api/parse-resume/route.js:176 | `slice(0, n)` of the lines: the first `min(n, length)` |
| Derive.Snippet | app/api/parse-resume/route.js:175-176 | the first `min(800, length)` characters of the first five lines joined by `\n` |
| Derive.SnippetAtMostFiveLines | app/api/parse-resume/route.js:175-176 | whether or not the cut at 800 characters applies, the snippet splits into at most five lines |
| Derive.SnippetLines | app/api/parse-resume/route.js:175-176 | when the join fits in 800 characters, splitting the snippet again gives back the first five trimmed non-empty lines |
| Derive.SplitJoin | app/api/parse-resume/route.js:175-176 | splitting a join by `\n` of lines without line breaks gives the lines back |
| Derive.Insert | app/api/parse-resume/route.js:186 | insertion into the sorted languages adds exactly the one entry |
| Derive.SortByBytes | app/api/parse-resume/route.js:186 | the sort is a permutation of the language entries |
| Derive.SortDescending | app/api/parse-resume/route.js:186 | the sorted entries are in non-increasing byte order |
| Derive.SortStable | app/api/parse-resume/route.js:186 | entries with equal byte counts keep their relative order |
| Derive.TechStackOrder | app/api/parse-resume/route.js:186 | `techStack` is a permutation of the language keys, in non-increasing byte order, with ties in entry order |
| Derive.RoundDays | app/api/parse-resume/route.js:166 | `Math.round(delta / 86400000)`: the nearest whole day, halves rounded up |
| Derive.DurationDays | app/api/parse-resume/route.js:166 | never negative; a number exactly when both dates are truthy and parse; otherwise null; the rounded day count when positive |
| Derive.Percent | app/api/parse-resume/route.js:145 | `Math.round(days / 30 * 100)`: the integer within a third of `10 * days / 3`, which is the nearest one since `10 * days / 3` is never a half |
| Derive.PercentAtMost100 | app/api/parse-resume/route.js:145 | the percentage is at most 100 exactly when at most 30 days are active |
| Derive.Activity | app/api/parse-resume/route.js:129-146 | the loop counts the distinct UTC days of the events with a parseable `created_at` no more than 30 days before now, and the percentage of that count |
| Derive.ActiveDaysWithin | app/api/parse-resume/route.js:139-141 | with no future events, every active day lies between the day 30 days ago and today |
| Derive.ActivityBound | app/api/parse-resume/route.js:135-145 | with no future events, at most 31 days are active and the percentage is at most 103 |
| Derive.ActivityBoundReached | app/api/parse-resume/route.js:135-145 | the bound is reached: one past event on each of 31 UTC dates gives 31 active days and 103% |
| Enrich.ArrayOrEmpty | app/api/parse-resume/route.js:154 | the listing when the body is an array, otherwise `[]` |
| Enrich.Entries | app/api/parse-resume/route.js:186 | `Object.entries` of an object body is its fields |
| Enrich.ReadmeContent | app/api/parse-resume/route.js:171-172 | a README only from an ok reply with a truthy `content`, and then the decoded content |
| Enrich.RepoSummaryOf | app/api/parse-resume/route.js:156-193 | a `null` element throws; otherwise the summary copies `name`, `full_name` and `html_url`, defaults `description`, the counts and the dates, has the duration of `DurationDays`, has a README and snippet together when the README reply allows, and has a tech stack exactly when the languages reply is a usable object |
| Enrich.Copy | app/api/parse-resume/route.js:121 | the copy holds the entity, and every field the enrichment adds is unset |
| Enrich.FetchDetails | app/api/parse-resume/route.js:120-232 | the entity's fields are kept. A user gets `profile` (the body when ok, else null), `_fetch`, the activity of the listed events and one slot per listed repository in listing order. A repository without a name is returned as copied. A named repository gets `repoInfo`, `_fetch`, the README, snippet and tech stack its replies allow, and dates and duration when `repoInfo` is truthy. Nothing else is set |

## Left out

- `parsePdf` and `parseDocx` (route.js:234-309) are left out: they call foreign libraries on binary formats.
- `fetchJson` and `buildAuthHeaders` (route.js:83-99) are left out. They are network calls and `process.env`, and the model takes their replies as the `fetch` parameter.
- The request and response framing of `POST` (route.js:311-349, 385-394) is left out: multipart parsing, file-type dispatch and `Response` objects. `app/page.js`, `app/layout.js` and `tailwind.config.js` are not part of this model.
- Extract.ExtractGithubEntities: the input is a string, so the non-string case of the guard at route.js:12 is not represented.
- Mapper.MapWithConcurrency: the `concurrency` workers and `await` are modelled as one sequential cursor loop. Every slot is written once by a call that depends only on its item and index, so the interleaving does not matter.
- Enrich.FetchDetails does not model the outer `catch` (route.js:228-230) or the inner ones, which cannot fire in the model:
  - `fetchJson` never throws;
  - a string here holds no lone surrogate, so `encodeURIComponent` cannot throw;
  - `Date.parse` results are in the range `toISOString` accepts;
  - the only modelled exception is reading `name` of a `null` repository element, inside the mapper.
- Enrich.FetchDetails: the API is a function, so the same request always gets the same reply, and timing and rate limits are not modelled.
- Enrich.ReadmeContent: base64 decoding through `Buffer` is the `decode` parameter.
- Derive.DurationDays: `Date.parse` is the `parse` parameter, with `None` for `NaN`. A `NaN` duration serialises as `null`, like a missing one.
- Derive.Activity: `Date.now()` is the `now` parameter.
- Api.Json: a JSON number is an integer here. Fractional numbers and `-0` in a reply are not represented, so a fractional byte count or star count is outside the model.
- Floating point is replaced by integers:
  - confidences are hundredths;
  - `Math.round` of a quotient is an exact integer formula;
  - millisecond timestamps are integers.
- Derive.ActiveDays: the day key is `t / 86400000` (the UTC date). `toISOString().slice(0, 10)` gives the same key only for years 0 to 9999; for extended years it would merge the days of one month.
- Derive.ActivityBound: the ranges a reader might expect, 0 to 30 active days and 0 to 100%, do not hold for the code, and the model follows the code. The 30-day test admits events on 31 UTC dates, and Derive.ActivityBoundReached gives 31 days and 103%. Events dated in the future pass the test too; the lemma assumes there are none. Which correction was meant (a clamp, a strict test, a window of whole dates) is not evident, so this is not listed as a finding.
- Derive.Bytes: the subtraction `b[1] - a[1]` converts a number to itself, `true` to 1, and `false` and `null` to 0, as the model does. Text, arrays and objects go through `Number(...)` in the source. The empty text, text of only white space and `[]` become 0. Numeric text (decimal, `0x`, `0o` and `0b` forms, `Infinity`) becomes that number, and so does a one-element array holding a number or numeric text. Other text, longer arrays and objects become `NaN`, which the sort reads as equal to every other entry. The model counts every text, array and object as 0 bytes.
- Enrich.Entries: an object's fields are taken in the order the JSON value lists them. JavaScript lists integer-like keys first, in ascending order, and that reordering is not modelled. A field name listed twice is kept twice here, while `JSON.parse` and `Object.entries` give it once, at its first position with its last value. A text body gives one entry per character here, while `Object.entries` gives one per UTF-16 code unit, so a character outside the Basic Multilingual Plane gives two entries there.
- Derive.Snippet: `slice(0, 800)` counts UTF-16 code units, while the model counts characters. The two differ only for characters outside the Basic Multilingual Plane.
- Patterns.NearAt: the `{0,30}` of pass 5 (route.js:70) counts UTF-16 code units, while the model counts characters. A character outside the Basic Multilingual Plane takes two of the 30 positions in the source and one in the model.
- Text.Lower: case folding under the `i` flag is modelled for ASCII letters only. This covers every literal in the patterns. The one non-ASCII case the patterns meet, U+00E2 and U+00C2 in the as-written pass-3 class, is written out.

## Findings

| source | as written | input that shows it | evidently intended | confidence | as-written member | corrected member |
|---|---|---|---|---|---|---|
| app/api/parse-resume/route.js:45 | The separator class holds `:`, `-` and the bytes of a UTF-8 en dash read as Windows-1252: U+00E2, U+20AC and U+201C. U+00E2 also matches U+00C2 under `i`. An en dash is not in the class. | `"github – jdoe"` (with U+2013): pass 3 finds no match at `github`, so no label candidate is produced | the class `[:\-–]`: colon, hyphen, en dash; the input then gives user `jdoe` at 90 | not executed | Patterns.LabelEnDashExample | Patterns.LabelEnDash |
