# minihub core, modelled in Dafny

minihub is a small web front end for a Docker registry (v2 API). On each request for the
index page it does three things:

- It reads the registry's catalog, then the tag list of every repository, then the manifest
  and content digest of every tag.
- It ranks each repository's tags: tags named `latest` first, then at most four others,
  newest commit date first.
- It renders a page from the images together with one "danger" message per error met on the
  way.

The page template has a helper, `get`, that reads one `KEY=VALUE` entry from an image's
environment list.

This project models that core:

- `Types.dfy` holds the values that flow through the request: the registry records, the
  template records and the messages.
- `TagRanking.dfy` covers `tagLimitSort`:
  - The partition is a loop over the tags.
  - `sort.Slice` is an insertion sort in place on an array.
  - Because `sort.Slice` is not stable, the result is specified as "some ordering of the
    other tags newest first". This is the predicate `RankingOf`.
- `TemplateHelpers.dfy` covers the `get` helper: a loop with an early return, proved
  against a recursive specification `EnvValue`. It also covers the `strings.Replace(..., 1)`
  it calls.
- `Pipeline.dfy` covers `index`, `fetchRegistryImages` and `fetchRegistryTags`, run one
  step at a time:
  - Every HTTP call and every JSON decode is an input outcome: `Ok`/`Err` or `Pass`/`Fail`.
    A `Registry` value gives the answer for each URL.
  - `json.Unmarshal` of `v1Compatibility` and `time.Parse` of commit dates are input
    functions (`Decoders`).
  - The listing and resolution workers are functions that stop at their first error.
  - The per-repository worker and `index` are methods.

## Model

| member | source | states |
|---|---|---|
| TagRanking.Key | minihub.go:306-308 | a tag's sort key: the Unix seconds its commit date parses to, or Go's zero time -62135596800 when the date does not parse |
| TagRanking.Cap | minihub.go:310-312 | `other[0:4]` when there are more than four: the first min(4, length) tags, in order |
| TagRanking.Pinned | minihub.go:298-304 | the tags named `latest`, in input order; every one of them is named `latest` |
| TagRanking.Others | minihub.go:298-304 | the other tags, in input order; none of them is named `latest` |
| TagRanking.PartitionKeepsTags | minihub.go:298-304 | the partition into `first` and `other` neither loses nor duplicates a tag (multisets and lengths add up) |
| TagRanking.SortByDate | minihub.go:305-309 | sorting `other` in place leaves it ordered newest commit date first and a permutation of what it was |
| TagRanking.Swap | minihub.go:305-309 | one exchange of the in-place sort: the two cells trade values, nothing else changes, the multiset is kept |
| TagRanking.TagLimitSort | minihub.go:295-314 | the result is `first` followed by the first four (or fewer) of some ordering of `other` newest first |
| TagRanking.PinnedFirst | minihub.go:298-313 | the `latest` tags open the result in their input order, and every `latest` tag precedes every other tag |
| TagRanking.KeptNewestFirst | minihub.go:305-313 | the part after the `latest` tags has min(4, number of others) tags and is sorted newest first |
| TagRanking.UnparsableRankedLast | minihub.go:306-308 | a kept tag whose date does not parse (zero time) comes after every kept tag dated after Go's zero time |
| TagRanking.UnparsableLast | minihub.go:306-308 | in any tag sequence sorted by the comparator, an unparsable date sorts after every date later than the zero time |
| TagRanking.DroppedNotNewer | minihub.go:305-312 | every other tag the cap dropped is no newer than every other tag it kept |
| TagRanking.RankingKeepsTags | minihub.go:295-314 | the result is a sub-multiset of the input, and a permutation of it when there are at most four other tags |
| TagRanking.SortedByDateUnique | minihub.go:305-309 | when the commit dates are distinct there is only one ordering newest first |
| TagRanking.RankingUnique | minihub.go:295-314 | when the other tags' dates are distinct the result of `tagLimitSort` is determined, despite the unstable sort |
| TagRanking.PartitionAppend | minihub.go:298-304 | partitioning a concatenation partitions each part and concatenates the results |
| TagRanking.NoPinnedTags | minihub.go:298-304 | with no `latest` tag, nothing is pinned and every tag is an other tag |
| TagRanking.LatestThenNewestFour | minihub.go:295-314 | `latest` followed by tags with strictly decreasing dates ranks to `latest` and the next four tags |
| TemplateHelpers.IndexOf | minihub.go:111 | the position `strings.Replace` replaces at is the leftmost occurrence of the pattern, or none when it does not occur |
| TemplateHelpers.ReplaceOnce | minihub.go:111 | `strings.Replace(s, pat, with, 1)`: the text is unchanged when `pat` does not occur; otherwise its leftmost occurrence is replaced by `with` and the text around it is kept |
| TemplateHelpers.RemovePrefix | minihub.go:110-111 | replacing the first occurrence of a prefix with "" removes exactly that prefix |
| TemplateHelpers.Get | minihub.go:106-115 | `get(field, env)` returns the value of the first `field=` entry with the prefix removed, or "" when there is none |
| TemplateHelpers.EnvValueOfFirstSetting | minihub.go:107-112 | the value is the text after `field=` of the first entry that starts with `field=` |
| TemplateHelpers.EnvValueUnset | minihub.go:107-114 | with no entry starting with `field=`, the value is "" |
| TemplateHelpers.EnvValueFromEntry | minihub.go:106-115 | a non-empty value is always the rest of some entry `field=value` of the list |
| TemplateHelpers.EnvValueIgnoresLater | minihub.go:107-112 | once an entry sets `field`, entries after it change nothing |
| TemplateHelpers.EnvValueAfterSetting | minihub.go:106-115 | appending `field=value` to a list that does not set `field` makes `value` its value |
| Pipeline.Catalog | minihub.go:172-181 | reading the catalog: the GET's error when the GET fails, otherwise the outcome of decoding the body |
| Pipeline.TagList | minihub.go:214-223 | reading one repository's tag list: the GET's error when the GET fails, otherwise the outcome of decoding the body |
| Pipeline.ListImages | minihub.go:209-228 | the listing worker emits exactly the longest prefix of the catalog whose tag lists were fetched and decoded, then the first error if any, and nothing after it |
| Pipeline.ListingStopsAtFirstFailure | minihub.go:213-224 | the number of listed repositories is the position of the first failing tag list, and the error reported is that one's |
| Pipeline.V1Compatibility | minihub.go:247 | `History[0]["v1Compatibility"]`: the entry's value, or "" when the key is missing |
| Pipeline.FirstHistory | minihub.go:247 | the decoded `v1Compatibility`, or the zero `registryInfo` when it does not decode; the decode error is discarded |
| Pipeline.ResolveTagAsWritten | minihub.go:234-265 | one tag resolves exactly when its four steps succeed; it is named by its list entry and carries the first history entry and the first digest header value; defined only where it does not panic |
| Pipeline.MissingDataPanics | minihub.go:247-262 | an empty `History`, a missing digest header, or an empty one, each falls outside the replies the loop as written can handle |
| Pipeline.ResolveTag | minihub.go:234-265 | as `ResolveTagAsWritten` wherever that is defined; an empty history or a missing digest header gives an error instead of a panic |
| Pipeline.MissingDataReported | minihub.go:247-262 | every reply that makes the loop as written panic gives one of the two new errors |
| Pipeline.MalformedProvenanceIgnored | minihub.go:247 | a `v1Compatibility` that does not decode neither fails the tag nor reports an error: the tag carries empty provenance |
| Pipeline.ResolveTags | minihub.go:230-269 | the resolution worker emits exactly the longest fully resolved prefix of the tag list, each named by its entry, then the first error if any |
| Pipeline.ResolutionStopsAtFirstFailure | minihub.go:234-265 | the number of resolved tags is the position of the first tag that fails to resolve, and the error reported is that one's |
| Pipeline.ResolutionErrors | minihub.go:230-269 | each repository worker reports at most one error |
| Pipeline.PipelineErrors | minihub.go:147-269 | the errors a request records: the catalog error alone when the catalog fails; otherwise the per-repository errors in catalog order, followed by the listing error when there is one |
| Pipeline.Alerts | minihub.go:155-158 | each error becomes one message of level "danger" carrying the error text, in order |
| Pipeline.AlertsAreDanger | minihub.go:157 | every recorded message has level "danger" |
| Pipeline.AlertsAppend | minihub.go:155-158 | the messages of two runs of errors are the messages of each, concatenated |
| Pipeline.CollectImage | minihub.go:188-197 | a repository worker yields an image with the repository's name and `tagLimitSort` of the tags resolved for it, even when none resolved, and hands back its worker's error |
| Pipeline.CollectImages | minihub.go:186-205 | each listed repository yields one image, in order, and the per-repository errors become one message each |
| Pipeline.Index | minihub.go:147-207 | a catalog failure gives no images and exactly one message; otherwise one ranked image per listed repository; the messages are exactly one "danger" message per error of the request |
| Pipeline.NoMessagesIffComplete | minihub.go:147-262 | a request records no message exactly when the catalog was read, every repository listed and every tag resolved |
| Pipeline.ResolutionErrorsEmpty | minihub.go:230-269 | no repository worker reports an error exactly when each of them resolved all its tags |
| Pipeline.MessagesBounded | minihub.go:186-228 | once the catalog is read, a request records at most one message per listed repository plus one for a listing failure, and that is never more than the number of catalog entries |

## Left out

- HTTP, TLS and the registry host: every GET, request construction and `client.Do` is an
  input outcome of a `Registry` value. A call that succeeds carries no status-code check,
  as in the source. Response bodies that are never closed are not modelled.
- JSON decoding of the catalog, of the tag lists, of the manifests and of
  `v1Compatibility` is an input (`Fetch` values, `Decoders.v1Compatibility`). When
  `json.Unmarshal` fails, Go may already have filled part of the structure. The model
  takes the whole structure to be the zero value in that case.
- `time.Parse` with the layout `Mon Jan 2 15:04:05 2006 -0700` is an input function
  (`DateParser`). It gives Unix seconds, or nothing when the text does not parse; nothing
  counts as Go's zero time (Unix -62135596800).
- TagRanking.UnparsableRankedLast: only claims that unparsable dates come after dates later
  than Go's zero time. A date that parses to a time at or before Go's zero time,
  0001-01-01 00:00:00 UTC, ties with or sorts after an unparsable one, exactly as in the
  source.
- Goroutines, channels and wait groups: the workers run one after another.
  - Images come in catalog order, while in the source they arrive in the order the
    per-repository workers finish.
  - Messages come as the per-repository errors in catalog order, then the listing error.
    In the source they are interleaved in arrival order.
  - Index: states the message multiset in one fixed order only, because the source's order
    depends on scheduling.
- The `i.(string)` type assertion in `get`: the environment list is a list of strings
  here, so the assertion cannot fail.
- The `replace`, `json` and `prefix` template helpers, template parsing and execution,
  the embedded static files, the `LISTEN`/`REGISTRY` settings, `main`, `deleteTag` and
  `favicon` are not part of this model. They are wiring or one-line wrappers around the
  Go library.
- Logging (`log.Println`) is not modelled.

## Findings

| source | as written | input that shows it | evidently intended | confidence | as-written member | corrected member |
|---|---|---|---|---|---|---|
| minihub.go:247 | reads `ti.History[0]` without checking that the manifest has a history | a manifest body that decodes with an empty `history` list | the tag fails with an error sent to the error channel, like every other failure in the loop, instead of a panic in a worker goroutine that ends the whole process | medium; not executed | Pipeline.ResolveTagAsWritten, Pipeline.MissingDataPanics | Pipeline.ResolveTag, Pipeline.MissingDataReported |
| minihub.go:262 | reads `resp.Header["Docker-Content-Digest"][0]` without checking that the header is present | a digest response that carries no `Docker-Content-Digest` header | the tag fails with an error instead of an index-out-of-range panic that ends the process | medium; not executed | Pipeline.ResolveTagAsWritten, Pipeline.MissingDataPanics | Pipeline.ResolveTag, Pipeline.MissingDataReported |

The rest of the model (`ResolveTags`, `CollectImage`, `Index`) uses the corrected
`ResolveTag`. Its two new errors are `manifest has no history` and
`response has no Docker-Content-Digest header`. `ResolveTag` agrees with
`ResolveTagAsWritten` on every reply the source handles without panicking.
