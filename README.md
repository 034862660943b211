# App-Catalog discovery, modelled in Dafny

App-Catalog builds a gallery of the GitHub Pages sites of one account. Its
discovery script, `discover-apps.js`, lists every repository of the account
page by page, keeps those with a Pages site, turns each one into an app entry
(Pages URL, tags, description, language, screenshot path, counters), sorts
the entries newest first and writes the catalog `{lastUpdated, totalApps,
apps}` to `apps-data.json`.

This project models that pipeline and proves what it promises:

- `model.dfy` (module `Model`): repository summaries, repository details,
  app entries and the catalog. JavaScript `null` is `None`. A
  description or language that is `None` or `""` counts as absent, as the
  source's `||` and `if (…)` do.
- `pagination.dfy` (module `Pagination`): the `while (hasMore)` loop as a
  method. It is proved equal to a recursive specification, `Paginate`.
  `Paginate` is in turn proved equal to a declarative characterisation:
  - where the loop stops: a short page, the 50th page, or an error other
    than 403;
  - which page each call asks for: one more than the number of pages
    fetched so far, so a 403 retries the same page;
  - what is collected: the successful pages concatenated in order.
- `enrichment.dfy` (module `Enrichment`): the `has_pages` filter, the Pages
  URL with its fallback, tag construction, the app entry, and the
  enrichment loop. A repository whose detail fetch fails is skipped, and
  the loop goes on with the others.
- `ordering.dfy` (module `Ordering`): `apps.sort`, an in-place insertion
  sort on an array. It is proved equal to a functional stable sort. That
  sort is proved to give a newest-first permutation that keeps ties in
  their original order. It is also the only arrangement with those
  properties.
- `discovery.dfy` (module `Discovery`): the whole run, up to the catalog
  record.

The GitHub API is replaced by oracles:
- The listing answers are a sequence `responses`. The k-th call receives
  `responses[k]`, which is a page of repositories or an HTTP error status.
- The "get repository" and "get Pages" answers are maps keyed by repository
  name. A name missing from a map means that call threw.

The build time (`new Date().toISOString()` in the source) is a parameter.
`updated_at` is an integer timestamp.

## Model

| member | source | states |
|---|---|---|
| Pagination.ListAllRepositories | discover-apps.js:13-50 | the loop's outcome and number of calls equal `Paginate`; call k asks for page 1 + (pages fetched before call k) |
| Pagination.Paginate | discover-apps.js:17-50 | a run never makes more calls than the oracle answers |
| Pagination.Resume | discover-apps.js:17-50 | the loop resumed at a given call, page and collection ends after no fewer calls than already made and no more than the oracle answers; `ResumeCharacterization` proves each such run meets the characterisation below |
| Pagination.PaginateCharacterization | discover-apps.js:17-48 | the run stops at the first short page, 50th page or non-403 error; before that every error was a 403 and every page was full; the result is the successful pages concatenated in call order; running out of answers happens only while the loop would continue |
| Pagination.RunCharacterizedUnique | discover-apps.js:17-50 | the characterisation admits exactly one run, so it defines the loop's result on its own |
| Pagination.PaginateCeiling | discover-apps.js:36-40 | at most 50 pages are fetched successfully; reaching 50 ends the run with the repositories collected, not with an error |
| Pagination.RetryRequestsSamePage | discover-apps.js:34-46 | after a failed call the next call asks for the same page; after a successful one, for the next page |
| Pagination.PagesRequestedAscending | discover-apps.js:14-34 | page numbers requested never decrease |
| Pagination.RateLimitOnPageThree | discover-apps.js:41-46 | a 403 on page 3 is followed by another request for page 3; all pages are still collected in order |
| Pagination.EmptyAccount | discover-apps.js:29-33 | an account with no repositories ends after one call with nothing collected and no error |
| Pagination.PageRequested | discover-apps.js:14-34 | the page asked for by call k is between 1 and k + 1 |
| Enrichment.WithPages | discover-apps.js:56-60 | a repository is kept if and only if it was listed and its `has_pages` is set; never more than were listed |
| Enrichment.WithPagesConcat | discover-apps.js:30-60 | filtering the concatenated pages is concatenating the filtered pages |
| Enrichment.FallbackUrl | discover-apps.js:84-92 | the fallback is total and starts with `https://danielmeixner.github.io`; it is that bare host exactly when the name is `DanielMeixner.github.io`; otherwise the host, `/` and the name |
| Enrichment.FallbackUrlIsHttps | discover-apps.js:87-91 | the fallback URL starts with `https://` |
| Enrichment.FallbackUrlInjective | discover-apps.js:87-91 | different repository names get different fallback URLs |
| Enrichment.ResolveUrl | discover-apps.js:77-92 | the Pages lookup's `html_url` is used verbatim when the lookup succeeds; otherwise the URL is exactly `FallbackUrl` of the name, on the account's Pages host |
| Enrichment.ToUpper | discover-apps.js:98 | the result is never an ASCII lower-case letter; other characters are unchanged; lower-case letters are shifted to upper case |
| Enrichment.Capitalize | discover-apps.js:97-99 | same length; first character upper-cased; the rest unchanged; `""` stays `""` |
| Enrichment.BuildTags | discover-apps.js:95-103 | one tag per topic, capitalised, in topic order, then the language if present; nothing else |
| Enrichment.TopicsOf | discover-apps.js:96-100 | a missing `topics` field contributes no tags; present topics are used as given, in order |
| Enrichment.BuildTagsExample | discover-apps.js:95-103 | topics `foo`, `bar` with language `TypeScript` give `Foo`, `Bar`, `TypeScript` |
| Enrichment.MakeEntry | discover-apps.js:106-117 | `name` is the repository name on both branches of the ternary; description and language are never empty, defaulting to `No description available` and `Unknown`; URL and repository link as given; screenshot path is `screenshots/` + name + `.png`; stars, forks and `updatedAt` copied |
| Enrichment.Fetched | discover-apps.js:69-74 | a repository survives the detail fetch if and only if its details were obtained |
| Enrichment.EnrichedApps | discover-apps.js:66-124 | the enrichment loop's `apps` array has at most one entry per repository; the lemmas below give its exact content |
| Enrichment.EnrichedAppsAreFetchedMapped | discover-apps.js:66-124 | entry k is the entry built from the k-th repository whose details were fetched, with its resolved URL |
| Enrichment.EnrichedAppsConcat | discover-apps.js:119-123 | a failed repository only removes its own entry: enriching a concatenation is concatenating the enrichments |
| Enrichment.EntriesComeFromPagesRepos | discover-apps.js:56-124 | every entry is built from a listed repository with `has_pages` set and fetched details; there are at most as many entries as Pages repositories |
| Enrichment.CollectApps | discover-apps.js:64-124 | the enrichment loop produces exactly `EnrichedApps` of the Pages repositories |
| Ordering.SortByUpdatedAt | discover-apps.js:127 | after the in-place sort the array holds the stable newest-first sort of its old contents |
| Ordering.InsertIntoPrefix | discover-apps.js:127 | one insertion step places the next entry after the last entry that is at least as recent; the rest of the array is unchanged |
| Ordering.Insert | discover-apps.js:127 | placing an entry into a sorted prefix adds exactly one entry; `InsertPermutes`, `InsertKeepsOrder` and `InsertStable` show it keeps the other entries, the newest-first order and the order of ties |
| Ordering.SortNewestFirst | discover-apps.js:127 | the stable newest-first arrangement has as many entries as its input; the lemmas below characterise it completely |
| Ordering.SortIsNewestFirst | discover-apps.js:127 | the sorted entries are ordered by `updatedAt`, most recent first |
| Ordering.SortPermutes | discover-apps.js:127 | the sort returns a permutation of its input |
| Ordering.SortIsStable | discover-apps.js:127 | entries with the same timestamp keep their input order |
| Ordering.StableArrangementUnique | discover-apps.js:127 | two newest-first arrangements that agree on the order within every timestamp are equal |
| Ordering.SortCharacterization | discover-apps.js:127 | a sequence is the sort's output if and only if it is newest first and keeps each timestamp's entries in input order |
| Ordering.SortExample | discover-apps.js:127 | entries dated 2024-01-01, 2023-06-01, 2024-06-01 come out 2024-06-01, 2024-01-01, 2023-06-01 |
| Ordering.WithTimestampMembers | discover-apps.js:127 | the entries picked out for a timestamp are exactly the input's entries with that timestamp |
| Discovery.CatalogApps | discover-apps.js:56-133 | the catalog's `apps` array has one entry per Pages repository whose details were fetched |
| Discovery.CatalogAppsProperties | discover-apps.js:56-134 | the catalog's apps are newest first; they are a permutation of the enriched entries with ties in order; there is one per fetched Pages repository and no other |
| Discovery.DiscoverGitHubPagesApps | discover-apps.js:4-146 | a non-403 listing error ends the run with that status; otherwise a catalog is written with `lastUpdated` set to the build time, `totalApps` equal to the number of apps, and apps equal to the sorted enrichment of the Pages repositories |

## Left out

- `Pagination.ListAllRepositories`: under a persistent 403 the source retries forever. Here the answers are a finite sequence, and running out of it ends the run as `Stalled` / `Waiting`. Nothing is claimed about what the source would do after that.
- The listing oracle answers calls in order, not by page number. The requested page of each call is recorded and proved. Nothing is claimed about how a real API answers a given page.
- The 60-second wait after a 403 takes no time in the model. It is only the retry of the same page.
- Octokit client construction, the `GITHUB_TOKEN` credential, the request parameters (`per_page`, `sort`, `type`), console logging, `JSON.stringify` and the `apps-data.json` write, and `process.exit(1)`. The last is the `Exited` outcome.
- Date parsing in the sort comparator and `toISOString()`. Timestamps are integers and the build time is a parameter. Unparsable dates (a `NaN` comparator) are not modelled.
- `toUpperCase` beyond ASCII: other characters are left unchanged, and characters whose upper case is longer are not modelled.
- A `has_pages` field that is missing or not a boolean: the flag is a `bool`.
- A `topics` array holding non-strings, and a `null` `html_url` from the Pages lookup: topics are strings and URLs are strings.
- Screenshot paths are `screenshots/<name>.png`, with no account prefix, and there is one hard-coded account, as in `discover-apps.js`.
- `script.js` (rendering the gallery in the browser) and `take-screenshots.js` (browser automation and file writes) are not part of this model.
