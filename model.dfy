/** Data model of the GitHub Pages app discovery: what the GitHub REST API
    answers (repository summaries and details), the app entries built from
    them, and the catalog written at the end of a run. */
module Model {

  datatype Option<+T> = None | Some(value: T)

  /** The account whose repositories are listed; fixed in the source. */
  const Account: string := "DanielMeixner"

  /** The account's root Pages site: a repository with exactly this name is
      served at the bare Pages host. */
  const RootSiteName: string := "DanielMeixner.github.io"

  /** The account's Pages host, lower-cased, as the URL fallback writes it. */
  const PagesHost: string := "https://danielmeixner.github.io"

  /** One element of a "list repositories for user" page. */
  datatype RepoSummary = RepoSummary(name: string, hasPages: bool, htmlUrl: string)

  /** The answer of the per-repository "get repository" call. A JSON `null`
      (or a missing field) is `None`; the source tests `description` and
      `language` for truthiness, so `Some("")` behaves like `None` there. */
  datatype RepoDetail = RepoDetail(
    description: Option<string>,
    language: Option<string>,
    topics: Option<seq<string>>,
    stars: nat,
    forks: nat,
    updatedAt: int)

  /** One record of the catalog's `apps` array. */
  datatype AppEntry = AppEntry(
    name: string,
    description: string,
    url: string,
    repository: string,
    screenshot: string,
    tags: seq<string>,
    language: string,
    stars: nat,
    forks: nat,
    updatedAt: int)

  /** The document written to apps-data.json. */
  datatype Catalog = Catalog(lastUpdated: int, totalApps: nat, apps: seq<AppEntry>)

  /** JavaScript truthiness of an optional string: neither null nor "". */
  predicate Present(s: Option<string>) {
    s.Some? && s.value != ""
  }
}
