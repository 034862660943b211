/** The whole discovery run (discover-apps.js, `discoverGitHubPagesApps`):
    list the repositories, keep those with Pages, enrich each into an app
    entry, sort newest first and build the catalog written to
    apps-data.json. The build time is a parameter instead of the clock. */
module Discovery {
  import opened Model
  import opened Pagination
  import opened Enrichment
  import opened Ordering

  /** How a run ends: the catalog that is written, the failing status of a
      listing error that makes the process exit with code 1, or still
      waiting on the listing when the oracle runs out. */
  datatype Discovery = Written(catalog: Catalog) | Exited(status: int) | Waiting

  /** The apps of the catalog built from the listed repositories `repos`:
      one per Pages repository whose details were fetched. */
  function CatalogApps(repos: seq<RepoSummary>, details: map<string, RepoDetail>, pagesUrls: map<string, string>): (apps: seq<AppEntry>)
    ensures |apps| == |Fetched(WithPages(repos), details)| <= |WithPages(repos)|
  {
    EnrichedAppsAreFetchedMapped(WithPages(repos), details, pagesUrls);
    SortNewestFirst(EnrichedApps(WithPages(repos), details, pagesUrls))
  }

  /** What the catalog promises: newest first, one entry per Pages repository
      whose details were fetched (and no other), ties in enrichment order. */
  lemma CatalogAppsProperties(repos: seq<RepoSummary>, details: map<string, RepoDetail>, pagesUrls: map<string, string>)
    ensures var apps := CatalogApps(repos, details, pagesUrls);
      var enriched := EnrichedApps(WithPages(repos), details, pagesUrls);
      && NewestFirst(apps)
      && multiset(apps) == multiset(enriched)
      && (forall t :: WithTimestamp(apps, t) == WithTimestamp(enriched, t))
      && |apps| == |Fetched(WithPages(repos), details)| <= |WithPages(repos)|
    ensures forall app :: app in CatalogApps(repos, details, pagesUrls) ==>
      exists r :: (r in repos && r.hasPages && r.name in details
        && app == MakeEntry(r, details[r.name], ResolveUrl(r.name, pagesUrls)))
  {
    var enriched := EnrichedApps(WithPages(repos), details, pagesUrls);
    var apps := CatalogApps(repos, details, pagesUrls);
    SortIsNewestFirst(enriched);
    SortPermutes(enriched);
    forall t
      ensures WithTimestamp(apps, t) == WithTimestamp(enriched, t)
    {
      SortIsStable(enriched, t);
    }
    EnrichedAppsAreFetchedMapped(WithPages(repos), details, pagesUrls);
    EntriesComeFromPagesRepos(repos, details, pagesUrls);
    forall app | app in apps
      ensures app in enriched
    {
      assert app in multiset(apps);
    }
  }

  /** The source's top-level function, with the three GitHub calls replaced
      by their oracles. */
  method DiscoverGitHubPagesApps(
    responses: seq<Response>,
    details: map<string, RepoDetail>,
    pagesUrls: map<string, string>,
    buildTime: int)
    returns (result: Discovery)
    ensures Paginate(responses).outcome.Aborted? <==> result.Exited?
    ensures result.Exited? ==> result.status == Paginate(responses).outcome.status
    ensures Paginate(responses).outcome.Stalled? <==> result.Waiting?
    ensures result.Written? ==>
      && Paginate(responses).outcome.Collected?
      && result.catalog.lastUpdated == buildTime
      && result.catalog.totalApps == |result.catalog.apps|
      && result.catalog.apps == CatalogApps(Paginate(responses).outcome.repos, details, pagesUrls)
  {
    var listing, _ := ListAllRepositories(responses);
    match listing
    case Aborted(status) =>
      return Exited(status);
    case Stalled =>
      return Waiting;
    case Collected(allRepos) =>
      var pagesRepos := WithPages(allRepos);
      var apps := CollectApps(pagesRepos, details, pagesUrls);
      var sorted := new AppEntry[|apps|](k requires 0 <= k < |apps| => apps[k]);
      assert sorted[..] == apps;
      SortByUpdatedAt(sorted);
      var catalog := Catalog(lastUpdated := buildTime, totalApps := sorted.Length, apps := sorted[..]);
      return Written(catalog);
  }
}
