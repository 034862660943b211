/** From listed repositories to app entries (discover-apps.js): keep the
    repositories with a Pages site, then turn each into an app entry using
    its details and its Pages configuration.

    The two per-repository API calls are oracles keyed by repository name:
    `details[name]` is what "get repository" answers and `pagesUrls[name]`
    the `html_url` that "get Pages" answers; a name missing from a map
    means that call threw. */
module Enrichment {
  import opened Model

  /** Description used when the repository has none. */
  const NoDescription: string := "No description available"

  /** Language used when the repository has none. */
  const UnknownLanguage: string := "Unknown"

  const ScreenshotDir: string := "screenshots/"
  const ScreenshotExt: string := ".png"

  /** Only the repositories whose `has_pages` flag is set, in order. */
  function WithPages(repos: seq<RepoSummary>): (kept: seq<RepoSummary>)
    ensures forall r :: r in kept <==> r in repos && r.hasPages
    ensures |kept| <= |repos|
  {
    if repos == [] then []
    else
      var last := repos[|repos| - 1];
      WithPages(repos[..|repos| - 1]) + (if last.hasPages then [last] else [])
  }

  /** Filtering the concatenation of two lists of repositories is filtering
      each and concatenating: filtering after pagination is filtering page
      by page. */
  lemma {:induction false} WithPagesConcat(a: seq<RepoSummary>, b: seq<RepoSummary>)
    ensures WithPages(a + b) == WithPages(a) + WithPages(b)
    decreases |b|
  {
    if b == [] {
      assert a + b == a;
    } else {
      var b' := b[..|b| - 1];
      assert (a + b)[..|a + b| - 1] == a + b';
      WithPagesConcat(a, b');
    }
  }

  /** The Pages URL built by convention when the Pages lookup fails: the bare
      host for the account's root site, the host followed by "/" and the
      repository name for any other repository. It is total: it never fails. */
  function FallbackUrl(name: string): (url: string)
    ensures |PagesHost| <= |url| && url[..|PagesHost|] == PagesHost
    ensures url == PagesHost <==> name == RootSiteName
    ensures name != RootSiteName ==> url[|PagesHost|] == '/' && url[|PagesHost| + 1..] == name
  {
    if name == RootSiteName then PagesHost else PagesHost + "/" + name
  }

  /** The fallback URL is an HTTPS URL on the account's github.io host. */
  lemma FallbackUrlIsHttps(name: string)
    ensures "https://" <= FallbackUrl(name)
  {
    var url := FallbackUrl(name);
    assert "https://" == PagesHost[..8];
    assert url[..8] == url[..|PagesHost|][..8];
  }

  /** Distinct repositories never share a fallback URL. */
  lemma FallbackUrlInjective(n1: string, n2: string)
    requires FallbackUrl(n1) == FallbackUrl(n2)
    ensures n1 == n2
  {
  }

  /** The Pages URL of a repository: the lookup's `html_url` verbatim when
      the lookup succeeds, the conventional URL otherwise. */
  function ResolveUrl(name: string, pagesUrls: map<string, string>): (url: string)
    ensures name in pagesUrls ==> url == pagesUrls[name]
    ensures name !in pagesUrls ==> url == FallbackUrl(name)
    ensures name !in pagesUrls ==> |PagesHost| <= |url| && url[..|PagesHost|] == PagesHost
  {
    if name in pagesUrls then pagesUrls[name] else FallbackUrl(name)
  }

  predicate IsAsciiLower(c: char) {
    'a' <= c <= 'z'
  }

  /** ASCII upper-casing of one character; every other character is left
      alone. */
  function ToUpper(c: char): (u: char)
    ensures !IsAsciiLower(u)
    ensures !IsAsciiLower(c) ==> u == c
    ensures IsAsciiLower(c) ==> u as int + 32 == c as int
  {
    if IsAsciiLower(c) then (c as int - 32) as char else c
  }

  /** A topic with its first character upper-cased and the rest unchanged;
      the empty topic stays empty. */
  function Capitalize(topic: string): (t: string)
    ensures |t| == |topic|
    ensures 0 < |topic| ==> t[0] == ToUpper(topic[0]) && t[1..] == topic[1..]
  {
    if topic == [] then [] else [ToUpper(topic[0])] + topic[1..]
  }

  /** The topics of a repository; a missing `topics` field contributes none. */
  function TopicsOf(detail: RepoDetail): (topics: seq<string>)
    ensures detail.topics.None? ==> topics == []
    ensures detail.topics.Some? ==> topics == detail.topics.value
  {
    if detail.topics.Some? then detail.topics.value else []
  }

  /** The tags of an app: each topic capitalised, in order, then the language
      when there is one. Duplicates are kept. */
  function BuildTags(detail: RepoDetail): (tags: seq<string>)
    ensures var topics := TopicsOf(detail);
      && |tags| == |topics| + (if Present(detail.language) then 1 else 0)
      && (forall k :: 0 <= k < |topics| ==> tags[k] == Capitalize(topics[k]))
      && (Present(detail.language) ==> tags[|tags| - 1] == detail.language.value)
  {
    var topics := TopicsOf(detail);
    var capitalized := seq(|topics|, k requires 0 <= k < |topics| => Capitalize(topics[k]));
    capitalized + (if Present(detail.language) then [detail.language.value] else [])
  }

  /** Topics `foo` and `bar` with language TypeScript give `Foo`, `Bar`,
      `TypeScript`. */
  lemma BuildTagsExample()
    ensures BuildTags(RepoDetail(None, Some("TypeScript"), Some(["foo", "bar"]), 0, 0, 0))
         == ["Foo", "Bar", "TypeScript"]
  {
    var tags := BuildTags(RepoDetail(None, Some("TypeScript"), Some(["foo", "bar"]), 0, 0, 0));
    assert tags[0] == Capitalize("foo") == "Foo";
    assert tags[1] == Capitalize("bar") == "Bar";
  }

  /** The app entry for one repository, given its details and Pages URL. */
  function MakeEntry(repo: RepoSummary, detail: RepoDetail, url: string): (app: AppEntry)
    ensures app.name == repo.name
    ensures app.description != ""
    ensures Present(detail.description) ==> app.description == detail.description.value
    ensures !Present(detail.description) ==> app.description == NoDescription
    ensures app.language != ""
    ensures Present(detail.language) ==> app.language == detail.language.value
    ensures !Present(detail.language) ==> app.language == UnknownLanguage
    ensures app.url == url && app.repository == repo.htmlUrl
    ensures var s := app.screenshot;
      && |s| == |ScreenshotDir| + |repo.name| + |ScreenshotExt|
      && s[..|ScreenshotDir|] == ScreenshotDir
      && s[|ScreenshotDir|..|s| - |ScreenshotExt|] == repo.name
      && s[|s| - |ScreenshotExt|..] == ScreenshotExt
    ensures app.tags == BuildTags(detail)
    ensures app.stars == detail.stars && app.forks == detail.forks && app.updatedAt == detail.updatedAt
  {
    AppEntry(
      name := if repo.name == RootSiteName then RootSiteName else repo.name,
      description := if Present(detail.description) then detail.description.value else NoDescription,
      url := url,
      repository := repo.htmlUrl,
      screenshot := ScreenshotDir + repo.name + ScreenshotExt,
      tags := BuildTags(detail),
      language := if Present(detail.language) then detail.language.value else UnknownLanguage,
      stars := detail.stars,
      forks := detail.forks,
      updatedAt := detail.updatedAt)
  }

  /** The entries the enrichment loop produces for `repos`, in order: one
      per repository whose detail fetch succeeds; the others are skipped. */
  function EnrichedApps(repos: seq<RepoSummary>, details: map<string, RepoDetail>, pagesUrls: map<string, string>): (apps: seq<AppEntry>)
    ensures |apps| <= |repos|
  {
    if repos == [] then []
    else
      var init := repos[..|repos| - 1];
      var repo := repos[|repos| - 1];
      EnrichedApps(init, details, pagesUrls)
      + (if repo.name in details then [MakeEntry(repo, details[repo.name], ResolveUrl(repo.name, pagesUrls))] else [])
  }

  /** The repositories whose detail fetch succeeds, in order. */
  function Fetched(repos: seq<RepoSummary>, details: map<string, RepoDetail>): (fetched: seq<RepoSummary>)
    ensures forall r :: r in fetched <==> r in repos && r.name in details
    ensures |fetched| <= |repos|
  {
    if repos == [] then []
    else
      var last := repos[|repos| - 1];
      Fetched(repos[..|repos| - 1], details) + (if last.name in details then [last] else [])
  }

  /** Enrichment is the mapping of the fetched repositories to entries: entry
      k comes from the k-th repository whose details were fetched. */
  lemma {:induction false} EnrichedAppsAreFetchedMapped(repos: seq<RepoSummary>, details: map<string, RepoDetail>, pagesUrls: map<string, string>)
    ensures var apps := EnrichedApps(repos, details, pagesUrls);
      var fetched := Fetched(repos, details);
      && |apps| == |fetched|
      && forall k :: 0 <= k < |apps| ==>
           apps[k] == MakeEntry(fetched[k], details[fetched[k].name], ResolveUrl(fetched[k].name, pagesUrls))
  {
    if repos != [] {
      var init := repos[..|repos| - 1];
      EnrichedAppsAreFetchedMapped(init, details, pagesUrls);
      var apps, fetched := EnrichedApps(repos, details, pagesUrls), Fetched(repos, details);
      var apps', fetched' := EnrichedApps(init, details, pagesUrls), Fetched(init, details);
      forall k | 0 <= k < |apps'|
        ensures apps[k] == apps'[k] && fetched[k] == fetched'[k]
      {
      }
    }
  }

  /** A failed detail fetch drops only that repository: enriching a list is
      enriching its parts and concatenating. */
  lemma {:induction false} EnrichedAppsConcat(a: seq<RepoSummary>, b: seq<RepoSummary>, details: map<string, RepoDetail>, pagesUrls: map<string, string>)
    ensures EnrichedApps(a + b, details, pagesUrls) == EnrichedApps(a, details, pagesUrls) + EnrichedApps(b, details, pagesUrls)
    decreases |b|
  {
    if b == [] {
      assert a + b == a;
    } else {
      var b' := b[..|b| - 1];
      var x := b[|b| - 1];
      assert (a + b)[..|a + b| - 1] == a + b';
      assert (a + b)[|a + b| - 1] == x;
      EnrichedAppsConcat(a, b', details, pagesUrls);
      var tail := EnrichedApps(b, details, pagesUrls)[|EnrichedApps(b', details, pagesUrls)|..];
      assert EnrichedApps(b, details, pagesUrls) == EnrichedApps(b', details, pagesUrls) + tail;
      assert EnrichedApps(a + b, details, pagesUrls) == EnrichedApps(a + b', details, pagesUrls) + tail;
    }
  }

  /** Every entry comes from a repository that has a Pages site and whose
      details were fetched; there are at most as many entries as Pages
      repositories. */
  lemma EntriesComeFromPagesRepos(all: seq<RepoSummary>, details: map<string, RepoDetail>, pagesUrls: map<string, string>)
    ensures |EnrichedApps(WithPages(all), details, pagesUrls)| <= |WithPages(all)|
    ensures forall app :: app in EnrichedApps(WithPages(all), details, pagesUrls) ==>
      exists r :: (r in all && r.hasPages && r.name in details
        && app == MakeEntry(r, details[r.name], ResolveUrl(r.name, pagesUrls)))
  {
    var repos := WithPages(all);
    var apps := EnrichedApps(repos, details, pagesUrls);
    var fetched := Fetched(repos, details);
    EnrichedAppsAreFetchedMapped(repos, details, pagesUrls);
    forall app | app in apps
      ensures exists r :: (r in all && r.hasPages && r.name in details
        && app == MakeEntry(r, details[r.name], ResolveUrl(r.name, pagesUrls)))
    {
      var k :| 0 <= k < |apps| && apps[k] == app;
      assert fetched[k] in fetched;
    }
  }

  /** Enriching one more repository appends its entry when its details
      were fetched, and nothing otherwise. */
  lemma EnrichedAppsStep(repos: seq<RepoSummary>, i: nat, details: map<string, RepoDetail>, pagesUrls: map<string, string>)
    requires i < |repos|
    ensures EnrichedApps(repos[..i + 1], details, pagesUrls)
      == EnrichedApps(repos[..i], details, pagesUrls)
         + (if repos[i].name in details
            then [MakeEntry(repos[i], details[repos[i].name], ResolveUrl(repos[i].name, pagesUrls))]
            else [])
  {
    assert repos[..i + 1][..i] == repos[..i];
  }

  /** The source's enrichment loop: `apps` grows by one entry per repository
      whose details could be fetched. */
  method CollectApps(pagesRepos: seq<RepoSummary>, details: map<string, RepoDetail>, pagesUrls: map<string, string>)
    returns (apps: seq<AppEntry>)
    ensures apps == EnrichedApps(pagesRepos, details, pagesUrls)
  {
    apps := [];
    for i := 0 to |pagesRepos|
      invariant apps == EnrichedApps(pagesRepos[..i], details, pagesUrls)
    {
      EnrichedAppsStep(pagesRepos, i, details, pagesUrls);
      var repo := pagesRepos[i];
      if repo.name in details {
        var detail := details[repo.name];
        var pagesUrl := ResolveUrl(repo.name, pagesUrls);
        var app := MakeEntry(repo, detail, pagesUrl);
        apps := apps + [app];
      }
      // otherwise the detail fetch threw: the repository is skipped
    }
    assert pagesRepos[..|pagesRepos|] == pagesRepos;
  }
}
