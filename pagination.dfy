/** Listing every repository of the account, one page of 100 at a time
    (discover-apps.js, the `while (hasMore)` loop).

    The GitHub API is replaced by an oracle: `responses[k]` is what the k-th
    "list repositories" call answers, whichever page it asked for. The
    oracle is finite; when it has nothing more to say while the loop still
    wants another page the run is `Stalled` (under a persistent 403 the
    source itself never returns). */
module Pagination {
  import opened Model

  /** Page size requested from the API. */
  const PerPage: nat := 100

  /** Ceiling on the number of pages fetched successfully. */
  const MaxPages: nat := 50

  /** HTTP status the source treats as a rate limit: wait and retry. */
  const RateLimited: int := 403

  /** What one "list repositories" call answers. */
  datatype Response = Listed(repos: seq<RepoSummary>) | Failed(status: int)

  /** How the loop ends: with every repository collected, with the error
      that is rethrown, or still running when the oracle is exhausted. */
  datatype Outcome = Collected(repos: seq<RepoSummary>) | Aborted(status: int) | Stalled

  /** An outcome together with the number of calls made to reach it. */
  datatype Run = Run(outcome: Outcome, calls: nat)

  /** The pages answered successfully, in the order of the calls. */
  function SuccessfulPages(rs: seq<Response>): (pages: seq<seq<RepoSummary>>)
    ensures |pages| <= |rs|
  {
    if rs == [] then []
    else
      var last := rs[|rs| - 1];
      SuccessfulPages(rs[..|rs| - 1]) + (if last.Listed? then [last.repos] else [])
  }

  /** Concatenation of pages, in order. */
  function Flatten(pages: seq<seq<RepoSummary>>): seq<RepoSummary> {
    if pages == [] then [] else Flatten(pages[..|pages| - 1]) + pages[|pages| - 1]
  }

  /** Every failed call among `rs` was rate limited. */
  predicate OnlyRateLimited(rs: seq<Response>) {
    forall k :: 0 <= k < |rs| ==> rs[k].Failed? ==> rs[k].status == RateLimited
  }

  /** Every page is full. */
  predicate AllFull(pages: seq<seq<RepoSummary>>) {
    forall k :: 0 <= k < |pages| ==> |pages[k]| == PerPage
  }

  /** After answering the calls `rs`, the loop still asks for another page:
      no error other than a rate limit, no short page, ceiling not reached. */
  predicate Continuing(rs: seq<Response>) {
    var pages := SuccessfulPages(rs);
    OnlyRateLimited(rs) && AllFull(pages) && |pages| < MaxPages
  }

  /** The page number the call with index `k` asks for: one more than the
      number of pages fetched successfully before it. */
  function PageRequested(rs: seq<Response>, k: nat): (page: nat)
    requires k <= |rs|
    ensures 1 <= page <= k + 1
  {
    1 + |SuccessfulPages(rs[..k])|
  }

  /** The loop resumed at call `call`, asking for `page`, having collected
      `acc`. */
  function Resume(responses: seq<Response>, call: nat, page: nat, acc: seq<RepoSummary>): (run: Run)
    requires call <= |responses|
    ensures call <= run.calls <= |responses|
    decreases |responses| - call
  {
    if call == |responses| then Run(Stalled, call)
    else
      match responses[call]
      case Failed(status) =>
        if status == RateLimited then Resume(responses, call + 1, page, acc)
        else Run(Aborted(status), call + 1)
      case Listed(repos) =>
        if |repos| == PerPage && page + 1 <= MaxPages then
          Resume(responses, call + 1, page + 1, acc + repos)
        else
          Run(Collected(acc + repos), call + 1)
  }

  /** The whole pagination run, starting at page 1 with nothing collected. */
  function Paginate(responses: seq<Response>): (run: Run)
    ensures run.calls <= |responses|
  {
    Resume(responses, 0, 1, [])
  }

  lemma FlattenSnoc(pages: seq<seq<RepoSummary>>, page: seq<RepoSummary>)
    ensures Flatten(pages + [page]) == Flatten(pages) + page
  {
    assert (pages + [page])[..|pages|] == pages;
  }

  /** One more call extends the successful pages by its page, if any, and
      the collected repositories by that page's repositories. */
  lemma PrefixStep(rs: seq<Response>, k: nat)
    requires k < |rs|
    ensures rs[..k + 1][..k] == rs[..k]
    ensures rs[k].Listed? ==> SuccessfulPages(rs[..k + 1]) == SuccessfulPages(rs[..k]) + [rs[k].repos]
    ensures rs[k].Listed? ==> Flatten(SuccessfulPages(rs[..k + 1])) == Flatten(SuccessfulPages(rs[..k])) + rs[k].repos
    ensures rs[k].Failed? ==> SuccessfulPages(rs[..k + 1]) == SuccessfulPages(rs[..k])
  {
    assert rs[..k + 1][..k] == rs[..k];
    if rs[k].Listed? {
      FlattenSnoc(SuccessfulPages(rs[..k]), rs[k].repos);
    }
  }

  /** Pages are requested in ascending order: a rate-limited call is retried
      on the same page, a successful one moves on to the next. */
  lemma RetryRequestsSamePage(rs: seq<Response>, k: nat)
    requires k < |rs|
    ensures rs[k].Failed? ==> PageRequested(rs, k + 1) == PageRequested(rs, k)
    ensures rs[k].Listed? ==> PageRequested(rs, k + 1) == PageRequested(rs, k) + 1
  {
    PrefixStep(rs, k);
  }

  /** Page numbers never go down from one call to a later one. */
  lemma {:induction false} PagesRequestedAscending(rs: seq<Response>, i: nat, j: nat)
    requires i <= j <= |rs|
    ensures PageRequested(rs, i) <= PageRequested(rs, j)
    decreases j - i
  {
    if i < j {
      PagesRequestedAscending(rs, i, j - 1);
      RetryRequestsSamePage(rs, j - 1);
    }
  }

  /** A rate-limited call, or a full page below the ceiling, keeps the loop
      going. */
  lemma ContinuingStep(rs: seq<Response>, k: nat)
    requires k < |rs| && Continuing(rs[..k])
    ensures rs[k].Failed? && rs[k].status == RateLimited ==> Continuing(rs[..k + 1])
    ensures rs[k].Listed? && |rs[k].repos| == PerPage && |SuccessfulPages(rs[..k])| + 1 < MaxPages
      ==> Continuing(rs[..k + 1])
  {
    PrefixStep(rs, k);
    var next := rs[..k + 1];
    assert forall j :: 0 <= j < k ==> next[j] == rs[..k][j];
  }

  /** An error other than a rate limit, while the loop was continuing, ends
      a characterised run. */
  lemma AbortedCharacterized(responses: seq<Response>, call: nat)
    requires call < |responses| && Continuing(responses[..call])
    requires responses[call].Failed? && responses[call].status != RateLimited
    ensures RunCharacterized(responses, Run(Aborted(responses[call].status), call + 1))
  {
  }

  /** A short page, or the page at the ceiling, while the loop was
      continuing, ends a characterised run with everything collected. */
  lemma CollectedCharacterized(responses: seq<Response>, call: nat, page: nat, acc: seq<RepoSummary>)
    requires call < |responses| && Continuing(responses[..call]) && responses[call].Listed?
    requires page == PageRequested(responses, call)
    requires acc == Flatten(SuccessfulPages(responses[..call]))
    requires !(|responses[call].repos| == PerPage && page + 1 <= MaxPages)
    ensures RunCharacterized(responses, Run(Collected(acc + responses[call].repos), call + 1))
  {
    PrefixStep(responses, call);
  }

  lemma {:induction false} ResumeCharacterization(responses: seq<Response>, call: nat, page: nat, acc: seq<RepoSummary>)
    requires call <= |responses|
    requires Continuing(responses[..call])
    requires page == PageRequested(responses, call)
    requires acc == Flatten(SuccessfulPages(responses[..call]))
    ensures RunCharacterized(responses, Resume(responses, call, page, acc))
    decreases |responses| - call, 1
  {
    if call == |responses| {
      assert responses[..call] == responses;
    } else if responses[call].Failed? {
      FailedCharacterization(responses, call, page, acc);
    } else {
      ListedCharacterization(responses, call, page, acc);
    }
  }

  /** The step of `ResumeCharacterization` on a failed call. */
  lemma {:induction false} FailedCharacterization(responses: seq<Response>, call: nat, page: nat, acc: seq<RepoSummary>)
    requires call < |responses| && responses[call].Failed?
    requires Continuing(responses[..call])
    requires page == PageRequested(responses, call)
    requires acc == Flatten(SuccessfulPages(responses[..call]))
    ensures RunCharacterized(responses, Resume(responses, call, page, acc))
    decreases |responses| - call, 0
  {
    ResumeFailed(responses, call, page, acc);
    if responses[call].status == RateLimited {
      ContinuingStep(responses, call);
      RetryRequestsSamePage(responses, call);
      PrefixStep(responses, call);
      ResumeCharacterization(responses, call + 1, page, acc);
    } else {
      AbortedCharacterized(responses, call);
    }
  }

  /** The step of `ResumeCharacterization` on a page of repositories. */
  lemma {:induction false} ListedCharacterization(responses: seq<Response>, call: nat, page: nat, acc: seq<RepoSummary>)
    requires call < |responses| && responses[call].Listed?
    requires Continuing(responses[..call])
    requires page == PageRequested(responses, call)
    requires acc == Flatten(SuccessfulPages(responses[..call]))
    ensures RunCharacterized(responses, Resume(responses, call, page, acc))
    decreases |responses| - call, 0
  {
    var repos := responses[call].repos;
    ResumeListed(responses, call, page, acc);
    if |repos| == PerPage && page + 1 <= MaxPages {
      ContinuingStep(responses, call);
      RetryRequestsSamePage(responses, call);
      PrefixStep(responses, call);
      ResumeCharacterization(responses, call + 1, page + 1, acc + repos);
    } else {
      CollectedCharacterized(responses, call, page, acc);
    }
  }

  /** What a run with outcome and call count `run` means for `responses`. */
  predicate RunCharacterized(responses: seq<Response>, run: Run) {
    var n := run.calls;
    && n <= |responses|
    && match run.outcome
       case Collected(repos) =>
         && 0 < n
         && Continuing(responses[..n - 1])
         && responses[n - 1].Listed?
         && (|responses[n - 1].repos| != PerPage || |SuccessfulPages(responses[..n])| == MaxPages)
         && repos == Flatten(SuccessfulPages(responses[..n]))
       case Aborted(status) =>
         && 0 < n
         && Continuing(responses[..n - 1])
         && responses[n - 1] == Failed(status)
         && status != RateLimited
       case Stalled =>
         && n == |responses|
         && Continuing(responses)
  }

  /** The pagination loop stops exactly at the first call that answers a
      short page, the 50th page, or an error other than a rate limit; the
      repositories collected are the successful pages concatenated in call
      order; if the oracle runs out first, every call so far kept it going. */
  lemma PaginateCharacterization(responses: seq<Response>)
    ensures RunCharacterized(responses, Paginate(responses))
  {
    assert responses[..0] == [];
    ResumeCharacterization(responses, 0, 1, []);
  }

  /** The successful pages of a shorter run of calls are a prefix of those
      of a longer one. */
  lemma {:induction false} SuccessfulPagesPrefix(rs: seq<Response>, i: nat, j: nat)
    requires i <= j <= |rs|
    ensures |SuccessfulPages(rs[..i])| <= |SuccessfulPages(rs[..j])|
    ensures SuccessfulPages(rs[..j])[..|SuccessfulPages(rs[..i])|] == SuccessfulPages(rs[..i])
    decreases j - i
  {
    if i < j {
      SuccessfulPagesPrefix(rs, i, j - 1);
      PrefixStep(rs, j - 1);
      var short := SuccessfulPages(rs[..i]);
      var mid := SuccessfulPages(rs[..j - 1]);
      assert mid[..|short|] == short;
      if rs[j - 1].Listed? {
        assert (mid + [rs[j - 1].repos])[..|short|] == mid[..|short|];
      }
    }
  }

  /** A loop still running after some calls was running after fewer. */
  lemma ContinuingPrefix(rs: seq<Response>, i: nat, j: nat)
    requires i <= j <= |rs|
    requires Continuing(rs[..j])
    ensures Continuing(rs[..i])
  {
    SuccessfulPagesPrefix(rs, i, j);
    var pages := SuccessfulPages(rs[..i]);
    var longer := SuccessfulPages(rs[..j]);
    forall k | 0 <= k < |pages|
      ensures |pages[k]| == PerPage
    {
      assert pages[k] == longer[k];
    }
    forall k | 0 <= k < i
      ensures rs[..i][k] == rs[..j][k]
    {
    }
  }

  /** A run that is not stalled ends on a call after which the loop no
      longer continues. */
  lemma StopsAt(responses: seq<Response>, run: Run)
    requires RunCharacterized(responses, run)
    requires !run.outcome.Stalled?
    ensures !Continuing(responses[..run.calls])
  {
  }

  /** Before a run ends, and at its end if it stalled, the loop continues. */
  lemma ContinuingBefore(responses: seq<Response>, run: Run, m: nat)
    requires RunCharacterized(responses, run)
    requires m < run.calls || (run.outcome.Stalled? && m <= run.calls)
    ensures Continuing(responses[..m])
  {
    if run.outcome.Stalled? {
      assert responses[..|responses|] == responses;
      ContinuingPrefix(responses, m, |responses|);
    } else {
      ContinuingPrefix(responses, m, run.calls - 1);
    }
  }

  /** The characterisation admits one run only, so it is an independent
      definition of what the loop computes. */
  lemma RunCharacterizedUnique(responses: seq<Response>, r1: Run, r2: Run)
    requires RunCharacterized(responses, r1)
    requires RunCharacterized(responses, r2)
    ensures r1 == r2
  {
    if !r1.outcome.Stalled? {
      StopsAt(responses, r1);
    }
    if !r2.outcome.Stalled? {
      StopsAt(responses, r2);
    }
    if r1.calls < r2.calls || (r1.calls == r2.calls && r2.outcome.Stalled?) {
      ContinuingBefore(responses, r2, r1.calls);
    }
    if r2.calls < r1.calls || (r1.calls == r2.calls && r1.outcome.Stalled?) {
      ContinuingBefore(responses, r1, r2.calls);
    }
  }

  /** At most 50 pages are ever fetched successfully, whatever the outcome;
      reaching the ceiling ends the loop with the repositories collected. */
  lemma PaginateCeiling(responses: seq<Response>)
    ensures var run := Paginate(responses);
      |SuccessfulPages(responses[..run.calls])| <= MaxPages
    ensures var run := Paginate(responses);
      |SuccessfulPages(responses[..run.calls])| == MaxPages ==> run.outcome.Collected?
  {
    var run := Paginate(responses);
    var n := run.calls;
    PaginateCharacterization(responses);
    if 0 < n {
      PrefixStep(responses, n - 1);
    }
  }

  /** A rate limit on page 3 is followed by one more request for page 3,
      not page 4, and the run still collects every page in order. */
  lemma RateLimitOnPageThree(full1: seq<RepoSummary>, full2: seq<RepoSummary>, last: seq<RepoSummary>)
    requires |full1| == PerPage && |full2| == PerPage && |last| < PerPage
    ensures var rs := [Listed(full1), Listed(full2), Failed(RateLimited), Listed(last)];
      && Paginate(rs) == Run(Collected(full1 + full2 + last), 4)
      && PageRequested(rs, 0) == 1 && PageRequested(rs, 1) == 2
      && PageRequested(rs, 2) == 3 && PageRequested(rs, 3) == 3
  {
    var rs := [Listed(full1), Listed(full2), Failed(RateLimited), Listed(last)];
    RetryRequestsSamePage(rs, 0);
    RetryRequestsSamePage(rs, 1);
    RetryRequestsSamePage(rs, 2);
    assert rs[..0] == [];
    assert Resume(rs, 3, 3, full1 + full2) == Run(Collected(full1 + full2 + last), 4);
    assert Resume(rs, 2, 3, full1 + full2) == Resume(rs, 3, 3, full1 + full2);
    assert Resume(rs, 1, 2, full1) == Resume(rs, 2, 3, full1 + full2);
    assert Resume(rs, 0, 1, []) == Resume(rs, 1, 2, [] + full1);
    assert [] + full1 == full1;
  }

  /** An account without repositories answers one empty page: nothing is
      collected, and that is not an error. */
  lemma EmptyAccount()
    ensures var none: seq<RepoSummary> := []; Paginate([Listed(none)]) == Run(Collected(none), 1)
  {
    var none: seq<RepoSummary> := [];
    var rs := [Listed(none)];
    assert none + none == none;
    assert Resume(rs, 0, 1, none) == Run(Collected(none + none), 1);
  }

  /** After a successful call the run goes on with the next page and the
      page's repositories appended, unless the page is short or the next
      page would pass the ceiling. */
  lemma ResumeListed(responses: seq<Response>, call: nat, page: nat, acc: seq<RepoSummary>)
    requires call < |responses| && responses[call].Listed?
    ensures var repos := responses[call].repos;
      Resume(responses, call, page, acc)
      == if |repos| == PerPage && page + 1 <= MaxPages then Resume(responses, call + 1, page + 1, acc + repos)
         else Run(Collected(acc + repos), call + 1)
  {
  }

  /** After a failed call the run goes on with the same page on a 403 and
      ends with the status otherwise. */
  lemma ResumeFailed(responses: seq<Response>, call: nat, page: nat, acc: seq<RepoSummary>)
    requires call < |responses| && responses[call].Failed?
    ensures var status := responses[call].status;
      Resume(responses, call, page, acc)
      == if status == RateLimited then Resume(responses, call + 1, page, acc)
         else Run(Aborted(status), call + 1)
  {
  }

  /** Call k asked for page `PageRequested(responses, k)`, for every call
      recorded in `requested`. */
  predicate RequestedInOrder(responses: seq<Response>, requested: seq<nat>) {
    && |requested| <= |responses|
    && forall k :: 0 <= k < |requested| ==> requested[k] == PageRequested(responses, k)
  }

  /** The source's loop. `requested` records the page number each call
      asked for. */
  method ListAllRepositories(responses: seq<Response>) returns (outcome: Outcome, requested: seq<nat>)
    ensures Run(outcome, |requested|) == Paginate(responses)
    ensures RequestedInOrder(responses, requested)
  {
    var allRepos: seq<RepoSummary> := [];
    var page: nat := 1;
    var hasMore := true;
    var call: nat := 0;
    requested := [];
    assert responses[..0] == [];
    while hasMore
      invariant call == |requested| && RequestedInOrder(responses, requested)
      invariant page == PageRequested(responses, call)
      invariant hasMore ==> Resume(responses, call, page, allRepos) == Paginate(responses)
      invariant !hasMore ==> Run(Collected(allRepos), call) == Paginate(responses)
      decreases |responses| - call, hasMore
    {
      if call == |responses| {
        return Stalled, requested;
      }
      requested := requested + [page];
      var response := responses[call];
      match response
      case Listed(repos) =>
        RetryRequestsSamePage(responses, call);
        ResumeListed(responses, call, page, allRepos);
        call := call + 1;
        allRepos := allRepos + repos;
        hasMore := |repos| == PerPage;
        page := page + 1;
        if page > MaxPages {
          break;
        }
      case Failed(status) =>
        RetryRequestsSamePage(responses, call);
        ResumeFailed(responses, call, page, allRepos);
        call := call + 1;
        if status == RateLimited {
          // the source waits 60 seconds here, then asks for the same page
          continue;
        }
        return Aborted(status), requested;
    }
    outcome := Collected(allRepos);
  }
}
