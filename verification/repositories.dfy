/**
 * Listing a user's repositories (src/repositories.rs): forward pagination
 * over the `repos` query, dropping forks.
 *
 * The server is replaced by the sequence of already-decoded pages (or
 * errors) it answers to successive requests; the requests themselves are
 * recorded so that the cursors they carry can be stated.
 */
module Repositories {
  import opened Wrappers
  import opened Errors
  import GraphQL

  datatype Owner = Owner(login: string)

  datatype Repository = Repository(name: string, isFork: bool, owner: Owner)

  /** `impl Clone for Repository`: a field-by-field copy, equal to the original. */
  function Clone(repo: Repository): (copy: Repository)
    ensures copy == repo
  {
    Repository(repo.name, repo.isFork, Owner(repo.owner.login))
  }

  /** `impl Display for Repository`: "owner/name". */
  function Display(repo: Repository): (s: string)
    ensures |s| == |repo.owner.login| + 1 + |repo.name|
    ensures s[..|repo.owner.login|] == repo.owner.login && s[|repo.owner.login|] == '/'
    ensures s[|repo.owner.login| + 1..] == repo.name
  {
    repo.owner.login + "/" + repo.name
  }

  /** GitHub logins contain no '/', so the rendering names one repository: owner and name can be read back. */
  lemma DisplayIdentifies(a: Repository, b: Repository)
    requires '/' !in a.owner.login && '/' !in b.owner.login
    requires Display(a) == Display(b)
    ensures a.owner == b.owner && a.name == b.name
  {
  }

  /** `data.user.repositories.pageInfo` of the `repos` query. */
  datatype PageInfo = PageInfo(endCursor: string, hasNextPage: bool)

  /** One decoded page of the `repos` query: `data.user.repositories`. */
  datatype Page = Page(nodes: seq<Repository>, pageInfo: PageInfo)

  /** `.filter(|r| !r.is_fork)`: the repositories that are not forks, in order. */
  function WithoutForks(nodes: seq<Repository>): (kept: seq<Repository>)
    ensures |kept| <= |nodes|
    ensures forall i :: 0 <= i < |kept| ==> !kept[i].isFork
  {
    if nodes == [] then []
    else
      var last := nodes[|nodes| - 1];
      assert nodes == nodes[..|nodes| - 1] + [last];
      WithoutForks(nodes[..|nodes| - 1]) + (if last.isFork then [] else [last])
  }

  /** The filter keeps exactly the repositories that are not forks. */
  lemma {:induction false} WithoutForksMembers(nodes: seq<Repository>, r: Repository)
    ensures r in WithoutForks(nodes) <==> r in nodes && !r.isFork
    decreases |nodes|
  {
    if nodes != [] {
      var init := nodes[..|nodes| - 1];
      WithoutForksMembers(init, r);
      assert nodes == init + [nodes[|nodes| - 1]];
    }
  }

  /** Filtering a concatenation filters each part, keeping their order. */
  lemma {:induction false} WithoutForksAppend(a: seq<Repository>, b: seq<Repository>)
    ensures WithoutForks(a + b) == WithoutForks(a) + WithoutForks(b)
    decreases |b|
  {
    if b != [] {
      var c := b[..|b| - 1];
      assert (a + b)[..|a + b| - 1] == a + c;
      WithoutForksAppend(a, c);
    } else {
      assert a + b == a;
    }
  }

  /** A list without forks passes the filter unchanged. */
  lemma {:induction false} WithoutForksKeepsSources(nodes: seq<Repository>)
    requires forall r <- nodes :: !r.isFork
    ensures WithoutForks(nodes) == nodes
    decreases |nodes|
  {
    if nodes != [] {
      WithoutForksKeepsSources(nodes[..|nodes| - 1]);
      assert nodes == nodes[..|nodes| - 1] + [nodes[|nodes| - 1]];
    }
  }

  /** A response after which the loop stops: an error, or a last page. */
  predicate Stops(response: Result<Page, Error>) {
    response.Err? || !response.value.pageInfo.hasNextPage
  }

  predicate EventuallyStops(responses: seq<Result<Page, Error>>) {
    exists i :: 0 <= i < |responses| && Stops(responses[i])
  }

  function FirstStopFrom(responses: seq<Result<Page, Error>>, from: nat): (n: nat)
    requires exists i :: from <= i < |responses| && Stops(responses[i])
    ensures from <= n < |responses| && Stops(responses[n])
    ensures forall j :: from <= j < n ==> !Stops(responses[j])
    decreases |responses| - from
  {
    if Stops(responses[from]) then from else FirstStopFrom(responses, from + 1)
  }

  /** The index of the response that ends the listing. */
  function FirstStop(responses: seq<Result<Page, Error>>): (n: nat)
    requires EventuallyStops(responses)
    ensures n < |responses| && Stops(responses[n])
    ensures forall j :: 0 <= j < n ==> !Stops(responses[j])
  {
    FirstStopFrom(responses, 0)
  }

  /** The first `n` responses are all pages. */
  predicate PagesUpTo(responses: seq<Result<Page, Error>>, n: nat) {
    n <= |responses| && forall j :: 0 <= j < n ==> responses[j].Ok?
  }

  /** The non-fork repositories of the first `n` pages, page after page. */
  function Listed(responses: seq<Result<Page, Error>>, n: nat): seq<Repository>
    requires PagesUpTo(responses, n)
  {
    if n == 0 then []
    else Listed(responses, n - 1) + WithoutForks(responses[n - 1].value.nodes)
  }

  /** The listing holds exactly the non-fork repositories of the pages it was built from. */
  lemma {:induction false} ListedMembers(responses: seq<Result<Page, Error>>, n: nat, r: Repository)
    requires PagesUpTo(responses, n)
    ensures r in Listed(responses, n) <==> !r.isFork && exists j :: 0 <= j < n && r in responses[j].value.nodes
  {
    if n > 0 {
      ListedMembers(responses, n - 1, r);
      WithoutForksMembers(responses[n - 1].value.nodes, r);
      if !r.isFork && r in responses[n - 1].value.nodes {
        assert r in Listed(responses, n);
      }
    }
  }

  /**
   * `repos_for`. `responses[i]` is the decoded answer to the i-th request.
   * The first request carries the empty cursor and each later one the end
   * cursor of the page before; the loop stops after the first page without a
   * next page, or returns the first error without a partial list.
   */
  method ReposFor(username: string, responses: seq<Result<Page, Error>>)
    returns (r: Result<seq<Repository>, Error>, requests: seq<GraphQL.Query>)
    requires EventuallyStops(responses)
    ensures |requests| == FirstStop(responses) + 1
    ensures requests[0] == GraphQL.Repos(username, "")
    ensures forall j :: 0 <= j < FirstStop(responses) ==>
      requests[j + 1] == GraphQL.Repos(username, responses[j].value.pageInfo.endCursor)
    ensures responses[FirstStop(responses)].Err? ==> r == Err(responses[FirstStop(responses)].error)
    ensures responses[FirstStop(responses)].Ok? ==> r.Ok? && PagesUpTo(responses, FirstStop(responses) + 1)
    ensures r.Ok? ==> r.value == Listed(responses, FirstStop(responses) + 1)
  {
    ghost var n := FirstStop(responses);
    var repos: seq<Repository> := [];
    var hasNextPage := true;
    var cursor := "";
    var i := 0;
    requests := [];
    while hasNextPage
      invariant 0 <= i <= n + 1
      invariant hasNextPage ==> i <= n
      invariant !hasNextPage ==> i == n + 1
      invariant |requests| == i
      invariant PagesUpTo(responses, i)
      invariant i > 0 ==> requests[0] == GraphQL.Repos(username, "")
      invariant forall j :: 0 <= j < i - 1 ==>
        requests[j + 1] == GraphQL.Repos(username, responses[j].value.pageInfo.endCursor)
      invariant cursor == if i == 0 then "" else responses[i - 1].value.pageInfo.endCursor
      invariant repos == Listed(responses, i)
      decreases if hasNextPage then n + 1 - i else 0
    {
      requests := requests + [GraphQL.Repos(username, cursor)];
      var response := responses[i];
      if response.Err? {
        return Err(response.error), requests;
      }
      var page := response.value;
      repos := repos + WithoutForks(page.nodes);
      hasNextPage := page.pageInfo.hasNextPage;
      cursor := page.pageInfo.endCursor;
      i := i + 1;
    }
    r := Ok(repos);
  }

  /** A listing never contains a fork. */
  lemma ListedHasNoForks(responses: seq<Result<Page, Error>>, n: nat)
    requires PagesUpTo(responses, n)
    ensures forall r <- Listed(responses, n) :: !r.isFork
  {
    forall r <- Listed(responses, n) ensures !r.isFork {
      ListedMembers(responses, n, r);
    }
  }
}
