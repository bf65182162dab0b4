/**
 * Finding a repository's first commit (src/commits.rs).
 *
 * GitHub lists a branch's history newest first. The first query returns the
 * history's size, its end cursor and up to the last commits; when the
 * history has more than one commit, a second query seeks to position
 * `totalCount - 2` behind the cursor's hash, so that its page ends with the
 * oldest commit.
 *
 * The GraphQL client is a function from a query to the body of the reply
 * (or an error), and JSON decoding is a function from a body to a decoded
 * response (`None` when the body does not decode).
 */
module Commits {
  import opened Wrappers
  import opened Errors
  import opened Numerals
  import opened Text
  import opened Models
  import Repositories
  import GraphQL

  /** `pageInfo` of a commit history. */
  datatype PageInfo = PageInfo(endCursor: string)

  datatype Commit = Commit(message: string, committedDate: Timestamp)

  /** GraphQL's `Int`, decoded into an `i32`. */
  type I32 = x: int | -0x8000_0000 <= x < 0x8000_0000

  datatype History = History(nodes: seq<Commit>, totalCount: I32, pageInfo: PageInfo)

  datatype Target = Target(history: History)

  datatype Branch = Branch(target: Target)

  /** The decoded reply to both commit queries: `data.repository.defaultBranchRef`. */
  datatype Response = Response(defaultBranchRef: Option<Branch>)

  /**
   * `PageInfo::cursor`: the hash at the front of an end cursor, that is the
   * text before its first space, or all of it when it has no space ("" for an
   * empty cursor). It never fails: `split` always yields a first piece.
   */
  function Cursor(info: PageInfo): (r: Result<string, Error>)
    ensures r.Ok?
    ensures r.value <= info.endCursor && ' ' !in r.value
    ensures |r.value| < |info.endCursor| ==> info.endCursor[|r.value|] == ' '
  {
    var pieces := Split(info.endCursor, ' ');
    if |pieces| > 0 then Ok(pieces[0]) else Err(CursorNotFound(info.endCursor))
  }

  /** The clamped position of `Branch::last_commit_cursor`: two before the end, never negative. */
  function SeekOffset(totalCount: int): (pos: nat)
    ensures totalCount >= 2 ==> pos == totalCount - 2
    ensures totalCount < 2 ==> pos == 0
  {
    var pos := totalCount - 2;
    if pos < 0 then 0 else pos
  }

  /**
   * `Branch::last_commit_cursor`: "<hash> <offset>". It never fails, and
   * splitting it at its space gives back exactly the hash and the decimal
   * offset.
   */
  function LastCommitCursor(branch: Branch): (r: Result<string, Error>)
    ensures r.Ok?
    ensures Split(r.value, ' ') ==
      [Cursor(branch.target.history.pageInfo).value, Decimal(SeekOffset(branch.target.history.totalCount))]
  {
    var pos := SeekOffset(branch.target.history.totalCount);
    match Cursor(branch.target.history.pageInfo)
    case Ok(hash) =>
      var digits := Decimal(pos);
      assert ' ' !in digits by {
        assert forall i :: 0 <= i < |digits| ==> IsDigit(digits[i]);
      }
      SplitJoin([hash, digits], ' ');
      assert Join([hash, digits], " ") == hash + " " + digits;
      Ok(hash + " " + digits)
    case Err(e) => Err(e)
  }

  /** Reading the seek cursor back: its own cursor is the original hash, and its second piece parses to the offset. */
  lemma SeekCursorRoundTrip(branch: Branch)
    ensures Cursor(PageInfo(LastCommitCursor(branch).value)) == Cursor(branch.target.history.pageInfo)
    ensures ParseU64(Split(LastCommitCursor(branch).value, ' ')[1]) == Some(SeekOffset(branch.target.history.totalCount))
  {
    ParseDecimal(SeekOffset(branch.target.history.totalCount));
  }

  /** `Branch::last_commit`: a copy of the last (oldest) node, `None` when there is none. */
  function BranchLastCommit(branch: Branch): (r: Option<Commit>)
    ensures r.None? <==> branch.target.history.nodes == []
    ensures r.Some? ==> r.value == branch.target.history.nodes[|branch.target.history.nodes| - 1]
  {
    var nodes := branch.target.history.nodes;
    if |nodes| == 0 then None
    else Some(Commit(nodes[|nodes| - 1].message, nodes[|nodes| - 1].committedDate))
  }

  /** `Commit::as_first_commit`: the commit's message and date with the repository's name and owner login. */
  function AsFirstCommit(commit: Commit, repo: Repositories.Repository): (f: FirstCommit)
    ensures f.message == commit.message && f.date == commit.committedDate
    ensures f.name == repo.name && f.owner == repo.owner.login
  {
    FirstCommit(commit.message, commit.committedDate, repo.name, repo.owner.login)
  }

  /** `default_branch_ref.and_then(|branch| branch.last_commit())`. */
  function LastCommitOf(response: Response): Option<Commit> {
    match response.defaultBranchRef
    case None => None
    case Some(branch) => BranchLastCommit(branch)
  }

  /**
   * `last_commit_from_cursor`: one `last_commit` query with the given cursor;
   * the oldest node of its reply, `None` when the reply has no default
   * branch or no node; client and decoding errors are passed on.
   */
  method LastCommitFromCursor(
    client: GraphQL.Query -> Result<string, Error>,
    decode: string -> Option<Response>,
    repo: Repositories.Repository,
    cursor: string)
    returns (r: Result<Option<Commit>, Error>, query: GraphQL.Query)
    ensures query == GraphQL.LastCommit(repo.name, repo.owner.login, cursor)
    ensures client(query).Err? ==> r == Err(client(query).error)
    ensures client(query).Ok? && decode(client(query).value).None? ==>
      r == Err(LastCommitUnparsable(client(query).value))
    ensures client(query).Ok? && decode(client(query).value).Some? ==>
      r == Ok(LastCommitOf(decode(client(query).value).value))
    ensures r.Ok? && r.value.Some? ==>
      exists branch :: decode(client(query).value) == Some(Response(Some(branch))) &&
                       r.value.value in branch.target.history.nodes
  {
    query := GraphQL.LastCommit(repo.name, repo.owner.login, cursor);
    var resp := client(query);
    if resp.Err? {
      return Err(resp.error), query;
    }
    var contents := decode(resp.value);
    if contents.None? {
      return Err(LastCommitUnparsable(resp.value)), query;
    }
    r := Ok(LastCommitOf(contents.value));
  }

  /** The first query's decoded reply, when the client and the decoder both succeed. */
  function FirstReply(client: GraphQL.Query -> Result<string, Error>, decode: string -> Option<Response>,
                      repo: Repositories.Repository): Option<Response>
  {
    var resp := client(GraphQL.CursorOrLastCommit(repo.name, repo.owner.login));
    if resp.Err? then None else decode(resp.value)
  }

  /** The branches `last_commit` answers from its first reply, without a second query. */
  predicate AnsweredByFirstReply(response: Response) {
    match response.defaultBranchRef
    case None => true
    case Some(branch) =>
      branch.target.history.totalCount == 0 ||
      (branch.target.history.totalCount == 1 && branch.target.history.nodes != [])
  }

  /**
   * `last_commit`: the decision over the first reply. No default branch or
   * an empty history gives `None`; a one-commit history whose node came back
   * gives that node; everything else costs exactly one more query, with the
   * seek cursor, whose oldest node is the first commit. Errors from either
   * query are passed on.
   */
  method LastCommit(
    client: GraphQL.Query -> Result<string, Error>,
    decode: string -> Option<Response>,
    repo: Repositories.Repository)
    returns (r: Result<Option<FirstCommit>, Error>, queries: seq<GraphQL.Query>)
    ensures 1 <= |queries| <= 2
    ensures queries[0] == GraphQL.CursorOrLastCommit(repo.name, repo.owner.login)
    ensures client(queries[0]).Err? ==> r == Err(client(queries[0]).error) && |queries| == 1
    ensures client(queries[0]).Ok? && FirstReply(client, decode, repo).None? ==>
      r == Err(LastCommitOrCursorUnparsable(Repositories.Display(repo), client(queries[0]).value)) && |queries| == 1
    ensures |queries| == 2 <==> FirstReply(client, decode, repo).Some? && !AnsweredByFirstReply(FirstReply(client, decode, repo).value)
    ensures FirstReply(client, decode, repo).Some? && AnsweredByFirstReply(FirstReply(client, decode, repo).value) ==>
      var branch := FirstReply(client, decode, repo).value.defaultBranchRef;
      r == if branch.None? || branch.value.target.history.totalCount == 0 then Ok(None)
           else Ok(Some(AsFirstCommit(branch.value.target.history.nodes[0], repo)))
    ensures |queries| == 2 ==>
      var branch := FirstReply(client, decode, repo).value.defaultBranchRef.value;
      queries[1] == GraphQL.LastCommit(repo.name, repo.owner.login, LastCommitCursor(branch).value)
    ensures |queries| == 2 && client(queries[1]).Err? ==> r == Err(client(queries[1]).error)
    ensures |queries| == 2 && client(queries[1]).Ok? && decode(client(queries[1]).value).None? ==>
      r == Err(LastCommitUnparsable(client(queries[1]).value))
    ensures |queries| == 2 && client(queries[1]).Ok? && decode(client(queries[1]).value).Some? ==>
      r == match LastCommitOf(decode(client(queries[1]).value).value)
           case None => Ok(None)
           case Some(c) => Ok(Some(AsFirstCommit(c, repo)))
    ensures r.Ok? && r.value.Some? ==> r.value.value.name == repo.name && r.value.value.owner == repo.owner.login
  {
    var first := GraphQL.CursorOrLastCommit(repo.name, repo.owner.login);
    queries := [first];
    var resp := client(first);
    if resp.Err? {
      return Err(resp.error), queries;
    }
    var contents := decode(resp.value);
    if contents.None? {
      return Err(LastCommitOrCursorUnparsable(Repositories.Display(repo), resp.value)), queries;
    }
    match contents.value.defaultBranchRef
    case None =>
      r := Ok(None);
    case Some(branch) =>
      if branch.target.history.totalCount == 0 {
        return Ok(None), queries;
      }
      if branch.target.history.totalCount == 1 {
        if |branch.target.history.nodes| > 0 {
          return Ok(Some(AsFirstCommit(branch.target.history.nodes[0], repo))), queries;
        }
      }
      var cursor := LastCommitCursor(branch).value;
      var found, second := LastCommitFromCursor(client, decode, repo, cursor);
      queries := queries + [second];
      if found.Err? {
        return Err(found.error), queries;
      }
      match found.value
      case Some(commit) =>
        r := Ok(Some(AsFirstCommit(commit, repo)));
      case None =>
        r := Ok(None);
  }
}
