/**
 * The end of `data_for` (src/web.rs): collecting the first commits that the
 * spawned tasks send back, then ordering them by days to the next
 * anniversary.
 *
 * The tasks and the channel are replaced by `received`, the results in the
 * order they arrive. Each spawned task sends exactly one result, and
 * `data_for` keeps its own sender alive while it collects, so `recv` never
 * answers `None`: the collector's `total` waits receive exactly the `total`
 * results. The clock read by the sort key is the `today` parameter.
 */
module Web {
  import opened Wrappers
  import opened Errors
  import opened Models
  import opened Sorting

  /** What one task sends: its repository's first commit, if it has one, or the error that stopped it. */
  type Outcome = Result<Option<FirstCommit>, Error>

  /** The collected commits of the arrivals in `received`, in arrival order, or the first error, wrapped. */
  function Gather(received: seq<Outcome>): Result<seq<FirstCommit>, Error> {
    if received == [] then Ok([])
    else
      match Gather(received[..|received| - 1])
      case Err(e) => Err(e)
      case Ok(commits) =>
        match received[|received| - 1]
        case Err(e) => Err(FirstCommitFailed(e))
        case Ok(None) => Ok(commits)
        case Ok(Some(c)) => Ok(commits + [c])
  }

  /** The sort key: days from `today` to the commit's next anniversary. */
  function ByDays(today: ValidDate): FirstCommit -> int {
    c => DaysToNextAnniversary(c, today)
  }

  /** The list `data_for` renders: the collected commits stably sorted by days to the next anniversary. */
  function DataFor(received: seq<Outcome>, today: ValidDate): Result<seq<FirstCommit>, Error> {
    match Gather(received)
    case Err(e) => Err(e)
    case Ok(commits) => Ok(InsertionSorted(commits, ByDays(today)))
  }

  /** Once an error is gathered, later arrivals are never looked at. */
  lemma {:induction false} GatherStopsAtError(received: seq<Outcome>, later: seq<Outcome>)
    requires Gather(received).Err?
    ensures Gather(received + later) == Gather(received)
    decreases |later|
  {
    if later == [] {
      assert received + later == received;
    } else {
      var init := later[..|later| - 1];
      GatherStopsAtError(received, init);
      assert (received + later)[..|received + later| - 1] == received + init;
    }
  }

  /**
   * The collection fails exactly when some arrival is an error, and then with
   * the first one: every arrival before it is a success.
   */
  lemma {:induction false} GatherErrors(received: seq<Outcome>)
    ensures Gather(received).Err? <==> exists i :: 0 <= i < |received| && received[i].Err?
    ensures Gather(received).Err? ==>
      exists i :: 0 <= i < |received| && received[i].Err? &&
        (forall j :: 0 <= j < i ==> received[j].Ok?) &&
        Gather(received).error == FirstCommitFailed(received[i].error)
    decreases |received|
  {
    if received != [] {
      var n := |received| - 1;
      var init := received[..n];
      GatherErrors(init);
      assert forall j :: 0 <= j < n ==> init[j] == received[j];
      if Gather(init).Err? {
        var i :| 0 <= i < n && init[i].Err? && (forall j :: 0 <= j < i ==> init[j].Ok?) &&
          Gather(init).error == FirstCommitFailed(init[i].error);
        assert received[i].Err?;
      } else if received[n].Err? {
        assert forall j :: 0 <= j < n ==> received[j].Ok?;
      }
    }
  }

  /**
   * A successful collection holds exactly the commits that arrived, none of
   * the repositories without one, and no more commits than arrivals.
   */
  lemma {:induction false} GatherMembers(received: seq<Outcome>, c: FirstCommit)
    requires Gather(received).Ok?
    ensures |Gather(received).value| <= |received|
    ensures c in Gather(received).value <==> Ok(Some(c)) in received
    decreases |received|
  {
    if received != [] {
      var n := |received| - 1;
      var init := received[..n];
      GatherMembers(init, c);
      assert received == init + [received[n]];
    }
  }

  /**
   * The rendered list is ordered by days to the next anniversary, is a
   * permutation of the collected commits, and keeps the arrival order of
   * commits whose anniversaries are equally far.
   */
  lemma DataForOrdered(received: seq<Outcome>, today: ValidDate, days: int)
    requires Gather(received).Ok?
    ensures DataFor(received, today).Ok?
    ensures SortedBy(DataFor(received, today).value, ByDays(today))
    ensures multiset(DataFor(received, today).value) == multiset(Gather(received).value)
    ensures WithKey(DataFor(received, today).value, ByDays(today), days) ==
            WithKey(Gather(received).value, ByDays(today), days)
  {
    var commits := Gather(received).value;
    InsertionSortedIsSorted(commits, ByDays(today));
    InsertionSortedPermutes(commits, ByDays(today));
    InsertionSortedIsStable(commits, ByDays(today), days);
  }

  /**
   * Lines 40-53 of `data_for`: `total` waits on the channel, one per spawned
   * task, keeping the commits, skipping repositories without one, and
   * returning the first error; then the in-place `sort_by_key`.
   */
  method CollectFirstCommits(received: seq<Outcome>, total: nat, today: ValidDate)
    returns (r: Result<seq<FirstCommit>, Error>)
    requires |received| == total
    ensures r == DataFor(received, today)
    ensures r.Ok? ==> SortedBy(r.value, ByDays(today)) && multiset(r.value) == multiset(Gather(received).value)
  {
    var commits: seq<FirstCommit> := [];
    var i := 0;
    while i < total
      invariant 0 <= i <= total
      invariant Gather(received[..i]) == Ok(commits)
    {
      assert received[..i + 1][..i] == received[..i];
      match received[i] {
        case Err(e) =>
          assert Gather(received[..i + 1]) == Err(FirstCommitFailed(e));
          GatherStopsAtError(received[..i + 1], received[i + 1..]);
          assert received[..i + 1] + received[i + 1..] == received;
          return Err(FirstCommitFailed(e));
        case Ok(None) =>
        case Ok(Some(c)) =>
          commits := commits + [c];
      }
      i := i + 1;
    }
    assert received[..total] == received;
    var a := new FirstCommit[|commits|](j requires 0 <= j < |commits| => commits[j]);
    assert a[..] == commits;
    SortByKey(a, ByDays(today));
    r := Ok(a[..]);
    DataForOrdered(received, today, 0);
  }
}
