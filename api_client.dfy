/**
 * The two list-shaping rules of src/lib/apiClient.ts: how the active and
 * the merged applications of one repository are combined, and how the
 * all-applications listing attaches owner and repository to each record.
 * The HTTP requests themselves are not modelled: each request is given as
 * its settled outcome.
 */
module ApiClient {
  import opened Wrappers
  import opened Types

  /** The `data` of a response: an array of items, or anything that is not an array. */
  datatype Payload<T> = Items(items: seq<T>) | NotArray

  /** A settled request: resolved with a payload, or rejected with an error that may carry a message. */
  datatype Response<T> = Resolved(data: Payload<T>) | Rejected(message: Option<string>)

  const INVALID_DATA: string := "Received invalid data from the API"
  const FETCH_FAILED: string := "Failed to fetch applications"

  /** The message of the error raised again by the `catch` blocks. */
  function RethrowMessage(message: Option<string>): string {
    match message
    case Some(m) => m
    case None => FETCH_FAILED
  }

  // ---------------------------------------------------------------------
  // getApplicationsForRepo
  // ---------------------------------------------------------------------

  /** The keys of `activeApplicationsMap`. */
  function ActiveIds(active: seq<Application>): (r: set<string>)
    ensures forall k :: 0 <= k < |active| ==> active[k].id in r
    ensures forall id :: id in r ==> exists k :: 0 <= k < |active| && active[k].id == id
  {
    set k | 0 <= k < |active| :: active[k].id
  }

  /**
   * The merged entries whose application is not active, with the pull
   * request data dropped, in their original order.
   */
  function KeptMerged<P>(merged: seq<(P, Application)>, activeIds: set<string>): (r: seq<Application>)
    ensures |r| <= |merged|
    ensures forall k :: 0 <= k < |r| ==> r[k].id !in activeIds
  {
    if merged == [] then []
    else
      var rest := KeptMerged(merged[1..], activeIds);
      if merged[0].1.id in activeIds then rest else [merged[0].1] + rest
  }

  /** The application list: all active records first, then the merged ones that are not active. */
  function MergeApplications<P>(active: seq<Application>, merged: seq<(P, Application)>): (r: seq<Application>)
    ensures |active| <= |r| <= |active| + |merged|
    ensures r[..|active|] == active
    ensures forall k :: |active| <= k < |r| ==> r[k].id !in ActiveIds(active)
  {
    active + KeptMerged(merged, ActiveIds(active))
  }

  /**
   * `getApplicationsForRepo` on the settled outcomes of its two requests.
   * When both requests reject, the active one's error is the one reported.
   */
  function ApplicationsForRepo<P>(active: Response<Application>, merged: Response<(P, Application)>): (r: Result<seq<Application>, string>)
    ensures r.Success? <==> active.Resolved? && active.data.Items? && merged.Resolved? && merged.data.Items?
    ensures r.Success? ==> r.value == MergeApplications(active.data.items, merged.data.items)
  {
    match active
    case Rejected(m) => Failure(RethrowMessage(m))
    case Resolved(activeData) =>
      match merged
      case Rejected(m) => Failure(RethrowMessage(m))
      case Resolved(mergedData) =>
        if !activeData.Items? || !mergedData.Items? then Failure(RethrowMessage(Some(INVALID_DATA)))
        else Success(MergeApplications(activeData.items, mergedData.items))
  }

  /** Filtering a concatenation filters each part. */
  lemma {:induction false} KeptMergedConcat<P>(a: seq<(P, Application)>, b: seq<(P, Application)>, activeIds: set<string>)
    ensures KeptMerged(a + b, activeIds) == KeptMerged(a, activeIds) + KeptMerged(b, activeIds)
  {
    if a == [] {
      assert a + b == b;
    } else {
      assert (a + b)[0] == a[0];
      assert (a + b)[1..] == a[1..] + b;
      KeptMergedConcat(a[1..], b, activeIds);
    }
  }

  /** An application is kept exactly when some merged entry carries it and its id is not active. */
  lemma {:induction false} KeptMergedMembership<P>(merged: seq<(P, Application)>, activeIds: set<string>, app: Application)
    ensures app in KeptMerged(merged, activeIds) <==>
      app.id !in activeIds && exists j :: 0 <= j < |merged| && merged[j].1 == app
  {
    if merged != [] {
      KeptMergedMembership(merged[1..], activeIds, app);
      if exists j :: 0 <= j < |merged| && merged[j].1 == app {
        var j :| 0 <= j < |merged| && merged[j].1 == app;
        if j > 0 {
          assert merged[1..][j - 1] == merged[j];
        }
      }
      if exists j :: 0 <= j < |merged[1..]| && merged[1..][j].1 == app {
        var j :| 0 <= j < |merged[1..]| && merged[1..][j].1 == app;
        assert merged[j + 1].1 == app;
      }
    }
  }

  /** With no active application among them, every merged application is kept. */
  lemma {:induction false} KeptMergedNoneActive<P>(merged: seq<(P, Application)>, activeIds: set<string>)
    requires forall j :: 0 <= j < |merged| ==> merged[j].1.id !in activeIds
    ensures KeptMerged(merged, activeIds) == MergedApps(merged)
  {
    if merged != [] {
      KeptMergedNoneActive(merged[1..], activeIds);
    }
  }

  /** The positions from `i` on of the merged entries whose application is not active, in increasing order. */
  ghost function KeptPositions<P>(merged: seq<(P, Application)>, activeIds: set<string>, i: nat): seq<int>
    requires i <= |merged|
    decreases |merged| - i
  {
    if i == |merged| then []
    else (if merged[i].1.id in activeIds then [] else [i]) + KeptPositions(merged, activeIds, i + 1)
  }

  /** The positions lie in `[i, |merged|)`, increase strictly, and are exactly the non-active ones. */
  lemma {:induction false} KeptPositionsExact<P>(merged: seq<(P, Application)>, activeIds: set<string>, i: nat)
    requires i <= |merged|
    ensures var pos := KeptPositions(merged, activeIds, i);
      (forall k :: 0 <= k < |pos| ==> i <= pos[k] < |merged|)
      && (forall k, l :: 0 <= k < l < |pos| ==> pos[k] < pos[l])
      && (forall j :: i <= j < |merged| ==> (j in pos <==> merged[j].1.id !in activeIds))
    decreases |merged| - i
  {
    if i < |merged| {
      KeptPositionsExact(merged, activeIds, i + 1);
      var rest := KeptPositions(merged, activeIds, i + 1);
      var head: seq<int> := if merged[i].1.id in activeIds then [] else [i];
      var pos := KeptPositions(merged, activeIds, i);
      assert pos == head + rest;
      assert i !in rest;
      forall j | i <= j < |merged|
        ensures j in pos <==> merged[j].1.id !in activeIds
      {
        assert j in pos <==> j in head || j in rest;
      }
    }
  }

  /** The kept applications are the merged entries at the kept positions, one for one. */
  lemma {:induction false} KeptMergedAtPositions<P>(merged: seq<(P, Application)>, activeIds: set<string>, i: nat)
    requires i <= |merged|
    ensures var pos := KeptPositions(merged, activeIds, i);
      |KeptMerged(merged[i..], activeIds)| == |pos|
      && forall k :: 0 <= k < |pos| ==> 0 <= pos[k] < |merged| && KeptMerged(merged[i..], activeIds)[k] == merged[pos[k]].1
    decreases |merged| - i
  {
    if i < |merged| {
      KeptMergedAtPositions(merged, activeIds, i + 1);
      var pos := KeptPositions(merged, activeIds, i);
      var rest := KeptPositions(merged, activeIds, i + 1);
      var tail := KeptMerged(merged[i + 1..], activeIds);
      assert merged[i..][1..] == merged[i + 1..];
      var kept := KeptMerged(merged[i..], activeIds);
      if merged[i].1.id in activeIds {
        assert pos == rest && kept == tail;
      } else {
        assert pos == [i] + rest && kept == [merged[i].1] + tail;
        forall k | 0 <= k < |pos|
          ensures 0 <= pos[k] < |merged| && kept[k] == merged[pos[k]].1
        {
          if k > 0 {
            assert pos[k] == rest[k - 1] && kept[k] == tail[k - 1];
          }
        }
      }
    }
  }

  /**
   * The kept applications are the merged entries at exactly the
   * non-active positions, taken in increasing position order: filtering
   * keeps the merged list's relative order and drops only active ids.
   */
  lemma KeptMergedOrder<P>(merged: seq<(P, Application)>, activeIds: set<string>)
    ensures var pos := KeptPositions(merged, activeIds, 0);
      |KeptMerged(merged, activeIds)| == |pos|
      && (forall k :: 0 <= k < |pos| ==> 0 <= pos[k] < |merged| && KeptMerged(merged, activeIds)[k] == merged[pos[k]].1)
      && (forall k, l :: 0 <= k < l < |pos| ==> pos[k] < pos[l])
      && (forall j :: 0 <= j < |merged| ==> (j in pos <==> merged[j].1.id !in activeIds))
  {
    KeptPositionsExact(merged, activeIds, 0);
    KeptMergedAtPositions(merged, activeIds, 0);
    assert merged[0..] == merged;
  }

  /**
   * The list holds the active records in order, then one record per
   * non-active merged position, in merged order; so its length is
   * `|active|` plus the number of merged entries whose id is not active.
   */
  lemma MergeApplicationsLayout<P>(active: seq<Application>, merged: seq<(P, Application)>)
    ensures var pos := KeptPositions(merged, ActiveIds(active), 0);
      var r := MergeApplications(active, merged);
      |r| == |active| + |pos|
      && (forall k :: 0 <= k < |active| ==> r[k] == active[k])
      && (forall k :: 0 <= k < |pos| ==> 0 <= pos[k] < |merged| && r[|active| + k] == merged[pos[k]].1)
  {
    KeptMergedOrder(merged, ActiveIds(active));
  }

  /**
   * Active records win: every id in the list is active or merged, every
   * active or merged id appears, and an active id appears only through
   * active records.
   */
  lemma MergeKeepsEveryId<P>(active: seq<Application>, merged: seq<(P, Application)>, id: string)
    ensures (exists k :: 0 <= k < |MergeApplications(active, merged)| && MergeApplications(active, merged)[k].id == id) <==>
      id in ActiveIds(active) || exists j :: 0 <= j < |merged| && merged[j].1.id == id
    ensures id in ActiveIds(active) ==>
      forall k :: 0 <= k < |MergeApplications(active, merged)| && MergeApplications(active, merged)[k].id == id ==> k < |active|
  {
    var r := MergeApplications(active, merged);
    var kept := KeptMerged(merged, ActiveIds(active));
    assert r == active + kept;
    if exists j :: 0 <= j < |merged| && merged[j].1.id == id {
      var j :| 0 <= j < |merged| && merged[j].1.id == id;
      if id !in ActiveIds(active) {
        KeptMergedMembership(merged, ActiveIds(active), merged[j].1);
        var k :| 0 <= k < |kept| && kept[k] == merged[j].1;
        assert r[|active| + k].id == id;
      }
    }
    if id in ActiveIds(active) {
      var k :| 0 <= k < |active| && active[k].id == id;
      assert r[k].id == id;
    }
    if exists k :: 0 <= k < |r| && r[k].id == id {
      var k :| 0 <= k < |r| && r[k].id == id;
      if k >= |active| {
        assert kept[k - |active|] == r[k];
        KeptMergedMembership(merged, ActiveIds(active), r[k]);
      }
    }
  }

  /** The ids of a list of applications are pairwise distinct. */
  ghost predicate DistinctIds(apps: seq<Application>) {
    forall k, l :: 0 <= k < l < |apps| ==> apps[k].id != apps[l].id
  }

  /** The merged applications themselves, without the pull request data. */
  ghost function MergedApps<P>(merged: seq<(P, Application)>): seq<Application> {
    seq(|merged|, j requires 0 <= j < |merged| => merged[j].1)
  }

  /** The kept applications keep distinct ids once the merged ones have them. */
  lemma {:induction false} KeptMergedDistinct<P>(merged: seq<(P, Application)>, activeIds: set<string>)
    requires DistinctIds(MergedApps(merged))
    ensures DistinctIds(KeptMerged(merged, activeIds))
  {
    if merged != [] {
      var tail := MergedApps(merged[1..]);
      assert DistinctIds(tail) by {
        forall k, l | 0 <= k < l < |tail|
          ensures tail[k].id != tail[l].id
        {
          assert tail[k] == MergedApps(merged)[k + 1];
          assert tail[l] == MergedApps(merged)[l + 1];
        }
      }
      KeptMergedDistinct(merged[1..], activeIds);
      var rest := KeptMerged(merged[1..], activeIds);
      if merged[0].1.id !in activeIds {
        forall k | 0 <= k < |rest|
          ensures rest[k].id != merged[0].1.id
        {
          KeptMergedMembership(merged[1..], activeIds, rest[k]);
          var j :| 0 <= j < |merged[1..]| && merged[1..][j].1 == rest[k];
          assert MergedApps(merged)[j + 1] == rest[k];
          assert MergedApps(merged)[0] == merged[0].1;
        }
      }
    }
  }

  /** The merge introduces no duplicate id: distinct inputs give a distinct list. */
  lemma MergeDistinctIds<P>(active: seq<Application>, merged: seq<(P, Application)>)
    requires DistinctIds(active) && DistinctIds(MergedApps(merged))
    ensures DistinctIds(MergeApplications(active, merged))
  {
    var kept := KeptMerged(merged, ActiveIds(active));
    KeptMergedDistinct(merged, ActiveIds(active));
    var r := MergeApplications(active, merged);
    forall k, l | 0 <= k < l < |r|
      ensures r[k].id != r[l].id
    {
      if l >= |active| {
        assert r[l] == kept[l - |active|];
        if k < |active| {
          assert r[k] == active[k];
        } else {
          assert r[k] == kept[k - |active|];
        }
      } else {
        assert r[k] == active[k] && r[l] == active[l];
      }
    }
  }

  /** How each failure of `getApplicationsForRepo` is reported. */
  lemma ApplicationsForRepoErrors<P>(active: Response<Application>, merged: Response<(P, Application)>)
    ensures active.Rejected? ==> ApplicationsForRepo(active, merged) == Failure(RethrowMessage(active.message))
    ensures active.Resolved? && merged.Rejected? ==> ApplicationsForRepo(active, merged) == Failure(RethrowMessage(merged.message))
    ensures active.Resolved? && merged.Resolved? && (active.data.NotArray? || merged.data.NotArray?) ==>
      ApplicationsForRepo(active, merged) == Failure(INVALID_DATA)
    ensures forall m :: ApplicationsForRepo(active, merged) == Failure(m) ==>
      m == INVALID_DATA || m == FETCH_FAILED
      || (active.Rejected? && active.message == Some(m)) || (merged.Rejected? && merged.message == Some(m))
  {
  }

  // ---------------------------------------------------------------------
  // getAllApplications
  // ---------------------------------------------------------------------

  /** `{ ...e[0], owner: e[1], repo: e[2] }` */
  function WithOwnerAndRepo(entry: (Application, string, string)): (r: Application)
    ensures r.owner == Some(entry.1) && r.repo == Some(entry.2)
    ensures r.(owner := entry.0.owner, repo := entry.0.repo) == entry.0
  {
    entry.0.(owner := Some(entry.1), repo := Some(entry.2))
  }

  /**
   * `getAllApplications` on the settled outcome of its request. A payload
   * that is not an array makes the `map` call raise a TypeError, whose
   * message (`typeErrorMessage`) comes from the JavaScript engine.
   */
  function AllApplications(response: Response<(Application, string, string)>, typeErrorMessage: string): (r: Result<seq<Application>, string>)
    ensures r.Success? <==> response.Resolved? && response.data.Items?
    ensures r.Success? ==> |r.value| == |response.data.items|
    ensures r.Success? ==> forall k :: 0 <= k < |r.value| ==>
      var e := response.data.items[k];
      r.value[k].owner == Some(e.1) && r.value[k].repo == Some(e.2)
      && r.value[k].(owner := e.0.owner, repo := e.0.repo) == e.0
    ensures r.Failure? ==> r.error == (if response.Rejected? then RethrowMessage(response.message) else typeErrorMessage)
  {
    match response
    case Rejected(m) => Failure(RethrowMessage(m))
    case Resolved(data) =>
      match data
      case NotArray => Failure(typeErrorMessage)
      case Items(entries) =>
        Success(seq(|entries|, k requires 0 <= k < |entries| => WithOwnerAndRepo(entries[k])))
  }

  /** The listing loses no record: dropping the attached owner and repo gives back the records received. */
  lemma AllApplicationsRecoversRecords(entries: seq<(Application, string, string)>, typeErrorMessage: string)
    ensures var r := AllApplications(Resolved(Items(entries)), typeErrorMessage);
      r.Success? &&
      seq(|r.value|, k requires 0 <= k < |r.value| => r.value[k].(owner := entries[k].0.owner, repo := entries[k].0.repo))
        == seq(|entries|, k requires 0 <= k < |entries| => entries[k].0)
  {
  }
}
