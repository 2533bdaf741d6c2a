/** A client paging through ListBounties while the contract keeps running. */
module BountyPaging {
  import opened Bytes
  import opened BountyContract
  import opened BountyRuns

  /** One request: the world it met, the effective limit, the records it returned. */
  datatype Request = Request(w: World, limit: nat, page: seq<Bounty>)

  function TaskIds(page: seq<Bounty>): (ids: seq<uint64>)
    ensures |ids| == |page| && forall i :: 0 <= i < |page| ==> ids[i] == page[i].taskId
  {
    seq(|page|, i requires 0 <= i < |page| => page[i].taskId)
  }

  /** `rs` starts with cursor `after`; each later request uses the last id returned, in a
      world some run of events led to; only the last page is empty. */
  ghost predicate Session(env: Env, rs: seq<Request>, after: Option<uint64>)
    decreases |rs|
  {
    && rs != []
    && WellFormed(rs[0].w.st) && rs[0].limit >= 1
    && IsPage(rs[0].w.st.bounties, after, rs[0].limit, TaskIds(rs[0].page))
    && if rs[0].page == [] then |rs| == 1
       else
         && |rs| > 1
         && (exists es :: rs[1].w == Run(env, rs[0].w, es))
         && Session(env, rs[1..], Some(rs[0].page[|rs[0].page| - 1].taskId))
  }

  /** All ids the session returned, in order. */
  function Returned(rs: seq<Request>): seq<uint64> {
    if rs == [] then [] else TaskIds(rs[0].page) + Returned(rs[1..])
  }

  /** What ListBounties promises about its page is what a request of a session needs. */
  lemma ServedPage(st: Storage, after: Option<uint64>, limit: nat, ids: seq<uint64>, page: seq<Bounty>)
    requires WellFormed(st) && IsPage(st.bounties, after, limit, ids)
    requires |page| == |ids| && forall i :: 0 <= i < |ids| ==> ids[i] in st.bounties && page[i] == st.bounties[ids[i]]
    ensures IsPage(st.bounties, after, limit, TaskIds(page))
  {
    assert ids == TaskIds(page);
  }

  /** A page holds every id up to its last one; an empty page means nothing is left. */
  lemma PageReaches(bounties: map<uint64, Bounty>, after: Option<uint64>, limit: nat, ids: seq<uint64>, id: uint64)
    requires IsPage(bounties, after, limit, ids) && limit >= 1 && id in bounties && Past(id, after)
    ensures id in ids || (ids != [] && id > ids[|ids| - 1])
  {
  }

  ghost predicate Increasing(ids: seq<uint64>) {
    forall i, j :: 0 <= i < j < |ids| ==> ids[i] < ids[j]
  }

  ghost predicate AllPast(ids: seq<uint64>, after: Option<uint64>) {
    forall i :: 0 <= i < |ids| ==> Past(ids[i], after)
  }

  lemma IncreasingConcat(ids: seq<uint64>, rest: seq<uint64>, after: Option<uint64>)
    requires ids != [] && Increasing(ids) && AllPast(ids, after)
    requires Increasing(rest) && AllPast(rest, Some(ids[|ids| - 1]))
    ensures Increasing(ids + rest) && AllPast(ids + rest, after)
  {
    assert Past(ids[|ids| - 1], after);
  }

  lemma PageOrdered(bounties: map<uint64, Bounty>, after: Option<uint64>, limit: nat, ids: seq<uint64>)
    requires IsPage(bounties, after, limit, ids)
    ensures Increasing(ids) && AllPast(ids, after)
  {
    hide Past;
    assert forall i :: 0 <= i < |ids| ==> ids[i] in ids;
  }

  lemma ReturnedUnfold(rs: seq<Request>)
    requires rs != []
    ensures Returned(rs) == TaskIds(rs[0].page) + Returned(rs[1..])
    ensures |rs| == 1 && rs[0].page == [] ==> Returned(rs) == []
  {
  }

  /** Strictly increasing ids, so none twice. */
  lemma {:induction false} PagingOrdered(env: Env, rs: seq<Request>, after: Option<uint64>)
    requires Session(env, rs, after)
    ensures Increasing(Returned(rs)) && AllPast(Returned(rs), after)
    decreases |rs|
  {
    hide Run, WellFormed, IsPage, Increasing, AllPast, Returned;
    var ids := TaskIds(rs[0].page);
    PageOrdered(rs[0].w.st.bounties, after, rs[0].limit, ids);
    ReturnedUnfold(rs);
    if rs[0].page == [] {
      NothingOrdered(after);
    } else {
      PagingOrdered(env, rs[1..], Some(ids[|ids| - 1]));
      IncreasingConcat(ids, Returned(rs[1..]), after);
    }
  }

  lemma NothingOrdered(after: Option<uint64>)
    ensures Increasing([]) && AllPast([], after)
  {
  }

  /** Every bounty past the cursor when the session began is returned, whatever messages
      ran between the pages. */
  lemma {:induction false} PagingReaches(env: Env, rs: seq<Request>, after: Option<uint64>, id: uint64)
    requires Session(env, rs, after) && id in rs[0].w.st.bounties && Past(id, after)
    ensures id in Returned(rs)
    decreases |rs|
  {
    var ids := TaskIds(rs[0].page);
    PageReaches(rs[0].w.st.bounties, after, rs[0].limit, ids, id);
    if id !in ids {
      var es :| rs[1].w == Run(env, rs[0].w, es);
      RunKeeps(env, rs[0].w, es);
      assert rs[1..][0] == rs[1];
      hide Run, WellFormed, Evolves, IsPage;
      PagingReaches(env, rs[1..], Some(ids[|ids| - 1]), id);
    }
  }

  /** A whole session, from no cursor: strictly increasing ids, each at most once,
      including every bounty that was there when it began. */
  lemma PagingComplete(env: Env, rs: seq<Request>)
    requires Session(env, rs, None)
    ensures Increasing(Returned(rs))
    ensures forall id :: id in rs[0].w.st.bounties ==> id in Returned(rs)
  {
    PagingOrdered(env, rs, None);
    forall id | id in rs[0].w.st.bounties ensures id in Returned(rs) { PagingReaches(env, rs, None, id); }
  }
}
