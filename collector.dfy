/**
 * `create_dataset`: one request per day window, the returned posts of every
 * successful request appended in day order, failed days skipped.
 */
module Collector {
  import opened Wrappers
  import opened Posts

  const Subreddit: string := "science"

  /** The page-size limit of the API. */
  const MaxPageSize: int := 500

  /** One submission search: the subreddit, `before = "<beforeDays>d"`, and the page size. */
  datatype Request = Request(subreddit: string, beforeDays: nat, size: int)

  /** `range(days)` is empty when `days` is not positive. */
  function DayCount(days: int): nat {
    if days < 0 then 0 else days
  }

  /** `min(nb_per_day, 500)`. */
  function PageSize(nbPerDay: int): (size: int)
    ensures size <= nbPerDay && size <= MaxPageSize
    ensures size == nbPerDay || size == MaxPageSize
  {
    if nbPerDay < MaxPageSize then nbPerDay else MaxPageSize
  }

  /** The requests issued, in order: one per day index. */
  function Requests(days: int, nbPerDay: int): seq<Request> {
    seq(DayCount(days), (i: int) requires 0 <= i => Request(Subreddit, i, PageSize(nbPerDay)))
  }

  /** The posts that the requests `rs` contribute, in request order; a failed request contributes none. */
  function Gather(fetch: Request -> Option<seq<RawPost>>, rs: seq<Request>): seq<RawPost> {
    if rs == [] then []
    else Gather(fetch, rs[..|rs| - 1]) + fetch(rs[|rs| - 1]).GetOr([])
  }

  /**
   * Every request asks the one subreddit for at most 500 posts, `min(nb_per_day, 500)` exactly,
   * and day `i` is the `i`-th request.
   */
  lemma RequestsWellFormed(days: int, nbPerDay: int)
    ensures |Requests(days, nbPerDay)| == DayCount(days)
    ensures forall i :: 0 <= i < |Requests(days, nbPerDay)| ==>
      var r := Requests(days, nbPerDay)[i];
      r.subreddit == Subreddit && r.beforeDays == i && r.size <= MaxPageSize &&
      (r.size == nbPerDay || r.size == MaxPageSize) && (nbPerDay <= MaxPageSize ==> r.size == nbPerDay)
  {
    var rs := Requests(days, nbPerDay);
    forall i | 0 <= i < |rs|
      ensures rs[i] == Request(Subreddit, i, PageSize(nbPerDay))
    {
    }
  }

  /** Gathering over two runs of requests is gathering over each, one after the other. */
  lemma {:induction false} GatherAppend(fetch: Request -> Option<seq<RawPost>>, a: seq<Request>, b: seq<Request>)
    ensures Gather(fetch, a + b) == Gather(fetch, a) + Gather(fetch, b)
  {
    if b != [] {
      var b' := b[..|b| - 1];
      assert (a + b)[..|a + b| - 1] == a + b';
      GatherAppend(fetch, a, b');
    } else {
      assert a + b == a;
    }
  }

  /** A post is gathered exactly when some successful request returned it. */
  lemma {:induction false} GatherMembers(fetch: Request -> Option<seq<RawPost>>, rs: seq<Request>)
    ensures forall x :: x in Gather(fetch, rs) <==>
      exists k :: 0 <= k < |rs| && fetch(rs[k]).Some? && x in fetch(rs[k]).value
  {
    if rs != [] {
      var pre := rs[..|rs| - 1];
      GatherMembers(fetch, pre);
      forall x | x in Gather(fetch, rs)
        ensures exists k :: 0 <= k < |rs| && fetch(rs[k]).Some? && x in fetch(rs[k]).value
      {
        if x in Gather(fetch, pre) {
          var k :| 0 <= k < |pre| && fetch(pre[k]).Some? && x in fetch(pre[k]).value;
          assert rs[k] == pre[k];
        }
      }
      forall x, k | 0 <= k < |rs| && fetch(rs[k]).Some? && x in fetch(rs[k]).value
        ensures x in Gather(fetch, rs)
      {
        if k < |pre| {
          assert rs[k] == pre[k];
        }
      }
    }
  }

  /** A request that fails contributes nothing, and the requests after it still do. */
  lemma GatherSkipsFailure(fetch: Request -> Option<seq<RawPost>>, rs: seq<Request>, k: nat)
    requires k < |rs| && fetch(rs[k]).None?
    ensures Gather(fetch, rs) == Gather(fetch, rs[..k]) + Gather(fetch, rs[k + 1..])
  {
    var upTo, after := rs[..k + 1], rs[k + 1..];
    assert upTo[..k] == rs[..k] && upTo[k] == rs[k];
    assert Gather(fetch, upTo) == Gather(fetch, rs[..k]);
    assert rs == upTo + after;
    GatherAppend(fetch, upTo, after);
  }

  /** `create_dataset` as the source writes it: a loop that extends `dataset`. */
  method CreateDataset(fetch: Request -> Option<seq<RawPost>>, days: int, nbPerDay: int)
    returns (dataset: seq<RawPost>)
    ensures dataset == Gather(fetch, Requests(days, nbPerDay))
    ensures days <= 0 ==> dataset == []
    ensures forall x :: x in dataset <==>
      exists i :: 0 <= i < days && fetch(Request(Subreddit, i, PageSize(nbPerDay))).Some? &&
        x in fetch(Request(Subreddit, i, PageSize(nbPerDay))).value
  {
    dataset := [];
    var size := PageSize(nbPerDay);
    for i := 0 to DayCount(days)
      invariant dataset == Gather(fetch, Requests(days, nbPerDay)[..i])
    {
      var posts := fetch(Request(Subreddit, i, size));
      assert Requests(days, nbPerDay)[..i + 1][..i] == Requests(days, nbPerDay)[..i];
      if posts.Some? {
        dataset := dataset + posts.value;
      }
    }
    var rs := Requests(days, nbPerDay);
    assert rs[..DayCount(days)] == rs;
    GatherMembers(fetch, rs);
    RequestsWellFormed(days, nbPerDay);
    forall x, i | 0 <= i < days && fetch(Request(Subreddit, i, size)).Some? &&
        x in fetch(Request(Subreddit, i, size)).value
      ensures x in dataset
    {
      assert rs[i] == Request(Subreddit, i, size);
    }
    forall x | x in dataset
      ensures exists i :: 0 <= i < days && fetch(Request(Subreddit, i, size)).Some? &&
                          x in fetch(Request(Subreddit, i, size)).value
    {
      var k :| 0 <= k < |rs| && fetch(rs[k]).Some? && x in fetch(rs[k]).value;
      assert rs[k] == Request(Subreddit, k, size);
    }
  }

  /** Three days whose last request fails: the result is the first two days' posts, in order. */
  lemma ThirdDayFails(fetch: Request -> Option<seq<RawPost>>, nbPerDay: int)
    requires fetch(Requests(3, nbPerDay)[2]).None?
    ensures Gather(fetch, Requests(3, nbPerDay)) ==
      fetch(Requests(3, nbPerDay)[0]).GetOr([]) + fetch(Requests(3, nbPerDay)[1]).GetOr([])
  {
    var rs := Requests(3, nbPerDay);
    var d0, d1 := fetch(rs[0]).GetOr([]), fetch(rs[1]).GetOr([]);
    assert rs[..2][..1] == rs[..1] && rs[..1][..0] == [];
    assert Gather(fetch, rs[..1]) == d0;
    assert Gather(fetch, rs[..2]) == d0 + d1;
    assert Gather(fetch, rs) == Gather(fetch, rs[..2]) + [];
  }
}
