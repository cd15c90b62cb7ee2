/**
 * `preprocess`: pass 1 drops repeated raw posts (whole-record equality,
 * first occurrence wins) and posts without a flair; pass 2 projects every
 * surviving post onto the wanted keys.
 */
module Preprocessor {
  import opened Wrappers
  import opened Posts

  /**
   * What pass 1 has built after reading `ds`: the loop keeps the next post
   * when it is not already in the list and carries the flair key.
   */
  function KeepFirstFlaired(ds: seq<RawPost>): seq<RawPost>
  {
    if ds == [] then []
    else
      var kept := KeepFirstFlaired(ds[..|ds| - 1]);
      var post := ds[|ds| - 1];
      if post !in kept && Flair in post then kept + [post] else kept
  }

  predicate Distinct<T(==)>(s: seq<T>) {
    forall i, j :: 0 <= i < j < |s| ==> s[i] != s[j]
  }

  /** The flaired posts of `ds`, each counted once. */
  function FlairedSet(ds: seq<RawPost>): set<RawPost> {
    set p | p in ds && Flair in p
  }

  /** The position at which `x` first occurs in `s`. */
  function FirstIndex<T(==)>(s: seq<T>, x: T): (k: nat)
    requires x in s
    ensures k < |s| && s[k] == x && x !in s[..k]
  {
    if s[0] == x then 0
    else
      var k := 1 + FirstIndex(s[1..], x);
      assert s[..k] == [s[0]] + s[1..][..k - 1];
      k
  }

  lemma FirstIndexUnique<T>(s: seq<T>, i: nat)
    requires i < |s| && s[i] !in s[..i]
    ensures FirstIndex(s, s[i]) == i
  {
  }

  /** Every kept post occurs in the input and has a flair, and every such post is kept. */
  lemma {:induction false} KeptMembers(ds: seq<RawPost>)
    ensures forall x :: x in KeepFirstFlaired(ds) <==> x in ds && Flair in x
  {
    if ds != [] {
      var pre := ds[..|ds| - 1];
      KeptMembers(pre);
      assert ds == pre + [ds[|ds| - 1]];
    }
  }

  /** No raw post is kept twice. */
  lemma {:induction false} KeptDistinct(ds: seq<RawPost>)
    ensures Distinct(KeepFirstFlaired(ds))
  {
    if ds != [] {
      KeptDistinct(ds[..|ds| - 1]);
    }
  }

  /** Positions in a prefix of `s` are first occurrences in `s` exactly when they are in the prefix. */
  lemma FirstIndexInPrefix<T>(s: seq<T>, n: nat, x: T)
    requires n <= |s| && x in s[..n]
    ensures x in s && FirstIndex(s, x) == FirstIndex(s[..n], x) < n
  {
    var k := FirstIndex(s[..n], x);
    assert s[..k] == s[..n][..k];
    FirstIndexUnique(s, k);
  }

  /** The kept posts appear in the order of their first occurrence in the input. */
  lemma {:induction false} KeptInFirstOccurrenceOrder(ds: seq<RawPost>)
    ensures forall x :: x in KeepFirstFlaired(ds) ==> x in ds
    ensures forall i, j :: 0 <= i < j < |KeepFirstFlaired(ds)| ==>
      FirstIndex(ds, KeepFirstFlaired(ds)[i]) < FirstIndex(ds, KeepFirstFlaired(ds)[j])
  {
    KeptMembers(ds);
    if ds != [] {
      var n := |ds| - 1;
      var pre, post := ds[..n], ds[n];
      var kept, r := KeepFirstFlaired(pre), KeepFirstFlaired(ds);
      KeptInFirstOccurrenceOrder(pre);
      KeptMembers(pre);
      assert r == kept || r == kept + [post];
      forall i, j | 0 <= i < j < |r|
        ensures FirstIndex(ds, r[i]) < FirstIndex(ds, r[j])
      {
        assert r[i] == kept[i] && kept[i] in pre;
        FirstIndexInPrefix(ds, n, kept[i]);
        if j < |kept| {
          assert r[j] == kept[j] && kept[j] in pre;
          FirstIndexInPrefix(ds, n, kept[j]);
        } else {
          assert r[j] == post && post !in pre;
          FirstIndexUnique(ds, n);
        }
      }
    }
  }

  /** A sequence without repetitions has as many elements as its set of elements. */
  lemma {:induction false} DistinctCardinality<T>(s: seq<T>)
    requires Distinct(s)
    ensures |set x | x in s| == |s|
  {
    if s != [] {
      var pre := s[..|s| - 1];
      assert Distinct(pre) by {
        forall i, j | 0 <= i < j < |pre| ensures pre[i] != pre[j] {
          assert pre[i] == s[i] && pre[j] == s[j];
        }
      }
      DistinctCardinality(pre);
      assert s == pre + [s[|s| - 1]];
      assert (set x | x in s) == (set x | x in pre) + {s[|s| - 1]};
    }
  }

  lemma {:induction false} KeptShorter(ds: seq<RawPost>)
    ensures |KeepFirstFlaired(ds)| <= |ds|
  {
    if ds != [] {
      KeptShorter(ds[..|ds| - 1]);
    }
  }

  /** Pass 1 yields one post per distinct flaired post, so never more posts than it read. */
  lemma KeptLength(ds: seq<RawPost>)
    ensures |KeepFirstFlaired(ds)| == |FlairedSet(ds)| <= |ds|
  {
    var kept := KeepFirstFlaired(ds);
    KeptMembers(ds);
    KeptDistinct(ds);
    DistinctCardinality(kept);
    assert (set x | x in kept) == FlairedSet(ds);
    KeptShorter(ds);
  }

  /** Pass 1 as the source writes it: a loop appending to `posts`. */
  method DedupFlaired(dataset: seq<RawPost>) returns (posts: seq<RawPost>)
    ensures posts == KeepFirstFlaired(dataset)
    ensures Distinct(posts)
    ensures forall x :: x in posts <==> x in dataset && Flair in x
  {
    posts := [];
    for i := 0 to |dataset|
      invariant posts == KeepFirstFlaired(dataset[..i])
    {
      var post := dataset[i];
      assert dataset[..i + 1][..i] == dataset[..i];
      if post !in posts && Flair in post {
        posts := posts + [post];
      }
    }
    assert dataset[..|dataset|] == dataset;
    KeptDistinct(dataset);
    KeptMembers(dataset);
  }

  /**
   * Pass 2, the list comprehension: projects the posts in order; the first
   * post that lacks a wanted key aborts the whole pass with its `KeyError`.
   */
  function ProjectAll(posts: seq<RawPost>): (r: Result<seq<FilteredPost>, KeyError>)
    ensures r.Success? <==> forall i :: 0 <= i < |posts| ==> Project(posts[i]).Success?
    ensures r.Success? ==>
      |r.value| == |posts| && forall i :: 0 <= i < |posts| ==> Project(posts[i]) == Success(r.value[i])
    ensures r.Failure? ==>
      exists i :: 0 <= i < |posts| && Project(posts[i]) == Failure(r.error) &&
        forall j :: 0 <= j < i ==> Project(posts[j]).Success?
  {
    if posts == [] then Success([])
    else
      match Project(posts[0])
      case Failure(e) => Failure(e)
      case Success(f) =>
        match ProjectAll(posts[1..])
        case Failure(e) => Failure(e)
        case Success(fs) => Success([f] + fs)
  }

  /** `preprocess`: pass 1, then pass 2. */
  method Preprocess(dataset: seq<RawPost>) returns (r: Result<seq<FilteredPost>, KeyError>)
    ensures r == ProjectAll(KeepFirstFlaired(dataset))
    ensures r.Success? <==> forall p :: p in dataset && Flair in p ==> HasWantedKeys(p)
    ensures r.Success? ==> |r.value| == |FlairedSet(dataset)| <= |dataset|
    ensures r.Success? ==> forall f :: f in r.value ==>
      exists p :: p in dataset && Flair in p && Project(p) == Success(f)
    ensures r.Failure? ==> r.error.key in [Author, CreatedUtc, Title]
  {
    var posts := DedupFlaired(dataset);
    r := ProjectAll(posts);
    KeptLength(dataset);
    if r.Failure? {
      var i :| 0 <= i < |posts| && Project(posts[i]) == Failure(r.error);
      FlairedFailsOnOtherKey(posts[i]);
    }
    if r.Success? {
      forall f | f in r.value
        ensures exists p :: p in dataset && Flair in p && Project(p) == Success(f)
      {
        var i :| 0 <= i < |r.value| && r.value[i] == f;
        assert posts[i] in posts;
      }
    } else {
      var i :| 0 <= i < |posts| && Project(posts[i]) == Failure(r.error);
      assert posts[i] in dataset && Flair in posts[i] && !HasWantedKeys(posts[i]);
    }
  }

  /** A dataset without a flaired post preprocesses to the empty list. */
  lemma UnflairedDropped(ds: seq<RawPost>)
    requires forall p :: p in ds ==> Flair !in p
    ensures ProjectAll(KeepFirstFlaired(ds)) == Success([])
  {
    KeptMembers(ds);
  }

  /**
   * Deduplication compares whole raw posts, so two posts that agree on the
   * wanted keys but differ elsewhere both survive and project to equal records.
   */
  lemma ProjectedMayRepeat(p: RawPost, q: RawPost)
    requires p != q
    requires Author in p && CreatedUtc in p && Title in p && Flair in p
    requires Author in q && CreatedUtc in q && Title in q && Flair in q
    requires p[Author] == q[Author] && p[CreatedUtc] == q[CreatedUtc]
    requires p[Title] == q[Title] && p[Flair] == q[Flair]
    ensures
      var r := ProjectAll(KeepFirstFlaired([p, q]));
      r.Success? && |r.value| == 2 && r.value[0] == r.value[1]
  {
    assert [p, q][..1] == [p] && [p][..0] == [];
    assert KeepFirstFlaired([p]) == [p];
    assert q !in [p];
    assert KeepFirstFlaired([p, q]) == [p] + [q] == [p, q];
    assert HasWantedKeys(p) && HasWantedKeys(q);
    assert Project([p, q][0]) == Project([p, q][1]);
  }

  /**
   * The flair test is key presence only: a post whose flair is JSON `null`
   * passes it and keeps the `null` value.
   */
  lemma NullFlairKept(p: RawPost)
    requires Author in p && CreatedUtc in p && Title in p && Flair in p
    requires p[Flair] == Null
    ensures ProjectAll(KeepFirstFlaired([p])) ==
      Success([FilteredPost(p[Author], p[CreatedUtc], p[Title], Null)])
  {
    assert [p][..0] == [];
    assert KeepFirstFlaired([p]) == [p];
    assert HasWantedKeys(p);
    var r := ProjectAll([p]);
    assert r.Success? && |r.value| == 1 && Project([p][0]) == Success(r.value[0]);
    assert r.value == [FilteredPost(p[Author], p[CreatedUtc], p[Title], Null)];
  }
}
