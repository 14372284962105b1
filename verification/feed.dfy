/** One accumulation round of the recent-comics feed, at list level: which comics of a
    fetched batch survive and how they extend the feed. */
module Feed {
  import opened Options
  import opened Seqs
  import opened Comics

  /** The round's filter: the comic's id is not yet in `feed` and it has a thumbnail path and
      extension. Only the feed as it stood before the round is consulted, never the batch. */
  function Survives(feed: seq<Comic>): Comic -> bool
  {
    (c: Comic) => !HasId(feed, c.id) && Displayable(c)
  }

  /** The comics of `batch` that a round appends, in batch order. */
  function Arrivals(feed: seq<Comic>, batch: seq<Comic>): (r: seq<Comic>)
    ensures IsSubseq(r, batch)
    ensures forall c :: c in r <==> c in batch && !HasId(feed, c.id) && Displayable(c)
    ensures forall c :: multiset(r)[c] == if Survives(feed)(c) then multiset(batch)[c] else 0
  {
    FilterIsSubseq(batch, Survives(feed));
    FilterCount(batch, Survives(feed));
    Filter(batch, Survives(feed))
  }

  /** The feed after a round that fetched `batch`: unchanged when nothing survives, otherwise
      the survivors appended. */
  function Extend(feed: seq<Comic>, batch: seq<Comic>): (r: seq<Comic>)
    ensures |r| >= |feed| && r[..|feed|] == feed
    ensures IsSubseq(r[|feed|..], batch)
    ensures forall c :: c in r[|feed|..] <==> c in batch && !HasId(feed, c.id) && Displayable(c)
  {
    FilterIsSubseq(batch, Survives(feed));
    var arrived := Filter(batch, Survives(feed));
    if |arrived| == 0 then feed
    else
      assert (feed + arrived)[|feed|..] == arrived;
      feed + arrived
  }

  /** The part a round appends is exactly the round's arrivals. */
  lemma ExtendAppendsArrivals(feed: seq<Comic>, batch: seq<Comic>)
    ensures Extend(feed, batch) == feed + Arrivals(feed, batch)
  {
  }

  /** The count a round appends is the batch size less the comics it turns away. */
  lemma ArrivalCount(feed: seq<Comic>, batch: seq<Comic>)
    ensures |Extend(feed, batch)| - |feed| == |batch| - |Filter(batch, Not(Survives(feed)))|
  {
    FilterPartition(batch, Survives(feed));
    assert Extend(feed, batch)[|feed|..] == Filter(batch, Survives(feed));
  }

  /** Filtering a list whose ids are distinct leaves them distinct. */
  lemma {:induction false} FilterKeepsDistinct(s: seq<Comic>, p: Comic -> bool)
    requires DistinctIds(s)
    ensures DistinctIds(Filter(s, p))
    decreases |s|
  {
    if |s| > 0 {
      FilterKeepsDistinct(s[1..], p);
      var rest := Filter(s[1..], p);
      if p(s[0]) {
        forall j | 0 <= j < |rest|
          ensures rest[j].id != s[0].id
        {
          assert rest[j] in s[1..];
        }
      }
    }
  }

  /** A round keeps the feed free of duplicate ids, provided the batch itself has none: the
      filter compares each comic with the prior feed only, not with earlier batch entries. */
  lemma ExtendKeepsDistinct(feed: seq<Comic>, batch: seq<Comic>)
    requires DistinctIds(feed) && DistinctIds(batch)
    ensures DistinctIds(Extend(feed, batch))
  {
    var arrived := Filter(batch, Survives(feed));
    FilterKeepsDistinct(batch, Survives(feed));
    var r := Extend(feed, batch);
    if |arrived| > 0 {
      forall i, j | 0 <= i < j < |r|
        ensures r[i].id != r[j].id
      {
        if j >= |feed| {
          assert r[j] == arrived[j - |feed|];
          if i < |feed| {
            assert r[j] in arrived;
            assert r[i] == feed[i];
          } else {
            assert r[i] == arrived[i - |feed|];
          }
        }
      }
    }
  }

  /** Without distinct ids in the batch the round can create a duplicate: one displayable comic
      fetched twice is appended twice to an empty feed. */
  lemma DuplicateBatchDuplicatesFeed()
    ensures exists feed, batch :: DistinctIds(feed) && !DistinctIds(Extend(feed, batch))
  {
    var c := Comic(1, "", "", Some(Thumbnail("p", "jpg")), []);
    var batch := [c, c];
    assert Survives([])(c);
    assert Filter(batch, Survives([])) == [c, c];
    assert Extend([], batch) == [c, c];
    assert DistinctIds([]);
  }
}
