/** The two passes of `updateTweets` over the window once the new tweets are in:
    first the core distance, then the smallest reachability distance, of every
    tweet marked for update; the second pass clears the mark. */
module Passes {
  import opened Multimap
  import opened Tweets
  import opened Optics
  import opened Arena
  import opened Links

  /** Only the clustering state differs: same tweets, places, words, rates,
      neighbours and cached distances. */
  ghost predicate SameLinks(a: map<Id, Tweet>, b: map<Id, Tweet>) {
    && SamePlaces(a, b)
    && forall id :: id in a ==>
         && a[id].regionalRates == b[id].regionalRates
         && a[id].neighbors == b[id].neighbors && a[id].distances == b[id].distances
  }

  /** A tweet after the core pass visited it. */
  function WithCore(t: Tweet, minPts: nat, epsilon: real): Tweet
    requires minPts >= 1
  {
    if t.requireUpdate then t.(coreDistance := CoreDistance(t.neighbors, minPts, epsilon)) else t
  }

  ghost function CoresUpdated(tweets: map<Id, Tweet>, queue: seq<Id>, minPts: nat, epsilon: real): (r: map<Id, Tweet>)
    requires minPts >= 1
    ensures SameLinks(tweets, r)
    ensures forall id :: id in r ==> r[id].requireUpdate == tweets[id].requireUpdate
  {
    map id | id in tweets :: if id in queue then WithCore(tweets[id], minPts, epsilon) else tweets[id]
  }

  /** The core distance loop. */
  method CorePass(tweets: map<Id, Tweet>, queue: seq<Id>, minPts: nat, epsilon: real)
    returns (after: map<Id, Tweet>)
    requires minPts >= 1 && InArena(tweets, queue)
    ensures after == CoresUpdated(tweets, queue, minPts, epsilon)
  {
    after := tweets;
    var i := 0;
    while i < |queue|
      invariant i <= |queue|
      invariant after.Keys == tweets.Keys
      invariant forall id :: id in tweets ==>
        after[id] == if id in queue[..i] then WithCore(tweets[id], minPts, epsilon) else tweets[id]
    {
      var id := queue[i];
      var t := after[id];
      if t.requireUpdate {
        if |t.neighbors| < minPts {
          // non-core objects are marked by a core distance beyond epsilon
          after := after[id := t.(coreDistance := epsilon + 1.0)];
        } else {
          after := after[id := t.(coreDistance := t.neighbors[minPts - 1].0)];
        }
      }
      assert queue[..i + 1] == queue[..i] + [id];
      i := i + 1;
    }
    assert queue[..i] == queue;
  }

  /** Every tweet's neighbours have a cached distance and are live. */
  ghost predicate AllKnown(tweets: map<Id, Tweet>) {
    forall id :: id in tweets ==> Known(tweets[id].neighbors, tweets[id].distances, Cores(tweets))
  }

  /** A tweet after the smallest reachability pass visited it. */
  ghost function WithReach(rule: Rule, t: Tweet, cores: map<Id, real>, epsilon: real): Tweet
    requires Known(t.neighbors, t.distances, cores)
  {
    if t.requireUpdate then
      t.(smallestReachability := SmallestReach(rule, t.neighbors, t.distances, cores, t.coreDistance, epsilon),
         requireUpdate := false)
    else t
  }

  ghost function ReachesUpdated(rule: Rule, tweets: map<Id, Tweet>, queue: seq<Id>, epsilon: real): (r: map<Id, Tweet>)
    requires AllKnown(tweets)
    ensures SameLinks(tweets, r)
    ensures forall id :: id in r ==> r[id].coreDistance == tweets[id].coreDistance
  {
    map id | id in tweets :: if id in queue then WithReach(rule, tweets[id], Cores(tweets), epsilon) else tweets[id]
  }

  /** The smallest reachability loop. */
  method ReachPass(rule: Rule, tweets: map<Id, Tweet>, queue: seq<Id>, epsilon: real) returns (after: map<Id, Tweet>)
    requires InArena(tweets, queue) && AllKnown(tweets)
    ensures after == ReachesUpdated(rule, tweets, queue, epsilon)
  {
    after := tweets;
    var i := 0;
    while i < |queue|
      invariant i <= |queue|
      invariant after.Keys == tweets.Keys
      invariant forall id :: id in tweets ==>
        after[id] == if id in queue[..i] then WithReach(rule, tweets[id], Cores(tweets), epsilon) else tweets[id]
    {
      var id := queue[i];
      var t := after[id];
      if t.requireUpdate {
        assert t == tweets[id];
        assert Cores(after) == Cores(tweets) by {
          forall q | q in tweets ensures after[q].coreDistance == tweets[q].coreDistance { }
        }
        var srd := SmallestReachability(rule, t, after, epsilon);
        after := after[id := t.(smallestReachability := srd, requireUpdate := false)];
      }
      assert queue[..i + 1] == queue[..i] + [id];
      i := i + 1;
    }
    assert queue[..i] == queue;
  }

  /** Every neighbour entry of a linked arena is within epsilon. */
  lemma NeighborsWithin(tweets: map<Id, Tweet>, epsilon: real, id: Id)
    requires Linked(tweets, epsilon) && id in tweets
    ensures var t := tweets[id];
      && Known(t.neighbors, t.distances, Cores(tweets))
      && forall i :: 0 <= i < |t.neighbors| ==>
           t.neighbors[i].0 <= epsilon && t.distances[t.neighbors[i].1] <= epsilon
  {
    var t := tweets[id];
    assert Entries(tweets, id);
    forall i | 0 <= i < |t.neighbors|
      ensures t.neighbors[i].1 in t.distances && t.neighbors[i].1 in Cores(tweets)
      ensures t.neighbors[i].0 <= epsilon && t.distances[t.neighbors[i].1] <= epsilon
    {
      var e := t.neighbors[i];
      assert e in t.neighbors && e.1 in Ids(t.neighbors);
      assert Pair(tweets, id, e.1, epsilon);
    }
  }

  lemma LinkedIsKnown(tweets: map<Id, Tweet>, epsilon: real)
    requires Linked(tweets, epsilon)
    ensures AllKnown(tweets)
  {
    forall id | id in tweets ensures Known(tweets[id].neighbors, tweets[id].distances, Cores(tweets)) {
      NeighborsWithin(tweets, epsilon, id);
    }
  }

  /** The passes change no link, so the arena stays consistent. */
  lemma SameLinksKeepConsistent(a: map<Id, Tweet>, b: map<Id, Tweet>, epsilon: real, nextId: Id)
    requires Consistent(a, epsilon, nextId) && SameLinks(a, b)
    ensures Consistent(b, epsilon, nextId)
  {
    forall x | x in b ensures Entries(b, x) {
      assert Entries(a, x);
    }
    forall x, y | x in b && y in b ensures Pair(b, x, y, epsilon) {
      assert Pair(a, x, y, epsilon);
    }
    SameTextsKeepCached(a, b, epsilon);
  }

  /** After the core pass, a tweet marked for update is a core object exactly when
      it has at least `minPts` neighbours, and then its core distance is the
      `minPts`-th smallest neighbour distance. */
  lemma CorePassFindsCores(tweets: map<Id, Tweet>, queue: seq<Id>, minPts: nat, epsilon: real, id: Id)
    requires minPts >= 1 && Linked(tweets, epsilon)
    requires id in queue && id in tweets && tweets[id].requireUpdate
    ensures var t := CoresUpdated(tweets, queue, minPts, epsilon)[id];
      && (t.coreDistance <= epsilon <==> |t.neighbors| >= minPts)
      && (|t.neighbors| >= minPts ==>
            CountWithin(t.neighbors, t.coreDistance) >= minPts && CountBelow(t.neighbors, t.coreDistance) < minPts)
  {
    var s := tweets[id].neighbors;
    NeighborsWithin(tweets, epsilon, id);
    CoreIffEnoughNeighbors(s, minPts, epsilon);
    assert Entries(tweets, id);
    if |s| >= minPts {
      CoreDistanceIsKthSmallest(s, minPts, epsilon);
    }
  }

  /** After the reachability pass, a tweet marked for update is no longer marked and
      has as smallest reachability distance the least candidate through its core
      neighbours. As written, it is not noise exactly when it has a core neighbour
      farther from it than that neighbour's core distance, or any core neighbour
      while it is itself a core object; under the intended rule, exactly when it
      has a core neighbour. */
  lemma ReachPassFindsReachable(rule: Rule, tweets: map<Id, Tweet>, queue: seq<Id>, epsilon: real, id: Id)
    requires Linked(tweets, epsilon)
    requires id in queue && id in tweets && tweets[id].requireUpdate
    ensures AllKnown(tweets)
    ensures var t := ReachesUpdated(rule, tweets, queue, epsilon)[id];
      && !t.requireUpdate
      && (forall i :: 0 <= i < |t.neighbors| && tweets[t.neighbors[i].1].coreDistance <= epsilon ==>
            t.smallestReachability <=
              Candidate(rule, t.distances[t.neighbors[i].1], tweets[t.neighbors[i].1].coreDistance, t.coreDistance))
      && (rule == AsWritten ==>
            (t.smallestReachability <= epsilon <==>
               exists i :: 0 <= i < |t.neighbors| && tweets[t.neighbors[i].1].coreDistance <= epsilon &&
                 (t.distances[t.neighbors[i].1] > tweets[t.neighbors[i].1].coreDistance || t.coreDistance <= epsilon)))
      && (rule == Intended ==>
            (t.smallestReachability <= epsilon <==>
               exists i :: 0 <= i < |t.neighbors| && tweets[t.neighbors[i].1].coreDistance <= epsilon))
  {
    LinkedIsKnown(tweets, epsilon);
    var t := tweets[id];
    NeighborsWithin(tweets, epsilon, id);
    SmallestReachIsMinimum(rule, t.neighbors, t.distances, Cores(tweets), t.coreDistance, epsilon);
    if rule == AsWritten {
      ReachableAsWritten(t.neighbors, t.distances, Cores(tweets), t.coreDistance, epsilon);
    } else {
      ReachableIffCoreNeighbor(t.neighbors, t.distances, Cores(tweets), t.coreDistance, epsilon);
    }
  }

  /** Every tweet of the window not marked for update has the core distance of its
      current neighbours: whatever changes a tweet's neighbours marks it. */
  ghost predicate CoresCurrent(tweets: map<Id, Tweet>, queue: seq<Id>, minPts: nat, epsilon: real)
    requires minPts >= 1
  {
    forall id :: id in queue && id in tweets ==>
      tweets[id].requireUpdate || tweets[id].coreDistance == CoreDistance(tweets[id].neighbors, minPts, epsilon)
  }

  /** After both passes no tweet of the window is marked and every one of them has
      the core distance of its neighbours. */
  lemma PassesSettle(rule: Rule, tweets: map<Id, Tweet>, queue: seq<Id>, minPts: nat, epsilon: real)
    requires minPts >= 1 && CoresCurrent(tweets, queue, minPts, epsilon)
    requires AllKnown(CoresUpdated(tweets, queue, minPts, epsilon))
    ensures var after := ReachesUpdated(rule, CoresUpdated(tweets, queue, minPts, epsilon), queue, epsilon);
      forall id :: id in queue && id in after ==>
        !after[id].requireUpdate && after[id].coreDistance == CoreDistance(after[id].neighbors, minPts, epsilon)
  {
    var mid := CoresUpdated(tweets, queue, minPts, epsilon);
    var after := ReachesUpdated(rule, mid, queue, epsilon);
    forall id | id in queue && id in after
      ensures !after[id].requireUpdate && after[id].coreDistance == CoreDistance(after[id].neighbors, minPts, epsilon)
    {
      assert mid[id] == WithCore(tweets[id], minPts, epsilon);
      assert after[id] == WithReach(rule, mid[id], Cores(mid), epsilon);
    }
  }
}
