/** What the clustering keeps between two tweets: the cached distance
    (`optics_distances`, both ways) and, within `epsilon`, the neighbour entries
    (`optics_neighbors`, both ways). These are the invariants every operation of
    the engine preserves. */
module Links {
  import opened Multimap
  import opened Tweets

  /** Every tweet has a rate for exactly its words, each of them a frequency. */
  ghost predicate Rated(tweets: map<Id, Tweet>) {
    forall a :: a in tweets ==> tweets[a].regionalRates.Keys == tweets[a].words && RatesAreFractions(tweets[a])
  }

  /** The neighbour multimap of `a` is sorted, refers to each tweet once, never to
      `a` itself, only to live tweets, and keys each of them by the cached distance. */
  ghost predicate Entries(tweets: map<Id, Tweet>, a: Id)
    requires a in tweets
  {
    var t := tweets[a];
    && Sorted(t.neighbors) && NoDupIds(t.neighbors) && a !in t.distances
    && forall e :: e in t.neighbors ==> e.1 in tweets && e.1 in t.distances && t.distances[e.1] == e.0
  }

  /** A distance cached on one side is cached on the other with the same value, and
      the pair are neighbours exactly when that distance is within `epsilon`. */
  ghost predicate Pair(tweets: map<Id, Tweet>, a: Id, b: Id, epsilon: real)
    requires a in tweets && b in tweets
  {
    b in tweets[a].distances ==>
      && a in tweets[b].distances && tweets[b].distances[a] == tweets[a].distances[b]
      && (b in Ids(tweets[a].neighbors) <==> tweets[a].distances[b] <= epsilon)
  }

  ghost predicate Linked(tweets: map<Id, Tweet>, epsilon: real) {
    && (forall a :: a in tweets ==> Entries(tweets, a))
    && (forall a, b :: a in tweets && b in tweets ==> Pair(tweets, a, b, epsilon))
  }

  /** Every cached distance between two live tweets is their distance. */
  ghost predicate Cached(tweets: map<Id, Tweet>, epsilon: real)
    requires Rated(tweets)
  {
    forall a, b :: a in tweets && b in tweets && b in tweets[a].distances ==>
      tweets[a].distances[b] == OpticsDistance(tweets[a], tweets[b], epsilon)
  }

  /** Every id in use, live or cached, was handed out before `nextId`. */
  ghost predicate Fresh(tweets: map<Id, Tweet>, nextId: Id) {
    forall a :: a in tweets ==> a < nextId && forall b :: b in tweets[a].distances ==> b < nextId
  }

  ghost predicate Consistent(tweets: map<Id, Tweet>, epsilon: real, nextId: Id) {
    Rated(tweets) && Linked(tweets, epsilon) && Cached(tweets, epsilon) && Fresh(tweets, nextId)
  }

  /** Two arenas holding the same tweets with the same texts. */
  ghost predicate SameTexts(a: map<Id, Tweet>, b: map<Id, Tweet>) {
    a.Keys == b.Keys && forall id :: id in a ==> SameText(a[id], b[id])
  }

  /** The neighbour relation the invariants give: every entry of `a` is a live
      tweet other than `a` at the distance of the pair, within `epsilon`, and has
      `a` among its own neighbours. */
  lemma NeighborsAreMutual(tweets: map<Id, Tweet>, epsilon: real, a: Id, e: Entry)
    requires Rated(tweets) && Linked(tweets, epsilon) && Cached(tweets, epsilon)
    requires a in tweets && e in tweets[a].neighbors
    ensures e.1 in tweets && e.1 != a
    ensures e.0 == OpticsDistance(tweets[a], tweets[e.1], epsilon) && e.0 <= epsilon
    ensures a in Ids(tweets[e.1].neighbors)
  {
    assert Entries(tweets, a);
    var b := e.1;
    assert b in Ids(tweets[a].neighbors);
    assert Pair(tweets, a, b, epsilon);
    assert Pair(tweets, b, a, epsilon);
  }

  /** Accepted neighbours are genuinely similar: with every rate a frequency and
      `epsilon` below `epsilon + 1`, a neighbour's distance lies in [0, 1). */
  lemma NeighborDistanceInRange(tweets: map<Id, Tweet>, epsilon: real, a: Id, e: Entry)
    requires Rated(tweets) && Linked(tweets, epsilon) && Cached(tweets, epsilon)
    requires a in tweets && e in tweets[a].neighbors
    ensures 0.0 <= e.0 < 1.0
  {
    NeighborsAreMutual(tweets, epsilon, a, e);
    DistanceBounds(tweets[a], tweets[e.1], epsilon);
  }

  /** Dropping tweets, or changing fields of the survivors other than their texts
      and caches, keeps every cached distance valid. */
  lemma SameTextsKeepCached(a: map<Id, Tweet>, b: map<Id, Tweet>, epsilon: real)
    requires Rated(a) && Cached(a, epsilon) && b.Keys <= a.Keys
    requires forall x :: x in b ==> SameText(a[x], b[x]) && b[x].distances == a[x].distances
    ensures Rated(b) && Cached(b, epsilon)
  {
    forall x, y | x in b && y in b && y in b[x].distances
      ensures b[x].distances[y] == OpticsDistance(b[x], b[y], epsilon)
    {
      DistanceOfSameText(a[x], a[y], b[x], b[y], epsilon);
    }
  }
}
