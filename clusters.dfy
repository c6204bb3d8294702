/** `extractClusters`: cut the reachability plot into clusters, the maximal runs of
    tweets within the reachability threshold that are closed by a tweet above it;
    and the parts of `writeClusters` that decide what an event holds. */
module Clusters {
  import opened Config
  import opened Multimap
  import opened Tweets

  /** The entry at `k` is within the reachability threshold. */
  ghost predicate Low(tweets: map<Id, Tweet>, plot: seq<Id>, threshold: real, k: int)
    requires InArena(tweets, plot) && 0 <= k < |plot|
  {
    tweets[plot[k]].smallestReachability <= threshold
  }

  /** `plot[s..e]` is a maximal run of entries within the threshold, closed by the
      entry at `e`, and holds more than `MIN_TWEETS` tweets. */
  ghost predicate ClusterSpan(tweets: map<Id, Tweet>, plot: seq<Id>, threshold: real, s: int, e: int)
    requires InArena(tweets, plot)
  {
    && 0 <= s < e < |plot|
    && (forall k :: s <= k < e ==> Low(tweets, plot, threshold, k))
    && !Low(tweets, plot, threshold, e)
    && (s == 0 || !Low(tweets, plot, threshold, s - 1))
    && e - s > MIN_TWEETS
  }

  /** The walk over the plot with the `in_cluster` flag. `spans` names the slice of
      the plot each cluster was copied from. */
  method ExtractClusters(plot: seq<Id>, tweets: map<Id, Tweet>, threshold: real)
    returns (clusters: seq<seq<Id>>, ghost spans: seq<(int, int)>)
    requires InArena(tweets, plot)
    ensures |clusters| == |spans|
    ensures forall c :: 0 <= c < |spans| ==>
      ClusterSpan(tweets, plot, threshold, spans[c].0, spans[c].1) &&
      clusters[c] == plot[spans[c].0..spans[c].1]
    ensures forall c, d :: 0 <= c < d < |spans| ==> spans[c].1 < spans[d].0
    ensures forall s, e :: ClusterSpan(tweets, plot, threshold, s, e) ==> (s, e) in spans
  {
    clusters := [];
    spans := [];
    var inCluster := false;
    var start := 0;
    var i := 0;
    while i < |plot|
      invariant 0 <= i <= |plot|
      invariant |clusters| == |spans|
      invariant forall c :: 0 <= c < |spans| ==>
        ClusterSpan(tweets, plot, threshold, spans[c].0, spans[c].1) &&
        clusters[c] == plot[spans[c].0..spans[c].1] && spans[c].1 < i
      invariant forall c, d :: 0 <= c < d < |spans| ==> spans[c].1 < spans[d].0
      invariant inCluster ==> 0 <= start < i && (start == 0 || !Low(tweets, plot, threshold, start - 1))
      invariant inCluster ==> forall k :: start <= k < i ==> Low(tweets, plot, threshold, k)
      invariant inCluster ==> forall c :: 0 <= c < |spans| ==> spans[c].1 < start
      invariant !inCluster ==> i == 0 || !Low(tweets, plot, threshold, i - 1)
      invariant forall s, e :: e < i && ClusterSpan(tweets, plot, threshold, s, e) ==> (s, e) in spans
    {
      var low := tweets[plot[i]].smallestReachability <= threshold;
      if !inCluster && low {
        start := i;
        inCluster := true;
      } else if inCluster && !low {
        var cluster := plot[start..i];
        if |cluster| > MIN_TWEETS {
          clusters := clusters + [cluster];
          spans := spans + [(start, i)];
        }
        inCluster := false;
      }
      i := i + 1;
    }
  }

  /** A cluster never holds a tweet above the threshold, so never the delimiter,
      whose smallest reachability distance is `threshold + 1`. */
  lemma DelimiterOutsideClusters(tweets: map<Id, Tweet>, plot: seq<Id>, threshold: real,
                                 delimiter: Id, s: int, e: int)
    requires InArena(tweets, plot) && delimiter in tweets
    requires tweets[delimiter].smallestReachability == threshold + 1.0
    requires ClusterSpan(tweets, plot, threshold, s, e)
    ensures delimiter !in plot[s..e]
  {
    forall k | s <= k < e ensures plot[k] != delimiter {
      assert Low(tweets, plot, threshold, k);
    }
  }

  /** The single-author filter of `writeClusters`: an event is written only when
      some tweet of the cluster has a different author than the first. */
  method IsWritable(cluster: seq<Id>, tweets: map<Id, Tweet>) returns (write: bool)
    requires cluster != [] && InArena(tweets, cluster)
    ensures write <==> exists k :: 0 <= k < |cluster| && tweets[cluster[k]].user != tweets[cluster[0]].user
  {
    write := false;
    var firstUser := tweets[cluster[0]].user;
    var i := 0;
    while i < |cluster|
      invariant i <= |cluster|
      invariant forall k :: 0 <= k < i ==> tweets[cluster[k]].user == firstUser
    {
      if tweets[cluster[i]].user != firstUser {
        write := true;
        return;
      }
      i := i + 1;
    }
  }

  /** The authors of a cluster. */
  ghost function Users(cluster: seq<Id>, tweets: map<Id, Tweet>): set<string>
    requires InArena(tweets, cluster)
  {
    set k | 0 <= k < |cluster| :: tweets[cluster[k]].user
  }

  /** The time span and the number of distinct authors that `writeClusters` stores
      for an event. */
  method Summarize(cluster: seq<Id>, tweets: map<Id, Tweet>)
    returns (startTime: nat, endTime: nat, userCount: nat)
    requires cluster != [] && InArena(tweets, cluster)
    ensures exists k :: 0 <= k < |cluster| && tweets[cluster[k]].time == startTime
    ensures exists k :: 0 <= k < |cluster| && tweets[cluster[k]].time == endTime
    ensures forall k :: 0 <= k < |cluster| ==> startTime <= tweets[cluster[k]].time <= endTime
    ensures userCount == |Users(cluster, tweets)|
  {
    startTime := tweets[cluster[0]].time;
    endTime := startTime;
    var users: set<string> := {};
    var i := 0;
    while i < |cluster|
      invariant i <= |cluster|
      invariant exists k :: 0 <= k < |cluster| && tweets[cluster[k]].time == startTime
      invariant exists k :: 0 <= k < |cluster| && tweets[cluster[k]].time == endTime
      invariant forall k :: 0 <= k < i ==> startTime <= tweets[cluster[k]].time <= endTime
      invariant startTime <= tweets[cluster[0]].time <= endTime
      invariant users == set k | 0 <= k < i :: tweets[cluster[k]].user
    {
      var t := tweets[cluster[i]];
      if t.time < startTime {
        startTime := t.time;
      }
      if t.time > endTime {
        endTime := t.time;
      }
      users := users + {t.user};
      i := i + 1;
    }
    userCount := |users|;
  }
}
