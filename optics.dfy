/** The two OPTICS quantities the clustering keeps per tweet: the core distance
    (from the neighbour multimap) and the smallest reachability distance (from the
    neighbours' core distances and the cached pair distances). */
module Optics {
  import opened Multimap
  import opened Tweets

  /** Core distance: `epsilon + 1` (not a core object) with fewer than `minPts`
      neighbours, otherwise the key of the `minPts`-th entry in ascending order. */
  function CoreDistance(neighbors: seq<Entry>, minPts: nat, epsilon: real): real
    requires minPts >= 1
  {
    if |neighbors| < minPts then epsilon + 1.0 else neighbors[minPts - 1].0
  }

  /** Number of entries whose key is at most `d`. */
  function CountWithin(s: seq<Entry>, d: real): nat {
    if s == [] then 0 else (if s[0].0 <= d then 1 else 0) + CountWithin(s[1..], d)
  }

  /** Number of entries whose key is below `d`. */
  function CountBelow(s: seq<Entry>, d: real): nat {
    if s == [] then 0 else (if s[0].0 < d then 1 else 0) + CountBelow(s[1..], d)
  }

  /** In a sorted multimap the key at position `k` has at least `k + 1` entries at or
      below it and at most `k` entries strictly below it. */
  lemma {:induction false} KeyRank(s: seq<Entry>, k: nat)
    requires Sorted(s) && k < |s|
    ensures CountWithin(s, s[k].0) >= k + 1
    ensures CountBelow(s, s[k].0) <= k
  {
    if k == 0 {
      NoneBelow(s[1..], s[0].0);
    } else {
      assert Sorted(s[1..]);
      KeyRank(s[1..], k - 1);
      assert s[1..][k - 1] == s[k];
    }
  }

  lemma {:induction false} NoneBelow(s: seq<Entry>, d: real)
    requires forall i :: 0 <= i < |s| ==> s[i].0 >= d
    ensures CountBelow(s, d) == 0
  {
    if s != [] {
      NoneBelow(s[1..], d);
    }
  }

  /** The core distance of a tweet with at least `minPts` neighbours is the
      `minPts`-th smallest neighbour distance: `minPts` neighbours lie within it and
      fewer than `minPts` lie strictly closer. */
  lemma CoreDistanceIsKthSmallest(neighbors: seq<Entry>, minPts: nat, epsilon: real)
    requires minPts >= 1 && Sorted(neighbors) && |neighbors| >= minPts
    ensures CountWithin(neighbors, CoreDistance(neighbors, minPts, epsilon)) >= minPts
    ensures CountBelow(neighbors, CoreDistance(neighbors, minPts, epsilon)) < minPts
  {
    KeyRank(neighbors, minPts - 1);
  }

  /** With every neighbour within `epsilon`, a tweet is a core object (core distance
      at most `epsilon`) exactly when it has at least `minPts` neighbours. */
  lemma CoreIffEnoughNeighbors(neighbors: seq<Entry>, minPts: nat, epsilon: real)
    requires minPts >= 1
    requires forall i :: 0 <= i < |neighbors| ==> neighbors[i].0 <= epsilon
    ensures CoreDistance(neighbors, minPts, epsilon) <= epsilon <==> |neighbors| >= minPts
  {
  }

  /** The reachability step of the smallest-reachability loop as written: through a
      core neighbour at distance `d` with core distance `neighborCore`, the tweet's
      own core distance is taken when `d` does not exceed `neighborCore`. */
  function ReachAsWritten(d: real, neighborCore: real, ownCore: real): real {
    if d > neighborCore then d else ownCore
  }

  /** The OPTICS reachability distance through a core neighbour:
      the larger of the pair distance and the neighbour's core distance. */
  function Reach(d: real, neighborCore: real): real {
    if d > neighborCore then d else neighborCore
  }

  datatype Rule = AsWritten | Intended

  function Candidate(rule: Rule, d: real, neighborCore: real, ownCore: real): real {
    match rule
    case AsWritten => ReachAsWritten(d, neighborCore, ownCore)
    case Intended => Reach(d, neighborCore)
  }

  /** Every neighbour has a cached distance and a known core distance. */
  ghost predicate Known(neighbors: seq<Entry>, distances: map<Id, real>, cores: map<Id, real>) {
    forall i :: 0 <= i < |neighbors| ==> neighbors[i].1 in distances && neighbors[i].1 in cores
  }

  /** The smallest reachability distance after the loop has visited `neighbors`:
      start at `epsilon + 1`, skip non-core neighbours, keep the minimum candidate. */
  ghost function SmallestReach(rule: Rule, neighbors: seq<Entry>, distances: map<Id, real>,
                               cores: map<Id, real>, ownCore: real, epsilon: real): real
    requires Known(neighbors, distances, cores)
  {
    if neighbors == [] then epsilon + 1.0
    else
      var best := SmallestReach(rule, neighbors[..|neighbors| - 1], distances, cores, ownCore, epsilon);
      var q := neighbors[|neighbors| - 1].1;
      if cores[q] > epsilon then best
      else
        var r := Candidate(rule, distances[q], cores[q], ownCore);
        if best > r then r else best
  }

  /** Under either rule the smallest reachability distance is the least candidate
      through a core neighbour, or `epsilon + 1` when no neighbour is a core object. */
  lemma {:induction false} SmallestReachIsMinimum(rule: Rule, neighbors: seq<Entry>, distances: map<Id, real>,
                                                  cores: map<Id, real>, ownCore: real, epsilon: real)
    requires Known(neighbors, distances, cores)
    ensures var srd := SmallestReach(rule, neighbors, distances, cores, ownCore, epsilon);
      && srd <= epsilon + 1.0
      && (forall i :: 0 <= i < |neighbors| && cores[neighbors[i].1] <= epsilon ==>
            srd <= Candidate(rule, distances[neighbors[i].1], cores[neighbors[i].1], ownCore))
      && (srd == epsilon + 1.0 ||
          exists i :: 0 <= i < |neighbors| && cores[neighbors[i].1] <= epsilon &&
                      srd == Candidate(rule, distances[neighbors[i].1], cores[neighbors[i].1], ownCore))
  {
    if neighbors != [] {
      var n := |neighbors| - 1;
      var init := neighbors[..n];
      assert Known(init, distances, cores) by {
        forall i | 0 <= i < |init| ensures init[i] == neighbors[i] { }
      }
      SmallestReachIsMinimum(rule, init, distances, cores, ownCore, epsilon);
      var best := SmallestReach(rule, init, distances, cores, ownCore, epsilon);
      var srd := SmallestReach(rule, neighbors, distances, cores, ownCore, epsilon);
      forall i | 0 <= i < |neighbors| && cores[neighbors[i].1] <= epsilon
        ensures srd <= Candidate(rule, distances[neighbors[i].1], cores[neighbors[i].1], ownCore)
      {
        if i < n {
          assert init[i] == neighbors[i];
        }
      }
      if srd != epsilon + 1.0 && srd != Candidate(rule, distances[neighbors[n].1], cores[neighbors[n].1], ownCore) {
        assert srd == best;
        var j :| 0 <= j < |init| && cores[init[j].1] <= epsilon &&
                 best == Candidate(rule, distances[init[j].1], cores[init[j].1], ownCore);
        assert init[j] == neighbors[j];
      }
    }
  }

  /** With every neighbour within `epsilon`, a tweet is within `epsilon` of the
      density-connected structure (not noise) exactly when one of its neighbours is
      a core object. */
  lemma {:induction false} ReachableIffCoreNeighbor(neighbors: seq<Entry>, distances: map<Id, real>,
                                                   cores: map<Id, real>, ownCore: real, epsilon: real)
    requires Known(neighbors, distances, cores)
    requires forall i :: 0 <= i < |neighbors| ==> distances[neighbors[i].1] <= epsilon
    ensures SmallestReach(Intended, neighbors, distances, cores, ownCore, epsilon) <= epsilon <==>
      exists i :: 0 <= i < |neighbors| && cores[neighbors[i].1] <= epsilon
  {
    SmallestReachIsMinimum(Intended, neighbors, distances, cores, ownCore, epsilon);
  }

  /** As written, with every neighbour within `epsilon`, a tweet is within `epsilon`
      exactly when it has a core neighbour that is farther from it than that
      neighbour's core distance, or a core neighbour at all while the tweet is itself
      a core object. */
  lemma {:induction false} ReachableAsWritten(neighbors: seq<Entry>, distances: map<Id, real>,
                                             cores: map<Id, real>, ownCore: real, epsilon: real)
    requires Known(neighbors, distances, cores)
    requires forall i :: 0 <= i < |neighbors| ==> distances[neighbors[i].1] <= epsilon
    ensures SmallestReach(AsWritten, neighbors, distances, cores, ownCore, epsilon) <= epsilon <==>
      exists i :: 0 <= i < |neighbors| && cores[neighbors[i].1] <= epsilon &&
                  (distances[neighbors[i].1] > cores[neighbors[i].1] || ownCore <= epsilon)
  {
    SmallestReachIsMinimum(AsWritten, neighbors, distances, cores, ownCore, epsilon);
  }

  /** As written, a border tweet (not itself a core object) whose only neighbour is
      a core object at exactly that neighbour's core distance is left as noise,
      although it is directly density-reachable from that neighbour. */
  lemma AsWrittenDropsBorderTweet()
    ensures var neighbors := [(0.2, 1)];
            var distances := map[1 := 0.2];
            var cores := map[1 := 0.2];
      && Known(neighbors, distances, cores)
      && SmallestReach(AsWritten, neighbors, distances, cores, 1.5, 0.5) == 1.5
      && SmallestReach(Intended, neighbors, distances, cores, 1.5, 0.5) == 0.2
  {
    var neighbors := [(0.2, 1)];
    assert neighbors[..0] == [];
  }

  /** The core distances of all tweets of an arena. */
  ghost function Cores(tweets: map<Id, Tweet>): map<Id, real> {
    map id | id in tweets :: tweets[id].coreDistance
  }

  /** The inner loop of the smallest-reachability pass over one tweet's neighbours,
      under the given reachability rule (the daemon runs `AsWritten`). */
  method SmallestReachability(rule: Rule, t: Tweet, tweets: map<Id, Tweet>, epsilon: real) returns (srd: real)
    requires Known(t.neighbors, t.distances, Cores(tweets))
    ensures srd == SmallestReach(rule, t.neighbors, t.distances, Cores(tweets), t.coreDistance, epsilon)
  {
    srd := epsilon + 1.0;
    var i := 0;
    while i < |t.neighbors|
      invariant i <= |t.neighbors|
      invariant Known(t.neighbors[..i], t.distances, Cores(tweets))
      invariant srd == SmallestReach(rule, t.neighbors[..i], t.distances, Cores(tweets), t.coreDistance, epsilon)
    {
      var q := t.neighbors[i].1;
      assert t.neighbors[..i + 1][..i] == t.neighbors[..i];
      // a tweet cannot be directly density-reachable from a non-core object
      if tweets[q].coreDistance <= epsilon {
        var d := t.distances[q];
        var reachability;
        if d > tweets[q].coreDistance {
          reachability := d;
        } else if rule == AsWritten {
          reachability := t.coreDistance;
        } else {
          reachability := tweets[q].coreDistance;
        }
        if srd > reachability {
          srd := reachability;
        }
      }
      i := i + 1;
    }
    assert t.neighbors[..i] == t.neighbors;
  }
}
