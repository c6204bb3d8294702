/** `getReachabilityPlot`: order the non-noise tweets of the window into trees, each
    tree opened by the delimiter, grown from a seed through a frontier that pops
    the entry with the largest key first and branches only through core tweets. */
module Plot {
  import opened Multimap
  import opened Tweets

  /** The tweets of the window that are not noise. */
  ghost function NonNoise(tweets: map<Id, Tweet>, queue: seq<Id>, epsilon: real): set<Id>
    requires InArena(tweets, queue)
  {
    set i | 0 <= i < |queue| && tweets[queue[i]].smallestReachability <= epsilon :: queue[i]
  }

  /** Every entry other than the delimiter is a tweet of the arena. */
  ghost predicate Plotted(tweets: map<Id, Tweet>, plot: seq<Id>, delimiter: Id) {
    forall k :: 0 <= k < |plot| && plot[k] != delimiter ==> plot[k] in tweets
  }

  /** No tweet appears twice. */
  ghost predicate Once(plot: seq<Id>, delimiter: Id) {
    forall i, j :: 0 <= i < j < |plot| && plot[i] == plot[j] ==> plot[i] == delimiter
  }

  /** The plot opens with the delimiter, never ends with one, and every delimiter is
      followed by a tweet: each tree is preceded by exactly one delimiter. */
  ghost predicate Delimited(plot: seq<Id>, delimiter: Id) {
    && (plot != [] ==> plot[0] == delimiter && plot[|plot| - 1] != delimiter)
    && forall i :: 0 <= i < |plot| - 1 && plot[i] == delimiter ==> plot[i + 1] != delimiter
  }

  /** Entry `i` is the seed of its tree. */
  ghost predicate IsSeed(plot: seq<Id>, delimiter: Id, i: int) {
    0 < i < |plot| && plot[i - 1] == delimiter && plot[i] != delimiter
  }

  /** A seed has the smallest smallest-reachability distance of all tweets placed
      after it. */
  ghost predicate SeedsFirst(tweets: map<Id, Tweet>, plot: seq<Id>, delimiter: Id)
    requires Plotted(tweets, plot, delimiter)
  {
    forall i, k :: IsSeed(plot, delimiter, i) && i < k < |plot| && plot[k] != delimiter ==>
      tweets[plot[i]].smallestReachability <= tweets[plot[k]].smallestReachability
  }

  /** Entry `i` was pushed by a core tweet placed earlier in the same tree. */
  ghost predicate Acquired(tweets: map<Id, Tweet>, plot: seq<Id>, delimiter: Id, epsilon: real, i: int)
    requires 0 <= i < |plot|
  {
    exists j :: 0 <= j < i && plot[j] in tweets &&
      (forall k :: j <= k <= i ==> plot[k] != delimiter) &&
      tweets[plot[j]].coreDistance <= epsilon && plot[i] in Ids(tweets[plot[j]].neighbors)
  }

  /** `id` is a neighbour of a core tweet placed at or after `start`. */
  ghost predicate HasParent(tweets: map<Id, Tweet>, plot: seq<Id>, start: nat, epsilon: real, id: Id) {
    exists j :: start <= j < |plot| && plot[j] in tweets &&
      tweets[plot[j]].coreDistance <= epsilon && id in Ids(tweets[plot[j]].neighbors)
  }

  /** The seed search: among the tweets still to process, one whose smallest
      reachability distance is the least. */
  method ChooseSeed(tweets: map<Id, Tweet>, toProcess: set<Id>, epsilon: real) returns (seed: Id)
    requires toProcess != {} && toProcess <= tweets.Keys
    requires forall t :: t in toProcess ==> tweets[t].smallestReachability <= epsilon
    ensures seed in toProcess
    ensures forall t :: t in toProcess ==> tweets[seed].smallestReachability <= tweets[t].smallestReachability
  {
    var smallest := epsilon + 1.0;
    // stands for the uninitialised pointer: the first tweet visited always replaces it
    seed := 0;
    var rest := toProcess;
    while rest != {}
      invariant rest <= toProcess
      invariant rest != toProcess ==> seed in toProcess && tweets[seed].smallestReachability == smallest
      invariant rest == toProcess ==> smallest == epsilon + 1.0
      invariant forall t :: t in toProcess - rest ==> smallest <= tweets[t].smallestReachability
    {
      var t :| t in rest;
      if smallest >= tweets[t].smallestReachability {
        smallest := tweets[t].smallestReachability;
        seed := t;
      }
      rest := rest - {t};
    }
  }

  /** `priority_queue::top` then `pop`: remove an entry with the largest key (the
      first such entry in push order). */
  method PopTop(nodes: seq<Entry>) returns (top: Entry, rest: seq<Entry>)
    requires nodes != []
    ensures exists k :: 0 <= k < |nodes| && top == nodes[k] && rest == nodes[..k] + nodes[k + 1..]
    ensures forall k :: 0 <= k < |nodes| ==> nodes[k].0 <= top.0
  {
    var best := 0;
    var k := 1;
    while k < |nodes|
      invariant best < k <= |nodes|
      invariant forall j :: 0 <= j < k ==> nodes[j].0 <= nodes[best].0
    {
      if nodes[k].0 > nodes[best].0 {
        best := k;
      }
      k := k + 1;
    }
    top := nodes[best];
    rest := nodes[..best] + nodes[best + 1..];
  }

  lemma PopKeepsIds(nodes: seq<Entry>, k: nat)
    requires k < |nodes| && NoDupIds(nodes)
    ensures NoDupIds(nodes[..k] + nodes[k + 1..])
    ensures Ids(nodes[..k] + nodes[k + 1..]) == Ids(nodes) - {nodes[k].1}
  {
    var rest := nodes[..k] + nodes[k + 1..];
    forall i, j | 0 <= i < j < |rest| ensures rest[i].1 != rest[j].1 {
      if j < k {
      } else if i < k {
        assert rest[i] == nodes[i] && rest[j] == nodes[j + 1];
      } else {
        assert rest[i] == nodes[i + 1] && rest[j] == nodes[j + 1];
      }
    }
    forall x | x in Ids(rest) ensures x in Ids(nodes) - {nodes[k].1} {
      var i :| 0 <= i < |rest| && rest[i].1 == x;
      if i < k { assert rest[i] == nodes[i]; } else { assert rest[i] == nodes[i + 1]; }
    }
    forall x | x in Ids(nodes) - {nodes[k].1} ensures x in Ids(rest) {
      var i :| 0 <= i < |nodes| && nodes[i].1 == x;
      if i < k { assert rest[i] == nodes[i]; } else { assert i != k; assert rest[i - 1] == nodes[i]; }
    }
  }

  lemma PushKeepsIds(nodes: seq<Entry>, e: Entry)
    requires NoDupIds(nodes) && e.1 !in Ids(nodes)
    ensures NoDupIds(nodes + [e])
    ensures Ids(nodes + [e]) == Ids(nodes) + {e.1}
  {
    var r := nodes + [e];
    forall x | x in Ids(r) ensures x in Ids(nodes) + {e.1} {
      var i :| 0 <= i < |r| && r[i].1 == x;
      if i < |nodes| { assert r[i] == nodes[i]; }
    }
    forall x | x in Ids(nodes) ensures x in Ids(r) {
      var i :| 0 <= i < |nodes| && nodes[i].1 == x;
      assert r[i] == nodes[i];
    }
    assert r[|nodes|] == e;
  }

  /** The state of the outer loop, between trees. */
  ghost predicate Between(tweets: map<Id, Tweet>, all: set<Id>, toProcess: set<Id>, plot: seq<Id>,
                          delimiter: Id, epsilon: real)
  {
    && toProcess <= all && delimiter !in all && all <= tweets.Keys
    && (forall t :: t in all ==> tweets[t].smallestReachability <= epsilon)
    && (forall t :: t != delimiter ==> (t in plot <==> t in all - toProcess))
    && Plotted(tweets, plot, delimiter) && Once(plot, delimiter) && Delimited(plot, delimiter)
    && SeedsFirst(tweets, plot, delimiter)
    && (forall i, t :: IsSeed(plot, delimiter, i) && t in toProcess ==>
          tweets[plot[i]].smallestReachability <= tweets[t].smallestReachability)
    && (forall i :: 0 <= i < |plot| && plot[i] != delimiter && !IsSeed(plot, delimiter, i) ==>
          Acquired(tweets, plot, delimiter, epsilon, i))
  }

  /** The frontier holds each tweet once, only tweets taken out of `toProcess` and
      not yet placed; a tweet is placed or on the frontier once it leaves `toProcess`. */
  ghost predicate Frontier(all: set<Id>, toProcess: set<Id>, plot: seq<Id>, nodes: seq<Entry>, delimiter: Id) {
    && NoDupIds(nodes) && Ids(nodes) <= all && Ids(nodes) !! toProcess
    && (forall t :: t != delimiter ==> t in plot ==> t !in Ids(nodes))
    && (forall t :: t != delimiter ==> (t in plot || t in Ids(nodes) <==> t in all - toProcess))
  }

  /** The tree being grown opens with the delimiter at `start - 1`, then the seed,
      and holds no other delimiter; the plot before it is delimited as usual. */
  ghost predicate TreeShape(plot: seq<Id>, nodes: seq<Entry>, seed: Id, start: nat, delimiter: Id) {
    && 0 < start <= |plot| && plot[start - 1] == delimiter
    && (forall k :: start <= k < |plot| ==> plot[k] != delimiter)
    && (|plot| == start ==> nodes == [(0.0, seed)])
    && (|plot| > start ==> plot[start] == seed)
    && Once(plot, delimiter)
    && plot[0] == delimiter
    && (forall i :: 0 <= i < |plot| - 1 && plot[i] == delimiter ==> plot[i + 1] != delimiter)
  }

  /** The state of the frontier loop while growing the tree of `seed`, whose
      delimiter sits at `start - 1`. */
  ghost predicate Growing(tweets: map<Id, Tweet>, all: set<Id>, toProcess: set<Id>, plot: seq<Id>,
                          nodes: seq<Entry>, seed: Id, start: nat, delimiter: Id, epsilon: real)
  {
    && toProcess <= all && delimiter !in all && all <= tweets.Keys
    && (forall t :: t in all ==> tweets[t].smallestReachability <= epsilon)
    && seed in all
    && Frontier(all, toProcess, plot, nodes, delimiter)
    && TreeShape(plot, nodes, seed, start, delimiter)
    && (forall t :: t in toProcess || t in Ids(nodes) ==>
          tweets[seed].smallestReachability <= tweets[t].smallestReachability)
    && (|plot| > start ==> forall k :: 0 <= k < |nodes| ==> HasParent(tweets, plot, start, epsilon, nodes[k].1))
    && Plotted(tweets, plot, delimiter)
    && SeedsFirst(tweets, plot, delimiter)
    && (forall i, t :: IsSeed(plot, delimiter, i) && (t in toProcess || t in Ids(nodes)) ==>
          tweets[plot[i]].smallestReachability <= tweets[t].smallestReachability)
    && (forall i :: 0 <= i < |plot| && plot[i] != delimiter && !IsSeed(plot, delimiter, i) ==>
          Acquired(tweets, plot, delimiter, epsilon, i))
  }

  /** The whole reachability plot of the window. */
  method GetReachabilityPlot(tweets: map<Id, Tweet>, queue: seq<Id>, delimiter: Id, epsilon: real)
    returns (plot: seq<Id>)
    requires InArena(tweets, queue) && delimiter !in queue
    ensures forall t :: t != delimiter ==> (t in plot <==> t in NonNoise(tweets, queue, epsilon))
    ensures Plotted(tweets, plot, delimiter)
    ensures Once(plot, delimiter)
    ensures Delimited(plot, delimiter)
    ensures SeedsFirst(tweets, plot, delimiter)
    ensures forall i :: 0 <= i < |plot| && plot[i] != delimiter && !IsSeed(plot, delimiter, i) ==>
      Acquired(tweets, plot, delimiter, epsilon, i)
  {
    // the tweets that are not noise
    var toProcess: set<Id> := {};
    var i := 0;
    while i < |queue|
      invariant i <= |queue|
      invariant toProcess == set k | 0 <= k < i && tweets[queue[k]].smallestReachability <= epsilon :: queue[k]
    {
      if tweets[queue[i]].smallestReachability <= epsilon {
        toProcess := toProcess + {queue[i]};
      }
      i := i + 1;
    }
    ghost var all := toProcess;
    assert all == NonNoise(tweets, queue, epsilon);
    plot := [];
    while toProcess != {}
      invariant Between(tweets, all, toProcess, plot, delimiter, epsilon)
      decreases toProcess
    {
      var seed := ChooseSeed(tweets, toProcess, epsilon);
      toProcess, plot := GrowTree(tweets, toProcess, plot, seed, delimiter, epsilon, all);
    }
  }

  /** One tree of the plot: the delimiter, then the seed, then every tweet the
      frontier reaches from it, largest key first. */
  method GrowTree(tweets: map<Id, Tweet>, toProcess: set<Id>, plot: seq<Id>, seed: Id,
                  delimiter: Id, epsilon: real, ghost all: set<Id>)
    returns (toProcess': set<Id>, plot': seq<Id>)
    requires Between(tweets, all, toProcess, plot, delimiter, epsilon)
    requires seed in toProcess
    requires forall t :: t in toProcess ==> tweets[seed].smallestReachability <= tweets[t].smallestReachability
    ensures Between(tweets, all, toProcess', plot', delimiter, epsilon)
    ensures toProcess' < toProcess
  {
    var nodes: seq<Entry> := [(0.0, seed)];
    StartTree(tweets, all, toProcess, plot, seed, delimiter, epsilon);
    toProcess' := toProcess - {seed};
    plot' := plot + [delimiter];
    ghost var start := |plot'|;
    while nodes != []
      invariant Growing(tweets, all, toProcess', plot', nodes, seed, start, delimiter, epsilon)
      invariant toProcess' < toProcess
      decreases |toProcess'| + |nodes|
    {
      var top, rest := PopTop(nodes);
      var t := top.1;
      ghost var k :| 0 <= k < |nodes| && top == nodes[k] && rest == nodes[..k] + nodes[k + 1..];
      PlaceNode(tweets, all, toProcess', plot', nodes, k, seed, start, delimiter, epsilon);
      plot' := plot' + [t];
      nodes := rest;
      // acquire, but do not branch through border objects
      if tweets[t].coreDistance <= epsilon {
        toProcess', nodes := Expand(tweets, t, toProcess', plot', nodes, seed, start, delimiter, epsilon, all);
      }
    }
    EndTree(tweets, all, toProcess', plot', seed, start, delimiter, epsilon);
  }

  /** The neighbours of the core tweet `t` just placed that are still to process
      move onto the frontier, keyed by their smallest reachability distance. */
  method Expand(tweets: map<Id, Tweet>, t: Id, toProcess: set<Id>, plot: seq<Id>, nodes: seq<Entry>,
                ghost seed: Id, ghost start: nat, delimiter: Id, epsilon: real, ghost all: set<Id>)
    returns (toProcess': set<Id>, nodes': seq<Entry>)
    requires Growing(tweets, all, toProcess, plot, nodes, seed, start, delimiter, epsilon)
    requires |plot| > start && plot[|plot| - 1] == t
    requires t in tweets && tweets[t].coreDistance <= epsilon
    ensures Growing(tweets, all, toProcess', plot, nodes', seed, start, delimiter, epsilon)
    ensures toProcess' <= toProcess
    ensures |toProcess'| + |nodes'| == |toProcess| + |nodes|
  {
    toProcess', nodes' := toProcess, nodes;
    var j := 0;
    while j < |tweets[t].neighbors|
      invariant j <= |tweets[t].neighbors|
      invariant Growing(tweets, all, toProcess', plot, nodes', seed, start, delimiter, epsilon)
      invariant toProcess' <= toProcess
      invariant |toProcess'| + |nodes'| == |toProcess| + |nodes|
    {
      var q := tweets[t].neighbors[j].1;
      if q in toProcess' {
        assert q in Ids(tweets[t].neighbors);
        PushNode(tweets, all, toProcess', plot, nodes', seed, start, delimiter, epsilon, q);
        nodes' := nodes' + [(tweets[q].smallestReachability, q)];
        toProcess' := toProcess' - {q};
      }
      j := j + 1;
    }
  }

  lemma AcquiredExtend(tweets: map<Id, Tweet>, plot: seq<Id>, x: Id, delimiter: Id, epsilon: real, i: int)
    requires 0 <= i < |plot| && Acquired(tweets, plot, delimiter, epsilon, i)
    ensures Acquired(tweets, plot + [x], delimiter, epsilon, i)
  {
    var j :| 0 <= j < i && plot[j] in tweets &&
      (forall k :: j <= k <= i ==> plot[k] != delimiter) &&
      tweets[plot[j]].coreDistance <= epsilon && plot[i] in Ids(tweets[plot[j]].neighbors);
    var p := plot + [x];
    assert p[j] == plot[j] && p[i] == plot[i];
    assert forall k :: j <= k <= i ==> p[k] == plot[k];
  }

  lemma HasParentExtend(tweets: map<Id, Tweet>, plot: seq<Id>, x: Id, start: nat, epsilon: real, id: Id)
    requires HasParent(tweets, plot, start, epsilon, id)
    ensures HasParent(tweets, plot + [x], start, epsilon, id)
  {
    var j :| start <= j < |plot| && plot[j] in tweets &&
      tweets[plot[j]].coreDistance <= epsilon && id in Ids(tweets[plot[j]].neighbors);
    assert (plot + [x])[j] == plot[j];
  }

  /** Opening a tree: the delimiter is placed and the seed is the only frontier entry. */
  lemma StartTree(tweets: map<Id, Tweet>, all: set<Id>, toProcess: set<Id>, plot: seq<Id>,
                  seed: Id, delimiter: Id, epsilon: real)
    requires Between(tweets, all, toProcess, plot, delimiter, epsilon)
    requires seed in toProcess
    requires forall t :: t in toProcess ==> tweets[seed].smallestReachability <= tweets[t].smallestReachability
    ensures Growing(tweets, all, toProcess - {seed}, plot + [delimiter], [(0.0, seed)], seed,
                    |plot| + 1, delimiter, epsilon)
  {
    var p := plot + [delimiter];
    var nodes := [(0.0, seed)];
    assert Ids(nodes) == {seed} by { assert nodes[0].1 == seed; }
    StartShape(all, toProcess, plot, seed, delimiter);
    forall i | 0 <= i < |p| && p[i] != delimiter && !IsSeed(p, delimiter, i)
      ensures Acquired(tweets, p, delimiter, epsilon, i)
    {
      assert p[i] == plot[i];
      assert !IsSeed(plot, delimiter, i);
      AcquiredExtend(tweets, plot, delimiter, delimiter, epsilon, i);
    }
    forall i, t | IsSeed(p, delimiter, i) && (t in toProcess - {seed} || t in Ids(nodes))
      ensures tweets[p[i]].smallestReachability <= tweets[t].smallestReachability
    {
      assert IsSeed(plot, delimiter, i);
    }
    forall i, k | IsSeed(p, delimiter, i) && i < k < |p| && p[k] != delimiter
      ensures tweets[p[i]].smallestReachability <= tweets[p[k]].smallestReachability
    {
      assert IsSeed(plot, delimiter, i);
    }
  }

  lemma StartShape(all: set<Id>, toProcess: set<Id>, plot: seq<Id>, seed: Id, delimiter: Id)
    requires toProcess <= all && delimiter !in all && seed in toProcess
    requires forall t :: t != delimiter ==> (t in plot <==> t in all - toProcess)
    requires Once(plot, delimiter) && Delimited(plot, delimiter)
    ensures var p := plot + [delimiter];
      var nodes := [(0.0, seed)];
      Frontier(all, toProcess - {seed}, p, nodes, delimiter) && TreeShape(p, nodes, seed, |plot| + 1, delimiter)
  {
    var p := plot + [delimiter];
    var nodes := [(0.0, seed)];
    assert Ids(nodes) == {seed} by { assert nodes[0].1 == seed; }
    assert forall t :: t in p && t != delimiter ==> t in plot;
    forall i, j | 0 <= i < j < |p| && p[i] == p[j] ensures p[i] == delimiter {
      if j < |plot| { assert p[i] == plot[i] && p[j] == plot[j]; }
    }
  }

  /** Popping the frontier entry `nodes[k]` and placing it in the plot. */
  lemma PlaceNode(tweets: map<Id, Tweet>, all: set<Id>, toProcess: set<Id>, plot: seq<Id>,
                  nodes: seq<Entry>, k: nat, seed: Id, start: nat, delimiter: Id, epsilon: real)
    requires Growing(tweets, all, toProcess, plot, nodes, seed, start, delimiter, epsilon)
    requires k < |nodes|
    ensures Growing(tweets, all, toProcess, plot + [nodes[k].1], nodes[..k] + nodes[k + 1..], seed,
                    start, delimiter, epsilon)
  {
    PopKeepsIds(nodes, k);
    PlaceBasics(all, toProcess, plot, nodes, k, seed, start, delimiter);
    PlaceParents(tweets, all, toProcess, plot, nodes, k, seed, start, delimiter, epsilon);
    PlaceAcquired(tweets, plot, nodes, k, start, delimiter, epsilon);
    PlaceSeeds(tweets, all, toProcess, plot, nodes, k, seed, start, delimiter, epsilon);
  }

  lemma PlaceBasics(all: set<Id>, toProcess: set<Id>, plot: seq<Id>,
                    nodes: seq<Entry>, k: nat, seed: Id, start: nat, delimiter: Id)
    requires delimiter !in all
    requires Frontier(all, toProcess, plot, nodes, delimiter) && TreeShape(plot, nodes, seed, start, delimiter)
    requires k < |nodes|
    requires NoDupIds(nodes[..k] + nodes[k + 1..])
    requires Ids(nodes[..k] + nodes[k + 1..]) == Ids(nodes) - {nodes[k].1}
    ensures var p := plot + [nodes[k].1];
      var rest := nodes[..k] + nodes[k + 1..];
      Frontier(all, toProcess, p, rest, delimiter) && TreeShape(p, rest, seed, start, delimiter)
  {
    var t := nodes[k].1;
    assert t in Ids(nodes);
    if |plot| == start {
      assert nodes == [(0.0, seed)];
    }
  }

  lemma PlaceParents(tweets: map<Id, Tweet>, all: set<Id>, toProcess: set<Id>, plot: seq<Id>,
                     nodes: seq<Entry>, k: nat, seed: Id, start: nat, delimiter: Id, epsilon: real)
    requires start <= |plot| && (|plot| == start ==> |nodes| == 1)
    requires |plot| > start ==> forall j :: 0 <= j < |nodes| ==> HasParent(tweets, plot, start, epsilon, nodes[j].1)
    requires k < |nodes|
    ensures var rest := nodes[..k] + nodes[k + 1..];
      forall j :: 0 <= j < |rest| ==> HasParent(tweets, plot + [nodes[k].1], start, epsilon, rest[j].1)
  {
    var t := nodes[k].1;
    var rest := nodes[..k] + nodes[k + 1..];
    if |plot| > start {
      forall j | 0 <= j < |rest| ensures HasParent(tweets, plot + [t], start, epsilon, rest[j].1) {
        if j < k { assert rest[j] == nodes[j]; } else { assert rest[j] == nodes[j + 1]; }
        HasParentExtend(tweets, plot, t, start, epsilon, rest[j].1);
      }
    }
  }

  lemma PlaceAcquired(tweets: map<Id, Tweet>, plot: seq<Id>, nodes: seq<Entry>, k: nat,
                      start: nat, delimiter: Id, epsilon: real)
    requires 0 < start <= |plot| && plot[start - 1] == delimiter
    requires forall m :: start <= m < |plot| ==> plot[m] != delimiter
    requires k < |nodes|
    requires |plot| > start ==> forall j :: 0 <= j < |nodes| ==> HasParent(tweets, plot, start, epsilon, nodes[j].1)
    requires forall i :: 0 <= i < |plot| && plot[i] != delimiter && !IsSeed(plot, delimiter, i) ==>
      Acquired(tweets, plot, delimiter, epsilon, i)
    ensures var p := plot + [nodes[k].1];
      forall i :: 0 <= i < |p| && p[i] != delimiter && !IsSeed(p, delimiter, i) ==>
        Acquired(tweets, p, delimiter, epsilon, i)
  {
    var t := nodes[k].1;
    var p := plot + [t];
    var n := |plot|;
    forall i | 0 <= i < |p| && p[i] != delimiter && !IsSeed(p, delimiter, i)
      ensures Acquired(tweets, p, delimiter, epsilon, i)
    {
      if i < n {
        assert p[i] == plot[i] && !IsSeed(plot, delimiter, i);
        AcquiredExtend(tweets, plot, t, delimiter, epsilon, i);
      } else {
        assert n > start;
        AcquiredNew(tweets, plot, t, start, delimiter, epsilon);
      }
    }
  }

  /** A tweet pushed by a core tweet of the current tree is acquired once placed. */
  lemma AcquiredNew(tweets: map<Id, Tweet>, plot: seq<Id>, t: Id, start: nat, delimiter: Id, epsilon: real)
    requires start <= |plot| && t != delimiter
    requires forall m :: start <= m < |plot| ==> plot[m] != delimiter
    requires HasParent(tweets, plot, start, epsilon, t)
    ensures Acquired(tweets, plot + [t], delimiter, epsilon, |plot|)
  {
    var p := plot + [t];
    var j :| start <= j < |plot| && plot[j] in tweets &&
      tweets[plot[j]].coreDistance <= epsilon && t in Ids(tweets[plot[j]].neighbors);
    assert p[j] == plot[j];
    assert forall m :: j <= m <= |plot| ==> p[m] != delimiter;
  }

  lemma PlaceSeeds(tweets: map<Id, Tweet>, all: set<Id>, toProcess: set<Id>, plot: seq<Id>,
                   nodes: seq<Entry>, k: nat, seed: Id, start: nat, delimiter: Id, epsilon: real)
    requires Growing(tweets, all, toProcess, plot, nodes, seed, start, delimiter, epsilon)
    requires k < |nodes|
    requires Ids(nodes[..k] + nodes[k + 1..]) == Ids(nodes) - {nodes[k].1}
    ensures var p := plot + [nodes[k].1];
      && Plotted(tweets, p, delimiter)
      && SeedsFirst(tweets, p, delimiter)
      && (forall i, u :: IsSeed(p, delimiter, i) && (u in toProcess || u in Ids(nodes[..k] + nodes[k + 1..])) ==>
            tweets[p[i]].smallestReachability <= tweets[u].smallestReachability)
  {
    var t := nodes[k].1;
    var p := plot + [t];
    var n := |plot|;
    var rest := nodes[..k] + nodes[k + 1..];
    assert t in Ids(nodes);
    forall i, m | IsSeed(p, delimiter, i) && i < m < |p| && p[m] != delimiter
      ensures tweets[p[i]].smallestReachability <= tweets[p[m]].smallestReachability
    {
      assert IsSeed(plot, delimiter, i);
    }
    forall i, u | IsSeed(p, delimiter, i) && (u in toProcess || u in Ids(rest))
      ensures tweets[p[i]].smallestReachability <= tweets[u].smallestReachability
    {
      if i < n {
        assert IsSeed(plot, delimiter, i);
      } else {
        assert n == start && p[i] == seed;
      }
    }
  }

  /** Pushing the unprocessed neighbour `q` of the core tweet just placed. */
  lemma PushNode(tweets: map<Id, Tweet>, all: set<Id>, toProcess: set<Id>, plot: seq<Id>,
                 nodes: seq<Entry>, seed: Id, start: nat, delimiter: Id, epsilon: real, q: Id)
    requires Growing(tweets, all, toProcess, plot, nodes, seed, start, delimiter, epsilon)
    requires q in toProcess && |plot| > start
    requires plot[|plot| - 1] in tweets && tweets[plot[|plot| - 1]].coreDistance <= epsilon
    requires q in Ids(tweets[plot[|plot| - 1]].neighbors)
    ensures Growing(tweets, all, toProcess - {q}, plot, nodes + [(tweets[q].smallestReachability, q)],
                    seed, start, delimiter, epsilon)
  {
    var e := (tweets[q].smallestReachability, q);
    PushKeepsIds(nodes, e);
    var nodes' := nodes + [e];
    forall j | 0 <= j < |nodes'| ensures HasParent(tweets, plot, start, epsilon, nodes'[j].1) {
      if j < |nodes| {
        assert nodes'[j] == nodes[j];
      } else {
        assert nodes'[j].1 == q;
        var last := |plot| - 1;
        assert start <= last < |plot|;
      }
    }
  }

  /** Closing a tree once the frontier is empty. */
  lemma EndTree(tweets: map<Id, Tweet>, all: set<Id>, toProcess: set<Id>, plot: seq<Id>,
                seed: Id, start: nat, delimiter: Id, epsilon: real)
    requires Growing(tweets, all, toProcess, plot, [], seed, start, delimiter, epsilon)
    ensures Between(tweets, all, toProcess, plot, delimiter, epsilon)
  {
    assert |plot| > start;
    assert plot[|plot| - 1] != delimiter;
  }
}
