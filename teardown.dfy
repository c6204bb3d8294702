/** `Tweet::~Tweet`: take the tweet out of its cell and out of every neighbour's
    multimap, marking those neighbours for update. */
module Teardown {
  import opened Multimap
  import opened Grid
  import opened Tweets
  import opened CellIndex
  import opened Arena
  import opened Links

  /** A neighbour of the destroyed tweet `id` after the destructor walked it. */
  function Detach(t: Tweet, id: Id): (r: Tweet)
    ensures r == t.(requireUpdate := true, neighbors := r.neighbors)
    ensures Sorted(t.neighbors) ==> Sorted(r.neighbors)
    ensures |r.neighbors| == |t.neighbors| - if id in Ids(t.neighbors) then 1 else 0
  {
    RemoveFirstRemovesOne(t.neighbors, id);
    assert Sorted(t.neighbors) ==> Sorted(RemoveFirst(t.neighbors, id)) by {
      if Sorted(t.neighbors) {
        RemoveFirstKeepsSorted(t.neighbors, id);
      }
    }
    t.(requireUpdate := true, neighbors := RemoveFirst(t.neighbors, id))
  }

  /** The arena after destroying `id`. Cached distances to `id` stay behind. */
  ghost function Detached(tweets: map<Id, Tweet>, id: Id): map<Id, Tweet>
    requires id in tweets
  {
    map b | b in tweets && b != id ::
      if b in Ids(tweets[id].neighbors) then Detach(tweets[b], id) else tweets[b]
  }

  /** The destructor. */
  method Destroy(cells: seq<seq<Cell>>, tweets: map<Id, Tweet>, id: Id)
    returns (cells': seq<seq<Cell>>, tweets': map<Id, Tweet>)
    requires id in tweets
    requires tweets[id].x < |cells| && tweets[id].y < |cells[tweets[id].x]|
    requires tweets[id].words <= cells[tweets[id].x][tweets[id].y].tweetsByWord.Keys
    requires NoDupIds(tweets[id].neighbors) && Ids(tweets[id].neighbors) <= tweets.Keys - {id}
    ensures var t := tweets[id];
      cells' == Replace(cells, t.x, t.y, RemoveTweet(cells[t.x][t.y], id, t.words))
    ensures tweets' == Detached(tweets, id)
  {
    var t := tweets[id];
    var cell := cells[t.x][t.y];
    var buckets := UnindexWords(cell.tweetsByWord, id, t.words);
    var count := if cell.tweetCount == 0 then 0 else cell.tweetCount - 1;
    cells' := Replace(cells, t.x, t.y, cell.(tweetCount := count, tweetsByWord := buckets));
    tweets' := tweets;
    var i := 0;
    while i < |t.neighbors|
      invariant i <= |t.neighbors|
      invariant tweets'.Keys == tweets.Keys && tweets'[id] == t
      invariant forall b :: b in tweets && b != id ==>
        tweets'[b] == if b in Ids(t.neighbors[..i]) then Detach(tweets[b], id) else tweets[b]
    {
      var b := t.neighbors[i].1;
      IdsStep(t.neighbors, i);
      assert b in Ids(t.neighbors);
      var remaining := Unlink(tweets'[b].neighbors, id);
      tweets' := tweets'[b := tweets'[b].(requireUpdate := true, neighbors := remaining)];
      i := i + 1;
    }
    assert t.neighbors[..i] == t.neighbors;
    tweets' := tweets' - {id};
  }

  /** Destroying a tweet keeps every link mutual, every multimap exact and every
      cached distance valid: no multimap refers to the destroyed tweet any more. */
  lemma DestroyKeepsLinked(tweets: map<Id, Tweet>, id: Id, epsilon: real)
    requires Rated(tweets) && Linked(tweets, epsilon) && Cached(tweets, epsilon) && id in tweets
    ensures var after := Detached(tweets, id);
      && Rated(after) && Linked(after, epsilon) && Cached(after, epsilon)
      && forall a :: a in after ==> id !in Ids(after[a].neighbors)
  {
    var after := Detached(tweets, id);
    forall a | a in after
      ensures Ids(after[a].neighbors) == Ids(tweets[a].neighbors) - {id}
      ensures Entries(after, a)
    {
      assert Entries(tweets, a) && Pair(tweets, a, id, epsilon) && Pair(tweets, id, a, epsilon);
      DetachedIds(tweets, id, epsilon, a);
      DetachedEntries(tweets, after, id, a);
    }
    forall a, b | a in after && b in after ensures Pair(after, a, b, epsilon) {
      DetachedPair(tweets, after, id, epsilon, a, b);
    }
    DetachedTexts(tweets, id);
    SameTextsKeepCached(tweets, after, epsilon);
  }

  /** The destructor keeps every text and every cache of the survivors. */
  lemma DetachedTexts(tweets: map<Id, Tweet>, id: Id)
    requires id in tweets
    ensures var after := Detached(tweets, id);
      && after.Keys <= tweets.Keys
      && forall x :: x in after ==> SameText(tweets[x], after[x]) && after[x].distances == tweets[x].distances
  {
  }

  lemma DetachedPair(tweets: map<Id, Tweet>, after: map<Id, Tweet>, id: Id, epsilon: real, a: Id, b: Id)
    requires id in tweets && after == Detached(tweets, id) && a in after && b in after
    requires a in tweets && b in tweets && Pair(tweets, a, b, epsilon)
    requires Ids(after[a].neighbors) == Ids(tweets[a].neighbors) - {id}
    ensures Pair(after, a, b, epsilon)
  {
    assert after[a].distances == tweets[a].distances && after[b].distances == tweets[b].distances;
  }

  /** A survivor loses exactly its reference to the destroyed tweet: the destructor
      walks the destroyed tweet's neighbours, and by mutuality those are exactly the
      tweets referring back to it. */
  lemma DetachedIds(tweets: map<Id, Tweet>, id: Id, epsilon: real, a: Id)
    requires id in tweets && a in tweets && a != id
    requires Entries(tweets, a) && Pair(tweets, a, id, epsilon) && Pair(tweets, id, a, epsilon)
    requires NoDupIds(tweets[a].neighbors)
    ensures NoDupIds(Detached(tweets, id)[a].neighbors)
    ensures Ids(Detached(tweets, id)[a].neighbors) == Ids(tweets[a].neighbors) - {id}
  {
    var s := tweets[a].neighbors;
    RemoveFirstIds(s, id);
  }

  lemma DetachedEntries(tweets: map<Id, Tweet>, after: map<Id, Tweet>, id: Id, a: Id)
    requires id in tweets && a in tweets && a != id && after == Detached(tweets, id)
    requires Entries(tweets, a)
    requires NoDupIds(after[a].neighbors)
    requires Ids(after[a].neighbors) == Ids(tweets[a].neighbors) - {id}
    ensures Entries(after, a)
  {
    var s := tweets[a].neighbors;
    var r := after[a].neighbors;
    assert after[a].distances == tweets[a].distances;
    assert r == RemoveFirst(s, id) || r == s;
    RemoveFirstKeepsSorted(s, id);
    forall e | e in r ensures e.1 in after && e.1 in after[a].distances && after[a].distances[e.1] == e.0 {
      if r != s {
        RemoveFirstKeeps(s, id, e);
      }
      var k :| 0 <= k < |r| && r[k] == e;
      assert e.1 in Ids(r);
    }
  }

  /** Destroying a tweet takes it out of its cell's count and index. */
  lemma DestroyKeepsFiled(cells: seq<seq<Cell>>, tweets: map<Id, Tweet>, cols: nat, rows: nat, id: Id)
    requires Filed(cells, tweets, cols, rows) && id in tweets
    ensures var t := tweets[id];
      var cells' := Replace(cells, t.x, t.y, RemoveTweet(cells[t.x][t.y], id, t.words));
      && Filed(cells', Detached(tweets, id), cols, rows)
      && SameRegions(cells, cells', cols, rows)
  {
    RemoveKeepsFiled(cells, tweets, cols, rows, id);
    var t := tweets[id];
    var cells' := Replace(cells, t.x, t.y, RemoveTweet(cells[t.x][t.y], id, t.words));
    SamePlacesKeepFiled(cells', tweets - {id}, Detached(tweets, id), cols, rows);
  }
}
