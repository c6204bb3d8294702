/** The comparison loops of `updateTweets`: a new tweet is compared with every
    tweet filed, in a cell of its region, under one of its words, unless that
    tweet is the new tweet itself, was compared already, or holds every word of
    the new tweet. Each comparison caches the distance on both sides and, within
    `epsilon`, links the two as neighbours and marks the older tweet for update. */
module Compare {
  import opened Multimap
  import opened Grid
  import opened Tweets
  import opened Rates
  import opened Arena
  import opened Links

  /** The tweets filed under `w` in the cells of `region`. */
  function RegionBucket(cells: seq<seq<Cell>>, region: seq<Coord>, w: string): set<Id>
    requires Covers(cells, region)
  {
    if region == [] then {}
    else
      var c := region[|region| - 1];
      RegionBucket(cells, region[..|region| - 1], w) + Bucket(cells[c.0][c.1], w)
  }

  /** `o` is another tweet and `o.discern(new)` holds: the new tweet has a word
      that `o` lacks. */
  ghost predicate Discerned(tweets: map<Id, Tweet>, id: Id, o: Id)
    requires id in tweets
  {
    o in tweets && o != id && !(tweets[id].words <= tweets[o].words)
  }

  /** The tweets the new tweet `id` is compared with. */
  ghost function Compared(cells: seq<seq<Cell>>, region: seq<Coord>, tweets: map<Id, Tweet>, id: Id): (done: set<Id>)
    requires Covers(cells, region) && id in tweets
    ensures done <= tweets.Keys && id !in done
  {
    set o | o in tweets && Discerned(tweets, id, o) &&
            exists w :: w in tweets[id].words && o in RegionBucket(cells, region, w)
  }

  /** The distance from the new tweet to `o`. */
  ghost function Dist(tweets: map<Id, Tweet>, id: Id, o: Id, epsilon: real): real
    requires Rated(tweets) && id in tweets && o in tweets
  {
    OpticsDistance(tweets[id], tweets[o], epsilon)
  }

  /** The older tweet after one comparison at distance `d` with the new tweet `id`. */
  function Recorded(t: Tweet, id: Id, d: real, epsilon: real): Tweet {
    t.(distances := t.distances[id := d],
       neighbors := if d <= epsilon then Insert(t.neighbors, d, id) else t.neighbors,
       requireUpdate := t.requireUpdate || d <= epsilon)
  }

  /** The arena after the comparison of the new tweet `id` with `o` at distance `d`. */
  function Record(tweets: map<Id, Tweet>, id: Id, o: Id, d: real, epsilon: real): (r: map<Id, Tweet>)
    requires id in tweets && o in tweets
    ensures r.Keys == tweets.Keys
    ensures forall b :: b in tweets && b != id && b != o ==> r[b] == tweets[b]
  {
    var t := tweets[id];
    tweets[id := t.(distances := t.distances[o := d],
                    neighbors := if d <= epsilon then Insert(t.neighbors, d, o) else t.neighbors)]
          [o := Recorded(tweets[o], id, d, epsilon)]
  }
  /** One comparison caches the distance on both sides and, within `epsilon`, links
      the two tweets both ways and marks the older one for update; beyond `epsilon`
      it links nothing and marks nothing. */
  lemma RecordLinks(tweets: map<Id, Tweet>, id: Id, o: Id, d: real, epsilon: real)
    requires id in tweets && o in tweets && o != id
    ensures var r := Record(tweets, id, o, d, epsilon);
      && r[id].distances == tweets[id].distances[o := d]
      && r[o].distances == tweets[o].distances[id := d]
      && (d <= epsilon ==>
            Ids(r[id].neighbors) == Ids(tweets[id].neighbors) + {o} &&
            Ids(r[o].neighbors) == Ids(tweets[o].neighbors) + {id} && r[o].requireUpdate)
      && (d > epsilon ==>
            r[id].neighbors == tweets[id].neighbors && r[o].neighbors == tweets[o].neighbors &&
            r[o].requireUpdate == tweets[o].requireUpdate)
  {
    InsertAddsOne(tweets[id].neighbors, d, o);
    InsertAddsOne(tweets[o].neighbors, d, id);
  }


  /** `now` is `before` after the new tweet `id` has been compared with exactly the
      tweets of `done`, in some order: its cache holds their distances, its
      multimap those within `epsilon`, and each of them recorded the comparison. */
  ghost predicate Recording(before: map<Id, Tweet>, now: map<Id, Tweet>, id: Id, done: set<Id>, epsilon: real)
    requires Rated(before) && id in before && done <= before.Keys
  {
    now.Keys == before.Keys && NewSide(before, now, id, done, epsilon) && OldSide(before, now, id, done, epsilon)
  }

  /** The new tweet's side of the comparisons made so far. */
  ghost predicate NewSide(before: map<Id, Tweet>, now: map<Id, Tweet>, id: Id, done: set<Id>, epsilon: real)
    requires Rated(before) && id in before && done <= before.Keys
  {
    && id in now
    && now[id] == before[id].(distances := now[id].distances, neighbors := now[id].neighbors)
    && now[id].distances.Keys == done
    && (forall o :: o in done ==> now[id].distances[o] == Dist(before, id, o, epsilon))
    && Within(now[id].neighbors, now[id].distances, epsilon)
  }

  /** A multimap holding exactly the cached tweets within `epsilon`, once each, in
      ascending order and keyed by their cached distance. */
  ghost predicate Within(s: seq<Entry>, cache: map<Id, real>, epsilon: real) {
    && Sorted(s) && NoDupIds(s)
    && (forall o :: o in Ids(s) <==> o in cache && cache[o] <= epsilon)
    && (forall e :: e in s ==> e.1 in cache && e.0 == cache[e.1])
  }

  lemma WithinStep(s: seq<Entry>, cache: map<Id, real>, o: Id, d: real, epsilon: real)
    requires Within(s, cache, epsilon) && o !in cache
    ensures Within(if d <= epsilon then Insert(s, d, o) else s, cache[o := d], epsilon)
  {
    var r := if d <= epsilon then Insert(s, d, o) else s;
    if d <= epsilon {
      assert o !in Ids(s);
      InsertKeepsSorted(s, d, o);
      InsertKeepsNoDupIds(s, d, o);
    }
    WithinStepIds(s, cache, o, d, epsilon);
    WithinStepKeys(s, cache, o, d, epsilon);
  }

  lemma WithinStepIds(s: seq<Entry>, cache: map<Id, real>, o: Id, d: real, epsilon: real)
    requires forall x :: x in Ids(s) <==> x in cache && cache[x] <= epsilon
    requires o !in cache
    ensures var r := if d <= epsilon then Insert(s, d, o) else s;
      forall x :: x in Ids(r) <==> x in cache[o := d] && cache[o := d][x] <= epsilon
  {
    if d <= epsilon {
      InsertAddsOne(s, d, o);
    }
  }

  lemma WithinStepKeys(s: seq<Entry>, cache: map<Id, real>, o: Id, d: real, epsilon: real)
    requires forall e :: e in s ==> e.1 in cache && e.0 == cache[e.1]
    requires o !in cache
    ensures var r := if d <= epsilon then Insert(s, d, o) else s;
      forall e :: e in r ==> e.1 in cache[o := d] && e.0 == cache[o := d][e.1]
  {
    if d <= epsilon {
      var r := Insert(s, d, o);
      InsertAddsOne(s, d, o);
      forall e | e in r ensures e.1 in cache[o := d] && e.0 == cache[o := d][e.1] {
        assert e in multiset(r);
        assert e in multiset(s) || e == (d, o);
      }
    }
  }

  /** The older tweets' side: each tweet compared recorded it, the rest are untouched. */
  ghost predicate OldSide(before: map<Id, Tweet>, now: map<Id, Tweet>, id: Id, done: set<Id>, epsilon: real)
    requires Rated(before) && id in before && done <= before.Keys
  {
    forall o :: o in before && o != id ==>
      o in now && now[o] == if o in done then Recorded(before[o], id, Dist(before, id, o, epsilon), epsilon) else before[o]
  }

  /** A newly admitted tweet: nothing cached, no neighbours. */
  ghost predicate Unlinked(t: Tweet) {
    t.distances == map[] && t.neighbors == []
  }

  lemma RecordingStarts(before: map<Id, Tweet>, id: Id, epsilon: real)
    requires Rated(before) && id in before && Unlinked(before[id])
    ensures Recording(before, before, id, {}, epsilon)
  {
  }

  /** One more comparison extends the recording by `o`. */
  lemma RecordStep(before: map<Id, Tweet>, now: map<Id, Tweet>, id: Id, done: set<Id>, o: Id, d: real, epsilon: real)
    requires Rated(before) && id in before && done <= before.Keys
    requires Recording(before, now, id, done, epsilon)
    requires o in before && o != id && o !in done && d == Dist(before, id, o, epsilon)
    ensures Recording(before, Record(now, id, o, d, epsilon), id, done + {o}, epsilon)
  {
    RecordStepNew(before, now, id, done, o, d, epsilon);
    RecordStepOld(before, now, id, done, o, d, epsilon);
  }

  lemma RecordStepNew(before: map<Id, Tweet>, now: map<Id, Tweet>, id: Id, done: set<Id>, o: Id, d: real, epsilon: real)
    requires Rated(before) && id in before && done <= before.Keys
    requires NewSide(before, now, id, done, epsilon) && o in now
    requires o in before && o != id && o !in done && d == Dist(before, id, o, epsilon)
    ensures NewSide(before, Record(now, id, o, d, epsilon), id, done + {o}, epsilon)
  {
    var t := now[id];
    WithinStep(t.neighbors, t.distances, o, d, epsilon);
    var t' := Record(now, id, o, d, epsilon)[id];
    assert t'.distances == t.distances[o := d];
  }

  lemma RecordStepOld(before: map<Id, Tweet>, now: map<Id, Tweet>, id: Id, done: set<Id>, o: Id, d: real, epsilon: real)
    requires Rated(before) && id in before && done <= before.Keys
    requires id in now && OldSide(before, now, id, done, epsilon)
    requires o in before && o != id && o !in done && d == Dist(before, id, o, epsilon)
    ensures OldSide(before, Record(now, id, o, d, epsilon), id, done + {o}, epsilon)
  {
  }

  /** Texts never change while comparing. */
  lemma RecordingKeepsTexts(before: map<Id, Tweet>, now: map<Id, Tweet>, id: Id, done: set<Id>, epsilon: real)
    requires Rated(before) && id in before && done <= before.Keys
    requires Recording(before, now, id, done, epsilon)
    ensures SameTexts(before, now)
  {
  }

  /** The loop over one bucket. */
  method CompareBucket(before: map<Id, Tweet>, now: map<Id, Tweet>, id: Id, bucket: set<Id>,
                       ghost done: set<Id>, epsilon: real)
    returns (after: map<Id, Tweet>, ghost done': set<Id>)
    requires Rated(before) && id in before && done <= before.Keys
    requires Recording(before, now, id, done, epsilon)
    requires bucket <= before.Keys
    ensures done' <= before.Keys && Recording(before, after, id, done', epsilon)
    ensures done' == done + set o | o in bucket && Discerned(before, id, o)
  {
    after, done' := now, done;
    var rest := bucket;
    while rest != {}
      invariant rest <= bucket
      invariant done' <= before.Keys && Recording(before, after, id, done', epsilon)
      invariant done' == done + set o | o in bucket - rest && Discerned(before, id, o)
    {
      var o :| o in rest;
      ghost var prev := done';
      after, done' := CompareOne(before, after, id, o, done', epsilon);
      BucketStep(before, id, done, bucket, rest, o, prev, done');
      rest := rest - {o};
    }
    assert bucket - rest == bucket;
  }

  lemma BucketStep(before: map<Id, Tweet>, id: Id, done: set<Id>, bucket: set<Id>, rest: set<Id>, o: Id,
                   prev: set<Id>, cur: set<Id>)
    requires id in before && o in rest && rest <= bucket
    requires prev == done + set x | x in bucket - rest && Discerned(before, id, x)
    requires cur == prev + (if Discerned(before, id, o) && o !in prev then {o} else {})
    ensures cur == done + set x | x in bucket - (rest - {o}) && Discerned(before, id, x)
  {
    assert bucket - (rest - {o}) == (bucket - rest) + {o};
  }

  /** Every bucket of the region holds tweets of the arena. */
  ghost predicate Stocked(cells: seq<seq<Cell>>, region: seq<Coord>, tweets: map<Id, Tweet>)
    requires Covers(cells, region)
  {
    forall k, w :: 0 <= k < |region| ==> Bucket(cells[region[k].0][region[k].1], w) <= tweets.Keys
  }

  /** Filed cells only index live tweets. */
  lemma FiledIsStocked(cells: seq<seq<Cell>>, tweets: map<Id, Tweet>, cols: nat, rows: nat, region: seq<Coord>)
    requires Filed(cells, tweets, cols, rows)
    requires forall k :: 0 <= k < |region| ==> InGrid(region[k], cols, rows)
    ensures Covers(cells, region) && Stocked(cells, region, tweets)
  {
    forall k, w | 0 <= k < |region|
      ensures Bucket(cells[region[k].0][region[k].1], w) <= tweets.Keys
    {
      assert Bucket(cells[region[k].0][region[k].1], w) == Holders(tweets, region[k].0, region[k].1, w);
    }
  }

  /** One tweet `o` of a bucket: skipped when it is the new tweet itself, already
      compared, or holding every word of the new tweet; otherwise the distance is
      computed and recorded on both sides. */
  method CompareOne(before: map<Id, Tweet>, now: map<Id, Tweet>, id: Id, o: Id, ghost done: set<Id>, epsilon: real)
    returns (after: map<Id, Tweet>, ghost done': set<Id>)
    requires Rated(before) && id in before && done <= before.Keys && o in before
    requires Recording(before, now, id, done, epsilon)
    ensures done' <= before.Keys && Recording(before, after, id, done', epsilon)
    ensures done' == done + (if Discerned(before, id, o) && o !in done then {o} else {})
  {
    after, done' := now, done;
    RecordingKeepsTexts(before, now, id, done, epsilon);
    var skip := o == id || o in now[id].distances;
    if !skip {
      var discerns := Discern(now[o], now[id]);
      skip := !discerns;
    }
    if !skip {
      var d := GetOpticsDistance(now[id], now[o], epsilon);
      DistanceOfSameText(now[id], now[o], before[id], before[o], epsilon);
      RecordStep(before, now, id, done, o, d, epsilon);
      after := Record(now, id, o, d, epsilon);
      done' := done + {o};
    }
  }

  /** The loop over the cells of the region for one word. */
  method CompareCells(cells: seq<seq<Cell>>, region: seq<Coord>, before: map<Id, Tweet>, now: map<Id, Tweet>,
                      id: Id, w: string, ghost done: set<Id>, epsilon: real)
    returns (after: map<Id, Tweet>, ghost done': set<Id>)
    requires Covers(cells, region) && Stocked(cells, region, before)
    requires Rated(before) && id in before && done <= before.Keys
    requires Recording(before, now, id, done, epsilon)
    ensures done' <= before.Keys && Recording(before, after, id, done', epsilon)
    ensures done' == done + set o | o in RegionBucket(cells, region, w) && Discerned(before, id, o)
  {
    after, done' := now, done;
    var k := 0;
    while k < |region|
      invariant k <= |region|
      invariant done' <= before.Keys && Recording(before, after, id, done', epsilon)
      invariant done' == done + set o | o in RegionBucket(cells, region[..k], w) && Discerned(before, id, o)
    {
      var cell := cells[region[k].0][region[k].1];
      RegionBucketStep(cells, region, k, w);
      assert Bucket(cell, w) <= before.Keys;
      ghost var prev := done';
      after, done' := CompareCell(before, after, id, cell, w, done', epsilon);
      UnionStep(before, id, done, RegionBucket(cells, region[..k], w), Bucket(cell, w), prev, done');
      k := k + 1;
    }
    assert region[..k] == region;
  }

  /** The bucket of `w` over the first `k + 1` cells of a region. */
  lemma RegionBucketStep(cells: seq<seq<Cell>>, region: seq<Coord>, k: nat, w: string)
    requires Covers(cells, region) && k < |region|
    ensures Covers(cells, region[..k]) && Covers(cells, region[..k + 1])
    ensures RegionBucket(cells, region[..k + 1], w) ==
      RegionBucket(cells, region[..k], w) + Bucket(cells[region[k].0][region[k].1], w)
  {
    assert region[..k + 1][..k] == region[..k];
  }

  /** One cell of the region: compare with the tweets of its bucket for `w`, if any. */
  method CompareCell(before: map<Id, Tweet>, now: map<Id, Tweet>, id: Id, cell: Cell, w: string,
                     ghost done: set<Id>, epsilon: real)
    returns (after: map<Id, Tweet>, ghost done': set<Id>)
    requires Rated(before) && id in before && done <= before.Keys
    requires Recording(before, now, id, done, epsilon)
    requires Bucket(cell, w) <= before.Keys
    ensures done' <= before.Keys && Recording(before, after, id, done', epsilon)
    ensures done' == done + set o | o in Bucket(cell, w) && Discerned(before, id, o)
  {
    after, done' := now, done;
    if w in cell.tweetsByWord {
      after, done' := CompareBucket(before, now, id, cell.tweetsByWord[w], done, epsilon);
    }
  }

  lemma UnionStep(before: map<Id, Tweet>, id: Id, done: set<Id>, a: set<Id>, b: set<Id>, prev: set<Id>, cur: set<Id>)
    requires id in before
    requires prev == done + set x | x in a && Discerned(before, id, x)
    requires cur == prev + set x | x in b && Discerned(before, id, x)
    ensures cur == done + set x | x in a + b && Discerned(before, id, x)
  {
  }

  /** The outer loop over the new tweet's words. */
  method CompareWords(cells: seq<seq<Cell>>, region: seq<Coord>, before: map<Id, Tweet>, id: Id, epsilon: real)
    returns (after: map<Id, Tweet>, ghost done: set<Id>)
    requires Covers(cells, region) && Stocked(cells, region, before)
    requires Rated(before) && id in before && Unlinked(before[id])
    ensures done <= before.Keys && Recording(before, after, id, done, epsilon)
    ensures done == Compared(cells, region, before, id)
  {
    RecordingStarts(before, id, epsilon);
    after, done := before, {};
    var words := before[id].words;
    var rest := words;
    while rest != {}
      invariant rest <= words
      invariant done <= before.Keys && Recording(before, after, id, done, epsilon)
      invariant done == set o | o in before && Discerned(before, id, o) &&
                                exists v :: v in words - rest && o in RegionBucket(cells, region, v)
    {
      var w :| w in rest;
      ghost var prev := done;
      after, done := CompareCells(cells, region, before, after, id, w, done, epsilon);
      WordStep(cells, region, before, id, words, rest, w, prev, done);
      rest := rest - {w};
    }
    assert words - rest == words;
  }

  lemma WordStep(cells: seq<seq<Cell>>, region: seq<Coord>, before: map<Id, Tweet>, id: Id,
                 words: set<string>, rest: set<string>, w: string, prev: set<Id>, done: set<Id>)
    requires Covers(cells, region) && id in before && w in rest && rest <= words
    requires prev == set o | o in before && Discerned(before, id, o) &&
                             exists v :: v in words - rest && o in RegionBucket(cells, region, v)
    requires done == prev + set o | o in RegionBucket(cells, region, w) && Discerned(before, id, o)
    ensures done == set o | o in before && Discerned(before, id, o) &&
                            exists v :: v in words - (rest - {w}) && o in RegionBucket(cells, region, v)
  {
    var next := set o | o in before && Discerned(before, id, o) &&
                        exists v :: v in words - (rest - {w}) && o in RegionBucket(cells, region, v);
    forall o | o in done ensures o in next {
      if o !in prev {
        assert w in words - (rest - {w}) && o in RegionBucket(cells, region, w);
      }
    }
    forall o | o in next ensures o in done {
      var v :| v in words - (rest - {w}) && o in RegionBucket(cells, region, v);
      if v != w {
        assert v in words - rest;
      }
    }
  }

  /** The comparison loops for a new tweet: on return the new tweet has been
      compared with exactly `Compared(...)`. */
  method CompareNew(cells: seq<seq<Cell>>, tweets: map<Id, Tweet>, id: Id, epsilon: real)
    returns (after: map<Id, Tweet>)
    requires Rated(tweets) && id in tweets && Unlinked(tweets[id])
    requires tweets[id].x < |cells| && tweets[id].y < |cells[tweets[id].x]|
    requires Covers(cells, cells[tweets[id].x][tweets[id].y].region)
    requires Stocked(cells, cells[tweets[id].x][tweets[id].y].region, tweets)
    ensures var region := cells[tweets[id].x][tweets[id].y].region;
      Recording(tweets, after, id, Compared(cells, region, tweets, id), epsilon)
  {
    var region := cells[tweets[id].x][tweets[id].y].region;
    ghost var done;
    after, done := CompareWords(cells, region, tweets, id, epsilon);
  }

  /** With the cells filed, the bucket of `w` over a region holds exactly the
      tweets located in a cell of the region that hold `w`. */
  lemma RegionBucketMembers(cells: seq<seq<Cell>>, tweets: map<Id, Tweet>, cols: nat, rows: nat,
                            region: seq<Coord>, w: string, o: Id)
    requires Filed(cells, tweets, cols, rows)
    requires forall k :: 0 <= k < |region| ==> InGrid(region[k], cols, rows)
    ensures Covers(cells, region)
    ensures o in RegionBucket(cells, region, w) <==>
      o in tweets && (tweets[o].x, tweets[o].y) in region && w in tweets[o].words
  {
    assert Indexed(cells, tweets, cols, rows);
    BucketsOverRegion(cells, tweets, cols, rows, region, w, o);
  }

  lemma {:induction false} BucketsOverRegion(cells: seq<seq<Cell>>, tweets: map<Id, Tweet>, cols: nat, rows: nat,
                                             region: seq<Coord>, w: string, o: Id)
    requires Shaped(cells, cols, rows)
    requires forall i, j :: 0 <= i < cols && 0 <= j < rows ==> Bucket(cells[i][j], w) == Holders(tweets, i, j, w)
    requires forall k :: 0 <= k < |region| ==> InGrid(region[k], cols, rows)
    ensures Covers(cells, region)
    ensures o in RegionBucket(cells, region, w) <==>
      o in tweets && (tweets[o].x, tweets[o].y) in region && w in tweets[o].words
  {
    if region != [] {
      var n := |region| - 1;
      var init := region[..n];
      assert forall k :: 0 <= k < |init| ==> init[k] == region[k];
      BucketsOverRegion(cells, tweets, cols, rows, init, w, o);
      var c := region[n];
      assert InGrid(c, cols, rows);
      assert Bucket(cells[c.0][c.1], w) == Holders(tweets, c.0, c.1, w);
      assert region == init + [c];
    }
  }

  /** The tweets a new tweet is compared with are exactly the other tweets located
      in its cell's region that share a word with it and lack one of its words. */
  lemma ComparedAreNearbySharers(cells: seq<seq<Cell>>, tweets: map<Id, Tweet>, cols: nat, rows: nat, id: Id)
    requires Filed(cells, tweets, cols, rows) && id in tweets
    ensures var region := cells[tweets[id].x][tweets[id].y].region;
      && Covers(cells, region)
      && forall o :: o in Compared(cells, region, tweets, id) <==>
           && o in tweets && o != id
           && (tweets[o].x, tweets[o].y) in region
           && tweets[id].words * tweets[o].words != {}
           && !(tweets[id].words <= tweets[o].words)
  {
    var t := tweets[id];
    var region := cells[t.x][t.y].region;
    forall w, o ensures Covers(cells, region) &&
      (o in RegionBucket(cells, region, w) <==> o in tweets && (tweets[o].x, tweets[o].y) in region && w in tweets[o].words)
    {
      RegionBucketMembers(cells, tweets, cols, rows, region, w, o);
    }
    forall o ensures o in Compared(cells, region, tweets, id) <==>
      && o in tweets && o != id
      && (tweets[o].x, tweets[o].y) in region
      && t.words * tweets[o].words != {}
      && !(t.words <= tweets[o].words)
    {
      if o in tweets && o != id && (tweets[o].x, tweets[o].y) in region && t.words * tweets[o].words != {} {
        var w :| w in t.words * tweets[o].words;
        assert o in RegionBucket(cells, region, w);
      }
      if o in Compared(cells, region, tweets, id) {
        var w :| w in t.words && o in RegionBucket(cells, region, w);
        assert w in t.words * tweets[o].words;
      }
    }
  }

  /** After the comparisons the new tweet's neighbours are exactly the tweets
      located in its cell's region that share a word with it, lack one of its
      words, and lie within `epsilon` of it. */
  lemma NewNeighborsAreNearbySimilar(cells: seq<seq<Cell>>, tweets: map<Id, Tweet>, after: map<Id, Tweet>,
                                     cols: nat, rows: nat, id: Id, epsilon: real)
    requires Filed(cells, tweets, cols, rows) && Rated(tweets) && id in tweets
    requires Covers(cells, cells[tweets[id].x][tweets[id].y].region)
    requires Recording(tweets, after, id, Compared(cells, cells[tweets[id].x][tweets[id].y].region, tweets, id), epsilon)
    ensures forall o :: o in Ids(after[id].neighbors) <==>
      && o in tweets && o != id
      && (tweets[o].x, tweets[o].y) in cells[tweets[id].x][tweets[id].y].region
      && tweets[id].words * tweets[o].words != {}
      && !(tweets[id].words <= tweets[o].words)
      && OpticsDistance(tweets[id], tweets[o], epsilon) <= epsilon
  {
    var region := cells[tweets[id].x][tweets[id].y].region;
    ComparedAreNearbySharers(cells, tweets, cols, rows, id);
    assert NewSide(tweets, after, id, Compared(cells, region, tweets, id), epsilon);
  }

  /** The links and caches of the older tweets never mention the new tweet. */
  ghost predicate Unmentioned(tweets: map<Id, Tweet>, id: Id) {
    forall a :: a in tweets ==> id !in tweets[a].distances
  }

  /** Comparing a new tweet keeps every link mutual, every multimap exact and every
      cached distance valid. */
  lemma CompareKeepsLinked(before: map<Id, Tweet>, after: map<Id, Tweet>, id: Id, done: set<Id>, epsilon: real)
    requires Rated(before) && Linked(before, epsilon) && Cached(before, epsilon)
    requires id in before && Unlinked(before[id]) && Unmentioned(before, id)
    requires done <= before.Keys && id !in done && Recording(before, after, id, done, epsilon)
    ensures Rated(after) && Linked(after, epsilon) && Cached(after, epsilon)
  {
    RecordingKeepsTexts(before, after, id, done, epsilon);
    forall a | a in after ensures Entries(after, a) {
      EntriesAfterCompare(before, after, id, done, epsilon, a);
    }
    forall a, b | a in after && b in after ensures Pair(after, a, b, epsilon) {
      PairAfterCompare(before, after, id, done, epsilon, a, b);
    }
    forall a, b | a in after && b in after && b in after[a].distances
      ensures after[a].distances[b] == OpticsDistance(after[a], after[b], epsilon)
    {
      CachedAfterCompare(before, after, id, done, epsilon, a, b);
    }
  }

  lemma EntriesAfterCompare(before: map<Id, Tweet>, after: map<Id, Tweet>, id: Id, done: set<Id>, epsilon: real, a: Id)
    requires Rated(before) && Linked(before, epsilon)
    requires id in before && Unlinked(before[id]) && Unmentioned(before, id)
    requires done <= before.Keys && id !in done && Recording(before, after, id, done, epsilon)
    requires a in after
    ensures Entries(after, a)
  {
    if a != id {
      assert Entries(before, a);
      var t := before[a];
      assert id !in t.distances;
      var t' := if a in done then Recorded(t, id, Dist(before, id, a, epsilon), epsilon) else t;
      assert after[a] == t';
      if a in done {
        RecordedEntries(before.Keys, t, a, id, Dist(before, id, a, epsilon), epsilon);
      }
    }
  }

  /** The older tweet's entries after it recorded a comparison with the new tweet. */
  lemma RecordedEntries(live: set<Id>, t: Tweet, a: Id, id: Id, d: real, epsilon: real)
    requires Sorted(t.neighbors) && NoDupIds(t.neighbors) && a !in t.distances && a != id
    requires forall e :: e in t.neighbors ==> e.1 in live && e.1 in t.distances && t.distances[e.1] == e.0
    requires id !in t.distances && id in live
    ensures var t' := Recorded(t, id, d, epsilon);
      && Sorted(t'.neighbors) && NoDupIds(t'.neighbors) && a !in t'.distances
      && forall e :: e in t'.neighbors ==> e.1 in live && e.1 in t'.distances && t'.distances[e.1] == e.0
  {
    var s := t.neighbors;
    assert id !in Ids(s);
    if d <= epsilon {
      InsertKeepsSorted(s, d, id);
      InsertKeepsNoDupIds(s, d, id);
      InsertAddsOne(s, d, id);
      forall e | e in Insert(s, d, id)
        ensures e.1 in live && e.1 in t.distances[id := d] && t.distances[id := d][e.1] == e.0
      {
        assert e in multiset(Insert(s, d, id));
        assert e in multiset(s) || e == (d, id);
      }
    }
  }

  lemma PairAfterCompare(before: map<Id, Tweet>, after: map<Id, Tweet>, id: Id, done: set<Id>, epsilon: real, a: Id, b: Id)
    requires Rated(before) && Linked(before, epsilon)
    requires id in before && Unlinked(before[id]) && Unmentioned(before, id)
    requires done <= before.Keys && id !in done && Recording(before, after, id, done, epsilon)
    requires a in after && b in after
    ensures Pair(after, a, b, epsilon)
  {
    if a == id {
      PairFromNew(before, after, id, done, epsilon, b);
    } else if b == id {
      PairToNew(before, after, id, done, epsilon, a);
    } else {
      PairOfOlder(before, after, id, done, epsilon, a, b);
    }
  }

  /** The new tweet's side of a pair: its cache and multimap were built together. */
  lemma PairFromNew(before: map<Id, Tweet>, after: map<Id, Tweet>, id: Id, done: set<Id>, epsilon: real, b: Id)
    requires Rated(before) && id in before && done <= before.Keys && id !in done
    requires Recording(before, after, id, done, epsilon)
    requires b in after
    ensures id in after && Pair(after, id, b, epsilon)
  {
    assert NewSide(before, after, id, done, epsilon);
    if b in after[id].distances {
      assert b in done && b != id;
      assert OldSide(before, after, id, done, epsilon);
      assert after[b] == Recorded(before[b], id, Dist(before, id, b, epsilon), epsilon);
    }
  }

  /** An older tweet's entry for the new tweet mirrors the new tweet's entry. */
  lemma PairToNew(before: map<Id, Tweet>, after: map<Id, Tweet>, id: Id, done: set<Id>, epsilon: real, a: Id)
    requires Rated(before) && Linked(before, epsilon)
    requires id in before && Unmentioned(before, id)
    requires done <= before.Keys && id !in done && Recording(before, after, id, done, epsilon)
    requires a in after && a != id
    ensures id in after && Pair(after, a, id, epsilon)
  {
    assert NewSide(before, after, id, done, epsilon) && OldSide(before, after, id, done, epsilon);
    assert Entries(before, a);
    if a in done {
      var d := Dist(before, id, a, epsilon);
      assert after[a] == Recorded(before[a], id, d, epsilon);
      assert id !in Ids(before[a].neighbors);
      if d <= epsilon {
        InsertAddsOne(before[a].neighbors, d, id);
      }
    } else {
      assert after[a] == before[a];
    }
  }

  /** Two older tweets keep their pair: only entries for the new tweet were added. */
  lemma PairOfOlder(before: map<Id, Tweet>, after: map<Id, Tweet>, id: Id, done: set<Id>, epsilon: real, a: Id, b: Id)
    requires Rated(before) && Linked(before, epsilon)
    requires id in before && done <= before.Keys && Recording(before, after, id, done, epsilon)
    requires a in after && b in after && a != id && b != id
    ensures Pair(after, a, b, epsilon)
  {
    assert Pair(before, a, b, epsilon);
    OlderAfter(before, after, id, done, epsilon, a);
    OlderAfter(before, after, id, done, epsilon, b);
  }

  /** An older tweet after the comparisons: at most the new tweet was added to its
      cache and, within `epsilon`, to its neighbours. */
  lemma OlderAfter(before: map<Id, Tweet>, after: map<Id, Tweet>, id: Id, done: set<Id>, epsilon: real, a: Id)
    requires Rated(before) && id in before && done <= before.Keys && Recording(before, after, id, done, epsilon)
    requires a in before && a != id
    ensures a in after
    ensures forall b :: b != id ==> (b in after[a].distances <==> b in before[a].distances)
    ensures forall b :: b != id && b in before[a].distances ==> after[a].distances[b] == before[a].distances[b]
    ensures forall b :: b != id ==> (b in Ids(after[a].neighbors) <==> b in Ids(before[a].neighbors))
  {
    assert OldSide(before, after, id, done, epsilon);
    if a in done {
      var d := Dist(before, id, a, epsilon);
      if d <= epsilon {
        InsertAddsOne(before[a].neighbors, d, id);
      }
    }
  }

  lemma CachedAfterCompare(before: map<Id, Tweet>, after: map<Id, Tweet>, id: Id, done: set<Id>, epsilon: real, a: Id, b: Id)
    requires Rated(before) && Cached(before, epsilon)
    requires id in before && Unmentioned(before, id)
    requires done <= before.Keys && id !in done && Recording(before, after, id, done, epsilon)
    requires a in after && b in after && b in after[a].distances
    requires SameTexts(before, after)
    ensures Rated(after) && after[a].distances[b] == OpticsDistance(after[a], after[b], epsilon)
  {
    DistanceOfSameText(before[a], before[b], after[a], after[b], epsilon);
    if a != id && b == id {
      DistanceSymmetric(before[id], before[a], epsilon);
    }
  }
}
