/** What holds of the daemon's state between two steps, and why every step keeps
    it: the grid indexes exactly the live tweets, the links between tweets are
    mutual and exact, the window is in order of admission, and every tweet whose
    neighbours changed is marked for update. */
module Upkeep {
  import opened Config
  import opened Multimap
  import opened Grid
  import opened Tweets
  import opened Tokenize
  import opened CellIndex
  import opened Rates
  import opened Arena
  import opened Links
  import opened Compare
  import opened Teardown
  import opened Admission
  import opened Optics
  import opened Passes

  /** The row `Initialize` builds the delimiter from. */
  const DELIMITER_ROW: Incoming := Incoming(0, 0.0, 0.0, "DELIMIT", "DELIMIT", "0", false)

  /** Every cell holds its own region. */
  ghost predicate Regioned(cells: seq<seq<Cell>>, radius: real, cols: nat, rows: nat) {
    && Shaped(cells, cols, rows)
    && forall i, j :: 0 <= i < cols && 0 <= j < rows ==> IsRegion(cells[i][j].region, i, j, radius, cols, rows)
  }

  /** The tweet at `i` in the window was admitted before the one at `j`. */
  ghost predicate Older(queue: seq<Id>, i: int, j: int)
    requires 0 <= i < |queue| && 0 <= j < |queue|
  {
    queue[i] < queue[j]
  }

  /** The arena holds the delimiter and the window, nothing else; the window is in
      order of admission; the delimiter stays outside every cluster. */
  ghost predicate Windowed(tweets: map<Id, Tweet>, queue: seq<Id>, delimiter: Id, threshold: real) {
    && delimiter in tweets && delimiter !in queue
    && InArena(tweets, queue)
    && (forall id :: id in tweets ==> id == delimiter || id in queue)
    && (forall i, j {:trigger Older(queue, i, j)} :: 0 <= i < j < |queue| ==> Older(queue, i, j))
    && tweets[delimiter].smallestReachability == threshold + 1.0
  }

  /** A multimap that satisfies the link invariants never refers to its owner and
      refers to each live tweet at most once. */
  lemma EntriesAreOthers(tweets: map<Id, Tweet>, id: Id)
    requires id in tweets && Entries(tweets, id)
    ensures NoDupIds(tweets[id].neighbors) && Ids(tweets[id].neighbors) <= tweets.Keys - {id}
  {
    var s := tweets[id].neighbors;
    forall o | o in Ids(s) ensures o in tweets && o != id {
      var k :| 0 <= k < |s| && s[k].1 == o;
      assert s[k] in s;
    }
  }

  /** Computing the regions changes nothing else and keeps every region inside the grid. */
  lemma RegionsKeepFiled(a: seq<seq<Cell>>, b: seq<seq<Cell>>, tweets: map<Id, Tweet>, radius: real, cols: nat, rows: nat)
    requires Filed(a, tweets, cols, rows) && Shaped(b, cols, rows)
    requires forall i, j :: 0 <= i < cols && 0 <= j < rows ==>
      b[i][j] == a[i][j].(region := b[i][j].region) && IsRegion(b[i][j].region, i, j, radius, cols, rows)
    ensures Filed(b, tweets, cols, rows) && Regioned(b, radius, cols, rows)
  {
    forall i, j, k | 0 <= i < cols && 0 <= j < rows && 0 <= k < |b[i][j].region|
      ensures InGrid(b[i][j].region[k], cols, rows)
    {
      assert b[i][j].region[k] in b[i][j].region;
    }
  }

  /** Recording the comparisons changes only neighbours, caches and update marks. */
  lemma RecordingKeepsRest(before: map<Id, Tweet>, after: map<Id, Tweet>, id: Id, done: set<Id>, epsilon: real)
    requires Rated(before) && id in before && done <= before.Keys
    requires Recording(before, after, id, done, epsilon)
    ensures SamePlaces(before, after)
    ensures forall o :: o in before ==> after[o].smallestReachability == before[o].smallestReachability
  {
    assert NewSide(before, after, id, done, epsilon) && OldSide(before, after, id, done, epsilon);
  }

  /** The comparisons cache only distances between the new tweet and live tweets. */
  lemma CompareKeepsFresh(before: map<Id, Tweet>, after: map<Id, Tweet>, id: Id, done: set<Id>,
                          epsilon: real, nextId: Id)
    requires Rated(before) && id in before && done <= before.Keys
    requires Recording(before, after, id, done, epsilon) && Fresh(before, nextId)
    ensures Fresh(after, nextId)
  {
    assert NewSide(before, after, id, done, epsilon) && OldSide(before, after, id, done, epsilon);
    forall a, b | a in after && b in after[a].distances ensures b < nextId {
      if a != id && b != id {
        assert b in before[a].distances;
      }
    }
  }

  /** A comparison that changes a tweet's neighbours marks it for update. */
  lemma CompareKeepsCurrent(before: map<Id, Tweet>, after: map<Id, Tweet>, id: Id, done: set<Id>,
                            epsilon: real, queue: seq<Id>, minPts: nat)
    requires Rated(before) && id in before && done <= before.Keys && minPts >= 1
    requires Recording(before, after, id, done, epsilon)
    requires before[id].requireUpdate && CoresCurrent(before, queue, minPts, epsilon)
    ensures CoresCurrent(after, queue, minPts, epsilon)
  {
    assert NewSide(before, after, id, done, epsilon) && OldSide(before, after, id, done, epsilon);
  }

  /** A new tweet enters the window marked for update. */
  lemma AdmitKeepsCurrent(tweets: map<Id, Tweet>, queue: seq<Id>, minPts: nat, epsilon: real, id: Id, t: Tweet)
    requires minPts >= 1 && CoresCurrent(tweets, queue, minPts, epsilon) && t.requireUpdate
    ensures CoresCurrent(tweets[id := t], queue + [id], minPts, epsilon)
  {
    forall o | o in queue + [id] && o in tweets[id := t] && o != id ensures o in queue {
      var k :| 0 <= k < |queue + [id]| && (queue + [id])[k] == o;
      assert k < |queue|;
    }
  }

  /** The destructor marks every tweet whose neighbours it changes, caches nothing
      new and keeps every smallest reachability distance. */
  lemma DestroyKeepsRest(tweets: map<Id, Tweet>, id: Id, nextId: Id, queue: seq<Id>, queue': seq<Id>,
                         minPts: nat, epsilon: real)
    requires id in tweets && Fresh(tweets, nextId) && minPts >= 1
    requires CoresCurrent(tweets, queue, minPts, epsilon)
    requires forall o :: o in queue' ==> o in queue
    ensures var after := Detached(tweets, id);
      && Fresh(after, nextId) && CoresCurrent(after, queue', minPts, epsilon)
      && SamePlaces(tweets - {id}, after)
      && forall o :: o in after ==> after[o].smallestReachability == tweets[o].smallestReachability
  {
  }


  /** The state invariant of the daemon. */
  ghost predicate Invariant(cfg: Settings, delimiter: Id, cells: seq<seq<Cell>>, tweets: map<Id, Tweet>,
                            queue: seq<Id>, nextId: Id)
  {
    && cfg.Valid()
    && Filed(cells, tweets, cfg.Columns(), cfg.Rows())
    && Regioned(cells, cfg.Radius(), cfg.Columns(), cfg.Rows())
    && Consistent(tweets, cfg.epsilon, nextId)
    && Windowed(tweets, queue, delimiter, cfg.reachabilityThreshold)
    && CoresCurrent(tweets, queue, cfg.minPts, cfg.epsilon)
  }

  /** `Initialize` establishes the invariant: the delimiter is the only tweet, and
      the window is empty. */
  lemma InitialInvariant(cfg: Settings, grid: seq<seq<Cell>>, placed: seq<seq<Cell>>, t: Tweet,
                         withRegions: seq<seq<Cell>>)
    requires cfg.Valid() && Shaped(grid, cfg.Columns(), cfg.Rows())
    requires forall i, j :: 0 <= i < cfg.Columns() && 0 <= j < cfg.Rows() ==> grid[i][j] == EmptyCell(i, j)
    requires InGrid((t.x, t.y), cfg.Columns(), cfg.Rows()) && Unlinked(t)
    requires placed == Replace(grid, t.x, t.y, AddTweet(grid[t.x][t.y], 0, t.words))
    requires Covers(placed, grid[t.x][t.y].region)
    requires t.regionalRates == RegionalRates(placed, grid[t.x][t.y].region, t.words)
    requires Shaped(withRegions, cfg.Columns(), cfg.Rows())
    requires forall i, j :: 0 <= i < cfg.Columns() && 0 <= j < cfg.Rows() ==>
      withRegions[i][j] == placed[i][j].(region := withRegions[i][j].region) &&
      IsRegion(withRegions[i][j].region, i, j, cfg.Radius(), cfg.Columns(), cfg.Rows())
    ensures var d := t.(smallestReachability := cfg.reachabilityThreshold + 1.0);
      Invariant(cfg, 0, withRegions, map[0 := d], [], 1)
  {
    var cols, rows := cfg.Columns(), cfg.Rows();
    var d := t.(smallestReachability := cfg.reachabilityThreshold + 1.0);
    assert Filed(grid, map[], cols, rows);
    AdmitKeepsConsistent(grid, map[], cols, rows, cfg.epsilon, 0, d, placed);
    RegionsKeepFiled(placed, withRegions, map[0 := d], cfg.Radius(), cols, rows);
  }

  /** A row landing in the grid can be constructed: the grid is laid out, the
      row's cell and its region lie inside it, and the next id is unused. */
  lemma ReadyToConstruct(cfg: Settings, delimiter: Id, cells: seq<seq<Cell>>, tweets: map<Id, Tweet>,
                         queue: seq<Id>, nextId: Id, m: Incoming)
    requires Invariant(cfg, delimiter, cells, tweets, queue, nextId) && Lands(cfg, m)
    ensures Shaped(cells, cfg.Columns(), cfg.Rows()) && nextId !in tweets
    ensures Covers(cells, cells[Column(cfg, m.lon)][Row(cfg, m.lat)].region)
  {
    assert Layout(cells, cfg.Columns(), cfg.Rows());
  }

  /** A constructed tweet can be compared with the tweets of its region. */
  lemma ReadyToCompare(cfg: Settings, delimiter: Id, cells: seq<seq<Cell>>, tweets: map<Id, Tweet>,
                       queue: seq<Id>, nextId: Id, t: Tweet, cells1: seq<seq<Cell>>)
    requires Invariant(cfg, delimiter, cells, tweets, queue, nextId)
    requires InGrid((t.x, t.y), cfg.Columns(), cfg.Rows()) && Unlinked(t)
    requires cells1 == Replace(cells, t.x, t.y, AddTweet(cells[t.x][t.y], nextId, t.words))
    requires Covers(cells1, cells[t.x][t.y].region)
    requires t.regionalRates == RegionalRates(cells1, cells[t.x][t.y].region, t.words)
    ensures var tweets1 := tweets[nextId := t];
      && nextId !in tweets && Rated(tweets1) && t.x < |cells1| && t.y < |cells1[t.x]|
      && cells1[t.x][t.y].region == cells[t.x][t.y].region
      && Covers(cells1, cells1[t.x][t.y].region) && Stocked(cells1, cells1[t.x][t.y].region, tweets1)
  {
    var cols, rows := cfg.Columns(), cfg.Rows();
    assert nextId !in tweets;
    AdmitKeepsConsistent(cells, tweets, cols, rows, cfg.epsilon, nextId, t, cells1);
    assert Layout(cells1, cols, rows);
    FiledIsStocked(cells1, tweets[nextId := t], cols, rows, cells1[t.x][t.y].region);
  }

  /** Skipping an id keeps the invariant. */
  lemma SkipKeepsInvariant(cfg: Settings, delimiter: Id, cells: seq<seq<Cell>>, tweets: map<Id, Tweet>,
                           queue: seq<Id>, nextId: Id)
    requires Invariant(cfg, delimiter, cells, tweets, queue, nextId)
    ensures Invariant(cfg, delimiter, cells, tweets, queue, nextId + 1)
  {
    assert Fresh(tweets, nextId);
  }

  /** A tweet without words leaves no trace: constructing and destroying it gives
      back the cells and the arena as they were. */
  lemma DroppedLeavesNoTrace(cells: seq<seq<Cell>>, tweets: map<Id, Tweet>, id: Id, t: Tweet, cells1: seq<seq<Cell>>)
    requires t.x < |cells| && t.y < |cells[t.x]| && id !in tweets && t.words == {} && Unlinked(t)
    requires cells1 == Replace(cells, t.x, t.y, AddTweet(cells[t.x][t.y], id, t.words))
    ensures Replace(cells1, t.x, t.y, RemoveTweet(cells1[t.x][t.y], id, t.words)) == cells
    ensures Detached(tweets[id := t], id) == tweets
  {
    var cell := cells[t.x][t.y];
    var b := cell.tweetsByWord;
    assert Index(b, id, {}) == b;
    assert Unindex(b, id, {}) == b;
    assert cells1[t.x][t.y] == cell.(tweetCount := cell.tweetCount + 1);
    assert RemoveTweet(cells1[t.x][t.y], id, {}) == cell;
    assert cells[t.x][t.y := cell] == cells[t.x];
    assert cells1[t.x][t.y := cell] == cells[t.x];
    assert Replace(cells1, t.x, t.y, cell) == cells1[t.x := cells[t.x]] == cells;
  }

  /** The grid after a new tweet was admitted and compared. */
  lemma AdmittedFiled(cells: seq<seq<Cell>>, tweets: map<Id, Tweet>, cols: nat, rows: nat, epsilon: real,
                      nextId: Id, t: Tweet, cells1: seq<seq<Cell>>, done: set<Id>, tweets2: map<Id, Tweet>)
    requires Filed(cells, tweets, cols, rows) && nextId !in tweets && InGrid((t.x, t.y), cols, rows)
    requires cells1 == Replace(cells, t.x, t.y, AddTweet(cells[t.x][t.y], nextId, t.words))
    requires Rated(tweets[nextId := t]) && Covers(cells1, cells1[t.x][t.y].region)
    requires done <= tweets.Keys && nextId !in done
    requires Recording(tweets[nextId := t], tweets2, nextId, done, epsilon)
    ensures Filed(cells1, tweets2, cols, rows) && SameRegions(cells, cells1, cols, rows)
    ensures SamePlaces(tweets[nextId := t], tweets2)
    ensures forall o :: o in tweets ==> tweets2[o].smallestReachability == tweets[o].smallestReachability
  {
    var tweets1 := tweets[nextId := t];
    AdmitKeepsFiled(cells, tweets, cols, rows, nextId, t);
    RecordingKeepsRest(tweets1, tweets2, nextId, done, epsilon);
    SamePlacesKeepFiled(cells1, tweets1, tweets2, cols, rows);
  }

  /** The links after a new tweet was admitted and compared. */
  lemma AdmittedLinks(cells: seq<seq<Cell>>, tweets: map<Id, Tweet>, cols: nat, rows: nat, epsilon: real,
                      nextId: Id, t: Tweet, cells1: seq<seq<Cell>>, done: set<Id>, tweets2: map<Id, Tweet>)
    requires Filed(cells, tweets, cols, rows) && Consistent(tweets, epsilon, nextId)
    requires InGrid((t.x, t.y), cols, rows) && Unlinked(t)
    requires cells1 == Replace(cells, t.x, t.y, AddTweet(cells[t.x][t.y], nextId, t.words))
    requires Covers(cells1, cells[t.x][t.y].region)
    requires t.regionalRates == RegionalRates(cells1, cells[t.x][t.y].region, t.words)
    requires Rated(tweets[nextId := t])
    requires done <= tweets.Keys && nextId !in done
    requires Recording(tweets[nextId := t], tweets2, nextId, done, epsilon)
    ensures Consistent(tweets2, epsilon, nextId + 1)
  {
    var tweets1 := tweets[nextId := t];
    AdmitKeepsConsistent(cells, tweets, cols, rows, epsilon, nextId, t, cells1);
    CompareKeepsLinked(tweets1, tweets2, nextId, done, epsilon);
    CompareKeepsFresh(tweets1, tweets2, nextId, done, epsilon, nextId + 1);
  }

  /** The window after appending a new tweet. */
  lemma AppendKeepsWindowed(tweets: map<Id, Tweet>, tweets2: map<Id, Tweet>, queue: seq<Id>, delimiter: Id,
                            threshold: real, nextId: Id)
    requires Windowed(tweets, queue, delimiter, threshold) && Fresh(tweets, nextId)
    requires tweets2.Keys == tweets.Keys + {nextId}
    requires tweets2[delimiter].smallestReachability == tweets[delimiter].smallestReachability
    ensures Windowed(tweets2, queue + [nextId], delimiter, threshold)
  {
    var q := queue + [nextId];
    forall i, j | 0 <= i < j < |q| ensures Older(q, i, j) {
      if j == |queue| {
        assert queue[i] in tweets;
      } else {
        assert Older(queue, i, j);
      }
    }
    forall id | id in tweets2 ensures id == delimiter || id in q {
      if id != nextId && id != delimiter {
        var k :| 0 <= k < |queue| && queue[k] == id;
        assert q[k] == id;
      }
    }
  }

  /** Admitting a tweet with words and comparing it keeps the invariant. */
  lemma ReceiveKeepsInvariant(cfg: Settings, delimiter: Id, cells: seq<seq<Cell>>, tweets: map<Id, Tweet>,
                              queue: seq<Id>, nextId: Id, t: Tweet, cells1: seq<seq<Cell>>, done: set<Id>, tweets2: map<Id, Tweet>)
    requires Invariant(cfg, delimiter, cells, tweets, queue, nextId)
    requires InGrid((t.x, t.y), cfg.Columns(), cfg.Rows()) && Unlinked(t) && t.requireUpdate
    requires cells1 == Replace(cells, t.x, t.y, AddTweet(cells[t.x][t.y], nextId, t.words))
    requires Covers(cells1, cells[t.x][t.y].region)
    requires t.regionalRates == RegionalRates(cells1, cells[t.x][t.y].region, t.words)
    requires Rated(tweets[nextId := t])
    requires done <= tweets.Keys && nextId !in done
    requires Recording(tweets[nextId := t], tweets2, nextId, done, cfg.epsilon)
    ensures Invariant(cfg, delimiter, cells1, tweets2, queue + [nextId], nextId + 1)
    ensures tweets2.Keys == tweets.Keys + {nextId} && tweets2[nextId].words == t.words
  {
    ReceiveKeepsArena(cells, tweets, cfg.Columns(), cfg.Rows(), cfg.Radius(), cfg.epsilon, nextId, t, cells1, done, tweets2);
    ReceiveKeepsWindowed(tweets, t, done, tweets2, queue, delimiter, cfg.reachabilityThreshold, cfg.minPts, cfg.epsilon, nextId);
  }

  /** The received tweet is filed in its cell, the cells keep their regions, and
      the comparisons leave the links consistent. */
  lemma ReceiveKeepsArena(cells: seq<seq<Cell>>, tweets: map<Id, Tweet>, cols: nat, rows: nat, radius: real,
                          epsilon: real, nextId: Id, t: Tweet, cells1: seq<seq<Cell>>, done: set<Id>, tweets2: map<Id, Tweet>)
    requires Filed(cells, tweets, cols, rows) && Regioned(cells, radius, cols, rows) && Consistent(tweets, epsilon, nextId)
    requires InGrid((t.x, t.y), cols, rows) && Unlinked(t)
    requires cells1 == Replace(cells, t.x, t.y, AddTweet(cells[t.x][t.y], nextId, t.words))
    requires Covers(cells1, cells[t.x][t.y].region)
    requires t.regionalRates == RegionalRates(cells1, cells[t.x][t.y].region, t.words)
    requires Rated(tweets[nextId := t])
    requires done <= tweets.Keys && nextId !in done
    requires Recording(tweets[nextId := t], tweets2, nextId, done, epsilon)
    ensures Filed(cells1, tweets2, cols, rows) && Regioned(cells1, radius, cols, rows)
    ensures Consistent(tweets2, epsilon, nextId + 1) && SamePlaces(tweets[nextId := t], tweets2)
    ensures forall o :: o in tweets ==> tweets2[o].smallestReachability == tweets[o].smallestReachability
  {
    assert nextId !in tweets;
    AdmittedFiled(cells, tweets, cols, rows, epsilon, nextId, t, cells1, done, tweets2);
    AdmittedLinks(cells, tweets, cols, rows, epsilon, nextId, t, cells1, done, tweets2);
    SameRegionsKeepRegioned(cells, cells1, radius, cols, rows);
  }

  /** The received tweet joins the back of the window, to be refreshed by the next
      passes, and the tweets it was compared with are marked for refreshing. */
  lemma ReceiveKeepsWindowed(tweets: map<Id, Tweet>, t: Tweet, done: set<Id>, tweets2: map<Id, Tweet>, queue: seq<Id>,
                             delimiter: Id, threshold: real, minPts: nat, epsilon: real, nextId: Id)
    requires Windowed(tweets, queue, delimiter, threshold) && Fresh(tweets, nextId)
    requires minPts >= 1 && CoresCurrent(tweets, queue, minPts, epsilon) && t.requireUpdate
    requires Rated(tweets[nextId := t]) && done <= tweets.Keys && nextId !in done
    requires Recording(tweets[nextId := t], tweets2, nextId, done, epsilon)
    requires SamePlaces(tweets[nextId := t], tweets2)
    requires forall o :: o in tweets ==> tweets2[o].smallestReachability == tweets[o].smallestReachability
    ensures Windowed(tweets2, queue + [nextId], delimiter, threshold)
    ensures CoresCurrent(tweets2, queue + [nextId], minPts, epsilon)
  {
    AdmitKeepsCurrent(tweets, queue, minPts, epsilon, nextId, t);
    CompareKeepsCurrent(tweets[nextId := t], tweets2, nextId, done, epsilon, queue + [nextId], minPts);
    assert delimiter in tweets;
    AppendKeepsWindowed(tweets, tweets2, queue, delimiter, threshold, nextId);
  }

  lemma SameRegionsKeepRegioned(a: seq<seq<Cell>>, b: seq<seq<Cell>>, radius: real, cols: nat, rows: nat)
    requires Regioned(a, radius, cols, rows) && Shaped(b, cols, rows) && SameRegions(a, b, cols, rows)
    ensures Regioned(b, radius, cols, rows)
  {
  }

  /** Destroying the oldest tweet of the window is possible and keeps the invariant. */
  lemma EvictKeepsInvariant(cfg: Settings, delimiter: Id, cells: seq<seq<Cell>>, tweets: map<Id, Tweet>,
                            queue: seq<Id>, nextId: Id)
    requires Invariant(cfg, delimiter, cells, tweets, queue, nextId) && queue != []
    ensures var id := queue[0];
      && id in tweets && tweets[id].x < |cells| && tweets[id].y < |cells[tweets[id].x]|
      && tweets[id].words <= cells[tweets[id].x][tweets[id].y].tweetsByWord.Keys
      && NoDupIds(tweets[id].neighbors) && Ids(tweets[id].neighbors) <= tweets.Keys - {id}
      && Invariant(cfg, delimiter,
                   Replace(cells, tweets[id].x, tweets[id].y, RemoveTweet(cells[tweets[id].x][tweets[id].y], id, tweets[id].words)),
                   Detached(tweets, id), queue[1..], nextId)
  {
    var cols, rows := cfg.Columns(), cfg.Rows();
    var id := queue[0];
    assert id in tweets;
    FiledUnderItsWords(cells, tweets, cols, rows, id);
    assert Entries(tweets, id);
    EntriesAreOthers(tweets, id);
    DestroyKeepsFiled(cells, tweets, cols, rows, id);
    DestroyKeepsLinked(tweets, id, cfg.epsilon);
    DestroyKeepsRest(tweets, id, nextId, queue, queue[1..], cfg.minPts, cfg.epsilon);
    DropKeepsWindowed(tweets, Detached(tweets, id), queue, delimiter, cfg.reachabilityThreshold);
  }

  /** The window after dropping its oldest tweet. */
  lemma DropKeepsWindowed(tweets: map<Id, Tweet>, after: map<Id, Tweet>, queue: seq<Id>, delimiter: Id, threshold: real)
    requires Windowed(tweets, queue, delimiter, threshold) && queue != []
    requires after.Keys == tweets.Keys - {queue[0]}
    requires after[delimiter].smallestReachability == tweets[delimiter].smallestReachability
    ensures Windowed(after, queue[1..], delimiter, threshold)
  {
    var q := queue[1..];
    forall k | 0 <= k < |q| ensures q[k] in after {
      assert q[k] == queue[k + 1] && Older(queue, 0, k + 1);
    }
    forall i, j | 0 <= i < j < |q| ensures Older(q, i, j) {
      assert Older(queue, i + 1, j + 1);
    }
    forall id | id in after ensures id == delimiter || id in q {
      if id != delimiter {
        var k :| 0 <= k < |queue| && queue[k] == id;
        assert k > 0 && q[k - 1] == id;
      }
    }
  }

  /** The two passes keep the invariant and leave the whole window settled. */
  lemma PassesKeepInvariant(cfg: Settings, delimiter: Id, cells: seq<seq<Cell>>, tweets: map<Id, Tweet>,
                            queue: seq<Id>, nextId: Id)
    requires Invariant(cfg, delimiter, cells, tweets, queue, nextId)
    ensures cfg.minPts >= 1 && AllKnown(CoresUpdated(tweets, queue, cfg.minPts, cfg.epsilon))
    ensures var after := ReachesUpdated(AsWritten, CoresUpdated(tweets, queue, cfg.minPts, cfg.epsilon), queue, cfg.epsilon);
      && Invariant(cfg, delimiter, cells, after, queue, nextId)
      && forall id :: id in queue && id in after ==>
           !after[id].requireUpdate && after[id].coreDistance == CoreDistance(after[id].neighbors, cfg.minPts, cfg.epsilon)
  {
    var mid := CoresUpdated(tweets, queue, cfg.minPts, cfg.epsilon);
    SameLinksKeepConsistent(tweets, mid, cfg.epsilon, nextId);
    LinkedIsKnown(mid, cfg.epsilon);
    var after := ReachesUpdated(AsWritten, mid, queue, cfg.epsilon);
    SameLinksKeepConsistent(mid, after, cfg.epsilon, nextId);
    PassesSettle(AsWritten, tweets, queue, cfg.minPts, cfg.epsilon);
    SamePlacesKeepFiled(cells, tweets, mid, cfg.Columns(), cfg.Rows());
    SamePlacesKeepFiled(cells, mid, after, cfg.Columns(), cfg.Rows());
  }
}
