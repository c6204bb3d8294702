/** The bookkeeping that ties the grid to the tweets located in it: a cell counts
    the tweets placed in it and indexes each of them under each of its words.
    Admission adds a tweet to its cell, the destructor takes it out again. */
module Arena {
  import opened Multimap
  import opened Grid
  import opened Tweets
  import opened CellIndex
  import opened Rates

  /** The grid is `cols` by `rows`, each cell knows its coordinates and its region
      stays inside the grid. */
  ghost predicate Layout(cells: seq<seq<Cell>>, cols: nat, rows: nat) {
    && Shaped(cells, cols, rows)
    && forall i, j :: 0 <= i < cols && 0 <= j < rows ==>
         && cells[i][j].x == i && cells[i][j].y == j
         && forall k :: 0 <= k < |cells[i][j].region| ==> InGrid(cells[i][j].region[k], cols, rows)
  }

  /** Every tweet lies in a cell of the grid. */
  ghost predicate Placed(tweets: map<Id, Tweet>, cols: nat, rows: nat) {
    forall id :: id in tweets ==> InGrid((tweets[id].x, tweets[id].y), cols, rows)
  }

  /** The tweets located in cell (i, j). */
  ghost function Residents(tweets: map<Id, Tweet>, i: nat, j: nat): set<Id> {
    set id | id in tweets && tweets[id].x == i && tweets[id].y == j
  }

  /** The tweets located in cell (i, j) that hold `w`. */
  ghost function Holders(tweets: map<Id, Tweet>, i: nat, j: nat, w: string): set<Id> {
    set id | id in tweets && tweets[id].x == i && tweets[id].y == j && w in tweets[id].words
  }

  /** The bucket of `w` in a cell, empty when the cell has none. */
  function Bucket(cell: Cell, w: string): set<Id> {
    if w in cell.tweetsByWord then cell.tweetsByWord[w] else {}
  }

  /** Each cell's buckets hold exactly the tweets of that cell with that word, and
      no bucket is kept empty. */
  ghost predicate Indexed(cells: seq<seq<Cell>>, tweets: map<Id, Tweet>, cols: nat, rows: nat)
    requires Shaped(cells, cols, rows)
  {
    forall i, j, w :: 0 <= i < cols && 0 <= j < rows ==>
      && Bucket(cells[i][j], w) == Holders(tweets, i, j, w)
      && (w in cells[i][j].tweetsByWord ==> cells[i][j].tweetsByWord[w] != {})
  }

  /** Each cell counts the tweets located in it. */
  ghost predicate Counted(cells: seq<seq<Cell>>, tweets: map<Id, Tweet>, cols: nat, rows: nat)
    requires Shaped(cells, cols, rows)
  {
    forall i, j :: 0 <= i < cols && 0 <= j < rows ==> cells[i][j].tweetCount == |Residents(tweets, i, j)|
  }

  ghost predicate Filed(cells: seq<seq<Cell>>, tweets: map<Id, Tweet>, cols: nat, rows: nat) {
    Layout(cells, cols, rows) && Placed(tweets, cols, rows) &&
    Indexed(cells, tweets, cols, rows) && Counted(cells, tweets, cols, rows)
  }

  /** Two arenas with the same tweets at the same places with the same words. */
  ghost predicate SamePlaces(a: map<Id, Tweet>, b: map<Id, Tweet>) {
    a.Keys == b.Keys &&
    forall id :: id in a ==> a[id].x == b[id].x && a[id].y == b[id].y && a[id].words == b[id].words
  }

  /** The cell after `tweet_count++` and the indexing loop. */
  function AddTweet(cell: Cell, id: Id, words: set<string>): (r: Cell)
    ensures r == cell.(tweetCount := r.tweetCount, tweetsByWord := r.tweetsByWord)
    ensures r.tweetCount == cell.tweetCount + 1
    ensures forall w :: Bucket(r, w) == if w in words then Bucket(cell, w) + {id} else Bucket(cell, w)
  {
    cell.(tweetCount := cell.tweetCount + 1, tweetsByWord := Index(cell.tweetsByWord, id, words))
  }

  /** The cell after `tweet_count--` and the un-indexing loop. */
  function RemoveTweet(cell: Cell, id: Id, words: set<string>): (r: Cell)
    ensures r == cell.(tweetCount := r.tweetCount, tweetsByWord := r.tweetsByWord)
    ensures cell.tweetCount > 0 ==> r.tweetCount + 1 == cell.tweetCount
    ensures forall w :: Bucket(r, w) == if w in words then Bucket(cell, w) - {id} else Bucket(cell, w)
    ensures forall w :: w in words && w in r.tweetsByWord ==> r.tweetsByWord[w] != {}
  {
    cell.(tweetCount := if cell.tweetCount == 0 then 0 else cell.tweetCount - 1,
          tweetsByWord := Unindex(cell.tweetsByWord, id, words))
  }

  function Replace(cells: seq<seq<Cell>>, i: nat, j: nat, cell: Cell): seq<seq<Cell>>
    requires i < |cells| && j < |cells[i]|
  {
    cells[i := cells[i][j := cell]]
  }

  /** The regions of all cells, which admission and removal never touch. */
  ghost predicate SameRegions(a: seq<seq<Cell>>, b: seq<seq<Cell>>, cols: nat, rows: nat)
    requires Shaped(a, cols, rows) && Shaped(b, cols, rows)
  {
    forall i, j :: 0 <= i < cols && 0 <= j < rows ==> a[i][j].region == b[i][j].region
  }

  /** Admitting a tweet keeps every cell counting and indexing exactly its tweets. */
  lemma AdmitKeepsFiled(cells: seq<seq<Cell>>, tweets: map<Id, Tweet>, cols: nat, rows: nat, id: Id, t: Tweet)
    requires Filed(cells, tweets, cols, rows)
    requires id !in tweets && InGrid((t.x, t.y), cols, rows)
    ensures var cells' := Replace(cells, t.x, t.y, AddTweet(cells[t.x][t.y], id, t.words));
      && Filed(cells', tweets[id := t], cols, rows)
      && SameRegions(cells, cells', cols, rows)
  {
    var cells': seq<seq<Cell>> := Replace(cells, t.x, t.y, AddTweet(cells[t.x][t.y], id, t.words));
    var tweets' := tweets[id := t];
    assert Layout(cells', cols, rows);
    forall i, j | 0 <= i < cols && 0 <= j < rows
      ensures cells'[i][j].tweetCount == |Residents(tweets', i, j)|
    {
      AdmitCounts(cells, tweets, cols, rows, id, t, i, j);
    }
    forall i, j, w | 0 <= i < cols && 0 <= j < rows
      ensures Bucket(cells'[i][j], w) == Holders(tweets', i, j, w)
      ensures w in cells'[i][j].tweetsByWord ==> cells'[i][j].tweetsByWord[w] != {}
    {
      AdmitFiles(cells, tweets, cols, rows, id, t, i, j, w);
    }
  }

  lemma AdmitCounts(cells: seq<seq<Cell>>, tweets: map<Id, Tweet>, cols: nat, rows: nat, id: Id, t: Tweet, i: nat, j: nat)
    requires t.x < |cells| && t.y < |cells[t.x]| && i < |cells| && j < |cells[i]|
    requires id !in tweets && cells[i][j].tweetCount == |Residents(tweets, i, j)|
    ensures Replace(cells, t.x, t.y, AddTweet(cells[t.x][t.y], id, t.words))[i][j].tweetCount
      == |Residents(tweets[id := t], i, j)|
  {
    if i == t.x && j == t.y {
      assert Residents(tweets[id := t], i, j) == Residents(tweets, i, j) + {id};
    } else {
      assert Residents(tweets[id := t], i, j) == Residents(tweets, i, j);
    }
  }

  lemma AdmitFiles(cells: seq<seq<Cell>>, tweets: map<Id, Tweet>, cols: nat, rows: nat, id: Id, t: Tweet,
                   i: nat, j: nat, w: string)
    requires t.x < |cells| && t.y < |cells[t.x]| && i < |cells| && j < |cells[i]|
    requires id !in tweets
    requires Bucket(cells[i][j], w) == Holders(tweets, i, j, w)
    requires w in cells[i][j].tweetsByWord ==> cells[i][j].tweetsByWord[w] != {}
    ensures var cell := Replace(cells, t.x, t.y, AddTweet(cells[t.x][t.y], id, t.words))[i][j];
      && Bucket(cell, w) == Holders(tweets[id := t], i, j, w)
      && (w in cell.tweetsByWord ==> cell.tweetsByWord[w] != {})
  {
    if i == t.x && j == t.y {
      IndexFiles(cells[i][j].tweetsByWord, id, t.words);
      if w in t.words {
        assert Holders(tweets[id := t], i, j, w) == Holders(tweets, i, j, w) + {id};
      } else {
        assert Holders(tweets[id := t], i, j, w) == Holders(tweets, i, j, w);
      }
    } else {
      assert Holders(tweets[id := t], i, j, w) == Holders(tweets, i, j, w);
    }
  }

  /** Removing a tweet from its cell and from the arena keeps every cell counting
      and indexing exactly its tweets. */
  lemma RemoveKeepsFiled(cells: seq<seq<Cell>>, tweets: map<Id, Tweet>, cols: nat, rows: nat, id: Id)
    requires Filed(cells, tweets, cols, rows) && id in tweets
    ensures var t := tweets[id];
      var cells' := Replace(cells, t.x, t.y, RemoveTweet(cells[t.x][t.y], id, t.words));
      && Filed(cells', tweets - {id}, cols, rows)
      && SameRegions(cells, cells', cols, rows)
  {
    var t := tweets[id];
    var cells': seq<seq<Cell>> := Replace(cells, t.x, t.y, RemoveTweet(cells[t.x][t.y], id, t.words));
    var tweets' := tweets - {id};
    forall i, j | 0 <= i < cols && 0 <= j < rows
      ensures cells'[i][j].tweetCount == |Residents(tweets', i, j)|
    {
      RemoveCounts(cells, tweets, id, i, j);
    }
    forall i, j, w | 0 <= i < cols && 0 <= j < rows
      ensures Bucket(cells'[i][j], w) == Holders(tweets', i, j, w)
      ensures w in cells'[i][j].tweetsByWord ==> cells'[i][j].tweetsByWord[w] != {}
    {
      RemoveFiles(cells, tweets, id, i, j, w);
    }
  }

  lemma RemoveCounts(cells: seq<seq<Cell>>, tweets: map<Id, Tweet>, id: Id, i: nat, j: nat)
    requires id in tweets
    requires tweets[id].x < |cells| && tweets[id].y < |cells[tweets[id].x]| && i < |cells| && j < |cells[i]|
    requires cells[i][j].tweetCount == |Residents(tweets, i, j)|
    ensures var t := tweets[id];
      Replace(cells, t.x, t.y, RemoveTweet(cells[t.x][t.y], id, t.words))[i][j].tweetCount
      == |Residents(tweets - {id}, i, j)|
  {
    var t := tweets[id];
    if i == t.x && j == t.y {
      assert Residents(tweets - {id}, i, j) == Residents(tweets, i, j) - {id};
      assert id in Residents(tweets, i, j);
    } else {
      assert Residents(tweets - {id}, i, j) == Residents(tweets, i, j);
    }
  }

  lemma RemoveFiles(cells: seq<seq<Cell>>, tweets: map<Id, Tweet>, id: Id, i: nat, j: nat, w: string)
    requires id in tweets
    requires tweets[id].x < |cells| && tweets[id].y < |cells[tweets[id].x]| && i < |cells| && j < |cells[i]|
    requires Bucket(cells[i][j], w) == Holders(tweets, i, j, w)
    requires w in cells[i][j].tweetsByWord ==> cells[i][j].tweetsByWord[w] != {}
    ensures var t := tweets[id];
      var cell := Replace(cells, t.x, t.y, RemoveTweet(cells[t.x][t.y], id, t.words))[i][j];
      && Bucket(cell, w) == Holders(tweets - {id}, i, j, w)
      && (w in cell.tweetsByWord ==> cell.tweetsByWord[w] != {})
  {
    var t := tweets[id];
    if i == t.x && j == t.y {
      assert Holders(tweets - {id}, i, j, w) == Holders(tweets, i, j, w) - {id};
    } else {
      assert Holders(tweets - {id}, i, j, w) == Holders(tweets, i, j, w);
    }
  }

  /** Changing what the clustering computes for tweets (neighbours, distances,
      core and reachability distances) leaves the cells' bookkeeping valid. */
  lemma SamePlacesKeepFiled(cells: seq<seq<Cell>>, a: map<Id, Tweet>, b: map<Id, Tweet>, cols: nat, rows: nat)
    requires Filed(cells, a, cols, rows) && SamePlaces(a, b)
    ensures Filed(cells, b, cols, rows)
  {
    forall i, j | 0 <= i < cols && 0 <= j < rows
      ensures Residents(a, i, j) == Residents(b, i, j)
    {
    }
    forall i, j, w | 0 <= i < cols && 0 <= j < rows
      ensures Holders(a, i, j, w) == Holders(b, i, j, w)
    {
    }
  }

  /** A tweet of the arena is filed in its own cell under each of its words. */
  lemma FiledUnderItsWords(cells: seq<seq<Cell>>, tweets: map<Id, Tweet>, cols: nat, rows: nat, id: Id)
    requires Filed(cells, tweets, cols, rows) && id in tweets
    ensures tweets[id].words <= cells[tweets[id].x][tweets[id].y].tweetsByWord.Keys
    ensures forall w :: w in tweets[id].words ==> id in cells[tweets[id].x][tweets[id].y].tweetsByWord[w]
  {
    var t := tweets[id];
    forall w | w in t.words
      ensures w in cells[t.x][t.y].tweetsByWord && id in cells[t.x][t.y].tweetsByWord[w]
    {
      assert id in Holders(tweets, t.x, t.y, w);
    }
  }

  /** A bucket never holds more tweets than its cell counts, so the regional rates
      of any region are frequencies. */
  lemma FiledBucketsBounded(cells: seq<seq<Cell>>, tweets: map<Id, Tweet>, cols: nat, rows: nat, region: seq<Coord>)
    requires Filed(cells, tweets, cols, rows)
    requires forall k :: 0 <= k < |region| ==> InGrid(region[k], cols, rows)
    ensures Covers(cells, region) && BucketsBounded(cells, region)
  {
    forall k, w | 0 <= k < |region|
      ensures Holding(cells[region[k].0][region[k].1], w) <= cells[region[k].0][region[k].1].tweetCount
    {
      var i, j := region[k].0, region[k].1;
      assert Holders(tweets, i, j, w) <= Residents(tweets, i, j);
      SubsetCard(Holders(tweets, i, j, w), Residents(tweets, i, j));
    }
  }
}
