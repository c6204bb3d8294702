/** `Tweet::Tweet`: place a new tweet in its cell, index it under its words and
    give it the regional rate of each word. */
module Admission {
  import opened Config
  import opened Multimap
  import opened Grid
  import opened Tweets
  import opened Tokenize
  import opened CellIndex
  import opened Rates
  import opened Arena
  import opened Links
  import opened Compare

  /** A row of the tweets table as the daemon reads it: its numeric columns parsed,
      the original text, and that text after the replacement of mentions, URLs and
      runs of non-word characters by spaces (`cleaned`). */
  datatype Incoming = Incoming(
    time: nat,
    lat: real,
    lon: real,
    text: string,
    cleaned: string,
    user: string,
    exact: bool)

  /** The grid has a cell at the tweet's coordinates. */
  predicate Lands(cfg: Settings, m: Incoming)
    requires cfg.Valid()
  {
    0 <= Column(cfg, m.lon) < cfg.Columns() && 0 <= Row(cfg, m.lat) < cfg.Rows()
  }

  /** The constructor. The tweet counts itself and its own words in the regional
      rates, since its cell is updated first. Its core and smallest reachability
      distances are left at "noise" until the next pass computes them. */
  method Construct(cfg: Settings, cells: seq<seq<Cell>>, id: Id, m: Incoming)
    returns (cells': seq<seq<Cell>>, t: Tweet)
    requires cfg.Valid() && Shaped(cells, cfg.Columns(), cfg.Rows()) && Lands(cfg, m)
    requires Covers(cells, cells[Column(cfg, m.lon)][Row(cfg, m.lat)].region)
    ensures t.x == Column(cfg, m.lon) && t.y == Row(cfg, m.lat)
    ensures t.words == Words(m.cleaned)
    ensures cells' == Replace(cells, t.x, t.y, AddTweet(cells[t.x][t.y], id, t.words))
    ensures Covers(cells', cells[t.x][t.y].region)
    ensures t.regionalRates == RegionalRates(cells', cells[t.x][t.y].region, t.words)
    ensures t == Tweet(false, true, cfg.Noise(), cfg.Noise(), m.lat, m.lon, t.x, t.y, m.time,
                       t.words, m.text, m.user, m.exact, [], map[], t.regionalRates)
  {
    var x: nat := Column(cfg, m.lon);
    var y: nat := Row(cfg, m.lat);
    var words := Explode(m.cleaned);
    var cell := cells[x][y];
    var buckets := IndexWords(cell.tweetsByWord, id, words);
    cells' := Replace(cells, x, y, cell.(tweetCount := cell.tweetCount + 1, tweetsByWord := buckets));
    var rates := ComputeRates(cells', cell.region, words);
    t := Tweet(false, true, cfg.Noise(), cfg.Noise(), m.lat, m.lon, x, y, m.time,
               words, m.text, m.user, m.exact, [], map[], rates);
  }

  /** The rates of an admitted tweet are frequencies, one for each of its words. */
  lemma AdmittedIsRated(cells: seq<seq<Cell>>, tweets: map<Id, Tweet>, cols: nat, rows: nat,
                        id: Id, t: Tweet, cells': seq<seq<Cell>>)
    requires Filed(cells, tweets, cols, rows) && id !in tweets && InGrid((t.x, t.y), cols, rows)
    requires cells' == Replace(cells, t.x, t.y, AddTweet(cells[t.x][t.y], id, t.words))
    requires Covers(cells', cells[t.x][t.y].region)
    requires t.regionalRates == RegionalRates(cells', cells[t.x][t.y].region, t.words)
    ensures t.regionalRates.Keys == t.words && RatesAreFractions(t)
  {
    AdmitKeepsFiled(cells, tweets, cols, rows, id, t);
    var region := cells[t.x][t.y].region;
    assert region == cells'[t.x][t.y].region;
    FiledBucketsBounded(cells', tweets[id := t], cols, rows, region);
    RatesAreFrequencies(cells', region, t.words);
  }

  /** Admitting a tweet under the next unused id keeps the grid filed and the arena
      consistent, and leaves the new tweet unlinked and unmentioned, ready to be
      compared. */
  lemma AdmitKeepsConsistent(cells: seq<seq<Cell>>, tweets: map<Id, Tweet>, cols: nat, rows: nat,
                             epsilon: real, nextId: Id, t: Tweet, cells': seq<seq<Cell>>)
    requires Filed(cells, tweets, cols, rows) && Consistent(tweets, epsilon, nextId)
    requires InGrid((t.x, t.y), cols, rows) && Unlinked(t)
    requires cells' == Replace(cells, t.x, t.y, AddTweet(cells[t.x][t.y], nextId, t.words))
    requires Covers(cells', cells[t.x][t.y].region)
    requires t.regionalRates == RegionalRates(cells', cells[t.x][t.y].region, t.words)
    ensures var tweets' := tweets[nextId := t];
      && Filed(cells', tweets', cols, rows) && SameRegions(cells, cells', cols, rows)
      && Consistent(tweets', epsilon, nextId + 1) && Unmentioned(tweets', nextId)
  {
    var tweets' := tweets[nextId := t];
    assert nextId !in tweets;
    AdmitKeepsFiled(cells, tweets, cols, rows, nextId, t);
    AdmittedIsRated(cells, tweets, cols, rows, nextId, t, cells');
    AdmitKeepsLinked(tweets, epsilon, nextId, t);
    AdmitKeepsCached(tweets, epsilon, nextId, t);
  }

  /** The admitted tweet caches no distance and is younger than every live tweet. */
  lemma AdmitKeepsCached(tweets: map<Id, Tweet>, epsilon: real, nextId: Id, t: Tweet)
    requires Rated(tweets) && Cached(tweets, epsilon) && Fresh(tweets, nextId) && Unlinked(t)
    requires t.regionalRates.Keys == t.words && RatesAreFractions(t)
    ensures var tweets' := tweets[nextId := t];
      && Rated(tweets') && Cached(tweets', epsilon) && Fresh(tweets', nextId + 1)
      && Unmentioned(tweets', nextId)
  {
  }

  /** A tweet with no links, under an identifier no live tweet mentions, joins the
      arena without breaking any link. */
  lemma AdmitKeepsLinked(tweets: map<Id, Tweet>, epsilon: real, nextId: Id, t: Tweet)
    requires Linked(tweets, epsilon) && Fresh(tweets, nextId) && Unlinked(t)
    ensures Linked(tweets[nextId := t], epsilon)
  {
    var tweets' := tweets[nextId := t];
    forall a | a in tweets' ensures Entries(tweets', a) {
      if a != nextId {
        assert Entries(tweets, a);
      }
    }
    forall a, b | a in tweets' && b in tweets' ensures Pair(tweets', a, b, epsilon) {
      if a != nextId && b != nextId {
        assert Pair(tweets, a, b, epsilon);
      }
    }
  }
}
