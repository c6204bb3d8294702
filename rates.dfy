/** The regional word rates a tweet is given on admission: for each of its words,
    the share of the tweets in its cell's region that hold the word. */
module Rates {
  import opened Multimap
  import opened Grid

  /** Every coordinate of the region addresses a cell of `cells`. */
  ghost predicate Covers(cells: seq<seq<Cell>>, region: seq<Coord>) {
    forall k :: 0 <= k < |region| ==> region[k].0 < |cells| && region[k].1 < |cells[region[k].0]|
  }

  /** Number of tweets of `cell` holding `w`. */
  function Holding(cell: Cell, w: string): nat {
    if w in cell.tweetsByWord then |cell.tweetsByWord[w]| else 0
  }

  /** Sum of the tweet counts of the region's cells. */
  function RegionTweets(cells: seq<seq<Cell>>, region: seq<Coord>): nat
    requires Covers(cells, region)
  {
    if region == [] then 0
    else
      var c := region[|region| - 1];
      RegionTweets(cells, region[..|region| - 1]) + cells[c.0][c.1].tweetCount
  }

  /** Sum over the region's cells of the number of tweets holding `w`. */
  function RegionWordCount(cells: seq<seq<Cell>>, region: seq<Coord>, w: string): nat
    requires Covers(cells, region)
  {
    if region == [] then 0
    else
      var c := region[|region| - 1];
      RegionWordCount(cells, region[..|region| - 1], w) + Holding(cells[c.0][c.1], w)
  }

  /** The regional rate of `w`: 0 when the region holds no tweet (an empty region
      included), otherwise the word count over the tweet count. */
  function Rate(cells: seq<seq<Cell>>, region: seq<Coord>, w: string): real
    requires Covers(cells, region)
  {
    var n := RegionTweets(cells, region);
    if n == 0 then 0.0 else RegionWordCount(cells, region, w) as real / n as real
  }

  ghost function RegionalRates(cells: seq<seq<Cell>>, region: seq<Coord>, words: set<string>): map<string, real>
    requires Covers(cells, region)
  {
    map w | w in words :: Rate(cells, region, w)
  }

  /** The counting loops and the rate loop of the tweet constructor. */
  method ComputeRates(cells: seq<seq<Cell>>, region: seq<Coord>, words: set<string>)
    returns (rates: map<string, real>)
    requires Covers(cells, region)
    ensures rates == RegionalRates(cells, region, words)
  {
    var tweetCount: nat := 0;
    var wordCounts: map<string, nat> := map[];
    var k := 0;
    while k < |region|
      invariant k <= |region|
      invariant tweetCount == RegionTweets(cells, region[..k])
      invariant wordCounts.Keys == if k == 0 then {} else words
      invariant forall w :: w in wordCounts ==> wordCounts[w] == RegionWordCount(cells, region[..k], w)
    {
      var cell := cells[region[k].0][region[k].1];
      RegionStep(cells, region, k);
      tweetCount := tweetCount + cell.tweetCount;
      wordCounts := CountCell(cell, words, wordCounts);
      k := k + 1;
    }
    assert region[..k] == region;
    rates := RatesFromCounts(cells, region, words, tweetCount, wordCounts);
  }

  /** The rate loop: each word's count over the tweet count, 0 for an empty region. */
  method RatesFromCounts(cells: seq<seq<Cell>>, region: seq<Coord>, words: set<string>,
                         tweetCount: nat, wordCounts: map<string, nat>)
    returns (rates: map<string, real>)
    requires Covers(cells, region) && tweetCount == RegionTweets(cells, region)
    requires wordCounts.Keys == if region == [] then {} else words
    requires forall w :: w in wordCounts ==> wordCounts[w] == RegionWordCount(cells, region, w)
    ensures rates == RegionalRates(cells, region, words)
  {
    rates := map[];
    var rest := words;
    while rest != {}
      invariant rest <= words
      invariant rates.Keys == words - rest
      invariant forall w :: w in rates ==> rates[w] == Rate(cells, region, w)
    {
      var w :| w in rest;
      if w in wordCounts && tweetCount != 0 {
        rates := rates[w := wordCounts[w] as real / tweetCount as real];
      } else {
        rates := rates[w := 0.0];
      }
      rest := rest - {w};
    }
    assert rates.Keys == words;
  }

  /** The inner loop over the tweet's words for one cell of the region: a missing
      count starts at 0. */
  method CountCell(cell: Cell, words: set<string>, counts: map<string, nat>) returns (counts': map<string, nat>)
    ensures counts'.Keys == counts.Keys + words
    ensures forall w :: w in words ==> counts'[w] == (if w in counts then counts[w] else 0) + Holding(cell, w)
    ensures forall w :: w in counts && w !in words ==> counts'[w] == counts[w]
  {
    counts' := counts;
    var rest := words;
    while rest != {}
      invariant rest <= words
      invariant counts'.Keys == counts.Keys + (words - rest)
      invariant forall w :: w in words - rest ==> counts'[w] == (if w in counts then counts[w] else 0) + Holding(cell, w)
      invariant forall w :: w in counts && w !in words - rest ==> counts'[w] == counts[w]
    {
      var w :| w in rest;
      if w !in counts' {
        counts' := counts'[w := 0];
      }
      if w in cell.tweetsByWord {
        counts' := counts'[w := counts'[w] + |cell.tweetsByWord[w]|];
      }
      rest := rest - {w};
    }
  }

  /** The sums over the first `k + 1` cells of a region. */
  lemma RegionStep(cells: seq<seq<Cell>>, region: seq<Coord>, k: nat)
    requires Covers(cells, region) && k < |region|
    ensures Covers(cells, region[..k]) && Covers(cells, region[..k + 1])
    ensures var c := region[k];
      && RegionTweets(cells, region[..k + 1]) == RegionTweets(cells, region[..k]) + cells[c.0][c.1].tweetCount
      && forall w :: RegionWordCount(cells, region[..k + 1], w) == RegionWordCount(cells, region[..k], w) + Holding(cells[c.0][c.1], w)
  {
    assert region[..k + 1][..k] == region[..k];
  }

  /** No cell has more tweets under a word than tweets in total. */
  ghost predicate BucketsBounded(cells: seq<seq<Cell>>, region: seq<Coord>)
    requires Covers(cells, region)
  {
    forall k, w :: 0 <= k < |region| ==> Holding(cells[region[k].0][region[k].1], w) <= cells[region[k].0][region[k].1].tweetCount
  }

  lemma {:induction false} WordCountBounded(cells: seq<seq<Cell>>, region: seq<Coord>, w: string)
    requires Covers(cells, region) && BucketsBounded(cells, region)
    ensures RegionWordCount(cells, region, w) <= RegionTweets(cells, region)
  {
    if region != [] {
      var init := region[..|region| - 1];
      assert Covers(cells, init) && BucketsBounded(cells, init) by {
        forall k | 0 <= k < |init| ensures init[k] == region[k] { }
      }
      WordCountBounded(cells, init, w);
      assert Holding(cells[region[|region| - 1].0][region[|region| - 1].1], w)
        <= cells[region[|region| - 1].0][region[|region| - 1].1].tweetCount;
    }
  }

  /** When no cell indexes more tweets under a word than it counts, every regional
      rate is a frequency in [0, 1]. */
  lemma RatesAreFrequencies(cells: seq<seq<Cell>>, region: seq<Coord>, words: set<string>)
    requires Covers(cells, region) && BucketsBounded(cells, region)
    ensures forall w :: w in RegionalRates(cells, region, words) ==>
      0.0 <= RegionalRates(cells, region, words)[w] <= 1.0
  {
    forall w | w in words
      ensures 0.0 <= Rate(cells, region, w) <= 1.0
    {
      WordCountBounded(cells, region, w);
      var n := RegionTweets(cells, region);
      if n != 0 {
        var m := RegionWordCount(cells, region, w);
        assert m as real <= n as real;
        assert m as real / n as real <= 1.0 by {
          assert (m as real / n as real) * n as real == m as real;
        }
      }
    }
  }
}
