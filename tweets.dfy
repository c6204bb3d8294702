/** `struct Tweet` as a record held in the engine's arena, the word-set test
    `Tweet::discern`, and the text distance `getOpticsDistance`. */
module Tweets {
  import opened Multimap

  /** One admitted tweet. The fields the clustering updates in place are
      `requireUpdate`, `coreDistance`, `smallestReachability`, `neighbors`
      (the `optics_neighbors` multimap) and `distances` (the `optics_distances`
      cache); the engine replaces the record in its arena to update them. */
  datatype Tweet = Tweet(
    important: bool,
    requireUpdate: bool,
    coreDistance: real,
    smallestReachability: real,
    lat: real,
    lon: real,
    x: nat,
    y: nat,
    time: nat,
    words: set<string>,
    text: string,
    user: string,
    exact: bool,
    neighbors: seq<Entry>,
    distances: map<Id, real>,
    regionalRates: map<string, real>)

  /** Every id of the sequence names a tweet of the arena. */
  ghost predicate InArena(tweets: map<Id, Tweet>, ids: seq<Id>) {
    forall k :: 0 <= k < |ids| ==> ids[k] in tweets
  }

  /** Every word of the tweet has a regional rate (the constructor gives each one). */
  ghost predicate HasRates(t: Tweet) {
    t.words <= t.regionalRates.Keys
  }

  /** Every regional rate is a frequency. */
  ghost predicate RatesAreFractions(t: Tweet) {
    forall w :: w in t.regionalRates ==> 0.0 <= t.regionalRates[w] <= 1.0
  }

  /** `self.discern(other)`: true as soon as `other` holds a word `self` lacks. */
  method Discern(self: Tweet, other: Tweet) returns (r: bool)
    ensures r <==> !(other.words <= self.words)
  {
    var rest := other.words;
    while rest != {}
      invariant rest <= other.words
      invariant other.words - rest <= self.words
    {
      var w :| w in rest;
      if w !in self.words {
        return true;
      }
      rest := rest - {w};
    }
    return false;
  }

  /** The weight of a shared word: the larger of `1 - rate` under either tweet. */
  function Weight(a: Tweet, b: Tweet, w: string): real
    requires w in a.regionalRates && w in b.regionalRates
  {
    var wa := 1.0 - a.regionalRates[w];
    var wb := 1.0 - b.regionalRates[w];
    if wa > wb then wa else wb
  }

  /** The larger of the two word-set sizes. */
  function Size(a: Tweet, b: Tweet): real {
    if |a.words| > |b.words| then |a.words| as real else |b.words| as real
  }

  /** The running similarity over a set of shared words: each one adds its weight
      divided by `size`. */
  ghost function Fractions(a: Tweet, b: Tweet, s: set<string>, size: real): real
    requires HasRates(a) && HasRates(b) && s <= a.words * b.words && (size > 0.0 || s == {})
    decreases s
  {
    if s == {} then 0.0
    else
      var w :| w in s;
      Weight(a, b, w) / size + Fractions(a, b, s - {w}, size)
  }

  /** The similarity of two tweets: the running similarity over all their shared
      words, divided by the larger word-set size. */
  ghost function Similarity(a: Tweet, b: Tweet): real
    requires HasRates(a) && HasRates(b)
  {
    var shared := a.words * b.words;
    if shared == {} then 0.0
    else
      assert |a.words| > 0 by { assert shared <= a.words; }
      Fractions(a, b, shared, Size(a, b))
  }

  /** The distance between two tweets (`getOpticsDistance`): `epsilon + 1` when the
      two rate maps hold fewer than 5 entries together or when no shared word adds
      weight, otherwise `1 - similarity`. */
  ghost function OpticsDistance(a: Tweet, b: Tweet, epsilon: real): real
    requires HasRates(a) && HasRates(b)
  {
    if |a.regionalRates| + |b.regionalRates| < 5 then epsilon + 1.0
    else if Similarity(a, b) == 0.0 then epsilon + 1.0
    else 1.0 - Similarity(a, b)
  }

  /** `getOpticsDistance`: the early return on too few rate entries, the loop, and
      the early return on no similarity. */
  method GetOpticsDistance(a: Tweet, b: Tweet, epsilon: real) returns (d: real)
    requires HasRates(a) && HasRates(b)
    ensures d == OpticsDistance(a, b, epsilon)
  {
    if |a.regionalRates| + |b.regionalRates| < 5 {
      return epsilon + 1.0;
    }
    var similarity := SumSimilarity(a, b);
    if similarity == 0.0 {
      return epsilon + 1.0;
    }
    return 1.0 - similarity;
  }

  /** The loop of `getOpticsDistance` over the words of `a`. */
  method SumSimilarity(a: Tweet, b: Tweet) returns (similarity: real)
    requires HasRates(a) && HasRates(b)
    ensures similarity == Similarity(a, b)
  {
    similarity := 0.0;
    var size := if |a.words| > |b.words| then |a.words| as real else |b.words| as real;
    var rest := a.words;
    while rest != {}
      invariant rest <= a.words
      invariant Accumulated(a, b, a.words - rest, similarity, size)
    {
      var w :| w in rest;
      assert a.words - (rest - {w}) == (a.words - rest) + {w};
      similarity := AddWord(a, b, a.words - rest, w, similarity, size);
      rest := rest - {w};
    }
    assert a.words - rest == a.words;
    AccumulatedAll(a, b, similarity, size);
  }

  /** One pass of the loop body: a word of `a` that `b` also has adds its weight,
      the larger of `1 - rate` under either tweet, divided by `size`. */
  method AddWord(a: Tweet, b: Tweet, seen: set<string>, w: string, similarity: real, size: real)
    returns (similarity': real)
    requires HasRates(a) && HasRates(b) && Accumulated(a, b, seen, similarity, size)
    requires w in a.words && w !in seen
    ensures Accumulated(a, b, seen + {w}, similarity', size)
  {
    similarity' := similarity;
    if w in b.words {
      var weightA := 1.0 - a.regionalRates[w];
      var weightB := 1.0 - b.regionalRates[w];
      var weight := if weightA > weightB then weightA else weightB;
      AccumulateStep(a, b, seen, w, similarity, size);
      similarity' := similarity + weight / size;
    } else {
      SkipStep(a, b, seen, w, similarity, size);
    }
  }

  /** After the words `seen` of `a`, the running similarity is the sum of the
      fractions of the shared words among them. */
  ghost predicate Accumulated(a: Tweet, b: Tweet, seen: set<string>, similarity: real, size: real)
    requires HasRates(a) && HasRates(b)
  {
    && seen <= a.words
    && size == Size(a, b)
    && (size > 0.0 || seen == {})
    && similarity == Fractions(a, b, seen * b.words, size)
  }

  /** One shared word taken into the running similarity. */
  lemma AccumulateStep(a: Tweet, b: Tweet, seen: set<string>, w: string, similarity: real, size: real)
    requires HasRates(a) && HasRates(b) && Accumulated(a, b, seen, similarity, size)
    requires w in a.words && w in b.words && w !in seen
    ensures size > 0.0 && Accumulated(a, b, seen + {w}, similarity + Weight(a, b, w) / size, size)
  {
    assert |a.words| > 0;
    var done := seen * b.words;
    FractionsRemove(a, b, done + {w}, w, size);
    assert done + {w} - {w} == done;
    assert (seen + {w}) * b.words == done + {w};
  }

  /** A word of `a` that `b` lacks leaves the similarity alone. */
  lemma SkipStep(a: Tweet, b: Tweet, seen: set<string>, w: string, similarity: real, size: real)
    requires HasRates(a) && HasRates(b) && Accumulated(a, b, seen, similarity, size)
    requires w in a.words && w !in b.words
    ensures Accumulated(a, b, seen + {w}, similarity, size)
  {
    assert |a.words| > 0;
    assert (seen + {w}) * b.words == seen * b.words;
  }

  /** Once every word of `a` is seen, the running similarity is `Similarity(a, b)`. */
  lemma AccumulatedAll(a: Tweet, b: Tweet, similarity: real, size: real)
    requires HasRates(a) && HasRates(b) && Accumulated(a, b, a.words, similarity, size)
    ensures similarity == Similarity(a, b)
  {
  }

  /** The sum does not depend on which word is taken first. */
  lemma {:induction false} FractionsRemove(a: Tweet, b: Tweet, s: set<string>, w: string, size: real)
    requires HasRates(a) && HasRates(b) && s <= a.words * b.words && size > 0.0 && w in s
    ensures Fractions(a, b, s, size) == Weight(a, b, w) / size + Fractions(a, b, s - {w}, size)
    decreases s
  {
    var v :| v in s && Fractions(a, b, s, size) == Weight(a, b, v) / size + Fractions(a, b, s - {v}, size);
    if v != w {
      FractionsRemove(a, b, s - {v}, w, size);
      FractionsRemove(a, b, s - {w}, v, size);
      assert s - {v} - {w} == s - {w} - {v};
    }
  }

  lemma {:induction false} FractionsSymmetric(a: Tweet, b: Tweet, s: set<string>, size: real)
    requires HasRates(a) && HasRates(b) && s <= a.words * b.words && size > 0.0
    ensures Fractions(a, b, s, size) == Fractions(b, a, s, size)
    decreases s
  {
    if s != {} {
      var v :| v in s && Fractions(a, b, s, size) == Weight(a, b, v) / size + Fractions(a, b, s - {v}, size);
      FractionsRemove(b, a, s, v, size);
      FractionsSymmetric(a, b, s - {v}, size);
      assert Weight(a, b, v) == Weight(b, a, v);
    }
  }

  /** The distance is commutative, as the comment above `getOpticsDistance` demands. */
  lemma DistanceSymmetric(a: Tweet, b: Tweet, epsilon: real)
    requires HasRates(a) && HasRates(b)
    ensures OpticsDistance(a, b, epsilon) == OpticsDistance(b, a, epsilon)
  {
    var s := a.words * b.words;
    assert s == b.words * a.words;
    assert Size(a, b) == Size(b, a);
    if s != {} {
      assert |a.words| > 0;
      FractionsSymmetric(a, b, s, Size(a, b));
    }
  }

  /** Two records of the same tweet text: same words, same regional rates. The
      clustering never changes either after admission. */
  predicate SameText(a: Tweet, b: Tweet) {
    a.words == b.words && a.regionalRates == b.regionalRates
  }

  lemma {:induction false} FractionsOfSameText(a: Tweet, b: Tweet, a': Tweet, b': Tweet, s: set<string>, size: real)
    requires HasRates(a) && HasRates(b) && s <= a.words * b.words && size > 0.0
    requires SameText(a, a') && SameText(b, b')
    ensures Fractions(a, b, s, size) == Fractions(a', b', s, size)
    decreases s
  {
    if s != {} {
      var v :| v in s && Fractions(a, b, s, size) == Weight(a, b, v) / size + Fractions(a, b, s - {v}, size);
      FractionsRemove(a', b', s, v, size);
      FractionsOfSameText(a, b, a', b', s - {v}, size);
      assert Weight(a, b, v) == Weight(a', b', v);
    }
  }

  /** The distance depends on the two texts only, so a cached distance stays valid
      while the clustering updates the other fields of either tweet. */
  lemma DistanceOfSameText(a: Tweet, b: Tweet, a': Tweet, b': Tweet, epsilon: real)
    requires HasRates(a) && HasRates(b) && SameText(a, a') && SameText(b, b')
    ensures OpticsDistance(a, b, epsilon) == OpticsDistance(a', b', epsilon)
  {
    var s := a.words * b.words;
    if s != {} {
      assert |a.words| > 0;
      FractionsOfSameText(a, b, a', b', s, Size(a, b));
    }
  }

  /** With every rate in [0, 1] each shared word adds between 0 and `1 / size`. */
  lemma {:induction false} FractionsBounds(a: Tweet, b: Tweet, s: set<string>, size: real)
    requires HasRates(a) && HasRates(b) && s <= a.words * b.words && size > 0.0
    requires RatesAreFractions(a) && RatesAreFractions(b)
    ensures 0.0 <= Fractions(a, b, s, size) <= |s| as real / size
    decreases s
  {
    if s != {} {
      var v :| v in s && Fractions(a, b, s, size) == Weight(a, b, v) / size + Fractions(a, b, s - {v}, size);
      FractionsBounds(a, b, s - {v}, size);
      assert |s - {v}| == |s| - 1;
      assert 0.0 <= a.regionalRates[v] <= 1.0 && 0.0 <= b.regionalRates[v] <= 1.0;
      AddBoundedFraction(Weight(a, b, v), Fractions(a, b, s - {v}, size), (|s| - 1) as real, size);
    }
  }

  /** One more term of weight at most 1 raises a bound of `k / size` to `(k + 1) / size`. */
  lemma AddBoundedFraction(x: real, rest: real, k: real, size: real)
    requires 0.0 <= x <= 1.0 && size > 0.0 && 0.0 <= rest <= k / size
    ensures 0.0 <= x / size + rest <= (k + 1.0) / size
  {
    assert x / size <= 1.0 / size;
    SplitFraction(k, size);
  }

  lemma SplitFraction(k: real, size: real)
    requires size > 0.0
    ensures (k + 1.0) / size == 1.0 / size + k / size
  {
  }

  /** With every rate in [0, 1] a distance is either the "not a neighbour" value
      `epsilon + 1` or lies in [0, 1): the source's "MUST NOT return a negative value". */
  lemma DistanceBounds(a: Tweet, b: Tweet, epsilon: real)
    requires HasRates(a) && HasRates(b)
    requires RatesAreFractions(a) && RatesAreFractions(b)
    ensures OpticsDistance(a, b, epsilon) == epsilon + 1.0 || 0.0 <= OpticsDistance(a, b, epsilon) < 1.0
  {
    var s := a.words * b.words;
    if s != {} {
      SubsetCard(s, a.words);
      SubsetCard(s, b.words);
      var size := Size(a, b);
      FractionsBounds(a, b, s, size);
      assert |s| as real <= size;
      FractionBounds(|s| as real, size);
    }
  }

  lemma FractionBounds(x: real, y: real)
    requires 0.0 <= x <= y && y > 0.0
    ensures 0.0 <= x / y <= 1.0
  {
    assert x / y * y == x;
  }

  lemma SubsetCard<T>(s: set<T>, t: set<T>)
    requires s <= t
    ensures |s| <= |t|
  {
    assert t == s + (t - s);
  }

  /** Two tweets with the same words, all of them locally unused (rate 0), and
      enough rate entries are at distance 0. */
  lemma SameWordsAtDistanceZero(a: Tweet, b: Tweet, epsilon: real)
    requires HasRates(a) && HasRates(b)
    requires a.words == b.words && a.words != {}
    requires forall w :: w in a.words ==> a.regionalRates[w] == 0.0 && b.regionalRates[w] == 0.0
    requires |a.regionalRates| + |b.regionalRates| >= 5
    ensures OpticsDistance(a, b, epsilon) == 0.0
  {
    assert a.words * b.words == a.words;
    var size := Size(a, b);
    assert size == |a.words| as real;
    FractionsOfUnusedWords(a, b, a.words, size);
    assert |a.words| as real / size == 1.0;
  }

  lemma {:induction false} FractionsOfUnusedWords(a: Tweet, b: Tweet, s: set<string>, size: real)
    requires HasRates(a) && HasRates(b) && s <= a.words * b.words && size > 0.0
    requires forall w :: w in s ==> a.regionalRates[w] == 0.0 && b.regionalRates[w] == 0.0
    ensures Fractions(a, b, s, size) == |s| as real / size
    decreases s
  {
    if s != {} {
      var v :| v in s && Fractions(a, b, s, size) == Weight(a, b, v) / size + Fractions(a, b, s - {v}, size);
      FractionsOfUnusedWords(a, b, s - {v}, size);
      assert |s - {v}| == |s| - 1;
      assert Weight(a, b, v) == 1.0;
      SplitFraction((|s| - 1) as real, size);
    }
  }
}
