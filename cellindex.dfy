/** The per-cell inverted index `tweets_by_word`: what admission adds to it and
    what the destructor takes out of it. */
module CellIndex {
  import opened Multimap

  type Buckets = map<string, set<Id>>

  /** The index after `tweets_by_word[w].insert(id)` for every `w` in `words`
      (`operator[]` creates a missing bucket). */
  function Index(buckets: Buckets, id: Id, words: set<string>): Buckets {
    map w | w in buckets.Keys + words :: if w in words then (if w in buckets then buckets[w] else {}) + {id} else buckets[w]
  }

  /** The index after `tweets_by_word[w].erase(id)` for every `w` in `words`, with the
      buckets left empty erased. */
  function Unindex(buckets: Buckets, id: Id, words: set<string>): Buckets {
    map w | w in buckets.Keys && (w !in words || buckets[w] - {id} != {}) ::
      if w in words then buckets[w] - {id} else buckets[w]
  }

  /** The indexing loop of the constructor. */
  method IndexWords(buckets: Buckets, id: Id, words: set<string>) returns (r: Buckets)
    ensures r == Index(buckets, id, words)
  {
    r := buckets;
    var rest := words;
    while rest != {}
      invariant rest <= words
      invariant r == Index(buckets, id, words - rest)
    {
      var w :| w in rest;
      var bucket := if w in r then r[w] else {};
      r := r[w := bucket + {id}];
      assert words - (rest - {w}) == (words - rest) + {w};
      rest := rest - {w};
    }
    assert words - rest == words;
  }

  /** The un-indexing loop of the destructor. */
  method UnindexWords(buckets: Buckets, id: Id, words: set<string>) returns (r: Buckets)
    requires words <= buckets.Keys
    ensures r == Unindex(buckets, id, words)
  {
    r := buckets;
    var rest := words;
    while rest != {}
      invariant rest <= words
      invariant r == Unindex(buckets, id, words - rest)
      invariant forall w :: w in rest ==> w in r && r[w] == buckets[w]
    {
      var w :| w in rest;
      var bucket := r[w] - {id};
      if bucket == {} {
        r := r - {w};
      } else {
        r := r[w := bucket];
      }
      assert words - (rest - {w}) == (words - rest) + {w};
      rest := rest - {w};
    }
    assert words - rest == words;
  }

  /** After indexing, `id` is filed under exactly its own words in addition to what
      was there, and nothing else moves. */
  lemma IndexFiles(buckets: Buckets, id: Id, words: set<string>)
    ensures Index(buckets, id, words).Keys == buckets.Keys + words
    ensures forall w, t :: w in buckets.Keys + words ==>
      (t in Index(buckets, id, words)[w] <==> (t == id && w in words) || (w in buckets && t in buckets[w]))
  {
  }

  /** Indexing then un-indexing a tweet not yet filed anywhere restores the index. */
  lemma UnindexUndoesIndex(buckets: Buckets, id: Id, words: set<string>)
    requires forall w :: w in buckets ==> id !in buckets[w] && buckets[w] != {}
    ensures Unindex(Index(buckets, id, words), id, words) == buckets
  {
    var r := Unindex(Index(buckets, id, words), id, words);
    forall w | w in buckets ensures w in r && r[w] == buckets[w] {
      if w in words {
        assert Index(buckets, id, words)[w] - {id} == buckets[w];
      }
    }
    assert r.Keys == buckets.Keys;
  }
}
