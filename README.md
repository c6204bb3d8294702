# pericog: incremental spatial-textual OPTICS

This project models the clustering daemon `pericog` (`daemons/pericog.cpp`, `daemons/pericog.h`) in Dafny and proves properties of the model. The daemon keeps a sliding window of geotagged tweets on a latitude/longitude grid. On each cycle of its main loop it does five things:

- evicts the oldest tweets;
- reads a batch of new ones;
- compares each new tweet with the nearby tweets that share a word with it, caching the text distance of each pair and linking the pairs within `EPSILON`;
- recomputes OPTICS core and smallest reachability distances, but only for tweets marked dirty;
- orders the non-noise tweets into a reachability plot and cuts the plot into clusters.

## How the model is built

- **Tweets.** A tweet is a `Tweets.Tweet` record. The live tweets form an arena `map<Id, Tweet>`, keyed by identifiers that increase and are never reused. A pointer `Tweet*` of the daemon is an `Id` here.
- **Neighbour multimap.** The `optics_neighbors` multimap is a sequence of `(distance, id)` entries, kept sorted and allowing equal keys (module `Multimap`).
- **Distance cache.** The `optics_distances` cache is a `map<Id, real>`.
- **Grid.** The grid is a `seq<seq<Cell>>` of `Grid.Cell` records. A cell's region is a sequence of index pairs.
- **Daemon state.** The class `Engine.Pericog` holds the grid, the arena, the window and the next identifier. Its constructor is `Initialize`; its method `Cycle` is one turn of the main loop.
- **Steps as methods.** Each step of the daemon is a method with the source's loops and their invariants:
  - the constructor (`Admission.Construct`, `CellIndex.IndexWords`, `Rates.ComputeRates`);
  - the destructor (`Teardown.Destroy`, `Multimap.Unlink`);
  - the comparison loops (`Compare.CompareNew` and the methods below it);
  - the two passes (`Passes.CorePass`, `Passes.ReachPass`);
  - the plot worklist (`Plot.GetReachabilityPlot`);
  - the cluster walk (`Clusters.ExtractClusters`).
- **Specifications.** Each method is proved against a specification function, and the properties of those functions are proved as lemmas.
- **Invariant.** `Upkeep.Invariant` states what the daemon keeps between steps:
  - every cell counts and indexes exactly its tweets;
  - every cell holds its clipped region;
  - the neighbour links are mutual, and each multimap is exact and sorted;
  - every cached distance is the distance of its pair;
  - the arena holds the delimiter and the window and nothing else;
  - every clean tweet of the window has the core distance of its neighbours.

  `Engine.Receive`, `Engine.Evict` and `Engine.UpdateTweets` keep the invariant.
- **Dirty flag.** A tweet that is not marked dirty keeps its smallest reachability distance, even when a neighbour's core distance has changed. Only dirty tweets are refreshed, as in the source.

Points of the code that decide the model's shape:

- The plot's frontier `nodes` is a default `priority_queue` of `(distance, tweet)` pairs (`daemons/pericog.cpp:371-389`). It pops the pair with the **largest** key first, and the model does the same (`Plot.PopTop`).
- The eviction loop (`daemons/pericog.cpp:223-227`) trims the window back to 200000 **before** the batch is read. The window may therefore hold more than 200000 tweets when a cycle ends (`Engine.Evict`, `Engine.UpdateTweets`).
- The delimiter is built by the ordinary constructor from latitude 0 and longitude 0 (`daemons/pericog.cpp:173`). It therefore lands in cell `(floor(180/CELL_SIZE), floor(90/CELL_SIZE))`. It is indexed there under the word `delimit` before any region exists, so its rate for that word is 0.
- The delimiter's smallest reachability distance is set to `REACHABILITY_THRESHOLD + 1` (`daemons/pericog.cpp:174`, `Engine.Initialize`).
- The cached distance is one real, which is how `pericog.cpp` stores and compares it. The header's `Distances` record (`daemons/pericog.h:37-43`) is not used.

## Model

| member | source | states |
|---|---|---|
| Config.Ceil | daemons/pericog.cpp:182-184 | the ceiling used by the region scan: the least integer not below its argument |
| Config.Column | daemons/pericog.cpp:25 | the tweet's column is the cell of width `CELL_SIZE` whose span holds `lon + MAX_DEGREES_LONGITUDE`: `x * CELL_SIZE <= lon + 180 < (x + 1) * CELL_SIZE` |
| Config.Row | daemons/pericog.cpp:26 | the tweet's row is the cell of width `CELL_SIZE` whose span holds `lat + MAX_DEGREES_LATITUDE` |
| Grid.NewGrid | daemons/pericog.cpp:158-171 | the grid has `360/CELL_SIZE` columns of `180/CELL_SIZE` cells (truncated), every cell starts with count 0, an empty word index and an empty region, and carries its own indices as `(x, y)` |
| Grid.Region | daemons/pericog.cpp:182-191 | the region of a cell is exactly the grid cells of the window `floor(x - RADIUS) .. ceil(x + RADIUS)` by `floor(y - RADIUS) .. ceil(y + RADIUS)`, clipped to the grid, each once, in scan order |
| Grid.AssignRegions | daemons/pericog.cpp:176-194 | every cell gets its region and keeps everything else |
| Grid.RegionIsNear | daemons/pericog.cpp:182-190 | every region cell lies inside the grid and within `ceil(RADIUS)` of the owner cell on each axis |
| Grid.OwnCellInRegion | daemons/pericog.cpp:182-190 | with a non-negative radius every cell belongs to its own region |
| Tokenize.Explode | daemons/pericog.cpp:562-575 | the loop over the `getline` pieces returns exactly the specified word set of the text |
| Tokenize.WordsAreTokens | daemons/pericog.cpp:567-571 | every word is non-empty, holds no space and is lower case |
| Tokenize.PieceIsWord | daemons/pericog.cpp:567-571 | every maximal space-free piece of the text, lower-cased, is a word |
| Tweets.Discern | daemons/pericog.cpp:106-116 | true exactly when the other tweet holds a word this one lacks |
| Tweets.GetOpticsDistance | daemons/pericog.cpp:530-553 | the distance is `EPSILON + 1` when the two rate maps hold fewer than 5 entries or the similarity is 0, and `1 - similarity` otherwise |
| Tweets.SumSimilarity | daemons/pericog.cpp:536-547 | the loop sums, over the shared words, the larger of `1 - rate` on either side divided by the larger word count |
| Tweets.AddWord | daemons/pericog.cpp:538-546 | one turn of the loop adds the word's weight when the other tweet has it and nothing otherwise |
| Tweets.FractionsRemove | daemons/pericog.cpp:538-546 | the similarity sum does not depend on the order the word set is walked in |
| Tweets.FractionsSymmetric | daemons/pericog.cpp:536-547 | the similarity sum is the same with the two tweets swapped |
| Tweets.DistanceSymmetric | daemons/pericog.cpp:528-553 | `getOpticsDistance(a, b) == getOpticsDistance(b, a)` |
| Tweets.FractionsBounds | daemons/pericog.cpp:536-547 | with rates in [0, 1] the running similarity lies between 0 and the number of words summed over the larger word count |
| Tweets.DistanceBounds | daemons/pericog.cpp:528-553 | with rates in [0, 1] the distance is `EPSILON + 1` or lies in [0, 1), so never negative |
| Tweets.DistanceOfSameText | daemons/pericog.cpp:530-553 | the distance depends only on the two word sets and rate maps |
| Tweets.SameWordsAtDistanceZero | daemons/pericog.cpp:536-552 | two tweets with the same words, each with rate 0, and enough rates are at distance 0 |
| Multimap.UpperBound | daemons/pericog.cpp:271-272 | `insert` places the entry after every entry whose key is at most its key and before every larger key |
| Multimap.Insert | daemons/pericog.cpp:271-272 | `insert` adds one entry, and the new entry sits at the upper bound of its key |
| Multimap.InsertPlaces | daemons/pericog.cpp:271-272 | the new entry goes between the entries with keys at most its key and the first larger key, and all other entries keep their order |
| Multimap.InsertKeepsSorted | daemons/pericog.cpp:271-272 | inserting keeps the multimap in key order |
| Multimap.InsertAddsOne | daemons/pericog.cpp:271-272 | inserting adds exactly the new entry, and the tweets referred to gain exactly its tweet |
| Multimap.InsertKeepsNoDupIds | daemons/pericog.cpp:271-272 | inserting a tweet not yet referred to keeps every tweet referred to at most once |
| Multimap.Unlink | daemons/pericog.cpp:85-101 | the neighbour's multimap loses the first entry that refers to the destroyed tweet and nothing else, and is unchanged when no entry refers to it |
| Multimap.RemoveFirst | daemons/pericog.cpp:89-99 | the multimap is unchanged when no entry refers to the tweet, and otherwise loses exactly one entry |
| Multimap.RemoveFirstErasesFirst | daemons/pericog.cpp:89-99 | the entry erased is the first that refers to the tweet, and the others keep their order |
| Multimap.RemoveFirstRemovesOne | daemons/pericog.cpp:89-99 | the removal takes out exactly one entry; every other entry with the same key stays |
| Multimap.RemoveFirstKeepsSorted | daemons/pericog.cpp:85-101 | the removal keeps the multimap in key order |
| Multimap.RemoveFirstIds | daemons/pericog.cpp:85-101 | with each tweet referred to at most once, the removal drops the destroyed tweet from the tweets referred to and keeps all others |
| CellIndex.IndexWords | daemons/pericog.cpp:35-38 | the cell's word index after the loop adds the tweet to the bucket of each of its words |
| CellIndex.IndexFiles | daemons/pericog.cpp:35-38 | a tweet is in the bucket of a word after indexing exactly when it is the new tweet and holds the word or it was there before |
| CellIndex.UnindexWords | daemons/pericog.cpp:73-78 | the destructor's loop removes the tweet from each of its buckets and erases the buckets left empty |
| CellIndex.UnindexUndoesIndex | daemons/pericog.cpp:35-38 | un-indexing a tweet restores the word index exactly as it was before the tweet was indexed |
| Rates.CountCell | daemons/pericog.cpp:44-54 | the inner loop adds, for every word, the size of the cell's bucket for it (0 without one) and leaves other counts alone |
| Rates.ComputeRates | daemons/pericog.cpp:40-63 | every word of the tweet gets exactly one rate: regional holders over regional tweets, or 0 when the region holds no tweet |
| Rates.RatesFromCounts | daemons/pericog.cpp:57-63 | the final loop turns the regional counts into the rate of each word, 0 when the count is missing or no tweet is counted |
| Rates.WordCountBounded | daemons/pericog.cpp:42-55 | when every bucket holds at most its cell's count, a word's regional count is at most the regional tweet count |
| Rates.RatesAreFrequencies | daemons/pericog.cpp:57-63 | every regional rate lies in [0, 1] |
| Arena.AdmitKeepsFiled | daemons/pericog.cpp:31-38 | counting and indexing a new tweet keeps every cell's count and word index exact and every region unchanged |
| Arena.RemoveKeepsFiled | daemons/pericog.cpp:69-78 | the destructor's cell update keeps every cell's count and word index exact for the remaining tweets |
| Arena.FiledUnderItsWords | daemons/pericog.cpp:69-78 | a live tweet is in the bucket of each of its words in its own cell, which the destructor relies on |
| Arena.AddTweet | daemons/pericog.cpp:33-37 | the constructor's cell update counts one tweet more and adds the tweet to the bucket of each of its words, and changes nothing else in the cell |
| Arena.RemoveTweet | daemons/pericog.cpp:71-78 | the destructor's cell update counts one tweet less, takes the tweet out of the bucket of each of its words, erases the buckets left empty, and changes nothing else in the cell |
| Admission.Construct | daemons/pericog.cpp:14-65 | the new tweet is placed in the cell of its coordinates, holds the words of the cleaned text, is counted and indexed in its cell, and gets the regional rates computed after that update; it starts dirty, not important, at `EPSILON + 1` for both distances, with no neighbours and no cached distances |
| Admission.AdmittedIsRated | daemons/pericog.cpp:57-63 | the new tweet has one rate per word, each in [0, 1] |
| Admission.AdmitKeepsConsistent | daemons/pericog.cpp:14-65 | admitting a tweet keeps the cell bookkeeping and the link invariants, and no live tweet mentions the new identifier |
| Links.NeighborsAreMutual | daemons/pericog.cpp:266-273 | every neighbour entry names a live other tweet at the distance of the pair, within `EPSILON`, which has the owner among its own neighbours |
| Links.NeighborDistanceInRange | daemons/pericog.cpp:269-272 | every neighbour key lies in [0, 1) |
| Compare.CompareOne | daemons/pericog.cpp:259-274 | one candidate is skipped when it was compared before or `discern` is false; otherwise its distance is cached on both sides, and when within `EPSILON` each side gains one entry and the old tweet is marked dirty |
| Compare.CompareBucket | daemons/pericog.cpp:259-275 | the loop over one bucket records every candidate of it that `discern` lets through |
| Compare.CompareCell | daemons/pericog.cpp:257-276 | the `tweets_by_word.count` test and the bucket loop of one cell |
| Compare.CompareCells | daemons/pericog.cpp:255-277 | the loop over the region records every candidate holding the word in any region cell |
| Compare.CompareWords | daemons/pericog.cpp:253-278 | the loop over the new tweet's words records exactly the candidates of the comparison set |
| Compare.CompareNew | daemons/pericog.cpp:253-278 | after the comparisons the arena is the recording of the comparison set |
| Compare.RecordStep | daemons/pericog.cpp:264-274 | one more comparison extends the recording by that candidate |
| Compare.Record | daemons/pericog.cpp:266-274 | one comparison changes only the new tweet and the candidate, and no tweet leaves the arena |
| Compare.RecordLinks | daemons/pericog.cpp:266-273 | one comparison caches the distance on both sides; within `EPSILON` each side gains the other as a neighbour and the candidate is marked dirty, and beyond it neither gains a neighbour and the mark is unchanged |
| Compare.OlderAfter | daemons/pericog.cpp:264-273 | after the comparisons an older tweet has gained at most the new tweet, in its cache and among its neighbours |
| Compare.RecordingKeepsTexts | daemons/pericog.cpp:264-274 | comparisons change no tweet's words or rates |
| Compare.WithinStep | daemons/pericog.cpp:266-273 | caching a distance and linking when within `EPSILON` keeps a multimap exactly the cached pairs within `EPSILON`, keyed by their distance |
| Compare.RegionBucketMembers | daemons/pericog.cpp:255-259 | a tweet is in a word's bucket of some region cell exactly when it is live, lies in the region and holds the word |
| Compare.ComparedAreNearbySharers | daemons/pericog.cpp:253-262 | the tweets compared with the new one are exactly the other live tweets in its region that share a word with it and whose words do not include all of its words |
| Compare.NewNeighborsAreNearbySimilar | daemons/pericog.cpp:253-274 | the new tweet's neighbours are exactly those compared tweets at distance at most `EPSILON` |
| Compare.CompareKeepsLinked | daemons/pericog.cpp:253-278 | the comparisons keep every link mutual, every multimap exact and sorted, and every cached distance the distance of its pair |
| Teardown.Destroy | daemons/pericog.cpp:67-104 | the destructor decrements the cell count, un-indexes the tweet, and from each neighbour removes one entry for it and marks that neighbour dirty; cached distances to it stay behind |
| Teardown.Detach | daemons/pericog.cpp:80-84 | a neighbour of the destroyed tweet is marked dirty, loses one entry when it refers to the destroyed tweet, keeps its key order, and changes nothing else |
| Teardown.DetachedIds | daemons/pericog.cpp:85-101 | each neighbour then refers to the remaining tweets it referred to before, each once |
| Teardown.DestroyKeepsLinked | daemons/pericog.cpp:80-103 | after the destructor no live tweet lists the destroyed tweet as a neighbour, and the links and cached distances stay valid |
| Teardown.DestroyKeepsFiled | daemons/pericog.cpp:69-78 | after the destructor every cell still counts and indexes exactly its tweets |
| Optics.CoreDistanceIsKthSmallest | daemons/pericog.cpp:297-299 | with at least `MIN_PTS` neighbours the core distance is the key of the `MIN_PTS`-th entry: at least `MIN_PTS` keys are at most it and fewer are below it |
| Optics.CoreIffEnoughNeighbors | daemons/pericog.cpp:290-299 | the core distance is within `EPSILON` exactly when the tweet has at least `MIN_PTS` neighbours |
| Optics.SmallestReachability | daemons/pericog.cpp:310-328 | the loop over the neighbours computes the smallest reachability distance under the given rule; the daemon's rule takes the tweet's own core distance when the pair distance does not exceed the neighbour's |
| Optics.SmallestReachIsMinimum | daemons/pericog.cpp:310-328 | under either rule the smallest reachability distance is at most `EPSILON + 1`, at most the candidate through every core neighbour, and either `EPSILON + 1` or attained by one |
| Optics.ReachableAsWritten | daemons/pericog.cpp:316-324 | as written, the smallest reachability distance is within `EPSILON` exactly when some core neighbour is farther than its own core distance, or some neighbour is a core object while the tweet is one too |
| Optics.ReachableIffCoreNeighbor | daemons/pericog.cpp:316-318 | under the corrected rule the smallest reachability distance is within `EPSILON` exactly when some neighbour is a core object |
| Optics.AsWrittenDropsBorderTweet | daemons/pericog.cpp:320-324 | with the tweet's own core distance, a border tweet next to a core tweet stays at `EPSILON + 1` and is taken for noise |
| Passes.CoresUpdated | daemons/pericog.cpp:286-301 | the core pass changes no link and no dirty flag |
| Passes.CorePass | daemons/pericog.cpp:285-301 | the loop gives every dirty tweet of the window its core distance and leaves every other tweet alone |
| Passes.CorePassFindsCores | daemons/pericog.cpp:288-299 | after the core pass a dirty tweet is a core object exactly when it has at least `MIN_PTS` neighbours, and its core distance is the `MIN_PTS`-th key |
| Passes.ReachesUpdated | daemons/pericog.cpp:305-332 | the reachability pass changes no link and no core distance |
| Passes.ReachPass | daemons/pericog.cpp:304-332 | the loop gives every dirty tweet of the window its smallest reachability distance under the given rule, clears its flag, and leaves every other tweet alone |
| Passes.ReachPassFindsReachable | daemons/pericog.cpp:305-331 | after the pass a dirty tweet is clean and at most the candidate through every core neighbour; as written it is within `EPSILON` exactly when some core neighbour is farther than its core distance or the tweet and some neighbour are both core objects, and under the corrected rule exactly when some neighbour is a core object |
| Passes.PassesSettle | daemons/pericog.cpp:285-332 | after both passes every tweet of the window is clean and has the core distance of its neighbours |
| Plot.ChooseSeed | daemons/pericog.cpp:359-368 | the seed is a tweet still to process with the least smallest reachability distance |
| Plot.PopTop | daemons/pericog.cpp:376-377 | the frontier gives up one entry with the largest key and keeps all the others |
| Plot.StartTree | daemons/pericog.cpp:369-371 | a tree opens with the delimiter and the seed alone on the frontier |
| Plot.PlaceNode | daemons/pericog.cpp:376-378 | the popped tweet is appended to the plot and the worklist invariant still holds |
| Plot.PushNode | daemons/pericog.cpp:387-390 | an unprocessed neighbour of a core tweet moves from the tweets to process to the frontier, keyed by its smallest reachability distance |
| Plot.Expand | daemons/pericog.cpp:381-391 | only a core tweet is expanded; the loop moves each of its unprocessed neighbours to the frontier |
| Plot.EndTree | daemons/pericog.cpp:374-392 | an empty frontier closes the tree |
| Plot.GrowTree | daemons/pericog.cpp:369-392 | one tree is plotted and the tweets still to process strictly shrink |
| Plot.GetReachabilityPlot | daemons/pericog.cpp:337-395 | every non-noise tweet of the window appears exactly once and no other tweet does; every tree opens with exactly one delimiter; each seed is the least of the tweets left; every other entry is a neighbour of a core tweet earlier in its tree |
| Clusters.ExtractClusters | daemons/pericog.cpp:397-419 | the clusters are exactly the maximal runs of entries within the threshold that are closed by an entry above it and hold more than `MIN_TWEETS` tweets; each is the plot slice of its run, and they are disjoint and in plot order |
| Clusters.DelimiterOutsideClusters | daemons/pericog.cpp:174 | the delimiter, above the threshold, never falls inside a cluster |
| Clusters.IsWritable | daemons/pericog.cpp:450-463 | a cluster is written exactly when some tweet's user differs from the first tweet's user |
| Clusters.Summarize | daemons/pericog.cpp:467-479 | the start and end times are the least and greatest times of the cluster, and the user count is the number of distinct users |
| Upkeep.InitialInvariant | daemons/pericog.cpp:157-194 | the grid with its regions and the delimiter alone satisfy the invariant |
| Upkeep.SkipKeepsInvariant | daemons/pericog.cpp:247-251 | dropping a tweet with no words keeps the invariant |
| Upkeep.DroppedLeavesNoTrace | daemons/pericog.cpp:247-251 | constructing and then deleting a tweet with no words leaves the grid and the arena as they were |
| Upkeep.CompareKeepsCurrent | daemons/pericog.cpp:269-274 | a tweet whose neighbours change is marked dirty, so every clean tweet keeps the core distance of its neighbours |
| Upkeep.DestroyKeepsRest | daemons/pericog.cpp:80-84 | the destructor marks every neighbour it changes dirty and changes nothing else the passes read |
| Upkeep.AppendKeepsWindowed | daemons/pericog.cpp:280 | appending the new tweet keeps the window in order of admission |
| Upkeep.DropKeepsWindowed | daemons/pericog.cpp:225-226 | popping the front of the window drops the oldest tweet |
| Upkeep.ReceiveKeepsInvariant | daemons/pericog.cpp:235-281 | admitting and comparing one tweet keeps the invariant and appends it to the window |
| Upkeep.EvictKeepsInvariant | daemons/pericog.cpp:223-227 | destroying the oldest tweet of the window is possible and keeps the invariant |
| Upkeep.PassesKeepInvariant | daemons/pericog.cpp:285-332 | the two passes keep the invariant and leave every tweet of the window clean and current |
| Engine.PopOldest | daemons/pericog.cpp:225-226 | destroying the front of the window removes its id from the window and from the arena, and keeps the next id |
| Engine.EvictOldest | daemons/pericog.cpp:225-226 | one turn of the eviction loop: the front tweet is filed in the grid, and the new state is `PopOldest` of the old one, which removes the front from its cell (`RemoveTweet`) and `Detached`s it from the arena; the invariant holds |
| Engine.Kept | daemons/pericog.cpp:223-227 | dropping the oldest while more than 200000 remain leaves at most 200000 tweets, exactly 200000 when there were at least that many, and the whole window when it already fits |
| Engine.KeptIsNewest | daemons/pericog.cpp:223-227 | what the eviction loop keeps is the newest 200000 tweets of the window in their order, or the whole window when it already fits |
| Engine.Evict | daemons/pericog.cpp:223-227 | the loop's final state is `Evicted` of the starting state, that is `PopOldest` repeated while more than 200000 remain; its window is the kept window and the invariant holds |
| Engine.EvictNext | daemons/pericog.cpp:225-226 | one turn of the eviction loop shortens the window by one, keeps the invariant, and leaves both the window the loop will keep and the state it will end in (`Evicted`) unchanged |
| Engine.EvictedDropsOldest | daemons/pericog.cpp:223-227 | the evicted state holds the kept window and the same next id, its arena is the old arena minus exactly the dropped oldest tweets, and the invariant holds of it |
| Engine.DroppedAreOldest | daemons/pericog.cpp:223-227 | the tweets the eviction loop destroys are exactly those in front of the kept window |
| Engine.Receive | daemons/pericog.cpp:235-279 | the row becomes a tweet at the cell of its coordinates with the words of its cleaned text, dirty and unlinked; with no words it changes nothing; otherwise it is counted and indexed in its cell, rated over its region, compared with exactly the tweets of the comparison set and appended to the window; the invariant holds; together this is the step relation `Receives` |
| Engine.TraceExtends | daemons/pericog.cpp:235-279 | a run of received rows extended by one more received row is a run |
| Engine.TraceGrowsStepwise | daemons/pericog.cpp:235-279 | every step of a run gives the next id, appends the row's id to the window and the arena exactly when the row has words, puts the row's words under that id, and keeps every tweet already in the arena with its words |
| Engine.TraceGrows | daemons/pericog.cpp:235-279 | along a run, row `i` is received with id `nextId + i`; the window grows by the ids of the rows with words, in the order of the batch; and the arena gains exactly those ids |
| Engine.ReceivesKeepsWords | daemons/pericog.cpp:235-279 | a received row with words is in the arena with the row's words, and every tweet already there stays with its words |
| Engine.TraceKeepsWords | daemons/pericog.cpp:235-279 | a tweet in the arena at one step of a run is in the arena at its end, with the same words |
| Engine.TraceHoldsRow | daemons/pericog.cpp:235-279 | every row with words of a run is in the final arena under the id `nextId + j` it was given, with the words of the row |
| Engine.ReceiveRow | daemons/pericog.cpp:235-279 | one row of the batch, received with the next id, is one `Receives` step from the current state to the new one, and the run of states grows by that step |
| Engine.ReceiveBatch | daemons/pericog.cpp:235-279 | the loop over the rows leaves a run of states from the starting state, one `Receives` step per row of the batch, ending in the new state, and keeps the invariant |
| Engine.Admit | daemons/pericog.cpp:223-279 | after eviction and the batch the window is the kept window followed by the ids of the rows with words, every row used one id, and the invariant holds; the new state ends a run that starts from `Evicted` of the old state and receives every row of the batch in order |
| Engine.UpdateTweets | daemons/pericog.cpp:205-335 | the window becomes the kept window followed by the ids of the rows with words; the arena after the batch is the last state of a run that starts from `Evicted` of the old state and receives every row in order; the arena is that arena, updated by the core pass and then the reachability pass with the rule as written; every row used one identifier, the invariant holds, and every tweet of the window is clean with the core distance of its neighbours |
| Engine.Initialize | daemons/pericog.cpp:157-194 | the grid with its regions and the delimiter satisfy the invariant; the delimiter holds the word of its text and stands above the reachability threshold |
| Engine.Pericog.constructor | daemons/pericog.cpp:146-194 | the daemon starts with the grid, every cell's region, the delimiter as its only tweet and an empty window |
| Engine.Order | daemons/pericog.cpp:135-138 | the plot holds every non-noise tweet of the window once, with one delimiter per tree, seeds first and every other entry acquired from a core tweet before it; the clusters are exactly the closed low runs of the plot, in order, and none holds the delimiter |
| Engine.Step | daemons/pericog.cpp:131-138 | one cycle on the state as values: `updateTweets` as `Engine.UpdateTweets` states it, then the plot and clusters of the new window as `Engine.Order` states them |
| Engine.Pericog.Cycle | daemons/pericog.cpp:126-143 | one turn of the main loop keeps the invariant, replaces the state as `Engine.UpdateTweets` states from the old state (eviction, the run of received rows, the two passes), and plots and cuts the new window as `Engine.Order` states |

## Left out

- MySQL access is not modelled. That covers the connection, the fetch query and the table statements of `writeClusters`, including its quote-escaping loop. A batch is a parameter of `Engine.UpdateTweets` and `Engine.Pericog.Cycle`, and the clusters are their result.
- Reading the configuration (`getArg`) is not modelled. The tunables are a `Config.Settings` value, required to have `CELL_SIZE > 0`, `EPSILON >= 0` and `MIN_PTS >= 1`.
- Writing the last-run file, the polling loop with `time(0)` and `usleep`, and the profiler are wall-clock plumbing. `Engine.Pericog.Cycle` is one turn of the loop.
- The regex cleaning of mentions, URLs and non-word characters, and the `stoi`/`stod` parsing, are library calls. An `Admission.Incoming` row carries the parsed numbers and the cleaned text as inputs.
- The centroid averaging of `writeClusters` is floating-point output and is not modelled. All arithmetic is on reals; rounding of doubles is not modelled.
- Pointers are identifiers that are never reused. Aliasing between tweets and reuse of freed addresses are outside the model.
- Tweet records and cells are updated by replacing values in the arena and the grid; the class reassigns its fields. In-place mutation through shared pointers is not modelled.
- The order in which an `unordered_set` or `unordered_map` is walked is left open. Contracts hold for every order.
- Two frontier entries with the same key may be popped in either order. The pointer comparison the `priority_queue` uses to break that tie is not modelled.
- The undefined behaviour of the source is abstracted, not reproduced:
  - Erasing from a multimap while walking it becomes "remove the first entry that refers to the tweet" (`Multimap.Unlink`).
  - The reference to `top()` used after `pop()` becomes the popped entry (see `Plot.GetReachabilityPlot` below).
  - A negative `floor` stored in an `unsigned int` in the region loops is clipped to 0.
  - A tweet outside the grid would index past the cells; `Admission.Lands` requires every row to land in the grid.
- The source never initialises `core_distance` or `smallest_reachability_distance` (`daemons/pericog.h:53`), for any tweet. The model starts both at `EPSILON + 1` for every new tweet, the delimiter included. Every new tweet is dirty, so the two passes overwrite both fields before the plot reads them. The delimiter's smallest reachability distance is set at `daemons/pericog.cpp:174`. The delimiter never enters the window, so the passes never set its core distance, and the model keeps it at `EPSILON + 1`. A tweet linked to the delimiter reads that value where the source reads an uninitialised double.
- The time-based eviction is commented out in the source and is not modelled.
- The fields `important`, `lat`, `lon`, `text` and `exact` are carried but not used by the clustering.
- Tokenize.Explode: lower-casing maps only `A`-`Z`, as `::tolower` does in the C locale. Other locales are not modelled.
- Plot.GetReachabilityPlot, Plot.PlaceNode: the entry appended to the plot is the entry just popped. In the source, the tweet taken from `top()` is a reference into the frontier's first slot. `pop()` moves the next largest entry into that slot and destroys the old top. So when entries remain, the source appends and expands the new top and loses the popped tweet; when none remain, the reference dangles. For example, with A (key 0.3) and B (key 0.2) on the frontier, A is popped but B is appended, and A never reaches the plot. The seed is always alone on the frontier, so its reference dangles. Coverage and exactly-once are proved for the popped-entry reading only.
- Plot.GetReachabilityPlot: states coverage, exactly-once, delimiters, seed choice and that every non-seed entry was acquired from a core tweet earlier in its tree. It does not state the order of entries inside a tree; the pop order is stated by `Plot.PopTop` alone.
- Engine.Pericog.Cycle: returns the plot and clusters but not the write decision per cluster. `Clusters.IsWritable` and `Clusters.Summarize` state that decision and the event summary separately.
- The functions `getDistances`, `getClusters` and `filterClusters` are declared in `daemons/pericog.h` but not defined, and are not modelled.

## Findings

| source | as written | input that shows it | evidently intended | confidence | as-written member | corrected member |
|---|---|---|---|---|---|---|
| daemons/pericog.cpp:320-324 | the reachability through a core neighbour `q` is the pair distance when it exceeds `q`'s core distance, and otherwise the tweet's **own** core distance | `EPSILON = 0.5`; a border tweet (own core distance 1.5) with one neighbour at distance 0.2 whose core distance is 0.2: its smallest reachability distance stays 1.5, so it is taken for noise and left out of the plot | the OPTICS reachability distance `max(d, q.core)`, so the tweet is reachable at 0.2; the loop's own comment says reachability comes from core neighbours | not executed; high | Optics.ReachAsWritten, Optics.AsWrittenDropsBorderTweet | Optics.Reach, Optics.ReachableIffCoreNeighbor |

The reachability pass takes the rule as a parameter (`Optics.Rule`). `Engine.UpdateTweets`, and so `Engine.Pericog.Cycle`, run it with the rule as written. `Passes.ReachPassFindsReachable` states what each rule gives.
