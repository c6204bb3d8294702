/** The daemon itself: `updateTweets` over the grid, the arena of live tweets and
    the window (the `deque` of `main`, oldest first), and the daemon's state as
    `Initialize` sets it up and one cycle of the main loop changes it. */
module Engine {
  import opened Config
  import opened Multimap
  import opened Grid
  import opened Tweets
  import opened Tokenize
  import opened Rates
  import opened Arena
  import opened Links
  import opened Compare
  import opened Teardown
  import opened Admission
  import opened Optics
  import opened Passes
  import opened Upkeep
  import Plot
  import Clusters

  /** What a row with words leaves behind: `t` is the tweet built from it, counted
      and indexed in its cell, and compared with exactly the tweets of its region
      that `Compare.Compared` names. */
  ghost predicate Received(cfg: Settings, cells: seq<seq<Cell>>, tweets: map<Id, Tweet>, nextId: Id, t: Tweet,
                           cells': seq<seq<Cell>>, tweets': map<Id, Tweet>)
  {
    && nextId !in tweets && Rated(tweets[nextId := t])
    && t.x < |cells| && t.y < |cells[t.x]|
    && cells' == Replace(cells, t.x, t.y, AddTweet(cells[t.x][t.y], nextId, t.words))
    && Covers(cells', cells[t.x][t.y].region)
    && t.regionalRates == RegionalRates(cells', cells[t.x][t.y].region, t.words)
    && Recording(tweets[nextId := t], tweets', nextId,
                 Compared(cells', cells[t.x][t.y].region, tweets[nextId := t], nextId), cfg.epsilon)
  }

  /** One row of the batch: construct the tweet `t`; destroy it again when it has
      no word left, otherwise compare it with the tweets around it and append it to
      the window. */
  method Receive(cfg: Settings, delimiter: Id, cells: seq<seq<Cell>>, tweets: map<Id, Tweet>,
                 queue: seq<Id>, nextId: Id, m: Incoming)
    returns (cells': seq<seq<Cell>>, tweets': map<Id, Tweet>, queue': seq<Id>, ghost t: Tweet)
    requires Invariant(cfg, delimiter, cells, tweets, queue, nextId) && Lands(cfg, m)
    ensures Invariant(cfg, delimiter, cells', tweets', queue', nextId + 1)
    ensures t.x == Column(cfg, m.lon) && t.y == Row(cfg, m.lat) && t.words == Words(m.cleaned)
    ensures t == Tweet(false, true, cfg.Noise(), cfg.Noise(), m.lat, m.lon, t.x, t.y, m.time,
                       t.words, m.text, m.user, m.exact, [], map[], t.regionalRates)
    ensures queue' == queue + Appended(m, nextId)
    ensures Words(m.cleaned) == {} ==> cells' == cells && tweets' == tweets
    ensures Words(m.cleaned) != {} ==>
      tweets'.Keys == tweets.Keys + {nextId} && Received(cfg, cells, tweets, nextId, t, cells', tweets')
    ensures Receives(cfg, m, t, Daemon(cells, tweets, queue, nextId), Daemon(cells', tweets', queue', nextId + 1))
  {
    ReadyToConstruct(cfg, delimiter, cells, tweets, queue, nextId, m);
    var cells1, built := Construct(cfg, cells, nextId, m);
    ReadyToCompare(cfg, delimiter, cells, tweets, queue, nextId, built, cells1);
    if built.words == {} {
      // a tweet made only of ignored strings is destroyed at once
      DroppedLeavesNoTrace(cells, tweets, nextId, built, cells1);
      SkipKeepsInvariant(cfg, delimiter, cells, tweets, queue, nextId);
      cells', tweets' := Destroy(cells1, tweets[nextId := built], nextId);
      queue' := queue;
    } else {
      var tweets2 := CompareNew(cells1, tweets[nextId := built], nextId, cfg.epsilon);
      ghost var done := Compared(cells1, cells1[built.x][built.y].region, tweets[nextId := built], nextId);
      ReceiveKeepsInvariant(cfg, delimiter, cells, tweets, queue, nextId, built, cells1, done, tweets2);
      cells', tweets', queue' := cells1, tweets2, queue + [nextId];
    }
    t := built;
  }

  /** Destroy the oldest tweets until the window holds at most `WINDOW`. */
  method Evict(cfg: Settings, delimiter: Id, cells: seq<seq<Cell>>, tweets: map<Id, Tweet>,
               queue: seq<Id>, nextId: Id)
    returns (cells': seq<seq<Cell>>, tweets': map<Id, Tweet>, queue': seq<Id>)
    requires Invariant(cfg, delimiter, cells, tweets, queue, nextId)
    ensures Invariant(cfg, delimiter, cells', tweets', queue', nextId)
    ensures queue' == Kept(queue)
    ensures Daemon(cells', tweets', queue', nextId) == Evicted(Daemon(cells, tweets, queue, nextId))
  {
    cells', tweets', queue' := cells, tweets, queue;
    ghost var start := Daemon(cells, tweets, queue, nextId);
    while |queue'| > WINDOW
      invariant Evicting(cfg, delimiter, start, cells', tweets', queue', nextId)
      decreases |queue'|
    {
      cells', tweets', queue' := EvictNext(cfg, delimiter, start, cells', tweets', queue', nextId);
    }
  }

  /** A state the eviction loop reaches from `start`: what it will keep and the
      state it will leave are those of `start`. */
  ghost predicate Evicting(cfg: Settings, delimiter: Id, start: Daemon,
                           cells: seq<seq<Cell>>, tweets: map<Id, Tweet>, queue: seq<Id>, nextId: Id)
  {
    && Kept(queue) == Kept(start.queue)
    && Evicted(Daemon(cells, tweets, queue, nextId)) == Evicted(start)
    && Invariant(cfg, delimiter, cells, tweets, queue, nextId)
  }

  /** One turn of the eviction loop. */
  method EvictNext(cfg: Settings, delimiter: Id, ghost start: Daemon,
                   cells: seq<seq<Cell>>, tweets: map<Id, Tweet>, queue: seq<Id>, nextId: Id)
    returns (cells': seq<seq<Cell>>, tweets': map<Id, Tweet>, queue': seq<Id>)
    requires Evicting(cfg, delimiter, start, cells, tweets, queue, nextId) && |queue| > WINDOW
    ensures Evicting(cfg, delimiter, start, cells', tweets', queue', nextId)
    ensures |queue'| == |queue| - 1
  {
    cells', tweets', queue' := EvictOldest(cfg, delimiter, cells, tweets, queue, nextId);
  }

  /** `delete window.front(); window.pop_front()`: destroy the oldest tweet of the window. */
  method EvictOldest(cfg: Settings, delimiter: Id, cells: seq<seq<Cell>>, tweets: map<Id, Tweet>,
                     queue: seq<Id>, nextId: Id)
    returns (cells': seq<seq<Cell>>, tweets': map<Id, Tweet>, queue': seq<Id>)
    requires Invariant(cfg, delimiter, cells, tweets, queue, nextId) && queue != []
    ensures Invariant(cfg, delimiter, cells', tweets', queue', nextId)
    ensures queue' == queue[1..]
    ensures FrontFiled(Daemon(cells, tweets, queue, nextId))
    ensures Daemon(cells', tweets', queue', nextId) == PopOldest(Daemon(cells, tweets, queue, nextId))
  {
    EvictKeepsInvariant(cfg, delimiter, cells, tweets, queue, nextId);
    cells', tweets' := Destroy(cells, tweets, queue[0]);
    queue' := queue[1..];
  }

  /** The oldest tweet of the window is live and lies in the grid. */
  ghost predicate FrontFiled(s: Daemon) {
    && s.queue != [] && s.queue[0] in s.tweets
    && s.tweets[s.queue[0]].x < |s.cells| && s.tweets[s.queue[0]].y < |s.cells[s.tweets[s.queue[0]].x]|
  }

  /** The state after `delete window.front(); window.pop_front()`: the destructor's
      cell update and unlinking, and the window without its front. */
  ghost function PopOldest(s: Daemon): (s': Daemon)
    requires FrontFiled(s)
    ensures s'.queue == s.queue[1..] && s'.nextId == s.nextId
    ensures s'.tweets.Keys == s.tweets.Keys - {s.queue[0]}
  {
    var id := s.queue[0];
    var t := s.tweets[id];
    Daemon(Replace(s.cells, t.x, t.y, RemoveTweet(s.cells[t.x][t.y], id, t.words)), Detached(s.tweets, id),
           s.queue[1..], s.nextId)
  }

  /** The state the eviction loop leaves: pop the oldest tweet while more than
      `WINDOW` remain (under the invariant the front is always filed). */
  ghost function Evicted(s: Daemon): Daemon
    decreases |s.queue|
  {
    if |s.queue| > WINDOW && FrontFiled(s) then Evicted(PopOldest(s)) else s
  }

  /** Under the invariant, eviction destroys exactly the tweets that fall out of
      the window, leaves the kept window and keeps the invariant. */
  lemma {:induction false} EvictedDropsOldest(cfg: Settings, delimiter: Id, s: Daemon)
    requires Invariant(cfg, delimiter, s.cells, s.tweets, s.queue, s.nextId)
    ensures Evicted(s).queue == Kept(s.queue) && Evicted(s).nextId == s.nextId
    ensures Evicted(s).tweets.Keys == s.tweets.Keys - Dropped(s.queue)
    ensures Invariant(cfg, delimiter, Evicted(s).cells, Evicted(s).tweets, Evicted(s).queue, s.nextId)
    decreases |s.queue|
  {
    if |s.queue| > WINDOW {
      EvictKeepsInvariant(cfg, delimiter, s.cells, s.tweets, s.queue, s.nextId);
      EvictedDropsOldest(cfg, delimiter, PopOldest(s));
    }
  }

  /** The tweets the eviction loop destroys: the oldest ones while more than
      `WINDOW` remain. */
  ghost function Dropped(queue: seq<Id>): set<Id>
    decreases |queue|
  {
    if |queue| > WINDOW then {queue[0]} + Dropped(queue[1..]) else {}
  }

  /** The destroyed tweets are those in front of the kept window. */
  lemma {:induction false} DroppedAreOldest(queue: seq<Id>)
    ensures forall id :: id in Dropped(queue) <==> id in queue[..|queue| - |Kept(queue)|]
    decreases |queue|
  {
    if |queue| > WINDOW {
      DroppedAreOldest(queue[1..]);
      PrefixAfterFront(queue, |queue| - |Kept(queue)|);
    }
  }

  lemma PrefixAfterFront(q: seq<Id>, n: nat)
    requires 1 <= n <= |q|
    ensures forall id :: id in q[..n] <==> id == q[0] || id in q[1..][..n - 1]
  {
    assert q[..n] == [q[0]] + q[1..][..n - 1];
  }

  /** The window the eviction loop leaves: drop the oldest tweet while more than
      `WINDOW` remain. */
  ghost function Kept(queue: seq<Id>): (kept: seq<Id>)
    ensures |kept| <= WINDOW && (|queue| <= WINDOW ==> kept == queue)
    ensures |queue| >= WINDOW ==> |kept| == WINDOW
    decreases |queue|
  {
    if |queue| > WINDOW then Kept(queue[1..]) else queue
  }

  /** What the loop keeps is the newest `WINDOW` tweets, in their order. */
  lemma {:induction false} KeptIsNewest(queue: seq<Id>)
    ensures |queue| > WINDOW ==> Kept(queue) == queue[|queue| - WINDOW..]
    ensures |queue| <= WINDOW ==> Kept(queue) == queue
    decreases |queue|
  {
    if |queue| > WINDOW {
      KeptIsNewest(queue[1..]);
      assert queue[1..][|queue| - 1 - WINDOW..] == queue[|queue| - WINDOW..];
    }
  }

  /** The id a row appends to the window: its own when it has a word, none otherwise. */
  ghost function Appended(m: Incoming, id: Id): seq<Id> {
    if Words(m.cleaned) != {} then [id] else []
  }

  /** The ids the first `k` rows of `batch` take when they have a word, in the
      order of the batch: row `k` takes `nextId + k`, and a row without words is
      dropped. */
  ghost function NewIds(batch: seq<Incoming>, nextId: Id, k: nat): seq<Id>
    requires k <= |batch|
  {
    if k == 0 then [] else NewIds(batch, nextId, k - 1) + Appended(batch[k - 1], nextId + k - 1)
  }

  /** Receiving row `m` as the tweet `t` takes the daemon from `s` to `s'`: `t` is
      built from the row; the row takes the id `s.nextId` and joins the window when
      it has a word; a row without words leaves the grid and the arena as they were,
      and a row with words is received as `Received` says. */
  ghost predicate Receives(cfg: Settings, m: Incoming, t: Tweet, s: Daemon, s': Daemon)
    requires cfg.Valid()
  {
    && t.x == Column(cfg, m.lon) && t.y == Row(cfg, m.lat) && t.words == Words(m.cleaned)
    && t == Tweet(false, true, cfg.Noise(), cfg.Noise(), m.lat, m.lon, t.x, t.y, m.time,
                  t.words, m.text, m.user, m.exact, [], map[], t.regionalRates)
    && s'.queue == s.queue + Appended(m, s.nextId) && s'.nextId == s.nextId + 1
    && (Words(m.cleaned) == {} ==> s'.cells == s.cells && s'.tweets == s.tweets)
    && (Words(m.cleaned) != {} ==>
          s'.tweets.Keys == s.tweets.Keys + {s.nextId} &&
          Received(cfg, s.cells, s.tweets, s.nextId, t, s'.cells, s'.tweets))
  }

  /** `trace` is the run of states through which the first `|built|` rows of
      `batch` are received, in order: row `j` is received as `built[j]` from
      `trace[j]`, giving `trace[j + 1]`. */
  ghost predicate Trace(cfg: Settings, batch: seq<Incoming>, trace: seq<Daemon>, built: seq<Tweet>)
    requires cfg.Valid()
  {
    && |built| <= |batch| && |trace| == |built| + 1
    && forall j :: 0 <= j < |built| ==> Receives(cfg, batch[j], built[j], trace[j], trace[j + 1])
  }

  /** A run can be extended by one more row. */
  lemma TraceExtends(cfg: Settings, batch: seq<Incoming>, trace: seq<Daemon>, built: seq<Tweet>,
                     t: Tweet, s': Daemon)
    requires cfg.Valid() && Trace(cfg, batch, trace, built) && |built| < |batch|
    requires Receives(cfg, batch[|built|], t, trace[|built|], s')
    ensures Trace(cfg, batch, trace + [s'], built + [t])
  {
    var trace', built' := trace + [s'], built + [t];
    forall j | 0 <= j < |built'| ensures Receives(cfg, batch[j], built'[j], trace'[j], trace'[j + 1]) {
      if j < |built| {
        assert built'[j] == built[j] && trace'[j] == trace[j] && trace'[j + 1] == trace[j + 1];
      }
    }
  }

  /** What receiving `m` does to the window, the next id and the arena's ids and
      words: the row takes the id `s.nextId`, and joins the window and the arena,
      with its words, when it has a word; the tweets already there keep theirs. */
  ghost predicate Grew(m: Incoming, s: Daemon, s': Daemon) {
    && s'.queue == s.queue + Appended(m, s.nextId) && s'.nextId == s.nextId + 1
    && (forall id :: id in s'.tweets <==> id in s.tweets || id in Appended(m, s.nextId))
    && (Words(m.cleaned) != {} ==> s.nextId in s'.tweets && s'.tweets[s.nextId].words == Words(m.cleaned))
    && (forall id :: id in s.tweets ==> id in s'.tweets && s'.tweets[id].words == s.tweets[id].words)
  }

  /** The first `n` steps of `trace` each receive the next row of `batch`. */
  ghost predicate Grows(batch: seq<Incoming>, trace: seq<Daemon>, n: nat) {
    && n <= |batch| && |trace| == n + 1
    && forall j :: 0 <= j < n ==> Grew(batch[j], trace[j], trace[j + 1])
  }

  /** Every step of a run receives the next row. */
  lemma TraceGrowsStepwise(cfg: Settings, batch: seq<Incoming>, trace: seq<Daemon>, built: seq<Tweet>)
    requires cfg.Valid() && Trace(cfg, batch, trace, built)
    ensures Grows(batch, trace, |built|)
  {
    forall j | 0 <= j < |built| ensures Grew(batch[j], trace[j], trace[j + 1]) {
      ReceivesKeepsWords(cfg, batch[j], built[j], trace[j], trace[j + 1]);
    }
  }

  /** Along a run, row `i` is received with id `nextId + i`, the window grows by the
      ids of the rows with words, in order, and the arena gains exactly those ids. */
  lemma {:induction false} TraceGrows(batch: seq<Incoming>, trace: seq<Daemon>, n: nat, i: nat)
    requires Grows(batch, trace, n) && i <= n
    ensures trace[i].nextId == trace[0].nextId + i
    ensures trace[i].queue == trace[0].queue + NewIds(batch, trace[0].nextId, i)
    ensures forall id :: id in trace[i].tweets <==> id in trace[0].tweets || id in NewIds(batch, trace[0].nextId, i)
  {
    if i > 0 {
      TraceGrows(batch, trace, n, i - 1);
      assert Grew(batch[i - 1], trace[i - 1], trace[i]);
      var start, step := trace[0], Appended(batch[i - 1], trace[i - 1].nextId);
      assert NewIds(batch, start.nextId, i) == NewIds(batch, start.nextId, i - 1) + step;
      assert start.queue + NewIds(batch, start.nextId, i - 1) + step ==
             start.queue + (NewIds(batch, start.nextId, i - 1) + step);
    }
  }

  /** A row with words is in the arena after it is received, with the words of the
      row; a tweet already in the arena stays, with the same words. */
  lemma ReceivesKeepsWords(cfg: Settings, m: Incoming, t: Tweet, s: Daemon, s': Daemon)
    requires cfg.Valid() && Receives(cfg, m, t, s, s')
    ensures Words(m.cleaned) != {} ==> s.nextId in s'.tweets && s'.tweets[s.nextId].words == Words(m.cleaned)
    ensures forall id :: id in s.tweets ==> id in s'.tweets && s'.tweets[id].words == s.tweets[id].words
  {
    if Words(m.cleaned) != {} {
      var before := s.tweets[s.nextId := t];
      var done := Compared(s'.cells, s.cells[t.x][t.y].region, before, s.nextId);
      RecordingKeepsTexts(before, s'.tweets, s.nextId, done, cfg.epsilon);
      assert forall id :: id in s.tweets ==> before[id] == s.tweets[id];
    }
  }

  /** A tweet in the arena at step `i` of a run is in the arena at its end, with
      the same words. */
  lemma {:induction false} TraceKeepsWords(batch: seq<Incoming>, trace: seq<Daemon>, n: nat, i: nat, id: Id)
    requires Grows(batch, trace, n) && i <= n && id in trace[i].tweets
    ensures id in trace[n].tweets && trace[n].tweets[id].words == trace[i].tweets[id].words
    decreases n - i
  {
    if i < n {
      assert Grew(batch[i], trace[i], trace[i + 1]);
      TraceKeepsWords(batch, trace, n, i + 1, id);
    }
  }

  /** Every row with words of a run is in the arena at its end, under the id
      `nextId + j` it was given and with the words of the row. */
  lemma TraceHoldsRow(cfg: Settings, batch: seq<Incoming>, trace: seq<Daemon>, built: seq<Tweet>, j: nat)
    requires cfg.Valid() && Trace(cfg, batch, trace, built) && j < |built| && Words(batch[j].cleaned) != {}
    ensures trace[0].nextId + j in trace[|built|].tweets
    ensures trace[|built|].tweets[trace[0].nextId + j].words == Words(batch[j].cleaned)
  {
    TraceGrowsStepwise(cfg, batch, trace, built);
    GrowsHoldsRow(batch, trace, |built|, j);
  }

  lemma GrowsHoldsRow(batch: seq<Incoming>, trace: seq<Daemon>, n: nat, j: nat)
    requires Grows(batch, trace, n) && j < n && Words(batch[j].cleaned) != {}
    ensures trace[0].nextId + j in trace[n].tweets
    ensures trace[n].tweets[trace[0].nextId + j].words == Words(batch[j].cleaned)
  {
    TraceGrows(batch, trace, n, j);
    assert Grew(batch[j], trace[j], trace[j + 1]);
    TraceKeepsWords(batch, trace, n, j + 1, trace[j].nextId);
  }

  /** The state after the first `k` rows of `batch` were received along `trace`,
      under the invariant. */
  ghost predicate Batched(cfg: Settings, delimiter: Id, batch: seq<Incoming>, trace: seq<Daemon>, built: seq<Tweet>,
                          k: nat, cells: seq<seq<Cell>>, tweets: map<Id, Tweet>, queue: seq<Id>, id: Id)
  {
    && Invariant(cfg, delimiter, cells, tweets, queue, id)
    && Trace(cfg, batch, trace, built) && k == |built|
    && trace[k] == Daemon(cells, tweets, queue, id)
  }

  /** Row `k` of the batch, received with the next id. */
  method ReceiveRow(cfg: Settings, delimiter: Id, ghost trace: seq<Daemon>, ghost built: seq<Tweet>,
                    cells: seq<seq<Cell>>, tweets: map<Id, Tweet>, queue: seq<Id>, batch: seq<Incoming>, k: nat, id: Id)
    returns (cells': seq<seq<Cell>>, tweets': map<Id, Tweet>, queue': seq<Id>, k': nat, id': Id,
             ghost trace': seq<Daemon>, ghost built': seq<Tweet>)
    requires Batched(cfg, delimiter, batch, trace, built, k, cells, tweets, queue, id)
    requires k < |batch| && Lands(cfg, batch[k])
    ensures Batched(cfg, delimiter, batch, trace', built', k', cells', tweets', queue', id')
    ensures k' == k + 1 && trace' == trace + [Daemon(cells', tweets', queue', id')] && built'[..k] == built
    ensures Receives(cfg, batch[k], built'[k], Daemon(cells, tweets, queue, id), Daemon(cells', tweets', queue', id'))
  {
    ghost var t;
    cells', tweets', queue', t := Receive(cfg, delimiter, cells, tweets, queue, id, batch[k]);
    k', id' := k + 1, id + 1;
    TraceExtends(cfg, batch, trace, built, t, Daemon(cells', tweets', queue', id'));
    trace', built' := trace + [Daemon(cells', tweets', queue', id')], built + [t];
  }

  /** The loop over the rows of the batch, each given the next id. */
  method ReceiveBatch(cfg: Settings, delimiter: Id, cells: seq<seq<Cell>>, tweets: map<Id, Tweet>,
                      queue: seq<Id>, nextId: Id, batch: seq<Incoming>)
    returns (cells': seq<seq<Cell>>, tweets': map<Id, Tweet>, queue': seq<Id>, nextId': Id,
             ghost trace: seq<Daemon>, ghost built: seq<Tweet>)
    requires Invariant(cfg, delimiter, cells, tweets, queue, nextId)
    requires forall k :: 0 <= k < |batch| ==> Lands(cfg, batch[k])
    ensures Batched(cfg, delimiter, batch, trace, built, |batch|, cells', tweets', queue', nextId')
    ensures trace[0] == Daemon(cells, tweets, queue, nextId)
  {
    cells', tweets', queue' := cells, tweets, queue;
    var k := 0;
    nextId' := nextId;
    trace, built := [Daemon(cells, tweets, queue, nextId)], [];
    while k < |batch|
      invariant Batched(cfg, delimiter, batch, trace, built, k, cells', tweets', queue', nextId')
      invariant trace[0] == Daemon(cells, tweets, queue, nextId)
      decreases |batch| - k
    {
      cells', tweets', queue', k, nextId', trace, built :=
        ReceiveRow(cfg, delimiter, trace, built, cells', tweets', queue', batch, k, nextId');
    }
  }

  /** The first half of `updateTweets`: evict the oldest tweets, then receive the
      batch. */
  method Admit(cfg: Settings, delimiter: Id, cells: seq<seq<Cell>>, tweets: map<Id, Tweet>,
               queue: seq<Id>, nextId: Id, batch: seq<Incoming>)
    returns (cells': seq<seq<Cell>>, tweets': map<Id, Tweet>, queue': seq<Id>, nextId': Id,
             ghost trace: seq<Daemon>, ghost built: seq<Tweet>)
    requires Invariant(cfg, delimiter, cells, tweets, queue, nextId)
    requires forall k :: 0 <= k < |batch| ==> Lands(cfg, batch[k])
    ensures Invariant(cfg, delimiter, cells', tweets', queue', nextId')
    ensures nextId' == nextId + |batch|
    ensures queue' == Kept(queue) + NewIds(batch, nextId, |batch|)
    ensures Admitted(cfg, batch, Daemon(cells, tweets, queue, nextId), trace, built,
                     Daemon(cells', tweets', queue', nextId'))
  {
    cells', tweets', queue' := Evict(cfg, delimiter, cells, tweets, queue, nextId);
    cells', tweets', queue', nextId', trace, built := ReceiveBatch(cfg, delimiter, cells', tweets', queue', nextId, batch);
    TraceGrowsStepwise(cfg, batch, trace, built);
    TraceGrows(batch, trace, |batch|, |batch|);
  }

  /** Admitting `batch` takes the daemon from `s` to `s'` along `trace`: the oldest
      tweets are evicted from `s`, then every row of the batch is received in order. */
  ghost predicate Admitted(cfg: Settings, batch: seq<Incoming>, s: Daemon, trace: seq<Daemon>, built: seq<Tweet>,
                           s': Daemon)
    requires cfg.Valid()
  {
    && Trace(cfg, batch, trace, built) && |built| == |batch|
    && trace[0] == Evicted(s) && trace[|batch|] == s'
  }

  /** `updateTweets`: evict, admit the batch in order, then the two passes, with the
      reachability rule as written. Ids are handed out in order of admission, one per
      row. `admitted` is the arena after the batch and before the passes. */
  method UpdateTweets(cfg: Settings, delimiter: Id, cells: seq<seq<Cell>>, tweets: map<Id, Tweet>,
                      queue: seq<Id>, nextId: Id, batch: seq<Incoming>)
    returns (cells': seq<seq<Cell>>, tweets': map<Id, Tweet>, queue': seq<Id>, nextId': Id,
             ghost admitted: map<Id, Tweet>, ghost trace: seq<Daemon>, ghost built: seq<Tweet>)
    requires Invariant(cfg, delimiter, cells, tweets, queue, nextId)
    requires forall k :: 0 <= k < |batch| ==> Lands(cfg, batch[k])
    ensures Invariant(cfg, delimiter, cells', tweets', queue', nextId')
    ensures nextId' == nextId + |batch|
    ensures queue' == Kept(queue) + NewIds(batch, nextId, |batch|)
    ensures Admitted(cfg, batch, Daemon(cells, tweets, queue, nextId), trace, built,
                     Daemon(cells', admitted, queue', nextId'))
    ensures Invariant(cfg, delimiter, cells', admitted, queue', nextId')
    ensures cfg.minPts >= 1 && AllKnown(CoresUpdated(admitted, queue', cfg.minPts, cfg.epsilon))
    ensures tweets' == ReachesUpdated(AsWritten, CoresUpdated(admitted, queue', cfg.minPts, cfg.epsilon),
                                      queue', cfg.epsilon)
    ensures forall id :: id in queue' ==>
      id in tweets' && !tweets'[id].requireUpdate &&
      tweets'[id].coreDistance == CoreDistance(tweets'[id].neighbors, cfg.minPts, cfg.epsilon)
  {
    cells', tweets', queue', nextId', trace, built := Admit(cfg, delimiter, cells, tweets, queue, nextId, batch);
    admitted := tweets';
    PassesKeepInvariant(cfg, delimiter, cells', tweets', queue', nextId');
    var mid := CorePass(tweets', queue', cfg.minPts, cfg.epsilon);
    tweets' := ReachPass(AsWritten, mid, queue', cfg.epsilon);
  }

  /** `Initialize`: the grid, the delimiter (built before the regions, so with an
      empty region and all rates 0), then the regions. The delimiter gets id 0. */
  method Initialize(cfg: Settings) returns (cells: seq<seq<Cell>>, d: Tweet)
    requires cfg.Valid() && Lands(cfg, DELIMITER_ROW)
    ensures Invariant(cfg, 0, cells, map[0 := d], [], 1)
    ensures d.words == Words(DELIMITER_ROW.cleaned)
    ensures forall i, j :: 0 <= i < cfg.Columns() && 0 <= j < cfg.Rows() ==>
      IsRegion(cells[i][j].region, i, j, cfg.Radius(), cfg.Columns(), cfg.Rows())
  {
    var cols, rows := cfg.Columns(), cfg.Rows();
    var grid := NewGrid(cols, rows);
    var placed, t := Construct(cfg, grid, 0, DELIMITER_ROW);
    cells := AssignRegions(placed, cfg.Radius(), cols, rows);
    InitialInvariant(cfg, grid, placed, t, cells);
    d := t.(smallestReachability := cfg.reachabilityThreshold + 1.0);
  }

  /** The second half of a cycle of the main loop: the reachability plot of the
      window, and the clusters cut out of it, none of which holds the delimiter. */
  method Order(cfg: Settings, delimiter: Id, tweets: map<Id, Tweet>, queue: seq<Id>)
    returns (plot: seq<Id>, clusters: seq<seq<Id>>, ghost spans: seq<(int, int)>)
    requires Windowed(tweets, queue, delimiter, cfg.reachabilityThreshold)
    ensures forall t :: t != delimiter ==> (t in plot <==> t in Plot.NonNoise(tweets, queue, cfg.epsilon))
    ensures Plot.Once(plot, delimiter) && Plot.Delimited(plot, delimiter)
    ensures InArena(tweets, plot) && Plot.SeedsFirst(tweets, plot, delimiter)
    ensures forall i :: 0 <= i < |plot| && plot[i] != delimiter && !Plot.IsSeed(plot, delimiter, i) ==>
      Plot.Acquired(tweets, plot, delimiter, cfg.epsilon, i)
    ensures |clusters| == |spans|
    ensures forall c :: 0 <= c < |spans| ==>
      Clusters.ClusterSpan(tweets, plot, cfg.reachabilityThreshold, spans[c].0, spans[c].1) &&
      clusters[c] == plot[spans[c].0..spans[c].1]
    ensures forall c, d :: 0 <= c < d < |spans| ==> spans[c].1 < spans[d].0
    ensures forall s, e :: Clusters.ClusterSpan(tweets, plot, cfg.reachabilityThreshold, s, e) ==> (s, e) in spans
    ensures forall c :: 0 <= c < |clusters| ==> delimiter !in clusters[c]
  {
    plot := Plot.GetReachabilityPlot(tweets, queue, delimiter, cfg.epsilon);
    clusters, spans := Clusters.ExtractClusters(plot, tweets, cfg.reachabilityThreshold);
    forall c | 0 <= c < |clusters| ensures delimiter !in clusters[c] {
      Clusters.DelimiterOutsideClusters(tweets, plot, cfg.reachabilityThreshold, delimiter, spans[c].0, spans[c].1);
    }
  }

  /** What `updateTweets` does to the daemon `s` with the batch `batch`: the window
      is the newest `WINDOW` of `s.queue` followed by the rows with words;
      `admitted` is the arena once the batch is in, reached along `trace` from the
      evicted state; and the arena is `admitted` after the core pass and the
      reachability pass with the rule as written, which leave every tweet of the
      window settled. */
  ghost predicate Updated(cfg: Settings, delimiter: Id, s: Daemon, batch: seq<Incoming>,
                          cells': seq<seq<Cell>>, tweets': map<Id, Tweet>, queue': seq<Id>, nextId': Id,
                          admitted: map<Id, Tweet>, trace: seq<Daemon>, built: seq<Tweet>)
  {
    && Invariant(cfg, delimiter, cells', tweets', queue', nextId')
    && nextId' == s.nextId + |batch|
    && queue' == Kept(s.queue) + NewIds(batch, s.nextId, |batch|)
    && Admitted(cfg, batch, s, trace, built, Daemon(cells', admitted, queue', nextId'))
    && Invariant(cfg, delimiter, cells', admitted, queue', nextId')
    && cfg.minPts >= 1 && AllKnown(CoresUpdated(admitted, queue', cfg.minPts, cfg.epsilon))
    && tweets' == ReachesUpdated(AsWritten, CoresUpdated(admitted, queue', cfg.minPts, cfg.epsilon), queue', cfg.epsilon)
    && (forall id :: id in queue' ==>
          id in tweets' && !tweets'[id].requireUpdate &&
          tweets'[id].coreDistance == CoreDistance(tweets'[id].neighbors, cfg.minPts, cfg.epsilon))
  }

  /** What the plot and the clusters of the window `queue` are: the plot covers
      every tweet of the window that is not noise, once, seeds first, each other
      entry acquired from one before it; the clusters are exactly the low runs of
      the plot, in order, and none holds the delimiter. */
  ghost predicate Ordered(cfg: Settings, delimiter: Id, tweets: map<Id, Tweet>, queue: seq<Id>,
                          plot: seq<Id>, clusters: seq<seq<Id>>, spans: seq<(int, int)>)
    requires InArena(tweets, queue)
  {
    && (forall t :: t != delimiter ==> (t in plot <==> t in Plot.NonNoise(tweets, queue, cfg.epsilon)))
    && Plot.Once(plot, delimiter) && Plot.Delimited(plot, delimiter)
    && InArena(tweets, plot) && Plot.SeedsFirst(tweets, plot, delimiter)
    && (forall i :: 0 <= i < |plot| && plot[i] != delimiter && !Plot.IsSeed(plot, delimiter, i) ==>
          Plot.Acquired(tweets, plot, delimiter, cfg.epsilon, i))
    && |clusters| == |spans|
    && (forall c :: 0 <= c < |spans| ==>
          Clusters.ClusterSpan(tweets, plot, cfg.reachabilityThreshold, spans[c].0, spans[c].1) &&
          clusters[c] == plot[spans[c].0..spans[c].1])
    && (forall c, d :: 0 <= c < d < |spans| ==> spans[c].1 < spans[d].0)
    && (forall s, e :: Clusters.ClusterSpan(tweets, plot, cfg.reachabilityThreshold, s, e) ==> (s, e) in spans)
    && (forall c :: 0 <= c < |clusters| ==> delimiter !in clusters[c])
  }

  /** One cycle of the main loop on the daemon's state as values. */
  method Step(cfg: Settings, delimiter: Id, cells: seq<seq<Cell>>, tweets: map<Id, Tweet>,
              queue: seq<Id>, nextId: Id, batch: seq<Incoming>)
    returns (cells': seq<seq<Cell>>, tweets': map<Id, Tweet>, queue': seq<Id>, nextId': Id,
             plot: seq<Id>, clusters: seq<seq<Id>>, ghost admitted: map<Id, Tweet>, ghost spans: seq<(int, int)>,
             ghost trace: seq<Daemon>, ghost built: seq<Tweet>)
    requires Invariant(cfg, delimiter, cells, tweets, queue, nextId)
    requires forall k :: 0 <= k < |batch| ==> Lands(cfg, batch[k])
    ensures Updated(cfg, delimiter, Daemon(cells, tweets, queue, nextId), batch,
                    cells', tweets', queue', nextId', admitted, trace, built)
    ensures Ordered(cfg, delimiter, tweets', queue', plot, clusters, spans)
  {
    cells', tweets', queue', nextId', admitted, trace, built := UpdateTweets(cfg, delimiter, cells, tweets, queue, nextId, batch);
    plot, clusters, spans := Order(cfg, delimiter, tweets', queue');
  }

  /** The daemon's changing state: the grid, the arena of live tweets, the window
      (oldest first) and the id the next row gets. */
  datatype Daemon = Daemon(cells: seq<seq<Cell>>, tweets: map<Id, Tweet>, queue: seq<Id>, nextId: Id)

  /** The daemon: its settings and delimiter, fixed at start-up, and its state,
      which every cycle of the main loop replaces. */
  class Pericog {
    const cfg: Settings
    const delimiter: Id
    var state: Daemon

    ghost predicate Valid()
      reads this
    {
      Invariant(cfg, delimiter, state.cells, state.tweets, state.queue, state.nextId)
    }

    /** The daemon as `Initialize` leaves it: the delimiter is the only tweet and
        the window is empty. */
    constructor (cfg: Settings)
      requires cfg.Valid() && Lands(cfg, DELIMITER_ROW)
      ensures Valid() && Shaped(state.cells, cfg.Columns(), cfg.Rows())
      ensures state.queue == [] && state.tweets.Keys == {delimiter}
      ensures state.tweets[delimiter].words == Words(DELIMITER_ROW.cleaned)
      ensures forall i, j :: 0 <= i < cfg.Columns() && 0 <= j < cfg.Rows() ==>
        IsRegion(state.cells[i][j].region, i, j, cfg.Radius(), cfg.Columns(), cfg.Rows())
    {
      var grid, d := Initialize(cfg);
      this.cfg := cfg;
      delimiter := 0;
      state := Daemon(grid, map[0 := d], [], 1);
    }

    /** One cycle of the main loop: update the window, order it into the
        reachability plot and cut the plot into clusters. */
    method Cycle(batch: seq<Incoming>)
      returns (plot: seq<Id>, clusters: seq<seq<Id>>, ghost admitted: map<Id, Tweet>, ghost spans: seq<(int, int)>,
               ghost trace: seq<Daemon>, ghost built: seq<Tweet>)
      requires Valid() && forall k :: 0 <= k < |batch| ==> Lands(cfg, batch[k])
      modifies this
      ensures Valid()
      ensures Updated(cfg, delimiter, old(state), batch,
                      state.cells, state.tweets, state.queue, state.nextId, admitted, trace, built)
      ensures Ordered(cfg, delimiter, state.tweets, state.queue, plot, clusters, spans)
    {
      var cells', tweets', queue', nextId';
      cells', tweets', queue', nextId', plot, clusters, admitted, spans, trace, built :=
        Step(cfg, delimiter, state.cells, state.tweets, state.queue, state.nextId, batch);
      state := Daemon(cells', tweets', queue', nextId');
    }
  }
}
