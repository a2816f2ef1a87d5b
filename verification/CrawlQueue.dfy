/** The crawl queue of src/queue.c: adds, claims and completions of any number of clients and workers, each
    transaction and each critical section one atomic step, and restarts of the process. */
module CrawlQueue {
  import opened Optional
  import opened Ranges
  import opened Store

  /** CONFIG_CRAWL_DELAY_SECONDS */
  const DELAY: nat := 86400

  /** A worker keeps the client and the URL in buffers of these sizes. */
  const CLIENT_MAX: nat := 255
  const URL_MAX: nat := 1023

  predicate FitsWorker(url: string, client: string) { |url| <= URL_MAX && |client| <= CLIENT_MAX }

  /** A key of the forward table. */
  datatype Entry = Entry(key: Key, url: string, client: string)

  datatype Fetched = Fetched(time: nat, response: Response)

  /** A worker that has claimed an entry; it takes an id, and then it fetches. */
  datatype Worker = Worker(entry: Entry, newId: Option<nat>, fetched: Option<Fetched>)

  /** The clock, the counters, the tables, the adds under way and the workers at work; and, as a record of what
      happened, the keys ever put into the queue, those claimed, and those put in at or below the cursor. */
  datatype State = State(
    now: nat, currentId: nat, cursor: Key,
    fwd: set<Entry>, rev: set<SurtKey>, store: Tables,
    pending: set<Entry>, workers: map<nat, Worker>,
    added: set<Key>, claimed: seq<Key>, late: set<Key>)

  const INIT: State := State(0, 0, Key(0, 0), {}, {}, EMPTY, {}, map[], {}, [], {})

  datatype Step =
    | Tick(n: nat)
    | StartAdd(time: nat, url: string, client: string)
    | CommitAdd(e: Entry)
    | DropAdd(e: Entry)
    | Claim(w: nat, e: Entry)
    | TakeId(w: nat)
    | Fetch(w: nat, r: Response)
    | Complete(w: nat)
    | GiveUp(w: nat)
    | Restart

  // ---------------------------------------------------------------- the steps

  function Surt(normal: Normal, e: Entry): Option<string> { normal(e.url) }

  /** Normalising and taking the id; the caller read the clock before. */
  function DoStartAdd(normal: Normal, st: State, time: nat, url: string, client: string): State {
    if 0 < time <= st.now && normal(url).Some? && FitsWorker(url, client) then
      st.(currentId := st.currentId + 1, pending := st.pending + {Entry(Key(time, st.currentId + 1), url, client)})
    else st
  }

  predicate Queued(rev: set<SurtKey>, surt: string) { exists k :: k in rev && k.surt == surt }

  /** The latest response for the SURT is not old enough. */
  ghost predicate TooRecent(store: Tables, surt: string, time: nat) {
    exists k :: IsGreatest(k, SurtRange(store, surt)) && !(k.time + DELAY < time)
  }

  /** The transaction of queue_add. */
  ghost function DoCommitAdd(normal: Normal, st: State, e: Entry): State {
    if e !in st.pending || Surt(normal, e).None? then st
    else
      var s := Surt(normal, e).value;
      var rest := st.(pending := st.pending - {e});
      if Queued(st.rev, s) || TooRecent(st.store, s, e.key.time) then rest
      else
        rest.(fwd := st.fwd + {e}, rev := st.rev + {SurtKey(s, e.key)}, added := st.added + {e.key},
              late := if Less(st.cursor, e.key) then st.late else st.late + {e.key})
  }

  function Ahead(fwd: set<Entry>, cursor: Key): set<Entry> { set e | e in fwd && Less(cursor, e.key) }

  /** Entries of one process never share a key, but entries of different processes may. */
  predicate IsLeast(e: Entry, es: set<Entry>) { e in es && forall x :: x in es ==> !Less(x.key, e.key) }

  /** queue_peek: a first entry behind the cursor, which moves there. */
  function DoClaim(st: State, w: nat, e: Entry): State {
    if w in st.workers || !IsLeast(e, Ahead(st.fwd, st.cursor)) then st
    else
      st.(cursor := e.key, workers := st.workers[w := Worker(e, None, None)], claimed := st.claimed + [e.key])
  }

  function DoTakeId(st: State, w: nat): State {
    if w in st.workers && st.workers[w].newId.None? then
      st.(currentId := st.currentId + 1, workers := st.workers[w := st.workers[w].(newId := Some(st.currentId))])
    else st
  }

  /** url_fetch reads the clock first. The rest of the response can be anything that a fetch makes. */
  function DoFetch(st: State, w: nat, r: Response): State {
    if w in st.workers && st.workers[w].newId.Some? && st.workers[w].fetched.None?
        && r.url == st.workers[w].entry.url && Storable(r) then
      st.(workers := st.workers[w := st.workers[w].(fetched := Some(Fetched(st.now, r)))])
    else st
  }

  /** The transaction of queue_work: the entry leaves both tables, and the response is stored. */
  function DoComplete(normal: Normal, st: State, w: nat): State {
    if w !in st.workers || st.workers[w].newId.None? || st.workers[w].fetched.None?
        || !Storable(st.workers[w].fetched.value.response)
       || Surt(normal, st.workers[w].entry).None? then st
    else
      var worker, gone := st.workers[w], st.(workers := st.workers - {w});
      var f := worker.fetched.value;
      var store := Store.Add(normal, st.store, f.response, Key(f.time, worker.newId.value));
      if store.None? then gone
      else gone.(fwd := st.fwd - {worker.entry},
          rev := st.rev - {SurtKey(Surt(normal, worker.entry).value, worker.entry.key)},
                 store := store.value)
  }

  /** Only the tables outlive the process. */
  function DoRestart(st: State): State { INIT.(now := st.now, fwd := st.fwd, rev := st.rev, store := st.store) }

  ghost function Next(normal: Normal, st: State, step: Step): State {
    match step
    case Tick(n) => st.(now := st.now + n)
    case StartAdd(time, url, client) => DoStartAdd(normal, st, time, url, client)
    case CommitAdd(e) => DoCommitAdd(normal, st, e)
    case DropAdd(e) => st.(pending := st.pending - {e})
    case Claim(w, e) => DoClaim(st, w, e)
    case TakeId(w) => DoTakeId(st, w)
    case Fetch(w, r) => DoFetch(st, w, r)
    case Complete(w) => DoComplete(normal, st, w)
    case GiveUp(w) => st.(workers := st.workers - {w})
    case Restart => DoRestart(st)
  }

  ghost function Run(normal: Normal, steps: seq<Step>): State {
    if steps == [] then INIT else Next(normal, Run(normal, steps[..|steps| - 1]), steps[|steps| - 1])
  }

  // ---------------------------------------------------------------- what every step keeps

  /** The two tables of the queue are in one-to-one agreement. */
  ghost predicate Paired(normal: Normal, fwd: set<Entry>, rev: set<SurtKey>) {
    && (forall e :: e in fwd ==> Surt(normal, e).Some? && SurtKey(Surt(normal, e).value, e.key) in rev)
    && (forall k :: k in rev ==> exists e :: e in fwd && e.key == k.key && Surt(normal, e) == Some(k.surt))
  }

  ghost predicate OnePerSurt(normal: Normal, fwd: set<Entry>) {
    forall e, f :: e in fwd && f in fwd && Surt(normal, e) == Surt(normal, f) ==> e == f
  }

  /** Two entries never share an id, and no id is zero or larger than the counter. */
  ghost predicate Numbered(es: set<Entry>, currentId: nat) {
    && (forall e :: e in es ==> 0 < e.key.id <= currentId)
    && (forall e, f :: e in es && f in es && e.key.id == f.key.id ==> e == f)
  }

  ghost predicate NotInFuture(es: set<Entry>, now: nat) { forall e :: e in es ==> 0 < e.key.time <= now }

  /** A queued entry is due: every stored response for its SURT is older than the delay. */
  ghost predicate Due(normal: Normal, fwd: set<Entry>, responses: map<Key, Response>) {
    forall e, k :: e in fwd && k in responses && normal(responses[k].url) == Surt(normal, e) ==>
        k.time + DELAY < e.key.time
  }

  /** Any two responses stored for one SURT are more than the delay apart. */
  ghost predicate Spaced(normal: Normal, responses: map<Key, Response>) {
    forall j, k ::
      j in responses && k in responses && j != k && normal(responses[j].url) == normal(responses[k].url) ==>
        j.time + DELAY < k.time || k.time + DELAY < j.time
  }

  ghost predicate IdsBelow(keys: set<Key>, currentId: nat) { forall k :: k in keys ==> k.id < currentId }

  /** One worker at work. */
  ghost predicate WorkerOk(w: Worker, fwd: set<Entry>, claimed: seq<Key>, currentId: nat, now: nat) {
    && w.entry in fwd && w.entry.key in claimed
    && (w.newId.Some? ==> w.newId.value < currentId)
    && (w.fetched.Some? ==>
         && w.newId.Some? && w.entry.key.time <= w.fetched.value.time <= now
         && w.fetched.value.response.url == w.entry.url && Storable(w.fetched.value.response))
  }

  /** No two workers share an entry or an id. */
  ghost predicate Exclusive(workers: map<nat, Worker>) {
    forall v, w :: v in workers && w in workers && v != w ==>
      workers[v].entry != workers[w].entry && (workers[v].newId.Some? ==> workers[v].newId != workers[w].newId)
  }

  ghost predicate Working(st: State) {
    && Exclusive(st.workers)
    && forall w :: w in st.workers ==> WorkerOk(st.workers[w], st.fwd, st.claimed, st.currentId, st.now)
  }

  /** No id that a worker has taken is that of a response. */
  ghost predicate NewIds(workers: map<nat, Worker>, keys: set<Key>) {
    forall w, k :: w in workers && k in keys ==> workers[w].newId != Some(k.id)
  }

  /** The claims so far ascend strictly, and the cursor stands on the last. */
  ghost predicate Ascending(claimed: seq<Key>, cursor: Key) {
    && (forall i, j :: 0 <= i < j < |claimed| ==> Less(claimed[i], claimed[j]))
    && (if claimed == [] then cursor == Key(0, 0) else cursor == claimed[|claimed| - 1])
  }

  /** Which entries the cursor has passed without a claim: those that were put in at or below it. */
  ghost predicate PassedOver(fwd: set<Entry>, cursor: Key, claimed: seq<Key>, late: set<Key>) {
    && (forall k :: k in late ==> k !in claimed)
    && (forall e :: e in fwd && e.key !in claimed ==> (e.key in late <==> !Less(cursor, e.key)))
  }

  /** The record: what is queued, claimed or late was put in, and what is still pending was not. */
  ghost predicate Recorded(fwd: set<Entry>, pending: set<Entry>, added: set<Key>, claimed: seq<Key>, late: set<Key>,
                           currentId: nat) {
    && (forall e :: e in fwd ==> e.key in added)
    && (forall k :: k in claimed ==> k in added) && late <= added
    && (forall k :: k in added ==> k.id <= currentId)
    && (forall k, e :: k in added && e in pending ==> k.id != e.key.id)
  }

  /** What every step keeps, restarts included. */
  ghost predicate Safe(normal: Normal, st: State) {
    && Paired(normal, st.fwd, st.rev) && OnePerSurt(normal, st.fwd) && NotInFuture(st.fwd + st.pending, st.now)
    && (forall e :: e in st.pending ==> Surt(normal, e).Some? && FitsWorker(e.url, e.client))
    && Indexed(normal, st.store) && Due(normal, st.fwd, st.store.responses) && Spaced(normal, st.store.responses)
    && Working(st) && Ascending(st.claimed, st.cursor)
  }

  /** What every step of one process keeps that starts with empty tables. */
  ghost predicate Fresh(st: State) {
    && Numbered(st.fwd + st.pending, st.currentId) && st.fwd !! st.pending
    && IdsBelow(st.store.responses.Keys, st.currentId) && NewIds(st.workers, st.store.responses.Keys)
    && PassedOver(st.fwd, st.cursor, st.claimed, st.late)
    && Recorded(st.fwd, st.pending, st.added, st.claimed, st.late, st.currentId)
  }

  lemma InitOk(normal: Normal)
    ensures Safe(normal, INIT) && Fresh(INIT)
  {
    EmptyIndexed(normal);
  }

  lemma ClaimKeepsOrder(st: State, e: Entry)
    requires Ascending(st.claimed, st.cursor) && Less(st.cursor, e.key)
    ensures Ascending(st.claimed + [e.key], e.key) && e.key !in st.claimed
  {
  }

  lemma ClaimPasses(fwd: set<Entry>, cursor: Key, claimed: seq<Key>, late: set<Key>, e: Entry)
    requires PassedOver(fwd, cursor, claimed, late) && IsLeast(e, Ahead(fwd, cursor)) && e.key !in claimed
    ensures PassedOver(fwd, e.key, claimed + [e.key], late)
  {
    forall k | k in late ensures k !in claimed + [e.key] {
    }
    forall f | f in fwd && f.key !in claimed + [e.key] ensures f.key in late <==> !Less(e.key, f.key) {
      assert f.key !in claimed && f.key != e.key by { assert e.key == (claimed + [e.key])[|claimed|]; }
      assert Less(cursor, f.key) ==> f in Ahead(fwd, cursor);
    }
  }

  lemma ClaimWorks(st: State, w: nat, e: Entry)
    requires Working(st) && w !in st.workers && e in st.fwd && e.key !in st.claimed
    ensures Working(st.(cursor := e.key, workers := st.workers[w := Worker(e, None, None)],
              claimed := st.claimed + [e.key]))
  {
    assert e.key == (st.claimed + [e.key])[|st.claimed|];
  }

  /** What the check of queue_add finds: nothing is queued for the SURT, and everything stored for it is old enough. */
  lemma ChecksPass(normal: Normal, st: State, e: Entry)
    requires Indexed(normal, st.store) && Paired(normal, st.fwd, st.rev) && Surt(normal, e).Some?
    requires !Queued(st.rev, Surt(normal, e).value) && !TooRecent(st.store, Surt(normal, e).value, e.key.time)
    ensures forall f :: f in st.fwd ==> Surt(normal, f) != Surt(normal, e)
    ensures forall k :: k in st.store.responses && normal(st.store.responses[k].url) == Surt(normal, e) ==>
              k.time + DELAY < e.key.time
  {
    var s := Surt(normal, e).value;
    var range := SurtRange(st.store, s);
    SurtRangeIsScan(normal, st.store, s);
    if range != {} {
      var g := GreatestExists(range);
      forall k | k in st.store.responses && normal(st.store.responses[k].url) == Surt(normal, e)
          ensures k.time + DELAY < e.key.time {
        assert k in OfSurt(normal, st.store, s);
      }
    } else {
      forall k | k in st.store.responses ensures normal(st.store.responses[k].url) != Surt(normal, e) {
        assert k !in OfSurt(normal, st.store, s);
      }
    }
  }

  lemma GreatestExists(keys: set<Key>) returns (g: Key)
    requires keys != {}
    ensures IsGreatest(g, keys)
  {
    var k :| k in keys;
    if keys == {k} {
      g := k;
    } else {
      var h := GreatestExists(keys - {k});
      g := if Less(h, k) then k else h;
      forall x | x in keys ensures x == g || Less(x, g) {
        assert x == k || x in keys - {k};
      }
    }
  }

  lemma CommitPairs(normal: Normal, st: State, e: Entry)
    requires Paired(normal, st.fwd, st.rev) && OnePerSurt(normal, st.fwd) && Surt(normal, e).Some?
    requires forall f :: f in st.fwd ==> Surt(normal, f) != Surt(normal, e)
    ensures Paired(normal, st.fwd + {e}, st.rev + {SurtKey(Surt(normal, e).value, e.key)})
    ensures OnePerSurt(normal, st.fwd + {e})
  {
    forall k | k in st.rev + {SurtKey(Surt(normal, e).value, e.key)}
      ensures exists f :: f in st.fwd + {e} && f.key == k.key && Surt(normal, f) == Some(k.surt)
    {
      if k !in st.rev {
        assert e in st.fwd + {e};
      }
    }
  }

  lemma CommitPasses(fwd: set<Entry>, cursor: Key, claimed: seq<Key>, late: set<Key>, e: Entry)
    requires PassedOver(fwd, cursor, claimed, late) && e.key !in claimed && e.key !in late
    ensures PassedOver(fwd + {e}, cursor, claimed, if Less(cursor, e.key) then late else late + {e.key})
    requires forall f :: f in fwd ==> f.key != e.key
  {
  }

  lemma CommitRecords(st: State, e: Entry, late: set<Key>)
    requires Recorded(st.fwd, st.pending, st.added, st.claimed, st.late, st.currentId)
    requires Numbered(st.fwd + st.pending, st.currentId)
    requires e in st.pending && st.late <= late <= st.late + {e.key}
    ensures Recorded(st.fwd + {e}, st.pending - {e}, st.added + {e.key}, st.claimed, late, st.currentId)
    ensures e.key !in st.added && e.key !in st.claimed && e.key !in st.late
    ensures forall f :: f in st.fwd ==> f.key != e.key
  {
  }

  lemma CommitWorks(st: State, e: Entry)
    requires Working(st)
    ensures forall fwd, rev, pending, added, late :: st.fwd <= fwd ==>
              Working(st.(fwd := fwd, rev := rev, pending := pending, added := added, late := late))
  {
  }

  lemma CompletePairs(normal: Normal, fwd: set<Entry>, rev: set<SurtKey>, e: Entry)
    requires Paired(normal, fwd, rev) && OnePerSurt(normal, fwd) && e in fwd
    ensures Paired(normal, fwd - {e}, rev - {SurtKey(Surt(normal, e).value, e.key)}) && OnePerSurt(normal, fwd - {e})
  {
    var gone := SurtKey(Surt(normal, e).value, e.key);
    forall k | k in rev - {gone}
        ensures exists f :: f in fwd - {e} && f.key == k.key && Surt(normal, f) == Some(k.surt) {
      var f :| f in fwd && f.key == k.key && Surt(normal, f) == Some(k.surt);
      assert f in fwd - {e};
    }
  }

  /** The entry was due, and it was the only one for its SURT. */
  lemma CompleteSpaces(normal: Normal, fwd: set<Entry>, responses: map<Key, Response>, e: Entry, k: Key, r: Response)
    requires OnePerSurt(normal, fwd) && Due(normal, fwd, responses) && Spaced(normal, responses)
    requires e in fwd && k !in responses && normal(r.url) == Surt(normal, e) && e.key.time <= k.time
    ensures Spaced(normal, responses[k := r]) && Due(normal, fwd - {e}, responses[k := r])
  {
  }

  lemma CompleteWorks(st: State, w: nat, k: Key, r: Response)
    requires Working(st) && w in st.workers && st.workers[w].newId == Some(k.id)
    ensures forall rev, store: Tables :: store.responses == st.store.responses[k := r] ==>
              Working(st.(workers := st.workers - {w}, fwd := st.fwd - {st.workers[w].entry}, rev := rev,
                  store := store))
  {
  }

  lemma CompletePasses(fwd: set<Entry>, cursor: Key, claimed: seq<Key>, late: set<Key>, e: Entry)
    requires PassedOver(fwd, cursor, claimed, late)
    ensures PassedOver(fwd - {e}, cursor, claimed, late)
  {
  }

  lemma FewerEntries(st: State, e: Entry)
    requires Numbered(st.fwd + st.pending, st.currentId) && NotInFuture(st.fwd + st.pending, st.now)
    requires Recorded(st.fwd, st.pending, st.added, st.claimed, st.late, st.currentId)
    ensures Numbered(st.fwd - {e} + st.pending, st.currentId) && NotInFuture(st.fwd - {e} + st.pending, st.now)
    ensures Recorded(st.fwd - {e}, st.pending, st.added, st.claimed, st.late, st.currentId)
  {
  }

  // ---------------------------------------------------------------- every step is safe

  lemma CommitAddSafe(normal: Normal, st: State, e: Entry)
    requires Safe(normal, st)
    ensures Safe(normal, DoCommitAdd(normal, st, e))
  {
    if e in st.pending {
      var s := Surt(normal, e).value;
      if Queued(st.rev, s) || TooRecent(st.store, s, e.key.time) {
        DropSafe(normal, st, e);
      } else {
        assert st.fwd + {e} + (st.pending - {e}) == st.fwd + st.pending;
        hide Indexed, Paired, OnePerSurt, Spaced, Ascending, NotInFuture, Working, TooRecent, Queued, Surt;
        CommitWorks(st, e);
        ChecksPass(normal, st, e);
        CommitPairs(normal, st, e);
      }
    }
    hide Safe, TooRecent, Queued;
  }

  lemma ClaimSafe(normal: Normal, st: State, w: nat, e: Entry)
    requires Safe(normal, st)
    ensures Safe(normal, DoClaim(st, w, e))
  {
    if w !in st.workers && IsLeast(e, Ahead(st.fwd, st.cursor)) {
      ClaimKeepsOrder(st, e);
      ClaimWorks(st, w, e);
    }
    hide Indexed, Paired, OnePerSurt, Due, Spaced, Ascending, NotInFuture, Working, IsLeast, Ahead, Surt;
  }

  /** Storing the response fails for one reason only. */
  lemma CompletionStores(normal: Normal, st: State, w: nat)
    requires Safe(normal, st) && w in st.workers && st.workers[w].fetched.Some?
    ensures var e, f := st.workers[w].entry, st.workers[w].fetched.value;
            && st.workers[w].newId.Some? && Storable(f.response) && Surt(normal, e).Some?
            && normal(f.response.url) == Surt(normal, e) && e in st.fwd && e.key.time <= f.time
            && var k := Key(f.time, st.workers[w].newId.value);
               (Store.Add(normal, st.store, f.response, k).Some? <==> k !in st.store.responses)
  {
    var f := st.workers[w].fetched.value;
    assert WorkerOk(st.workers[w], st.fwd, st.claimed, st.currentId, st.now);
    AddIndexes(normal, st.store, f.response, Key(f.time, st.workers[w].newId.value));
    hide Indexed, OnePerSurt, Due, Spaced, Ascending, NotInFuture, Exclusive, Store.Add;
  }

  lemma CompleteSafe(normal: Normal, st: State, w: nat)
    requires Safe(normal, st)
    ensures Safe(normal, DoComplete(normal, st, w))
  {
    if w in st.workers && st.workers[w].fetched.Some? {
      CompletionStores(normal, st, w);
      var e, f := st.workers[w].entry, st.workers[w].fetched.value;
      var r, k := f.response, Key(f.time, st.workers[w].newId.value);
      LeavesWork(st, w);
      if k !in st.store.responses {
        AddSucceeds(normal, st.store, r, k);
        AddIndexes(normal, st.store, r, k);
        CompletePairs(normal, st.fwd, st.rev, e);
        CompleteSpaces(normal, st.fwd, st.store.responses, e, k, r);
        CompleteWorks(st, w, k, r);
        FewerInFuture(st.fwd, st.pending, e, st.now);
      }
      hide Indexed, Paired, OnePerSurt, Due, Spaced, Ascending, Working, Store.Add, HashKeys, Surt, NotInFuture;
    }
  }

  lemma FewerInFuture(fwd: set<Entry>, pending: set<Entry>, e: Entry, now: nat)
    requires NotInFuture(fwd + pending, now)
    ensures NotInFuture(fwd - {e} + pending, now)
  {
  }

  lemma LeavesWork(st: State, w: nat)
    requires Working(st)
    ensures Working(st.(workers := st.workers - {w}))
  {
    hide WorkerOk;
  }

  lemma StartAddSafe(normal: Normal, st: State, time: nat, url: string, client: string)
    requires Safe(normal, st)
    ensures Safe(normal, DoStartAdd(normal, st, time, url, client))
  {
    hide Indexed, Paired, OnePerSurt, Due, Spaced, Ascending, Exclusive;
  }

  lemma TickSafe(normal: Normal, st: State, n: nat)
    requires Safe(normal, st)
    ensures Safe(normal, st.(now := st.now + n))
  {
    hide Indexed, Paired, OnePerSurt, Due, Spaced, Ascending, Exclusive;
  }

  lemma DropSafe(normal: Normal, st: State, e: Entry)
    requires Safe(normal, st)
    ensures Safe(normal, st.(pending := st.pending - {e}))
  {
    hide Indexed, Paired, OnePerSurt, Due, Spaced, Ascending, Exclusive, WorkerOk;
  }

  lemma TakeIdSafe(normal: Normal, st: State, w: nat)
    requires Safe(normal, st)
    ensures Safe(normal, DoTakeId(st, w))
  {
    hide Indexed, Paired, OnePerSurt, Due, Spaced, Ascending, NotInFuture;
  }

  lemma FetchSafe(normal: Normal, st: State, w: nat, r: Response)
    requires Safe(normal, st)
    ensures Safe(normal, DoFetch(st, w, r))
  {
    hide Indexed, Paired, OnePerSurt, Due, Spaced, Ascending;
  }

  lemma RestartSafe(normal: Normal, st: State)
    requires Safe(normal, st)
    ensures Safe(normal, DoRestart(st))
  {
    assert DoRestart(st).fwd + {} <= st.fwd + st.pending;
    hide Indexed, Paired, OnePerSurt, Due, Spaced;
  }

  lemma GiveUpSafe(normal: Normal, st: State, w: nat)
    requires Safe(normal, st)
    ensures Safe(normal, st.(workers := st.workers - {w}))
  {
    LeavesWork(st, w);
    hide Indexed, Paired, OnePerSurt, Due, Spaced, Ascending, NotInFuture, Working;
  }

  lemma NextSafe(normal: Normal, st: State, step: Step)
    requires Safe(normal, st)
    ensures Safe(normal, Next(normal, st, step))
  {
    hide Safe, DoStartAdd, DoCommitAdd, DoClaim, DoTakeId, DoFetch, DoComplete, DoRestart;
    match step
    case Tick(n) => TickSafe(normal, st, n);
    case StartAdd(time, url, client) => StartAddSafe(normal, st, time, url, client);
    case CommitAdd(e) => CommitAddSafe(normal, st, e);
    case DropAdd(e) => DropSafe(normal, st, e);
    case Claim(w, e) => ClaimSafe(normal, st, w, e);
    case TakeId(w) => TakeIdSafe(normal, st, w);
    case Fetch(w, r) => FetchSafe(normal, st, w, r);
    case Complete(w) => CompleteSafe(normal, st, w);
    case GiveUp(w) => GiveUpSafe(normal, st, w);
    case Restart => RestartSafe(normal, st);
  }

  lemma {:induction false} RunSafe(normal: Normal, steps: seq<Step>)
    ensures Safe(normal, Run(normal, steps))
  {
    if steps == [] {
      InitOk(normal);
    } else {
      hide Safe, Next;
      RunSafe(normal, steps[..|steps| - 1]);
      NextSafe(normal, Run(normal, steps[..|steps| - 1]), steps[|steps| - 1]);
    }
  }

  /** Under any interleaving, and over any number of processes: the two queue tables stay in one-to-one agreement,
      with at most one entry for a SURT, and any two responses stored for one SURT are more than the crawl delay
      apart. */
  lemma CrawlIsSafe(normal: Normal, steps: seq<Step>)
    ensures var st := Run(normal, steps);
            && Paired(normal, st.fwd, st.rev) && OnePerSurt(normal, st.fwd)
            && Spaced(normal, st.store.responses) && Indexed(normal, st.store)
  {
    RunSafe(normal, steps);
    hide Run;
  }

  /** The claims of the running process ascend strictly, so that no entry is claimed twice, and no two workers hold
      the same entry or the same id. */
  lemma ClaimsAreExclusive(normal: Normal, steps: seq<Step>)
    ensures var st := Run(normal, steps);
            && (forall i, j :: 0 <= i < j < |st.claimed| ==>
                  Less(st.claimed[i], st.claimed[j]) && st.claimed[i] != st.claimed[j])
            && Exclusive(st.workers)
  {
    RunSafe(normal, steps);
    hide Run;
  }

  // ---------------------------------------------------------------- entries that nobody works on

  /** Claimed, and given up. */
  ghost predicate Stranded(st: State, e: Entry) {
    e in st.fwd && e.key in st.claimed && forall w :: w in st.workers ==> st.workers[w].entry != e
  }

  /** A worker that gives up strands its entry. */
  lemma GiveUpStrands(normal: Normal, st: State, w: nat)
    requires Safe(normal, st) && w in st.workers
    ensures Stranded(Next(normal, st, GiveUp(w)), st.workers[w].entry)
  {
    hide Indexed, Paired, OnePerSurt, Due, Spaced, Ascending;
  }

  lemma StrandedStays(normal: Normal, st: State, step: Step, e: Entry)
    requires Safe(normal, st) && Stranded(st, e) && !step.Restart?
    ensures Stranded(Next(normal, st, step), e)
  {
    if step.Claim? && step.w !in st.workers && IsLeast(step.e, Ahead(st.fwd, st.cursor)) {
      ClaimKeepsOrder(st, step.e);
    }
    hide Safe, IsLeast, Ahead, DoCommitAdd, DoComplete;
    if step.CommitAdd? {
      CommitKeeps(normal, st, step.e);
    } else if step.Complete? {
      CompleteKeeps(normal, st, step.w);
    }
  }

  lemma CompleteKeeps(normal: Normal, st: State, w: nat)
    ensures var st' := DoComplete(normal, st, w);
            && st'.claimed == st.claimed && (st' == st || st'.workers == st.workers - {w})
            && forall e :: e in st.fwd && (w in st.workers ==> st.workers[w].entry != e) ==> e in st'.fwd
  {
    hide Surt, Store.Add;
  }

  lemma CommitKeeps(normal: Normal, st: State, e: Entry)
    ensures var st' := DoCommitAdd(normal, st, e);
            st.fwd <= st'.fwd && st'.claimed == st.claimed && st'.workers == st.workers
  {
    hide Queued, TooRecent, Surt, Less;
  }

  /** It is not claimed again, and every add for its SURT is refused, until the process restarts. */
  lemma {:induction false} StrandedForGood(normal: Normal, steps: seq<Step>, more: seq<Step>, e: Entry)
    requires Stranded(Run(normal, steps), e) && forall i :: 0 <= i < |more| ==> !more[i].Restart?
    ensures var st := Run(normal, steps + more);
            && Stranded(st, e)
            && forall f :: Surt(normal, f) == Surt(normal, e) ==> Next(normal, st, CommitAdd(f)).fwd == st.fwd
  {
    if more == [] {
      assert steps + more == steps;
    } else {
      var init, last := more[..|more| - 1], more[|more| - 1];
      assert steps + more == steps + init + [last];
      StrandedForGood(normal, steps, init, e);
      RunSafe(normal, steps + init);
      hide Run, Next, Safe, Stranded;
      RunOne(normal, steps + init, last);
      StrandedStays(normal, Run(normal, steps + init), last, e);
    }
    RunSafe(normal, steps + more);
    StrandedBlocks(normal, Run(normal, steps + more), e);
    hide *;
  }

  lemma StrandedBlocks(normal: Normal, st: State, e: Entry)
    requires Safe(normal, st) && Stranded(st, e)
    ensures forall f :: Surt(normal, f) == Surt(normal, e) ==> Next(normal, st, CommitAdd(f)).fwd == st.fwd
  {
    hide Indexed, OnePerSurt, Due, Spaced, Ascending, NotInFuture, Working, TooRecent;
  }

  /** The next process has it ahead of its cursor. */
  lemma RestartRevives(normal: Normal, st: State, e: Entry)
    requires Safe(normal, st) && e in st.fwd
    ensures var st' := Next(normal, st, Restart); e in Ahead(st'.fwd, st'.cursor) && e.key !in st'.claimed
  {
    assert e in st.fwd + st.pending;
    hide Indexed, Paired, OnePerSurt, Due, Spaced, Ascending, Working;
  }

  // ---------------------------------------------------------------- one process

  /** A run of one process, from empty tables. */
  predicate OneProcess(steps: seq<Step>) { forall i :: 0 <= i < |steps| ==> !steps[i].Restart? }

  lemma CommitAddFresh(st: State, e: Entry, late: set<Key>)
    requires Fresh(st) && e in st.pending && late == if Less(st.cursor, e.key) then st.late else st.late + {e.key}
    ensures forall rev :: Fresh(st.(pending := st.pending - {e}, fwd := st.fwd + {e}, rev := rev,
              added := st.added + {e.key}, late := late))
    ensures Fresh(st.(pending := st.pending - {e}))
  {
    CommitRecords(st, e, late);
    CommitPasses(st.fwd, st.cursor, st.claimed, st.late, e);
    assert st.fwd + {e} + (st.pending - {e}) == st.fwd + st.pending;
    DropFresh(st, e);
    hide Numbered, PassedOver, Recorded, IdsBelow, NewIds;
  }

  lemma DropFresh(st: State, e: Entry)
    requires Fresh(st)
    ensures Fresh(st.(pending := st.pending - {e}))
  {
    hide PassedOver, IdsBelow, NewIds;
  }

  lemma ClaimFresh(normal: Normal, st: State, w: nat, e: Entry)
    requires Safe(normal, st) && Fresh(st)
    ensures Fresh(DoClaim(st, w, e))
  {
    if w !in st.workers && IsLeast(e, Ahead(st.fwd, st.cursor)) {
      ClaimKeepsOrder(st, e);
      ClaimPasses(st.fwd, st.cursor, st.claimed, st.late, e);
      hide Safe, Numbered, PassedOver, IdsBelow, Ascending, IsLeast;
    }
  }

  lemma CompleteFresh(normal: Normal, st: State, w: nat)
    requires Safe(normal, st) && Fresh(st)
    ensures Fresh(DoComplete(normal, st, w))
  {
    if w in st.workers && st.workers[w].fetched.Some? {
      CompletionStores(normal, st, w);
      var e, f := st.workers[w].entry, st.workers[w].fetched.value;
      var r, k := f.response, Key(f.time, st.workers[w].newId.value);
      AddIndexes(normal, st.store, r, k);
      if k !in st.store.responses {
        AddSucceeds(normal, st.store, r, k);
      }
      assert WorkerOk(st.workers[w], st.fwd, st.claimed, st.currentId, st.now);
      CompleteIds(st, w, k, r);
      FewerEntries(st, e);
      CompletePasses(st.fwd, st.cursor, st.claimed, st.late, e);
      hide Safe, Numbered, PassedOver, Recorded, IdsBelow, NewIds, Store.Add, HashKeys, Surt;
    }
  }

  lemma CompleteIds(st: State, w: nat, k: Key, r: Response)
    requires Working(st) && IdsBelow(st.store.responses.Keys, st.currentId)
    requires NewIds(st.workers, st.store.responses.Keys)
    requires w in st.workers && st.workers[w].newId == Some(k.id) && k.id < st.currentId
    ensures IdsBelow(st.store.responses[k := r].Keys, st.currentId)
    ensures NewIds(st.workers - {w}, st.store.responses[k := r].Keys)
    ensures NewIds(st.workers - {w}, st.store.responses.Keys)
  {
    hide WorkerOk;
  }

  /** In one process the new key never collides: a completion that gets this far succeeds. */
  lemma CompletionSucceeds(normal: Normal, st: State, w: nat)
    requires Safe(normal, st) && Fresh(st) && w in st.workers && st.workers[w].fetched.Some?
    ensures st.workers[w].newId.Some?
    ensures Key(st.workers[w].fetched.value.time, st.workers[w].newId.value) !in st.store.responses
  {
    CompletionStores(normal, st, w);
    hide Safe, Numbered, PassedOver, Recorded, IdsBelow;
  }

  lemma StartAddFresh(normal: Normal, st: State, time: nat, url: string, client: string)
    requires Fresh(st)
    ensures Fresh(DoStartAdd(normal, st, time, url, client))
  {
    hide PassedOver, NewIds;
  }

  lemma CommitFresh(normal: Normal, st: State, e: Entry)
    requires Fresh(st)
    ensures Fresh(DoCommitAdd(normal, st, e))
  {
    if e in st.pending {
      CommitAddFresh(st, e, if Less(st.cursor, e.key) then st.late else st.late + {e.key});
    }
    hide Fresh, Queued, TooRecent, Surt, Less;
  }

  lemma TakeIdFresh(normal: Normal, st: State, w: nat)
    requires Safe(normal, st) && Fresh(st)
    ensures Fresh(DoTakeId(st, w))
  {
    hide PassedOver, Safe;
  }

  lemma WorkersFresh(st: State, workers: map<nat, Worker>)
    requires Fresh(st)
    requires forall w :: w in workers && workers[w].newId.Some? ==>
              w in st.workers && st.workers[w].newId == workers[w].newId
    ensures forall now :: Fresh(st.(now := now, workers := workers))
  {
    hide PassedOver, Numbered, Recorded, IdsBelow;
  }

  lemma NextFresh(normal: Normal, st: State, step: Step)
    requires Safe(normal, st) && Fresh(st) && !step.Restart?
    ensures Fresh(Next(normal, st, step))
  {
    hide Safe, Fresh, DoStartAdd, DoCommitAdd, DoClaim, DoTakeId, DoComplete;
    match step
    case Tick(n) => WorkersFresh(st, st.workers);
    case StartAdd(time, url, client) => StartAddFresh(normal, st, time, url, client);
    case CommitAdd(e) => CommitFresh(normal, st, e);
    case DropAdd(e) => DropFresh(st, e);
    case Claim(w, e) => ClaimFresh(normal, st, w, e);
    case TakeId(w) => TakeIdFresh(normal, st, w);
    case Fetch(w, r) => WorkersFresh(st, DoFetch(st, w, r).workers);
    case Complete(w) => CompleteFresh(normal, st, w);
    case GiveUp(w) => WorkersFresh(st, st.workers - {w});
  }

  lemma {:induction false} RunFresh(normal: Normal, steps: seq<Step>)
    requires OneProcess(steps)
    ensures Fresh(Run(normal, steps))
  {
    if steps == [] {
      InitOk(normal);
    } else {
      hide Safe, Fresh, Next;
      var init := steps[..|steps| - 1];
      RunFresh(normal, init);
      RunSafe(normal, init);
      NextFresh(normal, Run(normal, init), steps[|steps| - 1]);
    }
  }

  /** A queued entry that nobody has claimed lies behind the cursor exactly when it was put in behind it; one that
      was not is never claimed. */
  lemma SkippedIs(normal: Normal, steps: seq<Step>, e: Entry)
    requires OneProcess(steps)
    ensures var st := Run(normal, steps);
            && (e in st.fwd && e.key !in st.claimed ==> (Less(st.cursor, e.key) <==> e.key !in st.late))
            && (e.key in st.late ==> e.key !in st.claimed)
  {
    RunFresh(normal, steps);
    hide Run;
  }

  /** The hypothesis: every entry that is put in comes after all that were put in before. */
  ghost predicate CommitsInOrder(normal: Normal, steps: seq<Step>) {
    steps == [] ||
    (CommitsInOrder(normal, steps[..|steps| - 1]) &&
     var st, step := Run(normal, steps[..|steps| - 1]), steps[|steps| - 1];
     step.CommitAdd? && step.e in st.pending ==> forall k :: k in st.added ==> Less(k, step.e.key))
  }

  lemma {:induction false} InOrderNothingIsLate(normal: Normal, steps: seq<Step>)
    requires OneProcess(steps) && CommitsInOrder(normal, steps)
    ensures Run(normal, steps).late == {}
  {
    if steps != [] {
      var init, step := steps[..|steps| - 1], steps[|steps| - 1];
      var st := Run(normal, init);
      InOrderNothingIsLate(normal, init);
      RunSafe(normal, init);
      RunFresh(normal, init);
      if step.CommitAdd? && step.e in st.pending {
        CursorWasAdded(normal, st, step.e);
      }
      NextLate(normal, st, step);
      hide Safe, Fresh, Next;
    }
  }

  lemma NextLate(normal: Normal, st: State, step: Step)
    requires !step.Restart? && (step.CommitAdd? && step.e in st.pending ==> Less(st.cursor, step.e.key))
    ensures Next(normal, st, step).late == st.late
  {
    hide Ahead, Store.Add, Queued, TooRecent, Less;
  }

  lemma CursorWasAdded(normal: Normal, st: State, e: Entry)
    requires Safe(normal, st) && Fresh(st) && e in st.pending && forall k :: k in st.added ==> Less(k, e.key)
    ensures Less(st.cursor, e.key)
  {
    if st.claimed != [] {
      assert st.cursor in st.claimed;
    }
    assert e in st.fwd + st.pending;
    hide Paired, OnePerSurt, Indexed, Due, Spaced, Working, Numbered, PassedOver;
  }

  /** When adds commit in order every unclaimed entry lies behind the cursor, and each claim takes the least of them. */
  lemma ClaimsTakeTheLeast(normal: Normal, steps: seq<Step>, w: nat, e: Entry)
    requires OneProcess(steps) && CommitsInOrder(normal, steps)
    ensures var st := Run(normal, steps);
            && (forall f :: f in st.fwd && f.key !in st.claimed ==> Less(st.cursor, f.key))
            && var st' := DoClaim(st, w, e);
               w !in st.workers && w in st'.workers ==>
                 && st'.workers[w].entry == e && e in st.fwd && st'.claimed == st.claimed + [e.key]
                 && forall f :: f in st.fwd && f.key !in st.claimed ==> !Less(f.key, e.key)
  {
    RunFresh(normal, steps);
    InOrderNothingIsLate(normal, steps);
    hide Run, Numbered, Recorded, NewIds, IdsBelow;
    var st := Run(normal, steps);
    forall f | f in st.fwd && f.key !in st.claimed ensures f in Ahead(st.fwd, st.cursor) {
    }
  }

  lemma RunOne(normal: Normal, steps: seq<Step>, step: Step)
    ensures Run(normal, steps + [step]) == Next(normal, Run(normal, steps), step)
  {
    assert (steps + [step])[..|steps|] == steps;
  }

  /** Nothing in the code makes adds commit in order. Here the add that took its id first commits second, after
      the other was claimed, and is passed over. */
  lemma SkipHappens(normal: Normal) returns (steps: seq<Step>, e: Entry)
    requires normal("a") == Some("a") && normal("b") == Some("b")
    ensures OneProcess(steps)
    ensures var st := Run(normal, steps);
            e in st.fwd && e.key !in st.claimed && Less(e.key, st.cursor) && e.key in st.late
  {
    e := FIRST;
    var run0, run1 := [], [Tick(5)];
    var run2 := run1 + [StartAdd(5, "a", "")];
    var run3 := run2 + [StartAdd(5, "b", "")];
    var run4 := run3 + [CommitAdd(SECOND)];
    var run5 := run4 + [Claim(0, SECOND)];
    steps := run5 + [CommitAdd(FIRST)];
    assert run0 + [Tick(5)] == run1 && Run(normal, run0) == INIT;
    hide Run, Next;
    RunOne(normal, run0, Tick(5));
    RunOne(normal, run1, StartAdd(5, "a", ""));
    RunOne(normal, run2, StartAdd(5, "b", ""));
    RunOne(normal, run3, CommitAdd(SECOND));
    RunOne(normal, run4, Claim(0, SECOND));
    RunOne(normal, run5, CommitAdd(FIRST));
    BothTaken(normal);
    SecondClaimed(normal);
    FirstComesLate(normal);
  }

  const FIRST: Entry := Entry(Key(5, 1), "a", "")
  const SECOND: Entry := Entry(Key(5, 2), "b", "")

  const BOTH: State := INIT.(now := 5, currentId := 2, pending := {FIRST, SECOND})
  const COMMITTED: State := BOTH.(fwd := {SECOND}, rev := {SurtKey("b", SECOND.key)}, pending := {FIRST},
      added := {SECOND.key})
  const CLAIMED: State := COMMITTED.(cursor := SECOND.key, workers := map[0 := Worker(SECOND, None, None)],
      claimed := [SECOND.key])

  lemma BothTaken(normal: Normal)
    requires normal("a") == Some("a") && normal("b") == Some("b")
    ensures Next(normal, Next(normal, Next(normal, INIT, Tick(5)), StartAdd(5, "a", "")), StartAdd(5, "b", "")) == BOTH
  {
  }

  lemma SecondClaimed(normal: Normal)
    requires normal("a") == Some("a") && normal("b") == Some("b")
    ensures Next(normal, Next(normal, BOTH, CommitAdd(SECOND)), Claim(0, SECOND)) == CLAIMED
  {
    assert SurtRange(BOTH.store, "b") == {} && !Queued(BOTH.rev, "b") && !TooRecent(BOTH.store, "b", 5);
    assert DoCommitAdd(normal, BOTH, SECOND) == COMMITTED;
    assert Ahead(COMMITTED.fwd, COMMITTED.cursor) == {SECOND} && IsLeast(SECOND, {SECOND});
  }

  lemma FirstComesLate(normal: Normal)
    requires normal("a") == Some("a")
    ensures var st := Next(normal, CLAIMED, CommitAdd(FIRST));
            FIRST in st.fwd && FIRST.key !in st.claimed && Less(FIRST.key, st.cursor) && FIRST.key in st.late
  {
    assert SurtRange(CLAIMED.store, "a") == {} && !Queued(CLAIMED.rev, "a") && !TooRecent(CLAIMED.store, "a", 5);
  }

  // ---------------------------------------------------------------- the code

  lemma LatestDecides(store: Tables, surt: string, latest: Option<Key>, time: nat)
    requires latest.None? ==> SurtRange(store, surt) == {}
    requires latest.Some? ==> IsGreatest(latest.value, SurtRange(store, surt))
    ensures TooRecent(store, surt, time) <==> latest.Some? && !(latest.value.time + DELAY < time)
  {
  }

  /** What the transaction of queue_add does to the globals and the tables. */
  lemma CommitTables(normal: Normal, st: State, e: Entry)
    requires Safe(normal, st) && e in st.pending
    ensures var s, st' := Surt(normal, e), Next(normal, st, Step.CommitAdd(e));
            && s.Some? && st'.currentId == st.currentId && st'.cursor == st.cursor && st'.store == st.store
            && if Queued(st.rev, s.value) || TooRecent(st.store, s.value, e.key.time) then st'.fwd == st.fwd
                && st'.rev == st.rev
               else st'.fwd == st.fwd + {e} && st'.rev == st.rev + {SurtKey(s.value, e.key)}
  {
    hide Indexed, Paired, OnePerSurt, Due, Spaced, Ascending, NotInFuture, Working, TooRecent, Queued;
  }

  /** What the transaction of queue_work does to them. */
  lemma CompleteTables(normal: Normal, st: State, w: nat)
    requires Safe(normal, st) && w in st.workers && st.workers[w].fetched.Some?
    ensures var e, f, st' := st.workers[w].entry, st.workers[w].fetched.value, Next(normal, st, Step.Complete(w));
            && st.workers[w].newId.Some? && Storable(f.response) && Surt(normal, e).Some?
            && st'.currentId == st.currentId && st'.cursor == st.cursor
            && var k := Key(f.time, st.workers[w].newId.value);
               var added := Store.Add(normal, st.store, f.response, k);
               && (added.Some? <==> k !in st.store.responses)
               && if added.None? then st'.fwd == st.fwd && st'.rev == st.rev && st'.store == st.store
                  else st'.fwd == st.fwd - {e} && st'.rev == st.rev - {SurtKey(Surt(normal, e).value, e.key)}
                       && st'.store == added.value
  {
    CompletionStores(normal, st, w);
    hide Safe, Store.Add, Surt;
  }

  /** The same, for the worker's entry, response and id. */
  lemma CompletionShown(normal: Normal, st: State, w: nat, e: Entry, f: Fetched, id: nat)
    requires Safe(normal, st) && w in st.workers && st.workers[w] == Worker(e, Some(id), Some(f))
    ensures Storable(f.response) && normal(e.url).Some? && (Fresh(st) ==> Key(f.time, id) !in st.store.responses)
    ensures var k, st' := Key(f.time, id), Next(normal, st, Step.Complete(w));
            var added := Store.Add(normal, st.store, f.response, k);
            && (added.Some? <==> k !in st.store.responses)
            && st' == st.(workers := st.workers - {w},
                          fwd := if added.None? then st.fwd else st.fwd - {e},
                          rev := if added.None? then st.rev else st.rev - {SurtKey(normal(e.url).value, e.key)},
                          store := if added.None? then st.store else added.value)
  {
    hide Safe, Fresh, Store.Add;
    CompleteTables(normal, st, w);
    if Fresh(st) {
      CompletionSucceeds(normal, st, w);
    }
  }

  /** No queued entry has the SURT of the URL. */
  ghost predicate NoneQueued(normal: Normal, fwd: set<Entry>, url: string) {
    forall f :: f in fwd ==> normal(f.url) != normal(url)
  }

  /** Every response that is stored for the SURT of the URL is more than a day older than the time. */
  ghost predicate AllOld(normal: Normal, responses: map<Key, Response>, url: string, time: nat) {
    forall k :: k in responses && normal(responses[k].url) == normal(url) ==> k.time + 24 * 60 * 60 < time
  }

  lemma QueuedIs(normal: Normal, fwd: set<Entry>, rev: set<SurtKey>, url: string)
    requires Paired(normal, fwd, rev) && normal(url).Some?
    ensures Queued(rev, normal(url).value) <==> !NoneQueued(normal, fwd, url)
  {
    var s := normal(url).value;
    if k :| k in rev && k.surt == s {
      var f :| f in fwd && f.key == k.key && Surt(normal, f) == Some(k.surt);
      assert normal(f.url) == normal(url);
    }
    if f :| f in fwd && normal(f.url) == normal(url) {
      assert Surt(normal, f) == Some(s) && SurtKey(s, f.key) in rev;
    }
  }

  lemma TooRecentIs(normal: Normal, store: Tables, url: string, time: nat)
    requires Indexed(normal, store) && normal(url).Some?
    ensures TooRecent(store, normal(url).value, time) <==> !AllOld(normal, store.responses, url, time)
  {
    var s := normal(url).value;
    SurtRangeIsScan(normal, store, s);
    hide Indexed, SurtRange;
    var keys := OfSurt(normal, store, s);
    if g :| IsGreatest(g, keys) && !(g.time + DELAY < time) {
      assert g in store.responses && normal(store.responses[g].url) == normal(url);
    }
    if k :| k in store.responses && normal(store.responses[k].url) == normal(url) && !(k.time + 24 * 60 * 60 < time) {
      assert k in keys;
      var g := GreatestExists(keys);
      assert k == g || Less(k, g);
    }
  }

  /** The later of two keys: by time, and by id when the times are the same. */
  predicate Later(a: Key, b: Key) { a.time > b.time || (a.time == b.time && a.id > b.id) }

  /** What the two looks of queue_add find, by scan. */
  lemma CommitDecides(normal: Normal, st: State, e: Entry)
    requires Safe(normal, st) && e in st.pending
    ensures normal(e.url).Some?
    ensures Queued(st.rev, normal(e.url).value) <==> !NoneQueued(normal, st.fwd, e.url)
    ensures TooRecent(st.store, normal(e.url).value, e.key.time) <==>
            !AllOld(normal, st.store.responses, e.url, e.key.time)
  {
    QueuedIs(normal, st.fwd, st.rev, e.url);
    TooRecentIs(normal, st.store, e.url, e.key.time);
    hide Paired, Indexed, Queued, TooRecent, NoneQueued, AllOld;
  }

  /** How queue_add ends. */
  datatype Added = Enqueued | AlreadyQueued | TooSoon

  /** The globals of src/queue.c and the tables it works on. What belongs to threads alone, and the record, are in
      the ghost state that each method moves by one step. */
  class Crawler {
    var currentId: nat
    var workTime: nat
    var workId: nat
    var fwd: set<Entry>
    var rev: set<SurtKey>
    var store: Tables

    constructor ()
      ensures Shows(INIT)
    {
      currentId, workTime, workId := 0, 0, 0;
      fwd, rev, store := {}, {}, EMPTY;
    }

    ghost predicate Shows(st: State)
      reads this
    {
      && currentId == st.currentId && Key(workTime, workId) == st.cursor
      && fwd == st.fwd && rev == st.rev && store == st.store
    }

    /** queue_add up to its transaction. */
    method StartAdd(normal: Normal, ghost st: State, time: nat, url: string, client: string) returns (e: Option<Entry>)
      requires Safe(normal, st) && Shows(st) && 0 < time <= st.now && FitsWorker(url, client)
      modifies this
      ensures Shows(Next(normal, st, Step.StartAdd(time, url, client)))
      ensures e.Some? ==> e.value in Next(normal, st, Step.StartAdd(time, url, client)).pending
    {
      if normal(url).None? {
        return None;
      }
      currentId := currentId + 1;
      return Some(Entry(Key(time, currentId), url, client));
    }

    /** The transaction of queue_add. */
    method CommitAdd(normal: Normal, ghost st: State, e: Entry) returns (r: Added)
      requires Safe(normal, st) && Shows(st) && e in st.pending
      modifies this
      ensures Shows(Next(normal, st, Step.CommitAdd(e)))
      ensures r == if !NoneQueued(normal, old(fwd), e.url) then AlreadyQueued
                   else if !AllOld(normal, old(store).responses, e.url, e.key.time) then TooSoon else Enqueued
      ensures normal(e.url).Some? && store == old(store)
      ensures if r.Enqueued? then fwd == old(fwd) + {e} && rev == old(rev) + {SurtKey(normal(e.url).value, e.key)}
              else fwd == old(fwd) && rev == old(rev)
    {
      var surt := normal(e.url).value;
      assert Surt(normal, e) == Some(surt);
      CommitTables(normal, st, e);
      CommitDecides(normal, st, e);
      hide Safe, Surt, SurtRange, IsGreatest, TooRecent, Next, NoneQueued, AllOld;
      if exists k :: k in rev && k.surt == surt {
        return AlreadyQueued;
      }
      KeysAreOrdered();
      var latest := CursorLast(Less, SurtRange(store, surt));
      LatestDecides(store, surt, latest, e.key.time);
      if latest.Some? && !(latest.value.time + DELAY < e.key.time) {
        return TooSoon;
      }
      fwd, rev := fwd + {e}, rev + {SurtKey(surt, e.key)};
      return Enqueued;
    }

    /** queue_peek, for a worker w that has nothing to do. */
    method QueuePeek(normal: Normal, ghost st: State, ghost w: nat) returns (r: Option<Entry>)
      requires Safe(normal, st) && Shows(st) && w !in st.workers
      modifies this
      ensures r.None? ==> Shows(st) && forall f :: f in st.fwd ==> !Later(f.key, st.cursor)
      ensures r.Some? ==>
                var st' := Next(normal, st, Step.Claim(w, r.value));
                Shows(st') && w in st'.workers && st'.workers[w] == Worker(r.value, None, None)
    {
      hide Safe;
      r := SeekFrom(fwd, Key(workTime, workId + 1));
      AheadIsFrom(st.fwd, st.cursor);
      NothingAhead(st.fwd, st.cursor);
      hide Ahead, From, Less, Later;
      if r.Some? {
        workTime, workId := r.value.key.time, r.value.key.id;
      }
    }

    /** The id for the response. */
    method NewId(normal: Normal, ghost st: State, ghost w: nat) returns (id: nat)
      requires Safe(normal, st) && Shows(st) && w in st.workers && st.workers[w].newId.None?
      modifies this
      ensures Shows(Next(normal, st, Step.TakeId(w))) && Next(normal, st, Step.TakeId(w)).workers[w].newId == Some(id)
    {
      id := currentId;
      currentId := currentId + 1;
    }

    /** The transaction of queue_work: queue_remove and hx_response_add. */
    method Finish(normal: Normal, ghost st: State, ghost w: nat, e: Entry, f: Fetched, id: nat) returns (ok: bool)
      requires Safe(normal, st) && Shows(st) && w in st.workers && st.workers[w] == Worker(e, Some(id), Some(f))
      modifies this
      ensures Shows(Next(normal, st, Step.Complete(w)))
      ensures ok == (Key(f.time, id) !in old(store).responses) && (Fresh(st) ==> ok)
    {
      hide Safe, Fresh, Next, Store.Add, Surt, Storable, DoComplete;
      CompletionShown(normal, st, w, e, f, id);
      var added := ResponseAdd(normal, store, f.response, Key(f.time, id));
      if added.None? {
        return false;
      }
      fwd, rev, store := fwd - {e}, rev - {SurtKey(normal(e.url).value, e.key)}, added.value;
      return true;
    }
  }

  function From(es: set<Entry>, lower: Key): set<Entry> { set e | e in es && !Less(e.key, lower) }

  lemma NothingAhead(fwd: set<Entry>, cursor: Key)
    ensures Ahead(fwd, cursor) == {} ==> forall f :: f in fwd ==> !Later(f.key, cursor)
  {
    if f :| f in fwd && Later(f.key, cursor) {
      assert f in Ahead(fwd, cursor);
    }
  }

  lemma AheadIsFrom(fwd: set<Entry>, cursor: Key)
    ensures Ahead(fwd, cursor) == From(fwd, Key(cursor.time, cursor.id + 1))
  {
  }

  /** kvs_cursor_seekr upwards: an entry of the least key that is not below lower. */
  method SeekFrom(es: set<Entry>, lower: Key) returns (r: Option<Entry>)
    ensures r.None? <==> From(es, lower) == {}
    ensures r.Some? ==> r.value in From(es, lower) && forall x :: x in From(es, lower) ==> !Less(x.key, r.value.key)
  {
    var todo := From(es, lower);
    if todo == {} {
      return None;
    }
    var best :| best in todo;
    while todo != {}
      invariant todo <= From(es, lower) && best in From(es, lower)
      invariant forall x :: x in From(es, lower) && x !in todo ==> !Less(x.key, best.key)
      decreases todo
    {
      var x :| x in todo;
      todo := todo - {x};
      if Less(x.key, best.key) {
        best := x;
      }
    }
    return Some(best);
  }
}
