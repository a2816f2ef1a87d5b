/** What adding, claiming and completing do in every state that the crawl queue of src/queue.c can reach, said
    by scans of the entries and the responses. */
module QueueSteps {
  import opened Optional
  import opened Store
  import opened CrawlQueue

  /** How an add that is under way ends: the entry is queued if and only if no entry for its SURT is, and the responses
      for it are all more than a day older. Otherwise both tables stay. */
  lemma AddIs(normal: Normal, steps: seq<Step>, e: Entry)
    requires e in Run(normal, steps).pending
    ensures var st, st' := Run(normal, steps), Run(normal, steps + [Step.CommitAdd(e)]);
            && normal(e.url).Some? && st'.store == st.store && st'.pending == st.pending - {e}
            && (if NoneQueued(normal, st.fwd, e.url) && AllOld(normal, st.store.responses, e.url, e.key.time) then
                  e !in st.fwd && st'.fwd == st.fwd + {e}
                  && st'.rev == st.rev + {SurtKey(normal(e.url).value, e.key)}
                else st'.fwd == st.fwd && st'.rev == st.rev)
  {
    var st := Run(normal, steps);
    RunSafe(normal, steps);
    RunOne(normal, steps, Step.CommitAdd(e));
    hide Run;
    CommitDecides(normal, st, e);
    hide Safe, Queued, TooRecent, AllOld;
  }

  lemma RunOne(normal: Normal, steps: seq<Step>, step: Step)
    ensures Run(normal, steps + [step]) == Next(normal, Run(normal, steps), step)
  {
    assert (steps + [step])[..|steps + [step]| - 1] == steps;
    hide Next;
  }

  // ---------------------------------------------------------------- claiming

  /** A worker gets an entry if and only if it is queued, its key lies behind the last claim, and no queued entry lies
      between. */
  lemma ClaimIs(normal: Normal, steps: seq<Step>, w: nat, e: Entry)
    requires w !in Run(normal, steps).workers
    ensures var st, st' := Run(normal, steps), Run(normal, steps + [Step.Claim(w, e)]);
            && st'.fwd == st.fwd && st'.rev == st.rev && st'.store == st.store
            && if e in st.fwd && Later(e.key, st.cursor)
                  && (forall f :: f in st.fwd && Later(f.key, st.cursor) ==> !Later(e.key, f.key)) then
                 st'.cursor == e.key && st'.claimed == st.claimed + [e.key] && w in st'.workers
                 && st'.workers[w].entry == e && st'.workers - {w} == st.workers
               else st' == st
  {
    var st := Run(normal, steps);
    RunOne(normal, steps, Step.Claim(w, e));
    hide Run;
    assert st.workers[w := Worker(e, None, None)] - {w} == st.workers;
  }

  // ---------------------------------------------------------------- completing

  /** A worker that is done stores its response, for the URL that it claimed and at the time it was fetched, and
      takes its entry out of both tables, unless the key of the response is taken; then nothing changes. */
  lemma CompletionIs(normal: Normal, steps: seq<Step>, w: nat)
    requires var st := Run(normal, steps); w in st.workers && st.workers[w].fetched.Some?
    ensures var st, st' := Run(normal, steps), Run(normal, steps + [Step.Complete(w)]);
            var e, f, id := st.workers[w].entry, st.workers[w].fetched.value, st.workers[w].newId;
            && id.Some? && e in st.fwd && normal(e.url).Some? && f.response.url == e.url
            && st'.workers == st.workers - {w}
            && var k := Key(f.time, id.value);
               if k in st.store.responses then st'.fwd == st.fwd && st'.rev == st.rev && st'.store == st.store
               else
                 && st'.store.responses == st.store.responses[k := f.response]
                 && st'.fwd == st.fwd - {e} && st'.rev == st.rev - {SurtKey(normal(e.url).value, e.key)}
  {
    var st := Run(normal, steps);
    RunSafe(normal, steps);
    RunOne(normal, steps, Step.Complete(w));
    hide Run, Next, Safe, Store.Add, Fresh;
    WorkerIs(normal, st, w);
    CompletionShown(normal, st, w, st.workers[w].entry, st.workers[w].fetched.value, st.workers[w].newId.value);
    AddedIs(normal, st.store, st.workers[w].fetched.value.response,
            Key(st.workers[w].fetched.value.time, st.workers[w].newId.value));
  }

  lemma AddedIs(normal: Normal, t: Tables, r: Response, k: Key)
    requires Storable(r)
    ensures var u := Store.Add(normal, t, r, k); u.Some? ==> u.value.responses == t.responses[k := r]
  {
    hide HashKeys;
  }

  lemma WorkerIs(normal: Normal, st: State, w: nat)
    requires Safe(normal, st) && w in st.workers && st.workers[w].fetched.Some?
    ensures st.workers[w].newId.Some? && st.workers[w].entry in st.fwd
    ensures st.workers[w].fetched.value.response.url == st.workers[w].entry.url
  {
  }
}
