/** The response store of src/db.c: a primary table and two index tables that are read through cursors. A table
    is the set of its keys, a transaction one atomic step, and SURT normalisation a fixed function. */
module Store {
  import opened Bytes
  import opened Optional
  import opened Ranges

  // ---------------------------------------------------------------- keys

  datatype Key = Key(time: nat, id: nat)

  /** timeidcmp, as an order. */
  predicate Less(a: Key, b: Key) { a.time < b.time || (a.time == b.time && a.id < b.id) }

  lemma KeysAreOrdered()
    ensures TotalOrder(Less)
  {
  }

  predicate IsGreatest(k: Key, keys: set<Key>) { IsLast(Less, k, keys) }

  // ---------------------------------------------------------------- tables

  const ALGOS: nat := 5
  const INDEX_LEN: nat := 8

  /** Digests are in the order of the algorithms; an empty one is missing. */
  datatype Response = Response(url: string, status: int, kind: string, length: nat, digests: seq<seq<byte>>)

  predicate Storable(r: Response) {
    |r.digests| == ALGOS && forall a :: 0 <= a < ALGOS ==> r.digests[a] == [] || |r.digests[a]| >= INDEX_LEN
  }

  datatype SurtKey = SurtKey(surt: string, key: Key)

  datatype HashKey = HashKey(algo: nat, hash: seq<byte>, key: Key)

  datatype Tables = Tables(responses: map<Key, Response>, bySurt: set<SurtKey>, byHash: set<HashKey>)

  const EMPTY: Tables := Tables(map[], {}, {})

  /** url_normalize_surt; None is its failure. */
  type Normal = string -> Option<string>

  function HashKeys(r: Response, k: Key): set<HashKey>
    requires Storable(r)
  {
    set a | 0 <= a < ALGOS && r.digests[a] != [] :: HashKey(a, r.digests[a][..INDEX_LEN], k)
  }

  /** hx_response_add, for a transaction that is committed; None when it fails. */
  function Add(normal: Normal, t: Tables, r: Response, k: Key): Option<Tables>
    requires Storable(r)
  {
    if normal(r.url).None? || k in t.responses then None
    else
      var s := SurtKey(normal(r.url).value, k);
      if s in t.bySurt || HashKeys(r, k) * t.byHash != {} then None
      else Some(Tables(t.responses[k := r], t.bySurt + {s}, t.byHash + HashKeys(r, k)))
  }

  predicate AllStorable(t: Tables) { forall k :: k in t.responses ==> Storable(t.responses[k]) }

  /** The index tables say what a scan of the responses would. */
  ghost predicate Indexed(normal: Normal, t: Tables) {
    && AllStorable(t) && (forall k :: k in t.responses ==> normal(t.responses[k].url).Some?)
    && (forall s :: s in t.bySurt <==> s.key in t.responses && normal(t.responses[s.key].url) == Some(s.surt))
    && (forall h :: h in t.byHash <==> h.key in t.responses && h in HashKeys(t.responses[h.key], h.key))
  }

  lemma EmptyIndexed(normal: Normal)
    ensures Indexed(normal, EMPTY)
  {
  }

  /** Adding fails exactly for a URL that cannot be normalised or a key that is taken, and keeps the tables in
      agreement. */
  lemma AddIndexes(normal: Normal, t: Tables, r: Response, k: Key)
    requires Storable(r) && Indexed(normal, t)
    ensures Add(normal, t, r, k).Some? <==> normal(r.url).Some? && k !in t.responses
    ensures Add(normal, t, r, k).Some? ==> Indexed(normal, Add(normal, t, r, k).value)
  {
    if normal(r.url).Some? && k !in t.responses {
      AddSucceeds(normal, t, r, k);
      var u := Add(normal, t, r, k).value;
      forall h ensures h in u.byHash <==> h.key in u.responses && h in HashKeys(u.responses[h.key], h.key) {
        HashKeysOf(r, k, h);
      }
    }
  }

  lemma HashKeysOf(r: Response, k: Key, h: HashKey)
    requires Storable(r)
    ensures h in HashKeys(r, k) ==> h.key == k
  {
  }

  lemma AddSucceeds(normal: Normal, t: Tables, r: Response, k: Key)
    requires Storable(r) && Indexed(normal, t) && normal(r.url).Some? && k !in t.responses
    ensures Add(normal, t, r, k) ==
            Some(Tables(t.responses[k := r], t.bySurt + {SurtKey(normal(r.url).value, k)}, t.byHash + HashKeys(r, k)))
  {
    forall h | h in HashKeys(r, k) ensures h !in t.byHash {
      HashKeysOf(r, k, h);
    }
    assert HashKeys(r, k) * t.byHash == {};
  }

  // ---------------------------------------------------------------- full scans

  function OfSurt(normal: Normal, t: Tables, surt: string): set<Key> {
    set k | k in t.responses && normal(t.responses[k].url) == Some(surt)
  }

  predicate HasHash(r: Response, algo: nat, prefix: seq<byte>)
    requires Storable(r) && algo < ALGOS
  {
    r.digests[algo] != [] && prefix <= r.digests[algo]
  }

  /** The responses that have a digest of that kind, starting with the octets asked for. */
  function OfHash(t: Tables, algo: nat, prefix: seq<byte>): set<Key>
    requires algo < ALGOS && AllStorable(t)
  {
    set k | k in t.responses && t.responses[k].digests[algo] != [] && prefix <= t.responses[k].digests[algo]
  }

  /** The newest of the keys, newest first, as many as there are up to max. */
  ghost predicate Newest(out: seq<Key>, keys: set<Key>, max: nat) { Firsts(Less, out, keys, max) }

  /** Each key has a later time than the one behind it, or the same time and a greater id. */
  predicate GoesBack(out: seq<Key>) {
    forall i, j :: 0 <= i < j < |out| ==>
      out[i].time > out[j].time || (out[i].time == out[j].time && out[i].id > out[j].id)
  }

  /** There is only one such sequence. */
  lemma NewestIsUnique(a: seq<Key>, b: seq<Key>, keys: set<Key>, max: nat)
    requires Newest(a, keys, max) && Newest(b, keys, max)
    ensures a == b
  {
    KeysAreOrdered();
    FirstsAreUnique(Less, a, b, keys, max);
  }

  // ---------------------------------------------------------------- reading

  /** The range of HXURLSurtAndTimeIDRange1. */
  function SurtRange(t: Tables, surt: string): set<Key> { set s | s in t.bySurt && s.surt == surt :: s.key }

  lemma SurtRangeIsScan(normal: Normal, t: Tables, surt: string)
    requires Indexed(normal, t)
    ensures SurtRange(t, surt) == OfSurt(normal, t, surt)
  {
    forall k | k in OfSurt(normal, t, surt) ensures k in SurtRange(t, surt) {
      assert SurtKey(surt, k) in t.bySurt;
    }
  }

  /** hx_get_history: the newest responses for URLs of the same SURT; None when the URL cannot be normalised. */
  method GetHistory(normal: Normal, t: Tables, url: string, max: nat) returns (r: Option<seq<Key>>)
    requires Indexed(normal, t) && max > 0
    ensures r.None? <==> normal(url).None?
    ensures r.Some? ==> Newest(r.value, OfSurt(normal, t, normal(url).value), max) && GoesBack(r.value)
  {
    var surt := normal(url);
    if surt.None? {
      return None;
    }
    KeysAreOrdered();
    SurtRangeIsScan(normal, t, surt.value);
    var keys := SurtRange(t, surt.value);
    var rest, out := keys, [];
    var cursor := CursorLast(Less, rest);
    while cursor.Some? && |out| < max
      invariant ReadSoFar(Less, out, rest, keys, max)
      invariant cursor.None? ==> rest == {}
      invariant cursor.Some? ==> IsGreatest(cursor.value, rest)
      decreases rest
    {
      ReadOne(Less, out, rest, keys, max, cursor.value);
      UnderIsLess(Less, rest, cursor.value);
      out := out + [cursor.value];
      rest := Under(Less, rest, cursor.value);
      cursor := CursorLast(Less, rest);
    }
    ReadAll(Less, out, rest, keys, max);
    return Some(out);
  }

  /** hx_get_latest */
  method GetLatest(normal: Normal, t: Tables, url: string) returns (r: Option<Key>)
    requires Indexed(normal, t)
    ensures normal(url).None? ==> r.None?
    ensures normal(url).Some? ==> (r.None? <==> OfSurt(normal, t, normal(url).value) == {})
    ensures r.Some? ==> normal(url).Some? && IsGreatest(r.value, OfSurt(normal, t, normal(url).value))
  {
    var surt := normal(url);
    if surt.None? {
      return None;
    }
    KeysAreOrdered();
    SurtRangeIsScan(normal, t, surt.value);
    r := CursorLast(Less, SurtRange(t, surt.value));
  }

  /** One result of hx_get_sources, with the flag HX_RES_LATEST. */
  datatype Source = Source(key: Key, latest: bool)

  /** The flag is set exactly when no later response has the same SURT. */
  ghost predicate FlagIsRight(normal: Normal, t: Tables, x: Source) {
    && x.key in t.responses && normal(t.responses[x.key].url).Some?
    && (x.latest <==> IsGreatest(x.key, OfSurt(normal, t, normal(t.responses[x.key].url).value)))
  }

  function KeysOf(sources: seq<Source>): (keys: seq<Key>)
    ensures |keys| == |sources|
  {
    seq(|sources|, i requires 0 <= i < |sources| => sources[i].key)
  }

  lemma KeysOfNext(out: seq<Source>, x: Source)
    ensures KeysOf(out + [x]) == KeysOf(out) + [x.key]
  {
  }

  // ---------------------------------------------------------------- reading the index of hashes

  /** The order of the index: first what it has of the hash, then the time. */
  predicate EntryLess(a: HashKey, b: HashKey) {
    a.algo < b.algo
    || (a.algo == b.algo && (LexLess(a.hash, b.hash) || (a.hash == b.hash && Less(a.key, b.key))))
  }

  lemma EntriesAreOrdered()
    ensures TotalOrder(EntryLess)
  {
    forall a: HashKey, b: HashKey ensures EntryLess(a, b) ==> !EntryLess(b, a)
      ensures a == b || EntryLess(a, b) || EntryLess(b, a) {
      LexTotal(a.hash, b.hash);
    }
    forall a: HashKey, b: HashKey, c: HashKey | EntryLess(a, b) && EntryLess(b, c) ensures EntryLess(a, c) {
      if LexLess(a.hash, b.hash) && LexLess(b.hash, c.hash) {
        LexTransitive(a.hash, b.hash, c.hash);
      }
    }
  }

  /** The range of HXAlgoHashAndTimeIDRange2. */
  function HashRange(t: Tables, algo: nat, hash: seq<byte>): set<HashKey> {
    set h | h in t.byHash && h.algo == algo && hash[..if |hash| < INDEX_LEN then |hash| else INDEX_LEN] <= h.hash
  }

  /** Where the index has a response. */
  function EntryOf(t: Tables, algo: nat, k: Key): HashKey
    requires algo < ALGOS && AllStorable(t) && k in t.responses && t.responses[k].digests[algo] != []
  {
    HashKey(algo, t.responses[k].digests[algo][..INDEX_LEN], k)
  }

  /** Where it has the responses of a hash. */
  function EntriesOf(t: Tables, algo: nat, hash: seq<byte>): set<HashKey>
    requires algo < ALGOS && AllStorable(t)
  {
    set k | k in OfHash(t, algo, hash) :: EntryOf(t, algo, k)
  }

  /** The entry is one of a response that has the whole hash. */
  predicate Passes(t: Tables, algo: nat, hash: seq<byte>, h: HashKey)
    requires algo < ALGOS && AllStorable(t)
  {
    h.key in t.responses && HasHash(t.responses[h.key], algo, hash)
  }

  lemma EntriesAreThose(normal: Normal, t: Tables, algo: nat, hash: seq<byte>)
    requires Indexed(normal, t) && algo < ALGOS
    ensures forall h :: h in HashRange(t, algo, hash) ==>
              h.key in t.responses && t.responses[h.key].digests[algo] != [] && h == EntryOf(t, algo, h.key)
    ensures Passed(h => Passes(t, algo, hash, h), HashRange(t, algo, hash)) == EntriesOf(t, algo, hash)
  {
    var all := Passed(h => Passes(t, algo, hash, h), HashRange(t, algo, hash));
    forall k | k in OfHash(t, algo, hash) ensures EntryOf(t, algo, k) in all {
      var d, n := t.responses[k].digests[algo], if |hash| < INDEX_LEN then |hash| else INDEX_LEN;
      assert d[..INDEX_LEN][..n] == hash[..n];
      assert EntryOf(t, algo, k) in HashKeys(t.responses[k], k);
    }
    forall h | h in HashRange(t, algo, hash)
      ensures h.key in t.responses && t.responses[h.key].digests[algo] != [] && h == EntryOf(t, algo, h.key)
    {
      assert h in HashKeys(t.responses[h.key], h.key);
    }
    forall h | h in EntriesOf(t, algo, hash) ensures h in all {
      var k :| k in OfHash(t, algo, hash) && h == EntryOf(t, algo, k);
    }
  }

  /** The results are the entries, in their order. */
  ghost predicate AreEntries(out: seq<Source>, es: seq<HashKey>) {
    |out| == |es| && forall i :: 0 <= i < |es| ==> es[i].key == out[i].key
  }

  /** hx_get_sources: the first responses, in the descending order of the index, that have the hash, and which of them
      are the latest for their SURT. */
  method GetSources(normal: Normal, t: Tables, algo: nat, hash: seq<byte>, max: nat)
    returns (out: seq<Source>, ghost es: seq<HashKey>)
    requires Indexed(normal, t) && algo < ALGOS && max > 0
    ensures AreEntries(out, es) && Firsts(EntryLess, es, EntriesOf(t, algo, hash), max)
    ensures |hash| >= 8 ==> Newest(KeysOf(out), OfHash(t, algo, hash), max)
    ensures forall i :: 0 <= i < |out| ==> FlagIsRight(normal, t, out[i])
  {
    EntriesAreOrdered();
    EntriesAreThose(normal, t, algo, hash);
    hide EntryLess, HashRange, OfHash, HashKeys, LexLess, TotalOrder, EntriesOf, ReadSoFar, FlagIsRight, Under, Indexed;
    ghost var pass := h => Passes(t, algo, hash, h);
    var rest := HashRange(t, algo, hash);
    out, es := [], [];
    NothingRead(EntryLess, EntriesOf(t, algo, hash), max);
    var cursor := CursorLast(EntryLess, rest);
    while cursor.Some? && |out| < max
      invariant rest <= HashRange(t, algo, hash) && AreEntries(out, es)
      invariant ReadSoFar(EntryLess, es, Passed(pass, rest), EntriesOf(t, algo, hash), max)
      invariant cursor.None? ==> rest == {}
      invariant cursor.Some? ==> IsLast(EntryLess, cursor.value, rest)
      invariant forall i :: 0 <= i < |out| ==> FlagIsRight(normal, t, out[i])
      decreases rest
    {
      var h := cursor.value;
      var k := h.key;
      UnderIsLess(EntryLess, rest, h);
      PassUnder(EntryLess, pass, rest, h);
      if HasHash(t.responses[k], algo, hash) {
        HasSurt(normal, t, k);
        var latest := GetLatest(normal, t, t.responses[k].url);
        FlagIsSet(normal, t, k, latest);
        ReadOne(EntryLess, es, Passed(pass, rest), EntriesOf(t, algo, hash), max, h);
        out, es := out + [Source(k, latest.value == k)], es + [h];
      }
      rest := Under(EntryLess, rest, h);
      cursor := CursorLast(EntryLess, rest);
    }
    ReadAll(EntryLess, es, Passed(pass, rest), EntriesOf(t, algo, hash), max);
    if |hash| >= INDEX_LEN {
      OneHashIsNewest(t, algo, hash, out, es, max);
    }
  }

  lemma KeysAreThere(out: seq<Source>, es: seq<HashKey>)
    requires AreEntries(out, es)
    ensures forall e :: e in es ==> e.key in KeysOf(out)
  {
    forall e | e in es ensures e.key in KeysOf(out) {
      var i :| 0 <= i < |es| && es[i] == e;
      assert KeysOf(out)[i] == e.key;
    }
  }

  lemma FlagIsSet(normal: Normal, t: Tables, k: Key, latest: Option<Key>)
    requires Indexed(normal, t) && k in t.responses
    requires var s := normal(t.responses[k].url);
             && s.Some? && (latest.None? <==> OfSurt(normal, t, s.value) == {})
             && (latest.Some? ==> IsGreatest(latest.value, OfSurt(normal, t, s.value)))
    ensures latest.Some? && FlagIsRight(normal, t, Source(k, latest.value == k))
  {
    var keys := OfSurt(normal, t, normal(t.responses[k].url).value);
    assert k in keys;
  }

  lemma HasSurt(normal: Normal, t: Tables, k: Key)
    requires Indexed(normal, t) && k in t.responses
    ensures normal(t.responses[k].url).Some?
  {
  }

  /** Among responses whose digests start alike the index goes by time. */
  lemma OneHashIsNewest(t: Tables, algo: nat, hash: seq<byte>, out: seq<Source>, es: seq<HashKey>, max: nat)
    requires algo < ALGOS && AllStorable(t) && |hash| >= INDEX_LEN
    requires AreEntries(out, es) && Firsts(EntryLess, es, EntriesOf(t, algo, hash), max)
    ensures Newest(KeysOf(out), OfHash(t, algo, hash), max)
  {
    var ks := KeysOf(out);
    forall k | k in OfHash(t, algo, hash) ensures EntryOf(t, algo, k) == HashKey(algo, hash[..INDEX_LEN], k) {
      assert t.responses[k].digests[algo][..INDEX_LEN] == hash[..INDEX_LEN];
    }
    LexTotal(hash[..INDEX_LEN], hash[..INDEX_LEN]);
    forall k | k in OfHash(t, algo, hash) && k !in ks
      ensures |ks| == max && forall i :: 0 <= i < |ks| ==> Less(k, ks[i])
    {
      var e := EntryOf(t, algo, k);
      assert e in EntriesOf(t, algo, hash);
      KeysAreThere(out, es);
      forall i | 0 <= i < |ks| ensures Less(k, ks[i]) {
        assert EntryLess(e, es[i]);
      }
    }
    forall i, j | 0 <= i < j < |ks| ensures Less(ks[j], ks[i]) {
      assert EntryLess(es[j], es[i]);
    }
  }

  function OnlyDigest(url: string, algo: nat, d: seq<byte>): (r: Response)
    requires algo < ALGOS && |d| >= INDEX_LEN
    ensures Storable(r) && r.url == url && forall a :: 0 <= a < ALGOS ==> r.digests[a] == if a == algo then d else []
  {
    Response(url, 0, "", 0, seq(ALGOS, a requires 0 <= a < ALGOS => if a == algo then d else []))
  }

  /** Digests of INDEX_LEN octets that start with the hash and differ behind it. */
  function Longer(hash: seq<byte>, x: byte): (d: seq<byte>)
    requires |hash| < INDEX_LEN
    ensures |d| == INDEX_LEN && hash <= d && d[..INDEX_LEN] == d == hash + ([x] + d[|hash| + 1..])
  {
    hash + [x] + seq(INDEX_LEN - 1 - |hash|, i requires 0 <= i < INDEX_LEN - 1 - |hash| => NUL)
  }

  lemma {:induction false} LexBehind(p: seq<byte>, a: seq<byte>, b: seq<byte>)
    ensures LexLess(p + a, p + b) <==> LexLess(a, b)
  {
    if p == [] {
      assert p + a == a && p + b == b;
    } else {
      assert (p + a)[1..] == p[1..] + a && (p + b)[1..] == p[1..] + b;
      LexBehind(p[1..], a, b);
    }
  }

  /** For a hash of fewer octets the index goes by the rest of the digest first: there are tables, of two responses, for
      which no answer in the order of the index is the newest. */
  lemma ShorterIsNotNewest(normal: Normal, url: string, algo: nat, hash: seq<byte>, max: nat) returns (t: Tables)
    requires normal(url).Some? && algo < 5 && |hash| < 8 && max > 0
    ensures Indexed(normal, t)
    ensures forall out: seq<Source>, es: seq<HashKey> ::
              AreEntries(out, es) && Firsts(EntryLess, es, EntriesOf(t, algo, hash), max)
              ==> !Newest(KeysOf(out), OfHash(t, algo, hash), max)
  {
    var older, newer := OnlyDigest(url, algo, Longer(hash, 1)), OnlyDigest(url, algo, Longer(hash, 0));
    var k, l := Key(0, 0), Key(1, 0);
    EmptyIndexed(normal);
    AddIndexes(normal, EMPTY, older, k);
    AddSucceeds(normal, EMPTY, older, k);
    t := Add(normal, EMPTY, older, k).value;
    AddIndexes(normal, t, newer, l);
    AddSucceeds(normal, t, newer, l);
    t := Add(normal, t, newer, l).value;
    assert t.responses == map[k := older, l := newer];
    assert OfHash(t, algo, hash) == {k, l};
    LexBehind(hash, [0] + Longer(hash, 0)[|hash| + 1..], [1] + Longer(hash, 1)[|hash| + 1..]);
    assert EntryLess(EntryOf(t, algo, l), EntryOf(t, algo, k));
    forall out: seq<Source>, es: seq<HashKey>
      | AreEntries(out, es) && Firsts(EntryLess, es, EntriesOf(t, algo, hash), max)
      ensures !Newest(KeysOf(out), OfHash(t, algo, hash), max)
    {
      NotNewest(t, algo, hash, k, l, out, es, max);
    }
  }

  lemma NotNewest(t: Tables, algo: nat, hash: seq<byte>, k: Key, l: Key, out: seq<Source>, es: seq<HashKey>, max: nat)
    requires algo < ALGOS && AllStorable(t) && OfHash(t, algo, hash) == {k, l} && Less(k, l) && max > 0
    requires EntryLess(EntryOf(t, algo, l), EntryOf(t, algo, k))
    requires AreEntries(out, es) && Firsts(EntryLess, es, EntriesOf(t, algo, hash), max)
    ensures !Newest(KeysOf(out), OfHash(t, algo, hash), max)
  {
    EntriesAreOrdered();
    KeysAreOrdered();
    Peel(EntryLess, es, EntriesOf(t, algo, hash), max);
    assert EntryOf(t, algo, k) in EntriesOf(t, algo, hash);
    if Newest(KeysOf(out), OfHash(t, algo, hash), max) {
      Peel(Less, KeysOf(out), OfHash(t, algo, hash), max);
    }
  }

  // ---------------------------------------------------------------- the transaction

  /** hx_response_add, put by put; nothing of a transaction that fails is kept. */
  method ResponseAdd(normal: Normal, t: Tables, r: Response, k: Key) returns (u: Option<Tables>)
    requires Storable(r)
    ensures u == Add(normal, t, r, k)
  {
    var surt := normal(r.url);
    if surt.None? || k in t.responses || SurtKey(surt.value, k) in t.bySurt {
      return None;
    }
    var hashes := t.byHash;
    ghost var put: set<HashKey> := {};
    for a := 0 to ALGOS
      invariant put == set x | 0 <= x < a && r.digests[x] != [] :: HashKey(x, r.digests[x][..INDEX_LEN], k)
      invariant hashes == t.byHash + put && put * t.byHash == {}
    {
      if r.digests[a] != [] {
        var h := HashKey(a, r.digests[a][..INDEX_LEN], k);
        if h in hashes {
          assert h in HashKeys(r, k);
          return None;
        }
        hashes := hashes + {h};
        put := put + {h};
      }
    }
    assert put == HashKeys(r, k);
    return Some(Tables(t.responses[k := r], t.bySurt + {SurtKey(surt.value, k)}, hashes));
  }

  // ---------------------------------------------------------------- runs

  /** The tables after a sequence of transactions that each add one response; one that fails changes nothing. */
  function AfterAdds(normal: Normal, adds: seq<(Response, Key)>): Tables
    requires forall i :: 0 <= i < |adds| ==> Storable(adds[i].0)
  {
    if adds == [] then EMPTY
    else
      var t, last := AfterAdds(normal, adds[..|adds| - 1]), adds[|adds| - 1];
      var u := Add(normal, t, last.0, last.1);
      if u.Some? then u.value else t
  }

  /** After any run the indexes agree with a full scan. */
  lemma {:induction false} RunsStayIndexed(normal: Normal, adds: seq<(Response, Key)>)
    requires forall i :: 0 <= i < |adds| ==> Storable(adds[i].0)
    ensures Indexed(normal, AfterAdds(normal, adds))
  {
    if adds == [] {
      EmptyIndexed(normal);
    } else {
      var init, last := adds[..|adds| - 1], adds[|adds| - 1];
      RunsStayIndexed(normal, init);
      AddIndexes(normal, AfterAdds(normal, init), last.0, last.1);
    }
  }

  // ---------------------------------------------------------------- links between results

  const NOBODY: int := -1

  /** The next occurrence of the same text after j, below n. */
  predicate IsNext<T(==)>(xs: seq<T>, n: nat, j: nat, i: int)
    requires j < n <= |xs|
  {
    if i == NOBODY then forall k :: j < k < n ==> xs[k] != xs[j]
    else j < i < n && xs[i] == xs[j] && forall k :: j < k < i ==> xs[k] != xs[j]
  }

  predicate IsPrev<T(==)>(xs: seq<T>, i: nat, j: int)
    requires i < |xs|
  {
    if j == NOBODY then forall k :: 0 <= k < i ==> xs[k] != xs[i]
    else 0 <= j < i && xs[j] == xs[i] && forall k :: j < k < i ==> xs[k] != xs[i]
  }

  /** The first n results are linked among themselves, and the others not at all. */
  predicate Linked(urls: seq<string>, n: nat, next: seq<int>, prev: seq<int>) {
    && n <= |urls| == |next| == |prev|
    && (forall j :: 0 <= j < n ==> IsNext(urls, n, j, next[j]) && IsPrev(urls, j, prev[j]))
    && (forall j :: n <= j < |urls| ==> next[j] == prev[j] == NOBODY)
  }

  /** What the inner loop looks for: the last occurrence before i that has no next one. */
  predicate IsFree(urls: seq<string>, i: nat, next: seq<int>, j: int)
    requires i < |urls| == |next|
  {
    if j == NOBODY then forall k :: 0 <= k < i ==> next[k] != NOBODY || urls[k] != urls[i]
    else 0 <= j < i && urls[j] == urls[i] && next[j] == NOBODY
  }

  method FindFree(urls: seq<string>, i: nat, next: array<int>) returns (j: int)
    requires i < |urls| == next.Length
    ensures IsFree(urls, i, next[..], j)
  {
    j := i;
    while j > 0
      invariant 0 <= j <= i && forall k :: j <= k < i ==> next[k] != NOBODY || urls[k] != urls[i]
    {
      j := j - 1;
      if next[j] == NOBODY && urls[j] == urls[i] {
        return j;
      }
    }
    return NOBODY;
  }

  /** res_merge_common_urls: each result is linked to the next one with the same URL, and back. A pointer is an
      index into the array of results. */
  method MergeCommonUrls(urls: seq<string>, next: array<int>, prev: array<int>)
    requires next.Length == prev.Length == |urls| && next != prev
    requires forall k :: 0 <= k < |urls| ==> next[k] == prev[k] == NOBODY
    modifies next, prev
    ensures Linked(urls, |urls|, next[..], prev[..])
  {
    if |urls| == 0 {
      return;
    }
    var i := 1;
    while i < |urls|
      invariant 1 <= i <= |urls| && Linked(urls, i, next[..], prev[..])
    {
      ghost var next0, prev0 := next[..], prev[..];
      var j := FindFree(urls, i, next);
      LinkStep(urls, i, next0, prev0, j);
      hide Linked, IsFree;
      if j != NOBODY {
        next[j] := i;
        prev[i] := j;
        assert next[..] == next0[j := i] && prev[..] == prev0[i := j];
      }
      i := i + 1;
    }
  }

  /** An earlier occurrence whose link is free is the last one before i, so linking it is right. */
  lemma LinkStep(urls: seq<string>, i: nat, next: seq<int>, prev: seq<int>, j: int)
    requires 0 < i < |urls| && Linked(urls, i, next, prev) && IsFree(urls, i, next, j)
    ensures j == NOBODY || 0 <= j < i
    ensures Linked(urls, i + 1, if j == NOBODY then next else next[j := i], if j == NOBODY then prev else prev[i := j])
  {
    if j == NOBODY {
      forall k | 0 <= k < i ensures urls[k] != urls[i] {
        if urls[k] == urls[i] {
          NoFreeLink(urls, i, next, k);
        }
      }
    }
    hide IsNext, IsPrev;
    var next', prev' := if j == NOBODY then next else next[j := i], if j == NOBODY then prev else prev[i := j];
    forall k | 0 <= k < i + 1 ensures IsNext(urls, i + 1, k, next'[k]) && IsPrev(urls, k, prev'[k]) {
      LinkOne(urls, i, next, prev, j, k);
    }
  }

  lemma LinkOne(urls: seq<string>, i: nat, next: seq<int>, prev: seq<int>, j: int, k: nat)
    requires k <= i < |urls| && Linked(urls, i, next, prev) && IsFree(urls, i, next, j)
    requires j == NOBODY ==> forall m :: 0 <= m < i ==> urls[m] != urls[i]
    ensures IsNext(urls, i + 1, k, if j == NOBODY || k != j then next[k] else i)
    ensures IsPrev(urls, k, if k == i then j else prev[k])
  {
  }

  lemma {:induction false} NoFreeLink(urls: seq<string>, i: nat, next: seq<int>, k: nat)
    requires k < i < |urls| == |next| && urls[k] == urls[i] && forall k :: 0 <= k < i ==> IsNext(urls, i, k, next[k])
    ensures exists k' :: 0 <= k' < i && urls[k'] == urls[i] && next[k'] == NOBODY
    decreases i - k
  {
    if next[k] != NOBODY {
      NoFreeLink(urls, i, next, next[k]);
    }
  }

  const STATUS_OK: int := 200
  const COMPARED_LEN: nat := 12

  function Shorter(a: seq<byte>, b: seq<byte>): nat { if |a| < |b| then |a| else |b| }

  /** Neither digest contradicts the other: one is a prefix of the other. */
  predicate Compatible(a: seq<byte>, b: seq<byte>) { a <= b || b <= a }

  /** Both responses succeeded, no digest contradicts, and at least one says enough. */
  predicate SameContent(a: Response, b: Response)
    requires Storable(a) && Storable(b)
  {
    && a.status == 200 && b.status == 200
    && (forall i :: 0 <= i < 5 ==> Compatible(a.digests[i], b.digests[i]))
    && (exists i :: 0 <= i < 5 && |a.digests[i]| >= 12 && |b.digests[i]| >= 12)
  }

  /** res_content_eq, for two different responses. */
  method ContentEq(a: Response, b: Response) returns (eq: bool)
    requires Storable(a) && Storable(b)
    ensures eq <==> SameContent(a, b)
  {
    if a.status != STATUS_OK || b.status != STATUS_OK {
      return false;
    }
    var agreeing := 0;
    for i := 0 to ALGOS
      invariant forall k :: 0 <= k < i ==> Compatible(a.digests[k], b.digests[k])
      invariant agreeing >= 0
      invariant agreeing > 0 <==> exists k :: 0 <= k < i && |a.digests[k]| >= 12 && |b.digests[k]| >= 12
    {
      var len := Shorter(a.digests[i], b.digests[i]);
      PrefixesCompare(a.digests[i], b.digests[i]);
      if a.digests[i][..len] != b.digests[i][..len] {
        return false;
      }
      if len >= COMPARED_LEN {
        agreeing := agreeing + 1;
      }
    }
    return agreeing > 0;
  }

  lemma PrefixesCompare(a: seq<byte>, b: seq<byte>)
    ensures var len := Shorter(a, b); a[..len] == b[..len] <==> Compatible(a, b)
  {
  }

  /** The link from k to its neighbour below n, and back. */
  ghost function Forth(rs: seq<Response>, n: nat, k: nat): int
    requires k < n <= |rs| && forall i :: 0 <= i < |rs| ==> Storable(rs[i])
  {
    if k + 1 < n && SameContent(rs[k], rs[k + 1]) then k + 1 else NOBODY
  }

  ghost function Back(rs: seq<Response>, k: nat): int
    requires k < |rs| && forall i :: 0 <= i < |rs| ==> Storable(rs[i])
  {
    if k > 0 && SameContent(rs[k - 1], rs[k]) then k - 1 else NOBODY
  }

  /** res_merge_common_content: neighbours with the same content are linked, and nothing else. */
  method MergeCommonContent(rs: seq<Response>, next: array<int>, prev: array<int>)
    requires next.Length == prev.Length == |rs| && next != prev
    requires forall i :: 0 <= i < |rs| ==> Storable(rs[i])
    requires forall i :: 0 <= i < |rs| ==> next[i] == prev[i] == NOBODY
    modifies next, prev
    ensures forall k :: 0 <= k < |rs| ==> next[k] == Forth(rs, |rs|, k) && prev[k] == Back(rs, k)
  {
    hide SameContent;
    var i := 1;
    while i < |rs|
      invariant 1 <= i && (i <= |rs| || |rs| == 0)
      invariant forall k :: 0 <= k < i && k < |rs| ==>
                next[k] == Forth(rs, if i < |rs| then i else |rs|, k) && prev[k] == Back(rs, k)
      invariant forall k :: i <= k < |rs| ==> next[k] == prev[k] == NOBODY
    {
      var eq := ContentEq(rs[i - 1], rs[i]);
      if eq {
        next[i - 1] := i;
        prev[i] := i - 1;
      }
      i := i + 1;
    }
  }
}
