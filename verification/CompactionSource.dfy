/** The compactor's sample source: replayed pages behind a small least-recently-used cache. */
module CompactionSources {
  import opened Numbers
  import opened ChunkKeys
  import opened EditCommands
  import opened SampleEdits
  import opened PageEdits
  import opened JournalReplay
  import opened CompactionPages
  import SpatialIndex

  const CACHE_CAPACITY := 32

  datatype CacheEntry = CacheEntry(key: ChunkKey, page: PageState, access: nat)

  datatype Cache = Cache(entries: seq<CacheEntry>, nextAccess: nat)

  const EMPTY_CACHE := Cache([], 0)

  function EntryIndex(entries: seq<CacheEntry>, key: ChunkKey): (i: nat)
    ensures i <= |entries| && (i < |entries| ==> entries[i].key == key) && (forall k :: 0 <= k < i ==> entries[k].key != key)
  {
    if |entries| == 0 || entries[0].key == key then 0 else 1 + EntryIndex(entries[1..], key)
  }

  /** The first entry with the smallest access stamp among the first n. */
  function OldestIndex(entries: seq<CacheEntry>, n: nat): (i: nat)
    requires 0 < n <= |entries|
    ensures i < n && forall k :: 0 <= k < n ==> entries[i].access <= entries[k].access
  {
    if n == 1 then 0
    else
      var best := OldestIndex(entries, n - 1);
      if entries[n - 1].access < entries[best].access then n - 1 else best
  }

  function Touched(c: Cache, i: nat): Cache
    requires i < |c.entries|
  {
    Cache(c.entries[i := c.entries[i].(access := c.nextAccess + 1)], c.nextAccess + 1)
  }

  /** A full cache gives up its oldest entry. */
  function Kept(c: Cache): Cache {
    if |c.entries| < CACHE_CAPACITY then c
    else
      var i := OldestIndex(c.entries, |c.entries|);
      c.(entries := c.entries[..i] + c.entries[i + 1..])
  }

  /** The page joins at the end of what is kept. */
  function Stored(c: Cache, key: ChunkKey, page: PageState): Cache {
    Cache(Kept(c).entries + [CacheEntry(key, page, c.nextAccess + 1)], c.nextAccess + 1)
  }

  datatype Looked = Looked(cache: Cache, page: Option<PageState>)

  ghost function FindOrLoad(s: Snapshot, c: Cache, key: ChunkKey): Looked {
    var i := EntryIndex(c.entries, key);
    if i < |c.entries| then Looked(Touched(c, i), Some(c.entries[i].page))
    else
      var page := Recompute(s, key);
      if page.None? then Looked(c, None) else Looked(Stored(c, key, page.value), page)
  }

  // ---- Transparency ----

  /** At most 32 entries, each a key's recomputed page; keys and access stamps are all different. */
  ghost predicate Faithful(s: Snapshot, c: Cache) {
    && |c.entries| <= CACHE_CAPACITY
    && (forall i :: 0 <= i < |c.entries| ==>
          Recompute(s, c.entries[i].key) == Some(c.entries[i].page) && c.entries[i].access <= c.nextAccess)
    && (forall i, j :: 0 <= i < j < |c.entries| ==>
          c.entries[i].key != c.entries[j].key && c.entries[i].access != c.entries[j].access)
  }

  lemma LookupIsRecompute(s: Snapshot, c: Cache, key: ChunkKey)
    requires Faithful(s, c)
    ensures FindOrLoad(s, c, key).page == Recompute(s, key) && Faithful(s, FindOrLoad(s, c, key).cache)
  {
    hide Recompute, Stored, Touched;
    var i := EntryIndex(c.entries, key);
    if i < |c.entries| {
      TouchingKeepsFaithful(s, c, i);
    } else if Recompute(s, key).Some? {
      StoringKeepsFaithful(s, c, key, Recompute(s, key).value);
    }
  }

  lemma TouchingKeepsFaithful(s: Snapshot, c: Cache, i: nat)
    requires Faithful(s, c) && i < |c.entries|
    ensures Faithful(s, Touched(c, i))
  {
    hide Recompute;
  }

  lemma StoringKeepsFaithful(s: Snapshot, c: Cache, key: ChunkKey, page: PageState)
    requires Faithful(s, c) && Recompute(s, key) == Some(page) && EntryIndex(c.entries, key) == |c.entries|
    ensures Faithful(s, Stored(c, key, page))
  {
    var kept := Kept(c);
    KeepingIsFaithful(s, c, key);
    hide Recompute, EntryIndex, Faithful, Kept;
    AddingKeepsFaithful(s, kept, key, page);
  }

  lemma KeepingIsFaithful(s: Snapshot, c: Cache, key: ChunkKey)
    requires Faithful(s, c) && EntryIndex(c.entries, key) == |c.entries|
    ensures Faithful(s, Kept(c)) && |Kept(c).entries| < CACHE_CAPACITY
    ensures forall k :: 0 <= k < |Kept(c).entries| ==> Kept(c).entries[k].key != key
  {
    hide Recompute;
  }

  lemma AddingKeepsFaithful(s: Snapshot, c: Cache, key: ChunkKey, page: PageState)
    requires Faithful(s, c) && Recompute(s, key) == Some(page) && |c.entries| < CACHE_CAPACITY
    requires forall k :: 0 <= k < |c.entries| ==> c.entries[k].key != key
    ensures Faithful(s, Cache(c.entries + [CacheEntry(key, page, c.nextAccess + 1)], c.nextAccess + 1))
  {
    hide Recompute;
  }

  predicate Held(c: Cache, key: ChunkKey) {
    EntryIndex(c.entries, key) < |c.entries|
  }

  lemma HeldAt(c: Cache, i: nat)
    requires i < |c.entries|
    ensures Held(c, c.entries[i].key)
  {}

  /** A page leaves the cache only when the cache is full and every other page was asked for more recently. */
  lemma OnlyTheLeastRecentLeaves(s: Snapshot, c: Cache, key: ChunkKey, g: nat)
    requires Faithful(s, c) && g < |c.entries|
    ensures
      || Held(FindOrLoad(s, c, key).cache, c.entries[g].key)
      || (|c.entries| == CACHE_CAPACITY &&
          forall k :: 0 <= k < |c.entries| && k != g ==> c.entries[g].access < c.entries[k].access)
  {
    var i := EntryIndex(c.entries, key);
    hide Recompute, EntryIndex, OldestIndex, Held;
    if i < |c.entries| {
      HeldAt(Touched(c, i), g);
    } else if Recompute(s, key).None? {
      HeldAt(c, g);
    } else {
      StoringDropsTheOldest(s, c, key, Recompute(s, key).value, g);
    }
  }

  lemma StoringDropsTheOldest(s: Snapshot, c: Cache, key: ChunkKey, page: PageState, g: nat)
    requires Faithful(s, c) && g < |c.entries|
    ensures
      || Held(Stored(c, key, page), c.entries[g].key)
      || (|c.entries| == CACHE_CAPACITY &&
          forall k :: 0 <= k < |c.entries| && k != g ==> c.entries[g].access < c.entries[k].access)
  {
    hide Recompute, EntryIndex, Held;
    var next := Stored(c, key, page);
    if |c.entries| < CACHE_CAPACITY {
      HeldAt(next, g);
    } else {
      var o := OldestIndex(c.entries, |c.entries|);
      hide OldestIndex;
      if g != o {
        HeldAt(next, if g < o then g else g - 1);
      }
    }
  }

  ghost function Lookups(s: Snapshot, c: Cache, keys: seq<ChunkKey>): seq<Option<PageState>>
    decreases |keys|
  {
    if |keys| == 0 then []
    else
      var l := FindOrLoad(s, c, keys[0]);
      [l.page] + Lookups(s, l.cache, keys[1..])
  }

  ghost function CacheAfter(s: Snapshot, c: Cache, keys: seq<ChunkKey>): Cache
    decreases |keys|
  {
    if |keys| == 0 then c else CacheAfter(s, FindOrLoad(s, c, keys[0]).cache, keys[1..])
  }

  /** Every history of lookups returns what recomputing each page would, and the cache never holds more than 32 pages. */
  lemma {:induction false} CacheIsTransparent(s: Snapshot, c: Cache, keys: seq<ChunkKey>)
    requires Faithful(s, c)
    ensures |Lookups(s, c, keys)| == |keys|
    ensures forall k :: 0 <= k < |keys| ==> Lookups(s, c, keys)[k] == Recompute(s, keys[k])
    ensures Faithful(s, CacheAfter(s, c, keys)) && |CacheAfter(s, c, keys).entries| <= CACHE_CAPACITY
    decreases |keys|
  {
    hide Recompute, FindOrLoad;
    if |keys| > 0 {
      LookupIsRecompute(s, c, keys[0]);
      var l := FindOrLoad(s, c, keys[0]);
      CacheIsTransparent(s, l.cache, keys[1..]);
      var rest := Lookups(s, l.cache, keys[1..]);
      assert Lookups(s, c, keys) == [l.page] + rest;
      forall k | 0 <= k < |keys| ensures ([l.page] + rest)[k] == Recompute(s, keys[k]) {
        if k > 0 { assert keys[1..][k - 1] == keys[k]; }
      }
    }
  }

  lemma EmptyCacheIsFaithful(s: Snapshot)
    ensures Faithful(s, EMPTY_CACHE)
  {}

  // ---- The source ----

  predicate SortedPages(pages: seq<BakedPage>) {
    forall i, j :: 0 <= i < j < |pages| ==> !SpatialIndex.KeyLess(pages[j].key, pages[i].key)
  }

  lemma {:induction false} FoundAt(pages: seq<BakedPage>, key: ChunkKey, i: nat)
    requires i <= |pages| && forall k :: 0 <= k < i ==> pages[k].key != key
    requires i < |pages| ==> pages[i].key == key
    ensures FindBaked(pages, key) == if i < |pages| then Some(pages[i]) else None
    decreases |pages|
  {
    if |pages| > 0 && i > 0 {
      assert forall k :: 0 <= k < i - 1 ==> pages[1..][k] == pages[k + 1];
      FoundAt(pages[1..], key, i - 1);
    }
  }

  class CompactionLod0SampleSource {
    const snapshot: Snapshot
    var entries: seq<CacheEntry>
    var nextAccess: nat

    ghost predicate Valid()
      reads this
    {
      SortedPages(snapshot.pages) && snapshot.journal.initialized && Faithful(snapshot, Cache(entries, nextAccess))
    }

    constructor (snapshot: Snapshot)
      requires SortedPages(snapshot.pages) && snapshot.journal.initialized
      ensures Valid() && this.snapshot == snapshot && Cache(entries, nextAccess) == EMPTY_CACHE
    {
      this.snapshot := snapshot;
      entries, nextAccess := EMPTY_CACHE.entries, EMPTY_CACHE.nextAccess;
      new;
      hide Faithful;
      EmptyCacheIsFaithful(snapshot);
    }

    /** Binary search for the first page not below the key. */
    method LowerBound(key: ChunkKey) returns (low: nat)
      requires SortedPages(snapshot.pages)
      ensures low <= |snapshot.pages|
      ensures forall k :: 0 <= k < low ==> SpatialIndex.KeyLess(snapshot.pages[k].key, key)
      ensures forall k :: low <= k < |snapshot.pages| ==> !SpatialIndex.KeyLess(snapshot.pages[k].key, key)
    {
      low := 0;
      var count: nat := |snapshot.pages|;
      while count > 0
        invariant low + count <= |snapshot.pages|
        invariant forall k :: 0 <= k < low ==> SpatialIndex.KeyLess(snapshot.pages[k].key, key)
        invariant forall k :: low + count <= k < |snapshot.pages| ==> !SpatialIndex.KeyLess(snapshot.pages[k].key, key)
      {
        var step := count / 2;
        if SpatialIndex.KeyLess(snapshot.pages[low + step].key, key) {
          low, count := low + step + 1, count - step - 1;
        } else {
          count := step;
        }
      }
    }

    method FindBakedPage(key: ChunkKey) returns (r: Option<BakedPage>)
      requires SortedPages(snapshot.pages)
      ensures r == FindBaked(snapshot.pages, key)
    {
      var i := LowerBound(key);
      var found := i < |snapshot.pages| && snapshot.pages[i].key == key;
      if !found {
        forall k | 0 <= k < |snapshot.pages| ensures snapshot.pages[k].key != key {
          assert k < i || k == i || !SpatialIndex.KeyLess(snapshot.pages[k].key, snapshot.pages[i].key);
        }
      }
      FoundAt(snapshot.pages, key, if found then i else |snapshot.pages|);
      return if found then Some(snapshot.pages[i]) else None;
    }

    method DecodePage(key: ChunkKey) returns (page: Option<Editing.Page>)
      requires SortedPages(snapshot.pages)
      ensures page == StoredPage(snapshot, key)
    {
      hide FindBaked, SortedPages;
      var baked := FindBakedPage(key);
      if baked.None? || baked.value.hash != snapshot.sha(baked.value.bytes)
         || !ValidWorldPage(snapshot, key, baked.value.bytes) {
        return None;
      }
      var metadata, body := snapshot.openMetadata(baked.value.bytes), snapshot.decodeBody(baked.value.bytes);
      if metadata.None? || body.None? { return None; }
      return Some(Editing.Page(metadata.value, body.value.samples, body.value.waterSummaryValid, body.value.shiftValid));
    }

    /** Replays every command of the journal into the page, stopping at the first refusal. */
    method ReplayJournal(state: Editing.ChunkEditState) returns (ok: bool)
      requires state.Valid() && state.initialized
      modifies state, state.samples
      ensures state.Valid() && state.initialized && state.samples == old(state.samples)
      ensures
        var r := Replay(state.ar, old(state.State()), CommandsOf(snapshot.journal.transactions));
        (ok <==> r.status == EditStatus.Ok) && (ok ==> state.State() == r.state)
    {
      hide ApplyCommand, ValidCommand;
      var ts := snapshot.journal.transactions;
      ghost var start := state.State();
      for i := 0 to |ts|
        invariant state.Valid() && state.initialized && state.samples == old(state.samples)
        invariant Replay(state.ar, start, CommandsOf(ts[..i])) == Replayed(state.State(), EditStatus.Ok)
      {
        ghost var before := state.State();
        assert ts[..i + 1][..i] == ts[..i];
        assert CommandsOf(ts[..i + 1]) == CommandsOf(ts[..i]) + ts[i].commands;
        ReplayInParts(state.ar, start, CommandsOf(ts[..i]), ts[i].commands);
        ok := ReplayCommands(state, ts[i].commands);
        if !ok {
          assert ts[..i + 1] + ts[i + 1..] == ts;
          CommandsInParts(ts[..i + 1], ts[i + 1..]);
          ReplayInParts(state.ar, start, CommandsOf(ts[..i + 1]), CommandsOf(ts[i + 1..]));
          return false;
        }
      }
      assert ts[..|ts|] == ts;
      return true;
    }

    method ReplayCommands(state: Editing.ChunkEditState, commands: seq<EditCommand>) returns (ok: bool)
      requires state.Valid() && state.initialized
      modifies state, state.samples
      ensures state.Valid() && state.initialized && state.samples == old(state.samples)
      ensures
        var r := Replay(state.ar, old(state.State()), commands);
        (ok <==> r.status == EditStatus.Ok) && (ok ==> state.State() == r.state)
    {
      hide ApplyCommand, ValidCommand;
      ghost var start := state.State();
      for i := 0 to |commands|
        invariant state.Valid() && state.initialized && state.samples == old(state.samples)
        invariant Replay(state.ar, start, commands) == Replay(state.ar, state.State(), commands[i..])
      {
        assert commands[i..][1..] == commands[i + 1..];
        var status := state.ApplyCommand(commands[i]);
        if status != EditStatus.Ok { return false; }
      }
      return true;
    }

    /** Decoding, initialising and replaying a page from scratch. */
    method LoadPage(key: ChunkKey) returns (page: Option<PageState>)
      requires SortedPages(snapshot.pages) && snapshot.journal.initialized
      ensures page == Recompute(snapshot, key)
    {
      hide SortedPages, Replay, CommandsOf, StoredPage, Editing.InitialStatus;
      var decoded := DecodePage(key);
      if decoded.None? { return None; }
      var state := new Editing.ChunkEditState(snapshot.ar);
      var status := state.Initialize(decoded.value, snapshot.sourceRevision, snapshot.worldRevision, None);
      if status != EditStatus.Ok { return None; }
      var ok := ReplayJournal(state);
      if !ok || state.revision != snapshot.journal.currentRevision { return None; }
      var hull := if state.hasHull then Some(state.hull) else None;
      return Some(PageState(state.key, state.samples[..], state.revision, state.nextSequence, state.changedCount, hull,
                            state.shiftValid, state.waterSummaryValid, state.protection));
    }

    method Touch(i: nat)
      requires i < |entries|
      modifies this
      ensures Cache(entries, nextAccess) == Touched(old(Cache(entries, nextAccess)), i)
    {
      nextAccess := nextAccess + 1;
      entries := entries[i := entries[i].(access := nextAccess)];
    }

    method Store(key: ChunkKey, page: PageState)
      modifies this
      ensures Cache(entries, nextAccess) == Stored(old(Cache(entries, nextAccess)), key, page)
    {
      if |entries| >= CACHE_CAPACITY {
        var oldest := OldestIndex(entries, |entries|);
        entries := entries[..oldest] + entries[oldest + 1..];
      }
      nextAccess := nextAccess + 1;
      entries := entries + [CacheEntry(key, page, nextAccess)];
    }

    method FindOrLoadPage(key: ChunkKey) returns (page: Option<PageState>)
      requires Valid()
      modifies this
      ensures Valid() && Looked(Cache(entries, nextAccess), page) == FindOrLoad(snapshot, old(Cache(entries, nextAccess)), key)
      ensures page == Recompute(snapshot, key)
    {
      LookupIsRecompute(snapshot, Cache(entries, nextAccess), key);
      hide Faithful, Recompute, SortedPages, Touched, Stored;
      var i := EntryIndex(entries, key);
      if i < |entries| {
        page := Some(entries[i].page);
        Touch(i);
        return;
      }
      page := LoadPage(key);
      if page.Some? { Store(key, page.value); }
    }

    /** One candidate page: its sample at the point, if it can be loaded and stores one there. */
    method TryCandidate(p: GridPoint, k: nat) returns (r: Option<ScalarSample>)
      requires Valid() && k < 27
      modifies this
      ensures Valid() && r == CandidateSample(snapshot, p, k)
    {
      hide Faithful, Recompute, PlaceOnPage;
      var key := Candidate(p, k);
      if key.None? { return None; }
      var page := FindOrLoadPage(key.value);
      if page.None? { return None; }
      RecomputedPage(snapshot, key.value);
      var i := PlaceOnPage(key.value, p);
      PlaceOnPageIsExact(key.value, p, 0);
      if i.None? { return None; }
      return Some(page.value.samples[i.value]);
    }

    /** Tries the neighbouring pages, nearest first on each axis; the answer does not depend on what the cache holds. */
    method Sample(p: GridPoint) returns (r: Option<ScalarSample>)
      requires Valid()
      modifies this
      ensures Valid() && r == Probe(snapshot, p, 0)
    {
      hide Faithful, CandidateSample, SortedPages;
      for z := 0 to 3
        invariant Valid() && Probe(snapshot, p, 0) == Probe(snapshot, p, 9 * z)
      {
        for y := 0 to 3
          invariant Valid() && Probe(snapshot, p, 0) == Probe(snapshot, p, 9 * z + 3 * y)
        {
          for x := 0 to 3
            invariant Valid() && Probe(snapshot, p, 0) == Probe(snapshot, p, 9 * z + 3 * y + x)
          {
            r := TryCandidate(p, 9 * z + 3 * y + x);
            if r.Some? { return; }
          }
        }
      }
      return None;
    }
  }
}
