/** The windowed prefetch controller of `DownloadCache/IncrementalDownload.cs`: a
    counter of positions already requested, a fixed block of 10 positions fetched
    at a time through `makeRequest` with caching on, and a read-ahead trigger at
    half the counter. */
module IncrementalDownload {
  import opened Wrappers
  import opened CacheService
  import opened CacheProperties

  /** `_next_block_tam`: positions fetched per block. */
  const BlockSize: nat := 10

  /** `_division_factor`: the next block is fetched once the shown position reaches
      `CurrentSize / DivisionFactor`. */
  const DivisionFactor: nat := 2

  /** The controller's only state, `CurrentSize`. */
  datatype Controller = Controller(currentSize: nat)

  /** The constructor: nothing requested yet. */
  function New(): (r: Controller)
    ensures r.currentSize == 0
  {
    Controller(0)
  }

  /** What the world answers when the item at position `i` is fetched: the outcome
      of the HTTP exchange, the clock's reading, and the GUID a new cache file
      would receive. */
  datatype Env = Env(respond: int -> Response, clock: int -> Time, guid: int -> string)

  /** A fetched item: the cache afterwards and the bytes (None for `null`). */
  datatype Loaded = Loaded(cache: Cache, bytes: Option<Bytes>)

  /** `LoadBytes`: a cached request for `url`; the bytes handed to the success
      action, or None when any exception escapes the request. It goes through
      `MakeRequestGuarded`; `LoadBytesAsWritten` shows the result is the same as
      through `makeRequest` as written. */
  function LoadBytes(c: Cache, url: string, env: Env, i: int): (r: Loaded)
    ensures var l := Load(c);
      r.bytes.Some? <==> env.respond(i).Ok? || (url in l.index && l.index[url].downloadedPath in l.files)
    ensures env.respond(i).Ok? ==> r.bytes == Some(env.respond(i).body)
    ensures var l := Load(c);
      env.respond(i).TransportFailure? && url in l.index && l.index[url].downloadedPath in l.files ==>
        r.bytes == Some(l.files[l.index[url].downloadedPath])
    ensures env.respond(i).Ok? ==>
      && url in r.cache.index
      && r.cache.index[url].downloadedPath in r.cache.files
      && r.cache.files[r.cache.index[url].downloadedPath] == env.respond(i).body
  {
    var req := MakeRequestGuarded(c, url, env.respond(i), true, env.clock(i), env.guid(i));
    match req.outcome
    case Delivered(data) => Loaded(req.cache, Some(data))
    case Failed => Loaded(req.cache, None)
    case Faulted => Loaded(req.cache, None)
  }

  /** Both the escaping null stream and the rethrown error end in the catch block
      of `LoadBytes`, so the corrected request yields the same item as the
      request as written. */
  lemma LoadBytesAsWritten(c: Cache, url: string, env: Env, i: int)
    ensures var w := MakeRequest(c, url, env.respond(i), true, env.clock(i), env.guid(i));
      LoadBytes(c, url, env, i) == Loaded(w.cache, if w.outcome.Delivered? then Some(w.outcome.data) else None)
  {
  }

  function Min(a: int, b: int): int { if a <= b then a else b }

  /** A block under way: the cache afterwards and the `(index, bytes)` pairs so far. */
  datatype Block = Block(cache: Cache, pairs: seq<(int, Option<Bytes>)>)

  /** The loop of `FillStream` from position `i` up to (not including) `hi`:
      positions inside the list are fetched one after the other, each with the
      cache the previous fetch left; positions past the end are skipped. */
  function FetchRange(c: Cache, urls: seq<string>, env: Env, i: nat, hi: nat): (r: Block)
    decreases hi - i
    ensures |r.pairs| == (if i < hi && i < |urls| then Min(hi, |urls|) - i else 0)
    ensures forall k :: 0 <= k < |r.pairs| ==> r.pairs[k].0 == i + k
    ensures forall k :: 0 <= k < |r.pairs| && env.respond(i + k).Ok? ==>
      r.pairs[k].1 == Some(env.respond(i + k).body)
  {
    if i >= hi then Block(c, [])
    else if i < |urls| then
      var item := LoadBytes(c, urls[i], env, i);
      var rest := FetchRange(item.cache, urls, env, i + 1, hi);
      Block(rest.cache, [(i, item.bytes)] + rest.pairs)
    else FetchRange(c, urls, env, i + 1, hi)
  }

  datatype Filled = Filled(ctrl: Controller, cache: Cache, pairs: seq<(int, Option<Bytes>)>)

  /** `FillStream`: fetches the window `[CurrentSize, CurrentSize + 10)` clipped to
      the list, in increasing position order, and advances `CurrentSize` by the full
      block even when fewer items were left. */
  function FillStream(ctrl: Controller, c: Cache, urls: seq<string>, env: Env): (r: Filled)
    ensures r.ctrl.currentSize == ctrl.currentSize + BlockSize
    ensures |r.pairs| == if |urls| <= ctrl.currentSize then 0 else Min(BlockSize, |urls| - ctrl.currentSize)
    ensures forall k :: 0 <= k < |r.pairs| ==> r.pairs[k].0 == ctrl.currentSize + k
    ensures forall k :: 0 <= k < |r.pairs| && env.respond(r.pairs[k].0).Ok? ==>
      r.pairs[k].1 == Some(env.respond(r.pairs[k].0).body)
  {
    var block := FetchRange(c, urls, env, ctrl.currentSize, ctrl.currentSize + BlockSize);
    Filled(Controller(ctrl.currentSize + BlockSize), block.cache, block.pairs)
  }

  /** The read-ahead rule: with integer division, as in C# on non-negative operands. */
  predicate Triggers(ctrl: Controller, index: int)
  {
    index >= ctrl.currentSize / DivisionFactor
  }

  /** What `TryLoadByteVector` leaves: the controller, the cache, and the calls made
      to `loadAction`, in order. */
  datatype Step = Step(ctrl: Controller, cache: Cache, calls: seq<(int, Option<Bytes>)>)

  /** `TryLoadByteVector`: when the shown position `index` reaches half of
      `CurrentSize`, fill the next block and hand every pair to `loadAction`;
      otherwise do nothing. */
  function TryLoadByteVector(ctrl: Controller, c: Cache, index: int, urls: seq<string>, env: Env): (r: Step)
    ensures r.ctrl.currentSize == if Triggers(ctrl, index) then ctrl.currentSize + BlockSize else ctrl.currentSize
    ensures !Triggers(ctrl, index) ==> r.cache == c && r.calls == []
    ensures Triggers(ctrl, index) ==>
      var f := FillStream(ctrl, c, urls, env);
      r.calls == f.pairs && r.cache == f.cache
  {
    if Triggers(ctrl, index) then
      var f := FillStream(ctrl, c, urls, env);
      Step(f.ctrl, f.cache, f.pairs)
    else Step(ctrl, c, [])
  }

  /** A consumer showing positions 0, 1, ..., n - 1 in turn on a new controller:
      the final controller and cache, and for each position whether it fetched. */
  datatype Trace = Trace(ctrl: Controller, cache: Cache, fetched: seq<bool>)

  function Scroll(c: Cache, urls: seq<string>, env: Env, n: nat): (r: Trace)
    ensures |r.fetched| == n
  {
    if n == 0 then Trace(New(), c, [])
    else
      var t := Scroll(c, urls, env, n - 1);
      var step := TryLoadByteVector(t.ctrl, t.cache, n - 1, urls, env);
      Trace(step.ctrl, step.cache, t.fetched + [Triggers(t.ctrl, n - 1)])
  }

  /** Scrolling through the list fetches exactly at positions 0, 5, 10, 15, ...,
      and after n positions `CurrentSize` is 10 for every block fetched. */
  lemma {:induction false} ScrollFetchesEveryFifth(c: Cache, urls: seq<string>, env: Env, n: nat)
    ensures Scroll(c, urls, env, n).ctrl.currentSize == BlockSize * ((n + 4) / 5)
    ensures forall j :: 0 <= j < n ==> (Scroll(c, urls, env, n).fetched[j] <==> j % 5 == 0)
  {
    if n > 0 {
      ScrollFetchesEveryFifth(c, urls, env, n - 1);
      var t := Scroll(c, urls, env, n - 1);
      var m := (n - 1 + 4) / 5;
      var q, k := (n - 1) / 5, (n - 1) % 5;
      assert n - 1 == 5 * q + k && 0 <= k < 5;
      assert m == if k == 0 then q else q + 1;
      assert t.ctrl.currentSize == 10 * m;
      assert t.ctrl.currentSize / DivisionFactor == 5 * m;
      assert Triggers(t.ctrl, n - 1) <==> (n - 1) % 5 == 0;
      if (n - 1) % 5 == 0 {
        assert (n + 4) / 5 == m + 1;
      } else {
        assert (n + 4) / 5 == m;
      }
      var r := Scroll(c, urls, env, n);
      assert r.fetched == t.fetched + [Triggers(t.ctrl, n - 1)];
    }
  }

  /** Offline, with none of the window's URLs cached, every position of the window
      still yields its pair, with `null` bytes, and the index is not changed. */
  lemma {:induction false} OfflineRangeYieldsNulls(c: Cache, urls: seq<string>, env: Env, i: nat, hi: nat)
    requires forall j :: i <= j < hi && j < |urls| ==> env.respond(j).TransportFailure? && urls[j] !in Load(c).index
    ensures var r := FetchRange(c, urls, env, i, hi);
      && (forall k :: 0 <= k < |r.pairs| ==> r.pairs[k].1 == None)
      && Load(r.cache).index == Load(c).index
    decreases hi - i
  {
    if i < hi {
      if i < |urls| {
        var item := LoadBytes(c, urls[i], env, i);
        assert Load(item.cache).index == Load(c).index;
        OfflineRangeYieldsNulls(item.cache, urls, env, i + 1, hi);
      } else {
        OfflineRangeYieldsNulls(c, urls, env, i + 1, hi);
      }
    }
  }

  /** A failed fetch does not abort the block: offline with an uncached window,
      `FillStream` still returns a `null` pair for every position of the window. */
  lemma OfflineBlockYieldsNulls(ctrl: Controller, c: Cache, urls: seq<string>, env: Env)
    requires forall j :: ctrl.currentSize <= j < ctrl.currentSize + BlockSize && j < |urls| ==>
      env.respond(j).TransportFailure? && urls[j] !in Load(c).index
    ensures var f := FillStream(ctrl, c, urls, env);
      forall k :: 0 <= k < |f.pairs| ==> f.pairs[k] == (ctrl.currentSize + k, None)
  {
    OfflineRangeYieldsNulls(c, urls, env, ctrl.currentSize, ctrl.currentSize + BlockSize);
  }

  /** A request leaves every other unused name unused. */
  lemma MakeRequestKeepsUnused(c: Cache, uri: string, response: Response, now: Time, freshName: string, other: string)
    requires Valid(c) && Unused(c, other) && other != freshName
    ensures Unused(MakeRequestGuarded(c, uri, response, true, now, freshName).cache, other)
  {
    LoadOfValid(c);
    var r := MakeRequestGuarded(c, uri, response, true, now, freshName).cache;
    if response.Ok? {
      var path := r.index[uri].downloadedPath;
      assert path != other by {
        if uri in c.index {
          assert c.index[uri].downloadedPath == path;
        }
      }
      forall u | u in r.index
        ensures r.index[u].downloadedPath != other
      {
        if u != uri {
          assert r.index[u] == c.index[u];
        }
      }
    } else {
      forall u | u in r.index
        ensures r.index[u].downloadedPath != other
      {
        assert r.index[u].downloadedPath == c.index[u].downloadedPath;
      }
    }
  }

  /** The names the environment hands out for positions `[i, hi)` of the list are
      pairwise distinct and unused in `c`. */
  ghost predicate FreshNames(c: Cache, urls: seq<string>, env: Env, i: nat, hi: nat)
  {
    && (forall j :: i <= j < hi && j < |urls| ==> Unused(c, env.guid(j)))
    && (forall j, k :: i <= j < k < hi && k < |urls| ==> env.guid(j) != env.guid(k))
  }

  /** Fetching a range keeps the cache valid and tidy when the GUIDs are fresh. */
  lemma {:induction false} FetchRangeKeepsValid(c: Cache, urls: seq<string>, env: Env, i: nat, hi: nat)
    requires Valid(c) && FreshNames(c, urls, env, i, hi)
    ensures var r := FetchRange(c, urls, env, i, hi).cache;
      Valid(r) && (Tidy(c) ==> Tidy(r))
    decreases hi - i
  {
    if i < hi {
      if i < |urls| {
        var item := LoadBytes(c, urls[i], env, i);
        MakeRequestKeepsValid(c, urls[i], env.respond(i), true, env.clock(i), env.guid(i));
        assert item.cache == MakeRequest(c, urls[i], env.respond(i), true, env.clock(i), env.guid(i)).cache;
        forall j | i + 1 <= j < hi && j < |urls|
          ensures Unused(item.cache, env.guid(j))
        {
          MakeRequestKeepsUnused(c, urls[i], env.respond(i), env.clock(i), env.guid(i), env.guid(j));
        }
        FetchRangeKeepsValid(item.cache, urls, env, i + 1, hi);
      } else {
        FetchRangeKeepsValid(c, urls, env, i + 1, hi);
      }
    }
  }

  /** One fetch of a block with fresh names: the cache stays valid, keeps every
      indexed URL, and the names for the rest of the block stay fresh. */
  lemma FetchStep(c: Cache, urls: seq<string>, env: Env, i: nat, hi: nat)
    requires Valid(c) && FreshNames(c, urls, env, i, hi) && i < hi && i < |urls|
    ensures var item := LoadBytes(c, urls[i], env, i);
      && Valid(item.cache)
      && c.index.Keys <= item.cache.index.Keys
      && FreshNames(item.cache, urls, env, i + 1, hi)
  {
    LoadOfValid(c);
    var item := LoadBytes(c, urls[i], env, i);
    MakeRequestKeepsValid(c, urls[i], env.respond(i), true, env.clock(i), env.guid(i));
    assert item.cache == MakeRequest(c, urls[i], env.respond(i), true, env.clock(i), env.guid(i)).cache;
    forall j | i + 1 <= j < hi && j < |urls|
      ensures Unused(item.cache, env.guid(j))
    {
      MakeRequestKeepsUnused(c, urls[i], env.respond(i), env.clock(i), env.guid(i), env.guid(j));
    }
  }

  /** A block never drops an indexed URL. */
  lemma {:induction false} FetchRangeKeepsKeys(c: Cache, urls: seq<string>, env: Env, i: nat, hi: nat)
    requires Valid(c) && FreshNames(c, urls, env, i, hi)
    ensures c.index.Keys <= FetchRange(c, urls, env, i, hi).cache.index.Keys
    decreases hi - i
  {
    if i < hi {
      if i < |urls| {
        var item := LoadBytes(c, urls[i], env, i);
        FetchStep(c, urls, env, i, hi);
        FetchRangeKeepsKeys(item.cache, urls, env, i + 1, hi);
      } else {
        FetchRangeKeepsKeys(c, urls, env, i + 1, hi);
      }
    }
  }

  /** Every item of a block whose exchange succeeds is in the cache the block
      leaves, indexed under its URL with its file stored: the block is cached for
      later offline use. */
  lemma {:induction false} FetchRangeCaches(c: Cache, urls: seq<string>, env: Env, i: nat, hi: nat, j: nat)
    requires Valid(c) && FreshNames(c, urls, env, i, hi)
    requires i <= j < hi && j < |urls| && env.respond(j).Ok?
    ensures var r := FetchRange(c, urls, env, i, hi).cache;
      urls[j] in r.index && r.index[urls[j]].downloadedPath in r.files
    decreases hi - i
  {
    var item := LoadBytes(c, urls[i], env, i);
    FetchStep(c, urls, env, i, hi);
    if j == i {
      FetchRangeKeepsKeys(item.cache, urls, env, i + 1, hi);
      FetchRangeKeepsValid(item.cache, urls, env, i + 1, hi);
    } else {
      FetchRangeCaches(item.cache, urls, env, i + 1, hi, j);
    }
  }

  /** `FillStream` keeps every indexed URL and leaves every successfully fetched
      item of its window in the cache. */
  lemma FillStreamCaches(ctrl: Controller, c: Cache, urls: seq<string>, env: Env)
    requires Valid(c) && FreshNames(c, urls, env, ctrl.currentSize, ctrl.currentSize + BlockSize)
    ensures var f := FillStream(ctrl, c, urls, env);
      && c.index.Keys <= f.cache.index.Keys
      && forall j :: ctrl.currentSize <= j < ctrl.currentSize + BlockSize && j < |urls| && env.respond(j).Ok? ==>
           urls[j] in f.cache.index && f.cache.index[urls[j]].downloadedPath in f.cache.files
  {
    var lo, hi := ctrl.currentSize, ctrl.currentSize + BlockSize;
    FetchRangeKeepsKeys(c, urls, env, lo, hi);
    forall j | lo <= j < hi && j < |urls| && env.respond(j).Ok?
      ensures var r := FetchRange(c, urls, env, lo, hi).cache;
        urls[j] in r.index && r.index[urls[j]].downloadedPath in r.files
    {
      FetchRangeCaches(c, urls, env, lo, hi, j);
    }
  }

  /** The controller keeps the cache valid and tidy whenever it fetches. */
  lemma TryLoadByteVectorKeepsValid(ctrl: Controller, c: Cache, index: int, urls: seq<string>, env: Env)
    requires Valid(c) && FreshNames(c, urls, env, ctrl.currentSize, ctrl.currentSize + BlockSize)
    ensures var r := TryLoadByteVector(ctrl, c, index, urls, env).cache;
      Valid(r) && (Tidy(c) ==> Tidy(r))
  {
    FetchRangeKeepsValid(c, urls, env, ctrl.currentSize, ctrl.currentSize + BlockSize);
  }
}
