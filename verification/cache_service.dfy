/** The download cache of `DownloadCache/CacheService.cs`: an index from source URL
    to entry, the files holding the downloaded bytes, and the persisted copy of the
    index, with the service's operations as pure functions from state to state.

    The storage collaborator is reduced to the map `files`; the index file is kept
    apart in `indexFile`, and its JSON encoding is taken to be exact, so saving
    and loading the index is the identity. */
module CacheService {
  import opened Wrappers
  import opened Strings
  import opened Encoding

  type Bytes = seq<byte>

  /** A UTC instant in `DateTime` ticks of 100 ns. */
  type Time = int

  /** Name of the file that holds the serialized index. */
  const IndexFileName: string := "_cacheindex.txt"

  /** Prefix that keeps the keys of cached object lists apart from URLs. */
  const EntityPrefix: string := "kf_id_"

  const TicksPerDay: int := 864_000_000_000

  /** `TimeSpan.FromDays(3.0)`: entries downloaded longer ago are evicted. */
  const MaxFileAge: int := 3 * TicksPerDay

  /** Metadata of one cached resource. */
  datatype Entry = Entry(
    httpSource: string,
    downloadedPath: string,
    whenLastAccessedUtc: Time,
    whenDownloadedUtc: Time)

  /** The state of the service: the in-memory index, the stored files other than
      the index file, the index file (None when absent) and the file names that
      reconciliation must never delete. */
  datatype Cache = Cache(
    index: map<string, Entry>,
    files: map<string, Bytes>,
    indexFile: Option<map<string, Entry>>,
    persistentFiles: seq<string>)

  /** Every entry is stored under its own source URL, as `ToDictionary(x => x.HttpSource)`
      and every insertion of the service arrange. */
  ghost predicate KeysMatch(index: map<string, Entry>)
  {
    forall u :: u in index ==> index[u].httpSource == u
  }

  /** Some entry of `index` keeps its bytes in the file `path`. */
  predicate Referenced(index: map<string, Entry>, path: string)
  {
    exists u :: u in index && index[u].downloadedPath == path
  }

  /** `loadEntries`: an existing index file replaces the in-memory index; without
      one the in-memory index stays as it is. */
  function Load(c: Cache): (r: Cache)
    ensures c.indexFile.Some? ==> r.index == c.indexFile.value
    ensures c.indexFile.None? ==> r.index == c.index
    ensures r.files == c.files && r.indexFile == c.indexFile && r.persistentFiles == c.persistentFiles
  {
    if c.indexFile.Some? then c.(index := c.indexFile.value) else c
  }

  /** `writeEntries`: overwrites the index file with the in-memory index. */
  function Save(c: Cache): (r: Cache)
    ensures Load(r) == r && r.indexFile == Some(c.index)
    ensures r.index == c.index && r.files == c.files && r.persistentFiles == c.persistentFiles
  {
    c.(indexFile := Some(c.index))
  }

  /** `cacheResource`: reload the index, store `bytes` for `url` and save the index.
      An indexed URL keeps its file name, so the same file is overwritten; a new URL
      gets `freshName`, the name `Guid.NewGuid` would produce. Both timestamps
      become `now`. */
  function CacheResource(c: Cache, url: string, bytes: Bytes, now: Time, freshName: string): (r: Cache)
    ensures var l := Load(c);
      && r.index.Keys == l.index.Keys + {url}
      && r.index[url] == Entry(url, r.index[url].downloadedPath, now, now)
      && (url in l.index ==> r.index[url].downloadedPath == l.index[url].downloadedPath)
      && (url !in l.index ==> r.index[url].downloadedPath == freshName)
      && (forall u :: u in l.index && u != url ==> r.index[u] == l.index[u])
    ensures var l := Load(c); var path := r.index[url].downloadedPath;
      && r.files.Keys == l.files.Keys + {path}
      && r.files[path] == bytes
      && (forall p :: p in l.files && p != path ==> r.files[p] == l.files[p])
    ensures r.indexFile == Some(r.index) && r.persistentFiles == c.persistentFiles
  {
    var l := Load(c);
    var filename := if url in l.index then l.index[url].downloadedPath else freshName;
    var entry := Entry(url, filename, now, now);
    Save(l.(index := l.index[url := entry], files := l.files[filename := bytes]))
  }

  /** Key under which `cacheObjectList` stores a list: `GetStringWithPrefix`. */
  function GetStringWithPrefix(identifier: string): (r: string)
    ensures |r| == |EntityPrefix| + |identifier|
    ensures r[..|EntityPrefix|] == EntityPrefix && r[|EntityPrefix|..] == identifier
  {
    EntityPrefix + identifier
  }

  /** `cacheObjectList`: the serialized list (its JSON text) is turned into bytes
      with `GetBytes` and cached under the prefixed identifier. */
  function CacheObjectList(c: Cache, identifier: string, json: Utf16, now: Time, freshName: string): (r: Cache)
    ensures var key := GetStringWithPrefix(identifier);
      && key in r.index
      && r.index[key].downloadedPath in r.files
      && GetString(r.files[r.index[key].downloadedPath]) == Some(json)
    ensures var key := GetStringWithPrefix(identifier); var l := Load(c);
      && r.index.Keys == l.index.Keys + {key}
      && r.index[key] == Entry(key, r.index[key].downloadedPath, now, now)
      && (key in l.index ==> r.index[key].downloadedPath == l.index[key].downloadedPath)
      && (key !in l.index ==> r.index[key].downloadedPath == freshName)
      && (forall u :: u in l.index && u != key ==> r.index[u] == l.index[u])
    ensures var key := GetStringWithPrefix(identifier); var l := Load(c); var path := r.index[key].downloadedPath;
      && r.files.Keys == l.files.Keys + {path}
      && (forall p :: p in l.files && p != path ==> r.files[p] == l.files[p])
      && r.indexFile == Some(r.index) && r.persistentFiles == c.persistentFiles
  {
    GetStringOfGetBytes(json);
    CacheResource(c, GetStringWithPrefix(identifier), GetBytes(json), now, freshName)
  }

  /** What `tryReadFileFromLocalCache` yields: the state after the call, the `ok`
      flag, and the bytes read (None for the C# `null`). */
  datatype ReadResult = ReadResult(cache: Cache, ok: bool, content: Option<Bytes>)

  /** `tryReadFileFromLocalCache`: reload the index; on a hit, stamp the entry's
      last access with `now`, read its file (None when the file is missing) and save
      the index; on a miss the null entry makes the update throw, the exception is
      caught and nothing is written. */
  function TryReadFileFromLocalCache(c: Cache, url: string, now: Time): (r: ReadResult)
    ensures var l := Load(c); r.ok <==> url in l.index
    ensures var l := Load(c); url !in l.index ==> r.cache == l && r.content == None
    ensures var l := Load(c); url in l.index ==>
      var e := l.index[url];
      && r.cache.index == l.index[url := e.(whenLastAccessedUtc := now)]
      && r.cache.files == l.files
      && r.cache.indexFile == Some(r.cache.index)
      && r.cache.persistentFiles == c.persistentFiles
      && (e.downloadedPath in l.files ==> r.content == Some(l.files[e.downloadedPath]))
      && (e.downloadedPath !in l.files ==> r.content == None)
  {
    var l := Load(c);
    if url !in l.index then ReadResult(l, false, None)
    else
      var e := l.index[url].(whenLastAccessedUtc := now);
      var content := if e.downloadedPath in l.files then Some(l.files[e.downloadedPath]) else None;
      ReadResult(Save(l.(index := l.index[url := e])), true, content)
  }

  /** An entry is too old when strictly more than `MaxFileAge` has passed since its download. */
  predicate Stale(e: Entry, now: Time)
  {
    now - e.whenDownloadedUtc > MaxFileAge
  }

  /** Some stale entry of `index` keeps its bytes in `path`. */
  predicate StaleReferenced(index: map<string, Entry>, path: string, now: Time)
  {
    exists u :: u in index && Stale(index[u], now) && index[u].downloadedPath == path
  }

  /** `checkForOldFiles`: removes the stale entries (by their `HttpSource`) and
      deletes their files. The index file is not written here. */
  function CheckForOldFiles(c: Cache, now: Time): (r: Cache)
    ensures KeysMatch(c.index) ==>
      forall u :: u in r.index <==> u in c.index && !Stale(c.index[u], now)
    ensures forall u :: u in r.index ==> u in c.index && r.index[u] == c.index[u]
    ensures forall p :: p in r.files <==> p in c.files && !StaleReferenced(c.index, p, now)
    ensures forall p :: p in r.files ==> r.files[p] == c.files[p]
    ensures r.indexFile == c.indexFile && r.persistentFiles == c.persistentFiles
  {
    var toRemove := set u | u in c.index && Stale(c.index[u], now) :: c.index[u];
    var sources := set e | e in toRemove :: e.httpSource;
    var paths := set e | e in toRemove :: e.downloadedPath;
    c.(index := c.index - sources, files := c.files - paths)
  }

  /** The listing's path with the first occurrence of the native root prefix `npath`
      removed; a path without it is kept as it is. */
  function NormalizePath(f: string, npath: string): (r: string)
    ensures (forall j :: !OccursAt(f, npath, j)) ==> r == f
    ensures forall i :: OccursAt(f, npath, i) && (forall j :: 0 <= j < i ==> !OccursAt(f, npath, j)) ==>
      r == f[..i] + f[i + |npath|..]
  {
    match IndexOf(f, npath)
    case None => f
    case Some(i) => Remove(f, i, |npath|)
  }

  /** Some entry of the raw listing normalizes to `path`. */
  predicate Listed(listed: seq<string>, npath: string, path: string)
  {
    exists f :: f in listed && NormalizePath(f, npath) == path
  }

  /** A listed path that no entry references and that ends with no persistent name. */
  predicate Orphan(c: Cache, listed: seq<string>, npath: string, path: string)
  {
    Listed(listed, npath, path) && !Referenced(c.index, path) && !EndsWithAny(path, c.persistentFiles)
  }

  /** `checkForUnindexedFiles`: normalizes every path of the storage listing
      `listed` by stripping `nativeRoot + "/"`, and deletes each normalized path
      that no entry references and that does not end with a persistent file name. */
  function CheckForUnindexedFiles(c: Cache, listed: seq<string>, nativeRoot: string): (r: Cache)
    ensures var npath := nativeRoot + "/";
      forall p :: p in r.files <==> p in c.files && !Orphan(c, listed, npath, p)
    ensures forall p :: p in r.files ==> r.files[p] == c.files[p]
    ensures r.index == c.index && r.indexFile == c.indexFile && r.persistentFiles == c.persistentFiles
  {
    var npath := nativeRoot + "/";
    var orphans := set f | f in listed
      && !Referenced(c.index, NormalizePath(f, npath))
      && !EndsWithAny(NormalizePath(f, npath), c.persistentFiles)
      :: NormalizePath(f, npath);
    c.(files := c.files - orphans)
  }

  /** Files reconciliation keeps: the index file, and the credential file when
      the service is created with one. */
  function PersistentFiles(credFileName: Option<string>): (r: seq<string>)
    ensures IndexFileName in r
    ensures forall n :: n in r <==> n == IndexFileName || (credFileName.Some? && n == credFileName.value)
  {
    if credFileName.Some? then [IndexFileName, credFileName.value] else [IndexFileName]
  }

  /** The two private constructors: start from an empty in-memory index, load the
      index file, delete unindexed files, evict old entries and save the index.
      `files`, `indexFile` are what storage holds, `listed` what `GetFilesIn("")`
      returns and `nativeRoot` what `NativePath("")` returns. */
  function Init(
    credFileName: Option<string>, files: map<string, Bytes>, indexFile: Option<map<string, Entry>>,
    listed: seq<string>, nativeRoot: string, now: Time): (r: Cache)
    ensures IndexFileName in r.persistentFiles
    ensures credFileName.Some? ==> credFileName.value in r.persistentFiles
    ensures r.persistentFiles == PersistentFiles(credFileName)
    ensures r.indexFile == Some(r.index)
    ensures forall u :: u in r.index ==> indexFile.Some? && u in indexFile.value && r.index[u] == indexFile.value[u]
    ensures indexFile.Some? && KeysMatch(indexFile.value) ==>
      forall u :: u in r.index <==> u in indexFile.value && !Stale(indexFile.value[u], now)
    ensures var l := if indexFile.Some? then indexFile.value else map[];
      var c1 := Cache(l, files, indexFile, PersistentFiles(credFileName));
      forall p :: p in r.files <==> p in files && !Orphan(c1, listed, nativeRoot + "/", p) && !StaleReferenced(l, p, now)
    ensures forall p :: p in r.files ==> p in files && r.files[p] == files[p]
  {
    var c0 := Cache(map[], files, indexFile, PersistentFiles(credFileName));
    var c1 := Load(c0);
    var c2 := CheckForUnindexedFiles(c1, listed, nativeRoot);
    var c3 := CheckForOldFiles(c2, now);
    Save(c3)
  }

  /** Abstract outcome of the HTTP exchange: the full response body, or a
      `WebException` (no connection, or any failed exchange). */
  datatype Response = Ok(body: Bytes) | TransportFailure

  /** How `makeRequest` ends: `successAction` receives `data`; or `errorAction` runs
      and the exception is rethrown; or the URL is indexed but its file is missing,
      so the stream over the null content throws before either action runs. */
  datatype Outcome = Delivered(data: Bytes) | Failed | Faulted

  datatype RequestResult = RequestResult(cache: Cache, outcome: Outcome)

  /** `makeRequest` for the request URI `uri`: network first, cache as fallback. */
  function MakeRequest(c: Cache, uri: string, response: Response, cache: bool, now: Time, freshName: string): (r: RequestResult)
    ensures response.Ok? ==> r.outcome == Delivered(response.body)
    ensures response.Ok? && !cache ==> r.cache == c
    ensures response.Ok? && cache ==>
      uri in r.cache.index && r.cache.index[uri].whenDownloadedUtc == now
      && r.cache.index[uri].downloadedPath in r.cache.files
      && r.cache.files[r.cache.index[uri].downloadedPath] == response.body
    ensures response.TransportFailure? ==>
      var l := Load(c);
      && (r.outcome.Failed? <==> uri !in l.index)
      && (r.outcome.Delivered? <==> uri in l.index && l.index[uri].downloadedPath in l.files)
      && (r.outcome.Delivered? ==> r.outcome.data == l.files[l.index[uri].downloadedPath])
      && r.cache.files == c.files
    ensures response.Ok? && cache ==> r.cache == CacheResource(c, uri, response.body, now, freshName)
    ensures response.TransportFailure? ==>
      var l := Load(c);
      && (uri !in l.index ==> r.cache == l)
      && (uri in l.index ==>
            && r.cache.index == l.index[uri := l.index[uri].(whenLastAccessedUtc := now)]
            && r.cache.indexFile == Some(r.cache.index)
            && r.cache.persistentFiles == c.persistentFiles)
  {
    match response
    case Ok(body) =>
      var c' := if cache then CacheResource(c, uri, body, now, freshName) else c;
      RequestResult(c', Delivered(body))
    case TransportFailure =>
      var read := TryReadFileFromLocalCache(c, uri, now);
      if !read.ok then RequestResult(read.cache, Failed)
      else if read.content.Some? then RequestResult(read.cache, Delivered(read.content.value))
      else RequestResult(read.cache, Faulted)
  }

  /** `makeRequest` with the fallback completed: an indexed URL whose file is
      missing is treated like a miss, so the error action runs and the exception is
      rethrown instead of a null stream escaping. Everything else is as written. */
  function MakeRequestGuarded(c: Cache, uri: string, response: Response, cache: bool, now: Time, freshName: string): (r: RequestResult)
    ensures !r.outcome.Faulted?
    ensures response.TransportFailure? ==>
      var l := Load(c);
      r.outcome.Failed? <==> !(uri in l.index && l.index[uri].downloadedPath in l.files)
    ensures var w := MakeRequest(c, uri, response, cache, now, freshName);
      r.cache == w.cache && (!w.outcome.Faulted? ==> r.outcome == w.outcome)
  {
    var r := MakeRequest(c, uri, response, cache, now, freshName);
    if r.outcome.Faulted? then r.(outcome := Failed) else r
  }
}
