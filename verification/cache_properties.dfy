/** Invariants of the download cache and the properties its operations keep. */
module CacheProperties {
  import opened Wrappers
  import opened Strings
  import opened Encoding
  import opened CacheService

  /** Every entry's file is stored. */
  ghost predicate FilesPresent(c: Cache)
  {
    forall u :: u in c.index ==> c.index[u].downloadedPath in c.files
  }

  /** No two entries share a file. */
  ghost predicate DistinctPaths(index: map<string, Entry>)
  {
    forall u, v :: u in index && v in index && u != v ==> index[u].downloadedPath != index[v].downloadedPath
  }

  /** The index file holds exactly the in-memory index. */
  ghost predicate Synced(c: Cache)
  {
    c.indexFile == Some(c.index)
  }

  /** The consistency the service keeps between a completed operation and the next. */
  ghost predicate Valid(c: Cache)
  {
    KeysMatch(c.index) && FilesPresent(c) && DistinctPaths(c.index) && Synced(c)
  }

  /** Every stored file belongs to an entry or is protected by a persistent name. */
  ghost predicate Tidy(c: Cache)
  {
    forall p :: p in c.files ==> Referenced(c.index, p) || EndsWithAny(p, c.persistentFiles)
  }

  /** No entry was downloaded after it was last accessed. */
  ghost predicate TimesOrdered(c: Cache)
  {
    forall u :: u in c.index ==> c.index[u].whenDownloadedUtc <= c.index[u].whenLastAccessedUtc
  }

  /** The clock reads `now` or later than every download time in the cache. */
  ghost predicate ClockAfter(c: Cache, now: Time)
  {
    forall u :: u in c.index ==> c.index[u].whenDownloadedUtc <= now
  }

  /** `name` is what a new GUID gives: neither a stored file nor an entry's file. */
  ghost predicate Unused(c: Cache, name: string)
  {
    name !in c.files && !Referenced(c.index, name)
  }

  /** Every stored file shows up, once normalized, in the storage listing. */
  ghost predicate Covers(listed: seq<string>, npath: string, files: map<string, Bytes>)
  {
    forall p :: p in files ==> Listed(listed, npath, p)
  }

  lemma LoadOfValid(c: Cache)
    requires Synced(c)
    ensures Load(c) == c
  {
  }

  // ---------------------------------------------------------------------------
  // cacheResource

  /** Caching keeps the cache valid and tidy, provided a new URL gets an unused name. */
  lemma CacheResourceKeepsValid(c: Cache, url: string, bytes: Bytes, now: Time, freshName: string)
    requires Valid(c)
    requires url in c.index || Unused(c, freshName)
    ensures var r := CacheResource(c, url, bytes, now, freshName);
      Valid(r) && (Tidy(c) ==> Tidy(r)) && (TimesOrdered(c) ==> TimesOrdered(r))
  {
    LoadOfValid(c);
    var r := CacheResource(c, url, bytes, now, freshName);
    var path := r.index[url].downloadedPath;
    forall u, v | u in r.index && v in r.index && u != v
      ensures r.index[u].downloadedPath != r.index[v].downloadedPath
    {
      if u == url {
        assert v in c.index && r.index[v] == c.index[v];
      } else if v == url {
        assert u in c.index && r.index[u] == c.index[u];
      }
    }
    if Tidy(c) {
      forall p | p in r.files
        ensures Referenced(r.index, p) || EndsWithAny(p, r.persistentFiles)
      {
        if p == path {
          assert r.index[url].downloadedPath == p;
        } else {
          assert p in c.files;
          if Referenced(c.index, p) {
            var u :| u in c.index && c.index[u].downloadedPath == p;
            assert u != url;
            assert r.index[u] == c.index[u];
          }
        }
      }
    }
  }

  /** Caching a URL that is already indexed reuses its file: the entry count and
      the file count stay the same and the old bytes are replaced. */
  lemma CacheKnownUrl(c: Cache, url: string, bytes: Bytes, now: Time, freshName: string)
    requires Valid(c) && url in c.index
    ensures var r := CacheResource(c, url, bytes, now, freshName);
      && r.index[url].downloadedPath == c.index[url].downloadedPath
      && |r.index| == |c.index|
      && |r.files| == |c.files|
      && r.files[c.index[url].downloadedPath] == bytes
  {
    LoadOfValid(c);
    var r := CacheResource(c, url, bytes, now, freshName);
    assert r.index.Keys == c.index.Keys;
    assert r.files.Keys == c.files.Keys;
  }

  /** Caching a URL that is not indexed adds exactly one entry and one file, under
      the fresh name, and leaves every other entry and file as it was. */
  lemma CacheNewUrl(c: Cache, url: string, bytes: Bytes, now: Time, freshName: string)
    requires Valid(c) && url !in c.index && Unused(c, freshName)
    ensures var r := CacheResource(c, url, bytes, now, freshName);
      && r.index == c.index[url := Entry(url, freshName, now, now)]
      && r.files == c.files[freshName := bytes]
      && |r.index| == |c.index| + 1
      && |r.files| == |c.files| + 1
  {
    LoadOfValid(c);
    var r := CacheResource(c, url, bytes, now, freshName);
    assert r.index == c.index[url := Entry(url, freshName, now, now)];
    assert r.files == c.files[freshName := bytes];
  }

  /** Two writes for one URL leave one entry, keeping the file name of the first
      write, and the file holds the second write's bytes. */
  lemma OverwriteKeepsIdentity(c: Cache, url: string, a: Bytes, b: Bytes, t1: Time, t2: Time, name1: string, name2: string)
    requires Valid(c) && (url in c.index || Unused(c, name1))
    ensures var c1 := CacheResource(c, url, a, t1, name1);
      var c2 := CacheResource(c1, url, b, t2, name2);
      && c2.index.Keys == c1.index.Keys
      && c2.index[url].downloadedPath == c1.index[url].downloadedPath
      && c2.files[c1.index[url].downloadedPath] == b
      && c2.index[url].whenDownloadedUtc == t2
  {
    CacheResourceKeepsValid(c, url, a, t1, name1);
    var c1 := CacheResource(c, url, a, t1, name1);
    LoadOfValid(c1);
  }

  /** An object list cached under an identifier is read back, through the same key,
      as bytes that decode to its JSON text. */
  lemma ObjectListReadBack(c: Cache, identifier: string, json: Utf16, now: Time, later: Time, freshName: string)
    ensures var c1 := CacheObjectList(c, identifier, json, now, freshName);
      var read := TryReadFileFromLocalCache(c1, GetStringWithPrefix(identifier), later);
      read.ok && read.content.Some? && GetString(read.content.value) == Some(json)
  {
  }

  /** Distinct identifiers give distinct keys. */
  lemma PrefixInjective(a: string, b: string)
    requires GetStringWithPrefix(a) == GetStringWithPrefix(b)
    ensures a == b
  {
    assert a == GetStringWithPrefix(a)[|EntityPrefix|..];
  }

  /** No HTTP URL is an object-list key, so the two key spaces never collide. */
  lemma UrlsAreNotObjectListKeys(url: string, identifier: string)
    requires |url| >= 4 && url[..4] == "http"
    ensures url != GetStringWithPrefix(identifier)
  {
    assert url[0] == 'h';
    assert GetStringWithPrefix(identifier)[0] == 'k';
  }

  // ---------------------------------------------------------------------------
  // tryReadFileFromLocalCache

  /** A read keeps the cache valid and tidy, and with a clock that does not run
      backwards it keeps every entry's timestamps ordered. */
  lemma TryReadKeepsValid(c: Cache, url: string, now: Time)
    requires Valid(c)
    ensures var r := TryReadFileFromLocalCache(c, url, now).cache;
      && Valid(r) && (Tidy(c) ==> Tidy(r))
      && (TimesOrdered(c) && ClockAfter(c, now) ==> TimesOrdered(r))
  {
    LoadOfValid(c);
    var r := TryReadFileFromLocalCache(c, url, now).cache;
    if url in c.index {
      assert forall u :: u in r.index ==> r.index[u].downloadedPath == c.index[u].downloadedPath;
      if Tidy(c) {
        forall p | p in r.files
          ensures Referenced(r.index, p) || EndsWithAny(p, r.persistentFiles)
        {
          if Referenced(c.index, p) {
            var u :| u in c.index && c.index[u].downloadedPath == p;
            assert r.index[u].downloadedPath == p;
          }
        }
      }
    }
  }

  /** On a hit of a valid cache the read returns the file's bytes, and only the
      entry's last-access time changes. */
  lemma TryReadHit(c: Cache, url: string, now: Time)
    requires Valid(c) && url in c.index
    ensures var read := TryReadFileFromLocalCache(c, url, now);
      && read.ok
      && read.content == Some(c.files[c.index[url].downloadedPath])
      && read.cache.index[url].whenLastAccessedUtc == now
      && read.cache.index[url].whenDownloadedUtc == c.index[url].whenDownloadedUtc
      && read.cache.index[url].downloadedPath == c.index[url].downloadedPath
      && (forall u :: u in c.index && u != url ==> read.cache.index[u] == c.index[u])
      && read.cache.index.Keys == c.index.Keys
      && read.cache.files == c.files
  {
    LoadOfValid(c);
  }

  // ---------------------------------------------------------------------------
  // checkForOldFiles

  /** Eviction keeps the cache's consistency and tidiness, and leaves only entries
      within `MaxFileAge`. */
  lemma CheckForOldFilesKeepsValid(c: Cache, now: Time)
    requires KeysMatch(c.index) && FilesPresent(c) && DistinctPaths(c.index)
    ensures var r := CheckForOldFiles(c, now);
      && KeysMatch(r.index) && FilesPresent(r) && DistinctPaths(r.index)
      && (Tidy(c) ==> Tidy(r))
      && (forall u :: u in r.index ==> !Stale(r.index[u], now))
  {
    var r := CheckForOldFiles(c, now);
    forall u | u in r.index
      ensures r.index[u].downloadedPath in r.files
    {
      var p := r.index[u].downloadedPath;
      assert p in c.files;
      forall v | v in c.index && Stale(c.index[v], now)
        ensures c.index[v].downloadedPath != p
      {
        assert v != u;
      }
    }
    if Tidy(c) {
      forall p | p in r.files
        ensures Referenced(r.index, p) || EndsWithAny(p, r.persistentFiles)
      {
        if Referenced(c.index, p) {
          var u :| u in c.index && c.index[u].downloadedPath == p;
          assert u in r.index;
        }
      }
    }
  }

  /** The age bound is strict: an entry exactly `MaxFileAge` old is kept and one a
      tick older is evicted together with its file. */
  lemma EvictionBoundary(c: Cache, kept: string, evicted: string, now: Time)
    requires KeysMatch(c.index) && DistinctPaths(c.index)
    requires kept in c.index && now - c.index[kept].whenDownloadedUtc == MaxFileAge
    requires evicted in c.index && now - c.index[evicted].whenDownloadedUtc == MaxFileAge + 1
    ensures var r := CheckForOldFiles(c, now);
      && kept in r.index
      && (c.index[kept].downloadedPath in c.files ==> c.index[kept].downloadedPath in r.files)
      && evicted !in r.index
      && c.index[evicted].downloadedPath !in r.files
  {
    var r := CheckForOldFiles(c, now);
    var p := c.index[kept].downloadedPath;
    forall v | v in c.index && Stale(c.index[v], now)
      ensures c.index[v].downloadedPath != p
    {
      assert v != kept;
    }
    assert StaleReferenced(c.index, c.index[evicted].downloadedPath, now);
  }

  // ---------------------------------------------------------------------------
  // checkForUnindexedFiles and construction

  /** Reconciliation never touches a file whose name ends with a persistent name,
      nor one referenced by an entry. */
  lemma ReconcileKeepsProtected(c: Cache, listed: seq<string>, nativeRoot: string, p: string)
    requires p in c.files
    requires Referenced(c.index, p) || EndsWithAny(p, c.persistentFiles)
    ensures var r := CheckForUnindexedFiles(c, listed, nativeRoot);
      p in r.files && r.files[p] == c.files[p]
  {
  }

  /** Reconciliation leaves the entries valid: it only deletes unreferenced files. */
  lemma ReconcileKeepsEntries(c: Cache, listed: seq<string>, nativeRoot: string)
    requires FilesPresent(c)
    ensures FilesPresent(CheckForUnindexedFiles(c, listed, nativeRoot))
  {
    var r := CheckForUnindexedFiles(c, listed, nativeRoot);
    forall u | u in r.index
      ensures r.index[u].downloadedPath in r.files
    {
      assert Referenced(c.index, c.index[u].downloadedPath);
    }
  }

  /** When the listing shows every stored file, reconciliation leaves only files that
      belong to an entry or carry a persistent name. */
  lemma ReconcileMakesTidy(c: Cache, listed: seq<string>, nativeRoot: string)
    requires Covers(listed, nativeRoot + "/", c.files)
    ensures Tidy(CheckForUnindexedFiles(c, listed, nativeRoot))
  {
  }

  /** A storage index that `JsonConvert` and `ToDictionary` can have produced and
      whose entries' files are all stored. */
  ghost predicate SoundDisk(files: map<string, Bytes>, indexFile: Option<map<string, Entry>>)
  {
    indexFile.Some? ==>
      var m := indexFile.value;
      KeysMatch(m) && DistinctPaths(m) && forall u :: u in m ==> m[u].downloadedPath in files
  }

  /** Construction over sound storage yields a valid cache whose entries are all
      within `MaxFileAge`; when the listing shows every stored file, every
      remaining file belongs to an entry or carries a persistent name. */
  lemma InitIsValid(
    credFileName: Option<string>, files: map<string, Bytes>, indexFile: Option<map<string, Entry>>,
    listed: seq<string>, nativeRoot: string, now: Time)
    requires SoundDisk(files, indexFile)
    ensures var r := Init(credFileName, files, indexFile, listed, nativeRoot, now);
      && Valid(r)
      && (forall u :: u in r.index ==> !Stale(r.index[u], now))
      && (Covers(listed, nativeRoot + "/", files) ==> Tidy(r))
  {
    var c0 := Cache(map[], files, indexFile, PersistentFiles(credFileName));
    var c1 := Load(c0);
    assert KeysMatch(c1.index) && FilesPresent(c1) && DistinctPaths(c1.index);
    var c2 := CheckForUnindexedFiles(c1, listed, nativeRoot);
    ReconcileKeepsEntries(c1, listed, nativeRoot);
    CheckForOldFilesKeepsValid(c2, now);
    if Covers(listed, nativeRoot + "/", files) {
      ReconcileMakesTidy(c1, listed, nativeRoot);
    }
  }

  /** A name without '/' contains no native root prefix, so normalization keeps it. */
  lemma NormalizeWithoutSlash(f: string, nativeRoot: string)
    requires forall k :: 0 <= k < |f| ==> f[k] != '/'
    ensures NormalizePath(f, nativeRoot + "/") == f
  {
    var npath := nativeRoot + "/";
    forall j
      ensures !OccursAt(f, npath, j)
    {
      if 0 <= j && j + |npath| <= |f| {
        assert f[j..j + |npath|][|npath| - 1] != npath[|npath| - 1];
      }
    }
  }

  /** A path as the native listing returns it, the root followed by `/` and a
      name, normalizes to that name. */
  lemma NormalizeNativePath(nativeRoot: string, name: string)
    ensures NormalizePath(nativeRoot + "/" + name, nativeRoot + "/") == name
  {
    var f, npath := nativeRoot + "/" + name, nativeRoot + "/";
    assert f[..|npath|] == npath;
    assert OccursAt(f, npath, 0);
    assert f[|npath|..] == name;
  }

  /** The untracked file of the scenario ends with no persistent name. */
  lemma ScenarioOrphanUnprotected()
    ensures !EndsWithAny("orphan123", PersistentFiles(Some("credentials.json")))
  {
    var cred := "credentials.json";
    assert !EndsWith("orphan123", IndexFileName);
    assert !EndsWith("orphan123", cred) by {
      assert "orphan123"[|"orphan123"| - 1] != cred[|cred| - 1];
    }
  }

  /** The untracked file of the scenario shows up in the native listing. */
  lemma ScenarioOrphanListed(nativeRoot: string)
    ensures var listed := [nativeRoot + "/" + IndexFileName, nativeRoot + "/" + "credentials.json", nativeRoot + "/" + "orphan123"];
      Listed(listed, nativeRoot + "/", "orphan123")
  {
    var listed := [nativeRoot + "/" + IndexFileName, nativeRoot + "/" + "credentials.json", nativeRoot + "/" + "orphan123"];
    NormalizeNativePath(nativeRoot, "orphan123");
    assert listed[2] in listed;
  }

  /** The scenario's reconciliation step: of the stored files, the listing's
      untracked file is an orphan and the credential file is protected. */
  lemma ScenarioReconcile(nativeRoot: string)
    ensures var cred := "credentials.json";
      var c1 := Cache(map[], map[cred := [7], "orphan123" := [8]], Some(map[]), PersistentFiles(Some(cred)));
      var listed := [nativeRoot + "/" + IndexFileName, nativeRoot + "/" + cred, nativeRoot + "/" + "orphan123"];
      CheckForUnindexedFiles(c1, listed, nativeRoot).files == map[cred := [7]]
  {
    var cred := "credentials.json";
    var npath := nativeRoot + "/";
    var listed := [nativeRoot + "/" + IndexFileName, nativeRoot + "/" + cred, nativeRoot + "/" + "orphan123"];
    var c1 := Cache(map[], map[cred := [7], "orphan123" := [8]], Some(map[]), PersistentFiles(Some(cred)));
    ScenarioOrphanListed(nativeRoot);
    ScenarioOrphanUnprotected();
    assert Orphan(c1, listed, npath, "orphan123");
    assert !Orphan(c1, listed, npath, cred) by {
      assert EndsWith(cred, cred);
    }
    var c2 := CheckForUnindexedFiles(c1, listed, nativeRoot);
    assert c2.files.Keys == {cred};
  }

  /** A storage root holding the index file, a credential file and an untracked
      file, listed with native paths: construction deletes the untracked file only. */
  lemma ReconcileScenario(nativeRoot: string, now: Time)
    ensures var cred := "credentials.json";
      var files := map["credentials.json" := [7], "orphan123" := [8]];
      var listed := [nativeRoot + "/" + IndexFileName, nativeRoot + "/" + cred, nativeRoot + "/" + "orphan123"];
      var r := Init(Some(cred), files, Some(map[]), listed, nativeRoot, now);
      r.files == map["credentials.json" := [7]]
  {
    var cred := "credentials.json";
    var c1 := Cache(map[], map[cred := [7], "orphan123" := [8]], Some(map[]), PersistentFiles(Some(cred)));
    assert Load(c1) == c1;
    ScenarioReconcile(nativeRoot);
  }

  // ---------------------------------------------------------------------------
  // makeRequest

  /** A request keeps the cache valid, provided a new URL gets an unused name. */
  lemma MakeRequestKeepsValid(c: Cache, uri: string, response: Response, cache: bool, now: Time, freshName: string)
    requires Valid(c)
    requires uri in c.index || Unused(c, freshName)
    ensures var r := MakeRequest(c, uri, response, cache, now, freshName).cache;
      Valid(r) && (Tidy(c) ==> Tidy(r))
  {
    if response.Ok? {
      if cache {
        CacheResourceKeepsValid(c, uri, response.body, now, freshName);
      }
    } else {
      TryReadKeepsValid(c, uri, now);
    }
  }

  /** On a transport failure the `cache` flag makes no difference. */
  lemma FailureIgnoresCacheFlag(c: Cache, uri: string, now: Time, freshName: string)
    ensures MakeRequest(c, uri, TransportFailure, true, now, freshName)
         == MakeRequest(c, uri, TransportFailure, false, now, freshName)
  {
  }

  /** A resource cached earlier is served from the cache when the network fails: the
      bytes come back, the download time is kept and the access time is updated. An
      uncached URL fails and the error action runs. */
  lemma FallbackServesCachedCopy(
    c: Cache, uri: string, bytes: Bytes, t1: Time, t2: Time, freshName: string, cacheFlag: bool, other: string)
    requires Valid(c) && (uri in c.index || Unused(c, freshName))
    requires other !in c.index && other != uri
    ensures var c1 := CacheResource(c, uri, bytes, t1, freshName);
      var r := MakeRequest(c1, uri, TransportFailure, cacheFlag, t2, freshName);
      && r.outcome == Delivered(bytes)
      && r.cache.index[uri].whenDownloadedUtc == t1
      && r.cache.index[uri].whenLastAccessedUtc == t2
      && MakeRequest(c1, other, TransportFailure, cacheFlag, t2, freshName).outcome == Failed
  {
    CacheResourceKeepsValid(c, uri, bytes, t1, freshName);
    var c1 := CacheResource(c, uri, bytes, t1, freshName);
    LoadOfValid(c1);
  }

  /** Cache `[1, 2, 3]` for "https://x/a.png", then lose the network: the same bytes
      are returned. */
  lemma FallbackScenario(t1: Time, t2: Time)
    ensures var url := "https://x/a.png";
      var c0 := Init(None, map[], None, [], "/data", t1);
      var c1 := CacheResource(c0, url, [1, 2, 3], t1, "0f");
      var r := MakeRequest(c1, url, TransportFailure, true, t2, "1f");
      && r.outcome == Delivered([1, 2, 3])
      && r.cache.index[url].whenDownloadedUtc == t1
      && r.cache.index[url].whenLastAccessedUtc == t2
  {
  }
  // ---------------------------------------------------------------------------
  // An entry whose file is missing

  /** Construction keeps an index entry whose file is not in storage: reconciliation
      deletes unindexed files but never drops dangling entries. */
  lemma DanglingEntrySurvivesInit(now: Time)
    ensures var e := Entry("https://x/a.png", "0f", now, now);
      var r := Init(None, map[], Some(map["https://x/a.png" := e]), [], "/data", now);
      "https://x/a.png" in r.index && "0f" !in r.files
  {
  }

  /** With such an entry, a transport failure makes `makeRequest` as written read a
      null file and build a stream over it, which throws before either the success
      or the error action runs. */
  lemma DanglingEntryFaults(now: Time, later: Time)
    ensures var e := Entry("https://x/a.png", "0f", now, now);
      var c := Init(None, map[], Some(map["https://x/a.png" := e]), [], "/data", now);
      && MakeRequest(c, "https://x/a.png", TransportFailure, true, later, "1f").outcome == Faulted
      && MakeRequestGuarded(c, "https://x/a.png", TransportFailure, true, later, "1f").outcome == Failed
  {
  }
}
