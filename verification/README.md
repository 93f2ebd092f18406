# Download cache and incremental download, in Dafny

A model of the offline resource cache of a mobile client. `CacheService` fetches
resources over HTTP, stores their bytes in local files keyed by source URL, and
serves the stored copy when the network fails. `IncrementalDownload` fetches a
long list of resources ten positions at a time, as the user scrolls.

The cache is a state machine over immutable values (`CacheService.Cache`):

- the in-memory index, a `map<string, Entry>` from source URL to entry;
- the stored files, a `map<string, seq<byte>>`;
- the index file, `Option<map<string, Entry>>`. Its JSON encoding is taken to be
  exact, so `writeEntries` stores the in-memory map and `loadEntries` reads it back;
- the persistent file names that reconciliation never deletes.

Every operation is a pure function from state to state plus result.
`CacheResource` and `TryReadFileFromLocalCache` start with `Load`, as
`cacheResource` and `tryReadFileFromLocalCache` start with `loadEntries()`; the
constructors load once, and eviction and reconciliation work on the index in memory. The clock
(`DateTime.UtcNow`) is an integer parameter in `DateTime` ticks of 100 ns. The name
`Guid.NewGuid` would produce is a `freshName` parameter. Lemmas about a new URL
assume that name is `Unused`: it is neither a stored file nor the file of an
entry. The HTTP exchange is the abstract outcome `Ok(body) | TransportFailure`.

The prefetch controller is the counter `CurrentSize` with block size 10 and
division factor 2. It threads the cache through its fetches. What the world answers
for the item at position `i` is fixed by an `Env`: the transport outcome, the
clock reading and the GUID for that position.

Modules: `Wrappers` (Option), `Strings` (ordinal `IndexOf`, `EndsWith`,
`Remove`), `Encoding` (`GetBytes`/`GetString`), `CacheService` (state and
operations), `CacheProperties` (invariants and lemmas), `IncrementalDownload`.

Three behaviours of the code that a reader might expect otherwise, modelled as written:

- Reconciliation deletes unindexed files but never removes index entries whose
  file is missing (see Findings).
- `CurrentSize` always advances by the whole block.
- A failed item yields `null` bytes rather than an error value.

## Model

| member | source | states |
|---|---|---|
| Strings.IndexOf | DownloadCache/CacheService.cs:143 | the result is the first position where the pattern occurs, or none exactly when it occurs nowhere |
| Strings.IndexOfFrom | DownloadCache/CacheService.cs:143 | first occurrence at or after a start position; no occurrence between the start and the result |
| Strings.EndsWith | DownloadCache/CacheService.cs:163 | ordinal `String.EndsWith`: holds iff the suffix is no longer than the text and matches its last characters one by one |
| Strings.Remove | DownloadCache/CacheService.cs:146 | `String.Remove(start, count)` keeps the text before `start` and after `start + count` |
| Encoding.GetBytes | DownloadCache/CacheService.cs:466-471 | twice as many bytes as code units; code unit `i` becomes bytes `2i` (low) and `2i+1` (high) |
| Encoding.Units | DownloadCache/CacheService.cs:479-484 | half as many code units as bytes, each rebuilt from its low and high byte |
| Encoding.GetString | DownloadCache/CacheService.cs:479-484 | defined exactly for even byte counts; odd counts make the block copy throw |
| Encoding.GetStringOfGetBytes | DownloadCache/CacheService.cs:466-484 | `GetString(GetBytes(s)) == s` for every text |
| Encoding.GetBytesOfGetString | DownloadCache/CacheService.cs:466-484 | for an even byte count, `GetBytes(GetString(b)) == b` |
| CacheService.Load | DownloadCache/CacheService.cs:193-211 | an existing index file replaces the in-memory index; otherwise the index is kept; storage untouched |
| CacheService.Save | DownloadCache/CacheService.cs:216-229 | the index file now holds exactly the in-memory index, so loading it back changes nothing; index, files and persistent names unchanged |
| CacheService.CacheResource | DownloadCache/CacheService.cs:275-319 | after reloading: `url` is indexed with both timestamps `now`; a known URL keeps its file name and a new one gets the fresh name; the file holds the bytes; other entries and files unchanged; index file equals the index |
| CacheService.GetStringWithPrefix | DownloadCache/CacheService.cs:474-477 | the key is `"kf_id_"` followed by the identifier |
| CacheService.CacheObjectList | DownloadCache/CacheService.cs:328-338 | the list's key is indexed and its file decodes back to the JSON text; as `cacheResource` under that key: both timestamps are `now`, a known key keeps its file name and a new one gets the fresh name, the index gains only that key, no other entry changes, no other file is added or changed, and the index is saved |
| CacheService.TryReadFileFromLocalCache | DownloadCache/CacheService.cs:356-388 | `ok` iff the URL is indexed; a miss writes nothing and returns null; a hit updates only that entry's last-access time, saves the index, and returns the file's bytes, or null if the file is missing |
| CacheService.CheckForOldFiles | DownloadCache/CacheService.cs:94-127 | removes exactly the entries with `now - downloaded > 3 days` and deletes exactly their files; survivors unchanged; index file not written |
| CacheService.NormalizePath | DownloadCache/CacheService.cs:136-147 | removes the first occurrence of the native root plus `/`; a path without it is kept |
| CacheService.CheckForUnindexedFiles | DownloadCache/CacheService.cs:132-172 | a stored file is deleted iff some listed path normalizes to it, no entry references it, and it ends with no persistent name; nothing else changes |
| CacheService.PersistentFiles | DownloadCache/CacheService.cs:61-64 | the persistent names are the index file name, plus the credential file name when given |
| CacheService.Init | DownloadCache/CacheService.cs:56-88 | the persistent names are exactly the index file name plus the credential file name when given; the saved index equals the in-memory one; survivors are exactly the loaded entries that are not stale; a stored file survives iff it is not a listed orphan of the loaded index and no stale entry references it, and surviving files keep their bytes |
| CacheService.MakeRequest | DownloadCache/CacheService.cs:401-464 | on success the full body goes to the success action, and it is stored under the URI iff `cache`; on transport failure the cached bytes are served iff indexed and stored, the error path runs iff not indexed, and no file changes; with caching on, a success is exactly `cacheResource`; a transport failure on an unindexed URI only reloads, and on an indexed one stamps its last access and saves the index |
| CacheService.MakeRequestGuarded | DownloadCache/CacheService.cs:440-457 | corrected fallback: never faults; on transport failure the error path runs iff there is no readable cached copy; otherwise as written |
| CacheProperties.CacheResourceKeepsValid | DownloadCache/CacheService.cs:285-315 | keys match sources, every entry's file exists, entries have distinct files, and the index file is in sync; stored files stay indexed or persistent; timestamps stay ordered |
| CacheProperties.CacheKnownUrl | DownloadCache/CacheService.cs:290-297 | caching an indexed URL keeps its file name and the entry and file counts, and replaces the bytes |
| CacheProperties.CacheNewUrl | DownloadCache/CacheService.cs:299-312 | caching a new URL adds exactly one entry and one file under the fresh name; nothing else changes |
| CacheProperties.OverwriteKeepsIdentity | DownloadCache/CacheService.cs:290-312 | two writes to one URL leave one entry with the first file name, and the file holds the second bytes |
| CacheProperties.ObjectListReadBack | DownloadCache/CacheService.cs:328-384 | a cached object list read back through its key decodes to its JSON text |
| CacheProperties.PrefixInjective | DownloadCache/CacheService.cs:474-477 | distinct identifiers give distinct keys |
| CacheProperties.UrlsAreNotObjectListKeys | DownloadCache/CacheService.cs:46 | no `http…` URL is an object-list key |
| CacheProperties.TryReadKeepsValid | DownloadCache/CacheService.cs:356-388 | a read keeps the cache consistent and tidy, and keeps timestamps ordered when the clock does not run backwards |
| CacheProperties.TryReadHit | DownloadCache/CacheService.cs:362-378 | on a hit, the read returns the file's bytes and changes only that entry's last-access time |
| CacheProperties.CheckForOldFilesKeepsValid | DownloadCache/CacheService.cs:94-106 | eviction keeps the cache consistent and tidy, and leaves only entries within 3 days |
| CacheProperties.EvictionBoundary | DownloadCache/CacheService.cs:97 | an entry exactly 3 days old is kept; one tick older, it is evicted with its file |
| CacheProperties.ReconcileKeepsProtected | DownloadCache/CacheService.cs:157-170 | reconciliation never deletes a referenced file, nor one ending with a persistent name |
| CacheProperties.ReconcileKeepsEntries | DownloadCache/CacheService.cs:150-170 | every entry's file still exists after reconciliation |
| CacheProperties.ReconcileMakesTidy | DownloadCache/CacheService.cs:132-172 | when the listing shows every stored file, only referenced or persistent files remain |
| CacheProperties.NormalizeWithoutSlash | DownloadCache/CacheService.cs:136-147 | a name without `/` is left unchanged by normalization |
| CacheProperties.InitIsValid | DownloadCache/CacheService.cs:56-88 | construction over sound storage gives a consistent cache with no stale entry; with a full listing, every file is referenced or persistent |
| CacheProperties.NormalizeNativePath | DownloadCache/CacheService.cs:136-147 | a listed path made of the native root, `/` and a name normalizes to the name |
| CacheProperties.ReconcileScenario | DownloadCache/CacheService.cs:73-88 | with files `_cacheindex.txt`, `credentials.json` (persistent) and `orphan123`, listed under the native root, only `orphan123` is deleted |
| CacheProperties.MakeRequestKeepsValid | DownloadCache/CacheService.cs:401-464 | a request keeps the cache consistent and tidy |
| CacheProperties.FailureIgnoresCacheFlag | DownloadCache/CacheService.cs:440-457 | on transport failure, the `cache` flag makes no difference |
| CacheProperties.FallbackServesCachedCopy | DownloadCache/CacheService.cs:421-449 | after caching, a transport failure serves the cached bytes with the download time kept and the access time updated; an unindexed URL fails |
| CacheProperties.FallbackScenario | DownloadCache/CacheService.cs:401-464 | cache `[1,2,3]` for `https://x/a.png`; with the network down, the same bytes come back |
| CacheProperties.DanglingEntrySurvivesInit | DownloadCache/CacheService.cs:56-71 | construction keeps an index entry whose file is missing |
| CacheProperties.DanglingEntryFaults | DownloadCache/CacheService.cs:444-449 | for such an entry, `makeRequest` as written faults on transport failure; the corrected one fails cleanly |
| IncrementalDownload.New | DownloadCache/IncrementalDownload.cs:41-46 | a new controller has `CurrentSize = 0`; the block size is 10 and the division factor 2 |
| IncrementalDownload.LoadBytes | DownloadCache/IncrementalDownload.cs:115-133 | bytes are present iff the exchange succeeded or a stored copy exists; on success they are the body; on fallback they are the cached file; otherwise null; a successful item is stored in the cache under its URL |
| IncrementalDownload.LoadBytesAsWritten | DownloadCache/IncrementalDownload.cs:119-132 | the item equals what the request as written yields, since every exception ends in null |
| IncrementalDownload.FetchRange | DownloadCache/IncrementalDownload.cs:62-73 | one pair per position in `[i, hi)` inside the list, in increasing order; a successful exchange gives the body |
| IncrementalDownload.FillStream | DownloadCache/IncrementalDownload.cs:56-79 | pairs are exactly positions `CurrentSize, CurrentSize+1, …` up to 10 or the list's end; `CurrentSize` grows by 10 even when fewer items existed |
| IncrementalDownload.TryLoadByteVector | DownloadCache/IncrementalDownload.cs:90-105 | fetches iff `index >= CurrentSize / 2`; then `loadAction` receives FillStream's pairs in order; otherwise nothing changes and `loadAction` is never called |
| IncrementalDownload.ScrollFetchesEveryFifth | DownloadCache/IncrementalDownload.cs:75-92 | showing positions 0, 1, 2, … fetches exactly at 0, 5, 10, 15, …; after n positions `CurrentSize = 10·⌈n/5⌉` |
| IncrementalDownload.OfflineBlockYieldsNulls | DownloadCache/IncrementalDownload.cs:62-73 | offline with nothing cached, every position of the window still yields a `(i, null)` pair |
| IncrementalDownload.OfflineRangeYieldsNulls | DownloadCache/IncrementalDownload.cs:119-132 | failed, uncached fetches yield null and leave the index unchanged |
| IncrementalDownload.MakeRequestKeepsUnused | DownloadCache/CacheService.cs:285-312 | a request uses no name but its own fresh name |
| IncrementalDownload.FetchRangeKeepsValid | DownloadCache/IncrementalDownload.cs:62-73 | fetching a block with fresh, distinct GUIDs keeps the cache consistent and tidy |
| IncrementalDownload.FetchStep | DownloadCache/IncrementalDownload.cs:119-128 | one cached fetch with fresh names keeps the cache consistent, drops no indexed URL, and leaves the remaining names fresh |
| IncrementalDownload.FetchRangeKeepsKeys | DownloadCache/IncrementalDownload.cs:62-73 | a block never drops an indexed URL |
| IncrementalDownload.FetchRangeCaches | DownloadCache/IncrementalDownload.cs:62-73 | every item of a block whose exchange succeeds is indexed under its URL, with its file stored, in the cache the block leaves |
| IncrementalDownload.FillStreamCaches | DownloadCache/IncrementalDownload.cs:56-79 | `FillStream` keeps every indexed URL, and every successfully fetched position of its window ends up cached |
| IncrementalDownload.TryLoadByteVectorKeepsValid | DownloadCache/IncrementalDownload.cs:90-105 | the controller keeps the cache consistent and tidy |

## Left out

- `Upload/AzureUploader.cs`: blob upload through the Azure SDK, SAS credentials and a remote insert. It is network plumbing over libraries not in view.
- `DownloadCacheAttribute` and `cachePropertiesFromObject` (DownloadCache/CacheService.cs:237-268): discovery of cacheable properties by reflection.
- `GetJson` and the stream handling of `HttpWebRequest`/`WebResponse`: real HTTP I/O. Only the outcome `Ok(body) | TransportFailure` is modelled. `TransportFailure` stands for any `WebException`, including HTTP error statuses.
- JSON (de)serialization and `deserializeObjectListFromBytes`: a foreign library. The index file holds the in-memory map itself, and an object list is given as its JSON text.
- `ToDictionary` throwing on duplicate sources in a corrupt index file: the index file is a map.
- The `Init` singleton, async/await and concurrent read-modify-write races: the model is sequential. The cache state is passed explicitly rather than shared.
- Logging, and failures of the storage plugin (a throwing `WriteFile`, `DeleteFile` or `TryReadBinaryFile`). Deleting a missing file is a no-op.
- Culture-sensitive comparison: `IndexOf` and `EndsWith` are modelled ordinally.
- `Uri` canonicalization: the request URI string is a parameter. `WebRequest.Create` rejecting a malformed URL is not modelled.
- `GetFilesIn("")` and `NativePath("")` are parameters. Their agreement with the stored files is the `Covers` hypothesis.
- Storage names form one flat key space: a listed path that does not contain the native root plus `/` is kept whole and names no stored file, so deleting it does nothing. A file store that resolved such a path against its root could delete an indexed file through it; `ReconcileKeepsProtected` does not cover that store, whose behaviour is not part of this model.
- Text: URLs, keys and file names are Dafny strings, sequences of Unicode scalar values, while C# strings are UTF-16 code units (the `Utf16` type used for the JSON text of object lists). The two notions are not related; comparisons and suffix tests are modelled on scalar values.
- IncrementalDownload.Controller: `CurrentSize` is a `nat`. Negative values set through the public setter are not modelled, and neither is 32-bit overflow after about 2^31 / 10 blocks.
- CacheService.CacheResource: one clock reading `now` stamps both times. The code reads `DateTime.UtcNow` twice (DownloadCache/CacheService.cs:285), so the last-access time can be a tick later than the download time; the order between them is the same.
- `getUrl` is applied to the list beforehand: the controller receives the list of URLs.
- IncrementalDownload.FetchRange: the contract fixes the bytes only for successful exchanges, because on failure they depend on the cache left by earlier fetches. `LoadBytes` and `OfflineRangeYieldsNulls` state the failure side.
- CacheService.Init: the contract states consistency only for a sound index file. `InitIsValid` assumes its entries have distinct, stored files, which the code does not check.

## Findings

| source | as written | input that shows it | evidently intended | confidence | as-written member | corrected member |
|---|---|---|---|---|---|---|
| DownloadCache/CacheService.cs:444-449 | the fallback trusts `ok` and wraps the file content in a `MemoryStream`, but `ok` only says the URL is indexed; a missing file gives `null` content | an index file with an entry for `https://x/a.png` whose file `0f` is not stored; construction keeps it; then a transport failure on that URL | treat a missing file as a miss, so `errorAction` runs and the `WebException` is rethrown | medium, not executed | CacheProperties.DanglingEntryFaults | CacheService.MakeRequestGuarded |

`IncrementalDownload.LoadBytes` uses the corrected request. `LoadBytesAsWritten` proves its result is the same as with the request as written.
