# Two-tier image cache of iOS-Caching, modelled in Dafny

The model covers the image cache of the iOS-Caching app. It has two parts.

- **`DiscardableImage`** is one memory-cache entry. It holds an optional image payload and an access counter. It implements the four calls of the discardable-content protocol: begin access, end access, discard if possible, and is discarded.
- **`ImageCache`** serves `setImage`, `getImage` and `removeImage` over two tiers. The tiers are chosen per call by a `CachePolicy` (`memory`, `disk` or `memoryAndDisk`):
  - The memory tier is an `NSCache` of entries. Here it is a `map<string, DiscardableImage>` of objects, whose states change in place.
  - The disk tier is one file per key under `<caches>/ImageCache/`. Here it is a `map<string, seq<byte>>`.

The project is built in layers:

- `discardable.dfy` gives the entry protocol twice:
  - as transition functions on an `EntryState` value (`Begin`, `End`, `DiscardIfPossible`, replayed over a call sequence by `RunAccesses`);
  - as the class `DiscardableImage`, whose methods update `image` and `accessCount` in place. Each method's postcondition ties its new state to the matching transition.
- `cache_model.dfy` gives the cache as a function on a `Store` value (entry states by key, and file bytes by key):
  - `Lookup` is `getImage`.
  - `Apply` covers every public operation and two memory-pressure events. In the first, the system asks an entry to discard its content. In the second, `NSCache` evicts a key.
  - `RunActions` replays any sequence of those actions.
- `cache_properties.dfy` proves what each operation does to the tiers, and what holds along every sequence of actions.
- `image_cache.dfy` is the class `ImageCache`. Each of its methods is proved to move the abstract view `View()` exactly as `Apply` or `Lookup` says. Its invariant makes three promises: the cache directory exists, every entry's counter is non-negative, and no two keys share one entry object.
- `client.dfy` models the cache-facing part of `NetworkService.downloadImage`:
  1. ask the memory tier;
  2. then ask the disk tier, and copy a disk hit into memory;
  3. on a total miss, return what the network delivered. If it delivered an image, store it in memory, and on disk when encoding and the write succeed. If it delivered nil, store nothing.

JPEG encoding and `UIImage(data:)` decoding are uninterpreted functions held in a `Codec`. Encoding, the file write and decoding each take a success flag. File removal has no flag: it always succeeds (see "Left out"). The network result is a parameter.

Some of the code's behaviour is surprising given the policy names and Apple's `NSDiscardableContent` rule. That rule says every successful `beginContentAccess` must be balanced by an `endContentAccess`. The model does what the code does:

- `getImage(.memory)` falls through to the disk on a miss or a dead entry. It never copies a disk hit into memory.
- `getImage(.memoryAndDisk)` always returns nil and changes nothing, although the policy's name suggests it reads both tiers (`CombinedLookupNeverPromotes`).
- `removeImage(.memoryAndDisk)` does nothing, although the policy's name suggests it clears both tiers (`RemoveOutcome`).
- A live memory hit calls `beginContentAccess`, and nothing in the cache ever calls `endContentAccess`. So the calls are never balanced: an entry that was hit once can never be discarded under memory pressure (`HitPinsEntry`).
- `downloadImage`'s step that copies a disk hit into memory cannot be reached when decoding behaves the same on both reads. The memory-policy lookup already falls through to the disk and returns the disk hit directly (`DiskHitIsNotPromoted`, `PromotionBranchUnreachable`).

## Model

| member | source | states |
|---|---|---|
| Discardable.DiscardableImage.constructor | iOS-Caching/Data/DiscardableImage.swift:14-17 | a new entry holds the given image with an access count of 0 |
| Discardable.DiscardableImage.BeginContentAccess | iOS-Caching/Data/DiscardableImage.swift:20-26 | returns false exactly when the image is nil, and then changes nothing; otherwise the count rises by one and the image stays |
| Discardable.DiscardableImage.EndContentAccess | iOS-Caching/Data/DiscardableImage.swift:28-32 | the count drops by one when positive and stays 0 at 0, so it never goes negative; the image is untouched |
| Discardable.DiscardableImage.DiscardContentIfPossible | iOS-Caching/Data/DiscardableImage.swift:35-39 | the image becomes nil exactly when the count is 0; otherwise nothing changes |
| Discardable.DiscardableImage.IsContentDiscarded | iOS-Caching/Data/DiscardableImage.swift:41-43 | true exactly when the image is nil |
| Discardable.RunAccesses | iOS-Caching/Data/DiscardableImage.swift:20-39 | the access count stays non-negative along every sequence of protocol calls |
| Discardable.PayloadOnlyDisappears | iOS-Caching/Data/DiscardableImage.swift:11-39 | along any sequence of calls the image is either the original one or nil; once nil it stays nil |
| Discardable.OutstandingAccessKeepsPayload | iOS-Caching/Data/DiscardableImage.swift:20-39 | an entry with more outstanding accesses than later end calls keeps its image through any sequence of calls |
| Discardable.DiscardIsIdempotent | iOS-Caching/Data/DiscardableImage.swift:35-39 | discarding twice has the effect of discarding once |
| Discardable.UnmatchedBeginBlocksDiscard | iOS-Caching/Data/DiscardableImage.swift:14-39 | after an unmatched begin a discard keeps the image; after the matching end a discard drops it, and a later begin fails |
| CacheModel.Lookup | iOS-Caching/Data/ImageCache.swift:59-86 | getImage never writes the disk, never adds a memory key, and leaves every other key's memory entry as it was (present or absent); the combined policy returns nil and changes nothing; a returned image is the memory entry's payload or the decoding of the key's file |
| CacheModel.Apply | iOS-Caching/Data/ImageCache.swift:37-98 | every operation and every memory-pressure event leaves every other key unchanged in both tiers, and keeps every counter non-negative |
| CacheModel.RunActions | iOS-Caching/Data/ImageCache.swift:37-98 | every counter stays non-negative along any sequence of operations and memory-pressure events |
| CacheProperties.SetImageMemoryOutcome | iOS-Caching/Data/ImageCache.swift:42-46 | setImage with a memory-targeting policy stores a fresh live entry (count 0) holding the image; with the disk policy memory is unchanged |
| CacheProperties.SetImageDiskOutcome | iOS-Caching/Data/ImageCache.swift:47-56 | setImage writes the JPEG bytes to the key's file only for a disk-targeting policy whose encoding and write both succeed; otherwise the file is unchanged and no error is raised |
| CacheProperties.SetThenGetFromMemory | iOS-Caching/Data/ImageCache.swift:37-69 | after a memory-targeting set, a memory-policy get returns that image |
| CacheProperties.SetThenGetFromDisk | iOS-Caching/Data/ImageCache.swift:47-82 | after a successful disk-targeting set, a disk-policy get returns the decoding of the encoded image |
| CacheProperties.LiveHitTakesAccess | iOS-Caching/Data/ImageCache.swift:66-69 | a live memory hit returns the entry's image, raises its count by one and changes nothing else |
| CacheProperties.MemoryMissFallsThroughToDisk | iOS-Caching/Data/ImageCache.swift:66-82 | a memory miss or a dead entry drops the key from memory and answers with the disk read, without promotion |
| CacheProperties.StaleEntryIsRemoved | iOS-Caching/Data/ImageCache.swift:66-84 | an entry discarded at count 0 with no file behind it yields nil, and its key is gone from memory |
| CacheProperties.DiskLookupChangesNothing | iOS-Caching/Data/ImageCache.swift:76-82 | a disk-policy get returns the decoded file or nil and changes neither tier |
| CacheProperties.CombinedLookupNeverPromotes | iOS-Caching/Data/ImageCache.swift:83-84 | after a disk-only set, a combined-policy get returns nil and leaves the key out of memory |
| CacheProperties.RemoveOutcome | iOS-Caching/Data/ImageCache.swift:88-98 | the memory policy removes only the memory entry, the disk policy only the file, and the combined policy nothing |
| CacheProperties.RemoveIsIdempotent | iOS-Caching/Data/ImageCache.swift:88-98 | removing twice equals removing once, for every policy and whether or not the key is present |
| CacheProperties.DiskIsDurable | iOS-Caching/Data/ImageCache.swift:37-98 | only a disk-targeting set or a disk remove of a key changes its file; gets, memory operations and memory pressure never do |
| CacheProperties.OnlySetCreatesMemoryEntries | iOS-Caching/Data/ImageCache.swift:37-98 | along any sequence of actions, a memory entry appears only through a memory-targeting set; no get promotes |
| CacheProperties.PinnedEntrySurvives | iOS-Caching/Data/ImageCache.swift:59-98 | an entry with an outstanding access keeps its image, and its count never falls, until its key is replaced, removed from memory or evicted |
| CacheProperties.HitPinsEntry | iOS-Caching/Data/ImageCache.swift:66-69 | after a live memory hit, no later discard drops that image as long as the key is not replaced, removed from memory or evicted |
| Cache.ImageCache.constructor | iOS-Caching/Data/ImageCache.swift:15-35 | the cache directory exists, memory is empty, and the disk tier holds the files already persisted |
| Cache.ImageCache.SetImage | iOS-Caching/Data/ImageCache.swift:37-57 | stores a fresh entry under the key for a memory-targeting policy, writes the encoding for a disk-targeting policy when encoding and write succeed, and moves the view as the model's set |
| Cache.ImageCache.StoreEntry | iOS-Caching/Data/ImageCache.swift:45 | `memoryCache.setObject`: the new entry answers for the key and every other entry is kept |
| Cache.ImageCache.WriteFile | iOS-Caching/Data/ImageCache.swift:51 | a successful `data.write`: the key's file holds the bytes and nothing else changes |
| Cache.ImageCache.ReadDisk | iOS-Caching/Data/ImageCache.swift:77-81 | the decoded contents of the key's file, or nil when the file is missing or does not read or decode |
| Cache.ImageCache.GetImage | iOS-Caching/Data/ImageCache.swift:59-86 | returns and updates the store as the model's lookup, never writes the disk, and keeps only existing entry objects |
| Cache.ImageCache.RemoveImage | iOS-Caching/Data/ImageCache.swift:88-98 | removes the memory entry for the memory policy, the file for the disk policy, and nothing for the combined policy |
| Cache.ImageCache.SystemDiscard | iOS-Caching/Data/ImageCache.swift:11 | memory pressure asks the key's entry to discard its content; only that entry's state changes |
| Cache.ImageCache.SystemEvict | iOS-Caching/Data/ImageCache.swift:11 | NSCache drops the key's entry; the files are untouched |
| Client.Download | iOS-Caching/Data/NetworkService.swift:43-88 | a hit on the memory-policy lookup is the answer with that lookup's store; a hit on the disk-policy lookup is the answer and is stored in memory as a fresh entry; on a total miss the fetched image is the answer, is stored fresh in memory and is written to disk exactly when encoding and write succeed; when the network delivered nothing too, the answer is nil and the store is the lookups' store; the files change only by that write; no other key changes in either tier |
| Client.DiskHitIsNotPromoted | iOS-Caching/Data/NetworkService.swift:49-68 | a disk hit with no memory entry is answered by the first, memory-policy lookup and is not copied into memory |
| Client.PromotionBranchUnreachable | iOS-Caching/Data/NetworkService.swift:49-85 | with consistent decoding, the key's memory entry after the download is either the live entry already there, with its image, or a fresh entry for a freshly fetched image |
| Client.DownloadImage | iOS-Caching/Data/NetworkService.swift:43-88 | calls the cache in the source's order and leaves it exactly as the model's download path says |

## Left out

- The view layer (view controllers, cells, view model), the `Photo` record and the JSON `fetch` of `NetworkService`: UI and network glue with no cache logic.
- The network request of `downloadImage`: it is a parameter, the image it delivered or nil. Its asynchronous completion is a return value. The cache key derivation from the URL's last path segment is left out; keys are opaque strings.
- `ImageCache.init`'s lookup and creation of the caches directory, and its `fatalError`: taken as the postcondition that the directory exists.
- JPEG encoding and image decoding: uninterpreted functions with success flags. Nothing is claimed about whether decoding an encoding gives back the original image. A read error other than a missing file is folded into the decode flag.
- `NSCache` internals (cost and count limits, which key it evicts and when, its locking): eviction and memory-pressure discard are explicit actions that may happen to any key.
- Concurrency between the system's reclamation and readers: the model is sequential. Interleavings appear only as memory-pressure actions between operations.
- Path handling of keys (`appendingPathComponent` in `setImage`, `appending(path:)` in `getImage` and `removeImage`): a key names its file verbatim. Two kinds of key are not modelled: keys with a path separator, and keys that name the cache directory itself or its parent (`""`, `"."`, `".."`). `downloadImage` produces `""` for a URL whose path is empty or `/`. For such keys, `removeImage(.disk)` deletes the whole directory or its parent, and later writes fail.
- RemoveOutcome: holds only for keys that name a file. For `""`, `"."` or `".."` the code removes every file, not just the key's.
- DiskIsDurable: holds only for keys that name a file, and only within a run of the app. The system may purge the caches directory outside any cache call, and the model has no action for that.
- Cache.ImageCache.RemoveImage: a disk remove always deletes the key's file. `try? removeItem` can fail on a file that exists and leave it in place. There is no success flag for that. Keys that name a directory are not modelled either, so the invariant's `diskRootExists` stays true, although in the code removing the key `""` or `".."` deletes the directory.
- SetImageDiskOutcome: a failed write leaves the old bytes. `data.write(to:)` is not atomic, so a write that fails partway can leave a truncated file instead.
- Discardable.DiscardableImage.BeginContentAccess: the count is an unbounded integer. Swift's `accessCount += 1` traps on `Int` overflow, which the model does not capture.
- The `print` of a failed disk write: a log line with no effect on state.
