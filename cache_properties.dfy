/**
 * Properties of the cache transitions: what each operation does to the
 * tiers, and what holds along any sequence of operations and
 * memory-pressure events.
 */
module CacheProperties {
  import opened Wrappers
  import opened Media
  import opened Discardable
  import opened CacheModel

  /** A memory-targeting set stores a fresh live entry; a disk-only set leaves memory alone. */
  lemma SetImageMemoryOutcome(s: Store, codec: Codec, key: string, img: Image, policy: CachePolicy, encodeOk: bool, writeOk: bool)
    ensures MemoryAt(Apply(s, codec, SetCall(key, img, policy, encodeOk, writeOk)), key) ==
      if policy.TargetsMemory() then Some(EntryState(Some(img), 0)) else MemoryAt(s, key)
  {
  }

  /** The file is written only when encoding and the write both succeed; a failure leaves the old file. */
  lemma SetImageDiskOutcome(s: Store, codec: Codec, key: string, img: Image, policy: CachePolicy, encodeOk: bool, writeOk: bool)
    ensures DiskAt(Apply(s, codec, SetCall(key, img, policy, encodeOk, writeOk)), key) ==
      if policy.TargetsDisk() && encodeOk && writeOk then Some(codec.jpegData(img)) else DiskAt(s, key)
  {
  }

  /** A set through the memory tier is read back from memory, whatever happened on disk. */
  lemma SetThenGetFromMemory(s: Store, codec: Codec, key: string, img: Image, policy: CachePolicy, encodeOk: bool, writeOk: bool, decodeOk: bool)
    requires policy.TargetsMemory()
    ensures Lookup(Apply(s, codec, SetCall(key, img, policy, encodeOk, writeOk)), codec, key, Memory, decodeOk).0 == Some(img)
  {
  }

  /** A successful set through the disk tier is read back from disk as the decoding of its encoding. */
  lemma SetThenGetFromDisk(s: Store, codec: Codec, key: string, img: Image, policy: CachePolicy)
    requires policy.TargetsDisk()
    ensures Lookup(Apply(s, codec, SetCall(key, img, policy, true, true)), codec, key, Disk, true).0 ==
      Some(codec.decode(codec.jpegData(img)))
  {
  }

  /** A live memory hit returns the entry's image and takes one access on it, and touches nothing else. */
  lemma LiveHitTakesAccess(s: Store, codec: Codec, key: string, decodeOk: bool)
    requires key in s.memory && !s.memory[key].Discarded()
    ensures Lookup(s, codec, key, Memory, decodeOk).0 == s.memory[key].image
    ensures Lookup(s, codec, key, Memory, decodeOk).1 ==
      s.(memory := s.memory[key := s.memory[key].(accessCount := s.memory[key].accessCount + 1)])
  {
  }

  /** A dead entry or a miss under `Memory` drops the key from memory and answers from disk. */
  lemma MemoryMissFallsThroughToDisk(s: Store, codec: Codec, key: string, decodeOk: bool)
    requires key !in s.memory || s.memory[key].Discarded()
    ensures Lookup(s, codec, key, Memory, decodeOk) ==
      (DiskRead(s.disk, codec, key, decodeOk), s.(memory := s.memory - {key}))
  {
    if key !in s.memory {
      assert s.memory - {key} == s.memory;
    }
  }

  /** A stale entry with no file behind it: nil, and the entry is gone from memory. */
  lemma StaleEntryIsRemoved(s: Store, codec: Codec, key: string, decodeOk: bool)
    requires key in s.memory && s.memory[key].accessCount == 0 && key !in s.disk
    ensures Lookup(Apply(s, codec, SystemDiscard(key)), codec, key, Memory, decodeOk).0 == None
    ensures key !in Lookup(Apply(s, codec, SystemDiscard(key)), codec, key, Memory, decodeOk).1.memory
  {
  }

  /** Disk-only lookups neither change the store nor promote into memory. */
  lemma DiskLookupChangesNothing(s: Store, codec: Codec, key: string, decodeOk: bool)
    ensures Lookup(s, codec, key, Disk, decodeOk) == (DiskRead(s.disk, codec, key, decodeOk), s)
  {
  }

  /**
   * A combined-policy lookup after a disk-only set returns nil and leaves
   * memory as it was: the code performs no promotion on this path.
   */
  lemma CombinedLookupNeverPromotes(s: Store, codec: Codec, key: string, img: Image, decodeOk: bool)
    requires key !in s.memory
    ensures var s1 := Apply(s, codec, SetCall(key, img, Disk, true, true));
      Lookup(s1, codec, key, MemoryAndDisk, decodeOk) == (None, s1) && key !in s1.memory
  {
  }

  /** Each remove policy touches only its own tier; the combined policy touches neither. */
  lemma RemoveOutcome(s: Store, codec: Codec, key: string, policy: CachePolicy)
    ensures MemoryAt(Apply(s, codec, RemoveCall(key, policy)), key) ==
      if policy == Memory then None else MemoryAt(s, key)
    ensures DiskAt(Apply(s, codec, RemoveCall(key, policy)), key) ==
      if policy == Disk then None else DiskAt(s, key)
  {
  }

  /** Removing twice is removing once, for every policy, whether or not the key is present. */
  lemma RemoveIsIdempotent(s: Store, codec: Codec, key: string, policy: CachePolicy)
    ensures Apply(Apply(s, codec, RemoveCall(key, policy)), codec, RemoveCall(key, policy)) ==
      Apply(s, codec, RemoveCall(key, policy))
  {
  }

  /**
   * The disk tier is durable: only a disk-targeting set or a disk remove of
   * `k` changes its file; reads, memory operations and memory pressure never do.
   */
  lemma {:induction false} DiskIsDurable(s: Store, codec: Codec, trace: seq<Action>, k: string)
    requires forall i :: 0 <= i < |trace| ==> !WritesDisk(trace[i], k)
    ensures DiskAt(RunActions(s, codec, trace), k) == DiskAt(s, k)
    decreases |trace|
  {
    if trace != [] {
      var s' := Apply(s, codec, trace[0]);
      assert !WritesDisk(trace[0], k);
      assert DiskAt(s', k) == DiskAt(s, k);
      assert forall i :: 0 <= i < |trace[1..]| ==> trace[1..][i] == trace[i + 1];
      DiskIsDurable(s', codec, trace[1..], k);
    }
  }

  /**
   * Nothing but a memory-targeting set creates a memory entry: in
   * particular no lookup ever copies a disk hit into memory.
   */
  lemma {:induction false} OnlySetCreatesMemoryEntries(s: Store, codec: Codec, trace: seq<Action>, k: string)
    requires k !in s.memory
    requires forall i :: 0 <= i < |trace| ==> !InsertsMemory(trace[i], k)
    ensures k !in RunActions(s, codec, trace).memory
    decreases |trace|
  {
    if trace != [] {
      var s' := Apply(s, codec, trace[0]);
      assert !InsertsMemory(trace[0], k);
      assert MemoryAt(s', k) == None;
      assert forall i :: 0 <= i < |trace[1..]| ==> trace[1..][i] == trace[i + 1];
      OnlySetCreatesMemoryEntries(s', codec, trace[1..], k);
    }
  }

  /**
   * The cache takes accesses but never releases them: a live entry with an
   * outstanding access keeps its image, and its count never falls, until the
   * key is replaced, removed from memory or evicted.
   */
  lemma {:induction false} PinnedEntrySurvives(s: Store, codec: Codec, trace: seq<Action>, k: string)
    requires k in s.memory && s.memory[k].image.Some? && s.memory[k].accessCount > 0
    requires forall i :: 0 <= i < |trace| ==> !ReplacesMemory(trace[i], k)
    ensures k in RunActions(s, codec, trace).memory
    ensures RunActions(s, codec, trace).memory[k].image == s.memory[k].image
    ensures RunActions(s, codec, trace).memory[k].accessCount >= s.memory[k].accessCount
    decreases |trace|
  {
    if trace != [] {
      var s' := Apply(s, codec, trace[0]);
      assert !ReplacesMemory(trace[0], k);
      assert k in s'.memory && s'.memory[k].image == s.memory[k].image;
      assert s'.memory[k].accessCount >= s.memory[k].accessCount;
      assert forall i :: 0 <= i < |trace[1..]| ==> trace[1..][i] == trace[i + 1];
      PinnedEntrySurvives(s', codec, trace[1..], k);
    }
  }

  /**
   * A live memory hit pins its entry for good: since no endContentAccess
   * follows, no later memory-pressure discard can drop that image; only
   * replacing, removing or evicting the key gets rid of it.
   */
  lemma HitPinsEntry(s: Store, codec: Codec, key: string, decodeOk: bool, trace: seq<Action>)
    requires s.Valid()
    requires key in s.memory && !s.memory[key].Discarded()
    requires forall i :: 0 <= i < |trace| ==> !ReplacesMemory(trace[i], key)
    ensures var s1 := Lookup(s, codec, key, Memory, decodeOk).1;
      key in RunActions(s1, codec, trace).memory && RunActions(s1, codec, trace).memory[key].image == s.memory[key].image
  {
    var s1 := Lookup(s, codec, key, Memory, decodeOk).1;
    assert s1.memory[key].accessCount > 0;
    PinnedEntrySurvives(s1, codec, trace, key);
  }
}
