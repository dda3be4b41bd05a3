/**
 * The two-tier image cache (iOS-Caching/Data/ImageCache.swift) as a function
 * on values: a memory store of entry states and a disk store of file bytes,
 * both keyed by the cache key, and every public operation and environment
 * event as a transition of that pair.
 */
module CacheModel {
  import opened Wrappers
  import opened Media
  import opened Discardable

  /** Which tier(s) an operation targets. */
  datatype CachePolicy = Memory | Disk | MemoryAndDisk
  {
    /** setImage writes the memory tier for these policies. */
    predicate TargetsMemory() { this == Memory || this == MemoryAndDisk }

    /** setImage writes the disk tier for these policies. */
    predicate TargetsDisk() { this == Disk || this == MemoryAndDisk }
  }

  /**
   * The platform codecs: JPEG encoding at quality 1.0 and UIImage(data:)
   * decoding. Both are left uninterpreted; whether a call succeeds is a
   * separate flag of each operation.
   */
  datatype Codec = Codec(jpegData: Image -> seq<byte>, decode: seq<byte> -> Image)

  /** Both tiers: memory entries by key, and the file contents under the cache directory by file name. */
  datatype Store = Store(memory: map<string, EntryState>, disk: map<string, seq<byte>>)
  {
    predicate Valid() {
      forall k :: k in memory ==> memory[k].Valid()
    }
  }

  function MemoryAt(s: Store, k: string): Option<EntryState> {
    if k in s.memory then Some(s.memory[k]) else None
  }

  function DiskAt(s: Store, k: string): Option<seq<byte>> {
    if k in s.disk then Some(s.disk[k]) else None
  }

  /** Reading and decoding the file named `key`; a missing file or a failed read/decode is nil. */
  function DiskRead(disk: map<string, seq<byte>>, codec: Codec, key: string, decodeOk: bool): Option<Image> {
    if key in disk && decodeOk then Some(codec.decode(disk[key])) else None
  }

  /**
   * getImage: the returned image and the new store. Under `Memory` a live
   * entry is returned with its counter bumped; a dead entry is removed and the
   * lookup falls through to disk, as does a miss. `MemoryAndDisk` is nil.
   */
  function Lookup(s: Store, codec: Codec, key: string, policy: CachePolicy, decodeOk: bool)
    : (r: (Option<Image>, Store))
    ensures r.1.disk == s.disk
    ensures r.1.memory.Keys <= s.memory.Keys
    ensures forall k :: k != key ==> MemoryAt(r.1, k) == MemoryAt(s, k)
    ensures s.Valid() ==> r.1.Valid()
    ensures policy == MemoryAndDisk ==> r == (None, s)
    ensures r.0.Some? ==>
      (policy == Memory && key in s.memory && r.0 == s.memory[key].image) ||
      (key in s.disk && decodeOk && r.0 == Some(codec.decode(s.disk[key])))
  {
    match policy
    case Memory =>
      if key in s.memory then
        var (ok, e) := Begin(s.memory[key]);
        if ok then (e.image, s.(memory := s.memory[key := e]))
        else (DiskRead(s.disk, codec, key, decodeOk), s.(memory := s.memory - {key}))
      else (DiskRead(s.disk, codec, key, decodeOk), s)
    case Disk => (DiskRead(s.disk, codec, key, decodeOk), s)
    case MemoryAndDisk => (None, s)
  }

  /** What can happen to the cache: its three public operations and the system's memory-pressure events. */
  datatype Action =
    | SetCall(key: string, image: Image, policy: CachePolicy, encodeOk: bool, writeOk: bool)
    | GetCall(key: string, policy: CachePolicy, decodeOk: bool)
    | RemoveCall(key: string, policy: CachePolicy)
    | SystemDiscard(key: string)
    | SystemEvict(key: string)

  /** The store after one action. */
  function Apply(s: Store, codec: Codec, a: Action): (r: Store)
    ensures forall k :: k != a.key ==> MemoryAt(r, k) == MemoryAt(s, k) && DiskAt(r, k) == DiskAt(s, k)
    ensures s.Valid() ==> r.Valid()
  {
    match a
    case SetCall(key, image, policy, encodeOk, writeOk) =>
      Store(
        if policy.TargetsMemory() then s.memory[key := Fresh(image)] else s.memory,
        if policy.TargetsDisk() && encodeOk && writeOk then s.disk[key := codec.jpegData(image)] else s.disk)
    case GetCall(key, policy, decodeOk) => Lookup(s, codec, key, policy, decodeOk).1
    case RemoveCall(key, policy) =>
      (match policy
       case Memory => s.(memory := s.memory - {key})
       case Disk => s.(disk := s.disk - {key})
       case MemoryAndDisk => s)
    case SystemDiscard(key) =>
      if key in s.memory then s.(memory := s.memory[key := DiscardIfPossible(s.memory[key])]) else s
    case SystemEvict(key) => s.(memory := s.memory - {key})
  }

  /** The store after the actions of `trace`, in order. */
  function RunActions(s: Store, codec: Codec, trace: seq<Action>): (r: Store)
    ensures s.Valid() ==> r.Valid()
    decreases |trace|
  {
    if trace == [] then s else RunActions(Apply(s, codec, trace[0]), codec, trace[1..])
  }

  /** The action may write the file of `k` (a disk-targeting set or a disk remove of `k`). */
  predicate WritesDisk(a: Action, k: string) {
    a.key == k && ((a.SetCall? && a.policy.TargetsDisk()) || (a.RemoveCall? && a.policy == Disk))
  }

  /** The action stores a new memory entry for `k`. */
  predicate InsertsMemory(a: Action, k: string) {
    a.SetCall? && a.key == k && a.policy.TargetsMemory()
  }

  /** The action replaces or drops the memory entry of `k` (a memory-targeting set, a memory remove, an eviction). */
  predicate ReplacesMemory(a: Action, k: string) {
    InsertsMemory(a, k) || (a.key == k && ((a.RemoveCall? && a.policy == Memory) || a.SystemEvict?))
  }
}
