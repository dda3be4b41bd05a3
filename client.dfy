/**
 * The cache-facing part of the image download path
 * (iOS-Caching/Data/NetworkService.swift, downloadImage): ask the memory
 * tier, then the disk tier and copy a disk hit into memory, and on a total
 * miss store what the network delivered in both tiers. The network request
 * itself is a parameter: the image it delivered, or nil.
 */
module Client {
  import opened Wrappers
  import opened Media
  import opened Discardable
  import opened CacheModel
  import opened Cache

  /** The image handed to the completion, and the store afterwards. */
  function Download(s: Store, codec: Codec, key: string, decodeFirst: bool, decodeSecond: bool,
                    fetched: Option<Image>, encodeOk: bool, writeOk: bool): (r: (Option<Image>, Store))
    // A hit on the first, memory-policy lookup is the answer, with that lookup's store.
    ensures Lookup(s, codec, key, Memory, decodeFirst).0.Some? ==> r == Lookup(s, codec, key, Memory, decodeFirst)
    // A hit on the second, disk-policy lookup is the answer and is stored in memory as a fresh entry.
    ensures var (first, s1) := Lookup(s, codec, key, Memory, decodeFirst);
      var second := Lookup(s1, codec, key, Disk, decodeSecond).0;
      first.None? && second.Some? ==>
        r.0 == second && MemoryAt(r.1, key) == Some(Fresh(second.value)) && r.1.disk == s.disk
    // On a total miss the fetched image is the answer, is stored in memory, and is written to disk
    // exactly when encoding and the write succeed.
    ensures var (first, s1) := Lookup(s, codec, key, Memory, decodeFirst);
      var second := Lookup(s1, codec, key, Disk, decodeSecond).0;
      first.None? && second.None? && fetched.Some? ==>
        r.0 == fetched && MemoryAt(r.1, key) == Some(Fresh(fetched.value)) &&
        DiskAt(r.1, key) == (if encodeOk && writeOk then Some(codec.jpegData(fetched.value)) else DiskAt(s, key))
    ensures r.1.disk == s.disk || (fetched.Some? && encodeOk && writeOk && r.1.disk == s.disk[key := codec.jpegData(fetched.value)])
    ensures r.0.None? ==> fetched.None?
    // When the network delivered nothing either, the answer is nil and the store is the lookups' store.
    ensures var (first, s1) := Lookup(s, codec, key, Memory, decodeFirst);
      var second := Lookup(s1, codec, key, Disk, decodeSecond).0;
      first.None? && second.None? && fetched.None? ==> r == (None, s1)
    // Only the requested key is touched, in either tier.
    ensures forall k :: k != key ==> MemoryAt(r.1, k) == MemoryAt(s, k) && DiskAt(r.1, k) == DiskAt(s, k)
  {
    var (cached, s1) := Lookup(s, codec, key, Memory, decodeFirst);
    if cached.Some? then (cached, s1)
    else
      var (onDisk, s2) := Lookup(s1, codec, key, Disk, decodeSecond);
      if onDisk.Some? then (onDisk, Apply(s2, codec, SetCall(key, onDisk.value, Memory, true, true)))
      else if fetched.Some? then (fetched, Apply(s2, codec, SetCall(key, fetched.value, MemoryAndDisk, encodeOk, writeOk)))
      else (None, s2)
  }

  /**
   * With decoding that behaves the same on both reads, a disk hit is
   * answered by the first, memory-policy lookup (which falls through to
   * disk), so it is returned without ever being copied into memory.
   */
  lemma DiskHitIsNotPromoted(s: Store, codec: Codec, key: string, fetched: Option<Image>, encodeOk: bool, writeOk: bool)
    requires key !in s.memory
    requires key in s.disk
    ensures var r := Download(s, codec, key, true, true, fetched, encodeOk, writeOk);
      r.0 == Some(codec.decode(s.disk[key])) && r.1 == s
  {
  }

  /**
   * With consistent decoding the promoting branch is dead: after the
   * download path, the key's memory entry is either the live entry that was
   * already there, still holding its image, or a fresh entry for a freshly
   * fetched image.
   */
  lemma PromotionBranchUnreachable(s: Store, codec: Codec, key: string, decodeOk: bool,
                                   fetched: Option<Image>, encodeOk: bool, writeOk: bool)
    ensures var r := Download(s, codec, key, decodeOk, decodeOk, fetched, encodeOk, writeOk);
      key in r.1.memory ==>
        (key in s.memory && !s.memory[key].Discarded() && r.1.memory[key].image == s.memory[key].image) ||
        (fetched.Some? && r.1.memory[key] == Fresh(fetched.value))
  {
  }

  method DownloadImage(cache: ImageCache, key: string, decodeFirst: bool, decodeSecond: bool,
                       fetched: Option<Image>, encodeOk: bool, writeOk: bool) returns (r: Option<Image>)
    requires cache.Valid()
    modifies cache, cache.memory.Values
    ensures cache.Valid()
    ensures (r, cache.View()) ==
      Download(old(cache.View()), cache.codec, key, decodeFirst, decodeSecond, fetched, encodeOk, writeOk)
  {
    r := cache.GetImage(key, Memory, decodeFirst);
    if r.Some? {
      return;
    }
    r := cache.GetImage(key, Disk, decodeSecond);
    if r.Some? {
      cache.SetImage(r.value, key, Memory, true, true);
      return;
    }
    if fetched.Some? {
      cache.SetImage(fetched.value, key, MemoryAndDisk, encodeOk, writeOk);
    }
    r := fetched;
  }
}
