/**
 * The cache object (iOS-Caching/Data/ImageCache.swift): a memory store of
 * DiscardableImage objects and the files under the cache directory, both
 * updated in place by setImage, getImage and removeImage.
 */
module Cache {
  import opened Wrappers
  import opened Media
  import opened Discardable
  import opened CacheModel
  import CacheProperties

  class ImageCache {
    /** The NSCache, as a dictionary from key to entry object. */
    var memory: map<string, DiscardableImage>
    /** The files under <caches>/ImageCache/, by file name (the key). */
    var disk: map<string, seq<byte>>
    const codec: Codec
    /**
     * The cache directory was resolved and exists. It only stands for the
     * initializer's postcondition (the initializer aborts otherwise); no
     * operation of the model changes it.
     */
    ghost const diskRootExists: bool

    ghost predicate Valid()
      reads this, memory.Values
    {
      diskRootExists &&
      (forall k :: k in memory ==> memory[k].Valid()) &&
      (forall k, k' :: k in memory && k' in memory && k != k' ==> memory[k] != memory[k'])
    }

    /** Both tiers as values: entry states by key and file contents by key. */
    ghost function View(): Store
      reads this, memory.Values
    {
      Store(map k | k in memory :: memory[k].State(), disk)
    }

    /**
     * A new cache starts with an empty memory store and with whatever files
     * earlier runs left in the cache directory.
     */
    constructor (codec: Codec, persisted: map<string, seq<byte>>)
      ensures Valid()
      ensures memory == map[] && disk == persisted && this.codec == codec
    {
      memory := map[];
      disk := persisted;
      this.codec := codec;
      diskRootExists := true;
    }

    method SetImage(image: Image, key: string, policy: CachePolicy, encodeOk: bool, writeOk: bool)
      requires Valid()
      modifies this
      ensures Valid()
      ensures policy.TargetsMemory() ==>
        key in memory && fresh(memory[key]) && memory == old(memory)[key := memory[key]] &&
        memory[key].State() == Fresh(image)
      ensures !policy.TargetsMemory() ==> memory == old(memory)
      ensures disk == if policy.TargetsDisk() && encodeOk && writeOk
                      then old(disk)[key := codec.jpegData(image)] else old(disk)
      ensures View() == Apply(old(View()), codec, SetCall(key, image, policy, encodeOk, writeOk))
    {
      var entry := new DiscardableImage(image);
      if policy == Memory || policy == MemoryAndDisk {
        StoreEntry(key, entry);
      }
      if policy == Disk || policy == MemoryAndDisk {
        if encodeOk {
          var data := codec.jpegData(image);
          if writeOk {
            WriteFile(key, data);
          }
        }
      }
    }

    /** memoryCache.setObject: the entry, not yet in the cache, now answers for `key`. */
    method StoreEntry(key: string, entry: DiscardableImage)
      requires Valid() && entry.Valid()
      requires forall k :: k in memory ==> memory[k] != entry
      modifies this
      ensures Valid()
      ensures memory == old(memory)[key := entry] && disk == old(disk)
      ensures View() == old(View()).(memory := old(View()).memory[key := entry.State()])
    {
      ghost var before := View();
      memory := memory[key := entry];
      forall k | k in memory
        ensures memory[k].State() == before.memory[key := entry.State()][k]
      {
      }
      assert View().memory == before.memory[key := entry.State()];
    }

    /** data.write(to:) that succeeded: the file named `key` now holds `data`. */
    method WriteFile(key: string, data: seq<byte>)
      requires Valid()
      modifies this
      ensures Valid()
      ensures disk == old(disk)[key := data] && memory == old(memory)
      ensures View() == old(View()).(disk := old(disk)[key := data])
    {
      disk := disk[key := data];
    }

    /** Reads and decodes the file named `key`; nil when it is missing or does not decode. */
    method ReadDisk(key: string, decodeOk: bool) returns (r: Option<Image>)
      ensures r == DiskRead(disk, codec, key, decodeOk)
    {
      if key in disk && decodeOk {
        r := Some(codec.decode(disk[key]));
      } else {
        r := None;
      }
    }

    method GetImage(key: string, policy: CachePolicy, decodeOk: bool) returns (r: Option<Image>)
      requires Valid()
      modifies this, memory.Values
      ensures Valid()
      ensures disk == old(disk)
      ensures forall k :: k in memory ==> k in old(memory) && memory[k] == old(memory[k])
      ensures (r, View()) == Lookup(old(View()), codec, key, policy, decodeOk)
    {
      ghost var before := View();
      match policy
      case Memory =>
        ghost var fallen := before;
        if key in memory {
          var entry := memory[key];
          var ok := entry.BeginContentAccess();
          if ok {
            assert entry.State() == Begin(before.memory[key]).1;
            forall k | k in memory
              ensures memory[k].State() == before.memory[key := entry.State()][k]
            {
            }
            assert View().memory == before.memory[key := entry.State()];
            assert (entry.image, View()) == Lookup(before, codec, key, policy, decodeOk);
            return entry.image;
          }
          memory := memory - {key};
          forall k | k in memory
            ensures memory[k].State() == before.memory[k]
          {
          }
          assert View().memory == before.memory - {key};
          fallen := before.(memory := before.memory - {key});
          assert before.memory[key].Discarded();
        }
        assert View() == fallen;
        CacheProperties.MemoryMissFallsThroughToDisk(before, codec, key, decodeOk);
        r := ReadDisk(key, decodeOk);
      case Disk =>
        r := ReadDisk(key, decodeOk);
      case MemoryAndDisk =>
        r := None;
    }

    method RemoveImage(key: string, policy: CachePolicy)
      requires Valid()
      modifies this
      ensures Valid()
      ensures memory == if policy == Memory then old(memory) - {key} else old(memory)
      ensures disk == if policy == Disk then old(disk) - {key} else old(disk)
      ensures View() == Apply(old(View()), codec, RemoveCall(key, policy))
    {
      ghost var before := View();
      match policy
      case Memory =>
        memory := memory - {key};
        assert View().memory == before.memory - {key};
      case Disk =>
        disk := disk - {key};
      case MemoryAndDisk =>
    }

    /** Memory pressure: the system asks the entry under `key`, if any, to discard its content. */
    method SystemDiscard(key: string)
      requires Valid()
      modifies memory.Values
      ensures Valid()
      ensures key in memory ==> memory[key].State() == DiscardIfPossible(old(memory[key].State()))
      ensures View() == Apply(old(View()), codec, Action.SystemDiscard(key))
    {
      ghost var before := View();
      if key in memory {
        memory[key].DiscardContentIfPossible();
        assert View().memory == before.memory[key := memory[key].State()];
      }
    }

    /** Memory pressure: the NSCache drops the entry under `key`, if any. */
    method SystemEvict(key: string)
      requires Valid()
      modifies this
      ensures Valid()
      ensures memory == old(memory) - {key} && disk == old(disk)
      ensures View() == Apply(old(View()), codec, Action.SystemEvict(key))
    {
      ghost var before := View();
      memory := memory - {key};
      assert View().memory == before.memory - {key};
    }
  }
}
