/**
 * The easy-fs block cache: in-memory mirrors of disk blocks with a dirty
 * flag, and a bounded queue of such mirrors keyed by block id.
 */
module BlockCaches {
  import opened Types

  /** Size of one disk block in bytes (`BLOCK_SZ`). */
  const BLOCK_SZ: nat := 512

  /** Capacity of the cache queue (`BLOCK_CACHE_SIZE`). */
  const BLOCK_CACHE_SIZE: nat := 16

  function Zeros(n: nat): (r: seq<byte>)
    ensures |r| == n && forall k :: 0 <= k < n ==> r[k] == 0
  {
    seq(n, _ => 0)
  }

  /**
   * The storage medium behind the `BlockDevice` trait: a map from block id to
   * the block's bytes.  A block that was never written reads as zeros.
   */
  class BlockDevice {
    var blocks: map<nat, seq<byte>>

    ghost predicate Valid()
      reads this
    {
      forall id :: id in blocks ==> |blocks[id]| == BLOCK_SZ
    }

    /** `read_block`: the BLOCK_SZ bytes currently stored under `id`. */
    function Read(id: nat): (r: seq<byte>)
      reads this
      requires Valid()
      ensures |r| == BLOCK_SZ
      ensures id in blocks ==> r == blocks[id]
      ensures id !in blocks ==> r == Zeros(BLOCK_SZ)
    {
      if id in blocks then blocks[id] else Zeros(BLOCK_SZ)
    }

    /** `write_block`: store `buf` under `id`, nothing else changes. */
    method WriteBlock(id: nat, buf: seq<byte>)
      requires Valid() && |buf| == BLOCK_SZ
      modifies this
      ensures Valid()
      ensures blocks == old(blocks)[id := buf]
      ensures Read(id) == buf
      ensures forall other :: other != id ==> Read(other) == old(Read(other))
    {
      blocks := blocks[id := buf];
    }
  }

  /** One cached block (`BlockCache`). */
  class BlockCache {
    /** The in-memory copy of the block. */
    var cache: seq<byte>
    /** The block on the device this entry mirrors. */
    const blockId: nat
    const device: BlockDevice
    /** Set by every mutable view; cleared when the bytes are written back. */
    var modified: bool
    /**
     * `Arc::strong_count` of the handle wrapping this entry: the cache queue's
     * own slot plus every handle a caller still holds.
     */
    var holders: nat

    ghost predicate Valid()
      reads this
    {
      |cache| == BLOCK_SZ
    }

    /** `BlockCache::new`: load the block from the device, clean. */
    constructor (blockId: nat, device: BlockDevice)
      requires device.Valid()
      ensures Valid()
      ensures this.blockId == blockId && this.device == device
      ensures cache == device.Read(blockId) && !modified && holders == 0
    {
      this.blockId := blockId;
      this.device := device;
      cache := device.Read(blockId);
      modified := false;
      holders := 0;
    }

    /**
     * `get_ref`: the `size` bytes of the value of `size_of::<T>() == size`
     * stored at `offset`.  The precondition is the assertion on the bounds
     * together with `addr_of_offset`'s indexing of `cache[offset]`, which
     * panics on `offset == BLOCK_SZ` even for a zero-sized `T`.
     */
    function GetRef(offset: nat, size: nat): (view: seq<byte>)
      reads this
      requires Valid() && offset < BLOCK_SZ && offset + size <= BLOCK_SZ
      ensures |view| == size
      ensures forall k :: 0 <= k < size ==> view[k] == cache[offset + k]
    {
      cache[offset..offset + size]
    }

    /**
     * `get_mut`: same bounds check, and the entry becomes dirty merely by the
     * view being handed out.  The bytes of the view are returned; writes
     * through it are done by `Modify`.
     */
    method GetMut(offset: nat, size: nat) returns (view: seq<byte>)
      requires Valid() && offset < BLOCK_SZ && offset + size <= BLOCK_SZ
      modifies this`modified
      ensures modified
      ensures view == GetRef(offset, size)
    {
      modified := true;
      view := cache[offset..offset + size];
    }

    /** `read`: apply the closure to the read-only view at `offset`. */
    function Read<V>(offset: nat, size: nat, f: seq<byte> --> V): (v: V)
      reads this
      requires Valid() && offset < BLOCK_SZ && offset + size <= BLOCK_SZ
      requires f.requires(cache[offset..offset + size])
      ensures v == f(cache[offset..offset + size])
    {
      f(GetRef(offset, size))
    }

    /**
     * `modify`: hand the closure the mutable view at `offset`.  The closure is
     * modelled as returning the view's new bytes together with its result.
     */
    method Modify<V>(offset: nat, size: nat, f: seq<byte> --> (seq<byte>, V)) returns (v: V)
      requires Valid() && offset < BLOCK_SZ && offset + size <= BLOCK_SZ
      requires f.requires(cache[offset..offset + size]) && |f(cache[offset..offset + size]).0| == size
      modifies this`cache, this`modified
      ensures Valid() && modified
      ensures cache == old(cache)[..offset] + f(old(cache)[offset..offset + size]).0 + old(cache)[offset + size..]
      ensures GetRef(offset, size) == f(old(cache)[offset..offset + size]).0
      ensures v == f(old(cache)[offset..offset + size]).1
    {
      var view := GetMut(offset, size);
      var (written, result) := f(view);
      cache := cache[..offset] + written + cache[offset + size..];
      assert cache[offset..offset + size] == written;
      v := result;
    }

    /** `sync`: write the bytes back if and only if the entry is dirty. */
    method Sync()
      requires Valid() && device.Valid()
      modifies this`modified, device
      ensures device.Valid() && !modified
      ensures old(modified) ==> device.blocks == old(device.blocks)[blockId := cache]
      ensures !old(modified) ==> device.blocks == old(device.blocks)
      ensures device.Read(blockId) == if old(modified) then cache else old(device.Read(blockId))
      ensures forall other :: other != blockId ==> device.Read(other) == old(device.Read(other))
    {
      if modified {
        modified := false;
        device.WriteBlock(blockId, cache);
      }
    }

    /** `Drop for BlockCache`: releasing the last handle syncs the entry. */
    method Drop()
      requires Valid() && device.Valid()
      modifies this`modified, device
      ensures device.Valid() && !modified
      ensures old(modified) ==> device.blocks == old(device.blocks)[blockId := cache]
      ensures !old(modified) ==> device.blocks == old(device.blocks)
      ensures device.Read(blockId) == if old(modified) then cache else old(device.Read(blockId))
      ensures forall other :: other != blockId ==> device.Read(other) == old(device.Read(other))
    {
      Sync();
    }
  }

  /**
   * The device's blocks after an entry for `id` holding `cache` is synced:
   * written back if it was modified, untouched otherwise.
   */
  function Written(blocks: map<nat, seq<byte>>, id: nat, modified: bool, cache: seq<byte>): map<nat, seq<byte>>
  {
    if modified then blocks[id := cache] else blocks
  }

  /** What `get_block_cache` hands back: a handle, or the panic of a full pool. */
  datatype Acquired = Handle(entry: BlockCache) | RunOutOfBlockCache

  /** `queue.iter().find(|pair| pair.0 == block_id)`: the first slot holding `id`. */
  function Find(q: seq<(nat, BlockCache)>, id: nat): (r: Option<nat>)
    ensures r.Some? ==> r.value < |q| && q[r.value].0 == id
  {
    FindFrom(q, id, 0)
  }

  /** The iterator of `Find` after it has passed the slots before `start`. */
  function FindFrom(q: seq<(nat, BlockCache)>, id: nat, start: nat): (r: Option<nat>)
    requires start <= |q|
    ensures r.Some? ==> start <= r.value < |q| && q[r.value].0 == id
    decreases |q| - start
  {
    if start == |q| then None
    else if q[start].0 == id then Some(start)
    else FindFrom(q, id, start + 1)
  }

  /** `FindFrom` reports the first slot from `start` on holding `id`, and none only when there is none. */
  lemma {:induction false} FindFromSpec(q: seq<(nat, BlockCache)>, id: nat, start: nat)
    requires start <= |q|
    ensures FindFrom(q, id, start).Some? ==>
              forall j :: start <= j < FindFrom(q, id, start).value ==> q[j].0 != id
    ensures FindFrom(q, id, start).None? <==> forall j :: start <= j < |q| ==> q[j].0 != id
    decreases |q| - start
  {
    if start < |q| && q[start].0 != id {
      FindFromSpec(q, id, start + 1);
    }
  }

  /** `Find` reports the first slot holding `id`, and none only when no slot holds it. */
  lemma FindSpec(q: seq<(nat, BlockCache)>, id: nat)
    ensures Find(q, id).Some? ==> forall j :: 0 <= j < Find(q, id).value ==> q[j].0 != id
    ensures Find(q, id).None? <==> forall j :: 0 <= j < |q| ==> q[j].0 != id
  {
    FindFromSpec(q, id, 0);
  }

  /** The block id of slot `i`. */
  ghost function IdAt(q: seq<(nat, BlockCache)>, i: nat): nat
    requires i < |q|
  {
    q[i].0
  }

  /** No block id occupies two slots of the queue. */
  ghost predicate DistinctIds(q: seq<(nat, BlockCache)>)
  {
    forall i, j :: 0 <= i < j < |q| ==> IdAt(q, i) != IdAt(q, j)
  }

  /** Two different slots of a queue with distinct ids hold different ids. */
  lemma DistinctAt(q: seq<(nat, BlockCache)>, i: nat, j: nat)
    requires DistinctIds(q) && i < |q| && j < |q| && i != j
    ensures q[i].0 != q[j].0
  {
    assert IdAt(q, i) != IdAt(q, j);
  }

  /** In a queue with distinct ids, `Find` reports the slot of each queued id. */
  lemma FindDistinct(q: seq<(nat, BlockCache)>, k: nat)
    requires DistinctIds(q) && k < |q|
    ensures Find(q, q[k].0) == Some(k)
  {
    forall j | 0 <= j < k
      ensures q[j].0 != q[k].0
    {
      DistinctAt(q, j, k);
    }
    FindFirst(q, q[k].0, k);
  }

  /** The slot `Find` reports is determined by the ids alone: the first one holding `id`. */
  lemma FindFirst(q: seq<(nat, BlockCache)>, id: nat, i: nat)
    requires i < |q| && q[i].0 == id
    requires forall j :: 0 <= j < i ==> q[j].0 != id
    ensures Find(q, id) == Some(i)
  {
    FindSpec(q, id);
  }

  /** `queue.drain(k..=k)`: slot `k` leaves, the later slots move down by one. */
  function Drain<T>(q: seq<T>, k: nat): (r: seq<T>)
    requires k < |q|
    ensures |r| == |q| - 1
  {
    q[..k] + q[k + 1..]
  }

  /** Slot `i` of the drained queue is the old slot `i`, or `i + 1` from `k` on. */
  lemma DrainAt<T>(q: seq<T>, k: nat, i: nat)
    requires k < |q| && i < |q| - 1
    ensures Drain(q, k)[i] == if i < k then q[i] else q[i + 1]
  {
  }

  /** The entry in any slot but the drained one is still in the drained queue, at slot `j`. */
  lemma DrainKeeps<T>(q: seq<T>, k: nat, i: nat) returns (j: nat)
    requires k < |q| && i < |q| && i != k
    ensures j < |Drain(q, k)| && Drain(q, k)[j] == q[i]
  {
    j := if i < k then i else i - 1;
    DrainAt(q, k, j);
  }

  /** Draining a slot keeps the ids distinct, and the drained id is no longer present. */
  lemma DrainDistinct(q: seq<(nat, BlockCache)>, k: nat)
    requires k < |q| && DistinctIds(q)
    ensures DistinctIds(Drain(q, k))
    ensures Find(Drain(q, k), q[k].0).None?
  {
    var r := Drain(q, k);
    forall i, j | 0 <= i < j < |r|
      ensures IdAt(r, i) != IdAt(r, j)
    {
      DrainAt(q, k, i);
      DrainAt(q, k, j);
      assert IdAt(q, if i < k then i else i + 1) != IdAt(q, if j < k then j else j + 1);
    }
    forall j | 0 <= j < |r|
      ensures r[j].0 != q[k].0
    {
      DrainAt(q, k, j);
      DistinctAt(q, k, if j < k then j else j + 1);
    }
    FindSpec(r, q[k].0);
  }

  /** Draining slot `k` leaves every other id findable, one slot lower if it sat after `k`. */
  lemma FindAfterDrain(q: seq<(nat, BlockCache)>, k: nat, id: nat)
    requires k < |q| && q[k].0 != id
    ensures Find(q, id).None? ==> Find(Drain(q, k), id).None?
    ensures Find(q, id).Some? ==>
              var i := Find(q, id).value;
              Find(Drain(q, k), id) == Some(if i < k then i else i - 1)
  {
    FindSpec(q, id);
    if Find(q, id).Some? {
      var i := Find(q, id).value;
      DrainKeepsPrefixFree(q, k, id, i);
      FindFirst(Drain(q, k), id, if i < k then i else i - 1);
    } else {
      DrainKeepsPrefixFree(q, k, id, |q|);
      FindSpec(Drain(q, k), id);
    }
  }

  /** If no slot before `n` holds `id`, no slot of the drained queue before the image of `n` does. */
  lemma DrainKeepsPrefixFree(q: seq<(nat, BlockCache)>, k: nat, id: nat, n: nat)
    requires k < |q| && q[k].0 != id && n <= |q| && n != k
    requires forall j :: 0 <= j < n ==> q[j].0 != id
    ensures var r := Drain(q, k);
            var m := if n <= k then n else n - 1;
            m <= |r| && (n < |q| ==> r[m] == q[n]) && forall j :: 0 <= j < m ==> r[j].0 != id
  {
    var r := Drain(q, k);
    var m := if n <= k then n else n - 1;
    forall j | 0 <= j < m
      ensures r[j].0 != id
    {
      DrainAt(q, k, j);
    }
    if n < |q| {
      DrainAt(q, k, m);
    }
  }

  /**
   * `queue.iter().enumerate().find(|(_, pair)| Arc::strong_count(&pair.1) == 1)`:
   * the first slot whose entry no caller holds.
   */
  function FindReclaimable(q: seq<(nat, BlockCache)>): (r: Option<nat>)
    reads set i | 0 <= i < |q| :: q[i].1
    ensures r.Some? ==> r.value < |q| && q[r.value].1.holders == 1
    ensures r.Some? ==> forall j :: 0 <= j < r.value ==> q[j].1.holders != 1
    ensures r.None? <==> forall j :: 0 <= j < |q| ==> q[j].1.holders != 1
  {
    FindReclaimableFrom(q, 0)
  }

  /** The iterator of `FindReclaimable` after it has passed the slots before `start`. */
  function FindReclaimableFrom(q: seq<(nat, BlockCache)>, start: nat): (r: Option<nat>)
    reads set i | 0 <= i < |q| :: q[i].1
    requires start <= |q|
    ensures r.Some? ==> start <= r.value < |q| && q[r.value].1.holders == 1
    ensures r.Some? ==> forall j :: start <= j < r.value ==> q[j].1.holders != 1
    ensures r.None? <==> forall j :: start <= j < |q| ==> q[j].1.holders != 1
    decreases |q| - start
  {
    if start == |q| then None
    else if q[start].1.holders == 1 then Some(start)
    else FindReclaimableFrom(q, start + 1)
  }

  /** `BlockCacheManager`: at most BLOCK_CACHE_SIZE entries, one per block id. */
  class BlockCacheManager {
    var queue: seq<(nat, BlockCache)>
    /** The device every entry was loaded from. */
    const device: BlockDevice

    ghost function Entries(): set<BlockCache>
      reads this
    {
      set i | 0 <= i < |queue| :: queue[i].1
    }

    /**
     * The cache's invariant: bounded, one entry per block id, every entry
     * mirrors the block under its key, is held at least by the queue itself,
     * and agrees with the device whenever it is clean.
     */
    ghost predicate Valid()
      reads this, Entries(), device
    {
      device.Valid() &&
      |queue| <= BLOCK_CACHE_SIZE &&
      DistinctIds(queue) &&
      forall i :: 0 <= i < |queue| ==> Mirrors(queue[i].0, queue[i].1)
    }

    /**
     * Entry `e` in the slot keyed `id` mirrors block `id` of the device, is
     * held at least by the queue, and agrees with the device when clean.
     */
    ghost predicate Mirrors(id: nat, e: BlockCache)
      reads e, device
    {
      device.Valid() &&
      e.blockId == id && e.device == device && |e.cache| == BLOCK_SZ && e.holders >= 1 &&
      (!e.modified ==> device.Read(id) == e.cache)
    }

    /**
     * The current contents of block `id` as every user of the cache sees
     * them: the cached copy if there is one, the device's copy otherwise.
     */
    ghost function Block(id: nat): (b: seq<byte>)
      reads this, Entries(), device
      requires Valid()
      ensures |b| == BLOCK_SZ
    {
      match Find(queue, id)
      case Some(i) => queue[i].1.cache
      case None => device.Read(id)
    }

    /** No caller holds a handle: every entry is held by the queue alone. */
    ghost predicate Idle()
      reads this, Entries()
    {
      forall i :: 0 <= i < |queue| ==> queue[i].1.holders == 1
    }

    /** Block `id` is cached and its entry is marked modified. */
    ghost predicate Dirty(id: nat)
      reads this, Entries()
    {
      Find(queue, id).Some? && queue[Find(queue, id).value].1.modified
    }

    /** A `get_block_cache` for any block id would not panic. */
    ghost predicate CanAcquire()
      reads this, Entries()
    {
      |queue| < BLOCK_CACHE_SIZE || exists i :: 0 <= i < |queue| && queue[i].1.holders == 1
    }

    /** A `get_block_cache` for `id` would not panic: `id` is cached, or there is room to load it. */
    ghost predicate Serves(id: nat)
      reads this, Entries()
    {
      Find(queue, id).Some? || CanAcquire()
    }

    /** `BlockCacheManager::new`: an empty queue over `device`. */
    constructor (device: BlockDevice)
      requires device.Valid()
      ensures Valid() && CanAcquire()
      ensures this.device == device && queue == []
    {
      this.device := device;
      queue := [];
    }

    /** `get_block_cache`: look up, or evict the first unheld entry and load. */
    method GetBlockCache(blockId: nat) returns (r: Acquired)
      requires Valid()
      modifies this`queue, Entries(), device
      ensures Valid()
      ensures forall id :: Block(id) == old(Block(id))
      ensures forall e :: e in Entries() ==> e in old(Entries()) || fresh(e)
      ensures r.RunOutOfBlockCache? <==>
                old(Find(queue, blockId)).None? && old(|queue|) == BLOCK_CACHE_SIZE &&
                old(FindReclaimable(queue)).None?
      ensures r.RunOutOfBlockCache? ==> queue == old(queue) && device.blocks == old(device.blocks)
      ensures r.Handle? ==>
                r.entry in Entries() && r.entry.blockId == blockId &&
                Find(queue, blockId).Some? && queue[Find(queue, blockId).value].1 == r.entry &&
                r.entry.holders >= 2
      ensures r.Handle? && old(Find(queue, blockId)).Some? ==>
                queue == old(queue) && r.entry == old(queue[Find(queue, blockId).value].1) &&
                r.entry.holders == old(r.entry.holders) + 1 && r.entry.cache == old(r.entry.cache) &&
                r.entry.modified == old(r.entry.modified) && device.blocks == old(device.blocks)
      ensures r.Handle? && old(Find(queue, blockId)).None? ==>
                fresh(r.entry) && !r.entry.modified && r.entry.holders == 2 &&
                r.entry.cache == old(Block(blockId))
      ensures r.Handle? && old(Find(queue, blockId)).None? && old(|queue|) < BLOCK_CACHE_SIZE ==>
                queue == old(queue) + [(blockId, r.entry)] && device.blocks == old(device.blocks)
      ensures r.Handle? && old(Find(queue, blockId)).None? && old(|queue|) == BLOCK_CACHE_SIZE ==>
                var k := old(FindReclaimable(queue)).value;
                queue == Drain(old(queue), k) + [(blockId, r.entry)] &&
                !old(queue[k].1).modified &&
                device.Read(old(queue[k].0)) == old(queue[k].1.cache) &&
                device.blocks == Written(old(device.blocks), old(queue[k].0), old(queue[k].1.modified), old(queue[k].1.cache))
      ensures r.Handle? && old(Find(queue, blockId)).None? && old(|queue|) == BLOCK_CACHE_SIZE ==>
                var victim := old(queue[FindReclaimable(queue).value].1);
                forall e :: e in old(Entries()) && e != victim ==> e.holders == old(e.holders) && e.modified == old(e.modified) && e.cache == old(e.cache)
      ensures r.Handle? && old(Find(queue, blockId)).None? && old(|queue|) < BLOCK_CACHE_SIZE ==>
                forall e :: e in old(Entries()) ==> e.holders == old(e.holders) && e.modified == old(e.modified) && e.cache == old(e.cache)
      ensures r.Handle? && old(Find(queue, blockId)).Some? ==>
                forall e :: e in old(Entries()) && e != r.entry ==> e.holders == old(e.holders) && e.modified == old(e.modified) && e.cache == old(e.cache)
      ensures r.RunOutOfBlockCache? ==> forall e :: e in old(Entries()) ==> e.holders == old(e.holders) && e.modified == old(e.modified) && e.cache == old(e.cache)
      ensures old(Idle()) ==>
                r.Handle? && r.entry.holders == 2 &&
                forall i :: 0 <= i < |queue| && queue[i].1 != r.entry ==> queue[i].1.holders == 1
      ensures forall e :: e in old(Entries()) && old(e.holders) >= 2 ==>
                e in Entries() && e.holders == old(e.holders) + (if r.Handle? && e == r.entry then 1 else 0)
    {
      var found := Find(queue, blockId);
      if found.Some? {
        var e := queue[found.value].1;
        e.holders := e.holders + 1;
        r := Handle(e);
      } else {
        r := Load(blockId);
        if r.Handle? {
          FindDistinct(queue, |queue| - 1);
        }
      }
    }

    /** The miss path of `get_block_cache`: make room if the queue is full, then load. */
    method Load(blockId: nat) returns (r: Acquired)
      requires Valid() && Find(queue, blockId).None?
      modifies this`queue, Entries(), device
      ensures Valid()
      ensures forall id :: Block(id) == old(Block(id))
      ensures forall e :: e in Entries() ==> e in old(Entries()) || fresh(e)
      ensures r.RunOutOfBlockCache? <==>
                old(|queue|) == BLOCK_CACHE_SIZE && old(FindReclaimable(queue)).None?
      ensures r.RunOutOfBlockCache? ==> queue == old(queue) && device.blocks == old(device.blocks)
      ensures r.Handle? ==>
                fresh(r.entry) && r.entry.blockId == blockId && !r.entry.modified &&
                r.entry.holders == 2 && r.entry.cache == old(Block(blockId)) &&
                |queue| > 0 && queue[|queue| - 1] == (blockId, r.entry)
      ensures r.Handle? && old(|queue|) < BLOCK_CACHE_SIZE ==>
                queue == old(queue) + [(blockId, r.entry)] && device.blocks == old(device.blocks)
      ensures r.Handle? && old(|queue|) == BLOCK_CACHE_SIZE ==>
                var k := old(FindReclaimable(queue)).value;
                queue == Drain(old(queue), k) + [(blockId, r.entry)] &&
                !old(queue[k].1).modified &&
                device.Read(old(queue[k].0)) == old(queue[k].1.cache) &&
                device.blocks == Written(old(device.blocks), old(queue[k].0), old(queue[k].1.modified), old(queue[k].1.cache))
      ensures r.Handle? && old(|queue|) == BLOCK_CACHE_SIZE ==>
                var victim := old(queue[FindReclaimable(queue).value].1);
                forall e :: e in old(Entries()) && e != victim ==> e.holders == old(e.holders) && e.modified == old(e.modified) && e.cache == old(e.cache)
      ensures r.Handle? && old(|queue|) < BLOCK_CACHE_SIZE ==> forall e :: e in old(Entries()) ==> e.holders == old(e.holders) && e.modified == old(e.modified) && e.cache == old(e.cache)
      ensures r.RunOutOfBlockCache? ==> forall e :: e in old(Entries()) ==> e.holders == old(e.holders) && e.modified == old(e.modified) && e.cache == old(e.cache)
      ensures old(Idle()) ==>
                r.Handle? && forall i :: 0 <= i < |queue| - 1 ==> queue[i].1.holders == 1
      ensures forall e :: e in old(Entries()) && old(e.holders) >= 2 ==> e in Entries() && e.holders == old(e.holders)
    {
      if |queue| == BLOCK_CACHE_SIZE {
        var idx := FindReclaimable(queue);
        if idx.None? {
          r := RunOutOfBlockCache;
          return;
        }
        ghost var before := queue;
        EvictAt(idx.value);
        FindSpec(before, blockId);
        FindAfterDrain(before, idx.value, blockId);
      }
      var e := PushNew(blockId);
      r := Handle(e);
    }

    /** `queue.drain(idx..=idx)` on an entry only the queue holds: it is dropped, hence synced. */
    method EvictAt(k: nat)
      requires Valid() && k < |queue| && queue[k].1.holders == 1
      modifies this`queue, queue[k].1, device
      ensures Valid()
      ensures queue == Drain(old(queue), k)
      ensures forall e :: e in old(Entries()) && old(e.holders) >= 2 ==> e in Entries()
      ensures forall id :: Block(id) == old(Block(id))
      ensures !old(queue[k].1).modified && old(queue[k].1).holders == 0
      ensures device.Read(old(queue[k].0)) == old(queue[k].1.cache)
      ensures device.blocks == Written(old(device.blocks), old(queue[k].0), old(queue[k].1.modified), old(queue[k].1.cache))
    {
      var victim := queue[k].1;
      SyncSlot(k, victim);
      Unlink(k, victim);
    }

    /**
     * `sync` of the entry in slot `k`: what `block_cache_sync_all` does to
     * each slot, and what the `Drop` of an evicted entry does (`Drop` is
     * `sync`).  On eviction it runs before the entry leaves the queue rather
     * than after; that changes nothing anyone can observe, because no other
     * handle exists.
     */
    method SyncSlot(k: nat, victim: BlockCache)
      requires Valid() && k < |queue| && victim == queue[k].1
      modifies victim`modified, device
      ensures Valid()
      ensures forall id :: Block(id) == old(Block(id))
      ensures !queue[k].1.modified
      ensures device.Read(queue[k].0) == queue[k].1.cache
      ensures device.blocks == Written(old(device.blocks), queue[k].0, old(victim.modified), victim.cache)
    {
      ghost var vid := queue[k].0;
      victim.Sync();
      forall i | 0 <= i < |queue| && i != k
        ensures Mirrors(queue[i].0, queue[i].1)
      {
        DistinctAt(queue, i, k);
      }
      forall id
        ensures Block(id) == old(Block(id))
      {
        match Find(queue, id)
        case Some(i) =>
        case None =>
          if id == vid {
            FindDistinct(queue, k);
          }
      }
    }

    /** The queue forgets a clean entry it alone holds. */
    method Unlink(k: nat, victim: BlockCache)
      requires Valid() && k < |queue| && victim == queue[k].1 && victim.holders == 1 && !victim.modified
      modifies this`queue, victim`holders
      ensures Valid()
      ensures queue == Drain(old(queue), k)
      ensures forall e :: e in old(Entries()) && e != victim ==> e in Entries()
      ensures forall id :: Block(id) == old(Block(id))
      ensures victim.holders == 0
    {
      ghost var before := queue;
      ghost var vid := queue[k].0;
      FindDistinct(before, k);
      queue := Drain(queue, k);
      DrainDistinct(before, k);
      forall i | 0 <= i < |queue|
        ensures Mirrors(queue[i].0, queue[i].1) && queue[i].1 != victim
      {
        DrainAt(before, k, i);
        DistinctAt(before, k, if i < k then i else i + 1);
      }
      forall id | id != vid
        ensures Block(id) == old(Block(id))
      {
        FindAfterDrain(before, k, id);
      }
      forall d | d in old(Entries()) && d != victim
        ensures d in Entries()
      {
        ghost var i :| 0 <= i < |before| && before[i].1 == d;
        ghost var j := DrainKeeps(before, k, i);
        assert queue[j].1 == d;
      }
      victim.holders := 0;
    }

    /** `BlockCache::new` wrapped in a fresh handle and `push_back`ed; the caller keeps a clone. */
    method PushNew(blockId: nat) returns (e: BlockCache)
      requires Valid() && Find(queue, blockId).None? && |queue| < BLOCK_CACHE_SIZE
      modifies this`queue
      ensures Valid()
      ensures fresh(e) && queue == old(queue) + [(blockId, e)]
      ensures forall d :: d in old(Entries()) ==> d in Entries()
      ensures e.blockId == blockId && !e.modified && e.holders == 2 && e.cache == old(Block(blockId))
      ensures forall id :: Block(id) == old(Block(id))
    {
      e := new BlockCache(blockId, device);
      e.holders := 2;
      ghost var kept := queue;
      queue := queue + [(blockId, e)];
      assert queue[|kept|] == (blockId, e);
      FindSpec(kept, blockId);
      forall i, j | 0 <= i < j < |queue|
        ensures IdAt(queue, i) != IdAt(queue, j)
      {
        if j < |kept| {
          DistinctAt(kept, i, j);
        }
      }
      forall id
        ensures Block(id) == old(Block(id))
      {
        FindSpec(kept, id);
        if id != blockId {
          match Find(kept, id)
          case Some(i) =>
            FindFirst(queue, id, i);
          case None =>
            FindSpec(queue, id);
        } else {
          FindFirst(queue, id, |kept|);
        }
      }
      forall d | d in old(Entries())
        ensures d in Entries()
      {
        ghost var j :| 0 <= j < |kept| && kept[j].1 == d;
        assert queue[j].1 == d;
      }
    }

    /** Dropping a handle returned by `GetBlockCache`. */
    method ReleaseHandle(e: BlockCache)
      requires Valid() && e in Entries() && e.holders >= 2
      modifies e`holders
      ensures Valid()
      ensures e.holders == old(e.holders) - 1
      ensures forall id :: Block(id) == old(Block(id))
    {
      e.holders := e.holders - 1;
    }

    /**
     * The statement `get_block_cache(id, dev).lock().modify(offset, f)`: take
     * a handle, run the closure on the mutable view, drop the handle.  The
     * handles other callers hold are kept, so every request a later
     * `get_block_cache` would have served is still served, and room to load
     * a block is kept, or made after a miss.
     */
    method ModifyBlock<V>(blockId: nat, offset: nat, size: nat, f: seq<byte> --> (seq<byte>, V)) returns (v: V)
      requires Valid() && Serves(blockId) && offset < BLOCK_SZ && offset + size <= BLOCK_SZ
      requires f.requires(Block(blockId)[offset..offset + size])
      requires |f(Block(blockId)[offset..offset + size]).0| == size
      modifies this`queue, Entries(), device
      ensures Valid()
      ensures old(CanAcquire()) ==> CanAcquire()
      ensures forall id :: old(Serves(id)) ==> Serves(id)
      ensures forall e :: e in old(Entries()) && old(e.holders) >= 2 ==> e in Entries() && e.holders == old(e.holders)
      ensures forall e :: e in Entries() ==> e in old(Entries()) || fresh(e)
      ensures Block(blockId) ==
                old(Block(blockId))[..offset] + old(f(Block(blockId)[offset..offset + size])).0 +
                old(Block(blockId))[offset + size..]
      ensures forall id :: id != blockId ==> Block(id) == old(Block(id))
      ensures v == old(f(Block(blockId)[offset..offset + size])).1
      ensures Dirty(blockId)
    {
      var e := Acquire(blockId);
      v := ModifyHeld(blockId, e, offset, size, f);
      ReleaseHandle(e);
      if old(Find(queue, blockId)).None? {
        assert queue[Find(queue, blockId).value].1.holders == 1;
      } else if old(CanAcquire()) && |queue| == BLOCK_CACHE_SIZE {
        ghost var i :| 0 <= i < |queue| && old(queue[i].1.holders) == 1;
        assert queue[i].1.holders == 1;
      }
    }

    /**
     * `get_block_cache` for a block it serves: it does not panic, and hands
     * back the queued entry of the block with one more holder.  A hit leaves
     * the queue and every other count as they were; a miss queues a fresh
     * entry that the caller and the queue hold.
     */
    method Acquire(blockId: nat) returns (e: BlockCache)
      requires Valid() && Serves(blockId)
      modifies this`queue, Entries(), device
      ensures Valid()
      ensures Find(queue, blockId).Some? && queue[Find(queue, blockId).value].1 == e && e.holders >= 2
      ensures forall id :: Block(id) == old(Block(id))
      ensures forall d :: d in Entries() ==> d in old(Entries()) || fresh(d)
      ensures forall d :: d in old(Entries()) && old(d.holders) >= 2 ==>
                d in Entries() && d.holders == old(d.holders) + (if d == e then 1 else 0)
      ensures old(Find(queue, blockId)).Some? ==>
                queue == old(queue) && e.holders == old(e.holders) + 1 &&
                forall i :: 0 <= i < |queue| && queue[i].1 != e ==> queue[i].1.holders == old(queue[i].1.holders)
      ensures old(Find(queue, blockId)).None? ==> fresh(e) && e.holders == 2
    {
      var h := GetBlockCache(blockId);
      e := h.entry;
      if old(Find(queue, blockId)).Some? {
        forall i | 0 <= i < |queue| && queue[i].1 != e
          ensures queue[i].1.holders == old(queue[i].1.holders)
        {
          assert queue[i].1 in old(Entries());
        }
      }
    }

    /**
     * `get_block_cache(id, dev).lock().modify(0, f)` where the closure's type
     * spans the whole block, as a `[u64; 64]` does.
     */
    method ModifyWhole<V>(blockId: nat, f: seq<byte> --> (seq<byte>, V)) returns (v: V)
      requires Valid() && Serves(blockId)
      requires f.requires(Block(blockId)) && |f(Block(blockId)).0| == BLOCK_SZ
      modifies this`queue, Entries(), device
      ensures Valid()
      ensures old(CanAcquire()) ==> CanAcquire()
      ensures forall id :: old(Serves(id)) ==> Serves(id)
      ensures forall e :: e in old(Entries()) && old(e.holders) >= 2 ==> e in Entries() && e.holders == old(e.holders)
      ensures forall e :: e in Entries() ==> e in old(Entries()) || fresh(e)
      ensures Block(blockId) == old(f(Block(blockId))).0
      ensures forall id :: id != blockId ==> Block(id) == old(Block(id))
      ensures v == old(f(Block(blockId))).1
      ensures Dirty(blockId)
    {
      ghost var before := Block(blockId);
      ghost var written := f(before).0;
      assert before[0..0 + BLOCK_SZ] == before;
      v := ModifyBlock(blockId, 0, BLOCK_SZ, f);
      assert before[..0] + written + before[BLOCK_SZ..] == written;
    }

    /** `modify` through a handle on the entry of `blockId`. */
    method ModifyHeld<V>(blockId: nat, e: BlockCache, offset: nat, size: nat, f: seq<byte> --> (seq<byte>, V))
      returns (v: V)
      requires Valid() && Find(queue, blockId).Some? && queue[Find(queue, blockId).value].1 == e
      requires offset < BLOCK_SZ && offset + size <= BLOCK_SZ
      requires f.requires(Block(blockId)[offset..offset + size])
      requires |f(Block(blockId)[offset..offset + size]).0| == size
      modifies e`cache, e`modified
      ensures Valid() && e.modified
      ensures Block(blockId) ==
                old(Block(blockId))[..offset] + old(f(Block(blockId)[offset..offset + size])).0 +
                old(Block(blockId))[offset + size..]
      ensures forall id :: id != blockId ==> Block(id) == old(Block(id))
      ensures v == old(f(Block(blockId)[offset..offset + size])).1
    {
      ghost var k := Find(queue, blockId).value;
      v := e.Modify(offset, size, f);
      forall i | 0 <= i < |queue|
        ensures Mirrors(queue[i].0, queue[i].1)
      {
        if i != k {
          DistinctAt(queue, i, k);
        }
      }
    }

    /** `block_cache_sync_all`: sync every queued entry, in queue order. */
    method SyncAll()
      requires Valid()
      modifies Entries(), device
      ensures Valid()
      ensures forall i :: 0 <= i < |queue| ==> !queue[i].1.modified
      ensures forall id :: Block(id) == old(Block(id))
      ensures forall id :: device.Read(id) == old(Block(id))
      ensures forall e :: e in Entries() ==> e.cache == old(e.cache) && e.holders == old(e.holders)
    {
      var i := 0;
      while i < |queue|
        invariant 0 <= i <= |queue|
        invariant Valid()
        invariant forall j :: 0 <= j < i ==> !queue[j].1.modified
        invariant forall e :: e in Entries() ==> e.cache == old(e.cache) && e.holders == old(e.holders)
        invariant forall id :: Block(id) == old(Block(id))
      {
        SyncSlot(i, queue[i].1);
        i := i + 1;
      }
      forall id
        ensures device.Read(id) == old(Block(id))
      {
        match Find(queue, id)
        case Some(j) =>
        case None =>
      }
    }
  }
}
