# easy-fs block cache, bitmap allocator and kernel pipe, in Dafny

This project models three stateful components of the rCore teaching kernel and proves their contracts.

- **Block cache** (`block_cache.dfy`, module `BlockCaches`).
  - A `BlockCache` mirrors one `BLOCK_SZ` (512-byte) disk block in memory and carries a `modified` flag.
    - Typed views are bounds-checked.
    - Asking for a mutable view marks the entry dirty.
    - `sync` writes the bytes back only when the entry is dirty; dropping an entry syncs it.
  - The `BlockCacheManager` keeps a queue of at most 16 `(block_id, entry)` pairs.
    - A hit returns the queued entry.
    - A miss on a full queue evicts the first entry that nobody but the queue holds, writing it back if it was dirty. When no entry qualifies it panics.
    - The new entry goes to the back of the queue.
  - `block_cache_sync_all` syncs every entry.
  - The device is a map from block id to bytes.
  - `Arc::strong_count` is an explicit `holders` count.
  - The manager's central invariant is `Valid`: bounded length, distinct ids, every entry mirroring its block and agreeing with the device when clean.
  - `Block(id)` is what every user of the cache sees of block `id`.
- **Bitmap allocator** (`bitmap.dfy`, module `Bitmaps`).
  - A bitmap is `blocks` consecutive disk blocks. Each block is read through the cache as 64 little-endian `u64` words (`BitmapBlock`).
  - `alloc` scans the blocks in order, takes the first word that is not `u64::MAX` and its lowest clear bit (`trailing_ones`), sets it, and returns `block * 4096 + word * 64 + bit`.
  - `dealloc` checks that the bit is set and subtracts it.
  - `decomposition` and `maximum` are pure arithmetic.
  - Words are numbers below 2^64. Bit `i` of a word is its `i`-th binary digit (`IsSet`), so `1u64 << i` is `Pow2(i)` and bitwise or is `Or`.
  - The whole bitmap is `Content(mgr)`: one 64-word block per bitmap block, as the cache shows it.
- **Pipe** (`pipe.dfy`, module `Pipes`).
  - `PipeRingBuffer` is a 32-byte ring with `head`, `tail` and a `Full/Empty/Normal` status. Its invariant is that `head == tail` exactly when the status is not `Normal`.
  - `Contents()` is the bytes waiting to be read, oldest first.
  - `write_byte` and `read_byte` are proved to append to and take from the front of `Contents()`.
  - The transfer loops of `Pipe::read` and `Pipe::write` are proved to move `min(buffer length, available bytes/space)` bytes in FIFO order.

`types.dfy` (module `Types`) holds the `byte` type and `Option`.

## Model
| member | source | states |
|---|---|---|
| BlockCaches.BlockDevice.Read | easy-fs/src/block_dev.rs:6 | `read_block` yields exactly `BLOCK_SZ` bytes: the bytes last stored under the id, or zeros for a block never written |
| BlockCaches.BlockDevice.WriteBlock | easy-fs/src/block_dev.rs:8 | `write_block` stores the buffer under the id; every other block reads as before |
| BlockCaches.BlockCache.constructor | easy-fs/src/block_cache.rs:26-35 | a new entry holds exactly the device's current bytes of `block_id`, is clean, and records its id and device |
| BlockCaches.BlockCache.GetRef | easy-fs/src/block_cache.rs:38-51 | the view has `size_of::<T>()` bytes and byte `k` of it is cache byte `offset + k`. It requires `offset < BLOCK_SZ`, since `addr_of_offset` indexes `cache[offset]`, and `offset + size <= BLOCK_SZ`, as the assertion demands |
| BlockCaches.BlockCache.GetMut | easy-fs/src/block_cache.rs:38-60 | the same two bounds are required; the entry becomes dirty even though nothing is written, and the view is the same bytes `get_ref` gives |
| BlockCaches.BlockCache.Read | easy-fs/src/block_cache.rs:64-66 | under the same two bounds, `read` is the closure applied to the read-only view; nothing changes (a function) |
| BlockCaches.BlockCache.Modify | easy-fs/src/block_cache.rs:70-72 | under the same two bounds, `modify` marks the entry dirty, replaces exactly the viewed bytes by what the closure writes, keeps the rest, and returns the closure's result |
| BlockCaches.BlockCache.Sync | easy-fs/src/block_cache.rs:75-80 | a dirty entry's bytes are written to its block and the flag is cleared; a clean entry leaves the device untouched, so a second `sync` changes nothing; other blocks are unaffected |
| BlockCaches.BlockCache.Drop | easy-fs/src/block_cache.rs:83-88 | dropping an entry has exactly the effect of `sync` |
| BlockCaches.Find | easy-fs/src/block_cache.rs:112 | the slot found holds the requested id |
| BlockCaches.FindSpec | easy-fs/src/block_cache.rs:112 | `find` reports the first slot holding the id, and reports nothing exactly when no slot holds it |
| BlockCaches.FindFromSpec | easy-fs/src/block_cache.rs:112 | the same for the search resumed at a given slot (the induction behind `FindSpec`) |
| BlockCaches.FindFirst | easy-fs/src/block_cache.rs:112 | a slot holding the id with no earlier slot holding it is the one `find` reports |
| BlockCaches.FindDistinct | easy-fs/src/block_cache.rs:112 | in a queue with one entry per id, `find` of the id in any slot reports that slot |
| BlockCaches.DrainAt | easy-fs/src/block_cache.rs:123 | after `drain(k..=k)` slot `i` is the old slot `i` before `k` and the old slot `i + 1` from `k` on, so the other entries keep their order |
| BlockCaches.DrainKeeps | easy-fs/src/block_cache.rs:123 | every entry but the drained one is still in the queue after `drain(k..=k)` |
| BlockCaches.DrainDistinct | easy-fs/src/block_cache.rs:123 | draining a slot keeps the ids distinct and removes the drained id from the queue |
| BlockCaches.FindAfterDrain | easy-fs/src/block_cache.rs:123 | after draining slot `k` every other id is still found, one slot lower if it sat after `k`, and an absent id stays absent |
| BlockCaches.FindReclaimable | easy-fs/src/block_cache.rs:117-121 | the slot found is the first whose strong count is 1; nothing is found exactly when no entry has count 1 |
| BlockCaches.BlockCacheManager.constructor | easy-fs/src/block_cache.rs:99-103 | an empty queue satisfies the manager's invariant and can serve any request |
| BlockCaches.BlockCacheManager.GetBlockCache | easy-fs/src/block_cache.rs:106-134 | keeps the invariant (length at most 16, one entry per id) and every block's contents. A hit returns the queued entry with one more holder; the queue, the device and every other entry are as they were. A miss panics exactly when the queue is full and every entry is held elsewhere, and then nothing changes. Otherwise a miss appends a clean entry loaded from the block. When the queue is full it first drains the lowest reclaimable slot; the device then changes only at the evicted block, which is written only if it was dirty. Every entry other than the evicted one keeps its holders, flag and bytes. An entry another caller holds (strong count at least 2) is never evicted: it stays queued, and its count rises only if it is the entry returned. When no caller holds a handle the request never panics, and afterwards only the returned entry is held by a caller |
| BlockCaches.BlockCacheManager.Load | easy-fs/src/block_cache.rs:114-133 | the miss path alone: the panic condition, eviction of the first reclaimable entry with the device changed only at its block, `push_back` of a fresh clean entry, and every other entry kept as it was. Entries other callers hold stay queued with their counts |
| BlockCaches.BlockCacheManager.EvictAt | easy-fs/src/block_cache.rs:123 | draining an entry only the queue holds drops it. It is removed from the queue and written back if it was dirty, and no other block of the device changes. No block's visible contents change, and every entry held by another caller stays queued |
| BlockCaches.BlockCacheManager.SyncSlot | easy-fs/src/block_cache.rs:75-88 | `sync` of one queued entry, as `sync_all` runs it on each slot and as an evicted entry's `Drop` runs it: the entry is clean afterwards, the device holds its bytes, the device changes only at its block and only if it was dirty, and no block's visible contents change |
| BlockCaches.BlockCacheManager.Unlink | easy-fs/src/block_cache.rs:123 | removing a clean, otherwise unheld entry keeps the invariant and every block's visible contents; every other entry stays queued |
| BlockCaches.BlockCacheManager.PushNew | easy-fs/src/block_cache.rs:130-132 | `push_back` of a fresh clean entry loaded from the block; the queue grows by exactly that pair, every entry stays queued, and nothing visible changes |
| BlockCaches.BlockCacheManager.ReleaseHandle | easy-fs/src/block_cache.rs:143-150 | dropping the handle `get_block_cache` returned lowers the strong count by one and changes no contents |
| BlockCaches.BlockCacheManager.ModifyBlock | easy-fs/src/block_cache.rs:143-150 | a statement `get_block_cache(id).lock().modify(offset, f)` requires only that `get_block_cache` would not panic (`Serves`: the block is cached or there is room) and the bounds of `modify`. It changes exactly the viewed bytes of block `id`, leaves every other block, returns the closure's result, and leaves block `id` cached and dirty. An entry another caller holds stays queued with the same strong count, since eviction drains only entries of count 1. So every request that would have been served still is, and room to load a block is kept |
| BlockCaches.BlockCacheManager.ModifyWhole | easy-fs/src/block_cache.rs:143-150 | the same for a closure whose type spans the whole block, including that entries other callers hold stay queued with their counts |
| BlockCaches.BlockCacheManager.Acquire | easy-fs/src/block_cache.rs:106-134 | `get_block_cache` of a block the cache serves does not panic and returns the queued entry of that block with one more holder. A hit leaves the queue and every other count as they were. A miss queues a fresh entry held by the queue and the caller. Entries other callers hold stay queued with their counts |
| BlockCaches.BlockCacheManager.ModifyHeld | easy-fs/src/block_cache.rs:70-72 | under the bounds of `modify`, `modify` through a handle on a queued entry changes exactly that block's viewed bytes |
| BlockCaches.BlockCacheManager.SyncAll | easy-fs/src/block_cache.rs:153-158 | afterwards no queued entry is dirty, the device holds every block as the cache showed it, and no cached bytes or counts change |
| Bitmaps.Pow2Word | easy-fs/src/bitmap.rs:33 | `u64::MAX + 1` is 2^64 |
| Bitmaps.OrWord | easy-fs/src/bitmap.rs:36 | or-ing `1u64 << i` into a `u64` gives a `u64` |
| Bitmaps.TrailingOnes | easy-fs/src/bitmap.rs:34 | `trailing_ones` counts the set bits below the lowest clear bit, is 64 exactly for `u64::MAX`, and otherwise lands on a clear bit |
| Bitmaps.LoadStore | easy-fs/src/bitmap.rs:29 | storing a word as 8 little-endian bytes and reading them back gives the word |
| Bitmaps.StoreLoad | easy-fs/src/bitmap.rs:29 | reading bytes as a word and storing it back gives the bytes |
| Bitmaps.WordsOfBytes | easy-fs/src/bitmap.rs:29 | the `[u64; 64]` view of the bytes that hold some words is those words |
| Bitmaps.BytesOfWords | easy-fs/src/bitmap.rs:29 | the bytes of the word view of a block are the block's bytes |
| Bitmaps.SetInEffect | easy-fs/src/bitmap.rs:36 | or-ing `1 << (j % 64)` into word `j / 64` sets bit `j` of the block and no other |
| Bitmaps.ClearInEffect | easy-fs/src/bitmap.rs:59 | `bitmap_block[j / 64] -= 1 << (j % 64)` on a set bit clears bit `j` and no other |
| Bitmaps.BlockFullIff | easy-fs/src/bitmap.rs:33 | every word of a block is `u64::MAX` exactly when every bit of it is set |
| Bitmaps.FirstNotFull | easy-fs/src/bitmap.rs:30-33 | the word found is the first that is not `u64::MAX`; nothing is found exactly when every word is |
| Bitmaps.FirstClearIsLowest | easy-fs/src/bitmap.rs:30-34 | the `trailing_ones` of the first not-full word locates the lowest clear bit of the block |
| Bitmaps.PickIn | easy-fs/src/bitmap.rs:30-34 | the bit the closure picks is the lowest clear bit of the block; it picks nothing exactly when the block is full |
| Bitmaps.AllocInBlockEffect | easy-fs/src/bitmap.rs:29-41 | the closure of `alloc` yields `None` exactly on a full block and then writes the same bytes back; otherwise it sets the block's lowest clear bit and yields `block_id * BLOCK_BITS` plus that bit's index |
| Bitmaps.BitInBytesIff | easy-fs/src/bitmap.rs:58 | the test `bitmap_block[j / 64] & (1 << (j % 64)) > 0` reads bit `j % 8` of byte `j / 8` of the block |
| Bitmaps.DeallocInBlockEffect | easy-fs/src/bitmap.rs:56-60 | the closure of `dealloc`, once its assertion holds, is `bitmap_block[j / 64] -= 1 << (j % 64)`: it clears bit `j` of the block and no other |
| Bitmaps.Decomposition | easy-fs/src/bitmap.rs:70-74 | `decomposition(bit) = (b, w, i)` has `bit == b * BLOCK_BITS + w * 64 + i` with `w < 64` and `i < 64` |
| Bitmaps.DecompositionUnique | easy-fs/src/bitmap.rs:70-74 | every in-range triple is the decomposition of its own index, so the split is unique |
| Bitmaps.DecompositionSplit | easy-fs/src/bitmap.rs:70-74 | the block is `bit / BLOCK_BITS`, and word and bit-in-word locate `bit % BLOCK_BITS` |
| Bitmaps.SetBitAtEffect | easy-fs/src/bitmap.rs:36-37 | allocating global bit `p` sets `p` and leaves every other bit of the bitmap |
| Bitmaps.ClearBitAtEffect | easy-fs/src/bitmap.rs:58-59 | freeing global bit `p` clears `p` and leaves every other bit of the bitmap |
| Bitmaps.ClearUndoesSet | easy-fs/src/bitmap.rs:25-61 | `dealloc` after `alloc` of a free bit restores the bitmap exactly |
| Bitmaps.SetUndoesClear | easy-fs/src/bitmap.rs:25-61 | setting a bit that was just freed restores the bitmap exactly |
| Bitmaps.FullIff | easy-fs/src/bitmap.rs:38-48 | every word of every block being `u64::MAX` (when `alloc` gives `None`) is exactly every bit below `maximum()` being allocated |
| Bitmaps.LowestFreeUnique | easy-fs/src/bitmap.rs:26-37 | the lowest free bit is unique, so `alloc`'s answer is determined |
| Bitmaps.LowestFreeAcross | easy-fs/src/bitmap.rs:26-37 | when every block before `b` is full, the lowest free bit of block `b` is the lowest free bit of the whole bitmap |
| Bitmaps.DeallocThenAlloc | easy-fs/src/bitmap.rs:25-61 | freeing allocated bit `p` when every bit below it is allocated makes `p` the lowest free bit, so the next `alloc` returns `p` |
| Bitmaps.DeallocStep | easy-fs/src/bitmap.rs:52-60 | the `dealloc` closure on the block of `p` finds `p` allocated and turns the bitmap into the bitmap with `p` freed |
| Bitmaps.AllocStep | easy-fs/src/bitmap.rs:26-45 | one pass of `alloc` over block `b`, all earlier blocks full, finds nothing exactly when block `b` is full and then writes it back unchanged; otherwise it finds the lowest free bit of the bitmap, below `maximum()`, and sets exactly that bit |
| Bitmaps.AllocRaw | easy-fs/src/bitmap.rs:26-45 | the same pass stated over the raw bytes of the blocks, when the pass rewrites block `b` alone |
| Bitmaps.Bitmap.AllocAfter | easy-fs/src/bitmap.rs:27-45 | the bitmap after one pass, from the raw blocks before it: found nothing exactly on a full block, with the bitmap unchanged, or the lowest free bit set and nothing else |
| Bitmaps.DeallocRaw | easy-fs/src/bitmap.rs:52-60 | the `dealloc` closure on the raw bytes of the block of `p` frees exactly bit `p` of the bitmap |
| Bitmaps.Bitmap.constructor | easy-fs/src/bitmap.rs:17-22 | records the start block and the block count |
| Bitmaps.Bitmap.Maximum | easy-fs/src/bitmap.rs:64-66 | `maximum()` is `blocks * BLOCK_BITS` |
| Bitmaps.Bitmap.AllocIn | easy-fs/src/bitmap.rs:27-45 | one loop pass through the cache requires only that `get_block_cache` of the scanned block would not panic. Nothing is found exactly when the block is full, and the bitmap is then unchanged; otherwise the lowest free bit, below `maximum()`, is set. No block outside the bitmap changes, the scanned block is left dirty either way, and the cache's ability to serve requests is kept. Entries other callers hold stay queued with their counts |
| Bitmaps.Bitmap.Alloc | easy-fs/src/bitmap.rs:25-49 | `alloc` returns `None` exactly when every word of every block is `u64::MAX`, and then no bit changes. `Some(p)` has `p < maximum()`, `p` the lowest free bit, and the new bitmap is the old one with only `p` set. No block outside the bitmap changes, the cache keeps room to load a block, and entries other callers hold stay queued with their counts |
| Bitmaps.Bitmap.DeallocIn | easy-fs/src/bitmap.rs:54-60 | the `modify` of `dealloc`, which requires only that `get_block_cache` of the block would not panic, rewrites that block with the closure's result, leaves every other block, and leaves the block dirty. Entries other callers hold stay queued with their counts |
| Bitmaps.Bitmap.Dealloc | easy-fs/src/bitmap.rs:52-61 | `dealloc` requires the bit to be set and `get_block_cache` of its block not to panic. It changes only the block `decomposition` names, and within `maximum()` the bit was allocated and the new bitmap is the old one with only that bit freed. Entries other callers hold stay queued with their counts |
| Pipes.RingPush | os/src/fs/pipe.rs:74-81 | storing a byte in the slot after the waiting bytes appends it to them |
| Pipes.RingPop | os/src/fs/pipe.rs:84-92 | the byte at `head` is the oldest waiting byte, and the bytes from the next slot are the rest |
| Pipes.PipeRingBuffer.constructor | os/src/fs/pipe.rs:58-66 | a new ring has `head == tail == 0`, status `Empty`, zeroed slots, no waiting bytes, and satisfies the invariant |
| Pipes.PipeRingBuffer.AvailableRead | os/src/fs/pipe.rs:95-103 | the count lies in `0..=32`, `tail` is `head` advanced by it round the ring, and it is 0 exactly when `Empty` and 32 exactly when `Full` |
| Pipes.PipeRingBuffer.AvailableWrite | os/src/fs/pipe.rs:106-112 | `available_read() + available_write() == 32`, and the space is 0 exactly when `Full` |
| Pipes.PipeRingBuffer.WriteByte | os/src/fs/pipe.rs:74-81 | stores the byte at the old `tail` and changes no other slot, advances `tail` mod 32, becomes `Full` exactly when `tail` meets `head` and `Normal` otherwise, and keeps the invariant; when not full it appends the byte to the waiting bytes and adds one to `available_read` |
| Pipes.PipeRingBuffer.ReadByte | os/src/fs/pipe.rs:84-92 | returns the byte at the old `head` and leaves the slots unchanged, advances `head` mod 32, becomes `Empty` exactly when `head` meets `tail` and `Normal` otherwise, and keeps the invariant; when not empty it takes the oldest waiting byte and subtracts one from `available_read` |
| Pipes.Pipe.ReadEnd | os/src/fs/pipe.rs:17-23 | the read end is readable, not writable, and shares the given buffer |
| Pipes.Pipe.WriteEnd | os/src/fs/pipe.rs:26-32 | the write end is writable, not readable, and shares the given buffer |
| Pipes.Pipe.Read | os/src/fs/pipe.rs:139-166 | `read` moves `min(buffer length, available_read)` bytes, the returned size, into the front of the buffer in FIFO order. The rest of the destination is untouched. The ring keeps exactly the bytes not taken. Each inner pass reads at most `available_read` bytes |
| Pipes.Pipe.Write | os/src/fs/pipe.rs:169-191 | `write` moves `min(source length, available_write)` bytes, the returned size, from the front of the source into the ring. They are appended after the waiting bytes in order. Each inner pass writes at most `available_write` bytes |

## Left out

- I/O is modelled by a map from block id to bytes. Device errors, the `Send + Sync + Any` bounds and the `Arc<dyn BlockDevice>` sharing are not modelled.
- Locks are not modelled: `spin::Mutex`, `UPSafeCell` and `exclusive_access`. Every operation is sequential.
- The `lazy_static` global manager becomes one explicitly passed `BlockCacheManager`, bound to one device when it is built. `get_block_cache` keys on the block id alone, as the source does. The case of two devices sharing one manager is therefore not modelled.
- `Arc` reference counting is modelled by an explicit `holders` count per entry: the queue's own slot plus every live handle. Callers drop their handle by `ReleaseHandle`.
- The `panic!("Run out of BlockCache!")` becomes the result `RunOutOfBlockCache`, with the state unchanged.
- The raw-pointer views of `addr_of_offset`, `get_ref` and `get_mut` are modelled as byte sequences. A closure returns the new bytes of the view with its result. The bitmap reads a block as 64 little-endian words, which is the byte order of the targets rCore runs on.
- Bitmaps.Bitmap.Dealloc: the `assert!` that the bit is set becomes a precondition, stated on the block's bytes. `BitInBytesIff` proves this reading equals the word test of the source.
- Bitmaps.Bitmap.Dealloc: a bit at or beyond `maximum()` is not checked by the source. The model follows it and writes the block `decomposition` names, but states the bitmap-level effect only inside `maximum()`.
- Bitmaps.Bitmap.Alloc: the fact that every scanned block is left dirty is stated per pass by `AllocIn`, not by `Alloc`.
- Bitmaps.Bitmap.Alloc: requires that `get_block_cache` can load any block (`CanAcquire`). The source panics only at a miss it actually reaches with no reclaimable entry. A state where every entry is held elsewhere but every block the scan reaches is cached is therefore excluded. `AllocIn`, one pass, requires only that its own block can be served.
- The panics of `get_block_cache` inside `alloc`, `dealloc` and the `modify` statements are preconditions (`Serves`, `CanAcquire`). `GetBlockCache` itself models that panic as its `RunOutOfBlockCache` result.
- `usize` overflow of `block_id * BLOCK_BITS + ...` and of `blocks * BLOCK_BITS` is not modelled. Integers are unbounded.
- Pipes.Pipe.Read: when no bytes are waiting, the source returns if every write end is closed (`all_write_ends_closed`, a `Weak::upgrade` liveness check). Otherwise it yields with `suspend_current_and_run_next` and tries again. The model returns in both cases, so `read` ends once the ring is empty and `all_write_ends_closed` is not modelled.
- Pipes.Pipe.Write: when the ring is full, the source yields and tries again. The model returns.
- `make_pipe` and `set_write_end` are not modelled: they only wire `Arc`s, and the `write_end` weak reference serves only `all_write_ends_closed`.
- The `UserBuffer` iterator is modelled as one destination array for `read` and one source sequence for `write`.
- The `assert!(self.readable())` and `assert!(self.writable())` checks are preconditions.
- os/src/task/task.rs and os/src/task/context.rs are not part of this model: they only set up process and context fields.
