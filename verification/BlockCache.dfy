// The write-back LRU block cache between the file system and the block device.
module BlockCache {
  import opened Bytes
  import opened Recency

  const DISK_CACHE_BLOCKS: nat := 128  // 64 KiB of 512-byte blocks

  datatype Entry = Entry(valid: bool, dirty: bool, blockNo: nat, lastUsed: nat, data: Block)

  // Entry i of the cache holds block b.
  ghost predicate Holds(cache: seq<Entry>, i: nat, b: nat) {
    i < |cache| && cache[i].valid && cache[i].blockNo == b
  }

  ghost predicate Cached(cache: seq<Entry>, b: nat) {
    exists i: nat :: Holds(cache, i, b)
  }

  // Valid entries hold distinct blocks of the device, clean ones equal it, and
  // `contents` is the device with the cached blocks written over it.
  ghost predicate Coherent(cache: seq<Entry>, device: seq<Block>, contents: seq<Block>) {
    && |contents| == |device|
    && (forall i :: 0 <= i < |cache| && cache[i].valid ==>
          && cache[i].blockNo < |device|
          && cache[i].data == contents[cache[i].blockNo]
          && (!cache[i].dirty ==> cache[i].data == device[cache[i].blockNo]))
    && (forall i, j :: 0 <= i < j < |cache| && cache[i].valid && cache[j].valid ==>
          cache[i].blockNo != cache[j].blockNo)
    && (forall b :: 0 <= b < |device| && contents[b] != device[b] ==> Cached(cache, b))
  }

  // `order` lists exactly the valid entries, each once ...
  ghost predicate Listed(cache: seq<Entry>, order: seq<nat>) {
    && NoDup(order)
    && (forall a :: 0 <= a < |order| ==> order[a] < |cache| && cache[order[a]].valid)
    && (forall i: nat :: i < |cache| && cache[i].valid ==> i in order)
  }

  // ... with falling time stamps ...
  ghost predicate Descending(cache: seq<Entry>, clock: nat, order: seq<nat>)
    requires Listed(cache, order)
  {
    && (forall a, c :: 0 <= a < c < |order| ==> cache[order[a]].lastUsed > cache[order[c]].lastUsed)
    && (forall a :: 0 <= a < |order| ==> cache[order[a]].lastUsed <= clock)
  }

  // ... and holding the |order| most recently accessed blocks.
  ghost predicate Newest(cache: seq<Entry>, recent: seq<nat>, order: seq<nat>)
    requires Listed(cache, order)
  {
    && |order| <= |recent|
    && (forall a :: 0 <= a < |order| ==> cache[order[a]].blockNo == recent[a])
  }

  ghost predicate Ordered(cache: seq<Entry>, clock: nat, recent: seq<nat>, order: seq<nat>) {
    && Listed(cache, order)
    && Descending(cache, clock, order)
    && Newest(cache, recent, order)
  }

  class DiskCache {
    const blockCache: array<Entry>
    var clock: nat
    var device: seq<Block>
    // true when the device completes every request for a block it has
    const reliable: bool

    ghost var contents: seq<Block>  // the abstract disk
    ghost var trace: seq<nat>       // successful accesses, oldest first
    ghost var recent: seq<nat>      // the distinct blocks accessed, latest first
    ghost var order: seq<nat>       // valid entries, most recently used first
    ghost var readFailed: bool      // some device read has failed

    ghost predicate Coupled()
      reads this, blockCache
    {
      && blockCache.Length == DISK_CACHE_BLOCKS
      && |contents| == |device|
      && Coherent(blockCache[..], device, contents)
      && recent == Recent(trace)
      && Ordered(blockCache[..], clock, recent, order)
    }

    ghost predicate Valid()
      reads this, blockCache
    {
      && Coupled()
      && (!readFailed ==> |order| == Min(DISK_CACHE_BLOCKS, |recent|))
    }

    constructor (dev: seq<Block>, healthy: bool)
      ensures Valid() && fresh(blockCache)
      ensures device == dev && contents == dev && reliable == healthy
      ensures trace == [] && !readFailed
    {
      blockCache := new Entry[DISK_CACHE_BLOCKS](_ => Entry(false, false, 0, 0, Zeros(BLOCK_SIZE)));
      clock := 0;
      device := dev;
      reliable := healthy;
      contents, trace, recent, order, readFailed := dev, [], [], [], false;
    }

    // The cache holds the |order| most recently accessed blocks; without a
    // failed read, that is as many as fit.
    lemma CachedAreMostRecent(b: nat)
      requires Valid()
      ensures |order| <= |Recent(trace)|
      ensures Cached(blockCache[..], b) <==> b in Recent(trace)[..|order|]
      ensures !readFailed ==> |order| == Min(DISK_CACHE_BLOCKS, |Recent(trace)|)
    {
      var cache := blockCache[..];
      if Cached(cache, b) {
        var i: nat :| Holds(cache, i, b);
        var a :| 0 <= a < |order| && order[a] == i;
        assert recent[..|order|][a] == b;
      }
      if b in recent[..|order|] {
        var a :| 0 <= a < |order| && recent[a] == b;
        assert Holds(cache, order[a], b);
      }
    }

    // virtio_blk_rw, reading: the device may refuse.
    method DeviceRead(blockNo: nat) returns (ok: bool, data: Block)
      ensures ok ==> blockNo < |device| && data == device[blockNo]
      ensures reliable && blockNo < |device| ==> ok
    {
      var answered: bool := *;
      if blockNo < |device| && (reliable || answered) {
        return true, device[blockNo];
      }
      return false, Zeros(BLOCK_SIZE);
    }

    // virtio_blk_rw, writing: a refused write stops the kernel.
    method DeviceWrite(blockNo: nat, data: Block)
      requires blockNo < |device|
      modifies this`device
      ensures device == old(device)[blockNo := data]
    {
      device := device[blockNo := data];
    }

    method CacheLookup(blockNo: nat) returns (entry: int)
      requires Coupled()
      ensures entry == -1 || (0 <= entry && Holds(blockCache[..], entry, blockNo))
      ensures entry == -1 ==> !Cached(blockCache[..], blockNo)
    {
      hide Coherent, Listed, Descending, Newest, Recent;
      for i := 0 to DISK_CACHE_BLOCKS
        invariant forall j: nat :: j < i ==> !Holds(blockCache[..], j, blockNo)
      {
        if blockCache[i].valid && blockCache[i].blockNo == blockNo {
          return i;
        }
      }
      return -1;
    }

    method CacheTouch(entry: nat)
      requires Coupled() && entry < DISK_CACHE_BLOCKS && blockCache[entry].valid
      modifies this`clock, this`trace, this`order, this`recent, blockCache
      ensures Coupled()
      ensures clock == old(clock) + 1
      ensures blockCache[..] == old(blockCache[..])[entry := old(blockCache[entry]).(lastUsed := clock)]
      ensures trace == old(trace) + [blockCache[entry].blockNo]
      ensures |order| == |old(order)|
      ensures |recent| == |old(recent)|
    {
      hide Coherent, Listed, Descending, Newest, Recent;
      ghost var before := blockCache[..];
      clock := clock + 1;
      blockCache[entry] := blockCache[entry].(lastUsed := clock);
      assert blockCache[..] == before[entry := before[entry].(lastUsed := clock)];
      order, recent := TouchOrder(before, clock - 1, trace, order, entry);
      trace := trace + [blockCache[entry].blockNo];
      TouchCoherent(before, device, contents, entry, clock);
    }

    method CacheFlushEntry(entry: nat)
      requires Coupled() && entry < DISK_CACHE_BLOCKS
      modifies this`device, blockCache
      ensures Coupled()
      ensures blockCache[..] == old(blockCache[..])[entry := old(blockCache[entry]).(dirty := blockCache[entry].dirty)]
      ensures blockCache[entry].valid ==> !blockCache[entry].dirty
      ensures |device| == |old(device)|
    {
      hide Listed, Descending, Newest, Recent;
      if !blockCache[entry].valid || !blockCache[entry].dirty {
        return;
      }
      ghost var before := blockCache[..];
      FlushCoherent(before, device, contents, entry);
      DeviceWrite(blockCache[entry].blockNo, blockCache[entry].data);
      blockCache[entry] := blockCache[entry].(dirty := false);
      assert blockCache[..] == before[entry := before[entry].(dirty := false)];
      SameOrder(before, blockCache[..], clock, recent, order);
    }

    // Flushes the least recently used entry and drops it.
    method CacheEvict(victim: nat)
      requires Coupled() && victim < DISK_CACHE_BLOCKS && blockCache[victim].valid
      requires forall i :: 0 <= i < DISK_CACHE_BLOCKS ==> blockCache[victim].lastUsed <= blockCache[i].lastUsed
      modifies this`device, this`order, blockCache
      ensures Coupled() && |device| == |old(device)|
      ensures !blockCache[victim].valid
      ensures |order| == |old(order)| - 1
      ensures forall b: nat :: Cached(blockCache[..], b) ==> Cached(old(blockCache[..]), b)
    {
      hide Coherent, Listed, Descending, Newest, Recent;
      ghost var start := blockCache[..];
      CacheFlushEntry(victim);
      ghost var before := blockCache[..];
      blockCache[victim] := blockCache[victim].(valid := false, dirty := false);
      assert blockCache[..] == before[victim := before[victim].(valid := false, dirty := false)];
      EvictCoherent(before, device, contents, victim);
      EvictUncaches(start, blockCache[..], victim);
      EvictOrder(before, blockCache[..], clock, recent, order, victim);
      order := order[..|order| - 1];
    }

    // Hands out an invalid entry: the first one, or else the least recently
    // used entry once it is flushed and dropped.
    method CacheAllocEntry() returns (victim: nat)
      requires Coupled()
      modifies this`device, this`order, blockCache
      ensures Coupled() && |device| == |old(device)|
      ensures victim < DISK_CACHE_BLOCKS && !blockCache[victim].valid
      ensures |order| == Min(|old(order)|, DISK_CACHE_BLOCKS - 1)
      ensures forall b: nat :: Cached(blockCache[..], b) ==> Cached(old(blockCache[..]), b)
    {
      hide Coherent, Descending, Newest, Listed, Cached, Recent;
      OrderFull(blockCache[..], order);
      victim := 0;
      for i := 0 to DISK_CACHE_BLOCKS
        invariant victim < DISK_CACHE_BLOCKS
        invariant forall j :: 0 <= j < i ==>
                blockCache[..][j].valid && blockCache[victim].lastUsed <= blockCache[j].lastUsed
      {
        if !blockCache[i].valid {
          assert !blockCache[..][i].valid;
          return i;
        }
        if i == 0 || blockCache[i].lastUsed < blockCache[victim].lastUsed {
          victim := i;
        }
      }
      CacheEvict(victim);
    }

    // Fills a free entry, which becomes the most recently used one.
    method CacheFill(slot: nat, e: Entry)
      requires Coupled() && slot < DISK_CACHE_BLOCKS && !blockCache[slot].valid
      requires !Cached(blockCache[..], e.blockNo)
      requires e.valid && e.lastUsed == clock + 1 && e.blockNo < |device|
      requires !e.dirty ==> e.data == device[e.blockNo]
      modifies this`order, this`recent, this`clock, this`trace, this`contents, blockCache
      ensures Coupled()
      ensures blockCache[..] == old(blockCache[..])[slot := e]
      ensures contents == old(contents)[e.blockNo := e.data]
      ensures trace == old(trace) + [e.blockNo]
      ensures |order| == |old(order)| + 1
      ensures |old(order)| == |old(recent)| ==> |recent| == |order|
      ensures |old(recent)| <= |recent|
    {
      hide Coherent, Listed, Descending, Newest, Holds, Cached, Recent;
      ghost var before := blockCache[..];
      blockCache[slot] := e;
      assert blockCache[..] == before[slot := e];
      clock := clock + 1;
      recent := InsertOrder(before, clock - 1, trace, order, slot, e);
      InsertCoherent(before, device, contents, slot, e);
      order := [slot] + order;
      trace := trace + [e.blockNo];
      contents := contents[e.blockNo := e.data];
    }

    method CacheMiss(blockNo: nat) returns (entry: int)
      requires Valid() && !Cached(blockCache[..], blockNo)
      modifies this`device, this`order, this`recent, this`clock, this`trace, this`readFailed, this`contents, blockCache
      ensures Valid() && contents == old(contents)
      ensures entry == -1 || (0 <= entry && Holds(blockCache[..], entry, blockNo))
      ensures reliable && blockNo < |contents| ==> entry != -1
      ensures trace == if entry == -1 then old(trace) else old(trace) + [blockNo]
      ensures readFailed == (old(readFailed) || entry == -1)
    {
      hide Coherent, Listed, Descending, Newest, Cached, Recent;
      entry := CacheAllocEntry();
      var ok, data := DeviceRead(blockNo);
      if !ok {
        readFailed := true;
        return -1;
      }
      UncachedIsOnDevice(blockCache[..], device, contents, blockNo);
      CacheFill(entry, Entry(true, false, blockNo, clock + 1, data));
    }

    method CacheLoadEntry(blockNo: nat) returns (entry: int)
      requires Valid()
      modifies this`device, this`order, this`recent, this`clock, this`trace, this`readFailed, this`contents, blockCache
      ensures Valid() && contents == old(contents)
      ensures entry == -1 || (0 <= entry && Holds(blockCache[..], entry, blockNo))
      ensures reliable && blockNo < |contents| ==> entry != -1
      ensures trace == if entry == -1 then old(trace) else old(trace) + [blockNo]
      ensures readFailed == (old(readFailed) || entry == -1)
    {
      hide Coherent, Listed, Descending, Newest, Recent;
      entry := CacheLookup(blockNo);
      if entry != -1 {
        CacheTouch(entry);
      } else {
        entry := CacheMiss(blockNo);
      }
    }

    // disk_read: zero means the device failed and the buffer was not filled.
    method DiskRead(blockNo: nat) returns (n: nat, buf: Block)
      requires Valid()
      modifies this`device, this`order, this`recent, this`clock, this`trace, this`readFailed, this`contents, blockCache
      ensures Valid() && contents == old(contents)
      ensures n == 0 || n == BLOCK_SIZE
      ensures n == BLOCK_SIZE ==> blockNo < |contents| && buf == contents[blockNo]
      ensures reliable && blockNo < |contents| ==> n == BLOCK_SIZE
      ensures trace == if n == 0 then old(trace) else old(trace) + [blockNo]
      ensures readFailed == (old(readFailed) || n == 0)
    {
      hide Listed, Descending, Newest, Recent;
      var entry := CacheLoadEntry(blockNo);
      if entry == -1 {
        return 0, Zeros(BLOCK_SIZE);
      }
      return BLOCK_SIZE, blockCache[entry].data;
    }

    method DiskWrite(blockNo: nat, buf: Block)
      requires Valid() && blockNo < |contents|
      modifies this`device, this`order, this`recent, this`clock, this`trace, this`contents, blockCache
      ensures Valid()
      ensures contents == old(contents)[blockNo := buf]
      ensures trace == old(trace) + [blockNo]
    {
      hide Coherent, Listed, Descending, Newest, Recent;
      var entry := CacheLookup(blockNo);
      if entry == -1 {
        entry := CacheAllocEntry();
        CacheFill(entry, Entry(true, true, blockNo, clock + 1, buf));
      } else {
        CacheOverwrite(entry, buf);
        CacheTouch(entry);
      }
    }

    // The write hit: the new data stays in the cache, marked dirty.
    method CacheOverwrite(entry: nat, buf: Block)
      requires Coupled() && entry < DISK_CACHE_BLOCKS && blockCache[entry].valid
      modifies this`contents, blockCache
      ensures Coupled()
      ensures blockCache[..] == old(blockCache[..])[entry := old(blockCache[entry]).(data := buf, dirty := true)]
      ensures contents == old(contents)[blockCache[entry].blockNo := buf]
    {
      hide Listed, Descending, Newest, Recent;
      ghost var before := blockCache[..];
      OverwriteCoherent(before, device, contents, entry, buf);
      contents := contents[blockCache[entry].blockNo := buf];
      blockCache[entry] := blockCache[entry].(data := buf, dirty := true);
      assert blockCache[..] == before[entry := before[entry].(data := buf, dirty := true)];
      SameOrder(before, blockCache[..], clock, recent, order);
    }

    method DiskFlush()
      requires Valid()
      modifies this`device, blockCache
      ensures Valid()
      ensures device == contents
    {
      hide Listed, Descending, Newest, Recent;
      for i := 0 to DISK_CACHE_BLOCKS
        invariant Valid()
        invariant forall j :: 0 <= j < i && blockCache[j].valid ==> !blockCache[j].dirty
      {
        CacheFlushEntry(i);
      }
      AllClean(blockCache[..], device, contents);
    }
  }

  // With no dirty entry left, the device is the abstract disk.
  lemma AllClean(cache: seq<Entry>, device: seq<Block>, contents: seq<Block>)
    requires Coherent(cache, device, contents)
    requires forall i :: 0 <= i < |cache| && cache[i].valid ==> !cache[i].dirty
    ensures device == contents
  {
  }

  // The order depends on the valid flags, block numbers and time stamps alone.
  lemma SameOrder(c: seq<Entry>, d: seq<Entry>, clock: nat, recent: seq<nat>, order: seq<nat>)
    requires |c| == |d|
    requires forall i :: 0 <= i < |c| ==>
               d[i].valid == c[i].valid && d[i].blockNo == c[i].blockNo && d[i].lastUsed == c[i].lastUsed
    requires Ordered(c, clock, recent, order)
    ensures Ordered(d, clock, recent, order)
  {
  }

  // Changing an entry but not its block keeps every block that was held, held.
  lemma StillHeld(cache: seq<Entry>, entry: nat, e: Entry, b: nat)
    requires entry < |cache| && e.valid == cache[entry].valid && e.blockNo == cache[entry].blockNo
    requires Cached(cache, b)
    ensures Cached(cache[entry := e], b)
  {
    var i: nat :| Holds(cache, i, b);
    assert Holds(cache[entry := e], i, b);
  }

  lemma TouchCoherent(cache: seq<Entry>, device: seq<Block>, contents: seq<Block>, entry: nat, stamp: nat)
    requires Coherent(cache, device, contents) && entry < |cache|
    ensures Coherent(cache[entry := cache[entry].(lastUsed := stamp)], device, contents)
  {
    forall b: nat | Cached(cache, b) {
      StillHeld(cache, entry, cache[entry].(lastUsed := stamp), b);
    }
  }

  lemma FlushCoherent(cache: seq<Entry>, device: seq<Block>, contents: seq<Block>, entry: nat)
    requires Coherent(cache, device, contents) && entry < |cache| && cache[entry].valid
    ensures cache[entry].blockNo < |device|
    ensures Coherent(cache[entry := cache[entry].(dirty := false)], device[cache[entry].blockNo := cache[entry].data],
            contents)
  {
    forall b: nat | Cached(cache, b) {
      StillHeld(cache, entry, cache[entry].(dirty := false), b);
    }
  }

  lemma OverwriteCoherent(cache: seq<Entry>, device: seq<Block>, contents: seq<Block>, entry: nat, buf: Block)
    requires Coherent(cache, device, contents) && entry < |cache| && cache[entry].valid
    ensures cache[entry].blockNo < |device|
    ensures Coherent(cache[entry := cache[entry].(data := buf, dirty := true)], device,
            contents[cache[entry].blockNo := buf])
  {
    assert Holds(cache, entry, cache[entry].blockNo);
    assert Cached(cache, cache[entry].blockNo);
    forall b: nat | Cached(cache, b) {
      StillHeld(cache, entry, cache[entry].(data := buf, dirty := true), b);
    }
  }

  // Entries are all valid exactly when the order lists that many.
  lemma OrderFull(cache: seq<Entry>, order: seq<nat>)
    requires Listed(cache, order)
    ensures |order| <= |cache|
    ensures |order| == |cache| <==> forall i :: 0 <= i < |cache| ==> cache[i].valid
  {
    NoDupFills(order, |cache|);
    if forall i :: 0 <= i < |cache| ==> cache[i].valid {
      assert Elems(order) == Below(|cache|);
    }
    if Elems(order) == Below(|cache|) {
      forall i | 0 <= i < |cache|
        ensures cache[i].valid
      {
        assert i in Elems(order);
      }
    }
  }

  // Moving entry order[p] to the front.
  lemma TouchOrder(cache: seq<Entry>, clock: nat, trace: seq<nat>, order: seq<nat>, entry: nat)
      returns (order': seq<nat>, recent': seq<nat>)
    requires Ordered(cache, clock, Recent(trace), order) && entry < |cache| && cache[entry].valid
    ensures recent' == Recent(trace + [cache[entry].blockNo])
    ensures Ordered(cache[entry := cache[entry].(lastUsed := clock + 1)], clock + 1, recent', order')
    ensures |order'| == |order| && |recent'| == |Recent(trace)|
  {
    var p :| 0 <= p < |order| && order[p] == entry;
    order' := [entry] + Drop(order, p);
    recent' := [cache[entry].blockNo] + Drop(Recent(trace), p);
    var cache' := cache[entry := cache[entry].(lastUsed := clock + 1)];
    RecentStep(trace, cache[entry].blockNo, p);
    TouchListed(cache, cache', order, p, order');
    TouchDescending(cache, clock, order, p, order');
    TouchNewest(cache, cache', Recent(trace), order, p, order');
  }

  // The entries other than the one touched, and where they were.
  lemma TouchPositions(cache: seq<Entry>, order: seq<nat>, p: nat, order': seq<nat>)
    requires Listed(cache, order) && p < |order| && order' == [order[p]] + Drop(order, p)
    ensures forall a {:trigger order'[a]} :: 1 <= a < |order'| ==>
        order'[a] == order[if a <= p then a - 1 else a] && order'[a] != order[p]
  {
    forall a | 1 <= a < |order'|
      ensures order'[a] == order[if a <= p then a - 1 else a] && order'[a] != order[p]
    {
      assert order'[a] == Drop(order, p)[a - 1];
    }
  }

  lemma TouchDescending(cache: seq<Entry>, clock: nat, order: seq<nat>, p: nat, order': seq<nat>)
    requires Listed(cache, order) && Descending(cache, clock, order) && p < |order|
    requires order' == [order[p]] + Drop(order, p)
    requires Listed(cache[order[p] := cache[order[p]].(lastUsed := clock + 1)], order')
    ensures Descending(cache[order[p] := cache[order[p]].(lastUsed := clock + 1)], clock + 1, order')
  {
    var cache' := cache[order[p] := cache[order[p]].(lastUsed := clock + 1)];
    TouchPositions(cache, order, p, order');
    hide Listed, Drop;
    forall a, c | 0 <= a < c < |order'|
      ensures cache'[order'[a]].lastUsed > cache'[order'[c]].lastUsed
    {
      var c0 := if c <= p then c - 1 else c;
      if a > 0 {
        var a0 := if a <= p then a - 1 else a;
        assert cache[order[a0]].lastUsed > cache[order[c0]].lastUsed;
      }
    }
  }

  lemma TouchNewest(cache: seq<Entry>, cache': seq<Entry>, recent: seq<nat>, order: seq<nat>, p: nat, order': seq<nat>)
    requires Listed(cache, order) && Newest(cache, recent, order) && p < |order|
    requires order' == [order[p]] + Drop(order, p) && Listed(cache', order')
    requires |cache'| == |cache| && forall i :: 0 <= i < |cache| ==> cache'[i].blockNo == cache[i].blockNo
    ensures Newest(cache', [recent[p]] + Drop(recent, p), order')
  {
    forall a | 1 <= a < |order'|
      ensures cache'[order'[a]].blockNo == ([recent[p]] + Drop(recent, p))[a]
    {
      assert order'[a] == order[if a <= p then a - 1 else a];
    }
  }

  lemma TouchListed(cache: seq<Entry>, cache': seq<Entry>, order: seq<nat>, p: nat, order': seq<nat>)
    requires Listed(cache, order) && p < |order|
    requires |cache'| == |cache| && forall i :: 0 <= i < |cache| ==> cache'[i].valid == cache[i].valid
    requires order' == [order[p]] + Drop(order, p)
    ensures Listed(cache', order')
  {
    forall i: nat | i < |cache| && cache'[i].valid
      ensures i in order'
    {
      assert cache[i].valid;
      var a :| 0 <= a < |order| && order[a] == i;
      assert a == p || order'[if a < p then a + 1 else a] == i;
    }
  }

  // The entry with the smallest time stamp is the last one listed.
  lemma EvictedIsLast(cache: seq<Entry>, clock: nat, order: seq<nat>, victim: nat)
    requires Listed(cache, order) && Descending(cache, clock, order)
    requires victim < |cache| && cache[victim].valid
    requires forall i :: 0 <= i < |cache| ==> cache[victim].lastUsed <= cache[i].lastUsed
    ensures |order| > 0 && order[|order| - 1] == victim
  {
  }

  lemma EvictListed(cache: seq<Entry>, cache': seq<Entry>, order: seq<nat>, victim: nat)
    requires Listed(cache, order) && |order| > 0 && order[|order| - 1] == victim
    requires cache' == cache[victim := cache[victim].(valid := false, dirty := false)]
    ensures Listed(cache', order[..|order| - 1])
  {
  }

  lemma EvictOrder(cache: seq<Entry>, cache': seq<Entry>, clock: nat, recent: seq<nat>, order: seq<nat>, victim: nat)
    requires Listed(cache, order) && Descending(cache, clock, order) && Newest(cache, recent, order)
    requires victim < |cache| && cache[victim].valid
    requires forall i :: 0 <= i < |cache| ==> cache[victim].lastUsed <= cache[i].lastUsed
    requires cache' == cache[victim := cache[victim].(valid := false, dirty := false)]
    ensures |order| > 0
    ensures Listed(cache', order[..|order| - 1])
    ensures Descending(cache', clock, order[..|order| - 1]) && Newest(cache', recent, order[..|order| - 1])
  {
    EvictedIsLast(cache, clock, order, victim);
    EvictListed(cache, cache', order, victim);
    var order' := order[..|order| - 1];
    forall a | 0 <= a < |order'|
      ensures order'[a] == order[a] && cache'[order'[a]] == cache[order[a]]
    {
    }
  }

  lemma InsertOrder(cache: seq<Entry>, clock: nat, trace: seq<nat>, order: seq<nat>, slot: nat, e: Entry)
      returns (recent': seq<nat>)
    requires Ordered(cache, clock, Recent(trace), order) && slot < |cache| && !cache[slot].valid
    requires e.valid && e.lastUsed == clock + 1
    requires !Cached(cache, e.blockNo)
    ensures recent' == Recent(trace + [e.blockNo])
    ensures Ordered(cache[slot := e], clock + 1, recent', [slot] + order)
    ensures |order| == |Recent(trace)| ==> |recent'| == |order| + 1
    ensures |Recent(trace)| <= |recent'|
  {
    var recent := Recent(trace);
    recent' := Recent(trace + [e.blockNo]);
    InsertIsNew(cache, recent, order, e.blockNo);
    RecentStepPrefix(trace, e.blockNo, |order|);
    InsertListed(cache, order, slot, e);
    InsertDescending(cache, clock, order, slot, e);
    InsertNewest(cache, recent, recent', order, slot, e);
    assert |order| == |recent| ==> recent[..|order|] == recent;
  }

  lemma InsertIsNew(cache: seq<Entry>, recent: seq<nat>, order: seq<nat>, b: nat)
    requires Listed(cache, order) && Newest(cache, recent, order)
    requires !Cached(cache, b)
    ensures b !in recent[..|order|]
  {
    forall a | 0 <= a < |order|
      ensures recent[a] != b
    {
      assert !Holds(cache, order[a], b);
    }
  }

  lemma InsertDescending(cache: seq<Entry>, clock: nat, order: seq<nat>, slot: nat, e: Entry)
    requires Listed(cache, order) && Descending(cache, clock, order) && slot < |cache| && !cache[slot].valid
    requires Listed(cache[slot := e], [slot] + order) && e.lastUsed == clock + 1
    ensures Descending(cache[slot := e], clock + 1, [slot] + order)
  {
  }

  lemma InsertListed(cache: seq<Entry>, order: seq<nat>, slot: nat, e: Entry)
    requires Listed(cache, order) && slot < |cache| && !cache[slot].valid && e.valid
    ensures Listed(cache[slot := e], [slot] + order)
  {
  }

  lemma InsertNewest(cache: seq<Entry>, recent: seq<nat>, recent': seq<nat>, order: seq<nat>, slot: nat, e: Entry)
    requires Listed(cache, order) && Newest(cache, recent, order) && slot < |cache| && !cache[slot].valid
    requires Listed(cache[slot := e], [slot] + order)
    requires |order| + 1 <= |recent'| && recent'[..|order| + 1] == [e.blockNo] + recent[..|order|]
    ensures Newest(cache[slot := e], recent', [slot] + order)
  {
    forall a | 0 <= a <= |order|
      ensures cache[slot := e][([slot] + order)[a]].blockNo == recent'[a]
    {
      assert recent'[a] == recent'[..|order| + 1][a];
    }
  }

  // A new entry shows its data at its block and nothing else.
  lemma InsertCoherent(cache: seq<Entry>, device: seq<Block>, contents: seq<Block>, slot: nat, e: Entry)
    requires Coherent(cache, device, contents) && slot < |cache| && !cache[slot].valid
    requires !Cached(cache, e.blockNo)
    requires e.valid && e.blockNo < |device| && (!e.dirty ==> e.data == device[e.blockNo])
    ensures Coherent(cache[slot := e], device, contents[e.blockNo := e.data])
  {
    var cache' := cache[slot := e];
    assert Holds(cache', slot, e.blockNo);
    forall i | 0 <= i < |cache| && cache[i].valid
      ensures cache[i].blockNo != e.blockNo
    {
      assert !Holds(cache, i, e.blockNo);
    }
    forall b | 0 <= b < |device| && contents[b] != device[b]
      ensures Cached(cache', b)
    {
      var i: nat :| Holds(cache, i, b);
      assert Holds(cache', i, b);
    }
  }

  // Invalidating an entry caches nothing new.
  lemma EvictUncaches(c: seq<Entry>, d: seq<Entry>, victim: nat)
    requires |c| == |d| && victim < |c| && !d[victim].valid
    requires forall i :: 0 <= i < |c| && i != victim ==> c[i].valid == d[i].valid && c[i].blockNo == d[i].blockNo
    ensures forall b: nat :: Cached(d, b) ==> Cached(c, b)
  {
    forall b: nat | Cached(d, b)
      ensures Cached(c, b)
    {
      var i: nat :| Holds(d, i, b);
      assert Holds(c, i, b);
    }
  }

  lemma UncachedIsOnDevice(cache: seq<Entry>, device: seq<Block>, contents: seq<Block>, b: nat)
    requires Coherent(cache, device, contents) && b < |device|
    requires !Cached(cache, b)
    ensures contents[b] == device[b]
  {
  }

  // A clean entry can be dropped without changing the abstract disk.
  lemma EvictCoherent(cache: seq<Entry>, device: seq<Block>, contents: seq<Block>, victim: nat)
    requires Coherent(cache, device, contents) && victim < |cache|
    requires cache[victim].valid ==> !cache[victim].dirty
    ensures Coherent(cache[victim := cache[victim].(valid := false, dirty := false)], device, contents)
  {
    var cache' := cache[victim := cache[victim].(valid := false, dirty := false)];
    forall b | 0 <= b < |device| && contents[b] != device[b]
      ensures Cached(cache', b)
    {
      var i: nat :| Holds(cache, i, b);
      assert Holds(cache', i, b);
    }
  }

}
