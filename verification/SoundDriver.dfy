// The driver's and the device's steps on the transmit queue. The device may take
// any number of steps between the driver's, also between storing an entry in the
// available ring and publishing it.
module SoundDriver {
  import opened Bytes
  import opened SoundQueue

  // (n / 4) * 4: whole frames only
  function AlignDown(n: nat): (a: nat)
    ensures a <= n < a + 4 && a % 4 == 0
  {
    n / 4 * 4
  }

  // How many bytes of a write of n one buffer takes.
  function Accepts(n: nat): nat {
    if n < BUFFER_BYTES then AlignDown(n) else BUFFER_BYTES
  }

  class TxQueue {
    const freeDesc: array<bool>
    const desc: array<Desc>
    const tx: array<Slot>
    const avail: array<int>   // q->avail->ring
    const used: array<int>    // q->used->ring
    const status: array<nat>  // tx[i].status.status, written by the device
    var availIdx: u16         // q->avail->idx
    var usedIdx: u16          // q->used->idx, written by the device
    var lastUsed: u16         // q->used_idx
    var lastAvail: u16        // the device's own position in the available ring
    var busy: seq<int>        // heads the device has taken and not completed
    var played: seq<seq<byte>>          // what the device has played
    ghost var waiting: seq<int>         // published and not taken
    ghost var done: seq<int>            // completed and not reclaimed
    ghost var sent: map<int, seq<byte>>  // what each published head stands for
    ghost var accepted: seq<seq<byte>>  // every buffer ever submitted

    ghost predicate Shapes() {
      && freeDesc.Length == desc.Length == avail.Length == used.Length == DESCS
      && tx.Length == status.Length == SLOTS && avail != used
    }

    ghost function Flight(): multiset<int>
      reads this
    {
      Flying(waiting, busy, done)
    }

    // Both rings hold exactly the heads they should, every head published stands
    // for the bytes submitted, and each submission is played once or still due.
    ghost predicate Rings()
      reads this, desc, tx, avail, used
    {
      && Shapes()
      && RingHolds(avail[..], lastAvail, waiting) && availIdx == Wrap(lastAvail + |waiting|)
      && RingHolds(used[..], lastUsed, done) && usedIdx == Wrap(lastUsed + |done|)
      && |waiting| + |busy| + |done| <= SLOTS
      && AllPosted(desc[..], tx[..], waiting, busy, sent)
      && Ledger(accepted, played, waiting, busy, sent)
    }

    ghost predicate Buffers()
      reads this, tx
    {
      forall i :: 0 <= i < tx.Length ==> |tx[i].data| == BUFFER_BYTES
    }

    ghost predicate Valid()
      reads this, freeDesc, desc, tx, avail, used
    {
      Shapes() && Rings() && Buffers() && Partition(freeDesc[..], tx[..]) && Flight() == Heads(tx[..])
    }

    // setup_queue, on zeroed memory
    constructor ()
      ensures Valid() && waiting == busy == done == [] && accepted == played == []
      ensures fresh(freeDesc) && fresh(desc) && fresh(tx) && fresh(avail) && fresh(used) && fresh(status)
    {
      freeDesc := new bool[DESCS](_ => true);
      desc := new Desc[DESCS](_ => Desc(Null, 0, false, false, 0));
      tx := new Slot[SLOTS](_ => Slot(false, 0, 0, 0, seq(BUFFER_BYTES, _ => 0)));
      avail := new int[DESCS](_ => 0);
      used := new int[DESCS](_ => 0);
      status := new nat[SLOTS](_ => 0);
      availIdx, usedIdx, lastUsed, lastAvail := 0, 0, 0, 0;
      busy, waiting, done, sent, accepted, played := [], [], [], map[], [], [];
      new;
      NothingInUse(tx[..]);
    }

    // ---- The device ----

    method DeviceTake()
      requires Rings() && waiting != []
      modifies this`lastAvail, this`busy, this`waiting
      ensures Rings() && Flight() == old(Flight())
      ensures busy == old(busy) + [old(waiting)[0]] && waiting == old(waiting)[1..]
    {
      hide RingHolds, AllPosted, Ledger, Wrap, Flying;
      RingPop(avail[..], lastAvail, waiting);
      RingLength(avail[..], lastAvail, waiting);
      TakeMoves(desc[..], tx[..], accepted, played, waiting, busy, done, sent);
      var h := avail[lastAvail % DESCS];
      SixteenBits(lastAvail + 1);
      lastAvail := (lastAvail + 1) % 0x1_0000;
      busy := busy + [h];
      waiting := waiting[1..];
    }

    // Follow a chain: the bytes it holds and the buffer whose status it names.
    method ReadChain(h: int) returns (bytes: seq<byte>, slot: nat)
      requires Rings() && h in busy
      ensures bytes == SentAs(sent, h) && slot < SLOTS
    {
      hide RingHolds, AllPosted, Ledger, Wrap;
      ChainOf(desc[..], tx[..], waiting, busy, sent, h);
      var d1 := desc[desc[h].next];
      bytes := tx[d1.addr.slot].data[..d1.len];
      slot := desc[d1.next].addr.slot;
    }

    // Finish the k-th head taken: play what its chain holds, and answer.
    method DeviceComplete(k: nat, answer: nat)
      requires Rings() && k < |busy|
      modifies this`usedIdx, this`busy, this`done, this`played, used, status
      ensures Rings() && Flight() == old(Flight())
      ensures busy == old(busy[..k] + busy[k + 1..]) && done == old(done) + [old(busy)[k]]
      ensures played == old(played) + [SentAs(sent, old(busy)[k])]
    {
      hide RingHolds, AllPosted, Ledger, Wrap, Flying;
      var h := busy[k];
      var bytes, slot := ReadChain(h);
      RingLength(used[..], lastUsed, done);
      RingPush(used[..], lastUsed, done, usedIdx, h);
      FinishMoves(desc[..], tx[..], accepted, played, waiting, busy, done, sent, k);
      status[slot] := answer;
      played := played + [bytes];
      used[usedIdx % DESCS] := h;
      SixteenBits(usedIdx + 1);
      usedIdx := (usedIdx + 1) % 0x1_0000;
      busy := busy[..k] + busy[k + 1..];
      done := done + [h];
    }

    // What the device tests is whether a published head is left.
    lemma MoreWaiting()
      requires Rings()
      ensures availIdx != lastAvail <==> waiting != []
    {
      RingEmpty(lastAvail, |waiting|);
    }

    // Any number of device steps, in any order.
    method DeviceRuns()
      requires Rings()
      modifies this`lastAvail, this`usedIdx, this`busy, this`waiting, this`done, this`played, used, status
      ensures Rings() && Flight() == old(Flight())
      ensures old(done) <= done && old(played) <= played
    {
      hide Rings, Flight;
      var steps: nat := *;
      while steps > 0
        invariant Rings() && Flight() == old(Flight())
        invariant old(done) <= done && old(played) <= played
      {
        var k: nat := *;
        var answer: nat := *;
        var take: bool := *;
        if take && availIdx != lastAvail {
          MoreWaiting();
          DeviceTake();
        } else if k < |busy| {
          DeviceComplete(k, answer);
        }
        steps := steps - 1;
      }
    }

    // ---- The driver ----

    // q_alloc_desc: the first free descriptor, or -1
    method AllocDesc() returns (d: int)
      requires freeDesc.Length == DESCS
      modifies freeDesc
      ensures d == -1 ==> FreeSet(old(freeDesc[..])) == {}
      ensures d != -1 ==> 0 <= d < DESCS && old(freeDesc[d]) && forall j :: 0 <= j < d ==> !old(freeDesc[j])
      ensures freeDesc[..] == if d == -1 then old(freeDesc[..]) else old(freeDesc[..])[d := false]
    {
      for i := 0 to DESCS
        invariant forall j :: 0 <= j < i ==> !freeDesc[j]
        invariant freeDesc[..] == old(freeDesc[..])
      {
        if freeDesc[i] {
          freeDesc[i] := false;
          return i;
        }
      }
      return -1;
    }

    // q_free_desc
    method FreeDesc(idx: int)
      requires freeDesc.Length == DESCS
      modifies freeDesc
      ensures freeDesc[..] == if 0 <= idx < DESCS then old(freeDesc[..])[idx := true] else old(freeDesc[..])
    {
      if idx < 0 || idx >= freeDesc.Length {
        return;
      }
      freeDesc[idx] := true;
    }

    // Three descriptors, which a buffer that is not in use guarantees.
    method AllocThree(slot: nat) returns (d0: int, d1: int, d2: int)
      requires Shapes() && slot < SLOTS && Partition(freeDesc[..], tx[..]) && !tx[slot].inUse
      modifies freeDesc
      ensures 0 <= d0 < DESCS && 0 <= d1 < DESCS && 0 <= d2 < DESCS && d0 != d1 && d0 != d2 && d1 != d2
      ensures old(freeDesc[d0]) && old(freeDesc[d1]) && old(freeDesc[d2])
      ensures freeDesc[..] == old(freeDesc[..])[d0 := false][d1 := false][d2 := false]
    {
      hide Partition;
      EnoughFree(freeDesc[..], tx[..], slot);
      ghost var f := freeDesc[..];
      d0 := AllocDesc();
      FreeSetLess(f, d0);
      d1 := AllocDesc();
      FreeSetLess(f[d0 := false], d1);
      d2 := AllocDesc();
    }

    // What the driver tests is whether a completed head is left.
    lemma MoreDone()
      requires Rings()
      ensures usedIdx != lastUsed <==> done != []
    {
      RingEmpty(lastUsed, |done|);
    }

    // One turn of snd_tx_reclaim.
    method ReclaimOne()
      requires Valid() && done != []
      modifies this`lastUsed, this`done, freeDesc, tx
      ensures Valid() && done == old(done)[1..]
      ensures Heads(tx[..]) + multiset{old(done)[0]} == old(Heads(tx[..]))
      ensures old(done)[0] !in Heads(tx[..])
      ensures Released(old(tx[..]), tx[..])
    {
      hide RingHolds, AllPosted, Ledger, Wrap, Flying, Partition, Heads, Triple, Give;
      RingPop(used[..], lastUsed, done);
      RingLength(used[..], lastUsed, done);
      var head := used[lastUsed % DESCS];
      ReclaimHead(freeDesc[..], tx[..], waiting, busy, done);
      ghost var txs, free := tx[..], freeDesc[..];
      var i := 0;
      while !(tx[i].inUse && tx[i].d0 == head)
        invariant 0 <= i < SLOTS
        invariant forall j :: 0 <= j < i ==> !(tx[j].inUse && tx[j].d0 == head)
        decreases SLOTS - i
      {
        i := i + 1;
      }
      Release(i);
      ReleaseHeads(free, txs, i, waiting, busy, done);
      ReleaseKeepsPosted(txs, desc[..], i, waiting, busy, sent);
      SixteenBits(lastUsed + 1);
      lastUsed := (lastUsed + 1) % 0x1_0000;
      done := done[1..];
    }

    // Give a buffer's descriptors back.
    method Release(i: nat)
      requires Shapes() && Partition(freeDesc[..], tx[..]) && i < SLOTS && tx[i].inUse
      modifies freeDesc, tx
      ensures Partition(freeDesc[..], tx[..])
      ensures tx[..] == old(tx[..])[i := old(tx[i]).(inUse := false)]
    {
      hide Partition;
      ReleaseKeepsPartition(freeDesc[..], tx[..], i);
      FreeDesc(tx[i].d0);
      FreeDesc(tx[i].d1);
      FreeDesc(tx[i].d2);
      tx[i] := tx[i].(inUse := false);
    }

    // snd_tx_reclaim: release the buffer of every head the device has completed.
    method Reclaim()
      requires Valid()
      modifies this`lastAvail, this`usedIdx, this`lastUsed, this`busy, this`waiting, this`done, this`played
      modifies used, status, freeDesc, tx
      ensures Valid()
      ensures forall h :: h in old(done) ==> h !in Heads(tx[..])
      ensures Released(old(tx[..]), tx[..])
    {
      hide Rings, Partition, Flying, Heads, Released;
      ghost var reclaimed: seq<int> := [];
      ghost var before := tx[..];
      ReleasedNone(before);
      DeviceRuns();
      while usedIdx != lastUsed
        invariant Valid()
        invariant old(done) <= reclaimed + done
        invariant forall h :: h in reclaimed ==> h !in Heads(tx[..])
        invariant Released(before, tx[..])
        decreases |Heads(tx[..])|
      {
        MoreDone();
        ghost var head := done[0];
        ghost var txs := tx[..];
        ReclaimOne();
        ReleasedMore(before, txs, tx[..]);
        reclaimed := reclaimed + [head];
        DeviceRuns();
      }
      MoreDone();
    }

    // Copy the bytes into a buffer that is not in use and chain its descriptors.
    method Fill(slot: nat, bytes: seq<byte>, d0: nat, d1: nat, d2: nat, ghost free: seq<bool>)
      requires Rings() && Buffers() && Partition(free, tx[..]) && Flight() == Heads(tx[..])
      requires slot < SLOTS && !tx[slot].inUse && |bytes| <= BUFFER_BYTES
      requires d0 < DESCS && d1 < DESCS && d2 < DESCS && d0 != d1 && d0 != d2 && d1 != d2
      requires free[d0] && free[d1] && free[d2]
      modifies desc, tx, status
      ensures Rings() && Buffers() && Partition(free[d0 := false][d1 := false][d2 := false], tx[..])
      ensures Flight() + multiset{d0} == Heads(tx[..]) && d0 !in Flight()
      ensures Posted(desc[..], tx[..], d0, bytes)
      ensures tx[..] == old(tx[..])[slot := tx[slot]]
    {
      hide RingHolds, AllPosted, Ledger, Wrap, Flying, Heads, Partition, Posted, FreeSet;
      ghost var txs, descs := tx[..], desc[..];
      var data := bytes + tx[slot].data[|bytes|..];
      status[slot] := 0;
      desc[d0] := Desc(Xfer(slot), XFER_BYTES, true, false, d1);
      desc[d1] := Desc(Data(slot), |bytes|, true, false, d2);
      desc[d2] := Desc(Status(slot), STATUS_BYTES, false, true, 0);
      var s := Slot(true, d0, d1, d2, data);
      tx[slot] := s;
      assert tx[..] == txs[slot := s];
      FreshHead(free, txs, d0, waiting, busy, done);
      FillHeads(txs, slot, s);
      ClaimKeepsPartition(free, txs, slot, s);
      FillKeepsPosted(free, txs, descs, slot, s, desc[..], waiting, busy, sent);
      FillCarries(desc[..], tx[..], slot, bytes);
    }

    // queue_submit_async
    method SubmitAsync(head: int, ghost bytes: seq<byte>)
      requires Rings() && Posted(desc[..], tx[..], head, bytes) && head !in Flight() && |Flight()| < SLOTS
      modifies this`availIdx, this`waiting, this`sent, this`accepted, avail
      modifies this`lastAvail, this`usedIdx, this`busy, this`done, this`played, used, status
      ensures Rings() && Flight() == old(Flight()) + multiset{head} && accepted == old(accepted) + [bytes]
    {
      hide AllPosted, Ledger, Wrap, Flying, Posted;
      ghost var ring := avail[..];
      RingPush(ring, lastAvail, waiting, availIdx, head);
      var at := availIdx % DESCS;
      avail[at] := head;
      RingPrefix(avail[..], lastAvail, waiting, head);
      DeviceRuns();
      Publish(at, head, bytes);
    }

    // q->avail->idx++, which shows the device the entry just stored
    method Publish(at: nat, head: int, ghost bytes: seq<byte>)
      requires Rings() && Posted(desc[..], tx[..], head, bytes) && head !in Flight() && |Flight()| < SLOTS
      requires at == availIdx % DESCS && avail[at] == head
      modifies this`availIdx, this`waiting, this`sent, this`accepted
      ensures Rings() && Flight() == old(Flight()) + multiset{head} && accepted == old(accepted) + [bytes]
    {
      hide AllPosted, Ledger, Wrap, Flying, Posted, RingHolds;
      FlyingSize(waiting, busy, done);
      NotFlying(waiting, busy, done, head);
      RingLength(avail[..], lastAvail, waiting);
      RingPush(avail[..], lastAvail, waiting, availIdx, head);
      assert avail[..][at := head] == avail[..];
      PublishMoves(desc[..], tx[..], accepted, played, waiting, busy, done, sent, head, bytes);
      SixteenBits(availIdx + 1);
      availIdx := (availIdx + 1) % 0x1_0000;
      waiting := waiting + [head];
      sent := sent[head := bytes];
      accepted := accepted + [bytes];
    }

    // virtio_sound_write. Its answer for descriptors that run out never occurs.
    method Write(ready: bool, buf: seq<byte>, n: nat) returns (r: int)
      requires Valid() && n <= |buf|
      modifies this`availIdx, this`waiting, this`sent, this`accepted, this`lastUsed, avail, freeDesc, tx, desc
      modifies this`lastAvail, this`usedIdx, this`busy, this`done, this`played, used, status
      ensures Valid()
      ensures if !ready || n < 4 then r == -1 else r == 0 || r == Accepts(n)
      ensures r <= 0 ==> accepted == old(accepted)
      ensures r > 0 ==> accepted == old(accepted) + [buf[..r]]
      ensures r == 0 ==> old(done) == [] && forall i :: 0 <= i < SLOTS ==> tx[i] == old(tx[i]) && tx[i].inUse
    {
      hide Rings, Partition, Flying, Heads, Released, Posted, Triple, AllPosted, AlignDown;
      if !ready || n < 4 {
        return -1;
      }
      var aligned := AlignDown(n);
      if aligned > BUFFER_BYTES {
        aligned := BUFFER_BYTES;
      }
      Reclaim();
      var slot := 0;
      while slot < SLOTS && tx[slot].inUse
        invariant slot <= SLOTS && forall j :: 0 <= j < slot ==> tx[j].inUse
      {
        slot := slot + 1;
      }
      if slot == SLOTS {
        NoneReleased(old(tx[..]), tx[..]);
        NoneDone(old(tx[..]), old(waiting), old(busy), old(done));
        return 0;
      }
      DeviceRuns();
      ghost var free := freeDesc[..];
      var d0, d1, d2 := AllocThree(slot);
      DeviceRuns();
      Fill(slot, buf[..aligned], d0, d1, d2, free);
      DeviceRuns();
      SubmitAsync(d0, buf[..aligned]);
      DeviceRuns();
      return aligned;
    }
  }

  // Some buffers were released and nothing else changed.
  ghost predicate Released(before: seq<Slot>, after: seq<Slot>) {
    && |before| == |after|
    && forall i :: 0 <= i < |before| ==>
        after[i] == before[i] || (before[i].inUse && after[i] == before[i].(inUse := false))
  }

  lemma ReleasedNone(before: seq<Slot>)
    ensures Released(before, before)
  {
  }

  lemma ReleasedMore(a: seq<Slot>, b: seq<Slot>, c: seq<Slot>)
    requires Released(a, b) && Released(b, c)
    ensures Released(a, c)
  {
  }

  lemma NoneReleased(a: seq<Slot>, b: seq<Slot>)
    requires Released(a, b) && forall i :: 0 <= i < |b| ==> b[i].inUse
    ensures a == b
  {
  }

  // An entry stored past the last one is not an entry yet.
  lemma RingPrefix(ring: seq<int>, from: nat, items: seq<int>, x: int)
    requires RingHolds(ring, from, items + [x])
    ensures RingHolds(ring, from, items)
  {
    forall j | 0 <= j < |items|
      ensures ring[(from + j) % DESCS] == items[j]
    {
      assert (items + [x])[j] == items[j];
    }
  }

  // A completed head belongs to a buffer in use.
  lemma NoneDone(tx: seq<Slot>, waiting: seq<int>, busy: seq<int>, done: seq<int>)
    requires Flying(waiting, busy, done) == Heads(tx) && forall h :: h in done ==> h !in Heads(tx)
    ensures done == []
  {
    if done != [] {
      DoneFlies(done[0], waiting, busy, done);
    }
  }

  lemma DoneFlies(h: int, waiting: seq<int>, busy: seq<int>, done: seq<int>)
    requires done != [] && h == done[0]
    ensures h in done && h in Flying(waiting, busy, done)
  {
    assert h in multiset(done);
  }
}
