// The sound card's transmit virtqueue: sixteen descriptors, five buffers, an
// available ring and a used ring, with the device completing at any moment and
// in any order (section 2.6 of VIRTIO 1.1).
module SoundQueue {
  import opened Bytes

  const DESCS: nat := 16
  const SLOTS: nat := 5
  const BUFFER_BYTES: nat := 4096

  datatype Addr = Null | Xfer(slot: nat) | Data(slot: nat) | Status(slot: nat)
  datatype Desc = Desc(addr: Addr, len: nat, chained: bool, writable: bool, next: nat)
  datatype Slot = Slot(inUse: bool, d0: int, d1: int, d2: int, data: seq<byte>)

  // ---- Rings with 16-bit indices ----

  function Wrap(i: nat): (w: u16) {
    i % 0x1_0000
  }

  lemma SixteenBits(i: nat)
    ensures Wrap(i) == i % 0x1_0000
  {
  }

  // The ring entries from index `from` on are `items`.
  ghost predicate RingHolds(ring: seq<int>, from: nat, items: seq<int>) {
    && |ring| == DESCS && |items| <= DESCS
    && forall j :: 0 <= j < |items| ==> ring[(from + j) % DESCS] == items[j]
  }

  lemma WrapKeepsPosition(i: nat)
    ensures Wrap(i) % DESCS == i % DESCS
  {
  }

  lemma ModDiffers(a: nat, j: nat, k: nat)
    requires j < k < j + DESCS
    ensures (a + j) % DESCS != (a + k) % DESCS
  {
  }

  // Storing behind the last entry overwrites none.
  lemma RingPush(ring: seq<int>, from: nat, items: seq<int>, idx: nat, x: int)
    requires RingHolds(ring, from, items) && |items| < DESCS && idx == Wrap(from + |items|)
    ensures RingHolds(ring[idx % DESCS := x], from, items + [x])
    ensures Wrap(idx + 1) == Wrap(from + |items + [x]|)
  {
    WrapKeepsPosition(from + |items|);
    forall j | 0 <= j < |items|
      ensures ring[idx % DESCS := x][(from + j) % DESCS] == items[j]
    {
      ModDiffers(from, j, |items|);
    }
    WrapStep(from + |items|);
  }

  lemma WrapStep(i: nat)
    ensures Wrap(Wrap(i) + 1) == Wrap(i + 1)
  {
  }

  lemma WrapSum(i: nat, n: nat)
    ensures Wrap(Wrap(i) + n) == Wrap(i + n)
  {
  }

  // The entry at the front, and the ring behind it.
  lemma RingPop(ring: seq<int>, from: nat, items: seq<int>)
    requires RingHolds(ring, from, items) && items != []
    ensures ring[from % DESCS] == items[0]
    ensures RingHolds(ring, Wrap(from + 1), items[1..])
    ensures Wrap(from + |items|) == Wrap(Wrap(from + 1) + |items[1..]|)
  {
    assert ring[(from + 0) % DESCS] == items[0];
    forall j | 0 <= j < |items| - 1
      ensures ring[(Wrap(from + 1) + j) % DESCS] == items[1..][j]
    {
      WrapSum(from + 1, j);
      WrapKeepsPosition(Wrap(from + 1) + j);
      WrapKeepsPosition(from + 1 + j);
      assert items[1..][j] == items[j + 1] && ring[(from + (j + 1)) % DESCS] == items[j + 1];
    }
    WrapSum(from + 1, |items| - 1);
  }

  // ---- Descriptors and buffers ----

  // An index moves past its partner exactly when entries are left.
  lemma RingEmpty(from: u16, n: nat)
    requires n <= DESCS
    ensures Wrap(from + n) == from <==> n == 0
  {
  }

  predicate Holds(s: Slot, k: int) {
    s.inUse && (k == s.d0 || k == s.d1 || k == s.d2)
  }

  // Three different descriptors.
  predicate Triple(s: Slot) {
    && 0 <= s.d0 < DESCS && 0 <= s.d1 < DESCS && 0 <= s.d2 < DESCS
    && s.d0 != s.d1 && s.d0 != s.d2 && s.d1 != s.d2
  }

  predicate Taken(tx: seq<Slot>, k: int) {
    exists i :: 0 <= i < |tx| && Holds(tx[i], k)
  }

  ghost predicate Apart(tx: seq<Slot>) {
    forall i, j, k :: 0 <= i < j < |tx| && Holds(tx[i], k) ==> !Holds(tx[j], k)
  }

  // Every descriptor is free or belongs to exactly one buffer in use.
  ghost predicate Partition(free: seq<bool>, tx: seq<Slot>) {
    && |free| == DESCS && |tx| == SLOTS
    && (forall i :: 0 <= i < SLOTS && tx[i].inUse ==> Triple(tx[i]))
    && Apart(tx)
    && (forall k :: 0 <= k < DESCS ==> free[k] == !Taken(tx, k))
  }

  // The head descriptors of the buffers in use.
  ghost function Heads(tx: seq<Slot>): (h: multiset<int>)
    ensures |h| <= |tx|
  {
    if tx == [] then multiset{} else
      var s := tx[|tx| - 1];
      Heads(tx[..|tx| - 1]) + if s.inUse then multiset{s.d0} else multiset{}
  }

  ghost function TakenSet(tx: seq<Slot>): (t: set<int>)
    ensures |t| <= 3 * |Heads(tx)|
  {
    if tx == [] then {} else
      var s := tx[|tx| - 1];
      var t := TakenSet(tx[..|tx| - 1]);
      if !s.inUse then t else
        Bound3(t, s.d0, s.d1, s.d2);
        t + {s.d0, s.d1, s.d2}
  }

  lemma Bound3(t: set<int>, a: int, b: int, c: int)
    ensures |t + {a, b, c}| <= |t| + 3
  {
  }

  lemma {:induction false} TakenSetIsTaken(tx: seq<Slot>, k: int)
    ensures k in TakenSet(tx) <==> Taken(tx, k)
  {
    if tx != [] {
      var f := tx[..|tx| - 1];
      TakenSetIsTaken(f, k);
      if Taken(f, k) {
        var i :| 0 <= i < |f| && Holds(f[i], k);
        assert Holds(tx[i], k);
      }
      if Taken(tx, k) && !Holds(tx[|tx| - 1], k) {
        var i :| 0 <= i < |tx| && Holds(tx[i], k);
        assert Holds(f[i], k);
      }
    }
  }

  ghost function FreeSet(free: seq<bool>): set<int> {
    set k | 0 <= k < |free| && free[k]
  }

  lemma HeadsStep(tx: seq<Slot>)
    requires tx != []
    ensures Heads(tx) == Heads(tx[..|tx| - 1]) + InUseHead(tx[|tx| - 1])
  {
  }

  lemma {:induction false} HeadsUpdate(tx: seq<Slot>, i: nat, s: Slot)
    requires i < |tx|
    ensures Heads(tx[i := s]) + InUseHead(tx[i]) == Heads(tx) + InUseHead(s)
    ensures InUseHead(tx[i]) <= Heads(tx)
  {
    hide Heads, InUseHead;
    var f := tx[..|tx| - 1];
    HeadsStep(tx);
    HeadsStep(tx[i := s]);
    if i < |tx| - 1 {
      HeadsUpdate(f, i, s);
      assert tx[i := s][..|tx| - 1] == f[i := s];
      var h, g, last := Heads(f[i := s]), Heads(f), InUseHead(tx[|tx| - 1]);
      assert (h + last) + InUseHead(tx[i]) == (h + InUseHead(f[i])) + last;
      assert (g + last) + InUseHead(s) == (g + InUseHead(s)) + last;
    } else {
      assert tx[i := s][..|tx| - 1] == f;
    }
  }

  ghost function InUseHead(s: Slot): multiset<int> {
    if s.inUse then multiset{s.d0} else multiset{}
  }

  ghost function Range(n: nat): (r: set<int>)
    ensures |r| == n
    ensures forall k :: k in r <==> 0 <= k < n
  {
    if n == 0 then {} else Range(n - 1) + {n - 1}
  }

  // A buffer that is not in use leaves at least four descriptors free.
  lemma EnoughFree(free: seq<bool>, tx: seq<Slot>, i: nat)
    requires Partition(free, tx) && i < SLOTS && !tx[i].inUse
    ensures |FreeSet(free)| >= 4
  {
    hide Heads, TakenSet, Triple, Holds, Taken;
    var s := tx[i].(inUse := true);
    HeadsUpdate(tx, i, s);
    assert Heads(tx[i := s]) + multiset{} == Heads(tx) + multiset{s.d0};
    assert |Heads(tx)| + 1 == |Heads(tx) + multiset{s.d0}|;
    var all := Range(DESCS);
    forall k | k in all
      ensures k in FreeSet(free) || k in TakenSet(tx)
    {
      TakenSetIsTaken(tx, k);
    }
    SubsetSize(all, FreeSet(free) + TakenSet(tx));
    UnionSize(FreeSet(free), TakenSet(tx));
  }

  lemma SubsetSize(a: set<int>, b: set<int>)
    requires a <= b
    ensures |a| <= |b|
  {
    assert b == a + (b - a);
  }

  lemma UnionSize(a: set<int>, b: set<int>)
    ensures |a + b| <= |a| + |b|
  {
  }

  lemma TakenUpdate(tx: seq<Slot>, i: nat, s: Slot, k: int)
    requires i < |tx|
    ensures Taken(tx[i := s], k) <==> Holds(s, k) || exists j :: 0 <= j < |tx| && j != i && Holds(tx[j], k)
  {
    var u := tx[i := s];
    if Holds(s, k) {
      assert Holds(u[i], k);
    }
    if j :| 0 <= j < |tx| && j != i && Holds(tx[j], k) {
      assert Holds(u[j], k);
    }
    if j :| 0 <= j < |tx| && Holds(u[j], k) && j != i {
      assert Holds(tx[j], k);
    }
  }

  function Give(free: seq<bool>, s: Slot, b: bool): seq<bool>
    requires |free| == DESCS && Triple(s)
  {
    free[s.d0 := b][s.d1 := b][s.d2 := b]
  }

  lemma FreeIsNotHeld(free: seq<bool>, tx: seq<Slot>, k: nat)
    requires Partition(free, tx) && k < DESCS && free[k]
    ensures forall j {:trigger tx[j]} :: 0 <= j < SLOTS ==> !Holds(tx[j], k)
  {
  }

  // A buffer takes three free descriptors.
  lemma ClaimKeepsPartition(free: seq<bool>, tx: seq<Slot>, i: nat, s: Slot)
    requires Partition(free, tx) && i < SLOTS && !tx[i].inUse
    requires s.inUse && Triple(s) && free[s.d0] && free[s.d1] && free[s.d2]
    ensures Partition(Give(free, s, false), tx[i := s])
  {
    var u := tx[i := s];
    forall k | 0 <= k < DESCS
      ensures Give(free, s, false)[k] == !Taken(u, k)
    {
      TakenUpdate(tx, i, s, k);
      TakenUpdate(tx, i, tx[i], k);
      assert tx[i := tx[i]] == tx;
    }
    forall a, b, k | 0 <= a < b < SLOTS && Holds(u[a], k)
      ensures !Holds(u[b], k)
    {
      if Holds(s, k) {
        FreeIsNotHeld(free, tx, k);
      }
    }
  }

  // A buffer gives its three descriptors back.
  lemma ReleaseKeepsPartition(free: seq<bool>, tx: seq<Slot>, i: nat)
    requires Partition(free, tx) && i < SLOTS && tx[i].inUse
    ensures Triple(tx[i]) && Partition(Give(free, tx[i], true), tx[i := tx[i].(inUse := false)])
  {
    var s := tx[i].(inUse := false);
    var u := tx[i := s];
    forall k | 0 <= k < DESCS
      ensures Give(free, tx[i], true)[k] == !Taken(u, k)
    {
      TakenUpdate(tx, i, s, k);
      if Holds(tx[i], k) {
        assert !Holds(s, k);
      }
    }
    forall a, b, k | 0 <= a < b < SLOTS && Holds(u[a], k)
      ensures !Holds(u[b], k)
    {
      assert Holds(tx[a], k);
    }
  }

  lemma {:induction false} HeadsHas(tx: seq<Slot>, h: int)
    ensures h in Heads(tx) <==> exists i :: 0 <= i < |tx| && tx[i].inUse && tx[i].d0 == h
  {
    if tx != [] {
      var f := tx[..|tx| - 1];
      HeadsHas(f, h);
      if i :| 0 <= i < |f| && f[i].inUse && f[i].d0 == h {
        assert tx[i].inUse && tx[i].d0 == h;
      }
      if i :| 0 <= i < |tx| && tx[i].inUse && tx[i].d0 == h && i < |f| {
        assert f[i].inUse && f[i].d0 == h;
      }
    }
  }

  lemma {:induction false} HeadsOnce(tx: seq<Slot>, h: int)
    requires Apart(tx)
    ensures Heads(tx)[h] <= 1
  {
    hide Heads;
    if tx == [] {
      HeadsHas(tx, h);
    } else {
      var f := tx[..|tx| - 1];
      HeadsOnce(f, h);
      HeadsStep(tx);
      HeadsHas(f, h);
      if i :| 0 <= i < |f| && f[i].inUse && f[i].d0 == h {
        assert Holds(tx[i], h);
      }
    }
  }

  // ---- What a published head describes ----

  const XFER_BYTES: nat := 4
  const STATUS_BYTES: nat := 8

  // The chain from head h: buffer i's header, its first |bytes| bytes of data,
  // which are `bytes`, and room for the device's answer.
  ghost predicate Carries(desc: seq<Desc>, tx: seq<Slot>, i: int, h: int, bytes: seq<byte>) {
    && 0 <= i < |tx| && tx[i].inUse && tx[i].d0 == h && Triple(tx[i]) && |desc| == DESCS
    && desc[h] == Desc(Xfer(i), XFER_BYTES, true, false, tx[i].d1)
    && desc[tx[i].d1] == Desc(Data(i), |bytes|, true, false, tx[i].d2)
    && desc[tx[i].d2] == Desc(Status(i), STATUS_BYTES, false, true, 0)
    && |bytes| <= |tx[i].data| && tx[i].data[..|bytes|] == bytes
  }

  ghost predicate Posted(desc: seq<Desc>, tx: seq<Slot>, h: int, bytes: seq<byte>) {
    exists i :: Carries(desc, tx, i, h, bytes)
  }

  function SentAs(sent: map<int, seq<byte>>, h: int): seq<byte> {
    if h in sent then sent[h] else []
  }

  ghost predicate AllPosted(desc: seq<Desc>, tx: seq<Slot>, waiting: seq<int>, busy: seq<int>,
      sent: map<int, seq<byte>>) {
    forall h :: h in waiting || h in busy ==> Posted(desc, tx, h, SentAs(sent, h))
  }

  ghost function Bag(sent: map<int, seq<byte>>, hs: seq<int>): multiset<seq<byte>> {
    if hs == [] then multiset{} else Bag(sent, hs[..|hs| - 1]) + multiset{SentAs(sent, hs[|hs| - 1])}
  }

  // ---- Where heads are ----

  // The heads somewhere between the driver's submission and its reclaiming:
  // published, taken by the device, completed.
  ghost function Flying(waiting: seq<int>, busy: seq<int>, done: seq<int>): multiset<int> {
    multiset(waiting) + multiset(busy) + multiset(done)
  }

  // Every submission is played once or still due.
  ghost predicate Ledger(accepted: seq<seq<byte>>, played: seq<seq<byte>>, waiting: seq<int>, busy: seq<int>,
      sent: map<int, seq<byte>>) {
    multiset(accepted) == multiset(played) + Bag(sent, waiting + busy)
  }

  lemma {:induction false} BagConcat(sent: map<int, seq<byte>>, a: seq<int>, b: seq<int>)
    ensures Bag(sent, a + b) == Bag(sent, a) + Bag(sent, b)
  {
    if b == [] {
      assert a + b == a;
    } else {
      var f, x := b[..|b| - 1], multiset{SentAs(sent, b[|b| - 1])};
      BagConcat(sent, a, f);
      assert (a + b)[..|a + b| - 1] == a + f;
      assert Bag(sent, a) + (Bag(sent, f) + x) == (Bag(sent, a) + Bag(sent, f)) + x;
    }
  }

  lemma BagOne(sent: map<int, seq<byte>>, h: int)
    ensures Bag(sent, [h]) == multiset{SentAs(sent, h)}
  {
  }

  lemma {:induction false} BagFrame(sent: map<int, seq<byte>>, hs: seq<int>, d: int, bytes: seq<byte>)
    requires d !in hs
    ensures Bag(sent[d := bytes], hs) == Bag(sent, hs)
  {
    if hs != [] {
      BagFrame(sent, hs[..|hs| - 1], d, bytes);
    }
  }

  // Filling a buffer that is not in use, with descriptors that are free, leaves
  // every published chain as it was.
  lemma FillKeepsPosted(free: seq<bool>, tx: seq<Slot>, desc: seq<Desc>, i: nat, s: Slot, after: seq<Desc>,
      waiting: seq<int>, busy: seq<int>, sent: map<int, seq<byte>>)
    requires Partition(free, tx) && i < SLOTS && !tx[i].inUse
    requires |desc| == |after| == DESCS && forall k :: 0 <= k < DESCS && !free[k] ==> after[k] == desc[k]
    requires AllPosted(desc, tx, waiting, busy, sent)
    ensures AllPosted(after, tx[i := s], waiting, busy, sent)
  {
    forall h | h in waiting || h in busy
      ensures Posted(after, tx[i := s], h, SentAs(sent, h))
    {
      var j :| Carries(desc, tx, j, h, SentAs(sent, h));
      assert Holds(tx[j], h) && Holds(tx[j], tx[j].d1) && Holds(tx[j], tx[j].d2);
      assert Taken(tx, h) && Taken(tx, tx[j].d1) && Taken(tx, tx[j].d2);
      assert Carries(after, tx[i := s], j, h, SentAs(sent, h));
    }
  }

  // Releasing a buffer whose head is completed does too.
  lemma ReleaseKeepsPosted(tx: seq<Slot>, desc: seq<Desc>, i: nat, waiting: seq<int>, busy: seq<int>,
      sent: map<int, seq<byte>>)
    requires i < |tx| && tx[i].d0 !in waiting && tx[i].d0 !in busy && AllPosted(desc, tx, waiting, busy, sent)
    ensures AllPosted(desc, tx[i := tx[i].(inUse := false)], waiting, busy, sent)
  {
    hide Triple;
    forall h | h in waiting || h in busy
      ensures Posted(desc, tx[i := tx[i].(inUse := false)], h, SentAs(sent, h))
    {
      var j :| Carries(desc, tx, j, h, SentAs(sent, h));
      assert Carries(desc, tx[i := tx[i].(inUse := false)], j, h, SentAs(sent, h));
    }
  }

  lemma RingLength(ring: seq<int>, from: nat, items: seq<int>)
    requires RingHolds(ring, from, items)
    ensures |ring| == DESCS
  {
  }

  // The device takes the oldest published head.
  lemma TakeMoves(desc: seq<Desc>, tx: seq<Slot>, accepted: seq<seq<byte>>, played: seq<seq<byte>>, waiting: seq<int>,
      busy: seq<int>, done: seq<int>, sent: map<int, seq<byte>>)
    requires waiting != [] && AllPosted(desc, tx, waiting, busy, sent) && Ledger(accepted, played, waiting, busy, sent)
    ensures Flying(waiting[1..], busy + [waiting[0]], done) == Flying(waiting, busy, done)
    ensures AllPosted(desc, tx, waiting[1..], busy + [waiting[0]], sent)
    ensures Ledger(accepted, played, waiting[1..], busy + [waiting[0]], sent)
  {
    hide Bag, Posted, Ledger;
    var h, w := [waiting[0]], waiting[1..];
    assert waiting == h + w;
    assert multiset(waiting) == multiset(h) + multiset(w);
    assert multiset(busy + h) == multiset(busy) + multiset(h);
    TakeKeepsBag(sent, h, w, busy);
    LedgerSame(accepted, played, waiting, busy, w, busy + h, sent);
  }

  lemma TakeKeepsBag(sent: map<int, seq<byte>>, h: seq<int>, w: seq<int>, busy: seq<int>)
    ensures Bag(sent, w + (busy + h)) == Bag(sent, (h + w) + busy)
  {
    hide Bag;
    BagConcat(sent, h + w, busy);
    BagConcat(sent, h, w);
    BagConcat(sent, w, busy + h);
    BagConcat(sent, busy, h);
  }

  lemma LedgerSame(accepted: seq<seq<byte>>, played: seq<seq<byte>>, waiting: seq<int>, busy: seq<int>,
      waiting': seq<int>, busy': seq<int>, sent: map<int, seq<byte>>)
    requires Ledger(accepted, played, waiting, busy, sent) && Bag(sent, waiting + busy) == Bag(sent, waiting' + busy')
    ensures Ledger(accepted, played, waiting', busy', sent)
  {
  }

  // The device completes the k-th head it has taken.
  lemma FinishMoves(desc: seq<Desc>, tx: seq<Slot>, accepted: seq<seq<byte>>, played: seq<seq<byte>>, waiting: seq<int>,
      busy: seq<int>, done: seq<int>, sent: map<int, seq<byte>>, k: nat)
    requires k < |busy| && AllPosted(desc, tx, waiting, busy, sent) && Ledger(accepted, played, waiting, busy, sent)
    ensures var b := busy[..k] + busy[k + 1..];
      && Flying(waiting, b, done + [busy[k]]) == Flying(waiting, busy, done)
      && AllPosted(desc, tx, waiting, b, sent)
      && Ledger(accepted, played + [SentAs(sent, busy[k])], waiting, b, sent)
  {
    hide Bag, Posted;
    var x, y, h := busy[..k], busy[k + 1..], [busy[k]];
    assert busy == x + (h + y);
    BagConcat(sent, waiting, x + (h + y));
    BagConcat(sent, x, h + y);
    BagConcat(sent, h, y);
    BagConcat(sent, waiting, x + y);
    BagConcat(sent, x, y);
    BagOne(sent, busy[k]);
    LedgerMoves(multiset(accepted), multiset(played), Bag(sent, waiting), Bag(sent, x), Bag(sent, y),
        multiset{SentAs(sent, busy[k])});
    assert multiset(busy) == multiset(x) + (multiset(h) + multiset(y));
    assert forall g :: g in x + y ==> g in busy;
  }

  lemma LedgerMoves(a: multiset<seq<byte>>, p: multiset<seq<byte>>, w: multiset<seq<byte>>, x: multiset<seq<byte>>,
      y: multiset<seq<byte>>, h: multiset<seq<byte>>)
    requires a == p + (w + (x + (h + y)))
    ensures a == (p + h) + (w + (x + y))
  {
  }

  // What the device finds when it follows a chain.
  lemma ChainOf(desc: seq<Desc>, tx: seq<Slot>, waiting: seq<int>, busy: seq<int>, sent: map<int, seq<byte>>, h: int)
    requires AllPosted(desc, tx, waiting, busy, sent) && h in busy
    ensures 0 <= h < |desc| == DESCS && desc[h].next < DESCS
    ensures var d1 := desc[desc[h].next]; var bytes := SentAs(sent, h);
      && d1.addr.Data? && d1.addr.slot < |tx| && d1.len <= |tx[d1.addr.slot].data|
      && tx[d1.addr.slot].data[..d1.len] == bytes
      && d1.next < DESCS && desc[d1.next].addr == Status(d1.addr.slot) && desc[d1.next].writable
  {
  }

  lemma NothingInUse(tx: seq<Slot>)
    requires forall i :: 0 <= i < |tx| ==> !tx[i].inUse
    ensures Heads(tx) == multiset{}
  {
  }

  lemma FreeSetLess(free: seq<bool>, d: int)
    requires 0 <= d < |free|
    ensures |FreeSet(free[d := false])| >= |FreeSet(free)| - 1
  {
    assert FreeSet(free) <= FreeSet(free[d := false]) + {d};
    SubsetSize(FreeSet(free), FreeSet(free[d := false]) + {d});
    UnionSize(FreeSet(free[d := false]), {d});
  }

  // The driver reclaims the oldest completed head: exactly one buffer has it,
  // and no chain still published starts there.
  lemma ReclaimHead(free: seq<bool>, tx: seq<Slot>, waiting: seq<int>, busy: seq<int>, done: seq<int>)
    requires Partition(free, tx) && Flying(waiting, busy, done) == Heads(tx) && done != []
    ensures exists i :: 0 <= i < SLOTS && tx[i].inUse && tx[i].d0 == done[0]
    ensures done[0] !in waiting && done[0] !in busy && done[0] !in done[1..]
  {
    var h := done[0];
    HeadsHas(tx, h);
    HeadsOnce(tx, h);
    assert done == [h] + done[1..];
    assert multiset(done) == multiset{h} + multiset(done[1..]);
    assert Flying(waiting, busy, done)[h] == multiset(waiting)[h] + multiset(busy)[h] + 1 + multiset(done[1..])[h];
  }

  lemma ReleaseHeads(free: seq<bool>, tx: seq<Slot>, i: nat, waiting: seq<int>, busy: seq<int>, done: seq<int>)
    requires Partition(free, tx) && i < |tx| && tx[i].inUse && done != [] && tx[i].d0 == done[0]
    requires Flying(waiting, busy, done) == Heads(tx)
    ensures var u := tx[i := tx[i].(inUse := false)];
      && Flying(waiting, busy, done[1..]) == Heads(u)
      && Heads(u) + multiset{done[0]} == Heads(tx) && done[0] !in Heads(u)
  {
    hide Heads;
    var u, one := tx[i := tx[i].(inUse := false)], multiset{done[0]};
    HeadsUpdate(tx, i, tx[i].(inUse := false));
    HeadsOnce(tx, done[0]);
    assert done == [done[0]] + done[1..];
    assert multiset(done) == one + multiset(done[1..]);
    var f := Flying(waiting, busy, done[1..]);
    assert Heads(u) + one == Heads(tx) == f + one;
    assert Heads(u) == (Heads(u) + one) - one && f == (f + one) - one;
  }

  // A filled buffer's head joins those in use; publishing it makes it fly.
  lemma FillHeads(tx: seq<Slot>, i: nat, s: Slot)
    requires i < |tx| && !tx[i].inUse && s.inUse
    ensures Heads(tx[i := s]) == Heads(tx) + multiset{s.d0}
  {
    hide Heads;
    HeadsUpdate(tx, i, s);
  }

  lemma FlyingSize(waiting: seq<int>, busy: seq<int>, done: seq<int>)
    ensures |Flying(waiting, busy, done)| == |waiting| + |busy| + |done|
  {
  }

  lemma NotFlying(waiting: seq<int>, busy: seq<int>, done: seq<int>, d: int)
    requires d !in Flying(waiting, busy, done)
    ensures d !in waiting && d !in busy && d !in done
  {
  }

  // What a filled buffer publishes.
  lemma FillCarries(desc: seq<Desc>, tx: seq<Slot>, i: nat, bytes: seq<byte>)
    requires i < |tx| && tx[i].inUse && Triple(tx[i]) && |desc| == DESCS && |bytes| <= |tx[i].data|
    requires tx[i].data[..|bytes|] == bytes
    requires desc[tx[i].d0] == Desc(Xfer(i), XFER_BYTES, true, false, tx[i].d1)
    requires desc[tx[i].d1] == Desc(Data(i), |bytes|, true, false, tx[i].d2)
    requires desc[tx[i].d2] == Desc(Status(i), STATUS_BYTES, false, true, 0)
    ensures Posted(desc, tx, tx[i].d0, bytes)
  {
    assert Carries(desc, tx, i, tx[i].d0, bytes);
  }

  lemma FreshHead(free: seq<bool>, tx: seq<Slot>, d: nat, waiting: seq<int>, busy: seq<int>, done: seq<int>)
    requires Partition(free, tx) && d < DESCS && free[d] && Flying(waiting, busy, done) == Heads(tx)
    ensures d !in Flying(waiting, busy, done)
  {
    hide Heads;
    HeadsHas(tx, d);
    FreeIsNotHeld(free, tx, d);
  }

  lemma PublishMoves(desc: seq<Desc>, tx: seq<Slot>, accepted: seq<seq<byte>>, played: seq<seq<byte>>,
      waiting: seq<int>, busy: seq<int>, done: seq<int>, sent: map<int, seq<byte>>, d: int, bytes: seq<byte>)
    requires AllPosted(desc, tx, waiting, busy, sent) && Ledger(accepted, played, waiting, busy, sent)
    requires d !in waiting && d !in busy && Posted(desc, tx, d, bytes)
    ensures Flying(waiting + [d], busy, done) == Flying(waiting, busy, done) + multiset{d}
    ensures AllPosted(desc, tx, waiting + [d], busy, sent[d := bytes])
    ensures Ledger(accepted + [bytes], played, waiting + [d], busy, sent[d := bytes])
  {
    hide Bag, Posted;
    var after := sent[d := bytes];
    assert multiset(waiting + [d]) == multiset(waiting) + multiset{d};
    forall h | h in waiting + [d] || h in busy
      ensures Posted(desc, tx, h, SentAs(after, h))
    {
      if h != d {
        assert h in waiting || h in busy;
        assert SentAs(after, h) == SentAs(sent, h);
      }
    }
    BagFrame(sent, waiting, d, bytes);
    BagFrame(sent, busy, d, bytes);
    BagConcat(sent, waiting, busy);
    BagConcat(after, waiting + [d], busy);
    BagConcat(after, waiting, [d]);
    BagOne(after, d);
    assert multiset(accepted + [bytes]) == multiset(accepted) + multiset{bytes};
    PublishLedger(multiset(accepted), multiset(played), Bag(sent, waiting), Bag(sent, busy), multiset{bytes});
  }

  lemma PublishLedger(a: multiset<seq<byte>>, p: multiset<seq<byte>>, w: multiset<seq<byte>>, b: multiset<seq<byte>>,
      x: multiset<seq<byte>>)
    requires a == p + (w + b)
    ensures a + x == p + ((w + x) + b)
  {
  }
}
