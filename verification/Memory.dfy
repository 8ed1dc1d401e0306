// The physical page allocator: a free list threaded through the free pages.
module Memory {
  import opened Sv39

  const JUNK_FREED: u64 := 0x0101_0101_0101_0101  // memset(pa, 1)
  const JUNK_TAKEN: u64 := 0x0505_0505_0505_0505  // memset(pa, 5)

  // Address of the first listed page, or 0.
  ghost function Head(free: seq<nat>): nat {
    if free == [] then 0 else PAGE_SIZE * free[0]
  }

  // The first word of each free page holds the address of the next.
  ghost predicate Chain(ram: seq<Page>, freelist: nat, free: seq<nat>) {
    && |ram| == RAM_PAGES
    && freelist == Head(free)
    && (forall i :: 0 <= i < |free| ==> 0 < free[i] < RAM_PAGES && ram[free[i]][0] == Head(free[i + 1..]))
    && (forall i, j :: 0 <= i < j < |free| ==> free[i] != free[j])
  }

  // The links alone say which pages are free: the list they spell is unique.
  lemma {:induction false} ChainUnique(ram: seq<Page>, freelist: nat, free: seq<nat>, free': seq<nat>)
    requires Chain(ram, freelist, free) && Chain(ram, freelist, free')
    ensures free == free'
    decreases |free|
  {
    ChainFirst(ram, freelist, free);
    ChainFirst(ram, freelist, free');
    hide Chain, Head;
    if free != [] {
      ChainTail(ram, freelist, free);
      ChainTail(ram, freelist, free');
      ChainUnique(ram, ram[free[0]][0], free[1..], free'[1..]);
      assert free == [free[0]] + free[1..] && free' == [free'[0]] + free'[1..];
    }
  }

  // The list's first page is the address its head holds.
  lemma ChainFirst(ram: seq<Page>, freelist: nat, free: seq<nat>)
    requires Chain(ram, freelist, free)
    ensures free == [] <==> freelist == 0
    ensures free != [] ==> freelist == PAGE_SIZE * free[0] && free[0] < |ram|
  {
  }

  lemma ChainTail(ram: seq<Page>, freelist: nat, free: seq<nat>)
    requires Chain(ram, freelist, free) && free != []
    ensures free[0] < |ram| && Chain(ram, ram[free[0]][0], free[1..])
  {
    assert free[1..] == free[0 + 1..];
    var rest := free[1..];
    forall i | 0 <= i < |rest|
      ensures ram[rest[i]][0] == Head(rest[i + 1..])
    {
      assert rest[i] == free[i + 1] && rest[i + 1..] == free[i + 2..];
    }
  }

  class PageAllocator {
    var ram: seq<Page>
    var freelist: nat
    ghost var free: seq<nat>

    ghost predicate Linked()
      reads this
    {
      Chain(ram, freelist, free)
    }

    lemma ListedOnce()
      requires Linked()
      ensures |ram| == RAM_PAGES
      ensures forall i, j :: 0 <= i < j < |free| ==> free[i] != free[j]
    {
    }

    // free_range: every page of [first, end) becomes free.
    constructor InitFreeRange(first: nat, end: nat)
      requires 0 < first <= end <= RAM_PAGES
      ensures Linked()
      ensures |free| == end - first && forall p :: p in free <==> first <= p < end
    {
      ram := seq(RAM_PAGES, _ => Filled(0));
      freelist := 0;
      free := [];
      new;
      for p := first to end
        invariant Linked() && |free| == p - first
        invariant forall q :: q in free <==> first <= q < p
      {
        Kfree(p);
      }
    }

    method Kfree(p: nat)
      requires Linked() && 0 < p < RAM_PAGES && p !in free
      modifies this
      ensures Linked()
      ensures free == [p] + old(free)
      ensures |ram| == |old(ram)| && forall q :: 0 <= q < |ram| && q != p ==> ram[q] == old(ram)[q]
    {
      assert 0 <= freelist < 0x1_0000_0000_0000_0000;
      ghost var was := free;
      ram := ram[p := Filled(JUNK_FREED)[0 := freelist]];
      freelist := PAGE_SIZE * p;
      free := [p] + free;
      forall i | 0 <= i < |free|
        ensures 0 < free[i] < RAM_PAGES && ram[free[i]][0] == Head(free[i + 1..])
      {
        if i > 0 {
          assert free[i] == was[i - 1] && free[i + 1..] == was[i..];
        } else {
          assert free[1..] == was;
        }
      }
    }

    // A page, or 0 when none is left.
    method Kalloc() returns (p: nat)
      requires Linked()
      modifies this
      ensures Linked()
      ensures p == 0 <==> old(free) == []
      ensures p == 0 ==> ram == old(ram) && free == []
      ensures p != 0 ==> p < RAM_PAGES && old(free)[0] == p && free == old(free)[1..]
      ensures |ram| == |old(ram)| && forall q :: 0 <= q < |ram| && q != p ==> ram[q] == old(ram)[q]
    {
      p := freelist / PAGE_SIZE;
      if p != 0 {
        ghost var was := free;
        assert was[1..] == was[0 + 1..];
        freelist := ram[p][0];
        ram := ram[p := Filled(JUNK_TAKEN)];
        free := was[1..];
        forall i | 0 <= i < |free|
          ensures 0 < free[i] < RAM_PAGES && ram[free[i]][0] == Head(free[i + 1..])
        {
          assert free[i] == was[i + 1] && free[i + 1..] == was[i + 2..];
        }
      }
    }

    // Stores to a page that is in use.
    method Store(p: nat, page: Page)
      requires Linked() && 0 < p < RAM_PAGES && p !in free
      modifies this`ram
      ensures Linked()
      ensures ram == old(ram)[p := page]
    {
      ram := ram[p := page];
    }
  }
}
