// brk, mmap and munmap on the current process's address space.
module UserMemory {
  import opened BitStrings
  import opened Sv39
  import opened Ownership
  import opened PageTables
  import opened Memory
  import opened FreeSpace
  import opened AddressSpace
  import opened Mmu
  import opened Fork

  const WORD_END: nat := 0x1_0000_0000_0000_0000

  // ROUNDUP(x, PAGE_SIZE) on 64-bit addresses, as a page number.
  function PageUp(x: nat): nat {
    (x + PAGE_SIZE - 1) % WORD_END / PAGE_SIZE
  }

  // It is the first page boundary at or above the address.
  lemma PageUpRounds(x: nat)
    requires x + PAGE_SIZE <= WORD_END
    ensures x <= PAGE_SIZE * PageUp(x) < x + PAGE_SIZE
  {
  }

  // Too near the top of the address space it wraps to nothing.
  lemma PageUpWraps(x: nat)
    requires x < WORD_END < x + PAGE_SIZE
    ensures PageUp(x) == 0
  {
  }

  predicate InRange(from: nat, to: nat, i1: nat, i0: nat) {
    from <= Vpn(i1, i0) < to
  }

  // ---- munmap ----

  // Process pid's pages in [from, to) are gone and their private frames free;
  // every other mapping and every other page in use is as it was.
  ghost predicate Unmapped(ram: seq<Page>, role: map<nat, Role>, ram': seq<Page>, role': map<nat, Role>,
      roots: seq<nat>, pid: nat, from: nat, to: nat) {
    && |ram'| == |ram| && role'.Keys == role.Keys && |roots| == MAX_PROCS
    && (forall p :: p in role ==>
          role'[p] == if role[p].Own? && role[p].pid == pid && role[p].pos.Frame?
              && InRange(from, to, role[p].pos.i1, role[p].pos.i0)
                      then Free else role[p])
    && (forall p: nat :: p < |ram| && !(p in role && Changeable(role'[p], pid)) ==> ram'[p] == ram[p])
    && (forall q, i1, i0 {:trigger Leaf(ram', roots[q], i1, i0)} ::
        0 <= q < MAX_PROCS && 0 <= i1 < PTES && 0 <= i0 < PTES && roots[q] != 0 ==>
          Leaf(ram', roots[q], i1, i0) == if q == pid && InRange(from, to, i1, i0) then 0
              else Leaf(ram, roots[q], i1, i0))
  }

  lemma UnmappedNothing(ram: seq<Page>, role: map<nat, Role>, roots: seq<nat>, pid: nat, from: nat)
    requires |roots| == MAX_PROCS
    ensures Unmapped(ram, role, ram, role, roots, pid, from, from)
  {
  }

  // An address with no mapping: the range grows for free.
  lemma UnmappedHole(ram: seq<Page>, role: map<nat, Role>, ram1: seq<Page>, role1: map<nat, Role>, roots: seq<nat>,
      kroot: nat, pid: nat, from: nat, vpn: nat)
    requires Unmapped(ram, role, ram1, role1, roots, pid, from, vpn) && Owned(ram1, roots, kroot, role1)
    requires pid < MAX_PROCS && roots[pid] != 0 && InUser(vpn) && from <= vpn
    requires !V(Leaf(ram1, roots[pid], Px(1, vpn), Px(0, vpn)))
    ensures Unmapped(ram, role, ram1, role1, roots, pid, from, vpn + 1)
  {
    LeafIs(ram1, roots, kroot, role1, pid, Px(1, vpn), Px(0, vpn));
    HoleIsZero(ram1, roots, kroot, role1, pid, Px(1, vpn), Px(0, vpn));
    NoFrameThere(ram1, roots, kroot, role1, pid, Px(1, vpn), Px(0, vpn));
    hide Owned, Shr, Leaf, V, At, Ppn, Shared;
    forall p | p in role && role[p].Own? && role[p].pid == pid && role[p].pos.Frame?
        && InRange(from, vpn + 1, role[p].pos.i1, role[p].pos.i0)
      ensures role1[p] == Free
    {
      if Vpn(role[p].pos.i1, role[p].pos.i0) == vpn {
        FrameIndices(role1[p].pos, vpn);
      }
    }
    forall q, i1, i0 {:trigger Leaf(ram1, roots[q], i1, i0)} | 0 <= q < MAX_PROCS && 0 <= i1 < PTES && 0 <= i0 < PTES
        && roots[q] != 0
      ensures Leaf(ram1, roots[q], i1, i0) == if q == pid && InRange(from, vpn + 1, i1, i0) then 0
              else Leaf(ram, roots[q], i1, i0)
    {
      if Vpn(i1, i0) == vpn {
        VpnInjective(i1, i0, vpn);
      }
    }
  }

  lemma HoleIsZero(ram: seq<Page>, roots: seq<nat>, kroot: nat, role: map<nat, Role>, pid: nat, i1: nat, i0: nat)
    requires Owned(ram, roots, kroot, role) && pid < MAX_PROCS && roots[pid] != 0 && i1 < PTES && i0 < PTES
    requires !V(Leaf(ram, roots[pid], i1, i0))
    ensures Leaf(ram, roots[pid], i1, i0) == 0
  {
    hide Shr;
    var t := At(ram, roots[pid], Tab(i1));
    if t != 0 {
      assert t in role;
      MappedFrame(ram, roots, kroot, role, pid, i1, i0);
    }
  }

  lemma NoFrameThere(ram: seq<Page>, roots: seq<nat>, kroot: nat, role: map<nat, Role>, pid: nat, i1: nat, i0: nat)
    requires Owned(ram, roots, kroot, role) && pid < MAX_PROCS && roots[pid] != 0 && i1 < PTES && i0 < PTES
    requires !V(Leaf(ram, roots[pid], i1, i0))
    ensures forall p :: p in role ==> role[p] != Own(pid, Frame(i1, i0))
    ensures forall p :: p in role && role[p].Own? ==> ValidPos(role[p].pos)
  {
    hide Shr;
  }

  lemma FrameIndices(pos: Pos, vpn: nat)
    requires pos.Frame? && ValidPos(pos) && InUser(vpn) && Vpn(pos.i1, pos.i0) == vpn
    ensures pos == Frame(Px(1, vpn), Px(0, vpn))
  {
  }

  // One more page unmapped.
  lemma UnmappedStep(ram: seq<Page>, role: map<nat, Role>, ram1: seq<Page>, role1: map<nat, Role>, ram2: seq<Page>,
      role2: map<nat, Role>, roots: seq<nat>, kroot: nat, pid: nat, from: nat, vpn: nat)
    requires Unmapped(ram, role, ram1, role1, roots, pid, from, vpn) && Owned(ram1, roots, kroot, role1)
    requires pid < MAX_PROCS && roots[pid] != 0 && InUser(vpn) && from <= vpn
    requires V(Leaf(ram1, roots[pid], Px(1, vpn), Px(0, vpn)))
    requires UnmapStep(ram1, role1, ram2, role2, roots, pid, Px(1, vpn), Px(0, vpn))
    ensures Unmapped(ram, role, ram2, role2, roots, pid, from, vpn + 1)
  {
    UnmappedRoles(ram, role, ram1, role1, ram2, role2, roots, kroot, pid, from, vpn);
    hide Owned, Shr, Leaf, V, At, Ppn, Shared, FrameRoles;
    UserIndices(vpn);
    forall q, j1, j0 {:trigger Leaf(ram2, roots[q], j1, j0)} | 0 <= q < MAX_PROCS && 0 <= j1 < PTES && 0 <= j0 < PTES
        && roots[q] != 0
      ensures Leaf(ram2, roots[q], j1, j0) == if q == pid && InRange(from, vpn + 1, j1, j0) then 0
              else Leaf(ram, roots[q], j1, j0)
    {
      assert Leaf(ram1, roots[q], j1, j0) == if q == pid && InRange(from, vpn, j1, j0) then 0
          else Leaf(ram, roots[q], j1, j0);
      if Vpn(j1, j0) == vpn {
        VpnInjective(j1, j0, vpn);
      }
    }
  }

  // Its private frame, if it has one, is free now, and nothing else changes.
  lemma UnmappedRoles(ram: seq<Page>, role: map<nat, Role>, ram1: seq<Page>, role1: map<nat, Role>, ram2: seq<Page>,
      role2: map<nat, Role>, roots: seq<nat>, kroot: nat, pid: nat, from: nat, vpn: nat)
    requires Unmapped(ram, role, ram1, role1, roots, pid, from, vpn) && Owned(ram1, roots, kroot, role1)
    requires pid < MAX_PROCS && roots[pid] != 0 && InUser(vpn) && from <= vpn
    requires V(Leaf(ram1, roots[pid], Px(1, vpn), Px(0, vpn)))
    requires UnmapStep(ram1, role1, ram2, role2, roots, pid, Px(1, vpn), Px(0, vpn))
    ensures role2.Keys == role.Keys
    ensures forall p :: p in role ==>
            role2[p] == if role[p].Own? && role[p].pid == pid && role[p].pos.Frame?
                           && InRange(from, vpn + 1, role[p].pos.i1, role[p].pos.i0)
                        then Free else role[p]
    ensures forall p: nat :: p < |ram| && !(p in role && Changeable(role2[p], pid)) ==> ram2[p] == ram[p]
  {
    var i1, i0 := Px(1, vpn), Px(0, vpn);
    LeafIs(ram1, roots, kroot, role1, pid, i1, i0);
    ZeroEntry();
    FrameOwner(ram1, roots, kroot, role1, pid, i1, i0);
    hide Owned, Shr, Leaf, V, At, Ppn, Shared;
    UserIndices(vpn);
    forall p | p in role
      ensures p in role2 && role2[p] == if role[p].Own? && role[p].pid == pid && role[p].pos.Frame?
                                           && InRange(from, vpn + 1, role[p].pos.i1, role[p].pos.i0)
                                        then Free else role[p]
    {
      if role1[p].Own? && role1[p].pos.Frame? && Vpn(role1[p].pos.i1, role1[p].pos.i0) == vpn {
        FrameIndices(role1[p].pos, vpn);
      }
    }
  }

  // The owned frame at a position is what its entry maps privately.
  lemma FrameOwner(ram: seq<Page>, roots: seq<nat>, kroot: nat, role: map<nat, Role>, pid: nat, i1: nat, i0: nat)
    requires Owned(ram, roots, kroot, role) && pid < MAX_PROCS && roots[pid] != 0 && i1 < PTES && i0 < PTES
    ensures var e := Leaf(ram, roots[pid], i1, i0);
            forall p :: p in role && role[p] == Own(pid, Frame(i1, i0)) ==> V(e) && !Shared(e) && p == Ppn(e)
    ensures forall p :: p in role && role[p].Own? ==> ValidPos(role[p].pos)
  {
    hide Shr;
    assert forall p :: p in role && role[p] == Own(pid, Frame(i1, i0)) ==>
        At(ram, roots[pid], Frame(i1, i0)) == p && p != 0;
  }

  // sys_munmap. A bad range changes nothing; an entry that is no leaf stops the
  // loop, with the pages before it unmapped.
  method Munmap(m: Machine, pid: nat, addr: nat, len: nat) returns (r: int, ghost done: nat)
    requires m.Valid() && pid < MAX_PROCS && m.roots[pid] != 0 && addr < WORD_END && len < WORD_END
    modifies m`role, m.mem
    ensures m.Valid()
    ensures BadRange(addr, len) ==> r == -1 && m.role == old(m.role) && m.mem.ram == old(m.mem.ram)
    ensures !BadRange(addr, len) ==>
              var base, end := addr / PAGE_SIZE, PageUp((addr + len) % WORD_END);
              && base <= done <= end
              && Unmapped(old(m.mem.ram), old(m.role), m.mem.ram, m.role, m.roots, pid, base, done)
              && (r == 0 || r == -1) && (r == 0 ==> done == end)
              && (r == -1 ==>
                  done < end && InUser(done) && var e := Leaf(m.mem.ram, m.roots[pid], Px(1, done), Px(0, done));
                  V(e) && !IsLeaf(e))
    ensures !BadRange(addr, len) && addr + len < WORD_END && done == PageUp(addr + len) ==>
              r == 0 && Faults(m.mem.ram, m.roots[pid], addr, addr + len)
  {
    hide Owned, Chain, Shr, V, R, W, X, U, Shared, Ppn, At, Leaf, Unmapped, UnmapStep, FrameRoles, Faults;
    done := 0;
    if addr == 0 || len == 0 {
      return -1, done;
    }
    var base, end := addr / PAGE_SIZE, PageUp((addr + len) % WORD_END);
    if end <= base || base < USER_START || end > USER_END {
      return -1, done;
    }
    ghost var ram0, role0 := m.mem.ram, m.role;
    UnmappedNothing(ram0, role0, m.roots, pid, base);
    var vpn := base;
    while vpn < end
      invariant base <= vpn <= end && m.Valid()
      invariant Unmapped(ram0, role0, m.mem.ram, m.role, m.roots, pid, base, vpn)
    {
      ghost var ram1, role1 := m.mem.ram, m.role;
      var refused := m.UnmapPage(pid, vpn);
      if refused {
        return -1, vpn;
      }
      if V(Leaf(ram1, m.roots[pid], Px(1, vpn), Px(0, vpn))) {
        UnmappedStep(ram0, role0, ram1, role1, m.mem.ram, m.role, m.roots, m.kroot, pid, base, vpn);
      } else {
        UnmappedHole(ram0, role0, ram1, role1, m.roots, m.kroot, pid, base, vpn);
      }
      vpn := vpn + 1;
    }
    if addr + len < WORD_END {
      UnmappedFaults(ram0, role0, m.mem.ram, m.role, m.roots, m.kroot, m.mem.free, pid, addr, len);
    }
    return 0, end;
  }

  lemma UnmappedFaults(ram: seq<Page>, role: map<nat, Role>, ram': seq<Page>, role': map<nat, Role>, roots: seq<nat>,
      kroot: nat, free: seq<nat>, pid: nat, addr: nat, len: nat)
    requires Partition(ram', roots, kroot, role', free) && pid < MAX_PROCS && roots[pid] != 0
    requires !BadRange(addr, len) && addr + len < WORD_END
    requires Unmapped(ram, role, ram', role', roots, pid, addr / PAGE_SIZE, PageUp(addr + len))
    ensures Faults(ram', roots[pid], addr, addr + len)
  {
    if addr + len + PAGE_SIZE > WORD_END {
      PageUpWraps(addr + len);
    } else {
      PageUpRounds(addr + len);
    }
    hide Owned, Leaf, PageUp, Faults;
    forall va: nat | addr <= va < addr + len
      ensures InUser(va / PAGE_SIZE) && Leaf(ram', roots[pid], Px(1, va / PAGE_SIZE), Px(0, va / PAGE_SIZE)) == 0
    {
      UserIndices(va / PAGE_SIZE);
    }
    PagesFault(ram', roots, kroot, role', pid, addr, addr + len);
  }

  predicate BadRange(addr: nat, len: nat) {
    var base, end := addr / PAGE_SIZE, PageUp((addr + len) % WORD_END);
    addr == 0 || len == 0 || end <= base || base < USER_START || end > USER_END
  }

  // While addr + len does not wrap, the good ranges are those in the user range.
  lemma BadRangeMeans(addr: nat, len: nat)
    requires addr + len < WORD_END
    ensures BadRange(addr, len) <==> len == 0 || addr < 0x4000_0000 || addr + len > 0x8000_0000
  {
    if addr + len + PAGE_SIZE > WORD_END {
      PageUpWraps(addr + len);
    } else {
      PageUpRounds(addr + len);
    }
    hide PageUp;
  }

  // ---- brk and mmap ----

  // What a new mapping of the page is to be: a fresh zeroed page, or a page of
  // the device being mapped.
  datatype Source = Anonymous | Device(pages: seq<nat>)

  // A device supplies n pages that belong to the kernel or lie outside the pool.
  ghost predicate DevicePages(role: map<nat, Role>, src: Source, n: nat) {
    src.Device? ==>
      && |src.pages| == n
      && forall k :: 0 <= k < n ==>
          0 < src.pages[k] < RAM_PAGES && (src.pages[k] !in role || role[src.pages[k]] == Kernel)
  }

  // The entry e maps page k of the source with the wanted permissions.
  ghost predicate Supplied(ram: seq<Page>, role: map<nat, Role>, e: u64, perm: Perm, src: Source, k: nat) {
    && V(e) && PermOf(e) == perm && Ppn(e) < |ram|
    && match src
       case Anonymous => Ppn(e) in role && role[Ppn(e)] == Free && ram[Ppn(e)] == Filled(0)
       case Device(pages) => k < |pages| && Ppn(e) == pages[k]
  }

  // Process pid's pages in [from, to) now map the source; every other mapping
  // and every other page in use is as it was.
  ghost predicate Grown(ram: seq<Page>, role: map<nat, Role>, ram': seq<Page>, role': map<nat, Role>, roots: seq<nat>,
      pid: nat, from: nat, to: nat, perm: Perm, src: Source) {
    && Spawned(ram, role, ram', role', roots, pid)
    && 0 <= pid < |roots|
    && (forall i1, i0 {:trigger Leaf(ram', roots[pid], i1, i0)} :: 0 <= i1 < PTES && 0 <= i0 < PTES ==>
          if InRange(from, to, i1, i0)
              then Supplied(ram', role, Leaf(ram', roots[pid], i1, i0), perm, src, Vpn(i1, i0) - from)
          else Leaf(ram', roots[pid], i1, i0) == Leaf(ram, roots[pid], i1, i0))
  }

  lemma GrownNothing(ram: seq<Page>, role: map<nat, Role>, roots: seq<nat>, pid: nat, from: nat, perm: Perm,
      src: Source)
    requires |roots| == MAX_PROCS && pid < MAX_PROCS
    ensures Grown(ram, role, ram, role, roots, pid, from, from, perm, src)
  {
  }

  // One more page mapped.
  lemma GrownStep(ram: seq<Page>, role: map<nat, Role>, ram1: seq<Page>, role1: map<nat, Role>, ram2: seq<Page>,
      role2: map<nat, Role>, roots: seq<nat>, kroot: nat, pid: nat, from: nat, vpn: nat, perm: Perm, src: Source,
      e: u64)
    requires Grown(ram, role, ram1, role1, roots, pid, from, vpn, perm, src) && Owned(ram1, roots, kroot, role1)
    requires pid < MAX_PROCS && roots[pid] != 0 && InUser(vpn) && from <= vpn && (src.Anonymous? <==> !perm.shared)
    requires Spawned(ram1, role1, ram2, role2, roots, pid)
    requires forall j1, j0 {:trigger Leaf(ram2, roots[pid], j1, j0)} :: 0 <= j1 < PTES && 0 <= j0 < PTES ==>
               Leaf(ram2, roots[pid], j1, j0) == if (j1, j0) == (Px(1, vpn), Px(0, vpn)) then e
                   else Leaf(ram1, roots[pid], j1, j0)
    requires Supplied(ram2, role, e, perm, src, vpn - from)
    ensures Grown(ram, role, ram2, role2, roots, pid, from, vpn + 1, perm, src)
  {
    SpawnedTransitive(ram, role, ram1, role1, ram2, role2, roots, pid);
    hide Owned, Shr, Leaf, V, R, W, X, U, Shared, Ppn, Spawned, Supplied, Px, InRange;
    forall j1, j0 {:trigger Leaf(ram2, roots[pid], j1, j0)} | 0 <= j1 < PTES && 0 <= j0 < PTES
      ensures if InRange(from, vpn + 1, j1, j0)
              then Supplied(ram2, role, Leaf(ram2, roots[pid], j1, j0), perm, src, Vpn(j1, j0) - from)
              else Leaf(ram2, roots[pid], j1, j0) == Leaf(ram, roots[pid], j1, j0)
    {
      GrownLeafStep(ram, role, ram1, role1, ram2, role2, roots, kroot, pid, from, vpn, perm, src, e, j1, j0);
    }
  }

  lemma GrownLeafStep(ram: seq<Page>, role: map<nat, Role>, ram1: seq<Page>, role1: map<nat, Role>, ram2: seq<Page>,
      role2: map<nat, Role>, roots: seq<nat>, kroot: nat, pid: nat, from: nat, vpn: nat, perm: Perm, src: Source,
      e: u64, j1: nat, j0: nat)
    requires Grown(ram, role, ram1, role1, roots, pid, from, vpn, perm, src) && Owned(ram1, roots, kroot, role1)
    requires pid < MAX_PROCS && roots[pid] != 0 && InUser(vpn) && from <= vpn && (src.Anonymous? <==> !perm.shared)
    requires Spawned(ram1, role1, ram2, role2, roots, pid)
    requires j1 < PTES && j0 < PTES
    requires Leaf(ram2, roots[pid], j1, j0) == if (j1, j0) == (Px(1, vpn), Px(0, vpn)) then e
                   else Leaf(ram1, roots[pid], j1, j0)
    requires Supplied(ram2, role, e, perm, src, vpn - from)
    ensures if InRange(from, vpn + 1, j1, j0)
            then Supplied(ram2, role, Leaf(ram2, roots[pid], j1, j0), perm, src, Vpn(j1, j0) - from)
            else Leaf(ram2, roots[pid], j1, j0) == Leaf(ram, roots[pid], j1, j0)
  {
    GrownLeaf(ram, role, ram1, role1, roots, pid, from, vpn, perm, src, j1, j0);
    hide Owned, Shr, Leaf, V, R, W, X, U, Shared, Ppn, Spawned, Supplied, Grown;
    UserIndices(vpn);
    if Vpn(j1, j0) == vpn {
      VpnInjective(j1, j0, vpn);
    } else if InRange(from, vpn, j1, j0) {
      SuppliedKept(ram, role, ram1, role1, ram2, role2, roots, kroot, pid, j1, j0, perm, src, Vpn(j1, j0) - from);
    }
  }

  lemma GrownLeaf(ram: seq<Page>, role: map<nat, Role>, ram': seq<Page>, role': map<nat, Role>, roots: seq<nat>,
      pid: nat, from: nat, to: nat, perm: Perm, src: Source, j1: nat, j0: nat)
    requires Grown(ram, role, ram', role', roots, pid, from, to, perm, src) && j1 < PTES && j0 < PTES
    ensures if InRange(from, to, j1, j0)
            then Supplied(ram', role, Leaf(ram', roots[pid], j1, j0), perm, src, Vpn(j1, j0) - from)
            else Leaf(ram', roots[pid], j1, j0) == Leaf(ram, roots[pid], j1, j0)
  {
    hide Leaf, Supplied, Spawned;
  }

  // A frame already mapped keeps its bytes while more are mapped.
  lemma SuppliedKept(ram: seq<Page>, role: map<nat, Role>, ram1: seq<Page>, role1: map<nat, Role>, ram2: seq<Page>,
      role2: map<nat, Role>, roots: seq<nat>, kroot: nat, pid: nat, j1: nat, j0: nat, perm: Perm, src: Source, k: nat)
    requires Owned(ram1, roots, kroot, role1) && Spawned(ram1, role1, ram2, role2, roots, pid)
    requires pid < MAX_PROCS && roots[pid] != 0 && j1 < PTES && j0 < PTES && (src.Anonymous? <==> !perm.shared)
    requires Supplied(ram1, role, Leaf(ram1, roots[pid], j1, j0), perm, src, k)
    ensures Supplied(ram2, role, Leaf(ram1, roots[pid], j1, j0), perm, src, k)
  {
    LeafIs(ram1, roots, kroot, role1, pid, j1, j0);
    ZeroEntry();
    hide Owned, Shr, Leaf, V, R, W, X, U, Ppn, At;
  }

  // One page of sys_brk or sys_mmap.
  method MapOne(m: Machine, pid: nat, vpn: nat, perm: Perm, src: Source, k: nat)
      returns (res: CloneResult, ghost lost: nat, ghost e: u64)
    requires m.Valid() && pid < MAX_PROCS && m.roots[pid] != 0 && InUser(vpn) && (src.Anonymous? <==> !perm.shared)
    requires src.Device? ==>
            k < |src.pages| && 0 < src.pages[k] < RAM_PAGES
            && (src.pages[k] !in m.role || m.role[src.pages[k]] == Kernel)
    modifies m`role, m.mem
    ensures res.Done? ==>
              && m.Valid() && Spawned(old(m.mem.ram), old(m.role), m.mem.ram, m.role, m.roots, pid)
              && Supplied(m.mem.ram, old(m.role), e, perm, src, k)
              && Leaf(old(m.mem.ram), m.roots[pid], Px(1, vpn), Px(0, vpn)) == 0
              && (forall j1, j0 {:trigger Leaf(m.mem.ram, m.roots[pid], j1, j0)} :: 0 <= j1 < PTES && 0 <= j0 < PTES ==>
                    Leaf(m.mem.ram, m.roots[pid], j1, j0) ==
                    if (j1, j0) == (Px(1, vpn), Px(0, vpn)) then e else Leaf(old(m.mem.ram), m.roots[pid], j1, j0))
    ensures res.OutOfTables? ==>
              && m.Valid() && m.mem.free == []
              && SpawnedOrLost(old(m.mem.ram), old(m.role), m.mem.ram, m.role, m.roots, pid, lost)
              && (lost in old(m.role) <==> src.Anonymous?)
    ensures res.Panic? ==>
              || (m.Valid() && m.mem.free == [] && m.role == old(m.role) && m.mem.ram == old(m.mem.ram))
              || Leaf(old(m.mem.ram), m.roots[pid], Px(1, vpn), Px(0, vpn)) != 0
  {
    hide Owned, Chain, Shr, V, R, W, X, U, Shared, Ppn, At, Leaf, MapStep, Walked, Spawned, SpawnedOrLost, MakePte;
    ghost var ram0, role0 := m.mem.ram, m.role;
    lost, e := 0, 0;
    RangeOfRoles(ram0, m.roots, m.kroot, role0);
    match src {
      case Device(pages) =>
        MakePteReads(pages[k], perm);
        var mapped := m.MapPage(pid, vpn, pages[k], perm);
        match mapped {
          case Mapped =>
            e := MakePte(pages[k], perm);
            SharedSpawned(ram0, role0, m.mem.ram, m.role, m.roots, pid, Px(1, vpn), Px(0, vpn), e);
            OwnLeaves(ram0, role0, m.mem.ram, m.role, m.roots, pid, Px(1, vpn), Px(0, vpn), e);
            return Done, lost, e;
          case NoMemory =>
            WalkedIsSpawned(ram0, role0, m.mem.ram, m.role, m.roots, pid);
            return OutOfTables, lost, e;
          case Remap =>
            return Panic, lost, e;
        }
      case Anonymous =>
        var ok, page := NewPage(m);
        if !ok {
          return Panic, lost, e;
        }
        ghost var ram1, role1 := m.mem.ram, m.role;
        HeldKeepsLeaves(ram0, role0, ram1, role1, page, m.roots, m.kroot);
        MakePteReads(page, perm);
        assert Leaf(ram1, m.roots[pid], Px(1, vpn), Px(0, vpn)) == Leaf(ram0, m.roots[pid], Px(1, vpn), Px(0, vpn));
        var mapped := m.MapPage(pid, vpn, page, perm);
        match mapped {
          case Mapped =>
            e := MakePte(page, perm);
            PrivateSpawned(ram0, role0, ram1, role1, m.mem.ram, m.role, m.roots, m.kroot, pid, Px(1, vpn), Px(0, vpn),
                e, page);
            return Done, lost, e;
          case NoMemory =>
            FailedSpawned(ram0, role0, ram1, role1, m.mem.ram, m.role, m.roots, m.kroot, pid, page);
            return OutOfTables, page, e;
          case Remap =>
            return Panic, lost, e;
        }
    }
  }

  lemma OwnLeaves(ram: seq<Page>, role: map<nat, Role>, ram2: seq<Page>, role2: map<nat, Role>, roots: seq<nat>,
      pid: nat, i1: nat, i0: nat, e: u64)
    requires MapStep(ram, role, ram2, role2, roots, pid, i1, i0, e) && pid < MAX_PROCS && roots[pid] != 0
    ensures forall j1, j0 {:trigger Leaf(ram2, roots[pid], j1, j0)} :: 0 <= j1 < PTES && 0 <= j0 < PTES ==>
              Leaf(ram2, roots[pid], j1, j0) == if (j1, j0) == (i1, i0) then e else Leaf(ram, roots[pid], j1, j0)
  {
  }

  lemma KernelStays(ram: seq<Page>, role: map<nat, Role>, ram': seq<Page>, role': map<nat, Role>, roots: seq<nat>,
      pid: nat, src: Source)
    requires Spawned(ram, role, ram', role', roots, pid)
    ensures src.Device? ==> forall k :: 0 <= k < |src.pages| ==>
              (src.pages[k] !in role || role[src.pages[k]] == Kernel ==>
                  src.pages[k] !in role' || role'[src.pages[k]] == Kernel)
  {
  }

  lemma LeafBefore(ram: seq<Page>, role: map<nat, Role>, ram': seq<Page>, role': map<nat, Role>, roots: seq<nat>,
      pid: nat, from: nat, vpn: nat, perm: Perm, src: Source)
    requires Grown(ram, role, ram', role', roots, pid, from, vpn, perm, src) && InUser(vpn)
    ensures Leaf(ram', roots[pid], Px(1, vpn), Px(0, vpn)) == Leaf(ram, roots[pid], Px(1, vpn), Px(0, vpn))
    ensures Spawned(ram, role, ram', role', roots, pid)
  {
    hide Leaf, Spawned, Supplied;
    UserIndices(vpn);
  }

  // What was free just now was free at the start.
  lemma SuppliedEarlier(ram: seq<Page>, role: map<nat, Role>, ram1: seq<Page>, role1: map<nat, Role>, ram2: seq<Page>,
      roots: seq<nat>, pid: nat, e: u64, perm: Perm, src: Source, k: nat)
    requires Spawned(ram, role, ram1, role1, roots, pid) && Supplied(ram2, role1, e, perm, src, k)
    ensures Supplied(ram2, role, e, perm, src, k)
  {
    hide Leaf, Shr;
  }

  lemma OwnedOf(ram: seq<Page>, roots: seq<nat>, kroot: nat, role: map<nat, Role>, free: seq<nat>)
    requires Partition(ram, roots, kroot, role, free)
    ensures Owned(ram, roots, kroot, role)
  {
  }

  // Some page of the range is mapped already.
  ghost predicate MappedIn(ram: seq<Page>, root: nat, from: nat, to: nat) {
    exists v :: from <= v < to && InUser(v) && Leaf(ram, root, Px(1, v), Px(0, v)) != 0
  }

  const HEAP := Perm(true, true, true, true, false)

  // The mapping loop of sys_brk and sys_mmap over [from, to).
  method MapRange(m: Machine, pid: nat, from: nat, to: nat, perm: Perm, src: Source)
      returns (res: CloneResult, ghost done: nat, ghost lost: nat)
    requires m.Valid() && pid < MAX_PROCS && m.roots[pid] != 0 && (src.Anonymous? <==> !perm.shared)
    requires from < to ==> USER_START <= from && to <= USER_END
    requires from < to ==> DevicePages(m.role, src, to - from)
    modifies m`role, m.mem
    ensures res.Done? ==>
            m.Valid()
            && Grown(old(m.mem.ram), old(m.role), m.mem.ram, m.role, m.roots, pid, from, if from < to then to
            else from, perm, src)
    ensures res.Done? ==> !MappedIn(old(m.mem.ram), m.roots[pid], from, to)
    ensures res.OutOfTables? ==>
              && m.Valid() && m.mem.free == [] && from <= done < to
              && SpawnedOrLost(old(m.mem.ram), old(m.role), m.mem.ram, m.role, m.roots, pid, lost)
              && (lost in old(m.role) <==> src.Anonymous?)
    ensures res.Panic? ==>
              || (m.Valid() && m.mem.free == [] && NoneLost(old(m.role), m.role))
              || MappedIn(old(m.mem.ram), m.roots[pid], from, to)
  {
    hide Owned, Chain, Shr, V, R, W, X, U, Shared, Ppn, At, Leaf, Spawned, SpawnedOrLost, Supplied, Partition;
    ghost var ram0, role0 := m.mem.ram, m.role;
    lost, done := 0, from;
    GrownNothing(ram0, role0, m.roots, pid, from, perm, src);
    var vpn := from;
    while vpn < to
      invariant from <= vpn && (from < to ==> vpn <= to) && m.Valid()
      invariant from >= to ==> vpn == from
      invariant Grown(ram0, role0, m.mem.ram, m.role, m.roots, pid, from, vpn, perm, src)
      invariant !MappedIn(ram0, m.roots[pid], from, vpn)
    {
      ghost var ram1, role1 := m.mem.ram, m.role;
      ghost var e, free1 := 0, m.mem.free;
      KernelStays(ram0, role0, ram1, role1, m.roots, pid, src);
      LeafBefore(ram0, role0, ram1, role1, m.roots, pid, from, vpn, perm, src);
      res, lost, e := MapOne(m, pid, vpn, perm, src, vpn - from);
      if !res.Done? {
        if res.OutOfTables? {
          SpawnedLosesNone(ram0, role0, ram1, role1, m.roots, pid);
          SpawnedThenLost(ram0, role0, ram1, role1, m.mem.ram, m.role, m.roots, pid, lost);
        } else if Leaf(ram1, m.roots[pid], Px(1, vpn), Px(0, vpn)) == 0 {
          SpawnedLosesNone(ram0, role0, ram1, role1, m.roots, pid);
        } else {
          assert InUser(vpn) && Leaf(ram0, m.roots[pid], Px(1, vpn), Px(0, vpn)) != 0;
        }
        return res, vpn, lost;
      }
      SuppliedEarlier(ram0, role0, ram1, role1, m.mem.ram, m.roots, pid, e, perm, src, vpn - from);
      OwnedOf(ram1, m.roots, m.kroot, role1, free1);
      GrownStep(ram0, role0, ram1, role1, m.mem.ram, m.role, m.roots, m.kroot, pid, from, vpn, perm, src, e);
      vpn := vpn + 1;
    }
    return Done, vpn, 0;
  }

  // The addresses of the pages mapped can be used with the permissions asked for.
  lemma GrownMapped(ram: seq<Page>, role: map<nat, Role>, ram': seq<Page>, role': map<nat, Role>, roots: seq<nat>,
      kroot: nat, free: seq<nat>, pid: nat, from: nat, to: nat, perm: Perm, src: Source, a: nat, b: nat)
    requires Partition(ram', roots, kroot, role', free) && pid < MAX_PROCS && roots[pid] != 0 && Usable(perm)
    requires Grown(ram, role, ram', role', roots, pid, from, to, perm, src)
    requires a < b ==> USER_START <= from && to <= USER_END && PAGE_SIZE * from <= a && b <= PAGE_SIZE * to
    ensures Accessible(ram', roots[pid], a, b, perm)
  {
    hide Owned, Leaf, V, PermOf, Ppn, Accessible, Spawned;
    forall va: nat | a <= va < b
      ensures var vpn := va / PAGE_SIZE;
              InUser(vpn) && V(Leaf(ram', roots[pid], Px(1, vpn), Px(0, vpn)))
              && PermOf(Leaf(ram', roots[pid], Px(1, vpn), Px(0, vpn))) == perm
    {
      UserIndices(va / PAGE_SIZE);
    }
    PagesMapped(ram', roots, kroot, role', pid, a, b, perm);
  }

  // A heap that would have to grow from outside the user range, into tables that
  // belong to the kernel; such a call is not followed further.
  predicate HeapOutside(maxBrk: nat, newBrk: nat) {
    maxBrk < PageUp(newBrk) && !(USER_START <= maxBrk <= USER_END)
  }

  datatype BrkResult = Grew | Stops | Strayed

  // sys_brk: the heap grows by zeroed pages up to the rounded new break, and
  // never shrinks. Running out of pages, or meeting a page already mapped, stops
  // the kernel; above the user range it meets the kernel's own mapping of RAM.
  method Brk(m: Machine, pid: nat, maxBrk: nat, newBrk: nat) returns (res: BrkResult, max: nat, ghost lost: nat)
    requires m.Valid() && pid < MAX_PROCS && m.roots[pid] != 0
    modifies m`role, m.mem
    ensures res.Strayed? <==> HeapOutside(maxBrk, newBrk)
    ensures res.Grew? ==>
              && m.Valid() && max == (if maxBrk < PageUp(newBrk) then PageUp(newBrk) else maxBrk)
              && (maxBrk < PageUp(newBrk) ==> PageUp(newBrk) <= USER_END)
              && Grown(old(m.mem.ram), old(m.role), m.mem.ram, m.role, m.roots, pid, maxBrk, max, HEAP, Anonymous)
    ensures res.Grew? ==> !MappedIn(old(m.mem.ram), m.roots[pid], maxBrk, PageUp(newBrk))
    ensures res.Grew? && newBrk + PAGE_SIZE <= WORD_END ==>
              Accessible(m.mem.ram, m.roots[pid], PAGE_SIZE * maxBrk, newBrk, HEAP)
    ensures res.Stops? ==>
              || (m.Valid() && m.mem.free == [] && LostOnly(old(m.role), m.role, lost))
              || PageUp(newBrk) > USER_END || MappedIn(old(m.mem.ram), m.roots[pid], maxBrk, PageUp(newBrk))
  {
    hide Owned, Chain, Leaf, Grown, Partition, SpawnedOrLost, MappedIn, Accessible;
    NoPageZero(m.mem.ram, m.roots, m.kroot, m.role, m.mem.free);
    ghost var ram0, role0 := m.mem.ram, m.role;
    lost, max := 0, maxBrk;
    var brkPage := PageUp(newBrk);
    if maxBrk < brkPage && !(USER_START <= maxBrk <= USER_END) {
      return Strayed, max, lost;
    }
    var mapped;
    ghost var done;
    if maxBrk < brkPage && brkPage > USER_END {
      mapped, done, lost := MapRange(m, pid, maxBrk, USER_END, HEAP, Anonymous);
      return Stops, max, lost;
    }
    mapped, done, lost := MapRange(m, pid, maxBrk, brkPage, HEAP, Anonymous);
    if !mapped.Done? {
      if mapped.OutOfTables? {
        SpawnedOrLostLoses(ram0, role0, m.mem.ram, m.role, m.roots, pid, lost);
        return Stops, max, lost;
      }
      return Stops, max, 0;
    }
    if brkPage > max {
      max := brkPage;
    }
    if newBrk + PAGE_SIZE <= WORD_END {
      PageUpRounds(newBrk);
      hide PageUp;
      GrownMapped(ram0, role0, m.mem.ram, m.role, m.roots, m.kroot, m.mem.free, pid, maxBrk, max, HEAP, Anonymous,
        PAGE_SIZE * maxBrk, newBrk);
    }
    return Grew, max, lost;
  }

  lemma NoPageZero(ram: seq<Page>, roots: seq<nat>, kroot: nat, role: map<nat, Role>, free: seq<nat>)
    requires Partition(ram, roots, kroot, role, free)
    ensures 0 !in role
  {
  }

  const KSTACK_PAGENUM: nat := 8

  // The range sys_mmap settles on, in pages: below the last mapping when the
  // caller names no address, else at the rounded address. -1 when it does not fit.
  function MmapBase(addr: nat, pages: nat, mmapBase: nat, maxBrk: nat): (r: (int, nat))
    requires addr < WORD_END
    ensures addr == 0 && r.0 >= 0 ==>
              && r.1 == r.0 && maxBrk <= r.0 && USER_START <= r.0
              && r.0 + pages == (if mmapBase == 0 then USER_END - KSTACK_PAGENUM else mmapBase)
    ensures r.0 < 0 ==> r.1 == if mmapBase == 0 then USER_END - KSTACK_PAGENUM else mmapBase
    ensures addr == 0 ==>
              var top := if mmapBase == 0 then USER_END - KSTACK_PAGENUM else mmapBase;
              r.0 < 0 <==> top < pages + maxBrk || top < pages + USER_START
    ensures addr != 0 && addr + PAGE_SIZE <= WORD_END ==>
              addr <= PAGE_SIZE * r.0 < addr + PAGE_SIZE && r.1 == mmapBase
  {
    if addr != 0 then (PageUp(addr), mmapBase)
    else
      var top := if mmapBase == 0 then USER_END - KSTACK_PAGENUM else mmapBase;
      if top < pages then (-1, top)
      else
        var base := top - pages;
        if base < maxBrk || base < USER_START then (-1, top) else (base, base)
  }

  // The request is refused before any page is mapped.
  predicate Unmappable(addr: nat, pages: nat, mmapBase: nat, maxBrk: nat)
    requires addr < WORD_END
  {
    var base := MmapBase(addr, pages, mmapBase, maxBrk).0;
    pages == 0 || base < 0 || base + pages > USER_END
  }

  // A length or address that does not wrap to nothing is rounded up.
  lemma LengthRounds(x: nat)
    requires x < WORD_END && PageUp(x) != 0
    ensures x <= PAGE_SIZE * PageUp(x) < x + PAGE_SIZE
  {
    if x + PAGE_SIZE > WORD_END {
      PageUpWraps(x);
    }
  }

  datatype MmapResult = Mapping(base: nat) | Refused | NoTable | Stop | Elsewhere

  // sys_mmap, with the permissions and the device's pages already looked up. Refused
  // and NoTable are its -1, before and after pages were mapped; a range that begins
  // below the user range, in tables that belong to the kernel, is not followed.
  method Mmap(m: Machine, pid: nat, addr: nat, len: nat, perm: Perm, src: Source, mmapBase: nat, maxBrk: nat)
      returns (res: MmapResult, mmapBase': nat, ghost lost: nat)
    requires m.Valid() && pid < MAX_PROCS && m.roots[pid] != 0 && addr < WORD_END && len < WORD_END
    requires (src.Anonymous? <==> !perm.shared) && DevicePages(m.role, src, PageUp(len))
    modifies m`role, m.mem
    ensures var base := MmapBase(addr, PageUp(len), mmapBase, maxBrk);
            && (res.Refused? <==> Unmappable(addr, PageUp(len), mmapBase, maxBrk))
            && (res.Elsewhere? <==> !Unmappable(addr, PageUp(len), mmapBase, maxBrk) && base.0 < USER_START)
            && mmapBase' == if PageUp(len) == 0 then mmapBase else base.1
    ensures res.Refused? || res.Elsewhere? ==> m.Valid() && m.role == old(m.role) && m.mem.ram == old(m.mem.ram)
    ensures res.Mapping? ==>
              && res.base == MmapBase(addr, PageUp(len), mmapBase, maxBrk).0 && res.base + PageUp(len) <= USER_END
              && m.Valid() && Grown(old(m.mem.ram), old(m.role), m.mem.ram, m.role, m.roots, pid,
                                    res.base, res.base + PageUp(len), perm, src)
              && !MappedIn(old(m.mem.ram), m.roots[pid], res.base, res.base + PageUp(len))
    ensures res.Mapping? && Usable(perm) ==>
              Accessible(m.mem.ram, m.roots[pid], PAGE_SIZE * res.base, PAGE_SIZE * res.base + len, perm)
    ensures res.Mapping? && addr != 0 ==> addr <= PAGE_SIZE * res.base < addr + PAGE_SIZE
    ensures res.NoTable? ==>
              && m.Valid() && m.mem.free == []
              && SpawnedOrLost(old(m.mem.ram), old(m.role), m.mem.ram, m.role, m.roots, pid, lost)
              && (lost in old(m.role) <==> src.Anonymous?)
    ensures res.Stop? ==>
              || (m.Valid() && m.mem.free == [] && NoneLost(old(m.role), m.role))
              || var base := MmapBase(addr, PageUp(len), mmapBase, maxBrk).0;
                 MappedIn(old(m.mem.ram), m.roots[pid], base, base + PageUp(len))
  {
    hide Owned, Chain, Leaf, Grown, Partition, SpawnedOrLost, NoneLost, MappedIn, Accessible;
    ghost var ram0, role0 := m.mem.ram, m.role;
    lost := 0;
    var pages := PageUp(len);
    if len == 0 || pages == 0 {
      return Refused, mmapBase, lost;
    }
    var base, next := MmapBase(addr, pages, mmapBase, maxBrk).0, MmapBase(addr, pages, mmapBase, maxBrk).1;
    mmapBase' := next;
    if base < 0 || base + pages > USER_END {
      return Refused, next, lost;
    }
    if base < USER_START {
      return Elsewhere, next, lost;
    }
    var mapped;
    ghost var done;
    mapped, done, lost := MapRange(m, pid, base, base + pages, perm, src);
    match mapped {
      case Done =>
        LengthRounds(len);
        if addr != 0 {
          LengthRounds(addr);
        }
        if Usable(perm) {
          hide PageUp;
          GrownMapped(ram0, role0, m.mem.ram, m.role, m.roots, m.kroot, m.mem.free, pid, base, base + pages, perm, src,
            PAGE_SIZE * base, PAGE_SIZE * base + len);
        }
        return Mapping(base), next, lost;
      case OutOfTables => return NoTable, next, lost;
      case Panic => return Stop, next, lost;
    }
  }

  // ---- What becomes of the pool ----

  lemma SpawnedLosesNone(ram: seq<Page>, role: map<nat, Role>, ram': seq<Page>, role': map<nat, Role>, roots: seq<nat>,
      pid: nat)
    requires Spawned(ram, role, ram', role', roots, pid)
    ensures NoneLost(role, role')
  {
    hide Leaf;
  }

  lemma UnmappedLosesNone(ram: seq<Page>, role: map<nat, Role>, ram': seq<Page>, role': map<nat, Role>, roots: seq<nat>,
      pid: nat, from: nat, to: nat)
    requires Unmapped(ram, role, ram', role', roots, pid, from, to)
    ensures NoneLost(role, role')
  {
    hide Leaf;
  }

  lemma SpawnedOrLostLoses(ram: seq<Page>, role: map<nat, Role>, ram': seq<Page>, role': map<nat, Role>,
      roots: seq<nat>, pid: nat, lost: nat)
    requires SpawnedOrLost(ram, role, ram', role', roots, pid, lost)
    ensures LostOnly(role, role', lost)
  {
    hide Leaf;
  }
}
