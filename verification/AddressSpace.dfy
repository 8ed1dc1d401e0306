// Address spaces over the page allocator: walk, map_pages, the unmapping and
// freeing of user memory, and the copy fork makes.
module AddressSpace {
  import opened BitStrings
  import opened Sv39
  import opened Ownership
  import opened PageTables
  import opened Memory
  import opened FreeSpace

  class Machine {
    const mem: PageAllocator
    var roots: seq<nat>           // each process's root page, or 0
    const kroot: nat              // kernel_pagetable
    ghost var role: map<nat, Role>

    // After init_memory: the kernel's pages are set aside, no process exists.
    constructor (alloc: PageAllocator, kernelPagetable: nat, ghost kernelPages: set<nat>)
      requires alloc.Linked()
      requires forall p :: p in kernelPages ==> 0 < p < RAM_PAGES && p !in alloc.free
      requires kernelPagetable in kernelPages && alloc.ram[kernelPagetable][USER_ROOT] == 0
      ensures Valid() && mem == alloc && kroot == kernelPagetable
      ensures roots == seq(MAX_PROCS, _ => 0)
      ensures role == map p | p in kernelPages + (set q | q in alloc.free) :: if p in kernelPages then Kernel else Free
    {
      mem := alloc;
      roots := seq(MAX_PROCS, _ => 0);
      kroot := kernelPagetable;
      role := map p | p in kernelPages + (set q | q in alloc.free) :: if p in kernelPages then Kernel else Free;
      new;
      FirstPartition(mem.ram, roots, kroot, role, mem.free);
    }

    ghost predicate Valid()
      reads this, mem
    {
      && mem.Linked()
      && |mem.ram| == RAM_PAGES && |roots| == MAX_PROCS
      && Partition(mem.ram, roots, kroot, role, mem.free)
    }

    // No process has a page yet.
    static lemma FirstPartition(ram: seq<Page>, roots: seq<nat>, kroot: nat, role: map<nat, Role>, free: seq<nat>)
      requires |ram| == RAM_PAGES && |roots| == MAX_PROCS && (forall q :: 0 <= q < MAX_PROCS ==> roots[q] == 0)
      requires forall p :: p in role ==> 0 < p < RAM_PAGES && p < |ram| && (role[p] == Kernel || role[p] == Free)
      requires kroot in role && role[kroot] == Kernel && ram[kroot][USER_ROOT] == 0
      requires forall i, j :: 0 <= i < j < |free| ==> free[i] != free[j]
      requires forall p :: p in free <==> p in role && role[p] == Free
      ensures Partition(ram, roots, kroot, role, free)
    {
    }

    // kalloc: the page is held by the caller, in no table yet.
    method Take() returns (p: nat)
      requires Valid()
      modifies this`role, mem
      ensures Valid()
      ensures p == 0 ==> mem.ram == old(mem.ram) && role == old(role) && mem.free == []
      ensures p != 0 ==> p in old(role) && old(role)[p] == Free && role == old(role)[p := Lost] && p < RAM_PAGES
      ensures |mem.ram| == |old(mem.ram)| && forall q :: 0 <= q < |mem.ram| && q != p ==> mem.ram[q] == old(mem.ram)[q]
    {
      ghost var ram, free := mem.ram, mem.free;
      p := mem.Kalloc();
      if p != 0 {
        TakeKeepsPartition(ram, mem.ram, roots, kroot, role, free);
        role := role[p := Lost];
      }
    }

    method Write(p: nat, page: Page)
      requires Valid() && p in role && role[p] == Lost
      modifies mem`ram
      ensures Valid() && mem.ram == old(mem.ram)[p := page]
    {
      ghost var ram := mem.ram;
      assert p !in mem.free;
      mem.Store(p, page);
      OwnedFrame(ram, mem.ram, roots, kroot, role, role);
    }

    // Fills the empty entry i of a table with a new zeroed table.
    method LinkNewTable(pid: nat, table: nat, i: nat, ghost pos: Pos) returns (t: nat)
      requires Valid() && pid < MAX_PROCS && roots[pid] != 0 && TableEntry(pos, i) && !pos.Tab?
      requires table == At(mem.ram, roots[pid], pos) && 0 < table < |mem.ram| && !V(mem.ram[table][i])
      modifies this`role, mem
      ensures Valid() && Walked(old(mem.ram), old(role), mem.ram, role, roots, pid)
      ensures t != 0 ==> t == At(mem.ram, roots[pid], ChildPos(pos, i))
      ensures t == 0 ==> mem.ram == old(mem.ram) && role == old(role) && mem.free == []
    {
      hide Owned, Shr, V, At, Chain, Walked;
      ghost var ram, role0 := mem.ram, role;
      PointerOwner(ram, roots, kroot, role, pid, pos);
      t := Take();
      if t == 0 {
        WalkedReflexive(ram, role, roots, pid);
        return;
      }
      Write(t, Filled(0));
      ghost var ram1 := mem.ram;
      mem.Store(table, mem.ram[table][i := MakePte(t, TABLE_ONLY)]);
      LinkWalked(ram, ram1, mem.ram, roots, kroot, role0, role, pid, pos, i, t);
      role := role[t := Own(pid, ChildPos(pos, i))];
      assert role == role0[t := Own(pid, ChildPos(pos, i))];
    }

    // One level of walk: the table an entry points to, created when asked.
    method NextTable(pid: nat, table: nat, i: nat, alloc: bool, ghost pos: Pos) returns (t: nat)
      requires Valid() && pid < MAX_PROCS && roots[pid] != 0 && TableEntry(pos, i) && !pos.Tab?
      requires table == At(mem.ram, roots[pid], pos) != 0
      modifies this`role, mem
      ensures Valid() && Walked(old(mem.ram), old(role), mem.ram, role, roots, pid)
      ensures t != 0 ==> t == At(mem.ram, roots[pid], ChildPos(pos, i))
      ensures t == 0 ==> mem.ram == old(mem.ram) && role == old(role)
      ensures t == 0 ==> if alloc then mem.free == [] else At(mem.ram, roots[pid], ChildPos(pos, i)) == 0
      ensures !alloc ==> mem.ram == old(mem.ram) && role == old(role) && mem.free == old(mem.free)
    {
      hide Owned, Shr, V, At, Chain, Walked;
      PointerAt(mem.ram, roots, kroot, role, pid, pos, i);
      WalkedReflexive(mem.ram, role, roots, pid);
      var pte := mem.ram[table][i];
      if V(pte) {
        return Ppn(pte);
      }
      if !alloc {
        return 0;
      }
      t := LinkNewTable(pid, table, i, pos);
    }

    // walk: the level-0 table covering vpn; 0 when it is absent and not wanted,
    // or when memory runs out.
    method Walk(pid: nat, vpn: nat, alloc: bool) returns (table: nat)
      requires Valid() && pid < MAX_PROCS && roots[pid] != 0 && InUser(vpn)
      modifies this`role, mem
      ensures Valid() && Walked(old(mem.ram), old(role), mem.ram, role, roots, pid)
      ensures table != 0 ==> table == At(mem.ram, roots[pid], Tab(Px(1, vpn)))
      ensures table == 0 ==> if alloc then mem.free == [] else At(mem.ram, roots[pid], Tab(Px(1, vpn))) == 0
      ensures !alloc ==> mem.ram == old(mem.ram) && role == old(role) && mem.free == old(mem.free)
    {
      hide Owned, Shr, V, At, Chain, Walked, Partition;
      UserIndices(vpn);
      RootIsAt(mem.ram, roots[pid]);
      WalkedReflexive(mem.ram, role, roots, pid);
      table := roots[pid];
      var level := 2;
      while level > 0
        invariant 0 <= level <= 2
        invariant Valid() && Walked(old(mem.ram), old(role), mem.ram, role, roots, pid)
        invariant table != 0 && table == At(mem.ram, roots[pid], LevelPos(level, vpn))
        invariant !alloc ==> mem.ram == old(mem.ram) && role == old(role) && mem.free == old(mem.free)
      {
        ghost var ram, role0 := mem.ram, role;
        var next := NextTable(pid, table, Px(level, vpn), alloc, LevelPos(level, vpn));
        WalkedTransitive(old(mem.ram), old(role), ram, role0, mem.ram, role, roots, pid);
        if next == 0 {
          if level == 2 {
            NoMidNoTab(mem.ram, roots[pid], Px(1, vpn));
          }
          return 0;
        }
        table, level := next, level - 1;
      }
    }

    // map_pages for one page. A page already mapped there stops the kernel.
    method MapPage(pid: nat, vpn: nat, ppn: nat, perm: Perm) returns (res: MapResult)
      requires Valid() && pid < MAX_PROCS && roots[pid] != 0 && InUser(vpn) && 0 < ppn < RAM_PAGES
      requires if perm.shared then ppn !in role || role[ppn] == Kernel else ppn in role && role[ppn] == Lost
      modifies this`role, mem
      ensures res.Mapped? ==>
              Valid()
              && MapStep(old(mem.ram), old(role), mem.ram, role, roots, pid, Px(1, vpn), Px(0, vpn), MakePte(ppn, perm))
      ensures res.NoMemory? ==> Valid() && mem.free == [] && Walked(old(mem.ram), old(role), mem.ram, role, roots, pid)
      ensures res.Mapped? ==> Leaf(old(mem.ram), roots[pid], Px(1, vpn), Px(0, vpn)) == 0
      ensures res.Remap? ==> Leaf(old(mem.ram), roots[pid], Px(1, vpn), Px(0, vpn)) != 0
    {
      hide Owned, Shr, V, At, Chain, Walked, MapStep, Shared, Ppn, Leaf, R, W, X, U, MakePte;
      ghost var ram, role0 := mem.ram, role;
      ghost var i1, i0 := Px(1, vpn), Px(0, vpn);
      var t := Walk(pid, vpn, true);
      if t == 0 {
        return NoMemory;
      }
      ghost var ram1, role1 := mem.ram, role;
      TabEntry(ram, role0, mem.ram, roots, kroot, role, pid, i1, i0);
      var e := MakePte(ppn, perm);
      MakePteReads(ppn, perm);
      if V(mem.ram[t][Px(0, vpn)]) {
        return Remap;
      }
      FreshFrameEntry(role0, ppn, perm, kroot);
      mem.Store(t, mem.ram[t][Px(0, vpn) := e]);
      MapAfterWalk(ram, role0, ram1, role1, mem.ram, roots, kroot, pid, i1, i0, e);
      role := FrameRoles(role, 0, e, pid, i1, i0);
      MapKeepsFree(role1, role, e, pid, i1, i0, mem.free);
      return Mapped;
    }

    // sys_munmap, one page: true when the page held an entry that is no leaf.
    method UnmapPage(pid: nat, vpn: nat) returns (refused: bool)
      requires Valid() && pid < MAX_PROCS && roots[pid] != 0 && InUser(vpn)
      modifies this`role, mem
      ensures Valid()
      ensures var e := Leaf(old(mem.ram), roots[pid], Px(1, vpn), Px(0, vpn));
              && (refused <==> V(e) && !IsLeaf(e))
              && (V(e) && IsLeaf(e) ==>
                  UnmapStep(old(mem.ram), old(role), mem.ram, role, roots, pid, Px(1, vpn), Px(0, vpn)))
              && (!V(e) || refused ==> mem.ram == old(mem.ram) && role == old(role))
    {
      hide Owned, Shr, V, At, Chain, Walked, UnmapStep, Shared, Ppn, Leaf, R, W, X, U;
      ghost var ram, role0 := mem.ram, role;
      ghost var i1, i0 := Px(1, vpn), Px(0, vpn);
      var t := Walk(pid, vpn, false);
      LeafIs(mem.ram, roots, kroot, role, pid, i1, i0);
      if t == 0 || !V(mem.ram[t][Px(0, vpn)]) {
        return false;
      }
      var pte := mem.ram[t][Px(0, vpn)];
      if !IsLeaf(pte) {
        return true;
      }
      if !Shared(pte) {
        mem.Kfree(Ppn(pte));
      }
      mem.Store(t, mem.ram[t][Px(0, vpn) := 0]);
      UnmapKeepsOwned(ram, mem.ram, roots, kroot, role0, pid, i1, i0);
      role := FrameRoles(role, pte, 0, pid, i1, i0);
      UnmapKeepsFree(role0, role, pte, pid, i1, i0, old(mem.free), mem.free);
      return false;
    }

    // freewalk_level: frees every page below a table of process pid, then the
    // table. `ram0` is memory as it was when the process was condemned.
    method FreewalkLevel(table: nat, level: nat, ghost pid: nat, ghost pos: Pos, ghost ram0: seq<Page>)
      requires mem.Linked() && Owned(ram0, roots, kroot, role) && pid < MAX_PROCS && roots[pid] != 0
      requires if level == 1 then pos == Mid else level == 0 && pos.Tab? && ValidPos(pos)
      requires table == At(ram0, roots[pid], pos) != 0
      requires Intact(ram0, mem.ram, role, mem.free, pid, pos)
      modifies mem
      ensures mem.Linked() && |mem.ram| == RAM_PAGES
      ensures ReleasedUnder(role, old(mem.free), mem.free, pid, pos)
      ensures forall p :: 0 <= p < RAM_PAGES && p !in mem.free ==> mem.ram[p] == old(mem.ram)[p]
      decreases level
    {
      hide Owned, Chain, Shr, V, Ppn, Shared, R, W, X, U, At, ReleasedBelow, ReleasedUnder;
      ghost var free0 := mem.free;
      TableInUse(ram0, mem.ram, roots, kroot, role, free0, pid, pos);
      NothingBelow(role, free0, pid, pos);
      for i := 0 to PTES
        invariant mem.Linked() && |mem.ram| == RAM_PAGES
        invariant ReleasedBelow(role, free0, mem.free, pid, pos, i)
        invariant table !in mem.free
        invariant forall p :: 0 <= p < RAM_PAGES && p !in mem.free && p != table ==> mem.ram[p] == old(mem.ram)[p]
        invariant forall j :: i <= j < PTES ==> mem.ram[table][j] == ram0[table][j]
      {
        ghost var free1 := mem.free;
        var pte := mem.ram[table][i];
        EntryLeads(ram0, roots, kroot, role, pid, pos, i);
        if !V(pte) {
          EmptyEntry(ram0, roots, kroot, role, free0, free1, pid, pos, i);
          continue;
        }
        if level > 0 && !IsLeaf(pte) {
          StillIntact(ram0, old(mem.ram), mem.ram, roots, kroot, role, free0, free1, pid, i, table);
          FreewalkLevel(Ppn(pte), level - 1, pid, Tab(i), ram0);
          FreedSubtree(role, free0, free1, mem.free, pid, i);
          ReleasedKeeps(role, free1, mem.free, pid, Tab(i), table, pos);
        } else {
          if !Shared(pte) {
            IntactFrame(ram0, old(mem.ram), role, free0, pid, pos, i, Ppn(pte));
            FrameNotFree(ram0, roots, kroot, role, free0, free1, pid, pos, i, Ppn(pte));
            mem.Kfree(Ppn(pte));
            FreedFrame(role, free0, free1, pid, pos.i1, i, Ppn(pte), mem.free);
          } else {
            EmptyEntry(ram0, roots, kroot, role, free0, free1, pid, pos, i);
          }
        }
        mem.Store(table, mem.ram[table][i := 0]);
      }
      ghost var free1 := mem.free;
      TableIsOnly(ram0, roots, kroot, role, pid, pos);
      mem.Kfree(table);
      FreedTable(role, free0, free1, mem.free, pid, pos, table);
    }

    // free_user_pages: exactly the pages the process owns become free.
    method FreeUserPages(pid: nat)
      requires Valid() && pid < MAX_PROCS && roots[pid] != 0
      modifies this`roots, this`role, mem
      ensures Valid()
      ensures roots == old(roots)[pid := 0]
      ensures role == Cleared(old(role), pid)
      ensures forall p :: p in old(role) && old(role)[p] != Free && !(old(role)[p].Own? && old(role)[p].pid == pid) ==>
                mem.ram[p] == old(mem.ram)[p]
      ensures |mem.ram| == |old(mem.ram)|
      ensures forall p: nat :: p < |mem.ram| && p !in old(role) ==> mem.ram[p] == old(mem.ram)[p]
    {
      hide Owned, Chain, Shr, V, Ppn, Shared, R, W, X, U, At, ReleasedBelow, ReleasedUnder;
      ghost var ram0, free0 := mem.ram, mem.free;
      var pgtable := roots[pid];
      RootIsAt(ram0, pgtable);
      RootInUse(ram0, roots, kroot, role, free0, pid);
      NothingBelow(role, free0, pid, Root);
      for i := 0 to PTES
        invariant mem.Linked() && |mem.ram| == RAM_PAGES
        invariant ReleasedBelow(role, free0, mem.free, pid, Root, i)
        invariant pgtable !in mem.free && kroot !in mem.free
        invariant i <= USER_ROOT ==> mem.free == free0
        invariant forall p :: 0 <= p < RAM_PAGES && p !in mem.free && p != pgtable ==> mem.ram[p] == ram0[p]
        invariant forall j :: i <= j < PTES ==> mem.ram[pgtable][j] == ram0[pgtable][j]
        modifies mem
      {
        RootEntry(ram0, roots, kroot, role, pid, i);
        if i != USER_ROOT {
          RootStep(role, free0, mem.free, pid, i);
        }
        if mem.ram[pgtable][i] == mem.ram[kroot][i] {
          if i == USER_ROOT {
            EmptyEntry(ram0, roots, kroot, role, free0, mem.free, pid, Root, i);
          }
          continue;
        }
        if !V(mem.ram[pgtable][i]) {
          EmptyEntry(ram0, roots, kroot, role, free0, mem.free, pid, Root, i);
          continue;
        }
        MidIntact(ram0, mem.ram, roots, kroot, role, free0, pid, pgtable);
        FreewalkLevel(Ppn(mem.ram[pgtable][i]), 1, pid, Mid, ram0);
        FreedMid(role, free0, mem.free, pid, i);
        ReleasedKeeps(role, free0, mem.free, pid, Mid, pgtable, Root);
        KernelKept(role, free0, mem.free, pid, Mid, kroot);
        mem.Store(pgtable, mem.ram[pgtable][i := 0]);
      }
      ghost var free1 := mem.free;
      TableIsOnly(ram0, roots, kroot, role, pid, Root);
      mem.Kfree(pgtable);
      FreedTable(role, free0, free1, mem.free, pid, Root, pgtable);
      mem.ListedOnce();
      DropKeepsPartition(ram0, mem.ram, roots, kroot, role, pid, free0, mem.free);
      roots := roots[pid := 0];
      role := Cleared(role, pid);
    }
  }

  datatype MapResult = Mapped | NoMemory | Remap

  // The frame to be mapped makes a well-formed entry.
  lemma FreshFrameEntry(role: map<nat, Role>, ppn: nat, perm: Perm, kroot: nat)
    requires 0 < ppn < RAM_PAGES
    requires if perm.shared then ppn !in role || role[ppn] == Kernel else ppn in role && role[ppn] == Lost
    ensures var e := MakePte(ppn, perm);
            FrameEntry(role, e) && V(e) && (!Shared(e) ==> Ppn(e) in role && role[Ppn(e)] == Lost)
  {
    hide Shr;
    MakePteReads(ppn, perm);
  }

  // After a walk: the table covering the page, and the entry it already had.
  lemma TabEntry(ram: seq<Page>, role: map<nat, Role>, ram1: seq<Page>, roots: seq<nat>, kroot: nat,
      role1: map<nat, Role>, pid: nat, i1: nat, i0: nat)
    requires Walked(ram, role, ram1, role1, roots, pid) && Owned(ram1, roots, kroot, role1)
    requires pid < MAX_PROCS && i1 < PTES && i0 < PTES && roots[pid] != 0
    requires At(ram1, roots[pid], Tab(i1)) != 0
    ensures var t := At(ram1, roots[pid], Tab(i1));
            && t < |ram1| == RAM_PAGES && t in role1 && role1[t] == Own(pid, Tab(i1))
            && ram1[t][i0] == Leaf(ram, roots[pid], i1, i0)
            && (V(ram1[t][i0]) || ram1[t][i0] == 0)
            && (V(ram1[t][i0]) ==> ram1[t][i0] != 0)
  {
    hide Shr;
    var t := At(ram1, roots[pid], Tab(i1));
    assert Leaf(ram1, roots[pid], i1, i0) == Leaf(ram, roots[pid], i1, i0);
    assert t in role1 && ShapeAt(ram1, roots[pid], kroot, role1, Tab(i1));
  }

  lemma LeafIs(ram: seq<Page>, roots: seq<nat>, kroot: nat, role: map<nat, Role>, pid: nat, i1: nat, i0: nat)
    requires Owned(ram, roots, kroot, role) && pid < MAX_PROCS && i1 < PTES && i0 < PTES && roots[pid] != 0
    ensures var t := At(ram, roots[pid], Tab(i1));
            if t == 0 then Leaf(ram, roots[pid], i1, i0) == 0 && !V(Leaf(ram, roots[pid], i1, i0))
            else
              && t < |ram| && t in role && role[t] == Own(pid, Tab(i1))
              && Leaf(ram, roots[pid], i1, i0) == ram[t][i0]
              && (V(ram[t][i0]) && !Shared(ram[t][i0]) ==>
                    var f := Ppn(ram[t][i0]); 0 < f < RAM_PAGES && f in role && role[f] == Own(pid, Frame(i1, i0)))
  {
    hide Shr;
    var t := At(ram, roots[pid], Tab(i1));
    if t != 0 {
      MappedFrame(ram, roots, kroot, role, pid, i1, i0);
    }
  }

  lemma MapKeepsFree(role: map<nat, Role>, role': map<nat, Role>, e: u64, pid: nat, i1: nat, i0: nat, free: seq<nat>)
    requires role' == FrameRoles(role, 0, e, pid, i1, i0)
    requires V(e) && !Shared(e) ==> Ppn(e) in role && role[Ppn(e)] == Lost
    requires forall p :: p in free <==> p in role && role[p] == Free
    ensures forall p :: p in free <==> p in role' && role'[p] == Free
  {
  }

  lemma UnmapKeepsFree(role: map<nat, Role>, role': map<nat, Role>, was: u64, pid: nat, i1: nat, i0: nat,
      free: seq<nat>, free': seq<nat>)
    requires role' == FrameRoles(role, was, 0, pid, i1, i0) && V(was)
    requires !Shared(was) ==> Ppn(was) in role && role[Ppn(was)].Own?
    requires free' == if Shared(was) then free else [Ppn(was)] + free
    requires forall p :: p in free <==> p in role && role[p] == Free
    requires forall i, j :: 0 <= i < j < |free| ==> free[i] != free[j]
    ensures forall p :: p in free' <==> p in role' && role'[p] == Free
    ensures forall i, j :: 0 <= i < j < |free'| ==> free'[i] != free'[j]
  {
  }

  // The position walk has reached at each level.
  function LevelPos(level: nat, vpn: nat): Pos {
    if level == 2 then Root else if level == 1 then Mid else Tab(Px(1, vpn))
  }

  lemma RootIsAt(ram: seq<Page>, root: nat)
    ensures At(ram, root, Root) == root
  {
  }

  lemma NoMidNoTab(ram: seq<Page>, root: nat, i1: nat)
    requires i1 < PTES
    ensures At(ram, root, Mid) == 0 ==> At(ram, root, Tab(i1)) == 0
  {
  }

  lemma TakeKeepsPartition(ram: seq<Page>, ram': seq<Page>, roots: seq<nat>, kroot: nat, role: map<nat, Role>,
      free: seq<nat>)
    requires Partition(ram, roots, kroot, role, free) && free != [] && |ram'| == |ram|
    requires forall q :: 0 <= q < |ram| && q != free[0] ==> ram'[q] == ram[q]
    ensures Partition(ram', roots, kroot, role[free[0] := Lost], free[1..])
  {
    hide Owned;
    assert free[0] in role && role[free[0]] == Free;
    TakeKeepsOwned(ram, ram', roots, kroot, role, free[0]);
  }

  lemma TakeKeepsOwned(ram: seq<Page>, ram': seq<Page>, roots: seq<nat>, kroot: nat, role: map<nat, Role>, p: nat)
    requires Owned(ram, roots, kroot, role) && |ram'| == |ram| && p in role && role[p] == Free
    requires forall q :: 0 <= q < |ram| && q != p ==> ram'[q] == ram[q]
    ensures Owned(ram', roots, kroot, role[p := Lost])
  {
    OwnedFrame(ram, ram', roots, kroot, role, role[p := Lost]);
  }

  // A pointer entry either points to the owned child page or is empty.
  lemma PointerAt(ram: seq<Page>, roots: seq<nat>, kroot: nat, role: map<nat, Role>, pid: nat, pos: Pos, i: nat)
    requires Owned(ram, roots, kroot, role) && pid < MAX_PROCS && roots[pid] != 0 && TableEntry(pos, i) && !pos.Tab?
    requires At(ram, roots[pid], pos) != 0
    ensures 0 < At(ram, roots[pid], pos) < RAM_PAGES
    ensures var e := ram[At(ram, roots[pid], pos)][i];
            && (V(e) ==> Ppn(e) != 0)
            && At(ram, roots[pid], ChildPos(pos, i)) == if V(e) then Ppn(e) else 0
  {
    hide Shr;
    var q := At(ram, roots[pid], pos);
    assert ShapeAt(ram, roots[pid], kroot, role, pos);
  }

  lemma LinkWalked(ram: seq<Page>, ram1: seq<Page>, ram2: seq<Page>, roots: seq<nat>, kroot: nat, role: map<nat, Role>,
      role1: map<nat, Role>, pid: nat, pos: Pos, i: nat, b: nat)
    requires Owned(ram, roots, kroot, role) && Owned(ram1, roots, kroot, role1) && |roots| == MAX_PROCS
    requires b in role && role[b] == Free && role1 == role[b := Lost] && b < RAM_PAGES
    requires |ram1| == |ram| && ram1[b] == Filled(0) && forall q :: 0 <= q < |ram| && q != b ==> ram1[q] == ram[q]
    requires pid < MAX_PROCS && roots[pid] != 0 && TableEntry(pos, i) && !pos.Tab?
    requires var q := At(ram, roots[pid], pos);
             0 < q < |ram| && !V(ram[q][i]) && ram2 == ram1[q := ram[q][i := MakePte(b, TABLE_ONLY)]]
    ensures Owned(ram2, roots, kroot, role[b := Own(pid, ChildPos(pos, i))])
    ensures Walked(ram, role, ram2, role[b := Own(pid, ChildPos(pos, i))], roots, pid)
    ensures At(ram2, roots[pid], ChildPos(pos, i)) == b
  {
    hide Owned, Shr, V, Shared, Ppn, Leaf;
    var q := At(ram, roots[pid], pos);
    PointerOwner(ram, roots, kroot, role, pid, pos);
    TableUntouched(ram, ram1, roots, kroot, role, pid, pos);
    assert role1[b := Own(pid, ChildPos(pos, i))] == role[b := Own(pid, ChildPos(pos, i))];
    assert EntrySet(ram1, ram2, roots, kroot, role1, pid, pos, i, MakePte(b, TABLE_ONLY));
    LinkKeepsOwned(ram1, ram2, roots, kroot, role1, pid, pos, i, b);
    AtAfterLink(ram1, ram2, roots, kroot, role1, pid, pos, i, b, pid, ChildPos(pos, i));
    forall p, i1, i0 {:trigger Leaf(ram2, roots[p], i1, i0)} | 0 <= p < MAX_PROCS && 0 <= i1 < PTES && 0 <= i0 < PTES
        && roots[p] != 0
      ensures Leaf(ram2, roots[p], i1, i0) == Leaf(ram, roots[p], i1, i0)
    {
      LeafAfterLink(ram1, ram2, roots, kroot, role1, pid, pos, i, b, p, i1, i0);
      LeafUntouched(ram, ram1, roots, kroot, role, p, i1, i0);
    }
  }

  lemma PointerOwner(ram: seq<Page>, roots: seq<nat>, kroot: nat, role: map<nat, Role>, pid: nat, pos: Pos)
    requires Owned(ram, roots, kroot, role) && pid < MAX_PROCS && roots[pid] != 0 && ValidPos(pos)
    requires At(ram, roots[pid], pos) != 0
    ensures At(ram, roots[pid], pos) in role && role[At(ram, roots[pid], pos)] == Own(pid, pos)
    ensures |ram| == RAM_PAGES && |roots| == MAX_PROCS && 0 !in role && forall p :: p in role ==> p < RAM_PAGES
  {
  }

  lemma TableUntouched(ram: seq<Page>, ram': seq<Page>, roots: seq<nat>, kroot: nat, role: map<nat, Role>, pid: nat,
      pos: Pos)
    requires Owned(ram, roots, kroot, role) && |ram'| == |ram|
    requires forall p :: p in role && IsTable(role[p]) ==> ram'[p] == ram[p]
    requires pid < MAX_PROCS && ValidPos(pos) && roots[pid] != 0
    ensures At(ram', roots[pid], pos) == At(ram, roots[pid], pos)
  {
    AtFrame(ram, ram', roots, kroot, role, pid, pos);
  }

  // Mappings depend on the table pages alone.
  lemma LeafUntouched(ram: seq<Page>, ram': seq<Page>, roots: seq<nat>, kroot: nat, role: map<nat, Role>, pid: nat,
      i1: nat, i0: nat)
    requires Owned(ram, roots, kroot, role) && |ram'| == |ram|
    requires forall p :: p in role && IsTable(role[p]) ==> ram'[p] == ram[p]
    requires pid < MAX_PROCS && roots[pid] != 0 && i1 < PTES && i0 < PTES
    ensures Leaf(ram', roots[pid], i1, i0) == Leaf(ram, roots[pid], i1, i0)
  {
    AtFrame(ram, ram', roots, kroot, role, pid, Tab(i1));
    var t := At(ram, roots[pid], Tab(i1));
  }
}
