// execve's new address space, and what any run of memory calls leaves of the pool.
module MemoryRuns {
  import opened Sv39
  import opened Ownership
  import opened PageTables
  import opened Memory
  import opened FreeSpace
  import opened AddressSpace
  import opened Mmu
  import opened Fork
  import opened UserMemory

  // ---- execve ----

  // The pages [from, to) of the program or of its stack.
  datatype Region = Region(from: nat, to: nat)

  const STACK := Region(USER_END - KSTACK_PAGENUM, USER_END)

  predicate UserRegion(g: Region) {
    g.from < g.to ==> USER_START <= g.from && g.to <= USER_END
  }

  predicate Within(g: Region, vpn: nat) {
    g.from <= vpn < g.to
  }

  predicate InRegions(regions: seq<Region>, vpn: nat) {
    exists k :: 0 <= k < |regions| && Within(regions[k], vpn)
  }

  // Some page lies in two of the regions.
  ghost predicate Overlap(regions: seq<Region>) {
    exists k, v: nat :: 0 <= k < |regions| && Within(regions[k], v) && InRegions(regions[..k], v)
  }

  // The space maps the pages of the regions, each to a frame of its own that it
  // may read, write and run, and no other page.
  ghost predicate MapsExactly(ram: seq<Page>, root: nat, regions: seq<Region>) {
    forall i1, i0 {:trigger Leaf(ram, root, i1, i0)} :: 0 <= i1 < PTES && 0 <= i0 < PTES ==>
      && (Leaf(ram, root, i1, i0) != 0 <==> InRegions(regions, Vpn(i1, i0)))
      && (Leaf(ram, root, i1, i0) != 0 ==> V(Leaf(ram, root, i1, i0)) && PermOf(Leaf(ram, root, i1, i0)) == HEAP)
  }

  // The hardware finds the regions' addresses, for every use, and no other user address.
  ghost predicate Reaches(ram: seq<Page>, root: nat, regions: seq<Region>) {
    forall va: nat :: InUser(va / PAGE_SIZE) ==>
      match Translate(ram, root, va)
      case Fault => !InRegions(regions, va / PAGE_SIZE)
      case Page(_, r, w, x, u) => r && w && x && u && InRegions(regions, va / PAGE_SIZE)
  }

  lemma MapsReach(ram: seq<Page>, roots: seq<nat>, kroot: nat, role: map<nat, Role>, free: seq<nat>, pid: nat,
      regions: seq<Region>)
    requires Partition(ram, roots, kroot, role, free) && pid < MAX_PROCS && roots[pid] != 0
    requires MapsExactly(ram, roots[pid], regions)
    ensures Reaches(ram, roots[pid], regions)
  {
    assert |roots| == MAX_PROCS;
    hide Owned, Leaf, V, PermOf, Translate, LeafFound, InRegions;
    NothingFound();
    forall va: nat | InUser(va / PAGE_SIZE)
      ensures match Translate(ram, roots[pid], va)
              case Fault => !InRegions(regions, va / PAGE_SIZE)
              case Page(_, r, w, x, u) => r && w && x && u && InRegions(regions, va / PAGE_SIZE)
    {
      var vpn := va / PAGE_SIZE;
      UserIndices(vpn);
      WalkFinds(ram, roots, kroot, role, pid, va);
      var e := Leaf(ram, roots[pid], Px(1, vpn), Px(0, vpn));
      if e != 0 {
        PermFound(e, HEAP);
      }
    }
  }

  // Pages the kernel or another process uses, or that are lost, or that do not
  // belong to the pool, stay as they are.
  ghost predicate OthersKept(ram: seq<Page>, role: map<nat, Role>, ram': seq<Page>, role': map<nat, Role>, pid: nat) {
    && |ram'| == |ram|
    && (forall p :: p in role && p < |ram| && role[p] != Free && !(role[p].Own? && role[p].pid == pid) ==>
         p in role' && role'[p] == role[p] && ram'[p] == ram[p])
    && (forall p: nat :: p < |ram| && p !in role ==> p !in role' && ram'[p] == ram[p])
  }

  // proc_exec_reclaim and the mappings of context_uload and loader: the old
  // space is given back and a new one maps the stack and the segments. It stops
  // the kernel when memory runs out or two regions share a page.
  method ExecSpace(m: Machine, pid: nat, segments: seq<Region>) returns (ok: bool, ghost lost: nat)
    requires m.Valid() && pid < MAX_PROCS && forall g :: g in segments ==> UserRegion(g)
    modifies m`role, m`roots, m.mem
    ensures ok ==>
              && m.Valid() && m.roots == old(m.roots)[pid := m.roots[pid]] && m.roots[pid] != 0
              && MapsExactly(m.mem.ram, m.roots[pid], [STACK] + segments)
              && Reaches(m.mem.ram, m.roots[pid], [STACK] + segments)
              && OthersKept(old(m.mem.ram), old(m.role), m.mem.ram, m.role, pid)
              && NoneLost(old(m.role), m.role)
    ensures ok ==> !Overlap([STACK] + segments)
    ensures !ok ==>
              || (m.Valid() && m.mem.free == [] && LostOnly(old(m.role), m.role, lost))
              || Overlap([STACK] + segments)
  {
    hide Owned, Chain, Leaf, At, MapsExactly, OthersKept, NoneLost, LostOnly, Partition, Cloned, Overlap, Reaches;
    ghost var ram0, role0 := m.mem.ram, m.role;
    lost := 0;
    NoPageZero(ram0, m.roots, m.kroot, role0, m.mem.free);
    ok := FreshSpace(m, pid);
    if !ok {
      NoneIsZero(role0, m.role);
      return;
    }
    assert UserRegion(STACK);
    ghost var ram2, role2 := m.mem.ram, m.role;
    ok, lost := MapRegions(m, pid, [STACK] + segments);
    if ok {
      OthersTwice(ram0, role0, ram2, role2, m.mem.ram, m.role, pid);
      MapsReach(m.mem.ram, m.roots, m.kroot, m.role, m.mem.free, pid, [STACK] + segments);
    } else {
      NoneThenLost(role0, role2, m.role, lost);
    }
  }

  // The old space, if any, is given back, and an empty one takes its place.
  method FreshSpace(m: Machine, pid: nat) returns (ok: bool)
    requires m.Valid() && pid < MAX_PROCS
    modifies m`role, m`roots, m.mem
    ensures m.Valid()
    ensures ok ==>
              && m.roots == old(m.roots)[pid := m.roots[pid]] && m.roots[pid] != 0
              && MapsExactly(m.mem.ram, m.roots[pid], [])
              && OthersKept(old(m.mem.ram), old(m.role), m.mem.ram, m.role, pid)
    ensures NoneLost(old(m.role), m.role)
    ensures !ok ==> m.mem.free == []
  {
    hide Owned, Chain, Leaf, At, MapsExactly, OthersKept, NoneLost, Partition, Cloned;
    ghost var ram0, role0 := m.mem.ram, m.role;
    SameOthers(ram0, role0, pid);
    if m.roots[pid] != 0 {
      Reclaim(m, pid);
    }
    ghost var ram1, role1 := m.mem.ram, m.role;
    ok := Protect(m, pid);
    if !ok {
      return;
    }
    ProtectedOthers(ram1, role1, m.mem.ram, m.role, pid, m.roots[pid]);
    OthersTwice(ram0, role0, ram1, role1, m.mem.ram, m.role, pid);
    NothingMapped(m.mem.ram, m.roots[pid]);
  }

  // proc_exec_reclaim, and what terminate_proc does to the space.
  method Reclaim(m: Machine, pid: nat)
    requires m.Valid() && pid < MAX_PROCS && m.roots[pid] != 0
    modifies m`role, m`roots, m.mem
    ensures m.Valid() && m.roots == old(m.roots)[pid := 0] && m.role == Cleared(old(m.role), pid)
    ensures OthersKept(old(m.mem.ram), old(m.role), m.mem.ram, m.role, pid) && NoneLost(old(m.role), m.role)
  {
    hide Owned, Chain, Leaf, At, OthersKept, NoneLost, Partition;
    ghost var ram0, role0 := m.mem.ram, m.role;
    OwnedOf(ram0, m.roots, m.kroot, role0, m.mem.free);
    RangeOfRoles(ram0, m.roots, m.kroot, role0);
    m.FreeUserPages(pid);
    ClearedOthers(ram0, role0, m.mem.ram, m.role, pid);
  }

  // Maps fresh pages at every region of an empty space.
  method MapRegions(m: Machine, pid: nat, regions: seq<Region>) returns (ok: bool, ghost lost: nat)
    requires m.Valid() && pid < MAX_PROCS && m.roots[pid] != 0 && MapsExactly(m.mem.ram, m.roots[pid], [])
    requires forall k :: 0 <= k < |regions| ==> UserRegion(regions[k])
    modifies m`role, m.mem
    ensures ok ==>
              && m.Valid() && MapsExactly(m.mem.ram, m.roots[pid], regions)
              && OthersKept(old(m.mem.ram), old(m.role), m.mem.ram, m.role, pid)
              && NoneLost(old(m.role), m.role)
              && !Overlap(regions)
    ensures !ok ==>
              || (m.Valid() && m.mem.free == [] && LostOnly(old(m.role), m.role, lost))
              || Overlap(regions)
  {
    hide Owned, Chain, Leaf, At, MapsExactly, OthersKept, NoneLost, LostOnly, Spawned, SpawnedOrLost, Grown, Partition,
        Overlap, MappedIn;
    ghost var ram0, role0, root := m.mem.ram, m.role, m.roots[pid];
    lost := 0;
    assert !Overlap(regions[..0]) by {
      NothingOverlaps();
      assert regions[..0] == [];
    }
    SameOthers(ram0, role0, pid);
    for k := 0 to |regions|
      invariant m.Valid() && MapsExactly(m.mem.ram, root, regions[..k]) && !Overlap(regions[..k])
      invariant OthersKept(ram0, role0, m.mem.ram, m.role, pid) && NoneLost(role0, m.role)
    {
      var g := regions[k];
      NoPageZero(m.mem.ram, m.roots, m.kroot, m.role, m.mem.free);
      ghost var ram1, role1 := m.mem.ram, m.role;
      var res;
      ghost var done;
      res, done, lost := MapRange(m, pid, g.from, g.to, HEAP, Anonymous);
      if !res.Done? {
        lost := if res.OutOfTables? then lost else 0;
        if MappedIn(ram1, root, g.from, g.to) {
          SharedPage(ram1, root, regions, k);
        } else {
          RangeLoses(ram1, role1, m.mem.ram, m.role, m.roots, pid, lost, res);
          NoneThenLost(role0, role1, m.role, lost);
        }
        return false, lost;
      }
      GrownOthers(ram1, role1, m.mem.ram, m.role, m.roots, pid, g);
      OthersTwice(ram0, role0, ram1, role1, m.mem.ram, m.role, pid);
      GrownMaps(ram1, role1, m.mem.ram, m.role, m.roots, pid, regions, k);
      FreshRegion(ram1, root, regions, k);
    }
    assert regions[..|regions|] == regions;
    return true, 0;
  }

  // A failed map_pages, or a page that could not be had before it.
  lemma RangeLoses(ram: seq<Page>, role: map<nat, Role>, ram': seq<Page>, role': map<nat, Role>, roots: seq<nat>,
      pid: nat, lost: nat, res: CloneResult)
    requires if res.OutOfTables? then SpawnedOrLost(ram, role, ram', role', roots, pid, lost)
             else NoneLost(role, role') && lost !in role
    ensures LostOnly(role, role', lost)
  {
    hide Spawned, SpawnedOrLost;
    if res.OutOfTables? {
      SpawnedOrLostLoses(ram, role, ram', role', roots, pid, lost);
    }
  }

  lemma NoneThenLost(role: map<nat, Role>, role1: map<nat, Role>, role2: map<nat, Role>, lost: nat)
    requires NoneLost(role, role1)
    ensures LostOnly(role1, role2, lost) ==> LostOnly(role, role2, lost)
  {
  }

  lemma SameOthers(ram: seq<Page>, role: map<nat, Role>, pid: nat)
    ensures OthersKept(ram, role, ram, role, pid) && NoneLost(role, role)
  {
  }

  lemma ClearedOthers(ram: seq<Page>, role: map<nat, Role>, ram': seq<Page>, role': map<nat, Role>, pid: nat)
    requires |ram'| == |ram| && role' == Cleared(role, pid) && forall p :: p in role ==> p < |ram|
    requires forall p :: p in role && role[p] != Free && !(role[p].Own? && role[p].pid == pid) ==> ram'[p] == ram[p]
    requires forall p: nat :: p < |ram| && p !in role ==> ram'[p] == ram[p]
    ensures OthersKept(ram, role, ram', role', pid) && NoneLost(role, role')
  {
  }

  lemma ProtectedOthers(ram: seq<Page>, role: map<nat, Role>, ram': seq<Page>, role': map<nat, Role>, pid: nat,
      root: nat)
    requires |ram| == |ram'| == RAM_PAGES && root in role && role[root] == Free && role' == role[root := Own(pid, Root)]
    requires forall q :: 0 <= q < RAM_PAGES && q != root ==> ram'[q] == ram[q]
    ensures OthersKept(ram, role, ram', role', pid) && NoneLost(role, role')
  {
  }

  lemma GrownOthers(ram: seq<Page>, role: map<nat, Role>, ram': seq<Page>, role': map<nat, Role>, roots: seq<nat>,
      pid: nat, g: Region)
    requires Grown(ram, role, ram', role', roots, pid, g.from, if g.from < g.to then g.to else g.from, HEAP, Anonymous)
    ensures OthersKept(ram, role, ram', role', pid) && NoneLost(role, role')
  {
    hide Leaf, Supplied;
    SpawnedLosesNone(ram, role, ram', role', roots, pid);
  }

  lemma OthersTwice(ram: seq<Page>, role: map<nat, Role>, ram1: seq<Page>, role1: map<nat, Role>, ram2: seq<Page>,
      role2: map<nat, Role>, pid: nat)
    requires OthersKept(ram, role, ram1, role1, pid) && OthersKept(ram1, role1, ram2, role2, pid)
    requires NoneLost(role, role1) && NoneLost(role1, role2)
    ensures OthersKept(ram, role, ram2, role2, pid) && NoneLost(role, role2)
  {
  }

  lemma NothingMapped(ram: seq<Page>, root: nat)
    requires Cloned(ram, 0, root, 0)
    ensures MapsExactly(ram, root, [])
  {
    hide Leaf;
  }

  lemma InOneMore(regions: seq<Region>, k: nat)
    requires k < |regions|
    ensures forall v: nat :: InRegions(regions[..k + 1], v) <==> InRegions(regions[..k], v) || Within(regions[k], v)
  {
    hide Within;
    var before, g := regions[..k], regions[k];
    assert regions[..k + 1] == before + [g];
    forall v: nat
      ensures InRegions(before + [g], v) <==> InRegions(before, v) || Within(g, v)
    {
      if j :| 0 <= j < k && Within(before[j], v) {
        assert (before + [g])[j] == before[j];
      }
      assert (before + [g])[k] == g;
    }
  }

  lemma GrownMaps(ram: seq<Page>, role: map<nat, Role>, ram': seq<Page>, role': map<nat, Role>, roots: seq<nat>,
      pid: nat, regions: seq<Region>, k: nat)
    requires k < |regions| && pid < |roots| && MapsExactly(ram, roots[pid], regions[..k])
    requires var g := regions[k];
             Grown(ram, role, ram', role', roots, pid, g.from, if g.from < g.to then g.to else g.from, HEAP, Anonymous)
    ensures MapsExactly(ram', roots[pid], regions[..k + 1])
  {
    InOneMore(regions, k);
    ZeroEntry();
    hide Leaf, V, Spawned, InRegions, R, W, X, U, Ppn, Shared;
    forall i1, i0 {:trigger Leaf(ram', roots[pid], i1, i0)} | 0 <= i1 < PTES && 0 <= i0 < PTES
      ensures Leaf(ram', roots[pid], i1, i0) != 0 <==> InRegions(regions[..k + 1], Vpn(i1, i0))
    {
      assert Leaf(ram, roots[pid], i1, i0) != 0 <==> InRegions(regions[..k], Vpn(i1, i0));
    }
  }

  lemma NothingOverlaps()
    ensures !Overlap([])
  {
  }

  // Pages mapped for the first time are in no region before.
  lemma FreshRegion(ram: seq<Page>, root: nat, regions: seq<Region>, k: nat)
    requires k < |regions| && UserRegion(regions[k]) && MapsExactly(ram, root, regions[..k]) && !Overlap(regions[..k])
    requires !MappedIn(ram, root, regions[k].from, regions[k].to)
    ensures !Overlap(regions[..k + 1])
  {
    hide Leaf, V, R, W, X, U, Shared;
    var next := regions[..k + 1];
    forall j, v: nat | 0 <= j < |next| && Within(next[j], v)
      ensures !InRegions(next[..j], v)
    {
      if j < k {
        assert next[..j] == regions[..k][..j] && next[j] == regions[..k][j];
      } else {
        assert next[..j] == regions[..k];
        UserIndices(v);
        assert Leaf(ram, root, Px(1, v), Px(0, v)) == 0;
      }
    }
  }

  lemma SharedPage(ram: seq<Page>, root: nat, regions: seq<Region>, k: nat)
    requires k < |regions| && MapsExactly(ram, root, regions[..k])
    requires MappedIn(ram, root, regions[k].from, regions[k].to)
    ensures Overlap(regions)
  {
    hide Leaf;
    var v :| regions[k].from <= v < regions[k].to && InUser(v) && Leaf(ram, root, Px(1, v), Px(0, v)) != 0;
    UserIndices(v);
    assert Within(regions[k], v) && InRegions(regions[..k], v);
  }

  // ---- Runs of memory calls ----

  datatype Call =
    | CallBrk(pid: nat, maxBrk: nat, newBrk: nat)
    | CallMmap(pid: nat, addr: nat, len: nat, perm: Perm, src: Source, mmapBase: nat, maxBrk: nat)
    | CallMunmap(pid: nat, addr: nat, len: nat)
    | CallFork(parent: nat, child: nat)
    | CallExit(pid: nat)
    | CallExec(pid: nat, segments: seq<Region>)

  // What the kernel itself sees to before each call, wherever it is made.
  ghost predicate CallOk(c: Call, role: map<nat, Role>) {
    match c
    case CallBrk(pid, _, _) => pid < MAX_PROCS
    case CallMmap(pid, addr, len, perm, src, _, _) =>
      && pid < MAX_PROCS && addr < WORD_END && len < WORD_END && (src.Anonymous? <==> !perm.shared)
      && DevicePages(role, src, PageUp(len))
    case CallMunmap(pid, addr, len) => pid < MAX_PROCS && addr < WORD_END && len < WORD_END
    case CallFork(parent, child) => parent < MAX_PROCS && child < MAX_PROCS
    case CallExit(pid) => pid < MAX_PROCS
    case CallExec(pid, segments) => pid < MAX_PROCS && forall g :: g in segments ==> UserRegion(g)
  }

  ghost predicate CallsOk(calls: seq<Call>, role: map<nat, Role>) {
    forall c :: c in calls ==> CallOk(c, role)
  }

  lemma CallStaysOk(c: Call, role: map<nat, Role>, role': map<nat, Role>)
    requires CallOk(c, role) && role'.Keys == role.Keys
    requires forall p :: p in role ==> (role'[p] == Kernel <==> role[p] == Kernel)
    ensures CallOk(c, role')
  {
  }

  // NoTables: map_pages found no page for a page table, and the call gave up.
  // Stopped: a panic. Outside: a mapping below the user range, not followed.
  datatype Outcome = Finished | NoTables | Stopped | Outside

  // What a finished call has done to memory.
  ghost predicate Did(c: Call, s: Moment, t: Moment) {
    match c
    case CallBrk(pid, maxBrk, newBrk) =>
      var top := if maxBrk < PageUp(newBrk) then PageUp(newBrk) else maxBrk;
      InSpace(s, pid) && t.roots == s.roots
          && Grown(s.ram, s.role, t.ram, t.role, s.roots, pid, maxBrk, top, HEAP, Anonymous)
          && (newBrk + PAGE_SIZE <= WORD_END ==> Accessible(t.ram, s.roots[pid], PAGE_SIZE * maxBrk, newBrk, HEAP))
    case CallMmap(pid, addr, len, perm, src, mmapBase, maxBrk) =>
      && InSpace(s, pid) && addr < WORD_END
      && if Unmappable(addr, PageUp(len), mmapBase, maxBrk) then t == s
         else
           var base := MmapBase(addr, PageUp(len), mmapBase, maxBrk).0;
           && base >= 0 && t.roots == s.roots
           && Grown(s.ram, s.role, t.ram, t.role, s.roots, pid, base, base + PageUp(len), perm, src)
           && (Usable(perm) ==> Accessible(t.ram, s.roots[pid], PAGE_SIZE * base, PAGE_SIZE * base + len, perm))
           && (addr != 0 ==> addr <= PAGE_SIZE * base < addr + PAGE_SIZE)
    case CallMunmap(pid, addr, len) =>
      && InSpace(s, pid)
      && if BadRange(addr, len) then t == s
         else t.roots == s.roots && exists done ::
           && addr / PAGE_SIZE <= done <= PageUp((addr + len) % WORD_END)
           && Unmapped(s.ram, s.role, t.ram, t.role, s.roots, pid, addr / PAGE_SIZE, done)
           && (done == PageUp((addr + len) % WORD_END) && addr + len < WORD_END ==>
                 Faults(t.ram, s.roots[pid], addr, addr + len))
    case CallFork(parent, child) =>
      && InSpace(s, parent) && child < |s.roots| == |t.roots| && s.roots[child] == 0
      && t.roots == s.roots[child := t.roots[child]] && t.roots[child] != 0
      && Cloned(t.ram, s.roots[parent], t.roots[child], USER_END)
      && SameView(t.ram, s.roots[parent], t.roots[child])
      && Spawned(s.ram, s.role, t.ram, t.role, t.roots, child)
    case CallExit(pid) =>
      InSpace(s, pid) && t.roots == s.roots[pid := 0] && t.role == Cleared(s.role, pid)
    case CallExec(pid, segments) =>
      && pid < |s.roots| == |t.roots| && t.roots == s.roots[pid := t.roots[pid]] && t.roots[pid] != 0
      && MapsExactly(t.ram, t.roots[pid], [STACK] + segments)
      && Reaches(t.ram, t.roots[pid], [STACK] + segments)
      && OthersKept(s.ram, s.role, t.ram, t.role, pid)
  }

  // Why a call may stop the kernel with pages left.
  ghost predicate StopCause(c: Call, s: Moment) {
    match c
    case CallBrk(pid, maxBrk, newBrk) =>
      InSpace(s, pid) && (PageUp(newBrk) > USER_END || MappedIn(s.ram, s.roots[pid], maxBrk, PageUp(newBrk)))
    case CallMmap(pid, addr, len, _, _, mmapBase, maxBrk) =>
      && InSpace(s, pid) && addr < WORD_END
      && var base := MmapBase(addr, PageUp(len), mmapBase, maxBrk).0;
         base >= 0 && MappedIn(s.ram, s.roots[pid], base, base + PageUp(len))
    case CallMunmap(_, _, _) => false
    case CallFork(_, _) => false
    case CallExit(_) => false
    case CallExec(_, segments) => Overlap([STACK] + segments)
  }

  predicate Strays(c: Call) {
    match c
    case CallBrk(_, maxBrk, newBrk) => HeapOutside(maxBrk, newBrk)
    case CallMmap(_, addr, len, _, _, mmapBase, maxBrk) =>
      && addr < WORD_END && !Unmappable(addr, PageUp(len), mmapBase, maxBrk)
      && MmapBase(addr, PageUp(len), mmapBase, maxBrk).0 < USER_START
    case _ => false
  }

  // No page is left, and at most one, `lost`, has been lost on the way.
  ghost predicate Drained(s: Moment, t: Moment, kroot: nat, lost: nat) {
    Partition(t.ram, t.roots, kroot, t.role, []) && LostOnly(s.role, t.role, lost)
  }

  // A page for a table was missing at the moment `full`, when every page free
  // before was the process's or lost; fork then gives the child's pages back.
  ghost predicate RanOut(c: Call, s: Moment, full: Moment, t: Moment, kroot: nat, lost: nat) {
    && (c.CallMmap? || c.CallFork?)
    && Partition(full.ram, full.roots, kroot, full.role, [])
    && SpawnedOrLost(s.ram, s.role, full.ram, full.role, full.roots, if c.CallMmap? then c.pid else c.child, lost)
    && LostOnly(s.role, t.role, lost)
    && if c.CallMmap? then t == full else t.roots == s.roots && t.role == Cleared(full.role, c.child)
  }

  // One step of a run; `full` is the moment when pages ran out.
  datatype Step = Step(before: Moment, outcome: Outcome, after: Moment, lost: nat, full: Moment)

  ghost predicate StepOk(c: Call, x: Step, kroot: nat) {
    && |x.before.roots| == MAX_PROCS
    && if !Ready(c, x.before.roots) then
         && x.outcome == Finished && x.after == x.before && !c.CallExec?
         && (!InSpace(x.before, Caller(c)) || (c.CallFork? && InSpace(x.before, c.child)))
       else match x.outcome
         case Finished => Did(c, x.before, x.after) && NoneLost(x.before.role, x.after.role)
         case NoTables => RanOut(c, x.before, x.full, x.after, kroot, x.lost)
         case Stopped => StopCause(c, x.before) || Drained(x.before, x.after, kroot, x.lost)
         case Outside => Strays(c)
  }

  predicate InSpace(s: Moment, pid: nat) {
    pid < |s.roots| && s.roots[pid] != 0
  }

  function Caller(c: Call): nat {
    match c
    case CallBrk(pid, _, _) => pid
    case CallMmap(pid, _, _, _, _, _, _) => pid
    case CallMunmap(pid, _, _) => pid
    case CallFork(parent, _) => parent
    case CallExit(pid) => pid
    case CallExec(pid, _) => pid
  }

  // The call's process has an address space, and a fork's child has none.
  predicate Ready(c: Call, roots: seq<nat>)
    requires |roots| == MAX_PROCS
  {
    match c
    case CallBrk(pid, _, _) => pid < MAX_PROCS && roots[pid] != 0
    case CallMmap(pid, _, _, _, _, _, _) => pid < MAX_PROCS && roots[pid] != 0
    case CallMunmap(pid, _, _) => pid < MAX_PROCS && roots[pid] != 0
    case CallFork(parent, child) => parent < MAX_PROCS && child < MAX_PROCS && roots[parent] != 0 && roots[child] == 0
    case CallExit(pid) => pid < MAX_PROCS && roots[pid] != 0
    case CallExec(pid, _) => pid < MAX_PROCS
  }

  ghost function Snap(m: Machine): Moment
    reads m, m.mem
  {
    Moment(m.mem.ram, m.roots, m.role)
  }

  // One call that is ready: what it has done, or why it could not.
  method Perform(m: Machine, c: Call) returns (o: Outcome, ghost lost: nat, ghost full: Moment)
    requires m.Valid() && CallOk(c, m.role) && Ready(c, m.roots)
    modifies m`role, m`roots, m.mem
    ensures o.Finished? || o.NoTables? ==> m.Valid()
    ensures StepOk(c, Step(old(Snap(m)), o, Snap(m), lost, full), m.kroot)
  {
    hide Owned, Chain, Partition, Spawned, SpawnedOrLost, Grown, Unmapped, Cloned, LostOnly, NoneLost, OthersKept,
        MapsExactly, Leaf, Overlap, MappedIn, Accessible, Faults, SameView, PageUp, Reaches;
    ghost var ram0, role0 := m.mem.ram, m.role;
    lost, full := 0, Snap(m);
    match c {
      case CallBrk(pid, maxBrk, newBrk) =>
        var res, max;
        res, max, lost := Brk(m, pid, maxBrk, newBrk);
        match res {
          case Grew =>
            GrownLosesNone(ram0, role0, m.mem.ram, m.role, m.roots, pid, maxBrk, max, HEAP, Anonymous);
            return Finished, lost, full;
          case Stops => return Stopped, lost, full;
          case Strayed => return Outside, lost, full;
        }
      case CallMmap(pid, addr, len, perm, src, mmapBase, maxBrk) =>
        o, lost, full := PerformMmap(m, c);
      case CallMunmap(pid, addr, len) =>
        var r;
        ghost var done;
        r, done := Munmap(m, pid, addr, len);
        if BadRange(addr, len) {
          SameOthers(ram0, role0, pid);
        } else {
          UnmappedLosesNone(ram0, role0, m.mem.ram, m.role, m.roots, pid, addr / PAGE_SIZE, done);
        }
        return Finished, 0, full;
      case CallFork(parent, child) =>
        o, lost, full := PerformFork(m, parent, child);
      case CallExit(pid) =>
        Reclaim(m, pid);
        return Finished, 0, full;
      case CallExec(pid, segments) =>
        var ok;
        ok, lost := ExecSpace(m, pid, segments);
        return if ok then Finished else Stopped, lost, full;
    }
  }

  lemma GrownLosesNone(ram: seq<Page>, role: map<nat, Role>, ram': seq<Page>, role': map<nat, Role>, roots: seq<nat>,
      pid: nat, from: nat, to: nat, perm: Perm, src: Source)
    requires Grown(ram, role, ram', role', roots, pid, from, to, perm, src)
    ensures NoneLost(role, role')
  {
    hide Leaf, Supplied;
    SpawnedLosesNone(ram, role, ram', role', roots, pid);
  }

  method PerformMmap(m: Machine, c: Call) returns (o: Outcome, ghost lost: nat, ghost full: Moment)
    requires c.CallMmap? && m.Valid() && CallOk(c, m.role) && Ready(c, m.roots)
    modifies m`role, m.mem
    ensures o.Finished? || o.NoTables? ==> m.Valid()
    ensures StepOk(c, Step(old(Snap(m)), o, Snap(m), lost, full), m.kroot)
  {
    hide Owned, Chain, Partition, Spawned, SpawnedOrLost, Grown, LostOnly, NoneLost, OthersKept, Leaf, MappedIn,
        Accessible, PageUp;
    ghost var ram0, role0 := m.mem.ram, m.role;
    SameOthers(ram0, role0, 0);
    NoPageZero(ram0, m.roots, m.kroot, role0, m.mem.free);
    var res, next;
    res, next, lost := Mmap(m, c.pid, c.addr, c.len, c.perm, c.src, c.mmapBase, c.maxBrk);
    full := Snap(m);
    match res {
      case Mapping(base) =>
        GrownLosesNone(ram0, role0, m.mem.ram, m.role, m.roots, c.pid, base, base + PageUp(c.len), c.perm, c.src);
        return Finished, lost, full;
      case Refused => return Finished, lost, full;
      case NoTable =>
        SpawnedOrLostLoses(ram0, role0, m.mem.ram, m.role, m.roots, c.pid, lost);
        return NoTables, lost, full;
      case Stop =>
        NoneIsZero(role0, m.role);
        return Stopped, 0, full;
      case Elsewhere => return Outside, lost, full;
    }
  }

  lemma NoneIsZero(role: map<nat, Role>, role': map<nat, Role>)
    ensures NoneLost(role, role') && 0 !in role ==> LostOnly(role, role', 0)
  {
  }

  method PerformFork(m: Machine, parent: nat, child: nat) returns (o: Outcome, ghost lost: nat, ghost full: Moment)
    requires m.Valid() && Ready(CallFork(parent, child), m.roots)
    modifies m`role, m`roots, m.mem
    ensures o.Finished? || o.NoTables? ==> m.Valid()
    ensures StepOk(CallFork(parent, child), Step(old(Snap(m)), o, Snap(m), lost, full), m.kroot)
  {
    hide Owned, Chain, Partition, Spawned, SpawnedOrLost, Cloned, NoneLost, Leaf, SameView;
    ghost var ram0, role0 := m.mem.ram, m.role;
    NoPageZero(ram0, m.roots, m.kroot, role0, m.mem.free);
    var res;
    res, lost, full := ForkSpace(m, parent, child);
    match res {
      case Done =>
        SpawnedLosesNone(ram0, role0, m.mem.ram, m.role, m.roots, child);
        return Finished, lost, full;
      case OutOfTables =>
        return NoTables, lost, full;
      case Panic =>
        SpawnedLosesNone(ram0, role0, m.mem.ram, m.role, m.roots, child);
        NoneIsZero(role0, m.role);
        return Stopped, 0, full;
    }
  }

  function Count(results: seq<Outcome>, o: Outcome): nat {
    if results == [] then 0
    else Count(results[..|results| - 1], o) + if results[|results| - 1] == o then 1 else 0
  }

  // The steps follow one another from s to t.
  ghost predicate Chained(steps: seq<Step>, s: Moment, t: Moment) {
    if steps == [] then s == t
    else
      var last := steps[|steps| - 1];
      Chained(steps[..|steps| - 1], s, last.before) && last.after == t
  }

  predicate Goes(o: Outcome) {
    o.Finished? || o.NoTables?
  }

  // Any run of calls, those that are not ready being passed over, until one of
  // them stops the kernel or strays. Every step says what it did or why it could
  // not; the pages lost are at most one for each call that found no page table,
  // and while there is no such call every page of the pool has exactly one role.
  method RunCalls(m: Machine, calls: seq<Call>)
      returns (results: seq<Outcome>, ghost lost: set<nat>, ghost steps: seq<Step>)
    requires m.Valid() && CallsOk(calls, m.role)
    modifies m`role, m`roots, m.mem
    ensures |results| == |steps| <= |calls| && Chained(steps, old(Snap(m)), Snap(m))
    ensures forall i :: 0 <= i < |steps| ==> steps[i].outcome == results[i] && StepOk(calls[i], steps[i], m.kroot)
    ensures forall i :: 0 <= i < |results| - 1 ==> Goes(results[i])
    ensures |results| < |calls| ==> results != [] && !Goes(results[|results| - 1])
    ensures (forall o :: o in results ==> Goes(o)) ==>
              && m.Valid() && m.role.Keys == old(m.role).Keys
              && LostPages(m.role) == LostPages(old(m.role)) + lost
              && |lost| <= Count(results, NoTables)
    ensures (forall o :: o in results ==> o.Finished?) && LostPages(old(m.role)) == {} ==>
              AllHaveOneRole(m.mem.ram, m.roots, m.role, m.mem.free)
  {
    hide Owned, Chain, Partition, NoneLost, LostOnly, AllHaveOneRole, CallOk, RunOk, Did, StopCause, Drained, RanOut,
        Strays, Ready, Chained, StepOk;
    results, lost, steps := [], {}, [];
    NothingRun(m.role, Snap(m));
    for i := 0 to |calls|
      invariant m.Valid() && |results| == |steps| == i && Chained(steps, old(Snap(m)), Snap(m))
      invariant forall j :: 0 <= j < i ==> steps[j].outcome == results[j] && StepOk(calls[j], steps[j], m.kroot)
      invariant forall j :: 0 <= j < i ==> Goes(results[j])
      invariant CallsOk(calls, m.role) && RunOk(old(m.role), m.role, results, lost)
    {
      ghost var s, results1, steps1 := Snap(m), results, steps;
      var o := Finished;
      ghost var q, full := 0, s;
      if Ready(calls[i], m.roots) {
        o, q, full := Perform(m, calls[i]);
      } else {
        PassedOver(calls[i], s, m.kroot);
      }
      ghost var x := Step(s, o, Snap(m), q, full);
      results, steps := results + [o], steps + [x];
      ChainOneMore(steps1, x, old(Snap(m)));
      if !Goes(o) {
        return;
      }
      StepLoses(calls[i], x, m.kroot);
      StaysOk(calls, s.role, m.role, q);
      RunStep(old(m.role), s.role, m.role, results1, o, q, lost);
      lost := lost + LostNow(s.role, o, q);
    }
    RunEnds(old(m.role), m.mem.ram, m.roots, m.kroot, m.role, m.mem.free, results, lost);
  }

  lemma PassedOver(c: Call, s: Moment, kroot: nat)
    requires |s.roots| == MAX_PROCS && !Ready(c, s.roots) && CallOk(c, s.role)
    ensures StepOk(c, Step(s, Finished, s, 0, s), kroot)
  {
  }

  lemma ChainOneMore(steps: seq<Step>, x: Step, s: Moment)
    requires Chained(steps, s, x.before)
    ensures Chained(steps + [x], s, x.after)
  {
    assert (steps + [x])[..|steps|] == steps;
  }

  // What a step that goes on has lost.
  lemma StepLoses(c: Call, x: Step, kroot: nat)
    requires StepOk(c, x, kroot) && Goes(x.outcome)
    ensures if x.outcome.NoTables? then LostOnly(x.before.role, x.after.role, x.lost)
            else NoneLost(x.before.role, x.after.role)
  {
    hide Did, LostOnly;
    SameOthers(x.before.ram, x.before.role, 0);
  }

  lemma StaysOk(calls: seq<Call>, role: map<nat, Role>, role': map<nat, Role>, lost: nat)
    requires CallsOk(calls, role) && (NoneLost(role, role') || LostOnly(role, role', lost))
    ensures CallsOk(calls, role')
  {
    hide CallOk;
    forall c | c in calls
      ensures CallOk(c, role')
    {
      CallStaysOk(c, role, role');
    }
  }

  // The page the last call lost.
  ghost function LostNow(role: map<nat, Role>, o: Outcome, lost: nat): set<nat> {
    if o.NoTables? && lost in role then {lost} else {}
  }

  ghost predicate RunOk(role: map<nat, Role>, role': map<nat, Role>, results: seq<Outcome>, lost: set<nat>) {
    && role'.Keys == role.Keys && LostPages(role') == LostPages(role) + lost
    && |lost| <= Count(results, NoTables) && (NoTables !in results ==> lost == {})
  }

  lemma NothingRun(role: map<nat, Role>, s: Moment)
    ensures RunOk(role, role, [], {}) && Chained([], s, s)
  {
  }

  lemma RunStep(role: map<nat, Role>, role1: map<nat, Role>, role2: map<nat, Role>, results: seq<Outcome>, o: Outcome,
      q: nat, lost: set<nat>)
    requires RunOk(role, role1, results, lost)
    requires if o.NoTables? then LostOnly(role1, role2, q) else NoneLost(role1, role2)
    ensures RunOk(role, role2, results + [o], lost + LostNow(role1, o, q))
  {
    LostAfter(role1, role2, o, q);
    CountOneMore(results, o);
    hide LostPages, NoneLost, LostOnly, Count;
  }

  lemma LostAfter(role: map<nat, Role>, role': map<nat, Role>, o: Outcome, lost: nat)
    requires if o.NoTables? then LostOnly(role, role', lost) else NoneLost(role, role')
    ensures role'.Keys == role.Keys && LostPages(role') == LostPages(role) + LostNow(role, o, lost)
  {
  }

  lemma CountOneMore(results: seq<Outcome>, o: Outcome)
    ensures Count(results + [o], NoTables) == Count(results, NoTables) + if o.NoTables? then 1 else 0
    ensures NoTables !in results + [o] ==> NoTables !in results && !o.NoTables?
  {
    var all := results + [o];
    assert all[..|all| - 1] == results && all[|all| - 1] == o;
    forall r | r in results
      ensures r in all
    {
    }
  }

  lemma RunEnds(role: map<nat, Role>, ram: seq<Page>, roots: seq<nat>, kroot: nat, role': map<nat, Role>,
      free: seq<nat>, results: seq<Outcome>, lost: set<nat>)
    requires RunOk(role, role', results, lost) && Partition(ram, roots, kroot, role', free)
    ensures role'.Keys == role.Keys && LostPages(role') == LostPages(role) + lost
    ensures |lost| <= Count(results, NoTables)
    ensures NoTables !in results && LostPages(role) == {} ==> AllHaveOneRole(ram, roots, role', free)
  {
    hide Owned, Partition, AllHaveOneRole;
    if NoTables !in results && LostPages(role) == {} {
      ExactlyOneRole(ram, roots, kroot, role', free);
    }
  }
}
