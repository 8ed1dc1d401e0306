// Address-space creation and the copy fork makes.
module Fork {
  import opened BitStrings
  import opened Sv39
  import opened Ownership
  import opened PageTables
  import opened Memory
  import opened FreeSpace
  import opened AddressSpace
  import opened Mmu

  // A user page that translates (section 4.3.2 of the RISC-V privileged
  // architecture): a valid leaf.
  predicate Translates(e: u64) {
    V(e) && IsLeaf(e)
  }

  // The child's entry for a page is a faithful copy of the parent's.
  ghost predicate CopyOf(ram: seq<Page>, ep: u64, ec: u64) {
    if Translates(ep) then
      && Translates(ec) && PermOf(ec) == PermOf(ep)
      && Ppn(ep) < |ram| && Ppn(ec) < |ram|
      && ram[Ppn(ec)] == ram[Ppn(ep)]
      && (Ppn(ec) == Ppn(ep) <==> Shared(ep))
    else ec == 0
  }

  ghost predicate Cloned(ram: seq<Page>, parent: nat, child: nat, upto: nat) {
    forall i1, i0 {:trigger Leaf(ram, child, i1, i0)} :: 0 <= i1 < PTES && 0 <= i0 < PTES ==>
      if Vpn(i1, i0) < upto then CopyOf(ram, Leaf(ram, parent, i1, i0), Leaf(ram, child, i1, i0))
      else Leaf(ram, child, i1, i0) == 0
  }

  // What building the child may do: take free pages for it, write its tables.
  ghost predicate Spawned(ram: seq<Page>, role: map<nat, Role>, ram': seq<Page>, role': map<nat, Role>, roots: seq<nat>,
      child: nat) {
    && |ram'| == |ram| && role'.Keys == role.Keys && |roots| == MAX_PROCS
    && (forall p: nat :: p < |ram| && !(p in role && Changeable(role[p], child)) ==> ram'[p] == ram[p])
    && (forall p :: p in role && role[p] != Free ==> role'[p] == role[p])
    && (forall p :: p in role && role[p] == Free ==> role'[p] == Free || (role'[p].Own? && role'[p].pid == child))
    && (forall q, i1, i0 {:trigger Leaf(ram', roots[q], i1, i0)} ::
        0 <= q < MAX_PROCS && q != child && 0 <= i1 < PTES && 0 <= i0 < PTES && roots[q] != 0 ==>
          Leaf(ram', roots[q], i1, i0) == Leaf(ram, roots[q], i1, i0))
  }

  datatype CloneResult = Done | OutOfTables | Panic

  // new_page(1): one zeroed page; the kernel stops when none is left.
  method NewPage(m: Machine) returns (ok: bool, p: nat)
    requires m.Valid()
    modifies m`role, m.mem
    ensures m.Valid()
    ensures ok ==> p in old(m.role) && old(m.role)[p] == Free && m.role == old(m.role)[p := Lost] && 0 < p < RAM_PAGES
    ensures ok ==> m.mem.ram[p] == Filled(0)
    ensures !ok ==> m.mem.free == [] && m.role == old(m.role) && m.mem.ram == old(m.mem.ram)
    ensures |m.mem.ram| == |old(m.mem.ram)| && forall q :: 0 <= q < |m.mem.ram| && q != p ==>
            m.mem.ram[q] == old(m.mem.ram)[q]
  {
    hide Owned, Chain;
    p := m.Take();
    if p == 0 {
      return false, 0;
    }
    m.Write(p, Filled(0));
    return true, p;
  }

  // protect: a root page holding the kernel's mappings and nothing else.
  method Protect(m: Machine, pid: nat) returns (ok: bool)
    requires m.Valid() && pid < MAX_PROCS && m.roots[pid] == 0
    modifies m`role, m`roots, m.mem
    ensures m.Valid()
    ensures ok ==>
              && m.roots == old(m.roots)[pid := m.roots[pid]] && m.roots[pid] != 0
              && m.roots[pid] in old(m.role) && old(m.role)[m.roots[pid]] == Free
              && m.role == old(m.role)[m.roots[pid] := Own(pid, Root)]
              && (forall q :: 0 <= q < RAM_PAGES && q != m.roots[pid] ==> m.mem.ram[q] == old(m.mem.ram)[q])
              && Cloned(m.mem.ram, 0, m.roots[pid], 0)
              && (forall q, i1, i0 {:trigger Leaf(m.mem.ram, m.roots[q], i1, i0)} ::
                    0 <= q < MAX_PROCS && q != pid && 0 <= i1 < PTES && 0 <= i0 < PTES && m.roots[q] != 0 ==>
                    Leaf(m.mem.ram, m.roots[q], i1, i0) == Leaf(old(m.mem.ram), m.roots[q], i1, i0))
    ensures !ok ==>
              m.mem.free == [] && m.mem.ram == old(m.mem.ram) && m.role == old(m.role) && m.roots == old(m.roots)
  {
    hide Owned, Chain, Shr, V, Leaf;
    ghost var ram0, role0 := m.mem.ram, m.role;
    var p := m.Take();
    if p == 0 {
      return false;
    }
    var pgtable := Filled(0);
    RangeOfRoles(m.mem.ram, m.roots, m.kroot, m.role);
    for i := 0 to PTES
      invariant |pgtable| == PTES && forall j :: 0 <= j < i ==> pgtable[j] == m.mem.ram[m.kroot][j]
    {
      pgtable := pgtable[i := m.mem.ram[m.kroot][i]];
    }
    assert pgtable == m.mem.ram[m.kroot];
    ghost var ram1 := m.mem.ram;
    m.Write(p, pgtable);
    RootKeepsOwned(m.mem.ram, m.roots, m.kroot, m.role, pid, p);
    forall q, i1, i0 {:trigger Leaf(m.mem.ram, m.roots[q], i1, i0)} | 0 <= q < MAX_PROCS && q != pid && 0 <= i1 < PTES
        && 0 <= i0 < PTES && m.roots[q] != 0
      ensures Leaf(m.mem.ram, m.roots[q], i1, i0) == Leaf(ram0, m.roots[q], i1, i0)
    {
      FreePageIsNoTable(ram0, m.mem.ram, m.roots, m.kroot, role0, p);
      LeafUntouched(ram0, m.mem.ram, m.roots, m.kroot, role0, q, i1, i0);
    }
    m.roots := m.roots[pid := p];
    m.role := m.role[p := Own(pid, Root)];
    assert m.role == role0[p := Own(pid, Root)];
    return true;
  }

  lemma FreePageIsNoTable(ram: seq<Page>, ram': seq<Page>, roots: seq<nat>, kroot: nat, role: map<nat, Role>, p: nat)
    requires Owned(ram, roots, kroot, role) && p in role && role[p] == Free && |ram'| == |ram|
    requires forall q :: 0 <= q < |ram| && q != p ==> ram'[q] == ram[q]
    ensures forall q :: q in role && IsTable(role[q]) ==> q < |ram| && ram'[q] == ram[q]
  {
  }

  lemma RangeOfRoles(ram: seq<Page>, roots: seq<nat>, kroot: nat, role: map<nat, Role>)
    requires Owned(ram, roots, kroot, role)
    ensures kroot < |ram| == RAM_PAGES && |roots| == MAX_PROCS && kroot in role && role[kroot] == Kernel
    ensures 0 !in role && forall p :: p in role ==> p < RAM_PAGES
  {
  }

  // A copy of the kernel's root page makes an empty user address space.
  lemma RootKeepsOwned(ram: seq<Page>, roots: seq<nat>, kroot: nat, role: map<nat, Role>, pid: nat, p: nat)
    requires Owned(ram, roots, kroot, role) && pid < MAX_PROCS && roots[pid] == 0
    requires p in role && role[p] == Lost && p < |ram| && ram[p] == ram[kroot]
    ensures Owned(ram, roots[pid := p], kroot, role[p := Own(pid, Root)])
    ensures Cloned(ram, 0, p, 0)
  {
    hide Shr;
    var roots', role' := roots[pid := p], role[p := Own(pid, Root)];
    assert !V(0);
    assert At(ram, p, Mid) == 0;
    forall q, pos {:trigger At(ram, roots'[q], pos)} | 0 <= q < MAX_PROCS && ValidPos(pos) && roots'[q] != 0
      ensures var t := At(ram, roots'[q], pos);
              && (t != 0 ==> t in role' && role'[t] == Own(q, pos))
    {
      if q != pid {
        var t := At(ram, roots[q], pos);
      }
    }
    forall q, pos | 0 <= q < MAX_PROCS && ValidPos(pos) && roots'[q] != 0
      ensures ShapeAt(ram, roots'[q], kroot, role', pos)
    {
      if q != pid {
        assert ShapeAt(ram, roots[q], kroot, role, pos);
      }
    }
    forall t | t in role' && role'[t].Own?
      ensures role'[t].pid < MAX_PROCS && ValidPos(role'[t].pos) && roots'[role'[t].pid] != 0
      ensures At(ram, roots'[role'[t].pid], role'[t].pos) == t
    {
    }
  }

  // ---- Cloning ----

  // As Spawned, but one page taken for the child may be in no table.
  ghost predicate SpawnedOrLost(ram: seq<Page>, role: map<nat, Role>, ram': seq<Page>, role': map<nat, Role>,
      roots: seq<nat>, child: nat, lost: nat) {
    && |ram'| == |ram| && role'.Keys == role.Keys && |roots| == MAX_PROCS
    && (forall p: nat :: p < |ram| && !(p in role && Changeable(role[p], child)) ==> ram'[p] == ram[p])
    && (forall p :: p in role && role[p] != Free ==> role'[p] == role[p])
    && (forall p :: p in role && role[p] == Free ==>
          role'[p] == Free || (role'[p].Own? && role'[p].pid == child) || (p == lost && role'[p] == Lost))
    && (lost in role ==> role[lost] == Free && role'[lost] == Lost)
    && (forall q, i1, i0 {:trigger Leaf(ram', roots[q], i1, i0)} ::
        0 <= q < MAX_PROCS && q != child && 0 <= i1 < PTES && 0 <= i0 < PTES && roots[q] != 0 ==>
          Leaf(ram', roots[q], i1, i0) == Leaf(ram, roots[q], i1, i0))
  }

  lemma SpawnedReflexive(ram: seq<Page>, role: map<nat, Role>, roots: seq<nat>, child: nat)
    requires |roots| == MAX_PROCS
    ensures Spawned(ram, role, ram, role, roots, child)
  {
  }

  lemma SpawnedTransitive(a: seq<Page>, ra: map<nat, Role>, b: seq<Page>, rb: map<nat, Role>, c: seq<Page>,
      rc: map<nat, Role>, roots: seq<nat>, child: nat)
    requires Spawned(a, ra, b, rb, roots, child) && Spawned(b, rb, c, rc, roots, child)
    ensures Spawned(a, ra, c, rc, roots, child)
  {
    hide Leaf;
    forall q, i1, i0 {:trigger Leaf(c, roots[q], i1, i0)} | 0 <= q < MAX_PROCS && q != child && 0 <= i1 < PTES
        && 0 <= i0 < PTES && roots[q] != 0
      ensures Leaf(c, roots[q], i1, i0) == Leaf(a, roots[q], i1, i0)
    {
      assert Leaf(b, roots[q], i1, i0) == Leaf(a, roots[q], i1, i0);
    }
  }

  lemma SpawnedThenLost(a: seq<Page>, ra: map<nat, Role>, b: seq<Page>, rb: map<nat, Role>, c: seq<Page>,
      rc: map<nat, Role>, roots: seq<nat>, child: nat, lost: nat)
    requires Spawned(a, ra, b, rb, roots, child) && SpawnedOrLost(b, rb, c, rc, roots, child, lost)
    ensures SpawnedOrLost(a, ra, c, rc, roots, child, lost)
  {
    hide Leaf;
    forall q, i1, i0 {:trigger Leaf(c, roots[q], i1, i0)} | 0 <= q < MAX_PROCS && q != child && 0 <= i1 < PTES
        && 0 <= i0 < PTES && roots[q] != 0
      ensures Leaf(c, roots[q], i1, i0) == Leaf(a, roots[q], i1, i0)
    {
      assert Leaf(b, roots[q], i1, i0) == Leaf(a, roots[q], i1, i0);
    }
  }

  // Page p was free and is now held, with new contents; nothing else changed.
  ghost predicate Held(ram: seq<Page>, role: map<nat, Role>, ram': seq<Page>, role': map<nat, Role>, p: nat) {
    && |ram'| == |ram| && p in role && role[p] == Free && role' == role[p := Lost]
    && forall q :: 0 <= q < |ram| && q != p ==> ram'[q] == ram[q]
  }

  lemma HeldKeepsLeaves(ram: seq<Page>, role: map<nat, Role>, ram': seq<Page>, role': map<nat, Role>, p: nat,
      roots: seq<nat>, kroot: nat)
    requires Owned(ram, roots, kroot, role) && Held(ram, role, ram', role', p)
    ensures |roots| == MAX_PROCS
    ensures forall q, i1, i0 {:trigger Leaf(ram', roots[q], i1, i0)} ::
            0 <= q < MAX_PROCS && 0 <= i1 < PTES && 0 <= i0 < PTES && roots[q] != 0 ==>
              Leaf(ram', roots[q], i1, i0) == Leaf(ram, roots[q], i1, i0)
  {
    RangeOfRoles(ram, roots, kroot, role);
    FreePageIsNoTable(ram, ram', roots, kroot, role, p);
    hide Owned, Leaf;
    forall q, i1, i0 {:trigger Leaf(ram', roots[q], i1, i0)} | 0 <= q < MAX_PROCS && 0 <= i1 < PTES && 0 <= i0 < PTES
        && roots[q] != 0
      ensures Leaf(ram', roots[q], i1, i0) == Leaf(ram, roots[q], i1, i0)
    {
      LeafUntouched(ram, ram', roots, kroot, role, q, i1, i0);
    }
  }

  lemma SharedSpawned(ram: seq<Page>, role: map<nat, Role>, ram2: seq<Page>, role2: map<nat, Role>, roots: seq<nat>,
      child: nat, i1: nat, i0: nat, e: u64)
    requires MapStep(ram, role, ram2, role2, roots, child, i1, i0, e) && Shared(e)
    ensures Spawned(ram, role, ram2, role2, roots, child)
  {
    hide Shr, Leaf;
  }

  lemma PrivateSpawned(ram: seq<Page>, role: map<nat, Role>, ram1: seq<Page>, role1: map<nat, Role>, ram2: seq<Page>,
      role2: map<nat, Role>, roots: seq<nat>, kroot: nat, child: nat, i1: nat, i0: nat, e: u64, p: nat)
    requires Owned(ram, roots, kroot, role) && Held(ram, role, ram1, role1, p)
    requires MapStep(ram1, role1, ram2, role2, roots, child, i1, i0, e) && !Shared(e) && Ppn(e) == p
    ensures Spawned(ram, role, ram2, role2, roots, child)
    ensures ram2[p] == ram1[p]
    ensures forall j1, j0 {:trigger Leaf(ram2, roots[child], j1, j0)} ::
            child < MAX_PROCS && roots[child] != 0 && 0 <= j1 < PTES && 0 <= j0 < PTES ==>
              Leaf(ram2, roots[child], j1, j0) == if (j1, j0) == (i1, i0) then e else Leaf(ram, roots[child], j1, j0)
  {
    HeldKeepsLeaves(ram, role, ram1, role1, p, roots, kroot);
    RangeOfRoles(ram, roots, kroot, role);
    HeldThenMapped(ram, role, ram1, role1, ram2, role2, roots, child, i1, i0, e, p);
    hide Owned, Shr, Leaf, Held, MapStep;
    forall q, j1, j0 {:trigger Leaf(ram2, roots[q], j1, j0)} | 0 <= q < MAX_PROCS && 0 <= j1 < PTES && 0 <= j0 < PTES
        && roots[q] != 0
      ensures Leaf(ram2, roots[q], j1, j0) == if (q, j1, j0) == (child, i1, i0) then e else Leaf(ram, roots[q], j1, j0)
    {
      assert Leaf(ram1, roots[q], j1, j0) == Leaf(ram, roots[q], j1, j0);
      MappedLeaf(ram1, role1, ram2, role2, roots, child, i1, i0, e, q, j1, j0);
    }
  }

  lemma MappedLeaf(ram: seq<Page>, role: map<nat, Role>, ram': seq<Page>, role': map<nat, Role>, roots: seq<nat>,
      pid: nat, i1: nat, i0: nat, e: u64, q: nat, j1: nat, j0: nat)
    requires MapStep(ram, role, ram', role', roots, pid, i1, i0, e)
    requires q < MAX_PROCS && j1 < PTES && j0 < PTES && roots[q] != 0
    ensures Leaf(ram', roots[q], j1, j0) == if (q, j1, j0) == (pid, i1, i0) then e else Leaf(ram, roots[q], j1, j0)
  {
  }

  // The roles and bytes after a page is taken and mapped.
  lemma HeldThenMapped(ram: seq<Page>, role: map<nat, Role>, ram1: seq<Page>, role1: map<nat, Role>, ram2: seq<Page>,
      role2: map<nat, Role>, roots: seq<nat>, child: nat, i1: nat, i0: nat, e: u64, p: nat)
    requires Held(ram, role, ram1, role1, p) && p < |ram|
    requires MapStep(ram1, role1, ram2, role2, roots, child, i1, i0, e) && !Shared(e) && Ppn(e) == p
    ensures |ram2| == |ram| && role2.Keys == role.Keys && |roots| == MAX_PROCS && ram2[p] == ram1[p]
    ensures forall q: nat :: q < |ram| && !(q in role && Changeable(role[q], child)) ==> ram2[q] == ram[q]
    ensures forall q :: q in role && role[q] != Free ==> role2[q] == role[q]
    ensures forall q :: q in role && role[q] == Free ==> role2[q] == Free || (role2[q].Own? && role2[q].pid == child)
  {
    hide Leaf, Shr;
  }

  // map_pages failed after new_page: that page is in no table.
  lemma FailedSpawned(ram: seq<Page>, role: map<nat, Role>, ram1: seq<Page>, role1: map<nat, Role>, ram2: seq<Page>,
      role2: map<nat, Role>, roots: seq<nat>, kroot: nat, child: nat, p: nat)
    requires Owned(ram, roots, kroot, role) && Held(ram, role, ram1, role1, p)
    requires Walked(ram1, role1, ram2, role2, roots, child)
    ensures SpawnedOrLost(ram, role, ram2, role2, roots, child, p)
  {
    HeldKeepsLeaves(ram, role, ram1, role1, p, roots, kroot);
    RangeOfRoles(ram, roots, kroot, role);
    HeldThenWalked(ram, role, ram1, role1, ram2, role2, roots, child, p);
    hide Owned, Leaf, Held;
    forall q, j1, j0 {:trigger Leaf(ram2, roots[q], j1, j0)} | 0 <= q < MAX_PROCS && q != child && 0 <= j1 < PTES
        && 0 <= j0 < PTES && roots[q] != 0
      ensures Leaf(ram2, roots[q], j1, j0) == Leaf(ram, roots[q], j1, j0)
    {
      assert Leaf(ram1, roots[q], j1, j0) == Leaf(ram, roots[q], j1, j0);
    }
  }

  lemma HeldThenWalked(ram: seq<Page>, role: map<nat, Role>, ram1: seq<Page>, role1: map<nat, Role>, ram2: seq<Page>,
      role2: map<nat, Role>, roots: seq<nat>, child: nat, p: nat)
    requires Held(ram, role, ram1, role1, p) && Walked(ram1, role1, ram2, role2, roots, child)
    ensures |ram2| == |ram| && role2.Keys == role.Keys && |roots| == MAX_PROCS && role[p] == Free && role2[p] == Lost
    ensures forall q: nat :: q < |ram| && !(q in role && Changeable(role[q], child)) ==> ram2[q] == ram[q]
    ensures forall q :: q in role && role[q] != Free ==> role2[q] == role[q]
    ensures forall q :: q in role && role[q] == Free && q != p ==>
            role2[q] == Free || (role2[q].Own? && role2[q].pid == child)
  {
    hide Leaf;
  }

  // The pages already copied stay copied when one more is.
  lemma ClonedStep(ram: seq<Page>, role: map<nat, Role>, ram': seq<Page>, role': map<nat, Role>, roots: seq<nat>,
      kroot: nat, parent: nat, child: nat, vpn: nat, e: u64)
    requires Owned(ram, roots, kroot, role) && Spawned(ram, role, ram', role', roots, child)
    requires parent < MAX_PROCS && child < MAX_PROCS && parent != child && roots[parent] != 0 && roots[child] != 0
    requires InUser(vpn)
    requires Cloned(ram, roots[parent], roots[child], vpn)
    requires forall j1, j0 {:trigger Leaf(ram', roots[child], j1, j0)} :: 0 <= j1 < PTES && 0 <= j0 < PTES ==>
               Leaf(ram', roots[child], j1, j0) == if (j1, j0) == (Px(1, vpn), Px(0, vpn)) then e
                   else Leaf(ram, roots[child], j1, j0)
    requires CopyOf(ram', Leaf(ram', roots[parent], Px(1, vpn), Px(0, vpn)), e)
    ensures Cloned(ram', roots[parent], roots[child], vpn + 1)
  {
    RangeOfRoles(ram, roots, kroot, role);
    hide Owned, Shr, Leaf, V, R, W, X, U, Shared, Ppn, CopyOf, Spawned;
    forall j1, j0 {:trigger Leaf(ram', roots[child], j1, j0)} | 0 <= j1 < PTES && 0 <= j0 < PTES
      ensures if Vpn(j1, j0) < vpn + 1
              then CopyOf(ram', Leaf(ram', roots[parent], j1, j0), Leaf(ram', roots[child], j1, j0))
              else Leaf(ram', roots[child], j1, j0) == 0
    {
      UserIndices(vpn);
      assert Leaf(ram, roots[child], j1, j0) == Leaf(ram, roots[child], j1, j0);
      if Vpn(j1, j0) < vpn {
        CopyKept(ram, role, ram', role', roots, kroot, parent, child, j1, j0);
      } else if Vpn(j1, j0) == vpn {
        VpnInjective(j1, j0, vpn);
      }
    }
  }

  lemma VpnInjective(j1: nat, j0: nat, vpn: nat)
    requires j1 < PTES && j0 < PTES && InUser(vpn) && Vpn(j1, j0) == vpn
    ensures j1 == Px(1, vpn) && j0 == Px(0, vpn)
  {
    assert vpn == 512 * (512 + j1) + j0;
    assert vpn / 512 == 512 + j1 && vpn % 512 == j0;
  }

  lemma CopyKept(ram: seq<Page>, role: map<nat, Role>, ram': seq<Page>, role': map<nat, Role>, roots: seq<nat>,
      kroot: nat, parent: nat, child: nat, j1: nat, j0: nat)
    requires Owned(ram, roots, kroot, role) && Spawned(ram, role, ram', role', roots, child)
    requires parent < MAX_PROCS && child < MAX_PROCS && parent != child && roots[parent] != 0 && roots[child] != 0
    requires j1 < PTES && j0 < PTES
    requires CopyOf(ram, Leaf(ram, roots[parent], j1, j0), Leaf(ram, roots[child], j1, j0))
    ensures Leaf(ram', roots[parent], j1, j0) == Leaf(ram, roots[parent], j1, j0)
    ensures CopyOf(ram', Leaf(ram', roots[parent], j1, j0), Leaf(ram, roots[child], j1, j0))
  {
    LeafIs(ram, roots, kroot, role, parent, j1, j0);
    LeafIs(ram, roots, kroot, role, child, j1, j0);
    hide Owned, Shr, R, W, X, U, V, Ppn, Shared, At, Leaf;
    assert Leaf(ram', roots[parent], j1, j0) == Leaf(ram, roots[parent], j1, j0);
    assert !V(0) by { ZeroEntry(); }
  }

  lemma ZeroEntry()
    ensures !V(0)
  {
  }

  lemma CloneSkip(ram: seq<Page>, parent: nat, child: nat, vpn: nat)
    requires InUser(vpn) && Cloned(ram, parent, child, vpn)
    requires !Translates(Leaf(ram, parent, Px(1, vpn), Px(0, vpn)))
    ensures Cloned(ram, parent, child, vpn + 1)
  {
    hide Leaf, V, R, W, X;
    forall j1, j0 {:trigger Leaf(ram, child, j1, j0)} | 0 <= j1 < PTES && 0 <= j0 < PTES
      ensures if Vpn(j1, j0) < vpn + 1 then CopyOf(ram, Leaf(ram, parent, j1, j0), Leaf(ram, child, j1, j0))
              else Leaf(ram, child, j1, j0) == 0
    {
      assert Leaf(ram, child, j1, j0) == Leaf(ram, child, j1, j0);
      if Vpn(j1, j0) == vpn {
        VpnInjective(j1, j0, vpn);
      }
    }
  }

  // What the parent's entry says about the page to copy.
  lemma CloneSource(ram: seq<Page>, roots: seq<nat>, kroot: nat, role: map<nat, Role>, parent: nat, child: nat,
      vpn: nat)
    requires Owned(ram, roots, kroot, role) && parent < MAX_PROCS && child < MAX_PROCS && roots[parent] != 0
    requires roots[child] != 0
    requires InUser(vpn) && Cloned(ram, roots[parent], roots[child], vpn)
    requires V(Leaf(ram, roots[parent], Px(1, vpn), Px(0, vpn)))
    ensures var e := Leaf(ram, roots[parent], Px(1, vpn), Px(0, vpn));
            && 0 < Ppn(e) < RAM_PAGES
            && (Shared(e) ==> Ppn(e) !in role || role[Ppn(e)] == Kernel)
            && (!Shared(e) ==> Ppn(e) in role && role[Ppn(e)] == Own(parent, Frame(Px(1, vpn), Px(0, vpn))))
    ensures Leaf(ram, roots[child], Px(1, vpn), Px(0, vpn)) == 0
  {
    hide Shr;
    var i1, i0 := Px(1, vpn), Px(0, vpn);
    UserIndices(vpn);
    LeafIs(ram, roots, kroot, role, parent, i1, i0);
    assert !V(0);
    MappedFrame(ram, roots, kroot, role, parent, i1, i0);
    assert Leaf(ram, roots[child], i1, i0) == Leaf(ram, roots[child], i1, i0);
  }

  method CloneSharedPage(m: Machine, parent: nat, child: nat, vpn: nat, pte: u64) returns (res: CloneResult)
    requires m.Valid() && parent < MAX_PROCS && child < MAX_PROCS && parent != child && InUser(vpn)
    requires m.roots[parent] != 0 && m.roots[child] != 0
    requires Cloned(m.mem.ram, m.roots[parent], m.roots[child], vpn)
    requires pte == Leaf(m.mem.ram, m.roots[parent], Px(1, vpn), Px(0, vpn)) && Translates(pte) && Shared(pte)
    modifies m`role, m.mem
    ensures res.Done? ==> m.Valid() && Spawned(old(m.mem.ram), old(m.role), m.mem.ram, m.role, m.roots, child)
    ensures res.Done? ==> Cloned(m.mem.ram, m.roots[parent], m.roots[child], vpn + 1)
    ensures res.OutOfTables? ==>
            m.Valid() && SpawnedOrLost(old(m.mem.ram), old(m.role), m.mem.ram, m.role, m.roots, child, 0)
            && m.mem.free == []
    ensures !res.Panic?
  {
    hide Owned, Chain, Shr, V, R, W, X, U, Shared, Ppn, At, Leaf, MapStep, Walked, Spawned, SpawnedOrLost, Cloned,
        MakePte, CopyOf;
    ghost var ram0, role0 := m.mem.ram, m.role;
    CloneSource(ram0, m.roots, m.kroot, role0, parent, child, vpn);
    LeafIs(ram0, m.roots, m.kroot, role0, parent, Px(1, vpn), Px(0, vpn));
    RangeOfRoles(ram0, m.roots, m.kroot, role0);
    ZeroEntry();
    MakePteReads(Ppn(pte), PermOf(pte));
    var mapped := m.MapPage(child, vpn, Ppn(pte), PermOf(pte));
    match mapped {
      case Mapped =>
        SharedSpawned(ram0, role0, m.mem.ram, m.role, m.roots, child, Px(1, vpn), Px(0, vpn),
            MakePte(Ppn(pte), PermOf(pte)));
        SharedCopy(ram0, role0, m.mem.ram, m.role, m.roots, parent, child, vpn, MakePte(Ppn(pte), PermOf(pte)));
        ClonedStep(ram0, role0, m.mem.ram, m.role, m.roots, m.kroot, parent, child, vpn,
            MakePte(Ppn(pte), PermOf(pte)));
        return Done;
      case NoMemory =>
        WalkedIsSpawned(ram0, role0, m.mem.ram, m.role, m.roots, child);
        return OutOfTables;
      case Remap =>
        assert false;
    }
  }

  lemma WalkedIsSpawned(ram: seq<Page>, role: map<nat, Role>, ram': seq<Page>, role': map<nat, Role>, roots: seq<nat>,
      child: nat)
    requires Walked(ram, role, ram', role', roots, child) && 0 !in role
    ensures SpawnedOrLost(ram, role, ram', role', roots, child, 0)
  {
  }

  lemma SharedCopy(ram: seq<Page>, role: map<nat, Role>, ram': seq<Page>, role': map<nat, Role>, roots: seq<nat>,
      parent: nat, child: nat, vpn: nat, e: u64)
    requires MapStep(ram, role, ram', role', roots, child, Px(1, vpn), Px(0, vpn), e)
    requires parent < MAX_PROCS && child < MAX_PROCS && parent != child && roots[parent] != 0 && roots[child] != 0
    requires var ep := Leaf(ram, roots[parent], Px(1, vpn), Px(0, vpn));
             Translates(ep) && Shared(ep) && V(e) && Ppn(e) == Ppn(ep) < |ram| && PermOf(e) == PermOf(ep)
    ensures CopyOf(ram', Leaf(ram', roots[parent], Px(1, vpn), Px(0, vpn)), e)
    ensures forall j1, j0 {:trigger Leaf(ram', roots[child], j1, j0)} :: 0 <= j1 < PTES && 0 <= j0 < PTES ==>
              Leaf(ram', roots[child], j1, j0) == if (j1, j0) == (Px(1, vpn), Px(0, vpn)) then e
                  else Leaf(ram, roots[child], j1, j0)
  {
    hide Shr, Leaf, Ppn;
    assert Leaf(ram', roots[parent], Px(1, vpn), Px(0, vpn)) == Leaf(ram, roots[parent], Px(1, vpn), Px(0, vpn));
  }

  method ClonePrivatePage(m: Machine, parent: nat, child: nat, vpn: nat, pte: u64)
      returns (res: CloneResult, ghost lost: nat)
    requires m.Valid() && parent < MAX_PROCS && child < MAX_PROCS && parent != child && InUser(vpn)
    requires m.roots[parent] != 0 && m.roots[child] != 0
    requires Cloned(m.mem.ram, m.roots[parent], m.roots[child], vpn)
    requires pte == Leaf(m.mem.ram, m.roots[parent], Px(1, vpn), Px(0, vpn)) && Translates(pte) && !Shared(pte)
    modifies m`role, m.mem
    ensures res.Done? ==> m.Valid() && Spawned(old(m.mem.ram), old(m.role), m.mem.ram, m.role, m.roots, child)
    ensures res.Done? ==> Cloned(m.mem.ram, m.roots[parent], m.roots[child], vpn + 1)
    ensures res.OutOfTables? ==>
            m.Valid() && SpawnedOrLost(old(m.mem.ram), old(m.role), m.mem.ram, m.role, m.roots, child, lost)
            && m.mem.free == []
    ensures res.Panic? ==> m.Valid() && m.mem.free == [] && m.role == old(m.role) && m.mem.ram == old(m.mem.ram)
  {
    hide Owned, Chain, Shr, V, R, W, X, U, Shared, Ppn, At, Leaf, MapStep, Walked, Spawned, SpawnedOrLost, Cloned,
        MakePte, CopyOf;
    ghost var ram0, role0 := m.mem.ram, m.role;
    CloneSource(ram0, m.roots, m.kroot, role0, parent, child, vpn);
    LeafIs(ram0, m.roots, m.kroot, role0, parent, Px(1, vpn), Px(0, vpn));
    ZeroEntry();
    var ok, newpa := NewPage(m);
    lost := newpa;
    if !ok {
      return Panic, 0;
    }
    m.Write(newpa, m.mem.ram[Ppn(pte)]);
    ghost var ram1, role1 := m.mem.ram, m.role;
    HeldKeepsLeaves(ram0, role0, ram1, role1, newpa, m.roots, m.kroot);
    assert Leaf(ram1, m.roots[child], Px(1, vpn), Px(0, vpn)) == 0;
    MakePteReads(newpa, PermOf(pte));
    var mapped := m.MapPage(child, vpn, newpa, PermOf(pte));
    match mapped {
      case Mapped =>
        ghost var e' := MakePte(newpa, PermOf(pte));
        PrivateSpawned(ram0, role0, ram1, role1, m.mem.ram, m.role, m.roots, m.kroot, child, Px(1, vpn), Px(0, vpn),
            e', newpa);
        PrivateCopy(ram0, role0, m.mem.ram, m.role, m.roots, parent, child, vpn, e', newpa, ram1);
        ClonedStep(ram0, role0, m.mem.ram, m.role, m.roots, m.kroot, parent, child, vpn, e');
        return Done, 0;
      case NoMemory =>
        FailedSpawned(ram0, role0, ram1, role1, m.mem.ram, m.role, m.roots, m.kroot, child, newpa);
        return OutOfTables, newpa;
      case Remap =>
        assert false;
    }
  }

  lemma PrivateCopy(ram: seq<Page>, role: map<nat, Role>, ram': seq<Page>, role': map<nat, Role>, roots: seq<nat>,
      parent: nat, child: nat, vpn: nat, e: u64, p: nat, ram1: seq<Page>)
    requires Spawned(ram, role, ram', role', roots, child)
    requires parent < MAX_PROCS && child < MAX_PROCS && parent != child && roots[parent] != 0 && roots[child] != 0
    requires p < |ram1| && p in role && role[p] == Free && p < |ram'| && ram'[p] == ram1[p]
    requires var ep := Leaf(ram, roots[parent], Px(1, vpn), Px(0, vpn));
             && Translates(ep) && !Shared(ep) && V(e) && Ppn(e) == p && PermOf(e) == PermOf(ep)
             && Ppn(ep) < |ram| && Ppn(ep) in role && role[Ppn(ep)] == Own(parent, Frame(Px(1, vpn), Px(0, vpn)))
             && ram1[p] == ram[Ppn(ep)]
    ensures CopyOf(ram', Leaf(ram', roots[parent], Px(1, vpn), Px(0, vpn)), e)
  {
    hide Shr, Leaf, Ppn;
    assert Leaf(ram', roots[parent], Px(1, vpn), Px(0, vpn)) == Leaf(ram, roots[parent], Px(1, vpn), Px(0, vpn));
  }

  // clone_user_pages: the child gets a faithful copy of every user page that
  // translates, and nothing else.
  method CloneUserPages(m: Machine, parent: nat, child: nat) returns (res: CloneResult, ghost lost: nat)
    requires m.Valid() && parent < MAX_PROCS && child < MAX_PROCS && parent != child
    requires m.roots[parent] != 0 && m.roots[child] != 0
    requires Cloned(m.mem.ram, m.roots[parent], m.roots[child], USER_START)
    modifies m`role, m.mem
    ensures res.Done? ==> m.Valid() && Spawned(old(m.mem.ram), old(m.role), m.mem.ram, m.role, m.roots, child)
    ensures res.Done? ==>
              && Cloned(m.mem.ram, m.roots[parent], m.roots[child], USER_END)
              && SameView(m.mem.ram, m.roots[parent], m.roots[child])
    ensures res.OutOfTables? ==>
            m.Valid() && SpawnedOrLost(old(m.mem.ram), old(m.role), m.mem.ram, m.role, m.roots, child, lost)
            && m.mem.free == []
    ensures res.Panic? ==>
              && m.Valid() && m.mem.free == []
              && Spawned(old(m.mem.ram), old(m.role), m.mem.ram, m.role, m.roots, child)
  {
    hide Owned, Chain, Shr, V, R, W, X, U, Shared, Ppn, At, Leaf, Spawned, SpawnedOrLost, Cloned, Partition, SameView;
    ghost var ram0, role0 := m.mem.ram, m.role;
    SpawnedReflexive(ram0, role0, m.roots, child);
    lost := 0;
    var vpn := USER_START;
    while vpn < USER_END
      invariant USER_START <= vpn <= USER_END
      invariant m.Valid() && Spawned(ram0, role0, m.mem.ram, m.role, m.roots, child)
      invariant Cloned(m.mem.ram, m.roots[parent], m.roots[child], vpn)
    {
      ghost var ram1, role1 := m.mem.ram, m.role;
      var t := m.Walk(parent, vpn, false);
      LeafOfWalk(ram1, m.roots, m.kroot, role1, m.mem.free, parent, Px(1, vpn), Px(0, vpn));
      if t == 0 || !V(m.mem.ram[t][Px(0, vpn)])
        || !(R(m.mem.ram[t][Px(0, vpn)]) || W(m.mem.ram[t][Px(0, vpn)]) || X(m.mem.ram[t][Px(0, vpn)])) {
        CloneSkip(ram1, m.roots[parent], m.roots[child], vpn);
      } else {
        var pte := m.mem.ram[t][Px(0, vpn)];
        if Shared(pte) {
          res := CloneSharedPage(m, parent, child, vpn, pte);
        } else {
          res, lost := ClonePrivatePage(m, parent, child, vpn, pte);
        }
        if !res.Done? {
          if res.OutOfTables? {
            SpawnedThenLost(ram0, role0, ram1, role1, m.mem.ram, m.role, m.roots, child, lost);
          }
          return;
        }
        SpawnedTransitive(ram0, role0, ram1, role1, m.mem.ram, m.role, m.roots, child);
        lost := 0;
      }
      vpn := vpn + 1;
    }
    CloneIsSameView(m.mem.ram, m.roots, m.kroot, m.role, m.mem.free, parent, child);
    return Done, 0;
  }

  // The child finds at every address what the parent finds there.
  lemma CloneIsSameView(ram: seq<Page>, roots: seq<nat>, kroot: nat, role: map<nat, Role>, free: seq<nat>, parent: nat,
      child: nat)
    requires Partition(ram, roots, kroot, role, free) && parent < MAX_PROCS && child < MAX_PROCS
    requires roots[parent] != 0 && roots[child] != 0 && Cloned(ram, roots[parent], roots[child], USER_END)
    ensures SameView(ram, roots[parent], roots[child])
  {
    assert |roots| == MAX_PROCS;
    hide Owned, Leaf, Translate;
    forall va: nat | InUser(va / PAGE_SIZE)
      ensures var s, t := Translate(ram, roots[parent], va), Translate(ram, roots[child], va);
              if s.Fault? then t.Fault?
              else t.Page? && t == s.(ppn := t.ppn) && s.ppn < |ram| && t.ppn < |ram| && ram[t.ppn] == ram[s.ppn]
    {
      var vpn := va / PAGE_SIZE;
      UserIndices(vpn);
      WalkFinds(ram, roots, kroot, role, parent, va);
      WalkFinds(ram, roots, kroot, role, child, va);
      SameFound(ram, Leaf(ram, roots[parent], Px(1, vpn), Px(0, vpn)), Leaf(ram, roots[child], Px(1, vpn), Px(0, vpn)));
    }
  }

  lemma SameFound(ram: seq<Page>, ep: u64, ec: u64)
    requires CopyOf(ram, ep, ec)
    ensures var s, t := LeafFound(ep), LeafFound(ec);
            if s.Fault? then t.Fault?
            else t.Page? && t == s.(ppn := t.ppn) && s.ppn < |ram| && t.ppn < |ram| && ram[t.ppn] == ram[s.ppn]
  {
    hide Shr;
    NothingFound();
  }

  lemma LeafOfWalk(ram: seq<Page>, roots: seq<nat>, kroot: nat, role: map<nat, Role>, free: seq<nat>, pid: nat, i1: nat,
      i0: nat)
    requires Partition(ram, roots, kroot, role, free) && pid < MAX_PROCS && i1 < PTES && i0 < PTES && roots[pid] != 0
    ensures var t := At(ram, roots[pid], Tab(i1));
            if t == 0 then !Translates(Leaf(ram, roots[pid], i1, i0))
            else t < |ram| && Leaf(ram, roots[pid], i1, i0) == ram[t][i0]
  {
    hide Owned, Shr;
    LeafIs(ram, roots, kroot, role, pid, i1, i0);
  }

  // ---- fork and exit ----

  lemma ProtectSpawns(ram: seq<Page>, role: map<nat, Role>, ram': seq<Page>, role': map<nat, Role>, roots: seq<nat>,
      child: nat, r: nat)
    requires |ram'| == |ram| == RAM_PAGES && |roots| == MAX_PROCS
    requires r in role && role[r] == Free && role' == role[r := Own(child, Root)]
    requires forall q :: 0 <= q < RAM_PAGES && q != r ==> ram'[q] == ram[q]
    requires forall q, i1, i0 {:trigger Leaf(ram', roots[q], i1, i0)} ::
               0 <= q < MAX_PROCS && q != child && 0 <= i1 < PTES && 0 <= i0 < PTES && roots[q] != 0 ==>
               Leaf(ram', roots[q], i1, i0) == Leaf(ram, roots[q], i1, i0)
    ensures Spawned(ram, role, ram', role', roots, child)
  {
  }

  lemma NothingCloned(ram: seq<Page>, parent: nat, child: nat)
    requires Cloned(ram, 0, child, 0)
    ensures Cloned(ram, parent, child, USER_START)
  {
  }

  lemma NoPagesYet(ram: seq<Page>, roots: seq<nat>, kroot: nat, role: map<nat, Role>, pid: nat)
    requires Owned(ram, roots, kroot, role) && pid < MAX_PROCS && roots[pid] == 0
    ensures forall p :: p in role && role[p].Own? ==> role[p].pid != pid
  {
  }

  lemma GivenBack(ram: seq<Page>, role: map<nat, Role>, ram2: seq<Page>, role2: map<nat, Role>, role3: map<nat, Role>,
      roots: seq<nat>, child: nat, lost: nat)
    requires SpawnedOrLost(ram, role, ram2, role2, roots, child, lost) && role3 == Cleared(role2, child)
    requires forall p :: p in role && role[p].Own? ==> role[p].pid != child
    ensures role3 == if lost in role then role[lost := Lost] else role
    ensures lost in role ==> role[lost] == Free
  {
    hide Leaf;
    var expected := if lost in role then role[lost := Lost] else role;
    assert role3.Keys == expected.Keys;
    forall p | p in role
      ensures role3[p] == expected[p]
    {
    }
  }

  // A fork followed by the child's exit gives every page its old role back: the
  // free pages are the same set as before.
  lemma ForkThenExitRestores(ram: seq<Page>, role: map<nat, Role>, ram': seq<Page>, role': map<nat, Role>,
      roots: seq<nat>, kroot: nat, roots': seq<nat>, child: nat)
    requires Owned(ram, roots, kroot, role) && child < MAX_PROCS && roots[child] == 0
    requires Spawned(ram, role, ram', role', roots', child)
    ensures Cleared(role', child) == role
  {
    NoPagesYet(ram, roots, kroot, role, child);
    hide Owned, Leaf;
    forall p | p in role
      ensures Cleared(role', child)[p] == role[p]
    {
    }
  }

  // Two processes' private pages are different pages, and no write through one
  // process's private mapping changes what the other reads or how it translates.
  lemma WritesStayPrivate(ram: seq<Page>, roots: seq<nat>, kroot: nat, role: map<nat, Role>, a: nat, i1: nat, i0: nat,
      x: Page, b: nat, j1: nat, j0: nat)
    requires Owned(ram, roots, kroot, role)
    requires a < MAX_PROCS && b < MAX_PROCS && a != b && roots[a] != 0 && roots[b] != 0
    requires i1 < PTES && i0 < PTES && j1 < PTES && j0 < PTES
    requires Translates(Leaf(ram, roots[a], i1, i0)) && !Shared(Leaf(ram, roots[a], i1, i0))
    requires Translates(Leaf(ram, roots[b], j1, j0))
    ensures var p, q := Ppn(Leaf(ram, roots[a], i1, i0)), Ppn(Leaf(ram, roots[b], j1, j0));
            && p < |ram| && q < |ram| && p != q
            && var ram' := ram[p := x];
               Leaf(ram', roots[b], j1, j0) == Leaf(ram, roots[b], j1, j0) && ram'[q] == ram[q]
  {
    hide Shr;
    LeafIs(ram, roots, kroot, role, a, i1, i0);
    LeafIs(ram, roots, kroot, role, b, j1, j0);
    assert !V(0);
    MappedFrame(ram, roots, kroot, role, b, j1, j0);
    var p := Ppn(Leaf(ram, roots[a], i1, i0));
    LeafUntouched(ram, ram[p := x], roots, kroot, role, b, j1, j0);
  }

  // The state of physical memory at one time.
  datatype Moment = Moment(ram: seq<Page>, roots: seq<nat>, role: map<nat, Role>)

  // The address-space part of proc_fork_current. When a page table cannot be
  // had, everything built for the child is given back, except a page new_page
  // had just handed out. `full` is the moment when it could not be had: every
  // free page was in the child's tables by then.
  method ForkSpace(m: Machine, parent: nat, child: nat) returns (res: CloneResult, ghost lost: nat, ghost full: Moment)
    requires m.Valid() && parent < MAX_PROCS && child < MAX_PROCS && parent != child
    requires m.roots[parent] != 0 && m.roots[child] == 0
    modifies m`role, m`roots, m.mem
    ensures res.Done? ==>
              && m.Valid() && m.roots == old(m.roots)[child := m.roots[child]] && m.roots[child] != 0
              && Cloned(m.mem.ram, m.roots[parent], m.roots[child], USER_END)
              && SameView(m.mem.ram, m.roots[parent], m.roots[child])
              && Spawned(old(m.mem.ram), old(m.role), m.mem.ram, m.role, m.roots, child)
    ensures res.OutOfTables? ==>
              && m.Valid() && m.roots == old(m.roots)
              && m.role == (if lost in old(m.role) then old(m.role)[lost := Lost] else old(m.role))
    ensures res.OutOfTables? && lost in old(m.role) ==> old(m.role)[lost] == Free
    ensures res.OutOfTables? ==>
              && |full.roots| == MAX_PROCS && full.roots == old(m.roots)[child := full.roots[child]]
                  && m.role == Cleared(full.role, child)
              && Partition(full.ram, full.roots, m.kroot, full.role, [])
              && SpawnedOrLost(old(m.mem.ram), old(m.role), full.ram, full.role, full.roots, child, lost)
    ensures res.Panic? ==>
              && m.Valid() && m.mem.free == []
              && Spawned(old(m.mem.ram), old(m.role), m.mem.ram, m.role, m.roots, child)
  {
    hide Owned, Chain, Shr, V, R, W, X, U, Shared, Ppn, At, Leaf, Cloned, Spawned, SpawnedOrLost, CopyOf, SameView;
    ghost var ram0, role0, roots0 := m.mem.ram, m.role, m.roots;
    full := Moment(ram0, roots0, role0);
    var ok := Protect(m, child);
    if !ok {
      SpawnedReflexive(ram0, role0, roots0, child);
      return Panic, 0, full;
    }
    ghost var ram1, role1 := m.mem.ram, m.role;
    ProtectSpawns(ram0, role0, ram1, role1, m.roots, child, m.roots[child]);
    NothingCloned(ram1, m.roots[parent], m.roots[child]);
    NoPagesYet(ram0, roots0, m.kroot, role0, child);
    res, lost := CloneUserPages(m, parent, child);
    match res {
      case Done =>
        SpawnedTransitive(ram0, role0, ram1, role1, m.mem.ram, m.role, m.roots, child);
      case OutOfTables =>
        ghost var ram2, role2, roots1 := m.mem.ram, m.role, m.roots;
        full := Moment(ram2, roots1, role2);
        m.FreeUserPages(child);
        SpawnedThenLost(ram0, role0, ram1, role1, ram2, role2, roots1, child, lost);
        GivenBack(ram0, role0, ram2, role2, m.role, roots1, child, lost);
      case Panic =>
        SpawnedTransitive(ram0, role0, ram1, role1, m.mem.ram, m.role, m.roots, child);
    }
  }
}
