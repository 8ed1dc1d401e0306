// Giving back an address space: which pages freeing a subtree releases.
module FreeSpace {
  import opened BitStrings
  import opened Sv39
  import opened Ownership
  import opened PageTables

  // q is pos or below it.
  predicate Under(q: Pos, pos: Pos) {
    match pos
    case Root => true
    case Mid => !q.Root?
    case Tab(i1) => !q.Root? && !q.Mid? && q.i1 == i1
    case Frame(_, _) => q == pos
  }

  // q is at or below an entry of table page pos with index less than i.
  predicate UnderBelow(q: Pos, pos: Pos, i: nat) {
    match pos
    case Root => i > USER_ROOT && !q.Root?
    case Mid => !q.Root? && !q.Mid? && q.i1 < i
    case Tab(i1) => q.Frame? && q.i1 == i1 && q.i0 < i
    case Frame(_, _) => false
  }

  // The free pages grew by exactly what pid owns under pos.
  ghost predicate ReleasedUnder(role: map<nat, Role>, free: seq<nat>, free': seq<nat>, pid: nat, pos: Pos) {
    forall p :: p in free' <==>
        p in free || (p in role && role[p].Own? && role[p].pid == pid && Under(role[p].pos, pos))
  }

  ghost predicate ReleasedBelow(role: map<nat, Role>, free: seq<nat>, free': seq<nat>, pid: nat, pos: Pos, i: nat) {
    forall p :: p in free' <==>
        p in free || (p in role && role[p].Own? && role[p].pid == pid && UnderBelow(role[p].pos, pos, i))
  }

  lemma NothingBelow(role: map<nat, Role>, free: seq<nat>, pid: nat, pos: Pos)
    ensures ReleasedBelow(role, free, free, pid, pos, 0)
  {
  }

  // An empty entry, or a shared frame, has no owned page under it.
  lemma EmptyEntry(ram: seq<Page>, roots: seq<nat>, kroot: nat, role: map<nat, Role>, free: seq<nat>, free': seq<nat>,
      pid: nat, pos: Pos, i: nat)
    requires Owned(ram, roots, kroot, role) && pid < MAX_PROCS && roots[pid] != 0 && TableEntry(pos, i)
    requires At(ram, roots[pid], ChildPos(pos, i)) == 0
    requires ReleasedBelow(role, free, free', pid, pos, i)
    ensures ReleasedBelow(role, free, free', pid, pos, i + 1)
  {
    hide Shr;
    forall p | p in role && role[p].Own? && role[p].pid == pid && UnderBelow(role[p].pos, pos, i + 1)
      ensures UnderBelow(role[p].pos, pos, i)
    {
      assert At(ram, roots[pid], role[p].pos) == p != 0;
      assert UnderBelow(role[p].pos, pos, i) || Under(role[p].pos, ChildPos(pos, i));
      if Under(role[p].pos, ChildPos(pos, i)) {
        ParentPresent(ram, roots[pid], role[p].pos, ChildPos(pos, i));
      }
    }
  }

  // A page is only reached through the pages above it.
  lemma ParentPresent(ram: seq<Page>, root: nat, q: Pos, pos: Pos)
    requires ValidPos(q) && ValidPos(pos) && Under(q, pos) && At(ram, root, q) != 0 && root != 0
    ensures At(ram, root, pos) != 0
  {
    hide Shr;
  }

  lemma FreedFrame(role: map<nat, Role>, free: seq<nat>, free1: seq<nat>, pid: nat, i1: nat, i: nat, f: nat,
      free2: seq<nat>)
    requires ReleasedBelow(role, free, free1, pid, Tab(i1), i) && f in role && role[f] == Own(pid, Frame(i1, i))
    requires forall p :: p in role && role[p] == Own(pid, Frame(i1, i)) ==> p == f
    requires free2 == [f] + free1
    ensures ReleasedBelow(role, free, free2, pid, Tab(i1), i + 1)
  {
  }

  lemma FreedSubtree(role: map<nat, Role>, free: seq<nat>, free1: seq<nat>, free2: seq<nat>, pid: nat, i: nat)
    requires ReleasedBelow(role, free, free1, pid, Mid, i) && ReleasedUnder(role, free1, free2, pid, Tab(i))
    ensures ReleasedBelow(role, free, free2, pid, Mid, i + 1)
  {
  }

  lemma FreedMid(role: map<nat, Role>, free: seq<nat>, free2: seq<nat>, pid: nat, i: nat)
    requires ReleasedUnder(role, free, free2, pid, Mid) && i == USER_ROOT
    ensures ReleasedBelow(role, free, free2, pid, Root, i + 1)
  {
  }

  // The table page itself goes last.
  lemma FreedTable(role: map<nat, Role>, free: seq<nat>, free1: seq<nat>, free2: seq<nat>, pid: nat, pos: Pos, t: nat)
    requires !pos.Frame? && t in role && role[t] == Own(pid, pos)
    requires forall p :: p in role && role[p] == Own(pid, pos) ==> p == t
    requires forall p :: p in role && role[p].Own? ==> ValidPos(role[p].pos)
    requires ReleasedBelow(role, free, free1, pid, pos, PTES) && free2 == [t] + free1
    ensures ReleasedUnder(role, free, free2, pid, pos)
  {
  }

  // ---- While the subtree is being freed ----

  // Nothing of pid's at or below pos is free yet, and it still reads as it did.
  ghost predicate Intact(ram0: seq<Page>, ram: seq<Page>, role: map<nat, Role>, free: seq<nat>, pid: nat, pos: Pos) {
    && |ram| == |ram0|
    && forall p :: p in role && p < |ram| && role[p].Own? && role[p].pid == pid && Under(role[p].pos, pos) ==>
         p !in free && ram[p] == ram0[p]
  }

  lemma TableInUse(ram0: seq<Page>, ram: seq<Page>, roots: seq<nat>, kroot: nat, role: map<nat, Role>, free: seq<nat>,
      pid: nat, pos: Pos)
    requires Owned(ram0, roots, kroot, role) && pid < MAX_PROCS && roots[pid] != 0 && ValidPos(pos)
    requires At(ram0, roots[pid], pos) != 0 && Intact(ram0, ram, role, free, pid, pos)
    ensures var t := At(ram0, roots[pid], pos);
            && 0 < t < |ram| == RAM_PAGES && t in role && role[t] == Own(pid, pos) && t !in free && ram[t] == ram0[t]
  {
    hide Shr;
    var t := At(ram0, roots[pid], pos);
    assert t in role && role[t] == Own(pid, pos);
  }

  // Where entry i of a table leads, by kind of table.
  lemma EntryLeads(ram: seq<Page>, roots: seq<nat>, kroot: nat, role: map<nat, Role>, pid: nat, pos: Pos, i: nat)
    requires Owned(ram, roots, kroot, role) && pid < MAX_PROCS && roots[pid] != 0 && TableEntry(pos, i)
    requires 0 < At(ram, roots[pid], pos) < |ram|
    ensures var e := ram[At(ram, roots[pid], pos)][i];
            && At(ram, roots[pid], ChildPos(pos, i)) == (if !V(e) || (pos.Tab? && Shared(e)) then 0 else Ppn(e))
            && (V(e) ==> 0 < Ppn(e) < RAM_PAGES)
            && (V(e) && !pos.Tab? ==> !IsLeaf(e))
            && (V(e) && pos.Tab? && !Shared(e) ==> Ppn(e) in role && role[Ppn(e)] == Own(pid, ChildPos(pos, i)))
  {
    hide Shr;
    assert ShapeAt(ram, roots[pid], kroot, role, pos);
    var c := At(ram, roots[pid], ChildPos(pos, i));
  }

  lemma StillIntact(ram0: seq<Page>, ram1: seq<Page>, ram: seq<Page>, roots: seq<nat>, kroot: nat, role: map<nat, Role>,
      free0: seq<nat>, free: seq<nat>, pid: nat, i: nat, table: nat)
    requires Owned(ram0, roots, kroot, role) && Intact(ram0, ram1, role, free0, pid, Mid) && |ram| == |ram0|
    requires ReleasedBelow(role, free0, free, pid, Mid, i) && table in role && role[table] == Own(pid, Mid)
    requires forall p :: 0 <= p < |ram| && p !in free && p != table ==> ram[p] == ram1[p]
    ensures Intact(ram0, ram, role, free, pid, Tab(i))
  {
  }

  lemma ReleasedKeeps(role: map<nat, Role>, free: seq<nat>, free': seq<nat>, pid: nat, pos: Pos, t: nat, above: Pos)
    requires ReleasedUnder(role, free, free', pid, pos) && t in role && role[t] == Own(pid, above)
    requires !Under(above, pos) && t !in free
    ensures t !in free'
    ensures forall p :: p in free ==> p in free'
  {
  }

  lemma KernelKept(role: map<nat, Role>, free: seq<nat>, free': seq<nat>, pid: nat, pos: Pos, k: nat)
    requires ReleasedUnder(role, free, free', pid, pos) && k in role && role[k] == Kernel && k !in free
    ensures k !in free'
  {
  }

  lemma FrameNotFree(ram0: seq<Page>, roots: seq<nat>, kroot: nat, role: map<nat, Role>, free0: seq<nat>,
      free: seq<nat>, pid: nat, pos: Pos, i: nat, f: nat)
    requires Owned(ram0, roots, kroot, role) && pos.Tab? && f in role && role[f] == Own(pid, Frame(pos.i1, i))
    requires ReleasedBelow(role, free0, free, pid, pos, i) && f !in free0
    ensures f !in free
    ensures forall p :: p in role && role[p] == Own(pid, Frame(pos.i1, i)) ==> p == f
  {
  }

  lemma IntactFrame(ram0: seq<Page>, ram: seq<Page>, role: map<nat, Role>, free: seq<nat>, pid: nat, pos: Pos, i: nat,
      f: nat)
    requires Intact(ram0, ram, role, free, pid, pos) && pos.Tab? && f in role && f < |ram|
    requires role[f] == Own(pid, Frame(pos.i1, i))
    ensures f !in free
  {
  }

  lemma TableIsOnly(ram: seq<Page>, roots: seq<nat>, kroot: nat, role: map<nat, Role>, pid: nat, pos: Pos)
    requires Owned(ram, roots, kroot, role) && pid < MAX_PROCS && roots[pid] != 0 && ValidPos(pos)
    ensures forall p :: p in role && role[p] == Own(pid, pos) ==> p == At(ram, roots[pid], pos)
    ensures forall p :: p in role && role[p].Own? ==> ValidPos(role[p].pos)
  {
  }

  // ---- At the root ----

  lemma RootInUse(ram: seq<Page>, roots: seq<nat>, kroot: nat, role: map<nat, Role>, free: seq<nat>, pid: nat)
    requires Partition(ram, roots, kroot, role, free) && pid < MAX_PROCS && roots[pid] != 0
    ensures roots[pid] in role && role[roots[pid]] == Own(pid, Root) && roots[pid] !in free
    ensures 0 < roots[pid] < RAM_PAGES
    ensures kroot in role && role[kroot] == Kernel && kroot !in free && kroot < RAM_PAGES && ram[kroot][USER_ROOT] == 0
    ensures forall p :: p in role ==> p < RAM_PAGES
  {
    assert At(ram, roots[pid], Root) == roots[pid];
  }

  // Root entries outside the user range are the kernel's own.
  lemma RootEntry(ram: seq<Page>, roots: seq<nat>, kroot: nat, role: map<nat, Role>, pid: nat, i: nat)
    requires Owned(ram, roots, kroot, role) && pid < MAX_PROCS && roots[pid] != 0 && i < PTES
    ensures roots[pid] < |ram| && kroot < |ram|
    ensures i != USER_ROOT ==> ram[roots[pid]][i] == ram[kroot][i]
    ensures i == USER_ROOT ==>
              var e := ram[roots[pid]][i];
              && At(ram, roots[pid], Mid) == (if V(e) then Ppn(e) else 0)
              && (e == ram[kroot][i] ==> !V(e))
              && (V(e) ==> Ppn(e) != 0)
  {
    hide Shr;
    assert At(ram, roots[pid], Root) == roots[pid];
    assert ShapeAt(ram, roots[pid], kroot, role, Root);
  }

  lemma RootStep(role: map<nat, Role>, free: seq<nat>, free': seq<nat>, pid: nat, i: nat)
    requires ReleasedBelow(role, free, free', pid, Root, i) && i != USER_ROOT
    ensures ReleasedBelow(role, free, free', pid, Root, i + 1)
  {
  }

  lemma MidIntact(ram0: seq<Page>, ram: seq<Page>, roots: seq<nat>, kroot: nat, role: map<nat, Role>, free: seq<nat>,
      pid: nat, root: nat)
    requires Partition(ram0, roots, kroot, role, free) && |ram| == |ram0| && pid < MAX_PROCS && roots[pid] == root != 0
    requires forall p :: 0 <= p < RAM_PAGES && p !in free && p != root ==> ram[p] == ram0[p]
    ensures Intact(ram0, ram, role, free, pid, Mid)
  {
    assert At(ram0, root, Root) == root;
  }

  // ---- The roles once the process is gone ----

  function Cleared(role: map<nat, Role>, pid: nat): (r: map<nat, Role>)
    ensures r.Keys == role.Keys
    ensures forall p :: p in role ==> r[p] == if role[p].Own? && role[p].pid == pid then Free else role[p]
  {
    map p | p in role :: if role[p].Own? && role[p].pid == pid then Free else role[p]
  }

  lemma DropKeepsPartition(ram: seq<Page>, ram': seq<Page>, roots: seq<nat>, kroot: nat, role: map<nat, Role>, pid: nat,
      free: seq<nat>, free': seq<nat>)
    requires Partition(ram, roots, kroot, role, free) && |ram'| == |ram| && pid < MAX_PROCS
    requires ReleasedUnder(role, free, free', pid, Root)
    requires forall i, j :: 0 <= i < j < |free'| ==> free'[i] != free'[j]
    requires forall p :: 0 <= p < |ram| && p !in free' ==> ram'[p] == ram[p]
    ensures Partition(ram', roots[pid := 0], kroot, Cleared(role, pid), free')
  {
    hide Shr, V, Ppn, Shared, ShapeAt, Under;
    UnderRoot(role, free, free', pid);
    var role', roots' := Cleared(role, pid), roots[pid := 0];
    forall q, pos {:trigger At(ram', roots'[q], pos)} {:trigger ShapeAt(ram', roots'[q], kroot, role', pos)}
        | 0 <= q < MAX_PROCS && ValidPos(pos) && roots'[q] != 0
      ensures At(ram', roots'[q], pos) == At(ram, roots[q], pos)
      ensures ShapeAt(ram', roots'[q], kroot, role', pos)
    {
      DropAt(ram, ram', roots, kroot, role, pid, free', q, pos);
      assert ShapeAt(ram, roots[q], kroot, role, pos);
      DropShape(ram, ram', roots, kroot, role, pid, free', q, pos);
    }
  }

  lemma UnderRoot(role: map<nat, Role>, free: seq<nat>, free': seq<nat>, pid: nat)
    requires ReleasedUnder(role, free, free', pid, Root)
    requires forall p :: p in free <==> p in role && role[p] == Free
    ensures forall p :: p in free' <==> p in role && (role[p] == Free || (role[p].Own? && role[p].pid == pid))
    ensures forall p :: p in free' <==> p in Cleared(role, pid) && Cleared(role, pid)[p] == Free
  {
  }

  lemma DropShape(ram: seq<Page>, ram': seq<Page>, roots: seq<nat>, kroot: nat, role: map<nat, Role>, pid: nat,
      free': seq<nat>, q: nat, pos: Pos)
    requires Owned(ram, roots, kroot, role) && |ram'| == |ram|
    requires forall p :: p in free' ==> p in role && (role[p] == Free || (role[p].Own? && role[p].pid == pid))
    requires forall p :: 0 <= p < |ram| && p !in free' ==> ram'[p] == ram[p]
    requires q < MAX_PROCS && q != pid && roots[q] != 0 && ValidPos(pos)
    requires At(ram', roots[q], pos) == At(ram, roots[q], pos) && ShapeAt(ram, roots[q], kroot, role, pos)
    ensures ShapeAt(ram', roots[q], kroot, Cleared(role, pid), pos)
  {
    hide Shr, V, Ppn, Shared, At;
    var t := At(ram, roots[q], pos);
    assert t != 0 ==> t !in free';
    assert kroot !in free';
  }

  lemma DropAt(ram: seq<Page>, ram': seq<Page>, roots: seq<nat>, kroot: nat, role: map<nat, Role>, pid: nat,
      free': seq<nat>, q: nat, pos: Pos)
    requires Owned(ram, roots, kroot, role) && |ram'| == |ram|
    requires forall p :: p in free' ==> p in role && (role[p] == Free || (role[p].Own? && role[p].pid == pid))
    requires forall p :: 0 <= p < |ram| && p !in free' ==> ram'[p] == ram[p]
    requires q < MAX_PROCS && q != pid && roots[q] != 0 && ValidPos(pos)
    ensures At(ram', roots[q], pos) == At(ram, roots[q], pos)
  {
    hide Shr;
    var root := roots[q];
    assert At(ram, root, Root) == root;
    var mid := At(ram, root, Mid);
    match pos
    case Root =>
    case Mid =>
    case Tab(i1) =>
    case Frame(i1, i0) =>
      var t := At(ram, root, Tab(i1));
  }
}
