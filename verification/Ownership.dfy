// Which page is whose: one role for every page of the pool, agreeing with every
// process's tables and with the free list.
module Ownership {
  import opened Sv39

  datatype Role = Free | Kernel | Lost | Own(pid: nat, pos: Pos)

  // An entry of a Root or Mid page is empty or a bare pointer; an entry of a
  // Tab page is empty or valid, and shared frames belong to no process.
  predicate PointerEntry(e: u64) {
    e == 0 || (V(e) && !IsLeaf(e) && 0 < Ppn(e) < RAM_PAGES)
  }

  predicate FrameEntry(role: map<nat, Role>, e: u64) {
    e == 0 || (V(e) && 0 < Ppn(e) < RAM_PAGES && (Shared(e) ==> Ppn(e) !in role || role[Ppn(e)] == Kernel))
  }

  ghost predicate ShapeAt(ram: seq<Page>, root: nat, kroot: nat, role: map<nat, Role>, p: Pos)
    requires ValidPos(p) && kroot < |ram|
  {
    var q := At(ram, root, p);
    q != 0 && q < |ram| ==>
      match p
      case Root => PointerEntry(ram[q][USER_ROOT]) && forall i :: 0 <= i < PTES && i != USER_ROOT ==>
          ram[q][i] == ram[kroot][i]
      case Mid => forall i :: 0 <= i < PTES ==> PointerEntry(ram[q][i])
      case Tab(_) => forall i :: 0 <= i < PTES ==> FrameEntry(role, ram[q][i])
      case Frame(_, _) => true
  }

  // Every process's pages are where its tables say and nowhere else. `role`
  // says what each pool page is for; being a function, it gives a page one role.
  ghost predicate Owned(ram: seq<Page>, roots: seq<nat>, kroot: nat, role: map<nat, Role>) {
    && |ram| == RAM_PAGES && |roots| == MAX_PROCS
    && kroot in role && role[kroot] == Kernel && 0 !in role && kroot < |ram|
    && ram[kroot][USER_ROOT] == 0
    && (forall p :: p in role ==> p < |ram|)
    && (forall pid, pos {:trigger At(ram, roots[pid], pos)} ::
        0 <= pid < MAX_PROCS && ValidPos(pos) && roots[pid] != 0 ==>
          var q := At(ram, roots[pid], pos);
          q != 0 ==> q in role && role[q] == Own(pid, pos))
    && (forall p :: p in role && role[p].Own? ==>
          && role[p].pid < MAX_PROCS && ValidPos(role[p].pos) && roots[role[p].pid] != 0
          && At(ram, roots[role[p].pid], role[p].pos) == p)
    && (forall pid, pos {:trigger ShapeAt(ram, roots[pid], kroot, role, pos)} ::
        0 <= pid < MAX_PROCS && ValidPos(pos) && roots[pid] != 0 ==>
          ShapeAt(ram, roots[pid], kroot, role, pos))
  }

  // The free list is exactly the free pages, each once.
  ghost predicate Partition(ram: seq<Page>, roots: seq<nat>, kroot: nat, role: map<nat, Role>, free: seq<nat>) {
    && Owned(ram, roots, kroot, role)
    && (forall i, j :: 0 <= i < j < |free| ==> free[i] != free[j])
    && (forall p :: p in free <==> p in role && role[p] == Free)
  }

  // ---- Pages in no table and not free ----

  ghost function LostPages(role: map<nat, Role>): set<nat> {
    set p | p in role && role[p] == Lost
  }

  // The same pool, the same kernel pages, the same lost pages.
  ghost predicate NoneLost(role: map<nat, Role>, role': map<nat, Role>) {
    && role'.Keys == role.Keys
    && forall p :: p in role ==> (role'[p] == Kernel <==> role[p] == Kernel) && (role'[p] == Lost <==> role[p] == Lost)
  }

  // The same, but that one more page, `lost`, is lost now; 0 stands for no page.
  ghost predicate LostOnly(role: map<nat, Role>, role': map<nat, Role>, lost: nat) {
    && role'.Keys == role.Keys
    && (lost in role ==> role[lost] != Lost)
    && forall p :: p in role ==>
         (role'[p] == Kernel <==> role[p] == Kernel) && (role'[p] == Lost <==> role[p] == Lost || p == lost)
  }

  // Page p of the pool is free, the kernel's, or at exactly one position of
  // exactly one process.
  ghost predicate HasOneRole(ram: seq<Page>, roots: seq<nat>, role: map<nat, Role>, free: seq<nat>, p: nat)
    requires |roots| == MAX_PROCS && p in role
  {
    && (p in free <==> role[p] == Free)
    && (role[p] == Free || role[p] == Kernel ==>
          forall pid, pos {:trigger At(ram, roots[pid], pos)} ::
            0 <= pid < MAX_PROCS && ValidPos(pos) && roots[pid] != 0 ==> At(ram, roots[pid], pos) != p)
    && (role[p] != Free && role[p] != Kernel ==>
          exists pid, pos {:trigger At(ram, roots[pid], pos)} ::
            && 0 <= pid < MAX_PROCS && ValidPos(pos) && roots[pid] != 0 && At(ram, roots[pid], pos) == p
            && forall pid', pos' {:trigger At(ram, roots[pid'], pos')} ::
                 0 <= pid' < MAX_PROCS && ValidPos(pos') && roots[pid'] != 0 && At(ram, roots[pid'], pos') == p ==>
                     pid' == pid && pos' == pos)
  }

  ghost predicate AllHaveOneRole(ram: seq<Page>, roots: seq<nat>, role: map<nat, Role>, free: seq<nat>) {
    |roots| == MAX_PROCS && forall p :: p in role ==> HasOneRole(ram, roots, role, free, p)
  }

  // While no page is lost, every page of the pool has exactly one role.
  lemma ExactlyOneRole(ram: seq<Page>, roots: seq<nat>, kroot: nat, role: map<nat, Role>, free: seq<nat>)
    requires Partition(ram, roots, kroot, role, free) && LostPages(role) == {}
    ensures AllHaveOneRole(ram, roots, role, free)
  {
    hide At;
    forall p | p in role
      ensures HasOneRole(ram, roots, role, free, p)
    {
      assert p !in LostPages(role);
      if role[p].Own? {
        assert At(ram, roots[role[p].pid], role[p].pos) == p;
      }
    }
  }
}
