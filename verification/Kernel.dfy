// A process as a whole: its slot, its address space and its descriptors.
module Kernel {
  import Limits
  import opened ProcFamily
  import opened Processes
  import opened Ownership
  import opened PageTables
  import opened FreeSpace
  import opened AddressSpace
  import opened Fork
  import opened OpenFiles
  import opened FileCalls
  import opened Bytes
  import Mmu
  import UserMemory
  import MemoryRuns
  import ProgramImage
  import Loader
  import UserStack
  import Sv39

  const NPROC: nat := Limits.MAX_PROCS

  // The processes that are alive, and no others, have an address space; the
  // others have no descriptor either.
  ghost predicate Coupled(p: seq<Pcb>, roots: seq<nat>, fds: seq<int>) {
    && |p| == |roots| == NPROC && |fds| == FD_SLOTS
    && (forall i :: 0 <= i < NPROC ==> (roots[i] != 0 <==> Alive(p[i])))
    && (forall i :: 0 <= i < NPROC && !Alive(p[i]) ==> NoFds(fds, i))
  }

  predicate NoFds(fds: seq<int>, i: nat)
    requires |fds| == FD_SLOTS && i < NPROC
  {
    forall k :: 0 <= k < MAX_FD ==> fds[FdAt(i, k)] == -1
  }

  predicate SameFds(fds: seq<int>, fds': seq<int>, i: nat, j: nat)
    requires |fds| == |fds'| == FD_SLOTS && i < NPROC && j < NPROC
  {
    forall k :: 0 <= k < MAX_FD ==> fds'[FdAt(j, k)] == fds[FdAt(i, k)]
  }

  datatype Snapshot = Snapshot(pcbs: seq<Pcb>, memory: Moment, fds: seq<int>)

  // Slot c has become a child of slot i: its entry, a copy of the pages that
  // translate, and the same descriptors.
  ghost predicate ChildMade(s: Snapshot, t: Snapshot, i: nat, at: nat, c: nat, ctxOff: nat) {
    && Forks(s.pcbs, i, at, c)
    && t.pcbs == Forked(s.pcbs, i, at, c, Pcb(At(ctxOff), NO_SUBS, i + 1, Running, 0, 0))
    && |t.memory.roots| == |s.memory.roots| == NPROC && t.memory.roots == s.memory.roots[c := t.memory.roots[c]]
    && Cloned(t.memory.ram, t.memory.roots[i], t.memory.roots[c], Sv39.USER_END)
    && Mmu.SameView(t.memory.ram, t.memory.roots[i], t.memory.roots[c])
    && Spawned(s.memory.ram, s.memory.role, t.memory.ram, t.memory.role, t.memory.roots, c)
    && |s.fds| == |t.fds| == FD_SLOTS && SameFds(s.fds, t.fds, i, c) && FileCalls.OthersKept(s.fds, t.fds, c)
  }

  // Nothing is left of the attempt, except perhaps one lost page.
  ghost predicate NothingMade(s: Snapshot, t: Snapshot, lost: nat) {
    && t.pcbs == s.pcbs && t.fds == s.fds && t.memory.roots == s.memory.roots
    && t.memory.role == if lost in s.memory.role then s.memory.role[lost := Lost] else s.memory.role
  }

  // The moment when no page was left for the child's tables: every page free
  // before is the child's by then, or lost.
  ghost predicate NoPageLeft(s: Moment, full: Moment, kroot: nat, lost: nat) {
    && Partition(full.ram, full.roots, kroot, full.role, [])
    && exists c :: 0 <= c < NPROC && SpawnedOrLost(s.ram, s.role, full.ram, full.role, full.roots, c, lost)
  }

  predicate ContextFits(ctxOff: int) {
    0 <= ctxOff <= KSTACK_BYTES - CONTEXT_BYTES
  }

  class System {
    const procs: ProcTable
    const space: Machine
    const open: FileTables

    // The tables once the first process has its program.
    constructor (t: ProcTable, m: Machine, f: FileTables)
      requires t.Valid() && m.Valid() && f.Valid() && Coupled(t.pcbs[..], m.roots, f.fds[..])
      ensures Valid() && procs == t && space == m && open == f
    {
      procs, space, open := t, m, f;
    }

    ghost predicate Valid()
      reads procs, procs.pcbs, space, space.mem, open, open.files, open.pipes, open.fds
    {
      && procs.Valid() && space.Valid() && open.Valid()
      && Coupled(procs.pcbs[..], space.roots, open.fds[..])
    }

    ghost function Now(): Snapshot
      reads procs, procs.pcbs, space, space.mem, open, open.fds
    {
      Snapshot(procs.pcbs[..], Moment(space.mem.ram, space.roots, space.role), open.fds[..])
    }

    // proc_fork_current. It fails for want of a slot, of room in the caller's list
    // or of a page for the child's tables, or when the caller's context does not
    // lie in its kernel stack; only the third way can lose a page.
    method Fork(ctxOff: int)
        returns (stop: bool, r: int, ghost at: nat, ghost noTables: bool, ghost lost: nat, ghost full: Moment)
      requires Valid() && procs.pcbs[procs.cur].state == Running
      modifies procs.pcbs, procs`history, space`role, space`roots, space.mem
      modifies open.files, open.pipes, open.fds, open`ends
      ensures stop ==> space.Valid() && space.mem.free == [] && NoneLost(old(space.role), space.role)
      ensures !stop ==> Valid()
      ensures !stop && r != -1 ==> IsPid(r) && ContextFits(ctxOff)
      ensures !stop && r != -1 ==> ChildMade(old(Now()), Now(), procs.cur, at, r - 1, ctxOff)
      ensures !stop && r == -1 ==> NothingMade(old(Now()), Now(), lost)
      ensures !stop && r == -1 && lost in old(space.role) ==> noTables
      ensures noTables ==> NoPageLeft(old(Now()).memory, full, space.kroot, lost)
      ensures !stop && r == -1 ==>
              NoSlot(old(procs.pcbs[..])) || !Lists(old(procs.pcbs[procs.cur]), -1) || noTables || !ContextFits(ctxOff)
    {
      hide TableOk, Owned, Partition, Cloned, Spawned, SpawnedOrLost, Later, SameAbandoned, AbandonsListed,
          Mmu.SameView;
      hide EndsOk, FifoOk, FdsOk, RefsOk, StuckStay, Coupled, NoFds, SameFds, FileCalls.OthersKept, Lists, NoPageLeft;
      ghost var p, roots, fds := procs.pcbs[..], space.roots, open.fds[..];
      r, at, lost, noTables, stop := -1, 0, 0, false, false;
      full := Now().memory;
      NoPageZero(space.mem.ram, roots, space.kroot, space.role, space.mem.free);
      var c := procs.FindEmptySlot();
      if c < 0 {
        return;
      }
      var room := procs.HasChild(procs.cur, -1);
      if !room {
        return;
      }
      CoupledAt(p, roots, fds, procs.cur);
      CoupledAt(p, roots, fds, c);
      var cloned;
      stop, cloned, noTables, lost, full := ForkPages(c, ctxOff);
      if stop {
        return;
      }
      r, at := ForkEntry(c, cloned, ctxOff, roots);
      if r != -1 {
        CoupledForked(p, roots, fds, procs.cur, at, c, procs.pcbs[c], space.roots, open.fds[..]);
      }
    }

    // Its entry and its descriptors, once the pages are settled.
    method ForkEntry(c: nat, cloned: bool, ctxOff: int, ghost roots: seq<nat>) returns (r: int, ghost at: nat)
      requires procs.Valid() && open.Valid() && Coupled(procs.pcbs[..], roots, open.fds[..])
      requires procs.pcbs[procs.cur].state == Running && c < NPROC && procs.pcbs[c].state == Empty
      requires (forall i :: 0 <= i < c ==> procs.pcbs[i].state != Empty) && Lists(procs.pcbs[procs.cur], -1)
      modifies procs.pcbs, procs`history, open.files, open.pipes, open.fds, open`ends
      ensures procs.Valid() && open.Valid()
      ensures r == if cloned && ContextFits(ctxOff) then c + 1 else -1
      ensures r == -1 ==> procs.pcbs[..] == old(procs.pcbs[..]) && open.fds[..] == old(open.fds[..])
      ensures r != -1 ==>
              && Forks(old(procs.pcbs[..]), procs.cur, at, c)
              && procs.pcbs[..] == Forked(old(procs.pcbs[..]), procs.cur, at, c,
                                          Pcb(At(ctxOff), NO_SUBS, procs.cur + 1, Running, 0, 0))
              && |old(open.fds[..])| == |open.fds[..]| == FD_SLOTS
              && SameFds(old(open.fds[..]), open.fds[..], procs.cur, c)
              && FileCalls.OthersKept(old(open.fds[..]), open.fds[..], c)
    {
      hide TableOk, Later, SameAbandoned, AbandonsListed;
      hide EndsOk, FifoOk, FdsOk, RefsOk, StuckStay, Coupled, NoFds, SameFds, FileCalls.OthersKept;
      ghost var p, fds := procs.pcbs[..], open.fds[..];
      CoupledAt(p, roots, fds, c);
      NoFdsAt(fds, c);
      r, at := procs.Fork(cloned, ctxOff);
      if r != -1 {
        open.ForkFds(procs.cur, c);
        FdsCopied(fds, open.fds[..], procs.cur, c);
      }
    }

    // Its pages: a copy of the caller's, given back again if the context is bad.
    method ForkPages(c: nat, ctxOff: int)
        returns (stop: bool, cloned: bool, ghost noTables: bool, ghost lost: nat, ghost full: Moment)
      requires space.Valid() && procs.cur < NPROC && c < NPROC && c != procs.cur
      requires space.roots[procs.cur] != 0 && space.roots[c] == 0
      modifies space`role, space`roots, space.mem
      ensures stop ==> space.Valid() && space.mem.free == [] && NoneLost(old(space.role), space.role)
      ensures !stop ==> space.Valid() && (cloned <==> !noTables)
      ensures noTables ==>
              NoPageLeft(Moment(old(space.mem.ram), old(space.roots), old(space.role)), full, space.kroot, lost)
      ensures !stop && cloned && ContextFits(ctxOff) ==>
              && |space.roots| == NPROC && space.roots == old(space.roots)[c := space.roots[c]] && space.roots[c] != 0
              && Cloned(space.mem.ram, space.roots[procs.cur], space.roots[c], Sv39.USER_END)
              && Mmu.SameView(space.mem.ram, space.roots[procs.cur], space.roots[c])
              && Spawned(old(space.mem.ram), old(space.role), space.mem.ram, space.role, space.roots, c)
      ensures !stop && !(cloned && ContextFits(ctxOff)) ==>
              && space.roots == old(space.roots)
              && space.role == (if lost in old(space.role) then old(space.role)[lost := Lost] else old(space.role))
              && (lost in old(space.role) ==> noTables)
    {
      hide Owned, Cloned, Spawned, SpawnedOrLost, Memory.Chain, Mmu.SameView;
      ghost var ram0, role0, roots0 := space.mem.ram, space.role, space.roots;
      NoPageZero(ram0, roots0, space.kroot, role0, space.mem.free);
      var outcome;
      outcome, lost, full := ForkSpace(space, procs.cur, c);
      stop, cloned, noTables := outcome.Panic?, outcome.Done?, outcome.OutOfTables?;
      if stop {
        UserMemory.SpawnedLosesNone(ram0, role0, space.mem.ram, space.role, space.roots, c);
      }
      if noTables {
        assert NoPageLeft(Moment(ram0, roots0, role0), full, space.kroot, lost);
      }
      if cloned {
        lost := 0;
        if !ContextFits(ctxOff) {
          ForkThenExitRestores(ram0, role0, space.mem.ram, space.role, roots0, space.kroot, space.roots, c);
          space.FreeUserPages(c);
          assert roots0[c := 0] == roots0;
        }
      }
    }

    // terminate_proc: descriptors, pages and slot.
    method Terminate(i: nat, status: int)
      requires Valid() && i < NPROC && Alive(procs.pcbs[i])
      modifies procs.pcbs, procs`history, space`role, space`roots, space.mem
      modifies open.files, open.pipes, open.fds, open`ends
      ensures Valid()
      ensures procs.pcbs[..] == old(procs.pcbs[..])[i := if Wanted(old(procs.pcbs[..]), i + 1)
                                                         then Ended(old(procs.pcbs[i]), status) else BLANK]
      ensures space.roots == old(space.roots)[i := 0] && space.role == Cleared(old(space.role), i)
      ensures |open.fds[..]| == |old(open.fds[..])| == FD_SLOTS && NoFds(open.fds[..], i)
      ensures FileCalls.OthersKept(old(open.fds[..]), open.fds[..], i)
    {
      hide TableOk, Owned, Partition, Later, SameAbandoned, AbandonsListed;
      hide EndsOk, FifoOk, FdsOk, RefsOk, StuckStay, Coupled, FileCalls.OthersKept;
      ghost var p, roots, fds := procs.pcbs[..], space.roots, open.fds[..];
      CoupledAt(p, roots, fds, i);
      open.CloseAll(i);
      space.FreeUserPages(i);
      procs.Terminate(i, status);
      CoupledEnded(p, roots, fds, i, procs.pcbs[i], open.fds[..]);
    }

    // sys_execve, from proc_exec_reclaim on: the process finds its program, its
    // arguments and zeroed memory through its own page tables.
    method Exec(segments: seq<Loader.Segment>, buf: seq<byte>, argv: seq<UserStack.CString>,
        envp: seq<UserStack.CString>)
        returns (ok: bool, sp: nat, vsp: nat, ghost page: Loader.UserPage, ghost lost: nat)
      requires Valid() && procs.pcbs[procs.cur].state == Running
      requires forall i :: 0 <= i < |segments| ==> Loader.InBuffer(segments[i], buf)
      requires forall i :: 0 <= i < |segments| && segments[i].load ==>
                MemoryRuns.UserRegion(MemoryRuns.Region(Loader.FirstPage(segments[i]), Loader.EndPage(segments[i])))
      modifies procs.pcbs, space`role, space`roots, space.mem
      ensures ok ==> Valid() && open.fds[..] == old(open.fds[..])
      ensures ok ==> procs.pcbs[..] == old(procs.pcbs[..])[procs.cur := procs.pcbs[procs.cur]]
      ensures ok ==>
                && |space.roots| == NPROC && NoneLost(old(space.role), space.role)
                && MemoryRuns.MapsExactly(space.mem.ram, space.roots[procs.cur],
                                          [MemoryRuns.STACK] + ProgramImage.SegmentRegions(segments))
                && MemoryRuns.Reaches(space.mem.ram, space.roots[procs.cur],
                                      [MemoryRuns.STACK] + ProgramImage.SegmentRegions(segments))
      ensures ok ==>
                && ProgramImage.FindsProgram(space.mem.ram, space.roots[procs.cur], segments, buf)
                && ProgramImage.FindsTop(space.mem.ram, space.roots[procs.cur], page)
                && UserStack.Block(page, sp, argv, envp) && vsp == UserStack.PAGE_BASE + sp
      ensures !ok ==>
                || UserStack.ArgsTotal(argv, envp) > Sv39.PAGE_SIZE || !Loader.Loadable(segments, {})
                || MemoryRuns.Overlap([MemoryRuns.STACK] + ProgramImage.SegmentRegions(segments))
                || (space.Valid() && space.mem.free == [] && LostOnly(old(space.role), space.role, lost))
    {
      hide TableOk, Owned, Partition, SameAbandoned, EndsOk, FifoOk, FdsOk, RefsOk, Coupled, NoneLost, LostOnly,
          Memory.Chain;
      hide MemoryRuns.MapsExactly, MemoryRuns.Reaches, MemoryRuns.OthersKept, MemoryRuns.Overlap,
          ProgramImage.FindsProgram,
          ProgramImage.FindsTop, Loader.Loadable, UserStack.Block;
      ghost var p, roots, fds := procs.pcbs[..], space.roots, open.fds[..];
      CoupledAt(p, roots, fds, procs.cur);
      ok, sp, vsp, page, lost := ProgramImage.LoadProgramSpace(space, procs.cur, segments, buf, argv, envp);
      if ok {
        procs.Exec();
        CoupledExec(p, roots, fds, procs.cur, procs.pcbs[procs.cur], space.roots);
      }
    }

    // proc_try_waitpid
    method Wait(parentPid: int, target: int) returns (r: int, outPid: int, outStatus: int, ghost at: nat)
      requires Valid()
      modifies procs.pcbs, procs`history
      ensures Valid() && -1 <= r <= 1 && (r != 1 ==> procs.pcbs[..] == old(procs.pcbs[..]))
      ensures r == 1 ==> IsPid(parentPid) && IsPid(outPid) && at < MAX_SUB_PROCS
      ensures r == 1 ==> procs.pcbs[..] == Taken(old(procs.pcbs[..]), parentPid - 1, at, outPid - 1)
      ensures r == 1 ==> outStatus == old(procs.pcbs[outPid - 1]).exitStatus
      ensures r == -1 <==>
        (!IsPid(parentPid) || if target > 0 then !Lists(old(procs.pcbs[parentPid - 1]), target)
         else Childless(old(procs.pcbs[parentPid - 1])))
      ensures r == 0 && target > 0 ==> IsPid(target) && old(procs.pcbs[target - 1]).state !in {Empty, Zombie}
      ensures r == 0 && target <= 0 ==> NoneFinished(old(procs.pcbs[..]), parentPid - 1, MAX_SUB_PROCS)
      ensures r == 1 ==>
              outPid == old(procs.pcbs[parentPid - 1]).subs[at] && Finished(old(procs.pcbs[..]), outPid)
      ensures r == 1 && target > 0 ==> outPid == target
      ensures r == 1 && target <= 0 ==> NoneFinished(old(procs.pcbs[..]), parentPid - 1, at)
    {
      hide TableOk, Owned, Partition, Later, SameAbandoned, AbandonsListed, EndsOk, FifoOk, FdsOk, RefsOk, Coupled;
      ghost var p := procs.pcbs[..];
      r, outPid, outStatus, at := procs.TryWait(parentPid, target);
      if r == 1 {
        CoupledTaken(p, space.roots, open.fds[..], parentPid - 1, at, outPid - 1);
      }
    }
  }

  predicate NoSlot(p: seq<Pcb>) {
    forall i :: 0 <= i < |p| ==> p[i].state != Empty
  }

  lemma NoPageZero(ram: seq<Sv39.Page>, roots: seq<nat>, kroot: nat, role: map<nat, Role>, free: seq<nat>)
    requires Partition(ram, roots, kroot, role, free)
    ensures 0 !in role
  {
  }

  lemma FdsCopied(fds: seq<int>, fds': seq<int>, i: nat, j: nat)
    requires |fds| == |fds'| == FD_SLOTS && i < NPROC && j < NPROC
    requires forall k :: 0 <= k < MAX_FD ==> fds'[FdAt(j, k)] == fds[FdAt(i, k)]
    ensures SameFds(fds, fds', i, j)
  {
  }

  lemma CoupledAt(p: seq<Pcb>, roots: seq<nat>, fds: seq<int>, i: nat)
    requires Coupled(p, roots, fds) && i < NPROC
    ensures |p| == |roots| == NPROC && |fds| == FD_SLOTS
    ensures (roots[i] != 0 <==> Alive(p[i])) && (!Alive(p[i]) ==> NoFds(fds, i))
  {
  }

  lemma NoFdsAt(fds: seq<int>, i: nat)
    requires |fds| == FD_SLOTS && i < NPROC && NoFds(fds, i)
    ensures forall k :: 0 <= k < MAX_FD ==> fds[FdAt(i, k)] == -1
  {
  }

  // What becomes of the coupling when slot c alone gets or loses a process.
  lemma CoupledElsewhere(p: seq<Pcb>, roots: seq<nat>, fds: seq<int>, p': seq<Pcb>, roots': seq<nat>, fds': seq<int>,
      c: nat)
    requires Coupled(p, roots, fds) && c < NPROC && |p'| == |roots'| == NPROC && |fds'| == FD_SLOTS
    requires forall i :: 0 <= i < NPROC && i != c ==> Alive(p'[i]) == Alive(p[i]) && roots'[i] == roots[i]
    requires FileCalls.OthersKept(fds, fds', c)
    requires (roots'[c] != 0 <==> Alive(p'[c])) && (!Alive(p'[c]) ==> NoFds(fds', c))
    ensures Coupled(p', roots', fds')
  {
    hide FileCalls.OthersKept;
    forall i | 0 <= i < NPROC && !Alive(p'[i])
      ensures NoFds(fds', i)
    {
      if i != c {
        forall k | 0 <= k < MAX_FD
          ensures fds'[FdAt(i, k)] == -1
        {
          OtherFd(fds, fds', c, i, k);
        }
      }
    }
  }

  lemma CoupledForked(p: seq<Pcb>, roots: seq<nat>, fds: seq<int>, i: nat, j: nat, c: nat, child: Pcb, roots': seq<nat>,
      fds': seq<int>)
    requires Coupled(p, roots, fds) && Forks(p, i, j, c) && NewChild(child, i)
    requires |roots'| == NPROC && roots' == roots[c := roots'[c]] && roots'[c] != 0
    requires |fds'| == FD_SLOTS && FileCalls.OthersKept(fds, fds', c)
    ensures Coupled(Forked(p, i, j, c, child), roots', fds')
  {
    CoupledElsewhere(p, roots, fds, Forked(p, i, j, c, child), roots', fds', c);
  }

  lemma CoupledEnded(p: seq<Pcb>, roots: seq<nat>, fds: seq<int>, i: nat, q: Pcb, fds': seq<int>)
    requires Coupled(p, roots, fds) && i < NPROC && !Alive(q)
    requires |fds'| == FD_SLOTS && FileCalls.OthersKept(fds, fds', i) && NoFds(fds', i)
    ensures Coupled(p[i := q], roots[i := 0], fds')
  {
    CoupledElsewhere(p, roots, fds, p[i := q], roots[i := 0], fds', i);
  }

  lemma CoupledExec(p: seq<Pcb>, roots: seq<nat>, fds: seq<int>, i: nat, q: Pcb, roots': seq<nat>)
    requires Coupled(p, roots, fds) && i < NPROC && Alive(q)
    requires |roots'| == NPROC && roots' == roots[i := roots'[i]] && roots'[i] != 0
    ensures Coupled(p[i := q], roots', fds)
  {
    CoupledElsewhere(p, roots, fds, p[i := q], roots', fds, i);
  }

  // A collected zombie had neither pages nor descriptors left.
  lemma CoupledTaken(p: seq<Pcb>, roots: seq<nat>, fds: seq<int>, i: nat, j: nat, c: nat)
    requires Coupled(p, roots, fds) && i < NPROC && c < NPROC && j < MAX_SUB_PROCS && !Alive(p[c])
    ensures Coupled(Taken(p, i, j, c), roots, fds)
  {
    CoupledElsewhere(p, roots, fds, Taken(p, i, j, c), roots, fds, c);
  }
}
