// proc.c's process table in place: fork, exit, kill, wait, sleep and the
// round-robin scheduler.
module Processes {
  import opened ProcFamily

  const KSTACK_BYTES: nat := 0x8000
  const CONTEXT_BYTES: nat := 296
  const TICKS_PER_SEC: nat := 10000000
  const TWO64: nat := 0x1_0000_0000_0000_0000

  // ---- The scheduler's order ----

  predicate Runnable(q: Pcb) {
    q.cp != Null && q.state == Running
  }

  // b is the first runnable slot after a, going round.
  ghost predicate Picks(p: seq<Pcb>, a: nat, b: nat) {
    && |p| == MAX_PROCS
    && exists d :: 1 <= d <= MAX_PROCS && PicksAt(p, a, b, d)
  }

  // (cur_idx + 1 + i) % MAX_PROCS, for i one less than d
  function Round(a: nat, d: nat): (r: nat)
    ensures r < MAX_PROCS
  {
    (a + d) % MAX_PROCS
  }

  predicate PicksAt(p: seq<Pcb>, a: nat, b: nat, d: nat)
    requires |p| == MAX_PROCS
  {
    && b == Round(a, d) && Runnable(p[b])
    && forall e :: 1 <= e < d ==> !Runnable(p[Round(a, e)])
  }

  // How far round slot s is from slot a, from 1 to MAX_PROCS.
  function Distance(a: nat, s: nat): (d: nat)
    requires a < MAX_PROCS && s < MAX_PROCS
    ensures 1 <= d <= MAX_PROCS && Round(a, d) == s
  {
    if s > a then s - a else s + MAX_PROCS - a
  }

  // A runnable process that is not chosen is closer the next time.
  lemma Closer(p: seq<Pcb>, a: nat, b: nat, s: nat)
    requires Picks(p, a, b) && a < MAX_PROCS && s < MAX_PROCS && Runnable(p[s])
    ensures b < MAX_PROCS && (b == s || Distance(b, s) < Distance(a, s))
  {
    var d :| 1 <= d <= MAX_PROCS && PicksAt(p, a, b, d);
    assert d <= Distance(a, s);
  }

  // cur[k + 1] is the schedule's choice after cur[k] among the table tables[k],
  // which everything in between has changed as it likes.
  ghost predicate Run(cur: seq<nat>, tables: seq<seq<Pcb>>) {
    && |cur| == |tables| + 1 && (forall k :: 0 <= k < |cur| ==> cur[k] < MAX_PROCS)
    && forall k :: 0 <= k < |tables| ==> Picks(tables[k], cur[k], cur[k + 1])
  }

  lemma RunTail(cur: seq<nat>, tables: seq<seq<Pcb>>)
    requires Run(cur, tables) && tables != []
    ensures Run(cur[1..], tables[1..])
  {
  }

  // Bounded bypass: a process runnable at every call is chosen within its
  // distance, and so within MAX_PROCS calls.
  lemma {:induction false} BoundedBypass(cur: seq<nat>, tables: seq<seq<Pcb>>, s: nat) returns (k: nat)
    requires Run(cur, tables) && s < MAX_PROCS && |tables| >= Distance(cur[0], s)
    requires forall t :: t in tables ==> |t| == MAX_PROCS && Runnable(t[s])
    ensures 1 <= k <= Distance(cur[0], s) <= MAX_PROCS && k < |cur| && cur[k] == s
    decreases |tables|
  {
    assert Picks(tables[0], cur[0], cur[1]);
    Closer(tables[0], cur[0], cur[1], s);
    if cur[1] == s {
      k := 1;
    } else {
      RunTail(cur, tables);
      k := BoundedBypass(cur[1..], tables[1..], s);
      k := k + 1;
    }
  }

  // ---- Waking ----

  // A sleeper whose time has come.
  function Wake(q: Pcb, now: nat): Pcb {
    if q.state == Sleeping && q.deadline != 0 && now >= q.deadline then q.(deadline := 0, state := Running) else q
  }

  // now + seconds * TICKS_PER_SEC in 64 bits
  function Deadline(now: nat, seconds: nat): (d: nat)
    ensures d < TWO64
  {
    (now + (seconds * TICKS_PER_SEC) % TWO64) % TWO64
  }

  function Asleep(q: Pcb, now: nat, seconds: nat): Pcb {
    q.(deadline := Deadline(now, seconds), state := Sleeping)
  }

  // A sleeper wakes exactly when its seconds are over, unless the deadline
  // passes 64 bits; a deadline that wraps to 0 is never reached, which is as late.
  lemma SleepsLongEnough(q: Pcb, now: nat, seconds: nat)
    requires now < TWO64 && seconds > 0
    ensures (forall t: nat :: t < TWO64 ==>
            (Wake(Asleep(q, now, seconds), t).state == Running <==> t >= now + seconds * TICKS_PER_SEC))
        <==> now + seconds * TICKS_PER_SEC < TWO64 || Deadline(now, seconds) == 0
  {
    var due := now + seconds * TICKS_PER_SEC;
    var z := Asleep(q, now, seconds);
    DeadlineWraps(now, seconds * TICKS_PER_SEC);
    if due >= TWO64 && z.deadline != 0 {
      assert Wake(z, TWO64 - 1).state == Running;
    }
  }

  // It can be far too early: a sleep of 58 thousand years ends within a second.
  lemma SleepsTooShort(q: Pcb)
    ensures Wake(Asleep(q, 0, 1844674407371), TICKS_PER_SEC).state == Running
    ensures TICKS_PER_SEC < 1844674407371 * TICKS_PER_SEC
  {
    assert Deadline(0, 1844674407371) == 448384;
  }

  lemma DeadlineWraps(now: nat, delta: nat)
    requires now < TWO64
    ensures now + delta < TWO64 ==> (now + delta % TWO64) % TWO64 == now + delta
  {
  }

  function Saved(q: Pcb, prev: Cp): Pcb {
    if q.cp != Null then q.(cp := prev) else q
  }

  // ---- What wait looks for ----

  predicate Finished(p: seq<Pcb>, pid: int) {
    0 < pid <= |p| && p[pid - 1].state == Zombie
  }

  // The first process, which nobody forked.
  function Desktop(off: nat): Pcb {
    Pcb(At(off), NO_SUBS, -1, Running, 0, 0)
  }

  class ProcTable {
    const pcbs: array<Pcb>
    var cur: nat  // current_proc - PCBs
    ghost var history: History

    ghost predicate Valid()
      reads this, pcbs
    {
      pcbs.Length == MAX_PROCS && cur < MAX_PROCS && TableOk(pcbs[..], history)
    }

    // init_proc: the desktop in the first slot
    constructor (off: nat)
      ensures Valid() && fresh(pcbs) && cur == 0 && pcbs[0] == Desktop(off)
      ensures forall i :: 1 <= i < MAX_PROCS ==> pcbs[i] == BLANK
      ensures history.delivered == [] && history.exited == map[]
    {
      pcbs := new Pcb[MAX_PROCS](i => if i == 0 then Desktop(off) else BLANK);
      cur := 0;
      history := History([0, 0, 0, 0, 0, 0, 0, 0], 1, map[], map[], []);
      new;
      FirstTable(pcbs[..], off);
    }

    // parent_has_child_pid
    method HasChild(i: nat, pid: int) returns (b: bool)
      requires i < pcbs.Length
      ensures b <==> Lists(pcbs[i], pid)
    {
      for j := 0 to MAX_SUB_PROCS
        invariant forall k :: 0 <= k < j ==> pcbs[i].subs[k] != pid
      {
        if pcbs[i].subs[j] == pid {
          return true;
        }
      }
      return false;
    }

    // add_child_pid
    method AddChild(i: nat, pid: int) returns (ok: bool, ghost at: nat)
      requires i < pcbs.Length
      modifies pcbs
      ensures ok ==> at < MAX_SUB_PROCS && old(pcbs[i].subs[at]) == -1
      ensures ok ==> forall k :: 0 <= k < at ==> old(pcbs[i]).subs[k] != -1
      ensures ok ==> pcbs[..] == old(pcbs[..])[i := old(pcbs[i]).(subs := old(pcbs[i]).subs[at := pid])]
      ensures !ok ==> pcbs[..] == old(pcbs[..]) && !Lists(pcbs[i], -1)
    {
      for j := 0 to MAX_SUB_PROCS
        invariant forall k :: 0 <= k < j ==> pcbs[i].subs[k] != -1
        invariant pcbs[..] == old(pcbs[..])
      {
        if pcbs[i].subs[j] == -1 {
          pcbs[i] := pcbs[i].(subs := pcbs[i].subs[j := pid]);
          return true, j;
        }
      }
      return false, 0;
    }

    // remove_child_pid
    method RemoveChild(i: nat, pid: int, ghost at: nat)
      requires i < pcbs.Length && at < MAX_SUB_PROCS && pcbs[i].subs[at] == pid
      requires forall k :: 0 <= k < at ==> pcbs[i].subs[k] != pid
      modifies pcbs
      ensures pcbs[..] == old(pcbs[..])[i := old(pcbs[i]).(subs := old(pcbs[i]).subs[at := -1])]
    {
      for j := 0 to MAX_SUB_PROCS
        invariant j <= at && pcbs[..] == old(pcbs[..])
      {
        if pcbs[i].subs[j] == pid {
          pcbs[i] := pcbs[i].(subs := pcbs[i].subs[j := -1]);
          return;
        }
      }
    }

    // find_empty_proc_slot
    method FindEmptySlot() returns (c: int)
      requires pcbs.Length == MAX_PROCS
      ensures c == -1 ==> forall i :: 0 <= i < MAX_PROCS ==> pcbs[i].state != Empty
      ensures c != -1 ==> 0 <= c < MAX_PROCS && pcbs[c].state == Empty
      ensures c != -1 ==> forall i :: 0 <= i < c ==> pcbs[i].state != Empty
    {
      for i := 0 to MAX_PROCS
        invariant forall j :: 0 <= j < i ==> pcbs[j].state != Empty
      {
        if pcbs[i].state == Empty {
          return i;
        }
      }
      return -1;
    }

    // terminate_proc
    method Terminate(i: nat, status: int)
      requires Valid() && i < MAX_PROCS
      modifies pcbs, this`history
      ensures Valid() && Later(old(history), history) && history.delivered == old(history.delivered)
      ensures if old(Alive(pcbs[i]) && !Wanted(pcbs[..], i + 1)) then AbandonsListed(old(pcbs[..]), pcbs[..], i)
        else SameAbandoned(old(pcbs[..]), pcbs[..])
      ensures !old(Alive(pcbs[i])) ==> pcbs[..] == old(pcbs[..]) && history == old(history)
      ensures old(Alive(pcbs[i])) ==>
        && pcbs[..] == old(pcbs[..])[i := if Wanted(old(pcbs[..]), i + 1) then Ended(old(pcbs[i]), status) else BLANK]
        && history == old(history).(exited := old(history).exited[old(history).life[i] := status])
    {
      hide Family, Lives, Deliveries, Lists, Wanted, SameAbandoned, AbandonsListed;
      AbandonsNobody(pcbs[..]);
      if pcbs[i].state == Empty || pcbs[i].state == Zombie {
        LaterSelf(history);
        return;
      }
      ghost var p, h := pcbs[..], history;
      if Wanted(p, i + 1) {
        UpdateAbandonsNobody(p, i, Ended(p[i], status));
      } else {
        ResetAbandonsListed(p, i);
      }
      pcbs[i] := pcbs[i].(deadline := 0, cp := Null, exitStatus := status, state := Zombie);
      history := history.(exited := history.exited[history.life[i] := status]);
      EndKeeps(p, h, i, Ended(p[i], status));
      assert pcbs[..] == p[i := Ended(p[i], status)];
      OnlyParentLists(p, i, Ended(p[i], status));
      var listed := false;
      if IsPid(pcbs[i].parent) {
        listed := HasChild(pcbs[i].parent - 1, i + 1);
      }
      if !listed {
        ResetKeeps(pcbs[..], history, i);
        pcbs[i] := BLANK;
        assert pcbs[..] == p[i := BLANK];
      }
    }

    // sys_exit
    method Exit(status: int)
      requires Valid() && Alive(pcbs[cur])
      modifies pcbs, this`history
      ensures Valid() && Later(old(history), history)
      ensures if old(!Wanted(pcbs[..], cur + 1)) then AbandonsListed(old(pcbs[..]), pcbs[..], cur)
        else SameAbandoned(old(pcbs[..]), pcbs[..])
      ensures pcbs[..] == old(pcbs[..])[cur := if Wanted(old(pcbs[..]), cur + 1) then Ended(old(pcbs[cur]), status)
              else BLANK]
      ensures history == old(history).(exited := old(history).exited[old(history).life[cur] := status])
      ensures !Runnable(pcbs[cur])
    {
      hide Family, Lives, Deliveries, Wanted, SameAbandoned, AbandonsListed, Later;
      Terminate(cur, status);
    }

    // proc_kill_pid: sig & 0x7f is sig modulo 128, also for a negative sig
    method Kill(pid: int, sig: int) returns (r: int)
      requires Valid()
      modifies pcbs, this`history
      ensures Valid() && Later(old(history), history)
      ensures r == if !IsPid(pid) || !old(Alive(pcbs[pid - 1])) then -1 else if pid == cur + 1 then 1 else 0
      ensures if r != -1 && !Wanted(old(pcbs[..]), pid) then AbandonsListed(old(pcbs[..]), pcbs[..], pid - 1)
        else SameAbandoned(old(pcbs[..]), pcbs[..])
      ensures r == -1 ==> pcbs[..] == old(pcbs[..]) && history == old(history)
      ensures r != -1 ==>
        pcbs[..] == old(pcbs[..])[pid - 1 := if Wanted(old(pcbs[..]), pid)
            then Ended(old(pcbs[pid - 1]), 128 + sig % 128) else BLANK]
      ensures r != -1 ==>
              history == old(history).(exited := old(history).exited[old(history).life[pid - 1] := 128 + sig % 128])
    {
      hide Lives, Deliveries, Wanted, SameAbandoned, AbandonsListed, Later;
      LaterSelf(history);
      AbandonsNobody(pcbs[..]);
      if !IsPid(pid) {
        return -1;
      }
      var target := pid - 1;
      assert SlotOk(pcbs[..], target);
      if pcbs[target].state == Empty || pcbs[target].state == Zombie || pcbs[target].cp == Null {
        return -1;
      }
      var status := 128 + sig % 128;
      Terminate(target, status);
      return if target == cur then 1 else 0;
    }

    // proc_fork_current. `cloned` says whether the pages could be copied, ctxOff
    // is where the caller's context lies in its kernel stack.
    method Fork(cloned: bool, ctxOff: int) returns (r: int, ghost at: nat)
      requires Valid() && pcbs[cur].state == Running
      modifies pcbs, this`history
      ensures Valid() && Later(old(history), history) && SameAbandoned(old(pcbs[..]), pcbs[..])
      ensures r == -1 ==> pcbs[..] == old(pcbs[..]) && history == old(history)
      ensures r == -1 <==> (
        || (forall i :: 0 <= i < MAX_PROCS ==> old(pcbs[i]).state != Empty)
        || !Lists(old(pcbs[cur]), -1) || !cloned || !(0 <= ctxOff <= KSTACK_BYTES - CONTEXT_BYTES))
      ensures r != -1 ==> IsPid(r) && r != cur + 1 && Forks(old(pcbs[..]), cur, at, r - 1)
      ensures r != -1 ==> forall i :: 0 <= i < r - 1 ==> old(pcbs[i]).state != Empty
      ensures r != -1 ==> forall k :: 0 <= k < at ==> old(pcbs[cur]).subs[k] != -1
      ensures r != -1 ==>
              pcbs[..] == Forked(old(pcbs[..]), cur, at, r - 1, Pcb(At(ctxOff), NO_SUBS, cur + 1, Running, 0, 0))
      ensures r != -1 ==> history == Born(old(history), cur, r - 1)
    {
      hide Family, Lives, Deliveries, Wanted, SameAbandoned, AbandonsListed, Later;
      LaterSelf(history);
      AbandonsNobody(pcbs[..]);
      at := 0;
      var c := FindEmptySlot();
      if c < 0 {
        return -1, 0;
      }
      ghost var p, h := pcbs[..], history;
      FamilyChild(p, c, cur);
      var ok;
      ok, at := AddChild(cur, c + 1);
      if !ok {
        return -1, 0;
      }
      pcbs[c] := Pcb(Null, NO_SUBS, cur + 1, Running, 0, 0);
      if !cloned || ctxOff < 0 || ctxOff > KSTACK_BYTES - CONTEXT_BYTES {
        pcbs[c] := BLANK;
        RemoveChild(cur, c + 1, at);
        assert pcbs[cur].subs == p[cur].subs;
        assert pcbs[..] == p;
        return -1, 0;
      }
      var child := Pcb(At(ctxOff), NO_SUBS, cur + 1, Running, 0, 0);
      pcbs[c] := child;
      history := Born(history, cur, c);
      ForkKeeps(p, h, cur, at, c, child);
      ForkAbandonsNobody(p, cur, at, c, child);
      assert pcbs[..] == Forked(p, cur, at, c, child);
      assert pcbs[cur].subs[at] == c + 1;
      return c + 1, at;
    }

    // proc_try_waitpid: -1 without a child to wait for, 0 while none has ended,
    // else the wanted child or, with any child wanted, the first in the list that has.
    method TryWait(parentPid: int, target: int) returns (r: int, outPid: int, outStatus: int, ghost at: nat)
      requires Valid()
      modifies pcbs, this`history
      ensures Valid() && Later(old(history), history) && (r != 1 ==> SameAbandoned(old(pcbs[..]), pcbs[..]))
      ensures -1 <= r <= 1
      ensures r == -1 <==>
        (!IsPid(parentPid) || if target > 0 then !Lists(old(pcbs[parentPid - 1]), target)
         else Childless(old(pcbs[parentPid - 1])))
      ensures r == 0 && target > 0 ==> IsPid(target) && old(pcbs[target - 1]).state !in {Empty, Zombie}
      ensures r == 0 && target <= 0 ==> NoneFinished(old(pcbs[..]), parentPid - 1, MAX_SUB_PROCS)
      ensures r != 1 ==> pcbs[..] == old(pcbs[..]) && history == old(history)
      ensures r == 1 ==> IsPid(parentPid) && at < MAX_SUB_PROCS && outPid == old(pcbs[parentPid - 1]).subs[at]
      ensures r == 1 ==> Finished(old(pcbs[..]), outPid) && outStatus == old(pcbs[outPid - 1]).exitStatus
      ensures r == 1 && target > 0 ==> outPid == target
      ensures r == 1 && target <= 0 ==> NoneFinished(old(pcbs[..]), parentPid - 1, at)
      ensures r == 1 ==> pcbs[..] == Taken(old(pcbs[..]), parentPid - 1, at, outPid - 1)
      ensures r == 1 ==> history == Delivered(old(history), parentPid - 1, outPid - 1, outStatus)
      ensures r == 1 ==> AbandonsListed(old(pcbs[..]), pcbs[..], outPid - 1)
    {
      hide Family, Lives, Deliveries, Wanted, SameAbandoned, AbandonsListed, Later;
      LaterSelf(history);
      AbandonsNobody(pcbs[..]);
      outPid, outStatus, at := -1, 0, 0;
      if parentPid <= 0 || parentPid > MAX_PROCS {
        return -1, outPid, outStatus, 0;
      }
      var i := parentPid - 1;
      var hasMatch := false;
      ghost var p, h := pcbs[..], history;
      for j := 0 to MAX_SUB_PROCS
        invariant pcbs[..] == p && history == h
        invariant target > 0 ==> (hasMatch <==> exists k :: 0 <= k < j && p[i].subs[k] == target)
        invariant target <= 0 ==> (hasMatch <==> exists k :: 0 <= k < j && p[i].subs[k] > 0)
        invariant forall k :: 0 <= k < j && (target <= 0 || p[i].subs[k] == target) ==> !Finished(p, p[i].subs[k])
      {
        var child := pcbs[i].subs[j];
        if child <= 0 {
          continue;
        }
        if target > 0 && child != target {
          continue;
        }
        hasMatch := true;
        ListedIsPid(p, i, j);
        if pcbs[child - 1].state == Zombie {
          outPid, outStatus, at := child, pcbs[child - 1].exitStatus, j;
          FirstOfList(p, i, j);
          TakeKeeps(p, h, i, j, child - 1);
          ListerLives(p, i, child);
          TakeAbandonsListed(p, i, j, child - 1);
          RemoveChild(i, child, j);
          pcbs[child - 1] := BLANK;
          history := Delivered(history, i, child - 1, outStatus);
          assert pcbs[..] == Taken(p, i, j, child - 1);
          return 1, outPid, outStatus, at;
        }
      }
      if hasMatch && target > 0 {
        ListedOccupied(p, i, target);
      }
      r := if hasMatch then 0 else -1;
    }

    // proc_sleep_current
    method Sleep(seconds: nat, now: nat)
      requires Valid() && pcbs[cur].state == Running
      modifies pcbs
      ensures Valid() && SameAbandoned(old(pcbs[..]), pcbs[..])
      ensures pcbs[..] == if seconds == 0 then old(pcbs[..])
              else old(pcbs[..])[cur := Asleep(old(pcbs[cur]), now, seconds)]
    {
      hide Family, Lives, Deliveries, Wanted, SameAbandoned;
      AbandonsNobody(pcbs[..]);
      if seconds == 0 {
        return;
      }
      ghost var p := pcbs[..];
      HasContext(p, cur);
      var delta := (seconds * TICKS_PER_SEC) % TWO64;
      pcbs[cur] := pcbs[cur].(deadline := (now + delta) % TWO64, state := Sleeping);
      LiveKeeps(p, history, cur, pcbs[cur]);
      UpdateAbandonsNobody(p, cur, pcbs[cur]);
      assert pcbs[..] == p[cur := pcbs[cur]];
    }

    // The end of execve: a new context at the top of the kernel stack.
    method Exec()
      requires Valid() && pcbs[cur].state == Running
      modifies pcbs
      ensures Valid() && SameAbandoned(old(pcbs[..]), pcbs[..])
      ensures pcbs[..] == old(pcbs[..])[cur := old(pcbs[cur]).(cp := At(KSTACK_BYTES - CONTEXT_BYTES))]
    {
      hide Family, Lives, Deliveries, Wanted, SameAbandoned;
      ghost var p := pcbs[..];
      pcbs[cur] := pcbs[cur].(cp := At(KSTACK_BYTES - CONTEXT_BYTES), state := Running);
      LiveKeeps(p, history, cur, pcbs[cur]);
      UpdateAbandonsNobody(p, cur, pcbs[cur]);
      assert pcbs[..] == p[cur := pcbs[cur]];
    }

    // schedule; it panics when nothing is runnable.
    method Schedule(off: nat, now: nat) returns (ok: bool)
      requires Valid()
      modifies pcbs, this`cur
      ensures Valid() && SameAbandoned(old(pcbs[..]), pcbs[..])
      ensures |pcbs[..]| == MAX_PROCS
      ensures pcbs[..] == Woken(old(pcbs[..])[old(cur) := Saved(old(pcbs[cur]), At(off))], now, MAX_PROCS)
      ensures ok ==> Picks(pcbs[..], old(cur), cur) && pcbs[cur].state == Running && pcbs[cur].cp != Null
      ensures ok ==> forall i :: 0 <= i < MAX_PROCS && pcbs[i].state == Running ==>
              if old(cur) < cur then !(old(cur) < i < cur) else cur <= i <= old(cur)
      ensures !ok ==> cur == old(cur) && forall i :: 0 <= i < MAX_PROCS ==> pcbs[i].state != Running
    {
      hide Family, Lives, Deliveries, Wanted, SameAbandoned;
      SaveContext(off);
      ghost var p := pcbs[..];
      WakeAll(now);
      ghost var w := pcbs[..];
      AbandonedTwice(old(pcbs[..]), p, w);
      for i := 0 to MAX_PROCS
        invariant pcbs[..] == w
        invariant forall e :: 1 <= e <= i ==> !Runnable(w[Round(cur, e)])
      {
        var idx := (cur + 1 + i) % MAX_PROCS;
        if pcbs[idx].cp != Null && pcbs[idx].state == Running {
          assert PicksAt(w, cur, idx, i + 1);
          PickedFirst(w, cur, idx);
          cur := idx;
          return true;
        }
      }
      AllRound(w, cur);
      RunningIsRunnable(w);
      return false;
    }

    method SaveContext(off: nat)
      requires Valid()
      modifies pcbs
      ensures Valid() && SameAbandoned(old(pcbs[..]), pcbs[..])
      ensures pcbs[..] == old(pcbs[..])[cur := Saved(old(pcbs[cur]), At(off))]
    {
      hide Family, Lives, Deliveries, Wanted, SameAbandoned;
      ghost var p := pcbs[..];
      AbandonsNobody(p);
      HasContext(p, cur);
      if pcbs[cur].cp != Null {
        pcbs[cur] := pcbs[cur].(cp := At(off));
        LiveKeeps(p, history, cur, pcbs[cur]);
        UpdateAbandonsNobody(p, cur, pcbs[cur]);
      }
      assert pcbs[..] == p[cur := Saved(p[cur], At(off))];
    }

    method WakeAll(now: nat)
      requires Valid()
      modifies pcbs
      ensures Valid() && SameAbandoned(old(pcbs[..]), pcbs[..])
      ensures pcbs[..] == Woken(old(pcbs[..]), now, MAX_PROCS)
    {
      hide Family, Lives, Deliveries, Wanted, SameAbandoned;
      ghost var p := pcbs[..];
      AbandonsNobody(p);
      for i := 0 to MAX_PROCS
        invariant Valid() && SameAbandoned(p, pcbs[..])
        invariant pcbs[..] == Woken(p, now, i)
      {
        ghost var before := pcbs[..];
        HasContext(before, i);
        if pcbs[i].state == Sleeping && pcbs[i].deadline != 0 && now >= pcbs[i].deadline {
          pcbs[i] := pcbs[i].(deadline := 0, state := Running);
          LiveKeeps(before, history, i, pcbs[i]);
          UpdateAbandonsNobody(before, i, pcbs[i]);
          AbandonedTwice(p, before, before[i := pcbs[i]]);
          assert pcbs[..] == before[i := pcbs[i]];
        }
        assert pcbs[..] == Woken(p, now, i + 1);
      }
    }
  }

  lemma Turn(p: seq<Pcb>, a: nat, s: nat, b: nat)
    requires |p| == MAX_PROCS && a < MAX_PROCS && s < MAX_PROCS && Distance(a, s) == 1 && Runnable(p[s])
    requires Picks(p, a, b) || forall i :: 0 <= i < MAX_PROCS ==> !Runnable(p[i])
    ensures b == s
  {
    assert Round(a, 1) == s;
  }

  // A run that loses a slot for good: the desktop's child forks, that child is
  // killed, and the desktop collects its child before its child has waited.
  method AbandonedRun(off: nat, now: nat) returns (t: ProcTable)
    requires off <= KSTACK_BYTES - CONTEXT_BYTES
    ensures t.Valid() && Abandoned(t.pcbs[..], 2)
  {
    hide TableOk, Later, SameAbandoned, AbandonsListed;
    t := new ProcTable(off);
    assert t.pcbs[0].subs[0] == -1 && t.pcbs[1] == BLANK && t.pcbs[2] == BLANK;
    var r, j := t.Fork(true, off);
    assert r == 2 && t.pcbs[1] == Pcb(At(off), NO_SUBS, 1, Running, 0, 0);
    assert t.pcbs[0].subs[0] == 2 && t.pcbs[2] == BLANK;
    var ok := t.Schedule(off, now);
    Turn(t.pcbs[..], 0, 1, t.cur);
    Grandchild(t, off);
    Collected(t);
  }

  // The second process ends, and the first one, which listed it, collects it.
  method Collected(t: ProcTable)
    requires t.Valid() && t.cur == 1 && t.pcbs[0].subs == [2, -1, -1, -1]
    requires Alive(t.pcbs[1]) && Lists(t.pcbs[1], 3) && t.pcbs[2].state == Zombie
    modifies t.pcbs, t`history
    ensures t.Valid() && Abandoned(t.pcbs[..], 2)
  {
    hide TableOk, Later, SameAbandoned;
    assert t.pcbs[..][0].subs[0] == 2;
    assert Lists(t.pcbs[..][0], 2) && Wanted(t.pcbs[..], 2);
    t.Exit(0);
    ghost var p := t.pcbs[..];
    assert p[0].subs[0] == 2 && Finished(p, 2) && Lists(p[1], 3);
    var r, pid, status, at := t.TryWait(1, 0);
    assert r == 1 && pid == 2;
  }

  // The second process forks the third, which is killed.
  method Grandchild(t: ProcTable, off: nat)
    requires t.Valid() && t.cur == 1 && off <= KSTACK_BYTES - CONTEXT_BYTES
    requires t.pcbs[1] == Pcb(At(off), NO_SUBS, 1, Running, 0, 0) && t.pcbs[2] == BLANK
    requires t.pcbs[0].subs == [2, -1, -1, -1] && Alive(t.pcbs[0])
    modifies t.pcbs, t`history
    ensures t.Valid() && t.pcbs[0] == old(t.pcbs[0])
    ensures Alive(t.pcbs[1]) && Lists(t.pcbs[1], 3) && t.pcbs[2].state == Zombie
  {
    hide TableOk, Later, SameAbandoned, AbandonsListed;
    assert t.pcbs[1].subs[0] == -1 && t.pcbs[0].state != Empty;
    var r, j := t.Fork(true, off);
    assert r == 3 && t.pcbs[1].subs[0] == 3;
    assert t.pcbs[..][1] == t.pcbs[1];
    assert Wanted(t.pcbs[..], 3);
    r := t.Kill(3, 9);
    assert t.pcbs[1].subs[0] == 3;
  }

  // The first n slots woken.
  function Woken(p: seq<Pcb>, now: nat, n: nat): (w: seq<Pcb>)
    ensures |w| == |p|
    ensures forall i :: 0 <= i < |p| ==> w[i] == if i < n then Wake(p[i], now) else p[i]
  {
    seq(|p|, i requires 0 <= i < |p| => if i < n then Wake(p[i], now) else p[i])
  }

  predicate Childless(q: Pcb) {
    forall k :: 0 <= k < MAX_SUB_PROCS ==> q.subs[k] <= 0
  }

  // None of the first n children in slot i's list has ended.
  predicate NoneFinished(p: seq<Pcb>, i: nat, n: nat)
    requires i < |p| && n <= MAX_SUB_PROCS
  {
    forall k :: 0 <= k < n ==> !Finished(p, p[i].subs[k])
  }

  // proc_state and the fields terminate_proc clears
  function Ended(q: Pcb, status: int): Pcb {
    q.(deadline := 0, cp := Null, exitStatus := status, state := Zombie)
  }

  lemma LaterSelf(h: History)
    ensures Later(h, h)
  {
  }

  lemma FirstTable(p: seq<Pcb>, off: nat)
    requires |p| == MAX_PROCS && p[0] == Desktop(off)
    requires forall i :: 1 <= i < MAX_PROCS ==> p[i] == BLANK
    ensures TableOk(p, History([0, 0, 0, 0, 0, 0, 0, 0], 1, map[], map[], []))
  {
    FirstLists(p);
    hide Lists;
    forall i | 0 <= i < MAX_PROCS
      ensures SlotOk(p, i)
    {
      assert p[i].subs == NO_SUBS;
    }
  }

  lemma FirstLists(p: seq<Pcb>)
    requires forall i :: 0 <= i < |p| ==> p[i].subs == NO_SUBS
    ensures forall i, pid {:trigger Lists(p[i], pid)} :: 0 <= i < |p| && IsPid(pid) ==> !Lists(p[i], pid)
  {
  }

  // Asking the recorded parent is asking everybody.
  lemma OnlyParentLists(p: seq<Pcb>, i: nat, q: Pcb)
    requires Family(p) && i < MAX_PROCS && q.subs == p[i].subs && q.parent == p[i].parent
    ensures Wanted(p, i + 1) <==> Wanted(p[i := q], i + 1)
    ensures Wanted(p, i + 1) <==> IsPid(q.parent) && Lists(p[i := q][q.parent - 1], i + 1)
  {
    var u := p[i := q];
    SameLists(p, i, q);
    if a :| 0 <= a < |p| && Lists(p[a], i + 1) {
      assert ChildOk(p, a, i + 1);
      assert Lists(u[a], i + 1);
    }
    if a :| 0 <= a < |u| && Lists(u[a], i + 1) {
      assert Lists(p[a], i + 1);
    }
  }

  lemma AbandonsNobody(p: seq<Pcb>)
    ensures SameAbandoned(p, p)
  {
  }

  // An empty slot is blank, and nobody lists it.
  lemma FamilyChild(p: seq<Pcb>, c: nat, i: nat)
    requires Family(p) && c < MAX_PROCS && i < MAX_PROCS && p[c].state == Empty
    ensures p[c] == BLANK && forall k :: 0 <= k < MAX_SUB_PROCS ==> p[i].subs[k] != c + 1
  {
    assert SlotOk(p, c);
    NotListedYet(p, i, c);
  }

  lemma HasContext(p: seq<Pcb>, i: nat)
    requires Family(p) && i < MAX_PROCS
    ensures p[i].cp != Null <==> Alive(p[i])
  {
    assert SlotOk(p, i);
  }

  lemma ListedIsPid(p: seq<Pcb>, i: nat, j: nat)
    requires Family(p) && i < MAX_PROCS && j < MAX_SUB_PROCS && p[i].subs[j] > 0
    ensures IsPid(p[i].subs[j])
  {
    assert SlotOk(p, i);
  }

  lemma ListerLives(p: seq<Pcb>, i: nat, pid: int)
    requires Family(p) && i < MAX_PROCS && IsPid(pid) && Lists(p[i], pid)
    ensures p[i].state != Empty && pid != i + 1
  {
    assert SlotOk(p, i) && ChildOk(p, i, pid);
  }

  lemma ListedOccupied(p: seq<Pcb>, i: nat, pid: int)
    requires Family(p) && i < MAX_PROCS && pid > 0 && Lists(p[i], pid)
    ensures IsPid(pid) && p[pid - 1].state != Empty
  {
    assert SlotOk(p, i) && ChildOk(p, i, pid);
  }

  lemma FirstOfList(p: seq<Pcb>, i: nat, j: nat)
    requires Family(p) && i < MAX_PROCS && j < MAX_SUB_PROCS && p[i].subs[j] > 0
    ensures forall k :: 0 <= k < j ==> p[i].subs[k] != p[i].subs[j]
  {
    assert SlotOk(p, i);
  }

  lemma AbandonedTwice(p: seq<Pcb>, u: seq<Pcb>, w: seq<Pcb>)
    requires SameAbandoned(p, u) && SameAbandoned(u, w)
    ensures SameAbandoned(p, w)
  {
  }

  lemma RunningIsRunnable(p: seq<Pcb>)
    requires Family(p)
    ensures forall i :: 0 <= i < |p| ==> (Runnable(p[i]) <==> p[i].state == Running)
  {
    forall i | 0 <= i < |p|
      ensures Runnable(p[i]) <==> p[i].state == Running
    {
      assert SlotOk(p, i);
    }
  }

  // Whoever runs or could run is not between the last slot chosen and the next.
  lemma PickedFirst(p: seq<Pcb>, a: nat, b: nat)
    requires Family(p) && a < MAX_PROCS && Picks(p, a, b)
    ensures b < MAX_PROCS && forall i :: 0 <= i < MAX_PROCS && p[i].state == Running ==>
        if a < b then !(a < i < b) else b <= i <= a
  {
    RunningIsRunnable(p);
    hide Family;
    var d :| 1 <= d <= MAX_PROCS && PicksAt(p, a, b, d);
    forall i | 0 <= i < MAX_PROCS && p[i].state == Running
      ensures if a < b then !(a < i < b) else b <= i <= a
    {
      assert Round(a, Distance(a, i)) == i;
    }
  }

  lemma AllRound(p: seq<Pcb>, a: nat)
    requires |p| == MAX_PROCS && a < MAX_PROCS && forall e :: 1 <= e <= MAX_PROCS ==> !Runnable(p[Round(a, e)])
    ensures forall i :: 0 <= i < MAX_PROCS ==> !Runnable(p[i])
  {
    forall i | 0 <= i < MAX_PROCS
      ensures !Runnable(p[i])
    {
      assert !Runnable(p[Round(a, Distance(a, i))]);
    }
  }
}
