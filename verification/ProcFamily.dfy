// The process table as a value: which slots are occupied, who forked whom, and
// which exit status has been handed to whom.
module ProcFamily {

  import Limits

  const MAX_PROCS: nat := Limits.MAX_PROCS
  const MAX_SUB_PROCS: nat := 4

  datatype State = Empty | Running | Sleeping | Zombie

  // A saved context, by its offset in the process's kernel stack.
  datatype Cp = Null | At(off: nat)

  type Subs = s: seq<int> | |s| == MAX_SUB_PROCS witness [-1, -1, -1, -1]

  datatype Pcb = Pcb(cp: Cp, subs: Subs, parent: int, state: State, exitStatus: int, deadline: nat)

  const NO_SUBS: Subs := [-1, -1, -1, -1]

  // reset_pcb_slot
  const BLANK: Pcb := Pcb(Null, NO_SUBS, -1, Empty, 0, 0)

  predicate Alive(q: Pcb) {
    q.state == Running || q.state == Sleeping
  }

  // pcb_from_pid succeeds.
  predicate IsPid(pid: int) {
    0 < pid <= MAX_PROCS
  }

  // parent_has_child_pid
  predicate Lists(q: Pcb, pid: int) {
    exists j :: 0 <= j < |q.subs| && q.subs[j] == pid
  }

  // Some process lists pid as its child.
  predicate Wanted(p: seq<Pcb>, pid: int) {
    exists i :: 0 <= i < |p| && Lists(p[i], pid)
  }

  predicate SlotOk(p: seq<Pcb>, i: nat)
    requires i < |p|
  {
    var q := p[i];
    && (q.cp != Null <==> Alive(q))
    && (q.state == Empty ==> q == BLANK)
    && (forall j :: 0 <= j < MAX_SUB_PROCS ==> q.subs[j] == -1 || IsPid(q.subs[j]))
    && (forall j, k :: 0 <= j < k < MAX_SUB_PROCS && q.subs[j] == q.subs[k] ==> q.subs[j] == -1)
  }

  // A pid in a list names an occupied slot whose parent is the list's owner.
  predicate ChildOk(p: seq<Pcb>, i: nat, pid: int)
    requires i < |p|
  {
    IsPid(pid) && Lists(p[i], pid) ==>
        pid <= |p| && p[pid - 1].state != Empty && p[pid - 1].parent == i + 1 && pid != i + 1
  }

  ghost predicate Family(p: seq<Pcb>) {
    && |p| == MAX_PROCS
    && (forall i :: 0 <= i < MAX_PROCS ==> SlotOk(p, i))
    && (forall i, pid :: 0 <= i < MAX_PROCS && IsPid(pid) ==> ChildOk(p, i, pid))
  }

  // A child is listed once, by one process.
  lemma ListedOnce(p: seq<Pcb>, i: nat, j: nat, i': nat, j': nat)
    requires Family(p) && i < MAX_PROCS && i' < MAX_PROCS && j < MAX_SUB_PROCS && j' < MAX_SUB_PROCS
    requires p[i].subs[j] == p[i'].subs[j'] != -1
    ensures i == i' && j == j'
  {
    var pid := p[i].subs[j];
    assert SlotOk(p, i) && SlotOk(p, i');
    assert Lists(p[i], pid) && Lists(p[i'], pid);
    assert ChildOk(p, i, pid) && ChildOk(p, i', pid);
  }

  // ---- Lives: a slot is used again and again, each time by another process ----

  // One hand-over of an exit status.
  datatype Delivery = Delivery(child: nat, status: int, receiver: nat)

  // life[i]: the process in slot i; creator: who forked it; exited: the status
  // of each process that has ended.
  datatype History = History(life: seq<nat>, next: nat, creator: map<nat, nat>, exited: map<nat, int>,
      delivered: seq<Delivery>)

  ghost predicate Lives(p: seq<Pcb>, h: History)
    requires |p| == MAX_PROCS
  {
    && |h.life| == MAX_PROCS
    && (forall i :: 0 <= i < MAX_PROCS && p[i].state != Empty ==> h.life[i] < h.next)
    && (forall i, j :: 0 <= i < j < MAX_PROCS && p[i].state != Empty && p[j].state != Empty ==> h.life[i] != h.life[j])
    && (forall i, pid :: 0 <= i < MAX_PROCS && IsPid(pid) && Lists(p[i], pid) ==>
          h.life[pid - 1] in h.creator && h.creator[h.life[pid - 1]] == h.life[i])
    && (forall i :: 0 <= i < MAX_PROCS && p[i].state == Zombie ==>
        h.life[i] in h.exited && h.exited[h.life[i]] == p[i].exitStatus)
    && (forall i :: 0 <= i < MAX_PROCS && Alive(p[i]) ==> h.life[i] !in h.exited)
  }

  // Each process's status is handed over at most once, unchanged, and only to
  // the process that forked it, after it ended and left its slot.
  ghost predicate Deliveries(p: seq<Pcb>, h: History)
    requires |p| == MAX_PROCS
  {
    && |h.life| == MAX_PROCS
    && (forall x :: x in h.exited ==> x < h.next)
    && (forall x :: x in h.creator ==> x < h.next)
    && (forall d :: d in h.delivered ==>
          d.child in h.exited && h.exited[d.child] == d.status && d.child in h.creator
              && h.creator[d.child] == d.receiver)
    && (forall k, m :: 0 <= k < m < |h.delivered| ==> h.delivered[k].child != h.delivered[m].child)
    && (forall d, i :: d in h.delivered && 0 <= i < MAX_PROCS && p[i].state != Empty ==> h.life[i] != d.child)
  }

  // Nothing a process has received or created is taken back.
  ghost predicate Later(h: History, h': History) {
    && h.delivered <= h'.delivered && h.next <= h'.next
    && (forall x :: x in h.exited ==> x in h'.exited && h'.exited[x] == h.exited[x])
    && (forall x :: x in h.creator ==> x in h'.creator && h'.creator[x] == h.creator[x])
  }

  ghost predicate TableOk(p: seq<Pcb>, h: History) {
    |h.life| == MAX_PROCS && Family(p) && Lives(p, h) && Deliveries(p, h)
  }

  // ---- Steps ----

  // A slot nobody lists is emptied; its own children become orphans.
  lemma ResetKeeps(p: seq<Pcb>, h: History, i: nat)
    requires TableOk(p, h) && i < MAX_PROCS && !Wanted(p, i + 1)
    ensures TableOk(p[i := BLANK], h)
  {
    ResetKeepsFamily(p, i);
    ResetLists(p, i);
    hide Family, Wanted, ChildOk, SlotOk, Lists;
  }

  lemma ResetLists(p: seq<Pcb>, i: nat)
    requires i < |p|
    ensures forall a, pid {:trigger Lists(p[i := BLANK][a], pid)} {:trigger Lists(p[a], pid)} ::
            0 <= a < |p| && IsPid(pid) ==>
        (Lists(p[i := BLANK][a], pid) <==> Lists(p[a], pid) && a != i)
  {
  }

  lemma ResetKeepsFamily(p: seq<Pcb>, i: nat)
    requires Family(p) && i < MAX_PROCS && !Wanted(p, i + 1)
    ensures Family(p[i := BLANK])
  {
    var u := p[i := BLANK];
    ResetLists(p, i);
    forall a, pid | 0 <= a < MAX_PROCS && IsPid(pid)
      ensures ChildOk(u, a, pid)
    {
      assert ChildOk(p, a, pid);
    }
    forall a | 0 <= a < MAX_PROCS
      ensures SlotOk(u, a)
    {
      assert SlotOk(p, a);
    }
  }

  // A change that leaves lists, parents and occupancy alone.
  predicate SameFamily(q: Pcb, q': Pcb) {
    && q'.subs == q.subs && q'.parent == q.parent && q.state != Empty && q'.state != Empty
    && (q'.cp != Null <==> Alive(q'))
  }

  lemma UpdateKeepsFamily(p: seq<Pcb>, i: nat, q: Pcb)
    requires Family(p) && i < MAX_PROCS && SameFamily(p[i], q)
    ensures Family(p[i := q])
  {
    var u := p[i := q];
    forall a, pid | 0 <= a < MAX_PROCS && IsPid(pid)
      ensures ChildOk(u, a, pid)
    {
      assert ChildOk(p, a, pid);
      assert Lists(u[a], pid) == Lists(p[a], pid);
    }
    forall a | 0 <= a < MAX_PROCS
      ensures SlotOk(u, a)
    {
      assert SlotOk(p, a);
    }
  }

  // A live process stays alive: it sleeps, wakes, or saves its context.
  lemma LiveKeeps(p: seq<Pcb>, h: History, i: nat, q: Pcb)
    requires TableOk(p, h) && i < MAX_PROCS && SameFamily(p[i], q) && Alive(p[i]) && Alive(q)
    ensures TableOk(p[i := q], h)
  {
    UpdateKeepsFamily(p, i, q);
    SameLists(p, i, q);
  }

  lemma SameLists(p: seq<Pcb>, i: nat, q: Pcb)
    requires i < |p| && q.subs == p[i].subs
    ensures forall a, pid {:trigger Lists(p[i := q][a], pid)} :: 0 <= a < |p| ==>
            Lists(p[i := q][a], pid) == Lists(p[a], pid)
  {
  }

  // A live process ends.
  lemma EndKeeps(p: seq<Pcb>, h: History, i: nat, q: Pcb)
    requires TableOk(p, h) && i < MAX_PROCS && SameFamily(p[i], q) && Alive(p[i]) && q.state == Zombie
    ensures TableOk(p[i := q], h.(exited := h.exited[h.life[i] := q.exitStatus]))
    ensures Later(h, h.(exited := h.exited[h.life[i] := q.exitStatus]))
  {
    UpdateKeepsFamily(p, i, q);
    SameLists(p, i, q);
  }

  // A parent takes the status of a zombie it lists, and the slot is emptied.
  function Taken(p: seq<Pcb>, i: nat, j: nat, c: nat): seq<Pcb>
    requires i < |p| && c < |p| && j < |p[i].subs|
  {
    p[i := p[i].(subs := p[i].subs[j := -1])][c := BLANK]
  }

  function Delivered(h: History, i: nat, c: nat, status: int): History
    requires i < |h.life| && c < |h.life|
  {
    h.(delivered := h.delivered + [Delivery(h.life[c], status, h.life[i])])
  }

  lemma TakeKeeps(p: seq<Pcb>, h: History, i: nat, j: nat, c: nat)
    requires TableOk(p, h) && i < MAX_PROCS && j < MAX_SUB_PROCS && c < MAX_PROCS
    requires p[i].subs[j] == c + 1 && p[c].state == Zombie
    ensures i != c && TableOk(Taken(p, i, j, c), Delivered(h, i, c, p[c].exitStatus))
    ensures Later(h, Delivered(h, i, c, p[c].exitStatus))
  {
    var u, g := Taken(p, i, j, c), Delivered(h, i, c, p[c].exitStatus);
    assert Lists(p[i], c + 1) && ChildOk(p, i, c + 1) && SlotOk(p, i);
    TakeKeepsFamily(p, i, j, c);
    FewerLists(p, i, j, c);
    assert h.life[(c + 1) - 1] in h.creator && h.creator[h.life[(c + 1) - 1]] == h.life[i];
    hide Family, ChildOk, SlotOk, Lists, Lives, Deliveries;
    LivesFewer(p, u, h, g);
    DeliversOne(p, u, h, i, c);
  }

  // Emptying slots and shortening lists keeps what the others' lives say.
  lemma LivesFewer(p: seq<Pcb>, u: seq<Pcb>, h: History, g: History)
    requires |p| == |u| == MAX_PROCS && Lives(p, h) && g == h.(delivered := g.delivered)
    requires forall a :: 0 <= a < MAX_PROCS ==>
            u[a].state == Empty || (u[a].state == p[a].state && u[a].exitStatus == p[a].exitStatus)
    requires forall a, pid {:trigger Lists(u[a], pid)} :: 0 <= a < MAX_PROCS && IsPid(pid) && Lists(u[a], pid) ==>
            Lists(p[a], pid)
    ensures Lives(u, g)
  {
    hide Lists;
  }

  lemma DeliversOne(p: seq<Pcb>, u: seq<Pcb>, h: History, i: nat, c: nat)
    requires |p| == |u| == MAX_PROCS && Lives(p, h) && Deliveries(p, h) && i < MAX_PROCS && c < MAX_PROCS
    requires p[c].state == Zombie && h.life[c] in h.creator && h.creator[h.life[c]] == h.life[i]
    requires u[c].state == Empty && forall a :: 0 <= a < MAX_PROCS ==> u[a].state == Empty || u[a].state == p[a].state
    ensures Deliveries(u, Delivered(h, i, c, p[c].exitStatus))
    ensures Later(h, Delivered(h, i, c, p[c].exitStatus))
  {
    hide Lists;
    assert h.life[c] in h.exited && h.exited[h.life[c]] == p[c].exitStatus;
    var g := Delivered(h, i, c, p[c].exitStatus);
    forall d | d in g.delivered
      ensures d in h.delivered || d == Delivery(h.life[c], p[c].exitStatus, h.life[i])
    {
    }
  }

  // Afterwards lists are as before without the pid taken.
  lemma FewerLists(p: seq<Pcb>, i: nat, j: nat, c: nat)
    requires Family(p) && i < MAX_PROCS && j < MAX_SUB_PROCS && c < MAX_PROCS && p[i].subs[j] == c + 1 && i != c
    ensures forall a, pid {:trigger Lists(Taken(p, i, j, c)[a], pid)} {:trigger Lists(p[a], pid)} ::
            0 <= a < MAX_PROCS && IsPid(pid) ==>
        (Lists(Taken(p, i, j, c)[a], pid) <==> Lists(p[a], pid) && pid != c + 1 && a != c)
  {
    var u := Taken(p, i, j, c);
    assert SlotOk(p, i);
    forall a, pid | 0 <= a < MAX_PROCS && IsPid(pid)
      ensures Lists(u[a], pid) <==> Lists(p[a], pid) && pid != c + 1 && a != c
    {
      if k :| 0 <= k < MAX_SUB_PROCS && u[a].subs[k] == pid {
        assert p[a].subs[k] == pid;
        if pid == c + 1 {
          ListedOnce(p, i, j, a, k);
        }
      }
      if k :| 0 <= k < MAX_SUB_PROCS && p[a].subs[k] == pid && pid != c + 1 && a != c {
        assert u[a].subs[k] == pid;
      }
    }
  }

  lemma TakeKeepsFamily(p: seq<Pcb>, i: nat, j: nat, c: nat)
    requires Family(p) && i < MAX_PROCS && j < MAX_SUB_PROCS && c < MAX_PROCS && p[i].subs[j] == c + 1 && i != c
    requires p[i].state != Empty
    ensures Family(Taken(p, i, j, c))
  {
    var u := Taken(p, i, j, c);
    FewerLists(p, i, j, c);
    forall a, pid | 0 <= a < MAX_PROCS && IsPid(pid)
      ensures ChildOk(u, a, pid)
    {
      assert ChildOk(p, a, pid);
    }
    forall a | 0 <= a < MAX_PROCS
      ensures SlotOk(u, a)
    {
      assert SlotOk(p, a);
    }
  }

  // A live parent forks into an empty slot.
  function Forked(p: seq<Pcb>, i: nat, j: nat, c: nat, child: Pcb): seq<Pcb>
    requires i < |p| && c < |p| && j < MAX_SUB_PROCS
  {
    p[i := p[i].(subs := p[i].subs[j := c + 1])][c := child]
  }

  function Born(h: History, i: nat, c: nat): History
    requires i < |h.life| && c < |h.life|
  {
    h.(life := h.life[c := h.next], next := h.next + 1, creator := h.creator[h.next := h.life[i]])
  }

  predicate NewChild(child: Pcb, i: nat) {
    child.cp != Null && child.subs == NO_SUBS && child.parent == i + 1 && child.state == Running
  }

  predicate Forks(p: seq<Pcb>, i: nat, j: nat, c: nat) {
    && |p| == MAX_PROCS && i < MAX_PROCS && j < MAX_SUB_PROCS && c < MAX_PROCS
    && p[i].state != Empty && p[i].subs[j] == -1 && p[c].state == Empty
  }

  lemma EmptyUnwanted(p: seq<Pcb>, c: nat)
    requires Family(p) && c < MAX_PROCS && p[c].state == Empty
    ensures !Wanted(p, c + 1)
  {
    if i :| 0 <= i < |p| && Lists(p[i], c + 1) {
      assert ChildOk(p, i, c + 1);
    }
  }

  lemma MoreLists(p: seq<Pcb>, i: nat, j: nat, c: nat, child: Pcb)
    requires Family(p) && Forks(p, i, j, c) && NewChild(child, i)
    ensures forall a, pid {:trigger Lists(Forked(p, i, j, c, child)[a], pid)} :: 0 <= a < MAX_PROCS && IsPid(pid) ==>
        (Lists(Forked(p, i, j, c, child)[a], pid) <==> Lists(p[a], pid) || (a == i && pid == c + 1))
    ensures forall a, pid {:trigger Lists(p[a], pid)} :: 0 <= a < MAX_PROCS && IsPid(pid) && Lists(p[a], pid) ==>
            pid != c + 1 && a != c
  {
    var u := Forked(p, i, j, c, child);
    EmptyUnwanted(p, c);
    assert SlotOk(p, c);
    forall a, pid | 0 <= a < MAX_PROCS && IsPid(pid)
      ensures Lists(u[a], pid) <==> Lists(p[a], pid) || (a == i && pid == c + 1)
    {
      if k :| 0 <= k < MAX_SUB_PROCS && p[a].subs[k] == pid {
        assert a != c ==> u[a].subs[k] == pid;
      }
      if k :| 0 <= k < MAX_SUB_PROCS && u[a].subs[k] == pid && !(a == i && k == j) {
        assert p[a].subs[k] == pid;
      }
      assert a == i ==> u[a].subs[j] == c + 1;
    }
  }

  lemma ForkKeepsFamily(p: seq<Pcb>, i: nat, j: nat, c: nat, child: Pcb)
    requires Family(p) && Forks(p, i, j, c) && NewChild(child, i)
    ensures Family(Forked(p, i, j, c, child))
  {
    var u := Forked(p, i, j, c, child);
    MoreLists(p, i, j, c, child);
    hide Lists;
    forall a, pid | 0 <= a < MAX_PROCS && IsPid(pid)
      ensures ChildOk(u, a, pid)
    {
      assert ChildOk(p, a, pid);
    }
    forall a | 0 <= a < MAX_PROCS
      ensures SlotOk(u, a)
    {
      assert SlotOk(p, a);
      if a == i {
        NotListedYet(p, i, c);
      }
    }
  }

  lemma NotListedYet(p: seq<Pcb>, i: nat, c: nat)
    requires Family(p) && i < MAX_PROCS && c < MAX_PROCS && p[c].state == Empty
    ensures forall k :: 0 <= k < MAX_SUB_PROCS ==> p[i].subs[k] != c + 1
  {
    EmptyUnwanted(p, c);
    assert !Lists(p[i], c + 1);
  }

  lemma ForkKeeps(p: seq<Pcb>, h: History, i: nat, j: nat, c: nat, child: Pcb)
    requires TableOk(p, h) && Forks(p, i, j, c) && NewChild(child, i)
    ensures TableOk(Forked(p, i, j, c, child), Born(h, i, c))
    ensures Later(h, Born(h, i, c))
  {
    ForkKeepsFamily(p, i, j, c, child);
    MoreLists(p, i, j, c, child);
    hide Family, Lists;
    BornLives(p, h, i, j, c, child);
    BornDeliveries(p, h, i, j, c, child);
  }

  lemma BornLives(p: seq<Pcb>, h: History, i: nat, j: nat, c: nat, child: Pcb)
    requires |p| == MAX_PROCS && Lives(p, h) && Deliveries(p, h) && Forks(p, i, j, c) && NewChild(child, i)
    requires forall a, pid {:trigger Lists(Forked(p, i, j, c, child)[a], pid)} :: 0 <= a < MAX_PROCS && IsPid(pid) ==>
        (Lists(Forked(p, i, j, c, child)[a], pid) <==> Lists(p[a], pid) || (a == i && pid == c + 1))
    requires forall a, pid {:trigger Lists(p[a], pid)} :: 0 <= a < MAX_PROCS && IsPid(pid) && Lists(p[a], pid) ==>
            pid != c + 1 && a != c
    ensures Lives(Forked(p, i, j, c, child), Born(h, i, c))
  {
    hide Lists;
  }

  lemma BornDeliveries(p: seq<Pcb>, h: History, i: nat, j: nat, c: nat, child: Pcb)
    requires |p| == MAX_PROCS && |h.life| == MAX_PROCS && Deliveries(p, h) && Forks(p, i, j, c) && NewChild(child, i)
    ensures Deliveries(Forked(p, i, j, c, child), Born(h, i, c))
    ensures Later(h, Born(h, i, c))
  {
    hide Lists;
    assert h.next !in h.creator;
  }

  // ---- Zombies nobody waits for ----

  // The process that listed this one has gone: no wait finds it any more.
  predicate Abandoned(p: seq<Pcb>, c: nat) {
    c < |p| && p[c].state == Zombie && !Wanted(p, c + 1)
  }

  ghost predicate SameAbandoned(p: seq<Pcb>, u: seq<Pcb>) {
    forall c :: Abandoned(u, c) <==> Abandoned(p, c)
  }

  // The zombies that slot i lists are abandoned, and no other.
  ghost predicate AbandonsListed(p: seq<Pcb>, u: seq<Pcb>, i: nat)
    requires i < |p|
  {
    forall c: nat :: Abandoned(u, c) <==> Abandoned(p, c) || (c < |p| && p[c].state == Zombie && Lists(p[i], c + 1))
  }

  lemma OneLister(p: seq<Pcb>, c: nat)
    requires Family(p) && c < MAX_PROCS
    ensures forall a, b :: 0 <= a < |p| && 0 <= b < |p| && Lists(p[a], c + 1) && Lists(p[b], c + 1) ==> a == b
  {
    forall a, b | 0 <= a < |p| && 0 <= b < |p| && Lists(p[a], c + 1) && Lists(p[b], c + 1)
      ensures a == b
    {
      assert ChildOk(p, a, c + 1) && ChildOk(p, b, c + 1);
    }
  }

  // Emptying a slot abandons exactly the zombies listed there.
  lemma ResetAbandons(p: seq<Pcb>, i: nat, c: nat)
    requires Family(p) && i < MAX_PROCS && c < MAX_PROCS && p[c].state == Zombie && c != i
    ensures Abandoned(p[i := BLANK], c) <==> Abandoned(p, c) || Lists(p[i], c + 1)
  {
    OneLister(p, c);
    ResetLists(p, i);
    hide Family, Lists;
  }

  lemma ResetAbandonsListed(p: seq<Pcb>, i: nat)
    requires Family(p) && i < MAX_PROCS && p[i].state != Zombie
    ensures AbandonsListed(p, p[i := BLANK], i)
  {
    assert |p| == MAX_PROCS;
    hide Family, Wanted, Lists;
    forall c: nat | c < MAX_PROCS && c != i && p[c].state == Zombie
      ensures Abandoned(p[i := BLANK], c) <==> Abandoned(p, c) || Lists(p[i], c + 1)
    {
      ResetAbandons(p, i, c);
    }
  }

  // Taking a child's status abandons exactly the zombies that child lists.
  lemma TakeAbandonsListed(p: seq<Pcb>, i: nat, j: nat, c: nat)
    requires Family(p) && i < MAX_PROCS && j < MAX_SUB_PROCS && c < MAX_PROCS
    requires p[i].subs[j] == c + 1 && i != c && p[i].state != Empty
    ensures AbandonsListed(p, Taken(p, i, j, c), c)
  {
    var u := Taken(p, i, j, c);
    assert |p| == MAX_PROCS && Lists(p[i], c + 1) && ChildOk(p, c, c + 1);
    FewerLists(p, i, j, c);
    hide Family, Lists;
    forall z: nat | z < MAX_PROCS && z != c && p[z].state == Zombie
      ensures Abandoned(u, z) <==> Abandoned(p, z) || Lists(p[c], z + 1)
    {
      OneLister(p, z);
    }
  }

  // A step that keeps every list abandons nobody, unless it makes a zombie nobody lists.
  lemma UpdateAbandonsNobody(p: seq<Pcb>, i: nat, q: Pcb)
    requires i < |p| && q.subs == p[i].subs && p[i].state != Zombie && (q.state == Zombie ==> Wanted(p, i + 1))
    ensures SameAbandoned(p, p[i := q])
  {
    var u := p[i := q];
    SameLists(p, i, q);
    hide Lists;
    forall c: nat
      ensures Wanted(u, c) <==> Wanted(p, c)
    {
      if a :| 0 <= a < |p| && Lists(p[a], c) {
        assert Lists(u[a], c);
      }
      if a :| 0 <= a < |p| && Lists(u[a], c) {
        assert Lists(p[a], c);
      }
    }
  }

  lemma ForkAbandonsNobody(p: seq<Pcb>, i: nat, j: nat, c: nat, child: Pcb)
    requires Family(p) && Forks(p, i, j, c) && NewChild(child, i)
    ensures SameAbandoned(p, Forked(p, i, j, c, child))
  {
    var u := Forked(p, i, j, c, child);
    MoreLists(p, i, j, c, child);
    hide Lists;
    forall z: nat | z < MAX_PROCS && z != c
      ensures Abandoned(u, z) <==> Abandoned(p, z)
    {
      if a :| 0 <= a < |p| && Lists(p[a], z + 1) {
        assert Lists(u[a], z + 1);
      }
      if a :| 0 <= a < |u| && Lists(u[a], z + 1) {
        assert Lists(p[a], z + 1);
      }
    }
  }
}
