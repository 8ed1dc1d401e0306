// What each page-table step does to the positions of all processes.
module PageTables {
  import opened BitStrings
  import opened Sv39
  import opened Ownership

  ghost predicate IsTable(r: Role) {
    r.Kernel? || (r.Own? && !r.pos.Frame?)
  }

  // Positions depend on the table pages alone.
  lemma AtFrame(ram: seq<Page>, ram': seq<Page>, roots: seq<nat>, kroot: nat, role: map<nat, Role>, pid: nat, pos: Pos)
    requires Owned(ram, roots, kroot, role) && |ram'| == |ram|
    requires forall p :: p in role && IsTable(role[p]) ==> ram'[p] == ram[p]
    requires pid < MAX_PROCS && ValidPos(pos) && roots[pid] != 0
    ensures At(ram', roots[pid], pos) == At(ram, roots[pid], pos)
  {
    var root := roots[pid];
    assert At(ram, root, Root) == root;
    var mid := At(ram, root, Mid);
    match pos
    case Root =>
    case Mid =>
    case Tab(i1) =>
    case Frame(i1, i0) =>
      var t := At(ram, root, Tab(i1));
  }

  // Steps that touch neither a table page nor an owner keep everything.
  lemma OwnedFrame(ram: seq<Page>, ram': seq<Page>, roots: seq<nat>, kroot: nat, role: map<nat, Role>,
      role': map<nat, Role>)
    requires Owned(ram, roots, kroot, role) && |ram'| == |ram|
    requires role'.Keys == role.Keys
    requires forall p :: p in role && IsTable(role[p]) ==> ram'[p] == ram[p]
    requires forall p :: p in role && (role[p].Own? || role[p].Kernel?) ==> role'[p] == role[p]
    requires forall p :: p in role && !role[p].Own? ==> !role'[p].Own?
    ensures Owned(ram', roots, kroot, role')
  {
    hide Shr, V, Ppn, Shared;
    forall pid, pos {:trigger At(ram', roots[pid], pos)} | 0 <= pid < MAX_PROCS && ValidPos(pos) && roots[pid] != 0
      ensures At(ram', roots[pid], pos) == At(ram, roots[pid], pos)
    {
      AtFrame(ram, ram', roots, kroot, role, pid, pos);
    }
    forall pid, pos | 0 <= pid < MAX_PROCS && ValidPos(pos) && roots[pid] != 0
      ensures ShapeAt(ram', roots[pid], kroot, role', pos)
    {
      assert ShapeAt(ram, roots[pid], kroot, role, pos);
      var q := At(ram', roots[pid], pos);
      assert q == At(ram, roots[pid], pos);
    }
  }

  // The position entry i of a table page leads to.
  function ChildPos(pos: Pos, i: nat): Pos {
    match pos
    case Root => Mid
    case Mid => Tab(i)
    case Tab(i1) => Frame(i1, i)
    case Frame(_, _) => pos
  }

  ghost predicate TableEntry(pos: Pos, i: nat) {
    ValidPos(pos) && i < PTES && !pos.Frame? && (pos.Root? ==> i == USER_ROOT)
  }

  // Entry i of the table page at (pid, pos) changes to e, nothing else does.
  ghost predicate EntrySet(ram: seq<Page>, ram': seq<Page>, roots: seq<nat>, kroot: nat, role: map<nat, Role>, pid: nat,
      pos: Pos, i: nat, e: u64)
  {
    && Owned(ram, roots, kroot, role) && |ram'| == |ram|
    && pid < MAX_PROCS && TableEntry(pos, i) && roots[pid] != 0
    && var q := At(ram, roots[pid], pos);
    && 0 < q < |ram|
    && ram'[q] == ram[q][i := e]
    && (forall p :: p in role && p != q && IsTable(role[p]) ==> ram'[p] == ram[p])
  }

  // Linking: the empty entry now leads to page b, which is itself empty.
  lemma AtAfterLink(ram: seq<Page>, ram': seq<Page>, roots: seq<nat>, kroot: nat, role: map<nat, Role>, pid: nat,
      pos: Pos, i: nat, b: nat, pid': nat, pos': Pos)
    requires b < RAM_PAGES && !pos.Tab?
    requires EntrySet(ram, ram', roots, kroot, role, pid, pos, i, MakePte(b, TABLE_ONLY))
    requires !V(ram[At(ram, roots[pid], pos)][i]) && 0 < b && ram'[b] == Filled(0)
    requires pid' < MAX_PROCS && ValidPos(pos') && roots[pid'] != 0
    ensures At(ram', roots[pid'], pos') == if pid' == pid && pos' == ChildPos(pos, i) then b
            else At(ram, roots[pid'], pos')
  {
    hide Shr;
    MakePteReads(b, TABLE_ONLY);
    var root := roots[pid'];
    assert At(ram, root, Root) == root;
    var mid := At(ram, root, Mid);
    match pos'
    case Root =>
    case Mid =>
    case Tab(i1) =>
      var t := At(ram, root, Tab(i1));
    case Frame(i1, i0) =>
      var t := At(ram, root, Tab(i1));
  }

  lemma LinkKeepsOwned(ram: seq<Page>, ram': seq<Page>, roots: seq<nat>, kroot: nat, role: map<nat, Role>, pid: nat,
      pos: Pos, i: nat, b: nat)
    requires b in role && role[b] == Lost && b < RAM_PAGES && !pos.Tab?
    requires EntrySet(ram, ram', roots, kroot, role, pid, pos, i, MakePte(b, TABLE_ONLY))
    requires !V(ram[At(ram, roots[pid], pos)][i]) && ram'[b] == Filled(0)
    ensures Owned(ram', roots, kroot, role[b := Own(pid, ChildPos(pos, i))])
  {
    hide Shr, V, Ppn, Shared, R, W, X, U, ShapeAt;
    var role' := role[b := Own(pid, ChildPos(pos, i))];
    forall pid', pos' {:trigger At(ram', roots[pid'], pos')} | 0 <= pid' < MAX_PROCS && ValidPos(pos')
        && roots[pid'] != 0
      ensures var q := At(ram', roots[pid'], pos');
              && (q != 0 ==> q in role' && role'[q] == Own(pid', pos'))
              && q == if pid' == pid && pos' == ChildPos(pos, i) then b else At(ram, roots[pid'], pos')
    {
      AtAfterLink(ram, ram', roots, kroot, role, pid, pos, i, b, pid', pos');
    }
    forall pid', pos' | 0 <= pid' < MAX_PROCS && ValidPos(pos') && roots[pid'] != 0
      ensures ShapeAt(ram', roots[pid'], kroot, role', pos')
    {
      assert ShapeAt(ram, roots[pid'], kroot, role, pos');
      LinkShape(ram, ram', roots, kroot, role, pid, pos, i, b, pid', pos');
    }
    forall p | p in role' && role'[p].Own?
      ensures && role'[p].pid < MAX_PROCS && ValidPos(role'[p].pos) && roots[role'[p].pid] != 0
              && At(ram', roots[role'[p].pid], role'[p].pos) == p
    {
      var q := At(ram', roots[role'[p].pid], role'[p].pos);
    }
  }

  lemma LinkShape(ram: seq<Page>, ram': seq<Page>, roots: seq<nat>, kroot: nat, role: map<nat, Role>, pid: nat,
      pos: Pos, i: nat, b: nat, pid': nat, pos': Pos)
    requires b in role && role[b] == Lost && b < RAM_PAGES && !pos.Tab?
    requires EntrySet(ram, ram', roots, kroot, role, pid, pos, i, MakePte(b, TABLE_ONLY))
    requires ram'[b] == Filled(0)
    requires pid' < MAX_PROCS && ValidPos(pos') && roots[pid'] != 0 && ShapeAt(ram, roots[pid'], kroot, role, pos')
    requires At(ram', roots[pid'], pos') == if pid' == pid && pos' == ChildPos(pos, i) then b
            else At(ram, roots[pid'], pos')
    ensures ShapeAt(ram', roots[pid'], kroot, role[b := Own(pid, ChildPos(pos, i))], pos')
  {
    hide Shr;
    MakePteReads(b, TABLE_ONLY);
    var q := At(ram, roots[pid], pos);
    var q' := At(ram', roots[pid'], pos');
    assert role[q] == Own(pid, pos);
    assert q' != b ==> q' == At(ram, roots[pid'], pos');
  }

  // ---- Frames ----

  // Setting a Tab entry changes the owned page at its frame position only.
  lemma AtAfterFrameSet(ram: seq<Page>, ram': seq<Page>, roots: seq<nat>, kroot: nat, role: map<nat, Role>, pid: nat,
      i1: nat, i0: nat, e: u64, pid': nat, pos': Pos)
    requires EntrySet(ram, ram', roots, kroot, role, pid, Tab(i1), i0, e)
    requires pid' < MAX_PROCS && ValidPos(pos') && roots[pid'] != 0
    ensures At(ram', roots[pid'], pos') ==
            if pid' == pid && pos' == Frame(i1, i0) then (if V(e) && !Shared(e) then Ppn(e) else 0)
                else At(ram, roots[pid'], pos')
  {
    hide Shr;
    var root := roots[pid'];
    assert At(ram, root, Root) == root;
    var mid := At(ram, root, Mid);
    match pos'
    case Root =>
    case Mid =>
    case Tab(j1) =>
      var t := At(ram, root, Tab(j1));
    case Frame(j1, j0) =>
      var t := At(ram, root, Tab(j1));
  }

  // The role map after a Tab entry changed from `was` to `e`: its old private
  // frame is free, its new private frame is owned.
  function FrameRoles(role: map<nat, Role>, was: u64, e: u64, pid: nat, i1: nat, i0: nat): (r: map<nat, Role>)
  {
    var freed := if V(was) && !Shared(was) then role[Ppn(was) := Free] else role;
    if V(e) && !Shared(e) then freed[Ppn(e) := Own(pid, Frame(i1, i0))] else freed
  }

  // What a Tab entry maps privately is owned at that position.
  lemma MappedFrame(ram: seq<Page>, roots: seq<nat>, kroot: nat, role: map<nat, Role>, pid: nat, i1: nat, i0: nat)
    requires Owned(ram, roots, kroot, role) && pid < MAX_PROCS && i1 < PTES && i0 < PTES && roots[pid] != 0
    requires 0 < At(ram, roots[pid], Tab(i1)) < |ram|
    ensures var e := ram[At(ram, roots[pid], Tab(i1))][i0];
            && FrameEntry(role, e)
            && (V(e) && !Shared(e) ==>
                Ppn(e) in role && role[Ppn(e)] == Own(pid, Frame(i1, i0)) && 0 < Ppn(e) < RAM_PAGES)
  {
    hide Shr;
    assert ShapeAt(ram, roots[pid], kroot, role, Tab(i1));
    var f := At(ram, roots[pid], Frame(i1, i0));
  }

  lemma FrameSetKeepsOwned(ram: seq<Page>, ram': seq<Page>, roots: seq<nat>, kroot: nat, role: map<nat, Role>, pid: nat,
      i1: nat, i0: nat, e: u64)
    requires EntrySet(ram, ram', roots, kroot, role, pid, Tab(i1), i0, e)
    requires var was := ram[At(ram, roots[pid], Tab(i1))][i0];
             (was == 0 && FrameEntry(role, e) && (V(e) && !Shared(e) ==> Ppn(e) in role && role[Ppn(e)] == Lost))
                 || e == 0
    ensures Owned(ram', roots, kroot, FrameRoles(role, ram[At(ram, roots[pid], Tab(i1))][i0], e, pid, i1, i0))
  {
    hide Shr, Ppn, ShapeAt, R, W, X, U;
    var t := At(ram, roots[pid], Tab(i1));
    var was := ram[t][i0];
    MappedFrame(ram, roots, kroot, role, pid, i1, i0);
    var role' := FrameRoles(role, was, e, pid, i1, i0);
    forall pid', pos' {:trigger At(ram', roots[pid'], pos')} | 0 <= pid' < MAX_PROCS && ValidPos(pos')
        && roots[pid'] != 0
      ensures var q := At(ram', roots[pid'], pos');
              && (q != 0 ==> q in role' && role'[q] == Own(pid', pos'))
              && q == if pid' == pid && pos' == Frame(i1, i0) then (if V(e) && !Shared(e) then Ppn(e) else 0)
                  else At(ram, roots[pid'], pos')
    {
      AtAfterFrameSet(ram, ram', roots, kroot, role, pid, i1, i0, e, pid', pos');
      var q0 := At(ram, roots[pid'], pos');
    }
    forall pid', pos' | 0 <= pid' < MAX_PROCS && ValidPos(pos') && roots[pid'] != 0
      ensures ShapeAt(ram', roots[pid'], kroot, role', pos')
    {
      assert ShapeAt(ram, roots[pid'], kroot, role, pos');
      AtAfterFrameSet(ram, ram', roots, kroot, role, pid, i1, i0, e, pid', pos');
      FrameSetShape(ram, ram', roots, kroot, role, pid, i1, i0, e, pid', pos');
    }
    forall p | p in role' && role'[p].Own?
      ensures && role'[p].pid < MAX_PROCS && ValidPos(role'[p].pos) && roots[role'[p].pid] != 0
              && At(ram', roots[role'[p].pid], role'[p].pos) == p
    {
      var q := At(ram', roots[role'[p].pid], role'[p].pos);
      var q0 := At(ram, roots[role'[p].pid], role'[p].pos);
    }
  }

  lemma FrameSetShape(ram: seq<Page>, ram': seq<Page>, roots: seq<nat>, kroot: nat, role: map<nat, Role>, pid: nat,
      i1: nat, i0: nat, e: u64, pid': nat, pos': Pos)
    requires EntrySet(ram, ram', roots, kroot, role, pid, Tab(i1), i0, e)
    requires var was := ram[At(ram, roots[pid], Tab(i1))][i0];
             (was == 0 && FrameEntry(role, e) && (V(e) && !Shared(e) ==> Ppn(e) in role && role[Ppn(e)] == Lost))
                 || e == 0
    requires pid' < MAX_PROCS && ValidPos(pos') && roots[pid'] != 0 && ShapeAt(ram, roots[pid'], kroot, role, pos')
    requires At(ram', roots[pid'], pos') ==
             if pid' == pid && pos' == Frame(i1, i0) then (if V(e) && !Shared(e) then Ppn(e) else 0)
                 else At(ram, roots[pid'], pos')
    ensures ShapeAt(ram', roots[pid'], kroot,
            FrameRoles(role, ram[At(ram, roots[pid], Tab(i1))][i0], e, pid, i1, i0), pos')
  {
    hide Shr, Ppn, R, W, X, U;
    var t := At(ram, roots[pid], Tab(i1));
    assert role[t] == Own(pid, Tab(i1));
    MappedFrame(ram, roots, kroot, role, pid, i1, i0);
    var q := At(ram, roots[pid'], pos');
    var role' := FrameRoles(role, ram[t][i0], e, pid, i1, i0);
    assert forall p :: p in role && role[p] == Kernel ==> p in role' && role'[p] == Kernel;
    assert forall p :: p !in role ==> p !in role';
  }

  // ---- Mappings ----

  // The entry for a user page; 0 when its table does not exist.
  function Leaf(ram: seq<Page>, root: nat, i1: nat, i0: nat): u64
    requires i1 < PTES && i0 < PTES
  {
    var t := TabOf(ram, root, i1);
    if t == 0 || t >= |ram| then 0 else ram[t][i0]
  }

  lemma LeafAfterLink(ram: seq<Page>, ram': seq<Page>, roots: seq<nat>, kroot: nat, role: map<nat, Role>, pid: nat,
      pos: Pos, i: nat, b: nat, pid': nat, i1: nat, i0: nat)
    requires b in role && role[b] == Lost && b < RAM_PAGES && !pos.Tab?
    requires EntrySet(ram, ram', roots, kroot, role, pid, pos, i, MakePte(b, TABLE_ONLY))
    requires !V(ram[At(ram, roots[pid], pos)][i]) && ram'[b] == Filled(0)
    requires pid' < MAX_PROCS && roots[pid'] != 0 && i1 < PTES && i0 < PTES
    ensures Leaf(ram', roots[pid'], i1, i0) == Leaf(ram, roots[pid'], i1, i0)
  {
    hide Shr;
    AtAfterLink(ram, ram', roots, kroot, role, pid, pos, i, b, pid', Tab(i1));
    var t := At(ram, roots[pid'], Tab(i1));
    var q := At(ram, roots[pid], pos);
    if t == 0 {
      assert At(ram', roots[pid'], Tab(i1)) in {0, b};
    } else {
      assert role[t] == Own(pid', Tab(i1)) && role[q] == Own(pid, pos);
    }
  }

  lemma LeafAfterFrameSet(ram: seq<Page>, ram': seq<Page>, roots: seq<nat>, kroot: nat, role: map<nat, Role>, pid: nat,
      i1: nat, i0: nat, e: u64, pid': nat, j1: nat, j0: nat)
    requires EntrySet(ram, ram', roots, kroot, role, pid, Tab(i1), i0, e)
    requires pid' < MAX_PROCS && roots[pid'] != 0 && j1 < PTES && j0 < PTES
    ensures Leaf(ram', roots[pid'], j1, j0) == if (pid', j1, j0) == (pid, i1, i0) then e
            else Leaf(ram, roots[pid'], j1, j0)
  {
    AtAfterFrameSet(ram, ram', roots, kroot, role, pid, i1, i0, e, pid', Tab(j1));
    var t := At(ram, roots[pid'], Tab(j1));
    var q := At(ram, roots[pid], Tab(i1));
    if t != 0 {
      assert role[t] == Own(pid', Tab(j1)) && role[q] == Own(pid, Tab(i1));
    }
  }

  // Pages a table walk for pid may write: free ones and its own tables.
  ghost predicate Changeable(r: Role, pid: nat) {
    r.Free? || (r.Own? && r.pid == pid && !r.pos.Frame?)
  }

  // Adding table pages to process pid: no mapping changes anywhere, no page in
  // use changes except pid's own tables.
  ghost predicate Walked(ram: seq<Page>, role: map<nat, Role>, ram': seq<Page>, role': map<nat, Role>, roots: seq<nat>,
      pid: nat) {
    && |ram'| == |ram| && role'.Keys == role.Keys && |roots| == MAX_PROCS
    && (forall p: nat :: p < |ram| && !(p in role && Changeable(role[p], pid)) ==> ram'[p] == ram[p])
    && (forall p :: p in role && role[p] != Free ==> role'[p] == role[p])
    && (forall p :: p in role && role[p] == Free ==>
        role'[p] == Free || (role'[p].Own? && role'[p].pid == pid && !role'[p].pos.Frame?))
    && (forall q, i1, i0 {:trigger Leaf(ram', roots[q], i1, i0)} ::
        0 <= q < MAX_PROCS && 0 <= i1 < PTES && 0 <= i0 < PTES && roots[q] != 0 ==>
          Leaf(ram', roots[q], i1, i0) == Leaf(ram, roots[q], i1, i0))
  }

  lemma WalkedReflexive(ram: seq<Page>, role: map<nat, Role>, roots: seq<nat>, pid: nat)
    requires |roots| == MAX_PROCS
    ensures Walked(ram, role, ram, role, roots, pid)
  {
  }

  lemma WalkedTransitive(a: seq<Page>, ra: map<nat, Role>, b: seq<Page>, rb: map<nat, Role>, c: seq<Page>,
      rc: map<nat, Role>, roots: seq<nat>, pid: nat)
    requires Walked(a, ra, b, rb, roots, pid) && Walked(b, rb, c, rc, roots, pid)
    ensures Walked(a, ra, c, rc, roots, pid)
  {
    hide Leaf;
    forall q, i1, i0 {:trigger Leaf(c, roots[q], i1, i0)} | 0 <= q < MAX_PROCS && 0 <= i1 < PTES && 0 <= i0 < PTES
        && roots[q] != 0
      ensures Leaf(c, roots[q], i1, i0) == Leaf(a, roots[q], i1, i0)
    {
      assert Leaf(b, roots[q], i1, i0) == Leaf(a, roots[q], i1, i0);
    }
  }

  // Mapping one user page of pid to entry e, with table pages added on the way.
  ghost predicate MapStep(ram: seq<Page>, role: map<nat, Role>, ram': seq<Page>, role': map<nat, Role>, roots: seq<nat>,
      pid: nat, i1: nat, i0: nat, e: u64) {
    && |ram'| == |ram| && role'.Keys == role.Keys && |roots| == MAX_PROCS
    && (forall p: nat :: p < |ram| && !(p in role && Changeable(role[p], pid)) ==> ram'[p] == ram[p])
    && (forall p :: p in role && role[p] != Free ==>
          role'[p] == if !Shared(e) && p == Ppn(e) then Own(pid, Frame(i1, i0)) else role[p])
    && (forall p :: p in role && role[p] == Free ==>
        role'[p] == Free || (role'[p].Own? && role'[p].pid == pid && !role'[p].pos.Frame?))
    && (forall q, j1, j0 {:trigger Leaf(ram', roots[q], j1, j0)} ::
        0 <= q < MAX_PROCS && 0 <= j1 < PTES && 0 <= j0 < PTES && roots[q] != 0 ==>
          Leaf(ram', roots[q], j1, j0) == if (q, j1, j0) == (pid, i1, i0) then e else Leaf(ram, roots[q], j1, j0))
  }

  // walk followed by the store of the entry.
  lemma MapAfterWalk(ram: seq<Page>, role: map<nat, Role>, ram1: seq<Page>, role1: map<nat, Role>, ram2: seq<Page>,
      roots: seq<nat>, kroot: nat, pid: nat, i1: nat, i0: nat, e: u64)
    requires Walked(ram, role, ram1, role1, roots, pid) && Owned(ram1, roots, kroot, role1)
    requires pid < MAX_PROCS && i1 < PTES && i0 < PTES && roots[pid] != 0 && |ram| == RAM_PAGES
    requires var t := At(ram1, roots[pid], Tab(i1));
             t != 0 && t < RAM_PAGES && ram1[t][i0] == 0 && ram2 == ram1[t := ram1[t][i0 := e]]
    requires V(e) && FrameEntry(role, e) && (!Shared(e) ==> Ppn(e) in role && role[Ppn(e)] == Lost)
    ensures !Shared(e) ==> Ppn(e) in role1 && role1[Ppn(e)] == Lost
    ensures Owned(ram2, roots, kroot, FrameRoles(role1, 0, e, pid, i1, i0))
    ensures MapStep(ram, role, ram2, FrameRoles(role1, 0, e, pid, i1, i0), roots, pid, i1, i0, e)
  {
    hide Shr, Leaf, ShapeAt, R, W, X, U, TabOf;
    var t := At(ram1, roots[pid], Tab(i1));
    assert role1[t] == Own(pid, Tab(i1));
    assert EntrySet(ram1, ram2, roots, kroot, role1, pid, Tab(i1), i0, e);
    hide Owned;
    FrameSetKeepsOwned(ram1, ram2, roots, kroot, role1, pid, i1, i0, e);
    forall q, j1, j0 {:trigger Leaf(ram2, roots[q], j1, j0)} | 0 <= q < MAX_PROCS && 0 <= j1 < PTES && 0 <= j0 < PTES
        && roots[q] != 0
      ensures Leaf(ram2, roots[q], j1, j0) == if (q, j1, j0) == (pid, i1, i0) then e else Leaf(ram, roots[q], j1, j0)
    {
      LeafAfterFrameSet(ram1, ram2, roots, kroot, role1, pid, i1, i0, e, q, j1, j0);
      assert Leaf(ram1, roots[q], j1, j0) == Leaf(ram, roots[q], j1, j0);
    }
  }

  // Unmapping one user page: its private frame, if any, is freed.
  ghost predicate UnmapStep(ram: seq<Page>, role: map<nat, Role>, ram': seq<Page>, role': map<nat, Role>,
      roots: seq<nat>, pid: nat, i1: nat, i0: nat) {
    && |ram'| == |ram| && |roots| == MAX_PROCS && 0 <= pid < MAX_PROCS && 0 <= i1 < PTES && 0 <= i0 < PTES
    && role' == FrameRoles(role, Leaf(ram, roots[pid], i1, i0), 0, pid, i1, i0)
    && (forall p: nat :: p < |ram| && !(p in role && Changeable(role'[p], pid)) ==> ram'[p] == ram[p])
    && (forall q, j1, j0 {:trigger Leaf(ram', roots[q], j1, j0)} ::
        0 <= q < MAX_PROCS && 0 <= j1 < PTES && 0 <= j0 < PTES && roots[q] != 0 ==>
          Leaf(ram', roots[q], j1, j0) == if (q, j1, j0) == (pid, i1, i0) then 0 else Leaf(ram, roots[q], j1, j0))
  }

  // ram1 is ram with the frame's page already recycled; the entry is then cleared.
  lemma UnmapKeepsOwned(ram: seq<Page>, ram2: seq<Page>, roots: seq<nat>, kroot: nat, role: map<nat, Role>, pid: nat,
      i1: nat, i0: nat)
    requires Owned(ram, roots, kroot, role) && pid < MAX_PROCS && i1 < PTES && i0 < PTES && roots[pid] != 0
    requires |ram2| == |ram|
    requires var t := At(ram, roots[pid], Tab(i1));
             && t != 0 && t < |ram|
             && V(ram[t][i0])
             && ram2[t] == ram[t][i0 := 0]
             && forall p :: 0 <= p < |ram| && p != t && (Shared(ram[t][i0]) || p != Ppn(ram[t][i0])) ==>
                 ram2[p] == ram[p]
    ensures Owned(ram2, roots, kroot, FrameRoles(role, Leaf(ram, roots[pid], i1, i0), 0, pid, i1, i0))
    ensures UnmapStep(ram, role, ram2, FrameRoles(role, Leaf(ram, roots[pid], i1, i0), 0, pid, i1, i0), roots,
            pid, i1, i0)
  {
    hide Shr, ShapeAt;
    var t := At(ram, roots[pid], Tab(i1));
    MappedFrame(ram, roots, kroot, role, pid, i1, i0);
    assert role[t] == Own(pid, Tab(i1));
    assert EntrySet(ram, ram2, roots, kroot, role, pid, Tab(i1), i0, 0);
    hide Owned;
    FrameSetKeepsOwned(ram, ram2, roots, kroot, role, pid, i1, i0, 0);
    forall q, j1, j0 {:trigger Leaf(ram2, roots[q], j1, j0)} | 0 <= q < MAX_PROCS && 0 <= j1 < PTES && 0 <= j0 < PTES
        && roots[q] != 0
      ensures Leaf(ram2, roots[q], j1, j0) == if (q, j1, j0) == (pid, i1, i0) then 0 else Leaf(ram, roots[q], j1, j0)
    {
      LeafAfterFrameSet(ram, ram2, roots, kroot, role, pid, i1, i0, 0, q, j1, j0);
    }
  }
}
