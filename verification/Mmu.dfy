// What a process's page tables mean to the hardware, on byte addresses: sections
// 4.4 and 4.3.2 of the RISC-V privileged architecture, leaving out the A and D bits.
module Mmu {
  import opened BitStrings
  import opened Sv39
  import opened Ownership
  import opened PageTables

  // ---- The walk of the hardware ----

  datatype Found = Fault | Page(ppn: nat, r: bool, w: bool, x: bool, u: bool)

  // Pages below one entry of a table of the level.
  function Span(level: nat): (n: nat)
    ensures n > 0
  {
    if level == 0 then 1 else if level == 1 then 512 else 512 * 512
  }

  // From a table of the level on: nine bits of the page number choose the entry,
  // whose bit 0 says that it is valid, bits 1 to 3 what a leaf may be used for, bit
  // 4 that it is the user's, and bits 10 on which page is next. A leaf that may be
  // written but not read is reserved, and a larger page must be aligned.
  function Steps(ram: seq<Page>, table: nat, vpn: nat, level: nat): Found
    requires level <= 2
    decreases level
  {
    if table >= |ram| then Fault else
      var e: nat := ram[table][vpn / Span(level) % 512];
      var r, w, x := e / 2 % 2 == 1, e / 4 % 2 == 1, e / 8 % 2 == 1;
      if e % 2 == 0 || (w && !r) then Fault
      else if r || x then
        if e / 1024 % Span(level) != 0 then Fault
        else Page(e / 1024 + vpn % Span(level), r, w, x, e / 16 % 2 == 1)
      else if level == 0 then Fault
      else Steps(ram, e / 1024, vpn, level - 1)
  }

  // Where the byte at an address is found.
  function Translate(ram: seq<Page>, root: nat, va: nat): Found {
    Steps(ram, root, va / 4096, 2)
  }

  // ---- The kernel's entries, read by the hardware ----

  lemma ShlIs(v: nat)
    ensures Shl(v, 1) == 2 * v && Shl(v, 2) == 4 * v && Shl(v, 3) == 8 * v && Shl(v, 4) == 16 * v
    ensures Shl(v, 10) == 1024 * v
  {
    assert Shl(v, 10) == 2 * Shl(v, 9) && Shl(v, 9) == 2 * Shl(v, 8) && Shl(v, 8) == 2 * Shl(v, 7);
    assert Shl(v, 7) == 2 * Shl(v, 6) && Shl(v, 6) == 2 * Shl(v, 5) && Shl(v, 5) == 2 * Shl(v, 4);
  }

  lemma ShiftIs(e: nat)
    ensures Shr(e, 1) == e / 2 && Shr(e, 2) == e / 4 && Shr(e, 3) == e / 8 && Shr(e, 4) == e / 16
    ensures Shr(e, 10) == e / 1024
  {
    hide Shl, Shr;
    forall v: nat
      ensures Shl(v, 1) == 2 * v && Shl(v, 2) == 4 * v && Shl(v, 3) == 8 * v && Shl(v, 4) == 16 * v
      ensures Shl(v, 10) == 1024 * v
    {
      ShlIs(v);
    }
    ShrInterval(e, e / 2, 1);
    ShrInterval(e, e / 4, 2);
    ShrInterval(e, e / 8, 3);
    ShrInterval(e, e / 16, 4);
    ShrInterval(e, e / 1024, 10);
  }

  // What the hardware makes of a last-level entry.
  function LeafFound(e: u64): Found {
    if V(e) && (R(e) || X(e)) && (W(e) ==> R(e)) then Page(Ppn(e), R(e), W(e), X(e), U(e)) else Fault
  }

  // In a process's own tables the hardware comes to the entry the kernel keeps
  // for the page.
  lemma WalkFinds(ram: seq<Page>, roots: seq<nat>, kroot: nat, role: map<nat, Role>, pid: nat, va: nat)
    requires Owned(ram, roots, kroot, role) && pid < MAX_PROCS && roots[pid] != 0 && InUser(va / PAGE_SIZE)
    ensures Translate(ram, roots[pid], va)
         == LeafFound(Leaf(ram, roots[pid], Px(1, va / PAGE_SIZE), Px(0, va / PAGE_SIZE)))
  {
    var root, vpn := roots[pid], va / PAGE_SIZE;
    UserDigits(vpn);
    Tables(ram, roots, kroot, role, pid, Px(1, vpn));
    hide Owned, Shr, V, R, W, X, U, Shared, Px;
    var mid, t := Target(ram, root, USER_ROOT), TabOf(ram, root, Px(1, vpn));
    StepThrough(ram, root, vpn, 2);
    if mid != 0 {
      StepThrough(ram, mid, vpn, 1);
      if t != 0 {
        LastStep(ram, t, vpn);
      }
    }
    if mid == 0 || t == 0 {
      NothingFound();
    }
  }

  lemma NothingFound()
    ensures LeafFound(0) == Fault
  {
  }

  lemma UserDigits(vpn: nat)
    requires InUser(vpn)
    ensures vpn / Span(2) % 512 == USER_ROOT && vpn / Span(1) % 512 == Px(1, vpn) && vpn / Span(0) % 512 == Px(0, vpn)
  {
  }

  // The user range is what one entry of the root covers.
  lemma UserRange(va: nat)
    ensures InUser(va / PAGE_SIZE) <==> 0x4000_0000 <= va < 0x8000_0000
  {
  }

  // The tables on the way to a user page are in memory, and their entries point on.
  lemma Tables(ram: seq<Page>, roots: seq<nat>, kroot: nat, role: map<nat, Role>, pid: nat, i1: nat)
    requires Owned(ram, roots, kroot, role) && pid < MAX_PROCS && roots[pid] != 0 && i1 < PTES
    ensures roots[pid] < |ram| && PointerEntry(ram[roots[pid]][USER_ROOT])
    ensures var mid := Target(ram, roots[pid], USER_ROOT);
            mid != 0 ==> mid < |ram| && PointerEntry(ram[mid][i1])
    ensures TabOf(ram, roots[pid], i1) < |ram|
  {
    hide Shr, V, R, W, X, U, Shared, PointerEntry;
    var root := roots[pid];
    assert At(ram, root, Root) == root;
    var mid := At(ram, root, Mid);
    var t := At(ram, root, Tab(i1));
    assert ShapeAt(ram, root, kroot, role, Root) && ShapeAt(ram, root, kroot, role, Mid);
  }

  // A table entry that is empty or a bare pointer.
  lemma StepThrough(ram: seq<Page>, table: nat, vpn: nat, level: nat)
    requires 1 <= level <= 2 && table < |ram| && PointerEntry(ram[table][vpn / Span(level) % 512])
    ensures var e := ram[table][vpn / Span(level) % 512];
            Steps(ram, table, vpn, level) == if V(e) then Steps(ram, Ppn(e), vpn, level - 1) else Fault
  {
    var e: nat := ram[table][vpn / Span(level) % 512];
    ShiftIs(e);
    hide Shr, Span;
    if e == 0 {
      assert !V(0) && e / 2 % 2 == 0;
    }
  }

  lemma LastStep(ram: seq<Page>, table: nat, vpn: nat)
    requires table < |ram|
    ensures Steps(ram, table, vpn, 0) == LeafFound(ram[table][vpn % 512])
  {
    ShiftIs(ram[table][vpn % 512]);
    hide Shr;
  }

  // ---- Ranges of addresses ----

  // Permissions that make a leaf the hardware accepts.
  predicate Usable(perm: Perm) {
    (perm.r || perm.x) && (perm.w ==> perm.r)
  }

  // Every address in [from, to) can be used as the permissions say.
  ghost predicate Accessible(ram: seq<Page>, root: nat, from: nat, to: nat, perm: Perm) {
    forall va: nat :: from <= va < to ==>
      var t := Translate(ram, root, va);
      t.Page? && t.r == perm.r && t.w == perm.w && t.x == perm.x && t.u == perm.u
  }

  // No address in [from, to) can be used at all.
  ghost predicate Faults(ram: seq<Page>, root: nat, from: nat, to: nat) {
    forall va: nat :: from <= va < to ==> Translate(ram, root, va).Fault?
  }

  lemma PermFound(e: u64, perm: Perm)
    requires V(e) && PermOf(e) == perm && Usable(perm)
    ensures LeafFound(e) == Page(Ppn(e), perm.r, perm.w, perm.x, perm.u)
  {
  }

  lemma PagesMapped(ram: seq<Page>, roots: seq<nat>, kroot: nat, role: map<nat, Role>, pid: nat, from: nat, to: nat,
      perm: Perm)
    requires Owned(ram, roots, kroot, role) && pid < MAX_PROCS && roots[pid] != 0 && Usable(perm)
    requires forall va: nat :: from <= va < to ==>
               && InUser(va / PAGE_SIZE)
               && V(Leaf(ram, roots[pid], Px(1, va / PAGE_SIZE), Px(0, va / PAGE_SIZE)))
               && PermOf(Leaf(ram, roots[pid], Px(1, va / PAGE_SIZE), Px(0, va / PAGE_SIZE))) == perm
    ensures Accessible(ram, roots[pid], from, to, perm)
  {
    assert |roots| == MAX_PROCS;
    hide Owned, Leaf, V, PermOf, Ppn, Translate, LeafFound;
    forall va: nat | from <= va < to
      ensures var t := Translate(ram, roots[pid], va);
              t.Page? && t.r == perm.r && t.w == perm.w && t.x == perm.x && t.u == perm.u
    {
      WalkFinds(ram, roots, kroot, role, pid, va);
      PermFound(Leaf(ram, roots[pid], Px(1, va / PAGE_SIZE), Px(0, va / PAGE_SIZE)), perm);
    }
  }

  lemma PagesFault(ram: seq<Page>, roots: seq<nat>, kroot: nat, role: map<nat, Role>, pid: nat, from: nat, to: nat)
    requires Owned(ram, roots, kroot, role) && pid < MAX_PROCS && roots[pid] != 0
    requires forall va: nat :: from <= va < to ==>
               InUser(va / PAGE_SIZE) && Leaf(ram, roots[pid], Px(1, va / PAGE_SIZE), Px(0, va / PAGE_SIZE)) == 0
    ensures Faults(ram, roots[pid], from, to)
  {
    assert |roots| == MAX_PROCS;
    hide Owned, Leaf, Translate, LeafFound;
    NothingFound();
    forall va: nat | from <= va < to
      ensures Translate(ram, roots[pid], va).Fault?
    {
      WalkFinds(ram, roots, kroot, role, pid, va);
    }
  }

  // ---- Two processes ----

  // Both find the same bytes, with the same rights, at every user address.
  ghost predicate SameView(ram: seq<Page>, a: nat, b: nat) {
    forall va: nat :: InUser(va / PAGE_SIZE) ==>
      var s, t := Translate(ram, a, va), Translate(ram, b, va);
      if s.Fault? then t.Fault?
      else t.Page? && t == s.(ppn := t.ppn) && s.ppn < |ram| && t.ppn < |ram| && ram[t.ppn] == ram[s.ppn]
  }
}
