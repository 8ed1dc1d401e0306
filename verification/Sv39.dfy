// Physical pages, Sv39 page-table entries and the tree of pages below a root,
// seen as one table from tree positions to page numbers.
module Sv39 {
  import opened BitStrings
  import Limits

  type u64 = x: int | 0 <= x < 0x1_0000_0000_0000_0000

  const PAGE_SIZE: nat := 4096
  const PTES: nat := 512
  const RAM_PAGES: nat := 0x88000   // page numbers below the end of RAM
  const MAX_PROCS: nat := Limits.MAX_PROCS
  const USER_ROOT: nat := 1         // the root entry of [0x40000000, 0x80000000)
  const USER_START: nat := 0x40000  // as.start and as.end, in pages
  const USER_END: nat := 0x80000

  type Page = p: seq<u64> | |p| == PTES witness seq(PTES, _ => 0)

  function Filled(w: u64): (p: Page)
    ensures forall i :: 0 <= i < PTES ==> p[i] == w
  {
    seq(PTES, _ => w)
  }

  // ---- Entries: flags in bits 0 to 9, page number above ----

  predicate V(e: u64) { e % 2 == 1 }
  predicate R(e: u64) { Shr(e, 1) % 2 == 1 }
  predicate W(e: u64) { Shr(e, 2) % 2 == 1 }
  predicate X(e: u64) { Shr(e, 3) % 2 == 1 }
  predicate U(e: u64) { Shr(e, 4) % 2 == 1 }
  predicate Shared(e: u64) { Shr(e, 8) % 2 == 1 }  // PTE_SHARED, an RSW bit

  // PTE2PA, as a page number.
  function Ppn(e: u64): nat { Shr(e, 10) }

  // An entry without R, W and X points to the next level.
  predicate IsLeaf(e: u64) { R(e) || W(e) || X(e) }

  datatype Perm = Perm(r: bool, w: bool, x: bool, u: bool, shared: bool)

  function Bits(p: Perm): (f: nat)
    ensures f < 1024 && f % 2 == 0
  {
    2 * B(p.r) + 4 * B(p.w) + 8 * B(p.x) + 16 * B(p.u) + 256 * B(p.shared)
  }

  // PA2PTE(pa) | perm | PTE_V
  function MakePte(ppn: nat, p: Perm): u64
    requires ppn < RAM_PAGES
  {
    ppn * 1024 + Bits(p) + 1
  }

  const TABLE_ONLY := Perm(false, false, false, false, false)

  // *pte & (PTE_R | PTE_W | PTE_X | PTE_U | PTE_SHARED)
  function PermOf(e: u64): Perm {
    Perm(R(e), W(e), X(e), U(e), Shared(e))
  }

  lemma ShrFirst(e: nat, h: nat, n: nat)
    requires n > 0 && e / 2 == h
    ensures forall k {:trigger Shr(e, k)} :: 0 < k <= n ==> Shr(e, k) == Shr(h, k - 1)
  {
  }

  // The flags from R up, each shift dropping one.
  lemma LowFlags(e: u64, p: Perm, u: nat)
    requires e == 1 + 2 * (B(p.r) + 2 * (B(p.w) + 2 * (B(p.x) + 2 * u)))
    ensures V(e) && R(e) == p.r && W(e) == p.w && X(e) == p.x
    ensures Shr(e, 4) == u && Shr(e, 8) == Shr(u, 4) && Shr(e, 10) == Shr(u, 6)
  {
    var x := B(p.x) + 2 * u;
    var w := B(p.w) + 2 * x;
    var r := B(p.r) + 2 * w;
    assert e / 2 == r && r / 2 == w && w / 2 == x && x / 2 == u;
    ShrFirst(e, r, 10);
    ShrFirst(r, w, 9);
    ShrFirst(w, x, 8);
    ShrFirst(x, u, 7);
    assert Shr(e, 1) == r && Shr(r, 1) == w && Shr(w, 1) == x && Shr(x, 1) == u;
  }

  // The flags from U up, and the page number.
  lemma HighFlags(u: nat, p: Perm, ppn: nat)
    requires u == B(p.u) + 16 * (B(p.shared) + 4 * ppn)
    ensures u % 2 == B(p.u) && Shr(u, 4) % 2 == B(p.shared) && Shr(u, 6) == ppn
  {
    var sh := B(p.shared) + 4 * ppn;
    assert u / 2 == 8 * sh && u % 2 == B(p.u);
    ShrFirst(u, 8 * sh, 6);
    ShrFirst(8 * sh, 4 * sh, 5);
    ShrFirst(4 * sh, 2 * sh, 4);
    ShrFirst(2 * sh, sh, 3);
    ShrFirst(sh, 2 * ppn, 2);
    ShrFirst(2 * ppn, ppn, 1);
  }

  lemma MakePteReads(ppn: nat, p: Perm)
    requires ppn < RAM_PAGES
    ensures V(MakePte(ppn, p)) && Ppn(MakePte(ppn, p)) == ppn && PermOf(MakePte(ppn, p)) == p
  {
    hide Shr;
    var u := B(p.u) + 16 * (B(p.shared) + 4 * ppn);
    LowFlags(MakePte(ppn, p), p, u);
    HighFlags(u, p, ppn);
  }

  // ---- Virtual pages of the user range ----

  // PX(level, va), on a virtual page number.
  function Px(level: nat, vpn: nat): (i: nat)
    requires level <= 2
    ensures i < PTES
  {
    if level == 0 then vpn % 512 else if level == 1 then vpn / 512 % 512 else vpn / 262144 % 512
  }

  function Vpn(i1: nat, i0: nat): nat {
    USER_START + 512 * i1 + i0
  }

  predicate InUser(vpn: nat) {
    USER_START <= vpn < USER_END
  }

  lemma UserIndices(vpn: nat)
    requires InUser(vpn)
    ensures Px(2, vpn) == USER_ROOT && vpn == Vpn(Px(1, vpn), Px(0, vpn))
  {
  }

  // ---- Tree positions ----

  // The pages of a process: its root, the table for its 1 GiB, that table's
  // children, and the frames they map.
  datatype Pos = Root | Mid | Tab(i1: nat) | Frame(i1: nat, i0: nat)

  predicate ValidPos(p: Pos) {
    match p
    case Root => true
    case Mid => true
    case Tab(i1) => i1 < PTES
    case Frame(i1, i0) => i1 < PTES && i0 < PTES
  }

  // The page an entry leads to; 0 when it leads nowhere.
  function Target(ram: seq<Page>, table: nat, i: nat): nat
    requires i < PTES
  {
    if table == 0 || table >= |ram| || !V(ram[table][i]) then 0 else Ppn(ram[table][i])
  }

  function TabOf(ram: seq<Page>, root: nat, i1: nat): nat
    requires i1 < PTES
  {
    Target(ram, Target(ram, root, USER_ROOT), i1)
  }

  // The page owned at a position; shared frames are owned by nobody here.
  function At(ram: seq<Page>, root: nat, p: Pos): nat
    requires ValidPos(p)
  {
    match p
    case Root => root
    case Mid => Target(ram, root, USER_ROOT)
    case Tab(i1) => TabOf(ram, root, i1)
    case Frame(i1, i0) =>
      var t := TabOf(ram, root, i1);
      if t == 0 || t >= |ram| || Shared(ram[t][i0]) then 0 else Target(ram, t, i0)
  }
}
