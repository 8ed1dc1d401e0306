// A new program as its process finds it: the bytes of the file and the argument
// block, read through the page tables.
module ProgramImage {
  import opened Bytes
  import opened Sv39
  import opened Ownership
  import opened PageTables
  import opened Memory
  import opened AddressSpace
  import opened Mmu
  import opened Fork
  import opened UserMemory
  import opened MemoryRuns
  import Loader
  import UserStack

  // ---- Words of memory as bytes ----

  function WordOf(b: seq<byte>, o: nat): u64
    requires o + 8 <= |b|
  {
    Le32(b, o) + 0x1_0000_0000 * Le32(b, o + 4)
  }

  function PageOf(p: Loader.UserPage): Page {
    seq(PTES, k requires 0 <= k < PTES => WordOf(p, 8 * k))
  }

  function WordBytes(w: u64): (b: seq<byte>)
    ensures |b| == 8
  {
    Bytes32(w % 0x1_0000_0000) + Bytes32(w / 0x1_0000_0000)
  }

  // The bytes of a word, the least significant first.
  lemma LittleEndian(w: u64)
    ensures var b := WordBytes(w);
            w == b[0] as int + 0x100 * (b[1] as int) + 0x1_0000 * (b[2] as int) + 0x100_0000 * (b[3] as int)
               + 0x1_0000_0000 * (b[4] as int) + 0x100_0000_0000 * (b[5] as int)
               + 0x1_0000_0000_0000 * (b[6] as int) + 0x100_0000_0000_0000 * (b[7] as int)
  {
    var lo, hi := w % 0x1_0000_0000, w / 0x1_0000_0000;
    HalfBytes(lo);
    HalfBytes(hi);
    hide Bytes32;
    assert w == lo + 0x1_0000_0000 * hi;
  }

  lemma HalfBytes(h: u32)
    ensures var b := Bytes32(h);
            h == b[0] as int + 0x100 * (b[1] as int) + 0x1_0000 * (b[2] as int) + 0x100_0000 * (b[3] as int)
  {
    Bytes32RoundTrip(h);
    hide Bytes32;
  }

  // Byte t of a page, little-endian.
  function ByteIn(page: Page, t: nat): byte
    requires t < PAGE_SIZE
  {
    WordBytes(page[t / 8])[t % 8]
  }

  lemma Le32Back(b: seq<byte>, o: nat)
    requires o + 4 <= |b|
    ensures Bytes32(Le32(b, o)) == b[o..o + 4]
  {
    FourBytes(b[o], b[o + 1], b[o + 2], b[o + 3]);
    hide Bytes32;
    assert b[o..o + 4] == [b[o], b[o + 1], b[o + 2], b[o + 3]];
  }

  lemma FourBytes(a: byte, b: byte, c: byte, d: byte)
    ensures Bytes32((a as int) + 0x100 * (b as int) + 0x1_0000 * (c as int) + 0x100_0000 * (d as int)) == [a, b, c, d]
  {
    var x := (c as int) + 0x100 * (d as int);
    var y := (b as int) + 0x100 * x;
    var v := (a as int) + 0x100 * y;
    assert v / 0x100 == y && v % 0x100 == a as int;
    assert y / 0x100 == x && y % 0x100 == b as int;
    assert x / 0x100 == d as int && x % 0x100 == c as int;
  }

  lemma Halves(lo: u32, hi: u32)
    ensures lo as int + 0x1_0000_0000 * (hi as int) < 0x1_0000_0000_0000_0000
    ensures WordBytes(lo as int + 0x1_0000_0000 * (hi as int)) == Bytes32(lo) + Bytes32(hi)
  {
    hide Bytes32;
  }

  lemma WordBack(b: seq<byte>, o: nat)
    requires o + 8 <= |b|
    ensures WordBytes(WordOf(b, o)) == b[o..o + 8]
  {
    Le32Back(b, o);
    Le32Back(b, o + 4);
    hide Le32, Bytes32, WordBytes;
    Halves(Le32(b, o), Le32(b, o + 4));
    assert b[o..o + 8] == b[o..o + 4] + b[o + 4..o + 8];
  }

  lemma PageReads(p: Loader.UserPage, t: nat)
    requires t < PAGE_SIZE
    ensures ByteIn(PageOf(p), t) == p[t]
  {
    WordBack(p, t / 8 * 8);
    hide WordBytes, WordOf;
    assert p[t / 8 * 8..t / 8 * 8 + 8][t % 8] == p[t];
  }

  // ---- What a process finds at an address ----

  ghost predicate HoldsPage(ram: seq<Page>, root: nat, n: nat, p: Loader.UserPage) {
    && InUser(n)
    && var e := Leaf(ram, root, Px(1, n), Px(0, n));
       V(e) && PermOf(e) == HEAP && Ppn(e) < |ram| && ram[Ppn(e)] == PageOf(p)
  }

  // The hardware finds the byte at the address, in a page of the process that may
  // be read, written and run.
  ghost predicate Finds(ram: seq<Page>, root: nat, a: nat, b: byte) {
    match Translate(ram, root, a)
    case Fault => false
    case Page(ppn, r, w, x, u) => r && w && x && u && ppn < |ram| && ByteIn(ram[ppn], a % PAGE_SIZE) == b
  }

  lemma PageFinds(ram: seq<Page>, roots: seq<nat>, kroot: nat, role: map<nat, Role>, pid: nat, n: nat,
      p: Loader.UserPage, t: nat)
    requires Owned(ram, roots, kroot, role) && pid < MAX_PROCS && roots[pid] != 0
    requires HoldsPage(ram, roots[pid], n, p) && t < PAGE_SIZE
    ensures Finds(ram, roots[pid], PAGE_SIZE * n + t, p[t])
  {
    assert |roots| == MAX_PROCS;
    hide Owned, Leaf, V, PermOf, Ppn, PageOf, ByteIn, Translate, LeafFound;
    PageReads(p, t);
    assert (PAGE_SIZE * n + t) / PAGE_SIZE == n && (PAGE_SIZE * n + t) % PAGE_SIZE == t;
    WalkFinds(ram, roots, kroot, role, pid, PAGE_SIZE * n + t);
    PermFound(Leaf(ram, roots[pid], Px(1, n), Px(0, n)), HEAP);
  }

  // ---- Filling the pages of a new space ----

  // Only the contents of private frames of the process differ.
  ghost predicate SameSpace(ram: seq<Page>, ram': seq<Page>, roots: seq<nat>, role: map<nat, Role>, pid: nat) {
    && |ram'| == |ram| && |roots| == MAX_PROCS
    && (forall p: nat :: p < |ram| && !(p in role && role[p].Own? && role[p].pid == pid) ==> ram'[p] == ram[p])
    && (forall q, i1, i0 {:trigger Leaf(ram', roots[q], i1, i0)} ::
          0 <= q < MAX_PROCS && 0 <= i1 < PTES && 0 <= i0 < PTES && roots[q] != 0 ==>
            Leaf(ram', roots[q], i1, i0) == Leaf(ram, roots[q], i1, i0))
  }

  lemma SameSpaceTwice(a: seq<Page>, b: seq<Page>, c: seq<Page>, roots: seq<nat>, role: map<nat, Role>, pid: nat)
    requires SameSpace(a, b, roots, role, pid) && SameSpace(b, c, roots, role, pid)
    ensures SameSpace(a, c, roots, role, pid)
  {
    hide Leaf;
    forall q, i1, i0 {:trigger Leaf(c, roots[q], i1, i0)} | 0 <= q < MAX_PROCS && 0 <= i1 < PTES && 0 <= i0 < PTES
        && roots[q] != 0
      ensures Leaf(c, roots[q], i1, i0) == Leaf(a, roots[q], i1, i0)
    {
      assert Leaf(b, roots[q], i1, i0) == Leaf(a, roots[q], i1, i0);
    }
  }

  // The page is mapped to a frame of the process's own.
  ghost predicate OwnPage(ram: seq<Page>, root: nat, n: nat) {
    InUser(n) && var e := Leaf(ram, root, Px(1, n), Px(0, n)); V(e) && PermOf(e) == HEAP
  }

  // The frame an own page is mapped to.
  lemma OwnFrame(ram: seq<Page>, roots: seq<nat>, kroot: nat, role: map<nat, Role>, pid: nat, n: nat)
    requires Owned(ram, roots, kroot, role) && pid < MAX_PROCS && roots[pid] != 0 && OwnPage(ram, roots[pid], n)
    ensures var f := Ppn(Leaf(ram, roots[pid], Px(1, n), Px(0, n)));
            0 < f < |ram| && f in role && role[f] == Own(pid, Frame(Px(1, n), Px(0, n)))
  {
    LeafIs(ram, roots, kroot, role, pid, Px(1, n), Px(0, n));
  }

  lemma StoreKeepsSpace(ram: seq<Page>, roots: seq<nat>, kroot: nat, role: map<nat, Role>, pid: nat, n: nat, page: Page)
    requires Owned(ram, roots, kroot, role) && pid < MAX_PROCS && roots[pid] != 0 && OwnPage(ram, roots[pid], n)
    ensures var f := Ppn(Leaf(ram, roots[pid], Px(1, n), Px(0, n)));
            && f < |ram| && Owned(ram[f := page], roots, kroot, role)
            && SameSpace(ram, ram[f := page], roots, role, pid)
  {
    OwnFrame(ram, roots, kroot, role, pid, n);
    RangeOfRoles(ram, roots, kroot, role);
    var f := Ppn(Leaf(ram, roots[pid], Px(1, n), Px(0, n)));
    var ram' := ram[f := page];
    OwnedFrame(ram, ram', roots, kroot, role, role);
    forall q, i1, i0 {:trigger Leaf(ram', roots[q], i1, i0)} | 0 <= q < MAX_PROCS && 0 <= i1 < PTES && 0 <= i0 < PTES
        && roots[q] != 0
      ensures Leaf(ram', roots[q], i1, i0) == Leaf(ram, roots[q], i1, i0)
    {
      LeafUntouched(ram, ram', roots, kroot, role, q, i1, i0);
    }
  }

  // A page filled earlier keeps its bytes: its frame is another one.
  lemma PageKept(ram: seq<Page>, roots: seq<nat>, kroot: nat, role: map<nat, Role>, pid: nat, n: nat, page: Page,
      k: nat, p: Loader.UserPage)
    requires Owned(ram, roots, kroot, role) && pid < MAX_PROCS && roots[pid] != 0
    requires OwnPage(ram, roots[pid], n) && HoldsPage(ram, roots[pid], k, p) && k != n
    requires var f := Ppn(Leaf(ram, roots[pid], Px(1, n), Px(0, n)));
             f < |ram| && SameSpace(ram, ram[f := page], roots, role, pid)
    ensures HoldsPage(ram[Ppn(Leaf(ram, roots[pid], Px(1, n), Px(0, n))) := page], roots[pid], k, p)
  {
    OwnFrame(ram, roots, kroot, role, pid, n);
    OwnFrame(ram, roots, kroot, role, pid, k);
    UserIndices(n);
    UserIndices(k);
    hide Owned, Leaf, V, PermOf, Ppn, PageOf;
    var f := Ppn(Leaf(ram, roots[pid], Px(1, n), Px(0, n)));
    assert Leaf(ram[f := page], roots[pid], Px(1, k), Px(0, k)) == Leaf(ram, roots[pid], Px(1, k), Px(0, k));
  }

  // memcpy of one page into the frame mapped at n
  method FillPage(m: Machine, pid: nat, n: nat, p: Loader.UserPage)
    requires m.Valid() && pid < MAX_PROCS && m.roots[pid] != 0 && OwnPage(m.mem.ram, m.roots[pid], n)
    modifies m`role, m.mem
    ensures m.Valid() && m.role == old(m.role) && SameSpace(old(m.mem.ram), m.mem.ram, m.roots, m.role, pid)
    ensures HoldsPage(m.mem.ram, m.roots[pid], n, p)
    ensures forall k, q :: k != n && HoldsPage(old(m.mem.ram), m.roots[pid], k, q) ==>
              HoldsPage(m.mem.ram, m.roots[pid], k, q)
  {
    hide Owned, Chain, At, PageOf, HoldsPage, Leaf, V, Ppn, PermOf, R, W, X, U, Shared, SameSpace;
    ghost var ram := m.mem.ram;
    var t := m.Walk(pid, n, false);
    LeafOfWalk(ram, m.roots, m.kroot, m.role, m.mem.free, pid, Px(1, n), Px(0, n));
    OwnFrame(ram, m.roots, m.kroot, m.role, pid, n);
    OwnTranslates(ram, m.roots[pid], n);
    var f := Ppn(m.mem.ram[t][Px(0, n)]);
    StoreKeepsSpace(ram, m.roots, m.kroot, m.role, pid, n, PageOf(p));
    m.mem.Store(f, PageOf(p));
    StoredHolds(ram, m.mem.ram, m.roots, m.role, pid, n, p);
    forall k, q | k != n && HoldsPage(ram, m.roots[pid], k, q)
      ensures HoldsPage(m.mem.ram, m.roots[pid], k, q)
    {
      PageKept(ram, m.roots, m.kroot, m.role, pid, n, PageOf(p), k, q);
    }
  }

  lemma OwnTranslates(ram: seq<Page>, root: nat, n: nat)
    requires OwnPage(ram, root, n)
    ensures Translates(Leaf(ram, root, Px(1, n), Px(0, n)))
  {
    hide Leaf;
  }

  lemma StoredHolds(ram: seq<Page>, ram': seq<Page>, roots: seq<nat>, role: map<nat, Role>, pid: nat, n: nat,
      p: Loader.UserPage)
    requires pid < MAX_PROCS && SameSpace(ram, ram', roots, role, pid) && roots[pid] != 0 && OwnPage(ram, roots[pid], n)
    requires var f := Ppn(Leaf(ram, roots[pid], Px(1, n), Px(0, n))); f < |ram'| && ram'[f] == PageOf(p)
    ensures HoldsPage(ram', roots[pid], n, p)
  {
    hide Leaf, V, Ppn, PermOf, PageOf;
    UserIndices(n);
    assert Leaf(ram', roots[pid], Px(1, n), Px(0, n)) == Leaf(ram, roots[pid], Px(1, n), Px(0, n));
  }

  // Every page of the image goes into its frame.
  method FillPages(m: Machine, pid: nat, image: map<nat, Loader.UserPage>)
    requires m.Valid() && pid < MAX_PROCS && m.roots[pid] != 0
    requires forall n :: n in image ==> OwnPage(m.mem.ram, m.roots[pid], n)
    modifies m`role, m.mem
    ensures m.Valid() && m.role == old(m.role) && SameSpace(old(m.mem.ram), m.mem.ram, m.roots, m.role, pid)
    ensures forall n :: n in image ==> HoldsPage(m.mem.ram, m.roots[pid], n, image[n])
  {
    hide Owned, Chain, At, HoldsPage, Leaf, SameSpace, OwnPage;
    ghost var ram0 := m.mem.ram;
    SameSpaceSelf(ram0, m.roots, m.role, pid);
    InUserRange(ram0, m.roots[pid], image);
    for n := USER_START to USER_END
      invariant m.Valid() && m.role == old(m.role) && SameSpace(ram0, m.mem.ram, m.roots, m.role, pid)
      invariant forall k :: k in image && k < n ==> HoldsPage(m.mem.ram, m.roots[pid], k, image[k])
    {
      if n in image {
        ghost var ram1 := m.mem.ram;
        StillOwn(ram0, ram1, m.roots, m.role, pid, n);
        FillPage(m, pid, n, image[n]);
        SameSpaceTwice(ram0, ram1, m.mem.ram, m.roots, m.role, pid);
      }
    }
  }

  lemma SameSpaceSelf(ram: seq<Page>, roots: seq<nat>, role: map<nat, Role>, pid: nat)
    requires |roots| == MAX_PROCS
    ensures SameSpace(ram, ram, roots, role, pid)
  {
  }

  lemma InUserRange(ram: seq<Page>, root: nat, image: map<nat, Loader.UserPage>)
    requires forall n :: n in image ==> OwnPage(ram, root, n)
    ensures forall n :: n in image ==> InUser(n)
  {
    hide Leaf;
  }

  lemma StillOwn(ram: seq<Page>, ram': seq<Page>, roots: seq<nat>, role: map<nat, Role>, pid: nat, n: nat)
    requires pid < MAX_PROCS && SameSpace(ram, ram', roots, role, pid) && roots[pid] != 0 && OwnPage(ram, roots[pid], n)
    ensures OwnPage(ram', roots[pid], n)
  {
    hide Leaf, V, PermOf;
    UserIndices(n);
    assert Leaf(ram', roots[pid], Px(1, n), Px(0, n)) == Leaf(ram, roots[pid], Px(1, n), Px(0, n));
  }

  // ---- context_uload ----

  // The pages of the segments to be loaded.
  function SegmentRegions(segments: seq<Loader.Segment>): seq<Region> {
    if segments == [] then []
    else
      var s := segments[|segments| - 1];
      SegmentRegions(segments[..|segments| - 1])
      + if s.load then [Region(Loader.FirstPage(s), Loader.EndPage(s))] else []
  }

  lemma {:induction false} RegionsCover(segments: seq<Loader.Segment>)
    ensures forall n: nat :: InRegions(SegmentRegions(segments), n) <==> Loader.Covered(segments, n)
  {
    hide Loader.Covers;
    if segments != [] {
      var k := |segments| - 1;
      var init, s := segments[..k], segments[k];
      RegionsCover(init);
      forall n: nat
        ensures InRegions(SegmentRegions(segments), n) <==> Loader.Covered(segments, n)
      {
        CoveredOneMore(segments, n);
        if s.load {
          JoinRegions(SegmentRegions(init), Region(Loader.FirstPage(s), Loader.EndPage(s)), n);
          CoversWithin(s, n);
        } else {
          assert SegmentRegions(segments) == SegmentRegions(init);
        }
      }
    }
  }

  lemma CoversWithin(s: Loader.Segment, n: nat)
    ensures Loader.Covers(s, n) <==> Within(Region(Loader.FirstPage(s), Loader.EndPage(s)), n)
  {
  }

  lemma JoinRegions(a: seq<Region>, g: Region, n: nat)
    ensures InRegions(a + [g], n) <==> InRegions(a, n) || Within(g, n)
  {
    var b := a + [g];
    assert b[..|a|] == a && b[..|a| + 1] == b && b[|a|] == g;
    InOneMore(b, |a|);
  }

  lemma CoveredOneMore(segments: seq<Loader.Segment>, n: nat)
    requires segments != []
    ensures var k := |segments| - 1;
            Loader.Covered(segments, n) <==>
            Loader.Covered(segments[..k], n) || (segments[k].load && Loader.Covers(segments[k], n))
  {
    hide Loader.Covers;
    var k := |segments| - 1;
    if i :| 0 <= i < k && segments[..k][i].load && Loader.Covers(segments[..k][i], n) {
      assert segments[i] == segments[..k][i];
    }
    if i :| 0 <= i < |segments| && segments[i].load && Loader.Covers(segments[i], n) {
      assert i < k ==> segments[..k][i] == segments[i];
    }
  }

  const TOP: nat := USER_END - 1  // the last page of the stack

  // The process finds every byte of the file's segments, and zeros behind them.
  ghost predicate FindsProgram(ram: seq<Page>, root: nat, segments: seq<Loader.Segment>, buf: seq<byte>)
    requires forall i :: 0 <= i < |segments| ==> Loader.InBuffer(segments[i], buf)
  {
    forall i, a ::
        0 <= i < |segments| && segments[i].load && segments[i].vaddr <= a < segments[i].vaddr + segments[i].memsz ==>
      Finds(ram, root, a, Loader.SegmentByte(segments[i], buf, a))
  }

  // And it finds the page at the top of its stack.
  ghost predicate FindsTop(ram: seq<Page>, root: nat, page: Loader.UserPage) {
    forall t :: 0 <= t < PAGE_SIZE ==> Finds(ram, root, UserStack.PAGE_BASE + t, page[t])
  }

  lemma SegmentFound(ram: seq<Page>, roots: seq<nat>, kroot: nat, role: map<nat, Role>, pid: nat,
      pages: map<nat, Loader.UserPage>, s: Loader.Segment, buf: seq<byte>, a: nat)
    requires Owned(ram, roots, kroot, role) && pid < MAX_PROCS && roots[pid] != 0
    requires Loader.InBuffer(s, buf) && Loader.Loaded(pages, s, buf) && s.vaddr <= a < s.vaddr + s.memsz
    requires forall n :: n in pages ==> HoldsPage(ram, roots[pid], n, pages[n])
    ensures Finds(ram, roots[pid], a, Loader.SegmentByte(s, buf, a))
  {
    assert |roots| == MAX_PROCS;
    hide Owned, HoldsPage, Finds, Loader.SegmentByte;
    assert Loader.Holds(pages, a, Loader.SegmentByte(s, buf, a));
    PageFinds(ram, roots, kroot, role, pid, a / PAGE_SIZE, pages[a / PAGE_SIZE], a % PAGE_SIZE);
    assert PAGE_SIZE * (a / PAGE_SIZE) + a % PAGE_SIZE == a;
  }

  lemma AllFound(ram: seq<Page>, roots: seq<nat>, kroot: nat, role: map<nat, Role>, pid: nat,
      pages: map<nat, Loader.UserPage>, segments: seq<Loader.Segment>, buf: seq<byte>, page: Loader.UserPage)
    requires Owned(ram, roots, kroot, role) && pid < MAX_PROCS && roots[pid] != 0
    requires forall i :: 0 <= i < |segments| ==> Loader.InBuffer(segments[i], buf)
    requires forall i :: 0 <= i < |segments| && segments[i].load ==> Loader.Loaded(pages, segments[i], buf)
    requires forall n :: n in pages ==> HoldsPage(ram, roots[pid], n, pages[n])
    requires HoldsPage(ram, roots[pid], TOP, page)
    ensures FindsProgram(ram, roots[pid], segments, buf) && FindsTop(ram, roots[pid], page)
  {
    assert |roots| == MAX_PROCS;
    hide Owned, HoldsPage, Finds, Loader.Loaded, Loader.SegmentByte;
    forall i, a | 0 <= i < |segments| && segments[i].load
        && segments[i].vaddr <= a < segments[i].vaddr + segments[i].memsz
      ensures Finds(ram, roots[pid], a, Loader.SegmentByte(segments[i], buf, a))
    {
      SegmentFound(ram, roots, kroot, role, pid, pages, segments[i], buf, a);
    }
    forall t | 0 <= t < PAGE_SIZE
      ensures Finds(ram, roots[pid], UserStack.PAGE_BASE + t, page[t])
    {
      PageFinds(ram, roots, kroot, role, pid, TOP, page, t);
      assert PAGE_SIZE * TOP == UserStack.PAGE_BASE;
    }
  }

  // The pages to be filled are mapped, and the stack's is no segment's.
  lemma {:induction false} ImageMapped(ram: seq<Page>, root: nat, segments: seq<Loader.Segment>,
      pages: map<nat, Loader.UserPage>)
    requires forall i :: 0 <= i < |segments| && segments[i].load ==>
            UserRegion(Region(Loader.FirstPage(segments[i]), Loader.EndPage(segments[i])))
    requires forall n :: n in pages <==> Loader.Covered(segments, n)
    requires MapsExactly(ram, root, [STACK] + SegmentRegions(segments)) && !Overlap([STACK] + SegmentRegions(segments))
    ensures TOP !in pages && OwnPage(ram, root, TOP)
    ensures forall n :: n in pages ==> OwnPage(ram, root, n)
  {
    RegionsCover(segments);
    var regions := SegmentRegions(segments);
    hide Leaf, V, PermOf, Loader.Covers, SegmentRegions, Overlap;
    forall n: nat
      ensures InRegions([STACK] + regions, n) <==> Within(STACK, n) || InRegions(regions, n)
    {
      StackFirst(regions, n);
    }
    assert Within(STACK, TOP);
    forall n: nat | n in pages || n == TOP
      ensures OwnPage(ram, root, n)
    {
      if n in pages {
        CoveredIsUser(segments, n);
      }
      UserIndices(n);
    }
    if TOP in pages {
      StackShared(regions);
    }
  }

  lemma CoveredIsUser(segments: seq<Loader.Segment>, n: nat)
    requires forall i :: 0 <= i < |segments| && segments[i].load ==>
            UserRegion(Region(Loader.FirstPage(segments[i]), Loader.EndPage(segments[i])))
    requires Loader.Covered(segments, n)
    ensures InUser(n)
  {
  }

  lemma StackFirst(regions: seq<Region>, n: nat)
    ensures InRegions([STACK] + regions, n) <==> Within(STACK, n) || InRegions(regions, n)
  {
    hide Within;
    var all := [STACK] + regions;
    assert all[0] == STACK;
    if k :| 0 <= k < |regions| && Within(regions[k], n) {
      assert all[k + 1] == regions[k];
    }
    if k :| 0 <= k < |all| && Within(all[k], n) {
      assert k > 0 ==> regions[k - 1] == all[k];
    }
  }

  lemma StackShared(regions: seq<Region>)
    requires InRegions(regions, TOP)
    ensures Overlap([STACK] + regions)
  {
    var k :| 0 <= k < |regions| && Within(regions[k], TOP);
    var all := [STACK] + regions;
    assert all[k + 1] == regions[k] && Within(all[k + 1], TOP);
    assert all[..k + 1][0] == STACK && Within(all[..k + 1][0], TOP);
    assert InRegions(all[..k + 1], TOP);
  }

  // Filling the frames changes no mapping and nobody else's pages.
  lemma FilledKeeps(ram: seq<Page>, role: map<nat, Role>, ram1: seq<Page>, role1: map<nat, Role>, ram2: seq<Page>,
      roots: seq<nat>, pid: nat, regions: seq<Region>)
    requires OthersKept(ram, role, ram1, role1, pid) && SameSpace(ram1, ram2, roots, role1, pid)
    requires pid < MAX_PROCS && roots[pid] != 0 && MapsExactly(ram1, roots[pid], regions)
    ensures OthersKept(ram, role, ram2, role1, pid) && MapsExactly(ram2, roots[pid], regions)
  {
    hide Leaf, V, PermOf, InRegions;
    forall i1, i0 {:trigger Leaf(ram2, roots[pid], i1, i0)} | 0 <= i1 < PTES && 0 <= i0 < PTES
      ensures Leaf(ram2, roots[pid], i1, i0) == Leaf(ram1, roots[pid], i1, i0)
    {
    }
  }

  // proc_exec_reclaim and context_uload: the process finds its program and its
  // arguments. The kernel stops when the arguments exceed a page, a segment has
  // impossible sizes, two regions share a page, or no page is left.
  method LoadProgramSpace(m: Machine, pid: nat, segments: seq<Loader.Segment>, buf: seq<byte>,
      argv: seq<UserStack.CString>, envp: seq<UserStack.CString>)
      returns (ok: bool, sp: nat, vsp: nat, ghost page: Loader.UserPage, ghost lost: nat)
    requires m.Valid() && pid < MAX_PROCS
    requires forall i :: 0 <= i < |segments| ==> Loader.InBuffer(segments[i], buf)
    requires forall i :: 0 <= i < |segments| && segments[i].load ==>
            UserRegion(Region(Loader.FirstPage(segments[i]), Loader.EndPage(segments[i])))
    modifies m`role, m`roots, m.mem
    ensures ok ==>
              && m.Valid() && m.roots == old(m.roots)[pid := m.roots[pid]] && m.roots[pid] != 0
              && MapsExactly(m.mem.ram, m.roots[pid], [STACK] + SegmentRegions(segments))
              && Reaches(m.mem.ram, m.roots[pid], [STACK] + SegmentRegions(segments))
              && OthersKept(old(m.mem.ram), old(m.role), m.mem.ram, m.role, pid)
              && NoneLost(old(m.role), m.role)
    ensures ok ==> FindsProgram(m.mem.ram, m.roots[pid], segments, buf) && FindsTop(m.mem.ram, m.roots[pid], page)
    ensures ok ==> UserStack.Block(page, sp, argv, envp) && vsp == UserStack.PAGE_BASE + sp
    ensures !ok ==>
              || UserStack.ArgsTotal(argv, envp) > PAGE_SIZE || !Loader.Loadable(segments, {})
              || Overlap([STACK] + SegmentRegions(segments))
              || (m.Valid() && m.mem.free == [] && LostOnly(old(m.role), m.role, lost))
  {
    hide Owned, Chain, Leaf, At, Partition, MapsExactly, OthersKept, NoneLost, LostOnly, Overlap, OwnPage, HoldsPage,
        Reaches,
        SameSpace, FindsProgram, FindsTop, Loader.Loaded, Loader.Loadable, Loader.Covered, UserStack.Block;
    var stack := new byte[Loader.PGSIZE](_ => 0);
    page := stack[..];
    lost := 0;
    ok, sp, vsp := UserStack.BuildArguments(stack, argv, envp);
    if !ok {
      return;
    }
    var space := new Loader.Space();
    var maxBrk;
    assert space.pages.Keys == {};
    ok, maxBrk := space.LoadProgram(segments, buf);
    if !ok {
      return;
    }
    UserSegments(segments);
    ghost var ram0, role0 := m.mem.ram, m.role;
    ok, lost := ExecSpace(m, pid, SegmentRegions(segments));
    if !ok {
      return;
    }
    ghost var ram1 := m.mem.ram;
    page := stack[..];
    ImageMapped(ram1, m.roots[pid], segments, space.pages);
    var image := space.pages[TOP := stack[..]];
    FillPages(m, pid, image);
    assert TOP in image && image[TOP] == page;
    assert forall n :: n in space.pages ==> n in image && image[n] == space.pages[n];
    FilledKeeps(ram0, role0, ram1, m.role, m.mem.ram, m.roots, pid, [STACK] + SegmentRegions(segments));
    MapsReach(m.mem.ram, m.roots, m.kroot, m.role, m.mem.free, pid, [STACK] + SegmentRegions(segments));
    OwnedOf(m.mem.ram, m.roots, m.kroot, m.role, m.mem.free);
    AllFound(m.mem.ram, m.roots, m.kroot, m.role, pid, space.pages, segments, buf, page);
  }

  lemma {:induction false} UserSegments(segments: seq<Loader.Segment>)
    requires forall i :: 0 <= i < |segments| && segments[i].load ==>
            UserRegion(Region(Loader.FirstPage(segments[i]), Loader.EndPage(segments[i])))
    ensures forall g :: g in SegmentRegions(segments) ==> UserRegion(g)
  {
    hide UserRegion;
    if segments != [] {
      UserSegments(segments[..|segments| - 1]);
    }
  }
}
