// context_uload's argument block: argc, the argv and envp pointers and the
// strings, at the top of the last page of a new program's stack.
module UserStack {
  import opened Bytes
  import opened Loader

  const STACK_BOTTOM: nat := 0x8000_0000  // as.end, where the stack begins
  const PAGE_BASE: nat := 0x7FFF_F000     // the user address of the last stack page

  // A C string's characters: no byte of it is the terminator.
  type CString = s: seq<byte> | forall i :: 0 <= i < |s| ==> s[i] != 0

  // ---- Words of eight bytes ----

  function Put64(p: seq<byte>, off: nat, v: u32): (r: seq<byte>)
    requires off + 8 <= |p|
    ensures |r| == |p|
    ensures forall i {:trigger r[i]} :: 0 <= i < |p| && !(off <= i < off + 8) ==> r[i] == p[i]
  {
    Splice(p, off, Bytes32(v) + [0, 0, 0, 0])
  }

  function Get64(p: seq<byte>, off: nat): nat
    requires off + 8 <= |p|
  {
    Le32(p, off) + 0x1_0000_0000 * Le32(p, off + 4)
  }

  // Only the eight bytes themselves matter.
  lemma Get64Local(a: seq<byte>, b: seq<byte>, off: nat)
    requires |a| == |b| && off + 8 <= |a| && a[off..off + 8] == b[off..off + 8]
    ensures Get64(a, off) == Get64(b, off)
  {
    assert a[off..off + 4] == a[off..off + 8][..4] && b[off..off + 4] == b[off..off + 8][..4];
    assert a[off + 4..off + 8] == a[off..off + 8][4..] && b[off + 4..off + 8] == b[off..off + 8][4..];
    Le32Local(a, off, b, off);
    Le32Local(a, off + 4, b, off + 4);
  }

  lemma Put64Reads(p: seq<byte>, off: nat, v: u32)
    requires off + 8 <= |p|
    ensures Get64(Put64(p, off, v), off) == v
  {
  }

  // ---- Strings ----

  // The bytes from off up to the first terminator.
  function ReadString(p: seq<byte>, off: nat): seq<byte>
    decreases |p| - off
  {
    if off >= |p| || p[off] == 0 then [] else [p[off]] + ReadString(p, off + 1)
  }

  // A string and its terminator lie at off.
  predicate StringAt(p: seq<byte>, off: nat, s: seq<byte>) {
    off + |s| < |p| && p[off..off + |s|] == s && p[off + |s|] == 0
  }

  lemma {:induction false} ReadBack(p: seq<byte>, off: nat, s: CString)
    requires StringAt(p, off, s)
    ensures ReadString(p, off) == s
    decreases |s|
  {
    if s != [] {
      assert p[off] == p[off..off + |s|][0] == s[0];
      assert p[off + 1..off + |s|] == s[1..];
      ReadBack(p, off + 1, s[1..]);
    }
  }

  // ---- The layout ----

  // Bytes the first n strings take, terminators included.
  function Sizes(ss: seq<CString>, n: nat): nat
    requires n <= |ss|
  {
    if n == 0 then 0 else Sizes(ss, n - 1) + |ss[n - 1]| + 1
  }

  lemma {:induction false} SizesMonotone(ss: seq<CString>, m: nat, n: nat)
    requires m < n <= |ss|
    ensures Sizes(ss, m) + |ss[m]| + 1 <= Sizes(ss, n)
  {
    if m < n - 1 { SizesMonotone(ss, m, n - 1); }
  }

  // The pointer at `slot` leads to the k-th string.
  predicate Points(p: seq<byte>, slot: nat, strings: nat, ss: seq<CString>, k: nat)
    requires k < |ss|
  {
    && slot + 8 <= |p| && Get64(p, slot) == PAGE_BASE + strings + Sizes(ss, k)
    && StringAt(p, strings + Sizes(ss, k), ss[k])
  }

  // The first n strings have their pointers at `table` and themselves from
  // `strings` on.
  ghost predicate Placed(p: seq<byte>, table: nat, strings: nat, ss: seq<CString>, n: nat)
    requires n <= |ss|
  {
    forall k :: 0 <= k < n ==> Points(p, table + 8 * k, strings, ss, k)
  }

  // A pointer and its string are eight bytes and a few more.
  lemma PointsKept(p: seq<byte>, q: seq<byte>, slot: nat, strings: nat, ss: seq<CString>, k: nat)
    requires k < |ss| && Points(p, slot, strings, ss, k) && |q| == |p|
    requires forall i :: slot <= i < slot + 8 ==> q[i] == p[i]
    requires forall i :: strings + Sizes(ss, k) <= i <= strings + Sizes(ss, k) + |ss[k]| ==> q[i] == p[i]
    ensures Points(q, slot, strings, ss, k)
  {
    hide Get64, Sizes;
    var at := strings + Sizes(ss, k);
    assert p[slot..slot + 8] == q[slot..slot + 8];
    Get64Local(p, q, slot);
    assert q[at..at + |ss[k]|] == p[at..at + |ss[k]|];
  }

  lemma InBounds(p: seq<byte>, slot: nat, strings: nat, ss: seq<CString>, k: nat)
    requires k < |ss| && Points(p, slot, strings, ss, k)
    ensures slot + 8 <= |p| && strings + Sizes(ss, k) + |ss[k]| < |p|
  {
  }

  // strcpy
  method CopyString(page: array<byte>, at: nat, s: CString)
    requires at + |s| < page.Length
    modifies page
    ensures page[..] == Splice(old(page[..]), at, s + [0])
  {
    for i := 0 to |s|
      invariant page[..] == Splice(old(page[..]), at, s[..i])
    {
      page[at + i] := s[i];
      assert page[..] == Splice(old(page[..]), at, s[..i + 1]);
    }
    page[at + |s|] := 0;
    assert page[..] == Splice(old(page[..]), at, s + [0]);
  }

  // *(uintptr_t *)(page + off) = v
  method Store(page: array<byte>, off: nat, v: u32)
    requires off + 8 <= page.Length
    modifies page
    ensures page[..] == Put64(old(page[..]), off, v)
  {
    var d := Bytes32(v) + [0, 0, 0, 0];
    for i := 0 to 8
      invariant page[..] == Splice(old(page[..]), off, d[..i])
    {
      page[off + i] := d[i];
      assert page[..] == Splice(old(page[..]), off, d[..i + 1]);
    }
    assert d[..8] == d;
  }

  // One of context_uload's two loops: each string is copied behind the last one
  // and its user address stored in the table.
  method PlaceStrings(page: array<byte>, table: nat, strings: nat, ss: seq<CString>)
    requires page.Length == PGSIZE && table + 8 * |ss| <= strings && strings + Sizes(ss, |ss|) <= PGSIZE
    modifies page
    ensures Placed(page[..], table, strings, ss, |ss|)
    ensures forall i ::
            0 <= i < PGSIZE && !(table <= i < table + 8 * |ss|) && !(strings <= i < strings + Sizes(ss, |ss|)) ==>
        page[i] == old(page[i])
  {
    hide Points, Put64;
    var strpos := strings;
    for k := 0 to |ss|
      invariant strpos == strings + Sizes(ss, k) <= PGSIZE
      invariant Placed(page[..], table, strings, ss, k)
      invariant forall i :: 0 <= i < PGSIZE && !(table <= i < table + 8 * k) && !(strings <= i < strpos) ==>
              page[i] == old(page[i])
    {
      SizesMonotone(ss, k, |ss|);
      ghost var before := page[..];
      Store(page, table + 8 * k, PAGE_BASE + strpos);
      ghost var middle := page[..];
      CopyString(page, strpos, ss[k]);
      PlaceOne(before, middle, page[..], table, strings, ss, k);
      PlaceOutside(before, middle, page[..], table, strings, ss, k);
      strpos := strpos + |ss[k]| + 1;
    }
  }

  // The next string and its pointer join those already there.
  lemma PlaceOne(p: seq<byte>, q: seq<byte>, r: seq<byte>, table: nat, strings: nat, ss: seq<CString>, k: nat)
    requires |p| == PGSIZE && k < |ss| && table + 8 * |ss| <= strings && strings + Sizes(ss, k) + |ss[k]| < PGSIZE
    requires q == Put64(p, table + 8 * k, PAGE_BASE + strings + Sizes(ss, k))
    requires r == Splice(q, strings + Sizes(ss, k), ss[k] + [0])
    requires Placed(p, table, strings, ss, k)
    ensures Placed(r, table, strings, ss, k + 1)
  {
    hide Points, Sizes;
    var slot, at := table + 8 * k, strings + Sizes(ss, k);
    forall j | 0 <= j < k
      ensures Points(r, table + 8 * j, strings, ss, j)
    {
      SizesMonotone(ss, j, k);
      InBounds(p, table + 8 * j, strings, ss, j);
      PointsKept(p, r, table + 8 * j, strings, ss, j);
    }
    NewPoints(p, q, r, slot, strings, ss, k);
  }

  lemma NewPoints(p: seq<byte>, q: seq<byte>, r: seq<byte>, slot: nat, strings: nat, ss: seq<CString>, k: nat)
    requires |p| == PGSIZE && k < |ss| && slot + 8 <= strings && strings + Sizes(ss, k) + |ss[k]| < PGSIZE
    requires q == Put64(p, slot, PAGE_BASE + strings + Sizes(ss, k))
    requires r == Splice(q, strings + Sizes(ss, k), ss[k] + [0])
    ensures Points(r, slot, strings, ss, k)
  {
    hide Put64, Get64, Sizes;
    var at := strings + Sizes(ss, k);
    Put64Reads(p, slot, PAGE_BASE + at);
    assert q[slot..slot + 8] == r[slot..slot + 8];
    Get64Local(q, r, slot);
    assert r[at..at + |ss[k]|] == ss[k];
  }

  lemma PlaceOutside(p: seq<byte>, q: seq<byte>, r: seq<byte>, table: nat, strings: nat, ss: seq<CString>, k: nat)
    requires |p| == PGSIZE && k < |ss| && table + 8 * |ss| <= strings && strings + Sizes(ss, k) + |ss[k]| < PGSIZE
    requires q == Put64(p, table + 8 * k, PAGE_BASE + strings + Sizes(ss, k))
    requires r == Splice(q, strings + Sizes(ss, k), ss[k] + [0])
    ensures forall i ::
            0 <= i < PGSIZE && !(table <= i < table + 8 * (k + 1)) && !(strings <= i < strings + Sizes(ss, k + 1)) ==>
            r[i] == p[i]
  {
  }

  // Bytes the whole block takes, before alignment.
  function ArgsTotal(argv: seq<CString>, envp: seq<CString>): nat {
    8 + (|argv| + 1 + |envp| + 1) * 8 + Sizes(argv, |argv|) + Sizes(envp, |envp|)
  }

  // sp & ~7
  function Align8(n: nat): (a: nat)
    ensures a % 8 == 0 && a <= n < a + 8
  {
    n / 8 * 8
  }

  // The block of a program's arguments, at offset sp of the page: argc, the argv
  // pointers and a null, the envp pointers and a null, each leading to its string.
  ghost predicate Block(page: seq<byte>, sp: nat, argv: seq<CString>, envp: seq<CString>) {
    && |page| == PGSIZE && sp % 8 == 0 && sp + ArgsTotal(argv, envp) <= PGSIZE
    && Get64(page, sp) == |argv|
    && Get64(page, sp + 8 + 8 * |argv|) == 0
    && Get64(page, sp + 16 + 8 * |argv| + 8 * |envp|) == 0
    && Placed(page, sp + 8, sp + 8 + (|argv| + 1 + |envp| + 1) * 8, argv, |argv|)
    && Placed(page, sp + 16 + 8 * |argv|, sp + 8 + (|argv| + 1 + |envp| + 1) * 8 + Sizes(argv, |argv|), envp, |envp|)
  }

  // Following the pointers gives the strings back.
  lemma ArgumentsReadBack(page: seq<byte>, sp: nat, argv: seq<CString>, envp: seq<CString>)
    requires Block(page, sp, argv, envp)
    ensures forall k :: 0 <= k < |argv| ==> Follows(page, sp + 8 + 8 * k, argv[k])
    ensures forall k :: 0 <= k < |envp| ==> Follows(page, sp + 16 + 8 * |argv| + 8 * k, envp[k])
  {
    hide Get64, Sizes;
    var strings := sp + 8 + (|argv| + 1 + |envp| + 1) * 8;
    forall k | 0 <= k < |argv|
      ensures Follows(page, sp + 8 + 8 * k, argv[k])
    {
      assert Points(page, sp + 8 + 8 * k, strings, argv, k);
      ReadBack(page, strings + Sizes(argv, k), argv[k]);
    }
    forall k | 0 <= k < |envp|
      ensures Follows(page, sp + 16 + 8 * |argv| + 8 * k, envp[k])
    {
      assert Points(page, sp + 16 + 8 * |argv| + 8 * k, strings + Sizes(argv, |argv|), envp, k);
      ReadBack(page, strings + Sizes(argv, |argv|) + Sizes(envp, k), envp[k]);
    }
  }

  // The word at `slot` is a user address in the page, and s is what is there.
  predicate Follows(page: seq<byte>, slot: nat, s: seq<byte>) {
    && slot + 8 <= |page| && PAGE_BASE <= Get64(page, slot)
    && ReadString(page, Get64(page, slot) - PAGE_BASE) == s
  }

  // The loops that add up str_size.
  method AddSizes(ss: seq<CString>) returns (n: nat)
    ensures n == Sizes(ss, |ss|)
  {
    n := 0;
    for i := 0 to |ss|
      invariant n == Sizes(ss, i)
    {
      n := n + |ss[i]| + 1;
    }
  }

  // context_uload's argument block; it panics when that exceeds one page. vsp is
  // the user stack pointer the program starts with.
  method BuildArguments(page: array<byte>, argv: seq<CString>, envp: seq<CString>) returns (ok: bool, sp: nat, vsp: nat)
    requires page.Length == PGSIZE
    modifies page
    ensures ok <==> ArgsTotal(argv, envp) <= PGSIZE
    ensures ok ==> Block(page[..], sp, argv, envp) && vsp == PAGE_BASE + sp
    ensures ok ==> PGSIZE - ArgsTotal(argv, envp) - 8 < sp
    ensures !ok ==> page[..] == old(page[..])
  {
    hide Put64, Get64, Points, Placed, Sizes, Align8;
    var argc, envc := |argv|, |envp|;
    var argBytes := AddSizes(argv);
    var envBytes := AddSizes(envp);
    var total := 8 + (argc + 1 + envc + 1) * 8 + (argBytes + envBytes);
    if total > PGSIZE {
      return false, 0, 0;
    }
    sp := Align8(PGSIZE - total);
    vsp := STACK_BOTTOM - (PGSIZE - sp);
    var argArea := sp + 8;
    var strpos := argArea + (argc + 1 + envc + 1) * 8;
    var envTable := argArea + (argc + 1) * 8;
    var envStrings := strpos + argBytes;
    Store(page, sp, argc);
    ghost var p1 := page[..];
    Put64Reads(old(page[..]), sp, argc);
    PlaceStrings(page, argArea, strpos, argv);
    ghost var p2 := page[..];
    WordKept(p1, p2, sp);
    Store(page, argArea + argc * 8, 0);
    ghost var p3 := page[..];
    Put64Reads(p2, argArea + argc * 8, 0);
    WordKept(p2, p3, sp);
    PlacedKept(p2, p3, argArea, strpos, argv, argArea + argc * 8, argArea + argc * 8 + 8);
    PlaceStrings(page, envTable, envStrings, envp);
    ghost var p4 := page[..];
    WordKept(p3, p4, sp);
    WordKept(p3, p4, argArea + argc * 8);
    PlacedApart(p3, p4, argArea, strpos, argv, envTable, envc, envStrings, Sizes(envp, envc));
    Store(page, envTable + envc * 8, 0);
    ghost var p5 := page[..];
    Put64Reads(p4, envTable + envc * 8, 0);
    WordKept(p4, p5, sp);
    WordKept(p4, p5, argArea + argc * 8);
    PlacedKept(p4, p5, argArea, strpos, argv, envTable + envc * 8, envTable + envc * 8 + 8);
    PlacedKept(p4, p5, envTable, envStrings, envp, envTable + envc * 8, envTable + envc * 8 + 8);
    return true, sp, vsp;
  }

  lemma WordKept(p: seq<byte>, q: seq<byte>, off: nat)
    requires |p| == |q| && off + 8 <= |p| && forall i :: off <= i < off + 8 ==> q[i] == p[i]
    ensures Get64(q, off) == Get64(p, off)
  {
  }

  // A store between a table and its strings leaves them.
  lemma PlacedKept(p: seq<byte>, q: seq<byte>, table: nat, strings: nat, ss: seq<CString>, lo: nat, hi: nat)
    requires |p| == |q| && Placed(p, table, strings, ss, |ss|)
    requires table + 8 * |ss| <= lo && hi <= strings && forall i :: 0 <= i < |p| && !(lo <= i < hi) ==> q[i] == p[i]
    ensures Placed(q, table, strings, ss, |ss|)
  {
    hide Points, Sizes;
    forall k | 0 <= k < |ss|
      ensures Points(q, table + 8 * k, strings, ss, k)
    {
      InBounds(p, table + 8 * k, strings, ss, k);
      PointsKept(p, q, table + 8 * k, strings, ss, k);
    }
  }

  // So does filling a table and a string area that lie apart from both.
  lemma PlacedApart(p: seq<byte>, q: seq<byte>, table: nat, strings: nat, ss: seq<CString>, lo: nat, n: nat, from: nat,
      size: nat)
    requires |p| == |q| && Placed(p, table, strings, ss, |ss|) && from + size <= |p|
    requires table + 8 * |ss| <= lo && lo + 8 * n <= strings && strings + Sizes(ss, |ss|) <= from
    requires forall i :: 0 <= i < |p| && !(lo <= i < lo + 8 * n) && !(from <= i < from + size) ==> q[i] == p[i]
    ensures Placed(q, table, strings, ss, |ss|)
  {
    hide Points, Sizes;
    forall k | 0 <= k < |ss|
      ensures Points(q, table + 8 * k, strings, ss, k)
    {
      SizesMonotone(ss, k, |ss|);
      InBounds(p, table + 8 * k, strings, ss, k);
      PointsKept(p, q, table + 8 * k, strings, ss, k);
    }
  }
}
