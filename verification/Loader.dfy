// loader.c: copying an ELF program's PT_LOAD segments into fresh user pages, and
// the argc/argv/envp block at the top of a new program's stack.
module Loader {
  import opened Bytes

  const PGSIZE: nat := 4096

  type UserPage = p: seq<byte> | |p| == PGSIZE witness Zeros(PGSIZE)

  // ---- Segments ----

  // A program header; load says whether its type is PT_LOAD.
  datatype Segment = Segment(load: bool, vaddr: nat, memsz: nat, filesz: nat, offset: nat)

  // The file's bytes that the segment names lie in the program buffer.
  predicate InBuffer(s: Segment, buf: seq<byte>) {
    s.offset + s.filesz <= |buf|
  }

  // What address a of a segment holds once it is loaded: the file's bytes first,
  // then zeros (System V gABI, chapter 5).
  function SegmentByte(s: Segment, buf: seq<byte>, a: nat): byte
    requires InBuffer(s, buf)
  {
    if s.vaddr <= a < s.vaddr + s.filesz then buf[s.offset + (a - s.vaddr)] else 0
  }

  // The n bytes from address a on, and so a whole page of it.
  function SegmentBytes(s: Segment, buf: seq<byte>, a: nat, n: nat): (p: seq<byte>)
    requires InBuffer(s, buf)
    ensures |p| == n && forall t :: 0 <= t < n ==> p[t] == SegmentByte(s, buf, a + t)
  {
    if n == 0 then [] else SegmentBytes(s, buf, a, n - 1) + [SegmentByte(s, buf, a + (n - 1))]
  }

  function SegmentPage(s: Segment, buf: seq<byte>, n: nat): (p: UserPage)
    requires InBuffer(s, buf)
    ensures forall t :: 0 <= t < PGSIZE ==> p[t] == SegmentByte(s, buf, PGSIZE * n + t)
  {
    SegmentBytes(s, buf, PGSIZE * n, PGSIZE)
  }

  function FirstPage(s: Segment): nat { s.vaddr / PGSIZE }

  // One past the last page the copy loop visits.
  function EndPage(s: Segment): nat {
    (s.vaddr + s.memsz + PGSIZE - 1) / PGSIZE
  }

  predicate Covers(s: Segment, n: nat) {
    FirstPage(s) <= n < EndPage(s)
  }

  // The sizes are right and none of the segment's pages is taken.
  ghost predicate Fits(s: Segment, taken: set<nat>) {
    s.filesz <= s.memsz && forall n :: Covers(s, n) ==> n !in taken
  }

  ghost predicate ApartFrom(s: Segment, s': Segment) {
    forall n :: Covers(s, n) ==> !Covers(s', n)
  }

  // Every segment to be loaded fits, and no two of them share a page.
  ghost predicate Loadable(segments: seq<Segment>, taken: set<nat>) {
    && (forall i :: 0 <= i < |segments| && segments[i].load ==> Fits(segments[i], taken))
    && (forall i, j :: 0 <= i < j < |segments| && segments[i].load && segments[j].load ==>
        ApartFrom(segments[i], segments[j]))
  }

  // Some segment to be loaded covers the page.
  ghost predicate Covered(segments: seq<Segment>, n: nat) {
    exists i :: 0 <= i < |segments| && segments[i].load && Covers(segments[i], n)
  }

  // The byte a program finds at a user address.
  predicate Holds(pages: map<nat, UserPage>, a: nat, b: byte) {
    a / PGSIZE in pages && pages[a / PGSIZE][a % PGSIZE] == b
  }

  ghost predicate Loaded(pages: map<nat, UserPage>, s: Segment, buf: seq<byte>)
    requires InBuffer(s, buf)
  {
    forall a :: s.vaddr <= a < s.vaddr + s.memsz ==> Holds(pages, a, SegmentByte(s, buf, a))
  }

  ghost predicate PagesDone(pages: map<nat, UserPage>, s: Segment, buf: seq<byte>, upto: nat)
    requires InBuffer(s, buf)
  {
    forall n :: FirstPage(s) <= n < upto ==> n in pages && pages[n] == SegmentPage(s, buf, n)
  }

  lemma PagesAreLoaded(pages: map<nat, UserPage>, s: Segment, buf: seq<byte>)
    requires InBuffer(s, buf) && PagesDone(pages, s, buf, EndPage(s))
    ensures Loaded(pages, s, buf)
  {
    forall a | s.vaddr <= a < s.vaddr + s.memsz
      ensures Holds(pages, a, SegmentByte(s, buf, a))
    {
      assert a == PGSIZE * (a / PGSIZE) + a % PGSIZE;
      assert pages[a / PGSIZE] == SegmentPage(s, buf, a / PGSIZE);
    }
  }

  // How much of the file has been copied when page n is reached.
  function Consumed(s: Segment, n: nat): (c: nat)
    ensures c <= s.filesz
  {
    if PGSIZE * n <= s.vaddr then 0 else if PGSIZE * n - s.vaddr < s.filesz then PGSIZE * n - s.vaddr else s.filesz
  }

  // The page of a segment is what the copy of its share of the file leaves in a
  // zeroed page.
  lemma PageIsCopy(s: Segment, buf: seq<byte>, n: nat, at: nat, len: nat)
    requires InBuffer(s, buf) && at + len <= PGSIZE
    requires at == if PGSIZE * n < s.vaddr then s.vaddr - PGSIZE * n else 0
    requires len == Consumed(s, n + 1) - Consumed(s, n)
    ensures Splice(Zeros(PGSIZE), at,
            buf[s.offset + Consumed(s, n)..s.offset + Consumed(s, n) + len]) == SegmentPage(s, buf, n)
  {
    var c := s.offset + Consumed(s, n);
    var q := Splice(Zeros(PGSIZE), at, buf[c..c + len]);
    forall t | 0 <= t < PGSIZE
      ensures q[t] == SegmentPage(s, buf, n)[t]
    {
      if at <= t < at + len {
        assert q[t] == buf[c..c + len][t - at] == buf[c + (t - at)];
      }
    }
  }

  // What one turn of the loop copies into the page it has just mapped.
  method CopyPage(s: Segment, buf: seq<byte>, ghost n: nat, zeroBytes: nat, availBytes: nat, filesz: nat, offset: nat)
      returns (page: UserPage, filesz': nat, offset': nat)
    requires InBuffer(s, buf) && filesz == s.filesz - Consumed(s, n) && offset == s.offset + Consumed(s, n)
    requires zeroBytes == (if PGSIZE * n < s.vaddr then s.vaddr - PGSIZE * n else 0) < PGSIZE
    requires zeroBytes != 0 ==> availBytes == PGSIZE - zeroBytes
    requires Consumed(s, n + 1) == Consumed(s, n) + Min(filesz, PGSIZE - zeroBytes)
    ensures page == SegmentPage(s, buf, n)
    ensures filesz' == s.filesz - Consumed(s, n + 1) && offset' == s.offset + Consumed(s, n + 1)
  {
    hide Consumed, SegmentPage;
    page, filesz', offset' := Zeros(PGSIZE), filesz, offset;
    if zeroBytes != 0 {
      var avail := availBytes;
      if filesz < avail {
        avail := filesz;
      }
      PageIsCopy(s, buf, n, zeroBytes, avail);
      page := Splice(page, zeroBytes, buf[offset..offset + avail]);
      offset' := offset + avail;
      filesz' := filesz - avail;
      return;
    }
    if filesz >= PGSIZE {
      PageIsCopy(s, buf, n, 0, PGSIZE);
      page := Splice(page, 0, buf[offset..offset + PGSIZE]);
      filesz' := filesz - PGSIZE;
      offset' := offset + PGSIZE;
    } else if filesz > 0 {
      PageIsCopy(s, buf, n, 0, filesz);
      page := Splice(page, 0, buf[offset..offset + filesz]);
      offset' := offset + filesz;
      filesz' := 0;
    } else {
      PageIsCopy(s, buf, n, 0, 0);
      assert Splice(page, 0, buf[offset..offset]) == page;
    }
  }

  class Space {
    var pages: map<nat, UserPage>  // the user pages mapped so far

    // protect: nothing is mapped yet.
    constructor ()
      ensures pages == map[]
    {
      pages := map[];
    }

    // The body of loader's loop over the program headers, for one segment. It
    // panics when the sizes are wrong or a page is already mapped.
    method LoadSegment(s: Segment, buf: seq<byte>) returns (ok: bool)
      requires InBuffer(s, buf)
      modifies this
      ensures ok ==> Loaded(pages, s, buf)
      ensures ok ==> forall n :: n in old(pages) ==> n in pages && pages[n] == old(pages)[n]
      ensures ok ==> forall n :: n in pages <==> n in old(pages) || Covers(s, n)
      ensures ok <==> Fits(s, old(pages).Keys)
    {
      hide Consumed, SegmentPage;
      if s.memsz < s.filesz {
        return false;
      }
      var filesz, offset := s.filesz, s.offset;
      var n := s.vaddr / PGSIZE;
      var zeroBytes := s.vaddr - PGSIZE * n;
      var availBytes := PGSIZE - zeroBytes;
      NothingConsumed(s);
      while PGSIZE * n < s.vaddr + s.memsz
        invariant FirstPage(s) <= n && n <= Max(FirstPage(s), EndPage(s))
        invariant filesz == s.filesz - Consumed(s, n) && offset == s.offset + Consumed(s, n)
        invariant if n == FirstPage(s) then zeroBytes == s.vaddr - PGSIZE * n && availBytes == PGSIZE - zeroBytes
                else zeroBytes == 0
        invariant PagesDone(pages, s, buf, n)
        invariant forall m :: m in old(pages) ==> m in pages && pages[m] == old(pages)[m]
        invariant forall m :: m in pages <==> m in old(pages) || FirstPage(s) <= m < n
        invariant forall m :: FirstPage(s) <= m < n ==> m !in old(pages)
        decreases s.vaddr + s.memsz - PGSIZE * n
      {
        Share(s, n);
        if n in pages {
          assert Covers(s, n);
          return false;
        }
        var page;
        page, filesz, offset := CopyPage(s, buf, n, zeroBytes, availBytes, filesz, offset);
        zeroBytes := 0;
        pages := pages[n := page];
        n := n + 1;
      }
      PagesAreLoaded(pages, s, buf);
      return true;
    }

    // loader's loop over the program headers. Two segments that share a page make
    // the second one panic, so what was loaded stays loaded.
    method LoadProgram(segments: seq<Segment>, buf: seq<byte>) returns (ok: bool, maxBrk: nat)
      requires forall i :: 0 <= i < |segments| ==> InBuffer(segments[i], buf)
      modifies this
      ensures ok ==> forall i :: 0 <= i < |segments| && segments[i].load ==> Loaded(pages, segments[i], buf)
      ensures ok ==> forall n :: n in old(pages) ==> n in pages && pages[n] == old(pages)[n]
      ensures ok ==> forall n :: n in pages <==> n in old(pages) || Covered(segments, n)
      ensures ok <==> Loadable(segments, old(pages).Keys)
      ensures ok ==> maxBrk % PGSIZE == 0 && MaxEnd(segments) <= maxBrk < MaxEnd(segments) + PGSIZE
    {
      hide Loaded, Covers, Fits, Loadable, Covered, ApartFrom;
      NothingLoadable(old(pages).Keys);
      maxBrk := 0;
      for i := 0 to |segments|
        invariant forall j :: 0 <= j < i && segments[j].load ==> Loaded(pages, segments[j], buf)
        invariant forall n :: n in old(pages) ==> n in pages && pages[n] == old(pages)[n]
        invariant Loadable(segments[..i], old(pages).Keys)
        invariant forall n :: n in pages <==> n in old(pages) || Covered(segments[..i], n)
        invariant maxBrk == MaxEnd(segments[..i])
      {
        assert segments[..i + 1][..i] == segments[..i];
        OneMore(segments, i, old(pages).Keys, pages.Keys);
        if !segments[i].load {
          continue;
        }
        ghost var before := pages;
        ok := LoadSegment(segments[i], buf);
        if !ok {
          PrefixLoadable(segments, i + 1, old(pages).Keys);
          return false, 0;
        }
        if maxBrk < segments[i].vaddr + segments[i].memsz {
          maxBrk := segments[i].vaddr + segments[i].memsz;
        }
        forall j | 0 <= j < i && segments[j].load
          ensures Loaded(pages, segments[j], buf)
        {
          StaysLoaded(before, pages, segments[j], buf);
        }
      }
      assert segments[..|segments|] == segments;
      maxBrk := (maxBrk + PGSIZE - 1) / PGSIZE * PGSIZE;
      return true, maxBrk;
    }
  }

  lemma NothingLoadable(taken: set<nat>)
    ensures Loadable([], taken) && forall n :: !Covered([], n)
  {
  }

  lemma PrefixLoadable(segments: seq<Segment>, i: nat, taken: set<nat>)
    requires i <= |segments|
    ensures Loadable(segments, taken) ==> Loadable(segments[..i], taken)
  {
  }

  // With the segments before it loaded, the next one fits exactly when all
  // of them together do.
  lemma OneMore(segments: seq<Segment>, i: nat, taken: set<nat>, now: set<nat>)
    requires i < |segments| && Loadable(segments[..i], taken)
    requires forall n: nat :: n in now <==> n in taken || Covered(segments[..i], n)
    ensures !segments[i].load ==> Loadable(segments[..i + 1], taken)
    ensures segments[i].load ==> (Loadable(segments[..i + 1], taken) <==> Fits(segments[i], now))
    ensures forall n :: Covered(segments[..i + 1], n) <==>
            Covered(segments[..i], n) || (segments[i].load && Covers(segments[i], n))
  {
    hide Covers;
    var before, s := segments[..i], segments[i];
    assert segments[..i + 1] == before + [s];
    if s.load && Fits(s, now) {
      forall j | 0 <= j < i && before[j].load
        ensures ApartFrom(before[j], s)
      {
        assert forall n :: Covers(before[j], n) ==> Covered(before, n);
      }
    }
    if s.load && Loadable(before + [s], taken) {
      assert (before + [s])[i] == s;
      forall n | Covered(before, n)
        ensures !Covers(s, n)
      {
        var j :| 0 <= j < i && before[j].load && Covers(before[j], n);
        assert (before + [s])[j] == before[j];
        assert ApartFrom((before + [s])[j], (before + [s])[i]);
      }
    }
    forall n: nat
      ensures Covered(before + [s], n) <==> Covered(before, n) || (s.load && Covers(s, n))
    {
      if j :| 0 <= j < i && before[j].load && Covers(before[j], n) {
        assert (before + [s])[j] == before[j];
      }
      assert (before + [s])[i] == s;
    }
  }

  // The highest end of a segment that is loaded.
  function MaxEnd(segments: seq<Segment>): nat {
    if segments == [] then 0 else
      var s := segments[|segments| - 1];
      var m := MaxEnd(segments[..|segments| - 1]);
      if s.load then Max(m, s.vaddr + s.memsz) else m
  }

  lemma StaysLoaded(before: map<nat, UserPage>, after: map<nat, UserPage>, s: Segment, buf: seq<byte>)
    requires InBuffer(s, buf) && Loaded(before, s, buf)
    requires forall n :: n in before ==> n in after && after[n] == before[n]
    ensures Loaded(after, s, buf)
  {
  }

  lemma NothingConsumed(s: Segment)
    ensures Consumed(s, FirstPage(s)) == 0
  {
  }

  // What page n takes of the file.
  lemma Share(s: Segment, n: nat)
    requires FirstPage(s) <= n && PGSIZE * n < s.vaddr + s.memsz && s.filesz <= s.memsz
    ensures var z := if n == FirstPage(s) then s.vaddr - PGSIZE * n else 0;
      Consumed(s, n + 1) == Consumed(s, n) + Min(s.filesz - Consumed(s, n), PGSIZE - z)
    ensures n < EndPage(s) && (n > FirstPage(s) ==> PGSIZE * n >= s.vaddr)
  {
  }
}
