// Directory entries, path elements and name lookup.
module Directory {
  import opened Bytes
  import opened DiskFormat

  const DIRSIZ: nat := 28
  const DIRENT_BYTES: nat := 32
  const SLASH: byte := 0x2f

  // strncpy(de.name, name, DIRSIZ) on a zeroed entry.
  function NameField(name: seq<byte>): (r: seq<byte>)
    ensures |r| == DIRSIZ
  {
    if |name| >= DIRSIZ then name[..DIRSIZ] else name + Zeros(DIRSIZ - |name|)
  }

  function Dirent(inum: u32, name: seq<byte>): (r: seq<byte>)
    ensures |r| == DIRENT_BYTES
  {
    Bytes32(inum) + NameField(name)
  }

  // The kernel's comparison of a stored name with the searched one.
  predicate MatchFrom(stored: seq<byte>, name: seq<byte>, i: nat)
    requires |stored| == |name| == DIRSIZ && i <= DIRSIZ
    decreases DIRSIZ - i
  {
    i == DIRSIZ || (stored[i] == name[i] && (name[i] == 0 || MatchFrom(stored, name, i + 1)))
  }

  // The first entry from `off` on that is in use and matches; 0 when none is.
  function Scan(content: seq<byte>, name: seq<byte>, off: nat): u32
    requires |name| == DIRSIZ
    decreases |content| - off
  {
    if off + DIRENT_BYTES > |content| then 0
    else if Le32(content, off) != 0 && MatchFrom(content[off + 4..off + DIRENT_BYTES], name, 0) then Le32(content, off)
    else Scan(content, name, off + DIRENT_BYTES)
  }

  lemma DirentFields(content: seq<byte>, off: nat, inum: u32, name: seq<byte>)
    requires off + DIRENT_BYTES <= |content|
    requires content[off..off + DIRENT_BYTES] == Dirent(inum, name)
    ensures Le32(content, off) == inum
    ensures content[off + 4..off + DIRENT_BYTES] == NameField(name)
  {
    var entry := content[off..off + DIRENT_BYTES];
    Bytes32RoundTrip(inum);
    assert content[off..off + 4] == entry[..4] == Bytes32(inum);
    Le32Local(content, off, Bytes32(inum), 0);
    assert content[off + 4..off + DIRENT_BYTES] == entry[4..];
  }

  // ---- Names ----

  ghost predicate NoNul(s: seq<byte>) {
    forall i :: 0 <= i < |s| ==> s[i] != 0
  }

  // What skipelem leaves in the name buffer for path element e: its first
  // DIRSIZ - 1 bytes, then a NUL.
  ghost predicate NameBuffer(buf: seq<byte>, e: seq<byte>) {
    && |buf| == DIRSIZ
    && buf[..|Truncated(e)|] == Truncated(e)
    && buf[|Truncated(e)|] == 0
  }

  // What skipelem keeps of a path element.
  function Truncated(e: seq<byte>): seq<byte> {
    if |e| >= DIRSIZ then e[..DIRSIZ - 1] else e
  }

  // A stored name matches exactly the elements that truncate to it.
  lemma MatchIsEquality(stored: seq<byte>, buf: seq<byte>, e: seq<byte>)
    requires NoNul(stored) && NoNul(e) && NameBuffer(buf, e)
    ensures MatchFrom(NameField(stored), buf, 0) <==> stored == Truncated(e)
  {
    var t, f := Truncated(e), NameField(stored);
    MatchFromMeaning(f, buf, |t|, 0);
    assert forall i :: 0 <= i < |t| ==> buf[i] == buf[..|t|][i] == t[i];
    assert forall i :: |stored| <= i < DIRSIZ ==> f[i] == 0;
    if MatchFrom(f, buf, 0) {
      assert f[|t|] == 0;
      assert |t| > 0 ==> f[|t| - 1] != 0;
    }
  }

  // mkfs keeps DIRSIZ bytes of a name and the kernel searches for one fewer, so
  // a name is found under itself exactly when it is shorter than DIRSIZ.
  lemma FoundUnderItsOwnName(name: seq<byte>, buf: seq<byte>)
    requires NoNul(name) && NameBuffer(buf, name)
    ensures MatchFrom(NameField(name), buf, 0) <==> |name| < DIRSIZ
  {
    MatchIsEquality(name, buf, name);
  }

  lemma {:induction false} MatchFromMeaning(stored: seq<byte>, name: seq<byte>, end: nat, i: nat)
    requires |stored| == |name| == DIRSIZ && i <= end < DIRSIZ && name[end] == 0
    requires forall k :: 0 <= k < end ==> name[k] != 0
    ensures MatchFrom(stored, name, i) <==> forall k :: i <= k <= end ==> stored[k] == name[k]
    decreases end - i
  {
    if i < end {
      MatchFromMeaning(stored, name, end, i + 1);
    }
  }

  // ---- Paths ----

  function SkipSlashes(p: seq<byte>): (r: seq<byte>)
    ensures |r| <= |p|
    ensures r != [] ==> r[0] != SLASH
  {
    if p != [] && p[0] == SLASH then SkipSlashes(p[1..]) else p
  }

  function ElemLength(p: seq<byte>): (n: nat)
    ensures n <= |p|
    ensures p != [] && p[0] != SLASH ==> n > 0
  {
    if p == [] || p[0] == SLASH then 0 else 1 + ElemLength(p[1..])
  }

  // The next path element and what follows it.
  datatype Elem = NoElem | Elem(name: seq<byte>, rest: seq<byte>)

  function NextElem(path: seq<byte>): (e: Elem)
    ensures e.Elem? ==> |e.rest| < |path|
  {
    var p := SkipSlashes(path);
    if p == [] then NoElem
    else Elem(p[..ElemLength(p)], SkipSlashes(p[ElemLength(p)..]))
  }

  // Where fs_open's walk from `inum` ends; 0 when it fails.
  ghost function Walk(inodes: seq<Inode>, files: seq<seq<byte>>, inum: nat, path: seq<byte>): nat
    requires |files| == |inodes| && inum < |inodes|
    decreases |path|
  {
    match NextElem(path)
    case NoElem => inum
    case Elem(name, rest) =>
      if inodes[inum].kind != DIR_INODE then 0
      else
        var next := Scan(files[inum], Buffered(name), 0);
        if next == 0 || next >= |inodes| then 0 else Walk(inodes, files, next, rest)
  }

  // Some buffer skipelem may leave; what follows the NUL is never looked at.
  ghost function Buffered(e: seq<byte>): (b: seq<byte>)
    ensures NameBuffer(b, e)
  {
    Truncated(e) + Zeros(DIRSIZ - |Truncated(e)|)
  }

  // Every inode number met on the walk is in the table.
  ghost predicate WalkInTable(inodes: seq<Inode>, files: seq<seq<byte>>, inum: nat, path: seq<byte>)
    requires |files| == |inodes| && inum < |inodes|
    decreases |path|
  {
    match NextElem(path)
    case NoElem => true
    case Elem(name, rest) =>
      inodes[inum].kind == DIR_INODE ==>
        var next := Scan(files[inum], Buffered(name), 0);
        next < |inodes| && (next != 0 ==> WalkInTable(inodes, files, next, rest))
  }

  lemma {:induction false} MatchBufferIndependent(stored: seq<byte>, a: seq<byte>, b: seq<byte>, e: seq<byte>, i: nat)
    requires |stored| == DIRSIZ && NameBuffer(a, e) && NameBuffer(b, e) && i <= |Truncated(e)|
    ensures MatchFrom(stored, a, i) == MatchFrom(stored, b, i)
    decreases DIRSIZ - i
  {
    var n := |Truncated(e)|;
    assert i < n ==> a[i] == a[..n][i] == b[..n][i] == b[i];
    if i < n {
      MatchBufferIndependent(stored, a, b, e, i + 1);
    }
  }

  lemma {:induction false} ScanBufferIndependent(content: seq<byte>, a: seq<byte>, b: seq<byte>, e: seq<byte>, off: nat)
    requires NameBuffer(a, e) && NameBuffer(b, e)
    ensures Scan(content, a, off) == Scan(content, b, off)
    decreases |content| - off
  {
    if off + DIRENT_BYTES <= |content| {
      MatchBufferIndependent(content[off + 4..off + DIRENT_BYTES], a, b, e, 0);
      ScanBufferIndependent(content, a, b, e, off + DIRENT_BYTES);
    }
  }
}
