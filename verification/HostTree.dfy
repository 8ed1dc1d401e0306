// Host directory trees, and what it means for an image to represent one.
module HostTree {
  import opened Bytes
  import opened DiskFormat
  import opened Directory

  datatype Host = HostFile(data: seq<byte>) | HostDir(entries: seq<Entry>)
  datatype Entry = Entry(name: seq<byte>, node: Host)

  // Number of inodes below a directory with these entries.
  function CountInodes(es: seq<Entry>): nat {
    if es == [] then 0
    else
      var below := match es[|es| - 1].node case HostFile(_) => 0 case HostDir(sub) => CountInodes(sub);
      CountInodes(es[..|es| - 1]) + 1 + below
  }

  // Inode numbers are given out in order: entry k of a directory whose
  // descendants are numbered from `first`.
  function InumOf(es: seq<Entry>, first: nat, k: nat): nat
    requires k <= |es|
  {
    first + CountInodes(es[..k])
  }

  // The contents of that directory.
  function DirBytes(es: seq<Entry>, first: nat): (r: seq<byte>)
    requires first + CountInodes(es) <= 0x1_0000_0000
    ensures |r| == DIRENT_BYTES * |es|
  {
    if es == [] then []
    else
      var init := es[..|es| - 1];
      DirBytes(init, first) + Dirent(first + CountInodes(init), es[|es| - 1].name)
  }

  // The inode table and files hold the tree h at inode inum, its descendants
  // numbered from `first`.
  ghost predicate Represents(kinds: seq<u16>, files: seq<seq<byte>>, inum: nat, first: nat, h: Host)
    decreases h
  {
    && |kinds| == |files| <= 0x1_0000_0000
    && inum < |files|
    && match h
       case HostFile(data) => kinds[inum] == FILE_INODE && files[inum] == data
       case HostDir(es) =>
         && first + CountInodes(es) <= |files|
         && kinds[inum] == DIR_INODE
         && files[inum] == DirBytes(es, first)
         && forall k :: 0 <= k < |es| ==>
             Represents(kinds, files, InumOf(es, first, k), InumOf(es, first, k) + 1, es[k].node)
  }

  function Below(h: Host): nat {
    match h
    case HostFile(_) => 0
    case HostDir(es) => CountInodes(es)
  }

  lemma {:induction false} InodesPrefix(es: seq<Entry>, k: nat)
    requires k < |es|
    ensures CountInodes(es[..k]) + 1 + Below(es[k].node) == CountInodes(es[..k + 1]) <= CountInodes(es)
    decreases |es|
  {
    assert es[..k + 1][..k] == es[..k];
    if k + 1 < |es| {
      var init := es[..|es| - 1];
      InodesPrefix(init, k);
      assert init[..k + 1] == es[..k + 1] && init[..k] == es[..k];
    } else {
      assert es[..k + 1] == es;
    }
  }

  // The representation of a tree depends on its own inodes only.
  lemma {:induction false} RepresentsFrame(kinds: seq<u16>, files: seq<seq<byte>>, kinds': seq<u16>,
      files': seq<seq<byte>>, inum: nat, first: nat, h: Host)
    requires Represents(kinds, files, inum, first, h)
    requires |kinds'| == |files'| == |files|
    requires first + Below(h) <= |files|
    requires kinds'[inum] == kinds[inum] && files'[inum] == files[inum]
    requires forall j :: first <= j < first + Below(h) ==> kinds'[j] == kinds[j] && files'[j] == files[j]
    ensures Represents(kinds', files', inum, first, h)
    decreases h
  {
    hide CountInodes, DirBytes;
    match h
    case HostFile(_) =>
    case HostDir(es) =>
      forall k | 0 <= k < |es|
        ensures Represents(kinds', files', InumOf(es, first, k), InumOf(es, first, k) + 1, es[k].node)
      {
        InodesPrefix(es, k);
        RepresentsFrame(kinds, files, kinds', files', InumOf(es, first, k), InumOf(es, first, k) + 1, es[k].node);
      }
  }

  // ---- Looking names up ----

  // The first entry of that name; |es| when there is none.
  function IndexOf(es: seq<Entry>, name: seq<byte>, k: nat): (r: nat)
    requires k <= |es|
    ensures k <= r <= |es|
    decreases |es| - k
  {
    if k == |es| || es[k].name == name then k else IndexOf(es, name, k + 1)
  }

  datatype Found = Missing | At(node: Host, inum: nat, first: nat)

  // Following a path through the host tree, each element cut to the DIRSIZ - 1
  // bytes the kernel keeps.
  ghost function HostWalk(h: Host, inum: nat, first: nat, path: seq<byte>): Found
    decreases |path|
  {
    match NextElem(path)
    case NoElem => At(h, inum, first)
    case Elem(name, rest) =>
      match h
      case HostFile(_) => Missing
      case HostDir(es) =>
        var k := IndexOf(es, Truncated(name), 0);
        if k == |es| then Missing else HostWalk(es[k].node, InumOf(es, first, k), InumOf(es, first, k) + 1, rest)
  }

  ghost predicate CleanNames(h: Host)
    decreases h
  {
    match h
    case HostFile(_) => true
    case HostDir(es) => forall k :: 0 <= k < |es| ==> NoNul(es[k].name) && CleanNames(es[k].node)
  }

  // The elements of a C string have no NUL either.
  lemma {:induction false} SlashesNoNul(p: seq<byte>)
    requires NoNul(p)
    ensures NoNul(SkipSlashes(p))
  {
    if p != [] && p[0] == SLASH {
      SlashesNoNul(p[1..]);
    }
  }

  lemma ElemNoNul(path: seq<byte>)
    requires NoNul(path) && NextElem(path).Elem?
    ensures NoNul(NextElem(path).name) && NoNul(NextElem(path).rest)
  {
    SlashesNoNul(path);
    var p := SkipSlashes(path);
    SlashesNoNul(p[ElemLength(p)..]);
  }

  lemma {:induction false} DirBytesAt(es: seq<Entry>, first: nat, k: nat)
    requires k < |es| && first + CountInodes(es) <= 0x1_0000_0000
    ensures InumOf(es, first, k) < 0x1_0000_0000
    ensures DirBytes(es, first)[DIRENT_BYTES * k..DIRENT_BYTES * (k + 1)] == Dirent(InumOf(es, first, k), es[k].name)
    decreases |es|
  {
    hide Dirent;
    var init := es[..|es| - 1];
    InodesPrefix(es, k);
    var lo, hi := DIRENT_BYTES * k, DIRENT_BYTES * (k + 1);
    if k < |init| {
      DirBytesAt(init, first, k);
      assert init[..k] == es[..k];
      assert DirBytes(es, first)[lo..hi] == DirBytes(init, first)[lo..hi];
    } else {
      assert DirBytes(es, first)[lo..hi] == Dirent(first + CountInodes(init), es[k].name);
    }
  }

  lemma ScanEntry(es: seq<Entry>, first: nat, name: seq<byte>, k: nat)
    requires 0 < first && first + CountInodes(es) <= 0x1_0000_0000 && k < |es|
    requires NoNul(name) && NoNul(es[k].name)
    ensures var content := DirBytes(es, first);
            Scan(content, Buffered(name), DIRENT_BYTES * k) ==
            if es[k].name == Truncated(name) then InumOf(es, first, k)
                else Scan(content, Buffered(name), DIRENT_BYTES * (k + 1))
  {
    hide DirBytes, CountInodes, MatchFrom, NameField, Le32, Dirent, NameBuffer, Buffered;
    var content, off := DirBytes(es, first), DIRENT_BYTES * k;
    DirBytesAt(es, first, k);
    DirentFields(content, off, InumOf(es, first, k), es[k].name);
    MatchIsEquality(es[k].name, Buffered(name), name);
  }

  // Scanning a represented directory finds the first entry of that name.
  lemma {:induction false} ScanIsIndexOf(es: seq<Entry>, first: nat, name: seq<byte>, k: nat)
    requires 0 < first && first + CountInodes(es) <= 0x1_0000_0000 && k <= |es|
    requires NoNul(name) && forall i :: 0 <= i < |es| ==> NoNul(es[i].name)
    ensures var i := IndexOf(es, Truncated(name), k);
            Scan(DirBytes(es, first), Buffered(name), DIRENT_BYTES * k) == if i == |es| then 0 else InumOf(es, first, i)
    decreases |es| - k
  {
    hide DirBytes, CountInodes, NoNul, InumOf, Truncated;
    if k < |es| {
      ScanEntry(es, first, name, k);
      if es[k].name != Truncated(name) {
        ScanIsIndexOf(es, first, name, k + 1);
      }
    }
  }

  // The kernel's walk over a represented tree is the walk over the host tree.
  lemma {:induction false} WalkIsHostWalk(inodes: seq<Inode>, kinds: seq<u16>, files: seq<seq<byte>>, inum: nat,
      first: nat, h: Host, path: seq<byte>)
    requires |inodes| == |files| && Represents(kinds, files, inum, first, h) && 0 < first
    requires |kinds| == |inodes| && forall j :: 0 <= j < |inodes| ==> kinds[j] == inodes[j].kind
    requires CleanNames(h) && NoNul(path)
    ensures WalkInTable(inodes, files, inum, path)
    ensures match HostWalk(h, inum, first, path)
            case Missing => Walk(inodes, files, inum, path) == 0
            case At(node, i, f) => Walk(inodes, files, inum, path) == i && Represents(kinds, files, i, f, node)
    decreases |path|
  {
    hide DirBytes, CountInodes, Scan, IndexOf, NextElem, NoNul, Truncated;
    match NextElem(path)
    case NoElem =>
    case Elem(name, rest) =>
      ElemNoNul(path);
      match h
      case HostFile(_) =>
      case HostDir(es) =>
        ScanIsIndexOf(es, first, name, 0);
        var k := IndexOf(es, Truncated(name), 0);
        if k < |es| {
          InodesPrefix(es, k);
          WalkIsHostWalk(inodes, kinds, files, InumOf(es, first, k), InumOf(es, first, k) + 1, es[k].node, rest);
        }
  }

  // Some file or directory is larger than an inode can map.
  predicate TooBig(h: Host)
  {
    match h
    case HostFile(data) => |data| > MAXFILE * BLOCK_SIZE
    case HostDir(es) => DIRENT_BYTES * |es| > MAXFILE * BLOCK_SIZE || exists k :: 0 <= k < |es| && TooBig(es[k].node)
  }

  ghost function Kinds(inodes: seq<Inode>): (k: seq<u16>)
    ensures |k| == |inodes|
    ensures forall j {:trigger k[j]} :: 0 <= j < |inodes| ==> k[j] == inodes[j].kind
  {
    seq(|inodes|, j requires 0 <= j < |inodes| => inodes[j].kind)
  }
}
