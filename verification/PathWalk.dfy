// The kernel's mount check and path walk.
module PathWalk {
  import opened Bytes
  import opened BlockCache
  import opened DiskFormat
  import opened FileTree
  import opened FileSystem
  import opened Directory
  import opened PathNames
  import HostTree
  import Mkfs

  // The loops of skipelem that pass over slashes.
  method PassSlashes(path: seq<byte>, from: nat) returns (p: nat)
    requires from <= |path|
    ensures from <= p <= |path| && path[p..] == SkipSlashes(path[from..])
  {
    p := from;
    while p < |path| && path[p] == SLASH
      invariant from <= p <= |path| && SkipSlashes(path[p..]) == SkipSlashes(path[from..])
    {
      assert path[p..][1..] == path[p + 1..];
      p := p + 1;
    }
  }

  // The name buffer has the first name of the path, and what is left of the path
  // has the others.
  ghost predicate Skipped(path: seq<byte>, found: bool, buf: seq<byte>, rest: seq<byte>) {
    forall names, gaps :: Splits(path, names, gaps) ==>
      if names == [] then !found
      else
        && found && NameBuffer(buf, names[0])
        && Splits(rest, names[1..], After(gaps))
  }

  lemma NextIsSkipped(path: seq<byte>, found: bool, buf: seq<byte>, rest: seq<byte>)
    requires found == NextElem(path).Elem?
    requires found ==> NameBuffer(buf, NextElem(path).name) && rest == NextElem(path).rest
    ensures Skipped(path, found, buf, rest)
  {
    hide Splits, NextElem, NameBuffer;
    forall names, gaps | Splits(path, names, gaps)
      ensures |gaps| == |names| + 1
      ensures if names == [] then !found
              else found && NameBuffer(buf, names[0]) && Splits(rest, names[1..], After(gaps))
    {
      Gaps(path, names, gaps);
      NextOfJoined(path, names, gaps);
    }
  }

  // skipelem: copies the next path element into `name`.
  method SkipElem(path: seq<byte>, name: array<byte>) returns (found: bool, rest: seq<byte>)
    requires name.Length == DIRSIZ
    modifies name
    ensures found == NextElem(path).Elem?
    ensures found ==> NameBuffer(name[..], NextElem(path).name) && rest == NextElem(path).rest
    ensures Skipped(path, found, name[..], rest)
  {
    hide NameBuffer, SkipSlashes, Skipped;
    var s := PassSlashes(path, 0);
    assert path[0..] == path;
    if s == |path| {
      NextIsSkipped(path, false, name[..], []);
      return false, [];
    }
    var p := s;
    while p < |path| && path[p] != SLASH
      invariant s <= p <= |path| && ElemLength(path[s..]) == p - s + ElemLength(path[p..])
    {
      assert path[p..][1..] == path[p + 1..];
      p := p + 1;
    }
    assert path[s..][..p - s] == path[s..p] && path[s..][p - s..] == path[p..];
    CopyName(name, path[s..p]);
    p := PassSlashes(path, p);
    NextIsSkipped(path, true, name[..], path[p..]);
    return true, path[p..];
  }

  // The element goes to the buffer, cut to DIRSIZ - 1 bytes, and a NUL after it.
  method CopyName(name: array<byte>, elem: seq<byte>)
    requires name.Length == DIRSIZ
    modifies name
    ensures NameBuffer(name[..], elem)
  {
    var len := if |elem| >= DIRSIZ then DIRSIZ - 1 else |elem|;
    for i := 0 to len
      invariant name[..i] == elem[..i]
    {
      name[i] := elem[i];
    }
    name[len] := 0;
    assert name[..len] == elem[..len] == Truncated(elem);
    assert name[..][..len] == name[..len];
  }

  // The comparison loop of fs_open.
  method NamesMatch(stored: seq<byte>, name: array<byte>) returns (match_: bool)
    requires |stored| == name.Length == DIRSIZ
    ensures match_ == MatchFrom(stored, name[..], 0)
  {
    match_ := true;
    for i := 0 to DIRSIZ
      invariant MatchFrom(stored, name[..], 0) == MatchFrom(stored, name[..], i)
    {
      if stored[i] != name[i] {
        return false;
      }
      if name[i] == 0 {
        return true;
      }
    }
  }

  // The directory scan of fs_open: the inode number of the first match, or 0.
  method FindEntry(vol: Volume, dir: Inode, name: array<byte>, ghost inum: nat, ghost files: seq<seq<byte>>)
      returns (next: u32)
    requires vol.Mounted() && Consistent(vol.sb, vol.disk.contents, vol.owner, files)
    requires inum < vol.sb.ninodes && dir == Inodes(vol.sb, vol.disk.contents)[inum]
    requires name.Length == DIRSIZ
    modifies vol.disk, vol.disk.blockCache
    ensures vol.Mounted() && vol.disk.contents == old(vol.disk.contents)
    ensures next == Scan(files[inum], name[..], 0)
  {
    hide DiskCache.Valid, Consistent, MatchFrom, Inodes, Le32;
    SizeOnDisk(vol.sb, vol.disk.contents, vol.owner, files, inum);
    ghost var content := files[inum];
    var de := new byte[DIRENT_BYTES];
    var off := 0;
    while off < dir.size
      invariant vol.Mounted() && vol.disk.contents == old(vol.disk.contents)
      invariant Scan(content, name[..], 0) == Scan(content, name[..], off)
      invariant off < |content| + DIRENT_BYTES
      decreases dir.size + DIRENT_BYTES - off
    {
      var n := vol.Readi(dir, de, off, DIRENT_BYTES, inum, files);
      if n != DIRENT_BYTES {
        break;
      }
      EntryRead(content, off, de[..]);
      var deInum := Le32(de[..], 0);
      if deInum != 0 {
        var matched := NamesMatch(de[4..], name);
        if matched {
          return deInum;
        }
      }
      off := off + DIRENT_BYTES;
    }
    return 0;
  }

  // The 32 bytes readi delivers are the entry's fields.
  lemma EntryRead(content: seq<byte>, off: nat, de: seq<byte>)
    requires off + DIRENT_BYTES <= |content| && |de| == DIRENT_BYTES
    requires de[..DIRENT_BYTES] == content[off..off + DIRENT_BYTES]
    ensures Le32(de, 0) == Le32(content, off)
    ensures de[4..] == content[off + 4..off + DIRENT_BYTES]
  {
  }

  // fs_open, up to the point where a file-table slot is taken: the inode the
  // path names, or 0. An entry whose inode number lies beyond the table, which
  // the kernel would follow into other blocks, ends the model's walk.
  method OpenPath(vol: Volume, path: seq<byte>, ghost files: seq<seq<byte>>) returns (inTable: bool, inum: nat)
    requires vol.Mounted() && Consistent(vol.sb, vol.disk.contents, vol.owner, files)
    requires ROOT_INODE < vol.sb.ninodes && |files| == vol.sb.ninodes
    requires Inodes(vol.sb, vol.disk.contents)[ROOT_INODE].kind == DIR_INODE
    modifies vol.disk, vol.disk.blockCache
    ensures vol.Mounted() && vol.disk.contents == old(vol.disk.contents)
    ensures inTable <==> WalkInTable(Inodes(vol.sb, vol.disk.contents), files, ROOT_INODE, path)
    ensures inTable ==> inum == Walk(Inodes(vol.sb, vol.disk.contents), files, ROOT_INODE, path)
    ensures inTable ==> forall names, gaps :: Splits(path, names, gaps) ==>
              inum == Follow(Inodes(vol.sb, vol.disk.contents), files, ROOT_INODE, names)
  {
    hide DiskCache.Valid, Consistent, Inodes, NextElem, Scan, NameBuffer, Skipped, Splits, Follow;
    ghost var root := Inodes(vol.sb, vol.disk.contents);
    forall names, gaps | Splits(path, names, gaps)
      ensures Walk(root, files, ROOT_INODE, path) == Follow(root, files, ROOT_INODE, names)
    {
      WalkFollows(root, files, ROOT_INODE, path, names, gaps);
    }
    var name := new byte[DIRSIZ](_ => 0);
    ghost var inodes := Inodes(vol.sb, vol.disk.contents);
    inum := ROOT_INODE;
    var node := vol.Iget(inum);
    var rest := path;
    var found;
    found, rest := SkipElem(rest, name);
    ghost var at := path;
    while found
      invariant vol.Mounted() && vol.disk.contents == old(vol.disk.contents)
      invariant inum < vol.sb.ninodes && node == inodes[inum]
      invariant Walk(inodes, files, ROOT_INODE, path) == Walk(inodes, files, inum, at)
      invariant WalkInTable(inodes, files, ROOT_INODE, path) == WalkInTable(inodes, files, inum, at)
      invariant found == NextElem(at).Elem?
      invariant found ==> NameBuffer(name[..], NextElem(at).name) && rest == NextElem(at).rest
      decreases |at|
    {
      if node.kind != DIR_INODE {
        return true, 0;
      }
      ScanBufferIndependent(files[inum], name[..], Buffered(NextElem(at).name), NextElem(at).name, 0);
      var next := FindEntry(vol, node, name, inum, files);
      if next == 0 {
        return true, 0;
      }
      if next >= vol.sb.ninodes {
        return false, 0;
      }
      inum := next;
      node := vol.Iget(inum);
      at := rest;
      found, rest := SkipElem(rest, name);
    }
    inTable := true;
  }

  const SB_LBA: nat := 1

  // The superblock fields of a block.
  function SuperOf(b: Block): SuperBlock {
    SuperBlock(Le32(b, 4), Le32(b, 8), Le32(b, 12), Le32(b, 16))
  }

  // init_fs: the mounted volume; a wrong magic number stops the kernel.
  method InitFs(disk: DiskCache, ghost owner: map<nat, Key>) returns (ok: bool, vol: Volume)
    requires disk.Valid() && disk.reliable && SB_LBA < |disk.contents|
    modifies disk, disk.blockCache
    ensures disk.Valid() && disk.contents == old(disk.contents)
    ensures ok <==> Le32(disk.contents[SB_LBA], 0) == MAGIC_NUM
    ensures fresh(vol) && vol.disk == disk && vol.owner == owner && vol.sb == SuperOf(disk.contents[SB_LBA])
  {
    hide DiskCache.Valid;
    var n, tempBuf := disk.DiskRead(SB_LBA);
    vol := new Volume(disk, SuperOf(tempBuf), owner);
    ok := Le32(tempBuf, 0) == MAGIC_NUM;
  }

  // The kernel reads back the superblock mkfs wrote.
  lemma SuperBlockAgrees()
    ensures Le32(Mkfs.SuperBlockBytes(), 0) == MAGIC_NUM
    ensures SuperOf(Mkfs.SuperBlockBytes()) == Mkfs.SB
  {
    hide Le32, PutLe32;
    var b0 := Zeros(BLOCK_SIZE);
    var b1 := PutLe32(b0, 0, MAGIC_NUM);
    var b2 := PutLe32(b1, 4, Mkfs.NINODES);
    var b3 := PutLe32(b2, 8, Mkfs.NBLOCKS);
    var b4 := PutLe32(b3, 12, Mkfs.INODE_START);
    var b5 := PutLe32(b4, 16, Mkfs.BMAP_START);
    forall at | at == 0 || at == 4 || at == 8 || at == 12 || at == 16
      ensures Le32(b1, at) == if at == 0 then MAGIC_NUM else Le32(b0, at)
      ensures Le32(b2, at) == if at == 4 then Mkfs.NINODES else Le32(b1, at)
      ensures Le32(b3, at) == if at == 8 then Mkfs.NBLOCKS else Le32(b2, at)
      ensures Le32(b4, at) == if at == 12 then Mkfs.INODE_START else Le32(b3, at)
      ensures Le32(b5, at) == if at == 16 then Mkfs.BMAP_START else Le32(b4, at)
    {
      PutLe32Reads(b0, 0, MAGIC_NUM, at);
      PutLe32Reads(b1, 4, Mkfs.NINODES, at);
      PutLe32Reads(b2, 8, Mkfs.NBLOCKS, at);
      PutLe32Reads(b3, 12, Mkfs.INODE_START, at);
      PutLe32Reads(b4, 16, Mkfs.BMAP_START, at);
    }
  }

  // The first block the kernel allocates on a fresh image is the builder's next one.
  lemma FirstFreeBlock(blocks: seq<Block>, next: nat, b: nat)
    requires Mkfs.Packed(blocks, next) && b < Mkfs.NBLOCKS
    requires !Used(Mkfs.SB, blocks, b) && forall p: nat :: p < b ==> Used(Mkfs.SB, blocks, p)
    ensures b == next
  {
    assert next < Mkfs.NBLOCKS ==> !Used(Mkfs.SB, blocks, next);
  }

  // On an image mkfs built, the kernel mounts and every path leads to the inode
  // of the same host file or directory.
  method OpenOnImage(disk: DiskCache, path: seq<byte>, ghost owner: map<nat, Key>, ghost files: seq<seq<byte>>,
      ghost es: seq<HostTree.Entry>) returns (inum: nat, vol: Volume)
    requires disk.Valid() && disk.reliable && ValidLayout(Mkfs.SB, disk.contents)
    requires disk.contents[SB_LBA] == Mkfs.SuperBlockBytes()
    requires Consistent(Mkfs.SB, disk.contents, owner, files)
    requires HostTree.Represents(HostTree.Kinds(Inodes(Mkfs.SB, disk.contents)), files, ROOT_INODE, ROOT_INODE + 1,
            HostTree.HostDir(es))
    requires HostTree.CleanNames(HostTree.HostDir(es)) && NoNul(path)
    modifies disk, disk.blockCache
    ensures disk.contents == old(disk.contents) && fresh(vol) && vol.disk == disk && vol.owner == owner
    ensures vol.Mounted() && vol.sb == Mkfs.SB
    ensures match HostTree.HostWalk(HostTree.HostDir(es), ROOT_INODE, ROOT_INODE + 1, path)
            case Missing => inum == 0
            case At(node, i, first) =>
              inum == i && HostTree.Represents(HostTree.Kinds(Inodes(Mkfs.SB, disk.contents)), files, i, first, node)
  {
    hide DiskCache.Valid, Mkfs.SuperBlockBytes, Consistent, HostTree.HostWalk, HostTree.CleanNames, NoNul, Walk,
        WalkInTable;
    SuperBlockAgrees();
    SizeOnDisk(Mkfs.SB, disk.contents, owner, files, ROOT_INODE);
    ghost var inodes := Inodes(Mkfs.SB, disk.contents);
    HostTree.WalkIsHostWalk(inodes, HostTree.Kinds(inodes), files, ROOT_INODE, ROOT_INODE + 1,
        HostTree.HostDir(es), path);
    var ok;
    ok, vol := InitFs(disk, owner);
    var inTable;
    inTable, inum := OpenPath(vol, path, files);
  }
}
