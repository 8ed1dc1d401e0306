// The two programs together: mkfs builds an image, the kernel mounts it, opens a
// path, reads what is there and allocates its first block.
module FreshImage {
  import opened Bytes
  import opened BlockCache
  import opened DiskFormat
  import opened FileTree
  import opened FileSystem
  import opened Directory
  import opened HostTree
  import opened PathNames
  import opened PathWalk
  import Mkfs

  // What the kernel finds under a path: the host's file with all its bytes, the
  // host's directory with its entries, or nothing where the host has nothing.
  ghost predicate Served(es: seq<HostTree.Entry>, path: seq<byte>, inum: nat, content: seq<byte>) {
    match HostWalk(HostDir(es), ROOT_INODE, ROOT_INODE + 1, path)
    case Missing => inum == 0
    case At(node, i, first) =>
      && inum == i
      && match node
         case HostFile(data) => content == data
         case HostDir(sub) => first + CountInodes(sub) <= 0x1_0000_0000 && content == DirBytes(sub, first)
  }

  // The same by names: whichever file or directory the names of the path lead to
  // is there, and nothing is when they lead nowhere.
  ghost predicate ServedByName(es: seq<HostTree.Entry>, path: seq<byte>, inum: nat, content: seq<byte>) {
    forall names, gaps :: Splits(path, names, gaps) ==>
      && (forall node :: Descends(HostDir(es), names, node) ==> inum != 0 && Shows(node, content))
      && ((forall node :: !Descends(HostDir(es), names, node)) ==> inum == 0)
  }

  // The bytes of a file; for a directory, 32 bytes for every entry in order, which
  // is in use and has the first 28 bytes of the name, with zeros after a shorter one.
  ghost predicate Shows(node: Host, content: seq<byte>) {
    if node.HostFile? then content == node.data
    else
      && |content| == 32 * |node.entries|
      && forall k :: 0 <= k < |node.entries| ==> Lists(content, 32 * k, node.entries[k].name)
  }

  predicate Lists(content: seq<byte>, at: nat, name: seq<byte>) {
    && at + 32 <= |content|
    && content[at..at + 4] != [0, 0, 0, 0]
    && forall i :: 0 <= i < 28 ==> content[at + 4 + i] == if i < |name| then name[i] else 0
  }

  lemma DirShows(sub: seq<HostTree.Entry>, first: nat)
    requires 0 < first && first + CountInodes(sub) <= 0x1_0000_0000
    ensures Shows(HostDir(sub), DirBytes(sub, first))
  {
    hide DirBytes, CountInodes;
    var content := DirBytes(sub, first);
    forall k | 0 <= k < |sub|
      ensures Lists(content, 32 * k, sub[k].name)
    {
      DirBytesAt(sub, first, k);
      EntryShows(content, 32 * k, InumOf(sub, first, k), sub[k].name);
    }
  }

  lemma EntryShows(content: seq<byte>, at: nat, inum: u32, name: seq<byte>)
    requires at + 32 <= |content| && content[at..at + 32] == Dirent(inum, name) && inum != 0
    ensures Lists(content, at, name)
  {
    DirentFields(content, at, inum, name);
    NotZero(content, at);
    hide Le32, Dirent;
    forall i | 0 <= i < 28
      ensures content[at + 4 + i] == if i < |name| then name[i] else 0
    {
      assert content[at + 4 + i] == content[at + 4..at + 32][i];
    }
  }

  lemma NotZero(content: seq<byte>, at: nat)
    requires at + 4 <= |content| && Le32(content, at) != 0
    ensures content[at..at + 4] != [0, 0, 0, 0]
  {
    var w := content[at..at + 4];
    assert w[0] == content[at] && w[1] == content[at + 1] && w[2] == content[at + 2] && w[3] == content[at + 3];
  }

  lemma ServedIsByName(es: seq<HostTree.Entry>, path: seq<byte>, inum: nat, content: seq<byte>)
    requires Served(es, path, inum, content)
    ensures ServedByName(es, path, inum, content)
  {
    hide HostWalk, Splits, Descends, Shows, DirBytes, CountInodes;
    forall names, gaps | Splits(path, names, gaps)
      ensures forall node :: Descends(HostDir(es), names, node) ==> inum != 0 && Shows(node, content)
      ensures (forall node :: !Descends(HostDir(es), names, node)) ==> inum == 0
    {
      HostWalkDescends(HostDir(es), ROOT_INODE, ROOT_INODE + 1, path, names, gaps);
      match HostWalk(HostDir(es), ROOT_INODE, ROOT_INODE + 1, path)
      case Missing =>
      case At(node, i, first) =>
        assert Descends(HostDir(es), names, node);
        NodeShows(node, first, content);
    }
  }

  lemma NodeShows(node: Host, first: nat, content: seq<byte>)
    requires 0 < first
    requires node.HostFile? ==> content == node.data
    requires node.HostDir? ==>
            first + CountInodes(node.entries) <= 0x1_0000_0000 && content == DirBytes(node.entries, first)
    ensures Shows(node, content)
  {
    hide DirBytes, CountInodes, Lists;
    if node.HostDir? {
      DirShows(node.entries, first);
    }
  }

  method BuildAndOpen(es: seq<HostTree.Entry>, path: seq<byte>)
      returns (built: bool, image: Mkfs.Image, inum: nat, content: array<byte>, alloc: bool, block: u32)
    requires CleanNames(HostDir(es)) && NoNul(path)
    ensures built <==> Mkfs.Enough(es)
    ensures built ==> Served(es, path, inum, content[..]) && ServedByName(es, path, inum, content[..])
    ensures built ==> (alloc <==> Mkfs.DATA_START + Mkfs.HostBlocks(HostDir(es)) < Mkfs.NBLOCKS)
    ensures built && alloc ==> block == Mkfs.DATA_START + Mkfs.HostBlocks(HostDir(es))
  {
    hide DiskCache.Valid, Consistent, HostWalk, CleanNames, NoNul, Represents, Mkfs.HostBlocks, Mkfs.Enough,
        Mkfs.Packed,
        Mkfs.SuperBlockBytes, Inodes, Served, ServedByName;
    ghost var files;
    built, image, files := Mkfs.BuildImage(es);
    content, alloc, block := new byte[0], false, 0;
    inum := 0;
    if !built {
      return;
    }
    var disk := new DiskCache(image.disk[..], true);
    var vol;
    inum, vol := OpenOnImage(disk, path, image.owner, files, es);
    ReachedInTable(es, path, Inodes(Mkfs.SB, disk.contents), files, inum);
    content := ReadWhole(vol, inum, files);
    WhatIsThere(es, path, Inodes(Mkfs.SB, disk.contents), files, inum, content[..]);
    ServedIsByName(es, path, inum, content[..]);
    ghost var blocks := disk.contents;
    PackedIsReserved(blocks, image.nextDatablock);
    alloc, block := vol.Balloc();
    FirstAllocation(blocks, disk.contents, image.nextDatablock, alloc, block);
  }

  // Every byte of the file behind an inode number.
  method ReadWhole(vol: Volume, inum: nat, ghost files: seq<seq<byte>>) returns (content: array<byte>)
    requires vol.Mounted() && Consistent(vol.sb, vol.disk.contents, vol.owner, files) && inum < vol.sb.ninodes
    modifies vol.disk, vol.disk.blockCache
    ensures fresh(content) && vol.Mounted() && vol.disk.contents == old(vol.disk.contents)
    ensures inum < |files| && content[..] == files[inum]
  {
    hide DiskCache.Valid, Consistent, Inodes;
    SizeOnDisk(vol.sb, vol.disk.contents, vol.owner, files, inum);
    var ip := vol.Iget(inum);
    content := new byte[ip.size];
    var n := vol.Readi(ip, content, 0, ip.size, inum, files);
    assert files[inum][0..|files[inum]|] == files[inum];
  }

  // What OpenOnImage says of the inode it returns.
  ghost predicate Reached(es: seq<HostTree.Entry>, path: seq<byte>, inodes: seq<Inode>, files: seq<seq<byte>>,
      inum: nat) {
    match HostWalk(HostDir(es), ROOT_INODE, ROOT_INODE + 1, path)
    case Missing => inum == 0
    case At(node, i, first) => inum == i && Represents(Kinds(inodes), files, i, first, node)
  }

  lemma ReachedInTable(es: seq<HostTree.Entry>, path: seq<byte>, inodes: seq<Inode>, files: seq<seq<byte>>, inum: nat)
    requires Reached(es, path, inodes, files, inum)
    ensures inum == 0 || inum < |inodes|
  {
    hide HostWalk;
  }

  lemma WhatIsThere(es: seq<HostTree.Entry>, path: seq<byte>, inodes: seq<Inode>, files: seq<seq<byte>>, inum: nat,
      content: seq<byte>)
    requires Reached(es, path, inodes, files, inum) && inum < |files| && content == files[inum]
    ensures Served(es, path, inum, content)
  {
    hide HostWalk;
  }

  lemma PackedIsReserved(blocks: seq<Block>, next: nat)
    requires Mkfs.Packed(blocks, next)
    ensures forall p: nat :: p < DataStart(Mkfs.SB) ==> Used(Mkfs.SB, blocks, p)
  {
    hide Used;
  }

  // The kernel's first allocation is the block mkfs would have used next.
  lemma FirstAllocation(blocks: seq<Block>, blocks': seq<Block>, next: nat, alloc: bool, block: nat)
    requires Mkfs.Packed(blocks, next)
    requires alloc ==> Allocated(Mkfs.SB, blocks, blocks', block) && forall p: nat :: p < block ==>
            Used(Mkfs.SB, blocks, p)
    requires !alloc ==> Full(Mkfs.SB, blocks)
    ensures (alloc <==> next < Mkfs.NBLOCKS) && (alloc ==> block == next)
  {
    hide Used;
    if alloc {
      FirstFreeBlock(blocks, next, block);
    }
    assert next < Mkfs.NBLOCKS ==> !Used(Mkfs.SB, blocks, next);
  }
}
