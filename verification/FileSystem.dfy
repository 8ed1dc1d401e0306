// The kernel's file layer: block allocation and inode reads and writes, over
// the block cache.
module FileSystem {
  import opened Bytes
  import opened BlockCache
  import opened DiskFormat
  import opened FileTree
  import opened BlockCount

  // An inode in memory, passed by reference.
  class IncoreInode {
    var node: Inode

    constructor (ip: Inode)
      ensures node == ip
    {
      node := ip;
    }
  }

  // No block is left to allocate.
  ghost predicate Full(sb: SuperBlock, blocks: seq<Block>)
    requires ValidLayout(sb, blocks)
  {
    forall p: nat :: p < sb.nblocks ==> Used(sb, blocks, p)
  }

  class Volume {
    const disk: DiskCache
    const sb: SuperBlock
    ghost var owner: map<nat, Key>

    constructor (d: DiskCache, super: SuperBlock, ghost own: map<nat, Key>)
      ensures disk == d && sb == super && owner == own
    {
      disk := d;
      sb := super;
      owner := own;
    }

    ghost predicate Mounted()
      reads this, disk, disk.blockCache
    {
      && disk.Valid()
      && disk.reliable
      && ValidLayout(sb, disk.contents)
    }

    method ReadBlock(b: nat) returns (buf: Block)
      requires Mounted() && b < sb.nblocks
      modifies disk, disk.blockCache
      ensures Mounted() && disk.contents == old(disk.contents)
      ensures buf == disk.contents[b]
    {
      var n;
      n, buf := disk.DiskRead(b);
    }

    method WriteBlock(b: nat, buf: Block)
      requires Mounted() && b < sb.nblocks
      modifies disk, disk.blockCache
      ensures Mounted() && disk.contents == old(disk.contents)[b := buf]
    {
      disk.DiskWrite(b, buf);
    }

    // Marks block p in its bitmap block, already read into buf, and zeroes it.
    method ClaimBlock(p: nat, buf: Block)
      requires Mounted() && DataStart(sb) <= p < sb.nblocks
      requires buf == disk.contents[BitmapBlock(sb, p)] && !Used(sb, disk.contents, p)
      modifies disk, disk.blockCache
      ensures Mounted()
      ensures Allocated(sb, old(disk.contents), disk.contents, p)
    {
      hide DiskCache.Valid, MarkedIn;
      UsedUpdate(sb, disk.contents, p);
      WriteBlock(BitmapBlock(sb, p), Mark(buf, p % BPB));
      ghost var marked := disk.contents;
      WriteBlock(p, Zeros(BLOCK_SIZE));
      UsedLocal(sb, marked, disk.contents);
    }

    // The first free block, marked and zeroed; fails when the disk is full.
    method Balloc() returns (ok: bool, block: u32)
      requires Mounted()
      requires forall p: nat :: p < DataStart(sb) ==> Used(sb, disk.contents, p)
      modifies disk, disk.blockCache
      ensures Mounted()
      ensures ok ==> Allocated(sb, old(disk.contents), disk.contents, block)
      ensures ok ==> forall p: nat :: p < block ==> Used(sb, old(disk.contents), p)
      ensures !ok ==> disk.contents == old(disk.contents) && Full(sb, disk.contents)
    {
      hide DiskCache.Valid, MarkedIn, Allocated;
      ghost var blocks := disk.contents;
      var b: nat := 0;
      while b < sb.nblocks
        invariant b % BPB == 0
        invariant Mounted() && disk.contents == blocks
        invariant forall p: nat :: p < b && p < sb.nblocks ==> Used(sb, blocks, p)
        decreases sb.nblocks - b
      {
        var buf := ReadBlock(BitmapBlock(sb, b));
        var bi := FirstUnmarked(buf, b);
        BitsOfBlock(sb, blocks, b, bi);
        if bi < BPB && b + bi < sb.nblocks {
          ClaimBlock(b + bi, buf);
          return true, b + bi;
        }
        b := b + BPB;
      }
      return false, 0;
    }

    // The inner loop of balloc: the first clear bit of a bitmap block.
    method FirstUnmarked(buf: Block, b: nat) returns (bi: nat)
      ensures bi <= BPB && forall k :: 0 <= k < bi ==> MarkedIn(buf, k)
      ensures bi == BPB || b + bi >= sb.nblocks || !MarkedIn(buf, bi)
    {
      bi := 0;
      while bi < BPB && b + bi < sb.nblocks
        invariant bi <= BPB && forall k :: 0 <= k < bi ==> MarkedIn(buf, k)
      {
        if !MarkedIn(buf, bi) {
          return;
        }
        bi := bi + 1;
      }
    }

    // An empty slot of the inode gets a fresh block.
    method SlotForWrite(ip: IncoreInode, inum: nat, s: nat, ghost base: seq<Inode>) returns (ok: bool)
      requires Mounted() && inum < |base| && s < ADDRS_PER_INODE
      requires TreeOk(sb, disk.contents, base[inum := ip.node], owner)
      modifies this, ip, disk, disk.blockCache
      ensures Mounted()
      ensures TreeOk(sb, disk.contents, base[inum := ip.node], owner)
      ensures Grew(sb, old(disk.contents), base[inum := old(ip.node)], disk.contents, base[inum := ip.node])
      ensures ip.node == old(ip.node).(addrs := ip.node.addrs)
      ensures ok ==> ip.node.addrs[s] != 0 && Claims(old(owner), owner, inum, {Slot(s)})
      ensures !ok ==> Full(sb, disk.contents) && Wants(old(owner), owner, inum, {Slot(s)})
    {
      hide DiskCache.Valid, Mapped, Stays, Used, Claims, Wants;
      ghost var blocks, inodes := disk.contents, base[inum := ip.node];
      if ip.node.addrs[s] == 0 {
        var b;
        ok, b := Balloc();
        if !ok {
          GrewReflexive(sb, blocks, inodes);
          WantsOne(sb, blocks, inodes, owner, inum, Slot(s));
          return;
        }
        FreshBlock(sb, blocks, disk.contents, inodes, owner, b);
        ClaimsOne(owner, b, inum, Slot(s));
        SlotLinkKeepsTree(sb, blocks, disk.contents, inodes, owner, inum, s, b);
        SlotLinkGrows(sb, blocks, disk.contents, inodes, owner, inum, s, b);
        ip.node := ip.node.(addrs := ip.node.addrs[s := b]);
        owner := owner[b := Key(inum, Slot(s))];
        assert base[inum := ip.node] == WithAddr(inodes, inum, s, b);
      } else {
        GrewReflexive(sb, blocks, inodes);
        ClaimsThere(sb, blocks, inodes, owner, inum, Slot(s));
      }
      return true;
    }

    // Entry k of the pointer block q; an empty entry gets a new block, and the
    // pointer block is written back.
    method EntryForWrite(q: nat, k: nat, ghost inodes: seq<Inode>, ghost inum: nat, ghost up: Node)
        returns (ok: bool, child: u32)
      requires Mounted() && inum < |inodes| && ValidNode(Child(up, k))
      requires TreeOk(sb, disk.contents, inodes, owner)
      requires q == Ptr(disk.contents, inodes[inum].addrs, up) != 0
      modifies this, disk, disk.blockCache
      ensures Mounted()
      ensures TreeOk(sb, disk.contents, inodes, owner)
      ensures Grew(sb, old(disk.contents), inodes, disk.contents, inodes)
      ensures ok ==> child == Ptr(disk.contents, inodes[inum].addrs, Child(up, k)) != 0
      ensures ok ==> Claims(old(owner), owner, inum, {Child(up, k)})
      ensures !ok ==> Full(sb, disk.contents) && Wants(old(owner), owner, inum, {Child(up, k)})
    {
      hide DiskCache.Valid, Stays, Used, Claims, Wants;
      ghost var blocks := disk.contents;
      assert q in owner;
      var buf := ReadBlock(q);
      child := Word(buf, k);
      if child != 0 {
        GrewReflexive(sb, blocks, inodes);
        ClaimsThere(sb, blocks, inodes, owner, inum, Child(up, k));
        return true, child;
      }
      ok, child := Balloc();
      if !ok {
        GrewReflexive(sb, blocks, inodes);
        WantsOne(sb, blocks, inodes, owner, inum, Child(up, k));
        return;
      }
      ghost var zeroed := disk.contents;
      WriteBlock(q, PutWord(buf, k, child));
      LinkChild(blocks, zeroed, inodes, inum, up, k, child, q);
    }

    ghost method LinkChild(blocks: seq<Block>, zeroed: seq<Block>, inodes: seq<Inode>, inum: nat, up: Node, k: nat,
        b: u32, q: nat)
      requires TreeOk(sb, blocks, inodes, owner) && Allocated(sb, blocks, zeroed, b)
      requires inum < |inodes| && ValidNode(Child(up, k))
      requires q == Ptr(blocks, inodes[inum].addrs, up) != 0 && Ptr(blocks, inodes[inum].addrs, Child(up, k)) == 0
      requires q < |blocks| && disk.contents == zeroed[q := PutWord(blocks[q], k, b)]
      modifies this
      ensures TreeOk(sb, disk.contents, inodes, owner)
      ensures Grew(sb, blocks, inodes, disk.contents, inodes)
      ensures Ptr(disk.contents, inodes[inum].addrs, Child(up, k)) == b
      ensures Claims(old(owner), owner, inum, {Child(up, k)})
    {
      hide Mapped, Grew, Used, Claims;
      FreshBlock(sb, blocks, zeroed, inodes, owner, b);
      ClaimsOne(owner, b, inum, Child(up, k));
      ChildLinkKeepsTree(sb, blocks, zeroed, disk.contents, inodes, owner, inum, up, k, b, q);
      ChildLinkGrows(sb, blocks, zeroed, disk.contents, inodes, owner, inum, up, k, b, q);
      PtrAfterChildLink(sb, blocks, disk.contents, inodes, owner, inum, up, k, b, inum, Child(up, k));
      owner := owner[b := Key(inum, Child(up, k))];
    }

    // The disk block holding block blockIdx of the file, allocating it and the
    // pointer blocks above it as needed.
    method BlockForWrite(ip: IncoreInode, inum: nat, blockIdx: nat, ghost base: seq<Inode>)
        returns (ok: bool, diskBlock: u32)
      requires Mounted() && inum < |base| && blockIdx < MAXFILE
      requires TreeOk(sb, disk.contents, base[inum := ip.node], owner)
      modifies this, ip, disk, disk.blockCache
      ensures Mounted()
      ensures TreeOk(sb, disk.contents, base[inum := ip.node], owner)
      ensures Grew(sb, old(disk.contents), base[inum := old(ip.node)], disk.contents, base[inum := ip.node])
      ensures ip.node == old(ip.node).(addrs := ip.node.addrs)
      ensures ok ==> diskBlock == Ptr(disk.contents, ip.node.addrs, LeafOf(blockIdx)) != 0
      ensures ok ==> Claims(old(owner), owner, inum, PathTo(LeafOf(blockIdx)))
      ensures !ok ==> Full(sb, disk.contents) && Wants(old(owner), owner, inum, PathTo(LeafOf(blockIdx)))
    {
      hide DiskCache.Valid, TreeOk, Grew, Full, Claims, Wants, PathTo;
      ghost var blocks, inodes := disk.contents, base[inum := ip.node];
      var slot := if blockIdx < NDIRECT then blockIdx
                  else if blockIdx < NDIRECT + NINDIRECT then SINDIRECT_IDX
                  else if blockIdx < NDIRECT + NINDIRECT + NDINDIRECT then DINDIRECT_IDX
                  else TINDIRECT_IDX;
      PathOfLeaf(blockIdx);
      ghost var owner0, path := owner, PathTo(LeafOf(blockIdx));
      ok := SlotForWrite(ip, inum, slot, base);
      if !ok {
        WantsMore(owner0, owner, inum, {Slot(slot)}, path);
        return false, 0;
      }
      ghost var blocks1, inodes1, owner1 := disk.contents, base[inum := ip.node], owner;
      if blockIdx < NDIRECT {
        diskBlock := ip.node.addrs[blockIdx];
      } else if blockIdx < NDIRECT + NINDIRECT {
        ok, diskBlock := EntryForWrite(ip.node.addrs[slot], blockIdx - NDIRECT, inodes1, inum, Slot(slot));
        GrewTransitive(sb, blocks, inodes, blocks1, inodes1, disk.contents, inodes1);
        ClaimsBoth(owner0, owner1, owner, inum, {Slot(slot)}, {Child(Slot(slot), blockIdx - NDIRECT)}, ok);
      } else if blockIdx < NDIRECT + NINDIRECT + NDINDIRECT {
        var doublyIdx := blockIdx - NDIRECT - NINDIRECT;
        ok, diskBlock := EntryForWrite2(ip.node.addrs[slot], doublyIdx, inodes1, inum, Slot(slot));
        GrewTransitive(sb, blocks, inodes, blocks1, inodes1, disk.contents, inodes1);
        ClaimsBoth(owner0, owner1, owner, inum, {Slot(slot)}, TwoBelow(Slot(slot), doublyIdx), ok);
      } else {
        var triplyIdx := blockIdx - NDIRECT - NINDIRECT - NDINDIRECT;
        var level1;
        ghost var up := Child(Slot(slot), triplyIdx / NDINDIRECT);
        ok, level1 := EntryForWrite(ip.node.addrs[slot], triplyIdx / NDINDIRECT, inodes1, inum, Slot(slot));
        GrewTransitive(sb, blocks, inodes, blocks1, inodes1, disk.contents, inodes1);
        ClaimsBoth(owner0, owner1, owner, inum, {Slot(slot)}, {up}, ok);
        if !ok {
          WantsMore(owner0, owner, inum, {Slot(slot)} + {up}, path);
          return false, 0;
        }
        ghost var blocks2, owner2 := disk.contents, owner;
        ok, diskBlock := EntryForWrite2(level1, triplyIdx % NDINDIRECT, inodes1, inum, up);
        GrewTransitive(sb, blocks, inodes, blocks2, inodes1, disk.contents, inodes1);
        ClaimsBoth(owner0, owner2, owner, inum, {Slot(slot)} + {up}, TwoBelow(up, triplyIdx % NDINDIRECT), ok);
      }
    }

    // Two levels of pointer blocks below block q: the doubly-indirect walk, and
    // the lower half of the triply-indirect one.
    method EntryForWrite2(q: nat, idx: nat, ghost inodes: seq<Inode>, ghost inum: nat, ghost up: Node)
        returns (ok: bool, child: u32)
      requires Mounted() && inum < |inodes| && idx < NDINDIRECT && ValidNode(up) && Height(up) == 2
      requires TreeOk(sb, disk.contents, inodes, owner)
      requires q == Ptr(disk.contents, inodes[inum].addrs, up) != 0
      modifies this, disk, disk.blockCache
      ensures Mounted()
      ensures TreeOk(sb, disk.contents, inodes, owner)
      ensures Grew(sb, old(disk.contents), inodes, disk.contents, inodes)
      ensures ok ==>
              child == Ptr(disk.contents, inodes[inum].addrs, Child(Child(up, idx / NINDIRECT), idx % NINDIRECT)) != 0
      ensures ok ==> Claims(old(owner), owner, inum, TwoBelow(up, idx))
      ensures !ok ==> Full(sb, disk.contents) && Wants(old(owner), owner, inum, TwoBelow(up, idx))
    {
      hide DiskCache.Valid, TreeOk, Grew, Full, Claims, Wants;
      ghost var blocks, owner0, mid := disk.contents, owner, Child(up, idx / NINDIRECT);
      var level1;
      ok, level1 := EntryForWrite(q, idx / NINDIRECT, inodes, inum, up);
      if !ok {
        WantsMore(owner0, owner, inum, {mid}, TwoBelow(up, idx));
        return false, 0;
      }
      ghost var blocks1, owner1 := disk.contents, owner;
      ok, child := EntryForWrite(level1, idx % NINDIRECT, inodes, inum, mid);
      ClaimsBoth(owner0, owner1, owner, inum, {mid}, {Child(mid, idx % NINDIRECT)}, ok);
      GrewTransitive(sb, blocks, inodes, blocks1, inodes, disk.contents, inodes);
    }

    method Iget(inum: nat) returns (ip: Inode)
      requires Mounted() && inum < sb.ninodes
      modifies disk, disk.blockCache
      ensures Mounted() && disk.contents == old(disk.contents)
      ensures ip == Inodes(sb, disk.contents)[inum]
    {
      hide DiskCache.Valid;
      var buf := ReadBlock(InodeBlock(sb, inum));
      ip := InodeAt(buf, inum % IPB);
    }

    method Iupdate(ip: IncoreInode, inum: nat)
      requires Mounted() && inum < sb.ninodes
      modifies disk, disk.blockCache
      ensures Mounted()
      ensures InodeBlock(sb, inum) < |old(disk.contents)|
      ensures disk.contents ==
              old(disk.contents)[InodeBlock(sb, inum) := PutInode(old(disk.contents)[InodeBlock(sb, inum)], inum % IPB,
                  ip.node)]
    {
      hide DiskCache.Valid;
      var buf := ReadBlock(InodeBlock(sb, inum));
      WriteBlock(InodeBlock(sb, inum), PutInode(buf, inum % IPB, ip.node));
    }

    // src[from..from + m] into the block at byte o.
    method PatchBlock(diskBlock: nat, o: nat, src: array<byte>, from: nat, m: nat)
      requires Mounted() && diskBlock < sb.nblocks
      requires o + m <= BLOCK_SIZE && from + m <= src.Length
      modifies disk, disk.blockCache
      ensures Mounted()
      ensures disk.contents == old(disk.contents)[diskBlock := Splice(old(disk.contents)[diskBlock], o,
              src[from..from + m])]
    {
      hide DiskCache.Valid;
      var buf := ReadBlock(diskBlock);
      var tempBuf := buf;
      for i := 0 to m
        invariant tempBuf == Splice(buf, o, src[from..from + i])
      {
        tempBuf := tempBuf[o + i := src[from + i]];
      }
      WriteBlock(diskBlock, tempBuf);
    }

    // One round of the write loop: the part of the range inside one block.
    method WritePiece(ip: IncoreInode, src: array<byte>, from: nat, m: nat, off: nat, inum: nat, ghost base: seq<Inode>,
        ghost files: seq<seq<byte>>) returns (ok: bool)
      requires Mounted() && ValidLayout(sb, disk.contents) && Inodes(sb, disk.contents) == base
      requires inum < |base| && |files| == |base| && off <= |files[inum]| && off + m <= MAXFILE * BLOCK_SIZE
      requires 0 < m && off % BLOCK_SIZE + m <= BLOCK_SIZE && from + m <= src.Length
      requires TreeOk(sb, disk.contents, base[inum := ip.node], owner)
      requires HoldsFiles(disk.contents, base[inum := ip.node], files)
      modifies this, ip, disk, disk.blockCache
      ensures Mounted() && TreeOk(sb, disk.contents, base[inum := ip.node], owner)
      ensures !ok ==> Full(sb, disk.contents) && Wants(old(owner), owner, inum, PathTo(LeafOf(off / BLOCK_SIZE)))
      ensures ok ==> Inodes(sb, disk.contents) == base
      ensures ok ==> Claims(old(owner), owner, inum, PathTo(LeafOf(off / BLOCK_SIZE)))
      ensures ok ==>
              HoldsFiles(disk.contents, base[inum := ip.node],
              files[inum := Patched(files[inum], off, src[from..from + m])])
      ensures ip.node == old(ip.node).(addrs := ip.node.addrs)
    {
      hide DiskCache.Valid, TreeOk, Full, HoldsFiles, Stays, Inodes, Patched, LeafOf, Ptr, Claims, Wants, PathTo;
      ghost var blocks, inodes := disk.contents, base[inum := ip.node];
      var blockIdx := off / BLOCK_SIZE;
      var diskBlock;
      ok, diskBlock := BlockForWrite(ip, inum, blockIdx, base);
      if !ok { return; }
      ghost var grown, inodes' := disk.contents, base[inum := ip.node];
      HoldsFilesGrew(sb, blocks, inodes, old(owner), grown, inodes', files);
      PtrInDataArea(sb, grown, inodes', owner, inum, LeafOf(blockIdx));
      DataWrite(sb, grown, inodes', owner, inum, blockIdx,
          Splice(grown[diskBlock], off % BLOCK_SIZE, src[from..from + m]), diskBlock);
      HoldsFilesWritten(sb, grown, inodes', owner, inum, blockIdx, off % BLOCK_SIZE, src[from..from + m],
          diskBlock, files);
      PatchBlock(diskBlock, off % BLOCK_SIZE, src, from, m);
      InodesLocal(sb, blocks, disk.contents);
    }

    // The write loop: src[..n] goes to the file at off, block by block.
    method WriteRange(ip: IncoreInode, src: array<byte>, off: nat, n: nat, inum: nat, ghost base: seq<Inode>,
        ghost files: seq<seq<byte>>) returns (ok: bool)
      requires Mounted() && ValidLayout(sb, disk.contents) && Inodes(sb, disk.contents) == base
      requires inum < |base| && |files| == |base| && off <= |files[inum]| && off + n <= MAXFILE * BLOCK_SIZE
      requires n <= src.Length
      requires TreeOk(sb, disk.contents, base[inum := ip.node], owner)
      requires HoldsFiles(disk.contents, base[inum := ip.node], files)
      modifies this, ip, disk, disk.blockCache
      ensures Mounted() && TreeOk(sb, disk.contents, base[inum := ip.node], owner)
      ensures !ok ==> Full(sb, disk.contents) && Wants(old(owner), owner, inum, WriteNodes(off, n))
      ensures ok ==> Inodes(sb, disk.contents) == base
      ensures ok ==> Claims(old(owner), owner, inum, WriteNodes(off, n))
      ensures ok ==>
              HoldsFiles(disk.contents, base[inum := ip.node], files[inum := Patched(files[inum], off, src[..n])])
      ensures n == 0 ==> ok && ip.node == old(ip.node) && disk.contents == old(disk.contents) && owner == old(owner)
      ensures ip.node == old(ip.node).(addrs := ip.node.addrs)
    {
      hide DiskCache.Valid, TreeOk, Full, HoldsFiles, Inodes, Patched, Claims, Wants, PathTo, LeafOf, WriteNodes, Ptr;
      ghost var now, owner0 := files, owner;
      NothingClaimed(owner, inum, off);
      PatchedNothing(files[inum], off);
      assert src[..0] == [] && files[inum := files[inum]] == files;
      var tot, at := 0, off;
      while tot < n
        invariant 0 <= tot <= n && at == off + tot
        invariant Mounted() && Inodes(sb, disk.contents) == base
        invariant TreeOk(sb, disk.contents, base[inum := ip.node], owner)
        invariant now == files[inum := Patched(files[inum], off, src[..tot])]
        invariant HoldsFiles(disk.contents, base[inum := ip.node], now)
        invariant Claims(owner0, owner, inum, WriteNodes(off, tot))
        invariant 0 < tot < n ==> at % BLOCK_SIZE == 0
        invariant tot == 0 ==> ip.node == old(ip.node) && disk.contents == old(disk.contents) && owner == old(owner)
        invariant ip.node == old(ip.node).(addrs := ip.node.addrs)
      {
        var m := BLOCK_SIZE - at % BLOCK_SIZE;
        if n - tot < m {
          m := n - tot;
        }
        ghost var owner1 := owner;
        ok := WritePiece(ip, src, tot, m, at, inum, base, now);
        PieceClaims(owner0, owner1, owner, inum, off, tot, m, n, ok);
        if !ok { return; }
        assert src[..n][..tot] == src[..tot] && src[..n][tot..tot + m] == src[tot..tot + m];
        assert src[..n][..tot + m] == src[..tot + m];
        NowPatched(files, now, inum, off, src[..n], tot, m);
        now := now[inum := Patched(now[inum], at, src[tot..tot + m])];
        tot, at := tot + m, at + m;
      }
      return true;
    }

    // writei: returns -1 for a range the file cannot hold; otherwise the file
    // becomes old[..off] + src + old[off + n..] and no other file changes. The
    // kernel stops (ok is false) exactly when there are fewer free blocks than
    // places on the way to the range that have none.
    method Writei(ip: IncoreInode, src: array<byte>, off: u32, n: u32, inum: nat, ghost files: seq<seq<byte>>)
        returns (ok: bool, r: int)
      requires Mounted() && Consistent(sb, disk.contents, owner, files)
      requires inum < sb.ninodes && ip.node == Inodes(sb, disk.contents)[inum] && n <= src.Length
      modifies this, ip, disk, disk.blockCache
      ensures Mounted()
      ensures !ok ==> Full(sb, disk.contents)
      ensures Fits(files[inum], off, n) ==>
                (ok <==> |old(owner).Values + KeysOf(inum, WriteNodes(off, n))| <= sb.nblocks - DataStart(sb))
      ensures ok && Fits(files[inum], off, n) ==> Claims(old(owner), owner, inum, WriteNodes(off, n))
      ensures !Fits(files[inum], off, n) ==>
                ok && r == -1 && disk.contents == old(disk.contents) && owner == old(owner) && ip.node == old(ip.node)
      ensures ok && Fits(files[inum], off, n) ==>
                && r == n
                && Consistent(sb, disk.contents, owner, files[inum := Patched(files[inum], off, src[..n])])
                && Inodes(sb, disk.contents) == Inodes(sb, old(disk.contents))[inum := ip.node]
                && ip.node == old(ip.node).(size := |Patched(files[inum], off, src[..n])|, addrs := ip.node.addrs)
    {
      hide DiskCache.Valid, TreeOk, Full, HoldsFiles, Claims, Wants, WriteNodes;
      if off > ip.node.size || Add32(off, n) < off {
        return true, -1;
      }
      if off as int + n as int > MAXFILE * BLOCK_SIZE {
        return true, -1;
      }
      ok := WriteFitting(ip, src, off, n, inum, files);
      r := if ok then n else 0;
    }

    // The rest of writei, for a range that fits.
    method WriteFitting(ip: IncoreInode, src: array<byte>, off: u32, n: u32, inum: nat, ghost files: seq<seq<byte>>)
        returns (ok: bool)
      requires Mounted() && Consistent(sb, disk.contents, owner, files)
      requires inum < sb.ninodes && ip.node == Inodes(sb, disk.contents)[inum] && n <= src.Length
      requires Fits(files[inum], off, n)
      modifies this, ip, disk, disk.blockCache
      ensures Mounted()
      ensures !ok ==> Full(sb, disk.contents)
      ensures ok <==> |old(owner).Values + KeysOf(inum, WriteNodes(off, n))| <= sb.nblocks - DataStart(sb)
      ensures ok ==> Claims(old(owner), owner, inum, WriteNodes(off, n))
      ensures ok ==>
                && Consistent(sb, disk.contents, owner, files[inum := Patched(files[inum], off, src[..n])])
                && Inodes(sb, disk.contents) == Inodes(sb, old(disk.contents))[inum := ip.node]
                && ip.node == old(ip.node).(size := |Patched(files[inum], off, src[..n])|, addrs := ip.node.addrs)
    {
      hide DiskCache.Valid, TreeOk, Full, HoldsFiles, Claims, Wants, WriteNodes;
      ghost var base := Inodes(sb, disk.contents);
      assert base[inum].size == |files[inum]| && base[inum := ip.node] == base;
      ghost var files' := files[inum := Patched(files[inum], off, src[..n])];
      ok := WriteRange(ip, src, off, n, inum, base, files);
      DiskFills(sb, disk.contents, base[inum := ip.node], old(owner), owner, inum, WriteNodes(off, n), ok);
      if !ok {
        return;
      }
      var end := off + n;
      OnlyAddrsMatter(sb, disk.contents, base[inum := ip.node], base[inum := ip.node.(size := |files'[inum]|)], owner,
          files');
      if n > 0 || end > ip.node.size {
        if end > ip.node.size {
          ip.node := ip.node.(size := end);
        }
        InodeWriteBack(sb, disk.contents, base, ip.node, owner, inum, files');
        Iupdate(ip, inum);
      } else {
        assert Patched(files[inum], off, src[..n]) == files[inum];
        assert files' == files && base[inum := ip.node] == base;
      }
      return true;
    }

    // One entry of pointer block q, for reading; an absent block has none.
    method EntryForRead(q: u32, k: nat) returns (child: u32)
      requires Mounted() && q < sb.nblocks && k < NINDIRECT
      modifies disk, disk.blockCache
      ensures Mounted() && disk.contents == old(disk.contents)
      ensures child == if q == 0 then 0 else Word(disk.contents[q], k)
    {
      hide DiskCache.Valid;
      if q == 0 {
        return 0;
      }
      var buf := ReadBlock(q);
      child := Word(buf, k);
    }

    method BlockForRead(ip: Inode, blockIdx: nat, ghost inodes: seq<Inode>, ghost inum: nat) returns (diskBlock: u32)
      requires Mounted() && blockIdx < MAXFILE
      requires TreeOk(sb, disk.contents, inodes, owner) && inum < |inodes| && ip == inodes[inum]
      modifies disk, disk.blockCache
      ensures Mounted() && disk.contents == old(disk.contents)
      ensures diskBlock == Ptr(disk.contents, ip.addrs, LeafOf(blockIdx))
    {
      hide DiskCache.Valid, TreeOk;
      ghost var blocks := disk.contents;
      if blockIdx < NDIRECT {
        diskBlock := ip.addrs[blockIdx];
      } else if blockIdx < NDIRECT + NINDIRECT {
        PtrInRange(sb, blocks, inodes, owner, inum, Slot(SINDIRECT_IDX));
        diskBlock := EntryForRead(ip.addrs[SINDIRECT_IDX], blockIdx - NDIRECT);
      } else if blockIdx < NDIRECT + NINDIRECT + NDINDIRECT {
        var doublyIdx := blockIdx - NDIRECT - NINDIRECT;
        PtrInRange(sb, blocks, inodes, owner, inum, Slot(DINDIRECT_IDX));
        diskBlock := EntryForRead2(ip.addrs[DINDIRECT_IDX], doublyIdx, inodes, inum, Slot(DINDIRECT_IDX));
      } else {
        var triplyIdx := blockIdx - NDIRECT - NINDIRECT - NDINDIRECT;
        PtrInRange(sb, blocks, inodes, owner, inum, Slot(TINDIRECT_IDX));
        var level1 := EntryForRead(ip.addrs[TINDIRECT_IDX], triplyIdx / NDINDIRECT);
        diskBlock := EntryForRead2(level1, triplyIdx % NDINDIRECT, inodes, inum,
            Child(Slot(TINDIRECT_IDX), triplyIdx / NDINDIRECT));
      }
    }

    method EntryForRead2(q: u32, idx: nat, ghost inodes: seq<Inode>, ghost inum: nat, ghost up: Node)
        returns (child: u32)
      requires Mounted() && inum < |inodes| && idx < NDINDIRECT && ValidNode(up) && Height(up) == 2
      requires TreeOk(sb, disk.contents, inodes, owner)
      requires q == Ptr(disk.contents, inodes[inum].addrs, up)
      modifies disk, disk.blockCache
      ensures Mounted() && disk.contents == old(disk.contents)
      ensures child == Ptr(disk.contents, inodes[inum].addrs, Child(Child(up, idx / NINDIRECT), idx % NINDIRECT))
    {
      hide DiskCache.Valid, TreeOk;
      PtrInRange(sb, disk.contents, inodes, owner, inum, up);
      var level1 := EntryForRead(q, idx / NINDIRECT);
      PtrInRange(sb, disk.contents, inodes, owner, inum, Child(up, idx / NINDIRECT));
      child := EntryForRead(level1, idx % NINDIRECT);
    }

    // One round of the read loop: m bytes that lie inside one block.
    method ReadPiece(ip: Inode, dst: array<byte>, to: nat, at: nat, m: nat, ghost inum: nat,
        ghost files: seq<seq<byte>>) returns (found: bool)
      requires Mounted() && Consistent(sb, disk.contents, owner, files)
      requires inum < sb.ninodes && ip == Inodes(sb, disk.contents)[inum]
      requires at < |files[inum]| && at + m <= |files[inum]| && at % BLOCK_SIZE + m <= BLOCK_SIZE
      requires to + m <= dst.Length
      modifies dst, disk, disk.blockCache
      ensures Mounted() && disk.contents == old(disk.contents)
      ensures found
      ensures dst[..] == Splice(old(dst[..]), to, files[inum][at..at + m])
    {
      hide DiskCache.Valid, Consistent, Splice, Ptr, LeafOf, TreeOk, Inodes;
      SizeOnDisk(sb, disk.contents, owner, files, inum);
      FileBlock(sb, disk.contents, owner, files, inum, at, m);
      var diskBlock := BlockForRead(ip, at / BLOCK_SIZE, Inodes(sb, disk.contents), inum);
      if diskBlock == 0 {
        return false;
      }
      var tempBuf := ReadBlock(diskBlock);
      CopyOut(dst, to, tempBuf, at % BLOCK_SIZE, m);
      return true;
    }

    // readi: the bytes of the file from off on, as many as asked for and there.
    method Readi(ip: Inode, dst: array<byte>, off: u32, n: u32, ghost inum: nat, ghost files: seq<seq<byte>>)
        returns (tot: nat)
      requires Mounted() && Consistent(sb, disk.contents, owner, files)
      requires inum < sb.ninodes && ip == Inodes(sb, disk.contents)[inum]
      requires ReadLength(files[inum], off, n) <= dst.Length
      modifies dst, disk, disk.blockCache
      ensures Mounted() && disk.contents == old(disk.contents)
      ensures tot == ReadLength(files[inum], off, n)
      ensures dst[..] == Splice(old(dst[..]), 0, if tot == 0 then [] else files[inum][off..off + tot])
    {
      hide DiskCache.Valid, Consistent, Splice, Ptr, LeafOf, Add32;
      SizeOnDisk(sb, disk.contents, owner, files, inum);
      hide TreeOk, Inodes;
      ghost var file, dst0 := files[inum], dst[..];
      SpliceNothing(dst0);
      if off > ip.size || Add32(off, n) < off {
        return 0;
      }
      var len: nat := if off as int + n as int > ip.size then ip.size - off else n;
      var at := off;
      tot := 0;
      NothingRead(file, off);
      while tot < len
        invariant 0 <= tot <= len && at == off + tot
        invariant Mounted() && disk.contents == old(disk.contents)
        invariant dst[..] == Splice(dst0, 0, file[off..off + tot])
      {
        var m := BLOCK_SIZE - at % BLOCK_SIZE;
        if len - tot < m {
          m := len - tot;
        }
        var found := ReadPiece(ip, dst, tot, at, m, inum, files);
        if !found {
          break;
        }
        PieceAppends(dst0, file, off, tot, m);
        tot, at := tot + m, at + m;
      }
    }
  }

  // buf[from..from + m] into dst at byte at.
  method CopyOut(dst: array<byte>, at: nat, buf: seq<byte>, from: nat, m: nat)
    requires at + m <= dst.Length && from + m <= |buf|
    modifies dst
    ensures dst[..] == Splice(old(dst[..]), at, buf[from..from + m])
  {
    ghost var before := dst[..];
    for i := 0 to m
      invariant dst[..] == Splice(before, at, buf[from..from + i])
    {
      dst[at + i] := buf[from + i];
      assert dst[..] == Splice(before, at, buf[from..from + i])[at + i := buf[from + i]];
    }
  }

  lemma NothingRead(file: seq<byte>, off: nat)
    requires off <= |file|
    ensures file[off..off] == []
  {
  }

  // The next piece of the file, behind those already read.
  lemma PieceAppends(dst: seq<byte>, file: seq<byte>, off: nat, tot: nat, m: nat)
    requires off + tot + m <= |file| && tot + m <= |dst|
    ensures Splice(Splice(dst, 0, file[off..off + tot]), tot, file[off + tot..off + tot + m]) == Splice(dst, 0,
            file[off..off + (tot + m)])
  {
  }

  // off + n in 32 bits
  function Add32(a: u32, b: u32): (c: u32)
    ensures c < a <==> a as int + b as int >= 0x1_0000_0000
    ensures c >= a ==> c as int == a as int + b as int
  {
    (a as int + b as int) % 0x1_0000_0000
  }

  // How many bytes readi delivers.
  function ReadLength(file: seq<byte>, off: nat, n: nat): (r: nat)
  {
    if off > |file| || off + n >= 0x1_0000_0000 then 0
    else if off + n > |file| then |file| - off
    else n
  }

  lemma PtrInRange(sb: SuperBlock, blocks: seq<Block>, inodes: seq<Inode>, owner: map<nat, Key>, i: nat, n: Node)
    requires TreeOk(sb, blocks, inodes, owner) && i < |inodes| && ValidNode(n)
    ensures Ptr(blocks, inodes[i].addrs, n) < |blocks|
  {
  }

  // Below its size a file has all its blocks, and they hold its bytes.
  lemma FileBlock(sb: SuperBlock, blocks: seq<Block>, owner: map<nat, Key>, files: seq<seq<byte>>, inum: nat, at: nat,
      m: nat)
    requires Consistent(sb, blocks, owner, files) && inum < sb.ninodes && at < |files[inum]|
    requires at + m <= |files[inum]| && at % BLOCK_SIZE + m <= BLOCK_SIZE
    ensures at / BLOCK_SIZE < MAXFILE
    ensures var p := Ptr(blocks, Inodes(sb, blocks)[inum].addrs, LeafOf(at / BLOCK_SIZE));
            && 0 < p < |blocks|
            && blocks[p][at % BLOCK_SIZE..at % BLOCK_SIZE + m] == files[inum][at..at + m]
  {
    hide TreeOk, FileIs, Ptr, LeafOf, Inodes;
    var inodes := Inodes(sb, blocks);
    assert FileIs(blocks, inodes[inum].addrs, files[inum]);
    SizeOnDisk(sb, blocks, owner, files, inum);
    PtrInRange(sb, blocks, inodes, owner, inum, LeafOf(at / BLOCK_SIZE));
    FileIsBlock(blocks, inodes[inum].addrs, files[inum], at, m,
        Ptr(blocks, inodes[inum].addrs, LeafOf(at / BLOCK_SIZE)));
  }

  lemma SpliceNothing(b: seq<byte>)
    ensures Splice(b, 0, []) == b
  {
  }

  // writei's range check.
  predicate Fits(file: seq<byte>, off: nat, n: nat) {
    off <= |file| && off + n <= MAXFILE * BLOCK_SIZE
  }

  // The bits of one bitmap block are those of its blocks.
  lemma BitsOfBlock(sb: SuperBlock, blocks: seq<Block>, b: nat, bi: nat)
    requires ValidLayout(sb, blocks) && b < sb.nblocks && b % BPB == 0 && bi <= BPB
    requires BitmapBlock(sb, b) < |blocks|
    requires forall k :: 0 <= k < bi ==> MarkedIn(blocks[BitmapBlock(sb, b)], k)
    ensures forall p: nat :: b <= p < b + bi && p < sb.nblocks ==> Used(sb, blocks, p)
    ensures bi < BPB && b + bi < sb.nblocks ==>
            && BitmapBlock(sb, b + bi) == BitmapBlock(sb, b)
            && (!MarkedIn(blocks[BitmapBlock(sb, b)], bi) ==> !Used(sb, blocks, b + bi))
  {
    hide MarkedIn;
    forall p: nat | b <= p < b + bi && p < sb.nblocks
      ensures Used(sb, blocks, p)
    {
      assert p / BPB == b / BPB && p % BPB == p - b;
    }
    if bi < BPB {
      assert (b + bi) / BPB == b / BPB && (b + bi) % BPB == bi;
    }
  }

  // The file after one piece more.
  lemma NowPatched(files: seq<seq<byte>>, now: seq<seq<byte>>, inum: nat, off: nat, s: seq<byte>, tot: nat, m: nat)
    requires inum < |files| && off <= |files[inum]| && tot + m <= |s|
    requires now == files[inum := Patched(files[inum], off, s[..tot])]
    ensures off + tot <= |now[inum]|
    ensures now[inum := Patched(now[inum], off + tot, s[tot..tot + m])] ==
            files[inum := Patched(files[inum], off, s[..tot + m])]
  {
    PatchedTwice(files[inum], off, s[..tot], s[tot..tot + m]);
    assert s[..tot] + s[tot..tot + m] == s[..tot + m];
  }

  // Whether the allocation went through, counted before it began.
  lemma DiskFills(sb: SuperBlock, blocks: seq<Block>, inodes: seq<Inode>, owner: map<nat, Key>, owner': map<nat, Key>,
      inum: nat, nodes: set<Node>, ok: bool)
    requires TreeOk(sb, blocks, inodes, owner')
    requires if ok then Claims(owner, owner', inum, nodes) else Full(sb, blocks) && Wants(owner, owner', inum, nodes)
    ensures ok <==> |owner.Values + KeysOf(inum, nodes)| <= sb.nblocks - DataStart(sb)
  {
    OwnerInjective(sb, blocks, inodes, owner');
    OwnedCount(sb, blocks, inodes, owner', sb.nblocks);
    hide TreeOk, Used, KeysOf;
    if !ok {
      Smaller(owner'.Values, owner.Values + KeysOf(inum, nodes));
    }
  }
}
