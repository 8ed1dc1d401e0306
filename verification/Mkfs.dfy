// The host-side image builder, on the format the kernel reads.
module Mkfs {
  import opened Bytes
  import opened DiskFormat
  import opened FileTree
  import opened BlockCount
  import opened Directory
  import opened HostTree

  const NINODES: u32 := 1024
  const NBLOCKS: u32 := 524288   // 256 MiB
  const INODE_START: u32 := 2
  const BMAP_START: u32 := 116
  const DATA_START: nat := 244
  const SB := SuperBlock(NINODES, NBLOCKS, INODE_START, BMAP_START)

  const UNUSED := Inode(FREE_INODE, 0, 0, seq(ADDRS_PER_INODE, _ => 0))

  // memset(&sb, 0), its five fields, memcpy to block 1.
  function SuperBlockBytes(): Block {
    PutLe32(PutLe32(PutLe32(PutLe32(PutLe32(Zeros(BLOCK_SIZE),
      0, MAGIC_NUM), 4, NINODES), 8, NBLOCKS), 12, INODE_START), 16, BMAP_START)
  }

  // Data blocks are handed out in order: the bitmap marks exactly the blocks
  // below `next`, and the rest of the image is still zero.
  ghost predicate Packed(blocks: seq<Block>, next: nat) {
    && ValidLayout(SB, blocks)
    && DATA_START <= next <= NBLOCKS
    && (forall p: nat {:trigger Used(SB, blocks, p)} :: p < NBLOCKS ==> (Used(SB, blocks, p) <==> p < next))
    && (forall p :: next <= p < NBLOCKS ==> blocks[p] == Zeros(BLOCK_SIZE))
  }

  lemma PackedBalloc(blocks: seq<Block>, next: nat)
    requires Packed(blocks, next) && next < NBLOCKS
    ensures BitmapBlock(SB, next) < |blocks|
    ensures var m := BitmapBlock(SB, next);
            var blocks' := blocks[m := Mark(blocks[m], next % BPB)];
            Packed(blocks', next + 1) && Allocated(SB, blocks, blocks', next)
  {
    hide Used;
    var m := BitmapBlock(SB, next);
    var blocks' := blocks[m := Mark(blocks[m], next % BPB)];
    UsedUpdate(SB, blocks, next);
    assert !Used(SB, blocks, next);
  }

  lemma PackedStore(blocks: seq<Block>, next: nat, q: nat, b: Block)
    requires Packed(blocks, next) && q < next && !(BMAP_START <= q < DATA_START)
    ensures Packed(blocks[q := b], next)
  {
    hide Used;
    UsedLocal(SB, blocks, blocks[q := b]);
  }

  class Image {
    const disk: array<Block>
    var nextInum: nat
    var nextDatablock: nat
    ghost var owner: map<nat, Key>

    // Steps 1 and 2 of mkfs: superblock, and the reserved blocks marked.
    constructor Format()
      ensures Built(NoFiles()) && nextInum == 1 && nextDatablock == DATA_START && fresh(disk)
    {
      disk := new Block[NBLOCKS](_ => Zeros(BLOCK_SIZE));
      nextInum := 1;
      nextDatablock := DATA_START;
      owner := map[];
      new;
      hide Reserved, Used, Packed, TreeOk, HoldsFiles, SuperBlockBytes, Mark;
      disk[1] := SuperBlockBytes();
      BlankIsReserved(disk[..]);
      for b := 0 to DATA_START
        invariant ValidLayout(SB, disk[..]) && Reserved(disk[..], b)
        invariant disk[1] == SuperBlockBytes()
        modifies disk
      {
        ReservedStep(disk[..], b);
        BmapSet(b);
      }
      FormattedIsBuilt(disk[..]);
    }

    // The image holds `files` and no block more than they need; inodes from
    // nextInum on are unused.
    ghost predicate Built(files: seq<seq<byte>>)
      reads this, disk
    {
      && Packed(disk[..], nextDatablock)
      && Consistent(SB, disk[..], owner, files)
      && Tight(owner.Values, files)
      && disk[1] == SuperBlockBytes()
      && forall i :: nextInum <= i < NINODES ==> Inodes(SB, disk[..])[i] == UNUSED
    }

    // Mid-append: the trees of the inode table `inodes`, one of them in memory.
    ghost predicate Growing(inodes: seq<Inode>)
      reads this, disk
    {
      && ValidLayout(SB, disk[..])
      && Packed(disk[..], nextDatablock)
      && TreeOk(SB, disk[..], inodes, owner)
    }

    method Store(b: nat, data: Block)
      requires b < disk.Length
      modifies disk
      ensures disk[..] == old(disk[..])[b := data]
    {
      disk[b] := data;
    }

    method BmapSet(bno: nat)
      requires disk.Length == NBLOCKS && bno < NBLOCKS
      modifies disk
      ensures BitmapBlock(SB, bno) < |old(disk[..])|
      ensures disk[..] == old(disk[..])[BitmapBlock(SB, bno) := Mark(old(disk[..])[BitmapBlock(SB, bno)], bno % BPB)]
    {
      var m := bno / BPB + BMAP_START;
      Store(m, Mark(disk[m], bno % BPB));
    }

    // The next data block; fails when the image is full.
    method Balloc() returns (ok: bool, b: u32)
      requires Packed(disk[..], nextDatablock)
      modifies this`nextDatablock, disk
      ensures Packed(disk[..], nextDatablock)
      ensures ok ==> b == old(nextDatablock) && nextDatablock == b + 1
      ensures ok ==> Allocated(SB, old(disk[..]), disk[..], b)
      ensures !ok ==> disk[..] == old(disk[..]) && nextDatablock == old(nextDatablock) == NBLOCKS
    {
      hide Packed, Allocated;
      PackedRange(disk[..], nextDatablock);
      if nextDatablock >= NBLOCKS {
        return false, 0;
      }
      b := nextDatablock;
      PackedBalloc(disk[..], nextDatablock);
      nextDatablock := nextDatablock + 1;
      BmapSet(b);
      return true, b;
    }

    method SlotForAppend(node: Inode, inum: nat, s: nat, ghost base: seq<Inode>) returns (ok: bool, ip: Inode)
      requires inum < |base| && s < ADDRS_PER_INODE && Growing(base[inum := node])
      modifies this`nextDatablock, this`owner, disk
      ensures Growing(base[inum := ip])
      ensures Grew(SB, old(disk[..]), base[inum := node], disk[..], base[inum := ip])
      ensures ip == node.(addrs := ip.addrs)
      ensures ok ==> ip.addrs[s] != 0 && Claims(old(owner), owner, inum, {Slot(s)})
      ensures !ok ==> nextDatablock == NBLOCKS && Wants(old(owner), owner, inum, {Slot(s)})
    {
      hide Packed, Mapped, Stays, Used, Claims, Wants;
      ghost var blocks, inodes := disk[..], base[inum := node];
      ip := node;
      if ip.addrs[s] == 0 {
        var b;
        ok, b := Balloc();
        if !ok {
          GrewReflexive(SB, blocks, inodes);
          WantsOne(SB, blocks, inodes, owner, inum, Slot(s));
          return;
        }
        FreshBlock(SB, blocks, disk[..], inodes, owner, b);
        ClaimsOne(owner, b, inum, Slot(s));
        SlotLinkKeepsTree(SB, blocks, disk[..], inodes, owner, inum, s, b);
        SlotLinkGrows(SB, blocks, disk[..], inodes, owner, inum, s, b);
        ip := ip.(addrs := ip.addrs[s := b]);
        owner := owner[b := Key(inum, Slot(s))];
        assert base[inum := ip] == WithAddr(inodes, inum, s, b);
      } else {
        GrewReflexive(SB, blocks, inodes);
        ClaimsThere(SB, blocks, inodes, owner, inum, Slot(s));
      }
      return true, ip;
    }

    method EntryForAppend(q: nat, k: nat, ghost inodes: seq<Inode>, ghost inum: nat, ghost up: Node)
        returns (ok: bool, child: u32)
      requires inum < |inodes| && ValidNode(Child(up, k)) && Growing(inodes)
      requires q == Ptr(disk[..], inodes[inum].addrs, up) != 0
      modifies this`nextDatablock, this`owner, disk
      ensures Growing(inodes)
      ensures Grew(SB, old(disk[..]), inodes, disk[..], inodes)
      ensures ok ==> child == Ptr(disk[..], inodes[inum].addrs, Child(up, k)) != 0
      ensures ok ==> Claims(old(owner), owner, inum, {Child(up, k)})
      ensures !ok ==> nextDatablock == NBLOCKS && Wants(old(owner), owner, inum, {Child(up, k)})
    {
      hide Packed, Stays, Used, Claims, Wants;
      ghost var blocks, next := disk[..], nextDatablock;
      PtrBelowNext(blocks, inodes, owner, inum, up, nextDatablock);
      var buf := disk[q];
      child := Word(buf, k);
      if child != 0 {
        GrewReflexive(SB, blocks, inodes);
        ClaimsThere(SB, blocks, inodes, owner, inum, Child(up, k));
        return true, child;
      }
      ok, child := Balloc();
      if !ok {
        GrewReflexive(SB, blocks, inodes);
        WantsOne(SB, blocks, inodes, owner, inum, Child(up, k));
        return;
      }
      ghost var marked := disk[..];
      Store(q, PutWord(buf, k, child));
      PackedStore(marked, nextDatablock, q, PutWord(buf, k, child));
      LinkChild(blocks, marked, inodes, inum, up, k, child, q);
    }

    ghost method LinkChild(blocks: seq<Block>, marked: seq<Block>, inodes: seq<Inode>, inum: nat, up: Node, k: nat,
        b: u32, q: nat)
      requires TreeOk(SB, blocks, inodes, owner) && Allocated(SB, blocks, marked, b)
      requires inum < |inodes| && ValidNode(Child(up, k))
      requires q == Ptr(blocks, inodes[inum].addrs, up) != 0 && Ptr(blocks, inodes[inum].addrs, Child(up, k)) == 0
      requires q < |blocks| && disk[..] == marked[q := PutWord(blocks[q], k, b)]
      modifies this`owner
      ensures TreeOk(SB, disk[..], inodes, owner)
      ensures Grew(SB, blocks, inodes, disk[..], inodes)
      ensures Ptr(disk[..], inodes[inum].addrs, Child(up, k)) == b
      ensures Claims(old(owner), owner, inum, {Child(up, k)})
    {
      hide Mapped, Grew, Used, Claims;
      FreshBlock(SB, blocks, marked, inodes, owner, b);
      ClaimsOne(owner, b, inum, Child(up, k));
      ChildLinkKeepsTree(SB, blocks, marked, disk[..], inodes, owner, inum, up, k, b, q);
      ChildLinkGrows(SB, blocks, marked, disk[..], inodes, owner, inum, up, k, b, q);
      PtrAfterChildLink(SB, blocks, disk[..], inodes, owner, inum, up, k, b, inum, Child(up, k));
      owner := owner[b := Key(inum, Child(up, k))];
    }

    method EntryForAppend2(q: nat, idx: nat, ghost inodes: seq<Inode>, ghost inum: nat, ghost up: Node)
        returns (ok: bool, child: u32)
      requires inum < |inodes| && idx < NDINDIRECT && ValidNode(up) && Height(up) == 2 && Growing(inodes)
      requires q == Ptr(disk[..], inodes[inum].addrs, up) != 0
      modifies this`nextDatablock, this`owner, disk
      ensures Growing(inodes)
      ensures Grew(SB, old(disk[..]), inodes, disk[..], inodes)
      ensures ok ==> child == Ptr(disk[..], inodes[inum].addrs, Child(Child(up, idx / NINDIRECT), idx % NINDIRECT)) != 0
      ensures ok ==> Claims(old(owner), owner, inum, TwoBelow(up, idx))
      ensures !ok ==> nextDatablock == NBLOCKS && Wants(old(owner), owner, inum, TwoBelow(up, idx))
    {
      hide Packed, TreeOk, Grew, Claims, Wants;
      ghost var blocks, owner0, mid := disk[..], owner, Child(up, idx / NINDIRECT);
      var level1;
      ok, level1 := EntryForAppend(q, idx / NINDIRECT, inodes, inum, up);
      if !ok {
        WantsMore(owner0, owner, inum, {mid}, TwoBelow(up, idx));
        return false, 0;
      }
      ghost var blocks1, owner1 := disk[..], owner;
      ok, child := EntryForAppend(level1, idx % NINDIRECT, inodes, inum, mid);
      ClaimsBoth(owner0, owner1, owner, inum, {mid}, {Child(mid, idx % NINDIRECT)}, ok);
      GrewTransitive(SB, blocks, inodes, blocks1, inodes, disk[..], inodes);
    }

    method BlockForAppend(node: Inode, inum: nat, blockIdx: nat, ghost base: seq<Inode>)
        returns (ok: bool, ip: Inode, diskBlock: u32)
      requires inum < |base| && blockIdx < MAXFILE && Growing(base[inum := node])
      modifies this`nextDatablock, this`owner, disk
      ensures Growing(base[inum := ip])
      ensures Grew(SB, old(disk[..]), base[inum := node], disk[..], base[inum := ip])
      ensures ip == node.(addrs := ip.addrs)
      ensures ok ==> diskBlock == Ptr(disk[..], ip.addrs, LeafOf(blockIdx)) != 0
      ensures ok ==> Claims(old(owner), owner, inum, PathTo(LeafOf(blockIdx)))
      ensures !ok ==> nextDatablock == NBLOCKS && Wants(old(owner), owner, inum, PathTo(LeafOf(blockIdx)))
    {
      hide Packed, TreeOk, Grew, Claims, Wants, PathTo;
      ghost var blocks, inodes := disk[..], base[inum := node];
      var slot := if blockIdx < NDIRECT then blockIdx
                  else if blockIdx < NDIRECT + NINDIRECT then SINDIRECT_IDX
                  else if blockIdx < NDIRECT + NINDIRECT + NDINDIRECT then DINDIRECT_IDX
                  else TINDIRECT_IDX;
      PathOfLeaf(blockIdx);
      ghost var owner0, path := owner, PathTo(LeafOf(blockIdx));
      ok, ip := SlotForAppend(node, inum, slot, base);
      if !ok {
        WantsMore(owner0, owner, inum, {Slot(slot)}, path);
        return false, ip, 0;
      }
      ghost var blocks1, inodes1, owner1 := disk[..], base[inum := ip], owner;
      if blockIdx < NDIRECT {
        diskBlock := ip.addrs[blockIdx];
      } else if blockIdx < NDIRECT + NINDIRECT {
        ok, diskBlock := EntryForAppend(ip.addrs[slot], blockIdx - NDIRECT, inodes1, inum, Slot(slot));
        GrewTransitive(SB, blocks, inodes, blocks1, inodes1, disk[..], inodes1);
        ClaimsBoth(owner0, owner1, owner, inum, {Slot(slot)}, {Child(Slot(slot), blockIdx - NDIRECT)}, ok);
      } else if blockIdx < NDIRECT + NINDIRECT + NDINDIRECT {
        var doublyIdx := blockIdx - NDIRECT - NINDIRECT;
        ok, diskBlock := EntryForAppend2(ip.addrs[slot], doublyIdx, inodes1, inum, Slot(slot));
        GrewTransitive(SB, blocks, inodes, blocks1, inodes1, disk[..], inodes1);
        ClaimsBoth(owner0, owner1, owner, inum, {Slot(slot)}, TwoBelow(Slot(slot), doublyIdx), ok);
      } else {
        var triplyIdx := blockIdx - NDIRECT - NINDIRECT - NDINDIRECT;
        var level1;
        ghost var up := Child(Slot(slot), triplyIdx / NDINDIRECT);
        ok, level1 := EntryForAppend(ip.addrs[slot], triplyIdx / NDINDIRECT, inodes1, inum, Slot(slot));
        GrewTransitive(SB, blocks, inodes, blocks1, inodes1, disk[..], inodes1);
        ClaimsBoth(owner0, owner1, owner, inum, {Slot(slot)}, {up}, ok);
        if !ok {
          WantsMore(owner0, owner, inum, {Slot(slot)} + {up}, path);
          return false, ip, 0;
        }
        ghost var blocks2, owner2 := disk[..], owner;
        ok, diskBlock := EntryForAppend2(level1, triplyIdx % NDINDIRECT, inodes1, inum, up);
        GrewTransitive(SB, blocks, inodes, blocks2, inodes1, disk[..], inodes1);
        ClaimsBoth(owner0, owner2, owner, inum, {Slot(slot)} + {up}, TwoBelow(up, triplyIdx % NDINDIRECT), ok);
      }
    }

    // One round of the append loop: a piece that fits the block holding byte off.
    method AppendPiece(node: Inode, inum: nat, off: nat, piece: seq<byte>, ghost base: seq<Inode>,
        ghost files: seq<seq<byte>>) returns (ok: bool, ip: Inode)
      requires inum < |base| && Growing(base[inum := node]) && Inodes(SB, disk[..]) == base
      requires |files| == |base| && off == |files[inum]| < MAXFILE * BLOCK_SIZE
      requires 0 < |piece| && off % BLOCK_SIZE + |piece| <= BLOCK_SIZE
      requires HoldsFiles(disk[..], base[inum := node], files)
      modifies this`nextDatablock, this`owner, disk
      ensures ip == node.(addrs := ip.addrs) && Growing(base[inum := ip])
      ensures ok ==> Inodes(SB, disk[..]) == base && disk[1] == old(disk[1])
      ensures ok ==> HoldsFiles(disk[..], base[inum := ip], files[inum := files[inum] + piece])
      ensures ok ==> Claims(old(owner), owner, inum, PathTo(LeafOf(off / BLOCK_SIZE)))
      ensures !ok ==> nextDatablock == NBLOCKS && Wants(old(owner), owner, inum, PathTo(LeafOf(off / BLOCK_SIZE)))
    {
      hide Packed, TreeOk, HoldsFiles, Stays, Inodes, LeafOf, Ptr, PathTo, Claims, Wants;
      ghost var blocks, inodes := disk[..], base[inum := node];
      var blockIdx := off / BLOCK_SIZE;
      var diskBlock;
      ok, ip, diskBlock := BlockForAppend(node, inum, blockIdx, base);
      if !ok { return; }
      ghost var grown, inodes' := disk[..], base[inum := ip];
      HoldsFilesGrew(SB, blocks, inodes, old(owner), grown, inodes', files);
      PtrBelowNext(grown, inodes', owner, inum, LeafOf(blockIdx), nextDatablock);
      var data := Splice(disk[diskBlock], off % BLOCK_SIZE, piece);
      DataWrite(SB, grown, inodes', owner, inum, blockIdx, data, diskBlock);
      HoldsFilesWritten(SB, grown, inodes', owner, inum, blockIdx, off % BLOCK_SIZE, piece, diskBlock, files);
      PackedStore(grown, nextDatablock, diskBlock, data);
      Store(diskBlock, data);
      PackedRange(disk[..], nextDatablock);
      InodesLocal(SB, blocks, disk[..]);
      assert disk[..][1] == grown[1] == blocks[1];
      assert Patched(files[inum], off, piece) == files[inum] + piece;
    }

    method Iget(inum: nat) returns (ip: Inode)
      requires ValidLayout(SB, disk[..]) && inum < NINODES
      ensures ip == Inodes(SB, disk[..])[inum]
    {
      ip := InodeAt(disk[INODE_START + inum / IPB], inum % IPB);
    }

    method Iput(inum: nat, ip: Inode)
      requires ValidLayout(SB, disk[..]) && inum < NINODES
      modifies disk
      ensures InodeBlock(SB, inum) < |old(disk[..])|
      ensures disk[..] == old(disk[..])[InodeBlock(SB, inum) := PutInode(old(disk[..])[InodeBlock(SB, inum)],
              inum % IPB, ip)]
    {
      var b := INODE_START + inum / IPB;
      Store(b, PutInode(disk[b], inum % IPB, ip));
    }

    // iappend: the file grows by exactly `data`. The builder gives up (ok is
    // false) when the file would be too large or the image is full.
    method Iappend(inum: nat, data: seq<byte>, ghost files: seq<seq<byte>>) returns (ok: bool)
      requires inum < NINODES && Built(files) && inum < nextInum
      modifies this`nextDatablock, this`owner, disk
      ensures ok ==> Built(files[inum := files[inum] + data])
      ensures ok ==> InodeKinds() == old(InodeKinds())
      ensures ok ==> nextDatablock == old(nextDatablock) + Extra(files[inum], |data|)
      ensures !ok ==> || |files[inum]| + |data| > MAXFILE * BLOCK_SIZE
                      || old(nextDatablock) + Extra(files[inum], |data|) > NBLOCKS
    {
      hide Packed, TreeOk, HoldsFiles, InodeOf, FileBlocks;
      ghost var base := Inodes(SB, disk[..]);
      SizeOnDisk(SB, disk[..], owner, files, inum);
      var node := Iget(inum);
      assert base[inum := node] == base;
      var ip;
      ok, ip := AppendLoop(node, inum, data, base, files);
      if !ok { return; }
      ghost var files' := files[inum := files[inum] + data];
      ip := ip.(size := node.size + |data|);
      OnlyAddrsMatter(SB, disk[..], base[inum := ip.(size := node.size)], base[inum := ip], owner, files');
      InodeWriteBack(SB, disk[..], base, ip, owner, inum, files');
      PackedRange(disk[..], nextDatablock);
      PackedStore(disk[..], nextDatablock, InodeBlock(SB, inum), PutInode(disk[InodeBlock(SB, inum)], inum % IPB, ip));
      Iput(inum, ip);
      return true;
    }

    // The loop of iappend, before the inode is written back.
    method AppendLoop(node: Inode, inum: nat, data: seq<byte>, ghost base: seq<Inode>, ghost files: seq<seq<byte>>)
        returns (ok: bool, ip: Inode)
      requires inum < |base| && Growing(base[inum := node]) && Inodes(SB, disk[..]) == base
      requires |files| == |base| && node.size == |files[inum]| <= MAXFILE * BLOCK_SIZE
      requires HoldsFiles(disk[..], base[inum := node], files) && Tight(owner.Values, files)
      modifies this`nextDatablock, this`owner, disk
      ensures ok ==> ip == node.(addrs := ip.addrs)
      ensures ok ==> Growing(base[inum := ip]) && Inodes(SB, disk[..]) == base && disk[1] == old(disk[1])
      ensures ok ==> HoldsFiles(disk[..], base[inum := ip], files[inum := files[inum] + data])
      ensures ok ==> |files[inum]| + |data| <= MAXFILE * BLOCK_SIZE
      ensures ok ==> Tight(owner.Values, files[inum := files[inum] + data])
      ensures ok ==> nextDatablock == old(nextDatablock) + Extra(files[inum], |data|)
      ensures !ok ==> || |files[inum]| + |data| > MAXFILE * BLOCK_SIZE
                      || old(nextDatablock) + Extra(files[inum], |data|) > NBLOCKS
    {
      hide Packed, TreeOk, HoldsFiles, Inodes, Tight, Claims, Wants, WriteNodes, FileBlocks, KeysOf, LeafOf,
          PathTo, Ptr;
      ip := node;
      var tot, off: nat := 0, node.size;
      ghost var now, owner0 := files, owner;
      NothingClaimed(owner, inum, off);
      GrowingCount(base[inum := node]);
      assert files[inum] + data[..0] == files[inum];
      while tot < |data|
        invariant 0 <= tot <= |data| && off == |files[inum]| + tot <= MAXFILE * BLOCK_SIZE
        invariant ip == node.(addrs := ip.addrs)
        invariant Growing(base[inum := ip]) && Inodes(SB, disk[..]) == base && disk[1] == old(disk[1])
        invariant now == files[inum := files[inum] + data[..tot]]
        invariant HoldsFiles(disk[..], base[inum := ip], now)
        invariant Claims(owner0, owner, inum, WriteNodes(|files[inum]|, tot))
        invariant 0 < tot < |data| ==> off % BLOCK_SIZE == 0
      {
        if off / BLOCK_SIZE >= MAXFILE {
          return false, ip;
        }
        var m := BLOCK_SIZE - off % BLOCK_SIZE;
        if |data| - tot < m {
          m := |data| - tot;
        }
        ghost var owner1 := owner;
        ok, ip := AppendPiece(ip, inum, off, data[tot..tot + m], base, now);
        if !ok {
          if |files[inum]| + |data| <= MAXFILE * BLOCK_SIZE {
            PieceClaims(owner0, owner1, owner, inum, |files[inum]|, tot, m, |data|, ok);
            GrowingCount(base[inum := ip]);
            ImageFills(files, inum, data, owner0, owner, ok);
          }
          return;
        }
        PieceClaims(owner0, owner1, owner, inum, |files[inum]|, tot, m, tot + m, ok);
        now := now[inum := now[inum] + data[tot..tot + m]];
        assert data[..tot] + data[tot..tot + m] == data[..tot + m];
        assert now[inum] == files[inum] + data[..tot + m];
        tot, off := tot + m, off + m;
      }
      assert data[..tot] == data;
      GrowingCount(base[inum := ip]);
      ImageFills(files, inum, data, owner0, owner, true);
      return true, ip;
    }

    // The blocks handed out are those that belong to somebody.
    lemma GrowingCount(inodes: seq<Inode>)
      requires Growing(inodes)
      ensures |owner.Values| == nextDatablock - DATA_START && nextDatablock <= NBLOCKS
    {
      PackedCount(disk[..], inodes, owner, nextDatablock);
    }

    ghost function InodeKinds(): (k: seq<u16>)
      requires ValidLayout(SB, disk[..])
      reads disk
      ensures |k| == NINODES
    {
      Kinds(Inodes(SB, disk[..]))
    }

    // The next inode number, with an empty inode of that kind.
    method Ialloc(kind: u16, ghost files: seq<seq<byte>>) returns (ok: bool, inum: nat)
      requires Built(files)
      modifies this`nextInum, disk
      ensures ok ==> inum == old(nextInum) < NINODES && nextInum == inum + 1
      ensures ok ==> Built(files) && |files| == NINODES && files[inum] == []
      ensures ok ==> InodeKinds() == old(InodeKinds())[inum := kind]
      ensures !ok ==> old(nextInum) >= NINODES && nextInum > NINODES
    {
      hide Packed, TreeOk, HoldsFiles, InodeOf;
      inum := nextInum;
      nextInum := nextInum + 1;
      if inum >= NINODES {
        return false, inum;
      }
      ghost var base := Inodes(SB, disk[..]);
      SizeOnDisk(SB, disk[..], owner, files, inum);
      assert base[inum] == UNUSED;
      var node := UNUSED.(kind := kind, nlink := 1);
      assert base[inum := UNUSED] == base;
      OnlyAddrsMatter(SB, disk[..], base, base[inum := node], owner, files);
      InodeWriteBack(SB, disk[..], base, node, owner, inum, files);
      PackedRange(disk[..], nextDatablock);
      PackedStore(disk[..], nextDatablock, InodeBlock(SB, inum),
          PutInode(disk[InodeBlock(SB, inum)], inum % IPB, node));
      Iput(inum, node);
      return true, inum;
    }

    method DirAdd(dirInum: nat, name: seq<byte>, childInum: u32, ghost files: seq<seq<byte>>) returns (ok: bool)
      requires dirInum < NINODES && Built(files) && dirInum < nextInum
      modifies this`nextDatablock, this`owner, disk
      ensures ok ==> Built(files[dirInum := files[dirInum] + Dirent(childInum, name)])
      ensures ok ==> InodeKinds() == old(InodeKinds())
      ensures ok ==> nextDatablock == old(nextDatablock) + Extra(files[dirInum], DIRENT_BYTES)
      ensures !ok ==> || |files[dirInum]| + DIRENT_BYTES > MAXFILE * BLOCK_SIZE
                      || old(nextDatablock) + Extra(files[dirInum], DIRENT_BYTES) > NBLOCKS
    {
      ok := Iappend(dirInum, Dirent(childInum, name), files);
    }

    // The fread loop: a file's bytes reach its inode in 4096-byte pieces.
    method AppendFile(inum: nat, data: seq<byte>, ghost files: seq<seq<byte>>) returns (ok: bool)
      requires inum < NINODES && Built(files) && inum < nextInum && files[inum] == []
      modifies this`nextDatablock, this`owner, disk
      ensures ok ==> Built(files[inum := data])
      ensures ok ==> InodeKinds() == old(InodeKinds())
      ensures ok ==> nextDatablock == old(nextDatablock) + FileBlocks(|data|)
      ensures !ok ==> |data| > MAXFILE * BLOCK_SIZE || old(nextDatablock) + FileBlocks(|data|) > NBLOCKS
    {
      hide Built, InodeKinds, FileBlocks;
      BuiltLayout(files);
      FileBlocksGrow(0, |data|);
      var at := 0;
      assert files[inum := data[..0]] == files;
      while at < |data|
        invariant 0 <= at <= |data|
        invariant ValidLayout(SB, disk[..]) && Built(files[inum := data[..at]])
        invariant InodeKinds() == old(InodeKinds())
        invariant nextDatablock == old(nextDatablock) + FileBlocks(at)
      {
        var n := if |data| - at < 4096 then |data| - at else 4096;
        ghost var now := files[inum := data[..at]];
        FileBlocksGrow(at + n, |data|);
        ok := Iappend(inum, data[at..at + n], now);
        if !ok { return; }
        assert data[..at] + data[at..at + n] == data[..at + n];
        assert now[inum := now[inum] + data[at..at + n]] == files[inum := data[..at + n]];
        at := at + n;
        BuiltLayout(files[inum := data[..at]]);
      }
      assert data[..at] == data;
      return true;
    }

    lemma BuiltLayout(files: seq<seq<byte>>)
      requires Built(files)
      ensures ValidLayout(SB, disk[..]) && |files| == NINODES && nextDatablock <= NBLOCKS
    {
    }

    // One round of the readdir loop: the entry gets an inode, then its line in
    // the directory, then its own contents.
    method AddEntry(dirInum: nat, e: Entry, ghost files: seq<seq<byte>>)
        returns (ok: bool, ghost files': seq<seq<byte>>)
      requires Built(files) && dirInum < nextInum && dirInum < NINODES && 0 < nextInum
      modifies this, disk
      ensures ok ==> nextDatablock == old(nextDatablock) + Extra(files[dirInum], DIRENT_BYTES) + HostBlocks(e.node)
      ensures !ok ==>
                || old(nextInum) + 1 + Below(e.node) > NINODES
                || TooBig(e.node) || |files[dirInum]| + DIRENT_BYTES > MAXFILE * BLOCK_SIZE
                || old(nextDatablock) + Extra(files[dirInum], DIRENT_BYTES) + HostBlocks(e.node) > NBLOCKS
      ensures ok ==> Built(files') && nextInum == old(nextInum) + 1 + Below(e.node) <= NINODES
      ensures ok ==> |files| == |files'| == NINODES && files'[dirInum] == files[dirInum] + Dirent(old(nextInum), e.name)
      ensures ok ==> forall j :: 0 <= j < old(nextInum) && j != dirInum ==> files'[j] == files[j]
      ensures ok ==> forall j :: 0 <= j < old(nextInum) ==> InodeKinds()[j] == old(InodeKinds())[j]
      ensures ok ==> Represents(InodeKinds(), files', old(nextInum), old(nextInum) + 1, e.node)
      decreases e.node, 1
    {
      hide Built, InodeKinds, DirBytes, Dirent, CountInodes, NoNul, FileBlocks, EntriesBlocks;
      BuiltLayout(files);
      files' := files;
      var inum;
      ok, inum := Ialloc(match e.node case HostDir(_) => DIR_INODE case HostFile(_) => FILE_INODE, files);
      if !ok { return; }
      BuiltLayout(files);
      ok := DirAdd(dirInum, e.name, inum, files);
      if !ok { return; }
      files' := files[dirInum := files[dirInum] + Dirent(inum, e.name)];
      BuiltLayout(files');
      match e.node {
        case HostDir(es) =>
          ok, files' := PopulateDir(inum, es, files');
        case HostFile(data) =>
          ok := AppendFile(inum, data, files');
          files' := files'[inum := data];
          if ok { BuiltLayout(files'); }
      }
    }

    // populate_dir: the image comes to represent the host directory.
    method PopulateDir(dirInum: nat, es: seq<Entry>, ghost files: seq<seq<byte>>)
        returns (ok: bool, ghost files': seq<seq<byte>>)
      requires Built(files) && dirInum < nextInum && dirInum < NINODES && nextInum <= NINODES
      requires ValidLayout(SB, disk[..]) && |files| == NINODES && files[dirInum] == []
      requires InodeKinds()[dirInum] == DIR_INODE
      modifies this, disk
      ensures ok ==> nextDatablock == old(nextDatablock) + HostBlocks(HostDir(es))
      ensures !ok ==>
                || old(nextInum) + CountInodes(es) > NINODES || TooBig(HostDir(es))
                || old(nextDatablock) + HostBlocks(HostDir(es)) > NBLOCKS
      ensures ok ==> Built(files') && nextInum == old(nextInum) + CountInodes(es) <= NINODES
      ensures ok ==> |files'| == NINODES
      ensures ok ==> forall j :: 0 <= j < old(nextInum) && j != dirInum ==> files'[j] == files[j]
      ensures ok ==> forall j :: 0 <= j < old(nextInum) ==> InodeKinds()[j] == old(InodeKinds())[j]
      ensures ok ==> Represents(InodeKinds(), files', dirInum, old(nextInum), HostDir(es))
      decreases es, 0
    {
      hide Built, InodeKinds, DirBytes, Dirent, CountInodes, FileBlocks, EntriesBlocks, TooBig;
      ghost var first := nextInum;
      files' := files;
      var k := 0;
      NoEntries(first, es);
      FileBlocksGrow(0, 0);
      while k < |es|
        invariant 0 <= k <= |es|
        invariant ValidLayout(SB, disk[..]) && Built(files') && |files'| == NINODES
        invariant nextInum == InumOf(es, first, k) <= NINODES && first <= nextInum
        invariant files'[dirInum] == DirBytes(es[..k], first)
        invariant forall j :: 0 <= j < first && j != dirInum ==> files'[j] == files[j]
        invariant forall j :: 0 <= j < first ==> InodeKinds()[j] == old(InodeKinds())[j]
        invariant ChildrenDone(InodeKinds(), files', es, first, k)
        invariant nextDatablock == old(nextDatablock) + FileBlocks(DIRENT_BYTES * k) + EntriesBlocks(es[..k])
      {
        ghost var kinds, before := InodeKinds(), files';
        BlocksPrefix(es, k);
        InodesPrefix(es, k);
        FileBlocksGrow(DIRENT_BYTES * (k + 1), DIRENT_BYTES * |es|);
        EntryTooBig(es, k);
        ok, files' := AddEntry(dirInum, es[k], files');
        if !ok { return; }
        BuiltLayout(files');
        DirBytesExtend(es, first, k);
        ChildrenStillDone(kinds, before, InodeKinds(), files', es, first, k, dirInum);
        k := k + 1;
      }
      assert es[..k] == es;
      return true, files';
    }
  }

  // ---- What a host tree needs ----

  // The blocks n bytes more take.
  function Extra(file: seq<byte>, n: nat): int {
    FileBlocks(|file| + n) - FileBlocks(|file|)
  }

  // The blocks below a directory with these entries.
  function EntriesBlocks(es: seq<Entry>): nat {
    if es == [] then 0
    else
      var last := match es[|es| - 1].node
        case HostFile(data) => FileBlocks(|data|)
        case HostDir(sub) => FileBlocks(DIRENT_BYTES * |sub|) + EntriesBlocks(sub);
      EntriesBlocks(es[..|es| - 1]) + last
  }

  // The blocks a host file or a whole host directory takes.
  function HostBlocks(h: Host): nat {
    match h
    case HostFile(data) => FileBlocks(|data|)
    case HostDir(es) => FileBlocks(DIRENT_BYTES * |es|) + EntriesBlocks(es)
  }

  // The image has inodes and blocks enough, inode 0 being reserved.
  predicate Enough(es: seq<Entry>) {
    ROOT_INODE + 1 + CountInodes(es) <= NINODES && DATA_START + HostBlocks(HostDir(es)) <= NBLOCKS
  }

  lemma {:induction false} BlocksPrefix(es: seq<Entry>, k: nat)
    requires k < |es|
    ensures EntriesBlocks(es[..k]) + HostBlocks(es[k].node) == EntriesBlocks(es[..k + 1]) <= EntriesBlocks(es)
    decreases |es|
  {
    hide FileBlocks;
    assert es[..k + 1][..k] == es[..k];
    if k + 1 < |es| {
      var init := es[..|es| - 1];
      BlocksPrefix(init, k);
      assert init[..k + 1] == es[..k + 1] && init[..k] == es[..k];
    } else {
      assert es[..k + 1] == es;
    }
  }

  lemma EntryTooBig(es: seq<Entry>, k: nat)
    requires k < |es|
    ensures TooBig(es[k].node) || DIRENT_BYTES * (k + 1) > MAXFILE * BLOCK_SIZE ==> TooBig(HostDir(es))
  {
  }

  // A file too big for an inode is too big for the image.
  lemma {:induction false} TooBigIsTooMany(h: Host)
    requires TooBig(h)
    ensures HostBlocks(h) > NBLOCKS
    decreases h
  {
    hide FileBlocks;
    match h
    case HostFile(data) => TooManyLeaves(|data|);
    case HostDir(es) =>
      if DIRENT_BYTES * |es| > MAXFILE * BLOCK_SIZE {
        TooManyLeaves(DIRENT_BYTES * |es|);
      } else {
        var k :| 0 <= k < |es| && TooBig(es[k].node);
        TooBigIsTooMany(es[k].node);
        BlocksPrefix(es, k);
      }
  }

  lemma TooManyLeaves(size: nat)
    requires size > MAXFILE * BLOCK_SIZE
    ensures FileBlocks(size) >= MAXFILE > NBLOCKS
  {
    assert LeafCount(size) >= MAXFILE;
  }

  lemma PackedCount(blocks: seq<Block>, inodes: seq<Inode>, owner: map<nat, Key>, next: nat)
    requires Packed(blocks, next) && TreeOk(SB, blocks, inodes, owner)
    ensures |owner.Values| == next - DATA_START && next <= NBLOCKS
  {
    OwnerInjective(SB, blocks, inodes, owner);
    forall p | p in owner
      ensures p < next
    {
      assert Used(SB, blocks, p);
    }
    OwnedCount(SB, blocks, inodes, owner, next);
    hide Used, Mapped;
  }

  // Whether the data went in, counted before the first piece.
  lemma ImageFills(files: seq<seq<byte>>, inum: nat, data: seq<byte>, owner: map<nat, Key>, owner': map<nat, Key>,
      ok: bool)
    requires Tight(owner.Values, files) && inum < |files| && |files[inum]| + |data| <= MAXFILE * BLOCK_SIZE
    requires var nodes := WriteNodes(|files[inum]|, |data|);
             if ok then Claims(owner, owner', inum, nodes) else Wants(owner, owner', inum, nodes)
    ensures ok ==> Tight(owner'.Values, files[inum := files[inum] + data])
    ensures ok ==> |owner'.Values| == |owner.Values| + Extra(files[inum], |data|)
    ensures !ok ==> |owner'.Values| < |owner.Values| + Extra(files[inum], |data|)
  {
    TightGrows(owner.Values, files, inum, data);
    hide Tight, WriteNodes, KeysOf, FileBlocks;
    if !ok {
      Smaller(owner'.Values, owner.Values + KeysOf(inum, WriteNodes(|files[inum]|, |data|)));
    }
  }

  ghost function NoFiles(): seq<seq<byte>> {
    seq(NINODES, _ => [])
  }

  // Only the superblock and the bitmap bits below b are set.
  ghost predicate Reserved(blocks: seq<Block>, b: nat)
    requires ValidLayout(SB, blocks)
  {
    && (forall p: nat {:trigger Used(SB, blocks, p)} :: p < NBLOCKS ==> (Used(SB, blocks, p) <==> p < b))
    && (forall p :: 1 < p < NBLOCKS && !(BMAP_START <= p < DATA_START) ==> blocks[p] == Zeros(BLOCK_SIZE))
  }

  lemma BlankIsReserved(blocks: seq<Block>)
    requires |blocks| == NBLOCKS && forall p :: 0 <= p < NBLOCKS && p != 1 ==> blocks[p] == Zeros(BLOCK_SIZE)
    ensures ValidLayout(SB, blocks) && Reserved(blocks, 0)
  {
    forall p: nat | p < NBLOCKS
      ensures !Used(SB, blocks, p)
    {
      ZeroHasNoBit(p % BPB % 8);
    }
  }

  lemma {:induction false} ZeroHasNoBit(k: nat)
    ensures !Bit(0, k)
  {
    if k > 0 {
      ZeroHasNoBit(k - 1);
    }
  }

  lemma ReservedStep(blocks: seq<Block>, b: nat)
    requires ValidLayout(SB, blocks) && Reserved(blocks, b) && b < DATA_START
    ensures var m := BitmapBlock(SB, b);
            && BMAP_START <= m < DATA_START
            && var blocks' := blocks[m := Mark(blocks[m], b % BPB)];
               ValidLayout(SB, blocks') && Reserved(blocks', b + 1)
  {
    hide Used;
    UsedUpdate(SB, blocks, b);
  }

  lemma ZeroInode(slot: nat)
    requires slot < IPB
    ensures InodeAt(Zeros(BLOCK_SIZE), slot) == UNUSED
  {
  }

  lemma FormattedIsBuilt(blocks: seq<Block>)
    requires ValidLayout(SB, blocks) && Reserved(blocks, DATA_START)
    ensures Packed(blocks, DATA_START) && Consistent(SB, blocks, map[], NoFiles())
    ensures Tight({}, NoFiles())
    ensures forall i :: 0 <= i < NINODES ==> Inodes(SB, blocks)[i] == UNUSED
  {
    hide Used;
    var inodes := Inodes(SB, blocks);
    forall i | 0 <= i < NINODES
      ensures inodes[i] == UNUSED
    {
      ZeroInode(i % IPB);
    }
    forall j, n {:trigger Ptr(blocks, inodes[j].addrs, n)} | 0 <= j < |inodes| && ValidNode(n)
      ensures Ptr(blocks, inodes[j].addrs, n) == 0
    {
      EmptyTree(blocks, UNUSED.addrs, n);
    }
  }

  lemma {:induction false} EmptyTree(blocks: seq<Block>, addrs: Addrs, n: Node)
    requires ValidNode(n) && forall k :: 0 <= k < ADDRS_PER_INODE ==> addrs[k] == 0
    ensures Ptr(blocks, addrs, n) == 0
  {
    match n
    case Slot(_) =>
    case Child(up, _) => EmptyTree(blocks, addrs, up);
  }

  // The whole of mkfs: format, root inode, then the host tree. It gives up
  // exactly when the tree needs more inodes or more blocks than there are.
  method BuildImage(es: seq<Entry>) returns (ok: bool, image: Image, ghost files: seq<seq<byte>>)
    ensures ok <==> Enough(es)
    ensures ok ==> image.Built(files) && ValidLayout(SB, image.disk[..])
    ensures ok ==> Represents(image.InodeKinds(), files, ROOT_INODE, ROOT_INODE + 1, HostDir(es))
    ensures ok ==> image.nextInum == ROOT_INODE + 1 + CountInodes(es)
    ensures ok ==> image.nextDatablock == DATA_START + HostBlocks(HostDir(es))
  {
    hide Image.Built, CountInodes, EntriesBlocks, FileBlocks, TooBig, Represents;
    if TooBig(HostDir(es)) {
      TooBigIsTooMany(HostDir(es));
    }
    image := new Image.Format();
    files := NoFiles();
    image.BuiltLayout(files);
    var rootInum;
    ok, rootInum := image.Ialloc(DIR_INODE, files);
    if ok {
      image.BuiltLayout(files);
      ok, files := image.PopulateDir(rootInum, es, files);
      if ok { image.BuiltLayout(files); }
    }
  }

  // The first k entries of the directory have their subtrees in place.
  ghost predicate ChildrenDone(kinds: seq<u16>, files: seq<seq<byte>>, es: seq<Entry>, first: nat, k: nat)
    requires k <= |es|
  {
    forall i :: 0 <= i < k ==> Represents(kinds, files, InumOf(es, first, i), InumOf(es, first, i) + 1, es[i].node)
  }

  lemma NoEntries(first: nat, es: seq<Entry>)
    ensures InumOf(es, first, 0) == first
    ensures first <= 0x1_0000_0000 ==> DirBytes(es[..0], first) == []
    ensures EntriesBlocks(es[..0]) == 0
  {
  }

  lemma DirBytesExtend(es: seq<Entry>, first: nat, k: nat)
    requires k < |es| && first + CountInodes(es[..k + 1]) <= 0x1_0000_0000
    ensures first + CountInodes(es[..k]) < 0x1_0000_0000
    ensures DirBytes(es[..k + 1], first) == DirBytes(es[..k], first) + Dirent(InumOf(es, first, k), es[k].name)
  {
    assert es[..k + 1][..k] == es[..k];
  }

  // Adding entry k disturbs no subtree already in place, and adds its own.
  lemma ChildrenStillDone(kinds: seq<u16>, files: seq<seq<byte>>, kinds': seq<u16>, files': seq<seq<byte>>,
      es: seq<Entry>, first: nat, k: nat, dirInum: nat)
    requires k < |es| && dirInum < first && ChildrenDone(kinds, files, es, first, k)
    requires |kinds| == |files| == |kinds'| == |files'| && InumOf(es, first, k) <= |files|
    requires forall j :: 0 <= j < InumOf(es, first, k) && j != dirInum ==> files'[j] == files[j]
    requires forall j :: 0 <= j < InumOf(es, first, k) ==> kinds'[j] == kinds[j]
    requires Represents(kinds', files', InumOf(es, first, k), InumOf(es, first, k) + 1, es[k].node)
    ensures ChildrenDone(kinds', files', es, first, k + 1)
  {
    hide Represents, CountInodes;
    forall i | 0 <= i < k
      ensures Represents(kinds', files', InumOf(es, first, i), InumOf(es, first, i) + 1, es[i].node)
    {
      InodesPrefix(es, i);
      PrefixMonotone(es, i + 1, k);
      RepresentsFrame(kinds, files, kinds', files', InumOf(es, first, i), InumOf(es, first, i) + 1, es[i].node);
    }
  }

  lemma {:induction false} PrefixMonotone(es: seq<Entry>, a: nat, b: nat)
    requires a <= b <= |es|
    ensures CountInodes(es[..a]) <= CountInodes(es[..b])
    decreases b - a
  {
    if a < b {
      InodesPrefix(es, b - 1);
      PrefixMonotone(es, a, b - 1);
    }
  }

  lemma PackedRange(blocks: seq<Block>, next: nat)
    requires Packed(blocks, next)
    ensures ValidLayout(SB, blocks) && |blocks| == NBLOCKS && DATA_START <= next <= NBLOCKS
  {
  }

  lemma PtrBelowNext(blocks: seq<Block>, inodes: seq<Inode>, owner: map<nat, Key>, i: nat, n: Node, next: nat)
    requires TreeOk(SB, blocks, inodes, owner) && Packed(blocks, next) && i < |inodes| && ValidNode(n)
    requires Ptr(blocks, inodes[i].addrs, n) != 0
    ensures DATA_START <= Ptr(blocks, inodes[i].addrs, n) < next <= |blocks|
  {
    var p := Ptr(blocks, inodes[i].addrs, n);
    assert p in owner;
    assert Used(SB, blocks, p);
  }
}
