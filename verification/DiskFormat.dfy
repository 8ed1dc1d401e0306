// The on-disk format shared by the kernel and mkfs: superblock, inode table,
// block bitmap and pointer blocks.
module DiskFormat {
  import opened Bytes

  const ADDRS_PER_INODE: nat := 12
  const NDIRECT: nat := 9
  const NINDIRECT: nat := 128       // BLOCK_SIZE / sizeof(uint32_t)
  const NDINDIRECT: nat := 16384    // NINDIRECT^2
  const NTINDIRECT: nat := 2097152  // NINDIRECT^3
  const SINDIRECT_IDX: nat := 9
  const DINDIRECT_IDX: nat := 10
  const TINDIRECT_IDX: nat := 11
  const MAXFILE: nat := NDIRECT + NINDIRECT + NDINDIRECT + NTINDIRECT
  const INODE_BYTES: nat := 56
  const IPB: nat := 9               // inodes per block
  const BPB: nat := 4096            // bitmap bits per block
  const FREE_INODE: u16 := 0
  const DIR_INODE: u16 := 1
  const FILE_INODE: u16 := 2
  const ROOT_INODE: nat := 1
  const MAGIC_NUM: u32 := 0x1919810

  type Addrs = a: seq<u32> | |a| == ADDRS_PER_INODE witness seq(ADDRS_PER_INODE, _ => 0)

  datatype Inode = Inode(kind: u16, nlink: u16, size: u32, addrs: Addrs)

  datatype SuperBlock = SuperBlock(ninodes: u32, nblocks: u32, inodeStart: u32, bmapStart: u32)

  // First block after the bitmap.
  function DataStart(sb: SuperBlock): nat {
    sb.bmapStart + (sb.nblocks + BPB - 1) / BPB
  }

  // Boot block, superblock, inode table, bitmap and data follow each other.
  ghost predicate ValidLayout(sb: SuperBlock, blocks: seq<Block>) {
    && |blocks| == sb.nblocks <= 0x8000_0000
    && 1 < sb.inodeStart
    && sb.inodeStart + (sb.ninodes + IPB - 1) / IPB <= sb.bmapStart
    && DataStart(sb) <= sb.nblocks
  }

  // ---- Pointer blocks ----

  function Word(b: Block, k: nat): u32
    requires k < NINDIRECT
  {
    Le32(b, 4 * k)
  }

  function PutWord(b: Block, k: nat, v: u32): Block
    requires k < NINDIRECT
  {
    PutLe32(b, 4 * k, v)
  }

  lemma PutWordReads(b: Block, k: nat, v: u32, j: nat)
    requires k < NINDIRECT && j < NINDIRECT
    ensures Word(PutWord(b, k, v), j) == if j == k then v else Word(b, j)
  {
    PutLe32Reads(b, 4 * k, v, 4 * j);
  }

  // ---- Inodes ----

  function WordsBytes(ws: seq<u32>): (r: seq<byte>)
    ensures |r| == 4 * |ws|
  {
    if ws == [] then [] else Bytes32(ws[0]) + WordsBytes(ws[1..])
  }

  lemma {:induction false} WordsBytesReads(ws: seq<u32>, k: nat)
    requires k < |ws|
    ensures Le32(WordsBytes(ws), 4 * k) == ws[k]
  {
    if k == 0 {
      Bytes32RoundTrip(ws[0]);
      Le32Local(WordsBytes(ws), 0, Bytes32(ws[0]), 0);
    } else {
      WordsBytesReads(ws[1..], k - 1);
      Le32Local(WordsBytes(ws), 4 * k, WordsBytes(ws[1..]), 4 * (k - 1));
    }
  }

  function InodeBytes(ip: Inode): (r: seq<byte>)
    ensures |r| == INODE_BYTES
  {
    Bytes16(ip.kind) + Bytes16(ip.nlink) + Bytes32(ip.size) + WordsBytes(ip.addrs)
  }

  function ReadInode(b: seq<byte>, off: nat): Inode
    requires off + INODE_BYTES <= |b|
  {
    Inode(Le16(b, off), Le16(b, off + 2), Le32(b, off + 4),
          seq(ADDRS_PER_INODE, k requires 0 <= k < ADDRS_PER_INODE => Le32(b, off + 8 + 4 * k)))
  }

  lemma InodeRoundTrip(ip: Inode)
    ensures ReadInode(InodeBytes(ip), 0) == ip
  {
    var b := InodeBytes(ip);
    Bytes32RoundTrip(ip.size);
    Le32Local(b, 4, Bytes32(ip.size), 0);
    forall k | 0 <= k < ADDRS_PER_INODE
      ensures Le32(b, 8 + 4 * k) == ip.addrs[k]
    {
      WordsBytesReads(ip.addrs, k);
      Le32Local(b, 8 + 4 * k, WordsBytes(ip.addrs), 4 * k);
    }
  }

  // An inode is a function of its 56 bytes only.
  lemma InodeLocal(a: seq<byte>, i: nat, b: seq<byte>, j: nat)
    requires i + INODE_BYTES <= |a| && j + INODE_BYTES <= |b|
    requires a[i..i + INODE_BYTES] == b[j..j + INODE_BYTES]
    ensures ReadInode(a, i) == ReadInode(b, j)
  {
    hide Le32;
    var n := INODE_BYTES;
    assert a[i] == a[i..i + n][0] == b[j] && a[i + 1] == a[i..i + n][1] == b[j + 1];
    assert a[i + 2] == a[i..i + n][2] == b[j + 2] && a[i + 3] == a[i..i + n][3] == b[j + 3];
    Le32Within(a, i, b, j, n, 4);
    forall k | 0 <= k < ADDRS_PER_INODE
      ensures Le32(a, i + 8 + 4 * k) == Le32(b, j + 8 + 4 * k)
    {
      Le32Within(a, i, b, j, n, 8 + 4 * k);
    }
    assert ReadInode(a, i).addrs == ReadInode(b, j).addrs;
  }

  lemma Le32Within(a: seq<byte>, i: nat, b: seq<byte>, j: nat, n: nat, o: nat)
    requires i + n <= |a| && j + n <= |b| && o + 4 <= n
    requires a[i..i + n] == b[j..j + n]
    ensures Le32(a, i + o) == Le32(b, j + o)
  {
    var u, v := a[i..i + n], b[j..j + n];
    assert a[i + o] == u[o] && a[i + o + 1] == u[o + 1] && a[i + o + 2] == u[o + 2] && a[i + o + 3] == u[o + 3];
    assert b[j + o] == v[o] && b[j + o + 1] == v[o + 1] && b[j + o + 2] == v[o + 2] && b[j + o + 3] == v[o + 3];
  }

  function InodeAt(b: Block, slot: nat): Inode
    requires slot < IPB
  {
    ReadInode(b, INODE_BYTES * slot)
  }

  function PutInode(b: Block, slot: nat, ip: Inode): Block
    requires slot < IPB
  {
    Splice(b, INODE_BYTES * slot, InodeBytes(ip))
  }

  // Writing one inode of a table block leaves the other eight alone.
  lemma PutInodeReads(b: Block, slot: nat, ip: Inode, s: nat)
    requires slot < IPB && s < IPB
    ensures InodeAt(PutInode(b, slot, ip), s) == if s == slot then ip else InodeAt(b, s)
  {
    var r := PutInode(b, slot, ip);
    if s == slot {
      InodeRoundTrip(ip);
      assert r[56 * s..56 * s + 56] == InodeBytes(ip)[0..56];
      InodeLocal(r, 56 * s, InodeBytes(ip), 0);
    } else {
      assert r[56 * s..56 * s + 56] == b[56 * s..56 * s + 56];
      InodeLocal(r, 56 * s, b, 56 * s);
    }
  }

  function InodeBlock(sb: SuperBlock, inum: nat): nat {
    sb.inodeStart + inum / IPB
  }

  ghost function InodeOf(sb: SuperBlock, blocks: seq<Block>, inum: nat): Inode
    requires ValidLayout(sb, blocks) && inum < sb.ninodes
  {
    InodeAt(blocks[InodeBlock(sb, inum)], inum % IPB)
  }

  // The whole inode table.
  ghost function Inodes(sb: SuperBlock, blocks: seq<Block>): (t: seq<Inode>)
    requires ValidLayout(sb, blocks)
    ensures |t| == sb.ninodes
    ensures forall i {:trigger t[i]} :: 0 <= i < sb.ninodes ==> t[i] == InodeOf(sb, blocks, i)
  {
    seq(sb.ninodes, i requires 0 <= i < sb.ninodes => InodeOf(sb, blocks, i))
  }

  // The inode table lives in its own blocks.
  lemma InodesLocal(sb: SuperBlock, a: seq<Block>, b: seq<Block>)
    requires ValidLayout(sb, a) && ValidLayout(sb, b)
    requires forall p :: sb.inodeStart <= p < sb.bmapStart ==> a[p] == b[p]
    ensures Inodes(sb, a) == Inodes(sb, b)
  {
  }

  lemma InodesUpdate(sb: SuperBlock, blocks: seq<Block>, inum: nat, ip: Inode)
    requires ValidLayout(sb, blocks) && inum < sb.ninodes
    ensures var p := InodeBlock(sb, inum);
            && p < |blocks|
            && var blocks' := blocks[p := PutInode(blocks[p], inum % IPB, ip)];
               ValidLayout(sb, blocks') && Inodes(sb, blocks') == Inodes(sb, blocks)[inum := ip]
  {
    var p := InodeBlock(sb, inum);
    var blocks' := blocks[p := PutInode(blocks[p], inum % IPB, ip)];
    forall i | 0 <= i < sb.ninodes
      ensures InodeOf(sb, blocks', i) == if i == inum then ip else InodeOf(sb, blocks, i)
    {
      PutInodeReads(blocks[p], inum % IPB, ip, i % IPB);
    }
  }

  // ---- Block bitmap ----

  function BitmapBlock(sb: SuperBlock, p: nat): nat {
    sb.bmapStart + p / BPB
  }

  predicate MarkedIn(b: Block, bi: nat)
    requires bi < BPB
  {
    Bit(b[bi / 8], bi % 8)
  }

  function Mark(b: Block, bi: nat): (r: Block)
    requires bi < BPB
    ensures forall j :: 0 <= j < BPB ==> (MarkedIn(r, j) <==> MarkedIn(b, j) || j == bi)
  {
    b[bi / 8 := SetBit(b[bi / 8], bi % 8)]
  }

  ghost predicate Used(sb: SuperBlock, blocks: seq<Block>, p: nat)
    requires ValidLayout(sb, blocks) && p < sb.nblocks
  {
    MarkedIn(blocks[BitmapBlock(sb, p)], p % BPB)
  }

  lemma UsedLocal(sb: SuperBlock, a: seq<Block>, b: seq<Block>)
    requires ValidLayout(sb, a) && ValidLayout(sb, b)
    requires forall p :: sb.bmapStart <= p < DataStart(sb) ==> a[p] == b[p]
    ensures forall p: nat {:trigger Used(sb, a, p)} {:trigger Used(sb, b, p)} :: p < sb.nblocks ==>
            (Used(sb, a, p) <==> Used(sb, b, p))
  {
  }

  lemma UsedUpdate(sb: SuperBlock, blocks: seq<Block>, b: nat)
    requires ValidLayout(sb, blocks) && b < sb.nblocks
    ensures var m := BitmapBlock(sb, b);
            && m < DataStart(sb)
            && var blocks' := blocks[m := Mark(blocks[m], b % BPB)];
               forall p: nat {:trigger Used(sb, blocks', p)} :: p < sb.nblocks ==>
                   (Used(sb, blocks', p) <==> Used(sb, blocks, p) || p == b)
  {
    var m := BitmapBlock(sb, b);
    var blocks' := blocks[m := Mark(blocks[m], b % BPB)];
    forall p: nat | p < sb.nblocks
      ensures Used(sb, blocks', p) <==> Used(sb, blocks, p) || p == b
    {
      assert p == b <==> p / BPB == b / BPB && p % BPB == b % BPB;
    }
  }
}
