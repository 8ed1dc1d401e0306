// The block tree of every inode, seen as one injective table from tree
// positions to block numbers.
module FileTree {
  import opened Bytes
  import opened DiskFormat

  // A position in an inode's tree: one of the twelve inode slots, or entry k
  // of the pointer block at a position above.
  datatype Node = Slot(i: nat) | Child(up: Node, k: nat)

  // Levels of pointer blocks from a position down to its data blocks.
  function Height(n: Node): int {
    match n
    case Slot(i) => if i < NDIRECT then 0 else i - SINDIRECT_IDX + 1
    case Child(up, _) => Height(up) - 1
  }

  predicate ValidNode(n: Node) {
    match n
    case Slot(i) => i < ADDRS_PER_INODE
    case Child(up, k) => ValidNode(up) && Height(up) > 0 && k < NINDIRECT
  }

  // The position of data block bi of a file.
  function LeafOf(bi: nat): (n: Node)
    requires bi < MAXFILE
    ensures ValidNode(n) && Height(n) == 0
  {
    if bi < NDIRECT then
      Slot(bi)
    else if bi < NDIRECT + NINDIRECT then
      Child(Slot(SINDIRECT_IDX), bi - NDIRECT)
    else if bi < NDIRECT + NINDIRECT + NDINDIRECT then
      var d := bi - NDIRECT - NINDIRECT;
      Child(Child(Slot(DINDIRECT_IDX), d / NINDIRECT), d % NINDIRECT)
    else
      var t := bi - NDIRECT - NINDIRECT - NDINDIRECT;
      var rem := t % NDINDIRECT;
      var up := Child(Slot(TINDIRECT_IDX), t / NDINDIRECT);
      assert Height(Slot(TINDIRECT_IDX)) == 3;
      assert Height(up) == 2;
      assert t / NDINDIRECT < NINDIRECT;
      assert ValidNode(up);
      Child(Child(up, rem / NINDIRECT), rem % NINDIRECT)
  }

  lemma LeafOfInjective(a: nat, b: nat)
    requires a < MAXFILE && b < MAXFILE && LeafOf(a) == LeafOf(b)
    ensures a == b
  {
  }

  // And every place for data is some block's: an inode maps exactly MAXFILE of them.
  lemma LeafOfOnto(n: Node) returns (bi: nat)
    requires ValidNode(n) && Height(n) == 0
    ensures bi < MAXFILE && LeafOf(bi) == n
  {
    if n.Slot? {
      return n.i;
    }
    bi := NDIRECT + n.k;
    var up := n.up;
    assert ValidNode(up) && Height(up) == 1;
    if up.Child? {
      assert ValidNode(up.up) && Height(up.up) == 2;
      bi := bi + NINDIRECT + NINDIRECT * up.k;
      if up.up.Child? {
        bi := bi + NDINDIRECT + NDINDIRECT * up.up.k;
        assert ValidNode(up.up.up) && Height(up.up.up) == 3;
        TallestIsThree(up.up.up);
        ThirdLevel(up.up.up.i, up.up.k, up.k, n.k);
      } else {
        SecondLevel(up.up.i, up.k, n.k);
      }
    }
  }

  lemma SecondLevel(i: nat, k2: nat, k1: nat)
    requires i == DINDIRECT_IDX && k2 < NINDIRECT && k1 < NINDIRECT
    ensures NINDIRECT * k2 + k1 < NDINDIRECT
    ensures LeafOf(NDIRECT + NINDIRECT + NINDIRECT * k2 + k1) == Child(Child(Slot(i), k2), k1)
  {
  }

  lemma ThirdLevel(i: nat, k3: nat, k2: nat, k1: nat)
    requires i == TINDIRECT_IDX && k3 < NINDIRECT && k2 < NINDIRECT && k1 < NINDIRECT
    ensures NDINDIRECT * k3 + NINDIRECT * k2 + k1 < NTINDIRECT
    ensures LeafOf(NDIRECT + NINDIRECT + NDINDIRECT + NDINDIRECT * k3 + NINDIRECT * k2 + k1)
         == Child(Child(Child(Slot(i), k3), k2), k1)
  {
  }

  lemma TallestIsThree(n: Node)
    requires ValidNode(n) && Height(n) >= 3
    ensures n == Slot(TINDIRECT_IDX)
  {
  }

  // The block number stored at a position; zero when nothing is there.
  function Ptr(blocks: seq<Block>, addrs: Addrs, n: Node): u32
    requires ValidNode(n)
  {
    match n
    case Slot(i) => addrs[i]
    case Child(up, k) =>
      var q := Ptr(blocks, addrs, up);
      if q == 0 || q >= |blocks| then 0 else Word(blocks[q], k)
  }

  // Who owns a data-area block.
  datatype Key = Key(inum: nat, node: Node)

  // Every block reachable from an inode has that position as its only owner,
  // owners are exactly the reachable blocks, and the bitmap marks exactly the
  // reserved and the owned blocks.
  ghost predicate Mapped(sb: SuperBlock, blocks: seq<Block>, inodes: seq<Inode>, owner: map<nat, Key>) {
    && (forall i, n {:trigger Ptr(blocks, inodes[i].addrs, n)} :: 0 <= i < |inodes| && ValidNode(n) ==>
          var p := Ptr(blocks, inodes[i].addrs, n);
          p != 0 ==> p in owner && owner[p] == Key(i, n))
    && (forall p :: p in owner ==>
          && DataStart(sb) <= p < sb.nblocks
          && owner[p].inum < |inodes| && ValidNode(owner[p].node)
          && Ptr(blocks, inodes[owner[p].inum].addrs, owner[p].node) == p)
  }

  ghost predicate TreeOk(sb: SuperBlock, blocks: seq<Block>, inodes: seq<Inode>, owner: map<nat, Key>) {
    && ValidLayout(sb, blocks)
    && |inodes| == sb.ninodes
    && Mapped(sb, blocks, inodes, owner)
    && (forall p: nat {:trigger Used(sb, blocks, p)} :: p < sb.nblocks ==>
        (Used(sb, blocks, p) <==> p < DataStart(sb) || p in owner))
  }

  // Two positions never share a block.
  lemma TreesAreDisjoint(sb: SuperBlock, blocks: seq<Block>, inodes: seq<Inode>, owner: map<nat, Key>, i: nat, m: Node,
      j: nat, n: Node)
    requires TreeOk(sb, blocks, inodes, owner)
    requires i < |inodes| && j < |inodes| && ValidNode(m) && ValidNode(n)
    requires Ptr(blocks, inodes[i].addrs, m) == Ptr(blocks, inodes[j].addrs, n) != 0
    ensures i == j && m == n
  {
    var p := Ptr(blocks, inodes[i].addrs, m);
    assert owner[p] == Key(i, m) && owner[p] == Key(j, n);
  }

  // ---- Frames ----

  // Pointers depend only on the pointer blocks above them.
  lemma {:induction false} PtrFrame(sb: SuperBlock, blocks: seq<Block>, blocks': seq<Block>, inodes: seq<Inode>,
      owner: map<nat, Key>, j: nat, n: Node)
    requires Mapped(sb, blocks, inodes, owner) && |blocks'| == |blocks|
    requires j < |inodes| && ValidNode(n)
    requires forall p :: p in owner && p < |blocks| && Height(owner[p].node) > 0 ==> blocks'[p] == blocks[p]
    ensures Ptr(blocks', inodes[j].addrs, n) == Ptr(blocks, inodes[j].addrs, n)
  {
    match n
    case Slot(_) =>
    case Child(up, _) =>
      PtrFrame(sb, blocks, blocks', inodes, owner, j, up);
  }

  // The effect of balloc: block b was free, is now marked and zeroed.
  ghost predicate Allocated(sb: SuperBlock, blocks: seq<Block>, blocks': seq<Block>, b: nat) {
    && ValidLayout(sb, blocks) && ValidLayout(sb, blocks')
    && 0 < b < sb.nblocks
    && !Used(sb, blocks, b)
    && (forall p: nat {:trigger Used(sb, blocks', p)} :: p < sb.nblocks ==>
        (Used(sb, blocks', p) <==> Used(sb, blocks, p) || p == b))
    && blocks'[b] == Zeros(BLOCK_SIZE)
    && (forall p :: 0 <= p < |blocks| && p != b && !(sb.bmapStart <= p < DataStart(sb)) ==> blocks'[p] == blocks[p])
  }

  // Storing a fresh block at one empty position changes the table there only.
  lemma {:induction false} PtrAfterChildLink(sb: SuperBlock, blocks: seq<Block>, blocks': seq<Block>,
      inodes: seq<Inode>, owner: map<nat, Key>, i: nat, up: Node, k: nat, b: u32, j: nat, n: Node)
    requires ChildLink(sb, blocks, blocks', inodes, owner, i, up, k, b)
    requires j < |inodes| && ValidNode(n)
    ensures Ptr(blocks', inodes[j].addrs, n) == if Key(j, n) == Key(i, Child(up, k)) then b
            else Ptr(blocks, inodes[j].addrs, n)
  {
    match n
    case Slot(_) =>
    case Child(m, x) =>
      PtrAfterChildLink(sb, blocks, blocks', inodes, owner, i, up, k, b, j, m);
      var q := Ptr(blocks, inodes[i].addrs, up);
      if Key(j, m) == Key(i, Child(up, k)) {
        ZeroBlockIsEmpty(x);
      } else {
        PutWordReads(blocks[q], k, b, x);
      }
  }

  lemma ZeroBlockIsEmpty(k: nat)
    requires k < NINDIRECT
    ensures Word(Zeros(BLOCK_SIZE), k) == 0
  {
  }

  ghost predicate ChildLink(sb: SuperBlock, blocks: seq<Block>, blocks': seq<Block>, inodes: seq<Inode>,
      owner: map<nat, Key>, i: nat, up: Node, k: nat, b: u32)
  {
    && TreeOk(sb, blocks, inodes, owner)
    && i < |inodes| && ValidNode(Child(up, k))
    && DataStart(sb) <= b < sb.nblocks && b !in owner
    && |blocks'| == |blocks|
    && var q := Ptr(blocks, inodes[i].addrs, up);
    && q != 0 && q in owner && q < |blocks| && Ptr(blocks, inodes[i].addrs, Child(up, k)) == 0
    && blocks'[b] == Zeros(BLOCK_SIZE)
    && blocks'[q] == PutWord(blocks[q], k, b)
    && (forall p :: p in owner && p != q && p < |blocks| ==> blocks'[p] == blocks[p])
  }

  lemma {:induction false} PtrAfterSlotLink(sb: SuperBlock, blocks: seq<Block>, blocks': seq<Block>, inodes: seq<Inode>,
      owner: map<nat, Key>, i: nat, s: nat, b: u32, j: nat, n: Node)
    requires SlotLink(sb, blocks, blocks', inodes, owner, i, s, b)
    requires j < |inodes| && ValidNode(n)
    ensures Ptr(blocks', WithAddr(inodes, i, s, b)[j].addrs, n) == if Key(j, n) == Key(i, Slot(s)) then b
            else Ptr(blocks, inodes[j].addrs, n)
  {
    match n
    case Slot(_) =>
    case Child(m, x) =>
      PtrAfterSlotLink(sb, blocks, blocks', inodes, owner, i, s, b, j, m);
      if Key(j, m) == Key(i, Slot(s)) {
        ZeroBlockIsEmpty(x);
      }
  }

  // ip->addrs[s] = b in inode i.
  function WithAddr(inodes: seq<Inode>, i: nat, s: nat, b: u32): seq<Inode>
    requires i < |inodes| && s < ADDRS_PER_INODE
  {
    inodes[i := inodes[i].(addrs := inodes[i].addrs[s := b])]
  }

  ghost predicate SlotLink(sb: SuperBlock, blocks: seq<Block>, blocks': seq<Block>, inodes: seq<Inode>,
      owner: map<nat, Key>, i: nat, s: nat, b: u32)
  {
    && TreeOk(sb, blocks, inodes, owner)
    && i < |inodes| && s < ADDRS_PER_INODE && inodes[i].addrs[s] == 0
    && DataStart(sb) <= b < sb.nblocks && b !in owner
    && |blocks'| == |blocks|
    && blocks'[b] == Zeros(BLOCK_SIZE)
    && (forall p :: p in owner && p < |blocks| ==> blocks'[p] == blocks[p])
  }

  // balloc followed by storing the new block in an empty inode slot keeps the
  // trees disjoint and the bitmap exact.
  lemma SlotLinkKeepsTree(sb: SuperBlock, blocks: seq<Block>, blocks': seq<Block>, inodes: seq<Inode>,
      owner: map<nat, Key>, i: nat, s: nat, b: u32)
    requires TreeOk(sb, blocks, inodes, owner) && Allocated(sb, blocks, blocks', b)
    requires i < |inodes| && s < ADDRS_PER_INODE && inodes[i].addrs[s] == 0
    ensures SlotLink(sb, blocks, blocks', inodes, owner, i, s, b)
    ensures TreeOk(sb, blocks', WithAddr(inodes, i, s, b), owner[b := Key(i, Slot(s))])
  {
    assert !Used(sb, blocks, b);
    var inodes' := WithAddr(inodes, i, s, b);
    var owner' := owner[b := Key(i, Slot(s))];
    forall j, n {:trigger Ptr(blocks', inodes'[j].addrs, n)} | 0 <= j < |inodes'| && ValidNode(n)
      ensures var p := Ptr(blocks', inodes'[j].addrs, n);
              p != 0 ==> p in owner' && owner'[p] == Key(j, n)
    {
      PtrAfterSlotLink(sb, blocks, blocks', inodes, owner, i, s, b, j, n);
    }
    forall p | p in owner'
      ensures owner'[p].inum < |inodes'| && ValidNode(owner'[p].node)
      ensures Ptr(blocks', inodes'[owner'[p].inum].addrs, owner'[p].node) == p
    {
      if p in owner {
        assert ValidNode(owner[p].node);
      }
      PtrAfterSlotLink(sb, blocks, blocks', inodes, owner, i, s, b, owner'[p].inum, owner'[p].node);
    }
  }

  // The same for an empty entry of a pointer block, which is then written back.
  lemma ChildLinkKeepsTree(sb: SuperBlock, blocks: seq<Block>, blocks1: seq<Block>, blocks': seq<Block>,
      inodes: seq<Inode>, owner: map<nat, Key>, i: nat, up: Node, k: nat, b: u32, q: nat)
    requires TreeOk(sb, blocks, inodes, owner) && Allocated(sb, blocks, blocks1, b)
    requires i < |inodes| && ValidNode(Child(up, k))
    requires q == Ptr(blocks, inodes[i].addrs, up) != 0 && Ptr(blocks, inodes[i].addrs, Child(up, k)) == 0
    requires q < |blocks| && blocks' == blocks1[q := PutWord(blocks[q], k, b)]
    ensures ChildLink(sb, blocks, blocks', inodes, owner, i, up, k, b)
    ensures TreeOk(sb, blocks', inodes, owner[b := Key(i, Child(up, k))])
  {
    assert !Used(sb, blocks, b);
    assert q in owner && owner[q] == Key(i, up);
    assert ChildLink(sb, blocks, blocks', inodes, owner, i, up, k, b) by {
      hide Used;
    }
    UsedLocal(sb, blocks1, blocks');
    ChildLinkMapped(sb, blocks, blocks', inodes, owner, i, up, k, b);
    hide Ptr, Mapped, ChildLink, Used;
  }

  lemma ChildLinkMapped(sb: SuperBlock, blocks: seq<Block>, blocks': seq<Block>, inodes: seq<Inode>,
      owner: map<nat, Key>, i: nat, up: Node, k: nat, b: u32)
    requires ChildLink(sb, blocks, blocks', inodes, owner, i, up, k, b)
    ensures Mapped(sb, blocks', inodes, owner[b := Key(i, Child(up, k))])
  {
    hide Used, Ptr;
    var owner' := owner[b := Key(i, Child(up, k))];
    forall j, n {:trigger Ptr(blocks', inodes[j].addrs, n)} | 0 <= j < |inodes| && ValidNode(n)
      ensures var p := Ptr(blocks', inodes[j].addrs, n);
              p != 0 ==> p in owner' && owner'[p] == Key(j, n)
    {
      PtrAfterChildLink(sb, blocks, blocks', inodes, owner, i, up, k, b, j, n);
    }
    forall p | p in owner'
      ensures owner'[p].inum < |inodes| && ValidNode(owner'[p].node)
      ensures Ptr(blocks', inodes[owner'[p].inum].addrs, owner'[p].node) == p
    {
      if p in owner {
        assert ValidNode(owner[p].node);
      }
      PtrAfterChildLink(sb, blocks, blocks', inodes, owner, i, up, k, b, owner'[p].inum, owner'[p].node);
    }
  }

  // ---- File contents ----

  // Byte x of a file.
  ghost function ByteAt(blocks: seq<Block>, addrs: Addrs, x: nat): byte
    requires x < MAXFILE * BLOCK_SIZE
  {
    var p := Ptr(blocks, addrs, LeafOf(x / BLOCK_SIZE));
    if p == 0 || p >= |blocks| then 0 else blocks[p][x % BLOCK_SIZE]
  }

  // Data block bi exists.
  ghost predicate HasBlock(blocks: seq<Block>, addrs: Addrs, bi: nat)
    requires bi < MAXFILE
  {
    Ptr(blocks, addrs, LeafOf(bi)) != 0
  }

  // There is no hole below len.
  ghost predicate Dense(blocks: seq<Block>, addrs: Addrs, len: nat) {
    && len <= MAXFILE * BLOCK_SIZE
    && forall bi: nat {:trigger HasBlock(blocks, addrs, bi)} :: bi * BLOCK_SIZE < len ==> HasBlock(blocks, addrs, bi)
  }

  // The abstract file: its first `size` bytes.
  ghost function Content(blocks: seq<Block>, ip: Inode): (c: seq<byte>)
    requires ip.size <= MAXFILE * BLOCK_SIZE
    ensures |c| == ip.size
    ensures forall x {:trigger c[x]} :: 0 <= x < ip.size ==> c[x] == ByteAt(blocks, ip.addrs, x)
  {
    seq(ip.size, x requires 0 <= x < ip.size => ByteAt(blocks, ip.addrs, x))
  }

  // ---- Growing trees ----

  // Everything below the bitmap is as it was, and every block that was
  // reachable still is, at its old position; data blocks keep their bytes.
  ghost predicate Grew(sb: SuperBlock, blocks: seq<Block>, inodes: seq<Inode>, blocks': seq<Block>,
      inodes': seq<Inode>) {
    && |blocks'| == |blocks| && |inodes'| == |inodes|
    && (forall p :: 0 <= p < |blocks| && p < sb.bmapStart ==> blocks'[p] == blocks[p])
    && (forall j, n {:trigger Stays(blocks, inodes[j].addrs, blocks', inodes'[j].addrs, n)} ::
        0 <= j < |inodes| && ValidNode(n) ==>
          Stays(blocks, inodes[j].addrs, blocks', inodes'[j].addrs, n))
  }

  ghost predicate Stays(blocks: seq<Block>, addrs: Addrs, blocks': seq<Block>, addrs': Addrs, n: Node)
    requires ValidNode(n) && |blocks'| == |blocks|
  {
    var p := Ptr(blocks, addrs, n);
    p != 0 ==> Ptr(blocks', addrs', n) == p && (Height(n) == 0 && p < |blocks| ==> blocks'[p] == blocks[p])
  }

  lemma GrewReflexive(sb: SuperBlock, blocks: seq<Block>, inodes: seq<Inode>)
    ensures Grew(sb, blocks, inodes, blocks, inodes)
  {
  }

  lemma GrewTransitive(sb: SuperBlock, a: seq<Block>, ia: seq<Inode>, b: seq<Block>, ib: seq<Inode>, c: seq<Block>,
      ic: seq<Inode>)
    requires Grew(sb, a, ia, b, ib) && Grew(sb, b, ib, c, ic)
    ensures Grew(sb, a, ia, c, ic)
  {
    forall j, n | 0 <= j < |ia| && ValidNode(n)
      ensures Stays(a, ia[j].addrs, c, ic[j].addrs, n)
    {
      assert Stays(b, ib[j].addrs, c, ic[j].addrs, n);
      assert Stays(a, ia[j].addrs, b, ib[j].addrs, n);
    }
  }

  lemma SlotLinkGrows(sb: SuperBlock, blocks: seq<Block>, blocks': seq<Block>, inodes: seq<Inode>, owner: map<nat, Key>,
      i: nat, s: nat, b: u32)
    requires SlotLink(sb, blocks, blocks', inodes, owner, i, s, b) && Allocated(sb, blocks, blocks', b)
    ensures Grew(sb, blocks, inodes, blocks', WithAddr(inodes, i, s, b))
  {
    var inodes' := WithAddr(inodes, i, s, b);
    forall j, n | 0 <= j < |inodes| && ValidNode(n)
      ensures Stays(blocks, inodes[j].addrs, blocks', inodes'[j].addrs, n)
    {
      PtrAfterSlotLink(sb, blocks, blocks', inodes, owner, i, s, b, j, n);
      var p := Ptr(blocks, inodes[j].addrs, n);
      assert p != 0 ==> p in owner && p != b;
    }
  }

  lemma ChildLinkGrows(sb: SuperBlock, blocks: seq<Block>, blocks1: seq<Block>, blocks': seq<Block>, inodes: seq<Inode>,
      owner: map<nat, Key>, i: nat, up: Node, k: nat, b: u32, q: nat)
    requires ChildLink(sb, blocks, blocks', inodes, owner, i, up, k, b) && Allocated(sb, blocks, blocks1, b)
    requires q == Ptr(blocks, inodes[i].addrs, up) && q < |blocks|
    requires blocks' == blocks1[q := PutWord(blocks[q], k, b)]
    ensures Grew(sb, blocks, inodes, blocks', inodes)
  {
    assert q in owner && owner[q] == Key(i, up) && Height(up) > 0;
    forall j, n | 0 <= j < |inodes| && ValidNode(n)
      ensures Stays(blocks, inodes[j].addrs, blocks', inodes[j].addrs, n)
    {
      ChildLinkStays(sb, blocks, blocks1, blocks', inodes, owner, i, up, k, b, q, j, n);
    }
  }

  lemma ChildLinkStays(sb: SuperBlock, blocks: seq<Block>, blocks1: seq<Block>, blocks': seq<Block>, inodes: seq<Inode>,
      owner: map<nat, Key>, i: nat, up: Node, k: nat, b: u32, q: nat, j: nat, n: Node)
    requires ChildLink(sb, blocks, blocks', inodes, owner, i, up, k, b) && Allocated(sb, blocks, blocks1, b)
    requires q == Ptr(blocks, inodes[i].addrs, up) && q < |blocks| && owner[q] == Key(i, up) && Height(up) > 0
    requires blocks' == blocks1[q := PutWord(blocks[q], k, b)]
    requires j < |inodes| && ValidNode(n)
    ensures Stays(blocks, inodes[j].addrs, blocks', inodes[j].addrs, n)
  {
    PtrAfterChildLink(sb, blocks, blocks', inodes, owner, i, up, k, b, j, n);
    var p := Ptr(blocks, inodes[j].addrs, n);
    assert p != 0 ==> p in owner && p != b && owner[p] == Key(j, n);
  }

  // A grown tree still holds every file's bytes.
  lemma GrewKeepsBytes(sb: SuperBlock, blocks: seq<Block>, inodes: seq<Inode>, owner: map<nat, Key>,
      blocks': seq<Block>, inodes': seq<Inode>, j: nat, len: nat)
    requires TreeOk(sb, blocks, inodes, owner) && Grew(sb, blocks, inodes, blocks', inodes')
    requires j < |inodes| && Dense(blocks, inodes[j].addrs, len)
    ensures Dense(blocks', inodes'[j].addrs, len)
    ensures forall x :: 0 <= x < len ==> ByteAt(blocks', inodes'[j].addrs, x) == ByteAt(blocks, inodes[j].addrs, x)
  {
    forall bi: nat | bi * BLOCK_SIZE < len
      ensures HasBlock(blocks', inodes'[j].addrs, bi)
    {
      assert HasBlock(blocks, inodes[j].addrs, bi);
      assert Stays(blocks, inodes[j].addrs, blocks', inodes'[j].addrs, LeafOf(bi));
    }
    forall x | 0 <= x < len
      ensures ByteAt(blocks', inodes'[j].addrs, x) == ByteAt(blocks, inodes[j].addrs, x)
    {
      var bi := x / BLOCK_SIZE;
      assert bi * BLOCK_SIZE < len;
      assert HasBlock(blocks, inodes[j].addrs, bi);
      assert Stays(blocks, inodes[j].addrs, blocks', inodes'[j].addrs, LeafOf(bi));
    }
  }

  // ---- Writing data ----

  // Overwriting a data block changes those bytes of that file and nothing else.
  lemma DataWrite(sb: SuperBlock, blocks: seq<Block>, inodes: seq<Inode>, owner: map<nat, Key>, i: nat, bi: nat,
      d: Block, p: nat)
    requires TreeOk(sb, blocks, inodes, owner) && i < |inodes| && bi < MAXFILE
    requires p == Ptr(blocks, inodes[i].addrs, LeafOf(bi)) != 0
    ensures p in owner && p < |blocks| && p >= DataStart(sb)
    ensures TreeOk(sb, blocks[p := d], inodes, owner)
    ensures forall j, n {:trigger Ptr(blocks[p := d], inodes[j].addrs, n)} :: 0 <= j < |inodes| && ValidNode(n) ==>
              Ptr(blocks[p := d], inodes[j].addrs, n) == Ptr(blocks, inodes[j].addrs, n)
  {
    var blocks' := blocks[p := d];
    assert owner[p] == Key(i, LeafOf(bi));
    forall j, n {:trigger Ptr(blocks', inodes[j].addrs, n)} | 0 <= j < |inodes| && ValidNode(n)
      ensures Ptr(blocks', inodes[j].addrs, n) == Ptr(blocks, inodes[j].addrs, n)
    {
      PtrFrame(sb, blocks, blocks', inodes, owner, j, n);
    }
    UsedLocal(sb, blocks, blocks');
  }

  // Reachable blocks lie in the data area.
  lemma PtrInDataArea(sb: SuperBlock, blocks: seq<Block>, inodes: seq<Inode>, owner: map<nat, Key>, i: nat, n: Node)
    requires TreeOk(sb, blocks, inodes, owner) && i < |inodes| && ValidNode(n)
    requires Ptr(blocks, inodes[i].addrs, n) != 0
    ensures DataStart(sb) <= Ptr(blocks, inodes[i].addrs, n) < |blocks|
  {
  }

  lemma DataWriteBytes(sb: SuperBlock, blocks: seq<Block>, inodes: seq<Inode>, owner: map<nat, Key>, i: nat, bi: nat,
      d: Block, p: nat, j: nat, x: nat)
    requires TreeOk(sb, blocks, inodes, owner) && i < |inodes| && bi < MAXFILE
    requires p == Ptr(blocks, inodes[i].addrs, LeafOf(bi)) != 0 && p < |blocks|
    requires j < |inodes| && x < MAXFILE * BLOCK_SIZE
    ensures HasBlock(blocks[p := d], inodes[j].addrs, x / BLOCK_SIZE) == HasBlock(blocks, inodes[j].addrs,
            x / BLOCK_SIZE)
    ensures ByteAt(blocks[p := d], inodes[j].addrs, x) ==
            if j == i && x / BLOCK_SIZE == bi then d[x % BLOCK_SIZE] else ByteAt(blocks, inodes[j].addrs, x)
  {
    DataWrite(sb, blocks, inodes, owner, i, bi, d, p);
    var leaf := LeafOf(x / BLOCK_SIZE);
    assert Ptr(blocks[p := d], inodes[j].addrs, leaf) == Ptr(blocks, inodes[j].addrs, leaf);
    if Ptr(blocks, inodes[j].addrs, leaf) == p {
      TreesAreDisjoint(sb, blocks, inodes, owner, i, LeafOf(bi), j, leaf);
      LeafOfInjective(bi, x / BLOCK_SIZE);
    }
  }

  // The file at addrs holds exactly the bytes c, with no hole.
  ghost predicate FileIs(blocks: seq<Block>, addrs: Addrs, c: seq<byte>) {
    && Dense(blocks, addrs, |c|)
    && forall x {:trigger ByteAt(blocks, addrs, x)} {:trigger c[x]} :: 0 <= x < |c| ==> ByteAt(blocks, addrs, x) == c[x]
  }

  // c with s written at off, extending it when s runs past the end.
  ghost function Patched(c: seq<byte>, off: nat, s: seq<byte>): (r: seq<byte>)
    requires off <= |c|
    ensures |r| == if off + |s| > |c| then off + |s| else |c|
    ensures forall x {:trigger r[x]} :: 0 <= x < |r| ==> r[x] == if off <= x < off + |s| then s[x - off] else c[x]
  {
    c[..off] + s + if off + |s| < |c| then c[off + |s|..] else []
  }

  lemma PatchedTwice(c: seq<byte>, off: nat, a: seq<byte>, b: seq<byte>)
    requires off <= |c|
    ensures Patched(Patched(c, off, a), off + |a|, b) == Patched(c, off, a + b)
  {
  }

  lemma PatchedNothing(c: seq<byte>, off: nat)
    requires off <= |c|
    ensures Patched(c, off, []) == c
  {
  }

  lemma FileIsContent(blocks: seq<Block>, ip: Inode)
    requires Dense(blocks, ip.addrs, ip.size)
    ensures FileIs(blocks, ip.addrs, Content(blocks, ip))
  {
  }

  lemma ContentIsFile(blocks: seq<Block>, ip: Inode, c: seq<byte>)
    requires FileIs(blocks, ip.addrs, c) && |c| == ip.size
    ensures Dense(blocks, ip.addrs, ip.size) && Content(blocks, ip) == c
  {
  }

  // The part of a file inside one block is found in that block.
  lemma FileIsBlock(blocks: seq<Block>, addrs: Addrs, c: seq<byte>, at: nat, m: nat, p: nat)
    requires FileIs(blocks, addrs, c) && at < |c| && at < MAXFILE * BLOCK_SIZE
    requires p == Ptr(blocks, addrs, LeafOf(at / BLOCK_SIZE)) < |blocks|
    requires at + m <= |c| && at % BLOCK_SIZE + m <= BLOCK_SIZE
    ensures p != 0
    ensures blocks[p][at % BLOCK_SIZE..at % BLOCK_SIZE + m] == c[at..at + m]
  {
    hide LeafOf, Ptr;
    assert HasBlock(blocks, addrs, at / BLOCK_SIZE);
    var piece, part := blocks[p][at % BLOCK_SIZE..at % BLOCK_SIZE + m], c[at..at + m];
    forall i | 0 <= i < m
      ensures piece[i] == part[i]
    {
      assert ByteAt(blocks, addrs, at + i) == c[at + i];
      assert (at + i) / BLOCK_SIZE == at / BLOCK_SIZE;
      assert (at + i) % BLOCK_SIZE == at % BLOCK_SIZE + i;
    }
  }

  lemma FileIsGrew(sb: SuperBlock, blocks: seq<Block>, inodes: seq<Inode>, owner: map<nat, Key>, blocks': seq<Block>,
      inodes': seq<Inode>, j: nat, c: seq<byte>)
    requires TreeOk(sb, blocks, inodes, owner) && Grew(sb, blocks, inodes, blocks', inodes')
    requires j < |inodes| && FileIs(blocks, inodes[j].addrs, c)
    ensures FileIs(blocks', inodes'[j].addrs, c)
  {
    GrewKeepsBytes(sb, blocks, inodes, owner, blocks', inodes', j, |c|);
  }

  // Writing s into data block bi of file i patches that file at bi * BLOCK_SIZE + o.
  lemma FileIsWritten(sb: SuperBlock, blocks: seq<Block>, inodes: seq<Inode>, owner: map<nat, Key>, i: nat, bi: nat,
      o: nat, s: seq<byte>, p: nat, c: seq<byte>)
    requires TreeOk(sb, blocks, inodes, owner) && i < |inodes| && bi < MAXFILE
    requires p == Ptr(blocks, inodes[i].addrs, LeafOf(bi)) != 0 && p < |blocks|
    requires o + |s| <= BLOCK_SIZE && bi * BLOCK_SIZE + o <= |c|
    requires FileIs(blocks, inodes[i].addrs, c)
    ensures FileIs(blocks[p := Splice(blocks[p], o, s)], inodes[i].addrs, Patched(c, bi * BLOCK_SIZE + o, s))
  {
    hide TreeOk, Mapped, Ptr, LeafOf;
    var d := Splice(blocks[p], o, s);
    var addrs := inodes[i].addrs;
    var c' := Patched(c, bi * BLOCK_SIZE + o, s);
    forall k: nat | k * BLOCK_SIZE < |c'|
      ensures HasBlock(blocks[p := d], addrs, k)
    {
      DataWriteBytes(sb, blocks, inodes, owner, i, bi, d, p, i, k * BLOCK_SIZE);
      assert k == bi || HasBlock(blocks, addrs, k);
    }
    forall x | 0 <= x < |c'|
      ensures ByteAt(blocks[p := d], addrs, x) == c'[x]
    {
      DataWriteBytes(sb, blocks, inodes, owner, i, bi, d, p, i, x);
      if x / BLOCK_SIZE == bi && x < |c| {
        assert ByteAt(blocks, addrs, x) == blocks[p][x % BLOCK_SIZE];
      }
    }
  }

  lemma FileIsUntouched(sb: SuperBlock, blocks: seq<Block>, inodes: seq<Inode>, owner: map<nat, Key>, i: nat, bi: nat,
      d: Block, p: nat, j: nat, c: seq<byte>)
    requires TreeOk(sb, blocks, inodes, owner) && i < |inodes| && bi < MAXFILE
    requires p == Ptr(blocks, inodes[i].addrs, LeafOf(bi)) != 0 && p < |blocks|
    requires j < |inodes| && j != i && FileIs(blocks, inodes[j].addrs, c)
    ensures FileIs(blocks[p := d], inodes[j].addrs, c)
  {
    hide TreeOk, Mapped, Ptr, LeafOf;
    forall k: nat | k * BLOCK_SIZE < |c|
      ensures HasBlock(blocks[p := d], inodes[j].addrs, k)
    {
      DataWriteBytes(sb, blocks, inodes, owner, i, bi, d, p, j, k * BLOCK_SIZE);
      assert HasBlock(blocks, inodes[j].addrs, k);
    }
    forall x | 0 <= x < |c|
      ensures ByteAt(blocks[p := d], inodes[j].addrs, x) == c[x]
    {
      DataWriteBytes(sb, blocks, inodes, owner, i, bi, d, p, j, x);
    }
  }

  // ---- Changing blocks outside the trees ----

  // The trees do not depend on the blocks below the data area.
  lemma TreeIgnoresTable(sb: SuperBlock, blocks: seq<Block>, blocks': seq<Block>, inodes: seq<Inode>,
      owner: map<nat, Key>)
    requires TreeOk(sb, blocks, inodes, owner) && |blocks'| == |blocks|
    requires forall p :: sb.bmapStart <= p < |blocks| ==> blocks'[p] == blocks[p]
    ensures TreeOk(sb, blocks', inodes, owner)
    ensures forall j, n {:trigger Ptr(blocks', inodes[j].addrs, n)} :: 0 <= j < |inodes| && ValidNode(n) ==>
              Ptr(blocks', inodes[j].addrs, n) == Ptr(blocks, inodes[j].addrs, n)
  {
    forall j, n {:trigger Ptr(blocks', inodes[j].addrs, n)} | 0 <= j < |inodes| && ValidNode(n)
      ensures Ptr(blocks', inodes[j].addrs, n) == Ptr(blocks, inodes[j].addrs, n)
    {
      PtrFrame(sb, blocks, blocks', inodes, owner, j, n);
    }
    UsedLocal(sb, blocks, blocks');
  }

  lemma FileIgnoresTable(sb: SuperBlock, blocks: seq<Block>, blocks': seq<Block>, inodes: seq<Inode>,
      owner: map<nat, Key>, j: nat, c: seq<byte>)
    requires TreeOk(sb, blocks, inodes, owner) && |blocks'| == |blocks|
    requires forall p :: sb.bmapStart <= p < |blocks| ==> blocks'[p] == blocks[p]
    requires j < |inodes| && FileIs(blocks, inodes[j].addrs, c)
    ensures FileIs(blocks', inodes[j].addrs, c)
  {
    TreeIgnoresTable(sb, blocks, blocks', inodes, owner);
    var addrs := inodes[j].addrs;
    forall k: nat | k * BLOCK_SIZE < |c|
      ensures HasBlock(blocks', addrs, k)
    {
      assert HasBlock(blocks, addrs, k);
    }
    forall x | 0 <= x < |c|
      ensures ByteAt(blocks', addrs, x) == c[x]
    {
      assert HasBlock(blocks, addrs, x / BLOCK_SIZE);
      var p := Ptr(blocks, addrs, LeafOf(x / BLOCK_SIZE));
      assert p in owner;
    }
  }

  // ---- The abstract file system: one byte sequence per inode ----

  ghost predicate HoldsFiles(blocks: seq<Block>, inodes: seq<Inode>, files: seq<seq<byte>>) {
    && |files| == |inodes|
    && forall j :: 0 <= j < |inodes| ==> FileIs(blocks, inodes[j].addrs, files[j])
  }

  lemma HoldsFilesGrew(sb: SuperBlock, blocks: seq<Block>, inodes: seq<Inode>, owner: map<nat, Key>,
      blocks': seq<Block>, inodes': seq<Inode>, files: seq<seq<byte>>)
    requires TreeOk(sb, blocks, inodes, owner) && Grew(sb, blocks, inodes, blocks', inodes')
    requires HoldsFiles(blocks, inodes, files)
    ensures HoldsFiles(blocks', inodes', files)
  {
    hide TreeOk, FileIs, Stays;
    forall j | 0 <= j < |inodes|
      ensures FileIs(blocks', inodes'[j].addrs, files[j])
    {
      FileIsGrew(sb, blocks, inodes, owner, blocks', inodes', j, files[j]);
    }
  }

  lemma HoldsFilesWritten(sb: SuperBlock, blocks: seq<Block>, inodes: seq<Inode>, owner: map<nat, Key>, i: nat, bi: nat,
      o: nat, s: seq<byte>, p: nat, files: seq<seq<byte>>)
    requires TreeOk(sb, blocks, inodes, owner) && i < |inodes| && bi < MAXFILE
    requires p == Ptr(blocks, inodes[i].addrs, LeafOf(bi)) != 0 && p < |blocks|
    requires HoldsFiles(blocks, inodes, files)
    requires o + |s| <= BLOCK_SIZE && bi * BLOCK_SIZE + o <= |files[i]|
    ensures HoldsFiles(blocks[p := Splice(blocks[p], o, s)], inodes,
            files[i := Patched(files[i], bi * BLOCK_SIZE + o, s)])
  {
    hide TreeOk, FileIs, Ptr, LeafOf;
    forall j | 0 <= j < |inodes|
      ensures FileIs(blocks[p := Splice(blocks[p], o, s)], inodes[j].addrs,
              files[i := Patched(files[i], bi * BLOCK_SIZE + o, s)][j])
    {
      if j == i {
        FileIsWritten(sb, blocks, inodes, owner, i, bi, o, s, p, files[i]);
      } else {
        FileIsUntouched(sb, blocks, inodes, owner, i, bi, Splice(blocks[p], o, s), p, j, files[j]);
      }
    }
  }

  lemma HoldsFilesIgnoresTable(sb: SuperBlock, blocks: seq<Block>, blocks': seq<Block>, inodes: seq<Inode>,
      owner: map<nat, Key>, files: seq<seq<byte>>)
    requires TreeOk(sb, blocks, inodes, owner) && |blocks'| == |blocks|
    requires forall p :: sb.bmapStart <= p < |blocks| ==> blocks'[p] == blocks[p]
    requires HoldsFiles(blocks, inodes, files)
    ensures HoldsFiles(blocks', inodes, files)
  {
    hide TreeOk, FileIs;
    forall j | 0 <= j < |inodes|
      ensures FileIs(blocks', inodes[j].addrs, files[j])
    {
      FileIgnoresTable(sb, blocks, blocks', inodes, owner, j, files[j]);
    }
  }

  // A file system at rest: disjoint trees, an exact bitmap, no holes, and the
  // sizes of its files on disk.
  ghost predicate Consistent(sb: SuperBlock, blocks: seq<Block>, owner: map<nat, Key>, files: seq<seq<byte>>) {
    && ValidLayout(sb, blocks)
    && var inodes := Inodes(sb, blocks);
       && TreeOk(sb, blocks, inodes, owner)
       && |files| == sb.ninodes
       && HoldsFiles(blocks, inodes, files)
       && forall j :: 0 <= j < |inodes| ==> inodes[j].size == |files[j]|
  }

  // Trees and bytes depend on an inode's addresses, not on its other fields.
  lemma OnlyAddrsMatter(sb: SuperBlock, blocks: seq<Block>, inodes: seq<Inode>, inodes': seq<Inode>,
      owner: map<nat, Key>, files: seq<seq<byte>>)
    requires TreeOk(sb, blocks, inodes, owner) && HoldsFiles(blocks, inodes, files)
    requires |inodes'| == |inodes| && forall j :: 0 <= j < |inodes| ==> inodes'[j].addrs == inodes[j].addrs
    ensures TreeOk(sb, blocks, inodes', owner) && HoldsFiles(blocks, inodes', files)
  {
    hide Used, FileIs;
    forall j, n {:trigger Ptr(blocks, inodes'[j].addrs, n)} | 0 <= j < |inodes'| && ValidNode(n)
      ensures var p := Ptr(blocks, inodes'[j].addrs, n);
              p != 0 ==> p in owner && owner[p] == Key(j, n)
    {
      assert inodes'[j].addrs == inodes[j].addrs;
      var p := Ptr(blocks, inodes[j].addrs, n);
    }
    forall p | p in owner
      ensures owner[p].inum < |inodes'| && ValidNode(owner[p].node)
      ensures Ptr(blocks, inodes'[owner[p].inum].addrs, owner[p].node) == p
    {
      assert inodes'[owner[p].inum].addrs == inodes[owner[p].inum].addrs;
    }
  }

  lemma SizeOnDisk(sb: SuperBlock, blocks: seq<Block>, owner: map<nat, Key>, files: seq<seq<byte>>, inum: nat)
    requires Consistent(sb, blocks, owner, files) && inum < sb.ninodes
    ensures |files| == sb.ninodes && TreeOk(sb, blocks, Inodes(sb, blocks), owner)
    ensures Inodes(sb, blocks)[inum].size == |files[inum]| <= MAXFILE * BLOCK_SIZE
  {
    hide TreeOk;
    var inodes := Inodes(sb, blocks);
    assert inodes[inum].size == |files[inum]|;
    assert FileIs(blocks, inodes[inum].addrs, files[inum]);
  }

  // iupdate at the end of a change: the new inode reaches the table and the
  // file system is at rest again.
  lemma InodeWriteBack(sb: SuperBlock, blocks: seq<Block>, base: seq<Inode>, ip: Inode, owner: map<nat, Key>, inum: nat,
      files: seq<seq<byte>>)
    requires ValidLayout(sb, blocks) && Inodes(sb, blocks) == base && inum < |base|
    requires TreeOk(sb, blocks, base[inum := ip], owner) && HoldsFiles(blocks, base[inum := ip], files)
    requires forall j :: 0 <= j < |base| ==> base[inum := ip][j].size == |files[j]|
    ensures InodeBlock(sb, inum) < sb.bmapStart
    ensures var p := InodeBlock(sb, inum);
            var blocks' := blocks[p := PutInode(blocks[p], inum % IPB, ip)];
            Consistent(sb, blocks', owner, files) && Inodes(sb, blocks') == base[inum := ip]
  {
    assert |files| == sb.ninodes;
    hide TreeOk, HoldsFiles;
    InodesUpdate(sb, blocks, inum, ip);
    var p := InodeBlock(sb, inum);
    var blocks' := blocks[p := PutInode(blocks[p], inum % IPB, ip)];
    TreeIgnoresTable(sb, blocks, blocks', base[inum := ip], owner);
    HoldsFilesIgnoresTable(sb, blocks, blocks', base[inum := ip], owner, files);
  }
}
