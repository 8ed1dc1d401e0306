// How many blocks a change needs: the positions on the way to its data blocks.
module BlockCount {
  import opened Bytes
  import opened DiskFormat
  import opened FileTree

  // A position and those above it.
  ghost function PathTo(n: Node): set<Node> {
    match n
    case Slot(_) => {n}
    case Child(up, _) => {n} + PathTo(up)
  }

  // The positions on the way to the data blocks from lo to hi - 1.
  ghost function NodesBetween(lo: nat, hi: nat): set<Node>
    requires lo <= hi <= MAXFILE
  {
    if lo == hi then {} else NodesBetween(lo, hi - 1) + PathTo(LeafOf(hi - 1))
  }

  function LeafCount(size: nat): nat {
    (size + BLOCK_SIZE - 1) / BLOCK_SIZE
  }

  // The positions a file of that size fills.
  ghost function FileNodes(size: nat): set<Node> {
    NodesBetween(0, Min(LeafCount(size), MAXFILE))
  }

  ghost function KeysOf(inum: nat, nodes: set<Node>): set<Key> {
    set n | n in nodes :: Key(inum, n)
  }

  // ---- What an allocation leaves behind ----

  // Blocks were added for exactly those positions that had none.
  ghost predicate Claims(owner: map<nat, Key>, owner': map<nat, Key>, inum: nat, nodes: set<Node>) {
    owner'.Values == owner.Values + KeysOf(inum, nodes)
  }

  // It stopped on the way: no other position has a block, and one of them has none.
  ghost predicate Wants(owner: map<nat, Key>, owner': map<nat, Key>, inum: nat, nodes: set<Node>) {
    && owner.Values <= owner'.Values <= owner.Values + KeysOf(inum, nodes)
    && !(KeysOf(inum, nodes) <= owner'.Values)
  }

  lemma ClaimsNothing(owner: map<nat, Key>, inum: nat)
    ensures Claims(owner, owner, inum, {})
  {
    assert KeysOf(inum, {}) == {};
  }

  // A position that has its block.
  lemma ClaimsThere(sb: SuperBlock, blocks: seq<Block>, inodes: seq<Inode>, owner: map<nat, Key>, i: nat, n: Node)
    requires TreeOk(sb, blocks, inodes, owner) && i < |inodes| && ValidNode(n)
    requires Ptr(blocks, inodes[i].addrs, n) != 0
    ensures Claims(owner, owner, i, {n})
  {
    var p := Ptr(blocks, inodes[i].addrs, n);
    assert p in owner && owner[p] == Key(i, n);
  }

  // A block just allocated belonged to nobody.
  lemma FreshBlock(sb: SuperBlock, blocks: seq<Block>, blocks': seq<Block>, inodes: seq<Inode>, owner: map<nat, Key>,
      b: nat)
    requires TreeOk(sb, blocks, inodes, owner) && Allocated(sb, blocks, blocks', b)
    ensures b !in owner
  {
    hide Used, Mapped;
    assert !Used(sb, blocks, b);
  }

  // A position that gets one.
  lemma ClaimsOne(owner: map<nat, Key>, b: nat, inum: nat, n: Node)
    requires b !in owner
    ensures Claims(owner, owner[b := Key(inum, n)], inum, {n})
  {
    var owner' := owner[b := Key(inum, n)];
    forall k | k in owner.Values
      ensures k in owner'.Values
    {
      var p :| p in owner && owner[p] == k;
      assert owner'[p] == k;
    }
    assert owner'[b] == Key(inum, n);
  }

  // A position that should have got one.
  lemma WantsOne(sb: SuperBlock, blocks: seq<Block>, inodes: seq<Inode>, owner: map<nat, Key>, i: nat, n: Node)
    requires TreeOk(sb, blocks, inodes, owner) && i < |inodes| && ValidNode(n)
    requires Ptr(blocks, inodes[i].addrs, n) == 0
    ensures Wants(owner, owner, i, {n})
  {
    assert Key(i, n) in KeysOf(i, {n});
    forall p | p in owner
      ensures owner[p] != Key(i, n)
    {
    }
  }

  lemma KeysJoin(inum: nat, a: set<Node>, b: set<Node>)
    ensures KeysOf(inum, a + b) == KeysOf(inum, a) + KeysOf(inum, b)
  {
  }

  lemma ClaimsMore(a: map<nat, Key>, b: map<nat, Key>, c: map<nat, Key>, inum: nat, x: set<Node>, y: set<Node>)
    requires Claims(a, b, inum, x) && Claims(b, c, inum, y)
    ensures Claims(a, c, inum, x + y)
  {
    KeysJoin(inum, x, y);
    hide KeysOf;
  }

  lemma ClaimsThenWants(a: map<nat, Key>, b: map<nat, Key>, c: map<nat, Key>, inum: nat, x: set<Node>, y: set<Node>)
    requires Claims(a, b, inum, x) && Wants(b, c, inum, y)
    ensures Wants(a, c, inum, x + y)
  {
    KeysJoin(inum, x, y);
    hide KeysOf;
  }

  lemma WantsMore(a: map<nat, Key>, b: map<nat, Key>, inum: nat, x: set<Node>, y: set<Node>)
    requires Wants(a, b, inum, x) && x <= y
    ensures Wants(a, b, inum, y)
  {
    KeysJoin(inum, x, y);
    assert x + y == y;
    hide KeysOf;
  }

  // Two steps of an allocation, the second one going through or not.
  lemma ClaimsBoth(a: map<nat, Key>, b: map<nat, Key>, c: map<nat, Key>, inum: nat, x: set<Node>, y: set<Node>,
      ok: bool)
    requires Claims(a, b, inum, x) && if ok then Claims(b, c, inum, y) else Wants(b, c, inum, y)
    ensures if ok then Claims(a, c, inum, x + y) else Wants(a, c, inum, x + y)
  {
    hide Claims, Wants;
    if ok {
      ClaimsMore(a, b, c, inum, x, y);
    } else {
      ClaimsThenWants(a, b, c, inum, x, y);
    }
  }

  // The two positions below a doubly-indirect block.
  function TwoBelow(up: Node, idx: nat): set<Node> {
    {Child(up, idx / NINDIRECT)} + {Child(Child(up, idx / NINDIRECT), idx % NINDIRECT)}
  }

  // The way to a data block, level by level.
  lemma PathOfLeaf(bi: nat)
    requires bi < MAXFILE
    ensures bi < NDIRECT ==> PathTo(LeafOf(bi)) == {Slot(bi)}
    ensures NDIRECT <= bi < NDIRECT + NINDIRECT ==>
            PathTo(LeafOf(bi)) == {Slot(SINDIRECT_IDX)} + {Child(Slot(SINDIRECT_IDX), bi - NDIRECT)}
    ensures NDIRECT + NINDIRECT <= bi < NDIRECT + NINDIRECT + NDINDIRECT ==>
            PathTo(LeafOf(bi)) == {Slot(DINDIRECT_IDX)} + TwoBelow(Slot(DINDIRECT_IDX), bi - NDIRECT - NINDIRECT)
    ensures NDIRECT + NINDIRECT + NDINDIRECT <= bi ==>
            var t := bi - NDIRECT - NINDIRECT - NDINDIRECT;
            var up := Child(Slot(TINDIRECT_IDX), t / NDINDIRECT);
            PathTo(LeafOf(bi)) == {Slot(TINDIRECT_IDX)} + {up} + TwoBelow(up, t % NDINDIRECT)
  {
    if NDIRECT + NINDIRECT + NDINDIRECT <= bi {
      var t := bi - NDIRECT - NINDIRECT - NDINDIRECT;
      var up := Child(Slot(TINDIRECT_IDX), t / NDINDIRECT);
      PathBelow(up, t % NDINDIRECT);
      assert PathTo(up) == {Slot(TINDIRECT_IDX)} + {up};
    } else if NDIRECT + NINDIRECT <= bi {
      PathBelow(Slot(DINDIRECT_IDX), bi - NDIRECT - NINDIRECT);
    }
  }

  lemma PathBelow(up: Node, idx: nat)
    ensures PathTo(Child(Child(up, idx / NINDIRECT), idx % NINDIRECT)) == PathTo(up) + TwoBelow(up, idx)
  {
    var mid := Child(up, idx / NINDIRECT);
    assert PathTo(mid) == {mid} + PathTo(up);
    assert PathTo(Child(mid, idx % NINDIRECT)) == {Child(mid, idx % NINDIRECT)} + PathTo(mid);
  }

  // ---- Counting ----

  lemma {:induction false} Smaller<T>(a: set<T>, b: set<T>)
    requires a <= b
    ensures |a| <= |b| && (|a| == |b| ==> a == b)
  {
    if x :| x in a {
      Smaller(a - {x}, b - {x});
    }
  }

  lemma {:induction false} ImageCount(m: map<nat, Key>, s: set<nat>)
    requires s <= m.Keys && forall p, q :: p in m && q in m && m[p] == m[q] ==> p == q
    ensures |set p | p in s :: m[p]| == |s|
  {
    if x :| x in s {
      ImageCount(m, s - {x});
      assert (set p | p in s :: m[p]) == (set p | p in s - {x} :: m[p]) + {m[x]};
    }
  }

  function Range(lo: nat, hi: nat): (r: set<nat>)
    requires lo <= hi
    ensures |r| == hi - lo && forall p :: p in r <==> lo <= p < hi
    decreases hi
  {
    if lo == hi then {} else Range(lo, hi - 1) + {hi - 1}
  }

  // As many blocks are owned as positions have one, and all of them when no
  // block is free.
  lemma OwnedCount(sb: SuperBlock, blocks: seq<Block>, inodes: seq<Inode>, owner: map<nat, Key>, next: nat)
    requires TreeOk(sb, blocks, inodes, owner) && DataStart(sb) <= next <= sb.nblocks
    requires forall p :: p in owner ==> p < next
    ensures |owner.Values| <= next - DataStart(sb)
    ensures (forall p: nat {:trigger Used(sb, blocks, p)} :: p < next ==> Used(sb, blocks, p)) ==>
            |owner.Values| == next - DataStart(sb)
  {
    hide Used, Ptr;
    OwnerInjective(sb, blocks, inodes, owner);
    assert owner.Values == set p | p in owner.Keys :: owner[p];
    ImageCount(owner, owner.Keys);
    Smaller(owner.Keys, Range(DataStart(sb), next));
    if forall p: nat {:trigger Used(sb, blocks, p)} :: p < next ==> Used(sb, blocks, p) {
      forall p | DataStart(sb) <= p < next
        ensures p in owner
      {
        assert Used(sb, blocks, p);
      }
      assert owner.Keys == Range(DataStart(sb), next);
    }
  }

  lemma OwnerInjective(sb: SuperBlock, blocks: seq<Block>, inodes: seq<Inode>, owner: map<nat, Key>)
    requires TreeOk(sb, blocks, inodes, owner)
    ensures forall p, q :: p in owner && q in owner && owner[p] == owner[q] ==> p == q
    ensures forall p :: p in owner ==> DataStart(sb) <= p < sb.nblocks
  {
    hide Used, Ptr;
    forall p, q | p in owner && q in owner && owner[p] == owner[q]
      ensures p == q
    {
      assert Ptr(blocks, inodes[owner[p].inum].addrs, owner[p].node) == p;
    }
  }

  // ---- Ranges of a file ----

  lemma {:induction false} BetweenGrows(lo: nat, hi: nat, hi': nat)
    requires lo <= hi <= hi' <= MAXFILE
    ensures NodesBetween(lo, hi) <= NodesBetween(lo, hi')
    decreases hi'
  {
    if hi < hi' {
      BetweenGrows(lo, hi, hi' - 1);
    }
  }

  // The positions n bytes at off go through.
  ghost function WriteNodes(off: nat, n: nat): set<Node>
    requires off + n <= MAXFILE * BLOCK_SIZE
  {
    if n == 0 then {} else NodesBetween(off / BLOCK_SIZE, (off + n - 1) / BLOCK_SIZE + 1)
  }

  // The next piece, inside one block.
  lemma WriteNodesStep(off: nat, tot: nat, m: nat, n: nat)
    requires tot + m <= n && off + n <= MAXFILE * BLOCK_SIZE && 0 < m
    requires (off + tot) % BLOCK_SIZE + m <= BLOCK_SIZE && (tot == 0 || (off + tot) % BLOCK_SIZE == 0)
    ensures (off + tot) / BLOCK_SIZE < MAXFILE
    ensures WriteNodes(off, tot + m) == WriteNodes(off, tot) + PathTo(LeafOf((off + tot) / BLOCK_SIZE))
    ensures WriteNodes(off, tot + m) <= WriteNodes(off, n)
  {
    hide PathTo, LeafOf;
    var lo, b := off / BLOCK_SIZE, (off + tot) / BLOCK_SIZE;
    assert (off + tot + m - 1) / BLOCK_SIZE == b;
    assert tot > 0 ==> (off + tot - 1) / BLOCK_SIZE + 1 == b;
    assert NodesBetween(lo, b + 1) == NodesBetween(lo, b) + PathTo(LeafOf(b));
    BetweenGrows(lo, b + 1, (off + n - 1) / BLOCK_SIZE + 1);
  }

  lemma NothingClaimed(owner: map<nat, Key>, inum: nat, off: nat)
    requires off <= MAXFILE * BLOCK_SIZE
    ensures Claims(owner, owner, inum, WriteNodes(off, 0))
  {
    ClaimsNothing(owner, inum);
  }

  // One piece of a range, after the pieces before it.
  lemma PieceClaims(a: map<nat, Key>, b: map<nat, Key>, c: map<nat, Key>, inum: nat, off: nat, tot: nat, m: nat, n: nat,
      ok: bool)
    requires tot + m <= n && off + n <= MAXFILE * BLOCK_SIZE && 0 < m
    requires (off + tot) % BLOCK_SIZE + m <= BLOCK_SIZE && (tot == 0 || (off + tot) % BLOCK_SIZE == 0)
    requires Claims(a, b, inum, WriteNodes(off, tot))
    requires var path := PathTo(LeafOf((off + tot) / BLOCK_SIZE));
             if ok then Claims(b, c, inum, path) else Wants(b, c, inum, path)
    ensures if ok then Claims(a, c, inum, WriteNodes(off, tot + m)) else Wants(a, c, inum, WriteNodes(off, n))
  {
    WriteNodesStep(off, tot, m, n);
    hide WriteNodes, PathTo, LeafOf, Claims, Wants;
    ClaimsBoth(a, b, c, inum, WriteNodes(off, tot), PathTo(LeafOf((off + tot) / BLOCK_SIZE)), ok);
    if !ok {
      WantsMore(a, c, inum, WriteNodes(off, tot + m), WriteNodes(off, n));
    }
  }

  lemma {:induction false} BetweenInside(lo: nat, mid: nat, hi: nat)
    requires lo <= mid <= hi <= MAXFILE
    ensures NodesBetween(mid, hi) <= NodesBetween(lo, hi)
    decreases hi
  {
    hide PathTo, LeafOf;
    if mid < hi {
      BetweenInside(lo, mid, hi - 1);
    }
  }

  lemma {:induction false} BetweenJoins(p: nat, q: nat, r: nat)
    requires p <= q <= r <= MAXFILE
    ensures NodesBetween(0, r) == NodesBetween(0, q) + NodesBetween(p, r)
    decreases r
  {
    hide PathTo, LeafOf;
    BetweenInside(0, p, r);
    if q < r {
      BetweenJoins(p, q, r - 1);
    }
  }

  // ---- Files that fill their trees ----

  // The positions that have a block are those the files' sizes need.
  ghost predicate Tight(keys: set<Key>, files: seq<seq<byte>>) {
    forall k :: k in keys <==> k.inum < |files| && k.node in FileNodes(|files[k.inum]|)
  }

  lemma FileGrows(size: nat, n: nat)
    requires size + n <= MAXFILE * BLOCK_SIZE
    ensures FileNodes(size + n) == FileNodes(size) + WriteNodes(size, n)
  {
    hide NodesBetween;
    if n > 0 {
      assert LeafCount(size + n) == (size + n - 1) / BLOCK_SIZE + 1;
      BetweenJoins(size / BLOCK_SIZE, LeafCount(size), LeafCount(size + n));
    }
  }

  lemma FileBlocksGrow(a: nat, b: nat)
    requires a <= b
    ensures FileBlocks(a) <= FileBlocks(b) && FileBlocks(0) == 0
  {
    assert LeafCount(0) == 0 && FileBlocks(0) == 0;
    hide NodesBetween, FileBlocks;
    BetweenGrows(0, Min(LeafCount(a), MAXFILE), Min(LeafCount(b), MAXFILE));
    Smaller(FileNodes(a), FileNodes(b));
    FileBlocksCount(a);
    FileBlocksCount(b);
  }

  lemma {:induction false} KeysCount(inum: nat, nodes: set<Node>)
    ensures |KeysOf(inum, nodes)| == |nodes|
  {
    if n :| n in nodes {
      KeysCount(inum, nodes - {n});
      assert KeysOf(inum, nodes) == KeysOf(inum, nodes - {n}) + {Key(inum, n)};
    }
  }

  lemma DisjointCount<T>(a: set<T>, b: set<T>)
    requires a !! b
    ensures |a + b| == |a| + |b|
  {
  }

  // A file that grows by n bytes takes as many blocks more as its size needs.
  lemma TightGrows(keys: set<Key>, files: seq<seq<byte>>, inum: nat, data: seq<byte>)
    requires Tight(keys, files) && inum < |files| && |files[inum]| + |data| <= MAXFILE * BLOCK_SIZE
    ensures var keys' := keys + KeysOf(inum, WriteNodes(|files[inum]|, |data|));
            && Tight(keys', files[inum := files[inum] + data])
            && |keys'| == |keys| + FileBlocks(|files[inum]| + |data|) - FileBlocks(|files[inum]|)
  {
    hide FileNodes, WriteNodes, KeysOf, Tight, FileBlocks;
    var size, n := |files[inum]|, |data|;
    FileGrows(size, n);
    FileBlocksCount(size);
    FileBlocksCount(size + n);
    var keys' := keys + KeysOf(inum, WriteNodes(size, n));
    var rest := set k | k in keys && k.inum != inum;
    KeysJoin(inum, FileNodes(size), WriteNodes(size, n));
    TightParts(keys, files, inum);
    PartsCount(rest, inum, FileNodes(size), FileNodes(size + n));
    assert keys' == rest + KeysOf(inum, FileNodes(size + n));
    PartsTight(keys', files[inum := files[inum] + data], keys, files, inum);
  }

  lemma PartsCount(rest: set<Key>, inum: nat, a: set<Node>, b: set<Node>)
    requires forall k :: k in rest ==> k.inum != inum
    ensures |rest + KeysOf(inum, b)| == |rest + KeysOf(inum, a)| + |b| - |a|
  {
    KeysCount(inum, a);
    KeysCount(inum, b);
    KeysApart(rest, inum, a);
    KeysApart(rest, inum, b);
    hide KeysOf;
    DisjointCount(rest, KeysOf(inum, a));
    DisjointCount(rest, KeysOf(inum, b));
  }

  lemma KeysApart(rest: set<Key>, inum: nat, nodes: set<Node>)
    requires forall k :: k in rest ==> k.inum != inum
    ensures rest !! KeysOf(inum, nodes)
  {
  }

  lemma TightParts(keys: set<Key>, files: seq<seq<byte>>, inum: nat)
    requires Tight(keys, files) && inum < |files|
    ensures keys == (set k | k in keys && k.inum != inum) + KeysOf(inum, FileNodes(|files[inum]|))
  {
    hide FileNodes;
    forall k
      ensures k in keys <==> (k in keys && k.inum != inum) || k in KeysOf(inum, FileNodes(|files[inum]|))
    {
    }
  }

  lemma PartsTight(keys': set<Key>, files': seq<seq<byte>>, keys: set<Key>, files: seq<seq<byte>>, inum: nat)
    requires Tight(keys, files) && inum < |files| == |files'| && files' == files[inum := files'[inum]]
    requires keys' == (set k | k in keys && k.inum != inum) + KeysOf(inum, FileNodes(|files'[inum]|))
    ensures Tight(keys', files')
  {
    hide FileNodes;
    forall k
      ensures k in keys' <==> k.inum < |files'| && k.node in FileNodes(|files'[k.inum]|)
    {
    }
  }

  // ---- The number in closed form ----

  // The first data block below a position.
  function FirstLeaf(n: Node): nat {
    match n
    case Slot(i) =>
      if i <= SINDIRECT_IDX then i
      else if i == DINDIRECT_IDX then NDIRECT + NINDIRECT
      else NDIRECT + NINDIRECT + NDINDIRECT
    case Child(up, k) => FirstLeaf(up) + (if Height(up) == 1 then k else if Height(up) == 2 then NINDIRECT * k
        else NDINDIRECT * k)
  }

  // The pointer blocks above n data blocks.
  function PointerBlocks(n: nat): nat {
    if n <= NDIRECT then 0
    else if n <= NDIRECT + NINDIRECT then 1
    else if n <= NDIRECT + NINDIRECT + NDINDIRECT then
      2 + (n - NDIRECT - NINDIRECT + NINDIRECT - 1) / NINDIRECT
    else
      var t := n - NDIRECT - NINDIRECT - NDINDIRECT;
      3 + NINDIRECT + (t + NDINDIRECT - 1) / NDINDIRECT + (t + NINDIRECT - 1) / NINDIRECT
  }

  // The blocks a file of that size takes, pointer blocks included.
  function FileBlocks(size: nat): nat {
    var n := Min(LeafCount(size), MAXFILE);
    n + PointerBlocks(n)
  }

  lemma FileBlocksCount(size: nat)
    ensures |FileNodes(size)| == FileBlocks(size)
  {
    BlocksOfLeaves(Min(LeafCount(size), MAXFILE));
  }

  // Those whose first data block is bi.
  ghost function Firsts(s: set<Node>, bi: nat): set<Node> {
    set n | n in s && FirstLeaf(n) == bi
  }

  lemma FirstsOneMore(s: set<Node>, n: Node, bi: nat)
    requires n !in s
    ensures |Firsts(s + {n}, bi)| == |Firsts(s, bi)| + if FirstLeaf(n) == bi then 1 else 0
  {
    hide FirstLeaf;
    var more: set<Node> := if FirstLeaf(n) == bi then {n} else {};
    assert Firsts(s + {n}, bi) == Firsts(s, bi) + more;
  }

  lemma FirstOfLeaf(bi: nat)
    requires bi < MAXFILE
    ensures FirstLeaf(LeafOf(bi)) == bi
  {
    if NDIRECT + NINDIRECT + NDINDIRECT <= bi {
      FirstLeaves3(bi, bi - NDIRECT - NINDIRECT - NDINDIRECT);
    } else if NDIRECT + NINDIRECT <= bi {
      FirstLeaves2(bi, bi - NDIRECT - NINDIRECT);
    }
  }

  lemma {:induction false} AboveFirst(end: Node, n: Node)
    requires ValidNode(end) && n in PathTo(end)
    ensures ValidNode(n) && FirstLeaf(n) <= FirstLeaf(end)
  {
    if n != end {
      AboveFirst(end.up, n);
    }
  }

  lemma PathFirst(bi: nat)
    requires bi < MAXFILE
    ensures forall n :: n in PathTo(LeafOf(bi)) ==> ValidNode(n) && FirstLeaf(n) <= bi
  {
    FirstOfLeaf(bi);
    forall n | n in PathTo(LeafOf(bi))
      ensures ValidNode(n) && FirstLeaf(n) <= bi
    {
      AboveFirst(LeafOf(bi), n);
    }
  }

  // How many positions block bi is the first to need.
  lemma NewCount(bi: nat)
    requires bi < MAXFILE
    ensures |Firsts(PathTo(LeafOf(bi)), bi)| == 1 + PointerBlocks(bi + 1) - PointerBlocks(bi)
  {
    PathOfLeaf(bi);
    if bi < NDIRECT {
      FirstsOfOne(Slot(bi), bi);
    } else if bi < NDIRECT + NINDIRECT {
      NewCount1(bi);
    } else if bi < NDIRECT + NINDIRECT + NDINDIRECT {
      NewCount2(bi);
    } else {
      NewCount3(bi);
    }
  }

  lemma NewCount1(bi: nat)
    requires NDIRECT <= bi < NDIRECT + NINDIRECT
    ensures |Firsts(PathTo(LeafOf(bi)), bi)| == 1 + PointerBlocks(bi + 1) - PointerBlocks(bi)
  {
    PathOfLeaf(bi);
    var top, leaf := Slot(SINDIRECT_IDX), Child(Slot(SINDIRECT_IDX), bi - NDIRECT);
    assert FirstLeaf(top) == NDIRECT && FirstLeaf(leaf) == bi;
    hide PathTo, LeafOf, FirstLeaf, Firsts;
    FirstsOfOne(top, bi);
    FirstsOneMore({top}, leaf, bi);
  }

  // A path's last two positions, and at most two above them.
  lemma Firsts3(a: set<Node>, b: set<Node>, mid: Node, leaf: Node, bi: nat)
    requires a !! b && mid !in a + b && leaf !in a + b + {mid} && FirstLeaf(leaf) == bi
    ensures |Firsts(a + b + {mid} + {leaf}, bi)| ==
            |Firsts(a, bi)| + |Firsts(b, bi)| + (if FirstLeaf(mid) == bi then 1 else 0) + 1
  {
    FirstsOneMore(a + b, mid, bi);
    FirstsOneMore(a + b + {mid}, leaf, bi);
    hide FirstLeaf;
    assert Firsts(a + b, bi) == Firsts(a, bi) + Firsts(b, bi);
    DisjointCount(Firsts(a, bi), Firsts(b, bi));
  }

  lemma FirstsOfOne(n: Node, bi: nat)
    ensures |Firsts({n}, bi)| == (if FirstLeaf(n) == bi then 1 else 0) && |Firsts({}, bi)| == 0
  {
    assert Firsts({}, bi) == {} && {} + {n} == {n};
    FirstsOneMore({}, n, bi);
  }

  lemma NewCount2(bi: nat)
    requires NDIRECT + NINDIRECT <= bi < NDIRECT + NINDIRECT + NDINDIRECT
    ensures |Firsts(PathTo(LeafOf(bi)), bi)| == 1 + PointerBlocks(bi + 1) - PointerBlocks(bi)
  {
    PathOfLeaf(bi);
    var d := bi - NDIRECT - NINDIRECT;
    var top := Slot(DINDIRECT_IDX);
    var mid := Child(top, d / NINDIRECT);
    var leaf := Child(mid, d % NINDIRECT);
    FirstLeaves2(bi, d);
    hide PathTo, LeafOf, FirstLeaf, Firsts, PointerBlocks;
    assert {top} + TwoBelow(top, d) == {top} + {mid} + {leaf};
    FirstsOfOne(top, bi);
    FirstsOneMore({top}, mid, bi);
    FirstsOneMore({top} + {mid}, leaf, bi);
    PointersStep2(d);
  }

  lemma FirstLeaves2(bi: nat, d: nat)
    requires bi == NDIRECT + NINDIRECT + d && d < NDINDIRECT
    ensures var mid := Child(Slot(DINDIRECT_IDX), d / NINDIRECT);
            && FirstLeaf(Slot(DINDIRECT_IDX)) == bi - d
            && FirstLeaf(mid) == bi - d % NINDIRECT && FirstLeaf(Child(mid, d % NINDIRECT)) == bi
  {
    var mid := Child(Slot(DINDIRECT_IDX), d / NINDIRECT);
    assert Height(Slot(DINDIRECT_IDX)) == 2 && Height(mid) == 1;
    assert FirstLeaf(mid) == FirstLeaf(Slot(DINDIRECT_IDX)) + NINDIRECT * (d / NINDIRECT);
  }

  lemma PointersStep2(d: nat)
    requires d < NDINDIRECT
    ensures var bi := NDIRECT + NINDIRECT + d;
            PointerBlocks(bi + 1) - PointerBlocks(bi) == (if d == 0 then 1 else 0) + if d % NINDIRECT == 0 then 1 else 0
  {
    RoundsUp(d, NINDIRECT);
  }

  lemma NewCount3(bi: nat)
    requires NDIRECT + NINDIRECT + NDINDIRECT <= bi < MAXFILE
    ensures |Firsts(PathTo(LeafOf(bi)), bi)| == 1 + PointerBlocks(bi + 1) - PointerBlocks(bi)
  {
    PathOfLeaf(bi);
    var t := bi - NDIRECT - NINDIRECT - NDINDIRECT;
    var top := Slot(TINDIRECT_IDX);
    var up := Child(top, t / NDINDIRECT);
    var mid := Child(up, t % NDINDIRECT / NINDIRECT);
    var leaf := Child(mid, t % NDINDIRECT % NINDIRECT);
    FirstLeaves3(bi, t);
    hide PathTo, LeafOf, FirstLeaf, Firsts, PointerBlocks;
    assert {top} + {up} + TwoBelow(up, t % NDINDIRECT) == {top} + {up} + {mid} + {leaf};
    Firsts3({top}, {up}, mid, leaf, bi);
    FirstsOfOne(top, bi);
    FirstsOfOne(up, bi);
    PointersStep3(t);
  }

  lemma FirstLeaves3(bi: nat, t: nat)
    requires bi == NDIRECT + NINDIRECT + NDINDIRECT + t && bi < MAXFILE
    ensures var top := Slot(TINDIRECT_IDX);
            var up := Child(top, t / NDINDIRECT);
            var mid := Child(up, t % NDINDIRECT / NINDIRECT);
            && FirstLeaf(top) == bi - t && FirstLeaf(up) == bi - t % NDINDIRECT
            && FirstLeaf(mid) == bi - t % NINDIRECT && FirstLeaf(Child(mid, t % NDINDIRECT % NINDIRECT)) == bi
  {
    Split(t);
    var top := Slot(TINDIRECT_IDX);
    var up := Child(top, t / NDINDIRECT);
    var mid := Child(up, t % NDINDIRECT / NINDIRECT);
    assert Height(top) == 3 && Height(up) == 2 && Height(mid) == 1;
    assert FirstLeaf(up) == FirstLeaf(top) + NDINDIRECT * (t / NDINDIRECT);
    assert FirstLeaf(mid) == FirstLeaf(up) + NINDIRECT * (t % NDINDIRECT / NINDIRECT);
  }

  lemma PointersStep3(t: nat)
    ensures var bi := NDIRECT + NINDIRECT + NDINDIRECT + t;
            PointerBlocks(bi + 1) - PointerBlocks(bi) ==
            (if t == 0 then 1 else 0) + (if t % NDINDIRECT == 0 then 1 else 0) + if t % NINDIRECT == 0 then 1 else 0
  {
    RoundsUp(t, NINDIRECT);
    RoundsUp(t, NDINDIRECT);
  }

  lemma Split(t: nat)
    ensures t % NDINDIRECT % NINDIRECT == t % NINDIRECT
    ensures t == NDINDIRECT * (t / NDINDIRECT) + NINDIRECT * (t % NDINDIRECT / NINDIRECT) + t % NINDIRECT
  {
  }

  lemma RoundsUp(x: nat, m: nat)
    requires m == NINDIRECT || m == NDINDIRECT
    ensures (x + 1 + m - 1) / m == (x + m - 1) / m + if x % m == 0 then 1 else 0
  {
  }

  // A path holds what lies above each of its positions.
  lemma {:induction false} PathClosed(n: Node, k: nat, end: Node)
    requires Child(n, k) in PathTo(end)
    ensures n in PathTo(end)
  {
    if end == Child(n, k) {
      assert n in PathTo(n);
    } else {
      PathClosed(n, k, end.up);
    }
  }

  lemma LeafIsLeaf(n: Node)
    requires ValidNode(n) && Height(n) == 0
    ensures FirstLeaf(n) < MAXFILE && LeafOf(FirstLeaf(n)) == n
  {
    match n
    case Slot(_) =>
    case Child(Slot(_), _) =>
    case Child(Child(Slot(i), a), b) =>
      assert Height(Slot(i)) == 2;
      Digits(a, b);
      assert FirstLeaf(n) == NDIRECT + NINDIRECT + (NINDIRECT * a + b);
    case Child(Child(Child(top, a), b), c) =>
      ThreeDeep(top, a, b, c);
  }

  lemma ThreeDeep(top: Node, a: nat, b: nat, c: nat)
    requires var n := Child(Child(Child(top, a), b), c); ValidNode(n) && Height(n) == 0
    ensures var n := Child(Child(Child(top, a), b), c); FirstLeaf(n) < MAXFILE && LeafOf(FirstLeaf(n)) == n
  {
    var n := Child(Child(Child(top, a), b), c);
    assert ValidNode(Child(top, a)) && ValidNode(Child(Child(top, a), b)) && Height(top) == 3;
    AtMostThree(top);
    var t := NDINDIRECT * a + NINDIRECT * b + c;
    assert Height(Child(top, a)) == 2 && Height(Child(Child(top, a), b)) == 1;
    assert FirstLeaf(Child(top, a)) == FirstLeaf(top) + NDINDIRECT * a;
    assert FirstLeaf(Child(Child(top, a), b)) == FirstLeaf(Child(top, a)) + NINDIRECT * b;
    Digits(b, c);
    Digits3(a, NINDIRECT * b + c);
    hide FirstLeaf;
  }

  lemma {:induction false} AtMostThree(n: Node)
    requires ValidNode(n)
    ensures Height(n) <= 3 && (Height(n) == 3 ==> n == Slot(TINDIRECT_IDX))
  {
    match n
    case Slot(_) =>
    case Child(up, _) => AtMostThree(up);
  }

  lemma Digits(a: nat, b: nat)
    requires b < NINDIRECT
    ensures (NINDIRECT * a + b) / NINDIRECT == a && (NINDIRECT * a + b) % NINDIRECT == b
  {
  }

  lemma Digits3(a: nat, r: nat)
    requires r < NDINDIRECT
    ensures (NDINDIRECT * a + r) / NDINDIRECT == a && (NDINDIRECT * a + r) % NDINDIRECT == r
  {
  }

  // Every position lies on the way to the first data block below it.
  lemma {:induction false} OnOwnPath(n: Node)
    requires ValidNode(n)
    ensures FirstLeaf(n) < MAXFILE && n in PathTo(LeafOf(FirstLeaf(n)))
    decreases Height(n)
  {
    hide LeafOf;
    if Height(n) == 0 {
      LeafIsLeaf(n);
    } else {
      OnOwnPath(Child(n, 0));
      PathClosed(n, 0, LeafOf(FirstLeaf(n)));
    }
  }

  // So a position is needed for n data blocks exactly when its first one is among them.
  lemma {:induction false} BetweenIsFirst(n: nat)
    requires n <= MAXFILE
    ensures forall m :: m in NodesBetween(0, n) <==> ValidNode(m) && FirstLeaf(m) < n
  {
    hide PathTo, LeafOf, FirstLeaf, ValidNode;
    if n > 0 {
      BetweenIsFirst(n - 1);
      PathFirst(n - 1);
      forall m | ValidNode(m) && FirstLeaf(m) == n - 1
        ensures m in PathTo(LeafOf(n - 1))
      {
        OnOwnPath(m);
      }
    }
  }

  // The positions block n - 1 adds.
  lemma BetweenStep(n: nat) returns (more: set<Node>)
    requires 0 < n <= MAXFILE
    ensures NodesBetween(0, n) == NodesBetween(0, n - 1) + more && NodesBetween(0, n - 1) !! more
    ensures |more| == 1 + PointerBlocks(n) - PointerBlocks(n - 1)
  {
    more := Firsts(PathTo(LeafOf(n - 1)), n - 1);
    NewCount(n - 1);
    BetweenIsFirst(n - 1);
    BetweenIsFirst(n);
    PathFirst(n - 1);
    hide PathTo, LeafOf, FirstLeaf, ValidNode, PointerBlocks;
    assert NodesBetween(0, n) == NodesBetween(0, n - 1) + PathTo(LeafOf(n - 1));
    hide NodesBetween;
  }

  // n data blocks take n blocks and those that point to them.
  lemma {:induction false} BlocksOfLeaves(n: nat)
    requires n <= MAXFILE
    ensures |NodesBetween(0, n)| == n + PointerBlocks(n)
  {
    assert NodesBetween(0, 0) == {} && PointerBlocks(0) == 0;
    hide PathTo, LeafOf, FirstLeaf, PointerBlocks, Firsts, NodesBetween;
    if n > 0 {
      BlocksOfLeaves(n - 1);
      var more := BetweenStep(n);
      DisjointCount(NodesBetween(0, n - 1), more);
    }
  }
}
