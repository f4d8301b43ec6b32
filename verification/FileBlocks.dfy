/**
  The blocks of operating-systems/xv6-OS/fs.c as values: which file uses which
  block for what, as inodes, indirect blocks and the free bitmap say.
 */
module FileBlocks {
  import Words

  const BSIZE := 512
  const NDIRECT := 12
  const NINDIRECT := 128
  const MAXFILE := NDIRECT + NINDIRECT

  type Byte = Words.Byte
  type Block = seq<Byte>

  /** addrs[NDIRECT] is the indirect block. Zero is no block. */
  datatype Inode = Inode(size: int, addrs: seq<int>)

  /** What a block is used for; META is everything that belongs to no file. */
  datatype Role = Free | Meta | Direct(i: int, k: int) | Indirect(i: int) | Entry(i: int, k: int)

  // ----- Words in a block

  const UINT := 0x1_0000_0000

  function Word(b: Block, k: int): int
    requires |b| == BSIZE && 0 <= k < NINDIRECT
  {
    (b[4 * k] as int) + 0x100 * (b[4 * k + 1] as int) + 0x1_0000 * (b[4 * k + 2] as int) + 0x100_0000 * (b[4 * k + 3] as int)
  }

  function WithWord(b: Block, k: int, v: int): (r: Block)
    requires |b| == BSIZE && 0 <= k < NINDIRECT
    ensures |r| == BSIZE
  {
    b[4 * k := v % 0x100][4 * k + 1 := v / 0x100 % 0x100][4 * k + 2 := v / 0x1_0000 % 0x100][4 * k + 3 := v / 0x100_0000 % 0x100]
  }

  lemma WordWritten(b: Block, k: int, v: int, j: int)
    requires |b| == BSIZE && 0 <= k < NINDIRECT && 0 <= j < NINDIRECT && 0 <= v < UINT
    ensures Word(WithWord(b, k, v), j) == if j == k then v else Word(b, j)
  {
    FourBytes(v);
  }

  /** The word is the number that the four bytes make, least significant first. */
  lemma WordIsValue(b: Block, k: int)
    requires |b| == BSIZE && 0 <= k < NINDIRECT
    ensures Word(b, k) == Words.Value(b[4 * k..4 * k + 4]) && 0 <= Word(b, k) < UINT
  {
    FourValue(b[4 * k], b[4 * k + 1], b[4 * k + 2], b[4 * k + 3]);
    assert b[4 * k..4 * k + 4] == [b[4 * k], b[4 * k + 1], b[4 * k + 2], b[4 * k + 3]];
  }

  lemma FourValue(x0: Byte, x1: Byte, x2: Byte, x3: Byte)
    ensures Words.Value([x0, x1, x2, x3]) == x0 + 0x100 * x1 + 0x1_0000 * x2 + 0x100_0000 * x3
  {
    var none: seq<Byte> := [];
    assert [x3][1..] == none && Words.Value(none) == 0;
    assert Words.Value([x3]) == x3;
    assert [x2, x3][1..] == [x3];
    assert Words.Value([x2, x3]) == x2 + 0x100 * x3;
    assert [x1, x2, x3][1..] == [x2, x3];
    assert Words.Value([x1, x2, x3]) == x1 + 0x100 * (x2 + 0x100 * x3);
    assert [x0, x1, x2, x3][1..] == [x1, x2, x3];
  }

  lemma FourBytes(v: int)
    requires 0 <= v < UINT
    ensures v == v % 0x100 + 0x100 * (v / 0x100 % 0x100) + 0x1_0000 * (v / 0x1_0000 % 0x100) + 0x100_0000 * (v / 0x100_0000 % 0x100)
  {
    assert v / 0x1_0000 == v / 0x100 / 0x100 && v / 0x100_0000 == v / 0x100 / 0x100 / 0x100;
  }

  // ----- Bits

  function Mask(k: int): bv8 {
    match k case 0 => 1 case 1 => 2 case 2 => 4 case 3 => 8 case 4 => 16 case 5 => 32 case 6 => 64 case _ => 128
  }

  predicate Bit(bitmap: seq<bv8>, b: int)
    requires 0 <= b < 8 * |bitmap|
  {
    bitmap[b / 8] & Mask(b % 8) != 0
  }

  /** Block b is bit b % 8 of its byte, counted from the least significant. */
  lemma BitPlace(bitmap: seq<bv8>, b: int)
    requires 0 <= b < 8 * |bitmap|
    ensures Bit(bitmap, b) <==> (bitmap[b / 8] >> (b % 8)) & 1 == 1
  {
    MaskIs(bitmap[b / 8], b % 8);
  }

  lemma MaskIs(x: bv8, k: int)
    requires 0 <= k < 8
    ensures x & Mask(k) != 0 <==> (x >> k) & 1 == 1
  {
    match k
    case 0 =>
    case 1 =>
    case 2 =>
    case 3 =>
    case 4 =>
    case 5 =>
    case 6 =>
    case _ =>
  }

  lemma MaskSet(x: bv8, k: int, j: int)
    requires 0 <= k < 8 && 0 <= j < 8
    ensures (x | Mask(k)) & Mask(j) != 0 <==> j == k || x & Mask(j) != 0
    ensures (x & !Mask(k)) & Mask(j) != 0 <==> j != k && x & Mask(j) != 0
  {
  }

  // ----- The state

  type Roles = seq<Role>

  ghost predicate IsRole(roles: Roles, b: int, r: Role) { 0 <= b < |roles| && roles[b] == r }

  ghost predicate DataOk(data: seq<Block>) {
    forall b {:trigger data[b]} :: 0 <= b < |data| ==> |data[b]| == BSIZE
  }

  /** Where block n of file i is, 0 if nowhere. */
  ghost function Where(inodes: seq<Inode>, data: seq<Block>, i: int, n: int): int
    requires 0 <= i < |inodes| && |inodes[i].addrs| == NDIRECT + 1 && 0 <= n < MAXFILE && DataOk(data)
  {
    if n < NDIRECT then inodes[i].addrs[n]
    else if 0 < inodes[i].addrs[NDIRECT] < |data| then Word(data[inodes[i].addrs[NDIRECT]], n - NDIRECT)
    else 0
  }

  /** The blocks of a file of that size. */
  function Blocks(size: int): int { (size + BSIZE - 1) / BSIZE }

  /** They hold it, and one fewer would not. */
  lemma BlocksHold(size: int)
    ensures BSIZE * (Blocks(size) - 1) < size <= BSIZE * Blocks(size)
  {
  }

  ghost predicate AddrOk(inodes: seq<Inode>, roles: Roles, i: int, k: int)
    requires 0 <= i < |inodes| && 0 <= k < |inodes[i].addrs|
  {
    inodes[i].addrs[k] != 0 ==> IsRole(roles, inodes[i].addrs[k], if k < NDIRECT then Direct(i, k) else Indirect(i))
  }

  ghost predicate InodeOk(inodes: seq<Inode>, data: seq<Block>, roles: Roles, i: int)
    requires 0 <= i < |inodes| && DataOk(data)
  {
    && |inodes[i].addrs| == NDIRECT + 1 && 0 <= inodes[i].size <= MAXFILE * BSIZE
    && (forall k {:trigger AddrOk(inodes, roles, i, k)} :: 0 <= k <= NDIRECT ==> AddrOk(inodes, roles, i, k))
    && (forall n {:trigger HasBlock(inodes, data, i, n)} :: 0 <= n < Blocks(inodes[i].size) ==> HasBlock(inodes, data, i, n))
  }

  ghost predicate HasBlock(inodes: seq<Inode>, data: seq<Block>, i: int, n: int)
    requires 0 <= i < |inodes| && |inodes[i].addrs| == NDIRECT + 1 && 0 <= n < MAXFILE && DataOk(data)
  {
    Where(inodes, data, i, n) != 0
  }

  ghost predicate HasInode(inodes: seq<Inode>, i: int) { 0 <= i < |inodes| && |inodes[i].addrs| == NDIRECT + 1 }

  /** A block is where its role says, and an indirect block's entries are the file's. */
  ghost predicate BlockOk(inodes: seq<Inode>, data: seq<Block>, roles: Roles, b: int)
    requires 0 <= b < |roles| && |data| == |roles| && DataOk(data)
  {
    match roles[b]
    case Direct(i, k) => HasInode(inodes, i) && 0 <= k < NDIRECT && inodes[i].addrs[k] == b
    case Indirect(i) => HasInode(inodes, i) && inodes[i].addrs[NDIRECT] == b && EntriesOk(data, roles, i, b)
    case Entry(i, k) => HasInode(inodes, i) && 0 <= k < NINDIRECT && IsRole(roles, inodes[i].addrs[NDIRECT], Indirect(i)) && Word(data[inodes[i].addrs[NDIRECT]], k) == b
    case _ => true
  }

  ghost predicate EntriesOk(data: seq<Block>, roles: Roles, i: int, b: int)
    requires 0 <= b < |data| && DataOk(data)
  {
    forall k {:trigger Word(data[b], k)} :: 0 <= k < NINDIRECT && Word(data[b], k) != 0 ==> IsRole(roles, Word(data[b], k), Entry(i, k))
  }

  /** Every block has one use and is where that use says. */
  ghost predicate AllOk(inodes: seq<Inode>, data: seq<Block>, roles: Roles) {
    && |data| == |roles| <= UINT && DataOk(data) && IsRole(roles, 0, Meta)
    && (forall i {:trigger InodeOk(inodes, data, roles, i)} :: 0 <= i < |inodes| ==> InodeOk(inodes, data, roles, i))
    && (forall b {:trigger BlockOk(inodes, data, roles, b)} :: 0 <= b < |roles| ==> BlockOk(inodes, data, roles, b))
  }

  /** A bit is set exactly for the blocks that are in use. */
  ghost predicate BitmapOk(bitmap: seq<bv8>, roles: Roles) {
    8 * |bitmap| >= |roles| && forall b {:trigger Bit(bitmap, b)} {:trigger roles[b]} :: 0 <= b < |roles| ==> (Bit(bitmap, b) <==> !roles[b].Free?)
  }

  lemma Whereabouts(inodes: seq<Inode>, data: seq<Block>, roles: Roles, i: int, n: int)
    requires AllOk(inodes, data, roles) && 0 <= i < |inodes| && 0 <= n < MAXFILE
    ensures HasInode(inodes, i)
    ensures var b := Where(inodes, data, i, n);
      b != 0 ==> IsRole(roles, b, if n < NDIRECT then Direct(i, n) else Entry(i, n - NDIRECT))
  {
    assert InodeOk(inodes, data, roles, i);
    if n < NDIRECT {
      assert AddrOk(inodes, roles, i, n);
    } else {
      assert AddrOk(inodes, roles, i, NDIRECT);
      var a := inodes[i].addrs[NDIRECT];
      if 0 < a < |data| {
        assert BlockOk(inodes, data, roles, a);
      }
    }
  }

  // ----- Bytes of files

  const MAXBYTES := MAXFILE * BSIZE

  /** Byte p of file i, 0 where there is no block. */
  ghost function FileByte(inodes: seq<Inode>, data: seq<Block>, i: int, p: int): Byte
    requires 0 <= i < |inodes| && |inodes[i].addrs| == NDIRECT + 1 && 0 <= p < MAXBYTES && DataOk(data)
  {
    var b := Where(inodes, data, i, p / BSIZE);
    if 0 < b < |data| then data[b][p % BSIZE] else 0
  }

  /** The first 6144 bytes are in the blocks that the inode names, 512 in each, and the others in those whose numbers stand in the indirect block. */
  lemma ByteIsAt(inodes: seq<Inode>, data: seq<Block>, i: int, p: int, b: int)
    requires 0 <= i < |inodes| && |inodes[i].addrs| == NDIRECT + 1 && 0 <= p < MAXBYTES && DataOk(data)
    requires var a := inodes[i].addrs[12];
      if p < 6144 then b == inodes[i].addrs[p / 512]
      else 0 < a < |data| && b == Words.Value(data[a][4 * (p / 512 - 12)..4 * (p / 512 - 12) + 4])
    ensures FileByte(inodes, data, i, p) == if 0 < b < |data| then data[b][p % 512] else 0
  {
    if p >= 6144 {
      WordIsValue(data[inodes[i].addrs[12]], p / 512 - 12);
    }
    hide Word, Words.Value;
  }

  /** The contents of a file. */
  ghost function Content(inodes: seq<Inode>, data: seq<Block>, i: int): (c: seq<Byte>)
    requires 0 <= i < |inodes| && |inodes[i].addrs| == NDIRECT + 1 && 0 <= inodes[i].size <= MAXBYTES && DataOk(data)
    ensures |c| == inodes[i].size
  {
    seq(inodes[i].size, p requires 0 <= p < inodes[i].size => FileByte(inodes, data, i, p))
  }

  /** Every file has the same inode shape and the same bytes. */
  ghost predicate SameBytes(ns0: seq<Inode>, ds0: seq<Block>, ns1: seq<Inode>, ds1: seq<Block>) {
    && DataOk(ds0) && DataOk(ds1) && |ns1| == |ns0|
    && forall j, p {:trigger SameByte(ns0, ds0, ns1, ds1, j, p)} :: HasInode(ns0, j) && HasInode(ns1, j) && 0 <= p < MAXBYTES ==> SameByte(ns0, ds0, ns1, ds1, j, p)
  }

  ghost predicate SameByte(ns0: seq<Inode>, ds0: seq<Block>, ns1: seq<Inode>, ds1: seq<Block>, j: int, p: int)
    requires HasInode(ns0, j) && HasInode(ns1, j) && 0 <= p < MAXBYTES && DataOk(ds0) && DataOk(ds1)
  {
    FileByte(ns1, ds1, j, p) == FileByte(ns0, ds0, j, p)
  }

  // ----- balloc for a slot of a file

  /** Only where block n of file i is has changed, from nowhere to the zeroed block b. */
  ghost predicate Gained(ns0: seq<Inode>, ds0: seq<Block>, ns1: seq<Inode>, ds1: seq<Block>, i: int, n: int, b: int) {
    && DataOk(ds0) && DataOk(ds1) && |ns1| == |ns0| && |ds1| == |ds0|
    && (forall j, m {:trigger GainedAt(ns0, ds0, ns1, ds1, i, n, b, j, m)} :: HasInode(ns0, j) && HasInode(ns1, j) && 0 <= m < MAXFILE ==> GainedAt(ns0, ds0, ns1, ds1, i, n, b, j, m))
    && 0 < b < |ds1| && ds1[b] == Words.Zeros(BSIZE)
  }

  ghost predicate GainedAt(ns0: seq<Inode>, ds0: seq<Block>, ns1: seq<Inode>, ds1: seq<Block>, i: int, n: int, b: int, j: int, m: int)
    requires HasInode(ns0, j) && HasInode(ns1, j) && 0 <= m < MAXFILE && DataOk(ds0) && DataOk(ds1)
  {
    var was, now := Where(ns0, ds0, j, m), Where(ns1, ds1, j, m);
    if j == i && m == n then was == 0 && now == b
    else now == was && (0 < was < |ds0| && was < |ds1| ==> ds1[was] == ds0[was])
  }

  /** So no byte of any file has changed. */
  lemma GainedBytes(ns0: seq<Inode>, ds0: seq<Block>, ns1: seq<Inode>, ds1: seq<Block>, i: int, n: int, b: int)
    requires Gained(ns0, ds0, ns1, ds1, i, n, b)
    ensures SameBytes(ns0, ds0, ns1, ds1)
  {
    forall j, p {:trigger SameByte(ns0, ds0, ns1, ds1, j, p)} | HasInode(ns0, j) && HasInode(ns1, j) && 0 <= p < MAXBYTES
      ensures SameByte(ns0, ds0, ns1, ds1, j, p)
    {
      assert GainedAt(ns0, ds0, ns1, ds1, i, n, b, j, p / BSIZE);
    }
  }

  ghost function WithAddr(inodes: seq<Inode>, i: int, k: int, b: int): seq<Inode>
    requires HasInode(inodes, i) && 0 <= k <= NDIRECT
  {
    inodes[i := inodes[i].(addrs := inodes[i].addrs[k := b])]
  }

  /** A file whose inode and blocks keep their places keeps its shape. */
  lemma InodeKept(inodes: seq<Inode>, data: seq<Block>, roles: Roles, ns: seq<Inode>, ds: seq<Block>, rs: Roles, j: int)
    requires AllOk(inodes, data, roles) && 0 <= j < |inodes| == |ns| && DataOk(ds)
    requires HasInode(ns, j) && ns[j].size == inodes[j].size && HasInode(inodes, j)
    requires forall l {:trigger AddrOk(ns, rs, j, l)} :: 0 <= l <= NDIRECT ==> AddrOk(ns, rs, j, l)
    requires forall m {:trigger Where(ns, ds, j, m)} :: 0 <= m < MAXFILE && Where(inodes, data, j, m) != 0 ==> Where(ns, ds, j, m) != 0
    ensures InodeOk(ns, ds, rs, j)
  {
    assert InodeOk(inodes, data, roles, j);
    forall n {:trigger HasBlock(ns, ds, j, n)} | 0 <= n < Blocks(ns[j].size)
      ensures HasBlock(ns, ds, j, n)
    {
      assert HasBlock(inodes, data, j, n);
      assert Where(ns, ds, j, n) != 0;
    }
  }

  lemma DirectGained(inodes: seq<Inode>, data: seq<Block>, roles: Roles, i: int, k: int, b: int)
    requires AllOk(inodes, data, roles) && HasInode(inodes, i) && 0 <= k < NDIRECT && IsRole(roles, b, Free) && inodes[i].addrs[k] == 0
    ensures Gained(inodes, data, WithAddr(inodes, i, k, b), data[b := Words.Zeros(BSIZE)], i, k, b)
  {
    var ns, ds := WithAddr(inodes, i, k, b), data[b := Words.Zeros(BSIZE)];
    forall j, m {:trigger GainedAt(inodes, data, ns, ds, i, k, b, j, m)} | HasInode(inodes, j) && HasInode(ns, j) && 0 <= m < MAXFILE
      ensures GainedAt(inodes, data, ns, ds, i, k, b, j, m)
    {
      Whereabouts(inodes, data, roles, j, m);
      assert InodeOk(inodes, data, roles, j) && AddrOk(inodes, roles, j, NDIRECT);
    }
  }

  /** A direct slot gets a block. */
  lemma DirectAdded(inodes: seq<Inode>, data: seq<Block>, roles: Roles, i: int, k: int, b: int)
    requires AllOk(inodes, data, roles) && HasInode(inodes, i) && 0 <= k < NDIRECT && IsRole(roles, b, Free) && inodes[i].addrs[k] == 0
    ensures AllOk(WithAddr(inodes, i, k, b), data[b := Words.Zeros(BSIZE)], roles[b := Direct(i, k)])
    ensures Gained(inodes, data, WithAddr(inodes, i, k, b), data[b := Words.Zeros(BSIZE)], i, k, b)
  {
    var ns, ds, rs := WithAddr(inodes, i, k, b), data[b := Words.Zeros(BSIZE)], roles[b := Direct(i, k)];
    DirectGained(inodes, data, roles, i, k, b);
    forall j {:trigger InodeOk(ns, ds, rs, j)} | 0 <= j < |ns|
      ensures InodeOk(ns, ds, rs, j)
    {
      assert InodeOk(inodes, data, roles, j);
      forall l {:trigger AddrOk(ns, rs, j, l)} | 0 <= l <= NDIRECT
        ensures AddrOk(ns, rs, j, l)
      {
        assert AddrOk(inodes, roles, j, l);
      }
      forall m {:trigger Where(ns, ds, j, m)} | 0 <= m < MAXFILE && Where(inodes, data, j, m) != 0
        ensures Where(ns, ds, j, m) != 0
      {
        assert GainedAt(inodes, data, ns, ds, i, k, b, j, m);
      }
      InodeKept(inodes, data, roles, ns, ds, rs, j);
    }
    forall c {:trigger BlockOk(ns, ds, rs, c)} | 0 <= c < |rs|
      ensures BlockOk(ns, ds, rs, c)
    {
      assert BlockOk(inodes, data, roles, c);
    }
  }

  /** A file gets an indirect block, which has no entries yet. */
  lemma IndirectAdded(inodes: seq<Inode>, data: seq<Block>, roles: Roles, i: int, b: int)
    requires AllOk(inodes, data, roles) && HasInode(inodes, i) && IsRole(roles, b, Free) && inodes[i].addrs[NDIRECT] == 0
    ensures AllOk(WithAddr(inodes, i, NDIRECT, b), data[b := Words.Zeros(BSIZE)], roles[b := Indirect(i)])
    ensures WhereKept(inodes, data, WithAddr(inodes, i, NDIRECT, b), data[b := Words.Zeros(BSIZE)])
  {
    var ns, ds, rs := WithAddr(inodes, i, NDIRECT, b), data[b := Words.Zeros(BSIZE)], roles[b := Indirect(i)];
    forall j, m {:trigger KeptAt(inodes, data, ns, ds, j, m)} | HasInode(inodes, j) && HasInode(ns, j) && 0 <= m < MAXFILE
      ensures KeptAt(inodes, data, ns, ds, j, m)
    {
      Whereabouts(inodes, data, roles, j, m);
      assert InodeOk(inodes, data, roles, j) && AddrOk(inodes, roles, j, NDIRECT);
    }
    forall j {:trigger InodeOk(ns, ds, rs, j)} | 0 <= j < |ns|
      ensures InodeOk(ns, ds, rs, j)
    {
      assert InodeOk(inodes, data, roles, j);
      forall l {:trigger AddrOk(ns, rs, j, l)} | 0 <= l <= NDIRECT
        ensures AddrOk(ns, rs, j, l)
      {
        assert AddrOk(inodes, roles, j, l);
      }
      forall m {:trigger Where(ns, ds, j, m)} | 0 <= m < MAXFILE && Where(inodes, data, j, m) != 0
        ensures Where(ns, ds, j, m) != 0
      {
        assert KeptAt(inodes, data, ns, ds, j, m);
      }
      InodeKept(inodes, data, roles, ns, ds, rs, j);
    }
    forall c {:trigger BlockOk(ns, ds, rs, c)} | 0 <= c < |rs|
      ensures BlockOk(ns, ds, rs, c)
    {
      assert BlockOk(inodes, data, roles, c);
    }
  }

  /** Every block of every file is where it was, with the data it had. */
  ghost predicate WhereKept(ns0: seq<Inode>, ds0: seq<Block>, ns1: seq<Inode>, ds1: seq<Block>) {
    && DataOk(ds0) && DataOk(ds1) && |ns1| == |ns0| && |ds1| == |ds0|
    && forall j, m {:trigger KeptAt(ns0, ds0, ns1, ds1, j, m)} :: HasInode(ns0, j) && HasInode(ns1, j) && 0 <= m < MAXFILE ==> KeptAt(ns0, ds0, ns1, ds1, j, m)
  }

  ghost predicate KeptAt(ns0: seq<Inode>, ds0: seq<Block>, ns1: seq<Inode>, ds1: seq<Block>, j: int, m: int)
    requires HasInode(ns0, j) && HasInode(ns1, j) && 0 <= m < MAXFILE && DataOk(ds0) && DataOk(ds1)
  {
    var was, now := Where(ns0, ds0, j, m), Where(ns1, ds1, j, m);
    now == was && (0 < was < |ds0| && was < |ds1| ==> ds1[was] == ds0[was])
  }

  lemma EntryGained(inodes: seq<Inode>, data: seq<Block>, roles: Roles, i: int, k: int, a: int, b: int)
    requires AllOk(inodes, data, roles) && HasInode(inodes, i) && 0 <= k < NINDIRECT && IsRole(roles, b, Free)
    requires a == inodes[i].addrs[NDIRECT] && 0 < a < |data| && Word(data[a], k) == 0
    ensures a != b && Gained(inodes, data, inodes, data[b := Words.Zeros(BSIZE)][a := WithWord(data[a], k, b)], i, NDIRECT + k, b)
  {
    assert InodeOk(inodes, data, roles, i) && AddrOk(inodes, roles, i, NDIRECT);
    var ds := data[b := Words.Zeros(BSIZE)][a := WithWord(data[a], k, b)];
    forall j, m {:trigger GainedAt(inodes, data, inodes, ds, i, NDIRECT + k, b, j, m)} | HasInode(inodes, j) && 0 <= m < MAXFILE
      ensures GainedAt(inodes, data, inodes, ds, i, NDIRECT + k, b, j, m)
    {
      Whereabouts(inodes, data, roles, j, m);
      assert InodeOk(inodes, data, roles, j) && AddrOk(inodes, roles, j, NDIRECT);
      if m >= NDIRECT {
        WordWritten(data[a], k, b, m - NDIRECT);
      }
    }
  }

  /** An indirect entry gets a block. */
  lemma EntryAdded(inodes: seq<Inode>, data: seq<Block>, roles: Roles, i: int, k: int, a: int, b: int)
    requires AllOk(inodes, data, roles) && HasInode(inodes, i) && 0 <= k < NINDIRECT && IsRole(roles, b, Free)
    requires a == inodes[i].addrs[NDIRECT] && 0 < a < |data| && Word(data[a], k) == 0
    ensures a != b && AllOk(inodes, data[b := Words.Zeros(BSIZE)][a := WithWord(data[a], k, b)], roles[b := Entry(i, k)])
    ensures Gained(inodes, data, inodes, data[b := Words.Zeros(BSIZE)][a := WithWord(data[a], k, b)], i, NDIRECT + k, b)
  {
    EntryGained(inodes, data, roles, i, k, a, b);
    var ds, rs := data[b := Words.Zeros(BSIZE)][a := WithWord(data[a], k, b)], roles[b := Entry(i, k)];
    assert InodeOk(inodes, data, roles, i) && AddrOk(inodes, roles, i, NDIRECT);
    forall j {:trigger InodeOk(inodes, ds, rs, j)} | 0 <= j < |inodes|
      ensures InodeOk(inodes, ds, rs, j)
    {
      assert InodeOk(inodes, data, roles, j);
      forall l {:trigger AddrOk(inodes, rs, j, l)} | 0 <= l <= NDIRECT
        ensures AddrOk(inodes, rs, j, l)
      {
        assert AddrOk(inodes, roles, j, l);
      }
      forall m {:trigger Where(inodes, ds, j, m)} | 0 <= m < MAXFILE && Where(inodes, data, j, m) != 0
        ensures Where(inodes, ds, j, m) != 0
      {
        assert GainedAt(inodes, data, inodes, ds, i, NDIRECT + k, b, j, m);
      }
      InodeKept(inodes, data, roles, inodes, ds, rs, j);
    }
    forall c {:trigger BlockOk(inodes, ds, rs, c)} | 0 <= c < |rs|
      ensures BlockOk(inodes, ds, rs, c)
    {
      EntryBlockOk(inodes, data, roles, i, k, a, b, c);
    }
  }

  lemma EntryBlockOk(inodes: seq<Inode>, data: seq<Block>, roles: Roles, i: int, k: int, a: int, b: int, c: int)
    requires AllOk(inodes, data, roles) && HasInode(inodes, i) && 0 <= k < NINDIRECT && IsRole(roles, b, Free)
    requires a == inodes[i].addrs[NDIRECT] && IsRole(roles, a, Indirect(i)) && a != b && Word(data[a], k) == 0 && 0 <= c < |roles|
    ensures BlockOk(inodes, data[b := Words.Zeros(BSIZE)][a := WithWord(data[a], k, b)], roles[b := Entry(i, k)], c)
  {
    var ds, rs := data[b := Words.Zeros(BSIZE)][a := WithWord(data[a], k, b)], roles[b := Entry(i, k)];
    assert BlockOk(inodes, data, roles, c) && BlockOk(inodes, data, roles, a);
    WordWritten(data[a], k, b, k);
    if roles[c].Entry? {
      WordWritten(data[a], k, b, roles[c].k);
    }
    if c == a {
      forall l {:trigger Word(ds[a], l)} | 0 <= l < NINDIRECT && Word(ds[a], l) != 0
        ensures IsRole(rs, Word(ds[a], l), Entry(i, l))
      {
        WordWritten(data[a], k, b, l);
        assert Word(data[a], l) != 0 ==> IsRole(roles, Word(data[a], l), Entry(i, l));
      }
    }
  }

  // ----- writei: the data of a block

  /** Data blocks hold no structure, so their bytes may change freely. */
  lemma DataWritten(inodes: seq<Inode>, data: seq<Block>, roles: Roles, i: int, n: int, blk: Block)
    requires AllOk(inodes, data, roles) && HasInode(inodes, i) && 0 <= n < MAXFILE && |blk| == BSIZE
    requires 0 < Where(inodes, data, i, n) < |data|
    ensures AllOk(inodes, data[Where(inodes, data, i, n) := blk], roles)
    ensures forall j, m {:trigger Where(inodes, data[Where(inodes, data, i, n) := blk], j, m)} :: HasInode(inodes, j) && 0 <= m < MAXFILE ==>
      Where(inodes, data[Where(inodes, data, i, n) := blk], j, m) == Where(inodes, data, j, m)
    ensures forall j, p {:trigger FileByte(inodes, data[Where(inodes, data, i, n) := blk], j, p)} :: HasInode(inodes, j) && 0 <= p < MAXBYTES ==>
      FileByte(inodes, data[Where(inodes, data, i, n) := blk], j, p) == if j == i && p / BSIZE == n then blk[p % BSIZE] else FileByte(inodes, data, j, p)
  {
    var b := Where(inodes, data, i, n);
    var ds := data[b := blk];
    Whereabouts(inodes, data, roles, i, n);
    forall j, m | HasInode(inodes, j) && 0 <= m < MAXFILE
      ensures Where(inodes, ds, j, m) == Where(inodes, data, j, m) && (Where(inodes, data, j, m) == b ==> j == i && m == n)
    {
      Whereabouts(inodes, data, roles, j, m);
      assert InodeOk(inodes, data, roles, j) && AddrOk(inodes, roles, j, NDIRECT);
    }
    forall j {:trigger InodeOk(inodes, ds, roles, j)} | 0 <= j < |inodes|
      ensures InodeOk(inodes, ds, roles, j)
    {
      assert InodeOk(inodes, data, roles, j);
      forall l {:trigger AddrOk(inodes, roles, j, l)} | 0 <= l <= NDIRECT
        ensures AddrOk(inodes, roles, j, l)
      {
      }
      InodeKept(inodes, data, roles, inodes, ds, roles, j);
    }
    forall c {:trigger BlockOk(inodes, ds, roles, c)} | 0 <= c < |roles|
      ensures BlockOk(inodes, ds, roles, c)
    {
      assert BlockOk(inodes, data, roles, c);
      if roles[c].Entry? {
        assert BlockOk(inodes, data, roles, inodes[roles[c].i].addrs[NDIRECT]);
      }
    }
  }

  // ----- itrunc: slots are given up, the file's size being taken as 0

  lemma DirectDropped(inodes: seq<Inode>, data: seq<Block>, roles: Roles, i: int, k: int, b: int)
    requires AllOk(inodes, data, roles) && HasInode(inodes, i) && inodes[i].size == 0 && 0 <= k < NDIRECT && inodes[i].addrs[k] == b != 0
    ensures IsRole(roles, b, Direct(i, k)) && AllOk(WithAddr(inodes, i, k, 0), data, roles[b := Free])
  {
    assert InodeOk(inodes, data, roles, i) && AddrOk(inodes, roles, i, k);
    var ns, rs := WithAddr(inodes, i, k, 0), roles[b := Free];
    forall j {:trigger InodeOk(ns, data, rs, j)} | 0 <= j < |ns|
      ensures InodeOk(ns, data, rs, j)
    {
      assert InodeOk(inodes, data, roles, j);
      forall l {:trigger AddrOk(ns, rs, j, l)} | 0 <= l <= NDIRECT
        ensures AddrOk(ns, rs, j, l)
      {
        assert AddrOk(inodes, roles, j, l);
      }
      forall n {:trigger HasBlock(ns, data, j, n)} | 0 <= n < Blocks(ns[j].size)
        ensures HasBlock(ns, data, j, n)
      {
        assert HasBlock(inodes, data, j, n);
      }
    }
    forall c {:trigger BlockOk(ns, data, rs, c)} | 0 <= c < |rs|
      ensures BlockOk(ns, data, rs, c)
    {
      assert BlockOk(inodes, data, roles, c);
    }
  }

  /** An entry of the indirect block is taken out, in a view of the data where it is zero. */
  lemma EntryDropped(inodes: seq<Inode>, data: seq<Block>, roles: Roles, i: int, k: int, a: int, b: int)
    requires AllOk(inodes, data, roles) && HasInode(inodes, i) && inodes[i].size == 0 && 0 <= k < NINDIRECT
    requires a == inodes[i].addrs[NDIRECT] != 0 && 0 < a < |data| && Word(data[a], k) == b != 0
    ensures IsRole(roles, b, Entry(i, k)) && AllOk(inodes, data[a := WithWord(data[a], k, 0)], roles[b := Free])
  {
    assert InodeOk(inodes, data, roles, i) && AddrOk(inodes, roles, i, NDIRECT);
    assert BlockOk(inodes, data, roles, a);
    var ds, rs := data[a := WithWord(data[a], k, 0)], roles[b := Free];
    forall j {:trigger InodeOk(inodes, ds, rs, j)} | 0 <= j < |inodes|
      ensures InodeOk(inodes, ds, rs, j)
    {
      assert InodeOk(inodes, data, roles, j) && AddrOk(inodes, roles, j, NDIRECT);
      forall l {:trigger AddrOk(inodes, rs, j, l)} | 0 <= l <= NDIRECT
        ensures AddrOk(inodes, rs, j, l)
      {
        assert AddrOk(inodes, roles, j, l);
      }
      forall n {:trigger HasBlock(inodes, ds, j, n)} | 0 <= n < Blocks(inodes[j].size)
        ensures HasBlock(inodes, ds, j, n)
      {
        assert HasBlock(inodes, data, j, n);
      }
    }
    forall c {:trigger BlockOk(inodes, ds, rs, c)} | 0 <= c < |rs|
      ensures BlockOk(inodes, ds, rs, c)
    {
      DroppedBlockOk(inodes, data, roles, i, k, a, b, c);
    }
  }

  lemma DroppedBlockOk(inodes: seq<Inode>, data: seq<Block>, roles: Roles, i: int, k: int, a: int, b: int, c: int)
    requires AllOk(inodes, data, roles) && HasInode(inodes, i) && 0 <= k < NINDIRECT && 0 <= c < |roles|
    requires a == inodes[i].addrs[NDIRECT] && IsRole(roles, a, Indirect(i)) && Word(data[a], k) == b && IsRole(roles, b, Entry(i, k))
    ensures BlockOk(inodes, data[a := WithWord(data[a], k, 0)], roles[b := Free], c)
  {
    var ds, rs := data[a := WithWord(data[a], k, 0)], roles[b := Free];
    assert BlockOk(inodes, data, roles, c) && BlockOk(inodes, data, roles, a);
    if roles[c].Entry? {
      WordWritten(data[a], k, 0, roles[c].k);
    }
    if c == a {
      forall l {:trigger Word(ds[a], l)} | 0 <= l < NINDIRECT && Word(ds[a], l) != 0
        ensures IsRole(rs, Word(ds[a], l), Entry(i, l))
      {
        WordWritten(data[a], k, 0, l);
        assert Word(data[a], l) != 0 ==> IsRole(roles, Word(data[a], l), Entry(i, l));
      }
    }
  }

  /** An indirect block without entries is given up. */
  lemma IndirectDropped(inodes: seq<Inode>, data: seq<Block>, roles: Roles, i: int, a: int)
    requires AllOk(inodes, data, roles) && HasInode(inodes, i) && inodes[i].size == 0 && inodes[i].addrs[NDIRECT] == a != 0
    requires 0 < a < |data| && forall k {:trigger Word(data[a], k)} :: 0 <= k < NINDIRECT ==> Word(data[a], k) == 0
    ensures IsRole(roles, a, Indirect(i)) && AllOk(WithAddr(inodes, i, NDIRECT, 0), data, roles[a := Free])
  {
    assert InodeOk(inodes, data, roles, i) && AddrOk(inodes, roles, i, NDIRECT);
    var ns, rs := WithAddr(inodes, i, NDIRECT, 0), roles[a := Free];
    forall j {:trigger InodeOk(ns, data, rs, j)} | 0 <= j < |ns|
      ensures InodeOk(ns, data, rs, j)
    {
      assert InodeOk(inodes, data, roles, j);
      forall l {:trigger AddrOk(ns, rs, j, l)} | 0 <= l <= NDIRECT
        ensures AddrOk(ns, rs, j, l)
      {
        assert AddrOk(inodes, roles, j, l);
      }
      forall n {:trigger HasBlock(ns, data, j, n)} | 0 <= n < Blocks(ns[j].size)
        ensures HasBlock(ns, data, j, n)
      {
        assert HasBlock(inodes, data, j, n);
      }
    }
    forall c {:trigger BlockOk(ns, data, rs, c)} | 0 <= c < |rs|
      ensures BlockOk(ns, data, rs, c)
    {
      assert BlockOk(inodes, data, roles, c);
    }
  }

  /** What the blocks that belong to no file hold does not matter. */
  lemma OtherData(inodes: seq<Inode>, ds: seq<Block>, data: seq<Block>, roles: Roles)
    requires AllOk(inodes, ds, roles) && |data| == |ds| && DataOk(data)
    requires forall b {:trigger data[b]} :: 0 <= b < |data| && !roles[b].Free? && !roles[b].Meta? ==> data[b] == ds[b]
    ensures AllOk(inodes, data, roles)
    ensures forall j, n {:trigger Where(inodes, data, j, n)} :: HasInode(inodes, j) && 0 <= n < MAXFILE ==> Where(inodes, data, j, n) == Where(inodes, ds, j, n)
  {
    forall j, n {:trigger Where(inodes, data, j, n)} | HasInode(inodes, j) && 0 <= n < MAXFILE
      ensures Where(inodes, data, j, n) == Where(inodes, ds, j, n)
    {
      assert InodeOk(inodes, ds, roles, j) && AddrOk(inodes, roles, j, NDIRECT);
    }
    forall j {:trigger InodeOk(inodes, data, roles, j)} | 0 <= j < |inodes|
      ensures InodeOk(inodes, data, roles, j)
    {
      assert InodeOk(inodes, ds, roles, j);
      forall n {:trigger HasBlock(inodes, data, j, n)} | 0 <= n < Blocks(inodes[j].size)
        ensures HasBlock(inodes, data, j, n)
      {
        assert HasBlock(inodes, ds, j, n);
      }
    }
    forall c {:trigger BlockOk(inodes, data, roles, c)} | 0 <= c < |roles|
      ensures BlockOk(inodes, data, roles, c)
    {
      assert BlockOk(inodes, ds, roles, c);
    }
  }

  /** Giving a file a smaller size asks for less. */
  lemma SizeCut(inodes: seq<Inode>, data: seq<Block>, roles: Roles, i: int)
    requires AllOk(inodes, data, roles) && HasInode(inodes, i)
    ensures AllOk(inodes[i := inodes[i].(size := 0)], data, roles)
  {
    var ns := inodes[i := inodes[i].(size := 0)];
    forall j {:trigger InodeOk(ns, data, roles, j)} | 0 <= j < |ns|
      ensures InodeOk(ns, data, roles, j)
    {
      assert InodeOk(inodes, data, roles, j);
      forall l {:trigger AddrOk(ns, roles, j, l)} | 0 <= l <= NDIRECT
        ensures AddrOk(ns, roles, j, l)
      {
        assert AddrOk(inodes, roles, j, l);
      }
      forall n {:trigger HasBlock(ns, data, j, n)} | 0 <= n < Blocks(ns[j].size)
        ensures HasBlock(ns, data, j, n)
      {
        assert HasBlock(inodes, data, j, n);
      }
    }
    forall c {:trigger BlockOk(ns, data, roles, c)} | 0 <= c < |roles|
      ensures BlockOk(ns, data, roles, c)
    {
      assert BlockOk(inodes, data, roles, c);
    }
  }

  /** A larger size is right once its blocks are there. */
  lemma SizeGrown(inodes: seq<Inode>, data: seq<Block>, roles: Roles, i: int, size: int)
    requires AllOk(inodes, data, roles) && HasInode(inodes, i) && 0 <= size <= MAXBYTES
    requires forall n {:trigger Where(inodes, data, i, n)} :: 0 <= n < Blocks(size) ==> Where(inodes, data, i, n) != 0
    ensures AllOk(inodes[i := inodes[i].(size := size)], data, roles)
  {
    var ns := inodes[i := inodes[i].(size := size)];
    forall j {:trigger InodeOk(ns, data, roles, j)} | 0 <= j < |ns|
      ensures InodeOk(ns, data, roles, j)
    {
      assert InodeOk(inodes, data, roles, j);
      forall l {:trigger AddrOk(ns, roles, j, l)} | 0 <= l <= NDIRECT
        ensures AddrOk(ns, roles, j, l)
      {
        assert AddrOk(inodes, roles, j, l);
      }
      forall n {:trigger HasBlock(ns, data, j, n)} | 0 <= n < Blocks(ns[j].size)
        ensures HasBlock(ns, data, j, n)
      {
        if j == i {
          assert Where(inodes, data, i, n) != 0;
        } else {
          assert HasBlock(inodes, data, j, n);
        }
      }
    }
    forall c {:trigger BlockOk(ns, data, roles, c)} | 0 <= c < |roles|
      ensures BlockOk(ns, data, roles, c)
    {
      assert BlockOk(inodes, data, roles, c);
    }
  }
}
