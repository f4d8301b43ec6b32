/**
  Files through crashes (operating-systems/xv6-OS, fs.h and log.c): what a disk
  image says of inodes, bitmap and data, and that a file operation run as a
  transaction of the log is done altogether or not at all.
 */
module FileCrashes {
  import opened CrashModel
  import opened LogLives
  import F = FileBlocks
  import B = FileBytes
  import Words

  type Byte = Words.Byte

  const INODE_WORDS := 16
  const INODES_PER_BLOCK := 8

  datatype SuperBlock = SuperBlock(ninodes: nat, inodestart: nat, bmapstart: nat)

  // ----- What the image says

  /** Byte k of a word, least significant first. */
  function ByteOf(v: int, k: int): Byte {
    (if k == 0 then v else if k == 1 then v / 0x100 else if k == 2 then v / 0x1_0000 else v / 0x100_0000) % 0x100
  }

  /** The bytes of a block; what lies beyond it reads as 0. */
  ghost function BytesOf(w: seq<int>): (r: seq<Byte>)
    ensures |r| == F.BSIZE
  {
    seq(F.BSIZE, p requires 0 <= p < F.BSIZE => if p / 4 < |w| then ByteOf(w[p / 4], p % 4) else 0)
  }

  ghost function DataOf(d: Image): (r: seq<F.Block>)
    ensures |r| == |d| && F.DataOk(r)
  {
    seq(|d|, b requires 0 <= b < |d| => BytesOf(d[b]))
  }

  ghost function WordAt(d: Image, b: int, k: int): int {
    if 0 <= b < |d| && 0 <= k < |d[b]| then d[b][k] else 0
  }

  /** Word k of the inode with number i. */
  ghost function InodeWord(d: Image, sb: SuperBlock, i: nat, k: int): int {
    WordAt(d, sb.inodestart + i / INODES_PER_BLOCK, INODE_WORDS * (i % INODES_PER_BLOCK) + k)
  }

  ghost function InodeOf(d: Image, sb: SuperBlock, i: nat): F.Inode {
    F.Inode(InodeWord(d, sb, i, 2), seq(F.NDIRECT + 1, k requires 0 <= k <= F.NDIRECT => InodeWord(d, sb, i, 3 + k)))
  }

  /** Four bytes of a block of words. */
  lemma WordInBytes(w: seq<int>, k: nat)
    requires k < F.NINDIRECT && k < |w| && 0 <= w[k] < F.UINT
    ensures Words.Value(BytesOf(w)[4 * k..4 * k + 4]) == w[k]
  {
    F.WordIsValue(BytesOf(w), k);
    F.FourBytes(w[k]);
  }

  /** Inode i is the 64 bytes at number i % 8 of block i / 8 behind inodestart: its size eight bytes in, its addresses from byte 12 on. */
  lemma InodeOnDisk(d: Image, sb: SuperBlock, i: nat, k: nat)
    requires k <= F.NDIRECT && sb.inodestart + i / 8 < |d|
    requires var w := d[sb.inodestart + i / 8]; |w| == F.NINDIRECT && forall j {:trigger w[j]} :: 0 <= j < |w| ==> 0 <= w[j] < F.UINT
    ensures var bytes, at := BytesOf(d[sb.inodestart + i / 8]), 64 * (i % 8);
      && InodeOf(d, sb, i).size == Words.Value(bytes[at + 8..at + 12])
      && InodeOf(d, sb, i).addrs[k] == Words.Value(bytes[at + 12 + 4 * k..at + 16 + 4 * k])
  {
    hide BytesOf, Words.Value, WordAt;
    InodeBytes(d[sb.inodestart + i / 8], i % 8, k);
    WordIsAt(d, sb.inodestart + i / 8, 16 * (i % 8) + 2);
    WordIsAt(d, sb.inodestart + i / 8, 16 * (i % 8) + 3 + k);
  }

  lemma WordIsAt(d: Image, b: nat, k: nat)
    requires b < |d| && k < |d[b]|
    ensures WordAt(d, b, k) == d[b][k]
  {
  }

  lemma InodeBytes(w: seq<int>, m: nat, k: nat)
    requires m < 8 && k <= F.NDIRECT && |w| == F.NINDIRECT && forall j {:trigger w[j]} :: 0 <= j < |w| ==> 0 <= w[j] < F.UINT
    ensures var bytes, at := BytesOf(w), 64 * m;
      Words.Value(bytes[at + 8..at + 12]) == w[16 * m + 2] && Words.Value(bytes[at + 12 + 4 * k..at + 16 + 4 * k]) == w[16 * m + 3 + k]
  {
    hide BytesOf, Words.Value;
    WordInBytes(w, 16 * m + 2);
    WordInBytes(w, 16 * m + 3 + k);
  }

  ghost function InodesOf(d: Image, sb: SuperBlock): (r: seq<F.Inode>)
    ensures |r| == sb.ninodes && forall i :: 0 <= i < |r| ==> r[i] == InodeOf(d, sb, i) && F.HasInode(r, i)
  {
    seq(sb.ninodes, i requires 0 <= i < sb.ninodes => InodeOf(d, sb, i))
  }

  ghost function BitmapByte(d: Image, sb: SuperBlock, k: nat): Byte {
    if sb.bmapstart + k / F.BSIZE < |d| then BytesOf(d[sb.bmapstart + k / F.BSIZE])[k % F.BSIZE] else 0
  }

  ghost function BitmapOf(d: Image, sb: SuperBlock): (r: seq<bv8>)
    ensures |r| == (|d| + 7) / 8
  {
    seq((|d| + 7) / 8, k requires 0 <= k < (|d| + 7) / 8 => BitmapByte(d, sb, k) as bv8)
  }

  /** The log lies apart from the inode blocks and the bitmap. */
  ghost predicate Apart(sb: SuperBlock, l: Layout, size: nat) {
    && (forall i: nat {:trigger i / INODES_PER_BLOCK} :: i < sb.ninodes ==> !InLog(l, sb.inodestart + i / INODES_PER_BLOCK))
    && (forall k: nat {:trigger k / F.BSIZE} :: k < (size + 7) / 8 ==> !InLog(l, sb.bmapstart + k / F.BSIZE))
  }

  /** The image is a file system in which every block has one use, the log's blocks none by a file. */
  ghost predicate FilesOk(d: Image, sb: SuperBlock, l: Layout, roles: F.Roles) {
    && F.AllOk(InodesOf(d, sb), DataOf(d), roles) && F.BitmapOk(BitmapOf(d, sb), roles) && Apart(sb, l, |d|)
    && forall b {:trigger roles[b]} :: 0 <= b < |roles| && InLog(l, b) ==> roles[b].Meta?
  }

  ghost predicate Consistent(d: Image, sb: SuperBlock, l: Layout) {
    exists roles :: FilesOk(d, sb, l, roles)
  }

  /** The bytes of the file with inode i. */
  ghost function FileOf(d: Image, sb: SuperBlock, i: nat): seq<Byte>
    requires i < sb.ninodes && 0 <= InodeOf(d, sb, i).size <= F.MAXBYTES
  {
    F.Content(InodesOf(d, sb), DataOf(d), i)
  }

  /** The same inodes, the same bitmap, and the same bytes in every file. */
  ghost predicate SameFiles(d: Image, e: Image, sb: SuperBlock) {
    && InodesOf(d, sb) == InodesOf(e, sb) && BitmapOf(d, sb) == BitmapOf(e, sb)
    && forall i: nat {:trigger InodeOf(d, sb, i)} :: i < sb.ninodes && 0 <= InodeOf(e, sb, i).size <= F.MAXBYTES ==>
      InodeOf(d, sb, i) == InodeOf(e, sb, i) && FileOf(d, sb, i) == FileOf(e, sb, i)
  }

  /** iupdate: size and addresses go to the inode's place in its block. */
  ghost function Iupdated(d: Image, sb: SuperBlock, i: nat, n: F.Inode): (r: Image)
    requires sb.inodestart + i / INODES_PER_BLOCK < |d| && |n.addrs| == F.NDIRECT + 1
  {
    var b, at := sb.inodestart + i / INODES_PER_BLOCK, INODE_WORDS * (i % INODES_PER_BLOCK);
    d[b := seq(|d[b]|, k requires 0 <= k < |d[b]| =>
      if k == at + 2 then n.size else if at + 3 <= k < at + INODE_WORDS then n.addrs[k - at - 3] else d[b][k])]
  }

  /** So the image says of this inode what iupdate wrote, and of every other what it said. */
  lemma IupdateShows(d: Image, sb: SuperBlock, i: nat, n: F.Inode)
    requires i < sb.ninodes && sb.inodestart + i / INODES_PER_BLOCK < |d| && |n.addrs| == F.NDIRECT + 1
    requires |d[sb.inodestart + i / INODES_PER_BLOCK]| == INODE_WORDS * INODES_PER_BLOCK
    ensures InodesOf(Iupdated(d, sb, i, n), sb) == InodesOf(d, sb)[i := n]
  {
    var e := Iupdated(d, sb, i, n);
    forall j: nat | j < sb.ninodes
      ensures InodeOf(e, sb, j) == if j == i then n else InodeOf(d, sb, j)
    {
      forall k | 2 <= k < INODE_WORDS
        ensures InodeWord(e, sb, j, k) == if j == i then (if k == 2 then n.size else n.addrs[k - 3]) else InodeWord(d, sb, j, k)
      {
        InodesApart(i, j, k);
      }
    }
  }

  lemma InodesApart(i: nat, j: nat, k: int)
    requires 0 <= k < INODE_WORDS
    ensures 0 <= INODE_WORDS * (j % INODES_PER_BLOCK) + k < INODE_WORDS * INODES_PER_BLOCK
    ensures i != j && i / INODES_PER_BLOCK == j / INODES_PER_BLOCK ==>
      var at, to := INODE_WORDS * (i % INODES_PER_BLOCK), INODE_WORDS * (j % INODES_PER_BLOCK) + k;
      to < at || at + INODE_WORDS <= to
  {
  }

  // ----- The blocks outside the log decide

  lemma InodesDecided(d: Image, e: Image, sb: SuperBlock, l: Layout)
    requires SameHome(d, e, l) && Apart(sb, l, |d|)
    ensures InodesOf(d, sb) == InodesOf(e, sb)
  {
    forall i: nat | i < sb.ninodes
      ensures InodeOf(d, sb, i) == InodeOf(e, sb, i)
    {
      assert !InLog(l, sb.inodestart + i / INODES_PER_BLOCK);
    }
  }

  lemma BitmapDecided(d: Image, e: Image, sb: SuperBlock, l: Layout)
    requires SameHome(d, e, l) && Apart(sb, l, |d|)
    ensures BitmapOf(d, sb) == BitmapOf(e, sb)
  {
    forall k: nat | k < (|d| + 7) / 8
      ensures BitmapByte(d, sb, k) == BitmapByte(e, sb, k)
    {
      assert !InLog(l, sb.bmapstart + k / F.BSIZE);
    }
  }

  lemma HomesDecide(d: Image, e: Image, sb: SuperBlock, l: Layout, roles: F.Roles)
    requires SameHome(d, e, l) && FilesOk(e, sb, l, roles)
    ensures FilesOk(d, sb, l, roles) && SameFiles(d, e, sb)
  {
    InodesDecided(d, e, sb, l);
    BitmapDecided(d, e, sb, l);
    var ns, ds, es := InodesOf(e, sb), DataOf(d), DataOf(e);
    F.OtherData(ns, es, ds, roles);
    hide InodesOf, DataOf, BitmapOf, InodeOf;
    forall i: nat {:trigger InodeOf(d, sb, i)} | i < sb.ninodes && 0 <= InodeOf(e, sb, i).size <= F.MAXBYTES
      ensures InodeOf(d, sb, i) == InodeOf(e, sb, i) && FileOf(d, sb, i) == FileOf(e, sb, i)
    {
      assert ns[i] == InodeOf(d, sb, i) == InodeOf(e, sb, i);
      SameContent(ns, es, ds, roles, i);
    }
  }

  lemma SameContent(ns: seq<F.Inode>, es: seq<F.Block>, ds: seq<F.Block>, roles: F.Roles, i: nat)
    requires F.AllOk(ns, es, roles) && |ds| == |es| && F.DataOk(ds) && F.HasInode(ns, i) && 0 <= ns[i].size <= F.MAXBYTES
    requires forall b {:trigger ds[b]} :: 0 <= b < |ds| && !roles[b].Free? && !roles[b].Meta? ==> ds[b] == es[b]
    ensures F.Content(ns, ds, i) == F.Content(ns, es, i)
  {
    F.OtherData(ns, es, ds, roles);
    forall p | 0 <= p < ns[i].size
      ensures F.FileByte(ns, ds, i, p) == F.FileByte(ns, es, i, p)
    {
      F.Whereabouts(ns, es, roles, i, p / F.BSIZE);
    }
  }

  // ----- File operations as transactions

  /**
    One operation, run as a transaction on a consistent file system that it would
    leave consistent, and cut off by a crash or not: afterwards every file is as
    before it or every file is as behind it, and as behind it if commit returned.
   */
  lemma OperationIsAtomic(d: Image, sb: SuperBlock, l: Layout, t: Transaction, done: bool, e: Image) returns (kept: bool)
    requires Attempt(d, l, t, done, e)
    requires Consistent(d, sb, l) && Consistent(Apply(d, t), sb, l)
    ensures done ==> kept
    ensures SameFiles(e, if kept then Apply(d, t) else d, sb) && Consistent(e, sb, l)
  {
    hide *;
    kept := AttemptIsAtomic(d, l, t, done, e);
    DecidedFiles(e, if kept then Apply(d, t) else d, sb, l);
  }

  lemma DecidedFiles(d: Image, e: Image, sb: SuperBlock, l: Layout)
    requires SameHome(d, e, l) && Consistent(e, sb, l)
    ensures SameFiles(d, e, sb) && Consistent(d, sb, l)
  {
    hide FilesOk, SameFiles, SameHome;
    var roles :| FilesOk(e, sb, l, roles);
    HomesDecide(d, e, sb, l, roles);
  }

  /** What writei makes of the files: one is overwritten from off on, the others stay. */
  ghost predicate WriteOf(d: Image, e: Image, sb: SuperBlock, i: nat, off: nat, src: seq<Byte>) {
    && i < sb.ninodes && 0 <= InodeOf(e, sb, i).size <= F.MAXBYTES && off <= InodeOf(d, sb, i).size <= F.MAXBYTES
    && FileOf(e, sb, i) == B.Spliced(FileOf(d, sb, i), off, src)
    && forall j: nat {:trigger InodeOf(d, sb, j)} :: j < sb.ninodes && j != i ==>
      && 0 <= InodeOf(d, sb, j).size <= F.MAXBYTES && 0 <= InodeOf(e, sb, j).size <= F.MAXBYTES
      && FileOf(e, sb, j) == FileOf(d, sb, j)
  }

  /** So a write that fits in a transaction is seen after a crash as a whole or not at all. */
  lemma WriteIsAtomic(d: Image, sb: SuperBlock, l: Layout, t: Transaction, done: bool, e: Image, i: nat, off: nat, src: seq<Byte>)
    requires Attempt(d, l, t, done, e)
    requires Consistent(d, sb, l) && Consistent(Apply(d, t), sb, l) && WriteOf(d, Apply(d, t), sb, i, off, src)
    ensures Consistent(e, sb, l) && 0 <= InodeOf(e, sb, i).size <= F.MAXBYTES && off <= InodeOf(d, sb, i).size
    ensures FileOf(e, sb, i) == B.Spliced(FileOf(d, sb, i), off, src) || (!done && FileOf(e, sb, i) == FileOf(d, sb, i))
    ensures forall j: nat {:trigger InodeOf(e, sb, j)} :: j < sb.ninodes && j != i ==>
      0 <= InodeOf(e, sb, j).size <= F.MAXBYTES && 0 <= InodeOf(d, sb, j).size <= F.MAXBYTES && FileOf(e, sb, j) == FileOf(d, sb, j)
  {
    var kept := OperationIsAtomic(d, sb, l, t, done, e);
    var a := if kept then Apply(d, t) else d;
    hide *;
    WriteSays(d, Apply(d, t), sb, i, off, src, i);
    SameFile(e, a, sb, i);
    forall j: nat {:trigger InodeOf(e, sb, j)} | j < sb.ninodes && j != i
      ensures 0 <= InodeOf(e, sb, j).size <= F.MAXBYTES && 0 <= InodeOf(d, sb, j).size <= F.MAXBYTES && FileOf(e, sb, j) == FileOf(d, sb, j)
    {
      WriteSays(d, Apply(d, t), sb, i, off, src, j);
      SameFile(e, a, sb, j);
    }
  }

  lemma SameFile(d: Image, e: Image, sb: SuperBlock, i: nat)
    requires SameFiles(d, e, sb) && i < sb.ninodes && 0 <= InodeOf(e, sb, i).size <= F.MAXBYTES
    ensures InodeOf(d, sb, i) == InodeOf(e, sb, i) && FileOf(d, sb, i) == FileOf(e, sb, i)
  {
    hide FileOf, InodeOf, InodesOf, BitmapOf;
    assert InodeOf(d, sb, i) == InodeOf(d, sb, i);
  }

  lemma WriteSays(d: Image, e: Image, sb: SuperBlock, i: nat, off: nat, src: seq<Byte>, j: nat)
    requires WriteOf(d, e, sb, i, off, src) && j < sb.ninodes
    ensures i < sb.ninodes && 0 <= InodeOf(e, sb, i).size <= F.MAXBYTES && off <= InodeOf(d, sb, i).size <= F.MAXBYTES
    ensures FileOf(e, sb, i) == B.Spliced(FileOf(d, sb, i), off, src)
    ensures 0 <= InodeOf(d, sb, j).size <= F.MAXBYTES && 0 <= InodeOf(e, sb, j).size <= F.MAXBYTES
    ensures j != i ==> FileOf(e, sb, j) == FileOf(d, sb, j)
  {
    hide FileOf, InodeOf;
    assert InodeOf(d, sb, j) == InodeOf(d, sb, j);
  }

  /**
    The file system is consistent after every crash in the life of a disk, if
    each operation leaves the one it finds consistent.
   */
  lemma FilesSurvive(images: seq<Image>, sb: SuperBlock, l: Layout, ts: seq<Transaction>, done: seq<bool>, i: nat)
    requires Life(images, l, ts, done) && i < |images| && Consistent(images[0], sb, l)
    requires forall j {:trigger ts[j]} :: 0 <= j < |ts| && Consistent(images[j], sb, l) ==> Consistent(Apply(images[j], ts[j]), sb, l)
    ensures Consistent(images[i], sb, l)
  {
    var ok := iset d: Image | Consistent(d, sb, l);
    hide Life, Consistent, Apply;
    forall d, e | SameHome(d, e, l) && e in ok
      ensures d in ok
    {
      DecidedFiles(d, e, sb, l);
    }
    ConsistencySurvives(images, l, ts, done, i, ok);
  }
}
