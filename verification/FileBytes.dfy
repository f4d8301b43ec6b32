/** What the bytes of files are before and after bmap, readi and writei of operating-systems/xv6-OS/fs.c. */
module FileBytes {
  import opened FileBlocks

  /** Sizes and shapes of the inodes are as before. */
  ghost predicate SameSizes(ns0: seq<Inode>, ns1: seq<Inode>) {
    |ns1| == |ns0| && forall j {:trigger ns1[j]} {:trigger ns0[j]} :: 0 <= j < |ns0| ==> ns1[j].size == ns0[j].size && |ns1[j].addrs| == |ns0[j].addrs|
  }

  /** Blocks went from free to file i, and nothing else happened to any. */
  ghost predicate TookFor(r0: Roles, r1: Roles, i: int) {
    |r1| == |r0| && forall b {:trigger r1[b]} {:trigger r0[b]} :: 0 <= b < |r0| ==> r1[b] == r0[b] || (r0[b].Free? && OfFile(r1[b], i))
  }

  ghost predicate OfFile(r: Role, i: int) {
    (r.Direct? && r.i == i) || (r.Indirect? && r.i == i) || (r.Entry? && r.i == i)
  }

  ghost predicate NoneFree(roles: Roles) {
    forall b {:trigger roles[b]} :: 0 <= b < |roles| ==> !roles[b].Free?
  }

  lemma TookTwice(r0: Roles, r1: Roles, r2: Roles, i: int)
    requires TookFor(r0, r1, i) && TookFor(r1, r2, i)
    ensures TookFor(r0, r2, i)
  {
    forall b {:trigger r2[b]} {:trigger r0[b]} | 0 <= b < |r0|
      ensures r2[b] == r0[b] || (r0[b].Free? && OfFile(r2[b], i))
    {
      assert r1[b] == r0[b] || (r0[b].Free? && OfFile(r1[b], i));
    }
  }

  /** A block of a file stays where it is while blocks are taken. */
  lemma PlaceKept(ns0: seq<Inode>, ds0: seq<Block>, r0: Roles, ns1: seq<Inode>, ds1: seq<Block>, r1: Roles, i: int, j: int, n: int)
    requires AllOk(ns0, ds0, r0) && AllOk(ns1, ds1, r1) && TookFor(r0, r1, i) && HasInode(ns0, j) && 0 <= n < MAXFILE
    requires Where(ns0, ds0, j, n) != 0
    ensures HasInode(ns1, j) && Where(ns1, ds1, j, n) == Where(ns0, ds0, j, n)
  {
    Whereabouts(ns0, ds0, r0, j, n);
    var b := Where(ns0, ds0, j, n);
    assert r1[b] == r0[b];
    assert BlockOk(ns1, ds1, r1, b) && IsRole(r1, 0, Meta);
  }

  // ----- readi

  /** A stretch of a file that lies in one block is that stretch of the block. */
  lemma BlockPart(ns: seq<Inode>, ds: seq<Block>, i: int, o: int, m: int)
    requires DataOk(ds) && HasInode(ns, i) && 0 <= ns[i].size <= MAXBYTES && 0 <= o && 0 <= m && o + m <= ns[i].size
    requires o % BSIZE + m <= BSIZE && o / BSIZE < MAXFILE && 0 < Where(ns, ds, i, o / BSIZE) < |ds|
    ensures ds[Where(ns, ds, i, o / BSIZE)][o % BSIZE..o % BSIZE + m] == Content(ns, ds, i)[o..o + m]
  {
    var s := ds[Where(ns, ds, i, o / BSIZE)];
    var part, c := s[o % BSIZE..o % BSIZE + m], Content(ns, ds, i)[o..o + m];
    forall t {:trigger part[t]} | 0 <= t < m
      ensures part[t] == c[t]
    {
      SameBlock(o, t);
      assert Content(ns, ds, i)[o + t] == FileByte(ns, ds, i, o + t);
    }
  }

  lemma SameBlock(o: int, t: int)
    requires 0 <= o && 0 <= t && o % BSIZE + t < BSIZE
    ensures (o + t) / BSIZE == o / BSIZE && (o + t) % BSIZE == o % BSIZE + t
  {
  }

  lemma PartJoined(c: seq<Byte>, o: int, t: int, m: int)
    requires 0 <= o && 0 <= t && 0 <= m && o + t + m <= |c|
    ensures c[o..o + t] + c[o + t..o + t + m] == c[o..o + (t + m)]
  {
  }

  // ----- writei

  /** The bytes of file i from off on are now those of src; no other byte of any file has changed. */
  ghost predicate Wrote(ns0: seq<Inode>, ds0: seq<Block>, ns1: seq<Inode>, ds1: seq<Block>, i: int, off: int, src: seq<Byte>) {
    && DataOk(ds0) && DataOk(ds1) && |ns1| == |ns0|
    && forall j, p {:trigger WroteByte(ns0, ds0, ns1, ds1, i, off, src, j, p)} :: HasInode(ns0, j) && HasInode(ns1, j) && 0 <= p < MAXBYTES ==>
      WroteByte(ns0, ds0, ns1, ds1, i, off, src, j, p)
  }

  ghost predicate WroteByte(ns0: seq<Inode>, ds0: seq<Block>, ns1: seq<Inode>, ds1: seq<Block>, i: int, off: int, src: seq<Byte>, j: int, p: int)
    requires DataOk(ds0) && DataOk(ds1) && HasInode(ns0, j) && HasInode(ns1, j) && 0 <= p < MAXBYTES
  {
    FileByte(ns1, ds1, j, p) == if j == i && off <= p < off + |src| then src[p - off] else FileByte(ns0, ds0, j, p)
  }

  lemma WroteNothing(ns: seq<Inode>, ds: seq<Block>, i: int, off: int)
    requires DataOk(ds)
    ensures Wrote(ns, ds, ns, ds, i, off, [])
  {
  }

  /** Two writes, one behind the other, are one. */
  lemma WroteTwice(ns0: seq<Inode>, ds0: seq<Block>, ns1: seq<Inode>, ds1: seq<Block>, ns2: seq<Inode>, ds2: seq<Block>, i: int, off: int, a: seq<Byte>, b: seq<Byte>)
    requires Wrote(ns0, ds0, ns1, ds1, i, off, a) && Wrote(ns1, ds1, ns2, ds2, i, off + |a|, b) && SameSizes(ns0, ns1)
    ensures Wrote(ns0, ds0, ns2, ds2, i, off, a + b)
  {
    forall j, p {:trigger WroteByte(ns0, ds0, ns2, ds2, i, off, a + b, j, p)} | HasInode(ns0, j) && HasInode(ns2, j) && 0 <= p < MAXBYTES
      ensures WroteByte(ns0, ds0, ns2, ds2, i, off, a + b, j, p)
    {
      assert HasInode(ns1, j);
      assert WroteByte(ns0, ds0, ns1, ds1, i, off, a, j, p) && WroteByte(ns1, ds1, ns2, ds2, i, off + |a|, b, j, p);
    }
  }

  function Patched(blk: Block, at: int, part: seq<Byte>): (r: Block)
    requires 0 <= at && at + |part| <= |blk|
    ensures |r| == |blk|
    ensures forall k :: 0 <= k < |r| ==> r[k] == if at <= k < at + |part| then part[k - at] else blk[k]
  {
    blk[..at] + part + blk[at + |part|..]
  }

  /** Writing a part of one block writes that part of the file. */
  lemma PartWritten(ns0: seq<Inode>, ds0: seq<Block>, ns: seq<Inode>, ds: seq<Block>, roles: Roles, i: int, o: int, part: seq<Byte>)
    requires SameBytes(ns0, ds0, ns, ds) && AllOk(ns, ds, roles) && HasInode(ns, i) && 0 <= o && o / BSIZE < MAXFILE && o % BSIZE + |part| <= BSIZE
    requires 0 < Where(ns, ds, i, o / BSIZE) < |ds|
    ensures var b := Where(ns, ds, i, o / BSIZE);
      AllOk(ns, ds[b := Patched(ds[b], o % BSIZE, part)], roles) && Wrote(ns0, ds0, ns, ds[b := Patched(ds[b], o % BSIZE, part)], i, o, part)
    ensures var ds1 := ds[Where(ns, ds, i, o / BSIZE) := Patched(ds[Where(ns, ds, i, o / BSIZE)], o % BSIZE, part)];
      forall m {:trigger Where(ns, ds1, i, m)} :: 0 <= m < MAXFILE ==> Where(ns, ds1, i, m) == Where(ns, ds, i, m)
  {
    var b := Where(ns, ds, i, o / BSIZE);
    var blk := Patched(ds[b], o % BSIZE, part);
    DataWritten(ns, ds, roles, i, o / BSIZE, blk);
    var ds1 := ds[b := blk];
    forall j, p {:trigger WroteByte(ns0, ds0, ns, ds1, i, o, part, j, p)} | HasInode(ns0, j) && HasInode(ns, j) && 0 <= p < MAXBYTES
      ensures WroteByte(ns0, ds0, ns, ds1, i, o, part, j, p)
    {
      assert SameByte(ns0, ds0, ns, ds, j, p);
      assert FileByte(ns, ds1, j, p) == if j == i && p / BSIZE == o / BSIZE then blk[p % BSIZE] else FileByte(ns, ds, j, p);
      InPart(o, |part|, p);
    }
  }

  lemma InPart(o: int, m: int, p: int)
    requires 0 <= o && 0 <= m && o % BSIZE + m <= BSIZE && 0 <= p
    ensures o <= p < o + m <==> p / BSIZE == o / BSIZE && o % BSIZE <= p % BSIZE < o % BSIZE + m
    ensures p / BSIZE == o / BSIZE ==> p % BSIZE - o % BSIZE == p - o
  {
  }

  /** A sequence overwritten, and lengthened if need be, from off on. */
  function Spliced(c: seq<Byte>, off: int, src: seq<Byte>): (r: seq<Byte>)
    requires 0 <= off <= |c|
    ensures |r| == if off + |src| > |c| then off + |src| else |c|
    ensures r[off..off + |src|] == src
    ensures forall p :: 0 <= p < |c| && !(off <= p < off + |src|) ==> r[p] == c[p]
  {
    c[..off] + src + if off + |src| < |c| then c[off + |src|..] else []
  }

  /** With the new size, the file holds the splice and every other file what it held. */
  lemma ContentSpliced(ns0: seq<Inode>, ds0: seq<Block>, ns1: seq<Inode>, ds1: seq<Block>, i: int, off: int, src: seq<Byte>, size: int)
    requires Wrote(ns0, ds0, ns1, ds1, i, off, src) && SameSizes(ns0, ns1) && HasInode(ns0, i) && 0 <= off <= ns0[i].size <= size <= MAXBYTES
    requires size == if off + |src| > ns0[i].size then off + |src| else ns0[i].size
    ensures var ns2 := ns1[i := ns1[i].(size := size)];
      && Content(ns2, ds1, i) == Spliced(Content(ns0, ds0, i), off, src)
      && forall j {:trigger Content(ns2, ds1, j)} :: HasInode(ns0, j) && j != i && 0 <= ns0[j].size <= MAXBYTES ==> Content(ns2, ds1, j) == Content(ns0, ds0, j)
  {
    var ns2 := ns1[i := ns1[i].(size := size)];
    var c, s := Content(ns2, ds1, i), Spliced(Content(ns0, ds0, i), off, src);
    forall p {:trigger c[p]} | 0 <= p < size
      ensures c[p] == s[p]
    {
      assert WroteByte(ns0, ds0, ns1, ds1, i, off, src, i, p);
      assert c[p] == FileByte(ns1, ds1, i, p);
      if off <= p < off + |src| {
        assert s[off..off + |src|][p - off] == src[p - off];
      }
    }
    forall j {:trigger Content(ns2, ds1, j)} | HasInode(ns0, j) && j != i && 0 <= ns0[j].size <= MAXBYTES
      ensures Content(ns2, ds1, j) == Content(ns0, ds0, j)
    {
      forall p {:trigger Content(ns2, ds1, j)[p]} | 0 <= p < ns0[j].size
        ensures Content(ns2, ds1, j)[p] == Content(ns0, ds0, j)[p]
      {
        assert WroteByte(ns0, ds0, ns1, ds1, i, off, src, j, p);
      }
    }
  }

  /** The blocks of a file reach to the end of what was last written. */
  lemma Reached(o: int, m: int, n: int)
    requires 0 <= o && 0 < m && o % BSIZE + m <= BSIZE && 0 <= n < Blocks(o + m)
    ensures n < Blocks(o) || n == o / BSIZE
  {
  }
}
