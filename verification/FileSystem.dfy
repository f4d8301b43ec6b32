/**
  The block and file layers of operating-systems/xv6-OS/fs.c, over blocks as the
  cache shows them: balloc, bfree, bmap, itrunc, readi and writei.
 */
module FileSystem {
  import opened Wrappers
  import opened FileBlocks
  import Words
  import opened FileBytes
  import opened FileCounts

  const BPB := BSIZE * 8

  class FileSystem {
    var bitmap: seq<bv8>
    var data: seq<Block>
    var inodes: seq<Inode>
    ghost var roles: Roles

    /** A bit is set exactly for the blocks in use, and every block in use has exactly one use. */
    ghost predicate Valid()
      reads this
    {
      AllOk(inodes, data, roles) && BitmapOk(bitmap, roles)
    }

    constructor (bitmap: seq<bv8>, data: seq<Block>, inodes: seq<Inode>, ghost roles: Roles)
      requires AllOk(inodes, data, roles) && BitmapOk(bitmap, roles)
      ensures Valid() && this.bitmap == bitmap && this.data == data && this.inodes == inodes && this.roles == roles
    {
      this.bitmap, this.data, this.inodes, this.roles := bitmap, data, inodes, roles;
    }

    /** The first free block, zeroed, now for the given use. None is the panic. */
    method Balloc(ghost use: Role) returns (r: Option<int>)
      requires BitmapOk(bitmap, roles) && |data| == |roles| && !use.Free?
      modifies `bitmap, `data, `roles
      ensures BitmapOk(bitmap, roles)
      ensures r.None? <==> NoneFree(old(roles))
      ensures r.None? ==> data == old(data) && roles == old(roles)
      ensures r.Some? ==> IsRole(old(roles), r.value, Free) && forall b :: 0 <= b < r.value ==> !old(roles)[b].Free?
      ensures r.Some? ==> roles == old(roles)[r.value := use] && data == old(data)[r.value := Words.Zeros(BSIZE)]
    {
      var b := 0;
      while b < |data|
        invariant 0 <= b && b % BPB == 0
        invariant forall c :: 0 <= c < b && c < |roles| ==> !roles[c].Free?
        invariant bitmap == old(bitmap) && data == old(data) && roles == old(roles)
        decreases |data| - b
      {
        var bi := 0;
        while bi < BPB && b + bi < |data|
          invariant 0 <= bi <= BPB
          invariant forall c :: 0 <= c < b + bi && c < |roles| ==> !roles[c].Free?
          invariant bitmap == old(bitmap) && data == old(data) && roles == old(roles)
        {
          var m := Mask(bi % 8);
          SameBit(b, bi);
          BitIs(bitmap, roles, b + bi);
          if bitmap[(b + bi) / 8] & m == 0 {
            Claim(b + bi, m, use);
            return Some(b + bi);
          }
          bi := bi + 1;
        }
        b := b + BPB;
      }
      r := None;
    }

    /** Marks a block and zeroes it. */
    method Claim(b: int, m: bv8, ghost use: Role)
      requires BitmapOk(bitmap, roles) && |data| == |roles| && !use.Free? && 0 <= b < |roles| && m == Mask(b % 8)
      modifies `bitmap, `data, `roles
      ensures BitmapOk(bitmap, roles)
      ensures roles == old(roles)[b := use] && data == old(data)[b := Words.Zeros(BSIZE)]
    {
      BitSet(bitmap, roles, b, use);
      bitmap := bitmap[b / 8 := bitmap[b / 8] | m];
      data := data[b := Words.Zeros(BSIZE)];
      roles := roles[b := use];
    }

    /** False is the panic of freeing a free block. */
    method Bfree(b: int) returns (ok: bool)
      requires BitmapOk(bitmap, roles) && 0 <= b < |roles|
      modifies `bitmap, `roles
      ensures BitmapOk(bitmap, roles)
      ensures ok <==> !old(roles)[b].Free?
      ensures roles == old(roles)[b := Free]
    {
      hide BitmapOk, Bit, Mask;
      BitCleared(bitmap, roles, b);
      BitInBlock(b);
      var bi := b % BPB;
      var m := Mask(bi % 8);
      if bitmap[b / 8] & m == 0 {
        return false;
      }
      bitmap := bitmap[b / 8 := bitmap[b / 8] & !m];
      roles := roles[b := Free];
      ok := true;
    }

    /**
      The block for block n of file i, allocated if there is none. None is one of
      the panics: out of range, or out of blocks. No byte of any file changes.
     */
    method Bmap(i: int, n: int) returns (r: Option<int>)
      requires Valid() && 0 <= i < |inodes| && 0 <= n
      modifies this
      ensures n >= MAXFILE ==> r.None?
      ensures r.Some? ==> Valid() && HasInode(inodes, i) && r.value == Where(inodes, data, i, n) && 0 < r.value < |data|
      ensures r.Some? ==> SameBytes(old(inodes), old(data), inodes, data) && SameSizes(old(inodes), inodes)
      ensures n < MAXFILE && HasInode(old(inodes), i) && Where(old(inodes), old(data), i, n) != 0 ==>
        r.Some? && bitmap == old(bitmap) && data == old(data) && inodes == old(inodes) && roles == old(roles)
      ensures r.Some? ==> TookFor(old(roles), roles, i)
      ensures n < MAXFILE && HasInode(old(inodes), i) && DataOk(old(data)) ==> (r.Some? <==> FreeCount(old(roles)) >= Missing(old(inodes), old(data), i, n))
      ensures r.Some? ==> Took(old(inodes), old(data), old(roles), inodes, data, roles, i, n)
    {
      assert InodeOk(inodes, data, roles, i);
      if n < NDIRECT {
        r := BmapDirect(i, n);
      } else if n - NDIRECT < NINDIRECT {
        r := BmapIndirect(i, n - NDIRECT);
      } else {
        r := None;
      }
    }

    method BmapDirect(i: int, n: int) returns (r: Option<int>)
      requires Valid() && HasInode(inodes, i) && 0 <= n < NDIRECT
      modifies this
      ensures r.Some? ==> Valid() && HasInode(inodes, i) && r.value == Where(inodes, data, i, n) && 0 < r.value < |data|
      ensures r.Some? ==> SameBytes(old(inodes), old(data), inodes, data) && SameSizes(old(inodes), inodes)
      ensures Where(old(inodes), old(data), i, n) != 0 ==> r.Some? && bitmap == old(bitmap) && data == old(data) && inodes == old(inodes) && roles == old(roles)
      ensures r.Some? ==> TookFor(old(roles), roles, i)
      ensures r.Some? <==> FreeCount(old(roles)) >= Missing(old(inodes), old(data), i, n)
      ensures r.Some? ==> Took(old(inodes), old(data), old(roles), inodes, data, roles, i, n)
    {
      Whereabouts(inodes, data, roles, i, n);
      var addr := inodes[i].addrs[n];
      if addr == 0 {
        NoneLeft(roles);
        r := Balloc(Direct(i, n));
        if r.Some? {
          OneTaken(old(roles), r.value, Direct(i, n));
          var b := r.value;
          DirectAdded(inodes, old(data), old(roles), i, n, b);
          GainedBytes(inodes, old(data), WithAddr(inodes, i, n, b), data, i, n, b);
          assert GainedAt(inodes, old(data), WithAddr(inodes, i, n, b), data, i, n, b, i, n);
          GainedOnly(inodes, old(data), WithAddr(inodes, i, n, b), data, i, n, b);
          inodes := inodes[i := inodes[i].(addrs := inodes[i].addrs[n := b])];
        }
        return;
      }
      SameAgain(inodes, data);
      r := Some(addr);
    }

    method BmapIndirect(i: int, k: int) returns (r: Option<int>)
      requires Valid() && HasInode(inodes, i) && 0 <= k < NINDIRECT
      modifies this
      ensures r.Some? ==> Valid() && HasInode(inodes, i) && r.value == Where(inodes, data, i, NDIRECT + k) && 0 < r.value < |data|
      ensures r.Some? ==> SameBytes(old(inodes), old(data), inodes, data) && SameSizes(old(inodes), inodes)
      ensures Where(old(inodes), old(data), i, NDIRECT + k) != 0 ==> r.Some? && bitmap == old(bitmap) && data == old(data) && inodes == old(inodes) && roles == old(roles)
      ensures r.Some? ==> TookFor(old(roles), roles, i)
      ensures r.Some? <==> FreeCount(old(roles)) >= Missing(old(inodes), old(data), i, NDIRECT + k)
      ensures r.Some? ==> Took(old(inodes), old(data), old(roles), inodes, data, roles, i, NDIRECT + k)
    {
      hide Word, WithWord;
      ghost var ns0, ds0, r0 := inodes, data, roles;
      var a := IndirectBlock(i);
      if a.None? {
        return None;
      }
      ghost var ns1, ds1, r1 := inodes, data, roles;
      Whereabouts(inodes, data, roles, i, NDIRECT + k);
      var addr := Word(data[a.value], k);
      if addr == 0 {
        NoneLeft(roles);
        r := Balloc(Entry(i, k));
        if r.Some? {
          var b := r.value;
          OneTaken(r1, b, Entry(i, k));
          EntryAdded(ns1, ds1, r1, i, k, a.value, b);
          GainedBytes(ns1, ds1, ns1, ds1[b := Words.Zeros(BSIZE)][a.value := WithWord(ds1[a.value], k, b)], i, NDIRECT + k, b);
          assert GainedAt(ns1, ds1, ns1, ds1[b := Words.Zeros(BSIZE)][a.value := WithWord(ds1[a.value], k, b)], i, NDIRECT + k, b, i, NDIRECT + k);
          data := data[a.value := WithWord(data[a.value], k, b)];
          SameTwice(ns0, ds0, ns1, ds1, inodes, data);
          GainedOnly(ns1, ds1, inodes, data, i, NDIRECT + k, b);
          OnlyTwice(ns0, ds0, ns1, ds1, inodes, data, i, NDIRECT + k);
        }
      } else {
        r := Some(addr);
      }
    }

    /** The file's indirect block, allocated if there is none. */
    method IndirectBlock(i: int) returns (r: Option<int>)
      requires Valid() && HasInode(inodes, i)
      modifies this
      ensures r.Some? ==> Valid() && HasInode(inodes, i) && r.value == inodes[i].addrs[NDIRECT] && 0 < r.value < |data|
      ensures r.Some? ==> SameBytes(old(inodes), old(data), inodes, data) && SameSizes(old(inodes), inodes) && TookFor(old(roles), roles, i)
      ensures r.Some? <==> FreeCount(old(roles)) >= NoIndirect(old(inodes), i)
      ensures r.Some? ==> FreeCount(roles) == FreeCount(old(roles)) - NoIndirect(old(inodes), i) && FilePlacesKept(old(inodes), old(data), inodes, data, i)
      ensures old(inodes[i].addrs[NDIRECT]) != 0 ==> r.Some? && bitmap == old(bitmap) && data == old(data) && inodes == old(inodes) && roles == old(roles)
    {
      assert InodeOk(inodes, data, roles, i) && AddrOk(inodes, roles, i, NDIRECT);
      var addr := inodes[i].addrs[NDIRECT];
      if addr == 0 {
        NoneLeft(roles);
        r := Balloc(Indirect(i));
        if r.Some? {
          OneTaken(old(roles), r.value, Indirect(i));
          IndirectAdded(inodes, old(data), old(roles), i, r.value);
          KeptBytes(inodes, old(data), WithAddr(inodes, i, NDIRECT, r.value), data);
          KeptPlaces(inodes, old(data), WithAddr(inodes, i, NDIRECT, r.value), data, i);
          inodes := inodes[i := inodes[i].(addrs := inodes[i].addrs[NDIRECT := r.value])];
        }
        return;
      }
      SameAgain(inodes, data);
      r := Some(addr);
    }

    /** itrunc: the file's blocks become free, and no other; no other file changes. */
    method Itrunc(i: int)
      requires Valid() && 0 <= i < |inodes|
      modifies this
      ensures Valid() && |inodes| == old(|inodes|) && inodes[i].size == 0
      ensures forall j :: 0 <= j < |inodes| && j != i ==> inodes[j] == old(inodes)[j]
      ensures data == old(data) && GaveBack(old(roles), roles, i)
    {
      ghost var ns0, r0 := inodes, roles;
      assert InodeOk(inodes, data, roles, i);
      SizeCut(inodes, data, roles, i);
      TruncDirect(i);
      TruncIndirect(i);
      inodes := inodes[i := inodes[i].(size := 0)];
      AllGivenBack(inodes, data, r0, roles, i);
    }

    /** With file i's size taken as 0. */
    ghost predicate Cut(i: int)
      reads this
    {
      HasInode(inodes, i) && AllOk(inodes[i := inodes[i].(size := 0)], data, roles) && BitmapOk(bitmap, roles)
    }

    method TruncDirect(i: int)
      requires Cut(i)
      modifies `bitmap, `inodes, `roles
      ensures Cut(i) && |inodes| == old(|inodes|) && (forall k :: 0 <= k < NDIRECT ==> inodes[i].addrs[k] == 0)
      ensures inodes[i].addrs[NDIRECT] == old(inodes)[i].addrs[NDIRECT]
      ensures forall j :: 0 <= j < |inodes| && j != i ==> inodes[j] == old(inodes)[j]
      ensures GivingBack(old(roles), roles, i)
    {
      for k := 0 to NDIRECT
        invariant Cut(i) && |inodes| == old(|inodes|) && (forall l :: 0 <= l < k ==> inodes[i].addrs[l] == 0)
        invariant inodes[i].addrs[NDIRECT] == old(inodes)[i].addrs[NDIRECT]
        invariant forall j :: 0 <= j < |inodes| && j != i ==> inodes[j] == old(inodes)[j]
        invariant GivingBack(old(roles), roles, i)
      {
        var addr := inodes[i].addrs[k];
        if addr != 0 {
          ghost var ns := inodes[i := inodes[i].(size := 0)];
          DirectDropped(ns, data, roles, i, k, addr);
          var ok := Bfree(addr);
          inodes := inodes[i := inodes[i].(addrs := inodes[i].addrs[k := 0])];
          assert inodes[i := inodes[i].(size := 0)] == WithAddr(ns, i, k, 0);
        }
      }
    }

    method TruncIndirect(i: int)
      requires Cut(i)
      modifies `bitmap, `inodes, `roles
      ensures Cut(i) && |inodes| == old(|inodes|) && inodes[i].addrs[NDIRECT] == 0
      ensures forall k :: 0 <= k < NDIRECT ==> inodes[i].addrs[k] == old(inodes)[i].addrs[k]
      ensures forall j :: 0 <= j < |inodes| && j != i ==> inodes[j] == old(inodes)[j]
      ensures GivingBack(old(roles), roles, i)
    {
      var a := inodes[i].addrs[NDIRECT];
      if a == 0 {
        return;
      }
      ghost var ns := inodes[i := inodes[i].(size := 0)];
      ghost var ds := data;
      assert InodeOk(ns, data, roles, i) && AddrOk(ns, roles, i, NDIRECT);
      for j := 0 to NINDIRECT
        invariant inodes == old(inodes) && 0 < a < |data|
        invariant AllOk(ns, ds, roles) && BitmapOk(bitmap, roles) && GivingBack(old(roles), roles, i)
        invariant |ds| == |data| && forall b {:trigger ds[b]} {:trigger data[b]} :: 0 <= b < |data| && b != a ==> ds[b] == data[b]
        invariant forall k {:trigger Word(ds[a], k)} :: 0 <= k < NINDIRECT ==> Word(ds[a], k) == if k < j then 0 else Word(data[a], k)
      {
        var addr := Word(data[a], j);
        if addr != 0 {
          ghost var was := ds;
          EntryDropped(ns, ds, roles, i, j, a, addr);
          var ok := Bfree(addr);
          ds := ds[a := WithWord(ds[a], j, 0)];
          forall k {:trigger Word(ds[a], k)} | 0 <= k < NINDIRECT
            ensures Word(ds[a], k) == if k < j + 1 then 0 else Word(data[a], k)
          {
            WordWritten(was[a], j, 0, k);
          }
        }
      }
      IndirectDropped(ns, ds, roles, i, a);
      var ok := Bfree(a);
      OtherData(WithAddr(ns, i, NDIRECT, 0), ds, data, roles);
      inodes := inodes[i := inodes[i].(addrs := inodes[i].addrs[NDIRECT := 0])];
      assert inodes[i := inodes[i].(size := 0)] == WithAddr(ns, i, NDIRECT, 0);
    }

    /** The file's contents. */
    ghost function Contents(i: int): (c: seq<Byte>)
      requires Valid() && 0 <= i < |inodes|
      reads this
      ensures |c| == inodes[i].size
    {
      assert InodeOk(inodes, data, roles, i);
      Content(inodes, data, i)
    }

    /** readi: at most n bytes of the file from off on, and no state changes. */
    method Readi(i: int, off: int, n: int) returns (r: int, dst: seq<Byte>)
      requires Valid() && 0 <= i < |inodes| && 0 <= off < UINT && 0 <= n < UINT
      modifies this
      ensures bitmap == old(bitmap) && data == old(data) && inodes == old(inodes) && roles == old(roles)
      ensures r == -1 <==> off > inodes[i].size || off + n >= UINT
      ensures r != -1 ==> r == |dst| && off + r <= inodes[i].size && dst == Contents(i)[off..off + r]
      ensures r != -1 ==> r == n || (r < n && off + r == inodes[i].size)
    {
      dst := [];
      if off > inodes[i].size || (off + n) % UINT < off {
        return -1, dst;
      }
      assert InodeOk(inodes, data, roles, i);
      var want := if off + n > inodes[i].size then inodes[i].size - off else n;
      var tot := 0;
      while tot < want
        invariant 0 <= tot <= want
        invariant bitmap == old(bitmap) && data == old(data) && inodes == old(inodes) && roles == old(roles)
        invariant dst == Contents(i)[off..off + tot]
      {
        var o := off + tot;
        var m := if want - tot < BSIZE - o % BSIZE then want - tot else BSIZE - o % BSIZE;
        WithinBlock(off, tot, want);
        var part := ReadPart(i, o, m);
        PartJoined(Contents(i), off, tot, m);
        dst := dst + part;
        tot := tot + m;
      }
      r := want;
    }

    /** One turn: the bytes that lie in one block. */
    method ReadPart(i: int, o: int, m: int) returns (part: seq<Byte>)
      requires Valid() && 0 <= i < |inodes| && 0 <= o && 0 < m && o + m <= inodes[i].size && o % BSIZE + m <= BSIZE
      modifies this
      ensures bitmap == old(bitmap) && data == old(data) && inodes == old(inodes) && roles == old(roles)
      ensures part == Contents(i)[o..o + m]
    {
      assert InodeOk(inodes, data, roles, i) && HasBlock(inodes, data, i, o / BSIZE);
      var b := Bmap(i, o / BSIZE);
      BlockPart(inodes, data, i, o, m);
      part := data[b.value][o % BSIZE..o % BSIZE + m];
    }

    /**
      writei: the bytes of src from off on, the file lengthened if need be, and no other
      file changed. None is the panic of running out of blocks: fewer are free than the
      range lacks.
     */
    method Writei(i: int, off: int, src: seq<Byte>) returns (r: Option<int>)
      requires Valid() && 0 <= i < |inodes| && 0 <= off < UINT && |src| < UINT
      modifies this
      ensures r.None? <==>
        && off <= old(inodes)[i].size && off + |src| < UINT && off + |src| <= MAXBYTES
        && HasInode(old(inodes), i) && DataOk(old(data))
        && FreeCount(old(roles)) < Lacking(old(inodes), old(data), i, off / BSIZE, BlocksBetween(off, off + |src|))
      ensures r == Some(-1) <==> off > old(inodes)[i].size || off + |src| >= UINT || off + |src| > MAXBYTES
      ensures r == Some(-1) ==> bitmap == old(bitmap) && data == old(data) && inodes == old(inodes) && roles == old(roles)
      ensures r.Some? ==> Valid() && |inodes| == old(|inodes|) && (r.value == -1 || r.value == |src|)
      ensures r.Some? && r.value != -1 ==> Contents(i) == Spliced(old(Contents(i)), off, src)
      ensures r.Some? ==> forall j {:trigger Contents(j)} :: 0 <= j < |inodes| && j != i ==> Contents(j) == old(Contents(j))
      ensures r.Some? ==> TookFor(old(roles), roles, i)
    {
      assert InodeOk(inodes, data, roles, i);
      if off > inodes[i].size || (off + |src|) % UINT < off || off + |src| > MAXFILE * BSIZE {
        return Some(-1);
      }
      ghost var ns0, ds0, r0 := inodes, data, roles;
      var ok := WriteParts(i, off, src);
      if !ok {
        return None;
      }
      var end := off + |src|;
      ghost var size := if end > inodes[i].size then end else inodes[i].size;
      ghost var ns2 := inodes[i := inodes[i].(size := size)];
      ContentSpliced(ns0, ds0, inodes, data, i, off, src, size);
      if |src| > 0 && end > inodes[i].size {
        SizeGrown(inodes, data, roles, i, end);
        inodes := inodes[i := inodes[i].(size := end)];
      }
      assert inodes == ns2;
      forall j {:trigger Contents(j)} | 0 <= j < |inodes| && j != i
        ensures Contents(j) == old(Contents(j))
      {
        assert InodeOk(ns0, ds0, r0, j) && HasInode(ns0, j);
        assert Contents(j) == Content(ns2, data, j);
      }
      r := Some(|src|);
    }

    /** The loop: block by block, from off on. */
    method WriteParts(i: int, off: int, src: seq<Byte>) returns (ok: bool)
      requires Valid() && HasInode(inodes, i) && 0 <= off <= inodes[i].size && off + |src| <= MAXBYTES
      modifies this
      ensures ok <==> FreeCount(old(roles)) >= Lacking(old(inodes), old(data), i, off / BSIZE, BlocksBetween(off, off + |src|))
      ensures ok ==> Valid() && HasInode(inodes, i) && SameSizes(old(inodes), inodes) && TookFor(old(roles), roles, i)
      ensures ok ==> Wrote(old(inodes), old(data), inodes, data, i, off, src) && HasBlocks(i, off + |src|)
    {
      var tot := 0;
      ghost var ns0, ds0, r0 := inodes, data, roles;
      WroteNothing(inodes, data, i, off);
      HasBlocksBelow(i, off);
      GoingStart(inodes, data, roles, i, off);
      while tot < |src|
        invariant tot <= |src| && Writing(ns0, ds0, r0, i, off, src, tot)
      {
        ok, tot := WriteTurn(i, off, src, tot, ns0, ds0, r0);
        if !ok {
          return;
        }
      }
      assert src[..tot] == src;
      ok := true;
    }

    /** The state of the loop. */
    ghost predicate Writing(ns0: seq<Inode>, ds0: seq<Block>, r0: Roles, i: int, off: int, src: seq<Byte>, tot: int)
      reads this
    {
      0 <= tot <= |src| && Valid() && HasBlocks(i, off + tot) && Written(ns0, ds0, r0, inodes, data, roles, i, off, src, tot)
    }

    /** One turn: as much of src as goes into the block. */
    method WriteTurn(i: int, off: int, src: seq<Byte>, tot: int, ghost ns0: seq<Inode>, ghost ds0: seq<Block>, ghost r0: Roles) returns (ok: bool, next: int)
      requires 0 <= off && off + |src| <= MAXBYTES && 0 <= tot < |src| && Writing(ns0, ds0, r0, i, off, src, tot)
      modifies this
      ensures HasInode(ns0, i) && DataOk(ds0)
      ensures !ok ==> FreeCount(r0) < Lacking(ns0, ds0, i, off / BSIZE, BlocksBetween(off, off + |src|))
      ensures ok ==> tot < next <= |src| && Writing(ns0, ds0, r0, i, off, src, next)
    {
      var o := off + tot;
      var m := if |src| - tot < BSIZE - o % BSIZE then |src| - tot else BSIZE - o % BSIZE;
      ghost var ns1, ds1, r1 := inodes, data, roles;
      WithinBlock(off, tot, |src|);
      TurnStart(ns0, ds0, r0, ns1, ds1, r1, i, off, src, tot, m);
      ok := WritePart(i, o, src[tot..tot + m]);
      next := tot + m;
      if ok {
        TurnDone(ns0, ds0, r0, ns1, ds1, r1, inodes, data, roles, i, off, src, tot, m);
      }
    }

    /** Every block of a file of that size is there. */
    ghost predicate HasBlocks(i: int, size: int)
      reads this
    {
      && HasInode(inodes, i) && size <= MAXBYTES && DataOk(data)
      && forall n {:trigger Where(inodes, data, i, n)} :: 0 <= n < Blocks(size) ==> Where(inodes, data, i, n) != 0
    }

    lemma HasBlocksBelow(i: int, size: int)
      requires Valid() && HasInode(inodes, i) && 0 <= size <= inodes[i].size
      ensures HasBlocks(i, size)
    {
      assert InodeOk(inodes, data, roles, i);
      forall n {:trigger Where(inodes, data, i, n)} | 0 <= n < Blocks(size)
        ensures Where(inodes, data, i, n) != 0
      {
        assert HasBlock(inodes, data, i, n);
      }
    }

    /** One turn: the part of src for one block. */
    method WritePart(i: int, o: int, part: seq<Byte>) returns (ok: bool)
      requires Valid() && 0 <= o && o + |part| <= MAXBYTES && 0 < |part| && o % BSIZE + |part| <= BSIZE && HasBlocks(i, o)
      modifies this
      ensures ok <==> FreeCount(old(roles)) >= Missing(old(inodes), old(data), i, o / BSIZE)
      ensures ok ==> Took(old(inodes), old(data), old(roles), inodes, data, roles, i, o / BSIZE)
      ensures ok ==> Valid() && HasInode(inodes, i) && SameSizes(old(inodes), inodes) && TookFor(old(roles), roles, i)
      ensures ok ==> Wrote(old(inodes), old(data), inodes, data, i, o, part) && HasBlocks(i, o + |part|)
    {
      ghost var ns0, ds0, r0 := inodes, data, roles;
      var b := Bmap(i, o / BSIZE);
      if b.None? {
        return false;
      }
      ghost var ds1 := data;
      PartWritten(ns0, ds0, inodes, data, roles, i, o, part);
      data := data[b.value := Patched(data[b.value], o % BSIZE, part)];
      TookAndPatched(ns0, ds0, r0, inodes, ds1, roles, data, i, o / BSIZE);
      assert Wrote(ns0, ds0, inodes, data, i, o, part);
      forall n {:trigger Where(inodes, data, i, n)} | 0 <= n < Blocks(o + |part|)
        ensures Where(inodes, data, i, n) != 0
      {
        Reached(o, |part|, n);
        if n < Blocks(o) {
          PlaceKept(ns0, ds0, r0, inodes, data, roles, i, i, n);
        } else {
          PlaceKept(inodes, ds1, roles, inodes, data, roles, i, i, n);
        }
      }
      ok := true;
    }
  }

  /** The blocks of file i, and no others, have become free. */
  ghost predicate GaveBack(r0: Roles, r1: Roles, i: int) {
    |r1| == |r0| && forall b {:trigger r1[b]} {:trigger r0[b]} :: 0 <= b < |r0| ==> r1[b] == if OfFile(r0[b], i) then Free else r0[b]
  }

  /** Some of them have. */
  ghost predicate GivingBack(r0: Roles, r1: Roles, i: int) {
    |r1| == |r0| && forall b {:trigger r1[b]} {:trigger r0[b]} :: 0 <= b < |r0| ==> r1[b] == r0[b] || (OfFile(r0[b], i) && r1[b].Free?)
  }

  /** A file without addresses has no blocks. */
  lemma AllGivenBack(inodes: seq<Inode>, data: seq<Block>, r0: Roles, r1: Roles, i: int)
    requires AllOk(inodes, data, r1) && HasInode(inodes, i) && GivingBack(r0, r1, i)
    requires forall k :: 0 <= k <= NDIRECT ==> inodes[i].addrs[k] == 0
    ensures GaveBack(r0, r1, i)
  {
    forall b {:trigger r1[b]} {:trigger r0[b]} | 0 <= b < |r0|
      ensures r1[b] == if OfFile(r0[b], i) then Free else r0[b]
    {
      assert BlockOk(inodes, data, r1, b) && IsRole(r1, 0, Meta);
    }
  }

  lemma KeptBytes(ns0: seq<Inode>, ds0: seq<Block>, ns1: seq<Inode>, ds1: seq<Block>)
    requires WhereKept(ns0, ds0, ns1, ds1)
    ensures SameBytes(ns0, ds0, ns1, ds1)
  {
    forall j, p {:trigger SameByte(ns0, ds0, ns1, ds1, j, p)} | HasInode(ns0, j) && HasInode(ns1, j) && 0 <= p < MAXBYTES
      ensures SameByte(ns0, ds0, ns1, ds1, j, p)
    {
      assert KeptAt(ns0, ds0, ns1, ds1, j, p / BSIZE);
    }
  }

  /** What bmap did for block n of file i: how many blocks it took, and for what. */
  ghost predicate Took(ns0: seq<Inode>, ds0: seq<Block>, r0: Roles, ns1: seq<Inode>, ds1: seq<Block>, r1: Roles, i: int, n: int) {
    && 0 <= n < MAXFILE && HasInode(ns0, i) && DataOk(ds0)
    && FreeCount(r1) == FreeCount(r0) - Missing(ns0, ds0, i, n) && OnlyMapped(ns0, ds0, ns1, ds1, i, n)
  }

  /** How far writei's loop has come: the blocks up to byte end are there, and what they took. */
  ghost predicate Going(ns0: seq<Inode>, ds0: seq<Block>, r0: Roles, ns1: seq<Inode>, ds1: seq<Block>, r1: Roles, i: int, off: int, end: int) {
    && 0 <= off <= end <= MAXBYTES && HasInode(ns0, i) && DataOk(ds0)
    && var lo, k := off / BSIZE, BlocksBetween(off, end);
    && Mapped(ns0, ds0, ns1, ds1, i, lo, k) && FreeCount(r0) == FreeCount(r1) + Lacking(ns0, ds0, i, lo, k)
  }

  lemma GoingStart(ns: seq<Inode>, ds: seq<Block>, roles: Roles, i: int, off: int)
    requires 0 <= off <= MAXBYTES && HasInode(ns, i) && DataOk(ds)
    ensures Going(ns, ds, roles, ns, ds, roles, i, off, off)
  {
    MappedNothing(ns, ds, i, off / BSIZE);
  }

  /** What the next part takes, is what the range then lacked at first; and no more than all of it. */
  lemma GoingTakes(ns0: seq<Inode>, ds0: seq<Block>, r0: Roles, ns1: seq<Inode>, ds1: seq<Block>, r1: Roles, i: int, off: int, o: int, m: int, end: int)
    requires Going(ns0, ds0, r0, ns1, ds1, r1, i, off, o) && 0 < m && o + m <= end <= MAXBYTES
    requires o % BSIZE + m <= BSIZE && (o == off || o % BSIZE == 0)
    ensures o / BSIZE < MAXFILE && HasInode(ns1, i) && DataOk(ds1)
    ensures FreeCount(r1) < Missing(ns1, ds1, i, o / BSIZE) ==> FreeCount(r0) < Lacking(ns0, ds0, i, off / BSIZE, BlocksBetween(off, end))
  {
    var lo, k := off / BSIZE, BlocksBetween(off, o);
    OneFurther(off, o, m);
    LackingNext(ns0, ds0, ns1, ds1, i, lo, k);
    LackingGrows(ns0, ds0, i, lo, k + 1, BlocksBetween(off, end));
  }

  lemma GoingOn(ns0: seq<Inode>, ds0: seq<Block>, r0: Roles, ns1: seq<Inode>, ds1: seq<Block>, r1: Roles, ns2: seq<Inode>, ds2: seq<Block>, r2: Roles, i: int, off: int, o: int, m: int)
    requires Going(ns0, ds0, r0, ns1, ds1, r1, i, off, o) && 0 < m && o + m <= MAXBYTES
    requires o % BSIZE + m <= BSIZE && (o == off || o % BSIZE == 0)
    requires Took(ns1, ds1, r1, ns2, ds2, r2, i, o / BSIZE)
    ensures Going(ns0, ds0, r0, ns2, ds2, r2, i, off, o + m)
  {
    var lo, k := off / BSIZE, BlocksBetween(off, o);
    OneFurther(off, o, m);
    LackingNext(ns0, ds0, ns1, ds1, i, lo, k);
    MappedNext(ns0, ds0, ns1, ds1, ns2, ds2, i, lo, k);
  }

  /** What the loop of writei has done when tot bytes are written. */
  ghost predicate Written(ns0: seq<Inode>, ds0: seq<Block>, r0: Roles, ns: seq<Inode>, ds: seq<Block>, roles: Roles, i: int, off: int, src: seq<Byte>, tot: int)
    requires 0 <= tot <= |src|
  {
    && HasInode(ns, i) && SameSizes(ns0, ns) && TookFor(r0, roles, i)
    && Wrote(ns0, ds0, ns, ds, i, off, src[..tot])
    && Going(ns0, ds0, r0, ns, ds, roles, i, off, off + tot)
    && (tot == 0 || tot == |src| || (off + tot) % BSIZE == 0)
  }

  /** As much as is left or as the block has room for: a part lies within one block, and ends with it or with the whole. */
  lemma WithinBlock(off: int, tot: int, n: int)
    requires 0 <= off && 0 <= tot < n
    ensures var o := off + tot; var m := if n - tot < BSIZE - o % BSIZE then n - tot else BSIZE - o % BSIZE;
      0 < m && tot + m <= n && o % BSIZE + m <= BSIZE && (tot + m == n || (off + (tot + m)) % BSIZE == 0)
  {
  }

  lemma TurnStart(ns0: seq<Inode>, ds0: seq<Block>, r0: Roles, ns1: seq<Inode>, ds1: seq<Block>, r1: Roles, i: int, off: int, src: seq<Byte>, tot: int, m: int)
    requires 0 <= tot < |src| && Written(ns0, ds0, r0, ns1, ds1, r1, i, off, src, tot) && off + |src| <= MAXBYTES
    requires 0 < m && tot + m <= |src| && (off + tot) % BSIZE + m <= BSIZE
    ensures HasInode(ns0, i) && DataOk(ds0) && 0 <= off && (off + tot) / BSIZE < MAXFILE && HasInode(ns1, i) && DataOk(ds1)
    ensures FreeCount(r1) < Missing(ns1, ds1, i, (off + tot) / BSIZE) ==>
      FreeCount(r0) < Lacking(ns0, ds0, i, off / BSIZE, BlocksBetween(off, off + |src|))
  {
    GoingTakes(ns0, ds0, r0, ns1, ds1, r1, i, off, off + tot, m, off + |src|);
  }

  lemma TurnDone(ns0: seq<Inode>, ds0: seq<Block>, r0: Roles, ns1: seq<Inode>, ds1: seq<Block>, r1: Roles, ns2: seq<Inode>, ds2: seq<Block>, r2: Roles, i: int, off: int, src: seq<Byte>, tot: int, m: int)
    requires 0 <= tot < |src| && Written(ns0, ds0, r0, ns1, ds1, r1, i, off, src, tot) && off + |src| <= MAXBYTES
    requires 0 < m && tot + m <= |src| && (off + tot) % BSIZE + m <= BSIZE && (tot + m == |src| || (off + (tot + m)) % BSIZE == 0)
    requires HasInode(ns2, i) && SameSizes(ns1, ns2) && TookFor(r1, r2, i)
    requires 0 <= off && Took(ns1, ds1, r1, ns2, ds2, r2, i, (off + tot) / BSIZE) && Wrote(ns1, ds1, ns2, ds2, i, off + tot, src[tot..tot + m])
    ensures Written(ns0, ds0, r0, ns2, ds2, r2, i, off, src, tot + m)
  {
    GoingOn(ns0, ds0, r0, ns1, ds1, r1, ns2, ds2, r2, i, off, off + tot, m);
    hide Going, Took;
    TookTwice(r0, r1, r2, i);
    WroteTwice(ns0, ds0, ns1, ds1, ns2, ds2, i, off, src[..tot], src[tot..tot + m]);
    assert src[..tot] + src[tot..tot + m] == src[..tot + m];
  }

  /** Patching a data block moves nothing. */
  lemma TookAndPatched(ns0: seq<Inode>, ds0: seq<Block>, r0: Roles, ns1: seq<Inode>, ds1: seq<Block>, r1: Roles, ds2: seq<Block>, i: int, n: int)
    requires Took(ns0, ds0, r0, ns1, ds1, r1, i, n) && DataOk(ds2)
    requires forall m {:trigger Where(ns1, ds2, i, m)} :: 0 <= m < MAXFILE ==> Where(ns1, ds2, i, m) == Where(ns1, ds1, i, m)
    ensures Took(ns0, ds0, r0, ns1, ds2, r1, i, n)
  {
  }

  ghost predicate FilePlacesKept(ns0: seq<Inode>, ds0: seq<Block>, ns1: seq<Inode>, ds1: seq<Block>, i: int) {
    && HasInode(ns0, i) && HasInode(ns1, i) && DataOk(ds0) && DataOk(ds1)
    && forall m {:trigger Where(ns1, ds1, i, m)} :: 0 <= m < MAXFILE ==> Where(ns1, ds1, i, m) == Where(ns0, ds0, i, m)
  }

  lemma KeptPlaces(ns0: seq<Inode>, ds0: seq<Block>, ns1: seq<Inode>, ds1: seq<Block>, i: int)
    requires WhereKept(ns0, ds0, ns1, ds1) && HasInode(ns0, i) && HasInode(ns1, i)
    ensures FilePlacesKept(ns0, ds0, ns1, ds1, i)
  {
    forall m {:trigger Where(ns1, ds1, i, m)} | 0 <= m < MAXFILE
      ensures Where(ns1, ds1, i, m) == Where(ns0, ds0, i, m)
    {
      assert KeptAt(ns0, ds0, ns1, ds1, i, m);
    }
  }

  lemma GainedOnly(ns0: seq<Inode>, ds0: seq<Block>, ns1: seq<Inode>, ds1: seq<Block>, i: int, n: int, b: int)
    requires Gained(ns0, ds0, ns1, ds1, i, n, b) && HasInode(ns0, i) && HasInode(ns1, i) && 0 <= n < MAXFILE
    requires n >= NDIRECT ==> ns0[i].addrs[NDIRECT] != 0
    requires ns1[i].addrs[NDIRECT] == ns0[i].addrs[NDIRECT]
    ensures OnlyMapped(ns0, ds0, ns1, ds1, i, n)
  {
    forall m {:trigger Where(ns1, ds1, i, m)} | 0 <= m < MAXFILE && m != n
      ensures Where(ns1, ds1, i, m) == Where(ns0, ds0, i, m)
    {
      assert GainedAt(ns0, ds0, ns1, ds1, i, n, b, i, m);
    }
  }

  lemma OnlyTwice(ns0: seq<Inode>, ds0: seq<Block>, ns1: seq<Inode>, ds1: seq<Block>, ns2: seq<Inode>, ds2: seq<Block>, i: int, n: int)
    requires FilePlacesKept(ns0, ds0, ns1, ds1, i) && OnlyMapped(ns1, ds1, ns2, ds2, i, n) && NDIRECT <= n < MAXFILE
    ensures OnlyMapped(ns0, ds0, ns2, ds2, i, n)
  {
    forall m {:trigger Where(ns2, ds2, i, m)} | 0 <= m < MAXFILE && m != n
      ensures Where(ns2, ds2, i, m) == Where(ns0, ds0, i, m)
    {
      assert Where(ns2, ds2, i, m) == Where(ns1, ds1, i, m);
    }
  }

  lemma SameTwice(ns0: seq<Inode>, ds0: seq<Block>, ns1: seq<Inode>, ds1: seq<Block>, ns2: seq<Inode>, ds2: seq<Block>)
    requires SameBytes(ns0, ds0, ns1, ds1) && SameBytes(ns1, ds1, ns2, ds2) && SameSizes(ns0, ns1)
    ensures SameBytes(ns0, ds0, ns2, ds2)
  {
    forall j, p {:trigger SameByte(ns0, ds0, ns2, ds2, j, p)} | HasInode(ns0, j) && HasInode(ns2, j) && 0 <= p < MAXBYTES
      ensures SameByte(ns0, ds0, ns2, ds2, j, p)
    {
      assert HasInode(ns1, j);
      assert SameByte(ns0, ds0, ns1, ds1, j, p) && SameByte(ns1, ds1, ns2, ds2, j, p);
    }
  }

  lemma SameAgain(ns: seq<Inode>, ds: seq<Block>)
    requires DataOk(ds)
    ensures SameBytes(ns, ds, ns, ds)
  {
  }

  lemma SameBit(b: int, bi: int)
    requires b % BPB == 0
    ensures (b + bi) % 8 == bi % 8
  {
  }

  lemma BitInBlock(b: int)
    ensures b % BPB % 8 == b % 8
  {
  }

  lemma BitIs(bitmap: seq<bv8>, roles: Roles, b: int)
    requires BitmapOk(bitmap, roles) && 0 <= b < |roles|
    ensures b / 8 < |bitmap| && (bitmap[b / 8] & Mask(b % 8) != 0 <==> !roles[b].Free?)
  {
    assert Bit(bitmap, b) <==> !roles[b].Free?;
  }

  lemma BitSet(bitmap: seq<bv8>, roles: Roles, b: int, use: Role)
    requires BitmapOk(bitmap, roles) && 0 <= b < |roles| && !use.Free?
    ensures b / 8 < |bitmap| && (bitmap[b / 8] & Mask(b % 8) != 0 <==> !roles[b].Free?)
    ensures BitmapOk(bitmap[b / 8 := bitmap[b / 8] | Mask(b % 8)], roles[b := use])
  {
    assert Bit(bitmap, b) <==> !roles[b].Free?;
    var m := bitmap[b / 8 := bitmap[b / 8] | Mask(b % 8)];
    forall c {:trigger Bit(m, c)} | 0 <= c < |roles|
      ensures Bit(m, c) <==> c == b || Bit(bitmap, c)
    {
      if c / 8 == b / 8 {
        MaskSet(bitmap[b / 8], b % 8, c % 8);
      }
    }
  }

  lemma BitCleared(bitmap: seq<bv8>, roles: Roles, b: int)
    requires BitmapOk(bitmap, roles) && 0 <= b < |roles|
    ensures b / 8 < |bitmap| && (bitmap[b / 8] & Mask(b % 8) != 0 <==> !roles[b].Free?)
    ensures BitmapOk(bitmap[b / 8 := bitmap[b / 8] & !Mask(b % 8)], roles[b := Free])
  {
    assert Bit(bitmap, b) <==> !roles[b].Free?;
    var m := bitmap[b / 8 := bitmap[b / 8] & !Mask(b % 8)];
    forall c {:trigger Bit(m, c)} | 0 <= c < |roles|
      ensures Bit(m, c) <==> c != b && Bit(bitmap, c)
    {
      if c / 8 == b / 8 {
        MaskSet(bitmap[b / 8], b % 8, c % 8);
      }
    }
  }
}
