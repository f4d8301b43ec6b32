/**
  The page allocator of operating-systems/xv6-OS/kalloc.c and the address spaces
  of vm.c. An address is its page number, a size its number of pages.
 */
module AddressSpaces {
  import opened Wrappers
  import opened IntSets
  import opened PageCounts
  import opened PageTables

  type Content = seq<int>

  const ZERO: Content := []
  const JUNK: Content := [1]

  /** PTE_W and PTE_U */
  const WRITABLE := 2
  const USER := 4

  const PGSIZE := 4096

  /** The pages that a size takes up, PGROUNDUP over the page size. */
  function Pages(sz: int): int { (sz + PGSIZE - 1) / PGSIZE }

  /** They hold it, and one fewer would not. */
  lemma PagesHold(sz: int)
    ensures 4096 * (Pages(sz) - 1) < sz <= 4096 * Pages(sz)
  {
  }

  class Memory {
    var freelist: seq<int>
    var tables: Tables
    var data: map<int, Content>
    ghost var roles: Roles

    ghost predicate Valid()
      reads this
    {
      ListsFree(freelist, roles) && AllOk(tables, roles)
    }

    constructor ()
      ensures Valid() && freelist == [] && roles == map[]
    {
      freelist, tables, data, roles := [], map[], map[], map[];
    }

    method Kalloc() returns (r: Option<int>)
      requires Valid()
      modifies `freelist, `roles
      ensures Valid()
      ensures r.None? <==> old(freelist) == []
      ensures r.None? ==> roles == old(roles) && freelist == old(freelist)
      ensures r.Some? ==> IsRole(old(roles), r.value, Free) && roles == old(roles)[r.value := Held] && |freelist| == |old(freelist)| - 1
    {
      if freelist == [] {
        return None;
      }
      var p := freelist[0];
      Popped(freelist, roles, Held);
      Moved(tables, roles, p, Held);
      freelist := freelist[1..];
      roles := roles[p := Held];
      r := Some(p);
    }

    /** The junk hides whatever table or data the page held. */
    method Kfree(p: int)
      requires ListsFree(freelist, roles) && IsRole(roles, p, Held)
      modifies `freelist, `tables, `data, `roles
      ensures ListsFree(freelist, roles) && roles == old(roles)[p := Free]
      ensures data == old(data)[p := JUNK] && tables == old(tables) - {p}
    {
      Pushed(freelist, roles, p);
      data := data[p := JUNK];
      tables := tables - {p};
      freelist := [p] + freelist;
      roles := roles[p := Free];
    }

    /** freerange: pages that nobody had. */
    method FreeRange(lo: int, hi: int)
      requires Valid() && forall p :: lo <= p < hi ==> p !in roles
      modifies `freelist, `tables, `data, `roles
      ensures Valid()
      ensures forall p :: (p in roles <==> p in old(roles) || lo <= p < hi)
      ensures forall p :: p in roles ==> roles[p] == if p in old(roles) then old(roles)[p] else Free
    {
      var p := lo;
      while p < hi
        invariant Valid() && lo <= p && (p <= hi || p == lo)
        invariant forall q :: (q in roles <==> q in old(roles) || lo <= q < p)
        invariant forall q :: q in roles ==> roles[q] == if q in old(roles) then old(roles)[q] else Free
      {
        NewPage(tables, freelist, roles, p);
        roles := roles[p := Held];
        HeldFreed(tables, roles, p);
        Kfree(p);
        p := p + 1;
      }
    }

    /** walkpgdir: the page of the table with the entry for v. */
    method WalkPgdir(d: int, v: int, alloc: bool) returns (t: Option<int>)
      requires Valid() && IsRole(roles, d, Dir) && 0 <= v < PAGES
      modifies `freelist, `tables, `roles
      ensures Valid() && OnlyTook(old(roles), roles, d)
      ensures LeavesKept(old(tables), tables, old(roles), -1, 0, 0)
      ensures t.None? ==> tables == old(tables) && roles == old(roles) && freelist == old(freelist)
      ensures t.None? <==> MissingTable(old(tables), d, v) && (!alloc || old(freelist) == [])
      ensures t.Some? ==> IsRole(roles, t.value, TableOf(d, Pdx(v))) && IsTable(tables, t.value) && Index(Ptx(v))
      ensures t.Some? ==> LeafAt(tables, d, v) == tables[t.value][Ptx(v)]
      ensures !alloc ==> tables == old(tables) && roles == old(roles) && freelist == old(freelist)
      ensures t.Some? ==> Spent(old(tables), tables, d, v, 1, |old(freelist)| - |freelist|)
    {
      Split(v);
      OneNeeds(tables, d, v);
      EntryIsTable(tables, roles, d, Pdx(v));
      var pde := tables[d][Pdx(v)];
      if pde.Present? {
        return Some(pde.page);
      }
      if !alloc {
        return None;
      }
      var p := Kalloc();
      if p.None? {
        return None;
      }
      TableAdded(tables, roles, d, Pdx(v), p.value, WRITABLE + USER);
      tables := tables[p.value := NoEntries()][d := tables[d][Pdx(v) := Present(p.value, WRITABLE + USER)]];
      roles := roles[p.value := TableOf(d, Pdx(v))];
      t := p;
    }

    /**
      One turn of mappages' loop, for an address that is not mapped. A page in
      hand becomes a user page; what the kernel maps has no role here.
     */
    method MapPage(d: int, v: int, pa: int, perm: int) returns (ok: bool)
      requires Valid() && IsRole(roles, d, Dir) && 0 <= v < PAGES && LeafAt(tables, d, v) == Absent
      requires v < USER_PAGES ==> IsRole(roles, pa, Held)
      modifies `freelist, `tables, `roles
      ensures Valid()
      ensures !ok <==> MissingTable(old(tables), d, v) && old(freelist) == []
      ensures !ok ==> tables == old(tables) && roles == old(roles) && freelist == old(freelist)
      ensures ok ==> Spent(old(tables), tables, d, v, 1, |old(freelist)| - |freelist|)
      ensures ok ==> LeafAt(tables, d, v) == Present(pa, perm)
      ensures LeavesKept(old(tables), tables, old(roles), d, v, v + 1)
      ensures ok && v >= USER_PAGES ==> OnlyTook(old(roles), roles, d)
      ensures ok && v < USER_PAGES ==> OnlyTook(old(roles)[pa := Free], roles, d) && IsRole(roles, pa, UserOf(d, Pdx(v), Ptx(v)))
    {
      Split(v);
      var t := WalkPgdir(d, v, true);
      if t.None? {
        return false;
      }
      ghost var ts, rs := tables, roles;
      EntryAt(ts, rs, d, v, t.value, Present(pa, perm));
      if v < USER_PAGES {
        UserMapped(ts, rs, d, Pdx(v), t.value, Ptx(v), pa, perm);
        HeldMapped(freelist, rs, pa, UserOf(d, Pdx(v), Ptx(v)));
        roles := roles[pa := UserOf(d, Pdx(v), Ptx(v))];
      } else {
        KernelMapped(ts, rs, d, Pdx(v), t.value, Ptx(v), Present(pa, perm));
      }
      tables := tables[t.value := tables[t.value][Ptx(v) := Present(pa, perm)]];
      SpentSame(old(tables), ts, tables, d, v, 1, |old(freelist)| - |freelist|);
      ok := true;
    }

    /** The loop body of deallocuvm for a mapped page: kfree, then the entry is cleared. */
    method FreeEntry(d: int, v: int, t: int)
      requires Valid() && IsRole(roles, d, Dir) && 0 <= v < USER_PAGES && IsRole(roles, t, TableOf(d, Pdx(v)))
      requires IsTable(tables, t) && Index(Ptx(v)) && tables[t][Ptx(v)].Present? && LeafAt(tables, d, v) == tables[t][Ptx(v)]
      modifies `freelist, `tables, `data, `roles
      ensures Valid() && LeafAt(tables, d, v) == Absent
      ensures LeavesKept(old(tables), tables, old(roles), d, v, v + 1)
      ensures UserFreed(old(roles), roles, d, v, v + 1)
      ensures DataKept(old(roles), roles, old(data), data)
    {
      ghost var ts, rs := tables, roles;
      var q := tables[t][Ptx(v)].page;
      Split(v);
      LeafIsUser(ts, rs, d, Pdx(v), Ptx(v));
      UserUnmapped(ts, rs, d, Pdx(v), t, Ptx(v), q);
      EntryAt(ts, rs, d, v, t, Absent);
      HeldAgain(freelist, rs, q);
      roles := roles[q := Held];
      HeldFreed(WithEntry(ts, t, Ptx(v), Absent), roles, q);
      Kfree(q);
      tables := tables[t := tables[t][Ptx(v) := Absent]];
      assert tables == WithEntry(ts, t, Ptx(v), Absent) - {q};
      OneFreed(ts, rs, d, v, q);
    }

    method DeallocUvm(d: int, oldsz: int, newsz: int) returns (r: int)
      requires Valid() && IsRole(roles, d, Dir) && 0 <= newsz && oldsz <= PGSIZE * USER_PAGES
      modifies `freelist, `tables, `data, `roles
      ensures Valid() && r == if newsz >= oldsz then oldsz else newsz
      ensures forall v {:trigger LeafAt(tables, d, v)} :: Pages(newsz) <= v < Pages(oldsz) ==> LeafAt(tables, d, v) == Absent
      ensures LeavesKept(old(tables), tables, old(roles), d, Pages(newsz), Pages(oldsz))
      ensures UserFreed(old(roles), roles, d, Pages(newsz), Pages(oldsz))
      ensures DataKept(old(roles), roles, old(data), data)
    {
      if newsz >= oldsz {
        return oldsz;
      }
      ghost var r0, ts0, d0, lo, hi := roles, tables, data, Pages(newsz), Pages(oldsz);
      NotFreed(ts0, r0, d0, d, lo);
      hide Freeing, LeavesKept, DataKept, UserFreed, OnlyTook, AllOk, ListsFree;
      var v := Pages(newsz);
      while v < Pages(oldsz)
        invariant lo <= v && Valid() && Freeing(ts0, r0, d0, tables, roles, data, d, lo, Least(v, hi))
        decreases hi - v
      {
        ghost var r1, ts1, d1, u := roles, tables, data, v;
        FreeingRole(ts0, r0, d0, ts1, r1, d1, d, lo, v);
        var t := WalkPgdir(d, v, false);
        if t.None? {
          v := (Pdx(v) + 1) * ENTRIES - 1;
          NoTableNoLeaf(ts1, d, u);
        } else if tables[t.value][Ptx(v)].Present? {
          FreeEntry(d, v, t.value);
          FreedOne(ts0, r0, d0, ts1, r1, d1, tables, roles, data, d, lo, u);
        }
        v := v + 1;
        if roles == r1 && tables == ts1 && data == d1 {
          Skipped(ts0, r0, d0, ts1, r1, d1, d, lo, u, Least(v, hi));
        }
      }
      Freed(ts0, r0, d0, tables, roles, data, d, lo, hi);
      r := newsz;
    }

    /** Kernel ranges may be long; a user mapping is one page, which is in hand. False: out of memory. */
    method MapPages(d: int, v: int, n: int, pa: int, perm: int) returns (ok: bool)
      requires Valid() && IsRole(roles, d, Dir) && n >= 1 && 0 <= v && v + n <= PAGES
      requires forall w {:trigger LeafAt(tables, d, w)} :: v <= w < v + n ==> LeafAt(tables, d, w) == Absent
      requires v < USER_PAGES ==> n == 1 && IsRole(roles, pa, Held)
      modifies `freelist, `tables, `roles
      ensures Valid()
      ensures ok ==> forall w {:trigger LeafAt(tables, d, w)} :: v <= w < v + n ==> LeafAt(tables, d, w) == Present(pa + (w - v), perm)
      ensures LeavesKept(old(tables), tables, old(roles), d, v, v + n)
      ensures v >= USER_PAGES ==> OnlyTook(old(roles), roles, d)
      ensures ok && v < USER_PAGES ==> OnlyTook(old(roles)[pa := Free], roles, d) && IsRole(roles, pa, UserOf(d, Pdx(v), Ptx(v)))
      ensures !ok && v < USER_PAGES ==> roles == old(roles) && tables == old(tables)
      ensures ok <==> |old(freelist)| >= |Lacking(old(tables), d, v, n)|
      ensures ok ==> Spent(old(tables), tables, d, v, n, |old(freelist)| - |freelist|)
    {
      hide Spent, Lacking, Filled;
      SpentNothing(tables, d, v);
      var a, last, p := v, v + n - 1, pa;
      while true
        invariant v <= a <= last && p == pa + (a - v) && Valid()
        invariant v < USER_PAGES ==> tables == old(tables) && roles == old(roles)
        invariant OnlyTook(old(roles), roles, d)
        invariant LeavesKept(old(tables), tables, old(roles), d, v, a)
        invariant forall w {:trigger LeafAt(tables, d, w)} :: v <= w < a ==> LeafAt(tables, d, w) == Present(pa + (w - v), perm)
        invariant Spent(old(tables), tables, d, v, a - v, |old(freelist)| - |freelist|)
        decreases last - a
      {
        ghost var ts, rs := tables, roles;
        ghost var free := |freelist|;
        SpentNext(old(tables), tables, d, v, a - v, n, |old(freelist)| - free);
        assert LeafAt(tables, d, a) == LeafAt(old(tables), d, a);
        ok := MapPage(d, a, p, perm);
        LeavesTwice(old(tables), ts, tables, old(roles), rs, d, v, a);
        if !ok {
          return;
        }
        SpentTwice(old(tables), ts, tables, d, v, a - v, |old(freelist)| - free, free - |freelist|);
        if a >= USER_PAGES {
          TookTwice(old(roles), rs, roles, d);
        }
        if a == last {
          break;
        }
        a := a + 1;
        p := p + 1;
      }
      SpentIs(old(tables), tables, d, v, n, |old(freelist)| - |freelist|);
    }

    /**
      Success is the new size. Otherwise no user page has been added, though
      tables may have been.
     */
    method AllocUvm(d: int, oldsz: int, newsz: int) returns (r: int)
      requires Valid() && IsRole(roles, d, Dir) && 0 <= oldsz && 0 <= newsz
      requires forall v {:trigger LeafAt(tables, d, v)} :: Pages(oldsz) <= v < Pages(newsz) && v < USER_PAGES ==> LeafAt(tables, d, v) == Absent
      modifies `freelist, `tables, `data, `roles
      ensures Valid() && OnlyTook(old(roles), roles, d) && DataKept(old(roles), roles, old(data), data)
      ensures newsz >= PGSIZE * USER_PAGES ==> r == 0
      ensures newsz < PGSIZE * USER_PAGES && newsz < oldsz ==> r == oldsz
      ensures oldsz <= newsz < PGSIZE * USER_PAGES ==> var lo, n := Pages(oldsz), Pages(newsz) - Pages(oldsz);
        r == if |old(freelist)| >= n + |Lacking(old(tables), d, lo, n)| then newsz else 0
      ensures oldsz <= newsz == r < PGSIZE * USER_PAGES ==>
        && LeavesKept(old(tables), tables, old(roles), d, Pages(oldsz), Pages(newsz))
        && AllZeroed(tables, old(roles), data, d, Pages(oldsz), Pages(newsz))
      ensures !(oldsz <= newsz == r < PGSIZE * USER_PAGES) ==>
        && LeavesKept(old(tables), tables, old(roles), -1, 0, 0)
        && NoNewUsers(old(roles), roles)
    {
      if newsz >= PGSIZE * USER_PAGES {
        return 0;
      }
      if newsz < oldsz {
        return oldsz;
      }
      r := Extend(d, oldsz, newsz);
    }

    /** The loop of allocuvm. */
    method Extend(d: int, oldsz: int, newsz: int) returns (r: int)
      requires Valid() && IsRole(roles, d, Dir) && 0 <= oldsz <= newsz < PGSIZE * USER_PAGES
      requires forall v {:trigger LeafAt(tables, d, v)} :: Pages(oldsz) <= v < Pages(newsz) ==> LeafAt(tables, d, v) == Absent
      modifies `freelist, `tables, `data, `roles
      ensures Valid() && OnlyTook(old(roles), roles, d) && DataKept(old(roles), roles, old(data), data)
      ensures var lo, n := Pages(oldsz), Pages(newsz) - Pages(oldsz);
        r == if |old(freelist)| >= n + |Lacking(old(tables), d, lo, n)| then newsz else 0
      ensures r == newsz ==>
        && LeavesKept(old(tables), tables, old(roles), d, Pages(oldsz), Pages(newsz))
        && AllZeroed(tables, old(roles), data, d, Pages(oldsz), Pages(newsz))
      ensures r != newsz ==> LeavesKept(old(tables), tables, old(roles), -1, 0, 0) && NoNewUsers(old(roles), roles)
    {
      hide Growing, Needs, NoNewUsers, Spent, Lacking, LeavesKept, OnlyTook, DataKept, AllZeroed, UserFreed, AllOk, ListsFree;
      ghost var r0, ts0, d0, free0 := roles, tables, data, |freelist|;
      ghost var lo, n := Pages(oldsz), Pages(newsz) - Pages(oldsz);
      NotGrown(ts0, r0, d0, d, lo);
      var v := Pages(oldsz);
      while v < Pages(newsz)
        invariant lo <= v <= Pages(newsz) && Valid()
        invariant Growing(ts0, r0, d0, tables, roles, data, d, lo, v, free0 - |freelist| - (v - lo))
      {
        ghost var r1, ts1, d1, free := roles, tables, data, |freelist|;
        ghost var spent := free0 - free - (v - lo);
        NextToGrow(ts0, r0, d0, ts1, r1, d1, d, lo, v, Pages(newsz), spent);
        var ok, mem := GrowOne(d, v);
        if !ok {
          Undo(d, oldsz, newsz, mem, r1);
          GrowthUndone(ts0, r0, d0, ts1, r1, d1, tables, roles, data, d, lo, v, Pages(newsz), spent);
          return 0;
        }
        GrownAgain(ts0, r0, d0, ts1, r1, d1, tables, roles, data, d, lo, v, spent, free - |freelist| - 1);
        v := v + 1;
      }
      Grown(ts0, r0, d0, tables, roles, data, d, lo, v, free0 - |freelist| - n);
      r := newsz;
    }

    /** The loop body of allocuvm. On failure mem is the page in hand, if kalloc gave one. */
    method GrowOne(d: int, v: int) returns (ok: bool, mem: Option<int>)
      requires Valid() && IsRole(roles, d, Dir) && 0 <= v < USER_PAGES && LeafAt(tables, d, v) == Absent
      modifies `freelist, `tables, `data, `roles
      ensures Valid() && DataKept(old(roles), roles, old(data), data)
      ensures ok ==> OnlyTook(old(roles), roles, d) && LeavesKept(old(tables), tables, old(roles), d, v, v + 1)
      ensures ok ==> Zeroed(tables, old(roles), data, d, v)
      ensures !ok ==> tables == old(tables)
      ensures !ok && mem.None? ==> roles == old(roles)
      ensures !ok && mem.Some? ==> IsRole(old(roles), mem.value, Free) && roles == old(roles)[mem.value := Held]
      ensures ok <==> |old(freelist)| >= 1 + Needs(old(tables), d, v)
      ensures ok ==> Spent(old(tables), tables, d, v, 1, |old(freelist)| - |freelist| - 1)
    {
      OneNeeds(tables, d, v);
      mem := Kalloc();
      if mem.None? {
        return false, None;
      }
      data := data[mem.value := ZERO];
      ok := MapPages(d, v, 1, mem.value, WRITABLE + USER);
      assert old(roles)[mem.value := Held][mem.value := Free] == old(roles);
      if ok {
        assert LeafAt(tables, d, v) == Present(mem.value, WRITABLE + USER);
      }
    }

    /** What allocuvm does when it runs out of memory. */
    method Undo(d: int, oldsz: int, newsz: int, mem: Option<int>, ghost r1: Roles)
      requires Valid() && IsRole(r1, d, Dir) && 0 <= oldsz && newsz <= PGSIZE * USER_PAGES
      requires oldsz < newsz
      requires if mem.None? then roles == r1 else IsRole(r1, mem.value, Free) && roles == r1[mem.value := Held]
      modifies `freelist, `tables, `data, `roles
      ensures Valid() && UserFreed(r1, roles, d, Pages(oldsz), Pages(newsz))
      ensures LeavesKept(old(tables), tables, r1, d, Pages(oldsz), Pages(newsz))
      ensures forall v {:trigger LeafAt(tables, d, v)} :: Pages(oldsz) <= v < Pages(newsz) ==> LeafAt(tables, d, v) == Absent
      ensures DataKept(r1, roles, old(data), data)
    {
      var s := DeallocUvm(d, newsz, oldsz);
      if mem.Some? {
        ghost var ts, rs, ds := tables, roles, data;
        HeldFreed(ts, rs, mem.value);
        Kfree(mem.value);
        assert UserFreed(r1, roles, d, Pages(oldsz), Pages(newsz)) by {
          forall p {:trigger roles[p]} {:trigger r1[p]} | p in r1
            ensures roles[p] == if IsUser(r1[p], d, Pages(oldsz), Pages(newsz)) then Free else r1[p]
          {
            assert old(roles)[p] == if mem.value == p then Held else r1[p];
          }
        }
        SameLeaves(old(tables), ts, tables, r1, rs, d, Pages(oldsz), Pages(newsz));
      }
    }

    /** freevm: every page of the address space goes to the free list, and no other. */
    method FreeVm(d: int)
      requires Valid() && IsRole(roles, d, Dir)
      modifies `freelist, `tables, `data, `roles
      ensures Valid() && SpaceFreed(old(roles), roles, d)
      ensures LeavesElsewhere(old(tables), tables, old(roles), d)
      ensures DataKept(old(roles), roles, old(data), data)
    {
      ghost var r0, ts0, d0 := roles, tables, data;
      var s := DeallocUvm(d, PGSIZE * USER_PAGES, 0);
      assert forall v {:trigger LeafAt(tables, d, v)} :: 0 <= v < USER_PAGES ==> LeafAt(tables, d, v) == Absent;
      OnlyTables(tables, roles, d);
      StartFreed(r0, roles, d);
      for i := 0 to ENTRIES
        invariant ListsFree(freelist, roles) && OthersOk(tables, roles, d) && TablesFrom(tables, roles, d, i)
        invariant PartFreed(r0, roles, d) && LeavesElsewhere(ts0, tables, r0, d)
        invariant DataKept(r0, roles, d0, data)
      {
        ghost var r1, ts1, d1 := roles, tables, data;
        if tables[d][i].Present? {
          FreeTable(d, i, r0);
          FreedAgain(r0, ts0, d0, r1, ts1, d1, roles, tables, data, d);
        } else {
          NoTable(tables, roles, d, i);
        }
      }
      ghost var r1, ts1, d1 := roles, tables, data;
      FreeDir(d, r0);
      FreedAgain(r0, ts0, d0, r1, ts1, d1, roles, tables, data, d);
    }

    /** The loop body of freevm. */
    method FreeTable(d: int, i: nat, ghost r0: Roles)
      requires ListsFree(freelist, roles) && OthersOk(tables, roles, d) && TablesFrom(tables, roles, d, i)
      requires i < ENTRIES && tables[d][i].Present? && PartFreed(r0, roles, d)
      modifies `freelist, `tables, `data, `roles
      ensures ListsFree(freelist, roles) && OthersOk(tables, roles, d) && TablesFrom(tables, roles, d, i + 1)
      ensures PartFreed(r0, roles, d)
      ensures LeavesElsewhere(old(tables), tables, old(roles), d)
      ensures PartFreed(old(roles), roles, d) && DataKept(old(roles), roles, old(data), data)
    {
      TableFreed(tables, roles, d, i);
      var v := tables[d][i].page;
      ghost var rs := roles;
      HeldAgain(freelist, roles, v);
      roles := roles[v := Held];
      Kfree(v);
      assert roles == rs[v := Free];
    }

    method FreeDir(d: int, ghost r0: Roles)
      requires ListsFree(freelist, roles) && OthersOk(tables, roles, d) && TablesFrom(tables, roles, d, ENTRIES) && PartFreed(r0, roles, d)
      requires IsRole(r0, d, Dir)
      modifies `freelist, `tables, `data, `roles
      ensures Valid() && SpaceFreed(r0, roles, d)
      ensures LeavesElsewhere(old(tables), tables, old(roles), d)
      ensures PartFreed(old(roles), roles, d) && DataKept(old(roles), roles, old(data), data)
    {
      DirFreed(tables, roles, d);
      ghost var rs := roles;
      HeldAgain(freelist, roles, d);
      roles := roles[d := Held];
      Kfree(d);
      assert roles == rs[d := Free];
    }

    /** setupkvm: an address space with the kernel's mappings and nothing else. None: out of memory, and nothing has changed. */
    method SetupKvm(kmap: seq<Kmap>) returns (r: Option<int>)
      requires Valid() && KmapOk(kmap)
      modifies `freelist, `tables, `data, `roles
      ensures Valid() && DataKept(old(roles), roles, old(data), data)
      ensures LeavesKept(old(tables), tables, old(roles), -1, 0, 0)
      ensures r.None? ==> roles == old(roles)
      ensures r.Some? ==> IsRole(old(roles), r.value, Free) && IsRole(roles, r.value, Dir) && OnlyTook(old(roles), roles, r.value)
      ensures r.Some? ==> KernelOnly(tables, r.value, kmap, |kmap|)
      ensures r.Some? <==> |old(freelist)| >= 1 + |KernelTables(kmap, |kmap|)|
      ensures r.Some? ==> |freelist| == |old(freelist)| - 1 - |KernelTables(kmap, |kmap|)| && HasTables(tables, r.value, KernelTables(kmap, |kmap|))
    {
      ghost var r0, ts0, d0 := roles, tables, data;
      KernelTablesUpTo(kmap, 0);
      r := Kalloc();
      if r.None? {
        return;
      }
      var d := r.value;
      DirAdded(tables, roles, d);
      HeldMapped(freelist, roles, d, Dir);
      tables := tables[d := NoEntries()];
      roles := roles[d := Dir];
      StartKernel(ts0, r0, d0, tables, roles, d, kmap);
      var ok := MapKernel(d, kmap, ts0, r0);
      if !ok {
        Discard(d, r0, ts0, d0);
        return None;
      }
      Built(ts0, r0, tables, roles, d, kmap);
    }

    /** The loop of setupkvm. */
    method MapKernel(d: int, kmap: seq<Kmap>, ghost ts0: Tables, ghost r0: Roles) returns (ok: bool)
      requires Valid() && KmapOk(kmap) && Building(ts0, r0, tables, roles, d, kmap, 0)
      modifies `freelist, `tables, `roles
      ensures Valid() && (ok <==> |old(freelist)| >= |KernelTables(kmap, |kmap|)|)
      ensures ok ==> Building(ts0, r0, tables, roles, d, kmap, |kmap|) && |freelist| == |old(freelist)| - |KernelTables(kmap, |kmap|)|
      ensures !ok ==> IsRole(r0, d, Free) && IsRole(roles, d, Dir) && OnlyTook(r0, roles, d) && LeavesKept(ts0, tables, r0, -1, 0, 0)
    {
      hide Building, Spent;
      for k := 0 to |kmap|
        invariant Valid() && Building(ts0, r0, tables, roles, d, kmap, k) && |freelist| == |old(freelist)| - |KernelTables(kmap, k)|
      {
        ghost var r1, ts1, free := roles, tables, |freelist|;
        NextRange(ts0, r0, ts1, r1, d, kmap, k);
        ok := MapPages(d, kmap[k].virt, kmap[k].n, kmap[k].phys, kmap[k].perm);
        if !ok {
          RangeFailed(ts0, r0, ts1, r1, tables, roles, d, kmap, k);
          return;
        }
        RangeMapped(ts0, r0, ts1, r1, tables, roles, d, kmap, k, free - |freelist|);
      }
      ok := true;
    }

    /** freevm of an address space that was made from free pages undoes all of it. */
    method Discard(c: int, ghost r0: Roles, ghost ts0: Tables, ghost d0: map<int, Content>)
      requires Valid() && IsRole(roles, c, Dir) && AllOk(ts0, r0) && IsRole(r0, c, Free) && OnlyTook(r0, roles, c)
      requires LeavesKept(ts0, tables, r0, -1, 0, 0) && DataKept(r0, roles, d0, data)
      modifies `freelist, `tables, `data, `roles
      ensures Valid() && roles == r0
      ensures LeavesKept(ts0, tables, r0, -1, 0, 0) && DataKept(r0, roles, d0, data)
    {
      ghost var r1, ts1, d1 := roles, tables, data;
      FreeVm(c);
      Restored(ts0, r0, r1, roles, c);
      DataKeptTwice(r0, r1, roles, d0, d1, data, c);
      forall e, v {:trigger LeafAt(tables, e, v)} | IsRole(r0, e, Dir) && 0 <= v < PAGES
        ensures LeafAt(tables, e, v) == LeafAt(ts0, e, v)
      {
        assert IsRole(r1, e, Dir) && LeafAt(ts1, e, v) == LeafAt(ts0, e, v);
      }
    }

    /** The loop body of copyuvm for address v, whose entry in d is there. False: out of memory. */
    method CopyOne(d: int, c: int, v: int) returns (ok: bool)
      requires Valid() && IsRole(roles, d, Dir) && IsRole(roles, c, Dir) && 0 <= v < USER_PAGES
      requires LeafAt(tables, d, v).Present? && LeafAt(tables, c, v) == Absent
      modifies `freelist, `tables, `data, `roles
      ensures Valid() && DataKept(old(roles), roles, old(data), data) && OnlyTook(old(roles), roles, c)
      ensures LeavesKept(old(tables), tables, old(roles), c, v, if ok then v + 1 else v)
      ensures !ok ==> LeavesKept(old(tables), tables, old(roles), -1, 0, 0)
      ensures ok ==> Copied(LeafAt(old(tables), d, v), old(data), old(roles), LeafAt(tables, c, v), data)
      ensures ok <==> |old(freelist)| >= 1 + Needs(old(tables), c, v)
      ensures ok ==> Spent(old(tables), tables, c, v, 1, |old(freelist)| - |freelist| - 1)
    {
      OneNeeds(tables, c, v);
      ghost var r0, ts0 := roles, tables;
      var t := WalkPgdir(d, v, false);
      Split(v);
      LeafIsUser(tables, roles, d, Pdx(v), Ptx(v));
      var pte := tables[t.value][Ptx(v)];
      var pa, flags := pte.page, pte.flags;
      var mem := Kalloc();
      if mem.None? {
        return false;
      }
      data := data[mem.value := Contents(data, pa)];
      ok := MapPages(c, v, 1, mem.value, flags);
      assert r0[mem.value := Held][mem.value := Free] == r0;
      if !ok {
        HeldFreed(tables, roles, mem.value);
        Kfree(mem.value);
        assert roles == r0;
        return false;
      }
      assert LeafAt(tables, c, v) == Present(mem.value, flags);
    }

    /**
      copyuvm: below sz the copy has equal contents and flags on pages that were
      free, above it nothing but the kernel. None: out of memory, and no page has
      changed its role.
     */
    method CopyUvm(d: int, sz: int, kmap: seq<Kmap>) returns (r: Option<int>)
      requires Valid() && IsRole(roles, d, Dir) && KmapOk(kmap) && 0 <= sz <= PGSIZE * USER_PAGES
      requires forall v {:trigger LeafAt(tables, d, v)} :: 0 <= v < Pages(sz) ==> LeafAt(tables, d, v).Present?
      modifies `freelist, `tables, `data, `roles
      ensures Valid() && DataKept(old(roles), roles, old(data), data)
      ensures LeavesKept(old(tables), tables, old(roles), -1, 0, 0)
      ensures r.None? ==> roles == old(roles)
      ensures r.Some? ==> IsRole(old(roles), r.value, Free) && IsRole(roles, r.value, Dir) && OnlyTook(old(roles), roles, r.value)
      ensures r.Some? ==> CopyOf(old(tables), old(data), old(roles), d, tables, data, r.value, kmap, Pages(sz))
      ensures r.Some? <==> |old(freelist)| >= 1 + |KernelTables(kmap, |kmap|)| + Pages(sz) + |TableNumbers(0, Pages(sz))|
    {
      ghost var r0, ts0, d0 := roles, tables, data;
      r := SetupKvm(kmap);
      if r.None? {
        return;
      }
      var c := r.value;
      StartCopy(ts0, r0, d0, d, tables, roles, data, c, kmap);
      var ok := CopyPages(d, c, Pages(sz), kmap, ts0, r0, d0);
      if !ok {
        Discard(c, r0, ts0, d0);
        return None;
      }
      CopyDone(ts0, r0, d0, d, tables, roles, data, c, kmap, Pages(sz));
    }

    /** The loop of copyuvm. */
    method CopyPages(d: int, c: int, n: nat, kmap: seq<Kmap>, ghost ts0: Tables, ghost r0: Roles, ghost d0: map<int, Content>) returns (ok: bool)
      requires Valid() && KmapOk(kmap) && n <= USER_PAGES && AllOk(ts0, r0) && Copying(ts0, r0, d0, d, tables, roles, data, c, kmap, 0)
      requires forall v {:trigger LeafAt(ts0, d, v)} :: 0 <= v < n ==> LeafAt(ts0, d, v).Present?
      modifies `freelist, `tables, `data, `roles
      ensures Valid() && (ok <==> |old(freelist)| >= n + |TableNumbers(0, n)|)
      ensures ok ==> Copying(ts0, r0, d0, d, tables, roles, data, c, kmap, n)
      ensures !ok ==> IsRole(r0, c, Free) && IsRole(roles, c, Dir) && OnlyTook(r0, roles, c) && LeavesKept(ts0, tables, r0, -1, 0, 0) && DataKept(r0, roles, d0, data)
    {
      hide Copying, KernelTables, Spent, Needs;
      for v := 0 to n
        invariant Valid() && Copying(ts0, r0, d0, d, tables, roles, data, c, kmap, v) && |freelist| == |old(freelist)| - v - |TableNumbers(0, v)|
      {
        ghost var r1, ts1, d1, free := roles, tables, data, |freelist|;
        NextToCopy(ts0, r0, d0, d, ts1, r1, d1, c, kmap, v, n);
        ok := CopyOne(d, c, v);
        if !ok {
          CopyKept(ts0, r0, d0, d, ts1, r1, d1, tables, roles, data, c, kmap, v);
          return;
        }
        CopiedAgain(ts0, r0, d0, d, ts1, r1, d1, tables, roles, data, c, kmap, v, free - |freelist| - 1);
      }
      ok := true;
    }
  }

  // ----- deallocuvm

  function Least(a: int, b: int): int { if a < b then a else b }

  /** Of d's pages those from lo up to v have been freed. */
  ghost predicate Freeing(ts0: Tables, r0: Roles, d0: map<int, Content>, ts1: Tables, r1: Roles, d1: map<int, Content>, d: int, lo: int, v: int) {
    && IsRole(r1, d, Dir) && DataKept(r0, r1, d0, d1) && UserFreed(r0, r1, d, lo, v) && LeavesKept(ts0, ts1, r0, d, lo, v)
    && forall w {:trigger LeafAt(ts1, d, w)} :: lo <= w < v ==> LeafAt(ts1, d, w) == Absent
  }

  lemma NotFreed(tables: Tables, roles: Roles, data: map<int, Content>, d: int, lo: int)
    requires AllOk(tables, roles) && IsRole(roles, d, Dir)
    ensures Freeing(tables, roles, data, tables, roles, data, d, lo, lo)
  {
    NothingThere(tables, roles, d, lo, lo);
  }

  lemma FreeingRole(ts0: Tables, r0: Roles, d0: map<int, Content>, ts1: Tables, r1: Roles, d1: map<int, Content>, d: int, lo: int, v: int)
    requires Freeing(ts0, r0, d0, ts1, r1, d1, d, lo, v)
    ensures IsRole(r1, d, Dir)
  {
  }

  /** Without a table nothing is mapped up to the next one. */
  lemma NoTableNoLeaf(tables: Tables, d: int, v: int)
    requires 0 <= v && MissingTable(tables, d, v)
    ensures v < (Pdx(v) + 1) * ENTRIES
    ensures forall w {:trigger LeafAt(tables, d, w)} :: v <= w < (Pdx(v) + 1) * ENTRIES ==> LeafAt(tables, d, w) == Absent
  {
  }

  lemma FreedOne(ts0: Tables, r0: Roles, d0: map<int, Content>, ts1: Tables, r1: Roles, d1: map<int, Content>, ts2: Tables, r2: Roles, d2: map<int, Content>, d: int, lo: int, v: int)
    requires Freeing(ts0, r0, d0, ts1, r1, d1, d, lo, v) && IsRole(r0, d, Dir) && 0 <= lo <= v < USER_PAGES
    requires LeafAt(ts2, d, v) == Absent && LeavesKept(ts1, ts2, r1, d, v, v + 1) && UserFreed(r1, r2, d, v, v + 1) && DataKept(r1, r2, d1, d2)
    ensures Freeing(ts0, r0, d0, ts2, r2, d2, d, lo, v + 1)
  {
    FreedTwice(r0, r1, r2, d, lo, v, v + 1);
    forall e, w {:trigger LeafAt(ts2, e, w)} | IsRole(r0, e, Dir) && 0 <= w < PAGES
      ensures !(e == d && lo <= w < v + 1) ==> LeafAt(ts2, e, w) == LeafAt(ts0, e, w)
      ensures e == d && lo <= w < v + 1 ==> LeafAt(ts2, e, w) == Absent
    {
      assert r1[e] == r0[e];
      assert LeafAt(ts1, e, w) == LeafAt(ts1, e, w);
    }
    forall p {:trigger p in d2} {:trigger p in d0} | p in r0 && p in r2 && !r0[p].Free? && r2[p] == r0[p]
      ensures (p in d2 <==> p in d0) && (p in d0 ==> d2[p] == d0[p])
    {
      assert r1[p] == if IsUser(r0[p], d, lo, v) then Free else r0[p];
      assert r2[p] == if IsUser(r1[p], d, v, v + 1) then Free else r1[p];
      assert p in d1 <==> p in d0;
    }
  }

  lemma Skipped(ts0: Tables, r0: Roles, d0: map<int, Content>, ts1: Tables, r1: Roles, d1: map<int, Content>, d: int, lo: int, v: int, w: int)
    requires Freeing(ts0, r0, d0, ts1, r1, d1, d, lo, v) && AllOk(ts1, r1) && lo <= v <= w
    requires forall u {:trigger LeafAt(ts1, d, u)} :: v <= u < w ==> LeafAt(ts1, d, u) == Absent
    ensures Freeing(ts0, r0, d0, ts1, r1, d1, d, lo, w)
  {
    NothingThere(ts1, r1, d, v, w);
    FreedTwice(r0, r1, r1, d, lo, v, w);
  }

  lemma Freed(ts0: Tables, r0: Roles, d0: map<int, Content>, ts1: Tables, r1: Roles, d1: map<int, Content>, d: int, lo: int, v: int)
    requires Freeing(ts0, r0, d0, ts1, r1, d1, d, lo, v)
    ensures DataKept(r0, r1, d0, d1) && UserFreed(r0, r1, d, lo, v) && LeavesKept(ts0, ts1, r0, d, lo, v)
    ensures forall w {:trigger LeafAt(ts1, d, w)} :: lo <= w < v ==> LeafAt(ts1, d, w) == Absent
  {
  }

  // ----- How many pages it takes

  /** The tables of the first k kernel ranges. */
  ghost function KernelTables(kmap: seq<Kmap>, k: nat): set<int>
    requires k <= |kmap|
  {
    if k == 0 then {} else KernelTables(kmap, k - 1) + TableNumbers(kmap[k - 1].virt, kmap[k - 1].n)
  }

  lemma {:induction false} KernelTablesUpTo(kmap: seq<Kmap>, k: nat)
    requires KmapOk(kmap) && k <= |kmap|
    ensures KernelTables(kmap, k) <= KernelTables(kmap, |kmap|) && |KernelTables(kmap, k)| <= |KernelTables(kmap, |kmap|)|
    decreases |kmap| - k
  {
    if k < |kmap| {
      KernelTablesUpTo(kmap, k + 1);
    }
    SubsetSize(KernelTables(kmap, k), KernelTables(kmap, |kmap|));
  }

  lemma {:induction false} KernelTablesAbove(kmap: seq<Kmap>, k: nat)
    requires KmapOk(kmap) && k <= |kmap|
    ensures forall i :: i in KernelTables(kmap, k) ==> i >= USER_TABLES
  {
    if k != 0 {
      KernelTablesAbove(kmap, k - 1);
      TableNumbersAre(kmap[k - 1].virt, kmap[k - 1].n);
    }
  }

  /** The table that copying page v takes. */
  lemma UserTableNext(tables: Tables, c: int, kmap: seq<Kmap>, v: int, all: int)
    requires KmapOk(kmap) && 0 <= v < all <= USER_PAGES && HasTables(tables, c, KernelTables(kmap, |kmap|) + TableNumbers(0, v))
    ensures |TableNumbers(0, v + 1)| == |TableNumbers(0, v)| + Needs(tables, c, v)
    ensures |TableNumbers(0, v + 1)| <= |TableNumbers(0, all)|
  {
    KernelTablesAbove(kmap, |kmap|);
    NumbersGrow(0, v + 1, all);
    Split(v);
    assert MissingTable(tables, c, v) <==> Pdx(v) !in TableNumbers(0, v);
    if Pdx(v) in TableNumbers(0, v) {
      assert TableNumbers(0, v + 1) == TableNumbers(0, v);
    }
  }

  lemma UserTableAdded(ts0: Tables, ts1: Tables, c: int, kmap: seq<Kmap>, v: int, spent: int)
    requires 0 <= v < USER_PAGES && HasTables(ts0, c, KernelTables(kmap, |kmap|) + TableNumbers(0, v)) && Spent(ts0, ts1, c, v, 1, spent)
    ensures HasTables(ts1, c, KernelTables(kmap, |kmap|) + TableNumbers(0, v + 1)) && spent == Needs(ts0, c, v)
  {
    var s := KernelTables(kmap, |kmap|) + TableNumbers(0, v);
    SpentHas(ts0, ts1, c, s, v, 1, spent);
    OneNeeds(ts0, c, v);
    assert TableNumbers(v, 0) == {};
    assert s + TableNumbers(v, 1) == KernelTables(kmap, |kmap|) + TableNumbers(0, v + 1);
  }

  lemma NewPage(tables: Tables, list: seq<int>, roles: Roles, p: int)
    requires AllOk(tables, roles) && ListsFree(list, roles) && p !in roles
    ensures AllOk(tables, roles[p := Held]) && ListsFree(list, roles[p := Held])
  {
    forall q {:trigger PageOk(tables, roles[p := Held], q)} | q in roles
      ensures PageOk(tables, roles[p := Held], q)
    {
      assert PageOk(tables, roles, q);
    }
  }

  /** A range of the kernel, in pages. */
  datatype Kmap = Kmap(virt: int, phys: int, n: int, perm: int)

  ghost predicate InRange(m: Kmap, v: int) { m.virt <= v < m.virt + m.n }

  ghost predicate KmapOk(kmap: seq<Kmap>) {
    && (forall k {:trigger kmap[k]} :: 0 <= k < |kmap| ==> kmap[k].n >= 1 && USER_PAGES <= kmap[k].virt && kmap[k].virt + kmap[k].n <= PAGES)
    && (forall k, l, v {:trigger InRange(kmap[k], v), InRange(kmap[l], v)} :: 0 <= k < l < |kmap| && InRange(kmap[k], v) ==> !InRange(kmap[l], v))
  }

  /** kmap of vm.c, the kernel's data beginning at physical page data. */
  function KernelMap(data: int): seq<Kmap> {
    [Kmap(0x80000, 0, 0x100, WRITABLE),
     Kmap(0x80100, 0x100, data - 0x100, 0),
     Kmap(0x80000 + data, data, 0xE000 - data, WRITABLE),
     Kmap(0xFE000, 0xFE000, 0x2000, WRITABLE)]
  }

  lemma FourRanges(kmap: seq<Kmap>)
    requires |kmap| == 4
    ensures KernelTables(kmap, 1) == TableNumbers(kmap[0].virt, kmap[0].n)
    ensures KernelTables(kmap, 2) == KernelTables(kmap, 1) + TableNumbers(kmap[1].virt, kmap[1].n)
    ensures KernelTables(kmap, 3) == KernelTables(kmap, 2) + TableNumbers(kmap[2].virt, kmap[2].n)
    ensures KernelTables(kmap, 4) == KernelTables(kmap, 3) + TableNumbers(kmap[3].virt, kmap[3].n)
  {
    hide TableNumbers;
  }

  lemma InLowTables(data: int, i: int)
    requires 0x100 < data < 0xE000
    ensures 512 <= i < 568 <==>
      Pdx(0x80000) <= i <= Pdx(0x80000 + 0x100 - 1) || Pdx(0x80100) <= i <= Pdx(0x80100 + (data - 0x100) - 1)
      || Pdx(0x80000 + data) <= i <= Pdx(0x80000 + data + (0xE000 - data) - 1)
  {
  }

  lemma LowTables(data: int, low: set<int>)
    requires 0x100 < data < 0xE000
    requires low == TableNumbers(0x80000, 0x100) + TableNumbers(0x80100, data - 0x100) + TableNumbers(0x80000 + data, 0xE000 - data)
    ensures forall i :: i in low <==> 512 <= i < 568
  {
    hide TableNumbers;
    TableNumbersAre(0x80000, 0x100);
    TableNumbersAre(0x80100, data - 0x100);
    TableNumbersAre(0x80000 + data, 0xE000 - data);
    hide Pdx;
    forall i
      ensures i in low <==> 512 <= i < 568
    {
      InLowTables(data, i);
    }
  }

  lemma SixtyFour(low: set<int>, high: set<int>)
    requires forall i :: i in low <==> 512 <= i < 568
    requires forall i :: i in high <==> 1016 <= i < 1024
    ensures |low + high| == 64
  {
    AtMostRange(low, 512, 56);
    AtLeastRange(low, 512, 56);
    AtMostRange(high, 1016, 8);
    AtLeastRange(high, 1016, 8);
    assert low !! high;
  }

  lemma KernelMapTables(data: int)
    requires 0x100 < data < 0xE000
    ensures |KernelTables(KernelMap(data), 4)| == 64
  {
    var kmap := KernelMap(data);
    hide TableNumbers, KernelTables;
    FourRanges(kmap);
    LowTables(data, KernelTables(kmap, 3));
    TableNumbersAre(0xFE000, 0x2000);
    SixtyFour(KernelTables(kmap, 3), TableNumbers(0xFE000, 0x2000));
  }

  lemma KernelMapOk(data: int)
    requires 0x100 < data < 0xE000
    ensures KmapOk(KernelMap(data)) && |KernelTables(KernelMap(data), 4)| == 64
  {
    var kmap := KernelMap(data);
    KernelMapTables(data);
    forall k, l, v {:trigger InRange(kmap[k], v), InRange(kmap[l], v)} | 0 <= k < l < |kmap| && InRange(kmap[k], v)
      ensures !InRange(kmap[l], v)
    {
    }
  }

  /**
    The kernel's memory is all of physical memory from 0 on, shifted by KERNBASE, and the devices stand where they are.
    Only its text and read-only data, from 1 MB up to the data, cannot be written; users see none of it.
   */
  lemma KernelMapShows(data: int, v: int)
    requires 0x100 < data < 0xE000 && 0 <= v < PAGES
    ensures KernelEntry(KernelMap(data), 4, v) ==
      if 0x80000 <= v < 0x8E000 then Present(v - 0x80000, if 0x80100 <= v < 0x80000 + data then 0 else WRITABLE)
      else if 0xFE000 <= v then Present(v, WRITABLE) else Absent
  {
    var m := KernelMap(data);
    assert KernelEntry(m, 0, v) == Absent;
    assert KernelEntry(m, 1, v) == if InRange(m[0], v) then Present(m[0].phys + (v - m[0].virt), m[0].perm) else Absent;
    assert KernelEntry(m, 2, v) == if InRange(m[1], v) then Present(m[1].phys + (v - m[1].virt), m[1].perm) else KernelEntry(m, 1, v);
    assert KernelEntry(m, 3, v) == if InRange(m[2], v) then Present(m[2].phys + (v - m[2].virt), m[2].perm) else KernelEntry(m, 2, v);
  }

  ghost function KernelEntry(kmap: seq<Kmap>, k: nat, v: int): Entry
    requires k <= |kmap|
  {
    if k == 0 then Absent
    else if InRange(kmap[k - 1], v) then Present(kmap[k - 1].phys + (v - kmap[k - 1].virt), kmap[k - 1].perm)
    else KernelEntry(kmap, k - 1, v)
  }

  /** The first k kernel ranges are mapped, and nothing else. */
  ghost predicate KernelOnly(tables: Tables, c: int, kmap: seq<Kmap>, k: nat)
    requires k <= |kmap|
  {
    forall v {:trigger LeafAt(tables, c, v)} :: 0 <= v < PAGES ==> LeafAt(tables, c, v) == KernelEntry(kmap, k, v)
  }

  lemma {:induction false} NoKernelEntry(kmap: seq<Kmap>, k: nat, v: int)
    requires KmapOk(kmap) && k <= |kmap| && (v < USER_PAGES || (k < |kmap| && InRange(kmap[k], v)) || exists l :: k <= l < |kmap| && InRange(kmap[l], v))
    ensures KernelEntry(kmap, k, v) == Absent
  {
    if k != 0 {
      assert !InRange(kmap[k - 1], v);
      if v >= USER_PAGES {
        var l :| k <= l < |kmap| && InRange(kmap[l], v);
      }
      NoKernelEntry(kmap, k - 1, v);
    }
  }

  lemma NextUnmapped(tables: Tables, c: int, kmap: seq<Kmap>, k: nat)
    requires KmapOk(kmap) && k < |kmap| && KernelOnly(tables, c, kmap, k)
    ensures forall w {:trigger LeafAt(tables, c, w)} :: kmap[k].virt <= w < kmap[k].virt + kmap[k].n ==> LeafAt(tables, c, w) == Absent
  {
    forall w {:trigger LeafAt(tables, c, w)} | kmap[k].virt <= w < kmap[k].virt + kmap[k].n
      ensures LeafAt(tables, c, w) == Absent
    {
      assert InRange(kmap[k], w);
      NoKernelEntry(kmap, k, w);
    }
  }

  lemma NextMapped(ts1: Tables, r1: Roles, ts2: Tables, c: int, kmap: seq<Kmap>, k: nat)
    requires k < |kmap| && KernelOnly(ts1, c, kmap, k) && IsRole(r1, c, Dir)
    requires LeavesKept(ts1, ts2, r1, c, kmap[k].virt, kmap[k].virt + kmap[k].n)
    requires forall w {:trigger LeafAt(ts2, c, w)} :: kmap[k].virt <= w < kmap[k].virt + kmap[k].n ==> LeafAt(ts2, c, w) == Present(kmap[k].phys + (w - kmap[k].virt), kmap[k].perm)
    ensures KernelOnly(ts2, c, kmap, k + 1)
  {
    forall v {:trigger LeafAt(ts2, c, v)} | 0 <= v < PAGES
      ensures LeafAt(ts2, c, v) == KernelEntry(kmap, k + 1, v)
    {
      assert LeafAt(ts1, c, v) == KernelEntry(kmap, k, v);
    }
  }

  lemma NoTablesYet(tables: Tables, d: int, kmap: seq<Kmap>)
    requires d in tables && tables[d] == NoEntries()
    ensures HasTables(tables, d, KernelTables(kmap, 0)) && KernelOnly(tables, d, kmap, 0)
  {
    forall w {:trigger MissingTable(tables, d, w)} | 0 <= w < PAGES
      ensures MissingTable(tables, d, w)
    {
      Split(w);
    }
  }

  /** A directory that was free, with the first k kernel ranges mapped and nothing else. */
  ghost predicate Building(ts0: Tables, r0: Roles, ts1: Tables, r1: Roles, d: int, kmap: seq<Kmap>, k: nat)
    requires k <= |kmap|
  {
    && IsRole(r0, d, Free) && IsRole(r1, d, Dir) && OnlyTook(r0, r1, d) && LeavesKept(ts0, ts1, r0, -1, 0, 0)
    && KernelOnly(ts1, d, kmap, k) && HasTables(ts1, d, KernelTables(kmap, k))
  }

  lemma StartKernel(ts0: Tables, r0: Roles, data: map<int, Content>, ts1: Tables, r1: Roles, d: int, kmap: seq<Kmap>)
    requires IsRole(r0, d, Free) && IsRole(r1, d, Dir) && OnlyTook(r0, r1, d) && LeavesKept(ts0, ts1, r0, -1, 0, 0)
    requires d in ts1 && ts1[d] == NoEntries()
    ensures Building(ts0, r0, ts1, r1, d, kmap, 0) && KernelTables(kmap, 0) == {} && DataKept(r0, r1, data, data)
  {
    NoTablesYet(ts1, d, kmap);
  }

  lemma NextRange(ts0: Tables, r0: Roles, ts1: Tables, r1: Roles, d: int, kmap: seq<Kmap>, k: nat)
    requires KmapOk(kmap) && k < |kmap| && Building(ts0, r0, ts1, r1, d, kmap, k)
    ensures IsRole(r1, d, Dir)
    ensures forall w {:trigger LeafAt(ts1, d, w)} :: kmap[k].virt <= w < kmap[k].virt + kmap[k].n ==> LeafAt(ts1, d, w) == Absent
    ensures |KernelTables(kmap, k)| + |Lacking(ts1, d, kmap[k].virt, kmap[k].n)| <= |KernelTables(kmap, |kmap|)|
  {
    NextUnmapped(ts1, d, kmap, k);
    LackingOutside(ts1, d, KernelTables(kmap, k), kmap[k].virt, kmap[k].n);
    KernelTablesUpTo(kmap, k + 1);
  }

  lemma RangeFailed(ts0: Tables, r0: Roles, ts1: Tables, r1: Roles, ts2: Tables, r2: Roles, d: int, kmap: seq<Kmap>, k: nat)
    requires k < |kmap| && Building(ts0, r0, ts1, r1, d, kmap, k)
    requires OnlyTook(r1, r2, d) && LeavesKept(ts1, ts2, r1, d, kmap[k].virt, kmap[k].virt + kmap[k].n)
    ensures IsRole(r0, d, Free) && IsRole(r2, d, Dir) && OnlyTook(r0, r2, d) && LeavesKept(ts0, ts2, r0, -1, 0, 0)
  {
    TookTwice(r0, r1, r2, d);
    KeptElsewhere(ts0, r0, ts1, r1, ts2, d, kmap[k].virt, kmap[k].virt + kmap[k].n);
  }

  lemma RangeMapped(ts0: Tables, r0: Roles, ts1: Tables, r1: Roles, ts2: Tables, r2: Roles, d: int, kmap: seq<Kmap>, k: nat, spent: int)
    requires KmapOk(kmap) && k < |kmap| && Building(ts0, r0, ts1, r1, d, kmap, k)
    requires OnlyTook(r1, r2, d) && LeavesKept(ts1, ts2, r1, d, kmap[k].virt, kmap[k].virt + kmap[k].n)
    requires forall w {:trigger LeafAt(ts2, d, w)} :: kmap[k].virt <= w < kmap[k].virt + kmap[k].n ==> LeafAt(ts2, d, w) == Present(kmap[k].phys + (w - kmap[k].virt), kmap[k].perm)
    requires Spent(ts1, ts2, d, kmap[k].virt, kmap[k].n, spent)
    ensures Building(ts0, r0, ts2, r2, d, kmap, k + 1) && |KernelTables(kmap, k + 1)| == |KernelTables(kmap, k)| + spent
  {
    RangeFailed(ts0, r0, ts1, r1, ts2, r2, d, kmap, k);
    SpentHas(ts1, ts2, d, KernelTables(kmap, k), kmap[k].virt, kmap[k].n, spent);
    NextMapped(ts1, r1, ts2, d, kmap, k);
  }

  lemma Built(ts0: Tables, r0: Roles, ts1: Tables, r1: Roles, d: int, kmap: seq<Kmap>)
    requires Building(ts0, r0, ts1, r1, d, kmap, |kmap|)
    ensures IsRole(r0, d, Free) && IsRole(r1, d, Dir) && OnlyTook(r0, r1, d) && LeavesKept(ts0, ts1, r0, -1, 0, 0)
    ensures KernelOnly(ts1, d, kmap, |kmap|) && HasTables(ts1, d, KernelTables(kmap, |kmap|))
  {
  }

  /** What was there before c was made is as it was. */
  lemma KeptElsewhere(ts0: Tables, r0: Roles, ts1: Tables, r1: Roles, ts2: Tables, c: int, lo: int, hi: int)
    requires LeavesKept(ts0, ts1, r0, -1, 0, 0) && OnlyTook(r0, r1, c) && IsRole(r0, c, Free)
    requires LeavesKept(ts1, ts2, r1, c, lo, hi)
    ensures LeavesKept(ts0, ts2, r0, -1, 0, 0)
  {
    forall e, v {:trigger LeafAt(ts2, e, v)} | IsRole(r0, e, Dir) && 0 <= v < PAGES
      ensures LeafAt(ts2, e, v) == LeafAt(ts0, e, v)
    {
      assert IsRole(r1, e, Dir) && LeafAt(ts1, e, v) == LeafAt(ts0, e, v);
    }
  }

  lemma Restored(ts0: Tables, r0: Roles, r1: Roles, r2: Roles, c: int)
    requires AllOk(ts0, r0) && IsRole(r0, c, Free) && OnlyTook(r0, r1, c) && SpaceFreed(r1, r2, c)
    ensures r2 == r0
  {
    forall p | p in r0
      ensures r2[p] == r0[p]
    {
      assert p in r1;
      if p != c {
        NothingBelongs(ts0, r0, c, p);
      }
    }
  }

  // ----- copyuvm

  function Contents(data: map<int, Content>, p: int): Content {
    if p in data then data[p] else JUNK
  }

  /** The entry of the copy: another page, which was free, with equal contents and flags. */
  ghost predicate Copied(e: Entry, d0: map<int, Content>, r0: Roles, f: Entry, d1: map<int, Content>) {
    && e.Present? && f.Present? && f.flags == e.flags && f.page != e.page
    && IsRole(r0, f.page, Free) && f.page in d1 && d1[f.page] == Contents(d0, e.page)
  }

  ghost predicate CopyAt(ts0: Tables, d0: map<int, Content>, r0: Roles, d: int, ts1: Tables, d1: map<int, Content>, c: int, kmap: seq<Kmap>, n: int, v: int) {
    if v < n then Copied(LeafAt(ts0, d, v), d0, r0, LeafAt(ts1, c, v), d1)
    else LeafAt(ts1, c, v) == if v < USER_PAGES then Absent else KernelEntry(kmap, |kmap|, v)
  }

  /** The first n pages have been copied, and above them there is only the kernel. */
  ghost predicate CopyOf(ts0: Tables, d0: map<int, Content>, r0: Roles, d: int, ts1: Tables, d1: map<int, Content>, c: int, kmap: seq<Kmap>, n: int) {
    forall v {:trigger CopyAt(ts0, d0, r0, d, ts1, d1, c, kmap, n, v)} :: 0 <= v < PAGES ==> CopyAt(ts0, d0, r0, d, ts1, d1, c, kmap, n, v)
  }

  /** The state of the copying: what was there is as it was, and the first n pages of d have been copied to c. */
  ghost predicate Copying(ts0: Tables, r0: Roles, d0: map<int, Content>, d: int, ts1: Tables, r1: Roles, d1: map<int, Content>, c: int, kmap: seq<Kmap>, n: int) {
    && IsRole(r0, d, Dir) && IsRole(r0, c, Free) && IsRole(r1, c, Dir) && OnlyTook(r0, r1, c) && DataKept(r0, r1, d0, d1)
    && LeavesKept(ts0, ts1, r0, -1, 0, 0) && CopyOf(ts0, d0, r0, d, ts1, d1, c, kmap, n)
    && HasTables(ts1, c, KernelTables(kmap, |kmap|) + TableNumbers(0, n))
  }

  lemma StartCopy(ts0: Tables, r0: Roles, d0: map<int, Content>, d: int, ts1: Tables, r1: Roles, d1: map<int, Content>, c: int, kmap: seq<Kmap>)
    requires KmapOk(kmap) && KernelOnly(ts1, c, kmap, |kmap|) && HasTables(ts1, c, KernelTables(kmap, |kmap|))
    requires IsRole(r0, d, Dir) && IsRole(r0, c, Free) && IsRole(r1, c, Dir) && OnlyTook(r0, r1, c) && DataKept(r0, r1, d0, d1) && LeavesKept(ts0, ts1, r0, -1, 0, 0)
    ensures Copying(ts0, r0, d0, d, ts1, r1, d1, c, kmap, 0) && TableNumbers(0, 0) == {}
  {
    assert KernelTables(kmap, |kmap|) + TableNumbers(0, 0) == KernelTables(kmap, |kmap|);
    forall v {:trigger CopyAt(ts0, d0, r0, d, ts1, d1, c, kmap, 0, v)} | 0 <= v < PAGES
      ensures CopyAt(ts0, d0, r0, d, ts1, d1, c, kmap, 0, v)
    {
      assert LeafAt(ts1, c, v) == KernelEntry(kmap, |kmap|, v);
      if v < USER_PAGES {
        NoKernelEntry(kmap, |kmap|, v);
      }
    }
  }

  lemma NextToCopy(ts0: Tables, r0: Roles, d0: map<int, Content>, d: int, ts1: Tables, r1: Roles, d1: map<int, Content>, c: int, kmap: seq<Kmap>, v: int, all: int)
    requires KmapOk(kmap) && Copying(ts0, r0, d0, d, ts1, r1, d1, c, kmap, v) && 0 <= v < all <= USER_PAGES
    ensures IsRole(r1, d, Dir) && IsRole(r1, c, Dir) && LeafAt(ts1, c, v) == Absent && LeafAt(ts1, d, v) == LeafAt(ts0, d, v)
    ensures |TableNumbers(0, v + 1)| == |TableNumbers(0, v)| + Needs(ts1, c, v) <= |TableNumbers(0, all)|
  {
    UserTableNext(ts1, c, kmap, v, all);
    assert CopyAt(ts0, d0, r0, d, ts1, d1, c, kmap, v, v);
  }

  /** A failed turn leaves what was there. */
  lemma CopyKept(ts0: Tables, r0: Roles, d0: map<int, Content>, d: int, ts1: Tables, r1: Roles, d1: map<int, Content>, ts2: Tables, r2: Roles, d2: map<int, Content>, c: int, kmap: seq<Kmap>, v: int)
    requires Copying(ts0, r0, d0, d, ts1, r1, d1, c, kmap, v)
    requires OnlyTook(r1, r2, c) && LeavesKept(ts1, ts2, r1, -1, 0, 0) && DataKept(r1, r2, d1, d2)
    ensures IsRole(r2, c, Dir) && OnlyTook(r0, r2, c) && IsRole(r0, c, Free)
    ensures LeavesKept(ts0, ts2, r0, -1, 0, 0) && DataKept(r0, r2, d0, d2)
  {
    TookTwice(r0, r1, r2, c);
    DataKeptTwice(r0, r1, r2, d0, d1, d2, c);
    KeptElsewhere(ts0, r0, ts1, r1, ts2, c, v, v);
  }

  lemma CopiedAgain(ts0: Tables, r0: Roles, d0: map<int, Content>, d: int, ts1: Tables, r1: Roles, d1: map<int, Content>, ts2: Tables, r2: Roles, d2: map<int, Content>, c: int, kmap: seq<Kmap>, v: int, spent: int)
    requires AllOk(ts0, r0) && AllOk(ts1, r1) && 0 <= v < USER_PAGES && Copying(ts0, r0, d0, d, ts1, r1, d1, c, kmap, v)
    requires OnlyTook(r1, r2, c) && LeavesKept(ts1, ts2, r1, c, v, v + 1) && DataKept(r1, r2, d1, d2)
    requires Copied(LeafAt(ts1, d, v), d1, r1, LeafAt(ts2, c, v), d2) && Spent(ts1, ts2, c, v, 1, spent)
    ensures Copying(ts0, r0, d0, d, ts2, r2, d2, c, kmap, v + 1) && spent == Needs(ts1, c, v)
  {
    UserTableAdded(ts1, ts2, c, kmap, v, spent);
    TookTwice(r0, r1, r2, c);
    DataKeptTwice(r0, r1, r2, d0, d1, d2, c);
    KeptElsewhere(ts0, r0, ts1, r1, ts2, c, v, v + 1);
    hide HasTables, KernelTables, TableNumbers, Spent;
    assert LeafAt(ts1, d, v) == LeafAt(ts0, d, v);
    forall w {:trigger CopyAt(ts0, d0, r0, d, ts2, d2, c, kmap, v + 1, w)} | 0 <= w < PAGES
      ensures CopyAt(ts0, d0, r0, d, ts2, d2, c, kmap, v + 1, w)
    {
      CopyAtKept(ts0, r0, d0, d, ts1, r1, d1, ts2, r2, d2, c, kmap, v, w);
    }
  }

  lemma CopyAtKept(ts0: Tables, r0: Roles, d0: map<int, Content>, d: int, ts1: Tables, r1: Roles, d1: map<int, Content>, ts2: Tables, r2: Roles, d2: map<int, Content>, c: int, kmap: seq<Kmap>, v: int, w: int)
    requires AllOk(ts0, r0) && AllOk(ts1, r1) && IsRole(r0, d, Dir) && IsRole(r1, c, Dir) && IsRole(r0, c, Free) && 0 <= v < USER_PAGES && 0 <= w < PAGES
    requires CopyOf(ts0, d0, r0, d, ts1, d1, c, kmap, v) && OnlyTook(r0, r1, c) && DataKept(r0, r1, d0, d1)
    requires LeafAt(ts1, d, v) == LeafAt(ts0, d, v)
    requires OnlyTook(r1, r2, c) && LeavesKept(ts1, ts2, r1, c, v, v + 1) && DataKept(r1, r2, d1, d2)
    requires Copied(LeafAt(ts1, d, v), d1, r1, LeafAt(ts2, c, v), d2)
    ensures CopyAt(ts0, d0, r0, d, ts2, d2, c, kmap, v + 1, w)
  {
    hide KernelEntry;
    assert CopyAt(ts0, d0, r0, d, ts1, d1, c, kmap, v, w);
    if w == v {
      Split(v);
      LeafIsUser(ts0, r0, d, Pdx(v), Ptx(v));
      assert LeafAt(ts0, d, v).page in r1 && LeafAt(ts2, c, v).page in r0;
    } else {
      assert LeafAt(ts2, c, w) == LeafAt(ts1, c, w);
      if w < v {
        Split(w);
        LeafIsUser(ts1, r1, c, Pdx(w), Ptx(w));
        assert LeafAt(ts1, c, w).page in r2;
      }
    }
  }

  lemma CopyDone(ts0: Tables, r0: Roles, d0: map<int, Content>, d: int, ts1: Tables, r1: Roles, d1: map<int, Content>, c: int, kmap: seq<Kmap>, n: int)
    requires Copying(ts0, r0, d0, d, ts1, r1, d1, c, kmap, n)
    ensures IsRole(r0, c, Free) && IsRole(r1, c, Dir) && OnlyTook(r0, r1, c) && DataKept(r0, r1, d0, d1)
    ensures LeavesKept(ts0, ts1, r0, -1, 0, 0) && CopyOf(ts0, d0, r0, d, ts1, d1, c, kmap, n)
  {
  }

  /** d's pages became free, and nothing happened to any other page. */
  ghost predicate SpaceFreed(r0: Roles, r1: Roles, d: int) {
    r1.Keys == r0.Keys && forall p {:trigger p in r0} {:trigger p in r1} :: p in r0 ==> r1[p] == if Belongs(r0, p, d) then Free else r0[p]
  }

  /** Some of them did. */
  ghost predicate PartFreed(r0: Roles, r1: Roles, d: int) {
    r1.Keys == r0.Keys && forall p {:trigger p in r0} {:trigger p in r1} :: p in r0 ==> r1[p] == r0[p] || (Belongs(r0, p, d) && r1[p].Free?)
  }

  lemma StartFreed(r0: Roles, r1: Roles, d: int)
    requires UserFreed(r0, r1, d, 0, USER_PAGES)
    ensures PartFreed(r0, r1, d)
  {
    forall p {:trigger p in r0} {:trigger p in r1} | p in r0
      ensures r1[p] == r0[p] || (Belongs(r0, p, d) && r1[p].Free?)
    {
      assert r1[p] == if IsUser(r0[p], d, 0, USER_PAGES) then Free else r0[p];
    }
  }

  /** The leaves of all other directories are as before. */
  ghost predicate LeavesElsewhere(ts0: Tables, ts1: Tables, roles: Roles, d: int) {
    forall e, v {:trigger LeafAt(ts1, e, v)} :: IsRole(roles, e, Dir) && 0 <= v < PAGES && e != d ==> LeafAt(ts1, e, v) == LeafAt(ts0, e, v)
  }

  lemma FreedAgain<T>(r0: Roles, ts0: Tables, d0: map<int, T>, r1: Roles, ts1: Tables, d1: map<int, T>, r2: Roles, ts2: Tables, d2: map<int, T>, d: int)
    requires PartFreed(r0, r1, d) && LeavesElsewhere(ts0, ts1, r0, d) && DataKept(r0, r1, d0, d1)
    requires PartFreed(r1, r2, d) && LeavesElsewhere(ts1, ts2, r1, d) && DataKept(r1, r2, d1, d2)
    ensures LeavesElsewhere(ts0, ts2, r0, d) && DataKept(r0, r2, d0, d2)
  {
    forall e, v {:trigger LeafAt(ts2, e, v)} | IsRole(r0, e, Dir) && 0 <= v < PAGES && e != d
      ensures LeafAt(ts2, e, v) == LeafAt(ts0, e, v)
    {
      assert IsRole(r1, e, Dir);
      assert LeafAt(ts1, e, v) == LeafAt(ts0, e, v);
    }
    forall p {:trigger p in d2} {:trigger p in d0} | p in r0 && p in r2 && !r0[p].Free? && r2[p] == r0[p]
      ensures (p in d2 <==> p in d0) && (p in d0 ==> d2[p] == d0[p])
    {
      assert p in r1 && r1[p] == r0[p];
      assert p in d1 <==> p in d0;
    }
  }

  /** A new page of zeros that was free before. */
  ghost predicate Zeroed(tables: Tables, r0: Roles, data: map<int, Content>, d: int, v: int) {
    var e := LeafAt(tables, d, v);
    e.Present? && e.flags == WRITABLE + USER && IsRole(r0, e.page, Free) && e.page in data && data[e.page] == ZERO
  }

  ghost predicate AllZeroed(tables: Tables, r0: Roles, data: map<int, Content>, d: int, lo: int, hi: int) {
    forall v {:trigger Zeroed(tables, r0, data, d, v)} :: lo <= v < hi ==> Zeroed(tables, r0, data, d, v)
  }

  ghost predicate NoNewUsers(r0: Roles, r1: Roles) {
    forall p {:trigger p in r1} :: p in r1 && r1[p].UserOf? ==> p in r0 && r0[p] == r1[p]
  }

  lemma SameLeaves(ts0: Tables, ts1: Tables, ts2: Tables, r0: Roles, r1: Roles, d: int, lo: int, hi: int)
    requires LeavesKept(ts0, ts1, r0, d, lo, hi) && LeavesKept(ts1, ts2, r1, -1, 0, 0) && IsRole(r0, d, Dir)
    requires forall e :: IsRole(r0, e, Dir) ==> IsRole(r1, e, Dir)
    requires 0 <= lo && hi <= PAGES
    requires forall v {:trigger LeafAt(ts1, d, v)} :: lo <= v < hi ==> LeafAt(ts1, d, v) == Absent
    ensures LeavesKept(ts0, ts2, r0, d, lo, hi)
    ensures forall v {:trigger LeafAt(ts2, d, v)} :: lo <= v < hi ==> LeafAt(ts2, d, v) == Absent
  {
    forall e, w {:trigger LeafAt(ts2, e, w)} | IsRole(r0, e, Dir) && 0 <= w < PAGES
      ensures LeafAt(ts2, e, w) == LeafAt(ts1, e, w)
    {
    }
    forall e, w {:trigger LeafAt(ts2, e, w)} | IsRole(r0, e, Dir) && 0 <= w < PAGES && !(e == d && lo <= w < hi)
      ensures LeafAt(ts2, e, w) == LeafAt(ts0, e, w)
    {
      assert LeafAt(ts1, e, w) == LeafAt(ts0, e, w);
    }
  }

  /** Pages that never left d's or another's hands keep their contents over two steps. */
  lemma DataKeptTwice<T>(r0: Roles, r1: Roles, r2: Roles, d0: map<int, T>, d1: map<int, T>, d2: map<int, T>, d: int)
    requires DataKept(r0, r1, d0, d1) && DataKept(r1, r2, d1, d2) && OnlyTook(r0, r1, d)
    ensures DataKept(r0, r2, d0, d2)
  {
    forall p {:trigger p in d2} {:trigger p in d0} | p in r0 && p in r2 && !r0[p].Free? && r2[p] == r0[p]
      ensures (p in d2 <==> p in d0) && (p in d0 ==> d2[p] == d0[p])
    {
      assert p in r1 && r1[p] == r0[p];
      assert p in d1 <==> p in d0;
    }
  }

  /** The pages from lo up to v of a growth of d are there, and have taken that many tables. */
  ghost predicate Growing(ts0: Tables, r0: Roles, d0: map<int, Content>, ts1: Tables, r1: Roles, d1: map<int, Content>, d: int, lo: int, v: int, spent: int) {
    && IsRole(r1, d, Dir) && OnlyTook(r0, r1, d) && DataKept(r0, r1, d0, d1)
    && LeavesKept(ts0, ts1, r0, d, lo, v) && AllZeroed(ts1, r0, d1, d, lo, v)
    && Spent(ts0, ts1, d, lo, v - lo, spent)
  }

  lemma NotGrown(tables: Tables, roles: Roles, data: map<int, Content>, d: int, lo: int)
    requires IsRole(roles, d, Dir)
    ensures Growing(tables, roles, data, tables, roles, data, d, lo, lo, 0)
  {
    SpentNothing(tables, d, lo);
  }

  lemma NextToGrow(ts0: Tables, r0: Roles, d0: map<int, Content>, ts1: Tables, r1: Roles, d1: map<int, Content>, d: int, lo: int, v: int, hi: int, spent: int)
    requires Growing(ts0, r0, d0, ts1, r1, d1, d, lo, v, spent) && IsRole(r0, d, Dir) && 0 <= lo <= v < hi <= USER_PAGES
    requires forall w {:trigger LeafAt(ts0, d, w)} :: lo <= w < hi ==> LeafAt(ts0, d, w) == Absent
    ensures IsRole(r1, d, Dir) && LeafAt(ts1, d, v) == Absent
    ensures spent + Needs(ts1, d, v) <= |Lacking(ts0, d, lo, hi - lo)|
  {
    hide Spent;
    assert LeafAt(ts1, d, v) == LeafAt(ts0, d, v);
    SpentNext(ts0, ts1, d, lo, v - lo, hi - lo, spent);
  }

  /** One more page of a growth. */
  lemma GrownAgain(ts0: Tables, r0: Roles, d0: map<int, Content>, ts1: Tables, r1: Roles, d1: map<int, Content>, ts2: Tables, r2: Roles, d2: map<int, Content>, d: int, lo: int, v: int, spent: int, more: int)
    requires AllOk(ts1, r1) && Growing(ts0, r0, d0, ts1, r1, d1, d, lo, v, spent) && 0 <= lo <= v < USER_PAGES
    requires OnlyTook(r1, r2, d) && LeavesKept(ts1, ts2, r1, d, v, v + 1) && DataKept(r1, r2, d1, d2) && Zeroed(ts2, r1, d2, d, v)
    requires Spent(ts1, ts2, d, v, 1, more)
    ensures Growing(ts0, r0, d0, ts2, r2, d2, d, lo, v + 1, spent + more)
  {
    SpentTwice(ts0, ts1, ts2, d, lo, v - lo, spent, more);
    hide Spent;
    assert IsRole(r2, d, Dir);
    TookTwice(r0, r1, r2, d);
    LeavesTwice(ts0, ts1, ts2, r0, r1, d, lo, v);
    DataKeptTwice(r0, r1, r2, d0, d1, d2, d);
    ZeroedAgain(ts0, r0, ts1, r1, d1, ts2, r2, d2, d, lo, v);
  }

  lemma ZeroedAgain(ts0: Tables, r0: Roles, ts1: Tables, r1: Roles, d1: map<int, Content>, ts2: Tables, r2: Roles, d2: map<int, Content>, d: int, lo: int, v: int)
    requires AllOk(ts1, r1) && IsRole(r1, d, Dir) && 0 <= lo <= v < USER_PAGES && OnlyTook(r0, r1, d)
    requires AllZeroed(ts1, r0, d1, d, lo, v)
    requires OnlyTook(r1, r2, d) && LeavesKept(ts1, ts2, r1, d, v, v + 1) && DataKept(r1, r2, d1, d2) && Zeroed(ts2, r1, d2, d, v)
    ensures AllZeroed(ts2, r0, d2, d, lo, v + 1)
  {
    forall w {:trigger Zeroed(ts2, r0, d2, d, w)} | lo <= w < v + 1
      ensures Zeroed(ts2, r0, d2, d, w)
    {
      if w < v {
        assert Zeroed(ts1, r0, d1, d, w);
        assert LeafAt(ts1, d, w) == LeafAt(ts2, d, w);
        Split(w);
        LeafIsUser(ts1, r1, d, Pdx(w), Ptx(w));
        assert r2[LeafAt(ts1, d, w).page] == r1[LeafAt(ts1, d, w).page];
      } else {
        assert LeafAt(ts2, d, v).page in r0;
      }
    }
  }

  lemma GrowthUndone(ts0: Tables, r0: Roles, d0: map<int, Content>, ts1: Tables, r1: Roles, d1: map<int, Content>, ts2: Tables, r2: Roles, d2: map<int, Content>, d: int, lo: int, v: int, hi: int, spent: int)
    requires AllOk(ts0, r0) && AllOk(ts1, r1) && IsRole(r0, d, Dir) && 0 <= lo <= v <= hi <= USER_PAGES
    requires Growing(ts0, r0, d0, ts1, r1, d1, d, lo, v, spent)
    requires forall w {:trigger LeafAt(ts0, d, w)} :: lo <= w < hi ==> LeafAt(ts0, d, w) == Absent
    requires UserFreed(r1, r2, d, lo, hi) && LeavesKept(ts1, ts2, r1, d, lo, hi) && DataKept(r1, r2, d1, d2)
    requires forall w {:trigger LeafAt(ts2, d, w)} :: lo <= w < hi ==> LeafAt(ts2, d, w) == Absent
    ensures OnlyTook(r0, r2, d) && NoNewUsers(r0, r2) && LeavesKept(ts0, ts2, r0, -1, 0, 0) && DataKept(r0, r2, d0, d2)
  {
    RolledBack(ts0, r0, ts1, r1, ts2, r2, d, lo, v, hi);
    DataKeptTwice(r0, r1, r2, d0, d1, d2, d);
  }

  lemma Grown(ts0: Tables, r0: Roles, d0: map<int, Content>, ts1: Tables, r1: Roles, d1: map<int, Content>, d: int, lo: int, v: int, spent: int)
    requires Growing(ts0, r0, d0, ts1, r1, d1, d, lo, v, spent)
    ensures OnlyTook(r0, r1, d) && DataKept(r0, r1, d0, d1) && LeavesKept(ts0, ts1, r0, d, lo, v) && AllZeroed(ts1, r0, d1, d, lo, v)
    ensures spent == |Lacking(ts0, d, lo, v - lo)|
  {
  }

  lemma LeavesTwice(ts0: Tables, ts1: Tables, ts2: Tables, r0: Roles, r1: Roles, d: int, lo: int, v: int)
    requires LeavesKept(ts0, ts1, r0, d, lo, v) && LeavesKept(ts1, ts2, r1, d, v, v + 1) && lo <= v && OnlyTook(r0, r1, d)
    ensures LeavesKept(ts0, ts2, r0, d, lo, v + 1)
  {
    forall e, w {:trigger LeafAt(ts2, e, w)} | IsRole(r0, e, Dir) && 0 <= w < PAGES && !(e == d && lo <= w < v + 1)
      ensures LeafAt(ts2, e, w) == LeafAt(ts0, e, w)
    {
      assert LeafAt(ts1, e, w) == LeafAt(ts0, e, w);
      assert IsRole(r1, e, Dir);
    }
  }

  /** Undoing a growth of d frees exactly the user pages it took. */
  lemma RolledBack(ts0: Tables, r0: Roles, ts1: Tables, r1: Roles, ts2: Tables, r2: Roles, d: int, lo: int, v: int, hi: int)
    requires AllOk(ts0, r0) && AllOk(ts1, r1) && IsRole(r0, d, Dir) && 0 <= lo <= v <= hi <= USER_PAGES
    requires forall w {:trigger LeafAt(ts0, d, w)} :: lo <= w < hi ==> LeafAt(ts0, d, w) == Absent
    requires OnlyTook(r0, r1, d) && LeavesKept(ts0, ts1, r0, d, lo, v)
    requires UserFreed(r1, r2, d, lo, hi) && LeavesKept(ts1, ts2, r1, d, lo, hi)
    requires forall w {:trigger LeafAt(ts2, d, w)} :: lo <= w < hi ==> LeafAt(ts2, d, w) == Absent
    ensures OnlyTook(r0, r2, d) && NoNewUsers(r0, r2) && LeavesKept(ts0, ts2, r0, -1, 0, 0)
  {
    NothingThere(ts0, r0, d, lo, hi);
    forall p {:trigger p in r0} {:trigger p in r2} | p in r0
      ensures r2[p] == r0[p] || (r0[p].Free? && Belongs(r2, p, d) && !r2[p].UserOf?)
    {
      assert r2[p] == if IsUser(r1[p], d, lo, hi) then Free else r1[p];
      assert r0[p] == if IsUser(r0[p], d, lo, hi) then Free else r0[p];
      if r1[p] != r0[p] && r1[p].UserOf? {
        NewUserInRange(ts0, r0, ts1, r1, d, lo, v, p);
      }
    }
    forall e, w {:trigger LeafAt(ts2, e, w)} | IsRole(r0, e, Dir) && 0 <= w < PAGES
      ensures LeafAt(ts2, e, w) == LeafAt(ts0, e, w)
    {
      assert IsRole(r1, e, Dir);
      if !(e == d && lo <= w < hi) {
        assert LeafAt(ts1, e, w) == LeafAt(ts0, e, w);
      }
    }
  }

  lemma NewUserInRange(ts0: Tables, r0: Roles, ts1: Tables, r1: Roles, d: int, lo: int, v: int, p: int)
    requires AllOk(ts0, r0) && AllOk(ts1, r1) && IsRole(r0, d, Dir) && OnlyTook(r0, r1, d) && LeavesKept(ts0, ts1, r0, d, lo, v)
    requires p in r1 && p in r0 && r1[p] != r0[p] && r1[p].UserOf?
    ensures IsUser(r1[p], d, lo, v)
  {
    var i, j := r1[p].i, r1[p].j;
    var w := i * ENTRIES + j;
    UserLeafAt(ts1, r1, p, d, i, j);
    if !(lo <= w < v) {
      assert LeafAt(ts1, d, w) == LeafAt(ts0, d, w);
      LeafIsUser(ts0, r0, d, Pdx(w), Ptx(w));
    }
  }

  lemma NothingThere(tables: Tables, roles: Roles, d: int, lo: int, hi: int)
    requires AllOk(tables, roles)
    requires forall v {:trigger LeafAt(tables, d, v)} :: lo <= v < hi ==> LeafAt(tables, d, v) == Absent
    ensures UserFreed(roles, roles, d, lo, hi)
  {
    forall p | p in roles
      ensures !IsUser(roles[p], d, lo, hi)
    {
      if roles[p].UserOf? && roles[p].d == d {
        UserLeafAt(tables, roles, p, d, roles[p].i, roles[p].j);
      }
    }
  }

  lemma FreedTwice(r0: Roles, r1: Roles, r2: Roles, d: int, lo: int, mid: int, hi: int)
    requires UserFreed(r0, r1, d, lo, mid) && UserFreed(r1, r2, d, mid, hi) && lo <= mid <= hi
    ensures UserFreed(r0, r2, d, lo, hi)
  {
    forall p {:trigger r2[p]} {:trigger r0[p]} | p in r0
      ensures r2[p] == if IsUser(r0[p], d, lo, hi) then Free else r0[p]
    {
      assert r1[p] == if IsUser(r0[p], d, lo, mid) then Free else r0[p];
    }
  }

  lemma HeldAgain(list: seq<int>, roles: Roles, p: int)
    requires ListsFree(list, roles) && p in roles && !roles[p].Free?
    ensures ListsFree(list, roles[p := Held])
  {
  }

  lemma OneFreed(tables: Tables, roles: Roles, d: int, v: int, q: int)
    requires AllOk(tables, roles) && 0 <= v < USER_PAGES && IsRole(roles, q, UserOf(d, Pdx(v), Ptx(v)))
    requires LeafAt(tables, d, v).Present? && LeafAt(tables, d, v).page == q
    ensures UserFreed(roles, roles[q := Held][q := Free], d, v, v + 1)
  {
    forall p | p in roles && IsUser(roles[p], d, v, v + 1)
      ensures p == q
    {
      UserLeafAt(tables, roles, p, d, roles[p].i, roles[p].j);
    }
  }

  lemma HeldMapped(list: seq<int>, roles: Roles, p: int, r: Role)
    requires ListsFree(list, roles) && IsRole(roles, p, Held) && !r.Free?
    ensures ListsFree(list, roles[p := r])
  {
  }

  /** Setting the entry for v changes the leaf at v only. */
  lemma EntryAt(tables: Tables, roles: Roles, d: int, v: int, t: int, e: Entry)
    requires AllOk(tables, roles) && 0 <= v < PAGES && IsRole(roles, t, TableOf(d, Pdx(v))) && IsTable(tables, t) && IsRole(roles, d, Dir)
    ensures LeafAt(WithEntry(tables, t, Ptx(v), e), d, v) == e
    ensures LeavesKept(tables, WithEntry(tables, t, Ptx(v), e), roles, d, v, v + 1)
  {
    Split(v);
    EntryLeaf(tables, roles, d, Pdx(v), t, Ptx(v), e, d, Pdx(v), Ptx(v));
    forall c, w {:trigger LeafAt(WithEntry(tables, t, Ptx(v), e), c, w)} | IsRole(roles, c, Dir) && 0 <= w < PAGES && !(c == d && v <= w < v + 1)
      ensures LeafAt(WithEntry(tables, t, Ptx(v), e), c, w) == LeafAt(tables, c, w)
    {
      Split(w);
      EntryLeaf(tables, roles, d, Pdx(v), t, Ptx(v), e, c, Pdx(w), Ptx(w));
    }
  }
}
