/**
  Physical pages and the page tables in them (operating-systems/xv6-OS/vm.c,
  mmu.h), with the role of every page: the free list's, a directory, a table of
  one directory, a user page at one address of one directory, or in hand.
 */
module PageTables {

  const ENTRIES := 1024
  /** Directory entries from here on map the kernel. */
  const USER_TABLES := 512

  datatype Entry = Absent | Present(page: int, flags: int)

  datatype Role = Free | Held | Dir | TableOf(d: int, i: int) | UserOf(d: int, i: int, j: int)

  type Tables = map<int, seq<Entry>>
  type Roles = map<int, Role>

  ghost predicate IsRole(roles: Roles, p: int, r: Role) { p in roles && roles[p] == r }

  ghost predicate IsTable(tables: Tables, p: int) { p in tables && |tables[p]| == ENTRIES }

  ghost predicate Index(i: int) { 0 <= i < ENTRIES }

  /** A directory's entries are its tables. */
  ghost predicate DirOk(tables: Tables, roles: Roles, p: int) {
    IsTable(tables, p) && forall i {:trigger tables[p][i]} :: Index(i) && tables[p][i].Present? ==> IsRole(roles, tables[p][i].page, TableOf(p, i))
  }

  ghost predicate Points(tables: Tables, p: int, i: int, q: int) {
    IsTable(tables, p) && Index(i) && tables[p][i].Present? && tables[p][i].page == q
  }

  /** A table's entries, in the user part, are the directory's user pages. */
  ghost predicate TableOk(tables: Tables, roles: Roles, p: int, d: int, i: int) {
    && IsTable(tables, p) && IsRole(roles, d, Dir) && Points(tables, d, i, p)
    && (i < USER_TABLES ==> forall j {:trigger tables[p][j]} :: Index(j) && tables[p][j].Present? ==> IsRole(roles, tables[p][j].page, UserOf(d, i, j)))
  }

  /** A user page is where its role says. */
  ghost predicate UserOk(tables: Tables, roles: Roles, p: int, d: int, i: int, j: int) {
    && i < USER_TABLES && IsRole(roles, d, Dir) && IsTable(tables, d) && Index(i) && tables[d][i].Present?
    && IsRole(roles, tables[d][i].page, TableOf(d, i)) && Points(tables, tables[d][i].page, j, p)
  }

  ghost predicate PageOk(tables: Tables, roles: Roles, p: int)
    requires p in roles
  {
    match roles[p]
    case Dir => DirOk(tables, roles, p)
    case TableOf(d, i) => TableOk(tables, roles, p, d, i)
    case UserOf(d, i, j) => UserOk(tables, roles, p, d, i, j)
    case _ => true
  }

  /** Every page has one role and is where that role says. */
  ghost predicate AllOk(tables: Tables, roles: Roles) {
    forall p {:trigger PageOk(tables, roles, p)} :: p in roles ==> PageOk(tables, roles, p)
  }

  /** The entry for an address, seen through its directory. */
  ghost function Leaf(tables: Tables, d: int, i: int, j: int): Entry {
    if IsTable(tables, d) && Index(i) && tables[d][i].Present? && IsTable(tables, tables[d][i].page) && Index(j)
    then tables[tables[d][i].page][j] else Absent
  }

  ghost predicate Belongs(roles: Roles, p: int, d: int)
    requires p in roles
  {
    p == d || (roles[p].TableOf? && roles[p].d == d) || (roles[p].UserOf? && roles[p].d == d)
  }

  /** Nobody refers to a page that is free or in hand. */
  lemma Unreferenced(tables: Tables, roles: Roles, p: int, r: Role, q: int)
    requires AllOk(tables, roles) && p in roles && (roles[p].Free? || roles[p].Held?) && (r.Free? || r.Held?) && q in roles && q != p
    ensures PageOk(tables, roles[p := r], q)
  {
    assert PageOk(tables, roles, q);
  }

  /** Taking a page from the free list or putting it back. */
  lemma Moved(tables: Tables, roles: Roles, p: int, r: Role)
    requires AllOk(tables, roles) && p in roles && (roles[p].Free? || roles[p].Held?) && (r.Free? || r.Held?)
    ensures AllOk(tables, roles[p := r])
  {
    forall q {:trigger PageOk(tables, roles[p := r], q)} | q in roles
      ensures PageOk(tables, roles[p := r], q)
    {
      if q != p {
        Unreferenced(tables, roles, p, r, q);
      }
    }
  }

  function NoEntries(): (s: seq<Entry>)
    ensures |s| == ENTRIES && forall i :: 0 <= i < ENTRIES ==> s[i] == Absent
  {
    seq(ENTRIES, i => Absent)
  }

  // ----- walkpgdir: a new table

  ghost function WithTable(tables: Tables, d: int, i: int, p: int, flags: int): Tables
    requires IsTable(tables, d) && Index(i)
  {
    tables[p := NoEntries()][d := tables[d][i := Present(p, flags)]]
  }

  lemma TableAdded(tables: Tables, roles: Roles, d: int, i: int, p: int, flags: int)
    requires AllOk(tables, roles) && IsRole(roles, d, Dir) && IsRole(roles, p, Held)
    requires IsTable(tables, d) && Index(i) && tables[d][i] == Absent
    ensures AllOk(WithTable(tables, d, i, p, flags), roles[p := TableOf(d, i)])
    ensures forall e, k, j :: IsRole(roles, e, Dir) ==> Leaf(WithTable(tables, d, i, p, flags), e, k, j) == Leaf(tables, e, k, j)
  {
    var ts, rs := WithTable(tables, d, i, p, flags), roles[p := TableOf(d, i)];
    forall q {:trigger PageOk(ts, rs, q)} | q in rs
      ensures PageOk(ts, rs, q)
    {
      assert PageOk(tables, roles, q) && PageOk(tables, roles, d);
      if roles[q].TableOf? {
        assert PageOk(tables, roles, roles[q].d);
      }
    }
    forall e, k, j | IsRole(roles, e, Dir)
      ensures Leaf(ts, e, k, j) == Leaf(tables, e, k, j)
    {
      assert PageOk(tables, roles, e);
      if IsTable(tables, e) && Index(k) && tables[e][k].Present? {
        assert PageOk(tables, roles, tables[e][k].page);
      }
    }
  }

  // ----- mappages: a new entry

  ghost function WithEntry(tables: Tables, t: int, j: int, e: Entry): Tables
    requires IsTable(tables, t) && Index(j)
  {
    tables[t := tables[t][j := e]]
  }

  lemma UserMapped(tables: Tables, roles: Roles, d: int, i: int, t: int, j: int, q: int, flags: int)
    requires AllOk(tables, roles) && IsRole(roles, t, TableOf(d, i)) && i < USER_TABLES && IsRole(roles, q, Held)
    requires IsTable(tables, t) && Index(j) && tables[t][j] == Absent
    ensures AllOk(WithEntry(tables, t, j, Present(q, flags)), roles[q := UserOf(d, i, j)])
  {
    var ts, rs := WithEntry(tables, t, j, Present(q, flags)), roles[q := UserOf(d, i, j)];
    assert PageOk(tables, roles, t);
    forall p {:trigger PageOk(ts, rs, p)} | p in rs
      ensures PageOk(ts, rs, p)
    {
      assert PageOk(tables, roles, p);
    }
  }

  lemma KernelMapped(tables: Tables, roles: Roles, d: int, i: int, t: int, j: int, e: Entry)
    requires AllOk(tables, roles) && IsRole(roles, t, TableOf(d, i)) && i >= USER_TABLES
    requires IsTable(tables, t) && Index(j)
    ensures AllOk(WithEntry(tables, t, j, e), roles)
  {
    var ts := WithEntry(tables, t, j, e);
    assert PageOk(tables, roles, t);
    forall p {:trigger PageOk(ts, roles, p)} | p in roles
      ensures PageOk(ts, roles, p)
    {
      assert PageOk(tables, roles, p);
    }
  }

  /** Setting one entry changes one leaf. */
  lemma EntryLeaf(tables: Tables, roles: Roles, d: int, i: int, t: int, j: int, e: Entry, c: int, k: int, l: int)
    requires AllOk(tables, roles) && IsRole(roles, t, TableOf(d, i)) && IsTable(tables, t) && Index(j) && IsRole(roles, c, Dir)
    ensures Leaf(WithEntry(tables, t, j, e), c, k, l) == if c == d && k == i && l == j then e else Leaf(tables, c, k, l)
  {
    assert PageOk(tables, roles, t) && PageOk(tables, roles, c);
    if IsTable(tables, c) && Index(k) && tables[c][k].Present? {
      assert PageOk(tables, roles, tables[c][k].page);
    }
  }

  // ----- deallocuvm: an entry goes

  lemma UserUnmapped(tables: Tables, roles: Roles, d: int, i: int, t: int, j: int, q: int)
    requires AllOk(tables, roles) && IsRole(roles, t, TableOf(d, i)) && i < USER_TABLES && IsRole(roles, q, UserOf(d, i, j))
    requires IsTable(tables, t) && Index(j) && tables[t][j].Present? && tables[t][j].page == q
    ensures AllOk(WithEntry(tables, t, j, Absent), roles[q := Held])
  {
    var ts, rs := WithEntry(tables, t, j, Absent), roles[q := Held];
    assert PageOk(tables, roles, t) && PageOk(tables, roles, q);
    forall p {:trigger PageOk(ts, rs, p)} | p in rs
      ensures PageOk(ts, rs, p)
    {
      assert PageOk(tables, roles, p);
      if roles[p].TableOf? {
        assert PageOk(tables, roles, roles[p].d);
      }
    }
  }

  /** A table page of the directory, from its entry. */
  lemma EntryIsTable(tables: Tables, roles: Roles, d: int, i: int)
    requires AllOk(tables, roles) && IsRole(roles, d, Dir) && Index(i)
    ensures IsTable(tables, d)
    ensures tables[d][i].Present? ==> IsRole(roles, tables[d][i].page, TableOf(d, i)) && IsTable(tables, tables[d][i].page)
  {
    assert PageOk(tables, roles, d);
    if tables[d][i].Present? {
      assert PageOk(tables, roles, tables[d][i].page);
    }
  }

  /** A user leaf is a user page. */
  lemma LeafIsUser(tables: Tables, roles: Roles, d: int, i: int, j: int)
    requires AllOk(tables, roles) && IsRole(roles, d, Dir) && i < USER_TABLES && Leaf(tables, d, i, j).Present?
    ensures IsRole(roles, Leaf(tables, d, i, j).page, UserOf(d, i, j))
  {
    assert PageOk(tables, roles, d);
    assert PageOk(tables, roles, tables[d][i].page);
  }

  lemma UserIsLeaf(tables: Tables, roles: Roles, p: int, d: int, i: int, j: int)
    requires AllOk(tables, roles) && IsRole(roles, p, UserOf(d, i, j))
    ensures Leaf(tables, d, i, j).Present? && Leaf(tables, d, i, j).page == p && IsRole(roles, d, Dir) && i < USER_TABLES && Index(i) && Index(j)
  {
    assert PageOk(tables, roles, p);
  }

  // ----- Addresses, as page numbers

  const PAGES := ENTRIES * ENTRIES
  const USER_PAGES := USER_TABLES * ENTRIES

  function Pdx(v: int): int { v / ENTRIES }
  function Ptx(v: int): int { v % ENTRIES }

  lemma Split(v: int)
    requires 0 <= v < PAGES
    ensures Index(Pdx(v)) && Index(Ptx(v)) && v == Pdx(v) * ENTRIES + Ptx(v) && (Pdx(v) < USER_TABLES <==> v < USER_PAGES)
  {
  }

  ghost function LeafAt(tables: Tables, d: int, v: int): Entry {
    Leaf(tables, d, Pdx(v), Ptx(v))
  }

  /** The leaves of all directories are as before, but for d's between lo and hi. */
  ghost predicate LeavesKept(ts0: Tables, ts1: Tables, roles: Roles, d: int, lo: int, hi: int) {
    forall e, v {:trigger LeafAt(ts1, e, v)} :: IsRole(roles, e, Dir) && 0 <= v < PAGES && !(e == d && lo <= v < hi) ==> LeafAt(ts1, e, v) == LeafAt(ts0, e, v)
  }

  /** Pages went from the free list to d, and nothing else happened to any. */
  ghost predicate OnlyTook(r0: Roles, r1: Roles, d: int) {
    r1.Keys == r0.Keys && forall p {:trigger p in r0} {:trigger p in r1} :: p in r0 ==> r1[p] == r0[p] || (r0[p].Free? && Belongs(r1, p, d))
  }

  lemma DirAdded(tables: Tables, roles: Roles, p: int)
    requires AllOk(tables, roles) && IsRole(roles, p, Held)
    ensures AllOk(tables[p := NoEntries()], roles[p := Dir])
    ensures forall e, i, j :: IsRole(roles, e, Dir) ==> Leaf(tables[p := NoEntries()], e, i, j) == Leaf(tables, e, i, j)
    ensures forall v {:trigger LeafAt(tables[p := NoEntries()], p, v)} :: LeafAt(tables[p := NoEntries()], p, v) == Absent
  {
    var ts, rs := tables[p := NoEntries()], roles[p := Dir];
    forall q {:trigger PageOk(ts, rs, q)} | q in rs
      ensures PageOk(ts, rs, q)
    {
      assert PageOk(tables, roles, q);
      if roles[q].TableOf? {
        assert PageOk(tables, roles, roles[q].d);
      }
    }
    forall e, i, j | IsRole(roles, e, Dir)
      ensures Leaf(ts, e, i, j) == Leaf(tables, e, i, j)
    {
      EntryIsTableIf(tables, roles, e, i);
    }
  }

  lemma EntryIsTableIf(tables: Tables, roles: Roles, d: int, i: int)
    requires AllOk(tables, roles) && IsRole(roles, d, Dir)
    ensures Index(i) ==> IsTable(tables, d) && (tables[d][i].Present? ==> IsRole(roles, tables[d][i].page, TableOf(d, i)))
  {
    if Index(i) {
      EntryIsTable(tables, roles, d, i);
    }
  }

  /** A page that is filled with junk, nobody referring to it. */
  lemma Junked(tables: Tables, roles: Roles, p: int)
    requires AllOk(tables, roles) && IsRole(roles, p, Held)
    ensures AllOk(tables - {p}, roles)
    ensures forall e, i, j :: IsRole(roles, e, Dir) ==> Leaf(tables - {p}, e, i, j) == Leaf(tables, e, i, j)
  {
    var ts := tables - {p};
    forall q {:trigger PageOk(ts, roles, q)} | q in roles
      ensures PageOk(ts, roles, q)
    {
      assert PageOk(tables, roles, q);
    }
    forall e, i, j | IsRole(roles, e, Dir)
      ensures Leaf(ts, e, i, j) == Leaf(tables, e, i, j)
    {
      EntryIsTableIf(tables, roles, e, i);
    }
  }

  /** Nothing belongs to a page that is not a directory. */
  lemma NothingBelongs(tables: Tables, roles: Roles, d: int, p: int)
    requires AllOk(tables, roles) && d in roles && !roles[d].Dir? && p in roles && p != d
    ensures !Belongs(roles, p, d)
  {
    assert PageOk(tables, roles, p);
  }

  /** The table for address v is missing, so nothing is mapped anywhere in its range. */
  ghost predicate MissingTable(tables: Tables, d: int, v: int) {
    IsTable(tables, d) && Index(Pdx(v)) && tables[d][Pdx(v)].Absent?
  }

  /** The free list holds each free page once. */
  ghost predicate ListsFree(list: seq<int>, roles: Roles) {
    && (forall i, j :: 0 <= i < j < |list| ==> list[i] != list[j])
    && (forall p :: p in list <==> IsRole(roles, p, Free))
  }

  lemma Popped(list: seq<int>, roles: Roles, r: Role)
    requires ListsFree(list, roles) && list != [] && !r.Free?
    ensures IsRole(roles, list[0], Free) && ListsFree(list[1..], roles[list[0] := r])
  {
    assert list[0] in list;
    forall p
      ensures p in list[1..] <==> IsRole(roles[list[0] := r], p, Free)
    {
      assert p in list <==> p == list[0] || p in list[1..];
    }
  }

  lemma Pushed(list: seq<int>, roles: Roles, p: int)
    requires ListsFree(list, roles) && p in roles && !roles[p].Free?
    ensures ListsFree([p] + list, roles[p := Free])
  {
    forall j | 0 <= j < |list|
      ensures list[j] != p
    {
      assert list[j] in list;
    }
    forall q
      ensures q in [p] + list <==> IsRole(roles[p := Free], q, Free)
    {
      assert q in [p] + list <==> q == p || q in list;
    }
  }

  /** What a page frees when nobody refers to it. */
  lemma HeldFreed(tables: Tables, roles: Roles, p: int)
    requires AllOk(tables, roles) && IsRole(roles, p, Held)
    ensures AllOk(tables - {p}, roles[p := Free]) && LeavesKept(tables, tables - {p}, roles, -1, 0, 0)
  {
    Junked(tables, roles, p);
    Moved(tables - {p}, roles, p, Free);
  }

  lemma {:induction false} TookTwice(r0: Roles, r1: Roles, r2: Roles, d: int)
    requires OnlyTook(r0, r1, d) && OnlyTook(r1, r2, d)
    ensures OnlyTook(r0, r2, d)
  {
    forall p {:trigger p in r0} {:trigger p in r2} | p in r0
      ensures r2[p] == r0[p] || (r0[p].Free? && Belongs(r2, p, d))
    {
      assert p in r1;
    }
  }

  /** The user pages of d between lo and hi became free, and nothing else happened to any page. */
  ghost predicate UserFreed(r0: Roles, r1: Roles, d: int, lo: int, hi: int) {
    r1.Keys == r0.Keys && forall p {:trigger r1[p]} {:trigger r0[p]} :: p in r0 ==> r1[p] == if IsUser(r0[p], d, lo, hi) then Free else r0[p]
  }

  ghost predicate IsUser(r: Role, d: int, lo: int, hi: int) {
    r.UserOf? && r.d == d && lo <= r.i * ENTRIES + r.j < hi
  }

  /** Pages that stay in use keep their contents. */
  ghost predicate DataKept<T>(r0: Roles, r1: Roles, d0: map<int, T>, d1: map<int, T>) {
    forall p {:trigger p in d1} {:trigger p in d0} :: p in r0 && p in r1 && !r0[p].Free? && r1[p] == r0[p] ==> (p in d1 <==> p in d0) && (p in d0 ==> d1[p] == d0[p])
  }

  // ----- freevm

  /** Every page outside d's address space is where its role says. */
  ghost predicate OthersOk(tables: Tables, roles: Roles, d: int) {
    forall p {:trigger PageOk(tables, roles, p)} :: p in roles && !Belongs(roles, p, d) ==> PageOk(tables, roles, p)
  }

  /** What is left of d's address space when its first i tables have been freed. */
  ghost predicate TablesFrom(tables: Tables, roles: Roles, d: int, i: nat) {
    && IsTable(tables, d) && IsRole(roles, d, Dir)
    && (forall k {:trigger tables[d][k]} :: i <= k < ENTRIES && tables[d][k].Present? ==> IsRole(roles, tables[d][k].page, TableOf(d, k)))
    && (forall p {:trigger p in roles} :: p in roles && Belongs(roles, p, d) && p != d ==> roles[p].TableOf? && i <= roles[p].i && Points(tables, d, roles[p].i, p))
  }

  /** Once no user page is left, all of d's address space is tables. */
  lemma OnlyTables(tables: Tables, roles: Roles, d: int)
    requires AllOk(tables, roles) && IsRole(roles, d, Dir)
    requires forall v {:trigger LeafAt(tables, d, v)} :: 0 <= v < USER_PAGES ==> LeafAt(tables, d, v) == Absent
    ensures OthersOk(tables, roles, d) && TablesFrom(tables, roles, d, 0)
  {
    assert PageOk(tables, roles, d);
    forall p {:trigger p in roles} | p in roles && Belongs(roles, p, d) && p != d
      ensures roles[p].TableOf? && 0 <= roles[p].i && Points(tables, d, roles[p].i, p)
    {
      assert PageOk(tables, roles, p);
      if roles[p].UserOf? {
        UserLeafAt(tables, roles, p, d, roles[p].i, roles[p].j);
      }
    }
  }

  lemma UserLeafAt(tables: Tables, roles: Roles, p: int, d: int, i: int, j: int)
    requires AllOk(tables, roles) && IsRole(roles, p, UserOf(d, i, j))
    ensures 0 <= i * ENTRIES + j < USER_PAGES && Pdx(i * ENTRIES + j) == i && Ptx(i * ENTRIES + j) == j
    ensures LeafAt(tables, d, i * ENTRIES + j).Present? && LeafAt(tables, d, i * ENTRIES + j).page == p
  {
    UserIsLeaf(tables, roles, p, d, i, j);
    Join(i, j);
  }

  lemma Join(i: int, j: int)
    requires 0 <= i && Index(j)
    ensures Pdx(i * ENTRIES + j) == i && Ptx(i * ENTRIES + j) == j
  {
  }

  lemma TableFreed(tables: Tables, roles: Roles, d: int, i: nat)
    requires OthersOk(tables, roles, d) && TablesFrom(tables, roles, d, i) && Index(i) && tables[d][i].Present?
    ensures var p := tables[d][i].page;
      && p != d && OthersOk(tables - {p}, roles[p := Free], d) && TablesFrom(tables - {p}, roles[p := Free], d, i + 1)
      && forall e, k, j :: IsRole(roles, e, Dir) && e != d ==> Leaf(tables - {p}, e, k, j) == Leaf(tables, e, k, j)
  {
    var p := tables[d][i].page;
    var ts, rs := tables - {p}, roles[p := Free];
    forall q {:trigger PageOk(ts, rs, q)} | q in rs && !Belongs(rs, q, d)
      ensures PageOk(ts, rs, q)
    {
      if q != p {
        assert PageOk(tables, roles, q);
      }
    }
    forall e, k, j | IsRole(roles, e, Dir) && e != d
      ensures Leaf(ts, e, k, j) == Leaf(tables, e, k, j)
    {
      assert PageOk(tables, roles, e);
    }
  }

  lemma NoTable(tables: Tables, roles: Roles, d: int, i: nat)
    requires TablesFrom(tables, roles, d, i) && Index(i) && tables[d][i].Absent?
    ensures TablesFrom(tables, roles, d, i + 1)
  {
  }

  lemma DirFreed(tables: Tables, roles: Roles, d: int)
    requires OthersOk(tables, roles, d) && TablesFrom(tables, roles, d, ENTRIES)
    ensures AllOk(tables - {d}, roles[d := Free])
    ensures forall p {:trigger p in roles} :: p in roles && Belongs(roles, p, d) ==> p == d
    ensures forall e, k, j :: IsRole(roles, e, Dir) && e != d ==> Leaf(tables - {d}, e, k, j) == Leaf(tables, e, k, j)
  {
    var ts, rs := tables - {d}, roles[d := Free];
    forall q {:trigger PageOk(ts, rs, q)} | q in rs
      ensures PageOk(ts, rs, q)
    {
      if q != d {
        assert q in roles;
        assert PageOk(tables, roles, q);
      }
    }
    forall e, k, j | IsRole(roles, e, Dir) && e != d
      ensures Leaf(ts, e, k, j) == Leaf(tables, e, k, j)
    {
      assert PageOk(tables, roles, e);
      if IsTable(tables, e) && Index(k) && tables[e][k].Present? {
        assert tables[e][k].page in roles;
      }
    }
  }
}
