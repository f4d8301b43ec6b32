/** malloc and free of operating-systems/xv6-OS/umalloc.c. Addresses count headers of eight bytes. */
module Allocator {
  import opened Wrappers
  import opened FreeLists

  const HEADER_SIZE := 8
  const UINT := 0x1_0000_0000

  /** The units a request needs, one of them for the header, in 32-bit arithmetic. */
  function Units(nbytes: int): (n: int)
    requires 0 <= nbytes < UINT
    ensures n >= 1
  {
    ((nbytes + HEADER_SIZE - 1) % UINT) / HEADER_SIZE + 1
  }

  /** The units hold the request exactly unless the rounding up wraps around. */
  lemma UnitsSufficeIff(nbytes: int)
    requires 0 <= nbytes < UINT
    ensures HEADER_SIZE * (Units(nbytes) - 1) >= nbytes <==> nbytes <= UINT - HEADER_SIZE
  {
  }

  /** Where it does not wrap around, one unit fewer would be too small. */
  lemma UnitsAreFewest(nbytes: int)
    requires 0 <= nbytes <= UINT - HEADER_SIZE
    ensures HEADER_SIZE * (Units(nbytes) - 2) < nbytes
  {
  }

  /** What sbrk, which takes an int, makes of that many bytes. */
  function SbrkArgument(nu: int): int {
    var bytes := (nu * HEADER_SIZE) % UINT;
    if bytes >= UINT / 2 then bytes - UINT else bytes
  }

  const MAX_REQUEST := UINT / 2 - 2 * HEADER_SIZE

  /** What morecore asks for. */
  function CoreUnits(nu: int): int {
    if nu < 4096 then 4096 else nu
  }

  /** No fewer than are needed, never fewer than 4096, and no more than one of these asks for. */
  lemma CoreUnitsSuffice(nu: int)
    ensures CoreUnits(nu) >= nu && CoreUnits(nu) >= 4096 && (CoreUnits(nu) == nu || CoreUnits(nu) == 4096)
  {
  }

  /**
    sbrk is asked for what morecore wants exactly up to the largest request,
    and for those whose rounding wraps, which look like small ones.
   */
  lemma SbrkArgumentIff(nbytes: int)
    requires 0 <= nbytes < UINT
    ensures var nu := CoreUnits(Units(nbytes));
      SbrkArgument(nu) == nu * HEADER_SIZE <==> nbytes <= MAX_REQUEST || nbytes > UINT - HEADER_SIZE
  {
  }

  /** The largest request of all gets a block with no room for a byte; the next smaller multiple of eight asks sbrk for nothing. */
  lemma WrappedRequests()
    ensures Units(UINT - 1) == 1 && SbrkArgument(CoreUnits(Units(UINT - HEADER_SIZE))) == 0
  {
  }

  function Wrap(k: int, n: int): int {
    if k >= n then k - n else k
  }

  /** Free block j contains block b of n units. */
  ghost predicate Contains(order: seq<int>, size: Words, j: int, b: int, n: int) {
    0 <= j < |order| && order[j] in size && order[j] <= b && b + n <= order[j] + size[order[j]]
  }

  ghost predicate Contained(order: seq<int>, size: Words, b: int, n: int) {
    exists j :: Contains(order, size, j, b, n)
  }

  ghost predicate SameSizes(live: set<int>, s: Words, t: Words) {
    forall c :: c in live ==> c in s && c in t && t[c] == s[c]
  }

  class Allocator {
    const base: int
    var freep: Option<int>
    var ptr: Words
    var size: Words
    ghost var order: seq<int>
    ghost var live: set<int>
    ghost var core: iset<int>

    ghost predicate Valid()
      reads this
    {
      if freep.None? then live == {} && core == iset{}
      else HeapOk(base, order, ptr, size, live, core) && freep.value in order
    }

    ghost function FreeUnits(): iset<int>
      requires Valid()
      reads this
    {
      if freep.None? then iset{} else iset u | IsFree(order, size, u)
    }

    constructor (base: int)
      ensures Valid() && this.base == base && live == {} && core == iset{} && freep.None?
    {
      this.base, freep, ptr, size, order, live, core := base, None, map[], map[], [], {}, iset{};
    }

    /** The search of free: the free block that bp comes after. */
    method FindPlace(bp: int) returns (p: int, ghost i: nat)
      requires Valid() && freep.Some? && bp in live
      ensures i < |order| && p == order[i] && Between(order, size, i, bp)
    {
      ghost var n := |order|;
      ghost var target := Place(bp, n);
      ghost var k :| 0 <= k < n && order[k] == freep.value;
      p := freep.value;
      assert LinkAt(order, ptr, k);
      while !(bp > p && bp < ptr[p])
        invariant 0 <= k < n && p == order[k] && p in ptr && ptr[p] == After(order, k)
        decreases if k <= target then target - k else target - k + n
      {
        WhereAt(bp, k, target);
        if p >= ptr[p] && (bp > p || bp < ptr[p]) {
          break;
        }
        k := if k + 1 < n then k + 1 else 0;
        p := ptr[p];
        assert LinkAt(order, ptr, k);
      }
      WhereAt(bp, k, target);
      i := k;
      LiveBetween(base, order, ptr, size, live, core, i, bp);
    }

    /** The last of the first n free blocks that lies below bp. */
    ghost function Place(bp: int, n: nat): (i: nat)
      requires HeapOk(base, order, ptr, size, live, core) && bp > base && 0 < n <= |order|
      reads this
      ensures i < n && order[i] < bp && (i + 1 < n ==> bp <= order[i + 1])
    {
      if n == 1 then 0
      else if order[n - 1] < bp then n - 1
      else Place(bp, n - 1)
    }

    /** The tests of the search tell the place from every other one. */
    lemma WhereAt(bp: int, k: nat, target: nat)
      requires HeapOk(base, order, ptr, size, live, core) && bp in live
      requires k < |order| && target < |order| && order[target] < bp && (target + 1 < |order| ==> bp <= order[target + 1])
      ensures var p, q := order[k], After(order, k);
        && ((bp > p && bp < q) || (p >= q && (bp > p || bp < q)) <==> k == target)
        && (k + 1 < |order| && k == target ==> bp < q)
    {
      var n := |order|;
      if k < target {
        Sorted(order, size, -1, k, target);
      } else if target < k {
        Sorted(order, size, -1, target, k);
      }
      if k + 1 < n {
        Sorted(order, size, -1, k, k + 1);
        if k + 1 < target {
          Sorted(order, size, -1, k + 1, target);
        }
      }
      if target + 1 < k {
        Sorted(order, size, -1, target + 1, k);
      }
      if target + 1 < n {
        LiveNotFree(base, order, ptr, size, live, core, target + 1);
      }
      if 0 < k {
        Sorted(order, size, -1, 0, k);
      }
    }

    method Free(ap: int)
      requires Valid() && freep.Some? && ap - 1 in live
      modifies this
      ensures Valid() && freep.Some?
      ensures live == old(live) - {ap - 1} && core == old(core)
      ensures FreeUnits() == old(FreeUnits()) + Span(ap - 1, old(size[ap - 1]))
      ensures SameSizes(live, old(size), size)
      ensures Contained(order, size, ap - 1, old(size[ap - 1]))
    {
      var bp := ap - 1;
      ghost var n := size[bp];
      var p;
      ghost var i;
      p, i := FindPlace(bp);
      LiveNotFree(base, order, ptr, size, live, core, i);
      JoinAbove(p, bp, i);
      JoinBelow(p, bp, i);
      freep := Some(p);
      assert Contains(order, size, i, bp, n) || Contains(order, size, i + 1, bp, n);
      FreedOk(base, old(order), old(ptr), old(size), live, core, bp, order, ptr, size);
      live := live - {bp};
    }

    /** The first if of free. */
    method JoinAbove(p: int, bp: int, ghost i: nat)
      requires Valid() && freep.Some? && bp in live && i < |order| && p == order[i] && Between(order, size, i, bp)
      modifies `ptr, `size, `order
      ensures i + 1 < |order| && order[i] == p && order[0] == base && order[i + 1] == bp
      ensures Ring(order, ptr, i) && Spaced(order, size, i) && p in ptr
      ensures forall u :: IsFree(order, size, u) <==> old(IsFree(order, size, u)) || In(u, bp, old(size[bp]))
      ensures forall c :: c in old(size) ==> c in size && (c != bp ==> size[c] == old(size[c]))
      ensures size[bp] >= old(size[bp])
    {
      assert LinkAt(order, ptr, i);
      var q := ptr[p];
      if bp + size[bp] == q {
        TookAbove(order, ptr, size, i, bp);
        size := size[bp := size[bp] + size[q]];
        ptr := ptr[bp := ptr[q]];
        order := order[i + 1 := bp];
      } else {
        InsertedBelow(order, ptr, size, i, bp);
        ptr := ptr[bp := q];
        order := Inserted(order, i, bp);
      }
    }

    /** The second if of free. */
    method JoinBelow(p: int, bp: int, ghost i: nat)
      requires i + 1 < |order| && p == order[i] && order[0] == base && order[i + 1] == bp
      requires Ring(order, ptr, i) && Spaced(order, size, i)
      modifies `ptr, `size, `order
      ensures Ring(order, ptr, -1) && Spaced(order, size, -1) && order[0] == base && p in order
      ensures forall u :: IsFree(order, size, u) <==> old(IsFree(order, size, u))
      ensures forall c :: c in old(size) ==> c in size && (c != p ==> size[c] == old(size[c]))
      ensures Contains(order, size, i, bp, old(size[bp])) || Contains(order, size, i + 1, bp, old(size[bp]))
    {
      Sorted(order, size, i, i, i + 1);
      if p + size[p] == bp {
        TakenBelow(order, ptr, size, i);
        size := size[p := size[p] + size[bp]];
        ptr := ptr[p := ptr[bp]];
        order := Dropped(order, i + 1);
        assert order[i] == p;
      } else {
        LinkedBelow(order, ptr, size, i);
        ptr := ptr[p := bp];
      }
    }

    /**
      What sbrk may return: None for its failure, else the first unit of that many
      new ones. Its success on an argument that overflowed is left out.
     */
    ghost predicate Grantable(granted: Option<int>, nu: int)
      reads this
    {
      granted.Some? ==>
        SbrkArgument(CoreUnits(nu)) == CoreUnits(nu) * HEADER_SIZE && granted.value > base && Span(granted.value, CoreUnits(nu)) !! core
    }

    /** granted: what sbrk returns. */
    method MoreCore(nu: int, granted: Option<int>) returns (p: Option<int>)
      requires Valid() && freep.Some? && nu >= 1 && Grantable(granted, nu)
      modifies this
      ensures Valid() && freep.Some? && live == old(live)
      ensures p.None? <==> granted.None?
      ensures p.None? ==> freep == old(freep) && ptr == old(ptr) && size == old(size) && order == old(order) && core == old(core)
      ensures p.Some? ==> p == freep && Contained(order, size, granted.value, CoreUnits(nu))
      ensures p.Some? ==> FreeUnits() == old(FreeUnits()) + Span(granted.value, CoreUnits(nu)) && core == old(core) + Span(granted.value, CoreUnits(nu))
      ensures SameSizes(live, old(size), size)
    {
      var units := if nu < 4096 then 4096 else nu;
      if granted.None? {
        return None;
      }
      var hp := granted.value;
      GrantedOk(hp, units);
      size := size[hp := units];
      live := live + {hp};
      core := core + Span(hp, units);
      Free(hp + 1);
      p := freep;
    }

    /** The granted units as one live block. */
    lemma GrantedOk(hp: int, n: nat)
      requires Valid() && freep.Some? && hp > base && n > 0 && Span(hp, n) !! core
      ensures hp !in live && HeapOk(base, order, ptr, size[hp := n], live + {hp}, core + Span(hp, n))
      ensures forall u :: IsFree(order, size[hp := n], u) <==> IsFree(order, size, u)
    {
      assert hp in Span(hp, n);
      assert forall u :: In(u, hp, n) ==> u in Span(hp, n);
      forall j | 0 <= j < |order|
        ensures order[j] != hp
      {
        if j > 0 {
          FreeUnit(order, size, j, order[j]);
        }
      }
      if hp in live {
        LiveUnit(live, size, hp, hp);
      }
      GrowOk(base, order, ptr, size, live, core, hp, n);
    }

    /** Some free block has that many units. */
    ghost predicate HasRoom(n: int)
      requires Valid()
      reads this
    {
      freep.Some? && exists j :: 0 <= j < |order| && size[order[j]] >= n
    }

    /** The first lines of malloc: a ring of the base alone. */
    method StartList()
      requires Valid() && freep.None?
      modifies `freep, `ptr, `size, `order
      ensures Valid() && freep == Some(base) && order == [base] && size[base] == 0
      ensures FreeUnits() == iset{}
    {
      ptr := ptr[base := base];
      size := size[base := 0];
      freep := Some(base);
      order := [base];
      assert LinkAt(order, ptr, 0);
    }

    /** The units of a free block other than base belong to nobody. */
    lemma BlockIsFree(k: nat)
      requires Valid() && freep.Some? && 0 < k < |order|
      ensures order[k] > base && forall u {:trigger In(u, order[k], size[order[k]])} :: In(u, order[k], size[order[k]]) ==> IsFree(order, size, u) && u !in live
    {
      Sorted(order, size, -1, 0, k);
      forall u {:trigger In(u, order[k], size[order[k]])} | In(u, order[k], size[order[k]])
        ensures IsFree(order, size, u) && u !in live
      {
        FreeUnit(order, size, k, u);
        if u in live {
          LiveUnit(live, size, u, u);
        }
      }
    }

    /** The list without the block that is taken, or with its tail made a block that is in it no more. */
    method CutOut(prevp: int, p: int, nunits: int, ghost k: nat)
      requires Ring(order, ptr, -1) && Spaced(order, size, -1)
      requires 0 < k < |order| && p == order[k] && prevp == order[k - 1] && 1 <= nunits <= size[p]
      modifies `ptr, `size, `order
      ensures Ring(order, ptr, -1) && Spaced(order, size, -1) && order[0] == old(order[0]) && k <= |order| && order[k - 1] == prevp
      ensures var b := p + old(size[p]) - nunits;
        && b in size && size[b] == nunits
        && (forall c :: c in old(size) && c != p && c != b ==> c in size && size[c] == old(size[c]))
        && forall u :: IsFree(order, size, u) <==> old(IsFree(order, size, u)) && !In(u, b, nunits)
    {
      assert LinkAt(order, ptr, k);
      if size[p] == nunits {
        TakenWhole(order, ptr, size, k);
        ptr := ptr[prevp := ptr[p]];
        order := Dropped(order, k);
      } else {
        TakenTail(order, ptr, size, k, nunits);
        size := size[p := size[p] - nunits];
        size := size[p + size[p] := nunits];
      }
    }

    /** The first if of malloc's loop, for a block that is large enough. */
    method Take(prevp: int, p: int, nunits: int, ghost k: nat) returns (b: int)
      requires Valid() && freep.Some? && 0 < k < |order| && p == order[k] && prevp == order[k - 1] && 1 <= nunits <= size[p]
      modifies `freep, `ptr, `size, `order, `live
      ensures Valid() && freep.Some? && live == old(live) + {b} && b !in old(live)
      ensures size[b] == nunits && b > base
      ensures Span(b, nunits) <= old(FreeUnits()) && FreeUnits() == old(FreeUnits()) - Span(b, nunits)
      ensures SameSizes(old(live), old(size), size)
    {
      b := p + size[p] - nunits;
      BlockIsFree(k);
      assert In(p, p, size[p]) && In(b, p, size[p]);
      ghost var o, q, s := order, ptr, size;
      CutOut(prevp, p, nunits, k);
      TakenOk(base, o, q, s, live, core, b, order, ptr, size);
      live := live + {b};
      freep := Some(prevp);
      assert prevp == order[k - 1];
    }

    /** The second if of malloc's loop: morecore, after which there is room. */
    method Grow(nunits: int, granted: Option<int>) returns (p: Option<int>, ghost f: nat)
      requires Valid() && freep.Some? && nunits >= 1 && Grantable(granted, nunits)
      modifies this
      ensures Valid() && freep.Some? && live == old(live) && SameSizes(live, old(size), size)
      ensures p.None? <==> granted.None?
      ensures p.None? ==> core == old(core) && FreeUnits() == old(FreeUnits())
      ensures p.Some? ==> f < |order| && p.value == order[f] == freep.value && HasRoom(nunits)
      ensures p.Some? ==> FreeUnits() == old(FreeUnits()) + Span(granted.value, CoreUnits(nunits)) && core == old(core) + Span(granted.value, CoreUnits(nunits))
    {
      f := 0;
      p := MoreCore(nunits, granted);
      if p.Some? {
        RoomAfterGrowing(granted.value, CoreUnits(nunits), nunits);
        f :| 0 <= f < |order| && order[f] == p.value;
      }
    }

    /** The second if of malloc's loop for a block that is too small; around says that the walk was back at freep. The block to go on behind is None when sbrk fails. */
    method Onward(p: int, nunits: int, granted: Option<int>, ghost f0: nat, ghost c0: nat) returns (around: bool, m: Option<int>, ghost f: nat, ghost c: nat)
      requires Valid() && freep.Some? && nunits >= 1 && (HasRoom(nunits) || Grantable(granted, nunits))
      requires f0 < |order| && order[f0] == freep.value && c0 < |order| && p == order[Stop(f0, c0)]
      requires TooSmall(f0, c0, nunits) && size[p] < nunits
      modifies this
      ensures Valid() && freep.Some? && live == old(live) && SameSizes(live, old(size), size)
      ensures around ==> !old(HasRoom(nunits)) && (m.None? <==> granted.None?)
      ensures !around || m.None? ==> core == old(core) && FreeUnits() == old(FreeUnits())
      ensures !around ==> m == Some(p) && f == f0 && c == c0 + 1 && |order| == old(|order|) && (HasRoom(nunits) <==> old(HasRoom(nunits)))
      ensures around && m.Some? ==> c == 0 && HasRoom(nunits)
      ensures around && m.Some? ==> FreeUnits() == old(FreeUnits()) + Span(granted.value, CoreUnits(nunits)) && core == old(core) + Span(granted.value, CoreUnits(nunits))
      ensures m.Some? ==> f < |order| && order[f] == freep.value && c < |order| && TooSmall(f, c, nunits)
      ensures m.Some? ==> m.value == order[Wrap(f + c, |order|)] && m.value in ptr && ptr[m.value] == order[Stop(f, c)]
    {
      f, c := f0, c0 + 1;
      StillTooSmall(f0, c0, nunits);
      LastIsFreep(f0, c0);
      OnRing(Stop(f0, c0));
      around := p == freep.value;
      if around {
        NoRoom(f0, c0, nunits);
        m, f := Grow(nunits, granted);
        c := 0;
        if m.Some? {
          OnRing(f);
        }
      } else {
        m := Some(p);
      }
    }

    /** malloc's loop: the blocks from freep on, and once more after morecore. */
    method Search(nunits: int, granted: Option<int>) returns (r: Option<int>)
      requires Valid() && freep.Some? && nunits >= 1 && Grantable(granted, nunits)
      modifies this
      ensures Valid() && freep.Some?
      ensures r.None? <==> !old(HasRoom(nunits)) && granted.None?
      ensures r.None? ==> live == old(live) && core == old(core) && FreeUnits() == old(FreeUnits())
      ensures r.Some? ==> live == old(live) + {r.value - 1} && r.value - 1 !in old(live) && size[r.value - 1] == nunits
      ensures r.Some? && old(HasRoom(nunits)) ==> var b := r.value - 1;
        core == old(core) && Span(b, nunits) <= old(FreeUnits()) && FreeUnits() == old(FreeUnits()) - Span(b, nunits)
      ensures r.Some? && !old(HasRoom(nunits)) ==> var b, grant := r.value - 1, Span(granted.value, CoreUnits(nunits));
        && core == old(core) + grant
        && Span(b, nunits) <= old(FreeUnits()) + grant
        && FreeUnits() == old(FreeUnits()) + grant - Span(b, nunits)
      ensures SameSizes(old(live), old(size), size)
    {
      ghost var f: nat :| f < |order| && order[f] == freep.value;
      OnRing(f);
      assert SameSizes(live, old(size), size);
      hide HeapOk, IsFree, Contained, FreeUnits, Span, SameSizes, TooSmall, HasRoom, Grantable, CoreUnits;
      var prevp := freep.value;
      var p := ptr[prevp];
      ghost var c, grown := 0, false;
      while true
        invariant Valid() && freep.Some? && live == old(live)
        invariant f < |order| && order[f] == freep.value && 0 <= c < |order|
        invariant prevp == order[Wrap(f + c, |order|)] && p == order[Stop(f, c)]
        invariant TooSmall(f, c, nunits)
        invariant HasRoom(nunits) <==> old(HasRoom(nunits)) || grown
        invariant grown ==> granted.Some? && !old(HasRoom(nunits))
        invariant !grown ==> core == old(core) && FreeUnits() == old(FreeUnits())
        invariant grown ==> core == old(core) + Span(granted.value, CoreUnits(nunits)) && FreeUnits() == old(FreeUnits()) + Span(granted.value, CoreUnits(nunits))
        invariant SameSizes(live, old(size), size)
        decreases if grown then 0 else 1, |order| - c
      {
        OnRing(Stop(f, c));
        if size[p] >= nunits {
          var b := Take(prevp, p, nunits, Stop(f, c));
          return Some(b + 1);
        }
        var around, m;
        around, m, f, c := Onward(p, nunits, granted, f, c);
        if m.None? {
          return None;
        }
        grown := grown || around;
        prevp := m.value;
        p := ptr[prevp];
      }
    }

    /**
      None exactly when no free block is large enough and sbrk fails. Otherwise
      units that were free, or that sbrk just granted, become one live block.
     */
    method Malloc(nbytes: int, granted: Option<int>) returns (r: Option<int>)
      requires Valid() && 0 <= nbytes < UINT && Grantable(granted, Units(nbytes))
      modifies this
      ensures Valid() && freep.Some?
      ensures r.None? <==> !old(HasRoom(Units(nbytes))) && granted.None?
      ensures r.None? ==> live == old(live) && core == old(core) && FreeUnits() == old(FreeUnits())
      ensures r.Some? ==> var b, n := r.value - 1, Units(nbytes);
        live == old(live) + {b} && b !in old(live) && size[b] == n && (HEADER_SIZE * (n - 1) >= nbytes <==> nbytes <= UINT - HEADER_SIZE)
      ensures r.Some? && old(HasRoom(Units(nbytes))) ==> var b, n := r.value - 1, Units(nbytes);
        core == old(core) && Span(b, n) <= old(FreeUnits()) && FreeUnits() == old(FreeUnits()) - Span(b, n)
      ensures r.Some? && !old(HasRoom(Units(nbytes))) ==> var b, grant := r.value - 1, Span(granted.value, CoreUnits(Units(nbytes)));
        && core == old(core) + grant
        && Span(b, Units(nbytes)) <= old(FreeUnits()) + grant
        && FreeUnits() == old(FreeUnits()) + grant - Span(b, Units(nbytes))
      ensures SameSizes(old(live), old(size), size)
    {
      var nunits := Units(nbytes);
      UnitsSufficeIff(nbytes);
      if freep.None? {
        StartList();
      }
      r := Search(nunits, granted);
    }

    /** The block visited after v others, the walk having begun behind block f. */
    ghost function Stop(f: nat, v: nat): int
      reads this
    {
      Wrap(f + 1 + v, |order|)
    }

    /** The first c blocks visited do not hold n units. */
    ghost predicate TooSmall(f: nat, c: nat, n: int)
      requires Valid() && freep.Some? && f < |order| && c <= |order|
      reads this
    {
      forall v: nat {:trigger Stop(f, v)} :: v < c ==> size[order[Stop(f, v)]] < n
    }

    lemma StillTooSmall(f: nat, c: nat, n: int)
      requires Valid() && freep.Some? && f < |order| && c < |order| && TooSmall(f, c, n) && size[order[Stop(f, c)]] < n
      ensures TooSmall(f, c + 1, n)
    {
    }

    lemma OnRing(k: nat)
      requires Valid() && freep.Some? && k < |order|
      ensures order[k] in size && order[k] in ptr && ptr[order[k]] == order[Wrap(k + 1, |order|)]
      ensures k == 0 ==> size[order[k]] == 0
    {
      assert LinkAt(order, ptr, k);
    }

    lemma RoomAfterGrowing(b: int, n: int, nu: int)
      requires Valid() && freep.Some? && Contained(order, size, b, n) && n >= nu
      ensures HasRoom(nu)
    {
    }

    lemma OnePosition(i: nat, j: nat)
      requires Valid() && freep.Some? && i < |order| && j < |order| && order[i] == order[j]
      ensures i == j
    {
      if i < j {
        Sorted(order, size, -1, i, j);
      } else if j < i {
        Sorted(order, size, -1, j, i);
      }
    }

    /** The walk is back where it began exactly after the whole ring. */
    lemma LastIsFreep(f: nat, c: nat)
      requires Valid() && freep.Some? && f < |order| && order[f] == freep.value && c < |order|
      ensures order[Wrap(f + 1 + c, |order|)] == freep.value <==> c == |order| - 1
    {
      if order[Wrap(f + 1 + c, |order|)] == order[f] {
        OnePosition(Wrap(f + 1 + c, |order|), f);
      }
    }

    lemma NoRoom(f: nat, c: nat, n: int)
      requires Valid() && freep.Some? && f < |order| && order[f] == freep.value && c < |order|
      requires order[Wrap(f + 1 + c, |order|)] == freep.value
      requires TooSmall(f, c + 1, n)
      ensures !HasRoom(n)
    {
      LastIsFreep(f, c);
      forall j | 0 <= j < |order|
        ensures size[order[j]] < n
      {
        var v := if j > f then j - f - 1 else j + |order| - f - 1;
        assert Stop(f, v) == j;
      }
    }
  }
}
