/** The user-level allocator (umalloc.c).  Memory is a map from unit addresses
    to units; a unit is the size of one Header.  The circular free list is
    proved to be the canonical (sorted, fully coalesced) list of the free units,
    and free and live blocks tile the heap exactly. */
module Umalloc {
  import opened Common
  import opened FreeList

  /** What morecore passes to sbrk, which takes an int (umalloc.c:54). */
  function SbrkArgument(nu: nat): int {
    var n := Max(nu, MIN_CORE) * HEADER_BYTES % UINT_MOD;
    if n < UINT_MOD / 2 then n else n - UINT_MOD
  }

  /** Where the memory of a process of sz bytes ends after growproc(n), if the
      kernel has the pages (proc.c:133-147, vm.c:227-230 and 256-257). */
  function GrownTo(sz: nat, n: int): nat {
    var newsz := (sz + n) % UINT_MOD;
    if n > 0 then (if newsz >= KERNBASE then sz else newsz)
    else if n < 0 then (if newsz >= sz then sz else newsz)
    else sz
  }

  /** sbrk gets the bytes asked for exactly below 2^31 of them, and a process
      then grows by these or not at all.  From there on it never grows, and it
      loses the end of its memory exactly if the bytes asked for are short of
      2^32 by no more than it has. */
  lemma SbrkExactly(nu: nat, sz: nat)
    requires nu * HEADER_BYTES <= UINT_MOD && 0 < sz < KERNBASE
    ensures SbrkArgument(nu) == Max(nu, MIN_CORE) * HEADER_BYTES <==> nu * HEADER_BYTES < UINT_MOD / 2
    ensures nu * HEADER_BYTES < UINT_MOD / 2 ==>
              GrownTo(sz, SbrkArgument(nu)) == if sz + SbrkArgument(nu) < KERNBASE then sz + SbrkArgument(nu) else sz
    ensures nu * HEADER_BYTES >= UINT_MOD / 2 ==>
              && GrownTo(sz, SbrkArgument(nu)) <= sz
              && (GrownTo(sz, SbrkArgument(nu)) < sz <==> UINT_MOD - sz <= nu * HEADER_BYTES < UINT_MOD)
  {
  }

  /** A process of two pages loses one of them to such a request. */
  lemma SbrkShrinks()
    ensures UnitsFor(0xFFFF_EFF8) * HEADER_BYTES == UINT_MOD - 4096
    ensures GrownTo(8192, SbrkArgument(UnitsFor(0xFFFF_EFF8))) == 4096
  {
    SbrkExactly(UnitsFor(0xFFFF_EFF8), 8192);
  }

  class Heap {
    var mem: map<nat, Header>
    var freep: nat
    /** End of the process's memory, where sbrk hands out units. */
    var brk: nat
    ghost var fl: seq<Blk>
    ghost var live: map<nat, nat>

    ghost predicate Valid()
      reads this
    {
      && BASE in mem && BASE < brk <= ADDRESS_UNITS
      && (forall u :: u in mem ==> BASE <= u < brk)
      && (freep == NULL ==> fl == [] && live == map[] && mem.Keys == {BASE})
      && (freep != NULL ==> Ready())
    }

    ghost predicate Ready()
      reads this
    {
      ReadyState(mem, freep, fl, live)
    }

    constructor (start: nat)
      requires BASE < start <= ADDRESS_UNITS
      ensures Valid() && freep == NULL && brk == start && live == map[]
    {
      mem := map[BASE := Header(NULL, 0)];
      freep := NULL;
      brk := start;
      fl := [];
      live := map[];
    }

    /** The search loop of free (umalloc.c:30-32) stops at the free node just
        below bp, wherever freep starts it. */
    method Search(bp: nat, ghost j: nat) returns (p: nat)
      requires freep != NULL && Ready() && IsPred(fl, j, Blk(bp, 0))
      ensures p == fl[j].addr
    {
      p := freep;
      ghost var k: nat :| k < |fl| && fl[k].addr == freep;
      assert Node(mem, fl, BASE, k);
      AtSlot(fl, k, j, bp);
      while !(bp > p && bp < mem[p].ptr)
        invariant 0 <= k < |fl| && p == fl[k].addr && Node(mem, fl, BASE, k)
        invariant AtSlotHere(fl, k, bp) <==> k == j
        decreases Dist(k, j, |fl|)
      {
        if p >= mem[p].ptr && (bp > p || bp < mem[p].ptr) {
          break;
        }
        DistStep(k, j, |fl|);
        p := mem[p].ptr;
        k := Succ(k, |fl|);
        assert Node(mem, fl, BASE, k);
        AtSlot(fl, k, j, bp);
      }
    }

    /** The pointer updates of free (umalloc.c:33-42), in their order. */
    method Relink(p: nat, bp: nat, ghost j: nat)
      requires BASE in mem && bp in mem && Canonical(fl) && Linked(mem, fl)
      requires var b := Blk(bp, mem[bp].size); b.size >= 1 && IsPred(fl, j, b) && Outside(fl, b) && p == fl[j].addr
      modifies this`mem
      ensures mem.Keys == old(mem.Keys)
      ensures forall u :: u in mem && u != p && u != bp ==> mem[u] == old(mem)[u]
      ensures Linked(mem, Insert(fl, j, Blk(bp, old(mem)[bp].size)))
    {
      ghost var was, b := mem, Blk(bp, mem[bp].size);
      AboveChain(mem, fl, j, b);
      AboveFacts(fl, j, b);
      if bp + mem[bp].size == mem[p].ptr {
        mem := mem[bp := Header(mem[mem[p].ptr].ptr, mem[bp].size + mem[mem[p].ptr].size)];
      } else {
        mem := mem[bp := Header(mem[p].ptr, mem[bp].size)];
      }
      assert mem[bp] == Header(First(Above(fl, j, b), BASE), MergedUp(fl, j, b).size);
      if p + mem[p].size == bp {
        mem := mem[p := Header(mem[bp].ptr, mem[p].size + mem[bp].size)];
      } else {
        mem := mem[p := Header(bp, mem[p].size)];
      }
      MiddleChain(mem, fl[j], MergedUp(fl, j, b), First(Above(fl, j, b), BASE));
      LinkInsert(was, mem, fl, j, b);
    }

    /** free (umalloc.c:24-44): the block's units join the free units, the list
        stays canonical, and no unit of a block still live is written. */
    method Free(ap: nat)
      requires Valid() && ap > 0 && ap - 1 in live
      modifies this`mem, this`freep, this`fl, this`live
      ensures Valid() && freep != NULL
      ensures live == old(live) - {ap - 1}
      ensures mem.Keys == old(mem.Keys)
      ensures forall u :: Covers(fl, u) <==> Covers(old(fl), u) || Blk(ap - 1, old(live)[ap - 1]).Has(u)
      ensures forall u {:trigger LiveHas(live, u)} :: u in mem && LiveHas(live, u) ==> mem[u] == old(mem)[u]
    {
      var bp := ap - 1;
      ghost var b := Blk(bp, live[bp]);
      ghost var heap := mem.Keys;
      LiveOutside(heap, fl, live, bp);
      ghost var j := PredIndex(fl, |fl|, b);
      var p := Search(bp, j);
      Relink(p, bp, j);
      freep := p;
      FreeTiled(heap, fl, live, bp, j);
      HeaderNotLive(heap, fl, live, j);
      InsertCanonical(fl, j, b);
      forall u ensures Covers(Insert(fl, j, b), u) <==> Covers(fl, u) || b.Has(u) {
        InsertCovers(fl, j, b, u);
      }
      StillFree(fl, j, b);
      forall u ensures LiveHas(live - {bp}, u) <==> LiveHas(live, u) && !b.Has(u) {
        LiveRemove(live, bp, u);
      }
      assert b.Has(bp);
      fl, live := Insert(fl, j, b), live - {bp};
    }

    /** The units sbrk granted become one more block, with its size in its
        header (umalloc.c:54-58). */
    method Extend(hp: nat, n: nat)
      requires Valid() && freep != NULL && brk <= hp && n >= 1 && hp + n <= ADDRESS_UNITS
      modifies this`mem, this`brk, this`live
      ensures Valid() && hp !in old(live) && live == old(live)[hp := n] && brk == hp + n
      ensures mem.Keys == old(mem.Keys) + Region(hp, n)
      ensures forall u :: u in old(mem) ==> mem[u] == old(mem)[u]
    {
      ghost var was := mem;
      GrowTiled(mem.Keys, fl, live, hp, n);
      assert Blk(hp, n).Has(hp) && hp in Region(hp, n);
      mem := GrownMemory(mem, hp, n);
      brk := hp + n;
      ChainInMem(was, fl, BASE);
      ChainFrame(was, mem, fl, BASE);
      live := live[hp := n];
    }

    /** morecore (umalloc.c:46-61).  `grant` is what sbrk answers: no memory, or
        the address of fresh units at or above the old break. */
    method MoreCore(nu: nat, grant: Option<nat>) returns (p: nat)
      requires Valid() && freep != NULL
      requires Max(nu, MIN_CORE) * HEADER_BYTES < UINT_MOD / 2  // sbrk takes an int
      requires grant.Some? ==> brk <= grant.value && grant.value + Max(nu, MIN_CORE) <= ADDRESS_UNITS
      modifies this
      ensures Valid() && live == old(live)
      ensures grant.None? ==> p == NULL && mem == old(mem) && fl == old(fl) && freep == old(freep) && brk == old(brk)
      ensures grant.Some? ==> p == freep != NULL && brk == grant.value + Max(nu, MIN_CORE)
      ensures grant.Some? ==> mem.Keys == old(mem.Keys) + Region(grant.value, Max(nu, MIN_CORE))
      ensures grant.Some? ==>
                forall u :: Covers(fl, u) <==> Covers(old(fl), u) || Blk(grant.value, Max(nu, MIN_CORE)).Has(u)
      ensures forall u {:trigger LiveHas(live, u)} :: u in old(mem) && LiveHas(live, u) ==> mem[u] == old(mem)[u]
    {
      if grant.None? {
        return NULL;
      }
      var hp, n := grant.value, Max(nu, MIN_CORE);
      Extend(hp, n);
      forall u ensures LiveHas(old(live)[hp := n], u) <==> LiveHas(old(live), u) || Blk(hp, n).Has(u) {
        LiveAdd(old(live), hp, n, u);
      }
      Free(hp + 1);
      assert live == old(live);
      p := freep;
    }

    /** The header updates of malloc (umalloc.c:76-82). */
    method TrimOrUnlink(p: nat, prevp: nat, nunits: nat, ghost k: nat) returns (q: nat)
      requires Canonical(fl) && Linked(mem, fl) && 1 <= k < |fl| && 1 <= nunits <= fl[k].size
      requires p == fl[k].addr && prevp == fl[k - 1].addr && p + fl[k].size - nunits in mem
      modifies this`mem
      ensures q == p + fl[k].size - nunits && mem.Keys == old(mem.Keys)
      ensures Linked(mem, TakeTail(fl, k, nunits)) && mem[q].size == nunits
      ensures forall u :: u in mem && u != p && u != prevp && u != q ==> mem[u] == old(mem)[u]
    {
      ghost var was := mem;
      ChainInMem(mem, fl, BASE);
      assert Node(mem, fl, BASE, k) && Node(mem, fl, BASE, k - 1);
      assert fl[k - 1].addr < fl[k].addr;
      q := p;
      if mem[p].size == nunits {
        mem := mem[prevp := Header(mem[p].ptr, mem[prevp].size)];
        LinkUnlink(was, mem, fl, k);
      } else {
        mem := mem[p := Header(mem[p].ptr, mem[p].size - nunits)];
        q := p + mem[p].size;
        mem := mem[q := Header(mem[q].ptr, nunits)];
        NotANode(fl, k, q);
        LinkTrim(was, mem, fl, k, nunits);
      }
    }

    /** Taking nunits off the end of node k (umalloc.c:76-84). */
    method Take(p: nat, prevp: nat, nunits: nat, ghost k: nat) returns (ap: nat)
      requires Valid() && freep != NULL && 1 <= k < |fl| && 1 <= nunits <= fl[k].size
      requires p == fl[k].addr && prevp == fl[k - 1].addr
      modifies this`mem, this`freep, this`fl, this`live
      ensures Valid() && freep != NULL
      ensures ap == old(fl)[k].addr + old(fl)[k].size - nunits + 1
      ensures ap - 1 !in old(live) && live == old(live)[ap - 1 := nunits]
      ensures fl == TakeTail(old(fl), k, nunits)
      ensures forall u :: Covers(fl, u) <==> Covers(old(fl), u) && !Blk(ap - 1, nunits).Has(u)
      ensures mem.Keys == old(mem.Keys)
      ensures forall u {:trigger LiveHas(old(live), u)} :: u in mem && LiveHas(old(live), u) ==> mem[u] == old(mem)[u]
    {
      ghost var was, a := mem, fl[k].addr + fl[k].size - nunits;
      TakeInMemory(mem, freep, fl, live, k, nunits);
      var q := TrimOrUnlink(p, prevp, nunits, k);
      TakeReady(was, mem, freep, fl, live, k, nunits, a);
      forall u ensures Covers(TakeTail(fl, k, nunits), u) <==> Covers(fl, u) && !Blk(a, nunits).Has(u) {
        TakeTailCovers(fl, k, nunits, u);
      }
      freep := prevp;
      ap := q + 1;
      fl, live := TakeTail(fl, k, nunits), live[a := nunits];
    }

    /** The first call links base to itself (umalloc.c:70-73). */
    method Start(ghost nunits: nat)
      requires Valid() && nunits >= 1
      modifies this`mem, this`freep, this`fl
      ensures Valid() && freep != NULL && mem.Keys == old(mem.Keys)
      ensures forall u :: Covers(fl, u) <==> Covers(old(fl), u)
      ensures Fits(fl, nunits) <==> Fits(old(fl), nunits)
      ensures old(freep) != NULL ==> mem == old(mem) && freep == old(freep) && fl == old(fl)
      ensures forall u {:trigger LiveHas(live, u)} :: u in mem && LiveHas(live, u) ==> mem[u] == old(mem)[u]
    {
      if freep == NULL {
        mem, freep := mem[BASE := Header(BASE, 0)], BASE;
        fl := [Blk(BASE, 0)];
        assert Node(mem, fl, BASE, 0) && fl[0].addr == freep;
        forall u ensures UnitTiled(mem.Keys, fl, live, u) {
        }
      }
    }

    /** One lap of malloc's search loop (umalloc.c:74-87): the first node after
        freep that fits, or NULL once freep itself has been tried. */
    method Lap(nunits: nat) returns (prevp: nat, p: nat, ghost k: nat)
      requires freep != NULL && Ready() && nunits >= 1
      ensures p == NULL <==> !Fits(fl, nunits)
      ensures p != NULL ==> 1 <= k < |fl| && p == fl[k].addr && prevp == fl[k - 1].addr && fl[k].size >= nunits
      ensures p != NULL ==> exists f: nat :: f < |fl| && fl[f].addr == freep && Passed(fl, f, k, nunits)
    {
      ghost var f: nat :| f < |fl| && fl[f].addr == freep;
      ghost var kp: nat := f;
      NextNode(mem, fl, kp, nunits);
      prevp := freep;
      p := mem[prevp].ptr;
      k := Succ(kp, |fl|);
      while true
        invariant k < |fl| && kp < |fl| && k == Succ(kp, |fl|)
        invariant p == fl[k].addr && prevp == fl[kp].addr && Passed(fl, f, k, nunits)
        decreases Dist(k, f, |fl|)
      {
        NextNode(mem, fl, k, nunits);
        if mem[p].size >= nunits {
          return;
        }
        if p == freep {
          SameNode(fl, k, f);
          PassedAll(fl, f, nunits);
          p := NULL;
          return;
        }
        PassedStep(fl, f, k, nunits);
        DistStep(k, f, |fl|);
        kp := k;
        prevp := p;
        p := mem[p].ptr;
        k := Succ(kp, |fl|);
      }
    }

    /** A lap, and if nothing fits morecore and a second lap, which is proved to
        find a block: so there is never a third. */
    method SearchOrGrow(nunits: nat, grant: Option<nat>)
      returns (prevp: nat, p: nat, ghost k: nat, grown: bool)
      requires Valid() && freep != NULL && 1 <= nunits
      requires Fits(fl, nunits) || nunits * HEADER_BYTES < UINT_MOD / 2
      requires grant.Some? ==> brk <= grant.value && grant.value + Max(nunits, MIN_CORE) <= ADDRESS_UNITS
      modifies this
      ensures Valid() && freep != NULL && live == old(live)
      ensures p == NULL <==> !Fits(old(fl), nunits) && grant.None?
      ensures grown <==> !Fits(old(fl), nunits) && grant.Some?
      ensures !grown ==> mem == old(mem) && fl == old(fl) && freep == old(freep) && brk == old(brk)
      ensures grown ==> mem.Keys == old(mem.Keys) + Region(grant.value, Max(nunits, MIN_CORE))
      ensures grown ==>
                forall u :: Covers(fl, u) <==> Covers(old(fl), u) || Blk(grant.value, Max(nunits, MIN_CORE)).Has(u)
      ensures forall u {:trigger LiveHas(live, u)} :: u in old(mem) && LiveHas(live, u) ==> mem[u] == old(mem)[u]
      ensures p != NULL ==> 1 <= k < |fl| && p == fl[k].addr && prevp == fl[k - 1].addr && fl[k].size >= nunits
    {
      grown := false;
      prevp, p, k := Lap(nunits);
      if p == NULL {
        p := MoreCore(nunits, grant);
        if p != NULL {
          grown := true;
          ghost var t := ContiguousInOne(fl, grant.value, Max(nunits, MIN_CORE));
          prevp, p, k := Lap(nunits);
        }
      }
    }

    /** The search for nunits units (umalloc.c:70-90). */
    method Allocate(nunits: nat, grant: Option<nat>) returns (ap: nat, grown: bool)
      requires Valid() && 1 <= nunits
      requires Fits(fl, nunits) || nunits * HEADER_BYTES < UINT_MOD / 2
      requires grant.Some? ==> brk <= grant.value && grant.value + Max(nunits, MIN_CORE) <= ADDRESS_UNITS
      modifies this
      ensures Valid() && freep != NULL
      // failure: no block fits and the kernel has no memory; nothing changes
      ensures ap == NULL <==> !Fits(old(fl), nunits) && grant.None?
      ensures ap == NULL ==> live == old(live) && mem.Keys == old(mem.Keys)
      ensures ap == NULL ==> forall u :: Covers(fl, u) <==> Covers(old(fl), u)
      // growth happens only when nothing fits, and once
      ensures grown <==> !Fits(old(fl), nunits) && grant.Some?
      ensures mem.Keys == old(mem.Keys) + if grown then Region(grant.value, Max(nunits, MIN_CORE)) else {}
      // success: a block of free units becomes live
      ensures ap != NULL ==> ap - 1 !in old(live) && live == old(live)[ap - 1 := nunits]
      ensures ap != NULL ==> forall u :: Covers(fl, u) <==>
                !Blk(ap - 1, nunits).Has(u) &&
                (Covers(old(fl), u) || (grown && Blk(grant.value, Max(nunits, MIN_CORE)).Has(u)))
      ensures forall u {:trigger LiveHas(old(live), u)} :: u in old(mem) && LiveHas(old(live), u) ==>
                mem[u] == old(mem)[u]
    {
      Start(nunits);
      var prevp, p, k, g := SearchOrGrow(nunits, grant);
      grown := g;
      if p == NULL {
        return NULL, grown;
      }
      ap := Take(p, prevp, nunits, k);
    }

    /** malloc (umalloc.c:63-90). */
    method Malloc(nbytes: nat, grant: Option<nat>) returns (ap: nat, grown: bool)
      requires Valid() && nbytes < UINT_MOD
      requires Fits(fl, UnitsFor(nbytes)) || UnitsFor(nbytes) * HEADER_BYTES < UINT_MOD / 2
      requires grant.Some? ==> brk <= grant.value && grant.value + Max(UnitsFor(nbytes), MIN_CORE) <= ADDRESS_UNITS
      modifies this
      ensures Valid() && freep != NULL
      // failure: no block fits and the kernel has no memory; nothing changes
      ensures ap == NULL <==> !Fits(old(fl), UnitsFor(nbytes)) && grant.None?
      ensures ap == NULL ==> live == old(live) && mem.Keys == old(mem.Keys)
      ensures ap == NULL ==> forall u :: Covers(fl, u) <==> Covers(old(fl), u)
      // growth happens only when nothing fits, and once
      ensures grown <==> !Fits(old(fl), UnitsFor(nbytes)) && grant.Some?
      ensures mem.Keys == old(mem.Keys) + if grown then Region(grant.value, Max(UnitsFor(nbytes), MIN_CORE)) else {}
      // success: a block of free units becomes live
      ensures ap != NULL ==> ap - 1 !in old(live) && live == old(live)[ap - 1 := UnitsFor(nbytes)]
      ensures ap != NULL ==> forall u :: Covers(fl, u) <==>
                !Blk(ap - 1, UnitsFor(nbytes)).Has(u) &&
                (Covers(old(fl), u) || (grown && Blk(grant.value, Max(UnitsFor(nbytes), MIN_CORE)).Has(u)))
      ensures forall u {:trigger LiveHas(old(live), u)} :: u in old(mem) && LiveHas(old(live), u) ==>
                mem[u] == old(mem)[u]
    {
      ap, grown := Allocate(UnitsFor(nbytes), grant);
    }

    /** A program may scribble over the payload of a block it holds: the
        allocator's invariant does not depend on those units. */
    method Store(a: nat, u: nat, value: Header)
      requires Valid() && a in live && a < u < a + live[a]
      modifies this`mem
      ensures Valid() && u in old(mem) && mem == old(mem)[u := value]
    {
      ghost var was := mem;
      assert Blk(a, live[a]).Has(u) && LiveHas(live, u) && UnitTiled(mem.Keys, fl, live, u);
      StoreFrame(mem, mem[u := value], fl, live, a, u);
      mem := mem[u := value];
      assert mem.Keys == was.Keys;
    }

    /** Malloc followed by free puts back the very same free list, split and
        merged blocks included. */
    method MallocThenFree(nbytes: nat)
      requires Valid() && freep != NULL && nbytes < UINT_MOD
      requires Fits(fl, UnitsFor(nbytes))
      modifies this
      ensures Valid() && fl == old(fl) && live == old(live)
    {
      var ap, grown := Malloc(nbytes, None);
      ghost var b := Blk(ap - 1, UnitsFor(nbytes));
      assert forall u :: b.Has(u) ==> LiveHas(live, u) by {
        assert b.addr in live && live[b.addr] == b.size;
      }
      Free(ap);
      assert live == old(live);
      forall u ensures Covers(fl, u) <==> Covers(old(fl), u) {
        if b.Has(u) {
          assert old(UnitTiled(mem.Keys, fl, live, u));
          LiveAdd(old(live), b.addr, b.size, u);
          assert UnitTiled(mem.Keys, fl, live, u);
        }
      }
      CanonicalUnique(fl, old(fl));
    }
  }
}
