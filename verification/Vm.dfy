/** Physical pages (kalloc.c) and two-level page tables (vm.c:45-90, 221-340),
    down to the words in memory.  Every physical page has one use. */
module Vm {
  import opened Common
  import opened PageTables

  class Machine {
    var mem: seq<Page>
    var head: nat
    ghost var fl: seq<nat>
    ghost var owner: seq<Use>

    ghost predicate Lists()
      reads this
    {
      FreeOk(mem, owner, head, fl)
    }

    ghost predicate Valid()
      reads this
    {
      Lists() && Spaces(mem, owner)
    }

    /** Before the allocator is set up. */
    constructor (mem: seq<Page>)
      ensures Valid() && this.mem == mem && fl == [] && forall f :: 0 <= f < |mem| ==> owner[f] == Reserved
    {
      this.mem, head, fl, owner := mem, 0, [], seq(|mem|, _ => Reserved);
    }

    /** freerange (kalloc.c:45-52), between page boundaries: the pages come free,
        the highest to be handed out first. */
    method Freerange(lo: nat, hi: nat)
      requires Valid() && lo <= hi <= |mem| && forall f :: lo <= f < hi ==> owner[f] == Reserved
      modifies this`mem, this`head, this`fl, this`owner
      ensures Valid() && |mem| == |old(mem)| && fl == old(fl) + seq(hi - lo, i => lo + i)
      ensures forall f :: 0 <= f < |mem| && !(lo <= f < hi) ==> owner[f] == old(owner)[f] && mem[f] == old(mem)[f]
      ensures forall f :: lo <= f < hi ==> owner[f].Free?
    {
      var p := lo;
      while p + 1 <= hi
        invariant lo <= p <= hi && Valid() && |mem| == |old(mem)| && fl == old(fl) + seq(p - lo, i => lo + i)
        invariant forall f :: 0 <= f < |mem| && !(lo <= f < p) ==> owner[f] == old(owner)[f] && mem[f] == old(mem)[f]
        invariant forall f :: lo <= f < p ==> owner[f].Free?
      {
        ghost var mem1, owner1 := mem, owner;
        Kfree(p);
        SpacesFrame(mem1, owner1, mem, owner);
        p := p + 1;
      }
    }

    /** kalloc (kalloc.c:82-95). */
    method Kalloc() returns (ok: bool, f: nat)
      requires Valid()
      modifies this`head, this`fl, this`owner
      ensures Valid() && (ok <==> old(fl) != [])
      ensures !ok ==> fl == [] && owner == old(owner)
      ensures ok ==> f < |mem| && old(owner)[f].Free? && owner == old(owner)[f := Loose] && |fl| == |old(fl)| - 1
    {
      if head == 0 {
        assert fl == [];
        return false, 0;
      }
      f := (head - KERNBASE) / PGSIZE;
      ghost var n := |fl| - 1;
      assert LinkOk(mem, owner, fl, n) && f == fl[n];
      head := mem[f][0];
      fl, owner := fl[..n], owner[f := Loose];
      assert Lists() by {
        forall k | 0 <= k < |fl| ensures LinkOk(mem, owner, fl, k) {
          assert LinkOk(mem, old(owner), old(fl), k);
        }
        forall g | 0 <= g < |mem| ensures PlaceOk(owner, fl, g) {
          assert PlaceOk(old(owner), old(fl), g);
        }
      }
      SpacesFrame(mem, old(owner), mem, owner);
      return true, f;
    }

    /** kfree (kalloc.c:59-77) of a page that is not free: it ends up on top. */
    method Kfree(f: nat)
      requires Lists() && f < |mem| && !owner[f].Free?
      modifies this`mem, this`head, this`fl, this`owner
      ensures Lists() && |mem| == |old(mem)| == |old(owner)|
      ensures mem == old(mem)[f := Junk(old(head))] && owner == old(owner)[f := Free(|old(fl)|)] && fl == old(fl) + [f]
    {
      mem := mem[f := seq(ENTRIES, _ => 0x0101_0101)];
      mem := mem[f := mem[f][0 := head]];
      assert mem[f] == Junk(old(head));
      assert mem == old(mem)[f := Junk(old(head))];
      head := Ptr(f);
      fl, owner := fl + [f], owner[f := Free(|fl|)];
      forall k | 0 <= k < |fl| ensures LinkOk(mem, owner, fl, k) {
        assert k < |old(fl)| ==> LinkOk(old(mem), old(owner), old(fl), k);
      }
      forall g | 0 <= g < |mem| ensures PlaceOk(owner, fl, g) {
        assert PlaceOk(old(owner), old(fl), g);
      }
    }

    /** walkpgdir (vm.c:45-65): the page table of v, made if need be and asked
        for; no mapping changes. */
    method Walkpgdir(d: nat, v: nat, alloc: bool) returns (ok: bool, t: nat)
      requires Valid() && d < |mem| && owner[d] == Dir && v < ENTRIES * ENTRIES
      modifies this`mem, this`head, this`fl, this`owner
      ensures Valid() && |mem| == |old(mem)| && owner[d] == Dir
      ensures ok ==>
                Present(mem[d][v / ENTRIES]) && t == Frame(mem[d][v / ENTRIES]) < |mem| &&
                owner[t] == Table(d, v / ENTRIES)
      ensures !ok ==> mem == old(mem) && owner == old(owner) && !Present(mem[d][v / ENTRIES])
      ensures !ok && alloc ==> fl == old(fl) == []
      ensures !alloc ==> mem == old(mem) && owner == old(owner) && fl == old(fl) && head == old(head)
      ensures ok && alloc ==> Tabled(old(mem)[d], mem[d], v / ENTRIES)
      ensures alloc ==> |fl| == if ok then |old(fl)| + 1 - Cost(old(mem)[d], v) else 0
      ensures SameMaps(old(mem), old(owner), mem)
      ensures InUse(old(mem), old(owner), mem, owner) && Taken(old(owner), owner, d, -1)
    {
      assert PdeOk(mem, owner, d, v / ENTRIES);
      if Present(mem[d][v / ENTRIES]) {
        return true, Frame(mem[d][v / ENTRIES]);
      }
      if !alloc {
        return false, 0;
      }
      ok, t := Kalloc();
      if !ok {
        return;
      }
      ghost var owner1 := owner;
      mem := mem[t := Zeros()];
      ghost var mem1 := mem;
      SpacesFrame(old(mem), owner1, mem1, owner1);
      AddTable(mem1, owner1, d, v / ENTRIES, t);
      mem := mem[d := mem[d][v / ENTRIES := Entry(t, PTE_W + PTE_U)]];
      owner := owner[t := Table(d, v / ENTRIES)];
      assert mem == WithWord(mem1, d, v / ENTRIES, Entry(t, 7));
      FreeFrame(old(mem), owner1, head, fl, mem, owner);
      forall e, u | 0 <= e < |mem| && old(owner)[e] == Dir && 0 <= u < ENTRIES * ENTRIES
        ensures Pte(mem, e, u) == Pte(old(mem), e, u)
      {
        PteFrame(old(mem), owner1, mem1, e, u);
        TablePte(mem1, owner1, d, v / ENTRIES, t, e, u);
      }
    }

    /** mappages (vm.c:70-90) of one page: v, which was not mapped, to f. */
    method Mappage(d: nat, v: nat, f: nat, perm: nat) returns (ok: bool)
      requires Valid() && d < |mem| && owner[d] == Dir && v < USER && !Present(Pte(mem, d, v))
      requires f < |mem| && owner[f] == Loose && perm < PGSIZE
      modifies this`mem, this`head, this`fl, this`owner
      ensures Valid() && |mem| == |old(mem)| && owner[d] == Dir
      ensures !ok ==> mem == old(mem) && owner == old(owner) && fl == old(fl) == [] && !Present(mem[d][v / ENTRIES])
      ensures ok ==> Tabled(old(mem)[d], mem[d], v / ENTRIES) && |fl| == |old(fl)| + 1 - Cost(old(mem)[d], v)
      ensures ok ==> Pte(mem, d, v) == Entry(f, perm) && owner[f] == User(d, v) && mem[f] == old(mem)[f]
      ensures ok ==>
                SameMapsBut(old(mem), old(owner), mem, d, v) && InUse(old(mem), old(owner)[f := Free(0)], mem, owner)
      ensures Taken(old(owner), owner, d, -1)
    {
      var t;
      ok, t := Walkpgdir(d, v, true);
      if !ok {
        return;
      }
      ghost var mem1, owner1 := mem, owner;
      assert Pte(mem, d, v) == mem[t][v % ENTRIES];
      ChangePage(mem, owner, d, v, Entry(f, perm), f, User(d, v));
      mem := mem[t := mem[t][v % ENTRIES := Entry(f, perm)]];
      owner := owner[f := User(d, v)];
      assert mem == WithWord(mem1, t, v % ENTRIES, Entry(f, perm));
      FreeFrame(mem1, owner1, head, fl, mem, owner);
      forall e, u | 0 <= e < |mem| && old(owner)[e] == Dir && 0 <= u < ENTRIES * ENTRIES
        ensures Pte(mem, e, u) == if e == d && u == v then Entry(f, perm) else Pte(old(mem), e, u)
      {
        SlotPte(mem1, owner1, d, v, Entry(f, perm), e, u);
      }
    }

    /** Free the page of v and clear its entry (vm.c:264-271). */
    method Unmap(d: nat, v: nat, t: nat)
      requires Valid() && d < |mem| && owner[d] == Dir && v < USER && Present(Pte(mem, d, v))
      requires Present(mem[d][v / ENTRIES]) && t == Frame(mem[d][v / ENTRIES])
      modifies this`mem, this`head, this`fl, this`owner
      ensures Valid() && |mem| == |old(mem)| && mem[d] == old(mem)[d] && Pte(mem, d, v) == 0
      ensures Frame(Pte(old(mem), d, v)) < |old(owner)| && old(owner)[Frame(Pte(old(mem), d, v))] == User(d, v)
      ensures owner == old(owner)[Frame(Pte(old(mem), d, v)) := Free(|old(fl)|)] && |fl| == |old(fl)| + 1
      ensures SameMapsBut(old(mem), old(owner), mem, d, v) && InUse(old(mem), owner, mem, owner)
    {
      assert PteOk(mem, owner, d, v) && PdeOk(mem, owner, d, v / ENTRIES);
      var f := Frame(mem[t][v % ENTRIES]);
      ChangePage(mem, owner, d, v, 0, f, Free(|fl|));
      Kfree(f);
      ghost var mem1 := mem;
      mem := mem[t := mem[t][v % ENTRIES := 0]];
      ghost var mem2 := WithWord(old(mem), t, v % ENTRIES, 0);
      SpacesFrame(mem2, owner, mem, owner);
      FreeFrame(mem1, owner, head, fl, mem, owner);
      forall e, u | 0 <= e < |mem| && old(owner)[e] == Dir && 0 <= u < ENTRIES * ENTRIES
        ensures Pte(mem, e, u) == if e == d && u == v then 0 else Pte(old(mem), e, u)
      {
        SlotPte(old(mem), old(owner), d, v, 0, e, u);
        PteFrame(mem2, owner, mem, e, u);
      }
    }

    /** deallocuvm (vm.c:250-274).  The pages freed are those its loop comes to. */
    method Deallocuvm(d: nat, oldsz: nat, newsz: nat) returns (r: nat)
      requires Valid() && d < |mem| && owner[d] == Dir && oldsz <= KERNBASE
      modifies this`mem, this`head, this`fl, this`owner
      ensures Valid() && |mem| == |old(mem)| && mem[d] == old(mem)[d]
      ensures owner[d] == Dir && r == if newsz < oldsz then newsz else oldsz
      ensures Unmapped(old(mem), old(owner), mem, owner, d, Pages(newsz), Pages(oldsz), Pages(oldsz))
      ensures |fl| == |old(fl)| + Walked(old(mem), d, Pages(newsz), Pages(oldsz))
    {
      ghost var a0, end := Pages(newsz), Pages(oldsz);
      if newsz >= oldsz {
        return oldsz;
      }
      var a := Pages(newsz);
      while a * PGSIZE < oldsz
        invariant Valid() && |mem| == |old(mem)| && mem[d] == old(mem)[d] && owner[d] == Dir
        invariant forall e :: 0 <= e < |mem| && old(owner)[e] == Dir ==> owner[e] == Dir
        invariant Unmapped(old(mem), old(owner), mem, owner, d, a0, end, a)
        invariant |fl| + Walked(old(mem), d, a, end) == |old(fl)| + Walked(old(mem), d, a0, end)
        invariant forall u: nat :: Reached(old(mem)[d], a, end, u) ==> Reached(old(mem)[d], a0, end, u)
        decreases KERNBASE - a * PGSIZE
      {
        a := DeallocPage(d, a0, end, a, old(mem), old(owner));
      }
      UnmapMove(old(mem), old(owner), mem, owner, d, a0, end, a, end);
      return newsz;
    }

    /** One turn of the loop (vm.c:261-271). */
    method DeallocPage(d: nat, ghost a0: nat, ghost end: nat, a: nat, ghost mem0: seq<Page>, ghost owner0: seq<Use>)
      returns (next: nat)
      requires Valid() && end <= USER && a < end && Spaces(mem0, owner0)
      requires Unmapped(mem0, owner0, mem, owner, d, a0, end, a)
      requires mem[d] == mem0[d] && owner[d] == Dir
      requires forall e :: 0 <= e < |mem| && owner0[e] == Dir ==> owner[e] == Dir
      requires forall u: nat :: Reached(mem0[d], a, end, u) ==> Reached(mem0[d], a0, end, u)
      modifies this`mem, this`head, this`fl, this`owner
      ensures Valid() && |mem| == |old(mem)| && mem[d] == mem0[d] && owner[d] == Dir && a < next
      ensures forall e :: 0 <= e < |mem| && owner0[e] == Dir ==> owner[e] == Dir
      ensures Unmapped(mem0, owner0, mem, owner, d, a0, end, next)
      ensures |fl| + Walked(mem0, d, next, end) == |old(fl)| + Walked(mem0, d, a, end)
      ensures forall u: nat :: Reached(mem0[d], next, end, u) ==> Reached(mem0[d], a0, end, u)
    {
      ReachedFrom(mem0[d], a, end);
      next := a;
      var ok, t := Walkpgdir(d, a, false);
      assert PteGone(mem0, mem, d, a0, end, a, a);
      if !ok {
        next := next + ENTRIES - 1;
        UnmapMove(mem0, owner0, mem, owner, d, a0, end, a, next + 1);
      } else if Present(mem[t][a % ENTRIES]) {
        ghost var mem1, owner1, k := mem, owner, |fl|;
        Unmap(d, a, t);
        UnmapOne(mem0, owner0, mem1, owner1, mem, owner, d, a0, end, a, k);
      } else {
        UnmapMove(mem0, owner0, mem, owner, d, a0, end, a, a + 1);
      }
      next := next + 1;
    }

    /** A page from the free list, filled as asked. */
    method Newpage(content: Page) returns (ok: bool, f: nat)
      requires Valid()
      modifies this`mem, this`head, this`fl, this`owner
      ensures Valid() && |mem| == |old(mem)| && (ok <==> old(fl) != [])
      ensures !ok ==> fl == [] && owner == old(owner) && mem == old(mem)
      ensures ok ==>
                f < |mem| && old(owner)[f].Free? && owner == old(owner)[f := Loose] && mem == old(mem)[f := content]
      ensures ok ==> |fl| == |old(fl)| - 1
      ensures SameMaps(old(mem), old(owner), mem)
    {
      ok, f := Kalloc();
      if ok {
        mem := mem[f := content];
        SpacesFrame(old(mem), owner, mem, owner);
        FreeFrame(old(mem), owner, head, fl, mem, owner);
        forall e, u | 0 <= e < |mem| && old(owner)[e] == Dir && 0 <= u < ENTRIES * ENTRIES
          ensures Pte(mem, e, u) == Pte(old(mem), e, u)
        {
          PteFrame(old(mem), old(owner), mem, e, u);
        }
      }
    }

    /** A page with this content, mapped at v.  Without a page for the page table
        the new page is lost. */
    method Addpage(d: nat, v: nat, content: Page, perm: nat) returns (r: Added, ghost f: nat)
      requires Valid() && d < |mem| && owner[d] == Dir && v < USER && !Present(Pte(mem, d, v)) && perm < PGSIZE
      modifies this`mem, this`head, this`fl, this`owner
      ensures Valid() && |mem| == |old(mem)| && owner[d] == Dir && InUse(old(mem), old(owner), mem, owner)
      ensures r == Mapped ==>
                f < |mem| && old(owner)[f].Free? && owner[f] == User(d, v) && mem[f] == content &&
                Pte(mem, d, v) == Entry(f, perm)
      ensures r == Mapped ==> SameMapsBut(old(mem), old(owner), mem, d, v) && Taken(old(owner), owner, d, -1)
      ensures r != Mapped ==> fl == [] && SameMaps(old(mem), old(owner), mem)
      ensures r == NoPage <==> old(fl) == []
      ensures r == Mapped <==> |old(fl)| >= Cost(old(mem)[d], v)
      ensures r == Mapped ==> Tabled(old(mem)[d], mem[d], v / ENTRIES) && |fl| == |old(fl)| - Cost(old(mem)[d], v)
      ensures r == NoPage ==> mem == old(mem) && owner == old(owner)
      ensures r == NoTable ==> f < |mem| && old(owner)[f].Free? && owner[f] == Loose && Taken(old(owner), owner, d, f)
    {
      var ok, g := Newpage(content);
      f := g;
      if !ok {
        return NoPage, f;
      }
      ok := Mappage(d, v, g, perm);
      r := if ok then Mapped else NoTable;
    }

    /** allocuvm (vm.c:221-244): zeroed pages from oldsz to newsz, or every mapping
        as it was.  With one free page too few, and that one for the table of
        the very last page, it does not notice that this page is missing.  A
        page whose table is missing is lost, whether the call succeeds or not,
        and page tables made stay. */
    method Allocuvm(d: nat, oldsz: nat, newsz: nat) returns (r: nat, ghost top: nat, ghost lost: int)
      requires Valid() && d < |mem| && owner[d] == Dir
      requires newsz < KERNBASE ==> forall v :: Pages(oldsz) <= v < Pages(newsz) ==> !Present(Pte(mem, d, v))
      modifies this`mem, this`head, this`fl, this`owner
      ensures Valid() && |mem| == |old(mem)| && owner[d] == Dir
      ensures newsz >= KERNBASE ==> r == 0
      ensures newsz < oldsz && newsz < KERNBASE ==> r == oldsz
      ensures newsz >= KERNBASE || newsz < oldsz ==> mem == old(mem) && owner == old(owner)
      ensures oldsz <= newsz < KERNBASE ==>
                r == if Covers(|old(fl)|, old(mem)[d], Pages(oldsz), Pages(newsz)) then newsz else 0
      ensures oldsz <= newsz < KERNBASE && Covers(|old(fl)|, old(mem)[d], Pages(oldsz), Pages(newsz)) ==>
                Grown(old(mem), old(owner), mem, owner, d, Pages(oldsz), Pages(newsz), top, lost, |old(fl)|, |fl|)
      ensures oldsz <= newsz < KERNBASE && !Covers(|old(fl)|, old(mem)[d], Pages(oldsz), Pages(newsz)) ==>
                Filled(old(mem), old(owner), mem, owner, d, 0, 0) && Returned(old(owner), owner, d, lost)
      ensures oldsz <= newsz < KERNBASE ==>
                Spent(|old(fl)|, old(mem)[d], Pages(oldsz), Pages(newsz), top, lost, |fl|, r == newsz)
    {
      top, lost := 0, -1;
      if newsz >= KERNBASE {
        return 0, top, lost;
      }
      if newsz < oldsz {
        return oldsz, top, lost;
      }
      r, top, lost := AllocPages(d, oldsz, newsz);
    }

    /** Its loop (vm.c:232-243). */
    method AllocPages(d: nat, oldsz: nat, newsz: nat) returns (r: nat, ghost top: nat, ghost lost: int)
      requires Valid() && d < |mem| && owner[d] == Dir && oldsz <= newsz < KERNBASE
      requires forall v :: Pages(oldsz) <= v < Pages(newsz) ==> !Present(Pte(mem, d, v))
      modifies this`mem, this`head, this`fl, this`owner
      ensures Valid() && |mem| == |old(mem)| && owner[d] == Dir
      ensures r == if Covers(|old(fl)|, old(mem)[d], Pages(oldsz), Pages(newsz)) then newsz else 0
      ensures var ok := Covers(|old(fl)|, old(mem)[d], Pages(oldsz), Pages(newsz));
              Outcome(old(mem), old(owner), mem, owner, d, Pages(oldsz), Pages(newsz), top, lost, |old(fl)|, |fl|, ok)
    {
      var a := Pages(oldsz);
      ghost var a0, end := a, Pages(newsz);
      top, lost := a, -1;
      AllocStart(mem, owner, d, a, |fl|);
      while a * PGSIZE < newsz
        invariant Valid() && |mem| == |old(mem)| && owner[d] == Dir && a0 <= a <= end
        invariant Allocated(old(mem), old(owner), mem, owner, d, a0, a, top, lost, |old(fl)|, |fl|)
      {
        var got;
        got, top, lost := AllocOrUndo(d, oldsz, newsz, a, top, lost, old(mem), old(owner), |old(fl)|);
        if !got {
          return 0, top, lost;
        }
        a := a + 1;
      }
      AllocEnd(old(mem), old(owner), mem, owner, d, a0, end, top, lost, |old(fl)|, |fl|);
      return newsz, top, lost;
    }

    /** The pages allocation mapped from a0 to top are given back. */
    method GiveBack(d: nat, oldsz: nat, newsz: nat, ghost mem0: seq<Page>, ghost owner0: seq<Use>,
                    ghost top: nat, ghost lost: int)
      requires Valid() && d < |mem| && owner[d] == Dir && Spaces(mem0, owner0) && d < |mem0| && owner0[d] == Dir
      requires oldsz <= newsz < KERNBASE && Pages(oldsz) <= top <= Pages(newsz)
      requires Filled(mem0, owner0, mem, owner, d, Pages(oldsz), top) && Taken(owner0, owner, d, lost)
      requires forall v :: Pages(oldsz) <= v < Pages(newsz) ==> !Present(Pte(mem0, d, v))
      modifies this`mem, this`head, this`fl, this`owner
      ensures Valid() && |mem| == |mem0| && owner[d] == Dir && |fl| == |old(fl)| + (top - Pages(oldsz))
      ensures Filled(mem0, owner0, mem, owner, d, 0, 0) && Returned(owner0, owner, d, lost)
    {
      ghost var mem1, owner1 := mem, owner;
      var _ := Deallocuvm(d, newsz, oldsz);
      FillUndone(mem0, owner0, mem1, owner1, mem, owner, d, Pages(oldsz), top, Pages(newsz), lost);
    }

    /** One turn of the loop; when the pages have run out, those mapped are given
        back (vm.c:234-241). */
    method AllocOrUndo(d: nat, oldsz: nat, newsz: nat, a: nat, ghost top0: nat, ghost lost0: int,
                       ghost mem0: seq<Page>, ghost owner0: seq<Use>, ghost n0: nat)
      returns (got: bool, ghost top: nat, ghost lost: int)
      requires Valid() && d < |mem| && Spaces(mem0, owner0) && owner[d] == Dir && d < |mem0| && owner0[d] == Dir
      requires oldsz <= newsz < KERNBASE && Pages(oldsz) <= a < Pages(newsz)
      requires Allocated(mem0, owner0, mem, owner, d, Pages(oldsz), a, top0, lost0, n0, |fl|)
      requires forall v :: Pages(oldsz) <= v < Pages(newsz) ==> !Present(Pte(mem0, d, v))
      modifies this`mem, this`head, this`fl, this`owner
      ensures Valid() && |mem| == |mem0| && owner[d] == Dir
      ensures got ==> Allocated(mem0, owner0, mem, owner, d, Pages(oldsz), a + 1, top, lost, n0, |fl|)
      ensures !got ==> !Covers(n0, mem0[d], Pages(oldsz), Pages(newsz))
      ensures !got ==> Outcome(mem0, owner0, mem, owner, d, Pages(oldsz), Pages(newsz), top, lost, n0, |fl|, false)
    {
      got, top, lost := AllocPage(d, Pages(oldsz), a, top0, lost0, Pages(newsz), mem0, owner0, n0);
      if !got {
        GiveBack(d, oldsz, newsz, mem0, owner0, top, lost);
      }
    }

    /** The page itself; n0 pages were free at first. */
    method AllocPage(d: nat, ghost a0: nat, a: nat, ghost top0: nat, ghost lost0: int, ghost end: nat,
                     ghost mem0: seq<Page>, ghost owner0: seq<Use>, ghost n0: nat)
      returns (got: bool, ghost top: nat, ghost lost: int)
      requires Valid() && d < |mem| && a0 <= a < end <= USER && Spaces(mem0, owner0) && owner[d] == Dir
      requires Allocated(mem0, owner0, mem, owner, d, a0, a, top0, lost0, n0, |fl|) && !Present(Pte(mem0, d, a))
      modifies this`mem, this`head, this`fl, this`owner
      ensures Valid() && |mem| == |mem0| && owner[d] == Dir
      ensures got ==> Allocated(mem0, owner0, mem, owner, d, a0, a + 1, top, lost, n0, |fl|)
      ensures !got ==> a0 <= top <= a && Filled(mem0, owner0, mem, owner, d, a0, top) && Taken(owner0, owner, d, lost)
      ensures !got ==> !Covers(n0, mem0[d], a0, end) && fl == [] && Spent(n0, mem0[d], a0, end, top, lost, 0, true)
    {
      top, lost := top0, lost0;
      ghost var mem1, owner1, n1 := mem, owner, |fl|;
      assert FillOk(mem0, owner0, mem, owner, d, a0, top, a);
      var r, f := Addpage(d, a, Zeros(), PTE_W + PTE_U);
      got := r != NoPage;
      if r == NoPage {
        AllocFails(mem0, owner0, mem1, owner1, d, a0, a, end, top, lost, n0);
      } else if r == Mapped {
        AllocMapped(mem0, owner0, mem1, owner1, mem, owner, d, a0, a, f, n0, n1, |fl|);
        top := a + 1;
      } else {
        AllocLost(mem0, owner0, mem1, owner1, mem, owner, d, a0, a, f, n0);
        lost := f;
      }
    }

    /** Growing a process and shrinking it again gives every mapping back, and
        the pages too, but for page tables it keeps and, exactly if allocation
        comes to a page with one left and no table, for that one. */
    method GrowAndShrink(d: nat, oldsz: nat, newsz: nat) returns (grew: bool, ghost top: nat, ghost lost: int)
      requires Valid() && d < |mem| && owner[d] == Dir && oldsz <= newsz < KERNBASE
      requires forall v :: Pages(oldsz) <= v < Pages(newsz) ==> !Present(Pte(mem, d, v))
      modifies this`mem, this`head, this`fl, this`owner
      ensures Valid() && Filled(old(mem), old(owner), mem, owner, d, 0, 0) && Returned(old(owner), owner, d, lost)
      ensures grew <==> Covers(|old(fl)|, old(mem)[d], Pages(oldsz), Pages(newsz))
      ensures Spent(|old(fl)|, old(mem)[d], Pages(oldsz), Pages(newsz), top, lost, |fl|, false)
      ensures |old(fl)| >= Need(old(mem)[d], Pages(oldsz), Pages(newsz)) ==> grew && top == Pages(newsz) && lost < 0
    {
      EnoughLeaks(|fl|, mem[d], Pages(oldsz), Pages(newsz));
      var r;
      r, top, lost := Allocuvm(d, oldsz, newsz);
      grew := r == newsz;
      if grew {
        GiveBack(d, oldsz, newsz, old(mem), old(owner), top, lost);
      }
    }

    /** freevm (vm.c:278-293): every page the address space had is free. */
    method Freevm(d: nat)
      requires Valid() && d < |mem| && owner[d] == Dir
      modifies this`mem, this`head, this`fl, this`owner
      ensures Valid() && |mem| == |old(mem)| && Discarded(old(mem), old(owner), mem, owner, d)
    {
      var _ := Deallocuvm(d, KERNBASE, 0);
      ghost var mem1, owner1 := mem, owner;
      AllGone(old(mem), old(owner), mem1, owner1, d);
      DropSpace(mem1, owner1, d);
      owner := Detached(owner1, d);
      FreeFrame(mem1, owner1, head, fl, mem, owner);
      FreeTables(d, mem1, owner1);
      assert FreeingAt(mem1, owner1, mem, owner, d, ENTRIES, d);
      ghost var mem2, owner2 := mem, owner;
      Kfree(d);
      SpacesFrame(mem2, owner2, mem, owner);
      AllDiscarded(old(mem), old(owner), mem1, owner1, mem2, owner2, mem, owner, d);
    }

    /** Its loop (vm.c:286-291), once no user page is left. */
    method FreeTables(d: nat, ghost mem1: seq<Page>, ghost owner1: seq<Use>)
      requires Valid() && Spaces(mem1, owner1) && d < |mem1| && owner1[d] == Dir
      requires mem == mem1 && owner == Detached(owner1, d)
      modifies this`mem, this`head, this`fl, this`owner
      ensures Valid() && |mem| == |mem1| && Freeing(mem1, owner1, mem, owner, d, ENTRIES)
    {
      var i := 0;
      while i < ENTRIES
        invariant 0 <= i <= ENTRIES && Valid() && |mem| == |mem1| && mem[d] == mem1[d]
        invariant Freeing(mem1, owner1, mem, owner, d, i)
      {
        if Present(mem[d][i]) {
          assert PdeOk(mem1, owner1, d, i);
          var t := Frame(mem[d][i]);
          assert FreeingAt(mem1, owner1, mem, owner, d, i, t);
          ghost var mem2, owner2 := mem, owner;
          Kfree(t);
          SpacesFrame(mem2, owner2, mem, owner);
          FreeTable(mem1, owner1, mem2, owner2, mem, owner, d, i, t);
        } else {
          FreeNothing(mem1, owner1, mem, owner, d, i);
        }
        i := i + 1;
      }
    }

    /** A zeroed page directory, as setupkvm starts one (vm.c:134-136). */
    method Newdir() returns (ok: bool, nd: nat)
      requires Valid()
      modifies this`mem, this`head, this`fl, this`owner
      ensures Valid() && |mem| == |old(mem)|
      ensures !ok ==> mem == old(mem) && owner == old(owner)
      ensures (ok <==> old(fl) != []) && |fl| == if ok then |old(fl)| - 1 else 0
      ensures ok ==>
                nd < |mem| && old(owner)[nd].Free? && owner == old(owner)[nd := Dir] && mem == old(mem)[nd := Zeros()]
      ensures SameMaps(old(mem), old(owner), mem)
    {
      ok, nd := Newpage(Zeros());
      if ok {
        AddDir(mem, owner, nd);
        FreeFrame(mem, owner, head, fl, mem, owner[nd := Dir]);
        owner := owner[nd := Dir];
      }
    }

    /** copyuvm (vm.c:310-340): the child has the same pages, on memory of its
        own, with the same flags and the same content, exactly if there are
        pages for its directory, its tables and all of these.  Otherwise no
        mapping has changed, and pages are back but for the one lost, exactly if
        the copy comes to a page with one left and no table. */
    method Copyuvm(d: nat, sz: nat) returns (ok: bool, nd: nat, ghost lost: int)
      requires Valid() && d < |mem| && owner[d] == Dir && sz <= KERNBASE
      requires forall v :: 0 <= v < Pages(sz) ==> Present(Pte(mem, d, v))
      modifies this`mem, this`head, this`fl, this`owner
      ensures Valid() && |mem| == |old(mem)| && InUse(old(mem), old(owner), mem, owner)
      ensures ok ==> Copied(old(mem), old(owner), mem, owner, d, nd, Pages(sz)) && lost < 0
      ensures !ok ==> SameUser(old(mem), old(owner), mem)
      ensures !ok ==> forall f :: 0 <= f < |mem| && f != lost ==> owner[f].Free? || owner[f] == old(owner)[f]
      ensures Leaked(old(owner), owner, lost)
      ensures ok <==> |old(fl)| >= 1 + Need(Zeros(), 0, Pages(sz))
      ensures lost >= 0 <==> |old(fl)| > 0 && Leaks(|old(fl)| - 1, Zeros(), 0, Pages(sz))
    {
      lost := -1;
      ok, nd := Newdir();
      if ok {
        CopyStart(old(mem), old(owner), mem, owner, d, nd);
        ok, lost := CopyPages(d, nd, sz, old(mem), old(owner));
      }
    }

    /** Its loop (vm.c:320-338), with the directory made. */
    method CopyPages(d: nat, nd: nat, sz: nat, ghost mem0: seq<Page>, ghost owner0: seq<Use>)
      returns (ok: bool, ghost lost: int)
      requires Valid() && sz <= KERNBASE && Spaces(mem0, owner0) && Copied(mem0, owner0, mem, owner, d, nd, 0)
      requires mem[nd] == Zeros() && forall v :: 0 <= v < Pages(sz) ==> Present(Pte(mem0, d, v))
      modifies this`mem, this`head, this`fl, this`owner
      ensures Valid() && |mem| == |old(mem)| && InUse(mem0, owner0, mem, owner)
      ensures ok ==> Copied(mem0, owner0, mem, owner, d, nd, Pages(sz)) && lost < 0
      ensures !ok ==> SameUser(mem0, owner0, mem) && Leaked(owner0, owner, lost)
      ensures !ok ==> forall f :: 0 <= f < |mem| && f != lost ==> owner[f].Free? || owner[f] == owner0[f]
      ensures ok <==> |old(fl)| >= Need(Zeros(), 0, Pages(sz))
      ensures lost >= 0 <==> Leaks(|old(fl)|, Zeros(), 0, Pages(sz))
    {
      ok, lost := true, -1;
      var i := 0;
      while i < Pages(sz)
        invariant Valid() && |mem| == |mem0| && 0 <= i <= Pages(sz) && ok && lost < 0
        invariant Copied(mem0, owner0, mem, owner, d, nd, i)
        invariant TabledTo(Zeros(), mem[nd], 0, i) && |old(fl)| == |fl| + Need(Zeros(), 0, i)
      {
        ghost var dir1, n1 := mem[nd], |fl|;
        ok, lost := Copypage(d, nd, i, mem0, owner0);
        if !ok {
          RunsOut(|old(fl)|, Zeros(), dir1, 0, i, Pages(sz), n1);
          ghost var mem2, owner2 := mem, owner;
          Freevm(nd);
          CopyDiscarded(mem0, owner0, mem2, owner2, mem, owner, nd, lost);
          return;
        }
        TabledNext(Zeros(), dir1, mem[nd], 0, i);
        i := i + 1;
      }
      EnoughLeaks(|old(fl)|, Zeros(), 0, Pages(sz));
    }

    /** One turn of the loop (vm.c:321-331). */
    method Copypage(d: nat, nd: nat, i: nat, ghost mem0: seq<Page>, ghost owner0: seq<Use>)
      returns (ok: bool, ghost lost: int)
      requires Valid() && Spaces(mem0, owner0) && Copied(mem0, owner0, mem, owner, d, nd, i)
      requires i < USER && Present(Pte(mem0, d, i))
      modifies this`mem, this`head, this`fl, this`owner
      ensures Valid() && |mem| == |old(mem)| && owner[nd] == Dir
      ensures InUse(mem0, owner0, mem, owner) && SameUser(mem0, owner0, mem)
      ensures ok ==> Copied(mem0, owner0, mem, owner, d, nd, i + 1) && lost < 0
      ensures nd < |old(mem)| && (ok <==> |old(fl)| >= Cost(old(mem)[nd], i)) && (lost >= 0 <==> !ok && |old(fl)| > 0)
      ensures ok ==> Tabled(old(mem)[nd], mem[nd], i / ENTRIES) && |fl| == |old(fl)| - Cost(old(mem)[nd], i)
      ensures Leaked(owner0, owner, lost)
      ensures !ok ==> forall g :: 0 <= g < |mem| && owner0[g].Free? && g != nd && g != lost ==>
                owner[g].Free? || PartOf(owner[g], nd)
    {
      ghost var mem1, owner1 := mem, owner;
      assert CopyOk(mem0, owner0, mem, d, nd, i, i) && PteOk(mem0, owner0, d, i) && PdeOk(mem, owner, d, i / ENTRIES);
      var found, t := Walkpgdir(d, i, false);
      var pte := mem[t][i % ENTRIES];
      assert pte == Pte(mem, d, i);
      var got, f := Addpage(nd, i, mem[Frame(pte)], Flags(pte));
      ok, lost := got == Mapped, if got == NoTable then f else -1;
      if ok {
        CopyOne(mem0, owner0, mem1, owner1, mem, owner, d, nd, i, f);
      } else {
        CopyFails(mem0, owner0, mem1, owner1, mem, owner, d, nd, i, lost);
      }
    }
  }
  /** The last page goes missing: two pages are free, one becomes the directory
      and one the page, and there is none for the table. */
  method LastPageMissing() returns (m: Machine, d: nat, r: nat)
    ensures fresh(m) && m.Valid() && d < |m.mem| && m.owner[d] == Dir && r == 1 && !Present(Pte(m.mem, d, 0))
  {
    m := new Machine([Zeros(), Zeros()]);
    m.Freerange(0, 2);
    var ok;
    ok, d := m.Newdir();
    assert Need(m.mem[d], 0, 0) == 0 && Need(m.mem[d], 0, 1) == 2 && |m.fl| == 1;
    ghost var mem0, owner0 := m.mem, m.owner;
    ghost var top, lost;
    r, top, lost := m.Allocuvm(d, 0, 1);
    assert FillOk(mem0, owner0, m.mem, m.owner, d, 0, 0, 0);
  }

  /** A page goes out of reach: growth by two pages fails after the only free page
      was taken for the first of them, with none for its table. */
  method PageLost() returns (m: Machine, d: nat, r: nat, f: nat)
    ensures fresh(m) && m.Valid() && d < |m.mem| && m.owner[d] == Dir && r == 0 && !Present(Pte(m.mem, d, 0))
    ensures f < |m.mem| == 2 && m.owner[f] == Loose && m.fl == []
  {
    m := new Machine([Zeros(), Zeros()]);
    m.Freerange(0, 2);
    var ok;
    ok, d := m.Newdir();
    TwoPages(m.mem[d]);
    ghost var mem0, owner0 := m.mem, m.owner;
    ghost var top, lost;
    r, top, lost := m.Allocuvm(d, 0, 2 * PGSIZE);
    assert FillOk(mem0, owner0, m.mem, m.owner, d, 0, 0, 0);
    f := 1 - d;
    ListedFree(m.mem, m.owner, m.head, m.fl);
  }

  /** The same in a fork: of five pages the parent has three, and the child gets
      its directory and a page, with none for the table. */
  method CopyLost() returns (m: Machine, d: nat, ok: bool, ghost lost: int)
    ensures fresh(m) && m.Valid() && d < |m.mem| && m.owner[d] == Dir && Present(Pte(m.mem, d, 0))
    ensures !ok && 0 <= lost < |m.mem| && m.owner[lost] == Loose
  {
    m := new Machine(seq(5, _ => Zeros()));
    m.Freerange(0, 5);
    ok, d := m.Newdir();
    TwoPages(Zeros());
    ghost var mem0, owner0 := m.mem, m.owner;
    var _, top, l := m.Allocuvm(d, 0, 1);
    assert FillOk(mem0, owner0, m.mem, m.owner, d, 0, 1, 0);
    assert |m.fl| == 2 && LeakAt(1, Zeros(), 0, 1, 0);
    ghost var mem1, owner1 := m.mem, m.owner;
    var nd;
    ok, nd, lost := m.Copyuvm(d, 1);
    assert Pte(m.mem, d, 0) == Pte(mem1, d, 0);
  }

  lemma TwoPages(dir: Page)
    requires dir == Zeros()
    ensures Need(dir, 0, 1) == 2 && Need(dir, 0, 2) == 3 && LeakAt(1, dir, 0, 2, 0)
  {
    assert Need(dir, 0, 0) == 0 && Need(dir, 0, 1) == 2;
  }

  /** Page ENTRIES is mapped, with its table, and there is no other. */
  method MapAbove() returns (m: Machine, d: nat)
    ensures fresh(m) && m.Valid() && d < |m.mem| && m.owner[d] == Dir && Present(Pte(m.mem, d, ENTRIES))
    ensures !Present(m.mem[d][0])
  {
    m := new Machine([Zeros(), Zeros(), Zeros()]);
    m.Freerange(0, 3);
    var ok;
    ok, d := m.Newdir();
    assert Need(m.mem[d], ENTRIES, ENTRIES) == 0 && Need(m.mem[d], ENTRIES, ENTRIES + 1) == 2 && |m.fl| == 2;
    ghost var mem0, owner0 := m.mem, m.owner;
    var _, top, lost := m.Allocuvm(d, ENTRIES * PGSIZE, (ENTRIES + 1) * PGSIZE);
    assert FillOk(mem0, owner0, m.mem, m.owner, d, ENTRIES, ENTRIES + 1, ENTRIES);
  }

  /** Page 1 has no table then, and shrinking the process to page 1 does not come
      to page ENTRIES. */
  method PageMissed() returns (m: Machine, d: nat)
    ensures fresh(m) && m.Valid() && d < |m.mem| && m.owner[d] == Dir && Present(Pte(m.mem, d, ENTRIES))
  {
    m, d := MapAbove();
    ghost var mem1 := m.mem;
    var _ := m.Deallocuvm(d, (ENTRIES + 1) * PGSIZE, PGSIZE);
    assert !Reached(mem1[d], 1, ENTRIES + 1, ENTRIES);
    assert PteGone(mem1, m.mem, d, 1, ENTRIES + 1, ENTRIES + 1, ENTRIES);
  }
}
