/** Two-level page tables and the list of free pages, down to the words in
    memory, as values: every physical page has one use. */
module PageTables {
  import opened Common

  const PGSIZE: nat := 4096
  const ENTRIES: nat := 1024
  /** User pages are those below KERNBASE. */
  const USER: nat := 0x8_0000
  const PTE_P: nat := 1
  const PTE_W: nat := 2
  const PTE_U: nat := 4

  type Page = p: seq<nat> | |p| == ENTRIES witness seq(ENTRIES, _ => 0)

  function Zeros(): Page {
    seq(ENTRIES, _ => 0)
  }

  /* Entries of page directories and page tables. */

  predicate Present(w: nat) {
    w % 2 == 1
  }

  function Frame(w: nat): nat {
    w / PGSIZE
  }

  function Flags(w: nat): (r: nat)
    ensures r < PGSIZE
  {
    w % PGSIZE
  }

  /** pa | perm | PTE_P, for the address of a page. */
  function Entry(f: nat, perm: nat): (w: nat)
    requires perm < PGSIZE
    ensures Present(w) && Frame(w) == f && Flags(w) == if perm % 2 == 1 then perm else perm + PTE_P
  {
    var low := if perm % 2 == 1 then perm else perm + PTE_P;
    assert f * PGSIZE + low == 2 * (f * 2048 + low / 2) + 1;
    f * PGSIZE + low
  }

  /** The page table entry of virtual page v, 0 when it has no page table. */
  function Pte(mem: seq<Page>, d: nat, v: nat): nat
    requires d < |mem| && v < ENTRIES * ENTRIES
  {
    var w := mem[d][v / ENTRIES];
    if Present(w) && Frame(w) < |mem| then mem[Frame(w)][v % ENTRIES] else 0
  }

  /* Uses of physical pages. */

  datatype Use =
    | Reserved                      // kernel text and below
    | Free(k: nat)                  // place k of the free list, from its end
    | Loose                         // handed out, and not part of an address space
    | Dir                           // a page directory
    | Table(d: nat, x: nat)         // page table x of directory d
    | User(d: nat, v: nat)          // virtual page v of directory d

  predicate PdeOk(mem: seq<Page>, owner: seq<Use>, d: nat, x: nat)
    requires d < |mem| == |owner| && x < ENTRIES
  {
    Present(mem[d][x]) ==> Frame(mem[d][x]) < |mem| && owner[Frame(mem[d][x])] == Table(d, x)
  }

  predicate PteOk(mem: seq<Page>, owner: seq<Use>, d: nat, v: nat)
    requires d < |mem| == |owner| && v < USER
  {
    var w := Pte(mem, d, v);
    if Present(w) then Frame(w) < |mem| && owner[Frame(w)] == User(d, v) else w == 0
  }

  predicate UseOk(mem: seq<Page>, owner: seq<Use>, f: nat)
    requires f < |mem| == |owner|
  {
    match owner[f]
    case Table(d, x) => d < |mem| && owner[d] == Dir && x < ENTRIES && Present(mem[d][x]) && Frame(mem[d][x]) == f
    case User(d, v) => d < |mem| && owner[d] == Dir && v < USER && Present(Pte(mem, d, v)) && Frame(Pte(mem, d, v)) == f
    case _ => true
  }

  /** Directories, tables and user pages refer to each other exactly. */
  ghost predicate Spaces(mem: seq<Page>, owner: seq<Use>) {
    && |owner| == |mem|
    && (forall d, x :: 0 <= d < |mem| && owner[d] == Dir && 0 <= x < ENTRIES ==> PdeOk(mem, owner, d, x))
    && (forall d, v :: 0 <= d < |mem| && owner[d] == Dir && 0 <= v < USER ==> PteOk(mem, owner, d, v))
    && (forall f :: 0 <= f < |mem| ==> UseOk(mem, owner, f))
  }

  /** So no page is mapped twice, in one address space or in two. */
  lemma NoAliasing(mem: seq<Page>, owner: seq<Use>, d: nat, v: nat, e: nat, u: nat)
    requires Spaces(mem, owner) && d < |mem| && e < |mem| && owner[d] == owner[e] == Dir && v < USER && u < USER
    requires Present(Pte(mem, d, v)) && Present(Pte(mem, e, u)) && Frame(Pte(mem, d, v)) == Frame(Pte(mem, e, u))
    ensures d == e && v == u
  {
    assert PteOk(mem, owner, d, v) && PteOk(mem, owner, e, u);
  }

  predicate IsTable(u: Use) {
    u == Dir || u.Table?
  }

  /** Only directories and tables matter to the mappings. */
  lemma PteFrame(mem: seq<Page>, owner: seq<Use>, mem': seq<Page>, d: nat, v: nat)
    requires Spaces(mem, owner) && |mem'| == |mem| && d < |mem| && owner[d] == Dir && v < ENTRIES * ENTRIES
    requires forall f :: 0 <= f < |mem| && IsTable(owner[f]) ==> mem'[f] == mem[f]
    ensures Pte(mem', d, v) == Pte(mem, d, v)
  {
    assert PdeOk(mem, owner, d, v / ENTRIES);
  }

  /** Pages that are no part of an address space may change freely, in content
      and in use. */
  lemma SpacesFrame(mem: seq<Page>, owner: seq<Use>, mem': seq<Page>, owner': seq<Use>)
    requires Spaces(mem, owner) && |mem'| == |mem| == |owner'|
    requires forall f :: 0 <= f < |mem| && IsTable(owner[f]) ==> mem'[f] == mem[f]
    requires forall f :: 0 <= f < |mem| && (IsTable(owner[f]) || owner[f].User?) ==> owner'[f] == owner[f]
    requires forall f :: 0 <= f < |mem| && (IsTable(owner'[f]) || owner'[f].User?) ==> owner'[f] == owner[f]
    ensures Spaces(mem', owner')
  {
    forall d, x | 0 <= d < |mem'| && owner'[d] == Dir && 0 <= x < ENTRIES ensures PdeOk(mem', owner', d, x) {
      assert PdeOk(mem, owner, d, x);
    }
    forall d, v | 0 <= d < |mem'| && owner'[d] == Dir && 0 <= v < USER ensures PteOk(mem', owner', d, v) {
      PteFrame(mem, owner, mem', d, v);
      assert PteOk(mem, owner, d, v);
    }
    forall f | 0 <= f < |mem'| ensures UseOk(mem', owner', f) {
      assert UseOk(mem, owner, f);
      if owner[f].User? {
        PteFrame(mem, owner, mem', owner[f].d, owner[f].v);
      }
    }
  }

  /* A new page table. */

  function WithWord(mem: seq<Page>, f: nat, k: nat, w: nat): (mem': seq<Page>)
    requires f < |mem| && k < ENTRIES
    ensures |mem'| == |mem| && mem'[f][k] == w
    ensures forall g :: 0 <= g < |mem| && g != f ==> mem'[g] == mem[g]
    ensures forall j :: 0 <= j < ENTRIES && j != k ==> mem'[f][j] == mem[f][j]
  {
    mem[f := mem[f][k := w]]
  }

  lemma TablePte(mem: seq<Page>, owner: seq<Use>, d: nat, x: nat, f: nat, e: nat, v: nat)
    requires Spaces(mem, owner) && d < |mem| && owner[d] == Dir && x < ENTRIES && !Present(mem[d][x])
    requires f < |mem| && owner[f] == Loose && mem[f] == Zeros()
    requires e < |mem| && owner[e] == Dir && v < ENTRIES * ENTRIES
    ensures Pte(WithWord(mem, d, x, Entry(f, 7)), e, v) == Pte(mem, e, v)
  {
    assert PdeOk(mem, owner, e, v / ENTRIES);
  }

  /** A zeroed page becomes page table x: no mapping changes. */
  lemma AddTable(mem: seq<Page>, owner: seq<Use>, d: nat, x: nat, f: nat)
    requires Spaces(mem, owner) && d < |mem| && owner[d] == Dir && x < ENTRIES && !Present(mem[d][x])
    requires f < |mem| && owner[f] == Loose && mem[f] == Zeros()
    ensures Spaces(WithWord(mem, d, x, Entry(f, 7)), owner[f := Table(d, x)])
  {
    var mem', owner' := WithWord(mem, d, x, Entry(f, 7)), owner[f := Table(d, x)];
    forall e, y | 0 <= e < |mem'| && owner'[e] == Dir && 0 <= y < ENTRIES ensures PdeOk(mem', owner', e, y) {
      assert PdeOk(mem, owner, e, y);
    }
    forall e, v | 0 <= e < |mem'| && owner'[e] == Dir && 0 <= v < USER ensures PteOk(mem', owner', e, v) {
      TablePte(mem, owner, d, x, f, e, v);
      assert PteOk(mem, owner, e, v);
    }
    forall g | 0 <= g < |mem'| ensures UseOk(mem', owner', g) {
      assert UseOk(mem, owner, g);
      if owner[g].User? {
        TablePte(mem, owner, d, x, f, owner[g].d, owner[g].v);
      }
    }
  }

  /* Mapping and unmapping one page. */

  /** Writing one entry of a page table. */
  lemma SlotPte(mem: seq<Page>, owner: seq<Use>, d: nat, v: nat, w: nat, e: nat, u: nat)
    requires Spaces(mem, owner) && d < |mem| && owner[d] == Dir && v < ENTRIES * ENTRIES && Present(mem[d][v / ENTRIES])
    requires e < |mem| && owner[e] == Dir && u < ENTRIES * ENTRIES
    ensures Frame(mem[d][v / ENTRIES]) < |mem| && owner[Frame(mem[d][v / ENTRIES])] == Table(d, v / ENTRIES)
    ensures Pte(WithWord(mem, Frame(mem[d][v / ENTRIES]), v % ENTRIES, w), e, u) ==
            if e == d && u == v then w else Pte(mem, e, u)
  {
    assert PdeOk(mem, owner, d, v / ENTRIES) && PdeOk(mem, owner, e, u / ENTRIES);
  }

  /** The page of virtual page v, which had none, becomes f; or f, which was
      mapped there, comes free. */
  lemma ChangePage(mem: seq<Page>, owner: seq<Use>, d: nat, v: nat, w: nat, f: nat, use: Use)
    requires Spaces(mem, owner) && d < |mem| && owner[d] == Dir && v < USER && Present(mem[d][v / ENTRIES]) && f < |mem|
    requires if Present(w) then Frame(w) == f && owner[f] == Loose && use == User(d, v) && !Present(Pte(mem, d, v))
             else w == 0 && owner[f] == User(d, v) && !IsTable(use) && !use.User?
    ensures Frame(mem[d][v / ENTRIES]) < |mem|
    ensures Spaces(WithWord(mem, Frame(mem[d][v / ENTRIES]), v % ENTRIES, w), owner[f := use])
  {
    SlotPte(mem, owner, d, v, w, d, v);
    var t := Frame(mem[d][v / ENTRIES]);
    var mem', owner' := WithWord(mem, t, v % ENTRIES, w), owner[f := use];
    assert UseOk(mem, owner, f);
    forall e, y | 0 <= e < |mem'| && owner'[e] == Dir && 0 <= y < ENTRIES ensures PdeOk(mem', owner', e, y) {
      assert PdeOk(mem, owner, e, y);
    }
    forall e, u | 0 <= e < |mem'| && owner'[e] == Dir && 0 <= u < USER ensures PteOk(mem', owner', e, u) {
      SlotPte(mem, owner, d, v, w, e, u);
      assert PteOk(mem, owner, e, u);
    }
    forall g | 0 <= g < |mem'| ensures UseOk(mem', owner', g) {
      assert UseOk(mem, owner, g);
      if owner[g].User? {
        SlotPte(mem, owner, d, v, w, owner[g].d, owner[g].v);
      }
    }
  }

  /* The free list (kalloc.c): a stack linked through the first word of each
     page. */

  /** The kernel address of a page; 0 is the null pointer. */
  function Ptr(f: nat): nat {
    KERNBASE + f * PGSIZE
  }

  function Top(fl: seq<nat>, n: nat): nat
    requires n <= |fl|
  {
    if n == 0 then 0 else Ptr(fl[n - 1])
  }

  predicate LinkOk(mem: seq<Page>, owner: seq<Use>, fl: seq<nat>, k: nat)
    requires k < |fl|
  {
    fl[k] < |mem| && fl[k] < |owner| && owner[fl[k]] == Free(k) && mem[fl[k]][0] == Top(fl, k)
  }

  predicate PlaceOk(owner: seq<Use>, fl: seq<nat>, f: nat)
    requires f < |owner|
  {
    owner[f].Free? ==> owner[f].k < |fl| && fl[owner[f].k] == f
  }

  ghost predicate FreeOk(mem: seq<Page>, owner: seq<Use>, head: nat, fl: seq<nat>) {
    && |owner| == |mem| && head == Top(fl, |fl|)
    && (forall k :: 0 <= k < |fl| ==> LinkOk(mem, owner, fl, k))
    && (forall f :: 0 <= f < |mem| ==> PlaceOk(owner, fl, f))
  }

  lemma ListedFree(mem: seq<Page>, owner: seq<Use>, head: nat, fl: seq<nat>)
    requires FreeOk(mem, owner, head, fl)
    ensures fl == [] || exists f :: 0 <= f < |mem| && owner[f].Free?
  {
    if fl != [] {
      assert LinkOk(mem, owner, fl, 0);
    }
  }

  /** Pages not on the list may change. */
  lemma FreeFrame(mem: seq<Page>, owner: seq<Use>, head: nat, fl: seq<nat>, mem': seq<Page>, owner': seq<Use>)
    requires FreeOk(mem, owner, head, fl) && |mem'| == |mem| == |owner'|
    requires forall f :: 0 <= f < |mem| && owner[f].Free? ==> mem'[f] == mem[f] && owner'[f] == owner[f]
    requires forall f :: 0 <= f < |mem| && owner'[f].Free? ==> owner'[f] == owner[f]
    ensures FreeOk(mem', owner', head, fl)
  {
    forall k | 0 <= k < |fl| ensures LinkOk(mem', owner', fl, k) {
      assert LinkOk(mem, owner, fl, k);
    }
    forall f | 0 <= f < |mem'| ensures PlaceOk(owner', fl, f) {
      assert PlaceOk(owner, fl, f);
    }
  }

  /** kfree fills the page with junk, then links it in. */
  function Junk(next: nat): Page {
    seq(ENTRIES, i => if i == 0 then next else 0x0101_0101)
  }

  lemma AddDir(mem: seq<Page>, owner: seq<Use>, nd: nat)
    requires Spaces(mem, owner) && nd < |mem| && owner[nd] == Loose && mem[nd] == Zeros()
    ensures Spaces(mem, owner[nd := Dir])
  {
    var owner' := owner[nd := Dir];
    forall e, x | 0 <= e < |mem| && owner'[e] == Dir && 0 <= x < ENTRIES ensures PdeOk(mem, owner', e, x) {
      assert e != nd ==> PdeOk(mem, owner, e, x);
    }
    forall e, v | 0 <= e < |mem| && owner'[e] == Dir && 0 <= v < USER ensures PteOk(mem, owner', e, v) {
      assert e != nd ==> PteOk(mem, owner, e, v);
    }
    forall f | 0 <= f < |mem| ensures UseOk(mem, owner', f) {
      assert UseOk(mem, owner, f);
    }
  }

  /** Every user mapping is as it was. */
  ghost predicate SameUser(mem: seq<Page>, owner: seq<Use>, mem': seq<Page>) {
    && |owner| == |mem| == |mem'|
    && forall e, u :: 0 <= e < |mem| && owner[e] == Dir && 0 <= u < USER ==> Pte(mem', e, u) == Pte(mem, e, u)
  }

  /** Directory nd, on pages that were free, has copies of pages 0 up to i of d
      and no other page. */
  ghost predicate Copied(mem0: seq<Page>, owner0: seq<Use>, mem: seq<Page>, owner: seq<Use>, d: nat, nd: nat, i: nat) {
    && InUse(mem0, owner0, mem, owner) && d < |mem| && nd < |mem|
    && owner0[d] == Dir && owner0[nd].Free? && owner[nd] == Dir
    && SameUser(mem0, owner0, mem)
    && (forall v :: 0 <= v < USER ==> CopyOk(mem0, owner0, mem, d, nd, i, v))
    && (forall f :: 0 <= f < |mem| && owner0[f].Free? && f != nd ==> owner[f].Free? || PartOf(owner[f], nd))
  }

  predicate CopyOk(mem0: seq<Page>, owner0: seq<Use>, mem: seq<Page>, d: nat, nd: nat, i: nat, v: nat)
    requires d < |mem| == |mem0| == |owner0| && nd < |mem| && v < USER
  {
    var w0, w := Pte(mem0, d, v), Pte(mem, nd, v);
    if v < i then
      && Present(w) && Flags(w) == Flags(w0) && Frame(w) < |mem| && Frame(w0) < |mem|
      && owner0[Frame(w)].Free? && !owner0[Frame(w0)].Free? && mem[Frame(w)] == mem0[Frame(w0)]
    else w == 0
  }

  lemma CopyStart(mem0: seq<Page>, owner0: seq<Use>, mem: seq<Page>, owner: seq<Use>, d: nat, nd: nat)
    requires |owner0| == |mem0| && d < |mem0| && nd < |mem0| && owner0[d] == Dir && owner0[nd].Free?
    requires owner == owner0[nd := Dir] && mem == mem0[nd := Zeros()] && SameMaps(mem0, owner0, mem)
    ensures Copied(mem0, owner0, mem, owner, d, nd, 0)
  {
  }

  lemma CopyOne(mem0: seq<Page>, owner0: seq<Use>, mem1: seq<Page>, owner1: seq<Use>, mem: seq<Page>, owner: seq<Use>,
                d: nat, nd: nat, i: nat, f: nat)
    requires Spaces(mem0, owner0) && Spaces(mem1, owner1) && Copied(mem0, owner0, mem1, owner1, d, nd, i) && i < USER
    requires InUse(mem1, owner1, mem, owner) && owner[nd] == Dir
    requires SameMapsBut(mem1, owner1, mem, nd, i) && Taken(owner1, owner, nd, -1)
    requires Present(Pte(mem0, d, i)) && Frame(Pte(mem0, d, i)) < |mem1|
    requires f < |mem| && owner1[f].Free? && owner[f] == User(nd, i)
    requires Pte(mem, nd, i) == Entry(f, Flags(Pte(mem0, d, i))) && mem[f] == mem1[Frame(Pte(mem0, d, i))]
    ensures Copied(mem0, owner0, mem, owner, d, nd, i + 1)
  {
    var b := i + 1;
    assert PteOk(mem0, owner0, d, i);
    forall v | 0 <= v < USER ensures CopyOk(mem0, owner0, mem, d, nd, b, v) {
      assert CopyOk(mem0, owner0, mem1, d, nd, i, v) && PteOk(mem1, owner1, nd, v);
    }
    forall g | 0 <= g < |mem| && owner0[g].Free? && g != nd ensures owner[g].Free? || PartOf(owner[g], nd) {
      assert owner1[g].Free? || owner[g] == owner1[g];
    }
  }

  /** What a failed page leaves: no mapping changed, and one page may be lost. */
  lemma CopyFails(mem0: seq<Page>, owner0: seq<Use>, mem1: seq<Page>, owner1: seq<Use>, mem: seq<Page>, owner: seq<Use>,
                  d: nat, nd: nat, i: nat, lost: int)
    requires Copied(mem0, owner0, mem1, owner1, d, nd, i)
    requires InUse(mem1, owner1, mem, owner) && SameMaps(mem1, owner1, mem)
    requires owner == owner1 || Taken(owner1, owner, nd, lost)
    ensures InUse(mem0, owner0, mem, owner) && SameUser(mem0, owner0, mem) && owner[nd] == Dir
    ensures Leaked(owner1, owner, lost) ==> Leaked(owner0, owner, lost)
    ensures forall g :: 0 <= g < |mem| && owner0[g].Free? && g != nd && g != lost ==>
              owner[g].Free? || PartOf(owner[g], nd)
  {
    forall g | 0 <= g < |mem| && owner0[g].Free? && g != nd && g != lost
      ensures owner[g].Free? || PartOf(owner[g], nd)
    {
      assert owner1[g].Free? || owner[g] == owner1[g];
    }
  }

  lemma CopyDiscarded(mem0: seq<Page>, owner0: seq<Use>, mem1: seq<Page>, owner1: seq<Use>, mem: seq<Page>,
                      owner: seq<Use>, nd: nat, lost: int)
    requires Spaces(mem0, owner0) && InUse(mem0, owner0, mem1, owner1) && SameUser(mem0, owner0, mem1)
    requires nd < |mem0| && owner0[nd].Free? && owner1[nd] == Dir && Discarded(mem1, owner1, mem, owner, nd)
    requires Leaked(owner0, owner1, lost)
    requires forall g :: 0 <= g < |mem1| && owner0[g].Free? && g != nd && g != lost ==>
              owner1[g].Free? || PartOf(owner1[g], nd)
    ensures InUse(mem0, owner0, mem, owner) && SameUser(mem0, owner0, mem)
    ensures Leaked(owner0, owner, lost)
    ensures forall f :: 0 <= f < |mem| && f != lost ==> owner[f].Free? || owner[f] == owner0[f]
  {
    forall f | 0 <= f < |mem| && !owner0[f].Free?
      ensures owner[f] == owner0[f] && (!IsTable(owner0[f]) ==> mem[f] == mem0[f])
    {
      assert UseOk(mem0, owner0, f);
    }
  }

  /** The use of pages once d is no directory. */
  ghost function Detached(owner: seq<Use>, d: nat): seq<Use> {
    seq(|owner|,
        f requires 0 <= f < |owner| => if f == d || (owner[f].Table? && owner[f].d == d) then Loose else owner[f])
  }

  lemma DropSpace(mem: seq<Page>, owner: seq<Use>, d: nat)
    requires Spaces(mem, owner) && d < |mem| && owner[d] == Dir
    requires forall v :: 0 <= v < USER ==> !Present(Pte(mem, d, v))
    ensures Spaces(mem, Detached(owner, d))
  {
    var owner' := Detached(owner, d);
    forall e, x | 0 <= e < |mem| && owner'[e] == Dir && 0 <= x < ENTRIES ensures PdeOk(mem, owner', e, x) {
      assert PdeOk(mem, owner, e, x);
    }
    forall e, v | 0 <= e < |mem| && owner'[e] == Dir && 0 <= v < USER ensures PteOk(mem, owner', e, v) {
      assert PteOk(mem, owner, e, v);
    }
    forall f | 0 <= f < |mem| ensures UseOk(mem, owner', f) {
      assert UseOk(mem, owner, f);
    }
  }

  /** Tables below i of d are free, the others loose; the rest is as it was. */
  ghost predicate Freeing(mem1: seq<Page>, owner1: seq<Use>, mem: seq<Page>, owner: seq<Use>, d: nat, i: nat) {
    && |owner1| == |mem1| == |mem| == |owner|
    && forall f :: 0 <= f < |mem| ==> FreeingAt(mem1, owner1, mem, owner, d, i, f)
  }

  predicate FreeingAt(mem1: seq<Page>, owner1: seq<Use>, mem: seq<Page>, owner: seq<Use>, d: nat, i: nat, f: nat)
    requires f < |owner1| == |mem1| == |mem| == |owner|
  {
    if f == d then owner[f] == Loose
    else if owner1[f].Table? && owner1[f].d == d then (if owner1[f].x < i then owner[f].Free? else owner[f] == Loose)
    else owner[f] == owner1[f] && mem[f] == mem1[f]
  }

  lemma FreeTable(mem1: seq<Page>, owner1: seq<Use>, mem2: seq<Page>, owner2: seq<Use>, mem: seq<Page>,
                  owner: seq<Use>, d: nat, i: nat, t: nat)
    requires Spaces(mem1, owner1) && Freeing(mem1, owner1, mem2, owner2, d, i)
    requires t < |mem1| && owner1[t] == Table(d, i) && t != d
    requires |mem| == |mem2| == |owner| && owner[t].Free?
    requires forall f :: 0 <= f < |mem| && f != t ==> owner[f] == owner2[f] && mem[f] == mem2[f]
    ensures Freeing(mem1, owner1, mem, owner, d, i + 1)
  {
    var b := i + 1;
    forall f | 0 <= f < |mem| ensures FreeingAt(mem1, owner1, mem, owner, d, b, f) {
      assert FreeingAt(mem1, owner1, mem2, owner2, d, i, f) && UseOk(mem1, owner1, f) && UseOk(mem1, owner1, t);
    }
  }

  lemma FreeNothing(mem1: seq<Page>, owner1: seq<Use>, mem: seq<Page>, owner: seq<Use>, d: nat, i: nat)
    requires Spaces(mem1, owner1) && Freeing(mem1, owner1, mem, owner, d, i)
    requires d < |mem1| && i < ENTRIES && !Present(mem1[d][i])
    ensures Freeing(mem1, owner1, mem, owner, d, i + 1)
  {
    var b := i + 1;
    forall f | 0 <= f < |mem| ensures FreeingAt(mem1, owner1, mem, owner, d, b, f) {
      assert FreeingAt(mem1, owner1, mem, owner, d, i, f) && UseOk(mem1, owner1, f);
    }
  }

  /** From page 0 deallocation comes to every user page. */
  lemma AllGone(mem0: seq<Page>, owner0: seq<Use>, mem: seq<Page>, owner: seq<Use>, d: nat)
    requires Unmapped(mem0, owner0, mem, owner, d, 0, USER, USER)
    ensures forall v :: 0 <= v < USER ==> !Present(Pte(mem, d, v))
  {
    LeavesNothing(mem0, d, 0, USER);
    forall v | 0 <= v < USER ensures !Present(Pte(mem, d, v)) {
      assert PteGone(mem0, mem, d, 0, USER, USER, v);
    }
  }

  /** The pages of d, its tables and d itself are free; every other page has its
      use and, if it is no table, its content; other mappings are as they were. */
  ghost predicate Discarded(mem0: seq<Page>, owner0: seq<Use>, mem: seq<Page>, owner: seq<Use>, d: nat) {
    && |owner0| == |mem0| == |mem| == |owner|
    && (forall f :: 0 <= f < |mem| ==> if f == d || PartOf(owner0[f], d) then owner[f].Free? else owner[f] == owner0[f])
    && (forall f :: 0 <= f < |mem| && !owner[f].Free? && !IsTable(owner[f]) ==> mem[f] == mem0[f])
    && (forall e, u :: 0 <= e < |mem| && owner0[e] == Dir && e != d && 0 <= u < USER ==>
          Pte(mem, e, u) == Pte(mem0, e, u))
  }

  lemma AllDiscarded(mem0: seq<Page>, owner0: seq<Use>, mem1: seq<Page>, owner1: seq<Use>,
                     mem2: seq<Page>, owner2: seq<Use>, mem: seq<Page>, owner: seq<Use>, d: nat)
    requires Spaces(mem0, owner0) && d < |mem0| && owner0[d] == Dir
    requires Unmapped(mem0, owner0, mem1, owner1, d, 0, USER, USER)
    requires Spaces(mem1, owner1) && Freeing(mem1, owner1, mem2, owner2, d, ENTRIES)
    requires |mem| == |mem2| == |owner| && owner[d].Free?
    requires forall f :: 0 <= f < |mem| && f != d ==> owner[f] == owner2[f] && mem[f] == mem2[f]
    ensures Discarded(mem0, owner0, mem, owner, d)
  {
    LeavesNothing(mem0, d, 0, USER);
    assert FrameGone(mem0, owner0, mem1, owner1, d, 0, USER, USER, d);
    forall f | 0 <= f < |mem|
      ensures if f == d || PartOf(owner0[f], d) then owner[f].Free? else owner[f] == owner0[f]
      ensures !owner[f].Free? && !IsTable(owner[f]) ==> mem[f] == mem0[f]
    {
      assert FrameGone(mem0, owner0, mem1, owner1, d, 0, USER, USER, f) &&
             FreeingAt(mem1, owner1, mem2, owner2, d, ENTRIES, f);
      assert UseOk(mem0, owner0, f) && UseOk(mem1, owner1, f);
    }
    forall e, u | 0 <= e < |mem| && owner0[e] == Dir && e != d && 0 <= u < USER
      ensures Pte(mem, e, u) == Pte(mem0, e, u)
    {
      assert FrameGone(mem0, owner0, mem1, owner1, d, 0, USER, USER, e) &&
             FreeingAt(mem1, owner1, mem2, owner2, d, ENTRIES, e);
      assert PdeOk(mem1, owner1, e, u / ENTRIES);
      if Present(mem1[e][u / ENTRIES]) {
        assert FreeingAt(mem1, owner1, mem2, owner2, d, ENTRIES, Frame(mem1[e][u / ENTRIES]));
      }
    }
  }

  /** Pages a0 up to top of d are new and zero; every other mapping is as it was,
      and so are the pages in use. */
  ghost predicate Filled(mem0: seq<Page>, owner0: seq<Use>, mem: seq<Page>, owner: seq<Use>, d: nat, a0: nat,
                         top: nat)
  {
    && InUse(mem0, owner0, mem, owner) && d < |mem|
    && (forall v :: 0 <= v < USER ==> FillOk(mem0, owner0, mem, owner, d, a0, top, v))
    && (forall e, u :: 0 <= e < |mem| && owner0[e] == Dir && e != d && 0 <= u < USER ==>
          Pte(mem, e, u) == Pte(mem0, e, u))
  }

  ghost predicate FillOk(mem0: seq<Page>, owner0: seq<Use>, mem: seq<Page>, owner: seq<Use>, d: nat, a0: nat, top: nat,
                         v: nat)
    requires d < |mem| == |mem0| == |owner0| == |owner| && v < USER
  {
    var w := Pte(mem, d, v);
    if a0 <= v < top then
      Present(w) && Flags(w) == PTE_P + PTE_W + PTE_U && Frame(w) < |mem| && owner0[Frame(w)].Free? &&
      owner[Frame(w)] == User(d, v) && mem[Frame(w)] == Zeros()
    else w == Pte(mem0, d, v)
  }

  lemma FillOne(mem0: seq<Page>, owner0: seq<Use>, mem1: seq<Page>, owner1: seq<Use>, mem: seq<Page>, owner: seq<Use>,
                d: nat, a0: nat, a: nat, f: nat)
    requires Filled(mem0, owner0, mem1, owner1, d, a0, a) && a0 <= a < USER && f < |mem| && owner1[d] == Dir
    requires InUse(mem1, owner1, mem, owner) && SameMapsBut(mem1, owner1, mem, d, a)
    requires owner1[f].Free? && owner[f] == User(d, a) && mem[f] == Zeros() && Pte(mem, d, a) == Entry(f, PTE_W + PTE_U)
    ensures Filled(mem0, owner0, mem, owner, d, a0, a + 1)
  {
    var b := a + 1;
    forall v | 0 <= v < USER ensures FillOk(mem0, owner0, mem, owner, d, a0, b, v) {
      assert FillOk(mem0, owner0, mem1, owner1, d, a0, a, v);
    }
  }

  lemma FillSame(mem0: seq<Page>, owner0: seq<Use>, mem1: seq<Page>, owner1: seq<Use>, mem: seq<Page>, owner: seq<Use>,
                 d: nat, a0: nat, top: nat)
    requires Filled(mem0, owner0, mem1, owner1, d, a0, top) && owner1[d] == Dir
    requires InUse(mem1, owner1, mem, owner) && SameMaps(mem1, owner1, mem)
    ensures Filled(mem0, owner0, mem, owner, d, a0, top)
  {
    forall v | 0 <= v < USER ensures FillOk(mem0, owner0, mem, owner, d, a0, top, v) {
      assert FillOk(mem0, owner0, mem1, owner1, d, a0, top, v);
    }
  }

  lemma FilledWalked(mem0: seq<Page>, owner0: seq<Use>, mem: seq<Page>, owner: seq<Use>,
                     d: nat, a0: nat, top: nat, end: nat)
    requires a0 <= top <= end <= USER && Filled(mem0, owner0, mem, owner, d, a0, top)
    requires forall v :: a0 <= v < end ==> !Present(Pte(mem0, d, v))
    ensures Walked(mem, d, a0, end) == top - a0
  {
    forall v | a0 <= v < end ensures Present(Pte(mem, d, v)) <==> v < top {
      assert FillOk(mem0, owner0, mem, owner, d, a0, top, v);
    }
    WalkedAll(mem, d, a0, top, end);
  }

  /** Deallocation takes back exactly the pages allocation made. */
  lemma FillUndone(mem0: seq<Page>, owner0: seq<Use>, mem1: seq<Page>, owner1: seq<Use>,
                   mem: seq<Page>, owner: seq<Use>, d: nat, a0: nat, top: nat, end: nat, lost: int)
    requires end <= USER && Filled(mem0, owner0, mem1, owner1, d, a0, top)
    requires a0 <= top <= end && Taken(owner0, owner1, d, lost)
    requires Spaces(mem0, owner0) && owner0[d] == Dir && Spaces(mem1, owner1)
    requires forall v :: a0 <= v < end ==> !Present(Pte(mem0, d, v))
    requires Unmapped(mem1, owner1, mem, owner, d, a0, end, end)
    ensures Filled(mem0, owner0, mem, owner, d, 0, 0) && Returned(owner0, owner, d, lost)
    ensures Walked(mem1, d, a0, end) == top - a0
  {
    FilledWalked(mem0, owner0, mem1, owner1, d, a0, top, end);
    if a0 < top {
      assert FillOk(mem0, owner0, mem1, owner1, d, a0, top, a0);
      LeavesNothing(mem1, d, a0, end);
    }
    ReachedFrom(mem1[d], a0, end);
    forall v | 0 <= v < USER ensures FillOk(mem0, owner0, mem, owner, d, 0, 0, v) {
      assert FillOk(mem0, owner0, mem1, owner1, d, a0, top, v) && PteOk(mem0, owner0, d, v);
      assert PteGone(mem1, mem, d, a0, end, end, v);
    }
    forall f | 0 <= f < |mem| && !owner0[f].Free?
      ensures owner[f] == owner0[f] && (!IsTable(owner0[f]) ==> mem[f] == mem0[f])
    {
      assert FrameGone(mem1, owner1, mem, owner, d, a0, end, end, f) && UseOk(mem1, owner1, f);
      if owner1[f].User? && owner1[f].d == d {
        assert FillOk(mem0, owner0, mem1, owner1, d, a0, top, owner1[f].v);
      }
    }
    forall f | 0 <= f < |mem| && owner0[f].Free? && f != lost
      ensures owner[f].Free? || (owner[f].Table? && owner[f].d == d)
    {
      assert FrameGone(mem1, owner1, mem, owner, d, a0, end, end, f) && UseOk(mem1, owner1, f);
      if owner1[f].User? {
        assert FillOk(mem0, owner0, mem1, owner1, d, a0, top, owner1[f].v) && PteOk(mem0, owner0, d, owner1[f].v);
      }
    }
    if lost >= 0 {
      assert FrameGone(mem1, owner1, mem, owner, d, a0, end, end, lost);
    }
  }

  datatype Added = Mapped | NoPage | NoTable

  /** Page lost, if there is one, was free and is out of reach now: neither free
      nor part of an address space. */
  predicate Leaked(owner: seq<Use>, owner': seq<Use>, lost: int) {
    lost >= 0 ==> lost < |owner| == |owner'| && owner[lost].Free? && owner'[lost] == Loose
  }

  /** Pages that came off the free list went to directory d, or were lost. */
  ghost predicate Taken(owner: seq<Use>, owner': seq<Use>, d: nat, lost: int) {
    |owner| == |owner'| && Leaked(owner, owner', lost) &&
    forall f :: 0 <= f < |owner| && owner[f].Free? && f != lost ==> owner'[f].Free? || PartOf(owner'[f], d)
  }

  /** Pages that were free are free again, but for page tables of d and, if there
      is one, for the page lost. */
  ghost predicate Returned(owner: seq<Use>, owner': seq<Use>, d: nat, lost: int) {
    |owner| == |owner'| && Leaked(owner, owner', lost) &&
    forall f :: 0 <= f < |owner| && owner[f].Free? && f != lost ==>
      owner'[f].Free? || (owner'[f].Table? && owner'[f].d == d)
  }

  lemma TakenOn(owner0: seq<Use>, mem1: seq<Page>, owner1: seq<Use>, mem: seq<Page>, owner: seq<Use>, d: nat, lost: int)
    requires InUse(mem1, owner1, mem, owner) && Taken(owner0, owner1, d, -1) && Taken(owner1, owner, d, lost)
    requires forall f :: 0 <= f < |owner1| && !owner0[f].Free? ==> !owner1[f].Free?
    ensures Taken(owner0, owner, d, lost)
  {
    forall f | 0 <= f < |owner0| && owner0[f].Free? && f != lost ensures owner[f].Free? || PartOf(owner[f], d) {
      assert owner1[f].Free? || owner[f] == owner1[f];
    }
  }

  /* How many pages allocation takes. */

  /** The pages taken to map v: one, and one for its table if there is none. */
  function Cost(dir: Page, v: nat): nat
    requires v < ENTRIES * ENTRIES
  {
    if Present(dir[v / ENTRIES]) then 1 else 2
  }

  /** Table x is there, and the others as before. */
  ghost predicate Tabled(dir0: Page, dir: Page, x: nat) {
    forall y :: 0 <= y < ENTRIES ==> (Present(dir[y]) <==> Present(dir0[y]) || y == x)
  }

  /** Mapping v, after the pages from a0 up to it, takes a new table. */
  predicate NewTable(dir: Page, a0: nat, v: nat)
    requires v < USER
  {
    !Present(dir[v / ENTRIES]) && (v == a0 || v % ENTRIES == 0)
  }

  /** The pages taken to map a0 up to end. */
  function Need(dir: Page, a0: nat, end: nat): (n: nat)
    requires end <= USER
    ensures a0 < end ==> n > end - a0 - 1
  {
    if end <= a0 then 0
    else Need(dir, a0, end - 1) + 1 + if NewTable(dir, a0, end - 1) then 1 else 0
  }

  /** Enough for allocuvm with n free pages; the last page may lack its table. */
  predicate Covers(n: nat, dir: Page, a0: nat, end: nat)
    requires end <= USER
  {
    n >= Need(dir, a0, end) || (a0 < end && n + 1 == Need(dir, a0, end) && NewTable(dir, a0, end - 1))
  }

  lemma {:induction false} NeedGrows(dir: Page, a0: nat, a: nat, end: nat)
    requires a0 <= a <= end <= USER
    ensures Need(dir, a0, a) + (end - a) <= Need(dir, a0, end)
    decreases end
  {
    if a < end {
      NeedGrows(dir, a0, a, end - 1);
    }
  }

  /** The tables there are once a0 up to a are mapped. */
  ghost predicate TabledTo(dir0: Page, dir: Page, a0: nat, a: nat) {
    forall y :: 0 <= y < ENTRIES ==>
      (Present(dir[y]) <==> Present(dir0[y]) || (a0 < a && a0 / ENTRIES <= y <= (a - 1) / ENTRIES))
  }

  lemma TabledNext(dir0: Page, dir1: Page, dir: Page, a0: nat, a: nat)
    requires a0 <= a < USER && TabledTo(dir0, dir1, a0, a)
    ensures Need(dir0, a0, a + 1) == Need(dir0, a0, a) + Cost(dir1, a)
    ensures Tabled(dir1, dir, a / ENTRIES) ==> TabledTo(dir0, dir, a0, a + 1)
  {
    assert Need(dir0, a0, a + 1) == Need(dir0, a0, a) + 1 + if NewTable(dir0, a0, a) then 1 else 0;
    assert a0 < a ==> ((a - 1) / ENTRIES == a / ENTRIES <==> a % ENTRIES != 0);
    assert a0 < a && a % ENTRIES == 0 ==> (a - 1) / ENTRIES + 1 == a / ENTRIES;
  }

  /** With n free pages, mapping a0 up to end comes to a with one page left, and
      that page needs a new table: it is lost. */
  predicate LeakAt(n: nat, dir: Page, a0: nat, end: nat, a: nat)
    requires end <= USER
  {
    a0 <= a < end && n + 1 == Need(dir, a0, a + 1) && NewTable(dir, a0, a)
  }

  predicate Leaks(n: nat, dir: Page, a0: nat, end: nat)
    requires end <= USER
  {
    exists a :: a0 <= a < end && LeakAt(n, dir, a0, end, a)
  }

  /** How far n free pages go from a0 towards end. */
  predicate Reach(n: nat, dir: Page, a0: nat, end: nat, top: nat)
    requires end <= USER
  {
    a0 <= top <= end && Need(dir, a0, top) <= n && (top == end || n < Need(dir, a0, top + 1))
  }

  /** The tables among the pages taken. */
  function TablesFor(dir: Page, a0: nat, top: nat): nat
    requires a0 <= top <= USER
  {
    NeedGrows(dir, a0, a0, top);
    Need(dir, a0, top) - (top - a0)
  }

  /** Where n0 free pages have gone: n are free, one may be lost, tables were made
      on the way to top and, unless they were given back, the pages themselves. */
  ghost predicate Spent(n0: nat, dir: Page, a0: nat, end: nat, top: nat, lost: int, n: nat, kept: bool)
    requires end <= USER
  {
    && Reach(n0, dir, a0, end, top) && (lost >= 0 <==> Leaks(n0, dir, a0, end))
    && n0 == n + TablesFor(dir, a0, top) + (if lost >= 0 then 1 else 0) + if kept then top - a0 else 0
  }

  /** Not if the pages run out otherwise, or do not run out. */
  lemma NoLeak(n: nat, dir: Page, a0: nat, a: nat, end: nat)
    requires a0 <= a <= end <= USER && n >= Need(dir, a0, a) && (a == end || n == Need(dir, a0, a))
    ensures !Leaks(n, dir, a0, end)
  {
    forall b | a0 <= b < end ensures !LeakAt(n, dir, a0, end, b) {
      if b < a {
        NeedGrows(dir, a0, b + 1, a);
      } else {
        NeedGrows(dir, a0, a, b);
        assert NewTable(dir, a0, b) ==> Need(dir, a0, b + 1) == Need(dir, a0, b) + 2;
      }
    }
  }

  /** A request the pages suffice for loses none. */
  lemma EnoughLeaks(n: nat, dir: Page, a0: nat, end: nat)
    requires end <= USER
    ensures n >= Need(dir, a0, end) ==> !Leaks(n, dir, a0, end)
  {
    if a0 <= end && n >= Need(dir, a0, end) {
      NoLeak(n, dir, a0, end, end);
    }
  }

  /** The pages run out at a: with none, or with one and no table. */
  lemma RunsOut(n: nat, dir0: Page, dir: Page, a0: nat, a: nat, end: nat, left: nat)
    requires a0 <= a < end <= USER && TabledTo(dir0, dir, a0, a)
    requires n == left + Need(dir0, a0, a) && left < Cost(dir, a)
    ensures n < Need(dir0, a0, end) && (left > 0 <==> Leaks(n, dir0, a0, end))
  {
    TabledNext(dir0, dir, dir, a0, a);
    NeedGrows(dir0, a0, a + 1, end);
    if left == 0 {
      NoLeak(n, dir0, a0, a, end);
    } else {
      assert LeakAt(n, dir0, a0, end, a);
    }
  }

  /** Allocation from a0 has come to a, having mapped up to top; n0 pages were
      free at first, and n are now.  If one is lost there was no page for the
      table of a - 1. */
  ghost predicate Allocated(mem0: seq<Page>, owner0: seq<Use>, mem: seq<Page>, owner: seq<Use>,
                            d: nat, a0: nat, a: nat, top: nat, lost: int, n0: nat, n: nat)
  {
    && a0 <= top <= a && Filled(mem0, owner0, mem, owner, d, a0, top) && Taken(owner0, owner, d, lost)
    && if lost < 0 then top == a && TabledTo(mem0[d], mem[d], a0, a) && (a <= USER ==> n0 == n + Need(mem0[d], a0, a))
       else top + 1 == a <= USER && n == 0 && n0 + 1 == Need(mem0[d], a0, a) && NewTable(mem0[d], a0, a - 1)
  }

  /** One more page mapped. */
  lemma AllocMapped(mem0: seq<Page>, owner0: seq<Use>, mem1: seq<Page>, owner1: seq<Use>,
                    mem: seq<Page>, owner: seq<Use>, d: nat, a0: nat, a: nat, f: nat, n0: nat, n1: nat, n: nat)
    requires a < USER && d < |mem0| && Allocated(mem0, owner0, mem1, owner1, d, a0, a, a, -1, n0, n1)
    requires InUse(mem1, owner1, mem, owner) && owner1[d] == Dir && SameMapsBut(mem1, owner1, mem, d, a)
    requires f < |mem| && owner1[f].Free? && owner[f] == User(d, a) && mem[f] == Zeros()
    requires Pte(mem, d, a) == Entry(f, PTE_W + PTE_U) && Taken(owner1, owner, d, -1)
    requires Tabled(mem1[d], mem[d], a / ENTRIES) && n1 == n + Cost(mem1[d], a)
    ensures Allocated(mem0, owner0, mem, owner, d, a0, a + 1, a + 1, -1, n0, n)
  {
    TabledNext(mem0[d], mem1[d], mem[d], a0, a);
    FillOne(mem0, owner0, mem1, owner1, mem, owner, d, a0, a, f);
    TakenOn(owner0, mem1, owner1, mem, owner, d, -1);
  }

  /** The page taken for a is lost: there is none for its table. */
  lemma AllocLost(mem0: seq<Page>, owner0: seq<Use>, mem1: seq<Page>, owner1: seq<Use>, mem: seq<Page>, owner: seq<Use>,
                  d: nat, a0: nat, a: nat, f: nat, n0: nat)
    requires a < USER && d < |mem0| && Allocated(mem0, owner0, mem1, owner1, d, a0, a, a, -1, n0, 1)
    requires InUse(mem1, owner1, mem, owner) && owner1[d] == Dir && SameMaps(mem1, owner1, mem)
    requires Taken(owner1, owner, d, f) && Cost(mem1[d], a) == 2
    ensures Allocated(mem0, owner0, mem, owner, d, a0, a + 1, a, f, n0, 0)
  {
    TabledNext(mem0[d], mem1[d], mem[d], a0, a);
    FillSame(mem0, owner0, mem1, owner1, mem, owner, d, a0, a);
    TakenOn(owner0, mem1, owner1, mem, owner, d, f);
  }

  /** No page is free at a, and more are to come. */
  lemma AllocFails(mem0: seq<Page>, owner0: seq<Use>, mem: seq<Page>, owner: seq<Use>,
                   d: nat, a0: nat, a: nat, end: nat, top: nat, lost: int, n0: nat)
    requires a < end <= USER && d < |mem0| && Allocated(mem0, owner0, mem, owner, d, a0, a, top, lost, n0, 0)
    ensures !Covers(n0, mem0[d], a0, end) && Spent(n0, mem0[d], a0, end, top, lost, 0, true)
  {
    NeedGrows(mem0[d], a0, a + 1, end);
    if lost < 0 {
      TabledNext(mem0[d], mem[d], mem[d], a0, a);
      NeedGrows(mem0[d], a0, a, end - 1);
      NoLeak(n0, mem0[d], a0, a, end);
    } else {
      assert LeakAt(n0, mem0[d], a0, end, a - 1);
    }
  }

  lemma AllocStart(mem: seq<Page>, owner: seq<Use>, d: nat, a: nat, n: nat)
    requires |owner| == |mem| && d < |mem|
    ensures Allocated(mem, owner, mem, owner, d, a, a, a, -1, n, n)
  {
  }

  /** What allocation that covers a0 up to end has made. */
  ghost predicate Grown(mem0: seq<Page>, owner0: seq<Use>, mem: seq<Page>, owner: seq<Use>,
                        d: nat, a0: nat, end: nat, top: nat, lost: int, n0: nat, n: nat)
    requires end <= USER && d < |mem0|
  {
    && Filled(mem0, owner0, mem, owner, d, a0, top) && Taken(owner0, owner, d, lost)
    && if n0 >= Need(mem0[d], a0, end) then
         top == end && lost < 0 && n0 == n + Need(mem0[d], a0, end) && TabledTo(mem0[d], mem[d], a0, end)
       else top + 1 == end && lost >= 0 && n == 0
  }

  /** How allocation of the pages from a0 to end ends: they are there, but for the
      last one perhaps, or every mapping is as it was; and where the n0 pages
      free at first have gone. */
  ghost predicate Outcome(mem0: seq<Page>, owner0: seq<Use>, mem: seq<Page>, owner: seq<Use>, d: nat, a0: nat, end: nat,
                          top: nat, lost: int, n0: nat, n: nat, ok: bool)
  {
    && d < |mem0| && end <= USER && Spent(n0, mem0[d], a0, end, top, lost, n, ok)
    && (ok ==> Grown(mem0, owner0, mem, owner, d, a0, end, top, lost, n0, n))
    && (!ok ==> Filled(mem0, owner0, mem, owner, d, 0, 0) && Returned(owner0, owner, d, lost))
  }

  lemma AllocEnd(mem0: seq<Page>, owner0: seq<Use>, mem: seq<Page>, owner: seq<Use>,
                 d: nat, a0: nat, end: nat, top: nat, lost: int, n0: nat, n: nat)
    requires end <= USER && d < |mem0| && Allocated(mem0, owner0, mem, owner, d, a0, end, top, lost, n0, n)
    ensures Covers(n0, mem0[d], a0, end) && Outcome(mem0, owner0, mem, owner, d, a0, end, top, lost, n0, n, true)
  {
    if lost < 0 {
      NoLeak(n0, mem0[d], a0, end, end);
    } else {
      assert LeakAt(n0, mem0[d], a0, end, end - 1);
    }
  }

  predicate PartOf(u: Use, d: nat) {
    (u.Table? && u.d == d) || (u.User? && u.d == d)
  }

  /** PGROUNDUP, in pages. */
  function Pages(sz: nat): nat {
    (sz + PGSIZE - 1) / PGSIZE
  }

  /** That is the fewest pages that hold sz bytes. */
  lemma PagesLeast(sz: nat)
    ensures (Pages(sz) - 1) * PGSIZE < sz <= Pages(sz) * PGSIZE
  {
  }

  /** Does a loop over pages from a to end come to v?  It goes page by page where
      there is a page table, and jumps ENTRIES pages where there is none. */
  ghost predicate Reached(dir: Page, a: nat, end: nat, v: nat)
    requires end <= USER
    decreases end - a
  {
    a < end &&
    if Present(dir[a / ENTRIES]) then v == a || Reached(dir, a + 1, end, v) else Reached(dir, a + ENTRIES, end, v)
  }

  /** The mapped pages such a loop comes to. */
  function Walked(mem: seq<Page>, d: nat, a: nat, end: nat): nat
    requires d < |mem| && end <= USER
    decreases end - a
  {
    if a >= end then 0
    else if !Present(mem[d][a / ENTRIES]) then Walked(mem, d, a + ENTRIES, end)
    else (if Present(Pte(mem, d, a)) then 1 else 0) + Walked(mem, d, a + 1, end)
  }

  lemma {:induction false} WalkedNone(mem: seq<Page>, d: nat, a: nat, end: nat)
    requires d < |mem| && end <= USER && forall v :: a <= v < end ==> !Present(Pte(mem, d, v))
    ensures Walked(mem, d, a, end) == 0
    decreases end - a
  {
    if a < end {
      WalkedNone(mem, d, if Present(mem[d][a / ENTRIES]) then a + 1 else a + ENTRIES, end);
    }
  }

  lemma {:induction false} WalkedAll(mem: seq<Page>, d: nat, a: nat, top: nat, end: nat)
    requires d < |mem| && a <= top <= end <= USER && forall v :: a <= v < top ==> Present(Pte(mem, d, v))
    requires forall v :: top <= v < end ==> !Present(Pte(mem, d, v))
    ensures Walked(mem, d, a, end) == top - a
    decreases top - a
  {
    if a == top {
      WalkedNone(mem, d, a, end);
    } else {
      assert Present(Pte(mem, d, a)) && Present(mem[d][a / ENTRIES]);
      WalkedAll(mem, d, a + 1, top, end);
    }
  }

  /** Every mapping is as it was. */
  ghost predicate SameMaps(mem: seq<Page>, owner: seq<Use>, mem': seq<Page>) {
    && |owner| == |mem| == |mem'|
    && forall e, u :: 0 <= e < |mem| && owner[e] == Dir && 0 <= u < ENTRIES * ENTRIES ==>
         Pte(mem', e, u) == Pte(mem, e, u)
  }

  /** But for virtual page v of directory d. */
  ghost predicate SameMapsBut(mem: seq<Page>, owner: seq<Use>, mem': seq<Page>, d: nat, v: nat) {
    && |owner| == |mem| == |mem'|
    && forall e, u :: 0 <= e < |mem| && owner[e] == Dir && 0 <= u < ENTRIES * ENTRIES && !(e == d && u == v) ==>
         Pte(mem', e, u) == Pte(mem, e, u)
  }

  /** Pages in use keep their use, and their content but for tables. */
  ghost predicate InUse(mem: seq<Page>, owner: seq<Use>, mem': seq<Page>, owner': seq<Use>) {
    && |owner| == |mem| == |mem'| == |owner'|
    && (forall f :: 0 <= f < |mem| && !owner[f].Free? ==> owner'[f] == owner[f])
    && (forall f :: 0 <= f < |mem| && !owner[f].Free? && !IsTable(owner[f]) ==> mem'[f] == mem[f])
  }

  /** The pages reached on the way from a0 to a have gone, from the mapping and
      to the free list; nothing else changed. */
  ghost predicate Unmapped(mem0: seq<Page>, owner0: seq<Use>, mem: seq<Page>, owner: seq<Use>, d: nat, a0: nat,
                           end: nat, a: nat)
    requires end <= USER
  {
    && |owner0| == |mem0| == |mem| == |owner| && d < |mem|
    && (forall u :: 0 <= u < USER ==> PteGone(mem0, mem, d, a0, end, a, u))
    && (forall e, u :: 0 <= e < |mem| && owner0[e] == Dir && e != d && 0 <= u < USER ==>
          Pte(mem, e, u) == Pte(mem0, e, u))
    && (forall f :: 0 <= f < |mem| ==> FrameGone(mem0, owner0, mem, owner, d, a0, end, a, f))
  }

  ghost predicate Gone(mem0: seq<Page>, d: nat, a0: nat, end: nat, a: nat, u: nat)
    requires d < |mem0| && end <= USER && u < USER
  {
    Reached(mem0[d], a0, end, u) && !Reached(mem0[d], a, end, u) && Present(Pte(mem0, d, u))
  }

  ghost predicate PteGone(mem0: seq<Page>, mem: seq<Page>, d: nat, a0: nat, end: nat, a: nat, u: nat)
    requires d < |mem0| == |mem| && end <= USER && u < USER
  {
    Pte(mem, d, u) == if Gone(mem0, d, a0, end, a, u) then 0 else Pte(mem0, d, u)
  }

  ghost predicate FrameGone(mem0: seq<Page>, owner0: seq<Use>, mem: seq<Page>, owner: seq<Use>, d: nat, a0: nat,
                            end: nat, a: nat, f: nat)
    requires d < |mem0| == |mem| && end <= USER && f < |owner0| == |owner| == |mem|
  {
    if owner0[f].User? && owner0[f].d == d && owner0[f].v < USER && Gone(mem0, d, a0, end, a, owner0[f].v)
    then owner[f].Free?
    else owner[f] == owner0[f] && (!owner[f].Free? && !IsTable(owner[f]) ==> mem[f] == mem0[f])
  }

  lemma {:induction false} ReachedFrom(dir: Page, a: nat, end: nat)
    requires end <= USER
    ensures forall v: nat :: Reached(dir, a, end, v) ==> a <= v < end
    decreases end - a
  {
    if a < end {
      ReachedFrom(dir, if Present(dir[a / ENTRIES]) then a + 1 else a + ENTRIES, end);
    }
  }

  /** Moving on without freeing, past pages that are not mapped. */
  lemma UnmapMove(mem0: seq<Page>, owner0: seq<Use>, mem: seq<Page>, owner: seq<Use>, d: nat, a0: nat, end: nat,
                  a: nat, a': nat)
    requires end <= USER && Unmapped(mem0, owner0, mem, owner, d, a0, end, a)
    requires forall u: nat :: u < USER && Present(Pte(mem0, d, u)) ==>
              (Reached(mem0[d], a, end, u) <==> Reached(mem0[d], a', end, u))
    ensures Unmapped(mem0, owner0, mem, owner, d, a0, end, a')
  {
    forall u: nat | u < USER ensures PteGone(mem0, mem, d, a0, end, a', u) {
      assert PteGone(mem0, mem, d, a0, end, a, u);
    }
    forall f | 0 <= f < |mem| ensures FrameGone(mem0, owner0, mem, owner, d, a0, end, a', f) {
      assert FrameGone(mem0, owner0, mem, owner, d, a0, end, a, f);
    }
  }

  /** One more page gone. */
  lemma UnmapOne(mem0: seq<Page>, owner0: seq<Use>, mem1: seq<Page>, owner1: seq<Use>, mem: seq<Page>, owner: seq<Use>,
                 d: nat, a0: nat, end: nat, a: nat, k: nat)
    requires end <= USER && Spaces(mem0, owner0) && Unmapped(mem0, owner0, mem1, owner1, d, a0, end, a) && a < end
    requires Present(mem0[d][a / ENTRIES]) && Reached(mem0[d], a0, end, a)
    requires |mem| == |mem1| == |owner| && owner1[d] == Dir
    requires forall e :: 0 <= e < |mem| && owner0[e] == Dir ==> owner1[e] == Dir
    requires Present(Pte(mem1, d, a)) && Pte(mem, d, a) == 0 && SameMapsBut(mem1, owner1, mem, d, a)
    requires Frame(Pte(mem1, d, a)) < |owner1| && owner1[Frame(Pte(mem1, d, a))] == User(d, a)
    requires owner == owner1[Frame(Pte(mem1, d, a)) := Free(k)] && InUse(mem1, owner, mem, owner)
    ensures Unmapped(mem0, owner0, mem, owner, d, a0, end, a + 1)
  {
    ReachedFrom(mem0[d], a + 1, end);
    var g, b := Frame(Pte(mem1, d, a)), a + 1;
    assert PteGone(mem0, mem1, d, a0, end, a, a) && FrameGone(mem0, owner0, mem1, owner1, d, a0, end, a, g);
    forall u: nat | u < USER ensures PteGone(mem0, mem, d, a0, end, b, u) {
      assert PteGone(mem0, mem1, d, a0, end, a, u);
    }
    forall f | 0 <= f < |mem| ensures FrameGone(mem0, owner0, mem, owner, d, a0, end, b, f) {
      assert UseOk(mem0, owner0, f);
      assert FrameGone(mem0, owner0, mem1, owner1, d, a0, end, a, f);
    }
  }

  /* When the loop of deallocuvm leaves no page behind. */

  ghost predicate AllReached(mem: seq<Page>, d: nat, a: nat, end: nat)
    requires d < |mem| && end <= USER
  {
    forall v: nat :: a <= v < end && Present(Pte(mem, d, v)) ==> Reached(mem[d], a, end, v)
  }

  /** From a page that has a table, or that starts one. */
  lemma {:induction false} AlignedReaches(mem: seq<Page>, d: nat, a: nat, end: nat, v: nat)
    requires d < |mem| && end <= USER && a <= v < end && Present(Pte(mem, d, v))
    requires a % ENTRIES == 0 || Present(mem[d][a / ENTRIES])
    ensures Reached(mem[d], a, end, v)
    decreases end - a
  {
    if Present(mem[d][a / ENTRIES]) {
      if v != a {
        assert (a + 1) % ENTRIES == 0 || (a + 1) / ENTRIES == a / ENTRIES;
        AlignedReaches(mem, d, a + 1, end, v);
      }
    } else {
      assert v / ENTRIES != a / ENTRIES;
      AlignedReaches(mem, d, a + ENTRIES, end, v);
    }
  }

  /** The first page table from x on, below page end. */
  function FirstTable(dir: Page, x: nat, end: nat): (y: nat)
    requires end <= USER
    ensures x <= y && (y * ENTRIES < end ==> Present(dir[y]))
    ensures forall z :: x <= z < y && z * ENTRIES < end ==> !Present(dir[z])
    decreases end - x * ENTRIES
  {
    if x * ENTRIES >= end || Present(dir[x]) then x else FirstTable(dir, x + 1, end)
  }

  /** What the jumps skip: a start inside a missing table is carried, at the same
      offset, into the first table there is. */
  predicate SkipsNothing(mem: seq<Page>, d: nat, a: nat, end: nat)
    requires d < |mem| && end <= USER
  {
    a % ENTRIES == 0 || a >= end || Present(mem[d][a / ENTRIES]) ||
    var y := FirstTable(mem[d], a / ENTRIES, end);
    forall v :: y * ENTRIES <= v < y * ENTRIES + a % ENTRIES && v < end ==> !Present(Pte(mem, d, v))
  }

  lemma {:induction false} CarriedOn(mem: seq<Page>, d: nat, a: nat, end: nat)
    requires d < |mem| && end <= USER && a < end && !Present(mem[d][a / ENTRIES])
    ensures AllReached(mem, d, a, end) <==>
            var y := FirstTable(mem[d], a / ENTRIES, end);
            forall v: nat :: y * ENTRIES <= v < y * ENTRIES + a % ENTRIES && v < end ==> !Present(Pte(mem, d, v))
    decreases end - a
  {
    var b, x := a + ENTRIES, a / ENTRIES;
    var y := FirstTable(mem[d], x, end);
    assert b / ENTRIES == x + 1 && b % ENTRIES == a % ENTRIES;
    assert y == FirstTable(mem[d], x + 1, end);
    ReachedFrom(mem[d], b, end);
    if b < end && !Present(mem[d][b / ENTRIES]) {
      CarriedOn(mem, d, b, end);
      SkippedGap(mem, d, a, end);
    } else {
      SkippedLast(mem, d, a, end);
    }
  }

  /** No page is mapped between a and b when neither has a table. */
  lemma SkippedGap(mem: seq<Page>, d: nat, a: nat, end: nat)
    requires d < |mem| && end <= USER && a + ENTRIES < end
    requires !Present(mem[d][a / ENTRIES]) && !Present(mem[d][(a + ENTRIES) / ENTRIES])
    ensures AllReached(mem, d, a, end) <==> AllReached(mem, d, a + ENTRIES, end)
  {
    forall v: nat | a <= v < a + ENTRIES ensures !Present(Pte(mem, d, v)) {
      assert v / ENTRIES == a / ENTRIES || v / ENTRIES == (a + ENTRIES) / ENTRIES;
    }
  }

  lemma SkippedLast(mem: seq<Page>, d: nat, a: nat, end: nat)
    requires d < |mem| && end <= USER && a < end && !Present(mem[d][a / ENTRIES])
    requires a + ENTRIES < end ==> Present(mem[d][(a + ENTRIES) / ENTRIES])
    ensures var y := FirstTable(mem[d], a / ENTRIES, end);
            AllReached(mem, d, a, end) <==>
            forall v: nat :: y * ENTRIES <= v < y * ENTRIES + a % ENTRIES && v < end ==> !Present(Pte(mem, d, v))
  {
    var b, x := a + ENTRIES, a / ENTRIES;
    var y := FirstTable(mem[d], x, end);
    ReachedFrom(mem[d], b, end);
    assert b == (x + 1) * ENTRIES + a % ENTRIES && b / ENTRIES == x + 1;
    forall v: nat | a <= v < end && v < (x + 1) * ENTRIES ensures !Present(Pte(mem, d, v)) {
      assert v / ENTRIES == x;
    }
    if (x + 1) * ENTRIES < end && Present(mem[d][x + 1]) {
      assert y == x + 1;
      forall v: nat | y * ENTRIES <= v < b && v < end ensures a <= v && !Reached(mem[d], a, end, v) {
      }
    } else {
      assert y * ENTRIES >= end;
      forall v: nat | a <= v < end ensures !Present(Pte(mem, d, v)) {
        assert v / ENTRIES == x || v / ENTRIES == x + 1;
      }
    }
    forall v: nat | b <= v < end && Present(Pte(mem, d, v)) ensures Reached(mem[d], a, end, v) {
      AlignedReaches(mem, d, b, end, v);
    }
  }

  /** Deallocation leaves no page mapped exactly when its start has a page table,
      or begins one, or nothing lies at the head of the first table after it. */
  lemma LeavesNothing(mem: seq<Page>, d: nat, a: nat, end: nat)
    requires d < |mem| && end <= USER
    ensures AllReached(mem, d, a, end) <==> SkipsNothing(mem, d, a, end)
  {
    if a < end {
      if a % ENTRIES == 0 || Present(mem[d][a / ENTRIES]) {
        forall v: nat | a <= v < end && Present(Pte(mem, d, v)) ensures Reached(mem[d], a, end, v) {
          AlignedReaches(mem, d, a, end, v);
        }
      } else {
        CarriedOn(mem, d, a, end);
      }
    }
  }

  /** A process whose first page table is missing and whose second is not: from
      page 1, deallocation misses page 1024. */
  lemma SkipMisses(mem: seq<Page>)
    requires |mem| == 3 && mem[0] == Zeros()[1 := Entry(1, PTE_W + PTE_U)]
    requires mem[1] == Zeros()[0 := Entry(2, PTE_W + PTE_U)]
    ensures Spaces(mem, [Dir, Table(0, 1), User(0, ENTRIES)])
    ensures Present(Pte(mem, 0, ENTRIES)) && !Reached(mem[0], 1, ENTRIES + 1, ENTRIES)
  {
    assert Pte(mem, 0, ENTRIES) == mem[1][0];
    assert !Reached(mem[0], 1 + ENTRIES, ENTRIES + 1, ENTRIES);
    var owner := [Dir, Table(0, 1), User(0, ENTRIES)];
    forall v | 0 <= v < USER ensures PteOk(mem, owner, 0, v) {
      if v / ENTRIES == 1 {
        assert Pte(mem, 0, v) == mem[1][v % ENTRIES];
      }
    }
  }
}
