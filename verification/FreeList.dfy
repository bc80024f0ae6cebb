/** The free list of the K&R allocator (umalloc.c) as a value: blocks in address
    order, fully coalesced, disjoint from the blocks in use; and the headers in
    memory that link them in a circle. */
module FreeList {
  import opened Common

  const HEADER_BYTES: nat := 8
  const MIN_CORE: nat := 4096
  /** Unit addresses below this bound are representable as pointers. */
  const ADDRESS_UNITS: nat := 0x2000_0000
  /** The static header `base`; the heap lies above it. */
  const BASE: nat := 1
  const NULL: nat := 0

  datatype Option<T> = None | Some(value: T)

  /** One unit of memory, seen as a header. */
  datatype Header = Header(ptr: nat, size: nat)

  datatype Blk = Blk(addr: nat, size: nat) {
    predicate Has(u: nat) {
      addr <= u < addr + size
    }
  }

  /** Address order, no overlap and no two touching blocks; `base` first. */
  ghost predicate Canonical(fl: seq<Blk>) {
    |fl| >= 1 && fl[0] == Blk(BASE, 0) &&
    Positive(fl) && Ordered(fl)
  }

  ghost predicate Positive(fl: seq<Blk>) {
    forall i :: 0 <= i < |fl| ==> fl[i].size >= 1 || fl[i].addr == BASE
  }

  ghost predicate Ordered(fl: seq<Blk>) {
    forall i, j :: 0 <= i < j < |fl| ==> fl[i].addr + fl[i].size < fl[j].addr
  }

  ghost predicate Covers(fl: seq<Blk>, u: nat) {
    exists i :: 0 <= i < |fl| && fl[i].Has(u)
  }

  /** Every canonical list is determined by the units it covers, so the
      contracts below, which speak of covered units, fix the list itself. */
  lemma {:induction false} CanonicalUnique(f: seq<Blk>, g: seq<Blk>)
    requires Canonical(f) && Canonical(g)
    requires forall u :: Covers(f, u) <==> Covers(g, u)
    ensures f == g
    decreases |f| + |g|
  {
    BothShort(f, g);
    if |f| > 1 && |g| > 1 {
      SameLast(f, g);
      var f', g' := f[..|f| - 1], g[..|g| - 1];
      forall u ensures Covers(f', u) <==> Covers(g', u) {
        CoversFront(f, u);
        CoversFront(g, u);
      }
      CanonicalUnique(f', g');
      assert f == f' + [f[|f| - 1]] && g == g' + [g[|g| - 1]];
    }
  }

  lemma CoversSome(f: seq<Blk>)
    requires Canonical(f)
    ensures |f| > 1 ==> Covers(f, f[1].addr)
  {
    assert |f| > 1 ==> f[1].Has(f[1].addr);
  }

  lemma BothShort(f: seq<Blk>, g: seq<Blk>)
    requires Canonical(f) && Canonical(g) && forall u :: Covers(f, u) <==> Covers(g, u)
    ensures |f| > 1 <==> |g| > 1
    ensures |f| == |g| == 1 ==> f == g
  {
    CoversSome(f);
    CoversSome(g);
  }

  lemma CoversFront(f: seq<Blk>, u: nat)
    requires Canonical(f) && |f| > 1
    ensures Covers(f[..|f| - 1], u) <==> Covers(f, u) && !f[|f| - 1].Has(u)
  {
    var front := f[..|f| - 1];
    if Covers(front, u) {
      var i :| 0 <= i < |front| && front[i].Has(u);
      assert f[i].Has(u);
    }
    if Covers(f, u) && !f[|f| - 1].Has(u) {
      var i :| 0 <= i < |f| && f[i].Has(u);
      assert front[i].Has(u);
    }
  }

  lemma SameLast(f: seq<Blk>, g: seq<Blk>)
    requires Canonical(f) && Canonical(g) && |f| > 1 && |g| > 1
    requires forall u :: Covers(f, u) <==> Covers(g, u)
    ensures f[|f| - 1] == g[|g| - 1]
  {
    LastEnd(f, g);
    LastEnd(g, f);
    LastStart(f, g);
    LastStart(g, f);
  }

  /** The last unit of f's last block is a unit of g, hence not beyond g's end. */
  lemma LastEnd(f: seq<Blk>, g: seq<Blk>)
    requires Canonical(f) && Canonical(g) && |f| > 1 && |g| > 1
    requires forall u :: Covers(f, u) ==> Covers(g, u)
    ensures f[|f| - 1].addr + f[|f| - 1].size <= g[|g| - 1].addr + g[|g| - 1].size
  {
    var a := f[|f| - 1];
    var u := a.addr + a.size - 1;
    assert a.Has(u) && Covers(f, u);
    var i :| 0 <= i < |g| && g[i].Has(u);
    if i < |g| - 1 {
      assert g[i].addr + g[i].size < g[|g| - 1].addr;
    }
  }

  /** The unit just below f's last block is free in neither list. */
  lemma LastStart(f: seq<Blk>, g: seq<Blk>)
    requires Canonical(f) && Canonical(g) && |f| > 1 && |g| > 1
    requires forall u :: Covers(f, u) <==> Covers(g, u)
    requires f[|f| - 1].addr + f[|f| - 1].size == g[|g| - 1].addr + g[|g| - 1].size
    ensures f[|f| - 1].addr <= g[|g| - 1].addr
  {
    var a, b := f[|f| - 1], g[|g| - 1];
    var u: nat := a.addr - 1;
    assert !Covers(f, u) && !Covers(g, u) && !b.Has(u);
  }

  /** Index arithmetic on a ring of n nodes. */
  function Succ(i: nat, n: nat): nat
    requires i < n
  {
    if i + 1 < n then i + 1 else 0
  }

  /** Steps along the ring from i to t. */
  function Dist(i: nat, t: nat, n: nat): (d: nat)
    requires i < n && t < n
    ensures d < n
    ensures d == 0 <==> i == t
  {
    if i <= t then t - i else t + n - i
  }

  lemma DistStep(i: nat, t: nat, n: nat)
    requires i < n && t < n && i != t
    ensures Dist(Succ(i, n), t, n) == Dist(i, t, n) - 1
  {
  }

  /** Position of the free-list neighbour below address b: the last node with a
      smaller address. */
  ghost predicate IsPred(fl: seq<Blk>, j: nat, b: Blk) {
    j < |fl| && fl[j].addr < b.addr && (j + 1 < |fl| ==> b.addr < fl[j + 1].addr)
  }

  /** b overlaps no free block. */
  ghost predicate Outside(fl: seq<Blk>, b: Blk) {
    forall i :: 0 <= i < |fl| ==> fl[i].addr + fl[i].size <= b.addr || b.addr + b.size <= fl[i].addr
  }

  predicate JoinsUp(fl: seq<Blk>, j: nat, b: Blk) {
    j + 1 < |fl| && b.addr + b.size == fl[j + 1].addr
  }

  /** b merged with the block above it, if they touch. */
  function MergedUp(fl: seq<Blk>, j: nat, b: Blk): Blk {
    if JoinsUp(fl, j, b) then Blk(b.addr, b.size + fl[j + 1].size) else b
  }

  /** The nodes that replace node j, and its successor if that was merged. */
  function Middle(p: Blk, b: Blk): seq<Blk> {
    if p.addr + p.size == b.addr then [Blk(p.addr, p.size + b.size)] else [p, b]
  }

  function Above(fl: seq<Blk>, j: nat, b: Blk): seq<Blk>
    requires j < |fl|
  {
    if JoinsUp(fl, j, b) then fl[j + 2..] else fl[j + 1..]
  }

  /** The list after giving back b behind node j, merged with its neighbours. */
  function Insert(fl: seq<Blk>, j: nat, b: Blk): seq<Blk>
    requires j < |fl|
  {
    fl[..j] + Middle(fl[j], MergedUp(fl, j, b)) + Above(fl, j, b)
  }

  lemma CoversConcat(a: seq<Blk>, b: seq<Blk>, u: nat)
    ensures Covers(a + b, u) <==> Covers(a, u) || Covers(b, u)
  {
    var c := a + b;
    if i :| 0 <= i < |c| && c[i].Has(u) {
      assert if i < |a| then a[i].Has(u) else b[i - |a|].Has(u);
    }
    if i :| 0 <= i < |a| && a[i].Has(u) {
      assert c[i].Has(u);
    }
    if i :| 0 <= i < |b| && b[i].Has(u) {
      assert c[|a| + i].Has(u);
    }
  }

  lemma CoversSplit(a: seq<Blk>, mid: seq<Blk>, b: seq<Blk>, u: nat)
    ensures Covers(a + mid + b, u) <==> Covers(a, u) || Covers(mid, u) || Covers(b, u)
  {
    CoversConcat(a, mid, u);
    CoversConcat(a + mid, b, u);
  }

  lemma CoversOne(x: Blk, u: nat)
    ensures Covers([x], u) <==> x.Has(u)
  {
    assert [x][0] == x;
  }

  lemma OrderedConcat(a: seq<Blk>, b: seq<Blk>)
    requires Ordered(a) && Ordered(b)
    requires |a| > 0 && |b| > 0 ==> a[|a| - 1].addr + a[|a| - 1].size < b[0].addr
    ensures Ordered(a + b)
  {
    var c := a + b;
    forall i, j | 0 <= i < j < |c| ensures c[i].addr + c[i].size < c[j].addr {
      if i < |a| <= j {
        assert a[i].addr + a[i].size <= a[|a| - 1].addr + a[|a| - 1].size;
        assert b[0].addr <= b[j - |a|].addr;
      }
    }
  }

  /** What lies above node j: b's own end stays clear of it after merging. */
  lemma AboveFacts(fl: seq<Blk>, j: nat, b: Blk)
    requires Canonical(fl) && IsPred(fl, j, b) && Outside(fl, b) && b.size >= 1
    ensures fl[j].addr + fl[j].size <= b.addr
    ensures Ordered(fl[..j]) && Ordered(Above(fl, j, b))
    ensures Positive(fl[..j]) && Positive(Above(fl, j, b))
    ensures var m, rest := MergedUp(fl, j, b), Above(fl, j, b);
            m.size >= 1 && (rest != [] ==> m.addr + m.size < rest[0].addr)
    ensures j > 0 ==> fl[j - 1].addr + fl[j - 1].size < fl[j].addr
  {
  }

  /** Coalescing keeps the list canonical and adds exactly the units of b. */
  lemma InsertCanonical(fl: seq<Blk>, j: nat, b: Blk)
    requires Canonical(fl) && IsPred(fl, j, b) && Outside(fl, b) && b.size >= 1
    ensures Canonical(Insert(fl, j, b))
  {
    AboveFacts(fl, j, b);
    var below, mid, rest := fl[..j], Middle(fl[j], MergedUp(fl, j, b)), Above(fl, j, b);
    assert Ordered(mid) && Positive(mid) && mid[0].addr == fl[j].addr;
    JoinOrdered(below, mid, rest);
    assert j == 0 ==> mid[0] == fl[0];
  }

  lemma JoinOrdered(below: seq<Blk>, mid: seq<Blk>, rest: seq<Blk>)
    requires Ordered(below) && Ordered(mid) && Ordered(rest) && mid != []
    requires Positive(below) && Positive(mid) && Positive(rest)
    requires below != [] ==> below[|below| - 1].addr + below[|below| - 1].size < mid[0].addr
    requires rest != [] ==> mid[|mid| - 1].addr + mid[|mid| - 1].size < rest[0].addr
    ensures Ordered(below + mid + rest) && Positive(below + mid + rest)
  {
    OrderedConcat(below, mid);
    OrderedConcat(below + mid, rest);
  }

  lemma InsertCovers(fl: seq<Blk>, j: nat, b: Blk, u: nat)
    requires Canonical(fl) && IsPred(fl, j, b) && Outside(fl, b) && b.size >= 1
    ensures Covers(Insert(fl, j, b), u) <==> Covers(fl, u) || b.Has(u)
  {
    var m, rest := MergedUp(fl, j, b), Above(fl, j, b);
    CoversSplit(fl[..j], Middle(fl[j], m), rest, u);
    MiddleCovers(fl[j], m, u);
    AboveCovers(fl, j, b, u);
    assert fl == fl[..j] + [fl[j]] + fl[j + 1..];
    CoversSplit(fl[..j], [fl[j]], fl[j + 1..], u);
    CoversOne(fl[j], u);
  }

  lemma MiddleCovers(p: Blk, b: Blk, u: nat)
    ensures Covers(Middle(p, b), u) <==> p.Has(u) || b.Has(u)
  {
    CoversOne(p, u);
    CoversOne(b, u);
    CoversConcat([p], [b], u);
    CoversOne(Blk(p.addr, p.size + b.size), u);
    assert [p, b] == [p] + [b];
  }

  lemma AboveCovers(fl: seq<Blk>, j: nat, b: Blk, u: nat)
    requires j < |fl|
    ensures MergedUp(fl, j, b).Has(u) || Covers(Above(fl, j, b), u) <==> b.Has(u) || Covers(fl[j + 1..], u)
  {
    if JoinsUp(fl, j, b) {
      assert fl[j + 1..] == [fl[j + 1]] + fl[j + 2..];
      CoversConcat([fl[j + 1]], fl[j + 2..], u);
      CoversOne(fl[j + 1], u);
    }
  }

  /** The list after cutting n units off the end of node k. */
  function TakeTail(fl: seq<Blk>, k: nat, n: nat): seq<Blk>
    requires k < |fl| && n <= fl[k].size
  {
    if fl[k].size == n then fl[..k] + fl[k + 1..] else fl[k := Blk(fl[k].addr, fl[k].size - n)]
  }

  lemma TakeTailCanonical(fl: seq<Blk>, k: nat, n: nat)
    requires Canonical(fl) && k < |fl| && 1 <= n <= fl[k].size
    ensures Canonical(TakeTail(fl, k, n))
  {
    if fl[k].size == n {
      assert Ordered(fl[..k]) && Ordered(fl[k + 1..]);
      OrderedConcat(fl[..k], fl[k + 1..]);
    }
  }

  lemma TakeTailCovers(fl: seq<Blk>, k: nat, n: nat, u: nat)
    requires Canonical(fl) && k < |fl| && 1 <= n <= fl[k].size
    ensures var cut := Blk(fl[k].addr + fl[k].size - n, n);
            Covers(TakeTail(fl, k, n), u) <==> Covers(fl, u) && !cut.Has(u)
  {
    var kept := if fl[k].size == n then [] else [Blk(fl[k].addr, fl[k].size - n)];
    assert fl == fl[..k] + [fl[k]] + fl[k + 1..];
    assert TakeTail(fl, k, n) == fl[..k] + kept + fl[k + 1..];
    CoversSplit(fl[..k], [fl[k]], fl[k + 1..], u);
    CoversSplit(fl[..k], kept, fl[k + 1..], u);
    CoversOne(fl[k], u);
    if kept != [] { CoversOne(kept[0], u); }
    OnlyOneCovers(fl, k, u);
  }

  /** Blocks of a canonical list do not overlap. */
  lemma OnlyOneCovers(fl: seq<Blk>, k: nat, u: nat)
    requires Canonical(fl) && k < |fl|
    ensures fl[k].Has(u) ==> !Covers(fl[..k], u) && !Covers(fl[k + 1..], u)
  {
  }

  /** The address-order predecessor of b among the first n nodes. */
  ghost function PredIndex(fl: seq<Blk>, n: nat, b: Blk): (j: nat)
    requires Canonical(fl) && 1 <= n <= |fl| && BASE < b.addr
    requires n < |fl| ==> b.addr < fl[n].addr
    requires forall i :: 0 <= i < |fl| ==> fl[i].addr != b.addr
    ensures IsPred(fl, j, b)
  {
    if fl[n - 1].addr < b.addr then n - 1 else PredIndex(fl, n - 1, b)
  }

  /** The address that node i of a chain points to. */
  function After(s: seq<Blk>, next: nat, i: nat): nat
    requires i < |s|
  {
    if i + 1 < |s| then s[i + 1].addr else next
  }

  ghost predicate Node(mem: map<nat, Header>, s: seq<Blk>, next: nat, i: nat)
    requires i < |s|
  {
    s[i].addr in mem && mem[s[i].addr] == Header(After(s, next, i), s[i].size)
  }

  /** The headers in memory spell out this list, the last pointing to next. */
  ghost predicate Chain(mem: map<nat, Header>, s: seq<Blk>, next: nat) {
    forall i :: 0 <= i < |s| ==> Node(mem, s, next, i)
  }

  /** Closed into a ring. */
  ghost predicate Linked(mem: map<nat, Header>, fl: seq<Blk>) {
    |fl| >= 1 && Chain(mem, fl, fl[0].addr)
  }

  /** Where a chain starts. */
  function First(s: seq<Blk>, next: nat): nat {
    if s == [] then next else s[0].addr
  }

  lemma ChainConcat(mem: map<nat, Header>, a: seq<Blk>, b: seq<Blk>, next: nat)
    ensures Chain(mem, a + b, next) <==> Chain(mem, a, First(b, next)) && Chain(mem, b, next)
  {
    var c := a + b;
    forall i | 0 <= i < |a| ensures Node(mem, a, First(b, next), i) <==> Node(mem, c, next, i) {
      assert c[i] == a[i] && After(c, next, i) == After(a, First(b, next), i);
    }
    forall i | 0 <= i < |b| ensures Node(mem, b, next, i) <==> Node(mem, c, next, |a| + i) {
      assert c[|a| + i] == b[i] && After(c, next, |a| + i) == After(b, next, i);
    }
    assert forall i :: |a| <= i < |c| ==> Node(mem, c, next, i) == Node(mem, b, next, i - |a|);
  }

  lemma ChainSplit(mem: map<nat, Header>, a: seq<Blk>, mid: seq<Blk>, b: seq<Blk>, next: nat)
    ensures Chain(mem, a + mid + b, next) <==>
            Chain(mem, a, First(mid + b, next)) && Chain(mem, mid, First(b, next)) && Chain(mem, b, next)
  {
    ChainConcat(mem, mid, b, next);
    ChainConcat(mem, a, mid + b, next);
    assert a + mid + b == a + (mid + b);
  }

  lemma ChainInMem(mem: map<nat, Header>, s: seq<Blk>, next: nat)
    requires Chain(mem, s, next)
    ensures forall x :: x in s ==> x.addr in mem
  {
    forall i | 0 <= i < |s| ensures s[i].addr in mem {
      assert Node(mem, s, next, i);
    }
  }

  /** Writes elsewhere leave a chain alone. */
  lemma ChainFrame(mem: map<nat, Header>, mem': map<nat, Header>, s: seq<Blk>, next: nat)
    requires Chain(mem, s, next)
    requires forall x :: x in s ==> x.addr in mem && x.addr in mem' && mem'[x.addr] == mem[x.addr]
    ensures Chain(mem', s, next)
  {
    forall i | 0 <= i < |s| ensures Node(mem', s, next, i) {
      assert Node(mem, s, next, i) && s[i] in s;
    }
  }

  ghost predicate LiveHas(live: map<nat, nat>, u: nat) {
    exists a :: a in live && Blk(a, live[a]).Has(u)
  }

  /** Unit u belongs to the heap: memory, but not the static header. */
  ghost predicate InHeap(memory: set<nat>, u: nat) {
    u in memory && u != BASE
  }

  /** Every unit of the heap lies in exactly one block, free or live. */
  ghost predicate Tiled(heap: set<nat>, fl: seq<Blk>, live: map<nat, nat>) {
    && (forall u :: UnitTiled(heap, fl, live, u))
    && (forall a :: a in live ==> live[a] >= 1)
    && (forall a, b :: a in live && b in live && a < b ==> a + live[a] <= b)
  }

  ghost predicate UnitTiled(heap: set<nat>, fl: seq<Blk>, live: map<nat, nat>, u: nat) {
    (InHeap(heap, u) <==> Covers(fl, u) || LiveHas(live, u)) && (!Covers(fl, u) || !LiveHas(live, u))
  }

  lemma LiveOutside(heap: set<nat>, fl: seq<Blk>, live: map<nat, nat>, a: nat)
    requires Canonical(fl) && Tiled(heap, fl, live) && a in live && BASE < a
    ensures Outside(fl, Blk(a, live[a]))
    ensures forall i :: 0 <= i < |fl| ==> fl[i].addr != a
  {
    var b := Blk(a, live[a]);
    forall i | 0 <= i < |fl|
      ensures fl[i].addr + fl[i].size <= b.addr || b.addr + b.size <= fl[i].addr
      ensures fl[i].addr != a
    {
      assert UnitTiled(heap, fl, live, a) && UnitTiled(heap, fl, live, fl[i].addr);
      assert b.Has(a) && LiveHas(live, a) && !fl[i].Has(a);
      assert fl[i].Has(fl[i].addr) ==> Covers(fl, fl[i].addr);
      assert !LiveHas(live, fl[i].addr);
    }
  }

  lemma LiveRemove(live: map<nat, nat>, a: nat, u: nat)
    requires a in live && forall x, y :: x in live && y in live && x < y ==> x + live[x] <= y
    ensures LiveHas(live - {a}, u) <==> LiveHas(live, u) && !Blk(a, live[a]).Has(u)
  {
    var rest := live - {a};
    if LiveHas(rest, u) {
      var x :| x in rest && Blk(x, rest[x]).Has(u);
      assert Blk(x, live[x]).Has(u);
    }
    if LiveHas(live, u) && !Blk(a, live[a]).Has(u) {
      var x :| x in live && Blk(x, live[x]).Has(u);
      assert x in rest && Blk(x, rest[x]).Has(u);
    }
  }

  lemma LiveAdd(live: map<nat, nat>, a: nat, n: nat, u: nat)
    requires a !in live
    ensures LiveHas(live[a := n], u) <==> LiveHas(live, u) || Blk(a, n).Has(u)
  {
    var more := live[a := n];
    if LiveHas(more, u) {
      var x :| x in more && Blk(x, more[x]).Has(u);
      assert x != a ==> x in live && Blk(x, live[x]).Has(u);
    }
    if LiveHas(live, u) {
      var x :| x in live && Blk(x, live[x]).Has(u);
      assert x in more && Blk(x, more[x]).Has(u);
    }
    assert a in more && more[a] == n;
  }

  /** The pointer updates of free realise Insert. */
  lemma LinkInsert(mem: map<nat, Header>, mem': map<nat, Header>, fl: seq<Blk>, j: nat, b: Blk)
    requires Canonical(fl) && Linked(mem, fl) && IsPred(fl, j, b) && Outside(fl, b) && b.size >= 1
    requires mem'.Keys == mem.Keys && b.addr in mem
    requires forall u :: u in mem && u != b.addr && u != fl[j].addr ==> mem'[u] == mem[u]
    requires Chain(mem', Middle(fl[j], MergedUp(fl, j, b)), First(Above(fl, j, b), BASE))
    ensures Linked(mem', Insert(fl, j, b))
  {
    AboveFacts(fl, j, b);
    InsertCanonical(fl, j, b);
    var below, mid, rest := fl[..j], Middle(fl[j], MergedUp(fl, j, b)), Above(fl, j, b);
    AboveChain(mem, fl, j, b);
    ChainFrame(mem, mem', rest, BASE);
    ChainFrame(mem, mem', below, fl[j].addr);
    assert (mid + rest)[0].addr == fl[j].addr;
    ChainSplit(mem', below, mid, rest, BASE);
  }

  lemma ChainAt(mem: map<nat, Header>, fl: seq<Blk>, j: nat)
    requires Chain(mem, fl, BASE) && j < |fl|
    ensures Chain(mem, fl[..j], fl[j].addr) && Chain(mem, fl[j + 1..], BASE)
    ensures fl[j].addr in mem && mem[fl[j].addr] == Header(First(fl[j + 1..], BASE), fl[j].size)
  {
    assert fl == fl[..j] + [fl[j]] + fl[j + 1..];
    ChainSplit(mem, fl[..j], [fl[j]], fl[j + 1..], BASE);
    assert Node(mem, [fl[j]], First(fl[j + 1..], BASE), 0);
  }

  /** The parts of the ring that free leaves alone. */
  lemma AboveChain(mem: map<nat, Header>, fl: seq<Blk>, j: nat, b: Blk)
    requires Canonical(fl) && Linked(mem, fl) && IsPred(fl, j, b) && Outside(fl, b) && b.size >= 1
    ensures Chain(mem, fl[..j], fl[j].addr) && Chain(mem, Above(fl, j, b), BASE)
    ensures fl[j].addr in mem && mem[fl[j].addr] == Header(First(fl[j + 1..], BASE), fl[j].size)
    ensures JoinsUp(fl, j, b) ==>
              fl[j + 1].addr in mem && mem[fl[j + 1].addr] == Header(First(Above(fl, j, b), BASE), fl[j + 1].size)
    ensures forall x :: x in Above(fl, j, b) ==> x.addr in mem && x.addr != fl[j].addr && x.addr != b.addr
    ensures forall x :: x in fl[..j] ==> x.addr in mem && x.addr != fl[j].addr && x.addr != b.addr
  {
    ChainInMem(mem, fl, BASE);
    ChainAt(mem, fl, j);
    if JoinsUp(fl, j, b) {
      assert fl[j + 1..] == [fl[j + 1]] + fl[j + 2..];
      ChainConcat(mem, [fl[j + 1]], fl[j + 2..], BASE);
      assert Node(mem, [fl[j + 1]], First(fl[j + 2..], BASE), 0);
    }
  }

  lemma FreeTiled(heap: set<nat>, fl: seq<Blk>, live: map<nat, nat>, a: nat, j: nat)
    requires Canonical(fl) && Tiled(heap, fl, live) && a in live && IsPred(fl, j, Blk(a, live[a]))
    requires Outside(fl, Blk(a, live[a]))
    ensures Tiled(heap, Insert(fl, j, Blk(a, live[a])), live - {a})
  {
    var b := Blk(a, live[a]);
    forall u ensures UnitTiled(heap, Insert(fl, j, b), live - {a}, u) {
      assert UnitTiled(heap, fl, live, u);
      InsertCovers(fl, j, b, u);
      LiveRemove(live, a, u);
      assert b.Has(u) ==> LiveHas(live, u);
    }
  }

  lemma TakeUnit(heap: set<nat>, fl: seq<Blk>, live: map<nat, nat>, k: nat, n: nat, a: nat, u: nat)
    requires Canonical(fl) && Tiled(heap, fl, live) && k < |fl| && 1 <= n <= fl[k].size
    requires a == fl[k].addr + fl[k].size - n && a !in live
    ensures UnitTiled(heap, TakeTail(fl, k, n), live[a := n], u)
  {
    assert UnitTiled(heap, fl, live, u);
    TakeTailCovers(fl, k, n, u);
    LiveAdd(live, a, n, u);
    assert Blk(a, n).Has(u) ==> fl[k].Has(u) && Covers(fl, u);
  }

  lemma TakeTiled(heap: set<nat>, fl: seq<Blk>, live: map<nat, nat>, k: nat, n: nat, a: nat)
    requires Canonical(fl) && Tiled(heap, fl, live) && k < |fl| && 1 <= n <= fl[k].size
    requires a == fl[k].addr + fl[k].size - n
    ensures InHeap(heap, a) && a !in live && Tiled(heap, TakeTail(fl, k, n), live[a := n])
  {
    assert fl[k].Has(a) && Covers(fl, a) && UnitTiled(heap, fl, live, a);
    TakeDisjoint(heap, fl, live, k, n);
    var fl', live' := TakeTail(fl, k, n), live[a := n];
    forall u ensures UnitTiled(heap, fl', live', u) {
      TakeUnit(heap, fl, live, k, n, a, u);
    }
  }

  /** The block cut off does not touch the live ones. */
  lemma TakeDisjoint(heap: set<nat>, fl: seq<Blk>, live: map<nat, nat>, k: nat, n: nat)
    requires Canonical(fl) && Tiled(heap, fl, live) && k < |fl| && 1 <= n <= fl[k].size
    ensures var a := fl[k].addr + fl[k].size - n;
            forall x :: x in live ==> x + live[x] <= a || a + n <= x
  {
    var a := fl[k].addr + fl[k].size - n;
    forall x | x in live ensures x + live[x] <= a || a + n <= x {
      var b := Blk(x, live[x]);
      assert UnitTiled(heap, fl, live, x) && UnitTiled(heap, fl, live, a);
      assert b.Has(x) && LiveHas(live, x) && !Covers(fl, x) && !fl[k].Has(x);
      assert fl[k].Has(a) && Covers(fl, a) && !LiveHas(live, a) && !b.Has(a);
    }
  }

  function Region(hp: nat, nu: nat): set<nat> {
    set u: nat | hp <= u < hp + nu && Blk(hp, nu).Has(u)
  }

  lemma GrowTiled(heap: set<nat>, fl: seq<Blk>, live: map<nat, nat>, hp: nat, nu: nat)
    requires Tiled(heap, fl, live) && nu >= 1
    requires forall u :: u in heap ==> u < hp
    requires BASE < hp
    ensures hp !in live
    ensures Tiled(heap + Region(hp, nu), fl, live[hp := nu])
  {
    var region := Region(hp, nu);
    forall x | x in live ensures x + live[x] <= hp {
      assert Blk(x, live[x]).Has(x + live[x] - 1) && LiveHas(live, x + live[x] - 1);
      assert UnitTiled(heap, fl, live, x + live[x] - 1);
    }
    var heap', live' := heap + region, live[hp := nu];
    forall u ensures UnitTiled(heap', fl, live', u) {
      assert UnitTiled(heap, fl, live, u);
      LiveAdd(live, hp, nu, u);
      assert u in region <==> Blk(hp, nu).Has(u);
    }
  }

  /** Replacing a stretch of a chain by another that starts at the same place. */
  lemma ChainReplace(mem: map<nat, Header>, mem': map<nat, Header>,
                     below: seq<Blk>, was: seq<Blk>, now: seq<Blk>, above: seq<Blk>)
    requires Chain(mem, below + was + above, BASE) && was != [] && now != [] && was[0].addr == now[0].addr
    requires forall x :: x in below || x in above ==> x.addr in mem && x.addr in mem' && mem'[x.addr] == mem[x.addr]
    requires Chain(mem', now, First(above, BASE))
    ensures Chain(mem', below + now + above, BASE)
  {
    ChainSplit(mem, below, was, above, BASE);
    ChainFrame(mem, mem', above, BASE);
    ChainFrame(mem, mem', below, was[0].addr);
    ChainSplit(mem', below, now, above, BASE);
  }

  lemma CutOut(fl: seq<Blk>, k: nat)
    requires 1 <= k < |fl|
    ensures fl == fl[..k - 1] + [fl[k - 1], fl[k]] + fl[k + 1..]
    ensures fl[..k] + fl[k + 1..] == fl[..k - 1] + [fl[k - 1]] + fl[k + 1..]
  {
  }

  /** Unlinking node k realises TakeTail when the whole block is taken. */
  lemma LinkUnlink(mem: map<nat, Header>, mem': map<nat, Header>, fl: seq<Blk>, k: nat)
    requires Canonical(fl) && Linked(mem, fl) && 1 <= k < |fl|
    requires forall x :: x in fl ==> x.addr in mem && x.addr in mem'
    requires forall x :: x in fl && x.addr != fl[k - 1].addr ==> mem'[x.addr] == mem[x.addr]
    requires mem'[fl[k - 1].addr] == Header(mem[fl[k].addr].ptr, fl[k - 1].size)
    ensures Linked(mem', fl[..k] + fl[k + 1..])
  {
    var below, above := fl[..k - 1], fl[k + 1..];
    assert Node(mem, fl, BASE, k);
    assert Node(mem', [fl[k - 1]], First(above, BASE), 0);
    CutOut(fl, k);
    ChainReplace(mem, mem', below, [fl[k - 1], fl[k]], [fl[k - 1]], above);
  }

  /** Trimming node k realises TakeTail when a head of the block remains. */
  lemma LinkTrim(mem: map<nat, Header>, mem': map<nat, Header>, fl: seq<Blk>, k: nat, n: nat)
    requires Canonical(fl) && Linked(mem, fl) && 1 <= k < |fl| && 1 <= n < fl[k].size
    requires forall x :: x in fl ==> x.addr in mem && x.addr in mem'
    requires forall x :: x in fl && x.addr != fl[k].addr ==> mem'[x.addr] == mem[x.addr]
    requires mem'[fl[k].addr] == Header(mem[fl[k].addr].ptr, fl[k].size - n)
    ensures Linked(mem', TakeTail(fl, k, n))
  {
    var below, above := fl[..k], fl[k + 1..];
    var kept := Blk(fl[k].addr, fl[k].size - n);
    assert Node(mem, fl, BASE, k);
    assert Node(mem', [kept], First(above, BASE), 0);
    assert fl == below + [fl[k]] + above;
    ChainReplace(mem, mem', below, [fl[k]], [kept], above);
    assert TakeTail(fl, k, n) == below + [kept] + above;
  }

  /** Units for a request of nbytes, in the 32-bit arithmetic of malloc
      (umalloc.c:69): the payload rounded up, and one unit for the header. */
  function UnitsFor(nbytes: nat): nat {
    (nbytes + HEADER_BYTES - 1) % UINT_MOD / HEADER_BYTES + 1
  }

  /** The payload is big enough exactly when rounding up does not wrap. */
  lemma UnitsForExact(nbytes: nat)
    requires nbytes < UINT_MOD
    ensures (UnitsFor(nbytes) - 1) * HEADER_BYTES >= nbytes <==> nbytes + HEADER_BYTES - 1 < UINT_MOD
    ensures nbytes + HEADER_BYTES - 1 < UINT_MOD ==> (UnitsFor(nbytes) - 2) * HEADER_BYTES < nbytes
  {
  }

  /** A request for the whole address space is granted an empty payload. */
  lemma UnitsForWraps()
    ensures UnitsFor(0xFFFF_FFFF) == 1
  {
  }

  /** The node that freep is left at is still on the list. */
  lemma StillFree(fl: seq<Blk>, j: nat, b: Blk)
    requires Canonical(fl) && IsPred(fl, j, b)
    ensures OnList(Insert(fl, j, b), fl[j].addr)
  {
    assert Insert(fl, j, b)[j].addr == fl[j].addr;
  }

  /** The headers free writes belong to no live block. */
  lemma HeaderNotLive(heap: set<nat>, fl: seq<Blk>, live: map<nat, nat>, j: nat)
    requires Canonical(fl) && Tiled(heap, fl, live) && j < |fl|
    ensures !LiveHas(live, fl[j].addr)
  {
    assert j > 0 ==> fl[j].Has(fl[j].addr) && Covers(fl, fl[j].addr);
    assert UnitTiled(heap, fl, live, BASE) && UnitTiled(heap, fl, live, fl[j].addr);
  }

  /** The state once the first malloc has linked base to itself. */
  ghost predicate ReadyState(mem: map<nat, Header>, freep: nat, fl: seq<Blk>, live: map<nat, nat>) {
    && Canonical(fl) && Linked(mem, fl) && OnList(fl, freep)
    && Tiled(mem.Keys, fl, live)
    && (forall a :: a in live ==> BASE < a && a in mem && mem[a].size == live[a])
  }

  ghost predicate OnList(fl: seq<Blk>, freep: nat) {
    exists k: nat :: k < |fl| && fl[k].addr == freep
  }

  lemma TakeReady(mem: map<nat, Header>, mem': map<nat, Header>, freep: nat, fl: seq<Blk>, live: map<nat, nat>,
                  k: nat, n: nat, a: nat)
    requires ReadyState(mem, freep, fl, live) && 1 <= k < |fl| && 1 <= n <= fl[k].size
    requires a == fl[k].addr + fl[k].size - n && a in mem
    requires mem'.Keys == mem.Keys && Linked(mem', TakeTail(fl, k, n)) && mem'[a].size == n
    requires forall u :: u in mem && u != fl[k].addr && u != fl[k - 1].addr && u != a ==> mem'[u] == mem[u]
    ensures a !in live && ReadyState(mem', fl[k - 1].addr, TakeTail(fl, k, n), live[a := n])
    ensures forall u {:trigger LiveHas(live, u)} :: u in mem && LiveHas(live, u) ==> mem'[u] == mem[u]
  {
    TakeTiled(mem.Keys, fl, live, k, n, a);
    TakeTailCanonical(fl, k, n);
    TakeFrame(mem, mem', fl, live, k, a);
    assert TakeTail(fl, k, n)[k - 1] == fl[k - 1];
    assert fl[0].addr < fl[k].addr;
  }

  /** The headers malloc writes belong to no live block. */
  lemma TakeFrame(mem: map<nat, Header>, mem': map<nat, Header>, fl: seq<Blk>, live: map<nat, nat>, k: nat, a: nat)
    requires Canonical(fl) && Tiled(mem.Keys, fl, live) && 1 <= k < |fl| && fl[k].Has(a)
    requires mem'.Keys == mem.Keys
    requires forall u :: u in mem && u != fl[k].addr && u != fl[k - 1].addr && u != a ==> mem'[u] == mem[u]
    ensures forall u {:trigger LiveHas(live, u)} :: u in mem && LiveHas(live, u) ==> mem'[u] == mem[u]
    ensures forall x :: x in live && x in mem ==> mem'[x] == mem[x]
  {
    HeaderNotLive(mem.Keys, fl, live, k);
    HeaderNotLive(mem.Keys, fl, live, k - 1);
    assert Covers(fl, a) && UnitTiled(mem.Keys, fl, live, a);
    forall x | x in live && x in mem ensures mem'[x] == mem[x] {
      assert Blk(x, live[x]).Has(x) && LiveHas(live, x);
    }
  }

  lemma TakeInMemory(mem: map<nat, Header>, freep: nat, fl: seq<Blk>, live: map<nat, nat>, k: nat, n: nat)
    requires ReadyState(mem, freep, fl, live) && k < |fl| && 1 <= n <= fl[k].size
    ensures fl[k].addr + fl[k].size - n in mem
  {
    TakeTiled(mem.Keys, fl, live, k, n, fl[k].addr + fl[k].size - n);
  }

  /** The test that ends free's search, at node k. */
  predicate AtSlotHere(fl: seq<Blk>, k: nat, bp: nat)
    requires k < |fl|
  {
    var p, next := fl[k].addr, fl[Succ(k, |fl|)].addr;
    (bp > p && bp < next) || (p >= next && (bp > p || bp < next))
  }

  lemma AtSlot(fl: seq<Blk>, k: nat, j: nat, bp: nat)
    requires Canonical(fl) && k < |fl| && IsPred(fl, j, Blk(bp, 0))
    ensures AtSlotHere(fl, k, bp) <==> k == j
  {
  }

  lemma MiddleChain(mem: map<nat, Header>, p: Blk, b: Blk, next: nat)
    requires p.addr in mem && b.addr in mem && p.addr < b.addr
    requires p.addr + p.size == b.addr ==> mem[p.addr] == Header(next, p.size + b.size)
    requires p.addr + p.size != b.addr ==> mem[p.addr] == Header(b.addr, p.size) && mem[b.addr] == Header(next, b.size)
    ensures Chain(mem, Middle(p, b), next)
  {
  }

  /** Units that are free one after another lie in one block: coalescing leaves
      no seam for a search to trip over. */
  lemma {:induction false} ContiguousInOne(fl: seq<Blk>, a: nat, n: nat) returns (k: nat)
    requires Canonical(fl) && n >= 1
    requires forall u :: Blk(a, n).Has(u) ==> Covers(fl, u)
    ensures k < |fl| && fl[k].addr <= a && a + n <= fl[k].addr + fl[k].size
  {
    assert Blk(a, n).Has(a + n - 1) && Covers(fl, a + n - 1);
    var last :| 0 <= last < |fl| && fl[last].Has(a + n - 1);
    if n == 1 {
      k := last;
    } else {
      forall u | Blk(a, n - 1).Has(u) ensures Covers(fl, u) {
        assert Blk(a, n).Has(u);
      }
      k := ContiguousInOne(fl, a, n - 1);
      assert k == last;
    }
  }

  /** The interior of a block is no node of the list. */
  lemma NotANode(fl: seq<Blk>, k: nat, a: nat)
    requires Canonical(fl) && k < |fl| && fl[k].addr < a < fl[k].addr + fl[k].size
    ensures forall x :: x in fl ==> x.addr != a
  {
  }

  /** Every node nearer the start of a lap than node k is too small. */
  ghost predicate Passed(fl: seq<Blk>, f: nat, k: nat, nunits: nat)
    requires f < |fl| && k < |fl|
  {
    forall i :: 0 <= i < |fl| && Behind(|fl|, f, k, i) ==> fl[i].size < nunits
  }

  /** A lap that ends at node f meets node i before node k. */
  predicate Behind(n: nat, f: nat, k: nat, i: nat)
    requires f < n && k < n && i < n
  {
    Dist(i, f, n) > Dist(k, f, n)
  }

  ghost predicate Fits(fl: seq<Blk>, nunits: nat) {
    exists t :: 0 <= t < |fl| && fl[t].size >= nunits
  }

  lemma PassedStep(fl: seq<Blk>, f: nat, k: nat, nunits: nat)
    requires f < |fl| && k < |fl| && k != f && Passed(fl, f, k, nunits) && fl[k].size < nunits
    ensures Passed(fl, f, Succ(k, |fl|), nunits)
  {
    DistStep(k, f, |fl|);
    assert forall i :: 0 <= i < |fl| && Behind(|fl|, f, Succ(k, |fl|), i) ==> i == k || Behind(|fl|, f, k, i);
  }

  lemma PassedNone(fl: seq<Blk>, f: nat, nunits: nat)
    requires f < |fl|
    ensures Passed(fl, f, Succ(f, |fl|), nunits)
  {
  }

  lemma SameNode(fl: seq<Blk>, i: nat, j: nat)
    requires Canonical(fl) && i < |fl| && j < |fl| && fl[i].addr == fl[j].addr
    ensures i == j
  {
  }

  /** What the header of node k holds; from freep a fresh lap starts. */
  lemma NextNode(mem: map<nat, Header>, fl: seq<Blk>, k: nat, nunits: nat)
    requires Linked(mem, fl) && k < |fl| && fl[0].addr == BASE
    ensures fl[k].addr in mem && mem[fl[k].addr] == Header(fl[Succ(k, |fl|)].addr, fl[k].size)
    ensures Passed(fl, k, Succ(k, |fl|), nunits)
  {
    assert Node(mem, fl, BASE, k);
    PassedNone(fl, k, nunits);
  }

  /** A full lap without a fit means there is none. */
  lemma PassedAll(fl: seq<Blk>, f: nat, nunits: nat)
    requires f < |fl| && Passed(fl, f, f, nunits) && fl[f].size < nunits
    ensures !Fits(fl, nunits)
  {
    assert forall i :: 0 <= i < |fl| ==> i == f || Behind(|fl|, f, f, i);
  }

  /** Fresh memory is zeroed by the kernel; morecore stores the size. */
  function GrownMemory(mem: map<nat, Header>, hp: nat, n: nat): (r: map<nat, Header>)
    requires forall u :: u in mem ==> u < hp
    requires hp in Region(hp, n)
    ensures r.Keys == mem.Keys + Region(hp, n)
    ensures r[hp] == Header(NULL, n)
    ensures forall u :: u in mem ==> r[u] == mem[u]
  {
    (mem + map u | u in Region(hp, n) :: Header(NULL, 0))[hp := Header(NULL, n)]
  }

  /** A payload unit is no header of a free or live block. */
  lemma StoreFrame(mem: map<nat, Header>, mem': map<nat, Header>, fl: seq<Blk>, live: map<nat, nat>, a: nat, u: nat)
    requires Canonical(fl) && Linked(mem, fl) && Tiled(mem.Keys, fl, live) && a in live && a < u < a + live[a]
    requires mem'.Keys == mem.Keys && forall v :: v in mem && v != u ==> mem'[v] == mem[v]
    ensures Linked(mem', fl) && u !in live
  {
    assert Blk(a, live[a]).Has(u) && LiveHas(live, u);
    ChainInMem(mem, fl, BASE);
    forall x | x in fl ensures x.addr != u {
      var i :| 0 <= i < |fl| && fl[i] == x;
      HeaderNotLive(mem.Keys, fl, live, i);
    }
    ChainFrame(mem, mem', fl, BASE);
  }
}
